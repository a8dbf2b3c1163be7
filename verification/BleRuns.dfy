// What holds over every run of connections, writes, starts and stops.
module BleRuns {
  import opened Errors
  import opened Words
  import opened Onboard
  import opened BleControl

  // ---------------------------------------------------------------- the table as a set

  function Members(slots: seq<Slot>): set<Slot> {
    set i | 0 <= i < |slots| && slots[i] >= 0 :: slots[i]
  }

  predicate NoDuplicates(slots: seq<Slot>) {
    forall i, j | 0 <= i < j < |slots| && slots[i] >= 0 :: slots[i] != slots[j]
  }

  // The reference: a set of connections of which at most n are admitted while the app is registered.
  datatype Table = Table(registered: bool, n: nat, members: set<Slot>)

  function TableStep(t: Table, e: Event): Table {
    match e
    case Connect(id) => if |t.members| < t.n then t.(members := t.members + {id}) else t
    case Disconnect(id, _) => t.(members := t.members - {id})
    case Register(n) => if t.registered then t else Table(true, n, {})
    case Deinit(_) => Table(false, 0, {})
    case _ => t
  }

  function TableOf(s: System): Table {
    Table(s.registered, |s.slots|, Members(s.slots))
  }

  function Single(x: Slot): set<Slot> {
    if x >= 0 then {x} else {}
  }

  lemma MembersPush(slots: seq<Slot>, x: Slot)
    ensures Members(slots + [x]) == Members(slots) + Single(x)
    ensures NoDuplicates(slots + [x]) <==> NoDuplicates(slots) && x !in Members(slots)
  {
    var longer := slots + [x];
    assert forall i | 0 <= i < |slots| :: longer[i] == slots[i];
    assert longer[|slots|] == x;
    if NoDuplicates(longer) {
      forall i, j | 0 <= i < j < |slots| && slots[i] >= 0
        ensures slots[i] != slots[j]
      {
        assert longer[i] != longer[j];
      }
    }
  }

  // A broadcast goes to every connection in the table, once.
  lemma {:induction false} UsedIsMembers(slots: seq<Slot>)
    requires NoDuplicates(slots)
    ensures Members(Used(slots)) == Members(slots)
    ensures NoDuplicates(Used(slots)) && FREE !in Used(slots)
    ensures |Members(slots)| == |Used(slots)|
    ensures |Used(slots)| == |slots| <==> FREE !in slots
  {
    if slots != [] {
      var n := |slots| - 1;
      var front, x := slots[..n], slots[n];
      assert slots == front + [x];
      MembersPush(front, x);
      UsedIsMembers(front);
      MembersPush(Used(front), x);
      hide Members, NoDuplicates;
      assert FREE in slots <==> FREE in front || x == FREE;
    }
  }

  lemma LookupIffMember(slots: seq<Slot>, id: Conn)
    ensures IndexOf(slots, id) < |slots| <==> id in Members(slots)
  {
  }

  // Main result: the slot table is a set of connections, of which as many as there are slots are
  // admitted. It needs of the stack only that a new connection is not already in the table.
  lemma TableRefinesSet(s: System, e: Event)
    requires NoDuplicates(s.slots) && (!s.registered ==> s.slots == [])
    requires e.Connect? ==> e.id !in Members(s.slots)
    ensures NoDuplicates(Step(s, e).slots)
    ensures TableOf(Step(s, e)) == TableStep(TableOf(s), e)
    ensures |Members(Step(s, e).slots)| <= |Step(s, e).slots|
  {
    hide NoDuplicates, Members, Used, Step, TableStep;
    if e.Connect? {
      ConnectAdmits(s, e.id);
    } else if e.Disconnect? {
      DisconnectRemoves(s, e.id, e.accepted);
    } else {
      OthersKeepOrEmpty(s, e);
    }
    UsedIsMembers(Step(s, e).slots);
  }

  lemma OthersKeepOrEmpty(s: System, e: Event)
    requires NoDuplicates(s.slots) && (!s.registered ==> s.slots == [])
    requires !e.Connect? && !e.Disconnect?
    ensures NoDuplicates(Step(s, e).slots)
    ensures TableOf(Step(s, e)) == TableStep(TableOf(s), e)
  {
    hide NoDuplicates, Members, DelAll;
    if s.slots != Step(s, e).slots {
      AllFree(Step(s, e).slots);
    }
    AllFree([]);
  }

  lemma AllFree(slots: seq<Slot>)
    requires forall i | 0 <= i < |slots| :: slots[i] == FREE
    ensures Members(slots) == {} && NoDuplicates(slots)
  {
  }

  lemma ConnectAdmits(s: System, id: Conn)
    requires NoDuplicates(s.slots) && id !in Members(s.slots)
    ensures NoDuplicates(Step(s, Connect(id)).slots)
    ensures TableOf(Step(s, Connect(id))) == TableStep(TableOf(s), Connect(id))
  {
    hide NoDuplicates, Members, Used;
    UsedIsMembers(s.slots);
    var k := IndexOf(s.slots, FREE);
    if k < |s.slots| {
      Written(s.slots, k, id);
      NotFree(s.slots);
    }
  }

  lemma NotFree(slots: seq<Slot>)
    ensures FREE !in Members(slots)
  {
  }

  lemma DisconnectRemoves(s: System, id: Conn, accepted: bool)
    requires NoDuplicates(s.slots)
    ensures NoDuplicates(Step(s, Disconnect(id, accepted)).slots)
    ensures TableOf(Step(s, Disconnect(id, accepted))) == TableStep(TableOf(s), Disconnect(id, accepted))
  {
    hide NoDuplicates, Members;
    LookupIffMember(s.slots, id);
    NotFree(s.slots);
    var k := IndexOf(s.slots, id);
    if k < |s.slots| {
      Written(s.slots, k, FREE);
    }
  }

  // Writing one slot of a table without duplicates.
  lemma Written(slots: seq<Slot>, k: nat, v: Slot)
    requires k < |slots| && NoDuplicates(slots) && v !in Members(slots)
    ensures NoDuplicates(slots[k := v])
    ensures Members(slots[k := v]) == Members(slots) - {slots[k]} + (if v >= 0 then {v} else {})
  {
    var t := slots[k := v];
    assert forall i | 0 <= i < |slots| && i != k :: t[i] == slots[i];
    forall id: Slot | id in Members(slots) && id != slots[k]
      ensures id in Members(t)
    {
      var i :| 0 <= i < |slots| && slots[i] == id;
      assert t[i] == id;
    }
    if v >= 0 {
      assert t[k] == v;
    }
  }

  // ---------------------------------------------------------------- runs

  // No controller, no speed: the controller is in the table, and without one the speed is zero.
  predicate DeadMan(s: System) {
    && (s.controller == FREE || s.controller in Members(s.slots))
    && (s.controller == FREE ==> s.board.nowSpeed == 0)
    && (s.board.state == Stopped ==> s.board.nowSpeed == 0)
  }

  function OpenAfter(open: set<Slot>, c: Call): set<Slot> {
    if c.Added? then open + {c.id} else open - {c.id}
  }

  // The connections added and not removed since.
  function Open(calls: seq<Call>): set<Slot> {
    if calls == [] then {} else OpenAfter(Open(calls[..|calls| - 1]), calls[|calls| - 1])
  }

  // Every connection that is added is not open and every one that is removed is.
  predicate Paired(calls: seq<Call>) {
    forall i | 0 <= i < |calls| :: calls[i].Added? <==> calls[i].id !in Open(calls[..i])
  }

  lemma CallAppended(calls: seq<Call>, c: Call)
    ensures Open(calls + [c]) == OpenAfter(Open(calls), c)
    ensures Paired(calls) && (c.Added? <==> c.id !in Open(calls)) ==> Paired(calls + [c])
  {
    var longer := calls + [c];
    assert longer[..|calls|] == calls;
    assert forall i | 0 <= i < |calls| :: longer[..i] == calls[..i];
  }

  ghost predicate CallsMatch(s: System) {
    Paired(s.calls) && Open(s.calls) == Members(s.slots)
  }

  ghost predicate Sound(s: System) {
    && NoDuplicates(s.slots)
    && (!s.registered ==> s.slots == [])
    && DeadMan(s)
    && CallsMatch(s)
  }

  // The system together with the connections the stack holds open, admitted or not.
  datatype World = World(sys: System, live: set<Conn>)

  const BOOT_WORLD := World(BOOT_SYSTEM, {})

  // A new connection has an id of its own, and the attribute table is made before the service has
  // connections.
  predicate Allowed(w: World, e: Event) {
    match e
    case Connect(id) => id !in w.live
    case AttrTab(_, _) => Members(w.sys.slots) == {}
    case _ => true
  }

  function WorldStep(w: World, e: Event): World {
    World(Step(w.sys, e),
          match e
          case Connect(id) => w.live + {id}
          case Disconnect(id, _) => w.live - {id}
          case _ => w.live)
  }

  function Run(w: World, events: seq<Event>): World
    decreases |events|
  {
    if events == [] then w else Run(WorldStep(w, events[0]), events[1..])
  }

  predicate AllAllowed(w: World, events: seq<Event>)
    decreases |events|
  {
    events == [] || (Allowed(w, events[0]) && AllAllowed(WorldStep(w, events[0]), events[1..]))
  }

  ghost predicate Good(w: World) {
    Sound(w.sys) && Members(w.sys.slots) <= w.live
  }

  // The del callbacks were made for the connections in `gone`, from s to t.
  ghost predicate Cleared(s: System, t: System, gone: set<Slot>, accepted: bool) {
    && Paired(t.calls) && Open(t.calls) == Members(s.slots) - gone
    && if s.controller in gone
       then t.controller == FREE && t.board == SetSpeed(s.board, 0, accepted)
       else t.controller == s.controller && t.board == s.board
  }

  lemma DelOne(s: System, t: System, gone: set<Slot>, id: Conn, accepted: bool)
    requires Cleared(s, t, gone, accepted) && id in Members(s.slots) && id !in gone
    ensures Cleared(s, ConnDel(t, id, accepted), gone + {id}, accepted)
  {
    hide Paired, Open, SetSpeed, Members;
    CallAppended(t.calls, Removed(id));
  }

  lemma {:induction false} DelAllClears(s: System, k: nat, accepted: bool)
    requires k <= |s.slots| && NoDuplicates(s.slots[..k]) && CallsMatch(s)
    ensures Cleared(s, DelAll(s, k, accepted), Members(s.slots[..k]), accepted)
  {
    hide Paired, Open, SetSpeed, Members, NoDuplicates;
    if k == 0 {
      AllFree(s.slots[..0]);
    } else {
      hide Cleared;
      var front, id := s.slots[..k - 1], s.slots[k - 1];
      assert s.slots[..k] == front + [id];
      MembersPush(front, id);
      DelAllClears(s, k - 1, accepted);
      if id >= 0 {
        SlotIsMember(s.slots, k - 1);
        DelOne(s, DelAll(s, k - 1, accepted), Members(front), id, accepted);
      } else {
        assert Members(front) + {} == Members(front);
      }
    }
  }

  lemma SlotIsMember(slots: seq<Slot>, i: nat)
    requires i < |slots| && slots[i] >= 0
    ensures slots[i] in Members(slots)
  {
  }

  lemma DeinitClears(s: System, accepted: bool)
    requires Sound(s) && s.registered
    ensures var t := Step(s, Deinit(accepted));
            && t.controller == FREE && Paired(t.calls) && Open(t.calls) == {} && Members(t.slots) == {}
            && t.board == if s.controller == FREE then s.board else SetSpeed(s.board, 0, accepted)
  {
    hide Paired, Open, SetSpeed, NoDuplicates;
    assert s.slots[..|s.slots|] == s.slots;
    DelAllClears(s, |s.slots|, accepted);
    NotFree(s.slots);
  }

  lemma StepKeepsSound(w: World, e: Event)
    requires Good(w) && Allowed(w, e)
    ensures Good(WorldStep(w, e))
  {
    hide Good, Allowed, WorldStep;
    if e.Connect? {
      ConnectKeepsSound(w, e.id);
    } else if e.Disconnect? {
      DisconnectKeepsSound(w, e.id, e.accepted);
    } else if e.Deinit? {
      DeinitKeepsSound(w, e.accepted);
    } else {
      OthersKeepSound(w, e);
    }
  }

  lemma ConnectKeepsSound(w: World, id: Conn)
    requires Good(w) && Allowed(w, Connect(id))
    ensures Good(WorldStep(w, Connect(id)))
  {
    hide NoDuplicates, Members, Paired, Open, Used;
    TableRefinesSet(w.sys, Connect(id));
    CallAppended(w.sys.calls, Added(id));
    UsedIsMembers(w.sys.slots);
  }

  lemma DisconnectKeepsSound(w: World, id: Conn, accepted: bool)
    requires Good(w)
    ensures Good(WorldStep(w, Disconnect(id, accepted)))
  {
    hide NoDuplicates, Members, Paired, Open;
    TableRefinesSet(w.sys, Disconnect(id, accepted));
    CallAppended(w.sys.calls, Removed(id));
    LookupIffMember(w.sys.slots, id);
  }

  lemma DeinitKeepsSound(w: World, accepted: bool)
    requires Good(w)
    ensures Good(WorldStep(w, Deinit(accepted)))
  {
    hide NoDuplicates, Members, Paired, Open;
    TableRefinesSet(w.sys, Deinit(accepted));
    if w.sys.registered {
      DeinitClears(w.sys, accepted);
    } else {
      AllFree([]);
    }
  }

  lemma OthersKeepSound(w: World, e: Event)
    requires Good(w) && Allowed(w, e)
    requires !e.Connect? && !e.Disconnect? && !e.Deinit?
    ensures Good(WorldStep(w, e))
  {
    hide NoDuplicates, Members, Paired, Open;
    TableRefinesSet(w.sys, e);
    NotFree(w.sys.slots);
    AllFree([]);
  }

  // Main result, the dead-man rule over every run: the controller is an admitted live connection,
  // without a controller the speed is zero, and the add and del callbacks pair off.
  lemma {:induction false} EveryRunIsSound(w: World, events: seq<Event>)
    requires Good(w) && AllAllowed(w, events)
    ensures Good(Run(w, events))
    decreases |events|
  {
    hide Good, Allowed, WorldStep;
    if events != [] {
      StepKeepsSound(w, events[0]);
      EveryRunIsSound(WorldStep(w, events[0]), events[1..]);
    }
  }

  function TableRun(t: Table, events: seq<Event>): Table
    decreases |events|
  {
    if events == [] then t else TableRun(TableStep(t, events[0]), events[1..])
  }

  // Over every run the slots hold exactly the admitted connections that have not left.
  lemma {:induction false} RunRefinesTable(w: World, events: seq<Event>)
    requires Good(w) && AllAllowed(w, events)
    ensures TableOf(Run(w, events).sys) == TableRun(TableOf(w.sys), events)
    decreases |events|
  {
    hide NoDuplicates, Members, Step, TableStep;
    if events != [] {
      TableRefinesSet(w.sys, events[0]);
      StepKeepsSound(w, events[0]);
      RunRefinesTable(WorldStep(w, events[0]), events[1..]);
    }
  }

  // The same from boot, spelled out.
  lemma DeadManFromBoot(events: seq<Event>)
    requires AllAllowed(BOOT_WORLD, events)
    ensures var w := Run(BOOT_WORLD, events);
            var members := TableRun(Table(false, 0, {}), events).members;
            && Members(w.sys.slots) == members && members <= w.live && |members| <= |w.sys.slots|
            && (w.sys.controller == FREE || w.sys.controller in members)
            && (w.sys.controller == FREE || w.sys.board.state == Stopped ==> w.sys.board.nowSpeed == 0)
            && Paired(w.sys.calls) && Open(w.sys.calls) == members
  {
    EveryRunIsSound(BOOT_WORLD, events);
    RunRefinesTable(BOOT_WORLD, events);
    UsedIsMembers(Run(BOOT_WORLD, events).sys.slots);
  }

  // ---------------------------------------------------------------- who may set the speed

  // What makes the speed v.
  predicate Cause(s: System, e: Event, v: uint8) {
    match e
    case Write(id, handle, value, _) =>
      && id == s.controller && id in Members(s.slots)
      && IndexOf(s.handles, handle) == ATTR_SPEED < |s.handles| && value == [v] && s.board.state != Stopped
    case Disconnect(id, _) => id == s.controller && v == 0
    case Deinit(_) => s.controller != FREE && v == 0
    case Stop => v == 0
    case _ => false
  }

  // Main result: the speed changes by a one-byte write of the controller to the speed attribute, by
  // the controller's removal, or by a stop of the board, and each of these does set it.
  lemma SpeedChangesExactly(s: System, e: Event)
    requires Sound(s)
    ensures Step(s, e).board.nowSpeed != s.board.nowSpeed ==> Cause(s, e, Step(s, e).board.nowSpeed)
    ensures forall v: uint8 | Cause(s, e, v) :: Step(s, e).board.nowSpeed == v
  {
    hide NoDuplicates, Members, CallsMatch;
    if e.Deinit? && s.registered {
      DeinitClears(s, e.accepted);
    } else if e.Disconnect? {
      LookupIffMember(s.slots, e.id);
    } else if e.Write? {
      LookupIffMember(s.slots, e.id);
    } else if e.Deinit? {
      NoSlotsNoMembers(s);
    }
  }

  lemma NoSlotsNoMembers(s: System)
    requires s.slots == []
    ensures Members(s.slots) == {}
  {
  }

  // An admitted connection leaves the controller as it is exactly when that has an id above zero.
  lemma AdmissionKeepsControllerIff(s: System, id: Conn)
    requires Sound(s) && id !in Members(s.slots) && |Members(s.slots)| < |s.slots|
    ensures Step(s, Connect(id)).controller in {s.controller, id}
    ensures Step(s, Connect(id)).controller == s.controller <==> s.controller > 0
  {
    hide NoDuplicates, Members, CallsMatch;
    NotFree(s.slots);
    UsedIsMembers(s.slots);
  }

  // Controller 0 is displaced without its speed being reset.
  lemma ZeroIsDisplaced(s: System, id: Conn)
    requires Sound(s) && s.controller == 0 && id !in Members(s.slots) && |Members(s.slots)| < |s.slots|
    ensures Step(s, Connect(id)).controller == id != s.controller
    ensures Step(s, Connect(id)).board == s.board
  {
    AdmissionKeepsControllerIff(s, id);
  }

  // The board as controller c alone drives it: no other connection has a part in it.
  function Driven(b: Board, handles: seq<int>, c: Conn, events: seq<Event>): Board
    decreases |events|
  {
    if events == [] then b
    else
      var next :=
        match events[0]
        case Write(id, handle, value, accepted) =>
          if id == c && IndexOf(handles, handle) == ATTR_SPEED < |handles| && |value| == 1
          then SetSpeed(b, value[0], accepted) else b
        case Start(how) => StartBoard(b, how)
        case Stop => StopBoard(b)
        case _ => b;
      Driven(next, handles, c, events[1..])
  }

  predicate Stays(c: Conn, events: seq<Event>) {
    forall i | 0 <= i < |events| :: !events[i].Deinit? && (events[i].Disconnect? ==> events[i].id != c)
  }

  lemma ControllerStep(w: World, c: Conn, e: Event)
    requires Good(w) && Allowed(w, e) && w.sys.controller == c > 0 && Stays(c, [e])
    ensures var t := Step(w.sys, e);
            && t.controller == c && t.handles == w.sys.handles
            && t.board == Driven(w.sys.board, w.sys.handles, c, [e])
  {
    hide NoDuplicates, CallsMatch;
    assert c in Members(w.sys.slots);
    assert [e][0] == e && [e][1..] == [];
    LookupIffMember(w.sys.slots, c);
    if e.Write? {
      LookupIffMember(w.sys.slots, e.id);
    }
  }

  // Main result: a controller with an id above zero stays the controller until it is removed,
  // whoever else connects, writes or leaves, and the board goes as it alone drives it.
  lemma {:induction false} FirstComeKeepsControl(w: World, c: Conn, events: seq<Event>)
    requires Good(w) && AllAllowed(w, events) && w.sys.controller == c > 0 && Stays(c, events)
    ensures var t := Run(w, events).sys;
            && t.controller == c && t.handles == w.sys.handles
            && t.board == Driven(w.sys.board, w.sys.handles, c, events)
    decreases |events|
  {
    hide Good, Allowed, Step, SetSpeed, StartBoard, StopBoard;
    if events != [] {
      var e := events[0];
      assert Stays(c, [e]);
      ControllerStep(w, c, e);
      StepKeepsSound(w, e);
      assert [e][1..] == [];
      FirstComeKeepsControl(WorldStep(w, e), c, events[1..]);
    }
  }

  // ---------------------------------------------------------------- a board that can be driven

  // The handles of a complete attribute table are taken, and nothing else is.
  lemma AttrTabTakenIff(s: System, ok: bool, newHandles: seq<int>)
    requires s.registered && newHandles != s.handles
    ensures Step(s, AttrTab(ok, newHandles)).handles == newHandles <==> ok && |newHandles| == 7
    ensures !(ok && |newHandles| == 7) ==> Step(s, AttrTab(ok, newHandles)) == s
  {
  }

  // The third of seven handles is that of the speed.
  predicate SpeedHandle(handles: seq<int>, h: int) {
    |handles| == 7 && handles[2] == h && handles[0] != h && handles[1] != h
  }

  lemma SpeedHandleIs(handles: seq<int>, h: int)
    requires SpeedHandle(handles, h)
    ensures IndexOf(handles, h) == 2
  {
    IndexOfIs(handles, h, 2);
  }

  // Main result: on a board that was stopped, how its start goes decides what the controller's write
  // does. Once started it is driven, after a failed start it refuses, and left half started it records
  // the speed.
  lemma StartDecides(s: System, c: Conn, h: int, v: uint8, accepted: bool, how: Outcome)
    requires Sound(s) && s.board.state == Stopped
    requires s.controller == c && SpeedHandle(s.handles, h)
    ensures var started := Step(s, Event.Start(how)).board;
            var b := Step(Step(s, Event.Start(how)), Write(c, h, [v], accepted)).board;
            && (how.Fails? ==>
                  && started.state == Stopped && b == started && b.nowSpeed == 0
                  && b.duty == if how.pwmReady then 0 else s.board.duty)
            && (how.NoMemory? ==> started.state == Init && started.duty == s.board.duty && b.nowSpeed == v)
            && (how.Starts? ==>
                  && started.state == Running && started.nowSpeed == 0 && started.duty == 0
                  && b.state == Running && b.nowSpeed == v
                  && b.duty == (if accepted then v else 0) && b.err == (if accepted then Ok else InvalidParam))
  {
    hide NoDuplicates, Members, CallsMatch;
    SpeedHandleIs(s.handles, h);
    LookupIffMember(s.slots, c);
  }

  // From boot to a driven motor.
  lemma DrivesFromBoot(n: nat, handles: seq<int>, h: int, c: Conn, v: uint8)
    requires n > 0 && SpeedHandle(handles, h)
    ensures var events := [Register(n), AttrTab(true, handles), Connect(c), Event.Start(Starts),
                           Write(c, h, [v], true)];
            && AllAllowed(BOOT_WORLD, events)
            && var s := Run(BOOT_WORLD, events).sys;
               s.controller == c && s.board.state == Running && s.board.nowSpeed == v && s.board.duty == v
  {
    hide NoDuplicates, Members, CallsMatch, Step;
    var w1 := WorldStep(BOOT_WORLD, Register(n));
    var w2 := WorldStep(w1, AttrTab(true, handles));
    var w3 := WorldStep(w2, Connect(c));
    var w4 := WorldStep(w3, Event.Start(Starts));
    var w5 := WorldStep(w4, Write(c, h, [v], true));
    FiveSteps(BOOT_WORLD, [Register(n), AttrTab(true, handles), Connect(c), Event.Start(Starts),
                           Write(c, h, [v], true)]);
    ConnectedFromBoot(n, handles, c);
    StartDecides(w3.sys, c, h, v, true, Starts);
    StartKeepsApp(w3.sys);
    WriteKeepsApp(w4.sys, c, h, [v], true);
  }

  lemma FiveSteps(w: World, es: seq<Event>)
    requires |es| == 5
    ensures var w1 := WorldStep(w, es[0]);
            var w2 := WorldStep(w1, es[1]);
            var w3 := WorldStep(w2, es[2]);
            var w4 := WorldStep(w3, es[3]);
            && Run(w, es) == WorldStep(w4, es[4])
            && (AllAllowed(w, es) <==>
                  && Allowed(w, es[0]) && Allowed(w1, es[1]) && Allowed(w2, es[2])
                  && Allowed(w3, es[3]) && Allowed(w4, es[4]))
  {
    hide WorldStep, Allowed;
    var r1, r2 := es[1..], es[2..];
    var r3, r4 := es[3..], es[4..];
    assert r1[1..] == r2 && r2[1..] == r3 && r3[1..] == r4 && r4[1..] == [];
    var w1 := WorldStep(w, es[0]);
    var w2 := WorldStep(w1, es[1]);
    var w3 := WorldStep(w2, es[2]);
    var w4 := WorldStep(w3, es[3]);
    var w5 := WorldStep(w4, es[4]);
    assert Run(w5, []) == w5 && AllAllowed(w5, []);
    assert Run(w4, r4) == w5 && (AllAllowed(w4, r4) <==> Allowed(w4, es[4]));
    assert Run(w3, r3) == w5 && (AllAllowed(w3, r3) <==> Allowed(w3, es[3]) && AllAllowed(w4, r4));
    assert Run(w2, r2) == w5 && (AllAllowed(w2, r2) <==> Allowed(w2, es[2]) && AllAllowed(w3, r3));
    assert Run(w1, r1) == w5 && (AllAllowed(w1, r1) <==> Allowed(w1, es[1]) && AllAllowed(w2, r2));
  }

  // The first connection of a registered application with its attributes.
  lemma ConnectedFromBoot(n: nat, handles: seq<int>, c: Conn)
    requires n > 0 && |handles| == 7
    ensures var w1 := WorldStep(BOOT_WORLD, Register(n));
            var w2 := WorldStep(w1, AttrTab(true, handles));
            var w3 := WorldStep(w2, Connect(c));
            && Allowed(BOOT_WORLD, Register(n)) && Allowed(w1, AttrTab(true, handles)) && Allowed(w2, Connect(c))
            && Good(w3) && w3.sys.controller == c && w3.sys.handles == handles && w3.sys.board == BOOT
  {
    hide NoDuplicates, Members, CallsMatch;
    var w1 := WorldStep(BOOT_WORLD, Register(n));
    var w2 := WorldStep(w1, AttrTab(true, handles));
    BootIsGood();
    AllFree(w1.sys.slots);
    StepKeepsSound(BOOT_WORLD, Register(n));
    StepKeepsSound(w1, AttrTab(true, handles));
    StepKeepsSound(w2, Connect(c));
    assert w2.sys.slots[0] == FREE;
  }

  lemma BootIsGood()
    ensures Good(BOOT_WORLD)
  {
  }

  lemma StartKeepsApp(s: System)
    ensures Step(s, Event.Start(Starts)).controller == s.controller
  {
  }

  lemma WriteKeepsApp(s: System, c: Conn, h: int, value: seq<uint8>, accepted: bool)
    ensures Step(s, Write(c, h, value, accepted)).controller == s.controller
  {
  }

  // ---------------------------------------------------------------- connections that are not admitted

  predicate Leaves(id: Conn, e: Event) {
    e.Disconnect? && e.id == id
  }

  // A connection that is live but not admitted is never let in later, and nothing it does, its
  // leaving included, changes the system.
  lemma {:induction false} RejectedHasNoEffect(w: World, id: Conn, events: seq<Event>)
    requires Good(w) && AllAllowed(w, events) && id in w.live && id !in Members(w.sys.slots)
    requires forall i | 0 <= i < |events| :: !Leaves(id, events[i])
    ensures id in Run(w, events).live && id !in Members(Run(w, events).sys.slots)
    ensures forall handle, value, accepted ::
              Step(Run(w, events).sys, Write(id, handle, value, accepted)) == Run(w, events).sys
    ensures forall accepted :: Step(Run(w, events).sys, Disconnect(id, accepted)) == Run(w, events).sys
    decreases |events|
  {
    hide Good, Members, NoDuplicates;
    if events == [] {
      LookupIffMember(w.sys.slots, id);
    } else {
      var e := events[0];
      assert !Leaves(id, e);
      StepKeepsSound(w, e);
      StaysOut(w, id, e);
      RejectedHasNoEffect(WorldStep(w, e), id, events[1..]);
    }
  }

  lemma StaysOut(w: World, id: Conn, e: Event)
    requires Good(w) && Allowed(w, e) && id in w.live && id !in Members(w.sys.slots) && !Leaves(id, e)
    ensures id in WorldStep(w, e).live && id !in Members(WorldStep(w, e).sys.slots)
  {
    hide Members, NoDuplicates, Step;
    TableRefinesSet(w.sys, e);
  }

  // ---------------------------------------------------------------- the motor's signal

  // Exactly when the duty of the PWM signal goes along with the recorded speed.
  lemma DutyFollowsIff(s: System, e: Event)
    requires Sound(s) && s.board.duty == s.board.nowSpeed
    ensures Step(s, e).board.duty == Step(s, e).board.nowSpeed <==>
            && (e.Stop? ==> s.board.nowSpeed == 0)
            && (e.Write? && !e.accepted ==> !exists v: uint8 :: v != s.board.nowSpeed && Cause(s, e, v))
            && ((e.Disconnect? || e.Deinit?) && !e.accepted && s.board.nowSpeed != 0 ==> !Cause(s, e, 0))
  {
    hide NoDuplicates, Members, CallsMatch;
    SpeedChangesExactly(s, e);
    if e.Deinit? && s.registered {
      DeinitClears(s, e.accepted);
    } else if e.Deinit? {
      NoSlotsNoMembers(s);
    } else if e.Disconnect? {
      LookupIffMember(s.slots, e.id);
    } else if e.Write? {
      LookupIffMember(s.slots, e.id);
      if |e.value| == 1 {
        assert e.value == [e.value[0]];
      }
    }
  }

  // The hardware takes every duty, and the board is only stopped at speed zero.
  predicate Smooth(w: World, events: seq<Event>)
    decreases |events|
  {
    events == [] ||
    var e := events[0];
    && (e.Stop? ==> w.sys.board.nowSpeed == 0)
    && (e.Write? || e.Disconnect? || e.Deinit? ==> e.accepted)
    && Smooth(WorldStep(w, e), events[1..])
  }

  // Over such a run the duty is the recorded speed throughout, so that without a controller the motor
  // is not driven either.
  lemma {:induction false} DutyFollowsOverRuns(w: World, events: seq<Event>)
    requires Good(w) && AllAllowed(w, events) && Smooth(w, events)
    requires w.sys.board.duty == w.sys.board.nowSpeed
    ensures var t := Run(w, events).sys;
            t.board.duty == t.board.nowSpeed && (t.controller == FREE ==> t.board.duty == 0)
    decreases |events|
  {
    hide NoDuplicates, Members, CallsMatch, Step;
    if events != [] {
      StepKeepsSound(w, events[0]);
      DutyFollowsIff(w.sys, events[0]);
      DutyFollowsOverRuns(WorldStep(w, events[0]), events[1..]);
    }
  }

  // A stop of the board while the motor is driven leaves the signal on, and the controller's leaving
  // afterwards does not turn it off either.
  lemma StopLeavesTheSignalOn(s: System, accepted: bool)
    requires Sound(s) && s.controller >= 0
    ensures Step(Step(s, Stop), Disconnect(s.controller, accepted)).board == StopBoard(s.board)
    ensures StopBoard(s.board).duty == s.board.duty && StopBoard(s.board).nowSpeed == 0
  {
  }

  // Making the attribute table again keeps the dead-man rule only while the speed is zero.
  lemma AttrTabKeepsDeadManIff(s: System, newHandles: seq<int>)
    requires Sound(s) && s.registered && |newHandles| == ATTR_NUM
    ensures DeadMan(Step(s, AttrTab(true, newHandles))) <==> s.board.nowSpeed == 0
  {
  }
}
