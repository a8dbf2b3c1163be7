// The remote: movements of the trackpad integrated into a speed that drives the PWM signal.
module Remote {
  import opened Errors
  import opened Sequences
  import opened Ps2Frame
  import opened Ps2Deframer
  import opened Ps2Movement
  import opened Ps2Link
  import opened Ps2Sync
  import opened Ps2Stale
  import opened Ps2EndToEnd
  import opened Ps2Handle

  function Clamp(v: int): (r: int)
    ensures 0 <= r <= 255
    ensures 0 <= v <= 255 ==> r == v
  {
    if v > 255 then 255 else if v < 0 then 0 else v
  }

  function Abs(d: int): nat {
    if d < 0 then -d else d
  }

  // The clamped value is the nearest in range.
  lemma ClampIsNearest(v: int, w: int)
    requires 0 <= w <= 255
    ensures Abs(v - Clamp(v)) <= Abs(v - w)
  {
  }

  // The speed after each movement.
  function Speeds(speed: int, movements: seq<Movement>): (r: seq<int>)
    ensures |r| == |movements|
    ensures forall v | v in r :: 0 <= v <= 255
    decreases |movements|
  {
    if movements == [] then []
    else
      var v := Clamp(speed + movements[0].x);
      [v] + Speeds(v, movements[1..])
  }

  // One step of the task and its surroundings: the edges before the step, those inside the
  // resynchronisation it may do, those inside the call of await_mvmt it may do instead, and
  // whether the PWM hardware accepts a duty.
  datatype Round = Round(idle: seq<bool>, sync: SyncEnv, waits: seq<seq<bool>>, pwm: bool)

  predicate Playable(script: seq<Round>) {
    forall r | r in script :: |r.waits| >= 3
  }

  datatype TaskState = TaskState(link: Link, reading: bool, speed: int, duties: seq<int>)

  // One step: a resynchronisation until it succeeds, then calls of await_mvmt until one fails.
  function TaskStep(t: TaskState, r: Round): (u: TaskState)
    requires Inv(t.link) && |r.waits| >= 3
    ensures Inv(u.link)
  {
    var l := Edges(t.link, r.idle);
    if !t.reading then
      var s := MvmtSync(l, r.sync);
      t.(link := s.link, reading := s.err == Ok)
    else
      var a := AwaitMvmt(l, r.waits);
      match a.outcome
      case Moved(m) =>
        var v := Clamp(t.speed + m.x);
        TaskState(a.link, true, v, t.duties + [v])
      case _ => t.(link := a.link, reading := false)
  }

  function Task(t: TaskState, script: seq<Round>): (u: TaskState)
    requires Inv(t.link) && Playable(script)
    ensures Inv(u.link)
    decreases |script|
  {
    if script == [] then t else Task(TaskStep(t, script[0]), script[1..])
  }

  class RemoteControl {
    var speed: int
    var duties: seq<int>    // the values handed to the PWM driver, in order

    constructor ()
      ensures speed == 0 && duties == []
    {
      speed, duties := 0, [];
    }

    // esk8_pwm_sgnl_set takes a uint8_t. Whether the hardware accepts it is not decided here.
    method PwmSet(value: int, accepted: bool) returns (err: Err)
      modifies `duties
      ensures duties == old(duties) + [value % 256]
      ensures err == if accepted then Ok else InvalidParam
    {
      duties := duties + [value % 256];
      err := if accepted then Ok else InvalidParam;
    }

    // The conversion to uint8_t loses nothing, since the speed was clamped first.
    method IncrSpeed(incr: int, accepted: bool) returns (err: Err)
      modifies this
      ensures speed == Clamp(old(speed) + incr)
      ensures if old(speed) + incr > 255 then speed == 255
              else if old(speed) + incr < 0 then speed == 0
              else speed == old(speed) + incr
      ensures duties == old(duties) + [speed]
      ensures err == if accepted then Ok else InvalidParam
    {
      speed := speed + incr;
      speed := if speed > 255 then 255 else speed;
      speed := if speed < 0 then 0 else speed;
      err := PwmSet(speed, accepted);
    }

    ghost function State(h: Handle, reading: bool): TaskState
      reads this, h, h.mvmt
    {
      TaskState(h.Value(), reading, speed, duties)
    }

    method SyncStep(h: Handle, r: Round) returns (err: Err)
      requires h.Valid() && |r.waits| >= 3
      modifies h
      ensures State(h, err == Ok) == TaskStep(old(State(h, false)), r)
      ensures h.Valid()
    {
      h.Wait(r.idle);
      err := h.MvmtSync(r.sync);
    }

    method MoveStep(h: Handle, r: Round) returns (moved: bool)
      requires h.Valid() && |r.waits| >= 3
      modifies this, h, h.mvmt
      ensures State(h, moved) == TaskStep(old(State(h, true)), r)
      ensures h.Valid()
    {
      h.Wait(r.idle);
      var outcome := h.AwaitMvmt(r.waits);
      moved := outcome.Moved?;
      if moved {
        var pwm := IncrSpeed(outcome.movement.x, r.pwm);
      }
    }

    // The task of the remote, cut after the given number of steps: an outer loop of
    // resynchronisations, an inner loop of movements.
    method TaskPs2(h: Handle, script: seq<Round>)
      requires h.Valid() && Playable(script)
      modifies this, h, h.mvmt
      ensures exists reading :: State(h, reading) == Task(old(State(h, false)), script)
      ensures h.Valid()
    {
      hide TaskStep, Inv;
      var i := 0;
      ghost var reading := false;
      while i < |script|
        invariant 0 <= i <= |script|
        invariant h.Valid()
        invariant !reading || i == |script|
        invariant Task(State(h, reading), script[i..]) == Task(old(State(h, false)), script)
      {
        var err := SyncStep(h, script[i]);
        reading := err == Ok;
        i := i + 1;
        if err != Ok {
          continue;
        }
        while i < |script|
          invariant 0 <= i <= |script|
          invariant reading
          invariant h.Valid()
          invariant Task(State(h, reading), script[i..]) == Task(old(State(h, false)), script)
          decreases |script| - i
        {
          var moved := MoveStep(h, script[i]);
          i := i + 1;
          if !moved {
            reading := false;
            break;
          }
        }
      }
    }
  }

  // ---------------------------------------------------------------- what the task does to the speed

  // The movements the task gets, in order.
  function Moves(t: TaskState, script: seq<Round>): seq<Movement>
    requires Inv(t.link) && Playable(script)
    decreases |script|
  {
    if script == [] then []
    else
      var a := if t.reading then AwaitMvmt(Edges(t.link, script[0].idle), script[0].waits).outcome else Pending;
      (if a.Moved? then [a.movement] else []) + Moves(TaskStep(t, script[0]), script[1..])
  }

  // Over any run, with any errors and resynchronisations: the duties are the speeds obtained by
  // adding each movement's x and clamping, nothing else changes the speed, and it stays in range.
  lemma {:induction false} DutiesFollowMovements(t: TaskState, script: seq<Round>)
    requires Inv(t.link) && Playable(script)
    requires 0 <= t.speed <= 255
    ensures var u := Task(t, script);
            var speeds := Speeds(t.speed, Moves(t, script));
            && u.duties == t.duties + speeds
            && u.speed == (if speeds == [] then t.speed else speeds[|speeds| - 1])
            && 0 <= u.speed <= 255
    decreases |script|
  {
    hide MvmtSync, AwaitMvmt, Edges, TaskStep;
    if script != [] {
      var r, rest := script[0], script[1..];
      var s := TaskStep(t, r);
      if !t.reading {
        SyncTurn(t, r);
        DutiesFollowMovements(s, rest);
        assert Moves(t, script) == Moves(s, rest);
      } else {
        ReadTurn(t, r);
        DutiesFollowMovements(s, rest);
        var o := AwaitMvmt(Edges(t.link, r.idle), r.waits).outcome;
        if o.Moved? {
          assert Moves(t, script) == [o.movement] + Moves(s, rest);
          assert Speeds(t.speed, Moves(t, script)) == [s.speed] + Speeds(s.speed, Moves(s, rest)) by {
            assert ([o.movement] + Moves(s, rest))[1..] == Moves(s, rest);
          }
          Regroup(t.duties, [s.speed], Speeds(s.speed, Moves(s, rest)));
        } else {
          assert Moves(t, script) == Moves(s, rest);
        }
      }
    }
  }

  // Where one movement takes the speed: never against its direction, and to a bound if beyond it.
  predicate Follows(before: int, x: int, after: int) {
    && (x >= 0 ==> before <= after) && (x <= 0 ==> after <= before)
    && (before + x > 255 ==> after == 255) && (before + x < 0 ==> after == 0)
    && (0 <= before + x <= 255 ==> after == before + x)
  }

  lemma {:induction false} SpeedsFollow(speed: int, movements: seq<Movement>, i: nat)
    requires 0 <= speed <= 255 && i < |movements|
    ensures var speeds := Speeds(speed, movements);
            Follows(if i == 0 then speed else speeds[i - 1], movements[i].x, speeds[i])
    decreases |movements|
  {
    if i > 0 {
      SpeedsFollow(Clamp(speed + movements[0].x), movements[1..], i - 1);
    }
  }

  // Main result: over every run of the task, each movement takes the duty on from the one before it.
  lemma EveryDutyFollows(t: TaskState, script: seq<Round>, i: nat)
    requires Inv(t.link) && Playable(script) && 0 <= t.speed <= 255
    requires i < |Moves(t, script)|
    ensures var u := Task(t, script);
            var n := |t.duties|;
            && |u.duties| == n + |Moves(t, script)|
            && Follows(if i == 0 then t.speed else u.duties[n + i - 1], Moves(t, script)[i].x, u.duties[n + i])
  {
    hide Task, Moves, Speeds, Follows;
    DutiesFollowMovements(t, script);
    SpeedsFollow(t.speed, Moves(t, script), i);
  }

  lemma SyncTurn(t: TaskState, r: Round)
    requires Inv(t.link) && |r.waits| >= 3 && !t.reading
    ensures var s := MvmtSync(Edges(t.link, r.idle), r.sync);
            TaskStep(t, r) == t.(link := s.link, reading := s.err == Ok)
  {
    hide MvmtSync, Edges;
  }

  lemma ReadTurn(t: TaskState, r: Round)
    requires Inv(t.link) && |r.waits| >= 3 && t.reading
    ensures var a := AwaitMvmt(Edges(t.link, r.idle), r.waits);
            var s := TaskStep(t, r);
            && s.link == a.link && (s.reading <==> a.outcome.Moved?)
            && (a.outcome.Moved? ==>
                  s.speed == Clamp(t.speed + a.outcome.movement.x) && s.duties == t.duties + [s.speed])
            && (!a.outcome.Moved? ==> s.speed == t.speed && s.duties == t.duties)
  {
    hide AwaitMvmt, Edges;
  }

  // The events of a run of the task.
  function TaskEvents(t: TaskState, script: seq<Round>): seq<Event>
    requires Inv(t.link) && Playable(script)
    decreases |script|
  {
    if script == [] then []
    else
      var r := script[0];
      var l := Edges(t.link, r.idle);
      Clocks(r.idle)
      + ((if t.reading then CallEvents(l, r.waits) else SyncEvents(l, r.sync))
         + TaskEvents(TaskStep(t, r), script[1..]))
  }

  // The whole task, through all its errors and resynchronisations, is a run of the link: what holds
  // over all runs holds of it.
  lemma {:induction false} TaskIsRun(t: TaskState, script: seq<Round>)
    requires Inv(t.link) && Playable(script)
    ensures Task(t, script).link == Run(t.link, TaskEvents(t, script))
    decreases |script|
  {
    hide AwaitMvmt, CallEvents, SyncEvents, MvmtSync, Edge, Edges, Step;
    if script != [] {
      var r := script[0];
      var l := Edges(t.link, r.idle);
      var call := if t.reading then CallEvents(l, r.waits) else SyncEvents(l, r.sync);
      var later := TaskEvents(TaskStep(t, r), script[1..]);
      if t.reading {
        CallIsRun(l, r.waits);
      } else {
        SyncIsRun(l, r.sync);
      }
      RunAppend(l, call, later);
      RunEdges(t.link, r.idle, call + later);
      TaskIsRun(TaskStep(t, r), script[1..]);
    }
  }

  // At every step of the task there is at most one response, queued or still to come.
  lemma {:induction false} TaskKeepsOutstanding(t: TaskState, script: seq<Round>)
    requires Inv(t.link) && Playable(script) && t.link.unlocked && Outstanding(t.link) <= 1
    ensures Task(t, script).link.unlocked && Outstanding(Task(t, script).link) <= 1
    decreases |script|
  {
    hide AwaitMvmt, MvmtSync, Edge, Edges, Outstanding;
    if script != [] {
      var r := script[0];
      EdgesKeepOutstanding(t.link, r.idle);
      var l := Edges(t.link, r.idle);
      if t.reading {
        AwaitKeepsOutstanding(l, r.waits);
      } else {
        SyncKeepsOutstanding(l, r.sync);
      }
      TaskKeepsOutstanding(TaskStep(t, r), script[1..]);
    }
  }

  function InitialTask(cap: nat): (t: TaskState)
    ensures Inv(t.link)
  {
    TaskState(Init(cap), false, 0, [])
  }

  // So, from the start, a resynchronisation that the task makes means that the device acknowledged it
  // exactly when the queue does not hold the one old acknowledgement it can hold.
  lemma TaskSyncIsAcknowledgedIff(cap: nat, script: seq<Round>, idle: seq<bool>)
    requires cap > 0 && Playable(script)
    ensures var l := Edges(Task(InitialTask(cap), script).link, idle);
            && |l.rx| <= 1 && l.unlocked
            && ((forall env | MvmtSync(l, env).err == Ok :: Acknowledged(env)) <==>
                !exists f | IsAck(f) :: l.rx == [f])
  {
    hide MvmtSync, Acknowledged, Edge, Task;
    TaskKeepsOutstanding(InitialTask(cap), script);
    TaskIsRun(InitialTask(cap), script);
    var m := Task(InitialTask(cap), script).link;
    EdgesKeepOutstanding(m, idle);
    var l := Edges(m, idle);
    SyncIsAcknowledgedIff(l);
    if CanFake(l) {
      assert l.rx == [l.rx[0]];
    }
  }

  // The device reads the disable and answers too late.
  function UnansweredTurn(): (r: Round)
    ensures |r.waits| >= 3
  {
    var silent := CmdEnv([], []);
    Round([], SyncEnv(CmdEnv(seq(TX_EDGES, _ => false), []), [], [], silent), [[], [], []], true)
  }

  // The late answer is taken for that to the next disable, and the device's answer to this one for
  // that to the enable.
  function LateTurn(): (r: Round)
    ensures |r.waits| >= 3
  {
    Round(FrameBits(RES_ACK), SyncEnv(CmdEnv([], AckBits()), [], [], CmdEnv([], [])), [[], [], []], true)
  }

  // And the task does get there: it then reads, on a link that is still sending.
  lemma TaskCanBeFaked(cap: nat)
    requires cap > 0
    ensures var t := Task(InitialTask(cap), [UnansweredTurn(), LateTurn()]);
            t.reading && t.link.mode == Send
  {
    hide Task, TaskStep, AckBits, Edges, MvmtSync, FrameBits;
    var t := InitialTask(cap);
    NoEdges(t.link);
    UnansweredSync(t.link);
    SyncTurn(t, UnansweredTurn());
    var u := TaskStep(t, UnansweredTurn());
    var l := Edges(u.link, FrameBits(RES_ACK));
    AckFrame();
    assert |l.rx| == 1 && IsAck(l.rx[0]) && l.unlocked && l.cap > 0;
    OneStaleAckFakesSync(l, AckBits());
    SyncTurn(u, LateTurn());
    TwoTurns(t, UnansweredTurn(), LateTurn());
  }

  lemma TwoTurns(t: TaskState, a: Round, b: Round)
    requires Inv(t.link) && Playable([a, b])
    ensures Task(t, [a, b]) == TaskStep(TaskStep(t, a), b)
  {
    hide TaskStep;
    assert [a, b][1..] == [b] && [b][1..] == [];
    var s := TaskStep(t, a);
    assert Task(TaskStep(s, b), []) == TaskStep(s, b);
    assert Task(s, [b]) == TaskStep(s, b);
  }

  lemma UnansweredSync(l: Link)
    requires Inv(l) && l.unlocked && l.rx == [] && l.cap > 0
    ensures var r := MvmtSync(l, UnansweredTurn().sync);
            && r.err == Ps2RespTimeout && r.link.mode == Recv && r.link.cap == l.cap
            && Edges(r.link, FrameBits(RES_ACK)).rx == [CutFrame(FrameBits(RES_ACK))]
            && Edges(r.link, FrameBits(RES_ACK)).unlocked
  {
    hide SendCmd, FrameBits, CutFrame;
    var wait := UnansweredTurn().sync.disable.wait;
    AckFrame();
    assert wait[TX_EDGES..] == [];
    TimedOutCommandLeavesResponse(l, CMD_DATA_DISABLE, wait, FrameBits(RES_ACK));
  }
}
