// The push button: an edge interrupt with a debounce window and a one-shot timer for long presses.
module Button {
  import opened Errors
  import opened Sequences
  import opened Words

  // The longest time in milliseconds whose microseconds fit in 32 bits.
  const MAX_MS := 4_294_967

  // Times are microseconds since boot.
  datatype Config = Config(debounceMs: uint32, longpressMs: uint32) {
    // The products are taken on 32 bits.
    function DebounceUs(): (us: uint32)
      ensures us == debounceMs * 1000 <==> debounceMs <= MAX_MS
    {
      debounceMs * 1000 % 0x1_0000_0000
    }

    function LongpressUs(): (us: uint32)
      ensures us == longpressMs * 1000 <==> longpressMs <= MAX_MS
    {
      longpressMs * 1000 % 0x1_0000_0000
    }
  }

  datatype Press = Short | Long

  datatype State = Released | Pressed

  // `delayUs` is the time of the last edge that was not debounced away. The timer runs out and its
  // callback runs some time later: `due` tells that it is on its way, for the deadline `dueBy`.
  datatype Btn = Btn(
    state: State, delayUs: int, armed: bool, deadline: int, due: bool, dueBy: int, queue: seq<Press>)

  const IDLE := Btn(Released, 0, false, 0, false, 0, [])

  // The queue holds one press and drops what comes while it is full.
  function Send(b: Btn, press: Press): Btn {
    if b.queue == [] then b.(queue := [press]) else b
  }

  function Debounces(cfg: Config, b: Btn, now: int): bool {
    now - b.delayUs < cfg.DebounceUs()
  }

  // The edge interrupt.
  function EdgeIsr(cfg: Config, b: Btn, now: int, up: bool): Btn {
    if Debounces(cfg, b, now) then b
    else if up then
      if b.state == Pressed then Send(b.(delayUs := now, armed := false, state := Released), Short)
      else b.(delayUs := now)
    else
      if b.state == Released then StartOnce(b.(delayUs := now, state := Pressed), now + cfg.LongpressUs())
      else b.(delayUs := now)
  }

  // A timer that is already running refuses to start.
  function StartOnce(b: Btn, deadline: int): Btn {
    if b.armed then b else b.(armed := true, deadline := deadline)
  }

  // The one-shot timer runs out. Stopping it no longer keeps its callback from running.
  function Expire(b: Btn): Btn {
    b.(armed := false, due := true, dueBy := b.deadline)
  }

  // The timer callback.
  function TimerIsr(b: Btn): Btn {
    Send(b.(due := false, state := Released), Long)
  }

  class Button {
    const cfg: Config
    var state: State
    var delayUs: int
    var armed: bool
    var deadline: int
    var due: bool
    var dueBy: int
    var queue: seq<Press>

    ghost function Value(): Btn
      reads this
    {
      Btn(state, delayUs, armed, deadline, due, dueBy, queue)
    }

    constructor (cfg: Config)
      ensures Value() == IDLE && this.cfg == cfg
    {
      this.cfg := cfg;
      state, delayUs, armed, deadline, due, dueBy, queue := Released, 0, false, 0, false, 0, [];
    }

    method QueueSend(press: Press)
      modifies this`queue
      ensures Value() == Send(old(Value()), press)
    {
      if |queue| < 1 {
        queue := queue + [press];
      }
    }

    // The timer itself.
    method TimerExpires()
      modifies this
      ensures Value() == Expire(old(Value()))
    {
      armed, due, dueBy := false, true, deadline;
    }

    method TmrIsr()
      modifies this
      ensures Value() == TimerIsr(old(Value()))
    {
      due := false;
      state := Released;
      QueueSend(Long);
    }

    method BtnIsr(timerUs: int, btnUp: bool)
      modifies this
      ensures Value() == EdgeIsr(cfg, old(Value()), timerUs, btnUp)
    {
      if timerUs - delayUs < cfg.DebounceUs() {
        return;
      }
      delayUs := timerUs;
      if btnUp {
        match state {
          case Pressed =>
            armed := false;
            state := Released;
          case Released =>
            return;
        }
      } else {
        match state {
          case Released =>
            state := Pressed;
            if !armed {
              armed, deadline := true, timerUs + cfg.LongpressUs();
            }
            return;
          case Pressed =>
            return;
        }
      }
      QueueSend(Short);
    }

    method AwaitPress() returns (err: Err, press: Press)
      modifies this
      ensures old(queue) == [] ==> err == BtnTimeout && Value() == old(Value())
      ensures old(queue) != [] ==>
                err == Ok && press == old(queue)[0] && Value() == old(Value()).(queue := old(queue)[1..])
    {
      press := Short;
      if queue == [] {
        return BtnTimeout, press;
      }
      press := queue[0];
      queue := queue[1..];
      err := Ok;
    }
  }

  // ---------------------------------------------------------------- runs

  datatype Event = Edge(at: int, up: bool) | Expiry(at: int) | Callback(at: int) | Take

  datatype Offer = Offer(press: Press, at: int)

  // A button with the history of its run: when presses were accepted, what was offered to the
  // queue and when, what was taken out of it, how much was dropped, and how many callbacks found the
  // button released.
  datatype Log = Log(
    btn: Btn, now: int, presses: seq<int>, offers: seq<Offer>, taken: seq<Press>, dropped: nat, stray: nat)

  const START := Log(IDLE, 0, [], [], [], 0, 0)

  function Record(log: Log, b: Btn, at: int, press: Press): Log {
    log.(btn := b, now := at, offers := log.offers + [Offer(press, at)],
         dropped := log.dropped + if log.btn.queue == [] then 0 else 1)
  }

  function Step(cfg: Config, log: Log, e: Event): Log {
    match e
    case Edge(at, up) =>
      var b := EdgeIsr(cfg, log.btn, at, up);
      if log.btn.state == Released && b.state == Pressed then log.(btn := b, now := at, presses := log.presses + [at])
      else if log.btn.state == Pressed && b.state == Released then Record(log, b, at, Short)
      else log.(btn := b, now := at)
    case Expiry(at) => log.(btn := Expire(log.btn), now := at)
    case Callback(at) =>
      var next := Record(log, TimerIsr(log.btn), at, Long);
      if log.btn.state == Released then next.(stray := next.stray + 1) else next
    case Take =>
      if log.btn.queue == [] then log
      else log.(btn := log.btn.(queue := log.btn.queue[1..]), taken := log.taken + [log.btn.queue[0]])
  }

  function Run(cfg: Config, log: Log, events: seq<Event>): Log
    decreases |events|
  {
    if events == [] then log else Run(cfg, Step(cfg, log, events[0]), events[1..])
  }

  lemma {:induction false} RunAppend(cfg: Config, log: Log, a: seq<Event>, b: seq<Event>)
    ensures Run(cfg, log, a + b) == Run(cfg, Run(cfg, log, a), b)
    decreases |a|
  {
    hide Step;
    if a == [] {
      assert a + b == b;
    } else {
      assert (a + b)[1..] == a[1..] + b;
      RunAppend(cfg, Step(cfg, log, a[0]), a[1..], b);
    }
  }

  // What clock and timer allow next: time does not go back, the timer runs out only when armed and
  // not before its deadline, its callback runs only after that, and from the deadline to the end of
  // the callback it takes no more than `late`.
  predicate Timely(log: Log, e: Event, late: nat) {
    !e.Take? ==>
      && log.now <= e.at
      && (log.btn.armed && !log.btn.due ==> e.at <= log.btn.deadline + late)
      && (log.btn.due ==> e.at <= log.btn.dueBy + late)
      && (e.Expiry? ==> log.btn.armed && !log.btn.due && log.btn.deadline <= e.at)
      && (e.Callback? ==> log.btn.due)
  }

  predicate TimelyRun(cfg: Config, log: Log, events: seq<Event>, late: nat)
    decreases |events|
  {
    events == [] || (Timely(log, events[0], late) && TimelyRun(cfg, Step(cfg, log, events[0]), events[1..], late))
  }

  // ---------------------------------------------------------------- what every run keeps

  function CountIf(b: bool): nat {
    if b then 1 else 0
  }

  predicate Balanced(log: Log) {
    |log.offers| + CountIf(log.btn.state == Pressed) == |log.presses| + log.stray
  }

  function Kinds(offers: seq<Offer>): (r: seq<Press>)
    ensures |r| == |offers|
  {
    seq(|offers|, i requires 0 <= i < |offers| => offers[i].press)
  }

  predicate QueueConserves(log: Log) {
    && |log.btn.queue| <= 1
    && |log.offers| == |log.taken| + |log.btn.queue| + log.dropped
    && (log.dropped == 0 ==> Kinds(log.offers) == log.taken + log.btn.queue)
  }

  lemma StepKeepsQueue(cfg: Config, log: Log, e: Event)
    requires QueueConserves(log)
    ensures QueueConserves(Step(cfg, log, e))
  {
    var next := Step(cfg, log, e);
    if next.offers != log.offers {
      var o := next.offers[|log.offers|];
      assert Kinds(next.offers) == Kinds(log.offers) + [o.press];
    }
  }

  // Main result, over every run of edges, expiries, callbacks and reads at any times: accepted presses
  // and stray callbacks are the events offered plus one while PRESSED, and every event offered is
  // taken, queued or dropped, in order.
  lemma {:induction false} EveryRunBalances(cfg: Config, log: Log, events: seq<Event>)
    requires Balanced(log) && QueueConserves(log)
    ensures Balanced(Run(cfg, log, events)) && QueueConserves(Run(cfg, log, events))
    decreases |events|
  {
    hide QueueConserves;
    if events != [] {
      StepKeepsQueue(cfg, log, events[0]);
      EveryRunBalances(cfg, Step(cfg, log, events[0]), events[1..]);
    }
  }

  // What a step adds to the queue: the press it offers, if the queue is empty by then.
  function Kept(cfg: Config, log: Log, e: Event): seq<Press> {
    var next := Step(cfg, log, e);
    if |next.offers| > |log.offers| && log.btn.queue == [] then [next.offers[|log.offers|].press] else []
  }

  function AllKept(cfg: Config, log: Log, events: seq<Event>): seq<Press>
    decreases |events|
  {
    if events == [] then []
    else Kept(cfg, log, events[0]) + AllKept(cfg, Step(cfg, log, events[0]), events[1..])
  }

  lemma StepKeepsOrder(cfg: Config, log: Log, e: Event)
    requires |log.btn.queue| <= 1
    ensures var next := Step(cfg, log, e);
            |next.btn.queue| <= 1 && next.taken + next.btn.queue == log.taken + log.btn.queue + Kept(cfg, log, e)
  {
  }

  // Main result: what is taken and queued are, in order, the presses that found the queue empty; one
  // that finds it full is dropped and the press already there stays.
  lemma {:induction false} QueueKeepsOrder(cfg: Config, log: Log, events: seq<Event>)
    requires |log.btn.queue| <= 1
    ensures var last := Run(cfg, log, events);
            last.taken + last.btn.queue == log.taken + log.btn.queue + AllKept(cfg, log, events)
    decreases |events|
  {
    hide Step, Kept;
    if events != [] {
      var e, later := events[0], events[1..];
      StepKeepsOrder(cfg, log, e);
      QueueKeepsOrder(cfg, Step(cfg, log, e), later);
      Regroup(log.taken + log.btn.queue, Kept(cfg, log, e), AllKept(cfg, Step(cfg, log, e), later));
    }
  }

  // From boot, exactly when the presses are the events offered, with one over while PRESSED: no
  // callback found the button released.
  lemma PressesBalanceIff(cfg: Config, events: seq<Event>)
    ensures var log := Run(cfg, START, events);
            |log.presses| == |log.offers| + CountIf(log.btn.state == Pressed) <==> log.stray == 0
  {
    EveryRunBalances(cfg, START, events);
  }

  // ---------------------------------------------------------------- runs whose callbacks are in time

  // A release that counts falls between the expiry of the timer and its callback.
  predicate Crosses(cfg: Config, log: Log, e: Event) {
    e.Edge? && e.up && log.btn.due && log.btn.state == Pressed && !Debounces(cfg, log.btn, e.at)
  }

  predicate NoneCrosses(cfg: Config, log: Log, events: seq<Event>)
    decreases |events|
  {
    events == [] || (!Crosses(cfg, log, events[0]) && NoneCrosses(cfg, Step(cfg, log, events[0]), events[1..]))
  }

  // An offer belongs to the press that was accepted at time p.
  predicate InTime(cfg: Config, late: nat, p: int, o: Offer) {
    match o.press
    case Short => p + cfg.DebounceUs() <= o.at <= p + cfg.LongpressUs() + late
    case Long => p + cfg.LongpressUs() <= o.at <= p + cfg.LongpressUs() + late
  }

  predicate TimerMatchesState(log: Log, cfg: Config) {
    var b := log.btn;
    && (b.armed || b.due <==> b.state == Pressed) && !(b.armed && b.due)
    && b.delayUs <= log.now && (b.due ==> b.dueBy <= log.now)
    && |log.presses| == |log.offers| + CountIf(b.state == Pressed)
    && (b.state == Pressed ==>
          && (if b.armed then b.deadline else b.dueBy) == log.presses[|log.offers|] + cfg.LongpressUs()
          && log.presses[|log.offers|] <= b.delayUs)
  }

  predicate OffersInTime(log: Log, cfg: Config, late: nat) {
    && |log.offers| <= |log.presses|
    && (forall i | 0 <= i < |log.offers| ::
          InTime(cfg, late, log.presses[i], log.offers[i]) && log.offers[i].at <= log.now)
    && (forall i | 0 <= i < |log.offers| && i + 1 < |log.presses| :: log.offers[i].at <= log.presses[i + 1])
  }

  predicate Sound(log: Log, cfg: Config, late: nat) {
    TimerMatchesState(log, cfg) && OffersInTime(log, cfg, late) && QueueConserves(log)
  }

  lemma StepKeepsTimer(cfg: Config, log: Log, e: Event, late: nat)
    requires TimerMatchesState(log, cfg) && Timely(log, e, late)
    ensures TimerMatchesState(Step(cfg, log, e), cfg) <==> !Crosses(cfg, log, e)
  {
  }

  lemma StepKeepsTimes(cfg: Config, log: Log, e: Event, late: nat)
    requires TimerMatchesState(log, cfg) && OffersInTime(log, cfg, late) && Timely(log, e, late)
    requires !Crosses(cfg, log, e)
    ensures OffersInTime(Step(cfg, log, e), cfg, late)
  {
    hide Run, TimelyRun, QueueConserves;
    var next := Step(cfg, log, e);
    if e.Edge? {
      hide OffersInTime;
      EdgeKeepsTimes(cfg, log, e.at, e.up, late);
    }
  }

  lemma EdgeKeepsTimes(cfg: Config, log: Log, at: int, up: bool, late: nat)
    requires TimerMatchesState(log, cfg) && OffersInTime(log, cfg, late) && Timely(log, Edge(at, up), late)
    requires !Crosses(cfg, log, Edge(at, up))
    ensures OffersInTime(Step(cfg, log, Edge(at, up)), cfg, late)
  {
    hide Run, TimelyRun, QueueConserves;
  }

  // Main result: over every run in which no release falls between an expiry and its callback, the
  // timer is armed or its callback due exactly while the state is PRESSED; accepted presses and
  // offered events pair off in order, with one press over while PRESSED; every event falls into its
  // window; and nothing leaves or enters the queue unaccounted for.
  lemma {:induction false} EveryRunIsSound(cfg: Config, late: nat, log: Log, events: seq<Event>)
    requires Sound(log, cfg, late) && TimelyRun(cfg, log, events, late)
    requires NoneCrosses(cfg, log, events)
    ensures Sound(Run(cfg, log, events), cfg, late)
    decreases |events|
  {
    hide TimerMatchesState, OffersInTime, QueueConserves, Step, Timely, Crosses;
    if events != [] {
      StepKeepsTimer(cfg, log, events[0], late);
      StepKeepsTimes(cfg, log, events[0], late);
      StepKeepsQueue(cfg, log, events[0]);
      EveryRunIsSound(cfg, late, Step(cfg, log, events[0]), events[1..]);
    }
  }

  // Sound at every moment of the run.
  predicate AlwaysSound(cfg: Config, late: nat, log: Log, events: seq<Event>)
    decreases |events|
  {
    Sound(log, cfg, late) && (events == [] || AlwaysSound(cfg, late, Step(cfg, log, events[0]), events[1..]))
  }

  // And exactly in those.
  lemma {:induction false} AlwaysSoundIff(cfg: Config, late: nat, log: Log, events: seq<Event>)
    requires Sound(log, cfg, late) && TimelyRun(cfg, log, events, late)
    ensures AlwaysSound(cfg, late, log, events) <==> NoneCrosses(cfg, log, events)
    decreases |events|
  {
    hide TimerMatchesState, OffersInTime, QueueConserves, Step, Timely, Crosses;
    if events != [] {
      var next := Step(cfg, log, events[0]);
      StepKeepsTimer(cfg, log, events[0], late);
      if !Crosses(cfg, log, events[0]) {
        StepKeepsTimes(cfg, log, events[0], late);
        StepKeepsQueue(cfg, log, events[0]);
        AlwaysSoundIff(cfg, late, next, events[1..]);
      } else {
        assert !Sound(next, cfg, late);
      }
    }
  }

  // The two counts and the timing, from boot.
  lemma PressesInTime(cfg: Config, late: nat, events: seq<Event>)
    requires TimelyRun(cfg, START, events, late) && NoneCrosses(cfg, START, events)
    ensures var log := Run(cfg, START, events);
            && |log.presses| == |log.offers| + CountIf(log.btn.armed || log.btn.due)
            && (log.btn.armed || log.btn.due <==> log.btn.state == Pressed)
            && forall i | 0 <= i < |log.offers| :: InTime(cfg, late, log.presses[i], log.offers[i])
  {
    EveryRunIsSound(cfg, late, START, events);
  }

  // A release in between gives one press two events.
  lemma CrossingCountsTwice(cfg: Config, late: nat, log: Log, e: Event, at: int)
    requires Sound(log, cfg, late) && Timely(log, e, late) && Crosses(cfg, log, e)
    ensures var after := Step(cfg, Step(cfg, log, e), Callback(at));
            && after.presses == log.presses && after.stray == log.stray + 1
            && after.offers == log.offers + [Offer(Short, e.at), Offer(Long, at)]
  {
  }

  // It comes up from boot, with a timer that is never late, when the release falls on the moment of
  // the expiry.
  lemma CrossingFromBoot(cfg: Config)
    requires cfg.DebounceUs() <= cfg.LongpressUs()
    ensures var d := cfg.DebounceUs();
            var end := d + cfg.LongpressUs();
            var events := [Edge(d, false), Expiry(end), Edge(end, true), Callback(end)];
            && TimelyRun(cfg, START, events, 0)
            && Run(cfg, START, events).presses == [d]
            && Run(cfg, START, events).offers == [Offer(Short, end), Offer(Long, end)]
  {
    var d := cfg.DebounceUs();
    var end := d + cfg.LongpressUs();
    var events := [Edge(d, false), Expiry(end), Edge(end, true), Callback(end)];
    assert events[1..] == [Expiry(end), Edge(end, true), Callback(end)];
    assert events[1..][1..] == [Edge(end, true), Callback(end)];
    assert events[1..][1..][1..] == [Callback(end)];
    assert events[1..][1..][1..][1..] == [];
    var a := Step(cfg, START, events[0]);
    var b := Step(cfg, a, Expiry(end));
    var c := Step(cfg, b, Edge(end, true));
    var last := Step(cfg, c, Callback(end));
    assert Run(cfg, c, [Callback(end)]) == last && TimelyRun(cfg, c, [Callback(end)], 0);
    assert Run(cfg, b, events[1..][1..]) == last && TimelyRun(cfg, b, events[1..][1..], 0);
    assert Run(cfg, a, events[1..]) == last && TimelyRun(cfg, a, events[1..], 0);
  }

  // ---------------------------------------------------------------- debouncing

  // The edges that are left when every edge closer than the debounce time to the last one left is
  // taken out.
  function Debounced(cfg: Config, last: int, events: seq<Event>): seq<Event>
    decreases |events|
  {
    if events == [] then []
    else if !events[0].Edge? then [events[0]] + Debounced(cfg, last, events[1..])
    else if events[0].at - last < cfg.DebounceUs() then Debounced(cfg, last, events[1..])
    else [events[0]] + Debounced(cfg, events[0].at, events[1..])
  }

  function WithoutClock(log: Log): Log {
    log.(now := 0)
  }

  // Main result: the button behaves as on the debounced signal.
  lemma {:induction false} BouncesDoNotMatter(cfg: Config, log: Log, clean: Log, events: seq<Event>)
    requires WithoutClock(log) == WithoutClock(clean)
    ensures WithoutClock(Run(cfg, log, events)) ==
            WithoutClock(Run(cfg, clean, Debounced(cfg, log.btn.delayUs, events)))
    decreases |events|
  {
    if events != [] {
      var e, rest := events[0], events[1..];
      var last := log.btn.delayUs;
      var next := Step(cfg, log, e);
      if e.Edge? && e.at - last < cfg.DebounceUs() {
        BouncesDoNotMatter(cfg, next, clean, rest);
      } else {
        var kept := Debounced(cfg, next.btn.delayUs, rest);
        assert Debounced(cfg, last, events) == [e] + kept;
        assert ([e] + kept)[1..] == kept;
        BouncesDoNotMatter(cfg, next, Step(cfg, clean, e), rest);
      }
    }
  }

  // Every edge that is left keeps its distance from all that were left before it.
  lemma {:induction false} DebouncedIsSpaced(cfg: Config, last: int, events: seq<Event>, i: nat, j: nat)
    requires j < |Debounced(cfg, last, events)| && Debounced(cfg, last, events)[j].Edge?
    ensures Debounced(cfg, last, events)[j].at >= last + cfg.DebounceUs()
    ensures i < j && Debounced(cfg, last, events)[i].Edge? ==>
              Debounced(cfg, last, events)[j].at >= Debounced(cfg, last, events)[i].at + cfg.DebounceUs()
    decreases |events|
  {
    var e, rest := events[0], events[1..];
    if e.Edge? && e.at - last < cfg.DebounceUs() {
      DebouncedIsSpaced(cfg, last, rest, i, j);
    } else if j > 0 {
      DebouncedIsSpaced(cfg, if e.Edge? then e.at else last, rest, if i > 0 then i - 1 else 0, j - 1);
    }
  }

  // ---------------------------------------------------------------- gestures

  // The button held from `down` to `up`, its contacts bouncing after each.
  datatype Gesture = Gesture(down: int, up: int, bounceDown: seq<Event>, bounceUp: seq<Event>)

  predicate BouncesWithin(bounces: seq<Event>, from: int, until: int) {
    forall i | 0 <= i < |bounces| :: bounces[i].Edge? && from <= bounces[i].at < until
  }

  // The bounces die out within the debounce time, and nothing happens faster than that.
  predicate Clean(cfg: Config, last: int, g: Gesture) {
    && last + cfg.DebounceUs() <= g.down
    && g.down + cfg.DebounceUs() <= g.up
    && BouncesWithin(g.bounceDown, g.down, g.down + cfg.DebounceUs())
    && BouncesWithin(g.bounceUp, g.up, g.up + cfg.DebounceUs())
  }

  predicate AllClean(cfg: Config, last: int, gs: seq<Gesture>)
    decreases |gs|
  {
    gs == [] || (Clean(cfg, last, gs[0]) && AllClean(cfg, gs[0].up, gs[1..]))
  }

  predicate Held(cfg: Config, g: Gesture) {
    g.down + cfg.LongpressUs() <= g.up
  }

  function Firing(at: int): seq<Event> {
    [Expiry(at), Callback(at)]
  }

  // A button held long enough sees the timer fire before its release.
  function GestureEvents(cfg: Config, g: Gesture): seq<Event> {
    [Edge(g.down, false)] + g.bounceDown
    + (if Held(cfg, g) then Firing(g.down + cfg.LongpressUs()) else [])
    + ([Edge(g.up, true)] + g.bounceUp)
  }

  function SignalOf(cfg: Config, gs: seq<Gesture>): seq<Event>
    decreases |gs|
  {
    if gs == [] then [] else GestureEvents(cfg, gs[0]) + SignalOf(cfg, gs[1..])
  }

  function Meant(cfg: Config, g: Gesture): Offer {
    if Held(cfg, g) then Offer(Long, g.down + cfg.LongpressUs()) else Offer(Short, g.up)
  }

  function AllMeant(cfg: Config, gs: seq<Gesture>): seq<Offer> {
    seq(|gs|, i requires 0 <= i < |gs| => Meant(cfg, gs[i]))
  }

  lemma {:induction false} BouncesAreIgnored(cfg: Config, log: Log, bounces: seq<Event>)
    requires BouncesWithin(bounces, log.btn.delayUs, log.btn.delayUs + cfg.DebounceUs())
    ensures WithoutClock(Run(cfg, log, bounces)) == WithoutClock(log)
    decreases |bounces|
  {
    if bounces != [] {
      assert bounces[0].Edge?;
      BouncesAreIgnored(cfg, Step(cfg, log, bounces[0]), bounces[1..]);
    }
  }

  predicate Resting(b: Btn) {
    b.state == Released && !b.armed && !b.due
  }

  lemma FiringRuns(cfg: Config, log: Log, at: int)
    ensures Run(cfg, log, Firing(at)) == Step(cfg, Step(cfg, log, Expiry(at)), Callback(at))
  {
    hide Step;
    assert Firing(at) == [Expiry(at)] + [Callback(at)];
    RunAppend(cfg, log, [Expiry(at)], [Callback(at)]);
    RunOne(cfg, log, Expiry(at));
    RunOne(cfg, Step(cfg, log, Expiry(at)), Callback(at));
  }

  // A press and its bounces.
  lemma PressPart(cfg: Config, log: Log, g: Gesture)
    requires Resting(log.btn) && Clean(cfg, log.btn.delayUs, g)
    ensures var b := Run(cfg, log, [Edge(g.down, false)] + g.bounceDown);
            && b.btn.state == Pressed && b.btn.armed && !b.btn.due && b.btn.delayUs == g.down
            && b.offers == log.offers && b.presses == log.presses + [g.down]
  {
    RunAppend(cfg, log, [Edge(g.down, false)], g.bounceDown);
    RunOne(cfg, log, Edge(g.down, false));
    BouncesAreIgnored(cfg, Step(cfg, log, Edge(g.down, false)), g.bounceDown);
  }

  // A release and its bounces, of a button that is pressed or whose timer has fired.
  lemma ReleasePart(cfg: Config, log: Log, g: Gesture)
    requires !log.btn.due && (log.btn.armed ==> log.btn.state == Pressed)
    requires log.btn.delayUs + cfg.DebounceUs() <= g.up
    requires BouncesWithin(g.bounceUp, g.up, g.up + cfg.DebounceUs())
    ensures var d := Run(cfg, log, [Edge(g.up, true)] + g.bounceUp);
            && Resting(d.btn) && d.btn.delayUs == g.up && d.presses == log.presses
            && d.offers == log.offers + if log.btn.state == Pressed then [Offer(Short, g.up)] else []
  {
    RunAppend(cfg, log, [Edge(g.up, true)], g.bounceUp);
    RunOne(cfg, log, Edge(g.up, true));
    BouncesAreIgnored(cfg, Step(cfg, log, Edge(g.up, true)), g.bounceUp);
  }

  lemma OneGesture(cfg: Config, log: Log, g: Gesture)
    requires Resting(log.btn) && Clean(cfg, log.btn.delayUs, g)
    ensures var after := Run(cfg, log, GestureEvents(cfg, g));
            && Resting(after.btn) && after.btn.delayUs == g.up
            && after.offers == log.offers + [Meant(cfg, g)]
            && after.presses == log.presses + [g.down]
  {
    hide EdgeIsr, BouncesWithin;
    var at := g.down + cfg.LongpressUs();
    var press, release := [Edge(g.down, false)] + g.bounceDown, [Edge(g.up, true)] + g.bounceUp;
    var held := if Held(cfg, g) then Firing(at) else [];
    RunAppend(cfg, log, press + held, release);
    RunAppend(cfg, log, press, held);
    PressPart(cfg, log, g);
    var b := Run(cfg, log, press);
    FiringRuns(cfg, b, at);
    ReleasePart(cfg, Run(cfg, b, held), g);
  }

  lemma RunOne(cfg: Config, log: Log, e: Event)
    ensures Run(cfg, log, [e]) == Step(cfg, log, e)
  {
    assert [e][1..] == [];
    assert Run(cfg, Step(cfg, log, e), []) == Step(cfg, log, e);
  }

  // Main result: of every sequence of gestures, however the contacts bounce, each gives exactly one
  // event: LONGPRESS at the long-press time if it was held that long, else PRESS on its release.
  lemma {:induction false} GesturesAreRead(cfg: Config, log: Log, gs: seq<Gesture>)
    requires Resting(log.btn) && AllClean(cfg, log.btn.delayUs, gs)
    ensures Run(cfg, log, SignalOf(cfg, gs)).offers == log.offers + AllMeant(cfg, gs)
    ensures Run(cfg, log, SignalOf(cfg, gs)).btn.state == Released
    decreases |gs|
  {
    hide GestureEvents, Step, Clean, Meant;
    if gs != [] {
      var events := GestureEvents(cfg, gs[0]);
      OneGesture(cfg, log, gs[0]);
      RunAppend(cfg, log, events, SignalOf(cfg, gs[1..]));
      GesturesAreRead(cfg, Run(cfg, log, events), gs[1..]);
      assert AllMeant(cfg, gs) == [Meant(cfg, gs[0])] + AllMeant(cfg, gs[1..]);
    }
  }

  // A tap that is over within the debounce time is missed on release, exactly then: the event is
  // LONGPRESS, with the button long up.
  lemma TapReadAsLongIff(cfg: Config, log: Log, down: int, up: int)
    requires Resting(log.btn)
    requires log.btn.delayUs + cfg.DebounceUs() <= down <= up < down + cfg.LongpressUs()
    ensures var mid := Run(cfg, log, [Edge(down, false), Edge(up, true)]);
            && (mid.btn.armed <==> up - down < cfg.DebounceUs())
            && (mid.btn.armed ==>
                  && mid.btn.deadline == down + cfg.LongpressUs()
                  && Run(cfg, mid, Firing(mid.btn.deadline)).offers == log.offers + [Offer(Long, mid.btn.deadline)])
            && (!mid.btn.armed ==> mid.offers == log.offers + [Offer(Short, up)])
  {
    FiringRuns(cfg, Run(cfg, log, [Edge(down, false), Edge(up, true)]), down + cfg.LongpressUs());
    RunAppend(cfg, log, [Edge(down, false)], [Edge(up, true)]);
    RunOne(cfg, log, Edge(down, false));
    RunOne(cfg, Step(cfg, log, Edge(down, false)), Edge(up, true));
    assert [Edge(down, false), Edge(up, true)] == [Edge(down, false)] + [Edge(up, true)];
  }
}
