// The PS/2 link: its state as a value, the clock interrupt and the task-side operations as functions
// on it, and runs as sequences of atomic events in any interleaving.
module Ps2Link {
  import opened Errors
  import opened Ps2Frame
  import opened Ps2Deframer
  import opened Ps2Movement

  datatype Mode = Idle | Send | Recv | Mvmt

  datatype Link = Link(
    inflight: Frame,
    mode: Mode,
    rx: seq<Frame>,      // responses to commands
    mv: seq<Frame>,      // movement bytes
    cap: nat,            // length of each queue
    driving: bool,       // the data pin is an output
    level: bool,         // the level last driven on it
    asm: Assembler,
    unlocked: bool)      // tx_lock is available

  const CMD_DATA_DISABLE: bv8 := 0xF5
  const CMD_DATA_ENABLE: bv8 := 0xF4
  const RES_ACK: bv8 := 0xFA
  const RES_ERROR: bv8 := 0xFC
  const RES_RESEND: bv8 := 0xFE

  // What holds between any two atomic steps.
  predicate Inv(l: Link) {
    && |l.rx| <= l.cap
    && |l.mv| <= l.cap
    && WellFormed(l.asm)
    && l.inflight.err == Ok
    && l.inflight.idx <= if l.mode == Send then 11 else 10
  }

  function Init(cap: nat): (l: Link)
    ensures Inv(l)
  {
    Link(ZERO, Idle, [], [], cap, false, false, Assembler(0, [0, 0, 0]), true)
  }

  // A full queue drops the frame.
  function Push(q: seq<Frame>, f: Frame, cap: nat): seq<Frame> {
    if |q| < cap then q + [f] else q
  }

  // ---------------------------------------------------------------- atomic events

  datatype Event =
    | Clock(bit: bool)        // a clock edge with the level of the data line
    | Lock
    | SendByte(byte: bv8)
    | TakeResponse            // xQueueReceive on rx_queue
    | Cleanup                 // end of send_cmd: frame reset, lock given
    | Restart                 // mvmt_sync after the disable: movement queue and assembler emptied
    | Unlock
    | Poll                    // one round of the loop of await_mvmt

  function SendLevel(f: Frame): bool
    requires f.idx <= 11
  {
    f.idx <= 10 && FrameBit(f.byte, f.idx)
  }

  function Edge(l: Link, bit: bool): (r: Link)
    requires Inv(l)
    ensures Inv(r)
    ensures r.cap == l.cap && r.asm == l.asm && r.unlocked == l.unlocked
  {
    match l.mode
    case Idle =>
      l.(inflight := if l.inflight.idx == 10 then ZERO else l.inflight.(idx := l.inflight.idx + 1))
    case Send =>
      var s := l.(level := SendLevel(l.inflight), driving := l.driving && l.inflight.idx < 10);
      if l.inflight.idx == 11 then s.(inflight := ZERO, mode := Recv)
      else s.(inflight := l.inflight.(idx := l.inflight.idx + 1))
    case Recv =>
      var g := Accept(l.inflight, bit);
      if Complete(g) then l.(inflight := ZERO, mode := Mvmt, rx := Push(l.rx, g, l.cap))
      else l.(inflight := g)
    case Mvmt =>
      var g := Accept(l.inflight, bit);
      if Complete(g) then l.(inflight := ZERO, mv := Push(l.mv, g, l.cap))
      else l.(inflight := g)
  }

  function Edges(l: Link, bits: seq<bool>): (r: Link)
    requires Inv(l)
    ensures Inv(r)
    ensures r.cap == l.cap && r.asm == l.asm && r.unlocked == l.unlocked
    decreases |bits|
  {
    if bits == [] then l else Edges(Edge(l, bits[0]), bits[1..])
  }

  function Transmit(l: Link, byte: bv8): (r: Link)
    requires Inv(l)
    ensures Inv(r)
  {
    l.(inflight := Frame(Ok, byte, 0), mode := Send, driving := true)
  }

  function Reset(l: Link): (r: Link)
    requires Inv(l)
    ensures Inv(r)
  {
    l.(inflight := ZERO)
  }

  datatype Done = Done(err: Err, link: Link)

  datatype Awaited = Awaited(outcome: Outcome, link: Link)

  // The body of the loop of esk8_ps2_await_mvmt, after its wait.
  function TakeByte(l: Link): (r: Done)
    requires Inv(l) && l.asm.idx < 3
    ensures Inv(r.link)
    ensures r.err == Ok ==> r.link.asm.idx == l.asm.idx + 1
  {
    if l.mv == [] then Done(Ps2Timeout, l)
    else
      var f := l.mv[0];
      Done(f.err, l.(mv := l.mv[1..], asm := if f.err == Ok then Store(l.asm, f.byte) else l.asm))
  }

  // Its end.
  function FinishLink(l: Link): (r: Awaited)
    requires Inv(l) && l.asm.idx == 3
    ensures Inv(r.link)
    ensures Resumable(r.link.asm)
  {
    var (o, a) := Finish(l.asm);
    Awaited(o, l.(asm := a))
  }

  // One round of the loop, with the end if it is the last.
  function PollOnce(l: Link): (r: Awaited)
    requires Inv(l)
    ensures Inv(r.link)
    ensures Resumable(l.asm) ==> Resumable(r.link.asm)
  {
    if Stuck(l.asm) then FinishLink(l)
    else
      var t := TakeByte(l);
      if t.err != Ok then Awaited(Failed(t.err), t.link)
      else if Stuck(t.link.asm) then FinishLink(t.link)
      else Awaited(Pending, t.link)
  }

  function Step(l: Link, e: Event): (r: Link)
    requires Inv(l)
    ensures Inv(r)
    ensures r.cap == l.cap
    ensures Resumable(l.asm) ==> Resumable(r.asm)
  {
    match e
    case Clock(bit) => Edge(l, bit)
    case Lock => l.(unlocked := false)
    case SendByte(b) => Transmit(l, b)
    case TakeResponse => if l.rx == [] then l else l.(rx := l.rx[1..])
    case Cleanup => Reset(l).(unlocked := true)
    case Restart => l.(mv := [], asm := l.asm.(idx := 0))
    case Unlock => l.(unlocked := true)
    case Poll => PollOnce(l).link
  }

  function Run(l: Link, es: seq<Event>): (r: Link)
    requires Inv(l)
    ensures Inv(r)
    ensures r.cap == l.cap
    ensures Resumable(l.asm) ==> Resumable(r.asm)
    decreases |es|
  {
    if es == [] then l else Run(Step(l, es[0]), es[1..])
  }

  lemma {:induction false} RunAppend(l: Link, a: seq<Event>, b: seq<Event>)
    requires Inv(l)
    ensures Run(l, a + b) == Run(Run(l, a), b)
    decreases |a|
  {
    if a == [] {
      assert a + b == b;
    } else {
      assert (a + b)[1..] == a[1..] + b;
      RunAppend(Step(l, a[0]), a[1..], b);
    }
  }

  function Clocks(bits: seq<bool>): seq<Event> {
    seq(|bits|, i requires 0 <= i < |bits| => Clock(bits[i]))
  }

  lemma {:induction false} RunClocks(l: Link, bits: seq<bool>)
    requires Inv(l)
    ensures Run(l, Clocks(bits)) == Edges(l, bits)
    decreases |bits|
  {
    if bits != [] {
      assert Clocks(bits)[1..] == Clocks(bits[1..]);
      RunClocks(Edge(l, bits[0]), bits[1..]);
    }
  }

  // ---------------------------------------------------------------- task-side operations
  //
  // A task waits while edges keep coming, so each operation takes the edges that fall inside it.

  // What esk8_ps2_await_rsp returns when it stops waiting.
  datatype Response = Answer(byte: bv8) | NoAnswer(err: Err)

  function ResponseOf(l: Link): Response {
    if l.rx == [] then NoAnswer(Ps2RespTimeout)
    else if l.rx[0].err != Ok then NoAnswer(l.rx[0].err)
    else Answer(l.rx[0].byte)
  }

  function Verdict(r: Response): Err {
    match r
    case NoAnswer(err) => err
    case Answer(b) =>
      if b == RES_RESEND then Ps2Resend
      else if b == RES_ERROR then Ps2Error
      else if b == RES_ACK then Ok
      else Ps2NoAck
  }

  // Edges while waiting for the response, and between its arrival and the cleanup.
  datatype CmdEnv = CmdEnv(wait: seq<bool>, late: seq<bool>)

  function Waiting(l: Link, cmd: bv8, env: CmdEnv): (r: Link)
    requires Inv(l)
    ensures Inv(r)
    ensures r.cap == l.cap && r.asm == l.asm && !r.unlocked
  {
    Edges(Transmit(l.(unlocked := false), cmd), env.wait)
  }

  function SendCmd(l: Link, cmd: bv8, env: CmdEnv): (r: Done)
    requires Inv(l)
    ensures Inv(r.link)
    ensures r.link.cap == l.cap && r.link.asm == l.asm && r.link.unlocked == l.unlocked
  {
    if !l.unlocked then Done(Ps2Timeout, l)
    else
      var w := Waiting(l, cmd, env);
      Done(Verdict(ResponseOf(w)), Step(Edges(Step(w, TakeResponse), env.late), Cleanup))
  }

  // The edges of a whole resynchronisation: both commands, and the pause between them before
  // and after the movement queue is emptied.
  datatype SyncEnv = SyncEnv(disable: CmdEnv, before: seq<bool>, pause: seq<bool>, enable: CmdEnv)

  function MvmtSync(l: Link, env: SyncEnv): (r: Done)
    requires Inv(l)
    ensures Inv(r.link)
  {
    var d := SendCmd(l, CMD_DATA_DISABLE, env.disable);
    if d.err != Ok then d
    else
      var s := Edges(Step(Edges(d.link, env.before), Restart), env.pause);
      var e := SendCmd(s, CMD_DATA_ENABLE, env.enable);
      if e.err != Ok then e else Done(Ok, Step(e.link, Unlock))
  }

  // One call of esk8_ps2_await_mvmt: edges come before each of its receives.
  function AwaitMvmt(l: Link, waits: seq<seq<bool>>): (r: Awaited)
    requires Inv(l)
    requires l.asm.idx + |waits| >= 3
    ensures Inv(r.link)
    decreases 3 - l.asm.idx
  {
    if Stuck(l.asm) then FinishLink(l)
    else
      var t := TakeByte(Edges(l, waits[0]));
      if t.err != Ok then Awaited(Failed(t.err), t.link) else AwaitMvmt(t.link, waits[1..])
  }
}
