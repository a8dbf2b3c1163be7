// Properties of whole runs of the link, over every interleaving of clock edges and task steps.
module Ps2Runs {
  import opened Errors
  import opened Ps2Frame
  import opened Ps2Deframer
  import opened Ps2Movement
  import opened Ps2Link

  // ---------------------------------------------------------------- what every reachable state keeps

  predicate ByteInStep(l: Link) {
    l.mode in {Recv, Mvmt} ==> NoBitAhead(l.inflight)
  }

  lemma StepKeepsByteInStep(l: Link, e: Event)
    requires Inv(l) && ByteInStep(l)
    ensures ByteInStep(Step(l, e))
  {
    if e.Clock? && l.mode in {Recv, Mvmt} {
      AcceptKeepsNoBitAhead(l.inflight, e.bit);
    }
  }

  lemma {:induction false} RunKeepsByteInStep(l: Link, es: seq<Event>)
    requires Inv(l) && ByteInStep(l)
    ensures ByteInStep(Run(l, es))
    decreases |es|
  {
    if es != [] {
      StepKeepsByteInStep(l, es[0]);
      RunKeepsByteInStep(Step(l, es[0]), es[1..]);
    }
  }

  // Between edges there is never a pending error, the bit index is in range for every switch and
  // shift of the interrupt, no data bit is ahead of the next data position, the queues respect
  // their length, and three bytes are held only for a first byte that is not a movement header.
  lemma EveryRunIsSound(cap: nat, es: seq<Event>)
    ensures var l := Run(Init(cap), es);
            && l.inflight.err == Ok
            && l.inflight.idx <= (if l.mode == Send then 11 else 10)
            && (l.mode in {Recv, Mvmt} ==>
                forall j | 0 <= j < 8 && l.inflight.idx <= j + 1 :: !Bit(l.inflight.byte, j))
            && |l.rx| <= cap && |l.mv| <= cap
            && l.asm.idx <= 3 && (l.asm.idx == 3 ==> !AlwaysOne(l.asm.mvmt[0]))
  {
    RunKeepsByteInStep(Init(cap), es);
  }

  // ---------------------------------------------------------------- conservation of responses

  // What a run does to commands, responses and movement frames.
  datatype Tally = Tally(
    sends: nat,        // send_byte calls
    cutSends: nat,     // of which started while a transmission was under way
    sent: nat,         // transmissions completed by their twelfth edge
    cutWaits: nat,     // send_byte calls made while a response was awaited
    offered: nat,      // frames offered to the response queue
    dropped: nat,      // of which found it full
    taken: nat,        // frames taken from it
    completed: nat,    // frames received, whole or cut at an error
    mvOffered: nat,    // frames offered to the movement queue
    mvDropped: nat,    // of which found it full
    mvTaken: nat,      // frames taken from it
    discarded: nat)    // frames it held when a resynchronisation emptied it

  function CountIf(b: bool): nat {
    if b then 1 else 0
  }

  function TallyOf(l: Link, e: Event): Tally
    requires Inv(l)
  {
    var complete := e.Clock? && l.mode in {Recv, Mvmt} && Complete(Accept(l.inflight, e.bit));
    var response, movement := complete && l.mode == Recv, complete && l.mode == Mvmt;
    Tally(
      CountIf(e.SendByte?),
      CountIf(e.SendByte? && l.mode == Send),
      CountIf(e.Clock? && l.mode == Send && l.inflight.idx == 11),
      CountIf(e.SendByte? && l.mode == Recv),
      CountIf(response),
      CountIf(response && |l.rx| == l.cap),
      CountIf(e.TakeResponse? && l.rx != []),
      CountIf(complete),
      CountIf(movement),
      CountIf(movement && |l.mv| == l.cap),
      CountIf(e.Poll? && !Stuck(l.asm) && l.mv != []),
      if e.Restart? then |l.mv| else 0)
  }

  function Sum(a: Tally, b: Tally): Tally {
    Tally(a.sends + b.sends, a.cutSends + b.cutSends, a.sent + b.sent, a.cutWaits + b.cutWaits,
          a.offered + b.offered, a.dropped + b.dropped, a.taken + b.taken, a.completed + b.completed,
          a.mvOffered + b.mvOffered, a.mvDropped + b.mvDropped, a.mvTaken + b.mvTaken, a.discarded + b.discarded)
  }

  function RunTally(l: Link, es: seq<Event>): Tally
    requires Inv(l)
    decreases |es|
  {
    if es == [] then Tally(0, 0, 0, 0, 0, 0, 0, 0, 0, 0, 0, 0)
    else Sum(TallyOf(l, es[0]), RunTally(Step(l, es[0]), es[1..]))
  }

  // What a run from l to m, with tally t, balances.
  predicate Balances(l: Link, t: Tally, m: Link) {
    && CountIf(l.mode == Send) + t.sends == t.sent + t.cutSends + CountIf(m.mode == Send)
    && CountIf(l.mode == Recv) + t.sent == t.offered + t.cutWaits + CountIf(m.mode == Recv)
    && |l.rx| + t.offered == |m.rx| + t.taken + t.dropped
    && t.completed == t.offered + t.mvOffered
    && |l.mv| + t.mvOffered == |m.mv| + t.mvTaken + t.mvDropped + t.discarded
  }

  // Every send_byte call ends in a complete transmission, is cut by another call, or is still
  // under way; every complete transmission ends in a frame for the response queue, is cut, or is
  // still waiting; every such frame is in the queue, was taken or was dropped; and every other frame
  // received goes to the movement queue, where it still is, or was taken, dropped or discarded.
  lemma {:induction false} Conservation(l: Link, es: seq<Event>)
    requires Inv(l)
    ensures Balances(l, RunTally(l, es), Run(l, es))
    decreases |es|
  {
    hide TallyOf, Step;
    if es != [] {
      ConservationStep(l, es[0]);
      Conservation(Step(l, es[0]), es[1..]);
    }
  }

  lemma ConservationStep(l: Link, e: Event)
    requires Inv(l)
    ensures Balances(l, TallyOf(l, e), Step(l, e))
  {
    hide Accept, Decode;
    if e.Clock? {
      ConservationEdge(l, e.bit);
    }
  }

  lemma ConservationEdge(l: Link, bit: bool)
    requires Inv(l)
    ensures var m := Edge(l, bit);
            var sent := l.mode == Send && l.inflight.idx == 11;
            var complete := l.mode in {Recv, Mvmt} && Complete(Accept(l.inflight, bit));
            && m.mode == (if sent then Recv else if complete then Mvmt else l.mode)
            && |m.rx| == |l.rx| + CountIf(complete && l.mode == Recv && |l.rx| < l.cap)
            && |m.mv| == |l.mv| + CountIf(complete && l.mode == Mvmt && |l.mv| < l.cap)
  {
  }

  // In particular a response never comes without a whole command having been sent before it.
  lemma ResponsesNeedCommands(cap: nat, es: seq<Event>)
    ensures var t := RunTally(Init(cap), es);
            t.offered + CountIf(Run(Init(cap), es).mode == Recv) <= t.sent <= t.sends
  {
    Conservation(Init(cap), es);
  }

  // ---------------------------------------------------------------- transmission

  // The levels driven on the data line, edge by edge.
  function Driven(l: Link, bits: seq<bool>): (levels: seq<bool>)
    requires Inv(l)
    ensures |levels| == |bits|
    decreases |bits|
  {
    if bits == [] then [] else [Edge(l, bits[0]).level] + Driven(Edge(l, bits[0]), bits[1..])
  }

  // The state after k edges of a transmission.
  predicate Sending(l: Link, byte: bv8, k: nat) {
    l.mode == Send && l.inflight == Frame(Ok, byte, k)
  }

  // Only the bit counter and the data line change.
  lemma SendEdge(l: Link, byte: bv8, k: nat, bit: bool)
    requires Inv(l) && Sending(l, byte, k) && k <= 10
    ensures Edge(l, bit) ==
            l.(inflight := Frame(Ok, byte, k + 1), level := FrameBit(byte, k), driving := l.driving && k < 10)
  {
  }

  lemma {:induction false} KeepsSending(l: Link, byte: bv8, k: nat, bits: seq<bool>)
    requires Inv(l) && Sending(l, byte, k)
    requires k + |bits| <= 11
    ensures var r := Edges(l, bits);
            r == l.(inflight := Frame(Ok, byte, k + |bits|), level := r.level, driving := r.driving)
    ensures bits != [] ==> Edges(l, bits).driving == (l.driving && k + |bits| < 11)
    decreases |bits|
  {
    hide FrameBit;
    if bits != [] {
      SendEdge(l, byte, k, bits[0]);
      KeepsSending(Edge(l, bits[0]), byte, k + 1, bits[1..]);
      if |bits| == 1 {
        assert bits[1..] == [];
      }
    }
  }

  lemma {:induction false} DrivesFrame(l: Link, byte: bv8, k: nat, bits: seq<bool>)
    requires Inv(l) && Sending(l, byte, k)
    requires k + |bits| <= 11
    ensures forall i | 0 <= i < |bits| :: Driven(l, bits)[i] == FrameBit(byte, k + i)
    decreases |bits|
  {
    hide FrameBit;
    if bits != [] {
      SendEdge(l, byte, k, bits[0]);
      DrivesFrame(Edge(l, bits[0]), byte, k + 1, bits[1..]);
    }
  }

  // A whole transmission, whatever the line carries meanwhile: the eleven levels of the frame,
  // then one more edge after which the line is released and the handle waits for the response.
  lemma TransmitsFrame(l: Link, byte: bv8, bits: seq<bool>)
    requires Inv(l) && |bits| == 12
    ensures Driven(Transmit(l, byte), bits)[..11] == FrameBits(byte)
    ensures var r := Edges(Transmit(l, byte), bits);
            r == l.(mode := Recv, inflight := ZERO, driving := false, level := r.level)
  {
    hide FrameBit;
    var t := Transmit(l, byte);
    DrivesFrame(t, byte, 0, bits[..11]);
    KeepsSending(t, byte, 0, bits[..11]);
    assert bits == bits[..11] + bits[11..];
    DrivenAppend(t, bits[..11], bits[11..]);
    EdgesAppend(t, bits[..11], bits[11..]);
    assert bits[11..][1..] == [];
  }

  lemma {:induction false} EdgesAppend(l: Link, a: seq<bool>, b: seq<bool>)
    requires Inv(l)
    ensures Edges(l, a + b) == Edges(Edges(l, a), b)
    decreases |a|
  {
    if a == [] {
      assert a + b == b;
    } else {
      assert (a + b)[1..] == a[1..] + b;
      EdgesAppend(Edge(l, a[0]), a[1..], b);
    }
  }

  lemma {:induction false} DrivenAppend(l: Link, a: seq<bool>, b: seq<bool>)
    requires Inv(l)
    ensures Driven(l, a + b) == Driven(l, a) + Driven(Edges(l, a), b)
    decreases |a|
  {
    if a == [] {
      assert a + b == b;
    } else {
      assert (a + b)[1..] == a[1..] + b;
      DrivenAppend(Edge(l, a[0]), a[1..], b);
    }
  }

  // What a sequence of commands puts on the line, each clocked by twelve edges, without the
  // level of the twelfth.
  function DrivenBy(l: Link, cmds: seq<bv8>, clocks: seq<seq<bool>>): seq<bool>
    requires Inv(l) && |clocks| == |cmds|
    requires forall c | c in clocks :: |c| == 12
    decreases |cmds|
  {
    if cmds == [] then []
    else
      var t := Transmit(l, cmds[0]);
      Driven(t, clocks[0])[..11] + DrivenBy(Edges(t, clocks[0]), cmds[1..], clocks[1..])
  }

  lemma {:induction false} DrivesStream(l: Link, cmds: seq<bv8>, clocks: seq<seq<bool>>)
    requires Inv(l) && |clocks| == |cmds|
    requires forall c | c in clocks :: |c| == 12
    ensures DrivenBy(l, cmds, clocks) == Stream(cmds)
    decreases |cmds|
  {
    if cmds != [] {
      TransmitsFrame(l, cmds[0], clocks[0]);
      DrivesStream(Edges(Transmit(l, cmds[0]), clocks[0]), cmds[1..], clocks[1..]);
    }
  }

  // Main result: what the send branch drives, the receive branch accepts: every command arrives
  // as its byte, without an error, and nothing is left over.
  lemma ReceiverAcceptsSender(l: Link, cmds: seq<bv8>, clocks: seq<seq<bool>>)
    requires Inv(l) && |clocks| == |cmds|
    requires forall c | c in clocks :: |c| == 12
    ensures Feed(ZERO, DrivenBy(l, cmds, clocks)) == Fed(GoodFrames(cmds), ZERO)
  {
    DrivesStream(l, cmds, clocks);
    FeedsStream(cmds);
  }
}
