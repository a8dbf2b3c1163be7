// The command exchange and the resynchronisation, on arbitrary levels of the data line.
module Ps2Sync {
  import opened Errors
  import opened Sequences
  import opened Ps2Frame
  import opened Ps2Deframer
  import opened Ps2Link
  import opened Ps2Runs

  function PushAll(q: seq<Frame>, frames: seq<Frame>, cap: nat): seq<Frame>
    decreases |frames|
  {
    if frames == [] then q else PushAll(Push(q, frames[0], cap), frames[1..], cap)
  }

  lemma {:induction false} PushAllAppend(q: seq<Frame>, a: seq<Frame>, b: seq<Frame>, cap: nat)
    ensures PushAll(q, a + b, cap) == PushAll(PushAll(q, a, cap), b, cap)
    decreases |a|
  {
    if a == [] {
      assert a + b == b;
    } else {
      assert (a + b)[1..] == a[1..] + b;
      PushAllAppend(Push(q, a[0], cap), a[1..], b, cap);
    }
  }

  // ---------------------------------------------------------------- edges outside a transmission

  // With no command under way, every frame goes to the movement queue and nothing else changes.
  lemma {:induction false} MvmtEdges(l: Link, bits: seq<bool>)
    requires Inv(l) && l.mode == Mvmt
    ensures var fed := Feed(l.inflight, bits);
            Edges(l, bits) == l.(inflight := fed.rest, mv := PushAll(l.mv, fed.frames, l.cap))
    decreases |bits|
  {
    if bits != [] {
      var g := Accept(l.inflight, bits[0]);
      MvmtEdges(Edge(l, bits[0]), bits[1..]);
      if Complete(g) {
        var later := Feed(ZERO, bits[1..]).frames;
        assert ([g] + later)[1..] == later;
      }
    }
  }

  // The same from an unfinished frame, in terms of the batch deframer.
  lemma MvmtEdgesDeframe(l: Link, p: seq<bool>, bits: seq<bool>)
    requires Inv(l) && l.mode == Mvmt
    requires CutLength(p) == 0 && l.inflight == Partial(p)
    ensures Edges(l, bits) ==
            l.(inflight := Partial(Residue(p + bits)), mv := PushAll(l.mv, Deframe(p + bits), l.cap))
  {
    MvmtEdges(l, bits);
    FeedFromPartial(p, bits);
  }

  // Waiting for a response: the first frame is the response, the rest are movement bytes.
  lemma {:induction false} RecvEdges(l: Link, p: seq<bool>, bits: seq<bool>)
    requires Inv(l) && l.mode == Recv
    requires CutLength(p) == 0 && l.inflight == Partial(p)
    ensures var all := p + bits;
            var n := CutLength(all);
            Edges(l, bits) ==
            if n == 0 then l.(inflight := Partial(all))
            else l.(mode := Mvmt, rx := Push(l.rx, CutFrame(all), l.cap),
                    inflight := Partial(Residue(all[n..])), mv := PushAll(l.mv, Deframe(all[n..]), l.cap))
    decreases |bits|
  {
    if bits == [] {
      assert p + bits == p;
    } else {
      var q := p + [bits[0]];
      assert p + bits == q + bits[1..];
      AcceptOnPartial(p, bits[0]);
      if CutLength(q) == 0 {
        RecvEdges(Edge(l, bits[0]), q, bits[1..]);
      } else {
        CutIsLocal(q, bits[1..]);
        assert (q + bits[1..])[|q|..] == bits[1..] == [] + bits[1..];
        MvmtEdgesDeframe(Edge(l, bits[0]), [], bits[1..]);
      }
    }
  }

  // ---------------------------------------------------------------- a command and its response

  const TX_EDGES := 12

  // Length of the response frame after the twelve edges of a command; zero if there is none yet.
  function ResponseLength(bits: seq<bool>): nat {
    if |bits| < TX_EDGES then 0 else CutLength(bits[TX_EDGES..])
  }

  function ResponseFrame(bits: seq<bool>): Frame
    requires ResponseLength(bits) > 0
  {
    CutFrame(bits[TX_EDGES..])
  }

  function AfterResponse(bits: seq<bool>): seq<bool>
    requires ResponseLength(bits) > 0
  {
    bits[TX_EDGES..][ResponseLength(bits)..]
  }

  // Main result: a command, from send_byte on, against any levels on the line. Twelve edges send
  // it, the next frame is its response, and everything after that is movement.
  lemma Exchange(l: Link, byte: bv8, bits: seq<bool>)
    requires Inv(l)
    ensures var r := Edges(Transmit(l, byte), bits);
            var n := ResponseLength(bits);
            if |bits| < TX_EDGES then
              r.mode == Send && r.rx == l.rx && r.mv == l.mv
            else if n == 0 then
              r == l.(mode := Recv, inflight := Partial(bits[TX_EDGES..]), driving := false, level := r.level)
            else
              var more := AfterResponse(bits);
              r == l.(mode := Mvmt, inflight := Partial(Residue(more)), driving := false, level := r.level,
                      rx := Push(l.rx, ResponseFrame(bits), l.cap), mv := PushAll(l.mv, Deframe(more), l.cap))
  {
    if |bits| < TX_EDGES {
      KeepsSending(Transmit(l, byte), byte, 0, bits);
    } else {
      var rest := bits[TX_EDGES..];
      TransmitsFrame(l, byte, bits[..TX_EDGES]);
      assert bits == bits[..TX_EDGES] + rest;
      EdgesAppend(Transmit(l, byte), bits[..TX_EDGES], rest);
      RecvEdges(Edges(Transmit(l, byte), bits[..TX_EDGES]), [], rest);
      assert [] + rest == rest;
    }
  }

  // The link after send_cmd once a response came, whatever it says.
  lemma CommandAnswered(l: Link, cmd: bv8, env: CmdEnv)
    requires Inv(l) && l.unlocked && l.rx == [] && l.cap > 0
    requires ResponseLength(env.wait) > 0
    ensures Waiting(l, cmd, env).rx == [ResponseFrame(env.wait)]
    ensures var r := SendCmd(l, cmd, env).link;
            r == l.(mode := Mvmt, inflight := ZERO, driving := false, level := r.level,
                    mv := PushAll(l.mv, Deframe(AfterResponse(env.wait) + env.late), l.cap))
  {
    hide Deframe, Residue, Partial, Pack, Edges;
    var locked := l.(unlocked := false);
    var more := AfterResponse(env.wait);
    Exchange(locked, cmd, env.wait);
    var t := Step(Waiting(l, cmd, env), TakeResponse);
    assert t.rx == [];
    assert t.inflight == Partial(Residue(more));
    assert t.mv == PushAll(l.mv, Deframe(more), l.cap);
    MvmtEdgesDeframe(t, Residue(more), env.late);
    DeframeAppend(more, env.late);
    PushAllAppend(l.mv, Deframe(more), Deframe(Residue(more) + env.late), l.cap);
  }

  // What send_cmd returns, from what is on the wire and with no stale response queued. It succeeds
  // exactly when the device acknowledged within the wait. Movement bits that came before the
  // cleanup are then queued if they make whole frames, and lost otherwise.
  lemma CommandSucceeds(l: Link, cmd: bv8, env: CmdEnv)
    requires Inv(l) && l.unlocked && l.rx == [] && l.cap > 0
    ensures SendCmd(l, cmd, env).err == Ok <==>
            ResponseLength(env.wait) > 0 && ResponseFrame(env.wait) == Frame(Ok, 0xFA, 11)
    ensures SendCmd(l, cmd, env).err == Ps2RespTimeout <==> ResponseLength(env.wait) == 0
    ensures SendCmd(l, cmd, env).err == Ps2Resend <==>
            ResponseLength(env.wait) > 0 && ResponseFrame(env.wait) == Frame(Ok, 0xFE, 11)
    ensures SendCmd(l, cmd, env).err == Ps2Error <==>
            ResponseLength(env.wait) > 0 && ResponseFrame(env.wait) == Frame(Ok, 0xFC, 11)
    ensures ResponseLength(env.wait) > 0 && ResponseFrame(env.wait).err != Ok ==>
            SendCmd(l, cmd, env).err == ResponseFrame(env.wait).err
    ensures ResponseLength(env.wait) > 0 && ResponseFrame(env.wait).err == Ok ==>
            (ResponseFrame(env.wait).byte !in {0xFA, 0xFC, 0xFE} ==> SendCmd(l, cmd, env).err == Ps2NoAck)
    ensures SendCmd(l, cmd, env).err == Ok ==>
            var r := SendCmd(l, cmd, env).link;
            r == l.(mode := Mvmt, inflight := ZERO, driving := false, level := r.level,
                    mv := PushAll(l.mv, Deframe(AfterResponse(env.wait) + env.late), l.cap))
  {
    hide Deframe, Residue, Partial, Pack, Edges;
    if ResponseLength(env.wait) > 0 {
      CommandAnswered(l, cmd, env);
    } else {
      Exchange(l.(unlocked := false), cmd, env.wait);
      assert Waiting(l, cmd, env).rx == [];
    }
  }

  predicate IsAck(f: Frame) {
    f.err == Ok && f.byte == RES_ACK
  }

  // The levels of a command's twelve edges and of an acknowledgement.
  function AckBits(): (bits: seq<bool>)
    ensures ResponseLength(bits) > 0 && IsAck(ResponseFrame(bits)) && AfterResponse(bits) == []
  {
    var bits := seq(TX_EDGES, _ => false) + FrameBits(RES_ACK);
    assert bits[TX_EDGES..] == FrameBits(RES_ACK);
    AckFrame();
    bits
  }

  lemma AckFrame()
    ensures CutLength(FrameBits(RES_ACK)) == 11
    ensures CutFrame(FrameBits(RES_ACK)) == Frame(Ok, RES_ACK, 11)
  {
    FrameIsCut(RES_ACK);
  }

  // ---------------------------------------------------------------- commands as runs

  function CmdEvents(l: Link, cmd: bv8, env: CmdEnv): seq<Event> {
    if !l.unlocked then []
    else [Lock] + ([SendByte(cmd)] + (Clocks(env.wait) + ([TakeResponse] + (Clocks(env.late) + [Cleanup]))))
  }

  function SyncEvents(l: Link, env: SyncEnv): seq<Event>
    requires Inv(l)
  {
    var d := SendCmd(l, CMD_DATA_DISABLE, env.disable);
    CmdEvents(l, CMD_DATA_DISABLE, env.disable) +
    if d.err != Ok then []
    else
      var s := Edges(Step(Edges(d.link, env.before), Restart), env.pause);
      Clocks(env.before) + ([Restart] + (Clocks(env.pause) + (CmdEvents(s, CMD_DATA_ENABLE, env.enable) +
      if SendCmd(s, CMD_DATA_ENABLE, env.enable).err != Ok then [] else [Unlock])))
  }

  lemma RunEvent(l: Link, e: Event, more: seq<Event>)
    requires Inv(l)
    ensures Run(l, [e] + more) == Run(Step(l, e), more)
    ensures Run(l, [e]) == Step(l, e) && Run(l, []) == l
  {
    assert ([e] + more)[1..] == more;
    assert [e][1..] == [];
  }

  lemma RunEdges(l: Link, bits: seq<bool>, more: seq<Event>)
    requires Inv(l)
    ensures Run(l, Clocks(bits) + more) == Run(Edges(l, bits), more)
  {
    RunAppend(l, Clocks(bits), more);
    RunClocks(l, bits);
  }

  // A command is a run of atomic events, so what holds over all runs holds of it.
  lemma CommandIsRun(l: Link, cmd: bv8, env: CmdEnv)
    requires Inv(l)
    ensures SendCmd(l, cmd, env).link == Run(l, CmdEvents(l, cmd, env))
  {
    hide Run, Edges, Inv;
    RunEvent(l, Lock, []);
    if l.unlocked {
      var e4 := Clocks(env.late) + [Cleanup];
      var e3 := [TakeResponse] + e4;
      var e2 := Clocks(env.wait) + e3;
      var e1 := [SendByte(cmd)] + e2;
      var locked := Step(l, Lock);
      RunEvent(l, Lock, e1);
      RunEvent(locked, SendByte(cmd), e2);
      RunEdges(Step(locked, SendByte(cmd)), env.wait, e3);
      var w := Waiting(l, cmd, env);
      RunEvent(w, TakeResponse, e4);
      var t := Step(w, TakeResponse);
      RunEdges(t, env.late, [Cleanup]);
      RunEvent(Edges(t, env.late), Cleanup, []);
    }
  }

  // So is a resynchronisation, wherever it stops.
  lemma SyncIsRun(l: Link, env: SyncEnv)
    requires Inv(l)
    ensures MvmtSync(l, env).link == Run(l, SyncEvents(l, env))
  {
    hide Run, Edges, Inv, SendCmd, CmdEvents, Step;
    var d := SendCmd(l, CMD_DATA_DISABLE, env.disable);
    var first := CmdEvents(l, CMD_DATA_DISABLE, env.disable);
    CommandIsRun(l, CMD_DATA_DISABLE, env.disable);
    if d.err != Ok {
      assert first + [] == first;
    } else {
      var r := Edges(d.link, env.before);
      var s := Edges(Step(r, Restart), env.pause);
      var e := SendCmd(s, CMD_DATA_ENABLE, env.enable);
      var last := if e.err != Ok then [] else [Unlock];
      var e3 := CmdEvents(s, CMD_DATA_ENABLE, env.enable) + last;
      var e2 := Clocks(env.pause) + e3;
      RunAppend(l, first, Clocks(env.before) + ([Restart] + e2));
      RunEdges(d.link, env.before, [Restart] + e2);
      RunEvent(r, Restart, e2);
      RunEdges(Step(r, Restart), env.pause, e3);
      CommandIsRun(s, CMD_DATA_ENABLE, env.enable);
      RunAppend(s, CmdEvents(s, CMD_DATA_ENABLE, env.enable), last);
      RunEvent(e.link, Unlock, []);
    }
  }

  // ---------------------------------------------------------------- resynchronisation

  predicate Aligned(l: Link) {
    l.mode == Mvmt && l.inflight == ZERO && l.mv == [] && l.asm.idx == 0
  }

  // The movement bits the device clocked before the end of the resynchronisation.
  function Early(env: SyncEnv): seq<bool>
    requires ResponseLength(env.enable.wait) > 0
  {
    AfterResponse(env.enable.wait) + env.enable.late
  }

  // The frames the device completes after the movement queue is emptied. A frame half received at
  // that moment is among them.
  function Leftover(env: SyncEnv): seq<Frame> {
    Deframe(Residue(env.before) + env.pause)
  }

  // Main result: with no stale response queued, a successful resynchronisation leaves an empty
  // assembler and exactly the frames completed since the movement queue was emptied, whatever was
  // queued, half received or half assembled before.
  lemma SyncRealigns(l: Link, env: SyncEnv)
    requires Inv(l) && l.unlocked && l.rx == [] && l.cap > 0
    requires MvmtSync(l, env).err == Ok
    ensures ResponseLength(env.enable.wait) > 0
    ensures var r := MvmtSync(l, env).link;
            && r.mode == Mvmt && r.inflight == ZERO && r.rx == [] && r.unlocked && r.cap == l.cap
            && r.asm.idx == 0 && r.mv == PushAll([], Leftover(env) + Deframe(Early(env)), l.cap)
  {
    hide Deframe, Residue, Partial, Pack, SendCmd;
    CommandSucceeds(l, CMD_DATA_DISABLE, env.disable);
    var d := SendCmd(l, CMD_DATA_DISABLE, env.disable).link;
    PauseFrames(d, env);
    var s := Edges(Step(Edges(d, env.before), Restart), env.pause);
    CommandSucceeds(s, CMD_DATA_ENABLE, env.enable);
    PushAllAppend([], Leftover(env), Deframe(Early(env)), l.cap);
  }

  lemma PauseFrames(d: Link, env: SyncEnv)
    requires Inv(d) && d.mode == Mvmt && d.inflight == ZERO
    ensures var s := Edges(Step(Edges(d, env.before), Restart), env.pause);
            s == d.(inflight := s.inflight, mv := PushAll([], Leftover(env), d.cap), asm := d.asm.(idx := 0))
  {
    hide Deframe, Residue, Edges, Pack;
    MvmtEdgesDeframe(d, [], env.before);
    assert [] + env.before == env.before;
    MvmtEdgesDeframe(Step(Edges(d, env.before), Restart), Residue(env.before), env.pause);
  }

  lemma {:induction false} PushAllFits(q: seq<Frame>, frames: seq<Frame>, cap: nat)
    requires |q| + |frames| <= cap
    ensures PushAll(q, frames, cap) == q + frames
    decreases |frames|
  {
    if frames == [] {
      assert q + frames == q;
    } else {
      PushAllFits(q + [frames[0]], frames[1..], cap);
      assert q + frames == q + [frames[0]] + frames[1..];
    }
  }

  // Exactly when the link starts afresh: no frame came to its end between the emptying of the queue
  // and the enable, nor between the response to that and the cleanup. What the device sends next may
  // still have lost its beginning.
  lemma SyncAlignsIff(l: Link, env: SyncEnv)
    requires Inv(l) && l.unlocked && l.rx == [] && l.cap > 0
    requires MvmtSync(l, env).err == Ok
    ensures ResponseLength(env.enable.wait) > 0
    ensures Aligned(MvmtSync(l, env).link) <==> Leftover(env) == [] && Deframe(Early(env)) == []
    ensures env.pause == [] && Early(env) == [] ==> Aligned(MvmtSync(l, env).link)
  {
    hide MvmtSync, Deframe;
    SyncRealigns(l, env);
    PushAllEmptyIff(Leftover(env) + Deframe(Early(env)), l.cap);
    if env.pause == [] {
      assert Residue(env.before) + env.pause == Residue(env.before);
      DeframeNothing(Residue(env.before));
      DeframeNothing([]);
    }
  }

  lemma {:induction false} PushAllGrows(q: seq<Frame>, frames: seq<Frame>, cap: nat)
    ensures q <= PushAll(q, frames, cap)
    decreases |frames|
  {
    if frames != [] {
      PushAllGrows(Push(q, frames[0], cap), frames[1..], cap);
    }
  }

  lemma PushAllEmptyIff(frames: seq<Frame>, cap: nat)
    requires cap > 0
    ensures PushAll([], frames, cap) == [] <==> frames == []
  {
    if frames != [] {
      assert Push([], frames[0], cap) == [frames[0]];
      PushAllGrows([frames[0]], frames[1..], cap);
    }
  }

  lemma DeframeNothing(p: seq<bool>)
    requires CutLength(p) == 0
    ensures Deframe(p) == []
  {
  }

  // Exactly when nothing of what the device sends from the enable on is lost: the bits it clocked
  // before the cleanup make up whole frames (none at all, for a device that waits).
  lemma NothingLostIff(early: seq<bool>)
    ensures (forall later :: Deframe(early) + Deframe(later) == Deframe(early + later)) <==> Residue(early) == []
  {
    forall later | Residue(early) == []
      ensures Deframe(early) + Deframe(later) == Deframe(early + later)
    {
      DeframeAppend(early, later);
      assert [] + later == later;
    }
    if Residue(early) != [] {
      DeframeAppend(early, [true]);
      OneMoreBit(Residue(early));
      CancelPrefix(Deframe(early), Deframe([true]), Deframe(Residue(early) + [true]));
    }
  }

  lemma OneMoreBit(p: seq<bool>)
    requires p != [] && CutLength(p) == 0
    ensures Deframe(p + [true]) != Deframe([true])
  {
    assert Deframe([true])[0].idx == 1;
    assert (p + [true])[0] == p[0];
    assert CutLength(p + [true]) != 1;
  }

  lemma DeliversIff(mv: seq<Frame>, early: seq<bool>)
    ensures (forall later: seq<bool> :: mv + Deframe(later) == Deframe(early + later)) <==>
            mv == Deframe(early) && Residue(early) == []
  {
    hide Deframe, Residue;
    DeframeNothing([]);
    NothingLostIff(early);
    if forall later: seq<bool> :: mv + Deframe(later) == Deframe(early + later) {
      assert early + [] == early;
      assert mv == mv + Deframe([]) == Deframe(early);
    }
  }

  // Main result: exactly when the movement queue goes on with what the device sends from the enable
  // on, its first packet first, whatever follows: nothing is left over from before, nothing was
  // dropped, and the bits that came before the cleanup are whole frames.
  lemma SyncLosesNothingIff(l: Link, env: SyncEnv)
    requires Inv(l) && l.unlocked && l.rx == [] && l.cap > 0
    requires MvmtSync(l, env).err == Ok
    ensures ResponseLength(env.enable.wait) > 0
    ensures var mv := MvmtSync(l, env).link.mv;
            var frames := Leftover(env) + Deframe(Early(env));
            && ((forall later: seq<bool> :: mv + Deframe(later) == Deframe(Early(env) + later)) <==>
                PushAll([], frames, l.cap) == Deframe(Early(env)) && Residue(Early(env)) == [])
            && (|frames| <= l.cap ==>
                  ((forall later: seq<bool> :: mv + Deframe(later) == Deframe(Early(env) + later)) <==>
                   Leftover(env) == [] && Residue(Early(env)) == []))
  {
    hide MvmtSync, Deframe, Residue, Leftover, Early;
    SyncRealigns(l, env);
    var frames := Leftover(env) + Deframe(Early(env));
    DeliversIff(MvmtSync(l, env).link.mv, Early(env));
    if |frames| <= l.cap {
      PushAllFits([], frames, l.cap);
      assert [] + frames == frames;
      assert frames == Deframe(Early(env)) <==> Leftover(env) == [];
    }
  }

  // A device that starts to send just before the cleanup loses its first packet to it: the frame
  // reset takes the start bit. The link has started afresh all the same. Bit 0 is the left button of
  // a packet.
  lemma CleanupLosesFirstByte(l: Link, bytes: seq<bv8>)
    requires Inv(l) && l.unlocked && l.rx == [] && l.cap > 0
    requires bytes != [] && !Bit(bytes[0], 0)
    ensures var bits := Stream(bytes);
            var env := SyncEnv(CmdEnv(AckBits(), []), [], [], CmdEnv(AckBits(), [false]));
            && bits != [] && !bits[0] && Deframe(bits) == GoodFrames(bytes)
            && MvmtSync(l, env).err == Ok && Early(env) == [bits[0]] && Aligned(MvmtSync(l, env).link)
            && Deframe(bits[1..]) != [] && Deframe(bits[1..])[0].err == Ps2BadParity
  {
    hide Deframe, Residue, AckBits, SendCmd, Stream, FrameBits;
    var env := SyncEnv(CmdEnv(AckBits(), []), [], [], CmdEnv(AckBits(), [false]));
    assert Early(env) == [false];
    StartsFrame(bytes);
    AcknowledgedSync(l, env);
    SyncAlignsIff(l, env);
    ResidueOfNothing();
    assert Residue(env.before) + env.pause == [];
    DeframeNothing([]);
    DeframeNothing([false]);
  }

  lemma ResidueOfNothing()
    ensures Residue([]) == []
  {
  }

  lemma StartsFrame(bytes: seq<bv8>)
    requires bytes != [] && !Bit(bytes[0], 0)
    ensures var bits := Stream(bytes);
            && bits != [] && !bits[0] && Deframe(bits) == GoodFrames(bytes)
            && Deframe(bits[1..]) != [] && Deframe(bits[1..])[0].err == Ps2BadParity
  {
    hide Deframe, Feed, OddParity, Even, Bit;
    FeedsStream(bytes);
    ReceiverRefinesDeframer(Stream(bytes));
    StartLost(bytes[0], Stream(bytes[1..]));
  }

  // Both commands acknowledged within their waits.
  lemma AcknowledgedSync(l: Link, env: SyncEnv)
    requires Inv(l) && l.unlocked && l.rx == [] && l.cap > 0
    requires ResponseLength(env.disable.wait) > 0 && IsAck(ResponseFrame(env.disable.wait))
    requires ResponseLength(env.enable.wait) > 0 && IsAck(ResponseFrame(env.enable.wait))
    ensures MvmtSync(l, env).err == Ok
  {
    hide Deframe, Residue, Pack, SendCmd, CutFrame;
    CutFrameLength(env.disable.wait[TX_EDGES..]);
    CutFrameLength(env.enable.wait[TX_EDGES..]);
    CommandSucceeds(l, CMD_DATA_DISABLE, env.disable);
    var d := SendCmd(l, CMD_DATA_DISABLE, env.disable).link;
    PauseFrames(d, env);
    CommandSucceeds(Edges(Step(Edges(d, env.before), Restart), env.pause), CMD_DATA_ENABLE, env.enable);
  }

  lemma CutFrameLength(bits: seq<bool>)
    requires CutLength(bits) > 0
    ensures CutFrame(bits).err == Ok ==> CutFrame(bits).idx == 11
  {
  }
}
