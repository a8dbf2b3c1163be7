// A device that streams packets, seen from the remote: which scripts read it without a loss, and what
// they make of the speed.
module RemoteStream {
  import opened Errors
  import opened Sequences
  import opened Ps2Frame
  import opened Ps2Deframer
  import opened Ps2Movement
  import opened Ps2Link
  import opened Ps2Sync
  import opened Ps2EndToEnd
  import opened Ps2Pace
  import opened Remote

  // The task reads a movement at every step of the script.
  predicate KeepsReading(t: TaskState, script: seq<Round>)
    requires Inv(t.link) && Playable(script)
    decreases |script|
  {
    t.reading && (script == [] || KeepsReading(TaskStep(t, script[0]), script[1..]))
  }

  lemma {:induction false} ReadingIsRun(t: TaskState, script: seq<Round>)
    requires Inv(t.link) && Playable(script) && KeepsReading(t, script)
    ensures var es := TaskEvents(t, script);
            && Moving(es)
            && Delivered(t.link, es) == Moves(t, script)
            && |Moves(t, script)| == |script|
    decreases |script|
  {
    hide AwaitMvmt, CallEvents, Edge;
    if script != [] {
      var r := script[0];
      var l := Edges(t.link, r.idle);
      var call := CallEvents(l, r.waits);
      var s := TaskStep(t, r);
      var later := TaskEvents(s, script[1..]);
      CallIsRun(l, r.waits);
      ReadingIsRun(s, script[1..]);
      DeliveredClocks(t.link, r.idle, call + later);
      DeliveredAppend(l, call, later);
    }
  }

  // ---------------------------------------------------------------- the pace of a script

  const PACKET_BYTES := 3

  // The levels of a step, up to its last receive.
  function RoundBits(r: Round): nat
    requires |r.waits| >= PACKET_BYTES
  {
    |r.idle| + Total(r.waits, PACKET_BYTES)
  }

  // From b levels and m bytes on, every receive of the script is paced.
  predicate ScriptPaced(script: seq<Round>, b: nat, m: nat, cap: nat)
    requires Playable(script)
    decreases |script|
  {
    script == [] ||
    (Paced(script[0].waits, PACKET_BYTES, b + |script[0].idle|, m, cap)
     && ScriptPaced(script[1..], b + RoundBits(script[0]), m + PACKET_BYTES, cap))
  }

  // The levels of the script carry the stream on from its b-th.
  ghost predicate ScriptCarries(script: seq<Round>, bytes: seq<bv8>, b: nat)
    requires Playable(script)
    decreases |script|
  {
    script == [] ||
    var r := script[0];
    var c := b + |r.idle|;
    && c <= |Stream(bytes)| && r.idle == Stream(bytes)[b..c]
    && Carries(r.waits, PACKET_BYTES, bytes, c)
    && ScriptCarries(script[1..], bytes, b + RoundBits(r))
  }

  lemma {:induction false} NeverFullAppend(l: Link, a: seq<Event>, b: seq<Event>)
    requires Inv(l)
    ensures NeverFull(l, a + b) <==> NeverFull(l, a) && NeverFull(Run(l, a), b)
    decreases |a|
  {
    hide Step;
    if a == [] {
      assert a + b == b;
    } else {
      assert (a + b)[1..] == a[1..] + b;
      NeverFullAppend(Step(l, a[0]), a[1..], b);
    }
  }

  lemma PacedIsLater(waits: seq<seq<bool>>, k: nat, b: nat, m: nat, cap: nat)
    requires 0 < k <= |waits| && Paced(waits, k, b, m, cap)
    ensures b <= FRAME_BITS * (m + cap)
  {
  }

  lemma {:induction false} PacedEnd(waits: seq<seq<bool>>, k: nat, b: nat, m: nat, cap: nat)
    requires k <= |waits| && Paced(waits, k, b, m, cap) && b <= FRAME_BITS * (m + cap)
    ensures b + Total(waits, k) <= FRAME_BITS * (m + k + cap)
    decreases k
  {
    if k > 0 {
      PacedEnd(waits[1..], k - 1, b + |waits[0]|, m + 1, cap);
    }
  }

  // One step: a movement is read and no edge of the step finds the queue full, exactly when the
  // step is paced.
  lemma RoundIff(l: Link, packets: seq<Packet>, b: nat, j: nat, r: Round, more: seq<Event>)
    requires forall p | p in packets :: p.Valid()
    requires Inv(l) && |r.waits| >= PACKET_BYTES
    requires At(l, AllBytes(packets), b, PACKET_BYTES * j) && l.asm.idx == 0
    requires b <= FRAME_BITS * (PACKET_BYTES * j + l.cap)
    requires ScriptCarries([r], AllBytes(packets), b)
    ensures var w := Edges(l, r.idle);
            var a := AwaitMvmt(w, r.waits);
            && (a.outcome.Moved? && NeverFull(l, Clocks(r.idle) + (CallEvents(w, r.waits) + more)) <==>
                Paced(r.waits, PACKET_BYTES, b + |r.idle|, PACKET_BYTES * j, l.cap) && NeverFull(a.link, more))
            && (Paced(r.waits, PACKET_BYTES, b + |r.idle|, PACKET_BYTES * j, l.cap) ==>
                  && j < |packets| && a.outcome == Moved(packets[j].movement)
                  && a.link.asm.idx == 0 && a.link.cap == l.cap
                  && At(a.link, AllBytes(packets), b + RoundBits(r), PACKET_BYTES * (j + 1)))
  {
    hide At, Edge, Edges, Stream, NeverFull, CallEvents, AwaitMvmt, AllBytes, Packet.Bytes, Paced, Carries;
    var bytes := AllBytes(packets);
    var m := PACKET_BYTES * j;
    var c := b + |r.idle|;
    var w := Edges(l, r.idle);
    var call := CallEvents(w, r.waits);
    WaitAt(l, bytes, b, m, r.idle, call + more);
    NeverFullAppend(w, call, more);
    CallIsRun(w, r.waits);
    if c <= FRAME_BITS * (m + l.cap) {
      CallReads(w, packets, c, j, r.waits);
    } else if Paced(r.waits, PACKET_BYTES, c, m, l.cap) {
      PacedIsLater(r.waits, PACKET_BYTES, c, m, l.cap);
    }
  }

  lemma CallReads(w: Link, packets: seq<Packet>, c: nat, j: nat, waits: seq<seq<bool>>)
    requires forall p | p in packets :: p.Valid()
    requires Inv(w) && |waits| >= PACKET_BYTES
    requires At(w, AllBytes(packets), c, PACKET_BYTES * j) && w.asm.idx == 0
    requires c <= FRAME_BITS * (PACKET_BYTES * j + w.cap)
    requires Carries(waits, PACKET_BYTES, AllBytes(packets), c)
    ensures var a := AwaitMvmt(w, waits);
            && (a.outcome.Moved? && NeverFull(w, CallEvents(w, waits)) <==>
                Paced(waits, PACKET_BYTES, c, PACKET_BYTES * j, w.cap))
            && (Paced(waits, PACKET_BYTES, c, PACKET_BYTES * j, w.cap) ==>
                  && j < |packets| && a.outcome == Moved(packets[j].movement)
                  && a.link.asm.idx == 0 && a.link.cap == w.cap
                  && At(a.link, AllBytes(packets), c + Total(waits, PACKET_BYTES), PACKET_BYTES * (j + 1)))
  {
    hide At, Stream, NeverFull, CallEvents, AwaitMvmt, Finish, AllBytes, Packet.Bytes, Paced, Carries;
    HoldsNothing(w, AllBytes(packets), c, PACKET_BYTES * j);
    CallSucceedsIff(w, AllBytes(packets), c, PACKET_BYTES * j, waits, PACKET_BYTES);
    if Paced(waits, PACKET_BYTES, c, PACKET_BYTES * j, w.cap) {
      PacketAt(packets, j);
    }
  }

  lemma HoldsNothing(l: Link, bytes: seq<bv8>, b: nat, m: nat)
    requires At(l, bytes, b, m) && l.asm.idx == 0
    ensures Holds(l, bytes, m)
  {
  }

  // The end of a packet of the stream.
  lemma PacketAt(packets: seq<Packet>, j: nat)
    requires forall p | p in packets :: p.Valid()
    requires PACKET_BYTES * (j + 1) <= |AllBytes(packets)|
    ensures j < |packets|
    ensures AllBytes(packets)[PACKET_BYTES * j..PACKET_BYTES * (j + 1)] == packets[j].Bytes()
    ensures var a := Assembler(3, AllBytes(packets)[PACKET_BYTES * j..PACKET_BYTES * (j + 1)]);
            Finish(a) == (Moved(packets[j].movement), a.(idx := 0))
  {
    hide Decode, Packet.Bytes, AlwaysOne;
    AllBytesSplit(packets, 0);
    AllBytesSplit(packets, j);
    AllBytesSplit(packets[..j], 0);
    FirstBytes(packets[j..]);
    var before, own := AllBytes(packets[..j]), packets[j].Bytes();
    var after := AllBytes(packets[j..][1..]);
    assert AllBytes(packets) == before + (own + after);
    assert (before + (own + after))[|before|..|before| + 3] == own;
    DecodeEncoded(packets[j]);
  }

  // Main result: a task that reads a stream of packets reads a movement at every step, without an
  // edge that finds the queue full, exactly when its script is paced; the movements are then the
  // packets', in order.
  lemma {:induction false} ReadsIffPaced(t: TaskState, packets: seq<Packet>, script: seq<Round>, b: nat, j: nat)
    requires Inv(t.link) && t.reading && Playable(script)
    requires forall p | p in packets :: p.Valid()
    requires At(t.link, AllBytes(packets), b, PACKET_BYTES * j) && t.link.asm.idx == 0 && j <= |packets|
    requires b <= FRAME_BITS * (PACKET_BYTES * j + t.link.cap)
    requires ScriptCarries(script, AllBytes(packets), b)
    ensures KeepsReading(t, script) && NeverFull(t.link, TaskEvents(t, script)) <==>
            ScriptPaced(script, b, PACKET_BYTES * j, t.link.cap)
    ensures ScriptPaced(script, b, PACKET_BYTES * j, t.link.cap) ==>
            j + |script| <= |packets| && Moves(t, script) == Movements(packets)[j..j + |script|]
    decreases |script|
  {
    hide At, Edge, Edges, Stream, NeverFull, CallEvents, AwaitMvmt, AllBytes, Paced, Carries, Clocks;
    hide TaskStep, Movements;
    if script == [] {
      NothingToRead(t.link);
    } else {
      var r, later := script[0], script[1..];
      var m := PACKET_BYTES * j;
      var s := TaskStep(t, r);
      assert ScriptCarries([r], AllBytes(packets), b) by {
        assert [r][0] == r && [r][1..] == [];
      }
      ReadTurn(t, r);
      RoundIff(t.link, packets, b, j, r, TaskEvents(s, later));
      if Paced(r.waits, PACKET_BYTES, b + |r.idle|, m, t.link.cap) {
        PacedIsLater(r.waits, PACKET_BYTES, b + |r.idle|, m, t.link.cap);
        PacedEnd(r.waits, PACKET_BYTES, b + |r.idle|, m, t.link.cap);
        ReadsIffPaced(s, packets, later, b + RoundBits(r), j + 1);
        if ScriptPaced(script, b, m, t.link.cap) {
          NextMovements(packets, j, |later|);
        }
      }
    }
  }

  lemma NextMovements(packets: seq<Packet>, j: nat, n: nat)
    requires j + 1 + n <= |packets|
    ensures Movements(packets)[j..j + 1 + n] == [packets[j].movement] + Movements(packets)[j + 1..j + 1 + n]
  {
  }

  lemma NothingToRead(l: Link)
    requires Inv(l)
    ensures NeverFull(l, [])
  {
  }

  // ---------------------------------------------------------------- the speed

  lemma AlignedAt(l: Link, bytes: seq<bv8>)
    requires Inv(l) && Aligned(l)
    ensures At(l, bytes, 0, 0)
  {
    assert Stream(bytes)[..0] == [];
  }

  // Main result: a device that streams packets to an aligned handle, read at a pace that is neither
  // too slow for the calls nor too fast for the queue, drives the speed by exactly the packets' x,
  // in order, one step of the task each.
  lemma StreamDrivesSpeed(t: TaskState, packets: seq<Packet>, script: seq<Round>)
    requires Inv(t.link) && Aligned(t.link) && t.reading && 0 <= t.speed <= 255
    requires forall p | p in packets :: p.Valid()
    requires Playable(script) && ScriptCarries(script, AllBytes(packets), 0)
    requires ScriptPaced(script, 0, 0, t.link.cap)
    ensures KeepsReading(t, script) && |script| <= |packets|
    ensures Task(t, script).duties == t.duties + Speeds(t.speed, Movements(packets)[..|script|])
  {
    hide Task, Moves, KeepsReading, NeverFull, At, Stream, AllBytes, Speeds, Movements, ScriptPaced, ScriptCarries;
    AlignedAt(t.link, AllBytes(packets));
    ReadsIffPaced(t, packets, script, 0, 0);
    DutiesFollowMovements(t, script);
  }

  // The whole story: from any state of the link and the assembler, without a stale response, one
  // successful resynchronisation that leaves the first k frames of the stream in the queue, and then
  // the rest of the stream. For a device that waits for the cleanup k is zero.
  lemma ResyncThenStream(t: TaskState, packets: seq<Packet>, script: seq<Round>, k: nat)
    requires Inv(t.link) && !t.reading && 0 <= t.speed <= 255
    requires t.link.unlocked && t.link.cap > 0
    requires forall p | p in packets :: p.Valid()
    requires script != [] && Playable(script)
    requires var r := script[0];
             && Edges(t.link, r.idle).rx == []
             && MvmtSync(Edges(t.link, r.idle), r.sync).err == Ok
             && ResponseLength(r.sync.enable.wait) > 0
             && k <= |AllBytes(packets)| && k <= t.link.cap
             && Leftover(r.sync) + Deframe(Early(r.sync)) == GoodFrames(AllBytes(packets))[..k]
    requires ScriptCarries(script[1..], AllBytes(packets), FRAME_BITS * k)
    requires ScriptPaced(script[1..], FRAME_BITS * k, 0, t.link.cap)
    ensures |script| - 1 <= |packets|
    ensures Task(t, script).duties == t.duties + Speeds(t.speed, Movements(packets)[..|script| - 1])
  {
    hide MvmtSync, Edges, Deframe, Stream, AllBytes, Speeds, Movements, ScriptPaced, ScriptCarries, Leftover, Early, At;
    hide TaskStep, GoodFrames, Inv;
    var r := script[0];
    SyncQueues(Edges(t.link, r.idle), r.sync, AllBytes(packets), k);
    SyncTurn(t, r);
    QueuedStreamDrivesSpeed(TaskStep(t, r), packets, script[1..], k);
  }

  lemma SyncQueues(l: Link, env: SyncEnv, bytes: seq<bv8>, k: nat)
    requires Inv(l) && l.unlocked && l.cap > 0 && l.rx == []
    requires MvmtSync(l, env).err == Ok && ResponseLength(env.enable.wait) > 0
    requires k <= |bytes| && k <= l.cap && Leftover(env) + Deframe(Early(env)) == GoodFrames(bytes)[..k]
    ensures var r := MvmtSync(l, env).link;
            At(r, bytes, FRAME_BITS * k, 0) && r.asm.idx == 0 && r.cap == l.cap
  {
    hide MvmtSync, Deframe, Stream, Leftover, Early, At;
    SyncRealigns(l, env);
    PushAllFits([], GoodFrames(bytes)[..k], l.cap);
    QueuedAt(MvmtSync(l, env).link, bytes, k);
  }

  lemma QueuedStreamDrivesSpeed(t: TaskState, packets: seq<Packet>, script: seq<Round>, k: nat)
    requires Inv(t.link) && t.reading && 0 <= t.speed <= 255 && k <= t.link.cap
    requires forall p | p in packets :: p.Valid()
    requires At(t.link, AllBytes(packets), FRAME_BITS * k, 0) && t.link.asm.idx == 0
    requires Playable(script) && ScriptCarries(script, AllBytes(packets), FRAME_BITS * k)
    requires ScriptPaced(script, FRAME_BITS * k, 0, t.link.cap)
    ensures |script| <= |packets|
    ensures Task(t, script).duties == t.duties + Speeds(t.speed, Movements(packets)[..|script|])
  {
    hide Task, Moves, KeepsReading, NeverFull, At, Stream, AllBytes, Speeds, Movements, ScriptPaced, ScriptCarries, Inv;
    ReadsIffPaced(t, packets, script, FRAME_BITS * k, 0);
    DutiesFollowMovements(t, script);
  }

  lemma QueuedAt(l: Link, bytes: seq<bv8>, k: nat)
    requires Inv(l) && l.mode == Mvmt && l.inflight == ZERO && k <= |bytes|
    requires l.mv == [] + GoodFrames(bytes)[..k]
    ensures At(l, bytes, FRAME_BITS * k, 0)
  {
    StreamLength(bytes);
    StreamSplit(bytes, k);
    FeedsStream(bytes[..k]);
  }

  lemma {:induction false} StreamSplit(bytes: seq<bv8>, k: nat)
    requires k <= |bytes|
    ensures FRAME_BITS * k <= |Stream(bytes)| && Stream(bytes)[..FRAME_BITS * k] == Stream(bytes[..k])
    decreases |bytes|
  {
    hide FrameBits;
    StreamLength(bytes);
    if k > 0 {
      StreamSplit(bytes[1..], k - 1);
      assert bytes[..k][1..] == bytes[1..][..k - 1];
      TakePast(FrameBits(bytes[0]), Stream(bytes[1..]), FRAME_BITS * k);
    }
  }

  // A device that starts its stream before the cleanup is covered when the bits by then are whole
  // frames: they are the first frames of the stream.
  lemma EarlyFramesOfStream(bytes: seq<bv8>, early: seq<bool>)
    requires early <= Stream(bytes) && Residue(early) == []
    ensures var k := |early| / FRAME_BITS;
            && |early| == FRAME_BITS * k && k <= |bytes| && Deframe(early) == GoodFrames(bytes)[..k]
  {
    hide Deframe, Residue, Stream, Feed;
    assert early == Stream(bytes)[..|early|];
    StreamPrefix(bytes, |early|);
    ReceiverRefinesDeframer(early);
    WholeFramesTotal(bytes, |early| / FRAME_BITS);
  }

  lemma {:induction false} WholeFramesTotal(bytes: seq<bv8>, k: nat)
    requires k <= |bytes|
    ensures TotalBits(GoodFrames(bytes)[..k]) == FRAME_BITS * k
    decreases k
  {
    if k > 0 {
      FirstsOf(bytes, k);
      WholeFramesTotal(bytes[1..], k - 1);
      var rest := GoodFrames(bytes[1..])[..k - 1];
      assert ([Frame(Ok, bytes[0], 11)] + rest)[1..] == rest;
    }
  }

  // Every list of packets can be read in full: with each receive right after its frame.
  function Steady(packets: seq<Packet>): (script: seq<Round>)
    requires forall p | p in packets :: p.Valid()
    ensures Playable(script) && |script| == |packets|
  {
    seq(|packets|, i requires 0 <= i < |packets| => SteadyRound(packets[i].Bytes()))
  }

  function SteadyRound(bytes: seq<bv8>): (r: Round)
    requires |bytes| == PACKET_BYTES
    ensures |r.waits| >= PACKET_BYTES
  {
    var silent := CmdEnv([], []);
    Round([], SyncEnv(silent, [], [], silent), [FrameBits(bytes[0]), FrameBits(bytes[1]), FrameBits(bytes[2])], true)
  }

  lemma {:induction false} SteadyIsPaced(packets: seq<Packet>, m: nat, cap: nat)
    requires (forall p | p in packets :: p.Valid()) && cap > 0
    ensures ScriptPaced(Steady(packets), FRAME_BITS * m, m, cap)
    decreases |packets|
  {
    hide Packet.Bytes, FrameBit;
    if packets != [] {
      var r := SteadyRound(packets[0].Bytes());
      assert Steady(packets)[1..] == Steady(packets[1..]);
      SteadyRoundIsPaced(packets[0].Bytes(), m, cap);
      SteadyIsPaced(packets[1..], m + PACKET_BYTES, cap);
    }
  }

  lemma SteadyRoundIsPaced(bytes: seq<bv8>, m: nat, cap: nat)
    requires |bytes| == PACKET_BYTES && cap > 0
    ensures Paced(SteadyRound(bytes).waits, PACKET_BYTES, FRAME_BITS * m, m, cap)
    ensures RoundBits(SteadyRound(bytes)) == FRAME_BITS * PACKET_BYTES
  {
    hide FrameBits;
    var w := SteadyRound(bytes).waits;
    var w1, w2 := w[1..], w[1..][1..];
    assert |w[0]| == |w1[0]| == |w2[0]| == FRAME_BITS;
    assert Paced(w2, 1, FRAME_BITS * (m + 2), m + 2, cap) && Total(w2, 1) == FRAME_BITS;
    assert Paced(w1, 2, FRAME_BITS * (m + 1), m + 1, cap) && Total(w1, 2) == 2 * FRAME_BITS;
  }

  lemma {:induction false} StreamAt(bytes: seq<bv8>, i: nat)
    requires i < |bytes|
    ensures FRAME_BITS * (i + 1) <= |Stream(bytes)|
    ensures Stream(bytes)[FRAME_BITS * i..FRAME_BITS * (i + 1)] == FrameBits(bytes[i])
    decreases i
  {
    hide FrameBits;
    var first, later := FrameBits(bytes[0]), Stream(bytes[1..]);
    StreamLength(bytes);
    if i > 0 {
      StreamAt(bytes[1..], i - 1);
      assert (first + later)[FRAME_BITS * i..FRAME_BITS * (i + 1)] == later[FRAME_BITS * (i - 1)..FRAME_BITS * i];
    }
  }

  lemma RoundCarries(packets: seq<Packet>, j: nat)
    requires forall p | p in packets :: p.Valid()
    requires j < |packets|
    ensures Carries(SteadyRound(packets[j].Bytes()).waits, PACKET_BYTES, AllBytes(packets),
                    FRAME_BITS * PACKET_BYTES * j)
  {
    hide FrameBits, Stream, AllBytes, Packet.Bytes;
    var bytes := AllBytes(packets);
    var own := packets[j].Bytes();
    var m := PACKET_BYTES * j;
    FrameAt(packets, j, 0);
    FrameAt(packets, j, 1);
    FrameAt(packets, j, 2);
    var w := SteadyRound(own).waits;
    var w1, w2 := w[1..], w[1..][1..];
    assert Carries(w2, 1, bytes, FRAME_BITS * (m + 2));
    assert Carries(w1, 2, bytes, FRAME_BITS * (m + 1));
  }

  // The frame of the i-th byte of the j-th packet in the stream.
  lemma FrameAt(packets: seq<Packet>, j: nat, i: nat)
    requires forall p | p in packets :: p.Valid()
    requires j < |packets| && i < PACKET_BYTES
    ensures var from := FRAME_BITS * (PACKET_BYTES * j + i);
            && from + FRAME_BITS <= |Stream(AllBytes(packets))|
            && Stream(AllBytes(packets))[from..from + FRAME_BITS] == FrameBits(packets[j].Bytes()[i])
  {
    hide FrameBits, Stream, AllBytes, Packet.Bytes, Finish;
    var m := PACKET_BYTES * j;
    AllBytesSplit(packets, j);
    PacketAt(packets, j);
    assert AllBytes(packets)[m..m + PACKET_BYTES][i] == AllBytes(packets)[m + i];
    StreamAt(AllBytes(packets), m + i);
  }

  lemma {:induction false} SteadyCarries(packets: seq<Packet>, j: nat)
    requires forall p | p in packets :: p.Valid()
    requires j <= |packets|
    ensures ScriptCarries(Steady(packets[j..]), AllBytes(packets), FRAME_BITS * PACKET_BYTES * j)
    decreases |packets| - j
  {
    hide FrameBits, Stream, AllBytes, Packet.Bytes, Carries, SteadyRound, RoundBits;
    if j < |packets| {
      var rest := packets[j..];
      assert Steady(rest)[1..] == Steady(packets[j + 1..]);
      assert Steady(rest)[0] == SteadyRound(packets[j].Bytes());
      RoundCarries(packets, j);
      SteadyRoundIsPaced(packets[j].Bytes(), 0, 1);
      SteadyCarries(packets, j + 1);
      StartsInStream(packets, j);
    }
  }

  lemma StartsInStream(packets: seq<Packet>, j: nat)
    requires forall p | p in packets :: p.Valid()
    requires j < |packets|
    ensures SteadyRound(packets[j].Bytes()).idle == []
    ensures FRAME_BITS * PACKET_BYTES * j <= |Stream(AllBytes(packets))|
  {
    AllBytesSplit(packets, j);
    StreamLength(AllBytes(packets));
  }

  lemma EveryStreamCanBeRead(t: TaskState, packets: seq<Packet>)
    requires Inv(t.link) && Aligned(t.link) && t.reading && 0 <= t.speed <= 255 && t.link.cap > 0
    requires forall p | p in packets :: p.Valid()
    ensures Task(t, Steady(packets)).duties == t.duties + Speeds(t.speed, Movements(packets))
  {
    hide Task, Stream, AllBytes, Speeds, ScriptPaced, ScriptCarries, Steady;
    assert packets[0..] == packets;
    SteadyCarries(packets, 0);
    SteadyIsPaced(packets, 0, t.link.cap);
    StreamDrivesSpeed(t, packets, Steady(packets));
    assert Movements(packets)[..|packets|] == Movements(packets);
  }
}
