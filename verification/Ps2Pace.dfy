// Reading a clean stream: exactly which pace of the edges, between the receives of await_mvmt, is
// neither too slow for the calls nor too fast for the queue.
module Ps2Pace {
  import opened Errors
  import opened Sequences
  import opened Ps2Frame
  import opened Ps2Deframer
  import opened Ps2Movement
  import opened Ps2Link
  import opened Ps2Sync
  import opened Ps2EndToEnd

  const FRAME_BITS := 11

  lemma {:induction false} StreamLength(bytes: seq<bv8>)
    ensures |Stream(bytes)| == FRAME_BITS * |bytes|
  {
    if bytes != [] {
      StreamLength(bytes[1..]);
    }
  }

  lemma UnfinishedFrame(byte: bv8, k: nat)
    requires k < FRAME_BITS
    ensures Feed(ZERO, FrameBits(byte)[..k]).frames == []
  {
    hide Pack, Even;
    var p := FrameBits(byte)[..k];
    if k >= 10 {
      forall j | 0 <= j < 8
        ensures p[1..9][j] == DataBits(byte)[j]
      {
        assert p[1..9][j] == p[j + 1] == FrameBit(byte, j + 1);
      }
      assert p[1..9] == DataBits(byte);
    }
    assert CutLength(p) == 0;
    ReceiverRefinesDeframer(p);
    DeframeNothing(p);
  }

  // The frames of a stream come one every eleven bits.
  lemma {:induction false} StreamPrefix(bytes: seq<bv8>, b: nat)
    requires b <= |Stream(bytes)|
    ensures b / FRAME_BITS <= |bytes|
    ensures Feed(ZERO, Stream(bytes)[..b]).frames == GoodFrames(bytes)[..b / FRAME_BITS]
    decreases |bytes|
  {
    hide FrameBit, Accept;
    StreamLength(bytes);
    if bytes != [] {
      var first, later := FrameBits(bytes[0]), Stream(bytes[1..]);
      if b < FRAME_BITS {
        TakeWithin(first, later, b);
        UnfinishedFrame(bytes[0], b);
      } else {
        TakePast(first, later, b);
        StreamPrefix(bytes[1..], b - FRAME_BITS);
        FeedAppend(ZERO, first, later[..b - FRAME_BITS]);
        FeedsFrame(bytes[0]);
        FirstsOf(bytes, b / FRAME_BITS);
      }
    } else {
      assert Stream(bytes)[..b] == [];
    }
  }

  lemma FirstsOf(bytes: seq<bv8>, n: nat)
    requires 0 < n <= |bytes|
    ensures GoodFrames(bytes)[..n] == [Frame(Ok, bytes[0], 11)] + GoodFrames(bytes[1..])[..n - 1]
  {
  }

  // ---------------------------------------------------------------- where in the stream the link is

  // After b levels of the stream, with m of its bytes taken from the queue.
  ghost predicate At(l: Link, bytes: seq<bv8>, b: nat, m: nat) {
    && Inv(l) && l.mode == Mvmt
    && b <= |Stream(bytes)| && m <= b / FRAME_BITS <= |bytes|
    && l.inflight == Feed(ZERO, Stream(bytes)[..b]).rest
    && l.mv == GoodFrames(bytes)[m..b / FRAME_BITS]
  }

  // The assembler holds the last of them.
  ghost predicate Holds(l: Link, bytes: seq<bv8>, m: nat) {
    && m <= |bytes| && WellFormed(l.asm) && l.asm.idx <= m
    && l.asm.mvmt[..l.asm.idx] == bytes[m - l.asm.idx..m]
  }

  lemma EdgeAt(l: Link, bytes: seq<bv8>, b: nat, m: nat)
    requires At(l, bytes, b, m) && b < |Stream(bytes)|
    ensures |l.mv| < l.cap <==> b < FRAME_BITS * (m + l.cap)
    ensures |l.mv| < l.cap ==> At(Edge(l, Stream(bytes)[b]), bytes, b + 1, m)
  {
    hide Accept, Stream;
    var s := Stream(bytes);
    assert s[..b + 1] == s[..b] + [s[b]];
    FeedAppend(ZERO, s[..b], [s[b]]);
    StreamPrefix(bytes, b);
    StreamPrefix(bytes, b + 1);
    assert |l.mv| == b / FRAME_BITS - m;
    if |l.mv| < l.cap {
      ClockFacts(l, s[b]);
      OneBit(l.inflight, s[b]);
      SliceExtends(GoodFrames(bytes), m, b / FRAME_BITS, (b + 1) / FRAME_BITS, Feed(l.inflight, [s[b]]).frames);
    }
  }

  lemma OneBit(f: Frame, bit: bool)
    requires f.idx <= 10
    ensures Feed(f, [bit]) ==
            if Complete(Accept(f, bit)) then Fed([Accept(f, bit)], ZERO) else Fed([], Accept(f, bit))
  {
    hide Accept;
    assert [bit][1..] == [];
  }

  // A wait is not too fast exactly when the queue has room for all of it, whatever follows.
  lemma {:induction false} WaitAt(l: Link, bytes: seq<bv8>, b: nat, m: nat, bits: seq<bool>, more: seq<Event>)
    requires At(l, bytes, b, m)
    requires b <= FRAME_BITS * (m + l.cap) && b + |bits| <= |Stream(bytes)|
    requires bits == Stream(bytes)[b..b + |bits|]
    ensures NeverFull(l, Clocks(bits) + more) <==>
            b + |bits| <= FRAME_BITS * (m + l.cap) && NeverFull(Edges(l, bits), more)
    ensures b + |bits| <= FRAME_BITS * (m + l.cap) ==> At(Edges(l, bits), bytes, b + |bits|, m)
    decreases |bits|
  {
    hide At, Edge, Stream;
    if bits == [] {
      assert Clocks(bits) + more == more;
    } else {
      var es := Clocks(bits) + more;
      var later := bits[1..];
      assert es[0] == Clock(bits[0]) && es[1..] == Clocks(later) + more;
      assert bits[0] == Stream(bytes)[b];
      AtFacts(l, bytes, b, m);
      EdgeAt(l, bytes, b, m);
      if b < FRAME_BITS * (m + l.cap) {
        WaitAt(Edge(l, bits[0]), bytes, b + 1, m, later, more);
      }
    }
  }

  lemma AtFacts(l: Link, bytes: seq<bv8>, b: nat, m: nat)
    requires At(l, bytes, b, m)
    ensures Inv(l) && l.mode == Mvmt && b <= |Stream(bytes)|
  {
  }

  // A receive finds a byte exactly when all its bits have come.
  lemma TakeAt(l: Link, bytes: seq<bv8>, b: nat, m: nat)
    requires At(l, bytes, b, m) && Holds(l, bytes, m) && !Stuck(l.asm)
    ensures var t := TakeByte(l);
            && t.err in {Ok, Ps2Timeout}
            && (t.err == Ok <==> FRAME_BITS * (m + 1) <= b)
            && (t.err == Ok ==>
                  && At(t.link, bytes, b, m + 1) && Holds(t.link, bytes, m + 1)
                  && t.link.asm.idx == l.asm.idx + 1 && t.link.cap == l.cap)
  {
    hide Stream;
    if l.mv != [] {
      assert l.mv[0] == Frame(Ok, bytes[m], 11);
      var k := l.asm.idx;
      var mvmt := l.asm.mvmt[k := bytes[m]];
      assert mvmt[..k + 1] == l.asm.mvmt[..k] + [bytes[m]];
      assert bytes[m - k..m + 1] == bytes[m - k..m] + [bytes[m]];
      assert l.mv[1..] == GoodFrames(bytes)[m + 1..b / FRAME_BITS];
    }
  }

  // ---------------------------------------------------------------- the pace of a call

  function Total(waits: seq<seq<bool>>, k: nat): nat
    requires k <= |waits|
  {
    if k == 0 then 0 else |waits[0]| + Total(waits[1..], k - 1)
  }

  // Of k receives, after b bits and m bytes: when one takes its byte the bits of that byte have
  // come, and no more than the queue can hold.
  predicate Paced(waits: seq<seq<bool>>, k: nat, b: nat, m: nat, cap: nat)
    requires k <= |waits|
  {
    k == 0 ||
    var c := b + |waits[0]|;
    FRAME_BITS * (m + 1) <= c <= FRAME_BITS * (m + cap) && Paced(waits[1..], k - 1, c, m + 1, cap)
  }

  // The first k waits carry the stream on from its b-th level.
  ghost predicate Carries(waits: seq<seq<bool>>, k: nat, bytes: seq<bv8>, b: nat)
    requires k <= |waits|
  {
    k == 0 ||
    var c := b + |waits[0]|;
    c <= |Stream(bytes)| && waits[0] == Stream(bytes)[b..c] && Carries(waits[1..], k - 1, bytes, c)
  }

  // The call reaches its end, and no edge of it finds the queue full.
  predicate Succeeds(l: Link, waits: seq<seq<bool>>)
    requires Inv(l) && l.asm.idx + |waits| >= 3
  {
    AwaitMvmt(l, waits).outcome != Failed(Ps2Timeout) && NeverFull(l, CallEvents(l, waits))
  }

  // The call ends with the packet that its receives complete, b levels and m bytes into the stream.
  ghost predicate Reaches(l: Link, waits: seq<seq<bool>>, bytes: seq<bv8>, b: nat, m: nat) {
    && Inv(l) && l.asm.idx + |waits| >= 3 && 3 <= m <= |bytes|
    && var a := Assembler(3, bytes[m - 3..m]);
       var r := AwaitMvmt(l, waits);
       && r.outcome == Finish(a).0 && r.link.asm == Finish(a).1
       && At(r.link, bytes, b, m) && r.link.cap == l.cap
  }

  // Main result: a call on a clean stream takes its bytes, without a frame being lost, exactly when
  // it is paced.
  lemma {:induction false} CallSucceedsIff(l: Link, bytes: seq<bv8>, b: nat, m: nat, waits: seq<seq<bool>>, k: nat)
    requires At(l, bytes, b, m) && Holds(l, bytes, m) && l.asm.idx + k == 3 && k <= |waits|
    requires b <= FRAME_BITS * (m + l.cap) && Carries(waits, k, bytes, b)
    ensures Succeeds(l, waits) <==> Paced(waits, k, b, m, l.cap)
    ensures Paced(waits, k, b, m, l.cap) ==> Reaches(l, waits, bytes, b + Total(waits, k), m + k)
    decreases k
  {
    hide At, Edge, Edges, Stream, TakeByte, Finish, Holds, Succeeds, NeverFull, AwaitMvmt, Rest, Inv, Reaches;
    AtFacts(l, bytes, b, m);
    if k == 0 {
      ReachesEnd(l, bytes, b, m, waits);
      StuckSucceeds(l, waits);
    } else {
      var w := Edges(l, waits[0]);
      var c := b + |waits[0]|;
      WaitAt(l, bytes, b, m, waits[0], [Poll] + Rest(l, waits));
      if c <= FRAME_BITS * (m + l.cap) {
        HoldsThrough(l, w, bytes, m);
        AtFacts(w, bytes, c, m);
        TakeAt(w, bytes, c, m);
        ReceiveSucceeds(l, waits);
        var t := TakeByte(w);
        if t.err == Ok {
          CallSucceedsIff(t.link, bytes, c, m + 1, waits[1..], k - 1);
          if Paced(waits, k, b, m, l.cap) {
            assert Total(waits, k) == |waits[0]| + Total(waits[1..], k - 1);
            ReachesFirst(l, waits, bytes, b + Total(waits, k), m + k);
          }
        }
      } else {
        RestFollows(l, waits);
      }
    }
  }

  lemma ReachesEnd(l: Link, bytes: seq<bv8>, b: nat, m: nat, waits: seq<seq<bool>>)
    requires At(l, bytes, b, m) && Holds(l, bytes, m) && Stuck(l.asm)
    ensures Reaches(l, waits, bytes, b, m)
  {
    hide At, Holds, Finish;
    AtFacts(l, bytes, b, m);
    EndAt(l, bytes, b, m);
    StuckSucceeds(l, waits);
  }

  lemma ReachesFirst(l: Link, waits: seq<seq<bool>>, bytes: seq<bv8>, b: nat, m: nat)
    requires Inv(l) && l.asm.idx + |waits| >= 3 && !Stuck(l.asm)
    requires var t := TakeByte(Edges(l, waits[0]));
             t.err == Ok && t.link.cap == l.cap && Reaches(t.link, waits[1..], bytes, b, m)
    ensures Reaches(l, waits, bytes, b, m)
  {
    hide At, Finish, Edges, TakeByte, AwaitMvmt, Inv;
    CallUnfolds(l, waits);
  }

  // The events of a call after its first poll.
  function Rest(l: Link, waits: seq<seq<bool>>): seq<Event>
    requires Inv(l) && l.asm.idx + |waits| >= 3 && !Stuck(l.asm)
  {
    var t := TakeByte(Edges(l, waits[0]));
    if t.err != Ok || Stuck(t.link.asm) then [] else CallEvents(t.link, waits[1..])
  }

  lemma CallUnfolds(l: Link, waits: seq<seq<bool>>)
    requires Inv(l) && l.asm.idx + |waits| >= 3 && !Stuck(l.asm)
    ensures CallEvents(l, waits) == Clocks(waits[0]) + ([Poll] + Rest(l, waits))
    ensures var t := TakeByte(Edges(l, waits[0]));
            AwaitMvmt(l, waits) == if t.err != Ok then Awaited(Failed(t.err), t.link) else AwaitMvmt(t.link, waits[1..])
  {
    hide Edges, TakeByte, Clocks, Finish, Inv;
  }

  lemma RestFollows(l: Link, waits: seq<seq<bool>>)
    requires Inv(l) && l.asm.idx + |waits| >= 3 && !Stuck(l.asm)
    ensures Succeeds(l, waits) ==> NeverFull(l, Clocks(waits[0]) + ([Poll] + Rest(l, waits)))
  {
    hide Rest, Edges, TakeByte;
    CallUnfolds(l, waits);
  }

  // The first receive of a call, once its wait found room.
  lemma ReceiveSucceeds(l: Link, waits: seq<seq<bool>>)
    requires Inv(l) && l.asm.idx + |waits| >= 3 && !Stuck(l.asm)
    requires TakeByte(Edges(l, waits[0])).err in {Ok, Ps2Timeout}
    requires NeverFull(l, Clocks(waits[0]) + ([Poll] + Rest(l, waits))) ==
             NeverFull(Edges(l, waits[0]), [Poll] + Rest(l, waits))
    ensures var t := TakeByte(Edges(l, waits[0]));
            Succeeds(l, waits) <==> t.err == Ok && Succeeds(t.link, waits[1..])
  {
    hide Edge, Edges, TakeByte, Finish, NeverFull, CallEvents, AwaitMvmt;
    var w := Edges(l, waits[0]);
    var t := TakeByte(w);
    CallUnfolds(l, waits);
    PollNeverFull(w, Rest(l, waits));
    if t.err == Ok {
      PollTakes(w);
      if Stuck(t.link.asm) {
        StuckSucceeds(t.link, waits[1..]);
      }
    }
  }

  lemma StuckSucceeds(l: Link, waits: seq<seq<bool>>)
    requires Inv(l) && Stuck(l.asm)
    ensures Succeeds(l, waits)
    ensures AwaitMvmt(l, waits) == FinishLink(l)
  {
    assert [Poll][1..] == [];
  }

  lemma HoldsThrough(l: Link, w: Link, bytes: seq<bv8>, m: nat)
    requires Holds(l, bytes, m) && w.asm == l.asm
    ensures Holds(w, bytes, m)
  {
  }

  lemma PollNeverFull(l: Link, rest: seq<Event>)
    requires Inv(l)
    ensures NeverFull(l, [Poll] + rest) == NeverFull(Step(l, Poll), rest)
    ensures NeverFull(Step(l, Poll), [])
  {
    assert ([Poll] + rest)[1..] == rest;
  }

  lemma PollTakes(l: Link)
    requires Inv(l) && !Stuck(l.asm) && TakeByte(l).err == Ok
    ensures !Stuck(TakeByte(l).link.asm) ==> Step(l, Poll) == TakeByte(l).link
  {
  }

  lemma EndAt(l: Link, bytes: seq<bv8>, b: nat, m: nat)
    requires At(l, bytes, b, m) && Holds(l, bytes, m) && Stuck(l.asm)
    ensures 3 <= m <= |bytes| && l.asm == Assembler(3, bytes[m - 3..m])
    ensures var f := FinishLink(l);
            && f.outcome == Finish(l.asm).0 && f.outcome != Failed(Ps2Timeout)
            && f.link == l.(asm := Finish(l.asm).1) && At(f.link, bytes, b, m)
  {
    hide Stream, Decode;
    assert l.asm.mvmt[..3] == l.asm.mvmt;
  }
}
