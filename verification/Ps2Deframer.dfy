// Receiving: the bit-by-bit receiver of the clock interrupt, and a batch deframer that looks
// at the whole bit stream. The two agree on every stream, valid or not.
module Ps2Deframer {
  import opened Errors
  import opened Ps2Frame
  import opened Sequences

  // ---------------------------------------------------------------- the incremental receiver

  // One received bit. Bits 0, 9 and 10 are checked against the frame that carries the byte.
  function Accept(f: Frame, bit: bool): Frame
    requires f.idx <= 10
  {
    var g := f.(idx := f.idx + 1);
    if 1 <= f.idx <= 8 then g.(byte := SetBit(f.byte, f.idx - 1, bit))
    else if bit == FrameBit(f.byte, f.idx) then g
    else g.(err := if f.idx == 0 then Ps2BadStart else if f.idx == 9 then Ps2BadParity else Ps2BadStop)
  }

  // The frame leaves the receiver: on the first error, or after eleven bits.
  predicate Complete(f: Frame) {
    f.err != Ok || f.idx >= 11
  }

  datatype Fed = Fed(frames: seq<Frame>, rest: Frame)

  function Feed(f: Frame, bits: seq<bool>): (r: Fed)
    requires f.idx <= 10
    ensures r.rest.idx <= 10 && (f.err == Ok ==> r.rest.err == Ok)
    decreases |bits|
  {
    if bits == [] then Fed([], f)
    else
      var g := Accept(f, bits[0]);
      if Complete(g) then
        var r := Feed(ZERO, bits[1..]);
        Fed([g] + r.frames, r.rest)
      else
        Feed(g, bits[1..])
  }

  // No data bit is set at or above the next data position.
  predicate NoBitAhead(f: Frame) {
    forall j {:trigger Bit(f.byte, j)} | 0 <= j < 8 && f.idx <= j + 1 :: !Bit(f.byte, j)
  }

  lemma AcceptKeepsNoBitAhead(f: Frame, bit: bool)
    requires f.idx <= 10 && NoBitAhead(f)
    ensures NoBitAhead(Accept(f, bit))
  {
    hide Bit, SetBit;
    if 1 <= f.idx <= 8 {
      var n := f.idx - 1;
      forall j | 0 <= j < 8 && f.idx < j + 1
        ensures !Bit(SetBit(f.byte, n, bit), j)
      {
        OrSetsOneBit(f.byte, n, bit, j);
      }
    }
  }

  lemma {:induction false} FeedAppend(f: Frame, a: seq<bool>, b: seq<bool>)
    requires f.idx <= 10
    ensures Feed(f, a + b) ==
            var r := Feed(f, a);
            var s := Feed(r.rest, b);
            Fed(r.frames + s.frames, s.rest)
    decreases |a|
  {
    hide Accept;
    if a == [] {
      assert a + b == b;
    } else {
      assert (a + b)[1..] == a[1..] + b;
      var g := Accept(f, a[0]);
      if Complete(g) {
        FeedAppend(ZERO, a[1..], b);
      } else {
        FeedAppend(g, a[1..], b);
      }
    }
  }

  // ---------------------------------------------------------------- the batch deframer

  // Length of the first frame of the stream: it ends at the first bad start, parity or stop
  // bit, or at eleven bits. Zero: the stream ends before its first frame does.
  function CutLength(bits: seq<bool>): (n: nat)
    ensures n <= |bits|
    ensures n in {0, 1, 10, 11}
  {
    if bits == [] then 0
    else if bits[0] then 1
    else if |bits| < 10 then 0
    else if bits[9] != Even(bits[1..9]) then 10
    else if |bits| < 11 then 0
    else 11
  }

  function CutFrame(bits: seq<bool>): Frame
    requires CutLength(bits) > 0
  {
    var n := CutLength(bits);
    if n == 1 then Frame(Ps2BadStart, 0, 1)
    else if n == 10 then Frame(Ps2BadParity, Pack(bits[1..9]), 10)
    else Frame(if bits[10] then Ok else Ps2BadStop, Pack(bits[1..9]), 11)
  }

  function Deframe(bits: seq<bool>): seq<Frame>
    decreases |bits|
  {
    var n := CutLength(bits);
    if n == 0 then [] else [CutFrame(bits)] + Deframe(bits[n..])
  }

  // What is left of the stream after its last complete frame.
  function Residue(bits: seq<bool>): (r: seq<bool>)
    ensures CutLength(r) == 0
    decreases |bits|
  {
    var n := CutLength(bits);
    if n == 0 then bits else Residue(bits[n..])
  }

  function TotalBits(frames: seq<Frame>): nat {
    if frames == [] then 0 else frames[0].idx + TotalBits(frames[1..])
  }

  // The receiver's state after an unfinished frame.
  function Partial(bits: seq<bool>): Frame
    requires CutLength(bits) == 0
  {
    if bits == [] then ZERO
    else Frame(Ok, Pack(if |bits| < 9 then bits[1..] else bits[1..9]), |bits|)
  }

  // One more bit: either the stream grows inside its frame, or the frame is cut here.
  ghost predicate Tracks(p: seq<bool>, bit: bool)
    requires CutLength(p) == 0
  {
    var q := p + [bit];
    var g := Accept(Partial(p), bit);
    if CutLength(q) == 0 then !Complete(g) && g == Partial(q)
    else CutLength(q) == |q| && Complete(g) && g == CutFrame(q)
  }

  lemma AcceptOnPartial(p: seq<bool>, bit: bool)
    requires CutLength(p) == 0
    ensures Tracks(p, bit)
  {
    if |p| == 0 {
      assert ([] + [bit])[1..1] == [];
    } else if |p| <= 8 {
      AcceptDataBit(p, bit);
    } else {
      AcceptCheckBit(p, bit);
    }
  }

  lemma AcceptDataBit(p: seq<bool>, bit: bool)
    requires CutLength(p) == 0 && 1 <= |p| <= 8
    ensures Tracks(p, bit)
  {
    var q := p + [bit];
    PackSnoc(p[1..], bit);
    assert q[0] == p[0];
    assert q[1..] == p[1..] + [bit];
    assert |p| == 8 ==> q[1..9] == q[1..];
  }

  lemma AcceptCheckBit(p: seq<bool>, bit: bool)
    requires CutLength(p) == 0 && 9 <= |p|
    ensures Tracks(p, bit)
  {
    var q := p + [bit];
    assert q[0] == p[0];
    assert q[1..9] == p[1..9];
    DataBitsPack(p[1..9]);
  }

  lemma {:induction false} FeedFromPartial(p: seq<bool>, bits: seq<bool>)
    requires CutLength(p) == 0
    ensures Feed(Partial(p), bits) == Fed(Deframe(p + bits), Partial(Residue(p + bits)))
    decreases |bits|
  {
    hide Accept, Partial, CutFrame, Pack, Even, Deframe, Residue, CutLength;
    if bits == [] {
      assert p + bits == p;
      UncutStream(p);
    } else {
      var q := p + [bits[0]];
      AcceptOnPartial(p, bits[0]);
      assert p + bits == q + bits[1..];
      if CutLength(q) == 0 {
        FeedFromPartial(q, bits[1..]);
      } else {
        NothingReceived();
        FeedFromPartial([], bits[1..]);
        CutIsLocal(q, bits[1..]);
        CutStream(p + bits);
        assert [] + bits[1..] == bits[1..] == (p + bits)[|q|..];
      }
    }
  }

  lemma NothingReceived()
    ensures CutLength([]) == 0 && Partial([]) == ZERO
  {
  }

  lemma UncutStream(bits: seq<bool>)
    requires CutLength(bits) == 0
    ensures Deframe(bits) == [] && Residue(bits) == bits
  {
  }

  lemma CutStream(bits: seq<bool>)
    requires CutLength(bits) > 0
    ensures Deframe(bits) == [CutFrame(bits)] + Deframe(bits[CutLength(bits)..])
    ensures Residue(bits) == Residue(bits[CutLength(bits)..])
  {
  }

  // Later bits do not change where the first frame is cut, nor the frame.
  lemma CutIsLocal(q: seq<bool>, more: seq<bool>)
    requires CutLength(q) > 0
    ensures CutLength(q + more) == CutLength(q)
    ensures CutFrame(q + more) == CutFrame(q)
  {
    if |q| >= 10 {
      assert (q + more)[1..9] == q[1..9];
    }
  }

  // Main result: the incremental receiver refines the batch deframer on every bit stream, its
  // state is the unfinished frame, and every edge is accounted for.
  lemma ReceiverRefinesDeframer(bits: seq<bool>)
    ensures Feed(ZERO, bits) == Fed(Deframe(bits), Partial(Residue(bits)))
    ensures TotalBits(Feed(ZERO, bits).frames) + Feed(ZERO, bits).rest.idx == |bits|
  {
    FeedFromPartial([], bits);
    assert [] + bits == bits;
    EveryBitCounted(bits);
  }

  lemma {:induction false} EveryBitCounted(bits: seq<bool>)
    ensures TotalBits(Deframe(bits)) + |Residue(bits)| == |bits|
    decreases |bits|
  {
    var n := CutLength(bits);
    if n > 0 {
      EveryBitCounted(bits[n..]);
      assert Deframe(bits)[1..] == Deframe(bits[n..]);
    }
  }

  // The stream can be cut anywhere: what is left over is carried to the next part.
  lemma {:induction false} DeframeAppend(a: seq<bool>, b: seq<bool>)
    ensures Deframe(a + b) == Deframe(a) + Deframe(Residue(a) + b)
    ensures Residue(a + b) == Residue(Residue(a) + b)
    decreases |a|
  {
    var n := CutLength(a);
    if n > 0 {
      CutIsLocal(a, b);
      assert (a + b)[n..] == a[n..] + b;
      DeframeAppend(a[n..], b);
    }
  }

  // ---------------------------------------------------------------- corrupted streams

  // One frame as it reaches the host: intact, with one data or parity bit flipped, or with the
  // stop bit flipped.
  datatype Sent =
    | Intact(byte: bv8)
    | Flipped(byte: bv8, bit: nat)
    | NoStop(byte: bv8)
  {
    predicate Valid() {
      Flipped? ==> 1 <= bit <= 9
    }

    function Levels(): (levels: seq<bool>)
      requires Valid()
      ensures |levels| == 11
    {
      match this
      case Intact(b) => FrameBits(b)
      case Flipped(b, k) => FrameBits(b)[k := !FrameBit(b, k)]
      case NoStop(b) => FrameBits(b)[10 := false]
    }

    // What the receiver should report: the byte, or two errors, or one error.
    function Reported(): seq<Frame>
      requires Valid()
    {
      match this
      case Intact(b) => [Frame(Ok, b, 11)]
      case Flipped(b, k) =>
        var data := if k <= 8 then DataBits(b)[k - 1 := !Bit(b, k - 1)] else DataBits(b);
        [Frame(Ps2BadParity, Pack(data), 10), Frame(Ps2BadStart, 0, 1)]
      case NoStop(b) => [Frame(Ps2BadStop, b, 11)]
    }
  }

  function AllLevels(sents: seq<Sent>): seq<bool>
    requires forall s | s in sents :: s.Valid()
  {
    Flatten(seq(|sents|, i requires 0 <= i < |sents| => sents[i].Levels()))
  }

  function AllReported(sents: seq<Sent>): seq<Frame>
    requires forall s | s in sents :: s.Valid()
  {
    Flatten(seq(|sents|, i requires 0 <= i < |sents| => sents[i].Reported()))
  }

  lemma FirstSent(sents: seq<Sent>)
    requires forall s | s in sents :: s.Valid()
    requires sents != []
    ensures AllLevels(sents) == sents[0].Levels() + AllLevels(sents[1..])
    ensures AllReported(sents) == sents[0].Reported() + AllReported(sents[1..])
  {
    var rest := sents[1..];
    assert seq(|sents|, i requires 0 <= i < |sents| => sents[i].Levels())[1..]
        == seq(|rest|, i requires 0 <= i < |rest| => rest[i].Levels());
    assert seq(|sents|, i requires 0 <= i < |sents| => sents[i].Reported())[1..]
        == seq(|rest|, i requires 0 <= i < |rest| => rest[i].Reported());
  }

  // One such frame is reported as it should be, and leaves the deframer on a frame boundary.
  lemma SentThenMore(s: Sent, more: seq<bool>)
    requires s.Valid()
    ensures Deframe(s.Levels() + more) == s.Reported() + Deframe(more)
    ensures Residue(s.Levels() + more) == Residue(more)
  {
    if s.Flipped? {
      FlippedThenMore(s.byte, s.bit, more);
    } else {
      WholeFrameThenMore(s.byte, s.Levels(), more);
    }
  }

  // A frame that is right up to its stop bit.
  lemma WholeFrameThenMore(b: bv8, levels: seq<bool>, more: seq<bool>)
    requires |levels| == 11 && forall k | 0 <= k < 10 :: levels[k] == FrameBit(b, k)
    ensures Deframe(levels + more) == [Frame(if levels[10] then Ok else Ps2BadStop, b, 11)] + Deframe(more)
    ensures Residue(levels + more) == Residue(more)
  {
    var bits := levels + more;
    forall j | 0 <= j < 8
      ensures bits[1..9][j] == DataBits(b)[j]
    {
      assert bits[1..9][j] == bits[j + 1] == FrameBit(b, j + 1);
    }
    assert bits[1..9] == DataBits(b);
    PackDataBits(b);
    assert bits[11..] == more;
    assert CutLength(bits) == 11;
  }

  lemma FlippedThenMore(b: bv8, k: nat, more: seq<bool>)
    requires 1 <= k <= 9
    ensures var s := Flipped(b, k);
            && Deframe(s.Levels() + more) == s.Reported() + Deframe(more)
            && Residue(s.Levels() + more) == Residue(more)
  {
    hide Pack, Even, Deframe, Residue, OddParity, DataBits, FrameBits, Bit;
    var levels := Flipped(b, k).Levels();
    FlippedFrame(b, k);
    var bits := levels + more;
    assert bits[1..9] == levels[1..9];
    assert bits[10..] == [true] + more;
    BadParityThenMore(bits, more);
  }

  lemma FlippedFrame(b: bv8, k: nat)
    requires 1 <= k <= 9
    ensures var levels := Flipped(b, k).Levels();
            var data := if k <= 8 then DataBits(b)[k - 1 := !Bit(b, k - 1)] else DataBits(b);
            !levels[0] && levels[1..9] == data && levels[9] != Even(data) && levels[10]
  {
    if k <= 8 {
      FlippingABitFlipsParity(DataBits(b), k - 1);
    }
  }

  lemma BadParityThenMore(bits: seq<bool>, more: seq<bool>)
    requires |bits| >= 10 && !bits[0] && bits[9] != Even(bits[1..9])
    requires bits[10..] == [true] + more
    ensures Deframe(bits) == [Frame(Ps2BadParity, Pack(bits[1..9]), 10), Frame(Ps2BadStart, 0, 1)] + Deframe(more)
    ensures Residue(bits) == Residue(more)
  {
    var tail := bits[10..];
    assert tail[1..] == more;
    assert Deframe(tail) == [Frame(Ps2BadStart, 0, 1)] + Deframe(more);
    assert Deframe(bits) == [CutFrame(bits)] + Deframe(tail);
  }

  // Main result: in a stream of any length with any number of frames corrupted this way, each
  // flipped data or parity bit costs exactly two error reports, each flipped stop bit exactly
  // one, and every intact frame is delivered, in order.
  lemma {:induction false} Resynchronises(sents: seq<Sent>)
    requires forall s | s in sents :: s.Valid()
    ensures Deframe(AllLevels(sents)) == AllReported(sents)
    ensures Residue(AllLevels(sents)) == []
  {
    if sents != [] {
      FirstSent(sents);
      SentThenMore(sents[0], AllLevels(sents[1..]));
      Resynchronises(sents[1..]);
    }
  }

  // A flipped start bit is different: the rest of the frame is read as new frames.
  function StartFlipped(b: bv8): seq<bool> {
    FrameBits(b)[0 := true]
  }

  // What follows it.
  function Tail(b: bv8): (levels: seq<bool>)
    ensures |levels| == 10
  {
    DataBits(b) + [OddParity(b), true]
  }

  lemma StartFlippedTail(b: bv8)
    ensures Residue(StartFlipped(b)) == Residue(Tail(b))
  {
    hide Residue, OddParity;
    forall j | 0 <= j < 10
      ensures StartFlipped(b)[1..][j] == Tail(b)[j]
    {
      assert StartFlipped(b)[1..][j] == FrameBit(b, j + 1);
    }
    assert StartFlipped(b)[1..] == Tail(b);
    assert CutLength(StartFlipped(b)) == 1;
    CutStream(StartFlipped(b));
  }

  // A low first bit reads as a start bit, and the rest as a frame of bad parity.
  lemma TailIsCut(b: bv8)
    requires !Bit(b, 0)
    ensures CutLength(Tail(b)) == 10
  {
    var data := DataBits(b);
    EvenOfOne(data);
    EvenOfSnoc(data[1..], OddParity(b));
    forall j | 0 <= j < 8
      ensures Tail(b)[1..9][j] == (data[1..] + [OddParity(b)])[j]
    {
      assert Tail(b)[1..9][j] == Tail(b)[j + 1];
    }
    assert Tail(b)[1..9] == data[1..] + [OddParity(b)];
  }

  // A high first bit is an error of its own.
  lemma TailIsShifted(b: bv8)
    requires Bit(b, 0)
    ensures Residue(Tail(b)) == [] <==> b == 0xFF
  {
    hide Residue, OddParity;
    var data := DataBits(b);
    assert CutLength(Tail(b)) == 1;
    CutStream(Tail(b));
    forall j | 0 <= j < 9
      ensures Tail(b)[1..][j] == (data[1..] + [OddParity(b), true])[j]
    {
      assert Tail(b)[1..][j] == Tail(b)[j + 1];
    }
    assert Tail(b)[1..] == data[1..] + [OddParity(b), true];
    ShortResidue(Tail(b)[1..]);
    assert data == [true] + data[1..];
    OnlyAllOnes(b);
  }

  // Exactly when the receiver is back on a frame boundary at the end of the corrupted frame.
  lemma StartFlipRealigns(b: bv8)
    ensures Residue(StartFlipped(b)) == [] <==> !Bit(b, 0) || b == 0xFF
  {
    hide Residue, OddParity, Bit;
    StartFlippedTail(b);
    if Bit(b, 0) {
      TailIsShifted(b);
    } else {
      TailIsCut(b);
      CutStream(Tail(b));
      assert Tail(b)[10..] == [];
      NothingReceived();
      UncutStream([]);
    }
  }

  // A lost start bit costs the frame too: with bit 0 clear the rest reads as a frame of bad parity.
  lemma StartLost(b: bv8, more: seq<bool>)
    requires !Bit(b, 0)
    ensures var rest := (FrameBits(b) + more)[1..];
            Deframe(rest) != [] && Deframe(rest)[0].err == Ps2BadParity
  {
    var data := DataBits(b);
    var rest := (FrameBits(b) + more)[1..];
    EvenOfOne(data);
    EvenOfSnoc(data[1..], OddParity(b));
    forall j | 0 <= j < 8
      ensures rest[1..9][j] == (data[1..] + [OddParity(b)])[j]
    {
      assert rest[1..9][j] == rest[j + 1] == FrameBit(b, j + 2);
    }
    assert rest[1..9] == data[1..] + [OddParity(b)];
    assert rest[0] == FrameBit(b, 1) && rest[9] == FrameBit(b, 10);
    assert CutLength(rest) == 10;
  }

  lemma OnlyAllOnes(b: bv8)
    ensures b == 0xFF <==> false !in DataBits(b)
    ensures b == 0xFF ==> OddParity(b)
  {
    assert forall j | 0 <= j < 8 :: Bit(0xFF, j);
    if false !in DataBits(b) {
      forall j | 0 <= j < 8
        ensures Bit(b, j) == Bit(0xFF, j)
      {
        assert DataBits(b)[j];
      }
      SameBitsSameByte(b, 0xFF);
    }
    OddParityUnrolled(0xFF);
  }

  lemma {:induction false} EvenOfSnoc(bits: seq<bool>, last: bool)
    ensures Even(bits + [last]) == (last != Even(bits))
  {
    if bits != [] {
      assert (bits + [last])[1..] == bits[1..] + [last];
      EvenOfSnoc(bits[1..], last);
    } else {
      assert bits + [last] == [last];
      assert [last][1..] == [];
    }
  }

  // Fewer than ten bits are all consumed exactly when they are all ones.
  lemma {:induction false} ShortResidue(bits: seq<bool>)
    requires |bits| < 10
    ensures Residue(bits) == [] <==> false !in bits
    decreases |bits|
  {
    if bits != [] {
      assert bits == [bits[0]] + bits[1..];
      if bits[0] {
        assert CutLength(bits) == 1;
        ShortResidue(bits[1..]);
      } else {
        assert CutLength(bits) == 0;
      }
    }
  }

  // ---------------------------------------------------------------- clean streams

  function GoodFrames(bytes: seq<bv8>): seq<Frame> {
    seq(|bytes|, i requires 0 <= i < |bytes| => Frame(Ok, bytes[i], 11))
  }

  lemma GoodFramesAppend(a: seq<bv8>, b: seq<bv8>)
    ensures GoodFrames(a + b) == GoodFrames(a) + GoodFrames(b)
  {
  }

  // The levels of whole frames, one after the other.
  function Stream(bytes: seq<bv8>): seq<bool> {
    if bytes == [] then [] else FrameBits(bytes[0]) + Stream(bytes[1..])
  }

  lemma FrameIsCut(byte: bv8)
    ensures CutLength(FrameBits(byte)) == 11
    ensures CutFrame(FrameBits(byte)) == Frame(Ok, byte, 11)
  {
    hide Pack, Even;
    var bits := FrameBits(byte);
    forall j | 0 <= j < 8
      ensures bits[1..9][j] == DataBits(byte)[j]
    {
      assert bits[1..9][j] == bits[j + 1] == FrameBit(byte, j + 1);
    }
    assert bits[1..9] == DataBits(byte);
    PackDataBits(byte);
  }

  lemma FeedsFrame(byte: bv8)
    ensures Feed(ZERO, FrameBits(byte)) == Fed([Frame(Ok, byte, 11)], ZERO)
  {
    var bits := FrameBits(byte);
    ReceiverRefinesDeframer(bits);
    SentThenMore(Intact(byte), []);
    assert bits + [] == bits;
    assert Deframe([]) == [];
  }

  lemma {:induction false} FeedsStream(bytes: seq<bv8>)
    ensures Feed(ZERO, Stream(bytes)) == Fed(GoodFrames(bytes), ZERO)
  {
    if bytes != [] {
      FeedAppend(ZERO, FrameBits(bytes[0]), Stream(bytes[1..]));
      FeedsFrame(bytes[0]);
      FeedsStream(bytes[1..]);
      assert GoodFrames(bytes) == [Frame(Ok, bytes[0], 11)] + GoodFrames(bytes[1..]);
    }
  }
}
