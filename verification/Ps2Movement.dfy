// Movement packets: three bytes, the first carrying buttons, an always-one bit and the ninth
// (sign) bits of the two displacements.
module Ps2Movement {
  import opened Errors
  import opened Ps2Frame
  import opened Ps2Deframer
  import opened Sequences

  datatype Movement = Movement(leftButton: bool, x: int, y: int)

  // Bit 3 of the first byte, the only bit a receiver can check.
  predicate AlwaysOne(b: bv8) {
    b & 0x08 != 0
  }

  function Displacement(negative: bool, low: bv8): (d: int)
    ensures -256 <= d <= 255
    ensures (d < 0) == negative
  {
    (if negative then -256 else 0) + Value(low)
  }

  function Decode(mvmt: seq<bv8>): Movement
    requires |mvmt| == 3
  {
    Movement(
      mvmt[0] & 0x01 != 0,
      Displacement(mvmt[0] & 0x10 != 0, mvmt[1]),
      Displacement(mvmt[0] & 0x20 != 0, mvmt[2]))
  }

  // ---------------------------------------------------------------- what a device sends

  // `spare` is the device's choice of the bits the host does not look at.
  datatype Packet = Packet(movement: Movement, spare: bv8) {
    predicate Valid() {
      -256 <= movement.x <= 255 && -256 <= movement.y <= 255
    }

    function Bytes(): (bytes: seq<bv8>)
      requires Valid()
      ensures |bytes| == 3
    {
      [Header(spare, movement.leftButton, movement.x < 0, movement.y < 0),
       LowByte(movement.x), LowByte(movement.y)]
    }
  }

  function Header(spare: bv8, left: bool, negativeX: bool, negativeY: bool): bv8 {
    (spare & 0xC6) | 0x08
    | (if left then 0x01 else 0) | (if negativeX then 0x10 else 0) | (if negativeY then 0x20 else 0)
  }

  function LowByte(d: int): bv8
    requires -256 <= d <= 255
  {
    ByteOf(if d < 0 then d + 256 else d)
  }

  lemma LowByteOfDisplacement(negative: bool, low: bv8)
    ensures LowByte(Displacement(negative, low)) == low
  {
    ByteOfValue(low);
  }

  lemma HeaderBits(spare: bv8, l: bool, sx: bool, sy: bool)
    ensures AlwaysOne(Header(spare, l, sx, sy))
    ensures (Header(spare, l, sx, sy) & 0x01 != 0) == l
    ensures (Header(spare, l, sx, sy) & 0x10 != 0) == sx
    ensures (Header(spare, l, sx, sy) & 0x20 != 0) == sy
  {
  }

  lemma HeaderOfBits(b: bv8)
    requires AlwaysOne(b)
    ensures Header(b, b & 0x01 != 0, b & 0x10 != 0, b & 0x20 != 0) == b
  {
  }

  lemma DecodeEncoded(p: Packet)
    requires p.Valid()
    ensures AlwaysOne(p.Bytes()[0])
    ensures Decode(p.Bytes()) == p.movement
  {
    hide Header, Value, ByteOf, AlwaysOne;
    var m := p.movement;
    HeaderBits(p.spare, m.leftButton, m.x < 0, m.y < 0);
    ValueOfByte(if m.x < 0 then m.x + 256 else m.x);
    ValueOfByte(if m.y < 0 then m.y + 256 else m.y);
  }

  // Every triple with the always-one bit set is the encoding of what it decodes to.
  lemma EncodeDecoded(mvmt: seq<bv8>)
    requires |mvmt| == 3 && AlwaysOne(mvmt[0])
    ensures Packet(Decode(mvmt), mvmt[0]).Valid()
    ensures Packet(Decode(mvmt), mvmt[0]).Bytes() == mvmt
  {
    HeaderOfBits(mvmt[0]);
    LowByteOfDisplacement(mvmt[0] & 0x10 != 0, mvmt[1]);
    LowByteOfDisplacement(mvmt[0] & 0x20 != 0, mvmt[2]);
  }

  // ---------------------------------------------------------------- the packet assembler

  // The state that survives from one esk8_ps2_await_mvmt call to the next.
  datatype Assembler = Assembler(idx: nat, mvmt: seq<bv8>)

  datatype Outcome = Pending | Failed(err: Err) | Moved(movement: Movement)

  predicate WellFormed(a: Assembler) {
    a.idx <= 3 && |a.mvmt| == 3
  }

  // Between calls: three bytes are held only when the first one lacks the always-one bit.
  predicate Resumable(a: Assembler) {
    WellFormed(a) && (a.idx == 3 ==> !AlwaysOne(a.mvmt[0]))
  }

  predicate Stuck(a: Assembler) {
    a.idx == 3
  }

  function Store(a: Assembler, byte: bv8): (r: Assembler)
    requires WellFormed(a) && a.idx < 3
    ensures WellFormed(r)
  {
    Assembler(a.idx + 1, a.mvmt[a.idx := byte])
  }

  // The end of esk8_ps2_await_mvmt, once three bytes are there.
  function Finish(a: Assembler): (r: (Outcome, Assembler))
    requires WellFormed(a) && a.idx == 3
    ensures !r.0.Pending?
    ensures Resumable(r.1)
  {
    if AlwaysOne(a.mvmt[0]) then (Moved(Decode(a.mvmt)), a.(idx := 0))
    else (Failed(Ps2BadMvmt), a)
  }

  // One frame taken from the movement queue.
  function TakeFrame(a: Assembler, f: Frame): (r: (Outcome, Assembler))
    requires WellFormed(a) && !Stuck(a)
    ensures Resumable(r.1)
  {
    if f.err != Ok then (Failed(f.err), a)
    else
      var b := Store(a, f.byte);
      if b.idx < 3 then (Pending, b) else Finish(b)
  }

  // All the movements obtained from a sequence of frames, however the calls are split.
  function Assemble(a: Assembler, frames: seq<Frame>): seq<Movement>
    requires Resumable(a)
    decreases |frames|
  {
    if frames == [] || Stuck(a) then []
    else
      var (o, b) := TakeFrame(a, frames[0]);
      (if o.Moved? then [o.movement] else []) + Assemble(b, frames[1..])
  }

  function Assembled(a: Assembler, frames: seq<Frame>): (r: Assembler)
    requires Resumable(a)
    ensures Resumable(r)
    decreases |frames|
  {
    if frames == [] || Stuck(a) then a else Assembled(TakeFrame(a, frames[0]).1, frames[1..])
  }

  lemma {:induction false} AssembleAppend(a: Assembler, f: seq<Frame>, g: seq<Frame>)
    requires Resumable(a)
    ensures Assemble(a, f + g) == Assemble(a, f) + Assemble(Assembled(a, f), g)
    ensures Assembled(a, f + g) == Assembled(Assembled(a, f), g)
    decreases |f|
  {
    hide TakeFrame;
    if f == [] {
      assert f + g == g;
    } else if Stuck(a) {
    } else {
      assert (f + g)[1..] == f[1..] + g;
      AssembleAppend(TakeFrame(a, f[0]).1, f[1..], g);
    }
  }

  // The frames without the erroneous ones.
  function Intact(frames: seq<Frame>): seq<Frame> {
    if frames == [] then [] else (if frames[0].err == Ok then [frames[0]] else []) + Intact(frames[1..])
  }

  // An erroneous frame ends its call and costs nothing that was stored before it.
  lemma {:induction false} ErrorsCostNothing(a: Assembler, frames: seq<Frame>)
    requires Resumable(a)
    ensures Assemble(a, frames) == Assemble(a, Intact(frames))
    ensures Assembled(a, frames) == Assembled(a, Intact(frames))
    decreases |frames|
  {
    hide Finish, Store;
    if frames != [] && !Stuck(a) {
      var rest := Intact(frames[1..]);
      ErrorsCostNothing(TakeFrame(a, frames[0]).1, frames[1..]);
      if frames[0].err == Ok {
        assert ([frames[0]] + rest)[1..] == rest;
      } else {
        assert [] + rest == rest;
      }
    }
  }

  // The first byte taken is not a movement header. It is only looked at once three bytes are there.
  predicate Doomed(a: Assembler)
    requires WellFormed(a)
  {
    a.idx > 0 && !AlwaysOne(a.mvmt[0])
  }

  lemma {:induction false} DoomedForever(a: Assembler, frames: seq<Frame>)
    requires Resumable(a) && Doomed(a)
    ensures Assemble(a, frames) == [] && Doomed(Assembled(a, frames))
    decreases |frames|
  {
    if frames != [] && !Stuck(a) {
      DoomedForever(TakeFrame(a, frames[0]).1, frames[1..]);
    }
  }

  // Main result: exactly when an assembler can still give a movement, on any frames at all: it is
  // at a packet boundary, or the first byte it holds has the always-one bit.
  lemma CanAssembleIff(a: Assembler)
    requires Resumable(a)
    ensures (exists frames :: Assemble(a, frames) != []) <==> a.idx == 0 || AlwaysOne(a.mvmt[0])
    ensures !Doomed(a) ==> exists bytes :: Assemble(a, GoodFrames(bytes)) != []
  {
    if Doomed(a) {
      forall frames
        ensures Assemble(a, frames) == []
      {
        DoomedForever(a, frames);
      }
    } else {
      FinishingBytes(a);
    }
  }

  lemma FinishingBytes(a: Assembler)
    requires Resumable(a) && !Doomed(a)
    ensures Assemble(a, GoodFrames(seq(3 - a.idx, _ => 0x08))) != []
  {
    hide Decode;
    var frames := GoodFrames(seq(3 - a.idx, _ => 0x08));
    var b := TakeFrame(a, frames[0]).1;
    if a.idx == 1 {
      assert TakeFrame(b, frames[1..][0]).0.Moved?;
    } else if a.idx == 0 {
      assert AlwaysOne(0x08);
      var c := TakeFrame(b, frames[1..][0]).1;
      assert TakeFrame(c, frames[1..][1..][0]).0.Moved?;
      assert Assemble(c, frames[1..][1..]) != [];
    }
  }

  function Triples(packets: seq<Packet>): (r: seq<seq<bv8>>)
    requires forall p | p in packets :: p.Valid()
    ensures |r| == |packets|
  {
    seq(|packets|, i requires 0 <= i < |packets| => packets[i].Bytes())
  }

  function AllBytes(packets: seq<Packet>): seq<bv8>
    requires forall p | p in packets :: p.Valid()
  {
    Flatten(Triples(packets))
  }

  function Movements(packets: seq<Packet>): (r: seq<Movement>)
    ensures |r| == |packets|
  {
    seq(|packets|, i requires 0 <= i < |packets| => packets[i].movement)
  }

  // The first frame of a sequence.
  lemma AssembleFirst(a: Assembler, f: Frame, rest: seq<Frame>)
    requires Resumable(a) && !Stuck(a)
    ensures var (o, b) := TakeFrame(a, f);
            && Assemble(a, [f] + rest) == (if o.Moved? then [o.movement] else []) + Assemble(b, rest)
            && Assembled(a, [f] + rest) == Assembled(b, rest)
  {
    hide TakeFrame;
    assert ([f] + rest)[1..] == rest;
  }

  lemma AssembleNone(a: Assembler)
    requires Resumable(a)
    ensures Assemble(a, []) == [] && Assembled(a, []) == a
  {
  }

  // A packet boundary followed by the three frames of a packet gives that movement, and is a
  // packet boundary again.
  lemma AssembleOne(a: Assembler, p: Packet)
    requires Resumable(a) && a.idx == 0 && p.Valid()
    ensures Assemble(a, GoodFrames(p.Bytes())) == [p.movement]
    ensures Assembled(a, GoodFrames(p.Bytes())) == Assembler(0, p.Bytes())
  {
    hide Decode, AlwaysOne, Packet.Bytes, Assemble, Assembled;
    var b := p.Bytes();
    var f0, f1, f2 := Frame(Ok, b[0], 11), Frame(Ok, b[1], 11), Frame(Ok, b[2], 11);
    var a1 := Assembler(1, a.mvmt[0 := b[0]]);
    var a2 := Assembler(2, a1.mvmt[1 := b[1]]);
    DecodeEncoded(p);
    assert a2.mvmt[2 := b[2]] == b;
    assert GoodFrames(b) == [f0] + ([f1] + ([f2] + []));
    AssembleFirst(a, f0, [f1] + ([f2] + []));
    AssembleFirst(a1, f1, [f2] + []);
    AssembleFirst(a2, f2, []);
    AssembleNone(Assembler(0, b));
  }

  lemma AllBytesSplit(packets: seq<Packet>, k: nat)
    requires forall p | p in packets :: p.Valid()
    requires k <= |packets|
    ensures AllBytes(packets) == AllBytes(packets[..k]) + AllBytes(packets[k..])
    ensures |AllBytes(packets)| == 3 * |packets|
  {
    assert Triples(packets) == Triples(packets[..k]) + Triples(packets[k..]);
    FlattenAppend(Triples(packets[..k]), Triples(packets[k..]));
    FlattenTriples(Triples(packets));
  }

  lemma {:induction false} FlattenTriples(parts: seq<seq<bv8>>)
    requires forall p | p in parts :: |p| == 3
    ensures |Flatten(parts)| == 3 * |parts|
  {
    if parts != [] {
      FlattenTriples(parts[1..]);
    }
  }

  lemma FirstBytes(packets: seq<Packet>)
    requires forall p | p in packets :: p.Valid()
    requires packets != []
    ensures AllBytes(packets) == packets[0].Bytes() + AllBytes(packets[1..])
  {
    assert Triples(packets)[1..] == Triples(packets[1..]);
  }

  // Frames of whole packets give the packets' movements and end on a packet boundary.
  lemma {:induction false} AssemblePackets(a: Assembler, packets: seq<Packet>)
    requires Resumable(a) && a.idx == 0
    requires forall p | p in packets :: p.Valid()
    ensures Assemble(a, GoodFrames(AllBytes(packets))) == Movements(packets)
    ensures Assembled(a, GoodFrames(AllBytes(packets))).idx == 0
    decreases |packets|
  {
    hide TakeFrame, Packet.Bytes, Packet.Valid;
    if packets != [] {
      var first := GoodFrames(packets[0].Bytes());
      AssembleOne(a, packets[0]);
      AssemblePackets(Assembled(a, first), packets[1..]);
      FirstBytes(packets);
      GoodFramesAppend(packets[0].Bytes(), AllBytes(packets[1..]));
      AssembleAppend(a, first, GoodFrames(AllBytes(packets[1..])));
      assert Movements(packets) == [packets[0].movement] + Movements(packets[1..]);
    }
  }

  // Cut r frames after k packets: the movements of the k packets; r bytes stay in the assembler.
  lemma AssemblePrefix(a: Assembler, packets: seq<Packet>, k: nat, r: nat)
    requires Resumable(a) && a.idx == 0
    requires forall p | p in packets :: p.Valid()
    requires r < 3 && k < |packets|
    ensures 3 * k + r <= |AllBytes(packets)|
    ensures Assemble(a, GoodFrames(AllBytes(packets))[..3 * k + r]) == Movements(packets)[..k]
    ensures Assembled(a, GoodFrames(AllBytes(packets))[..3 * k + r]).idx == r
  {
    var whole := GoodFrames(AllBytes(packets[..k]));
    var extra := GoodFrames(packets[k].Bytes())[..r];
    CutInPacket(packets, k, r);
    AssemblePackets(a, packets[..k]);
    assert Movements(packets[..k]) == Movements(packets)[..k];
    AssembleFewer(Assembled(a, whole), packets[k], r);
    AssembleAppend(a, whole, extra);
  }

  lemma CutInPacket(packets: seq<Packet>, k: nat, r: nat)
    requires forall p | p in packets :: p.Valid()
    requires r < 3 && k < |packets|
    ensures 3 * k + r <= |AllBytes(packets)|
    ensures GoodFrames(AllBytes(packets))[..3 * k + r] ==
            GoodFrames(AllBytes(packets[..k])) + GoodFrames(packets[k].Bytes())[..r]
  {
    var bytes := AllBytes(packets[..k]);
    var first := packets[k].Bytes();
    var others := AllBytes(packets[k..][1..]);
    AllBytesSplit(packets, k);
    AllBytesSplit(packets[..k], k);
    FirstBytes(packets[k..]);
    GoodFramesAppend(bytes, first + others);
    GoodFramesAppend(first, others);
    TakePast(GoodFrames(bytes), GoodFrames(first + others), 3 * k + r);
    TakeWithin(GoodFrames(first), GoodFrames(others), r);
  }

  lemma AssembleFewer(a: Assembler, p: Packet, n: nat)
    requires Resumable(a) && a.idx == 0 && p.Valid() && n < 3
    ensures Assemble(a, GoodFrames(p.Bytes())[..n]) == []
    ensures Assembled(a, GoodFrames(p.Bytes())[..n]).idx == n
  {
    var frames := GoodFrames(p.Bytes())[..n];
    if n == 1 {
      assert frames[1..] == [];
    } else if n == 2 {
      assert frames[1..][1..] == [];
      var a1 := TakeFrame(a, frames[0]).1;
      assert Assemble(a1, frames[1..]) == [];
      assert Assembled(a1, frames[1..]).idx == 2;
    }
  }
}
