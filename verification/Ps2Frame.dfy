// The 11-bit PS/2 frame: start bit 0, eight data bits from the lowest, odd parity, stop bit 1.
// One frame is both what the host drives while sending and what it checks while receiving.
module Ps2Frame {
  import opened Errors

  // The frame under construction, and the record pushed to the queues. `idx` counts the bits seen.
  datatype Frame = Frame(err: Err, byte: bv8, idx: nat)

  const ZERO := Frame(Ok, 0, 0)

  // 1 << k
  function Mask(k: nat): bv8
    requires k < 8
  {
    if k == 0 then 0x01 else if k == 1 then 0x02 else if k == 2 then 0x04 else if k == 3 then 0x08
    else if k == 4 then 0x10 else if k == 5 then 0x20 else if k == 6 then 0x40 else 0x80
  }

  predicate Bit(b: bv8, k: nat)
    requires k < 8
  {
    b & Mask(k) != 0
  }

  function DataBits(b: bv8): (bits: seq<bool>)
    ensures |bits| == 8
  {
    seq(8, k requires 0 <= k < 8 => Bit(b, k))
  }

  function Ones(bits: seq<bool>): nat {
    if bits == [] then 0 else (if bits[0] then 1 else 0) + Ones(bits[1..])
  }

  predicate Even(bits: seq<bool>) {
    Ones(bits) % 2 == 0
  }

  // The parity bit that makes the number of ones in data and parity odd.
  predicate OddParity(b: bv8) {
    Even(DataBits(b))
  }

  // The level of bit k of the frame that carries b.
  predicate FrameBit(b: bv8, k: nat)
    requires k < 11
  {
    if k == 0 then false
    else if k <= 8 then Bit(b, k - 1)
    else if k == 9 then OddParity(b)
    else true
  }

  function FrameBits(b: bv8): (bits: seq<bool>)
    ensures |bits| == 11
  {
    seq(11, k requires 0 <= k < 11 => FrameBit(b, k))
  }

  // `byte |= bit << n`
  function SetBit(b: bv8, n: nat, v: bool): bv8
    requires n < 8
  {
    b | if v then Mask(n) else 0
  }

  // The byte whose lowest bits are the given levels.
  function Pack(bits: seq<bool>): bv8
    requires |bits| <= 8
  {
    if bits == [] then 0
    else
      var n := |bits| - 1;
      SetBit(Pack(bits[..n]), n, bits[n])
  }

  // ---------------------------------------------------------------- parity

  // The folding of esk8_ps2_get_parity computes the parity of the count of ones.
  method GetParity(byte: bv8) returns (parity: bool)
    ensures parity == OddParity(byte)
  {
    var x := byte;
    x := (x & 0x0F) ^ (x >> 4);
    x := (x & 0x03) ^ (x >> 2);
    x := (x & 0x01) ^ (x >> 1);
    parity := !(x & 1 == 1);
    OddParityUnrolled(byte);
  }

  lemma OddParityUnrolled(b: bv8)
    ensures OddParity(b) ==
            (((((((Bit(b, 0) == Bit(b, 1)) == Bit(b, 2)) == Bit(b, 3))
                == Bit(b, 4)) == Bit(b, 5)) == Bit(b, 6)) == Bit(b, 7))
  {
    var bits := DataBits(b);
    EvenOfFour(bits);
    EvenOfFour(bits[4..]);
  }

  lemma EvenOfOne(bits: seq<bool>)
    requires bits != []
    ensures Even(bits) == (bits[0] != Even(bits[1..]))
  {
  }

  lemma EvenOfFour(bits: seq<bool>)
    requires |bits| >= 4
    ensures Even(bits) == ((((bits[0] == bits[1]) == bits[2]) == bits[3]) == Even(bits[4..]))
  {
    EvenOfOne(bits);
    EvenOfOne(bits[1..]);
    EvenOfOne(bits[2..]);
    EvenOfOne(bits[3..]);
  }

  lemma {:induction false} FlippingABitFlipsParity(bits: seq<bool>, k: nat)
    requires k < |bits|
    ensures Even(bits[k := !bits[k]]) != Even(bits)
  {
    var flipped := bits[k := !bits[k]];
    if k > 0 {
      FlippingABitFlipsParity(bits[1..], k - 1);
      assert flipped[1..] == bits[1..][k - 1 := !bits[k]];
    } else {
      assert flipped[1..] == bits[1..];
    }
  }

  // ---------------------------------------------------------------- packing and unpacking are inverse

  lemma OrSetsOneBit(p: bv8, n: nat, v: bool, j: nat)
    requires n < 8 && j < 8
    requires !Bit(p, n)
    ensures Bit(SetBit(p, n, v), j) == if j == n then v else Bit(p, j)
  {
  }

  lemma PackSnoc(bits: seq<bool>, v: bool)
    requires |bits| < 8
    ensures Pack(bits + [v]) == SetBit(Pack(bits), |bits|, v)
  {
    assert (bits + [v])[..|bits|] == bits;
  }

  lemma {:induction false} PackedBits(bits: seq<bool>, j: nat)
    requires |bits| <= 8 && j < 8
    ensures Bit(Pack(bits), j) == (j < |bits| && bits[j])
  {
    if bits != [] {
      var n := |bits| - 1;
      var p := Pack(bits[..n]);
      assert !Bit(p, n) by { PackedBits(bits[..n], n); }
      assert Bit(p, j) == (j < n && bits[j]) by { PackedBits(bits[..n], j); }
      OrSetsOneBit(p, n, bits[n], j);
    }
  }

  lemma SameBitsSameByte(a: bv8, b: bv8)
    requires forall j | 0 <= j < 8 :: Bit(a, j) == Bit(b, j)
    ensures a == b
  {
    assert Bit(a, 0) == Bit(b, 0) && Bit(a, 1) == Bit(b, 1) && Bit(a, 2) == Bit(b, 2) && Bit(a, 3) == Bit(b, 3);
    assert Bit(a, 4) == Bit(b, 4) && Bit(a, 5) == Bit(b, 5) && Bit(a, 6) == Bit(b, 6) && Bit(a, 7) == Bit(b, 7);
  }

  lemma PackDataBits(b: bv8)
    ensures Pack(DataBits(b)) == b
  {
    forall j | 0 <= j < 8
      ensures Bit(Pack(DataBits(b)), j) == Bit(b, j)
    {
      PackedBits(DataBits(b), j);
    }
    SameBitsSameByte(Pack(DataBits(b)), b);
  }

  lemma DataBitsPack(bits: seq<bool>)
    requires |bits| == 8
    ensures DataBits(Pack(bits)) == bits
  {
    forall j | 0 <= j < 8
      ensures DataBits(Pack(bits))[j] == bits[j]
    {
      PackedBits(bits, j);
    }
  }

  // ---------------------------------------------------------------- the number a byte stands for

  function Pow2(n: nat): nat {
    if n == 0 then 1 else 2 * Pow2(n - 1)
  }

  function Unsigned(bits: seq<bool>): (n: nat)
    ensures n < Pow2(|bits|)
  {
    if bits == [] then 0 else (if bits[0] then 1 else 0) + 2 * Unsigned(bits[1..])
  }

  function Binary(n: nat, width: nat): (bits: seq<bool>)
    ensures |bits| == width
  {
    if width == 0 then [] else [n % 2 == 1] + Binary(n / 2, width - 1)
  }

  function Value(b: bv8): (n: nat)
    ensures n < 256
  {
    assert Pow2(8) == 256;
    Unsigned(DataBits(b))
  }

  function ByteOf(n: nat): bv8
    requires n < 256
  {
    Pack(Binary(n, 8))
  }

  lemma {:induction false} UnsignedBinary(n: nat, width: nat)
    requires n < Pow2(width)
    ensures Unsigned(Binary(n, width)) == n
  {
    if width > 0 {
      UnsignedBinary(n / 2, width - 1);
    }
  }

  lemma {:induction false} BinaryUnsigned(bits: seq<bool>)
    ensures Binary(Unsigned(bits), |bits|) == bits
  {
    if bits != [] {
      BinaryUnsigned(bits[1..]);
      assert bits == [bits[0]] + bits[1..];
    }
  }

  lemma ValueOfByte(n: nat)
    requires n < 256
    ensures Value(ByteOf(n)) == n
  {
    assert Pow2(8) == 256;
    DataBitsPack(Binary(n, 8));
    UnsignedBinary(n, 8);
  }

  lemma ByteOfValue(b: bv8)
    ensures ByteOf(Value(b)) == b
  {
    BinaryUnsigned(DataBits(b));
    PackDataBits(b);
  }
}
