// The BMS message on the wire: packet header 5A A5, five header bytes, payload, checksum.
// Values here; the code that builds and reads them in buffers is in UartCodec.
module UartMessage {
  import opened Errors
  import opened Sequences
  import opened Words

  const MIN_SIZE := 9

  datatype Message = Message(
    pldLength: uint8, src: uint8, dst: uint8, cmd: uint8, arg: uint8,
    payload: seq<uint8>, chk: seq<uint8>)
  {
    predicate Valid() {
      |payload| == pldLength && |chk| == 2
    }

    // The bytes the checksum covers.
    function Covered(): (bytes: seq<uint8>) {
      [pldLength, src, dst, cmd, arg] + payload
    }

    function Serialized(): (bytes: seq<uint8>)
      ensures Valid() ==> |bytes| == pldLength + MIN_SIZE
    {
      [0x5A, 0xA5] + Covered() + chk
    }

    predicate Checksummed() {
      Valid() && chk == Checksum(Covered())
    }
  }

  // ---------------------------------------------------------------- the checksum

  function Sum(bytes: seq<uint8>): nat {
    if bytes == [] then 0 else Sum(bytes[..|bytes| - 1]) + bytes[|bytes| - 1] as int
  }

  function Complement(bytes: seq<uint8>): uint16 {
    0xFFFF - Sum(bytes) % 0x1_0000
  }

  // Low byte first.
  function LittleEndian(v: uint16): (bytes: seq<uint8>)
    ensures |bytes| == 2 && bytes[0] as int + 256 * bytes[1] as int == v as int
  {
    [v % 256, v / 256]
  }

  // The sum of the bytes and of the stored value, low byte first, has all sixteen bits set.
  predicate SumsUp(bytes: seq<uint8>, chk: seq<uint8>)
    requires |chk| == 2
  {
    (Sum(bytes) + chk[0] as int + 256 * chk[1] as int) % 0x1_0000 == 0xFFFF
  }

  function Checksum(bytes: seq<uint8>): (chk: seq<uint8>)
    ensures |chk| == 2 && SumsUp(bytes, chk)
  {
    LittleEndian(Complement(bytes))
  }

  lemma {:induction false} SumBound(bytes: seq<uint8>)
    ensures Sum(bytes) <= 255 * |bytes|
  {
    if bytes != [] {
      SumBound(bytes[..|bytes| - 1]);
    }
  }

  lemma {:induction false} SumUpdate(bytes: seq<uint8>, i: nat, v: uint8)
    requires i < |bytes|
    ensures Sum(bytes[i := v]) == Sum(bytes) - bytes[i] as int + v as int
  {
    var n := |bytes| - 1;
    var changed := bytes[i := v];
    if i == n {
      assert changed[..n] == bytes[..n];
    } else {
      assert changed[..n] == bytes[..n][i := v];
      SumUpdate(bytes[..n], i, v);
    }
  }

  // Changing one byte changes the checksum, even when the sum wraps around 16 bits.
  lemma OneByteChangesChecksum(bytes: seq<uint8>, i: nat, v: uint8)
    requires i < |bytes| && v != bytes[i]
    ensures Checksum(bytes[i := v]) != Checksum(bytes)
  {
    SumUpdate(bytes, i, v);
    assert Complement(bytes) != Complement(bytes[i := v]);
    assert Checksum(bytes)[0] as int + 256 * Checksum(bytes)[1] as int == Complement(bytes);
  }

  // For every payload length the parser accepts, the sum does not wrap.
  lemma ShortSumsDoNotWrap(m: Message)
    requires m.Valid() && m.pldLength <= 246
    ensures Complement(m.Covered()) == 0xFFFF - Sum(m.Covered())
  {
    SumBound(m.Covered());
  }

  // A message is checksummed exactly when it sums up, and what a parsed one stores is 65535 minus the
  // true sum.
  lemma ChecksummedIff(m: Message)
    requires m.Valid()
    ensures m.Checksummed() <==> SumsUp(m.Covered(), m.chk)
  {
    hide Sum, Complement, Message.Covered, LittleEndian, Checksum;
    var c := Checksum(m.Covered());
    assert m.chk == [m.chk[0], m.chk[1]] && c == [c[0], c[1]];
    if SumsUp(m.Covered(), m.chk) {
      SameWord(Sum(m.Covered()), m.chk[0], m.chk[1], c[0], c[1]);
    }
  }

  // A word is determined by a sum it belongs to.
  lemma SameWord(sum: nat, low: uint8, high: uint8, low1: uint8, high1: uint8)
    requires (sum + low as int + 256 * high as int) % 0x1_0000 == (sum + low1 as int + 256 * high1 as int) % 0x1_0000
    ensures low == low1 && high == high1
  {
    var x, y := low as int + 256 * high as int, low1 as int + 256 * high1 as int;
    var q, p := (sum + x) / 0x1_0000, (sum + y) / 0x1_0000;
    assert sum + x == 0x1_0000 * q + (sum + x) % 0x1_0000;
    assert sum + y == 0x1_0000 * p + (sum + y) % 0x1_0000;
    assert x - y == 0x1_0000 * (q - p);
    assert q == p;
    assert x == y;
  }

  lemma ParsedStoresSum(b: seq<uint8>, m: Message)
    requires Parse(b) == Msg(m)
    ensures m.chk[0] as int + 256 * m.chk[1] as int == 0xFFFF - Sum(m.Covered())
  {
    hide Parse, Message.Covered, Message.Serialized, Message.Checksummed;
    hide Sum, Remaining, FirstHeader, Complement, SumsUp;
    ParsesExactly(b, m);
    ChecksummedStores(m);
    ShortSumsDoNotWrap(m);
  }

  lemma ChecksummedStores(m: Message)
    requires m.Checksummed()
    ensures m.Valid() && m.chk[0] as int + 256 * m.chk[1] as int == Complement(m.Covered()) as int
  {
    hide Complement, Sum, SumsUp, Message.Covered;
  }

  // Setting the checksum makes any message pass the check: it does not depend on the stored one.
  lemma SetChecksumChecks(m: Message)
    requires |m.payload| == m.pldLength
    ensures m.(chk := Checksum(m.Covered())).Checksummed()
  {
  }

  // ---------------------------------------------------------------- finding and parsing

  predicate HeaderAt(b: seq<uint8>, i: int) {
    0 <= i < |b| - 1 && b[i] == 0x5A && b[i + 1] == 0xA5
  }

  ghost predicate IsFirstHeader(b: seq<uint8>, h: int) {
    if h < 0 then h == -1 && forall i :: !HeaderAt(b, i)
    else HeaderAt(b, h) && forall i | 0 <= i < h :: !HeaderAt(b, i)
  }

  function FirstHeader(b: seq<uint8>): (h: int)
    ensures IsFirstHeader(b, h)
  {
    FirstHeaderFrom(b, 0)
  }

  function FirstHeaderFrom(b: seq<uint8>, from: nat): (h: int)
    requires forall i | 0 <= i < from :: !HeaderAt(b, i)
    ensures IsFirstHeader(b, h)
    decreases |b| - from
  {
    if from >= |b| - 1 then -1
    else if HeaderAt(b, from) then from
    else FirstHeaderFrom(b, from + 1)
  }

  datatype Parsed = Msg(msg: Message) | Bad(err: Err)

  // The message after a header, taken without any check of the checksum.
  function MessageAt(b: seq<uint8>, h: nat): (m: Message)
    requires h + MIN_SIZE <= |b| && h + MIN_SIZE + b[h + 2] <= |b|
    ensures m.Valid()
  {
    var end := h + 7 + b[h + 2];
    Message(b[h + 2], b[h + 3], b[h + 4], b[h + 5], b[h + 6], b[h + 7..end], b[end..end + 2])
  }

  // The remaining length is kept in eight bits.
  function Remaining(b: seq<uint8>, h: nat): uint8
    requires h <= |b|
  {
    (|b| - h) % 256
  }

  function Parse(b: seq<uint8>): Parsed {
    var h := FirstHeader(b);
    if h < 0 then Bad(MsgNoHeader)
    else
      var rem := Remaining(b, h);
      if rem < MIN_SIZE then Bad(MsgInvalidBuffer)
      else if b[h + 2] + 2 > rem - 7 then Bad(MsgInvalidPldLen)
      else
        var m := MessageAt(b, h);
        if m.Checksummed() then Msg(m) else Bad(MsgInvalidChkSum)
  }

  // The parser's errors, by what is at the first header.
  lemma ParseErrors(b: seq<uint8>)
    ensures var h := FirstHeader(b);
            && (h < 0 ==> Parse(b) == Bad(MsgNoHeader))
            && (h >= 0 && Remaining(b, h) < MIN_SIZE ==> Parse(b) == Bad(MsgInvalidBuffer))
            && (h >= 0 && Remaining(b, h) >= MIN_SIZE && b[h + 2] as int + MIN_SIZE > Remaining(b, h) ==>
                  Parse(b) == Bad(MsgInvalidPldLen))
  {
  }

  lemma SerializedParts(m: Message)
    requires m.Valid()
    ensures var s := m.Serialized();
            && s[2..7 + m.pldLength as int] == m.Covered()
            && s[7 + m.pldLength as int..] == m.chk
            && m.Covered()[5..] == m.payload
            && m.Covered()[0] == m.pldLength
  {
  }

  // The message on the wire, byte for byte.
  lemma OnTheWire(m: Message)
    requires m.Valid()
    ensures var s := m.Serialized();
            && |s| == 9 + m.pldLength as int
            && s[..7] == [0x5A, 0xA5, m.pldLength, m.src, m.dst, m.cmd, m.arg]
            && s[7..7 + m.pldLength as int] == m.payload
            && s[7 + m.pldLength as int..] == [m.chk[0], m.chk[1]]
  {
  }

  lemma SerializedIsInjective(m: Message, k: Message)
    requires m.Valid() && k.Valid() && m.Serialized() == k.Serialized()
    ensures m == k
  {
    SerializedParts(m);
    SerializedParts(k);
    assert m.Covered()[0] == k.Covered()[0];
    assert m.Covered()[1] == k.Covered()[1] && m.Covered()[2] == k.Covered()[2];
    assert m.Covered()[3] == k.Covered()[3] && m.Covered()[4] == k.Covered()[4];
  }

  lemma MessageAtSerialized(b: seq<uint8>, h: nat)
    requires HeaderAt(b, h)
    requires h + MIN_SIZE <= |b| && h + MIN_SIZE + b[h + 2] <= |b|
    ensures MessageAt(b, h).Serialized() == b[h..h + MIN_SIZE + b[h + 2]]
  {
  }

  // Main result: exactly when parsing returns a given message. The header used is the first one,
  // the message is checksummed and stands there byte for byte, and it fits in the remaining
  // length modulo 256.
  lemma ParsesExactly(b: seq<uint8>, m: Message)
    ensures Parse(b) == Msg(m) <==>
            var h := FirstHeader(b);
            && h >= 0
            && m.Checksummed()
            && m.pldLength + MIN_SIZE <= Remaining(b, h)
            && b[h..h + MIN_SIZE + m.pldLength] == m.Serialized()
    ensures Parse(b) == Msg(m) ==> m.pldLength <= 246
  {
    var h := FirstHeader(b);
    var n := m.pldLength;
    if h >= 0 && m.Checksummed() && n + MIN_SIZE <= Remaining(b, h) && b[h..h + MIN_SIZE + n] == m.Serialized() {
      assert b[h + 2] == b[h..h + MIN_SIZE + n][2] == n;
      MessageAtSerialized(b, h);
      SerializedIsInjective(m, MessageAt(b, h));
    }
    if Parse(b) == Msg(m) {
      MessageAtSerialized(b, h);
    }
  }

  // ---------------------------------------------------------------- round trips

  // A header cannot straddle the end of a prefix, not even of one that ends in 5A.
  lemma HeaderAfterPrefix(prefix: seq<uint8>, rest: seq<uint8>)
    requires FirstHeader(prefix) == -1
    requires |rest| >= 2 && rest[0] == 0x5A && rest[1] == 0xA5
    ensures FirstHeader(prefix + rest) == |prefix|
  {
    var b := prefix + rest;
    forall i | 0 <= i < |prefix|
      ensures !HeaderAt(b, i)
    {
      assert !HeaderAt(prefix, i);
    }
    assert HeaderAt(b, |prefix|);
  }

  // Main result: a checksummed message between junk without a header and any suffix is found
  // again exactly when it fits in the remaining length modulo 256; otherwise the length is what
  // the parser complains about.
  lemma RoundTrip(prefix: seq<uint8>, m: Message, suffix: seq<uint8>)
    requires FirstHeader(prefix) == -1
    requires m.Checksummed()
    ensures var rem := (m.pldLength as int + MIN_SIZE + |suffix|) % 256;
            Parse(prefix + m.Serialized() + suffix) ==
            if m.pldLength as int + MIN_SIZE <= rem then Msg(m)
            else Bad(if rem < MIN_SIZE then MsgInvalidBuffer else MsgInvalidPldLen)
  {
    var rest := m.Serialized() + suffix;
    var b := prefix + m.Serialized() + suffix;
    assert b == prefix + rest;
    HeaderAfterPrefix(prefix, rest);
    assert b[|prefix|..|prefix| + MIN_SIZE + m.pldLength] == m.Serialized();
    assert b[|prefix| + 2] == m.Serialized()[2] == m.pldLength;
    ParsesExactly(b, m);
  }

  // In particular, within 255 bytes from the header on, and never above 246 bytes of payload.
  lemma RoundTripShort(prefix: seq<uint8>, m: Message, suffix: seq<uint8>)
    requires FirstHeader(prefix) == -1
    requires m.Checksummed()
    ensures m.pldLength + MIN_SIZE + |suffix| <= 255 ==> Parse(prefix + m.Serialized() + suffix) == Msg(m)
    ensures m.pldLength > 246 ==> Parse(prefix + m.Serialized() + suffix) != Msg(m)
  {
    RoundTrip(prefix, m, suffix);
  }

  // ---------------------------------------------------------------- corruption

  // Changing any one byte of an accepted message after its length byte is always rejected.
  lemma OneByteChangeRejected(b: seq<uint8>, m: Message, i: nat, v: uint8)
    requires Parse(b) == Msg(m)
    requires 3 <= i < MIN_SIZE + m.pldLength
    requires v != b[FirstHeader(b) + i]
    ensures Parse(b[FirstHeader(b) + i := v]) == Bad(MsgInvalidChkSum)
  {
    hide Parse, MessageAt, FirstHeader, Message.Serialized, Message.Covered, Checksum;
    var h := FirstHeader(b);
    var n: int := m.pldLength;
    ParsesExactly(b, m);
    assert b[h + 2] == m.Serialized()[2] == m.pldLength by {
      SerializedParts(m);
      assert b[h..h + MIN_SIZE + n][2] == m.Serialized()[2];
      assert m.Serialized()[2] == m.Serialized()[2..7 + n][0] == m.Covered()[0];
    }
    var c := b[h + i := v];
    assert b[..h + 2] == c[..h + 2];
    SameHeader(b, c, h);
    ParseWithHeader(c, h);
    MessageAtSerialized(c, h);
    SliceOfUpdate(b, h, h + MIN_SIZE + n, i, v);
    assert v != m.Serialized()[i] by {
      assert b[h..h + MIN_SIZE + n][i] == b[h + i];
    }
    ChangedMessageFails(m, MessageAt(c, h), i, v);
  }

  lemma ParseWithHeader(b: seq<uint8>, h: nat)
    requires FirstHeader(b) == h && h + MIN_SIZE <= |b| && b[h + 2] as int + MIN_SIZE <= Remaining(b, h)
    ensures h + MIN_SIZE + b[h + 2] as int <= |b|
    ensures MessageAt(b, h).pldLength == b[h + 2]
    ensures Parse(b) == if MessageAt(b, h).Checksummed() then Msg(MessageAt(b, h)) else Bad(MsgInvalidChkSum)
  {
  }

  lemma ChangedMessageFails(m: Message, k: Message, i: nat, v: uint8)
    requires m.Checksummed() && k.Valid() && k.pldLength == m.pldLength
    requires 3 <= i < MIN_SIZE + m.pldLength && v != m.Serialized()[i]
    requires k.Serialized() == m.Serialized()[i := v]
    ensures !k.Checksummed()
  {
    var n: int := m.pldLength;
    SerializedParts(m);
    SerializedParts(k);
    if i < 7 + n {
      assert k.Covered() == m.Covered()[i - 2 := v];
      OneByteChangesChecksum(m.Covered(), i - 2, v);
    } else {
      assert k.Covered() == m.Covered();
      assert k.chk == k.Serialized()[7 + n..];
      assert k.chk[i - 7 - n] == v;
    }
  }

  lemma SameHeader(b: seq<uint8>, c: seq<uint8>, h: nat)
    requires |b| == |c| && HeaderAt(b, h) && FirstHeader(b) == h
    requires b[..h + 2] == c[..h + 2]
    ensures FirstHeader(c) == h
  {
    forall i | 0 <= i <= h
      ensures HeaderAt(c, i) == HeaderAt(b, i)
    {
      assert b[..h + 2][i] == c[..h + 2][i] && b[..h + 2][i + 1] == c[..h + 2][i + 1];
    }
  }
}
