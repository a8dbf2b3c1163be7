// The codec as it runs: buffers and payloads are allocated, filled in place and released.
module UartCodec {
  import opened Errors
  import opened Sequences
  import opened UartMessage
  import opened Words

  const HEADER_SIZE := 5

  // The allocator. Only what is allocated can be released, so nothing is released twice.
  class Heap {
    ghost var live: set<array<uint8>>

    constructor ()
      ensures live == {}
    {
      live := {};
    }

    method Malloc(n: nat) returns (p: array<uint8>)
      modifies this
      ensures fresh(p) && p.Length == n
      ensures p !in old(live) && live == old(live) + {p}
    {
      p := new uint8[n];
      live := live + {p};
    }

    method Free(p: array<uint8>)
      requires p in live
      modifies this
      ensures live == old(live) - {p}
    {
      live := live - {p};
    }
  }

  // The message structure: the payload is a pointer.
  datatype RawMsg = RawMsg(
    pldLength: uint8, src: uint8, dst: uint8, cmd: uint8, arg: uint8,
    payload: array<uint8>, chk: seq<uint8>)

  ghost predicate WellFormed(msg: RawMsg) {
    msg.payload.Length >= msg.pldLength && |msg.chk| == 2
  }

  ghost function ValueOf(msg: RawMsg): (m: Message)
    requires WellFormed(msg)
    reads msg.payload
    ensures m.Valid()
  {
    Message(msg.pldLength, msg.src, msg.dst, msg.cmd, msg.arg, msg.payload[..msg.pldLength], msg.chk)
  }

  method Memcpy(dst: array<uint8>, at: nat, src: seq<uint8>)
    requires at + |src| <= dst.Length
    modifies dst
    ensures dst[..at + |src|] == old(dst[..at]) + src
    ensures dst[at + |src|..] == old(dst[at + |src|..])
  {
    for i := 0 to |src|
      invariant dst[..at] == old(dst[..at])
      invariant dst[at..at + i] == src[..i]
      invariant dst[at + i..] == old(dst[at + i..])
    {
      dst[at + i] := src[i];
    }
    assert src[..|src|] == src;
    assert dst[..at + |src|] == dst[..at] + dst[at..at + |src|];
  }

  function SerializedLength(pldLength: uint8): int {
    pldLength + MIN_SIZE
  }

  method Serialize(msg: RawMsg, buff: array<uint8>)
    requires WellFormed(msg) && buff != msg.payload
    requires buff.Length >= SerializedLength(msg.pldLength)
    modifies buff
    ensures buff[..SerializedLength(msg.pldLength)] == ValueOf(msg).Serialized()
    ensures buff[SerializedLength(msg.pldLength)..] == old(buff[SerializedLength(msg.pldLength)..])
  {
    var n: int := msg.pldLength;
    var header := [msg.pldLength, msg.src, msg.dst, msg.cmd, msg.arg];
    var payload := msg.payload[..n];
    ghost var tail := buff[n + MIN_SIZE..];
    Memcpy(buff, 0, [0x5A, 0xA5]);
    assert buff[..2] == [0x5A, 0xA5];
    assert buff[n + MIN_SIZE..] == buff[2..][n + 7..];
    Memcpy(buff, 2, header);
    assert buff[..7] == [0x5A, 0xA5] + header;
    assert buff[n + MIN_SIZE..] == buff[7..][n + 2..];
    Memcpy(buff, 7, payload);
    assert buff[..7 + n] == [0x5A, 0xA5] + (header + payload);
    assert buff[n + MIN_SIZE..] == buff[7 + n..][2..];
    Memcpy(buff, 7 + n, msg.chk);
  }

  method FindHeader(buffer: array<uint8>, bufLength: nat) returns (index: int)
    requires bufLength <= buffer.Length
    ensures index == FirstHeader(buffer[..bufLength])
  {
    if bufLength < 2 {
      return -1;
    }
    ghost var b := buffer[..bufLength];
    for i := 0 to bufLength - 1
      invariant forall j | 0 <= j < i :: !HeaderAt(b, j)
    {
      if buffer[i] == 0x5A && buffer[i + 1] == 0xA5 {
        assert HeaderAt(b, i);
        return i;
      }
    }
    return -1;
  }

  method BuffChkCalc(buffer: array<uint8>, at: nat, length: nat) returns (chk: seq<uint8>)
    requires at + length <= buffer.Length
    ensures chk == Checksum(buffer[at..at + length]) && SumsUp(buffer[at..at + length], chk)
  {
    var chksum: uint16 := 0;
    ghost var b := buffer[at..at + length];
    for i := 0 to length
      invariant chksum == Sum(b[..i]) % 0x1_0000
    {
      assert b[..i + 1][..i] == b[..i];
      chksum := (chksum + buffer[at + i]) % 0x1_0000;
    }
    assert b[..length] == b;
    chksum := 0xFFFF - chksum;
    chk := [chksum % 256, chksum / 256];
  }

  method ChkCalc(heap: Heap, msg: RawMsg) returns (chk: seq<uint8>)
    requires WellFormed(msg)
    modifies heap
    ensures heap.live == old(heap.live)
    ensures chk == Checksum(ValueOf(msg).Covered()) && SumsUp(ValueOf(msg).Covered(), chk)
  {
    var buffSize := SerializedLength(msg.pldLength);
    var buffer := heap.Malloc(buffSize);
    Serialize(msg, buffer);
    assert buffer[..buffSize] == buffer[..] == ValueOf(msg).Serialized();
    assert buffer[2..buffSize - 2] == ValueOf(msg).Covered() by {
      SerializedParts(ValueOf(msg));
      assert buffer[2..buffSize - 2] == buffer[..][2..buffSize - 2];
    }
    chk := BuffChkCalc(buffer, 2, buffSize - 4);
    heap.Free(buffer);
  }

  method SetChk(heap: Heap, msg: RawMsg) returns (out: RawMsg)
    requires WellFormed(msg)
    modifies heap
    ensures heap.live == old(heap.live)
    ensures out == msg.(chk := out.chk) && WellFormed(out)
    ensures ValueOf(out).Checksummed()
  {
    var chk := ChkCalc(heap, msg);
    out := msg.(chk := chk);
  }

  method MsgChk(heap: Heap, msg: RawMsg) returns (err: Err)
    requires WellFormed(msg)
    modifies heap
    ensures heap.live == old(heap.live)
    ensures err == if ValueOf(msg).Checksummed() then Ok else MsgInvalidChkSum
  {
    var calcChkSum := ChkCalc(heap, msg);
    err := if calcChkSum != msg.chk then MsgInvalidChkSum else Ok;
  }

  method MsgFree(heap: Heap, msg: RawMsg)
    requires msg.payload in heap.live
    modifies heap
    ensures heap.live == old(heap.live) - {msg.payload}
  {
    heap.Free(msg.payload);
  }

  datatype Outcome = Done(msg: RawMsg) | Failed(err: Err)

  // Every buffer length is handled; only bytes of the buffer are read. A message comes with one
  // payload allocated and nothing else; a failure leaves nothing allocated.
  method ParseMsg(heap: Heap, buffer: array<uint8>, bufLength: nat) returns (out: Outcome)
    requires bufLength <= buffer.Length
    modifies heap
    ensures match out
            case Failed(err) => Parse(buffer[..bufLength]) == Bad(err) && heap.live == old(heap.live)
            case Done(msg) =>
              && WellFormed(msg) && Parse(buffer[..bufLength]) == Msg(ValueOf(msg))
              && msg.payload.Length == msg.pldLength
              && fresh(msg.payload) && msg.payload !in old(heap.live) && heap.live == old(heap.live) + {msg.payload}
  {
    hide Parse, Message.Serialized, Message.Covered, Checksum;
    ghost var b := buffer[..bufLength];
    ParseErrors(b);
    var headerIndex := FindHeader(buffer, bufLength);
    if headerIndex < 0 {
      return Failed(MsgNoHeader);
    }

    var at := headerIndex;
    var remBufferLen: uint8 := (bufLength - headerIndex) % 256;
    if remBufferLen < MIN_SIZE {
      return Failed(MsgInvalidBuffer);
    }

    at := at + 2;
    remBufferLen := remBufferLen - 2;
    var pldLength := buffer[at];

    at := at + HEADER_SIZE;
    remBufferLen := remBufferLen - HEADER_SIZE;
    if pldLength + 2 > remBufferLen {
      return Failed(MsgInvalidPldLen);
    }

    ParseWithHeader(b, headerIndex);
    var msg := CopyMessage(heap, buffer, bufLength, headerIndex);
    var err := MsgChk(heap, msg);
    if err != Ok {
      heap.Free(msg.payload);
      return Failed(err);
    }
    return Done(msg);
  }

  // The fields and a copy of the payload of the message at a header, once its length is checked.
  method CopyMessage(heap: Heap, buffer: array<uint8>, bufLength: nat, headerIndex: nat) returns (msg: RawMsg)
    requires bufLength <= buffer.Length && headerIndex + MIN_SIZE <= bufLength
    requires headerIndex + MIN_SIZE + buffer[headerIndex + 2] <= bufLength
    modifies heap
    ensures WellFormed(msg) && ValueOf(msg) == MessageAt(buffer[..bufLength], headerIndex)
    ensures msg.payload.Length == msg.pldLength
    ensures fresh(msg.payload) && msg.payload !in old(heap.live) && heap.live == old(heap.live) + {msg.payload}
  {
    var at := headerIndex + 2;
    var pldLength, src, dst, cmd, arg := buffer[at], buffer[at + 1], buffer[at + 2], buffer[at + 3], buffer[at + 4];
    at := at + HEADER_SIZE;
    var payload := heap.Malloc(pldLength);
    var copied := buffer[at..at + pldLength];
    Memcpy(payload, 0, copied);
    assert payload[..pldLength] == [] + copied == copied;
    SliceOfPrefix(buffer[..], bufLength, at, at + pldLength);
    at := at + pldLength;
    msg := RawMsg(pldLength, src, dst, cmd, arg, payload, buffer[at..at + 2]);
    SliceOfPrefix(buffer[..], bufLength, at, at + 2);
  }

  method RegreadMsgNew(heap: Heap, dst: uint8, reg: uint8, readLen: uint8) returns (msg: RawMsg)
    modifies heap
    ensures fresh(msg.payload) && msg.payload !in old(heap.live) && heap.live == old(heap.live) + {msg.payload}
    ensures WellFormed(msg) && ValueOf(msg) == ReadRequest(dst, reg, readLen)
  {
    var payload := heap.Malloc(1);
    var newMsg := RawMsg(1, 0x3E, dst, 0x01, reg, payload, [0, 0]);
    newMsg.payload[0] := readLen;
    assert payload[..1] == [readLen];
    msg := SetChk(heap, newMsg);
  }

  // Read readLen bytes of a register of the device at dst.
  function ReadRequest(dst: uint8, reg: uint8, readLen: uint8): (m: Message)
    ensures m.Checksummed()
  {
    var m := Message(1, 0x3E, dst, 0x01, reg, [readLen], [0, 0]);
    m.(chk := Checksum(m.Covered()))
  }

  // The request on the wire: a read by the app, and the sum of its six bytes up to the checksum.
  lemma RequestOnTheWire(dst: uint8, reg: uint8, readLen: uint8)
    ensures var s := ReadRequest(dst, reg, readLen).Serialized();
            && |s| == 10
            && s[..8] == [0x5A, 0xA5, 1, 0x3E, dst, 0x01, reg, readLen]
            && s[8] as int + 256 * s[9] as int == 0xFFFF - (0x40 + dst as int + reg as int + readLen as int)
  {
    var m := ReadRequest(dst, reg, readLen);
    OnTheWire(m);
    RequestSum(dst, reg, readLen);
    ShortSumsDoNotWrap(m);
  }

  lemma RequestSum(dst: uint8, reg: uint8, readLen: uint8)
    ensures Sum([1, 0x3E, dst, 0x01, reg] + [readLen]) == 0x40 + dst as int + reg as int + readLen as int
  {
    var s1: seq<uint8> := [1];
    var s2, s3 := s1 + [0x3E], s1 + [0x3E] + [dst];
    var s4, s5 := s3 + [0x01], s3 + [0x01] + [reg];
    assert [] + s1 == s1;
    SumSnoc([], 1);
    SumSnoc(s1, 0x3E);
    SumSnoc(s2, dst);
    SumSnoc(s3, 0x01);
    SumSnoc(s4, reg);
    SumSnoc(s5, readLen);
    assert s5 == [1, 0x3E, dst, 0x01, reg];
  }

  lemma SumSnoc(bytes: seq<uint8>, v: uint8)
    ensures Sum(bytes + [v]) == Sum(bytes) + v as int
  {
    assert (bytes + [v])[..|bytes|] == bytes;
  }
}
