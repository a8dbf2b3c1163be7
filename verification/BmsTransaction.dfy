// Reading a register of the battery management system: a bounded retry over the UART, and the
// all-or-nothing status read built on it.
module BmsTransaction {
  import opened Errors
  import opened UartMessage
  import opened Words
  import opened UartCodec

  const ADDR_BMS: uint8 := 0x22
  const RETRIES := 3

  const REG_CAPACITY: uint8 := 0x32
  const REG_CURRENT: uint8 := 0x33
  const REG_VOLTAGE: uint8 := 0x34
  const REG_TEMPERATURE: uint8 := 0x35

  // What uart_read_bytes gives within its time: an error, or as many bytes as came.
  datatype Reply = ReadError | Got(data: seq<uint8>)

  predicate Fits(replies: seq<Reply>, length: nat) {
    forall r | r in replies :: r.Got? ==> |r.data| <= length
  }

  // ---------------------------------------------------------------- specification

  datatype Attempt = Accepted(payload: seq<uint8>) | Rejected(err: Err)

  // One reply to a request for `size` bytes. The argument of the reply is compared with zero.
  function Judge(reply: Reply, size: nat): (a: Attempt)
    ensures a.Rejected? ==> a.err != Ok
  {
    if reply.ReadError? || reply.data == [] then Rejected(BmsNoResponse)
    else if |reply.data| != size + MIN_SIZE then Rejected(BmsInvalidLen)
    else
      match Parse(reply.data)
      case Bad(err) => Rejected(err)
      case Msg(m) =>
        if m.src != ADDR_BMS then Rejected(BmsWrongAddress)
        else if m.arg != 0 then Rejected(BmsWrongResponse)
        else Accepted(m.payload)
  }

  // The transaction over a bounded list of replies: the first accepted one ends it.
  datatype Result = Result(attempt: Attempt, attempts: nat)

  function Transact(replies: seq<Reply>, size: nat): (r: Result)
    requires replies != []
    ensures r.attempts <= |replies|
    ensures r.attempt.Rejected? ==> r.attempt.err != Ok
    decreases |replies|
  {
    var a := Judge(replies[0], size);
    if a.Accepted? || |replies| == 1 then Result(a, 1)
    else
      var r := Transact(replies[1..], size);
      r.(attempts := r.attempts + 1)
  }

  // Main result: it succeeds exactly when some attempt is accepted, with the payload of the first
  // one; otherwise every attempt was made and the error is that of the last one.
  lemma {:induction false} TransactsFirstAccepted(replies: seq<Reply>, size: nat)
    requires replies != []
    ensures var r := Transact(replies, size);
            && 1 <= r.attempts <= |replies|
            && r.attempt == Judge(replies[r.attempts - 1], size)
            && (forall i | 0 <= i < r.attempts - 1 :: Judge(replies[i], size).Rejected?)
            && (r.attempt.Rejected? ==> r.attempts == |replies|)
    ensures Transact(replies, size).attempt.Accepted? <==>
            exists i | 0 <= i < |replies| :: Judge(replies[i], size).Accepted?
    decreases |replies|
  {
    hide Judge;
    if Judge(replies[0], size).Rejected? && |replies| > 1 {
      var rest := replies[1..];
      TransactsFirstAccepted(rest, size);
      var n := Transact(rest, size).attempts;
      forall i | 0 <= i < n
        ensures Judge(replies[i], size).Rejected?
      {
        if i > 0 {
          assert replies[i] == rest[i - 1];
        }
      }
      if exists i | 0 <= i < |replies| :: Judge(replies[i], size).Accepted? {
        var i :| 0 <= i < |replies| && Judge(replies[i], size).Accepted?;
        assert rest[i - 1] == replies[i];
      }
    }
  }

  // What is accepted: a whole valid frame from the BMS with argument zero, and nothing else.
  lemma AcceptsExactly(reply: Reply, size: nat)
    ensures Judge(reply, size).Accepted? <==>
            reply.Got? && |reply.data| == size + MIN_SIZE && Parse(reply.data).Msg?
            && Parse(reply.data).msg.src == 0x22 && Parse(reply.data).msg.arg == 0
    ensures Judge(reply, size).Accepted? ==>
            var m := Parse(reply.data).msg;
            && Judge(reply, size).payload == m.payload
            && |m.payload| <= size - FirstHeader(reply.data)
            && (|m.payload| == size ==> reply.data == m.Serialized())
  {
    if Judge(reply, size).Accepted? {
      var m := Parse(reply.data).msg;
      ParsesExactly(reply.data, m);
      if |m.payload| == size {
        assert reply.data == reply.data[0..size + MIN_SIZE];
      }
    }
  }

  // Why a reply is rejected: nothing came, it has the wrong length, it does not parse, or it is not from
  // the BMS or not accepted by it, in this order.
  lemma RejectsFor(reply: Reply, size: nat)
    ensures var a := Judge(reply, size);
            if reply.ReadError? || reply.data == [] then a == Rejected(BmsNoResponse)
            else if |reply.data| != size + 9 then a == Rejected(BmsInvalidLen)
            else if Parse(reply.data).Bad? then a == Rejected(Parse(reply.data).err)
            else if Parse(reply.data).msg.src != 0x22 then a == Rejected(BmsWrongAddress)
            else a == if Parse(reply.data).msg.arg != 0 then Rejected(BmsWrongResponse)
                      else Accepted(Parse(reply.data).msg.payload)
  {
    hide Parse;
  }

  // What the checksummed answer of a device to a request for its whole payload comes to.
  lemma HonestReply(m: Message)
    requires m.Checksummed()
    ensures Judge(Got(m.Serialized()), m.pldLength) ==
            if m.pldLength > 246 then Rejected(MsgInvalidBuffer)
            else if m.src != ADDR_BMS then Rejected(BmsWrongAddress)
            else if m.arg != 0 then Rejected(BmsWrongResponse)
            else Accepted(m.payload)
  {
    hide Parse, Message.Serialized, Message.Covered, Checksum;
    assert |m.Serialized()| == m.pldLength as int + MIN_SIZE by {
      SerializedParts(m);
    }
    RoundTrip([], m, []);
    assert [] + m.Serialized() + [] == m.Serialized();
  }

  // An answer that carries the register it answers for, as its request did, is accepted only for
  // register zero.
  lemma RegisterAnswersOnlyForZero(m: Message, reg: uint8)
    requires m.Checksummed() && m.pldLength <= 246 && m.src == ADDR_BMS && m.arg == reg
    ensures Judge(Got(m.Serialized()), m.pldLength).Accepted? <==> reg == 0
    ensures reg != 0 ==> Judge(Got(m.Serialized()), m.pldLength) == Rejected(BmsWrongResponse)
  {
    HonestReply(m);
  }

  // The copy into the output takes `size` bytes from the payload's address on, whatever comes
  // after a shorter payload in memory.
  function Copied(payload: seq<uint8>, beyond: seq<uint8>, size: nat): (bytes: seq<uint8>)
    requires |beyond| >= size
    ensures |bytes| == size
  {
    (payload + beyond)[..size]
  }

  // How many bytes of the copy lie outside the payload's allocation.
  function Past(payload: seq<uint8>, size: nat): nat {
    if |payload| < size then size - |payload| else 0
  }

  // The copy stays inside the allocation of an accepted payload exactly when that has the size.
  lemma StaysInsideIff(reply: Reply, size: nat)
    requires Judge(reply, size).Accepted?
    ensures Past(Judge(reply, size).payload, size) == 0 <==> |Judge(reply, size).payload| == size
  {
    AcceptsExactly(reply, size);
  }

  // Exactly when the copied value comes from the reply alone: the payload has the size asked for.
  lemma CopyIsPayloadIff(reply: Reply, size: nat)
    requires Judge(reply, size).Accepted?
    ensures var payload := Judge(reply, size).payload;
            && |payload| <= size
            && ((forall beyond: seq<uint8>, other: seq<uint8> | |beyond| >= size && |other| >= size ::
                  Copied(payload, beyond, size) == Copied(payload, other, size)) <==> |payload| == size)
            && (|payload| == size ==>
                  forall beyond: seq<uint8> | |beyond| >= size :: Copied(payload, beyond, size) == payload)
  {
    AcceptsExactly(reply, size);
    var payload := Judge(reply, size).payload;
    if |payload| < size {
      var zeros := seq(size, _ => 0 as uint8);
      var ones := seq(size, _ => 1 as uint8);
      assert Copied(payload, zeros, size)[|payload|] == 0 && Copied(payload, ones, size)[|payload|] == 1;
    } else {
      forall beyond: seq<uint8> | |beyond| >= size
        ensures Copied(payload, beyond, size) == payload
      {
      }
    }
  }

  // Junk before and after a message makes up for what its payload lacks of the size asked for.
  lemma JunkMakesUpForPayload(prefix: seq<uint8>, m: Message, suffix: seq<uint8>)
    requires FirstHeader(prefix) == -1 && m.Checksummed() && m.src == ADDR_BMS && m.arg == 0
    requires m.pldLength + MIN_SIZE + |suffix| <= 255
    ensures Judge(Got(prefix + m.Serialized() + suffix), |prefix| + m.pldLength + |suffix|) == Accepted(m.payload)
  {
    hide Parse, Message.Serialized, Message.Covered, Checksum;
    assert |m.Serialized()| == m.pldLength as int + MIN_SIZE by {
      SerializedParts(m);
    }
    RoundTripShort(prefix, m, suffix);
  }

  // So there is a reply that is accepted with a shorter payload for every size but zero.
  lemma ShortPayloadAcceptedIff(size: nat)
    ensures (exists reply :: Judge(reply, size).Accepted? && |Judge(reply, size).payload| < size) <==> size > 0
  {
    hide Judge, Message.Serialized;
    if size > 0 {
      var blank := Message(0, ADDR_BMS, 0, 0, 0, [], [0, 0]);
      var m := blank.(chk := Checksum(blank.Covered()));
      SetChecksumChecks(blank);
      var zeros := seq(size, _ => 0 as uint8);
      assert forall i :: !HeaderAt(zeros, i);
      JunkMakesUpForPayload(zeros, m, []);
    }
  }

  // One byte where the status read asks for two: the second comes from behind the payload.
  lemma OneByteShort(value: uint8, junk: uint8, beyond: seq<uint8>)
    requires |beyond| >= 2
    ensures exists reply :: Judge(reply, 2) == Accepted([value]) && reply.Got? && reply.data[|reply.data| - 1] == junk
    ensures Copied([value], beyond, 2) == [value, beyond[0]]
  {
    hide Judge;
    var blank := Message(1, ADDR_BMS, 0, 0, 0, [value], [0, 0]);
    var m := blank.(chk := Checksum(blank.Covered()));
    SetChecksumChecks(blank);
    JunkMakesUpForPayload([], m, [junk]);
    var reply := Got([] + m.Serialized() + [junk]);
    assert reply.data[|reply.data| - 1] == junk;
  }

  // ---------------------------------------------------------------- the code

  // The request is serialised into a buffer of its own, written out, and the buffer released.
  method WriteRequest(heap: Heap, msg: RawMsg) returns (bytes: seq<uint8>)
    requires WellFormed(msg)
    modifies heap
    ensures heap.live == old(heap.live)
    ensures bytes == ValueOf(msg).Serialized()
  {
    var msgLen := SerializedLength(msg.pldLength);
    var msgBuf := heap.Malloc(msgLen);
    Serialize(msg, msgBuf);
    bytes := msgBuf[..msgLen];
    heap.Free(msgBuf);
  }

  // The copy into the output, counting what it reads from behind the payload.
  method CopyOut(payload: array<uint8>, beyond: seq<uint8>, size: nat, outVal: array<uint8>) returns (past: nat)
    requires |beyond| >= size && outVal.Length == size && outVal != payload
    modifies outVal
    ensures outVal[..] == Copied(payload[..], beyond, size) && past == Past(payload[..], size)
  {
    past := 0;
    for i := 0 to size
      invariant outVal[..i] == (payload[..] + beyond)[..i]
      invariant past == Past(payload[..], i)
    {
      if i < payload.Length {
        outVal[i] := payload[i];
      } else {
        outVal[i] := beyond[i - payload.Length];
        past := past + 1;
      }
    }
    assert outVal[..size] == outVal[..];
  }

  // One attempt, once the reply is read into the response buffer.
  method TakeReply(heap: Heap, reply: Reply, size: nat, resBuf: array<uint8>, beyond: seq<uint8>, outVal: array<uint8>)
    returns (err: Err, past: nat)
    requires resBuf.Length == size + MIN_SIZE && Fits([reply], resBuf.Length)
    requires |beyond| >= size && outVal.Length == size && outVal != resBuf
    modifies heap, resBuf, outVal
    ensures heap.live == old(heap.live)
    ensures match Judge(reply, size)
            case Accepted(payload) =>
              err == Ok && outVal[..] == Copied(payload, beyond, size) && past == Past(payload, size)
            case Rejected(e) => err == e && outVal[..] == old(outVal[..]) && past == 0
  {
    hide Parse, Message.Serialized, Message.Covered, Checksum;
    past := 0;
    assert reply in [reply];
    if reply.ReadError? || reply.data == [] {
      return BmsNoResponse, past;
    }
    Memcpy(resBuf, 0, reply.data);
    if |reply.data| != resBuf.Length {
      return BmsInvalidLen, past;
    }
    assert resBuf[..resBuf.Length] == reply.data;

    var parsed := ParseMsg(heap, resBuf, resBuf.Length);
    if parsed.Failed? {
      return parsed.err, past;
    }
    var rspMsg := parsed.msg;
    if rspMsg.src != ADDR_BMS {
      MsgFree(heap, rspMsg);
      return BmsWrongAddress, past;
    }
    if rspMsg.arg != 0 {
      MsgFree(heap, rspMsg);
      return BmsWrongResponse, past;
    }
    assert rspMsg.payload[..] == rspMsg.payload[..rspMsg.pldLength];
    past := CopyOut(rspMsg.payload, beyond, size, outVal);
    MsgFree(heap, rspMsg);
    return Ok, past;
  }

  // `replies` is what the device does on each attempt, `beyond` what lies after the payload in
  // memory, `sent` collects what was written to the UART, and `past` counts the bytes read from behind
  // the payload.
  method GetDataWithResponse(heap: Heap, dst: uint8, reg: uint8, size: nat, replies: seq<Reply>,
                             beyond: seq<uint8>, outVal: array<uint8>)
    returns (err: Err, sent: seq<seq<uint8>>, past: nat)
    requires |replies| == RETRIES && Fits(replies, size + MIN_SIZE)
    requires |beyond| >= size && outVal.Length == size
    modifies heap, outVal
    ensures heap.live == old(heap.live)
    ensures |sent| == Transact(replies, size).attempts && |sent| <= 3 && (err != Ok ==> |sent| == 3)
    ensures forall s | s in sent :: s == ReadRequest(dst, reg, size % 256).Serialized()
    ensures match Transact(replies, size).attempt
            case Accepted(payload) =>
              err == Ok && outVal[..] == Copied(payload, beyond, size) && past == Past(payload, size)
            case Rejected(e) => err == e && outVal[..] == old(outVal[..]) && past == 0
  {
    hide Judge, Copied, Past, Message.Serialized, Message.Covered, Checksum;
    err, sent, past := Ok, [], 0;
    var resBuf := new uint8[MIN_SIZE + size];
    var msg := RegreadMsgNew(heap, dst, reg, size % 256);
    ghost var mine := heap.live;

    var retries := 0;
    while retries < RETRIES
      invariant 0 <= retries <= RETRIES && |sent| == retries
      invariant heap.live == mine && WellFormed(msg) && ValueOf(msg) == ReadRequest(dst, reg, size % 256)
      invariant outVal[..] == old(outVal[..]) && past == 0
      invariant forall s | s in sent :: s == ReadRequest(dst, reg, size % 256).Serialized()
      invariant if retries < RETRIES then Transact(replies, size) == Later(replies, size, retries)
                else Transact(replies, size) == Result(Rejected(err), RETRIES)
    {
      var reply := replies[retries];
      LaterStep(replies, size, retries);
      retries := retries + 1;
      var bytes := WriteRequest(heap, msg);
      sent := sent + [bytes];
      assert Fits([reply], resBuf.Length);
      err, past := TakeReply(heap, reply, size, resBuf, beyond, outVal);
      if err != Ok {
        continue;
      }
      break;
    }

    MsgFree(heap, msg);
  }

  // The transaction from its k-th reply on.
  ghost function Later(replies: seq<Reply>, size: nat, k: nat): Result
    requires k < |replies|
  {
    var r := Transact(replies[k..], size);
    r.(attempts := r.attempts + k)
  }

  lemma LaterStep(replies: seq<Reply>, size: nat, k: nat)
    requires k < |replies|
    ensures var a := Judge(replies[k], size);
            Later(replies, size, k) ==
            if a.Accepted? || k + 1 == |replies| then Result(a, k + 1) else Later(replies, size, k + 1)
  {
    assert replies[k..][1..] == replies[k + 1..];
  }

  // ---------------------------------------------------------------- the status of a pack

  // The four registers in the order of the fields of the packed status structure.
  const STATUS_REGS: seq<uint8> := [REG_CAPACITY, REG_VOLTAGE, REG_CURRENT, REG_TEMPERATURE]

  datatype Status = Status(capacity: uint16, voltage: uint16, current: int, temperature1: uint8, temperature2: uint8)

  function Word(low: uint8, high: uint8): uint16 {
    low + 256 * high
  }

  function Bytes(w: uint16): seq<uint8> {
    [w % 256, w / 256]
  }

  // The structure seen through the eight bytes it occupies; current is a signed word.
  function StatusOf(bytes: seq<uint8>): Status
    requires |bytes| == 8
  {
    var c := Word(bytes[4], bytes[5]);
    var current := if c >= 0x8000 then c - 0x1_0000 else c;
    Status(Word(bytes[0], bytes[1]), Word(bytes[2], bytes[3]), current, bytes[6], bytes[7])
  }

  // The two bytes of the field that is named after the register.
  function FieldBytes(s: Status, reg: uint8): seq<uint8>
    requires reg in STATUS_REGS && -0x8000 <= s.current < 0x8000
  {
    if reg == REG_CAPACITY then Bytes(s.capacity)
    else if reg == REG_VOLTAGE then Bytes(s.voltage)
    else if reg == REG_CURRENT then Bytes(if s.current < 0 then s.current + 0x1_0000 else s.current)
    else [s.temperature1, s.temperature2]
  }

  // Every field holds what was read from its own register.
  lemma FieldsMatchRegisters(scripts: seq<seq<Reply>>, beyond: seq<uint8>)
    requires |beyond| >= 2 && AllAsked(scripts) && |scripts| == |STATUS_REGS|
    requires ReadRegisters(scripts, beyond).Read?
    ensures var s := StatusOf(ReadRegisters(scripts, beyond).bytes);
            -0x8000 <= s.current < 0x8000
            && forall i | 0 <= i < |STATUS_REGS| ::
                 && Transact(scripts[i], 2).attempt.Accepted?
                 && FieldBytes(s, STATUS_REGS[i]) == Copied(Transact(scripts[i], 2).attempt.payload, beyond, 2)
  {
    hide Transact, Copied, ReadRegisters, StatusOf, FieldBytes;
    ReadsAllOrFirstError(scripts, beyond);
    FieldsKeepBytes(ReadRegisters(scripts, beyond).bytes);
  }

  lemma BytesOfWord(low: uint8, high: uint8)
    ensures Bytes(Word(low, high)) == [low, high]
  {
    var w: int := low + 256 * high;
    assert w / 256 == high && w % 256 == low;
  }

  lemma FieldsKeepBytes(b: seq<uint8>)
    requires |b| == 8
    ensures -0x8000 <= StatusOf(b).current < 0x8000
    ensures forall i | 0 <= i < |STATUS_REGS| :: FieldBytes(StatusOf(b), STATUS_REGS[i]) == b[2 * i..2 * i + 2]
  {
    hide Word, Bytes;
    BytesOfWord(b[0], b[1]);
    BytesOfWord(b[2], b[3]);
    BytesOfWord(b[4], b[5]);
    assert b[0..2] == [b[0], b[1]] && b[2..4] == [b[2], b[3]] && b[4..6] == [b[4], b[5]] && b[6..8] == [b[6], b[7]];
  }

  datatype StatusRead = Read(bytes: seq<uint8>) | Unread(err: Err)

  // Every register gets at least one attempt.
  predicate AllAsked(scripts: seq<seq<Reply>>) {
    forall i | 0 <= i < |scripts| :: scripts[i] != []
  }

  function Extend(bytes: seq<uint8>, a: Attempt, beyond: seq<uint8>): StatusRead
    requires |beyond| >= 2
  {
    match a
    case Rejected(err) => Unread(err)
    case Accepted(payload) => Read(bytes + Copied(payload, beyond, 2))
  }

  // Two bytes a register, up to the first that cannot be read.
  function ReadRegisters(scripts: seq<seq<Reply>>, beyond: seq<uint8>): (r: StatusRead)
    requires |beyond| >= 2 && AllAsked(scripts)
    ensures r.Read? ==> |r.bytes| == 2 * |scripts|
    ensures r.Unread? ==> r.err != Ok
  {
    if scripts == [] then Read([])
    else
      var n := |scripts| - 1;
      var r := ReadRegisters(scripts[..n], beyond);
      if r.Unread? then r else Extend(r.bytes, Transact(scripts[n], 2).attempt, beyond)
  }

  // Main result: all or nothing. The registers are all read exactly when each of them is accepted
  // within its attempts, and otherwise the error is that of the first one that is not.
  lemma {:induction false} ReadsAllOrFirstError(scripts: seq<seq<Reply>>, beyond: seq<uint8>)
    requires |beyond| >= 2 && AllAsked(scripts)
    ensures ReadRegisters(scripts, beyond).Read? <==>
            forall i | 0 <= i < |scripts| :: Transact(scripts[i], 2).attempt.Accepted?
    ensures ReadRegisters(scripts, beyond).Read? ==>
            forall i | 0 <= i < |scripts| ::
              ReadRegisters(scripts, beyond).bytes[2 * i..2 * i + 2] ==
              Copied(Transact(scripts[i], 2).attempt.payload, beyond, 2)
    ensures ReadRegisters(scripts, beyond).Unread? ==>
            exists i | 0 <= i < |scripts| ::
              && Transact(scripts[i], 2).attempt == Rejected(ReadRegisters(scripts, beyond).err)
              && forall j | 0 <= j < i :: Transact(scripts[j], 2).attempt.Accepted?
  {
    hide Transact, Copied;
    if scripts != [] {
      var n := |scripts| - 1;
      ReadsAllOrFirstError(scripts[..n], beyond);
      var r := ReadRegisters(scripts[..n], beyond);
      if r.Unread? {
        var i :| 0 <= i < n && Transact(scripts[..n][i], 2).attempt == Rejected(r.err)
                 && forall j | 0 <= j < i :: Transact(scripts[..n][j], 2).attempt.Accepted?;
        assert scripts[..n][i] == scripts[i];
        assert forall j | 0 <= j < i :: scripts[..n][j] == scripts[j];
      } else {
        assert forall j | 0 <= j < n :: scripts[..n][j] == scripts[j];
      }
    }
  }

  // `sent` holds what was written to the UART for each register asked for.
  method GetStatus(heap: Heap, scripts: seq<seq<Reply>>, beyond: seq<uint8>, outStatus: array<uint8>)
    returns (err: Err, sent: seq<seq<seq<uint8>>>)
    requires |scripts| == |STATUS_REGS|
    requires forall i | 0 <= i < |scripts| :: |scripts[i]| == RETRIES && Fits(scripts[i], 2 + MIN_SIZE)
    requires |beyond| >= 2 && outStatus.Length == 8
    modifies heap, outStatus
    ensures heap.live == old(heap.live)
    ensures |sent| <= 4 && forall i | 0 <= i < |sent| :: AsksFor(sent[i], [0x32, 0x34, 0x33, 0x35][i])
    ensures match ReadRegisters(scripts, beyond)
            case Read(bytes) => err == Ok && outStatus[..] == bytes
            case Unread(e) => err == e && outStatus[..] == old(outStatus[..])
  {
    hide Transact, Copied, AsksFor;
    var outValues: seq<uint8> := [];
    sent := [];
    for i := 0 to |STATUS_REGS|
      invariant heap.live == old(heap.live) && outStatus[..] == old(outStatus[..])
      invariant ReadRegisters(scripts[..i], beyond) == Read(outValues)
      invariant |sent| == i && forall k | 0 <= k < i :: AsksFor(sent[k], STATUS_REGS[k])
    {
      NextRegister(scripts, beyond, i);
      var value, requests;
      err, requests, value := GetRegister(heap, STATUS_REGS[i], scripts[i], beyond);
      sent := sent + [requests];
      if err != Ok {
        UnreadSticks(scripts, beyond, i + 1);
        return;
      }
      outValues := outValues + value[..];
    }
    assert scripts[..|STATUS_REGS|] == scripts;
    Memcpy(outStatus, 0, outValues);
    assert outStatus[..] == outStatus[..8];
    err := Ok;
  }

  // One register of the status, into a fresh word.
  method GetRegister(heap: Heap, reg: uint8, replies: seq<Reply>, beyond: seq<uint8>)
    returns (err: Err, sent: seq<seq<uint8>>, value: array<uint8>)
    requires |replies| == RETRIES && Fits(replies, 2 + MIN_SIZE) && |beyond| >= 2
    modifies heap
    ensures heap.live == old(heap.live) && fresh(value)
    ensures AsksFor(sent, reg)
    ensures match Transact(replies, 2).attempt
            case Accepted(payload) => err == Ok && value[..] == Copied(payload, beyond, 2)
            case Rejected(e) => err == e && e != Ok
  {
    hide Transact, Copied;
    value := new uint8[2];
    var past;
    err, sent, past := GetDataWithResponse(heap, ADDR_BMS, reg, 2, replies, beyond, value);
  }

  // Every message sent is the request to the BMS for the two bytes of the register.
  predicate AsksFor(sent: seq<seq<uint8>>, reg: uint8) {
    forall s | s in sent :: s == ReadRequest(ADDR_BMS, reg, 2).Serialized()
  }

  lemma NextRegister(scripts: seq<seq<Reply>>, beyond: seq<uint8>, k: nat)
    requires |beyond| >= 2 && AllAsked(scripts)
    requires k < |scripts| && ReadRegisters(scripts[..k], beyond).Read?
    ensures ReadRegisters(scripts[..k + 1], beyond) ==
            Extend(ReadRegisters(scripts[..k], beyond).bytes, Transact(scripts[k], 2).attempt, beyond)
  {
    assert scripts[..k + 1][..k] == scripts[..k];
  }

  lemma {:induction false} UnreadSticks(scripts: seq<seq<Reply>>, beyond: seq<uint8>, k: nat)
    requires |beyond| >= 2 && AllAsked(scripts)
    requires k <= |scripts| && ReadRegisters(scripts[..k], beyond).Unread?
    ensures ReadRegisters(scripts, beyond) == ReadRegisters(scripts[..k], beyond)
    decreases |scripts|
  {
    hide Extend, Transact;
    var n := |scripts| - 1;
    if k == |scripts| {
      assert scripts[..k] == scripts;
    } else {
      assert scripts[..n][..k] == scripts[..k];
      UnreadSticks(scripts[..n], beyond, k);
    }
  }

  // The requests of the status read on the wire.
  lemma AsksOnTheWire(sent: seq<seq<uint8>>, reg: uint8, i: nat)
    requires AsksFor(sent, reg) && i < |sent|
    ensures |sent[i]| == 10 && sent[i][..8] == [0x5A, 0xA5, 1, 0x3E, 0x22, 0x01, reg, 2]
    ensures sent[i][8] as int + 256 * sent[i][9] as int == 0xFFFF - (0x64 + reg as int)
  {
    hide Message.Serialized;
    assert sent[i] in sent;
    RequestOnTheWire(ADDR_BMS, reg, 2);
  }

  // The status in numbers: words are low byte first, and the current's high bit is its sign.
  lemma StatusInNumbers(b: seq<uint8>)
    requires |b| == 8
    ensures var s := StatusOf(b);
            && s.capacity as int == b[0] as int + 256 * b[1] as int
            && s.voltage as int == b[2] as int + 256 * b[3] as int
            && s.current == b[4] as int + 256 * b[5] as int - (if b[5] >= 128 then 65536 else 0)
            && s.temperature1 == b[6] && s.temperature2 == b[7]
  {
  }
}
