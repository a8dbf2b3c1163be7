// The handle itself: the interrupt and the driver functions, statement by statement, each proved
// equal to its specification on `Link` values.
module Ps2Handle {
  import opened Errors
  import opened Ps2Frame
  import opened Ps2Deframer
  import opened Ps2Movement
  import opened Ps2Link

  class Handle {
    var inflight: Frame
    var mode: Mode
    var rxQueue: seq<Frame>
    var mvQueue: seq<Frame>
    const queueLen: nat
    var driving: bool
    var level: bool
    var sqncIdx: nat
    const mvmt: array<bv8>
    var txLock: bool
    var sent: seq<bv8>      // the bytes handed to send_byte, in order

    ghost function Value(): Link
      reads this, mvmt
    {
      Link(inflight, mode, rxQueue, mvQueue, queueLen, driving, level, Assembler(sqncIdx, mvmt[..]), txLock)
    }

    ghost predicate Valid()
      reads this, mvmt
    {
      mvmt.Length == 3 && Inv(Value())
    }

    constructor (queueLen: nat)
      ensures Valid() && fresh(mvmt)
      ensures Value() == Init(queueLen) && sent == []
    {
      this.queueLen := queueLen;
      inflight, mode := ZERO, Idle;
      rxQueue, mvQueue := [], [];
      driving, level := false, false;
      sqncIdx := 0;
      mvmt := new bv8[3](_ => 0);
      txLock := true;
      sent := [];
      new;
      assert mvmt[..] == [0, 0, 0];
    }

    method QueueSendRx(frame: Frame)
      modifies `rxQueue
      ensures rxQueue == Push(old(rxQueue), frame, queueLen)
    {
      if |rxQueue| < queueLen {
        rxQueue := rxQueue + [frame];
      }
    }

    method QueueSendMv(frame: Frame)
      modifies `mvQueue
      ensures mvQueue == Push(old(mvQueue), frame, queueLen)
    {
      if |mvQueue| < queueLen {
        mvQueue := mvQueue + [frame];
      }
    }

    // One bit in, as the first switch of the interrupt handles it.
    method Receive(bit: bool)
      requires inflight.idx <= 10
      modifies `inflight
      ensures inflight.(idx := inflight.idx + 1) == Accept(old(inflight), bit)
    {
      if inflight.idx == 0 {
        if bit {
          inflight := inflight.(err := Ps2BadStart);
        }
      } else if inflight.idx == 9 {
        var parity := GetParity(inflight.byte);
        if bit != parity {
          inflight := inflight.(err := Ps2BadParity);
        }
      } else if inflight.idx == 10 {
        if !bit {
          inflight := inflight.(err := Ps2BadStop);
        }
      } else if inflight.idx == 11 {
        assert false; // a frame never gets this far: it leaves after eleven bits
      } else {
        inflight := inflight.(byte := SetBit(inflight.byte, inflight.idx - 1, bit));
      }
    }

    // One bit out. At index 11 the mask lies above the byte, so the level is 0.
    method Drive()
      requires inflight.idx <= 11
      modifies `level
      ensures level == SendLevel(inflight)
    {
      if inflight.idx == 0 {
        level := false;
      } else if inflight.idx == 9 {
        level := GetParity(inflight.byte);
      } else if inflight.idx == 10 {
        level := true;
      } else {
        level := inflight.idx - 1 < 8 && Bit(inflight.byte, inflight.idx - 1);
      }
    }

    // The first switch of the interrupt and the step of the bit index.
    method Sample(bit: bool)
      requires inflight.idx <= if mode == Send then 11 else 10
      modifies `inflight, `level
      ensures inflight == if mode in {Recv, Mvmt} then Accept(old(inflight), bit)
                          else old(inflight).(idx := old(inflight.idx) + 1)
      ensures level == if mode == Send then SendLevel(old(inflight)) else old(level)
    {
      match mode {
        case Recv => Receive(bit);
        case Mvmt => Receive(bit);
        case Send => Drive();
        case Idle =>
      }
      inflight := inflight.(idx := inflight.idx + 1);
    }

    method Isr(bit: bool)
      requires Valid()
      modifies `inflight, `mode, `rxQueue, `mvQueue, `driving, `level
      ensures Value() == Edge(old(Value()), bit)
      ensures Valid()
    {
      Sample(bit);

      if inflight.err == Ok && inflight.idx < 11 {
        return;
      }

      match mode {
        case Recv =>
          QueueSendRx(inflight);
          mode := Mvmt;
        case Mvmt =>
          QueueSendMv(inflight);
        case Send =>
          driving := false;
          if inflight.idx != 12 {
            return;
          }
          mode := Recv;
        case Idle =>
      }
      inflight := ZERO;
    }

    // Edges that arrive while a task waits.
    method Wait(bits: seq<bool>)
      requires Valid()
      modifies `inflight, `mode, `rxQueue, `mvQueue, `driving, `level
      ensures Value() == Edges(old(Value()), bits)
      ensures Valid()
    {
      var i := 0;
      while i < |bits|
        invariant 0 <= i <= |bits|
        invariant Valid()
        invariant Edges(Value(), bits[i..]) == Edges(old(Value()), bits)
      {
        assert bits[i..][0] == bits[i] && bits[i..][1..] == bits[i + 1..];
        Isr(bits[i]);
        i := i + 1;
      }
    }

    method SendByte(byte: bv8)
      requires Valid()
      modifies `inflight, `mode, `driving, `sent
      ensures Value() == Transmit(old(Value()), byte)
      ensures Valid()
      ensures sent == old(sent) + [byte]
    {
      driving := true;
      sent := sent + [byte];
      inflight := ZERO;
      inflight := inflight.(byte := byte);
      mode := Send;
    }

    // The receive of esk8_ps2_await_rsp, once the wait is over.
    method AwaitRsp() returns (response: Response)
      requires Valid()
      modifies `rxQueue
      ensures response == ResponseOf(old(Value()))
      ensures Value() == Step(old(Value()), TakeResponse)
      ensures Valid()
    {
      if rxQueue == [] {
        return NoAnswer(Ps2RespTimeout);
      }
      var frame := rxQueue[0];
      rxQueue := rxQueue[1..];
      if frame.err != Ok {
        return NoAnswer(frame.err);
      }
      return Answer(frame.byte);
    }

    method TakeLock()
      requires Valid()
      modifies `txLock
      ensures Value() == Step(old(Value()), Lock)
      ensures Valid()
    {
      txLock := false;
    }

    method GiveLock()
      requires Valid()
      modifies `txLock
      ensures Value() == Step(old(Value()), Unlock)
      ensures Valid()
    {
      txLock := true;
    }

    method CleanUp()
      requires Valid()
      modifies `inflight, `txLock
      ensures Value() == Step(old(Value()), Cleanup)
      ensures Valid()
    {
      inflight := ZERO;
      txLock := true;
    }

    method RestartMvmt()
      requires Valid()
      modifies `mvQueue, `sqncIdx
      ensures Value() == Step(old(Value()), Restart)
      ensures Valid()
    {
      mvQueue := [];
      sqncIdx := 0;
    }

    method SendCmd(cmd: bv8, env: CmdEnv) returns (err: Err)
      requires Valid()
      modifies `inflight, `mode, `rxQueue, `mvQueue, `driving, `level, `txLock, `sent
      ensures Done(err, Value()) == Ps2Link.SendCmd(old(Value()), cmd, env)
      ensures Valid()
      ensures sent == old(sent) + if old(txLock) then [cmd] else []
    {
      hide Edges;
      if !txLock {
        return Ps2Timeout;
      }
      TakeLock();
      SendByte(cmd);
      Wait(env.wait);
      var response := AwaitRsp();
      Wait(env.late);
      match response {
        case NoAnswer(e) => err := e;
        case Answer(resp) =>
          if resp == RES_RESEND {
            err := Ps2Resend;
          } else if resp == RES_ERROR {
            err := Ps2Error;
          } else if resp != RES_ACK {
            err := Ps2NoAck;
          } else {
            err := Ok;
          }
      }
      CleanUp();
    }

    method MvmtSync(env: SyncEnv) returns (err: Err)
      requires Valid()
      modifies this
      ensures Done(err, Value()) == Ps2Link.MvmtSync(old(Value()), env)
      ensures Valid()
      ensures sent == old(sent) + if !old(txLock) then []
                                  else if Ps2Link.SendCmd(old(Value()), 0xF5, env.disable).err != Ok then [0xF5]
                                  else [0xF5, 0xF4]
    {
      hide Ps2Link.SendCmd, Edges;
      err := SendCmd(CMD_DATA_DISABLE, env.disable);
      if err != Ok {
        return;
      }
      Wait(env.before);
      RestartMvmt();
      Wait(env.pause);
      err := SendCmd(CMD_DATA_ENABLE, env.enable);
      if err != Ok {
        return;
      }
      GiveLock();
    }

    // The body of the loop of esk8_ps2_await_mvmt, after the wait.
    method TakeByte() returns (err: Err)
      requires Valid() && sqncIdx < 3
      modifies `mvQueue, `sqncIdx, mvmt
      ensures Ps2Link.TakeByte(old(Value())) == Done(err, Value())
      ensures Valid()
    {
      if mvQueue == [] {
        return Ps2Timeout;
      }
      var frame := mvQueue[0];
      mvQueue := mvQueue[1..];
      if frame.err != Ok {
        return frame.err;
      }
      ghost var bytes := mvmt[..];
      mvmt[sqncIdx] := frame.byte;
      assert mvmt[..] == bytes[sqncIdx := frame.byte];
      sqncIdx := sqncIdx + 1;
      return Ok;
    }

    // Its end: the packet is decoded, or the three bytes are kept.
    method FinishPacket() returns (outcome: Outcome)
      requires Valid() && sqncIdx == 3
      modifies `sqncIdx
      ensures Awaited(outcome, Value()) == FinishLink(old(Value()))
      ensures Valid()
    {
      if !AlwaysOne(mvmt[0]) {
        return Failed(Ps2BadMvmt);
      }
      var movement := Movement(
        mvmt[0] & 0x01 != 0,
        Displacement(mvmt[0] & 0x10 != 0, mvmt[1]),
        Displacement(mvmt[0] & 0x20 != 0, mvmt[2]));
      sqncIdx := 0;
      return Moved(movement);
    }

    method AwaitMvmt(waits: seq<seq<bool>>) returns (outcome: Outcome)
      requires Valid()
      requires sqncIdx + |waits| >= 3
      modifies `inflight, `mode, `rxQueue, `mvQueue, `driving, `level, `sqncIdx, mvmt
      ensures Awaited(outcome, Value()) == Ps2Link.AwaitMvmt(old(Value()), waits)
      ensures Valid()
    {
      var k := 0;
      while sqncIdx < 3
        invariant 0 <= k <= |waits| && sqncIdx + |waits| - k >= 3
        invariant Valid()
        invariant Ps2Link.AwaitMvmt(Value(), waits[k..]) == Ps2Link.AwaitMvmt(old(Value()), waits)
        decreases 3 - sqncIdx
      {
        assert waits[k..][0] == waits[k] && waits[k..][1..] == waits[k + 1..];
        Wait(waits[k]);
        var err := TakeByte();
        if err != Ok {
          return Failed(err);
        }
        k := k + 1;
      }
      outcome := FinishPacket();
    }
  }
}
