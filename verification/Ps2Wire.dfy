// The line in numbers: which levels stand for which byte, which commands are sent, which answers
// are told apart, and what three received bytes mean.
module Ps2Wire {
  import opened Errors
  import opened Sequences
  import opened Ps2Frame
  import opened Ps2Deframer
  import opened Ps2Movement
  import opened Ps2Link
  import opened Ps2Runs
  import opened Ps2Sync
  import opened Ps2Stale

  // ---------------------------------------------------------------- the number a byte is

  lemma HalfOfByte(b: bv8)
    ensures b as int == (if b & 1 != 0 then 1 else 0) + 2 * ((b >> 1) as int)
  {
  }

  lemma BitOfHalf(b: bv8, k: nat)
    requires k < 7
    ensures Bit(b >> 1, k) == Bit(b, k + 1)
  {
  }

  function LowBits(b: bv8, n: nat): (bits: seq<bool>)
    requires n <= 8
    ensures |bits| == n
  {
    seq(n, k requires 0 <= k < n => Bit(b, k))
  }

  lemma HalvedBits(b: bv8, n: nat)
    requires 0 < n <= 8
    ensures LowBits(b, n)[1..] == LowBits(b >> 1, n - 1)
    ensures LowBits(b, n)[0] == (b & 1 != 0)
  {
    forall k | 0 <= k < n - 1
      ensures LowBits(b, n)[1..][k] == LowBits(b >> 1, n - 1)[k]
    {
      BitOfHalf(b, k);
    }
  }

  lemma {:induction false} LowBitsAreNumber(b: bv8, n: nat)
    requires n <= 8 && b as int < Pow2(n)
    ensures Unsigned(LowBits(b, n)) == b as int
    decreases n
  {
    hide LowBits, Bit;
    HalfOfByte(b);
    if n > 0 {
      HalvedBits(b, n);
      LowBitsAreNumber(b >> 1, n - 1);
    }
  }

  // Bit k of a byte counts for two to the k.
  lemma ValueIsNumber(b: bv8)
    ensures Value(b) == b as int
  {
    assert Pow2(8) == 256;
    assert DataBits(b) == LowBits(b, 8);
    LowBitsAreNumber(b, 8);
  }

  // ---------------------------------------------------------------- frames

  // The number that eight levels stand for, the first counting for one and the last for 128.
  function Number(d: seq<bool>): nat
    requires |d| == 8
  {
    CountIf(d[0]) + 2 * CountIf(d[1]) + 4 * CountIf(d[2]) + 8 * CountIf(d[3])
    + 16 * CountIf(d[4]) + 32 * CountIf(d[5]) + 64 * CountIf(d[6]) + 128 * CountIf(d[7])
  }

  function Highs(d: seq<bool>): nat
    requires |d| == 8
  {
    CountIf(d[0]) + CountIf(d[1]) + CountIf(d[2]) + CountIf(d[3])
    + CountIf(d[4]) + CountIf(d[5]) + CountIf(d[6]) + CountIf(d[7])
  }

  // The levels of a frame: start bit low, the eight data levels, a parity bit that makes the number
  // of high ones odd, stop bit high.
  function Wire(d: seq<bool>): (levels: seq<bool>)
    requires |d| == 8
    ensures |levels| == 11
  {
    [false] + d + [Highs(d) % 2 == 0, true]
  }

  lemma UnsignedOfFour(d: seq<bool>)
    requires |d| >= 4
    ensures Unsigned(d) ==
            CountIf(d[0]) + 2 * CountIf(d[1]) + 4 * CountIf(d[2]) + 8 * CountIf(d[3]) + 16 * Unsigned(d[4..])
    ensures Ones(d) == CountIf(d[0]) + CountIf(d[1]) + CountIf(d[2]) + CountIf(d[3]) + Ones(d[4..])
  {
    assert d[1..][1..] == d[2..] && d[2..][1..] == d[3..] && d[3..][1..] == d[4..];
    assert Unsigned(d[1..]) == CountIf(d[1]) + 2 * Unsigned(d[2..]) && Ones(d[1..]) == CountIf(d[1]) + Ones(d[2..]);
    assert Unsigned(d[2..]) == CountIf(d[2]) + 2 * Unsigned(d[3..]) && Ones(d[2..]) == CountIf(d[2]) + Ones(d[3..]);
    assert Unsigned(d[3..]) == CountIf(d[3]) + 2 * Unsigned(d[4..]) && Ones(d[3..]) == CountIf(d[3]) + Ones(d[4..]);
  }

  lemma NumberIsUnsigned(d: seq<bool>)
    requires |d| == 8
    ensures Unsigned(d) == Number(d) && Ones(d) == Highs(d)
  {
    hide Unsigned, Ones;
    UnsignedOfFour(d);
    UnsignedOfFour(d[4..]);
    assert d[4..][4..] == [];
    assert d[4..][0] == d[4] && d[4..][1] == d[5] && d[4..][2] == d[6] && d[4..][3] == d[7];
    NothingCounts();
  }

  lemma NothingCounts()
    ensures Unsigned([]) == 0 && Ones([]) == 0
  {
  }

  // The levels that stand for a byte's number are its bits.
  lemma LevelsAreBits(b: bv8, d: seq<bool>)
    requires |d| == 8 && Number(d) == b as int
    ensures d == DataBits(b)
  {
    hide Number, Unsigned, DataBits;
    NumberIsUnsigned(d);
    ValueIsNumber(b);
    BinaryUnsigned(d);
    BinaryUnsigned(DataBits(b));
  }

  lemma FrameOfNumber(b: bv8, d: seq<bool>)
    requires |d| == 8 && Number(d) == b as int
    ensures FrameBits(b) == Wire(d)
  {
    LevelsAreBits(b, d);
    NumberIsUnsigned(d);
    hide Number, Highs, Ones, Bit;
    forall k | 0 <= k < 11
      ensures FrameBits(b)[k] == Wire(d)[k]
    {
      if 1 <= k <= 8 {
        assert FrameBits(b)[k] == DataBits(b)[k - 1];
      }
    }
  }

  // Main result: the frame of a number is received as the byte that is that number.
  lemma ReceivesNumber(b: bv8, d: seq<bool>)
    requires |d| == 8 && Number(d) == b as int
    ensures Feed(ZERO, Wire(d)) == Fed([Frame(Ok, b, 11)], ZERO)
  {
    hide Feed, Wire, Number;
    FrameOfNumber(b, d);
    FeedsFrame(b);
  }

  // Main result: and that byte is sent as that frame.
  lemma SendsNumber(l: Link, b: bv8, d: seq<bool>, bits: seq<bool>)
    requires Inv(l) && |bits| == TX_EDGES
    requires |d| == 8 && Number(d) == b as int
    ensures Driven(Transmit(l, b), bits)[..11] == Wire(d)
  {
    hide Wire, Number;
    FrameOfNumber(b, d);
    TransmitsFrame(l, b, bits);
  }

  // ---------------------------------------------------------------- commands

  lemma {:induction false} LevelIsLastDriven(l: Link, bits: seq<bool>)
    requires Inv(l) && bits != []
    ensures Edges(l, bits).level == Driven(l, bits)[|bits| - 1]
    decreases |bits|
  {
    hide Edge;
    if |bits| > 1 {
      LevelIsLastDriven(Edge(l, bits[0]), bits[1..]);
    } else {
      assert bits[1..] == [];
    }
  }

  // After so many edges of a command the line is at that level of its frame, and the pin is an output
  // until the stop bit has been driven.
  lemma CommandOnTheLine(l: Link, cmd: bv8, d: seq<bool>, wait: seq<bool>)
    requires Inv(l) && l.unlocked && 0 < |wait| <= 11
    requires |d| == 8 && Number(d) == cmd as int
    ensures var r := SendCmd(l, cmd, CmdEnv(wait, [])).link;
            r.level == Wire(d)[|wait| - 1] && r.driving == (|wait| < 11)
  {
    hide Wire, Number, FrameBit, Edge;
    var t := Transmit(l.(unlocked := false), cmd);
    FrameOfNumber(cmd, d);
    assert Sending(t, cmd, 0);
    DrivesFrame(t, cmd, 0, wait);
    KeepsSending(t, cmd, 0, wait);
    LevelIsLastDriven(t, wait);
    NoEdges(Step(Waiting(l, cmd, CmdEnv(wait, [])), TakeResponse));
  }

  // F5 and F4 by their levels.
  const DISABLE_LEVELS := [true, false, true, false, true, true, true, true]
  const ENABLE_LEVELS := [false, false, true, false, true, true, true, true]

  // Main result: what a resynchronisation puts on the line first is F5, disable.
  lemma DisableOnTheLine(l: Link, env: SyncEnv)
    requires Inv(l) && l.unlocked && l.rx == []
    requires 0 < |env.disable.wait| <= 11 && env.disable.late == []
    ensures Number(DISABLE_LEVELS) == 0xF5
    ensures var r := MvmtSync(l, env);
            && r.err == Ps2RespTimeout
            && r.link.level == Wire(DISABLE_LEVELS)[|env.disable.wait| - 1]
            && r.link.driving == (|env.disable.wait| < 11)
  {
    hide SendCmd, Wire, Number;
    CommandNumbers();
    assert env.disable == CmdEnv(env.disable.wait, []);
    CommandOnTheLine(l, CMD_DATA_DISABLE, DISABLE_LEVELS, env.disable.wait);
    UnfinishedTimesOut(l, CMD_DATA_DISABLE, env.disable);
  }

  // Main result: and, once the device has acknowledged that, F4, enable.
  lemma EnableOnTheLine(l: Link, env: SyncEnv)
    requires Inv(l) && l.unlocked && l.rx == [] && l.cap > 0
    requires ResponseLength(env.disable.wait) > 0 && IsAck(ResponseFrame(env.disable.wait))
    requires 0 < |env.enable.wait| <= 11 && env.enable.late == []
    ensures Number(ENABLE_LEVELS) == 0xF4
    ensures var r := MvmtSync(l, env);
            && r.err == Ps2RespTimeout
            && r.link.level == Wire(ENABLE_LEVELS)[|env.enable.wait| - 1]
            && r.link.driving == (|env.enable.wait| < 11)
  {
    hide SendCmd, Wire, Number, Edges, MvmtSync, CutFrame, CutLength;
    CommandNumbers();
    var s := BeforeEnable(l, env);
    SyncGoesOn(l, env);
    assert env.enable == CmdEnv(env.enable.wait, []);
    CommandOnTheLine(s, CMD_DATA_ENABLE, ENABLE_LEVELS, env.enable.wait);
    UnfinishedTimesOut(s, CMD_DATA_ENABLE, env.enable);
  }

  lemma CommandNumbers()
    ensures Number(DISABLE_LEVELS) == 0xF5 == CMD_DATA_DISABLE as int
    ensures Number(ENABLE_LEVELS) == 0xF4 == CMD_DATA_ENABLE as int
  {
  }

  // The link when the enable is sent.
  function BeforeEnable(l: Link, env: SyncEnv): (s: Link)
    requires Inv(l)
    ensures Inv(s)
  {
    Edges(Step(Edges(SendCmd(l, CMD_DATA_DISABLE, env.disable).link, env.before), Restart), env.pause)
  }

  lemma SyncGoesOn(l: Link, env: SyncEnv)
    requires Inv(l) && l.unlocked && l.rx == [] && l.cap > 0
    requires ResponseLength(env.disable.wait) > 0 && IsAck(ResponseFrame(env.disable.wait))
    ensures var s := BeforeEnable(l, env);
            && s.unlocked && s.rx == []
            && var e := SendCmd(s, CMD_DATA_ENABLE, env.enable);
               e.err != Ok ==> MvmtSync(l, env) == e
  {
    hide SendCmd, Edges, Deframe, Residue, Partial, Pack, CutFrame;
    CutFrameLength(env.disable.wait[TX_EDGES..]);
    CommandSucceeds(l, CMD_DATA_DISABLE, env.disable);
    PauseFrames(SendCmd(l, CMD_DATA_DISABLE, env.disable).link, env);
  }

  lemma UnfinishedTimesOut(l: Link, cmd: bv8, env: CmdEnv)
    requires Inv(l) && l.unlocked && l.rx == [] && |env.wait| <= 11
    ensures SendCmd(l, cmd, env).err == Ps2RespTimeout
  {
    hide Edge;
    KeepsSending(Transmit(l.(unlocked := false), cmd), cmd, 0, env.wait);
  }

  function SentBytes(es: seq<Event>): seq<bv8> {
    if es == [] then [] else (if es[0].SendByte? then [es[0].byte] else []) + SentBytes(es[1..])
  }

  lemma {:induction false} SentBytesAppend(a: seq<Event>, b: seq<Event>)
    ensures SentBytes(a + b) == SentBytes(a) + SentBytes(b)
  {
    if a == [] {
      assert a + b == b;
    } else {
      assert (a + b)[1..] == a[1..] + b;
      SentBytesAppend(a[1..], b);
      Regroup(if a[0].SendByte? then [a[0].byte] else [], SentBytes(a[1..]), SentBytes(b));
    }
  }

  lemma {:induction false} ClocksSendNothing(bits: seq<bool>)
    ensures SentBytes(Clocks(bits)) == []
  {
    if bits != [] {
      assert Clocks(bits)[1..] == Clocks(bits[1..]);
      ClocksSendNothing(bits[1..]);
    }
  }

  lemma CommandSends(l: Link, cmd: bv8, env: CmdEnv)
    ensures SentBytes(CmdEvents(l, cmd, env)) == if l.unlocked then [cmd] else []
  {
    if l.unlocked {
      var last := Clocks(env.late) + [Cleanup];
      var rest := Clocks(env.wait) + ([TakeResponse] + last);
      SentBytesAppend([Lock], [SendByte(cmd)] + rest);
      SentBytesAppend([SendByte(cmd)], rest);
      SentBytesAppend(Clocks(env.wait), [TakeResponse] + last);
      SentBytesAppend([TakeResponse], last);
      SentBytesAppend(Clocks(env.late), [Cleanup]);
      ClocksSendNothing(env.wait);
      ClocksSendNothing(env.late);
    }
  }

  // Whatever the line does, a resynchronisation sends F5, and F4 after it once that succeeded.
  lemma SyncSends(l: Link, env: SyncEnv)
    requires Inv(l)
    ensures SentBytes(SyncEvents(l, env)) ==
            if !l.unlocked then [] else if SendCmd(l, 0xF5, env.disable).err != Ok then [0xF5] else [0xF5, 0xF4]
  {
    hide CmdEvents, SendCmd, Clocks, SentBytes;
    var d := SendCmd(l, CMD_DATA_DISABLE, env.disable);
    var first := CmdEvents(l, CMD_DATA_DISABLE, env.disable);
    CommandSends(l, CMD_DATA_DISABLE, env.disable);
    if d.err != Ok {
      assert first + [] == first;
    } else {
      LockedFails(l, CMD_DATA_DISABLE, env.disable);
      var s := Edges(Step(Edges(d.link, env.before), Restart), env.pause);
      var last := if SendCmd(s, CMD_DATA_ENABLE, env.enable).err != Ok then [] else [Unlock];
      var cmds := CmdEvents(s, CMD_DATA_ENABLE, env.enable);
      var rest := Clocks(env.before) + ([Restart] + (Clocks(env.pause) + (cmds + last)));
      CommandSends(s, CMD_DATA_ENABLE, env.enable);
      SentBytesAppend(first, rest);
      RestSends(env.before, env.pause, cmds, last);
    }
  }

  lemma RestSends(before: seq<bool>, pause: seq<bool>, cmds: seq<Event>, last: seq<Event>)
    requires last == [] || last == [Unlock]
    ensures SentBytes(Clocks(before) + ([Restart] + (Clocks(pause) + (cmds + last)))) == SentBytes(cmds)
  {
    hide Clocks, SentBytes;
    SentBytesAppend(Clocks(before), [Restart] + (Clocks(pause) + (cmds + last)));
    SentBytesAppend([Restart], Clocks(pause) + (cmds + last));
    SentBytesAppend(Clocks(pause), cmds + last);
    SentBytesAppend(cmds, last);
    ClocksSendNothing(before);
    ClocksSendNothing(pause);
    OthersSendNothing();
  }

  lemma OthersSendNothing()
    ensures SentBytes([]) == [] && SentBytes([Restart]) == [] && SentBytes([Unlock]) == []
  {
  }

  lemma LockedFails(l: Link, cmd: bv8, env: CmdEnv)
    requires Inv(l)
    ensures !l.unlocked ==> SendCmd(l, cmd, env) == Done(Ps2Timeout, l)
  {
  }

  // ---------------------------------------------------------------- answers

  // Main result: the answer of a device, by the number on the line after the twelve edges of the
  // command.
  lemma AnswerOnTheLine(l: Link, cmd: bv8, sending: seq<bool>, b: bv8, d: seq<bool>)
    requires Inv(l) && l.unlocked && l.rx == [] && l.cap > 0
    requires |sending| == TX_EDGES && |d| == 8 && Number(d) == b as int
    ensures SendCmd(l, cmd, CmdEnv(sending + Wire(d), [])).err ==
            if b as int == 250 then Ok else if b as int == 254 then Ps2Resend
            else if b as int == 252 then Ps2Error else Ps2NoAck
  {
    hide SendCmd, Wire, Number, Deframe, CutFrame, CutLength;
    var env := CmdEnv(sending + Wire(d), []);
    assert env.wait[TX_EDGES..] == Wire(d);
    FrameOfNumber(b, d);
    FrameIsCut(b);
    CommandSucceeds(l, cmd, env);
  }

  // ---------------------------------------------------------------- movements

  // Main result: a movement, from the levels of its three bytes: the button is the first of the first
  // byte, the always-one bit the fourth, and the fifth and sixth are worth minus 256.
  lemma DecodesLevels(bytes: seq<bv8>, h: seq<bool>, x: seq<bool>, y: seq<bool>)
    requires |bytes| == 3 && |h| == 8 && |x| == 8 && |y| == 8
    requires Number(h) == bytes[0] as int && Number(x) == bytes[1] as int && Number(y) == bytes[2] as int
    ensures AlwaysOne(bytes[0]) == h[3]
    ensures Decode(bytes) ==
            Movement(h[0], Number(x) - (if h[4] then 256 else 0), Number(y) - (if h[5] then 256 else 0))
  {
    hide Number, Value;
    LevelsAreBits(bytes[0], h);
    ValueIsNumber(bytes[1]);
    ValueIsNumber(bytes[2]);
    var b := bytes[0];
    assert h[0] == Bit(b, 0) && h[3] == Bit(b, 3) && h[4] == Bit(b, 4) && h[5] == Bit(b, 5);
    MaskedBits(b);
  }

  lemma MaskedBits(b: bv8)
    ensures Bit(b, 0) == (b & 0x01 != 0) && Bit(b, 3) == (b & 0x08 != 0)
    ensures Bit(b, 4) == (b & 0x10 != 0) && Bit(b, 5) == (b & 0x20 != 0)
  {
  }

  // ---------------------------------------------------------------- before the first command

  // Until a command is sent, nothing on the line is taken for anything.
  lemma {:induction false} IdleIgnoresLine(l: Link, bits: seq<bool>)
    requires Inv(l) && l.mode == Idle
    ensures Edges(l, bits) == l.(inflight := Edges(l, bits).inflight)
    decreases |bits|
  {
    if bits != [] {
      IdleIgnoresLine(Edge(l, bits[0]), bits[1..]);
    }
  }

  lemma NothingBeforeFirstCommand(cap: nat, bits: seq<bool>)
    ensures var l := Edges(Init(cap), bits);
            l.rx == [] && l.mv == [] && !l.driving && l.unlocked && l.asm.idx == 0
  {
    IdleIgnoresLine(Init(cap), bits);
  }
}
