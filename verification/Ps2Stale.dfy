// Old responses. The response queue is never emptied, so a resynchronisation can take an old
// acknowledgement for the answer to its own command.
module Ps2Stale {
  import opened Errors
  import opened Ps2Frame
  import opened Ps2Deframer
  import opened Ps2Movement
  import opened Ps2Link
  import opened Ps2Runs
  import opened Ps2Sync

  // ---------------------------------------------------------------- how many responses can be queued

  // Responses queued, or still to come for a command that was sent.
  function Outstanding(l: Link): nat {
    |l.rx| + CountIf(l.mode in {Send, Recv})
  }

  lemma {:induction false} EdgesKeepOutstanding(l: Link, bits: seq<bool>)
    requires Inv(l)
    ensures Outstanding(Edges(l, bits)) <= Outstanding(l)
    decreases |bits|
  {
    if bits != [] {
      ConservationEdge(l, bits[0]);
      EdgesKeepOutstanding(Edge(l, bits[0]), bits[1..]);
    }
  }

  lemma CommandKeepsOutstanding(l: Link, cmd: bv8, env: CmdEnv)
    requires Inv(l) && l.unlocked && Outstanding(l) <= 1
    ensures SendCmd(l, cmd, env).link.unlocked && Outstanding(SendCmd(l, cmd, env).link) <= 1
  {
    hide Edge;
    var t := Transmit(l.(unlocked := false), cmd);
    EdgesKeepOutstanding(t, env.wait);
    EdgesKeepOutstanding(Step(Waiting(l, cmd, env), TakeResponse), env.late);
  }

  // Between commands there is at most one response, queued or to come.
  lemma SyncKeepsOutstanding(l: Link, env: SyncEnv)
    requires Inv(l) && l.unlocked && Outstanding(l) <= 1
    ensures MvmtSync(l, env).link.unlocked && Outstanding(MvmtSync(l, env).link) <= 1
  {
    hide SendCmd, Edges;
    CommandKeepsOutstanding(l, CMD_DATA_DISABLE, env.disable);
    var d := SendCmd(l, CMD_DATA_DISABLE, env.disable).link;
    EdgesKeepOutstanding(d, env.before);
    var s := Step(Edges(d, env.before), Restart);
    EdgesKeepOutstanding(s, env.pause);
    CommandKeepsOutstanding(Edges(s, env.pause), CMD_DATA_ENABLE, env.enable);
  }

  lemma {:induction false} AwaitKeepsOutstanding(l: Link, waits: seq<seq<bool>>)
    requires Inv(l) && l.asm.idx + |waits| >= 3 && l.unlocked && Outstanding(l) <= 1
    ensures AwaitMvmt(l, waits).link.unlocked && Outstanding(AwaitMvmt(l, waits).link) <= 1
    decreases 3 - l.asm.idx
  {
    hide Edges, Decode;
    if !Stuck(l.asm) {
      EdgesKeepOutstanding(l, waits[0]);
      var t := TakeByte(Edges(l, waits[0]));
      if t.err == Ok {
        AwaitKeepsOutstanding(t.link, waits[1..]);
      }
    }
  }

  // ---------------------------------------------------------------- a resynchronisation nobody answered

  // The device sent a response to both commands while each waited for it.
  predicate Answered(env: SyncEnv) {
    ResponseLength(env.disable.wait) > 0 && ResponseLength(env.enable.wait) > 0
  }

  predicate Acknowledged(env: SyncEnv) {
    Answered(env) && IsAck(ResponseFrame(env.disable.wait)) && IsAck(ResponseFrame(env.enable.wait))
  }

  // The queue holds an old acknowledgement, with nothing else behind it.
  predicate CanFake(l: Link) {
    l.rx != [] && IsAck(l.rx[0]) && (|l.rx| == 1 || IsAck(l.rx[1]))
  }

  // With an old response queued, that decides, whatever the line does.
  lemma StaleDecides(l: Link, cmd: bv8, env: CmdEnv)
    requires Inv(l) && l.unlocked && l.rx != []
    ensures var r := SendCmd(l, cmd, env);
            && (r.err == Ok <==> IsAck(l.rx[0])) && r.link.unlocked && l.rx[1..] <= r.link.rx
            && (env == CmdEnv([], []) ==> r.link.mode == Send)
  {
    hide Edge;
    EdgesOnlyQueue(Transmit(l.(unlocked := false), cmd), env.wait);
    EdgesOnlyQueue(Step(Waiting(l, cmd, env), TakeResponse), env.late);
  }

  lemma {:induction false} EdgesOnlyQueue(l: Link, bits: seq<bool>)
    requires Inv(l)
    ensures l.rx <= Edges(l, bits).rx
    decreases |bits|
  {
    if bits != [] {
      EdgesOnlyQueue(Edge(l, bits[0]), bits[1..]);
    }
  }

  // One old acknowledgement is enough: it answers the disable, whose own acknowledgement comes after
  // the wait and answers the enable. The enable is not sent yet, and the link is left sending.
  lemma OneStaleAckFakesSync(l: Link, late: seq<bool>)
    requires Inv(l) && l.unlocked && l.cap > 0
    requires |l.rx| == 1 && IsAck(l.rx[0])
    requires ResponseLength(late) > 0 && IsAck(ResponseFrame(late))
    ensures var r := MvmtSync(l, SyncEnv(CmdEnv([], late), [], [], CmdEnv([], [])));
            r.err == Ok && r.link.mode == Send
  {
    hide Deframe, Residue, Partial, Pack;
    var env := SyncEnv(CmdEnv([], late), [], [], CmdEnv([], []));
    LateResponseIsQueued(l, CMD_DATA_DISABLE, late);
    var d := SendCmd(l, CMD_DATA_DISABLE, env.disable).link;
    var s := Edges(Step(Edges(d, []), Restart), []);
    StaleDecides(l, CMD_DATA_DISABLE, env.disable);
    StaleDecides(s, CMD_DATA_ENABLE, env.enable);
  }

  lemma LateResponseIsQueued(l: Link, cmd: bv8, late: seq<bool>)
    requires Inv(l) && l.unlocked && l.cap > 0
    requires |l.rx| == 1 && ResponseLength(late) > 0
    ensures SendCmd(l, cmd, CmdEnv([], late)).link.rx == [ResponseFrame(late)]
  {
    hide Deframe, Residue, Partial, Pack;
    var locked := l.(unlocked := false, rx := []);
    assert Step(Waiting(l, cmd, CmdEnv([], late)), TakeResponse) == Transmit(locked, cmd);
    Exchange(locked, cmd, late);
  }

  // Main result: a successful resynchronisation means that the device acknowledged both of its
  // commands exactly when the response queue does not start with an old acknowledgement that is
  // alone or followed by another.
  lemma SyncIsAcknowledgedIff(l: Link)
    requires Inv(l) && l.unlocked && l.cap > 0
    ensures (forall env | MvmtSync(l, env).err == Ok :: Acknowledged(env)) <==> !CanFake(l)
    ensures (forall env | MvmtSync(l, env).err == Ok :: Answered(env)) <==> !CanFake(l)
  {
    hide MvmtSync;
    if CanFake(l) {
      var env := SyncEnv(CmdEnv([], if |l.rx| == 1 then AckBits() else []), [], [], CmdEnv([], []));
      if |l.rx| == 1 {
        OneStaleAckFakesSync(l, AckBits());
      } else {
        TwoStaleDecide(l, env);
      }
      assert MvmtSync(l, env).err == Ok && !Answered(env);
    } else {
      forall env | MvmtSync(l, env).err == Ok
        ensures Acknowledged(env)
      {
        if l.rx == [] {
          SyncWithoutStale(l, env);
        } else if |l.rx| == 1 {
          StaleDecidesSync(l, env);
        } else {
          TwoStaleDecide(l, env);
        }
      }
    }
  }

  lemma StaleDecidesSync(l: Link, env: SyncEnv)
    requires Inv(l) && l.unlocked && l.rx != []
    ensures MvmtSync(l, env).err == Ok ==> IsAck(l.rx[0])
  {
    hide SendCmd;
    StaleDecides(l, CMD_DATA_DISABLE, env.disable);
  }

  lemma TwoStaleDecide(l: Link, env: SyncEnv)
    requires Inv(l) && l.unlocked && |l.rx| >= 2
    ensures MvmtSync(l, env).err == Ok <==> IsAck(l.rx[0]) && IsAck(l.rx[1])
  {
    hide SendCmd;
    StaleDecides(l, CMD_DATA_DISABLE, env.disable);
    var d := SendCmd(l, CMD_DATA_DISABLE, env.disable).link;
    EdgesOnlyQueue(d, env.before);
    var s := Step(Edges(d, env.before), Restart);
    EdgesOnlyQueue(s, env.pause);
    StaleDecides(Edges(s, env.pause), CMD_DATA_ENABLE, env.enable);
  }

  lemma SyncWithoutStale(l: Link, env: SyncEnv)
    requires Inv(l) && l.unlocked && l.cap > 0 && l.rx == []
    ensures MvmtSync(l, env).err == Ok ==> Acknowledged(env)
  {
    hide SendCmd, Deframe, Residue, Partial, Pack;
    CommandSucceeds(l, CMD_DATA_DISABLE, env.disable);
    if MvmtSync(l, env).err == Ok {
      var d := SendCmd(l, CMD_DATA_DISABLE, env.disable).link;
      PauseFrames(d, env);
      CommandSucceeds(Edges(Step(Edges(d, env.before), Restart), env.pause), CMD_DATA_ENABLE, env.enable);
    }
  }

  // How one gets there: a command that times out leaves the link sending, or waiting for the response
  // if all twelve edges came, and when the device clocks later, its response is queued for the next
  // command.
  lemma TimedOutCommandLeavesResponse(l: Link, cmd: bv8, wait: seq<bool>, bits: seq<bool>)
    requires Inv(l) && l.unlocked && l.rx == [] && l.cap > 0
    requires ResponseLength(wait) == 0
    requires if |wait| < TX_EDGES then ResponseLength(bits) > 0 else CutLength(bits) > 0
    ensures var r := SendCmd(l, cmd, CmdEnv(wait, []));
            && r.err == Ps2RespTimeout
            && r.link.mode == (if |wait| < TX_EDGES then Send else Recv)
            && r.link.cap == l.cap && Edges(r.link, bits).unlocked
            && Edges(r.link, bits).rx == [if |wait| < TX_EDGES then ResponseFrame(bits) else CutFrame(bits)]
  {
    hide Deframe, Residue, Partial, Pack, CutFrame;
    Exchange(l.(unlocked := false), cmd, wait);
    NoEdges(Step(Waiting(l, cmd, CmdEnv(wait, [])), TakeResponse));
    if |wait| < TX_EDGES {
      StillSends(l, cmd, wait, bits);
    } else {
      StillWaits(SendCmd(l, cmd, CmdEnv(wait, [])).link, bits);
    }
  }

  // Fewer than twelve edges leave a zeroed frame to be sent.
  lemma StillSends(l: Link, cmd: bv8, wait: seq<bool>, bits: seq<bool>)
    requires Inv(l) && l.unlocked && l.rx == [] && l.cap > 0
    requires |wait| < TX_EDGES && ResponseLength(bits) > 0
    ensures var r := SendCmd(l, cmd, CmdEnv(wait, [])).link;
            r.mode == Send && Edges(r, bits).rx == [ResponseFrame(bits)]
  {
    hide Deframe, Residue, Partial, Pack, CutFrame;
    var t := Transmit(l.(unlocked := false), cmd);
    KeepsSending(t, cmd, 0, wait);
    NoEdges(Step(Waiting(l, cmd, CmdEnv(wait, [])), TakeResponse));
    var r := SendCmd(l, cmd, CmdEnv(wait, [])).link;
    var before := r.(driving := true);
    assert before == Transmit(before, 0);
    Exchange(before, 0, bits);
    DrivingDoesNotMatter(r, before, bits);
  }

  lemma {:induction false} DrivingDoesNotMatter(l: Link, m: Link, bits: seq<bool>)
    requires Inv(l) && m == l.(driving := m.driving)
    ensures Edges(m, bits).rx == Edges(l, bits).rx
    decreases |bits|
  {
    hide Edge, Inv;
    if bits != [] {
      DrivingThroughEdge(l, m, bits[0]);
      DrivingDoesNotMatter(Edge(l, bits[0]), Edge(m, bits[0]), bits[1..]);
    }
  }

  lemma DrivingThroughEdge(l: Link, m: Link, bit: bool)
    requires Inv(l) && m == l.(driving := m.driving)
    ensures Inv(m) && Edge(m, bit) == Edge(l, bit).(driving := Edge(m, bit).driving)
  {
    hide Accept;
  }

  lemma StillWaits(l: Link, bits: seq<bool>)
    requires Inv(l) && l.mode == Recv && l.inflight == ZERO && l.rx == [] && l.cap > 0
    requires CutLength(bits) > 0
    ensures Edges(l, bits).rx == [CutFrame(bits)]
  {
    hide Deframe, Residue, Pack, CutFrame;
    RecvEdges(l, [], bits);
    assert [] + bits == bits;
  }

  lemma NoEdges(l: Link)
    requires Inv(l)
    ensures Edges(l, []) == l
  {
  }
}
