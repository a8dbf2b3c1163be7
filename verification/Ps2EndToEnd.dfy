// From clock edges to movements: the interrupt and esk8_ps2_await_mvmt running side by side.
module Ps2EndToEnd {
  import opened Errors
  import opened Sequences
  import opened Ps2Frame
  import opened Ps2Deframer
  import opened Ps2Movement
  import opened Ps2Link
  import opened Ps2Sync

  // Runs made of edges and rounds of await_mvmt only.
  predicate Moving(es: seq<Event>) {
    forall e | e in es :: e.Clock? || e.Poll?
  }

  function Bits(es: seq<Event>): seq<bool> {
    if es == [] then [] else (if es[0].Clock? then [es[0].bit] else []) + Bits(es[1..])
  }

  // The task keeps up: no edge finds the movement queue full.
  predicate NeverFull(l: Link, es: seq<Event>)
    requires Inv(l)
    decreases |es|
  {
    es == [] || ((es[0].Clock? ==> |l.mv| < l.cap) && NeverFull(Step(l, es[0]), es[1..]))
  }

  // The movements returned, and the frames taken from the queue.
  function Delivered(l: Link, es: seq<Event>): seq<Movement>
    requires Inv(l)
    decreases |es|
  {
    if es == [] then []
    else
      var o := if es[0].Poll? then PollOnce(l).outcome else Pending;
      (if o.Moved? then [o.movement] else []) + Delivered(Step(l, es[0]), es[1..])
  }

  function Popped(l: Link, es: seq<Event>): seq<Frame>
    requires Inv(l)
    decreases |es|
  {
    if es == [] then []
    else
      (if es[0].Poll? && !Stuck(l.asm) && l.mv != [] then [l.mv[0]] else []) + Popped(Step(l, es[0]), es[1..])
  }

  lemma PollFacts(l: Link)
    requires Inv(l) && Resumable(l.asm)
    ensures var p := PollOnce(l);
            && p.link == Step(l, Poll)
            && if Stuck(l.asm) || l.mv == [] then !p.outcome.Moved? && p.link == l
               else
                 var (o, a) := TakeFrame(l.asm, l.mv[0]);
                 p == Awaited(o, l.(mv := l.mv[1..], asm := a))
  {
  }

  lemma ClockFacts(l: Link, bit: bool)
    requires Inv(l) && l.mode == Mvmt && |l.mv| < l.cap
    ensures var s := Step(l, Clock(bit));
            var g := Accept(l.inflight, bit);
            s == if Complete(g) then l.(inflight := ZERO, mv := l.mv + [g]) else l.(inflight := g)
  {
  }

  lemma OtherFacts(l: Link, e: Event)
    requires Inv(l) && e != Poll && e != Restart
    ensures Step(l, e).asm == l.asm && l.mv <= Step(l, e).mv
  {
    hide Accept;
  }

  // In every run without a restart, commands included, what was returned is what the assembler makes
  // of what was taken.
  lemma {:induction false} ReturnedIsAssembled(l: Link, es: seq<Event>)
    requires Inv(l) && Resumable(l.asm)
    requires Restart !in es
    ensures Delivered(l, es) == Assemble(l.asm, Popped(l, es))
    ensures Run(l, es).asm == Assembled(l.asm, Popped(l, es))
    decreases |es|
  {
    hide TakeFrame, PollOnce, Step;
    if es != [] {
      var s := Step(l, es[0]);
      var later := Popped(s, es[1..]);
      ReturnedIsAssembled(s, es[1..]);
      if es[0].Poll? {
        PollFacts(l);
        if !Stuck(l.asm) && l.mv != [] {
          assert Popped(l, es) == [l.mv[0]] + later;
          assert ([l.mv[0]] + later)[1..] == later;
        } else {
          assert Popped(l, es) == later;
        }
      } else {
        OtherFacts(l, es[0]);
        assert Popped(l, es) == later;
        assert Delivered(l, es) == Delivered(s, es[1..]);
      }
    }
  }

  // What was taken plus what is queued is what was queued plus what the line carried.
  predicate Conserves(l: Link, es: seq<Event>)
    requires Inv(l) && l.mode == Mvmt
  {
    var r := Run(l, es);
    var fed := Feed(l.inflight, Bits(es));
    r.mode == Mvmt && r.inflight == fed.rest && Popped(l, es) + r.mv == l.mv + fed.frames
  }

  lemma PollConserves(l: Link, later: seq<Event>)
    requires Inv(l) && Resumable(l.asm) && l.mode == Mvmt
    requires Conserves(Step(l, Poll), later)
    ensures Conserves(l, [Poll] + later)
  {
    hide TakeFrame, PollOnce, Edge, Feed, Run;
    var s := Step(l, Poll);
    var es := [Poll] + later;
    assert es[1..] == later;
    PollFacts(l);
    RunEvent(l, Poll, later);
    assert Bits(es) == Bits(later);
    if !Stuck(l.asm) && l.mv != [] {
      assert l.mv == [l.mv[0]] + s.mv;
      assert Popped(l, es) == [l.mv[0]] + Popped(s, later);
      Regroup([l.mv[0]], Popped(s, later), Run(l, es).mv);
      Regroup([l.mv[0]], s.mv, Feed(l.inflight, Bits(es)).frames);
    } else {
      assert Popped(l, es) == Popped(s, later);
    }
  }

  lemma ClockConserves(l: Link, bit: bool, later: seq<Event>)
    requires Inv(l) && l.mode == Mvmt && |l.mv| < l.cap
    requires Conserves(Step(l, Clock(bit)), later)
    ensures Conserves(l, [Clock(bit)] + later)
  {
    hide TakeFrame, PollOnce, Edge, Accept, Run;
    var s := Step(l, Clock(bit));
    var es := [Clock(bit)] + later;
    assert es[1..] == later;
    ClockFacts(l, bit);
    RunEvent(l, Clock(bit), later);
    assert Bits(es)[0] == bit && Bits(es)[1..] == Bits(later);
    assert Popped(l, es) == Popped(s, later);
    Regroup(l.mv, [Accept(l.inflight, bit)], Feed(s.inflight, Bits(later)).frames);
  }

  lemma {:induction false} QueueConserves(l: Link, es: seq<Event>)
    requires Inv(l) && Resumable(l.asm) && l.mode == Mvmt
    requires Moving(es) && NeverFull(l, es)
    ensures Conserves(l, es)
    decreases |es|
  {
    hide Conserves, Edge, PollOnce;
    if es == [] {
      NothingConserves(l);
    } else {
      var s := Step(l, es[0]);
      assert es == [es[0]] + es[1..];
      if es[0].Poll? {
        PollFacts(l);
        QueueConserves(s, es[1..]);
        PollConserves(l, es[1..]);
      } else {
        ClockFacts(l, es[0].bit);
        QueueConserves(s, es[1..]);
        ClockConserves(l, es[0].bit, es[1..]);
      }
    }
  }

  lemma NothingConserves(l: Link)
    requires Inv(l) && l.mode == Mvmt
    ensures Conserves(l, [])
  {
  }

  // Main result: the edges of whole movement packets, fed one at a time and interleaved in any
  // way with rounds of await_mvmt that keep the queue from filling, give at every moment a prefix
  // of exactly those movements, and all of them once all bits came and the queue is drained.
  lemma EndToEnd(l: Link, packets: seq<Packet>, es: seq<Event>)
    requires Inv(l) && Aligned(l)
    requires forall p | p in packets :: p.Valid()
    requires Moving(es) && NeverFull(l, es)
    requires Bits(es) <= Stream(AllBytes(packets))
    ensures Delivered(l, es) <= Movements(packets)
    ensures Bits(es) == Stream(AllBytes(packets)) && Run(l, es).mv == [] ==>
            Delivered(l, es) == Movements(packets) && Aligned(Run(l, es))
  {
    var bytes := AllBytes(packets);
    var whole := Stream(bytes);
    var popped := Popped(l, es);
    QueueConserves(l, es);
    ReturnedIsAssembled(l, es);
    FeedsStream(bytes);
    assert whole == Bits(es) + whole[|Bits(es)|..];
    FeedAppend(ZERO, Bits(es), whole[|Bits(es)|..]);
    var frames := Feed(ZERO, Bits(es)).frames;
    assert l.mv + frames == frames;
    assert popped <= frames <= GoodFrames(bytes);
    PrefixDelivered(l.asm, packets, popped);
    if Bits(es) == whole && Run(l, es).mv == [] {
      assert popped == GoodFrames(bytes);
      AssemblePackets(l.asm, packets);
    }
  }

  lemma PrefixDelivered(a: Assembler, packets: seq<Packet>, frames: seq<Frame>)
    requires Resumable(a) && a.idx == 0
    requires forall p | p in packets :: p.Valid()
    requires frames <= GoodFrames(AllBytes(packets))
    ensures Assemble(a, frames) <= Movements(packets)
  {
    AllBytesSplit(packets, 0);
    var k, r := |frames| / 3, |frames| % 3;
    assert frames == GoodFrames(AllBytes(packets))[..|frames|];
    if k < |packets| {
      AssemblePrefix(a, packets, k, r);
    } else {
      assert frames == GoodFrames(AllBytes(packets));
      AssemblePackets(a, packets);
    }
  }

  // The way the edges and the calls are interleaved, and where the calls time out, does not
  // matter: two runs over the same bits that both drain the queue return the same movements and
  // leave the assembler in the same state, on any bits and from any assembler state.
  lemma SplitsDoNotMatter(l: Link, es: seq<Event>, other: seq<Event>)
    requires Inv(l) && Resumable(l.asm) && l.mode == Mvmt
    requires Moving(es) && NeverFull(l, es) && Run(l, es).mv == []
    requires Moving(other) && NeverFull(l, other) && Run(l, other).mv == []
    requires Bits(es) == Bits(other)
    ensures Delivered(l, es) == Delivered(l, other)
    ensures Run(l, es).asm == Run(l, other).asm && Run(l, es).inflight == Run(l, other).inflight
  {
    QueueConserves(l, es);
    QueueConserves(l, other);
    ReturnedIsAssembled(l, es);
    ReturnedIsAssembled(l, other);
    assert Popped(l, es) + [] == Popped(l, es) && Popped(l, other) + [] == Popped(l, other);
  }

  // ---------------------------------------------------------------- calls of await_mvmt

  // The events of one call.
  function CallEvents(l: Link, waits: seq<seq<bool>>): seq<Event>
    requires Inv(l)
    requires l.asm.idx + |waits| >= 3
    decreases 3 - l.asm.idx
  {
    if Stuck(l.asm) then [Poll]
    else
      var t := TakeByte(Edges(l, waits[0]));
      Clocks(waits[0]) + ([Poll] + if t.err != Ok || Stuck(t.link.asm) then [] else CallEvents(t.link, waits[1..]))
  }

  // A call of await_mvmt is such a run, and returns the only movement of that run.
  lemma {:induction false} CallIsRun(l: Link, waits: seq<seq<bool>>)
    requires Inv(l)
    requires l.asm.idx + |waits| >= 3
    ensures var r := AwaitMvmt(l, waits);
            var es := CallEvents(l, waits);
            && !r.outcome.Pending? && Moving(es)
            && Run(l, es) == r.link
            && Delivered(l, es) == if r.outcome.Moved? then [r.outcome.movement] else []
    decreases 3 - l.asm.idx
  {
    hide Decode, Edge, Edges, Run, Delivered, Moving, Finish;
    if Stuck(l.asm) {
      OneRound(l, []);
      assert [Poll] + [] == [Poll];
    } else {
      var w := Edges(l, waits[0]);
      var t := TakeByte(w);
      var start := Clocks(waits[0]);
      var rest := if t.err != Ok || Stuck(t.link.asm) then [] else CallEvents(t.link, waits[1..]);
      RunClocks(l, waits[0]);
      RunAppend(l, start, [Poll] + rest);
      DeliveredClocks(l, waits[0], [Poll] + rest);
      OneRound(w, rest);
      if t.err == Ok && !Stuck(t.link.asm) {
        CallIsRun(t.link, waits[1..]);
      }
      MovingCall(waits[0], rest);
    }
  }

  lemma OneRound(l: Link, rest: seq<Event>)
    requires Inv(l)
    ensures var p := PollOnce(l);
            && Run(l, [Poll] + rest) == Run(p.link, rest)
            && Delivered(l, [Poll] + rest) ==
               (if p.outcome.Moved? then [p.outcome.movement] else []) + Delivered(p.link, rest)
    ensures rest == [] ==>
              && Run(PollOnce(l).link, rest) == PollOnce(l).link && Delivered(PollOnce(l).link, rest) == []
              && Moving([Poll])
  {
    hide PollOnce;
    assert ([Poll] + rest)[1..] == rest;
  }

  lemma MovingCall(bits: seq<bool>, rest: seq<Event>)
    ensures Moving(rest) || rest == [] ==> Moving(Clocks(bits) + ([Poll] + rest))
  {
  }

  lemma {:induction false} DeliveredClocks(l: Link, bits: seq<bool>, es: seq<Event>)
    requires Inv(l)
    ensures Delivered(l, Clocks(bits) + es) == Delivered(Edges(l, bits), es)
    decreases |bits|
  {
    if bits == [] {
      assert Clocks(bits) + es == es;
    } else {
      assert (Clocks(bits) + es)[1..] == Clocks(bits[1..]) + es;
      DeliveredClocks(Edge(l, bits[0]), bits[1..], es);
    }
  }

  lemma {:induction false} DeliveredAppend(l: Link, a: seq<Event>, b: seq<Event>)
    requires Inv(l)
    ensures Delivered(l, a + b) == Delivered(l, a) + Delivered(Run(l, a), b)
    decreases |a|
  {
    hide Step;
    if a == [] {
      assert a + b == b;
    } else {
      assert (a + b)[1..] == a[1..] + b;
      DeliveredAppend(Step(l, a[0]), a[1..], b);
    }
  }

  // ---------------------------------------------------------------- a lost packet boundary

  // A call that returns BAD_MVMT leaves three bytes behind, and from then on every round fails
  // the same way and touches nothing, until a resynchronisation restarts the assembler.
  lemma {:induction false} StuckUntilRestart(l: Link, es: seq<Event>)
    requires Inv(l) && Resumable(l.asm) && Stuck(l.asm)
    requires Restart !in es
    ensures Run(l, es).asm == l.asm
    ensures Delivered(l, es) == []
    ensures PollOnce(Run(l, es)) == Awaited(Failed(Ps2BadMvmt), Run(l, es))
    decreases |es|
  {
    hide Step, PollOnce, Run;
    StuckPoll(l);
    if es == [] {
      RunEvent(l, Poll, []);
    } else {
      var e, later := es[0], es[1..];
      assert Restart !in later && es == [e] + later;
      if !e.Poll? {
        OtherFacts(l, e);
      }
      RunEvent(l, e, later);
      StuckUntilRestart(Step(l, e), later);
    }
  }

  lemma StuckPoll(l: Link)
    requires Inv(l) && Resumable(l.asm) && Stuck(l.asm)
    ensures PollOnce(l) == Awaited(Failed(Ps2BadMvmt), l) && Step(l, Poll) == l
  {
    hide AlwaysOne;
  }

  // Errors that come from the line; BAD_MVMT is not one.
  predicate FromLine(frames: seq<Frame>) {
    forall f | f in frames :: f.err in {Ok, Ps2BadStart, Ps2BadParity, Ps2BadStop}
  }

  lemma {:induction false} EdgesKeepFromLine(l: Link, bits: seq<bool>)
    requires Inv(l) && FromLine(l.mv)
    ensures FromLine(Edges(l, bits).mv)
    decreases |bits|
  {
    if bits != [] {
      EdgesKeepFromLine(Edge(l, bits[0]), bits[1..]);
    }
  }

  // A call returns BAD_MVMT exactly when it leaves the assembler stuck.
  lemma {:induction false} BadMvmtMeansStuck(l: Link, waits: seq<seq<bool>>)
    requires Inv(l) && FromLine(l.mv)
    requires l.asm.idx + |waits| >= 3
    ensures var r := AwaitMvmt(l, waits);
            Resumable(r.link.asm) && FromLine(r.link.mv) && (r.outcome == Failed(Ps2BadMvmt) <==> Stuck(r.link.asm))
    decreases 3 - l.asm.idx
  {
    hide Edge, Decode;
    if !Stuck(l.asm) {
      EdgesKeepFromLine(l, waits[0]);
      var w := Edges(l, waits[0]);
      assert w.mv != [] ==> w.mv[0] in w.mv;
      var t := TakeByte(w);
      if t.err == Ok {
        BadMvmtMeansStuck(t.link, waits[1..]);
      }
    }
  }

  // A resynchronisation restarts the assembler exactly when its disable command succeeds.
  lemma SyncRestartsAssembler(l: Link, env: SyncEnv)
    requires Inv(l)
    ensures var r := MvmtSync(l, env).link;
            if SendCmd(l, CMD_DATA_DISABLE, env.disable).err == Ok then r.asm == l.asm.(idx := 0)
            else r.asm == l.asm
  {
    hide SendCmd, Edges;
  }
}
