// What a call of await_mvmt returns, from what arrived before each of its receives, and when the
// link can return a movement at all.
module Ps2Calls {
  import opened Errors
  import opened Sequences
  import opened Ps2Frame
  import opened Ps2Deframer
  import opened Ps2Movement
  import opened Ps2Link
  import opened Ps2Sync
  import opened Ps2EndToEnd

  // ---------------------------------------------------------------- the outcome of a call

  // The frames in the queue at the i-th receive of a call, with those the call has taken before it.
  function Arrived(l: Link, waits: seq<seq<bool>>, i: nat): seq<Frame>
    requires Inv(l) && l.mode == Mvmt && i < |waits|
  {
    l.mv + Feed(l.inflight, Flatten(waits[..i + 1])).frames
  }

  // The i-th receive finds an intact byte.
  predicate Supplied(l: Link, waits: seq<seq<bool>>, i: nat)
    requires Inv(l) && l.mode == Mvmt && i < |waits|
  {
    var frames := Arrived(l, waits, i);
    i < |frames| && frames[i].err == Ok
  }

  function ByteAt(l: Link, waits: seq<seq<bool>>, i: nat): bv8
    requires Inv(l) && l.mode == Mvmt && i < |waits|
    requires Supplied(l, waits, i)
  {
    Arrived(l, waits, i)[i].byte
  }

  predicate SuppliedUpTo(l: Link, waits: seq<seq<bool>>, n: nat)
    requires Inv(l) && l.mode == Mvmt && n <= |waits|
  {
    forall i | 0 <= i < n :: Supplied(l, waits, i)
  }

  // No receive that the call gets to comes too late for the queue.
  predicate Roomy(l: Link, waits: seq<seq<bool>>, n: nat)
    requires Inv(l) && l.mode == Mvmt && n <= |waits|
  {
    forall i | 0 <= i < n && SuppliedUpTo(l, waits, i) :: |Arrived(l, waits, i)| <= l.cap + i
  }

  // The packet, once every receive is supplied.
  function Filled(l: Link, waits: seq<seq<bool>>, n: nat): (bytes: seq<bv8>)
    requires Inv(l) && l.mode == Mvmt && n <= |waits| && l.asm.idx + n == 3
    requires SuppliedUpTo(l, waits, n)
    ensures |bytes| == 3
  {
    l.asm.mvmt[..l.asm.idx] + seq(n, i requires 0 <= i < n && Supplied(l, waits, i) => ByteAt(l, waits, i))
  }

  // The first receive that is not supplied, and what it returns.
  predicate FailsAt(l: Link, waits: seq<seq<bool>>, i: nat, err: Err)
    requires Inv(l) && l.mode == Mvmt && i < |waits|
  {
    var frames := Arrived(l, waits, i);
    && SuppliedUpTo(l, waits, i) && !Supplied(l, waits, i)
    && err == if i < |frames| then frames[i].err else Ps2Timeout
  }

  // The first wait of a call.
  lemma FirstWait(l: Link, waits: seq<seq<bool>>)
    requires Inv(l) && l.mode == Mvmt && waits != []
    requires |Arrived(l, waits, 0)| <= l.cap
    ensures Edges(l, waits[0]) == l.(mv := Arrived(l, waits, 0), inflight := Feed(l.inflight, waits[0]).rest)
  {
    assert Flatten(waits[..1]) == waits[0] by {
      assert waits[..1][1..] == [] && waits[..1][0] == waits[0];
      assert waits[0] + [] == waits[0];
    }
    MvmtEdges(l, waits[0]);
    PushAllFits(l.mv, Feed(l.inflight, waits[0]).frames, l.cap);
  }

  // The link after a first receive that was supplied.
  function Next(l: Link, waits: seq<seq<bool>>): (t: Link)
    requires Inv(l) && l.mode == Mvmt && waits != [] && !Stuck(l.asm)
    requires Supplied(l, waits, 0) && |Arrived(l, waits, 0)| <= l.cap
    ensures Inv(t)
  {
    var frames := Arrived(l, waits, 0);
    l.(mv := frames[1..], inflight := Feed(l.inflight, waits[0]).rest, asm := Store(l.asm, frames[0].byte))
  }

  lemma FirstReceive(l: Link, waits: seq<seq<bool>>)
    requires Inv(l) && l.mode == Mvmt && waits != [] && !Stuck(l.asm)
    requires |Arrived(l, waits, 0)| <= l.cap
    ensures var t := TakeByte(Edges(l, waits[0]));
            if Supplied(l, waits, 0) then t == Done(Ok, Next(l, waits))
            else t.err != Ok && FailsAt(l, waits, 0, t.err)
  {
    hide Arrived, Edges;
    FirstWait(l, waits);
    var w := Edges(l, waits[0]);
    assert w.mv == Arrived(l, waits, 0);
    assert TakeByte(w).err == Ok <==> Supplied(l, waits, 0);
    assert SuppliedUpTo(l, waits, 0);
  }

  // What arrives in the rest of the call arrives in the call.
  lemma ArrivedLater(l: Link, waits: seq<seq<bool>>, i: nat)
    requires Inv(l) && l.mode == Mvmt && waits != [] && !Stuck(l.asm)
    requires Supplied(l, waits, 0) && |Arrived(l, waits, 0)| <= l.cap
    requires i + 1 < |waits|
    ensures [Arrived(l, waits, 0)[0]] + Arrived(Next(l, waits), waits[1..], i) == Arrived(l, waits, i + 1)
    ensures Supplied(Next(l, waits), waits[1..], i) == Supplied(l, waits, i + 1)
  {
    hide Accept;
    var head := waits[..i + 2];
    var first, more := waits[0], Flatten(waits[1..][..i + 1]);
    assert head[1..] == waits[1..][..i + 1] && head[0] == first;
    assert Flatten(head) == first + more;
    assert Flatten(waits[..1]) == first by {
      assert waits[..1][1..] == [] && waits[..1][0] == first;
      assert first + [] == first;
    }
    FeedAppend(l.inflight, first, more);
    var a := Arrived(l, waits, 0);
    assert a == [a[0]] + a[1..];
    Regroup(l.mv, Feed(l.inflight, first).frames, Feed(Feed(l.inflight, first).rest, more).frames);
    Regroup([a[0]], a[1..], Feed(Feed(l.inflight, first).rest, more).frames);
  }

  lemma RestOfCall(l: Link, waits: seq<seq<bool>>, n: nat)
    requires Inv(l) && l.mode == Mvmt && 0 < n <= |waits| && !Stuck(l.asm)
    requires Supplied(l, waits, 0) && |Arrived(l, waits, 0)| <= l.cap
    ensures SuppliedUpTo(Next(l, waits), waits[1..], n - 1) == SuppliedUpTo(l, waits, n)
  {
    hide Supplied, Arrived;
    forall i | 0 <= i < n - 1
      ensures Supplied(Next(l, waits), waits[1..], i) == Supplied(l, waits, i + 1)
    {
      ArrivedLater(l, waits, i);
    }
    if SuppliedUpTo(Next(l, waits), waits[1..], n - 1) {
      forall i | 0 <= i < n
        ensures Supplied(l, waits, i)
      {
        if i > 0 {
          assert Supplied(Next(l, waits), waits[1..], i - 1);
        }
      }
    }
  }

  lemma RestIsRoomy(l: Link, waits: seq<seq<bool>>, n: nat)
    requires Inv(l) && l.mode == Mvmt && 0 < n <= |waits| && !Stuck(l.asm)
    requires Supplied(l, waits, 0) && |Arrived(l, waits, 0)| <= l.cap
    requires Roomy(l, waits, n)
    ensures Roomy(Next(l, waits), waits[1..], n - 1)
  {
    hide Supplied, Arrived, SuppliedUpTo;
    var t := Next(l, waits);
    forall i | 0 <= i < n - 1 && SuppliedUpTo(t, waits[1..], i)
      ensures |Arrived(t, waits[1..], i)| <= t.cap + i
    {
      ArrivedLater(l, waits, i);
      RestOfCall(l, waits, i + 1);
      assert SuppliedUpTo(l, waits, i + 1);
    }
  }

  // Main result: what a call returns, from what arrived before each of its receives. With every
  // receive supplied it is the end of the packet; otherwise the first one that is not decides.
  lemma {:induction false} CallOutcome(l: Link, waits: seq<seq<bool>>, n: nat)
    requires Inv(l) && l.mode == Mvmt && l.asm.idx + n == 3 && n <= |waits|
    requires Roomy(l, waits, n)
    ensures var o := AwaitMvmt(l, waits).outcome;
            if SuppliedUpTo(l, waits, n) then o == Finish(Assembler(3, Filled(l, waits, n))).0
            else o.Failed? && exists i | 0 <= i < n :: FailsAt(l, waits, i, o.err)
    decreases n
  {
    hide Decode, Finish, Arrived, Edges;
    if n == 0 {
      assert Filled(l, waits, n) == l.asm.mvmt;
    } else {
      assert SuppliedUpTo(l, waits, 0);
      FirstReceive(l, waits);
      if Supplied(l, waits, 0) {
        var t := Next(l, waits);
        RestIsRoomy(l, waits, n);
        RestOfCall(l, waits, n);
        CallOutcome(t, waits[1..], n - 1);
        if SuppliedUpTo(l, waits, n) {
          FilledLater(l, waits, n);
        } else {
          var err := AwaitMvmt(t, waits[1..]).outcome.err;
          var i :| 0 <= i < n - 1 && FailsAt(t, waits[1..], i, err);
          FailsLater(l, waits, i, err);
        }
      }
    }
  }

  lemma FilledLater(l: Link, waits: seq<seq<bool>>, n: nat)
    requires Inv(l) && l.mode == Mvmt && l.asm.idx + n == 3 && 0 < n <= |waits|
    requires Supplied(l, waits, 0) && |Arrived(l, waits, 0)| <= l.cap
    requires SuppliedUpTo(l, waits, n) && SuppliedUpTo(Next(l, waits), waits[1..], n - 1)
    ensures Filled(Next(l, waits), waits[1..], n - 1) == Filled(l, waits, n)
  {
    hide Arrived;
    var t := Next(l, waits);
    forall i | 0 <= i < n - 1
      ensures ByteAt(t, waits[1..], i) == ByteAt(l, waits, i + 1)
    {
      ArrivedLater(l, waits, i);
    }
    var bytes := seq(n, i requires 0 <= i < n && Supplied(l, waits, i) => ByteAt(l, waits, i));
    assert bytes == [bytes[0]] +
      seq(n - 1, i requires 0 <= i < n - 1 && Supplied(t, waits[1..], i) => ByteAt(t, waits[1..], i));
    assert t.asm.mvmt[..t.asm.idx] == l.asm.mvmt[..l.asm.idx] + [bytes[0]];
  }

  lemma FailsLater(l: Link, waits: seq<seq<bool>>, i: nat, err: Err)
    requires Inv(l) && l.mode == Mvmt && !Stuck(l.asm) && i + 1 < |waits|
    requires Supplied(l, waits, 0) && |Arrived(l, waits, 0)| <= l.cap
    requires FailsAt(Next(l, waits), waits[1..], i, err)
    ensures FailsAt(l, waits, i + 1, err)
  {
    hide Arrived;
    ArrivedLater(l, waits, i);
    RestOfCall(l, waits, i + 1);
  }

  lemma {:induction false} FeedFromLine(f: Frame, bits: seq<bool>)
    requires f.idx <= 10 && f.err == Ok
    ensures FromLine(Feed(f, bits).frames)
    decreases |bits|
  {
    if bits != [] {
      var g := Accept(f, bits[0]);
      FeedFromLine(if Complete(g) then ZERO else g, bits[1..]);
    }
  }

  // Exactly when a call returns a movement, and exactly when it loses the packet boundary, before
  // the call: every receive finds an intact byte, and the first byte of the packet decides.
  lemma CallReturnsIff(l: Link, waits: seq<seq<bool>>, n: nat)
    requires Inv(l) && l.mode == Mvmt && l.asm.idx + n == 3 && n <= |waits|
    requires Roomy(l, waits, n) && FromLine(l.mv)
    ensures var o := AwaitMvmt(l, waits).outcome;
            && (o.Moved? <==> SuppliedUpTo(l, waits, n) && AlwaysOne(Filled(l, waits, n)[0]))
            && (o == Failed(Ps2BadMvmt) <==> SuppliedUpTo(l, waits, n) && !AlwaysOne(Filled(l, waits, n)[0]))
            && (o.Moved? ==> o.movement == Decode(Filled(l, waits, n)))
  {
    hide Decode, AwaitMvmt, Feed;
    CallOutcome(l, waits, n);
    if !SuppliedUpTo(l, waits, n) {
      var err := AwaitMvmt(l, waits).outcome.err;
      var i :| 0 <= i < n && FailsAt(l, waits, i, err);
      FeedFromLine(l.inflight, Flatten(waits[..i + 1]));
      if i < |Arrived(l, waits, i)| {
        assert Arrived(l, waits, i)[i] in Arrived(l, waits, i);
      }
    }
  }

  // ---------------------------------------------------------------- whether a movement can still come

  // Once the queue is worked off: a movement was returned, or the assembler is not doomed.
  predicate Deliverable(l: Link)
    requires Inv(l) && Resumable(l.asm)
  {
    Assemble(l.asm, l.mv) != [] || !Doomed(Assembled(l.asm, l.mv))
  }

  lemma {:induction false} QueueTakenFirst(l: Link, es: seq<Event>)
    requires Inv(l) && Resumable(l.asm) && Restart !in es
    ensures l.mv <= Popped(l, es) + Run(l, es).mv
    decreases |es|
  {
    hide TakeFrame, PollOnce, Step, Run;
    if es == [] {
      RunEvent(l, Poll, []);
    } else {
      var s, later := Step(l, es[0]), es[1..];
      QueueTakenFirst(s, later);
      assert es == [es[0]] + later;
      RunEvent(l, es[0], later);
      if !es[0].Poll? {
        OtherFacts(l, es[0]);
      } else {
        PollFacts(l);
        if !Stuck(l.asm) && l.mv != [] {
          Regroup([l.mv[0]], Popped(s, later), Run(l, es).mv);
        }
      }
    }
  }

  lemma NothingDelivered(l: Link, es: seq<Event>)
    requires Inv(l) && Resumable(l.asm) && Restart !in es
    requires !Deliverable(l)
    ensures Delivered(l, es) == []
  {
    hide Assemble, Assembled, Doomed, Run, Popped, Delivered;
    QueueTakenFirst(l, es);
    ReturnedIsAssembled(l, es);
    var popped := Popped(l, es);
    if |popped| <= |l.mv| {
      assert l.mv == popped + l.mv[|popped|..];
      AssembleAppend(l.asm, popped, l.mv[|popped|..]);
    } else {
      assert popped == l.mv + popped[|l.mv|..];
      AssembleAppend(l.asm, l.mv, popped[|l.mv|..]);
      DoomedForever(Assembled(l.asm, l.mv), popped[|l.mv|..]);
    }
  }

  function Polls(n: nat): (es: seq<Event>)
    ensures Restart !in es
  {
    if n == 0 then [] else [Poll] + Polls(n - 1)
  }

  lemma {:induction false} Drains(l: Link)
    requires Inv(l) && Resumable(l.asm)
    ensures var es := Polls(|l.mv|);
            && Delivered(l, es) == Assemble(l.asm, l.mv)
            && (!Stuck(Assembled(l.asm, l.mv)) ==> Run(l, es) == l.(mv := [], asm := Assembled(l.asm, l.mv)))
    decreases |l.mv|
  {
    hide TakeFrame, PollOnce, Step;
    var es := Polls(|l.mv|);
    if Stuck(l.asm) {
      StuckUntilRestart(l, es);
    } else if l.mv != [] {
      PollFacts(l);
      assert es[1..] == Polls(|l.mv| - 1);
      Drains(Step(l, Poll));
    }
  }

  // A byte at a time, each taken at once.
  function FeedEvents(bytes: seq<bv8>): (es: seq<Event>)
    ensures Restart !in es
  {
    if bytes == [] then [] else Clocks(FrameBits(bytes[0])) + ([Poll] + FeedEvents(bytes[1..]))
  }

  predicate Listening(l: Link) {
    l.mode == Mvmt && l.inflight == ZERO && l.mv == [] && l.cap > 0
  }

  lemma {:induction false} Feeds(l: Link, bytes: seq<bv8>)
    requires Inv(l) && Resumable(l.asm) && Listening(l)
    ensures Delivered(l, FeedEvents(bytes)) == Assemble(l.asm, GoodFrames(bytes))
    decreases |bytes|
  {
    hide TakeFrame, PollOnce, Step, FrameBits, Edges, Feed, TakeByte, Clocks, Deframe, Residue, AlwaysOne;
    if Stuck(l.asm) {
      StuckUntilRestart(l, FeedEvents(bytes));
    } else if bytes != [] {
      var f := Frame(Ok, bytes[0], 11);
      var more := [Poll] + FeedEvents(bytes[1..]);
      FeedsFrame(bytes[0]);
      MvmtEdges(l, FrameBits(bytes[0]));
      PushAllFits([], [f], l.cap);
      var w := Edges(l, FrameBits(bytes[0]));
      assert w == l.(mv := [f]);
      DeliveredClocks(l, FrameBits(bytes[0]), more);
      PollFacts(w);
      assert more[1..] == FeedEvents(bytes[1..]);
      Feeds(Step(w, Poll), bytes[1..]);
      assert GoodFrames(bytes)[1..] == GoodFrames(bytes[1..]);
    }
  }

  // A command and its acknowledgement bring the link to listening from any state.
  lemma Opens(l: Link, more: seq<Event>)
    requires Inv(l)
    ensures var m := Edges(Transmit(l, 0), AckBits());
            && m.mode == Mvmt && m.inflight == ZERO && m.mv == l.mv && m.asm == l.asm
            && Delivered(l, [SendByte(0)] + (Clocks(AckBits()) + more)) == Delivered(m, more)
  {
    hide Edges, AckBits, Clocks;
    var es := [SendByte(0)] + (Clocks(AckBits()) + more);
    assert es[1..] == Clocks(AckBits()) + more;
    Listens(l);
    DeliveredClocks(Transmit(l, 0), AckBits(), more);
  }

  lemma Listens(l: Link)
    requires Inv(l)
    ensures var m := Edges(Transmit(l, 0), AckBits());
            m.mode == Mvmt && m.inflight == ZERO && m.mv == l.mv && m.asm == l.asm
  {
    hide Edges, AckBits, CutFrame, CutLength, Deframe, Residue, AfterResponse, ResponseFrame;
    Exchange(l, 0, AckBits());
    DeframeNothing([]);
    ResidueOfNothing();
  }

  // Main result: exactly when some run without a restart, whatever commands it sends and whatever
  // the line carries, can still return a movement.
  lemma CanDeliverIff(l: Link)
    requires Inv(l) && Resumable(l.asm) && l.cap > 0
    ensures (exists es :: Restart !in es && Delivered(l, es) != []) <==> Deliverable(l)
  {
    hide Delivered, Assemble, Assembled, Doomed, Run;
    if Deliverable(l) {
      SomethingDelivered(l);
    } else {
      forall es | Restart !in es
        ensures Delivered(l, es) == []
      {
        NothingDelivered(l, es);
      }
    }
  }

  lemma SomethingDelivered(l: Link)
    requires Inv(l) && Resumable(l.asm) && l.cap > 0
    requires Deliverable(l)
    ensures exists es :: Restart !in es && Delivered(l, es) != []
  {
    hide Delivered, Assemble, Assembled, Run;
    var drain := Polls(|l.mv|);
    Drains(l);
    if Assemble(l.asm, l.mv) == [] {
      var d := Run(l, drain);
      var rest := OpenAndDeliver(d);
      DeliveredAppend(l, drain, rest);
      assert Restart !in drain + rest;
    }
  }

  lemma OpenAndDeliver(d: Link) returns (es: seq<Event>)
    requires Inv(d) && Resumable(d.asm) && d.cap > 0
    requires d.mv == [] && !Doomed(d.asm)
    ensures Restart !in es && Delivered(d, es) != []
  {
    hide Delivered, Assemble, Assembled, Run, Edges, AckBits, Doomed;
    CanAssembleIff(d.asm);
    var bytes :| Assemble(d.asm, GoodFrames(bytes)) != [];
    var feed := FeedEvents(bytes);
    es := [SendByte(0)] + (Clocks(AckBits()) + feed);
    Opens(d, feed);
    Feeds(Edges(Transmit(d, 0), AckBits()), bytes);
  }
}
