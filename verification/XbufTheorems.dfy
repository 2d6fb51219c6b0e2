/** What the shared buffer promises in every run, and where the code falls short of it. */
module XbufTheorems {
  import opened Bytes
  import opened Xbuf
  import opened XbufSafety
  import opened XbufInvariant
  import opened XbufSteps

  // ----- every run keeps the invariant -----

  lemma BeginInv(st: State, i: nat, request: seq<Byte>)
    requires Inv(st) && i < |st.clients|
    ensures Inv(Begun(st, i, request))
  {
    hide Exchange;
    var st' := Begun(st, i, request);
    if st.clients[i].pc == CIdle {
      assert ClientOk(st, i);
      forall j | 0 <= j < |st.clients| ensures ClientOk(st', j) {
        assert ClientOk(st, j);
      }
      if st.x.flags.pending && st.x.flags.ready {
        var k :| 0 <= k < |st.clients| && Engaged(st.clients[k].pc);
        assert st'.clients[k] == st.clients[k];
      }
    }
  }

  lemma DisabledTransfer(x: Buffer, y: Buffer, s: Sender, got: nat, r: Receiver, msg: seq<Byte>)
    requires y == x.(flags := x.flags.(ready := false))
    ensures SenderOk(x, s, got) ==> SenderOk(y, s, got)
    ensures ReceiverOk(x, r, msg) ==> ReceiverOk(y, r, msg)
  {
  }

  lemma DisabledExchange(x: Buffer, y: Buffer, v: Server, c: Client)
    requires y == x.(flags := x.flags.(ready := false)) && Exchange(x, v, c)
    ensures Exchange(y, v, c)
  {
    hide Counted, Holds, SenderOk, ReceiverOk;
    DisabledTransfer(x, y, c.snd, 0, v.thread.rcv, c.snd.msg);
    DisabledTransfer(x, y, c.snd, v.thread.rcv.read, c.rcv, v.thread.snd.msg);
    DisabledTransfer(x, y, v.thread.snd, Taken(c), c.rcv, v.thread.snd.msg);
    DisabledTransfer(x, y, v.thread.snd, 0, c.rcv, v.thread.snd.msg);
  }

  lemma DisableInv(st: State)
    requires Inv(st)
    ensures Inv(st.(x := st.x.(flags := st.x.flags.(ready := false))))
  {
    var st' := st.(x := st.x.(flags := st.x.flags.(ready := false)));
    forall i | 0 <= i < |st.clients| ensures ClientOk(st', i) {
      assert ClientOk(st, i);
      if Engaged(st.clients[i].pc) {
        DisabledExchange(st.x, st'.x, st.server, st.clients[i]);
      }
    }
  }

  /** Clients may come and go, the buffer may be disabled at any moment, and any party may move next. */
  lemma StepInv(serve: Oracle, st: State, e: Event)
    requires Inv(st)
    ensures Inv(Step(serve, st, e))
  {
    match e
    case Begin(i, request) => if i < |st.clients| { BeginInv(st, i, request); }
    case ClientRun(i) =>
      if i < |st.clients| {
        if st.clients[i].pc == CFinalReset { FinishInv(st, i); }
        else if Engaged(st.clients[i].pc) { OwnerInv(st, i); }
        else if st.clients[i].pc == CRaise { RaiseInv(st, i); }
        else { BystanderInv(st, i); }
      }
    case IrqRun => IrqInv(st);
    case ThreadRun => ThreadInv(serve, st);
    case Disable => DisableInv(st);
  }

  lemma {:induction false} RunInv(serve: Oracle, st: State, es: seq<Event>)
    requires Inv(st)
    ensures Inv(Run(serve, st, es))
    decreases |es|
  {
    if es != [] {
      StepInv(serve, st, es[0]);
      RunInv(serve, Step(serve, st, es[0]), es[1..]);
    }
  }

  /** A state some run from an initial state ends in. */
  ghost predicate Reachable(serve: Oracle, st: State) {
    exists st0: State, es: seq<Event> :: Init(st0) && Run(serve, st0, es) == st
  }

  lemma ReachableInv(serve: Oracle, st: State)
    requires Reachable(serve, st)
    ensures Inv(st)
  {
    var st0: State, es: seq<Event> :| Init(st0) && Run(serve, st0, es) == st;
    InitInv(st0);
    RunInv(serve, st0, es);
  }

  // ----- exclusion -----

  /** With any number of competing clients and a disable at any time, one owner at most, and one activation a message. */
  lemma OneOwnerOneActivation(serve: Oracle, st: State, i: nat, j: nat)
    requires Reachable(serve, st) && i < |st.clients| && j < |st.clients|
    ensures Engaged(st.clients[i].pc) && Engaged(st.clients[j].pc) ==> i == j
    ensures st.acquired == st.activated + if st.x.flags.pending && !st.x.flags.active then 1 else 0
  {
    ReachableInv(serve, st);
  }

  predicate ClientCopies(st: State, i: nat)
    requires i < |st.clients|
  {
    var c := st.clients[i];
    (c.pc in {CStage, CSend} && c.snd.pc.SCopy?) || (c.pc == CRecv && c.rcv.pc.RCopy?)
  }

  predicate ThreadCopies(st: State) {
    var t := st.server.thread;
    (t.pc in {TStage, TSend} && t.snd.pc.SCopy?) || (t.pc == TRecv && t.rcv.pc.RCopy?)
  }

  /** No copy overlaps another, but for one case: a disable cut the server's receive after a part of the request, and
      the server copies its answer while the client copies the next chunk.  So a request of one chunk is always safe. */
  lemma CopiesAreExclusive(serve: Oracle, st: State, i: nat)
    requires Reachable(serve, st) && i < |st.clients| && ClientCopies(st, i)
    ensures ThreadCopies(st) ==>
              && !st.x.flags.ready && Cut(st.server.thread) && st.server.thread.pc == TStage
              && Part(|st.x.data|, st.clients[i].snd.msg, st.server.thread.rcv.buf)
              && |st.clients[i].snd.msg| > |st.x.data|
    ensures forall j :: 0 <= j < |st.clients| && ClientCopies(st, j) ==> i == j
  {
    ReachableInv(serve, st);
    assert ClientOk(st, i);
    assert Engaged(st.clients[i].pc);
    if ThreadCopies(st) {
      OverlapIsCut(st, i);
      CutIsPart(st.x, st.clients[i], st.server.thread.rcv);
      PartIsShort(|st.x.data|, st.clients[i].snd.msg, st.server.thread.rcv.buf);
    }
  }

  lemma OverlapIsCut(st: State, i: nat)
    requires Inv(st) && i < |st.clients| && ClientCopies(st, i) && ThreadCopies(st)
    ensures Replying(st.x, st.server, st.clients[i]) && Cut(st.server.thread) && st.server.thread.pc == TStage
    ensures st.clients[i].pc == CSend && st.clients[i].snd.pc.SCopy?
  {
    assert ClientOk(st, i);
    OverlapInExchange(st.x, st.server, st.clients[i], st.server.thread);
  }

  lemma OverlapInExchange(x: Buffer, v: Server, c: Client, t: Thread)
    requires Exchange(x, v, c) && t == v.thread
    requires (c.pc in {CStage, CSend} && c.snd.pc.SCopy?) || (c.pc == CRecv && c.rcv.pc.RCopy?)
    requires (t.pc in {TStage, TSend} && t.snd.pc.SCopy?) || (t.pc == TRecv && t.rcv.pc.RCopy?)
    ensures Replying(x, v, c) && Cut(t) && t.pc == TStage && c.pc == CSend
  {
  }

  lemma PartIsShort(size: nat, msg: seq<Byte>, part: seq<Byte>)
    requires Part(size, msg, part)
    ensures size <= |part| < |msg|
  {
  }

  // ----- the hand-off to the kernel thread -----

  /** No wake-up is lost: with active_lcall set the waiting thread is blocked only while the waking interrupt runs. */
  lemma WakeUpIsNotLost(serve: Oracle, st: State)
    requires Reachable(serve, st) && st.server.thread.pc in {TPrepare, TTest, TSleep}
    ensures st.server.activeLcall && ThreadStep(serve, st) == st ==> st.server.irq == IWake
  {
    ReachableInv(serve, st);
  }

  // ----- delivery -----

  lemma ClientTouchesItself(st: State, j: nat)
    requires j < |st.clients|
    ensures var st' := ClientStep(st, j);
            |st'.clients| == |st.clients| && forall i :: 0 <= i < |st.clients| && i != j ==>
                st'.clients[i] == st.clients[i]
  {
    hide SendStep, RecvStep;
  }

  lemma OthersLeaveCallAlone(serve: Oracle, st: State, e: Event, i: nat)
    requires i < |st.clients| && st.clients[i].pc != CIdle && e != ClientRun(i)
    ensures i < |Step(serve, st, e).clients| && Step(serve, st, e).clients[i] == st.clients[i]
  {
    match e
    case ThreadRun => ThreadTouches(serve, st);
    case ClientRun(j) => if j < |st.clients| { ClientTouchesItself(st, j); }
    case _ =>
  }

  /** The request of a call in progress is the one it began with. */
  lemma RequestIsKept(serve: Oracle, st: State, e: Event, i: nat)
    requires i < |st.clients| && st.clients[i].pc != CIdle
    ensures i < |Step(serve, st, e).clients| && Step(serve, st, e).clients[i].snd.msg == st.clients[i].snd.msg
  {
    if e == ClientRun(i) {
      SenderFrame(st.x, st.clients[i].snd);
    } else {
      OthersLeaveCallAlone(serve, st, e, i);
    }
  }

  lemma OnlyFinishReturnsZero(st: State, i: nat)
    requires i < |st.clients| && st.clients[i].pc != CIdle
    requires var c := ClientStep(st, i).clients[i]; c.pc == CIdle && c.result == 0
    ensures st.clients[i].pc == CFinalReset
  {
  }

  /** The client is out of sync_send, with 0. */
  predicate Returned(st: State, i: nat) {
    i < |st.clients| && st.clients[i].pc == CIdle && st.clients[i].result == 0
  }

  /** When sync_send returns 0, the client holds the whole answer, and the server had the whole request, unless a
      disable cut its receive after a part and its answer is empty; the flags are back to READY alone. */
  lemma ReturnsZero(serve: Oracle, st: State, e: Event, i: nat)
    requires Inv(st) && i < |st.clients| && st.clients[i].pc != CIdle && Returned(Step(serve, st, e), i)
    ensures var c := Step(serve, st, e).clients[i]; var t := st.server.thread;
            && c.rcv.buf == t.snd.msg
            && (t.rcv.buf == c.snd.msg
                || (t.snd.msg == [] && !st.x.flags.ready && Part(|st.x.data|, c.snd.msg, t.rcv.buf)))
            && Step(serve, st, e).x.flags == Flags(st.x.flags.ready, false, false, false, false)
  {
    hide Shared, Logged, OneEngaged;
    if e != ClientRun(i) {
      OthersLeaveCallAlone(serve, st, e, i);
      assert false;
    }
    OnlyFinishReturnsZero(st, i);
    assert ClientOk(st, i);
    OwnerFinishes(st, i);
  }

  predicate NeverDisabled(es: seq<Event>) {
    Disable !in es
  }

  lemma StepKeepsReady(serve: Oracle, st: State, e: Event)
    requires st.x.flags.ready && e != Disable
    ensures Step(serve, st, e).x.flags.ready
  {
    hide SendStep, RecvStep, ThreadStep;
    match e
    case ClientRun(i) =>
      if i < |st.clients| {
        SenderFrame(st.x, st.clients[i].snd);
        ReceiverFrame(st.x, st.clients[i].rcv);
      }
    case ThreadRun => ThreadFrame(serve, st);
    case _ =>
  }

  lemma {:induction false} ReadyStays(serve: Oracle, st: State, es: seq<Event>)
    requires st.x.flags.ready && NeverDisabled(es)
    ensures Run(serve, st, es).x.flags.ready
    decreases |es|
  {
    if es != [] {
      StepKeepsReady(serve, st, es[0]);
      ReadyStays(serve, Step(serve, st, es[0]), es[1..]);
    }
  }

  /** In a run without a disable every successful call delivered both messages, in ceil(n / total_size) hand-offs each. */
  lemma RunDelivers(serve: Oracle, st0: State, es: seq<Event>, k: nat)
    requires Init(st0) && NeverDisabled(es) && k < |Run(serve, st0, es).log|
    ensures var o := Run(serve, st0, es).log[k]; var size := |Run(serve, st0, es).x.data|;
            && o.seen == o.request && o.response == o.answer
            && (o.sends - 1) * size < |o.request| <= o.sends * size
            && (o.receives - 1) * size < |o.answer| <= o.receives * size
  {
    InitInv(st0);
    RunInv(serve, st0, es);
    ReadyStays(serve, st0, es);
    var st := Run(serve, st0, es);
    assert Delivered(|st.x.data|, st.log[k]);
  }

  /** In any run, disabled or not, a successful call with a non-empty answer delivered both messages. */
  lemma RunDeliversAnswered(serve: Oracle, st0: State, es: seq<Event>, k: nat)
    requires Init(st0) && k < |Run(serve, st0, es).log| && Run(serve, st0, es).log[k].answer != []
    ensures var o := Run(serve, st0, es).log[k]; o.seen == o.request && o.response == o.answer
  {
    InitInv(st0);
    RunInv(serve, st0, es);
    assert Delivered(|Run(serve, st0, es).x.data|, Run(serve, st0, es).log[k]);
  }
}
