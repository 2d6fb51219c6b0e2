/** What a disable can spoil, exactly: for every buffer size, request and server, which runs there are and which not. */
module XbufExact {
  import opened Bytes
  import opened Xbuf
  import opened XbufSafety
  import opened XbufInvariant
  import opened XbufSteps
  import opened XbufTheorems
  import opened XbufProgress

  // ----- every answer is one the server gives to the bytes it saw -----

  ghost predicate Answers(serve: Oracle, seen: seq<Byte>, answer: seq<Byte>) {
    exists n: nat :: n >= 1 && serve(n, seen) == answer
  }

  ghost predicate Answered(serve: Oracle, st: State) {
    var v, t := st.server, st.server.thread;
    && (v.irq in {IHandler, ISetLcall} || v.activeLcall || t.pc in {TClear, TRecvStart, TRecv, THandle} ==>
        st.activated >= 1)
    && (t.pc in {TComplete, TStage, TRaiseComplete} || (st.x.flags.complete && t.pc !in {TRecv, THandle}) ==>
          Answers(serve, t.rcv.buf, t.snd.msg))
    && forall o :: o in st.log ==> Answers(serve, o.seen, o.answer)
  }

  /** A client leaves the server's words alone, and logs its last step only. */
  lemma ClientFrame(st: State, i: nat)
    requires i < |st.clients|
    ensures var st' := ClientStep(st, i);
            && st'.server == st.server.(ipis := st'.server.ipis) && st'.activated == st.activated
            && (st'.x.flags.complete ==> st.x.flags.complete)
            && (st.clients[i].pc != CFinalReset ==> st'.log == st.log)
  {
    hide SendStep, RecvStep;
    SenderFrame(st.x, st.clients[i].snd);
    ReceiverFrame(st.x, st.clients[i].rcv);
  }

  lemma FinishAnswered(serve: Oracle, st: State, i: nat)
    requires i < |st.clients| && st.clients[i].pc == CFinalReset && Exchange(st.x, st.server, st.clients[i])
    requires Answered(serve, st)
    ensures Answered(serve, ClientStep(st, i))
  {
    var t := st.server.thread;
    assert st.x.flags.complete && t.pc !in {TRecv, THandle};
    assert Answers(serve, t.rcv.buf, t.snd.msg);
    hide Exchange, Answers;
  }

  lemma ClientAnswered(serve: Oracle, st: State, i: nat)
    requires Inv(st) && Answered(serve, st) && i < |st.clients|
    ensures Answered(serve, ClientStep(st, i))
  {
    hide ClientStep, Exchange, Answers;
    assert ClientOk(st, i);
    if st.clients[i].pc == CFinalReset {
      FinishAnswered(serve, st, i);
    } else {
      ClientFrame(st, i);
    }
  }

  /** The thread's two messages change where it receives and where it handles. */
  lemma ThreadTalk(serve: Oracle, st: State)
    ensures var t, t' := st.server.thread, ThreadStep(serve, st).server.thread;
            && (t.pc != TRecv && t'.pc != TRecv ==> t'.rcv == t.rcv)
            && (t.pc != THandle ==> t'.snd.msg == t.snd.msg)
            && (t.pc == THandle ==> t'.snd.msg == serve(st.activated, t.rcv.buf))
  {
    SenderFrame(st.x, st.server.thread.snd);
  }

  lemma ThreadOrder(serve: Oracle, st: State)
    ensures var t, t' := st.server.thread, ThreadStep(serve, st).server.thread;
            && (t.pc == TRecv ==> t'.pc in {TRecv, THandle})
            && (t'.pc in {TComplete, TStage, TRaiseComplete} ==> t.pc in {THandle, TComplete, TStage})
            && (t'.pc in {TClear, TRecvStart, TRecv, THandle} ==>
                  t.pc in {TClear, TRecvStart, TRecv} || (t.pc == TTest && t'.pc == TClear && st.server.activeLcall))
  {
    hide SendStep, RecvStep;
  }

  lemma ThreadWords(serve: Oracle, st: State)
    ensures var st' := ThreadStep(serve, st);
            && st' == st.(x := st'.x, server := st'.server)
            && st'.server.ipis == st.server.ipis && st'.server.irq == st.server.irq
            && (st'.server.activeLcall ==> st.server.activeLcall)
            && (st'.x.flags.complete ==> st.x.flags.complete || st.server.thread.pc == TRaiseComplete)
  {
    hide SendStep, RecvStep;
    SenderFrame(st.x, st.server.thread.snd);
    ReceiverFrame(st.x, st.server.thread.rcv);
  }

  lemma ThreadAnswered(serve: Oracle, st: State)
    requires Answered(serve, st)
    ensures Answered(serve, ThreadStep(serve, st))
  {
    hide ThreadStep, Answers;
    ThreadTalk(serve, st);
    ThreadOrder(serve, st);
    ThreadWords(serve, st);
    if st.server.thread.pc == THandle {
      HandledAnswers(serve, st);
    }
  }

  lemma HandledAnswers(serve: Oracle, st: State)
    requires st.activated >= 1 && st.server.thread.pc == THandle
    ensures var t := ThreadStep(serve, st).server.thread; Answers(serve, t.rcv.buf, t.snd.msg)
  {
    ThreadTalk(serve, st);
  }

  lemma StepAnswered(serve: Oracle, st: State, e: Event)
    requires Inv(st) && Answered(serve, st)
    ensures Answered(serve, Step(serve, st, e))
  {
    hide Inv, ClientStep, ThreadStep;
    match e
    case ClientRun(i) => if i < |st.clients| { ClientAnswered(serve, st, i); }
    case ThreadRun => ThreadAnswered(serve, st);
    case _ =>
  }

  lemma {:induction false} RunAnswered(serve: Oracle, st: State, es: seq<Event>)
    requires Inv(st) && Answered(serve, st)
    ensures Answered(serve, Run(serve, st, es))
    decreases |es|
  {
    if es != [] {
      StepInv(serve, st, es[0]);
      StepAnswered(serve, st, es[0]);
      RunAnswered(serve, Step(serve, st, es[0]), es[1..]);
    }
  }

  lemma ReachableAnswered(serve: Oracle, st: State)
    requires Reachable(serve, st)
    ensures Answered(serve, st)
  {
    var st0: State, es: seq<Event> :| Init(st0) && Run(serve, st0, es) == st;
    InitInv(st0);
    RunAnswered(serve, st0, es);
  }

  // ----- a buffer at rest, any number of exchanges later -----

  /** An enabled buffer of one client; the length left in it is arbitrary. */
  function Start(size: nat, dataLen: nat): State {
    State(
      Buffer(Flags(true, false, false, false, false), dataLen, Zeros(size)), None,
      [Client(CIdle, Sender([], 0, 0, SDone), NEW_RECEIVER, 0)],
      Server(0, IIdle, Thread(TPrepare, false, NEW_RECEIVER, Sender([], 0, 0, SDone)), false), 0, 0, [])
  }

  /** Reached by a run without a disable, in which `n` messages were acquired. */
  ghost predicate Calm(serve: Oracle, st: State, size: nat, n: nat) {
    Reachable(serve, st) && st.x.flags.ready && |st.clients| == 1 && |st.x.data| == size && st.acquired == n
  }

  ghost predicate Rested(serve: Oracle, st: State, size: nat, n: nat) {
    Calm(serve, st, size, n) && st.clients[0].pc == CIdle
  }

  lemma Onwards(serve: Oracle, st: State, e: Event)
    requires Reachable(serve, st)
    ensures Reachable(serve, Step(serve, st, e))
  {
    var st0: State, es: seq<Event> :| Init(st0) && Run(serve, st0, es) == st;
    RunConcat(serve, st0, es, [e]);
    assert [e][1..] == [];
    assert Run(serve, st, [e]) == Run(serve, Step(serve, st, e), []);
    assert Run(serve, st0, es + [e]) == Step(serve, st, e);
  }

  /** The state after the same party has moved n times. */
  function Again(serve: Oracle, st: State, n: nat, e: Event): State
    decreases n
  {
    if n == 0 then st else Again(serve, Step(serve, st, e), n - 1, e)
  }

  lemma {:induction false} OnwardsAgain(serve: Oracle, st: State, n: nat, e: Event)
    requires Reachable(serve, st)
    ensures Reachable(serve, Again(serve, st, n, e))
    decreases n
  {
    if n > 0 {
      Onwards(serve, st, e);
      OnwardsAgain(serve, Step(serve, st, e), n - 1, e);
    }
  }

  /** The events of one exchange. */
  predicate OwnTurns(es: seq<Event>) {
    forall e :: e in es ==> e in {ClientRun(0), IrqRun, ThreadRun}
  }

  lemma CalmStep(serve: Oracle, st: State, e: Event, size: nat, n: nat)
    requires Calm(serve, st, size, n) && e in {ClientRun(0), IrqRun, ThreadRun} && st.clients[0].pc != CRaise
    ensures Calm(serve, Step(serve, st, e), size, n)
  {
    hide SendStep, RecvStep, Reachable, ThreadStep;
    Onwards(serve, st, e);
    StepKeepsReady(serve, st, e);
    SenderFrame(st.x, st.clients[0].snd);
    ReceiverFrame(st.x, st.clients[0].rcv);
    ThreadFrame(serve, st);
    ThreadTouches(serve, st);
  }

  /** A call that begins at rest owns the buffer six steps later. */
  lemma ClaimSteps(serve: Oracle, st: State, request: seq<Byte>)
    requires |st.clients| == 1 && st.clients[0].pc == CIdle && st.lock == None && st.x.flags.ready && !st.x.flags.pending
    ensures Again(serve, Step(serve, st, Begin(0, request)), 5, ClientRun(0)) ==
            st.(x := st.x.(flags := Flags(true, true, false, false, false)), lock := Some(0), acquired := st.acquired + 1,
                clients := [Client(CUnlockOk, Sender(request, 0, 0, SSetLen), NEW_RECEIVER, 0)])
  {
    var s1 := Step(serve, st, Begin(0, request));
    assert s1 == st.(clients := [Client(CLock, Sender(request, 0, 0, SSetLen), NEW_RECEIVER, 0)]);
    var s3 := Again(serve, s1, 2, ClientRun(0));
    assert s3 == s1.(lock := Some(0), clients := [s1.clients[0].(pc := CPending)]);
    var s4 := Step(serve, s3, ClientRun(0));
    assert s4 == s3.(clients := [s1.clients[0].(pc := CReset)]);
    assert Again(serve, s1, 5, ClientRun(0)) == Again(serve, s4, 2, ClientRun(0));
  }

  lemma Claims(serve: Oracle, st: State, size: nat, n: nat, request: seq<Byte>) returns (st': State)
    requires Rested(serve, st, size, n)
    ensures Calm(serve, st', size, n + 1) && st'.x.dataLen == st.x.dataLen && !st'.x.flags.complete
    ensures st'.clients[0].pc == CUnlockOk && st'.clients[0].snd.msg == request
  {
    NobodyOwns(serve, st, size, n);
    hide Inv, Reachable;
    ClaimSteps(serve, st, request);
    Onwards(serve, st, Begin(0, request));
    st' := Again(serve, Step(serve, st, Begin(0, request)), 5, ClientRun(0));
    OnwardsAgain(serve, Step(serve, st, Begin(0, request)), 5, ClientRun(0));
  }

  lemma NobodyOwns(serve: Oracle, st: State, size: nat, n: nat)
    requires Rested(serve, st, size, n)
    ensures st.lock == None && !st.x.flags.pending
  {
    ReachableInv(serve, st);
    assert ClientOk(st, 0);
  }

  const ROUND: seq<Event> := [ClientRun(0), IrqRun, ThreadRun]

  function Rounds(k: nat): (r: seq<seq<Event>>)
    ensures |r| == k && forall j :: 0 <= j < k ==> r[j] == ROUND
  {
    seq(k, _ => ROUND)
  }

  lemma {:induction false} RoundsAreOwnTurns(rounds: seq<seq<Event>>)
    requires forall j :: 0 <= j < |rounds| ==> rounds[j] == ROUND
    ensures OwnTurns(Flatten(rounds))
    decreases |rounds|
  {
    if rounds != [] {
      RoundsAreOwnTurns(rounds[1..]);
    }
  }

  /** A schedule of turns that ends the exchange. */
  lemma Schedule(serve: Oracle, st: State) returns (es: seq<Event>)
    requires Going(st, 0)
    ensures OwnTurns(es) && ReturnsIn(serve, st, es, 0)
  {
    var rounds := Rounds(Rank(serve, st, 0) + 1);
    RoundsAreOwnTurns(rounds);
    forall k | 0 <= k < |rounds| ensures FairRound(rounds[k], 0) {
      assert rounds[k] == ROUND;
      assert ROUND[0] == ClientRun(0) && ROUND[1] == IrqRun && ROUND[2] == ThreadRun;
    }
    EveryExchangeEnds(serve, st, rounds, 0);
    es := Flatten(rounds);
  }

  lemma ReturnsAfter(serve: Oracle, st: State, es: seq<Event>, i: nat)
    requires ReturnsIn(serve, st, es, i) && !Returned(st, i)
    ensures es != [] && ReturnsIn(serve, Step(serve, st, es[0]), es[1..], i)
  {
    var k: nat :| k <= |es| && Returned(Run(serve, st, es[..k]), i);
    assert es[..0] == [];
    assert es[..k][0] == es[0] && es[..k][1..] == es[1..][..k - 1];
  }

  lemma {:induction false} EndsAtRest(serve: Oracle, st: State, es: seq<Event>, size: nat, n: nat) returns (st': State)
    requires Calm(serve, st, size, n) && OwnTurns(es) && ReturnsIn(serve, st, es, 0)
    requires Engaged(st.clients[0].pc) || st.clients[0].pc == CIdle
    ensures Rested(serve, st', size, n)
    decreases |es|
  {
    if st.clients[0].pc == CIdle {
      st' := st;
    } else {
      ReturnsAfter(serve, st, es, 0);
      assert es[0] in es;
      assert forall e :: e in es[1..] ==> e in es;
      CalmStep(serve, st, es[0], size, n);
      StaysOwner(serve, st, es[0]);
      st' := EndsAtRest(serve, Step(serve, st, es[0]), es[1..], size, n);
    }
  }

  lemma StaysOwner(serve: Oracle, st: State, e: Event)
    requires |st.clients| == 1 && Engaged(st.clients[0].pc) && e in {ClientRun(0), IrqRun, ThreadRun}
    ensures var st' := Step(serve, st, e);
            |st'.clients| == 1 && (Engaged(st'.clients[0].pc) || st'.clients[0].pc == CIdle)
  {
    ThreadTouches(serve, st);
  }

  lemma {:induction false} RestedAfter(serve: Oracle, size: nat, n: nat) returns (st: State)
    requires size > 0
    ensures Rested(serve, st, size, n)
    decreases n
  {
    if n == 0 {
      st := Start(size, 0);
      assert Init(st) && Run(serve, st, []) == st;
    } else {
      var rested := RestedAfter(serve, size, n - 1);
      var owner := Claims(serve, rested, size, n - 1, [0]);
      ReachableInv(serve, owner);
      var es := Schedule(serve, owner);
      st := EndsAtRest(serve, owner, es, size, n);
    }
  }

  // ----- the moment the server has taken r bytes -----

  predicate Past(st: State, r: nat) {
    var t := st.server.thread;
    || st.x.flags.complete
    || t.pc in {THandle, TComplete, TStage, TRaiseComplete}
    || (t.pc == TRecv && t.rcv.pc != RInit && t.rcv.read >= r)
  }

  /** Every run to the end of an exchange passes it. */
  lemma {:induction false} Crosses(serve: Oracle, st: State, es: seq<Event>, r: nat, size: nat, n: nat)
    returns (a: State, e: Event)
    requires Calm(serve, st, size, n) && Going(st, 0) && OwnTurns(es) && ReturnsIn(serve, st, es, 0) && !Past(st, r)
    ensures Calm(serve, a, size, n) && Going(a, 0) && a.clients[0].snd.msg == st.clients[0].snd.msg
    ensures e in {ClientRun(0), IrqRun, ThreadRun} && !Past(a, r) && Past(Step(serve, a, e), r)
    decreases |es|
  {
    ReturnsAfter(serve, st, es, 0);
    assert es[0] in es;
    if Past(Step(serve, st, es[0]), r) {
      a, e := st, es[0];
    } else {
      assert ClientOk(st, 0);
      assert st.clients[0].pc != CFinalReset;
      assert forall e :: e in es[1..] ==> e in es;
      CalmStep(serve, st, es[0], size, n);
      StepNoLoss(serve, st, es[0], 0);
      RequestIsKept(serve, st, es[0], 0);
      a, e := Crosses(serve, Step(serve, st, es[0]), es[1..], r, size, n);
    }
  }

  lemma OnlyLoweringCrosses(serve: Oracle, a: State, e: Event, r: nat)
    requires Going(a, 0) && |a.clients| == 1 && e in {ClientRun(0), IrqRun, ThreadRun}
    requires !Past(a, r) && Past(Step(serve, a, e), r)
    requires 0 < r < |a.clients[0].snd.msg|
    ensures e == ThreadRun && a.server.thread.pc == TRecv && a.server.thread.rcv.pc == RLower
  {
    hide ClientStep, IrqStep, ThreadStep, Exchange;
    assert ClientOk(a, 0);
    match e
    case ClientRun(_) => ClientFrame(a, 0);
    case IrqRun => IrqPasses(a, r);
    case _ => ThreadCrosses(serve, a, r);
  }

  lemma IrqPasses(a: State, r: nat)
    ensures Past(IrqStep(a), r) == Past(a, r)
  {
  }

  lemma ThreadCrosses(serve: Oracle, a: State, r: nat)
    requires |a.clients| == 1 && Engaged(a.clients[0].pc) && Exchange(a.x, a.server, a.clients[0]) && a.x.flags.ready
    requires 0 < r < |a.clients[0].snd.msg| && !Past(a, r) && Past(ThreadStep(serve, a), r)
    ensures a.server.thread.pc == TRecv && a.server.thread.rcv.pc == RLower
  {
    ThreadOrder(serve, a);
    ThreadWords(serve, a);
    assert a.server.thread.pc in {TRecvStart, TRecv};
    if a.server.thread.pc == TRecv {
      assert Receiving(a.x, a.server, a.clients[0]);
      ReceiverFrame(a.x, a.server.thread.rcv);
    }
  }

  /** The server has copied the chunk that ends at r and has not lowered STAGED yet; the client has nothing to do. */
  ghost predicate AtChunk(serve: Oracle, a: State, size: nat, n: nat, request: seq<Byte>, r: nat) {
    && size > 0 && Calm(serve, a, size, n) && !a.x.flags.complete && a.x.flags.staged && a.activated == n &&
        a.x.flags.active
    && var c, t := a.clients[0], a.server.thread;
       && c.pc == CSend && c.snd.msg == request && c.snd.sent == r && c.snd.pc in {SCheck, SWaitStaged, SWaitReady}
       && c.rcv == NEW_RECEIVER
       && t.pc == TRecv && t.rcv.pc == RLower && t.rcv.read + size == r < |request| == t.rcv.len
       && t.rcv.buf == request[..r]
  }

  lemma LastChunk(size: nat, h: nat, r: nat, n: nat)
    requires size > 0 && r % size == 0 && h * size <= n && h * size < r <= h * size + Chunk(size, n - h * size) && r < n
    ensures h * size + size == r && Chunk(size, n - h * size) == size
  {
    assert r == r / size * size;
    Stretched(r / size - h, size);
    assert (r / size - h) * size == r - h * size;
  }

  lemma CrossesAtChunk(serve: Oracle, a: State, size: nat, n: nat, r: nat)
    requires Calm(serve, a, size, n) && Going(a, 0) && size > 0
    requires 0 < r < |a.clients[0].snd.msg| && r % size == 0
    requires !Past(a, r) && Past(Step(serve, a, ThreadRun), r)
    requires a.server.thread.pc == TRecv && a.server.thread.rcv.pc == RLower
    ensures AtChunk(serve, a, size, n, a.clients[0].snd.msg, r)
  {
    hide Reachable;
    assert ClientOk(a, 0);
    var c, q := a.clients[0], a.server.thread.rcv;
    ChunkIsOnItsWay(a.x, a.server, c);
    assert RecvStep(a.x, q).1.read == q.read + Chunk(size, q.Left());
    hide Exchange, SenderOk, ReceiverOk;
    LastChunk(size, q.handoffs, r, |c.snd.msg|);
  }

  /** What is known while the server lowers STAGED and more is to come. */
  lemma ChunkIsOnItsWay(x: Buffer, v: Server, c: Client)
    requires Exchange(x, v, c) && Engaged(c.pc) && !x.flags.complete && x.flags.ready
    requires v.thread.pc == TRecv && v.thread.rcv.pc == RLower
    ensures var q := v.thread.rcv; var msg := c.snd.msg;
            && x.flags.staged && x.flags.active && c.rcv == NEW_RECEIVER
            && q.read < |msg| == q.len && q.read == q.handoffs * |x.data|
            && c.snd.sent == q.read + Chunk(|x.data|, |msg| - q.read)
            && q.buf == msg[..c.snd.sent]
            && (c.snd.sent < |msg| ==> c.pc == CSend && c.snd.pc in {SCheck, SWaitStaged, SWaitReady})
  {
    assert Receiving(x, v, c);
    hide Exchange;
    assert SenderOk(x, c.snd, v.thread.rcv.read) && ReceiverOk(x, v.thread.rcv, c.snd.msg);
  }

  /** The server looks for the next chunk, and the client has still to learn that it may copy it. */
  ghost predicate Ready(b: State, request: seq<Byte>, part: seq<Byte>) {
    && |b.clients| == 1 && |b.x.data| > 0 && part < request
    && b.x.flags.ready && !b.x.flags.complete && !b.x.flags.staged && b.x.flags.active
    && var c, t := b.clients[0], b.server.thread;
       && c.pc == CSend && c.snd.msg == request && c.snd.sent == |part| && c.snd.pc == SWaitReady
       && c.rcv == NEW_RECEIVER
       && t.pc == TRecv && t.rcv.pc == RCheck && t.rcv.read == |part| && t.rcv.len == |request| && t.rcv.buf == part
  }

  ghost predicate Between(serve: Oracle, b: State, size: nat, n: nat, request: seq<Byte>, part: seq<Byte>) {
    Calm(serve, b, size, n) && b.activated == n && Ready(b, request, part)
  }

  lemma {:induction false} ClientComesToWait(
      serve: Oracle, a: State, size: nat, n: nat, request: seq<Byte>, r: nat) returns (b: State)
    requires AtChunk(serve, a, size, n, request, r)
    ensures AtChunk(serve, b, size, n, request, r) && b.clients[0].snd.pc == SWaitReady
    decreases a.clients[0].snd.pc.SCheck?, a.clients[0].snd.pc.SWaitStaged?
  {
    if a.clients[0].snd.pc == SWaitReady {
      b := a;
    } else {
      CalmStep(serve, a, ClientRun(0), size, n);
      b := ClientComesToWait(serve, Step(serve, a, ClientRun(0)), size, n, request, r);
    }
  }

  lemma ServerLowers(serve: Oracle, a: State, size: nat, n: nat, request: seq<Byte>, r: nat)
    requires AtChunk(serve, a, size, n, request, r) && a.clients[0].snd.pc == SWaitReady
    ensures Between(serve, Step(serve, a, ThreadRun), size, n, request, request[..r])
  {
    CalmStep(serve, a, ThreadRun, size, n);
  }

  /** For every part of a request, some run of the n-th exchange stops the server right after it. */
  lemma PartIsReached(serve: Oracle, size: nat, n: nat, request: seq<Byte>, part: seq<Byte>) returns (b: State)
    requires n >= 1 && Part(size, request, part)
    ensures Between(serve, b, size, n, request, part)
  {
    hide Reachable, Going, ReturnsIn, OwnTurns, AtChunk, Between;
    var rested := RestedAfter(serve, size, n - 1);
    var owner := Claims(serve, rested, size, n - 1, request);
    ReachableInv(serve, owner);
    assert ClientOk(owner, 0);
    var es := Schedule(serve, owner);
    var a, e := Crosses(serve, owner, es, |part|, size, n);
    OnlyLoweringCrosses(serve, a, e, |part|);
    CrossesAtChunk(serve, a, size, n, |part|);
    a := ClientComesToWait(serve, a, size, n, request, |part|);
    ServerLowers(serve, a, size, n, request, |part|);
    b := Step(serve, a, ThreadRun);
  }

  // ----- copies that overlap -----

  /** A call with this request copies while the server does. */
  ghost predicate Overlaps(st: State, i: nat, request: seq<Byte>) {
    i < |st.clients| && st.clients[i].snd.msg == request && ClientCopies(st, i) && ThreadCopies(st)
  }

  /** Told that the buffer is disabled, the thread hands what it has to the handler all the same. */
  lemma CutHandles(serve: Oracle, d: State, part: seq<Byte>)
    requires !d.x.flags.ready && d.server.thread.pc == TRecv && d.server.thread.rcv.pc == RCheck
    requires d.server.thread.rcv.Left() > 0 && d.server.thread.rcv.buf == part
    ensures var t := d.server.thread;
            Again(serve, d, 2, ThreadRun) ==
            ThreadTo(d, t.(pc := TComplete, rcv := t.rcv.(pc := RFail),
                snd := Sender(serve(d.activated, part), 0, 0, SSetLen)))
  {
    var t := d.server.thread;
    var s1 := Step(serve, d, ThreadRun);
    assert s1 == ThreadTo(d, t.(pc := THandle, rcv := t.rcv.(pc := RFail)));
    assert Again(serve, d, 2, ThreadRun) == Step(serve, s1, ThreadRun);
  }

  lemma Answering(serve: Oracle, st: State)
    requires st.server.thread.pc == TComplete && st.x.flags.active && st.server.thread.snd.pc == SSetLen
    requires st.server.thread.snd.msg != []
    ensures var st' := Again(serve, st, 2, ThreadRun);
            st'.clients == st.clients && |st'.x.data| == |st.x.data| && ThreadCopies(st')
  {
    hide RecvStep;
    var s1 := Step(serve, st, ThreadRun);
    assert s1 == ThreadTo(st, st.server.thread.(pc := TStage));
    assert Again(serve, st, 2, ThreadRun) == ThreadStep(serve, s1);
    StagesLength(serve, s1);
  }

  lemma StagesLength(serve: Oracle, st: State)
    requires st.server.thread.pc == TStage && st.server.thread.snd.pc == SSetLen
    ensures var st' := ThreadStep(serve, st);
            st'.clients == st.clients && |st'.x.data| == |st.x.data| && ThreadCopies(st')
  {
    hide RecvStep;
  }

  lemma ClientTurns(serve: Oracle, b: State, request: seq<Byte>, part: seq<Byte>)
    requires Ready(b, request, part)
    ensures Again(serve, b, 2, ClientRun(0)) == b.(clients := [b.clients[0].(snd := b.clients[0].snd.(pc := SCopy(0)))])
  {
    var s1 := Step(serve, b, ClientRun(0));
    assert s1 == b.(clients := [b.clients[0].(snd := b.clients[0].snd.(pc := SWaitStaged))]);
    assert Again(serve, b, 2, ClientRun(0)) == Step(serve, s1, ClientRun(0));
  }

  /** The client has found STAGED down, and the server, cut, is about to answer. */
  lemma BothCopy(serve: Oracle, b: State, request: seq<Byte>, part: seq<Byte>)
    requires Ready(b, request, part) && serve(b.activated, part) != []
    ensures var c := Again(serve, b, 2, ClientRun(0));
            var st := Again(serve, Step(serve, c, Disable), 4, ThreadRun);
            |st.x.data| == |b.x.data| && Overlaps(st, 0, request)
  {
    hide ClientStep, ThreadStep, SendStep, RecvStep;
    ClientTurns(serve, b, request, part);
    var c := Again(serve, b, 2, ClientRun(0));
    var d := Step(serve, c, Disable);
    CutHandles(serve, d, part);
    var s2 := Again(serve, d, 2, ThreadRun);
    AgainAgain(serve, d, 2, 2, ThreadRun);
    Answering(serve, s2);
  }

  lemma {:induction false} AgainAgain(serve: Oracle, st: State, m: nat, n: nat, e: Event)
    ensures Again(serve, st, m + n, e) == Again(serve, Again(serve, st, m, e), n, e)
    decreases m
  {
    hide Step;
    if m > 0 {
      AgainAgain(serve, Step(serve, st, e), m - 1, n, e);
    }
  }

  lemma OverlapFollows(serve: Oracle, b: State, size: nat, n: nat, request: seq<Byte>, part: seq<Byte>)
    requires Between(serve, b, size, n, request, part) && serve(n, part) != []
    ensures exists st, i :: Reachable(serve, st) && |st.x.data| == size && Overlaps(st, i, request)
  {
    hide Reachable, Overlaps;
    BothCopy(serve, b, request, part);
    OnwardsAgain(serve, b, 2, ClientRun(0));
    var c := Again(serve, b, 2, ClientRun(0));
    Onwards(serve, c, Disable);
    OnwardsAgain(serve, Step(serve, c, Disable), 4, ThreadRun);
  }

  /** The server answered the part it has, with a byte at least. */
  lemma OverlapAnswers(serve: Oracle, st: State, i: nat, request: seq<Byte>)
    requires Reachable(serve, st) && Overlaps(st, i, request)
    ensures var part := st.server.thread.rcv.buf;
            Part(|st.x.data|, request, part) && exists n: nat :: n >= 1 && serve(n, part) != []
  {
    CopiesAreExclusive(serve, st, i);
    ReachableAnswered(serve, st);
    ReachableInv(serve, st);
    OverlapIsCut(st, i);
    hide Inv, Reachable;
    var t := st.server.thread;
    assert t.snd.pc.SCopy? && t.snd.msg != [];
    var n: nat :| n >= 1 && serve(n, t.rcv.buf) == t.snd.msg;
  }

  /** Some run makes both sides copy at once if and only if the server answers some part of the request with a byte. */
  lemma OverlapsExactly(serve: Oracle, size: nat, request: seq<Byte>)
    ensures (exists st, i :: Reachable(serve, st) && |st.x.data| == size && Overlaps(st, i, request)) <==>
            (exists n: nat, part :: n >= 1 && Part(size, request, part) && serve(n, part) != [])
  {
    hide Reachable, Overlaps, Part, Between;
    if st, i: nat :| Reachable(serve, st) && |st.x.data| == size && Overlaps(st, i, request) {
      OverlapAnswers(serve, st, i, request);
    }
    if n: nat, part :| n >= 1 && Part(size, request, part) && serve(n, part) != [] {
      var b := PartIsReached(serve, size, n, request, part);
      OverlapFollows(serve, b, size, n, request, part);
    }
  }

  /** So for a server that always answers with something: if and only if the request is longer than the buffer. */
  lemma OverlapsByLength(serve: Oracle, size: nat, request: seq<Byte>)
    requires size > 0 && forall n: nat, seen :: serve(n, seen) != []
    ensures (exists st, i :: Reachable(serve, st) && |st.x.data| == size && Overlaps(st, i, request)) <==>
            |request| > size
  {
    OverlapsExactly(serve, size, request);
    if |request| > size {
      assert Part(size, request, request[..size]) && serve(1, request[..size]) != [];
    }
    if n: nat, part :| n >= 1 && Part(size, request, part) && serve(n, part) != [] {
      PartIsShort(size, request, part);
    }
  }

  // ----- calls that return 0 for a request that did not arrive -----

  ghost predicate Misreported(st: State, o: Outcome, request: seq<Byte>) {
    o in st.log && o.request == request && o.seen != request
  }

  lemma CompletesEmpty(serve: Oracle, st: State)
    requires st.server.thread.pc == TComplete && st.x.flags.active && st.server.thread.snd == Sender([], 0, 0, SSetLen)
    ensures Again(serve, st, 2, ThreadRun) ==
            ThreadTo(st.(x := st.x.(flags := st.x.flags.(complete := true))),
                     st.server.thread.(pc := TSend, snd := Sender([], 0, 0, SCheck)))
  {
    var s1 := Step(serve, st, ThreadRun);
    assert s1 == ThreadTo(st, st.server.thread.(pc := TRaiseComplete, snd := Sender([], 0, 0, SCheck)));
    assert Again(serve, st, 2, ThreadRun) == Step(serve, s1, ThreadRun);
  }

  /** A client that waited for its turn on a disabled buffer, with COMPLETE up and nothing staged. */
  lemma ClientGivesUp(serve: Oracle, c: State)
    requires |c.clients| == 1 && c.clients[0].pc == CSend && c.clients[0].snd.pc == SWaitReady
    requires !c.x.flags.ready && c.x.flags.complete && !c.x.flags.staged
    ensures var st := Again(serve, c, 4, ClientRun(0));
            && |st.x.data| == |c.x.data| && st.log != []
            && var o := st.log[|st.log| - 1];
               o.request == c.clients[0].snd.msg && o.seen == c.server.thread.rcv.buf
  {
    var s2 := Again(serve, c, 2, ClientRun(0));
    var me := c.clients[0];
    assert s2 == c.(clients := [me.(pc := CCheckResp, snd := me.snd.(pc := SDone))]);
    hide ClientStep;
    AgainAgain(serve, c, 2, 2, ClientRun(0));
    ClientLeaves(serve, s2);
  }

  lemma ClientLeaves(serve: Oracle, c: State)
    requires |c.clients| == 1 && c.clients[0].pc == CCheckResp && !c.x.flags.staged
    ensures var st := Again(serve, c, 2, ClientRun(0));
            && |st.x.data| == |c.x.data| && st.log != []
            && var o := st.log[|st.log| - 1];
               o.request == c.clients[0].snd.msg && o.seen == c.server.thread.rcv.buf
  {
    var s1 := Step(serve, c, ClientRun(0));
    assert s1 == c.(clients := [c.clients[0].(pc := CFinalReset)]);
    assert Again(serve, c, 2, ClientRun(0)) == Step(serve, s1, ClientRun(0));
  }

  /** Cut, the server completes with nothing, and the client, told so, looks for no more. */
  lemma ReturnsAnyway(serve: Oracle, b: State, request: seq<Byte>, part: seq<Byte>)
    requires Ready(b, request, part) && serve(b.activated, part) == []
    ensures var c := Again(serve, Step(serve, b, Disable), 4, ThreadRun);
            var st := Again(serve, c, 4, ClientRun(0));
            |st.x.data| == |b.x.data| && st.log != [] && Misreported(st, st.log[|st.log| - 1], request)
  {
    hide ClientStep, ThreadStep;
    var d := Step(serve, b, Disable);
    CutHandles(serve, d, part);
    AgainAgain(serve, d, 2, 2, ThreadRun);
    CompletesEmpty(serve, Again(serve, d, 2, ThreadRun));
    ClientGivesUp(serve, Again(serve, d, 4, ThreadRun));
  }

  lemma MisreportFollows(serve: Oracle, b: State, size: nat, n: nat, request: seq<Byte>, part: seq<Byte>)
    requires Between(serve, b, size, n, request, part) && serve(n, part) == []
    ensures exists st, o :: Reachable(serve, st) && |st.x.data| == size && Misreported(st, o, request)
  {
    hide Reachable, Misreported;
    ReturnsAnyway(serve, b, request, part);
    Onwards(serve, b, Disable);
    OnwardsAgain(serve, Step(serve, b, Disable), 4, ThreadRun);
    OnwardsAgain(serve, Again(serve, Step(serve, b, Disable), 4, ThreadRun), 4, ClientRun(0));
  }

  /** Some call with the request returns 0 without its delivery if and only if the server answers some part of the
      request with nothing.  Read the other way: every 0 means delivery exactly for the servers that never do. */
  lemma MisreportsExactly(serve: Oracle, size: nat, request: seq<Byte>)
    ensures (exists st, o :: Reachable(serve, st) && |st.x.data| == size && Misreported(st, o, request)) <==>
            (exists n: nat, part :: n >= 1 && Part(size, request, part) && serve(n, part) == [])
  {
    if st, o :| Reachable(serve, st) && |st.x.data| == size && Misreported(st, o, request) {
      ReachableInv(serve, st);
      ReachableAnswered(serve, st);
      var k :| 0 <= k < |st.log| && st.log[k] == o;
      assert Delivered(size, st.log[k]);
      var n: nat :| n >= 1 && serve(n, o.seen) == o.answer;
      assert Part(size, request, o.seen) && serve(n, o.seen) == [];
    }
    if n: nat, part :| n >= 1 && Part(size, request, part) && serve(n, part) == [] {
      var b := PartIsReached(serve, size, n, request, part);
      MisreportFollows(serve, b, size, n, request, part);
    }
  }

  // ----- calls that never return -----

  /** An empty request claims a buffer of any size over any length but 0, and hangs by EmptyRequestHangs. */
  lemma HungIsReached(serve: Oracle, size: nat, dataLen: nat)
    requires size > 0 && dataLen > 0
    ensures exists st :: Reachable(serve, st) && |st.x.data| == size && st.x.dataLen == dataLen && Hung(st, 0)
  {
    var st0 := Start(size, dataLen);
    assert Init(st0) && Run(serve, st0, []) == st0;
    var st := Claims(serve, st0, size, 0, []);
    ReachableInv(serve, st);
    EmptyRequestNeedsZeroLength(st, 0);
  }
}
