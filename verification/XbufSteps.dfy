/** Every step keeps the invariant of XbufInvariant. */
module XbufSteps {
  import opened Bytes
  import opened Xbuf
  import opened XbufSafety
  import opened XbufInvariant

  // ----- the owner's own steps -----

  /** The owner's step keeps its exchange, or gives up because the buffer is disabled. */
  ghost predicate GoesOn(st: State, i: nat)
    requires i < |st.clients|
  {
    var st' := ClientStep(st, i);
    var c := st'.clients[i];
    if c.pc == CIdle then !st.x.flags.ready else Engaged(c.pc) && Exchange(st'.x, st'.server, c)
  }

  lemma OwnerClaims(st: State, i: nat)
    requires i < |st.clients| && st.clients[i].pc in {CUnlockOk, CStage, CIpi}
    requires Exchange(st.x, st.server, st.clients[i]) && Interrupts(st) && st.x.flags.pending
    ensures GoesOn(st, i)
  {
    var c := st.clients[i];
    if c.pc == CStage {
      SenderKeeps(st.x, c.snd, 0);
      SenderFrame(st.x, c.snd);
    }
  }

  lemma OwnerSendsCalled(st: State, i: nat)
    requires i < |st.clients| && st.clients[i].pc == CSend && Called(st.x, st.server, st.clients[i])
    ensures Called(ClientStep(st, i).x, ClientStep(st, i).server, ClientStep(st, i).clients[i])
  {
    var c := st.clients[i];
    SenderKeeps(st.x, c.snd, 0);
    SenderFrame(st.x, c.snd);
  }

  lemma OwnerSendsReceiving(st: State, i: nat)
    requires i < |st.clients| && st.clients[i].pc == CSend && Receiving(st.x, st.server, st.clients[i])
    requires st.server.thread.pc in {TRecvStart, TRecv}
    ensures Receiving(ClientStep(st, i).x, ClientStep(st, i).server, ClientStep(st, i).clients[i])
  {
    var c := st.clients[i];
    var got := if st.server.thread.pc == TRecvStart then 0 else st.server.thread.rcv.read;
    SenderKeeps(st.x, c.snd, got);
    SenderFrame(st.x, c.snd);
    if st.server.thread.pc == TRecv {
      SenderKeepsReceiver(st.x, c.snd, st.server.thread.rcv);
    }
  }

  lemma OwnerSendsReplying(st: State, i: nat)
    requires i < |st.clients| && st.clients[i].pc == CSend && Replying(st.x, st.server, st.clients[i])
    requires st.clients[i].snd.sent <= |st.clients[i].snd.msg| && st.clients[i].snd.pc != SSetLen
    ensures Replying(ClientStep(st, i).x, ClientStep(st, i).server, ClientStep(st, i).clients[i])
    ensures ClientStep(st, i).clients[i].snd.sent <= |st.clients[i].snd.msg|
  {
    SenderFrame(st.x, st.clients[i].snd);
  }

  lemma OwnerSendsCompleted(st: State, i: nat)
    requires i < |st.clients| && st.clients[i].pc == CSend && Completed(st.x, st.server, st.clients[i])
    requires st.clients[i].snd.sent <= |st.clients[i].snd.msg| && st.clients[i].snd.pc != SSetLen
    ensures Completed(ClientStep(st, i).x, ClientStep(st, i).server, ClientStep(st, i).clients[i])
    ensures ClientStep(st, i).clients[i].snd.sent <= |st.clients[i].snd.msg|
  {
    SenderFrame(st.x, st.clients[i].snd);
  }

  lemma OwnerWaits(st: State, i: nat)
    requires i < |st.clients| && st.clients[i].pc in {CWaitComplete, CWaitReady}
    requires Exchange(st.x, st.server, st.clients[i])
    ensures GoesOn(st, i)
  {
  }

  lemma OwnerChecks(st: State, i: nat)
    requires i < |st.clients| && st.clients[i].pc == CCheckResp && Exchange(st.x, st.server, st.clients[i])
    ensures GoesOn(st, i)
  {
  }

  lemma OwnerReceivesCut(st: State, i: nat)
    requires i < |st.clients| && st.clients[i].pc == CRecv && Completed(st.x, st.server, st.clients[i]) &&
        Cut(st.server.thread)
    ensures var st' := ClientStep(st, i); var c := st'.clients[i];
            && st'.x == st.x
            && (c.pc == CIdle || (c.pc == CRecv && Completed(st'.x, st'.server, c)))
  {
  }

  lemma OwnerReceivesWhole(st: State, i: nat)
    requires i < |st.clients| && st.clients[i].pc == CRecv && Completed(st.x, st.server, st.clients[i]) &&
        !Cut(st.server.thread)
    ensures var st' := ClientStep(st, i); var c := st'.clients[i];
            && SameButStaged(st.x, st'.x)
            && (if c.pc == CIdle then !st.x.flags.ready
                else c.pc in {CRecv, CFinalReset} && Completed(st'.x, st'.server, c))
  {
    hide Counted, Holds, SenderOk;
    var c := st.clients[i];
    ReceiverFrame(st.x, c.rcv);
    ReceiverKeeps(st.x, st.server.thread.snd, c.rcv);
    var r := RecvStep(st.x, c.rcv).1;
    if r.pc == RDone {
      assert r.buf == st.server.thread.snd.msg;
    }
  }

  /** A sender whose receiver has everything is at rest. */
  lemma SentIsTaken(x: Buffer, s: Sender, got: nat)
    requires SenderOk(x, s, got) && got == |s.msg|
    ensures s.sent == got && !x.flags.staged && s.Left() == 0 && s.pc in {SSetLen, SCheck, SDone}
  {
  }

  lemma OwnerFinishes(st: State, i: nat)
    requires i < |st.clients| && st.clients[i].pc == CFinalReset && Exchange(st.x, st.server, st.clients[i])
    ensures var c := st.clients[i]; var t := st.server.thread;
            && Quiet(st.server)
            && Delivered(|st.x.data|, Outcome(c.snd.msg, t.rcv.buf, t.snd.msg, c.rcv.buf,
                                              c.snd.handoffs, c.rcv.handoffs, t.rcv.pc == RFail))
  {
    var t := st.server.thread;
    if Cut(t) {
      CutIsPart(st.x, st.clients[i], t.rcv);
    }
  }

  // ----- the server's steps, seen from the owner -----

  lemma IrqKeepsClaimed(st: State, c: Client)
    requires Claimed(st.x, st.server, c)
    ensures Claimed(IrqStep(st).x, IrqStep(st).server, c)
  {
  }

  lemma IrqKeepsCalled(st: State, c: Client)
    requires Called(st.x, st.server, c) && Interrupts(st) && st.x.flags.pending
    ensures Called(IrqStep(st).x, IrqStep(st).server, c) && IrqStep(st).x.flags.complete == st.x.flags.complete
  {
  }

  lemma IrqKeepsPickedUp(st: State)
    requires PickedUp(st.x, st.server)
    ensures IrqStep(st) == st.(server := st.server.(irq := IIdle, thread := IrqStep(st).server.thread))
    ensures PickedUp(IrqStep(st).x, IrqStep(st).server)
    ensures IrqStep(st).server.thread in {st.server.thread, st.server.thread.(asleep := false)}
  {
  }

  lemma IrqKeepsServed(st: State, c: Client)
    ensures PickedUp(st.x, st.server) && Receiving(st.x, st.server, c) ==> Receiving(IrqStep(st).x, IrqStep(st).server, c)
    ensures PickedUp(st.x, st.server) && Replying(st.x, st.server, c) ==> Replying(IrqStep(st).x, IrqStep(st).server, c)
    ensures PickedUp(st.x, st.server) && Completed(st.x, st.server, c) ==> Completed(IrqStep(st).x, IrqStep(st).server, c)
  {
    if PickedUp(st.x, st.server) {
      IrqKeepsPickedUp(st);
    }
  }

  lemma IrqKeeps(st: State, c: Client)
    requires Exchange(st.x, st.server, c) && Engaged(c.pc) && Interrupts(st) && st.x.flags.pending
    ensures Exchange(IrqStep(st).x, IrqStep(st).server, c)
  {
    if c.pc in {CUnlockOk, CStage, CIpi} {
      IrqKeepsClaimed(st, c);
    } else if PickedUp(st.x, st.server) {
      IrqKeepsPickedUp(st);
      IrqKeepsServed(st, c);
    } else {
      IrqKeepsCalled(st, c);
    }
  }

  lemma ThreadIdlesClaimed(serve: Oracle, st: State, c: Client)
    requires Claimed(st.x, st.server, c)
    ensures Claimed(ThreadStep(serve, st).x, ThreadStep(serve, st).server, c)
  {
  }

  lemma ThreadIdlesCalled(serve: Oracle, st: State, c: Client)
    requires Called(st.x, st.server, c) && IdleThread(st.server.thread)
    ensures Called(ThreadStep(serve, st).x, ThreadStep(serve, st).server, c) && ThreadStep(serve, st).x == st.x
    ensures ThreadStep(serve, st).server.thread.pc in {TPrepare, TTest, TSleep, TClear}
  {
  }

  lemma ThreadClears(serve: Oracle, st: State, c: Client)
    requires Called(st.x, st.server, c) && st.server.thread.pc == TClear
    ensures Receiving(ThreadStep(serve, st).x, ThreadStep(serve, st).server, c) && ThreadStep(serve, st).x == st.x
    ensures ThreadStep(serve, st).server.thread.pc == TRecvStart
  {
  }

  lemma ThreadStartsReceive(serve: Oracle, st: State, c: Client)
    requires Receiving(st.x, st.server, c) && st.server.thread.pc == TRecvStart
    ensures Receiving(ThreadStep(serve, st).x, ThreadStep(serve, st).server, c) && ThreadStep(serve, st).x == st.x
    ensures ThreadStep(serve, st).server.thread.pc == TRecv
  {
  }

  lemma ThreadReceives(serve: Oracle, st: State, c: Client)
    requires Receiving(st.x, st.server, c) && st.server.thread.pc == TRecv
    ensures var st' := ThreadStep(serve, st);
            && st'.x.flags.complete == st.x.flags.complete
            && (if st'.server.thread.pc == TRecv then Receiving(st'.x, st'.server, c)
                else st'.server.thread.pc == THandle && Replying(st'.x, st'.server, c))
  {
    hide Counted, Holds, SenderOk;
    ReceiverFrame(st.x, st.server.thread.rcv);
    ReceiverKeeps(st.x, c.snd, st.server.thread.rcv);
    var r := RecvStep(st.x, st.server.thread.rcv).1;
    if r.pc == RDone {
      SentIsTaken(st.x, c.snd, r.read);
    }
  }

  lemma ThreadHandles(serve: Oracle, st: State, c: Client)
    requires Replying(st.x, st.server, c) && st.server.thread.pc in {THandle, TComplete}
    ensures Replying(ThreadStep(serve, st).x, ThreadStep(serve, st).server, c) && ThreadStep(serve, st).x == st.x
    ensures ThreadStep(serve, st).server.thread.pc in {TComplete, TStage, TRaiseComplete}
  {
  }

  lemma ThreadStages(serve: Oracle, st: State, c: Client)
    requires Replying(st.x, st.server, c) && st.server.thread.pc == TStage
    ensures Replying(ThreadStep(serve, st).x, ThreadStep(serve, st).server, c)
    ensures ThreadStep(serve, st).x.flags.complete == st.x.flags.complete
    ensures ThreadStep(serve, st).server.thread.pc in {TStage, TRaiseComplete}
  {
    SenderFrame(st.x, st.server.thread.snd);
    if !Cut(st.server.thread) {
      SenderKeeps(st.x, st.server.thread.snd, 0);
    }
  }

  lemma ThreadCompletes(serve: Oracle, st: State, c: Client)
    requires Replying(st.x, st.server, c) && st.server.thread.pc == TRaiseComplete
    requires c.rcv == NEW_RECEIVER
    ensures Completed(ThreadStep(serve, st).x, ThreadStep(serve, st).server, c) && ThreadStep(serve, st).x.flags.complete
  {
  }

  lemma ThreadSendsCut(serve: Oracle, st: State, c: Client)
    requires Completed(st.x, st.server, c) && st.server.thread.pc == TSend && Cut(st.server.thread)
    ensures Completed(ThreadStep(serve, st).x, ThreadStep(serve, st).server, c)
  {
  }

  lemma ThreadSendsWhole(serve: Oracle, st: State, c: Client)
    requires Completed(st.x, st.server, c) && st.server.thread.pc == TSend && !Cut(st.server.thread)
    ensures Completed(ThreadStep(serve, st).x, ThreadStep(serve, st).server, c)
  {
    SenderFrame(st.x, st.server.thread.snd);
    SenderKeeps(st.x, st.server.thread.snd, Taken(c));
    if c.pc == CRecv {
      SenderKeepsReceiver(st.x, st.server.thread.snd, c.rcv);
    }
  }

  lemma ThreadSends(serve: Oracle, st: State, c: Client)
    requires Completed(st.x, st.server, c) && st.server.thread.pc == TSend
    ensures Completed(ThreadStep(serve, st).x, ThreadStep(serve, st).server, c)
    ensures ThreadStep(serve, st).x.flags.complete == st.x.flags.complete
  {
    hide SendStep, Completed;
    SenderFrame(st.x, st.server.thread.snd);
    if Cut(st.server.thread) {
      ThreadSendsCut(serve, st, c);
    } else {
      ThreadSendsWhole(serve, st, c);
    }
  }

  lemma ThreadRests(serve: Oracle, st: State, c: Client)
    requires Completed(st.x, st.server, c) && st.server.thread.pc != TSend
    ensures Completed(ThreadStep(serve, st).x, ThreadStep(serve, st).server, c) && ThreadStep(serve, st).x == st.x
  {
  }

  lemma ThreadServes(serve: Oracle, st: State, c: Client)
    requires Exchange(st.x, st.server, c) && c.pc in {CSend, CWaitComplete, CWaitReady} && !st.x.flags.complete
    requires st.server.thread.pc in {TRecvStart, TRecv, THandle, TComplete, TStage, TRaiseComplete}
    ensures Exchange(ThreadStep(serve, st).x, ThreadStep(serve, st).server, c)
  {
    match st.server.thread.pc
    case TRecvStart => ThreadStartsReceive(serve, st, c);
    case TRecv => ThreadReceives(serve, st, c);
    case THandle | TComplete => ThreadHandles(serve, st, c);
    case TStage => ThreadStages(serve, st, c);
    case _ => ThreadCompletes(serve, st, c);
  }

  lemma ThreadKeeps(serve: Oracle, st: State, c: Client)
    requires Exchange(st.x, st.server, c) && Engaged(c.pc)
    ensures Exchange(ThreadStep(serve, st).x, ThreadStep(serve, st).server, c)
  {
    if c.pc in {CUnlockOk, CStage, CIpi} {
      ThreadIdlesClaimed(serve, st, c);
    } else if st.x.flags.complete {
      if st.server.thread.pc == TSend { ThreadSends(serve, st, c); } else { ThreadRests(serve, st, c); }
    } else if st.server.thread.pc in {TRecvStart, TRecv, THandle, TComplete, TStage, TRaiseComplete} {
      ThreadServes(serve, st, c);
    } else if st.server.thread.pc == TClear {
      ThreadClears(serve, st, c);
    } else {
      ThreadIdlesCalled(serve, st, c);
    }
  }

  // ----- whole states -----

  lemma OwnerSends(st: State, i: nat)
    requires i < |st.clients| && st.clients[i].pc == CSend && Exchange(st.x, st.server, st.clients[i])
    ensures GoesOn(st, i)
  {
    hide Counted, Holds, SenderOk, ReceiverOk;
    var c := st.clients[i];
    SenderFrame(st.x, c.snd);
    if st.x.flags.complete {
      OwnerSendsCompleted(st, i);
    } else if st.server.thread.pc in {TRecvStart, TRecv} {
      OwnerSendsReceiving(st, i);
    } else if st.server.thread.pc in {THandle, TComplete, TStage, TRaiseComplete} {
      OwnerSendsReplying(st, i);
    } else {
      OwnerSendsCalled(st, i);
    }
  }

  lemma TakingIsCompleted(x: Buffer, v: Server, c: Client)
    requires Exchange(x, v, c) && c.pc == CRecv
    ensures x.flags.complete && Completed(x, v, c)
  {
    hide Completed;
  }

  lemma OwnerReceives(st: State, i: nat)
    requires i < |st.clients| && st.clients[i].pc == CRecv && Exchange(st.x, st.server, st.clients[i])
    ensures GoesOn(st, i)
  {
    hide Claimed, Called, Receiving, Replying;
    TakingIsCompleted(st.x, st.server, st.clients[i]);
    if Cut(st.server.thread) {
      OwnerReceivesCut(st, i);
    } else {
      OwnerReceivesWhole(st, i);
    }
  }

  lemma OwnerExchange(st: State, i: nat)
    requires i < |st.clients| && ClientOk(st, i) && Interrupts(st)
    requires Engaged(st.clients[i].pc) && st.clients[i].pc != CFinalReset
    ensures GoesOn(st, i)
  {
    hide ClientStep, Claimed, Called, Receiving, Replying, Completed, Interrupts;
    match st.clients[i].pc
    case CUnlockOk | CStage | CIpi => OwnerClaims(st, i);
    case CSend => OwnerSends(st, i);
    case CWaitComplete | CWaitReady => OwnerWaits(st, i);
    case CCheckResp => OwnerChecks(st, i);
    case _ => OwnerReceives(st, i);
  }

  /** What the owner leaves alone before its final reset. */
  lemma OwnerFrame(st: State, i: nat)
    requires i < |st.clients| && Engaged(st.clients[i].pc) && st.clients[i].pc != CFinalReset
    ensures var st' := ClientStep(st, i);
            && SameButStaged(st.x, st'.x)
            && st' == st.(x := st'.x, clients := st'.clients, server := st'.server, lock := st'.lock)
            && st'.clients == st.clients[i := st'.clients[i]]
            && st'.server == (if st.clients[i].pc == CIpi then st.server.(ipis := st.server.ipis + 1) else st.server)
            && st'.lock == (if st.clients[i].pc == CUnlockOk then None else st.lock)
            && !Locked(st'.clients[i].pc)
  {
    hide SendStep, RecvStep;
    var c := st.clients[i];
    SenderFrame(st.x, c.snd);
    ReceiverFrame(st.x, c.rcv);
  }

  lemma OwnerShared(st: State, i: nat)
    requires i < |st.clients| && Shared(st) && ClientOk(st, i)
    requires Engaged(st.clients[i].pc) && st.clients[i].pc != CFinalReset
    ensures Shared(ClientStep(st, i))
  {
    OwnerExchange(st, i);
    OwnerFrame(st, i);
  }

  /** What one client's step may do to the rest: the lock is its own or free, and shared words change in its turn only. */
  ghost predicate InTurn(st: State, st': State, i: nat) {
    && i < |st.clients| == |st'.clients|
    && st'.clients == st.clients[i := st'.clients[i]]
    && (st'.lock == st.lock || {st.lock, st'.lock} == {None, Some(i)})
    && ((st'.x == st.x && st'.server == st.server)
        || Engaged(st.clients[i].pc) || st.clients[i].pc in {CReset, CRaise})
  }

  /** The clients beside the one that moved. */
  lemma OtherKeeps(st: State, st': State, i: nat, j: nat)
    requires InTurn(st, st', i) && j < |st.clients| && j != i
    requires ClientOk(st, i) && ClientOk(st, j) && OneEngaged(st)
    ensures ClientOk(st', j)
    ensures st.clients[i].pc in {CReset, CRaise} ==> !Engaged(st'.clients[j].pc)
  {
  }

  lemma OthersKeep(st: State, st': State, i: nat)
    requires Inv(st) && InTurn(st, st', i)
    requires Engaged(st'.clients[i].pc) ==> Engaged(st.clients[i].pc) || st.clients[i].pc == CRaise
    ensures forall j :: 0 <= j < |st.clients| && j != i ==> ClientOk(st', j)
    ensures OneEngaged(st')
  {
    assert ClientOk(st, i);
    forall j | 0 <= j < |st.clients| && j != i
      ensures ClientOk(st', j) && (st.clients[i].pc in {CReset, CRaise} ==> !Engaged(st'.clients[j].pc))
    {
      assert ClientOk(st, j);
      OtherKeeps(st, st', i, j);
    }
  }

  lemma OwnerInv(st: State, i: nat)
    requires Inv(st) && i < |st.clients| && Engaged(st.clients[i].pc) && st.clients[i].pc != CFinalReset
    ensures Inv(ClientStep(st, i))
  {
    assert ClientOk(st, i);
    OwnerExchange(st, i);
    OwnerFrame(st, i);
    OwnerShared(st, i);
    OthersKeep(st, ClientStep(st, i), i);
  }

  lemma FinishInv(st: State, i: nat)
    requires Inv(st) && i < |st.clients| && st.clients[i].pc == CFinalReset
    ensures Inv(ClientStep(st, i))
  {
    assert ClientOk(st, i);
    OwnerFinishes(st, i);
    OthersKeep(st, ClientStep(st, i), i);
    assert Shared(ClientStep(st, i));
  }

  lemma BystanderAt(st: State, i: nat)
    requires i < |st.clients| && ClientAt(st.x, st.lock, st.clients[i], i)
    requires !Engaged(st.clients[i].pc) && st.clients[i].pc != CRaise
    ensures var st' := ClientStep(st, i);
            && ClientAt(st'.x, st'.lock, st'.clients[i], i)
            && !Engaged(st'.clients[i].pc)
            && InTurn(st, st', i) && st'.server == st.server
            && st' == st.(x := st'.x, clients := st'.clients, lock := st'.lock)
            && (st.clients[i].pc != CReset ==> st'.x == st.x)
            && (st'.lock.Some? ==> st'.lock.value < |st.clients| || st'.lock == st.lock)
  {
    hide SendStep, RecvStep;
  }

  /** CReset clears flags, and then nobody owns the buffer. */
  lemma BystanderInv(st: State, i: nat)
    requires Inv(st) && i < |st.clients| && !Engaged(st.clients[i].pc) && st.clients[i].pc != CRaise
    ensures Inv(ClientStep(st, i))
  {
    assert ClientOk(st, i);
    BystanderAt(st, i);
    var st' := ClientStep(st, i);
    OthersKeep(st, st', i);
    if st.x.flags.pending && st.x.flags.ready {
      var k :| 0 <= k < |st.clients| && Engaged(st.clients[k].pc);
      assert st'.clients[k] == st.clients[k];
    }
    assert Shared(st');
  }

  lemma RaiseInv(st: State, i: nat)
    requires Inv(st) && i < |st.clients| && st.clients[i].pc == CRaise
    ensures Inv(ClientStep(st, i))
  {
    assert ClientOk(st, i);
    var st' := ClientStep(st, i);
    OthersKeep(st, st', i);
    assert Engaged(st'.clients[i].pc);
    assert Claimed(st'.x, st'.server, st'.clients[i]);
    assert Shared(st');
  }

  /** The server changes no client, and while nobody owns the buffer it changes no flag. */
  lemma ServerKeepsClients(st: State, st': State)
    requires Inv(st) && st'.clients == st.clients && st'.lock == st.lock
    requires st'.x.flags.pending == st.x.flags.pending
    requires !st.x.flags.pending ==> st'.x == st.x
    requires forall i :: 0 <= i < |st.clients| && Engaged(st.clients[i].pc) ==>
               Exchange(st.x, st.server, st.clients[i]) ==> Exchange(st'.x, st'.server, st'.clients[i])
    ensures OneEngaged(st') && forall i :: 0 <= i < |st.clients| ==> ClientOk(st', i)
  {
    forall i | 0 <= i < |st.clients| ensures ClientOk(st', i) {
      assert ClientOk(st, i);
    }
  }

  lemma IrqShared(st: State)
    requires Shared(st)
    ensures var st' := IrqStep(st);
            && Shared(st')
            && st' == st.(x := st'.x, server := st'.server, activated := st'.activated)
            && st'.x == st.x.(flags := st.x.flags.(active := st'.x.flags.active))
            && (!st.x.flags.pending ==> st'.x == st.x)
  {
    var st' := IrqStep(st);
    if st.x.flags.pending && st.x.flags.ready {
      var k :| 0 <= k < |st.clients| && Engaged(st.clients[k].pc);
      assert st'.clients[k] == st.clients[k];
    }
  }

  lemma IrqInv(st: State)
    requires Inv(st)
    ensures Inv(IrqStep(st))
  {
    IrqShared(st);
    forall i | 0 <= i < |st.clients| && Engaged(st.clients[i].pc)
      ensures Exchange(st.x, st.server, st.clients[i]) ==>
                Exchange(IrqStep(st).x, IrqStep(st).server, st.clients[i])
    {
      assert ClientOk(st, i);
      IrqKeeps(st, st.clients[i]);
    }
    ServerKeepsClients(st, IrqStep(st));
  }

  lemma ThreadTouches(serve: Oracle, st: State)
    ensures var st' := ThreadStep(serve, st);
            && st' == st.(x := st'.x, server := st'.server)
            && st'.server.ipis == st.server.ipis && st'.server.irq == st.server.irq
  {
  }

  lemma ThreadIdleFrame(serve: Oracle, st: State)
    requires IdleThread(st.server.thread)
    ensures ThreadStep(serve, st).x == st.x
  {
  }

  /** Of the flags the thread touches STAGED and COMPLETE only. */
  lemma ThreadFrame(serve: Oracle, st: State)
    ensures var y := ThreadStep(serve, st).x;
            && |y.data| == |st.x.data|
            && y.flags.(staged := false, complete := false) == st.x.flags.(staged := false, complete := false)
  {
    match st.server.thread.pc
    case TRecv => ReceiverFrame(st.x, st.server.thread.rcv);
    case TStage | TSend => SenderFrame(st.x, st.server.thread.snd);
    case _ =>
  }

  lemma ThreadHandOff(serve: Oracle, st: State)
    requires Interrupts(st) && Awake(st) && st.server.thread.pc != TDead
    ensures var st' := ThreadStep(serve, st);
            && Interrupts(st') && Awake(st') && st'.server.thread.pc != TDead
            && (Quiet(st.server) ==> Quiet(st'.server))
  {
    ThreadTouches(serve, st);
    ThreadFrame(serve, st);
  }

  lemma ThreadShared(serve: Oracle, st: State)
    requires Shared(st)
    ensures Shared(ThreadStep(serve, st))
  {
    ThreadTouches(serve, st);
    ThreadFrame(serve, st);
    ThreadHandOff(serve, st);
    if st.x.flags.pending && st.x.flags.ready {
      var k :| 0 <= k < |st.clients| && Engaged(st.clients[k].pc);
      assert ThreadStep(serve, st).clients[k] == st.clients[k];
    }
  }

  lemma ThreadInv(serve: Oracle, st: State)
    requires Inv(st)
    ensures Inv(ThreadStep(serve, st))
  {
    ThreadShared(serve, st);
    ThreadTouches(serve, st);
    ThreadFrame(serve, st);
    if !st.x.flags.pending {
      ThreadIdleFrame(serve, st);
    }
    forall i | 0 <= i < |st.clients| && Engaged(st.clients[i].pc)
      ensures Exchange(st.x, st.server, st.clients[i]) ==>
                Exchange(ThreadStep(serve, st).x, ThreadStep(serve, st).server, st.clients[i])
    {
      assert ClientOk(st, i);
      ThreadKeeps(serve, st, st.clients[i]);
    }
    ServerKeepsClients(st, ThreadStep(serve, st));
  }
}
