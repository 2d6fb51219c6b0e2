/** What a call of sync_send returns, and what its competitors do: who goes back for the lock, who gets the buffer. */
module XbufContention {
  import opened Bytes
  import opened Xbuf
  import opened XbufSafety
  import opened XbufInvariant
  import opened XbufSteps
  import opened XbufTheorems
  import opened XbufProgress

  // ----- when a call fails -----

  /** Nobody sets READY again. */
  lemma ReadyNeverRises(serve: Oracle, st: State, e: Event)
    ensures Step(serve, st, e).x.flags.ready ==> st.x.flags.ready
  {
    hide SendStep, RecvStep, ThreadStep;
    match e
    case ClientRun(i) =>
      if i < |st.clients| {
        SenderFrame(st.x, st.clients[i].snd);
        ReceiverFrame(st.x, st.clients[i].rcv);
      }
    case ThreadRun => ThreadFrame(serve, st);
    case _ =>
  }

  /** A client on its way out has seen READY down. */
  ghost predicate RefusedWhenDown(st: State) {
    forall i :: 0 <= i < |st.clients| && st.clients[i].pc == CUnlockErr ==> !st.x.flags.ready
  }

  lemma StepRefuses(serve: Oracle, st: State, e: Event)
    requires RefusedWhenDown(st)
    ensures RefusedWhenDown(Step(serve, st, e))
  {
    var st' := Step(serve, st, e);
    ReadyNeverRises(serve, st, e);
    forall i | 0 <= i < |st'.clients| && st'.clients[i].pc == CUnlockErr ensures !st'.x.flags.ready {
      StepKeepsCount(serve, st, e);
      if st.clients[i].pc != CUnlockErr {
        OnlyReadyRefuses(serve, st, e, i);
      }
    }
  }

  lemma StepKeepsCount(serve: Oracle, st: State, e: Event)
    ensures |Step(serve, st, e).clients| == |st.clients|
  {
    hide SendStep, RecvStep, ThreadStep;
    match e
    case ThreadRun => ThreadTouches(serve, st);
    case _ =>
  }

  lemma OnlyReadyRefuses(serve: Oracle, st: State, e: Event, i: nat)
    requires i < |st.clients| && st.clients[i].pc != CUnlockErr
    requires i < |Step(serve, st, e).clients| && Step(serve, st, e).clients[i].pc == CUnlockErr
    ensures !st.x.flags.ready && Step(serve, st, e).x == st.x
  {
    hide SendStep, RecvStep, ThreadStep;
    if e != ClientRun(i) {
      if st.clients[i].pc != CIdle {
        OthersLeaveCallAlone(serve, st, e, i);
      } else if e == ThreadRun {
        ThreadTouches(serve, st);
      } else if e.ClientRun? && e.client < |st.clients| {
        ClientTouchesItself(st, e.client);
      }
    }
  }

  /** A step out of the call, and what it returns. */
  predicate Leaves(serve: Oracle, st: State, e: Event, i: nat) {
    && i < |st.clients| && st.clients[i].pc != CIdle
    && i < |Step(serve, st, e).clients| && Step(serve, st, e).clients[i].pc == CIdle
  }

  /** A call returns 0 or -1, and -1 with READY down only. */
  lemma FailsOnlyWhenDown(serve: Oracle, st: State, e: Event, i: nat)
    requires Inv(st) && RefusedWhenDown(st) && Leaves(serve, st, e, i)
    ensures Step(serve, st, e).clients[i].result in {0, -1}
    ensures Step(serve, st, e).clients[i].result == -1 ==> !st.x.flags.ready
  {
    hide Exchange, Shared, Logged, OneEngaged, SendStep, RecvStep;
    if e != ClientRun(i) {
      OthersLeaveCallAlone(serve, st, e, i);
      assert false;
    }
    assert ClientOk(st, i);
    if st.clients[i].pc == CRecv && st.x.flags.ready {
      TakingGoesOnWhenUp(st, i);
    }
  }

  lemma TakingGoesOnWhenUp(st: State, i: nat)
    requires i < |st.clients| && st.clients[i].pc == CRecv && st.x.flags.ready && Exchange(st.x, st.server, st.clients[i])
    ensures ClientStep(st, i).clients[i].pc != CIdle
  {
    TakingIsCompleted(st.x, st.server, st.clients[i]);
    TakingWorks(st, i);
  }

  /** In a call, or out of one with 0. */
  predicate Fine(st: State, i: nat) {
    i < |st.clients| && st.clients[i].result == 0
  }

  /** Of a client that never called, nothing is known. */
  ghost predicate CallersAreFine(st: State) {
    forall i :: 0 <= i < |st.clients| && st.clients[i].pc != CIdle ==> Fine(st, i)
  }

  lemma StepIsFine(serve: Oracle, st: State, e: Event)
    requires Inv(st) && RefusedWhenDown(st) && CallersAreFine(st) && st.x.flags.ready
    ensures CallersAreFine(Step(serve, st, e))
    ensures forall i: nat :: Fine(st, i) ==> Fine(Step(serve, st, e), i)
    ensures forall r, i: nat :: e == Begin(i, r) && i < |st.clients| ==> Fine(Step(serve, st, e), i)
  {
    hide Inv, RefusedWhenDown;
    var st' := Step(serve, st, e);
    StepKeepsCount(serve, st, e);
    forall i | 0 <= i < |st.clients|
      ensures st'.clients[i] == st.clients[i] || Fine(st', i)
    {
      if Leaves(serve, st, e, i) {
        FailsOnlyWhenDown(serve, st, e, i);
      } else {
        ResultIsKept(serve, st, e, i);
      }
    }
  }

  lemma ResultIsKept(serve: Oracle, st: State, e: Event, i: nat)
    requires i < |st.clients| && !Leaves(serve, st, e, i) && (st.clients[i].pc != CIdle ==> Fine(st, i))
    ensures var st' := Step(serve, st, e);
            i < |st'.clients| && (st'.clients[i] == st.clients[i] || Fine(st', i))
  {
    hide SendStep, RecvStep, ThreadStep;
    StepKeepsCount(serve, st, e);
    if e != ClientRun(i) {
      if st.clients[i].pc != CIdle {
        OthersLeaveCallAlone(serve, st, e, i);
      } else if e == ThreadRun {
        ThreadTouches(serve, st);
      } else if e.ClientRun? && e.client < |st.clients| {
        ClientTouchesItself(st, e.client);
      }
    }
  }

  lemma {:induction false} RunIsFine(serve: Oracle, st: State, es: seq<Event>, i: nat)
    requires Inv(st) && RefusedWhenDown(st) && CallersAreFine(st) && st.x.flags.ready && NeverDisabled(es)
    requires i < |st.clients| && (Fine(st, i) || exists r :: Begin(i, r) in es)
    ensures Fine(Run(serve, st, es), i)
    decreases |es|
  {
    hide Inv, RefusedWhenDown, CallersAreFine, Step;
    if es != [] {
      StepIsFine(serve, st, es[0]);
      StepInv(serve, st, es[0]);
      StepRefuses(serve, st, es[0]);
      StepKeepsReady(serve, st, es[0]);
      StepKeepsCount(serve, st, es[0]);
      if !Fine(st, i) {
        var r :| Begin(i, r) in es;
        assert es == [es[0]] + es[1..];
      }
      RunIsFine(serve, Step(serve, st, es[0]), es[1..], i);
    }
  }

  /** While nobody disables the buffer, no call fails: once a client has called, it is in a call or its last one
      returned 0. */
  lemma EnabledCallsSucceed(serve: Oracle, st0: State, es: seq<Event>, i: nat, request: seq<Byte>)
    requires Init(st0) && NeverDisabled(es) && i < |st0.clients| && Begin(i, request) in es
    ensures var st := Run(serve, st0, es); i < |st.clients| && (st.clients[i].pc == CIdle ==> Returned(st, i))
  {
    InitInv(st0);
    RunIsFine(serve, st0, es, i);
  }

  // ----- a waiting client -----

  /** The client's own turns in a run. */
  function OwnTurns(es: seq<Event>, i: nat): nat
    decreases |es|
  {
    if es == [] then 0 else (if es[0] == ClientRun(i) then 1 else 0) + OwnTurns(es[1..], i)
  }

  function TurnsToLock(pc: ClientPc): nat {
    match pc
    case CUnlockWait => 2
    case CWait => 1
    case _ => 0
  }

  predicate GoingBack(c: Client) {
    c.pc in {CUnlockWait, CWait, CLock}
  }

  /** A client that found PENDING up gives the lock back and comes to it again; its call goes on as it was. */
  lemma {:induction false} ComesBack(serve: Oracle, st: State, es: seq<Event>, i: nat)
    requires i < |st.clients| && GoingBack(st.clients[i]) && OwnTurns(es, i) == TurnsToLock(st.clients[i].pc)
    ensures var st' := Run(serve, st, es);
            i < |st'.clients| && st'.clients[i] == st.clients[i].(pc := CLock)
    decreases |es|
  {
    hide Step, ClientStep, SendStep, RecvStep;
    if es != [] {
      if es[0] == ClientRun(i) {
        OneTurnBack(serve, st, i);
      } else {
        OthersLeaveCallAlone(serve, st, es[0], i);
      }
      ComesBack(serve, Step(serve, st, es[0]), es[1..], i);
    }
  }

  lemma OneTurnBack(serve: Oracle, st: State, i: nat)
    requires i < |st.clients| && st.clients[i].pc in {CUnlockWait, CWait}
    ensures var st' := Step(serve, st, ClientRun(i));
            && |st'.clients| == |st.clients| && st'.x == st.x
            && st'.clients[i] == st.clients[i].(pc := if st.clients[i].pc == CWait then CLock else CWait)
  {
  }

  /** A buffer in use: the client that looks at it leaves it alone, and three turns later it is at the lock again, with
      the lock given back on the way, whatever the others did. */
  lemma WaiterComesBack(serve: Oracle, st: State, es: seq<Event>, i: nat)
    requires Inv(st) && i < |st.clients| && st.clients[i].pc == CPending && st.x.flags.pending
    requires es != [] && es[0] == ClientRun(i) && OwnTurns(es, i) == 3
    ensures Step(serve, st, es[0]).x == st.x
    ensures var st' := Run(serve, st, es);
            i < |st'.clients| && st'.clients[i] == st.clients[i].(pc := CLock) && st'.lock != Some(i)
  {
    var st1 := Step(serve, st, es[0]);
    assert st1.clients[i] == st.clients[i].(pc := CUnlockWait);
    assert st1.x == st.x;
    ComesBack(serve, st1, es[1..], i);
    RunInv(serve, st, es);
    assert ClientOk(Run(serve, st, es), i);
  }

  // ----- a free buffer -----

  function TurnsToClaim(pc: ClientPc): nat {
    match pc
    case CLock => 5
    case CReady => 4
    case CPending => 3
    case CReset => 2
    case CRaise => 1
    case _ => 0
  }

  /** Holding the lock of an enabled buffer that was free when it was taken. */
  ghost predicate Claiming(st: State, i: nat) {
    && Inv(st) && st.x.flags.ready && i < |st.clients|
    && (st.clients[i].pc == CUnlockOk
        || (st.clients[i].pc in {CReady, CPending, CReset, CRaise} && !st.x.flags.pending))
  }

  /** While a client holds the lock, nobody else raises PENDING. */
  lemma OthersCannotClaim(serve: Oracle, st: State, e: Event, i: nat)
    requires Inv(st) && i < |st.clients| && Locked(st.clients[i].pc) && e != ClientRun(i)
    ensures var st' := Step(serve, st, e);
            && i < |st'.clients| && st'.clients[i] == st.clients[i] && st'.acquired == st.acquired
            && (st'.x.flags.pending ==> st.x.flags.pending)
  {
    hide Exchange, Shared, Logged, OneEngaged, SendStep, RecvStep;
    OthersLeaveCallAlone(serve, st, e, i);
    assert ClientOk(st, i);
    match e
    case ThreadRun => ThreadTouches(serve, st); ThreadFrame(serve, st);
    case ClientRun(j) =>
      if j < |st.clients| {
        assert ClientOk(st, j);
        SenderFrame(st.x, st.clients[j].snd);
        ReceiverFrame(st.x, st.clients[j].rcv);
      }
    case _ =>
  }

  lemma OwnTurnClaims(serve: Oracle, st: State, i: nat)
    requires Claiming(st, i) && st.clients[i].pc != CUnlockOk
    ensures var st' := Step(serve, st, ClientRun(i)); var pc, pc' := st.clients[i].pc, st'.clients[i].pc;
            && Claiming(st', i) && st'.clients[i] == st.clients[i].(pc := pc')
            && TurnsToClaim(pc') == TurnsToClaim(pc) - 1
            && st'.acquired == st.acquired + if pc == CRaise then 1 else 0
  {
    StepInv(serve, st, ClientRun(i));
    hide Inv, SendStep, RecvStep;
  }

  lemma {:induction false} ClaimGoesOn(serve: Oracle, st: State, es: seq<Event>, i: nat)
    requires Claiming(st, i) && NeverDisabled(es) && OwnTurns(es, i) == TurnsToClaim(st.clients[i].pc)
    ensures var st' := Run(serve, st, es);
            && i < |st'.clients| && st'.clients[i] == st.clients[i].(pc := CUnlockOk)
            && st'.acquired == st.acquired + if st.clients[i].pc == CUnlockOk then 0 else 1
    decreases |es|
  {
    hide Inv, Step;
    if es != [] {
      if es[0] == ClientRun(i) {
        OwnTurnClaims(serve, st, i);
      } else {
        OthersCannotClaim(serve, st, es[0], i);
        StepInv(serve, st, es[0]);
        StepKeepsReady(serve, st, es[0]);
      }
      ClaimGoesOn(serve, Step(serve, st, es[0]), es[1..], i);
    }
  }

  lemma TakesLock(serve: Oracle, st: State, i: nat)
    requires Inv(st) && st.lock == None && st.x.flags.ready && !st.x.flags.pending
    requires i < |st.clients| && st.clients[i].pc == CLock
    ensures var st' := Step(serve, st, ClientRun(i));
            Claiming(st', i) && st'.clients[i] == st.clients[i].(pc := CReady) && st'.acquired == st.acquired
  {
    StepInv(serve, st, ClientRun(i));
    hide Inv;
  }

  /** A free lock and a free, enabled buffer: a client at the lock owns the buffer five turns later, whatever the
      others do between them.  PENDING and READY are up then, the other flags down, and one claim more is counted. */
  lemma ClientClaims(serve: Oracle, st: State, es: seq<Event>, i: nat)
    requires Inv(st) && st.lock == None && st.x.flags.ready && !st.x.flags.pending
    requires i < |st.clients| && st.clients[i].pc == CLock
    requires NeverDisabled(es) && es != [] && es[0] == ClientRun(i) && OwnTurns(es, i) == 5
    ensures var st' := Run(serve, st, es);
            && i < |st'.clients| && st'.clients[i] == st.clients[i].(pc := CUnlockOk) && st'.lock == Some(i)
            && st'.x.flags == Flags(true, true, false, false, false) && st'.acquired == st.acquired + 1
  {
    TakesLock(serve, st, i);
    ClaimGoesOn(serve, Step(serve, st, es[0]), es[1..], i);
    RunInv(serve, st, es);
    ReadyStays(serve, st, es);
    OwnedAtClaim(Run(serve, st, es), i);
  }

  lemma OwnedAtClaim(st: State, i: nat)
    requires Inv(st) && i < |st.clients| && st.clients[i].pc == CUnlockOk
    ensures st.lock == Some(i) && st.x.flags == Flags(st.x.flags.ready, true, false, false, false)
  {
    assert ClientOk(st, i);
  }

  // ----- somebody gets the buffer -----

  ghost predicate SomeAt(st: State, pc: ClientPc) {
    exists i :: 0 <= i < |st.clients| && st.clients[i].pc == pc
  }

  ghost predicate SomeEngaged(st: State) {
    exists i :: 0 <= i < |st.clients| && Engaged(st.clients[i].pc)
  }

  ghost predicate SomeCalling(st: State) {
    exists i :: 0 <= i < |st.clients| && st.clients[i].pc != CIdle
  }

  /** An enabled buffer nobody owns, with a call that wants it. */
  ghost predicate Wanted(st: State) {
    Inv(st) && RefusedWhenDown(st) && st.x.flags.ready && !SomeEngaged(st) && SomeCalling(st)
  }

  /** How far the nearest client is from owning the buffer. */
  ghost function Distance(st: State): nat {
    if st.lock.Some? && st.lock.value < |st.clients| then
      var pc := st.clients[st.lock.value].pc;
      if pc == CUnlockWait then 7 else TurnsToClaim(pc)
    else if SomeAt(st, CLock) then 5 else 6
  }

  /** A turn of this client brings it nearer. */
  ghost predicate Nearest(st: State, i: nat) {
    && i < |st.clients|
    && if st.lock.Some? then st.lock.value == i
       else st.clients[i].pc == if SomeAt(st, CLock) then CLock else CWait
  }

  lemma SomebodyIsNearest(st: State)
    requires Wanted(st)
    ensures exists i :: Nearest(st, i)
  {
    hide Exchange, Logged, OneEngaged;
    var i :| 0 <= i < |st.clients| && st.clients[i].pc != CIdle;
    assert ClientOk(st, i);
    if st.lock.Some? {
      assert Nearest(st, st.lock.value);
    } else if SomeAt(st, CLock) {
      var j :| 0 <= j < |st.clients| && st.clients[j].pc == CLock;
      assert Nearest(st, j);
    } else {
      assert Nearest(st, i);
    }
  }

  /** A step comes nearer, or changes nothing about who is nearest. */
  ghost predicate NotFarther(st: State, st': State) {
    Distance(st') < Distance(st) || (Distance(st') == Distance(st) && forall i: nat :: Nearest(st, i) ==> Nearest(st', i))
  }

  lemma FreeWhileWanted(st: State)
    requires Wanted(st)
    ensures !st.x.flags.pending
    ensures forall i :: 0 <= i < |st.clients| ==> (Locked(st.clients[i].pc) <==> st.lock == Some(i))
    ensures forall i :: 0 <= i < |st.clients| ==> !Engaged(st.clients[i].pc) && st.clients[i].pc != CUnlockErr
    ensures st.lock.Some? ==> st.lock.value < |st.clients|
  {
    hide Exchange, Logged, OneEngaged, Quiet, Interrupts, Awake;
    forall i | 0 <= i < |st.clients| ensures Locked(st.clients[i].pc) <==> st.lock == Some(i) {
      assert ClientOk(st, i);
    }
  }

  /** What one client's turn does to the calls for a free, enabled buffer. */
  lemma TurnOfClient(st: State, i: nat)
    requires i < |st.clients| && st.x.flags.ready && !st.x.flags.pending
    requires !Engaged(st.clients[i].pc) && st.clients[i].pc != CUnlockErr
    ensures var st' := ClientStep(st, i); var pc, pc' := st.clients[i].pc, st'.clients[i].pc;
            && |st'.clients| == |st.clients|
            && (forall j :: 0 <= j < |st.clients| && j != i ==> st'.clients[j] == st.clients[j])
            && match pc
               case CLock =>
                 if st.lock == None then pc' == CReady && st'.lock == Some(i) else pc' == CLock && st'.lock == st.lock
               case CReady => pc' == CPending && st'.lock == st.lock
               case CPending => pc' == CReset && st'.lock == st.lock
               case CReset => pc' == CRaise && st'.lock == st.lock
               case CRaise => pc' == CUnlockOk
               case CUnlockWait => pc' == CWait && st'.lock == None
               case CWait => pc' == CLock && st'.lock == st.lock
               case _ => pc' == pc && st'.lock == st.lock
  {
    hide SendStep, RecvStep;
  }

  lemma ClientComesNearer(serve: Oracle, st: State, i: nat)
    requires Wanted(st) && i < |st.clients|
    ensures var st' := ClientStep(st, i);
            SomeEngaged(st') ||
            (SomeCalling(st') && NotFarther(st, st') && (Nearest(st, i) ==> Distance(st') < Distance(st)))
  {
    FreeWhileWanted(st);
    TurnOfClient(st, i);
    hide Inv, Wanted, ClientStep, RefusedWhenDown;
    var st' := ClientStep(st, i);
    if st'.clients[i].pc != CIdle {
      assert SomeCalling(st');
    } else {
      var j :| 0 <= j < |st.clients| && st.clients[j].pc != CIdle;
      assert st'.clients[j] == st.clients[j];
    }
    if !SomeEngaged(st') {
      WaitersComeNearer(st, st', i);
    }
  }

  lemma WaitersComeNearer(st: State, st': State, i: nat)
    requires i < |st.clients| == |st'.clients|
    requires forall j :: 0 <= j < |st.clients| && j != i ==> st'.clients[j] == st.clients[j]
    requires forall j :: 0 <= j < |st.clients| ==> (Locked(st.clients[j].pc) <==> st.lock == Some(j))
    requires var pc, pc' := st.clients[i].pc, st'.clients[i].pc;
             match pc
             case CLock =>
               if st.lock == None then pc' == CReady && st'.lock == Some(i) else pc' == CLock && st'.lock == st.lock
             case CReady => pc' == CPending && st'.lock == st.lock
             case CPending => pc' == CReset && st'.lock == st.lock
             case CReset => pc' == CRaise && st'.lock == st.lock
             case CUnlockWait => pc' == CWait && st'.lock == None
             case CWait => pc' == CLock && st'.lock == st.lock
             case CIdle => pc' == CIdle && st'.lock == st.lock
             case _ => false
    requires st.lock.Some? ==> st.lock.value < |st.clients|
    ensures NotFarther(st, st') && (Nearest(st, i) ==> Distance(st') < Distance(st))
  {
    if st.lock == None && SomeAt(st, CLock) {
      var k :| 0 <= k < |st.clients| && st.clients[k].pc == CLock;
      assert k != i ==> st'.clients[k].pc == CLock;
    }
    if st'.clients[i].pc == CLock {
      assert SomeAt(st', CLock);
    }
    if st'.lock == None && SomeAt(st', CLock) {
      var k :| 0 <= k < |st'.clients| && st'.clients[k].pc == CLock;
      assert k != i ==> st.clients[k].pc == CLock;
    }
  }

  lemma BeginComesNearer(st: State, i: nat, request: seq<Byte>)
    requires Wanted(st) && i < |st.clients|
    ensures var st' := Begun(st, i, request); SomeCalling(st') && NotFarther(st, st')
  {
    FreeWhileWanted(st);
    hide Inv, Wanted, RefusedWhenDown;
    var st' := Begun(st, i, request);
    if st.clients[i].pc == CIdle {
      assert st'.clients[i].pc == CLock;
      assert SomeAt(st', CLock);
      if SomeAt(st, CLock) {
        var k :| 0 <= k < |st.clients| && st.clients[k].pc == CLock;
        assert st'.clients[k].pc == CLock;
      }
    }
  }

  lemma StepComesNearer(serve: Oracle, st: State, e: Event)
    requires Wanted(st) && e != Disable
    ensures var st' := Step(serve, st, e);
            SomeEngaged(st') ||
            (Wanted(st') && NotFarther(st, st')
             && forall i: nat :: e == ClientRun(i) && Nearest(st, i) ==> Distance(st') < Distance(st))
  {
    StepInv(serve, st, e);
    StepRefuses(serve, st, e);
    StepKeepsReady(serve, st, e);
    StepKeepsCount(serve, st, e);
    hide Inv, RefusedWhenDown, ClientStep, ThreadStep, Begun;
    match e
    case ClientRun(i) => if i < |st.clients| { ClientComesNearer(serve, st, i); }
    case Begin(i, request) => if i < |st.clients| { BeginComesNearer(st, i, request); }
    case ThreadRun =>
      ThreadTouches(serve, st);
      SameCalls(st, Step(serve, st, e));
    case IrqRun => SameCalls(st, Step(serve, st, e));
    case _ =>
  }

  lemma SameCalls(st: State, st': State)
    requires st'.clients == st.clients && st'.lock == st.lock
    ensures (SomeCalling(st) ==> SomeCalling(st')) && NotFarther(st, st')
  {
    assert SomeAt(st, CLock) <==> SomeAt(st', CLock);
  }

  /** Somewhere in the run a client owns the buffer. */
  ghost predicate ClaimedIn(serve: Oracle, st: State, es: seq<Event>) {
    exists k: nat :: k <= |es| && SomeEngaged(Run(serve, st, es[..k]))
  }

  lemma ClaimedAtOnce(serve: Oracle, st: State, es: seq<Event>)
    requires SomeEngaged(st)
    ensures ClaimedIn(serve, st, es)
  {
    assert es[..0] == [];
    assert SomeEngaged(Run(serve, st, es[..0]));
  }

  lemma ClaimedLater(serve: Oracle, st: State, es: seq<Event>)
    requires es != [] && ClaimedIn(serve, Step(serve, st, es[0]), es[1..])
    ensures ClaimedIn(serve, st, es)
  {
    var k: nat :| k <= |es[1..]| && SomeEngaged(Run(serve, Step(serve, st, es[0]), es[1..][..k]));
    assert es[..k + 1][0] == es[0] && es[..k + 1][1..] == es[1..][..k];
    assert SomeEngaged(Run(serve, st, es[..k + 1]));
  }

  lemma {:induction false} RunComesNearer(serve: Oracle, st: State, es: seq<Event>)
    requires Wanted(st) && NeverDisabled(es)
    ensures ClaimedIn(serve, st, es)
            || (Wanted(Run(serve, st, es)) && Distance(Run(serve, st, es)) <= Distance(st))
    decreases |es|
  {
    hide Wanted, Distance, Step, ClaimedIn, SomeEngaged;
    if es != [] {
      var st' := Step(serve, st, es[0]);
      StepComesNearer(serve, st, es[0]);
      if SomeEngaged(st') {
        ClaimedAtOnce(serve, st', es[1..]);
        ClaimedLater(serve, st, es);
      } else {
        RunComesNearer(serve, st', es[1..]);
        if ClaimedIn(serve, st', es[1..]) {
          ClaimedLater(serve, st, es);
        }
      }
    }
  }

  lemma {:induction false} TurnComesNearer(serve: Oracle, st: State, es: seq<Event>, i: nat)
    requires Wanted(st) && NeverDisabled(es) && Nearest(st, i) && ClientRun(i) in es
    ensures ClaimedIn(serve, st, es)
            || (Wanted(Run(serve, st, es)) && Distance(Run(serve, st, es)) < Distance(st))
    decreases |es|
  {
    hide Wanted, Distance, Nearest, Step, ClaimedIn, SomeEngaged;
    var st' := Step(serve, st, es[0]);
    StepComesNearer(serve, st, es[0]);
    assert es == [es[0]] + es[1..];
    if SomeEngaged(st') {
      ClaimedAtOnce(serve, st', es[1..]);
      ClaimedLater(serve, st, es);
    } else {
      if Distance(st') < Distance(st) {
        RunComesNearer(serve, st', es[1..]);
      } else {
        assert es[0] != ClientRun(i);
        TurnComesNearer(serve, st', es[1..], i);
      }
      if ClaimedIn(serve, st', es[1..]) {
        ClaimedLater(serve, st, es);
      }
    }
  }

  /** Every one of n clients gets a turn, among whatever else happens, and nobody disables the buffer. */
  predicate AllTurns(es: seq<Event>, n: nat) {
    NeverDisabled(es) && forall i :: 0 <= i < n ==> ClientRun(i) in es
  }

  lemma ClaimedInLonger(serve: Oracle, st: State, a: seq<Event>, b: seq<Event>)
    ensures ClaimedIn(serve, st, a) ==> ClaimedIn(serve, st, a + b)
    ensures ClaimedIn(serve, Run(serve, st, a), b) ==> ClaimedIn(serve, st, a + b)
  {
    if ClaimedIn(serve, st, a) {
      var k: nat :| k <= |a| && SomeEngaged(Run(serve, st, a[..k]));
      assert (a + b)[..k] == a[..k];
    } else if ClaimedIn(serve, Run(serve, st, a), b) {
      var k: nat :| k <= |b| && SomeEngaged(Run(serve, Run(serve, st, a), b[..k]));
      RunConcat(serve, st, a, b[..k]);
      assert (a + b)[..|a| + k] == a + b[..k];
      assert SomeEngaged(Run(serve, st, (a + b)[..|a| + k]));
    }
  }

  lemma {:induction false} RunKeepsCount(serve: Oracle, st: State, es: seq<Event>)
    ensures |Run(serve, st, es).clients| == |st.clients|
    decreases |es|
  {
    if es != [] {
      StepKeepsCount(serve, st, es[0]);
      RunKeepsCount(serve, Step(serve, st, es[0]), es[1..]);
    }
  }

  /** The competing clients never block each other: while READY stays set and every client keeps getting turns, seven
      rounds of turns, or fewer, give a buffer that is wanted an owner. */
  lemma {:induction false} BufferIsClaimed(serve: Oracle, st: State, rounds: seq<seq<Event>>)
    requires Wanted(st) && |rounds| >= Distance(st)
    requires forall k :: 0 <= k < |rounds| ==> AllTurns(rounds[k], |st.clients|)
    ensures Distance(st) <= 7 && ClaimedIn(serve, st, Flatten(rounds))
    decreases |rounds|
  {
    WantedIsAway(st);
    hide Wanted, Distance, Nearest, ClaimedIn;
    var es := rounds[0];
    SomebodyIsNearest(st);
    var i: nat :| Nearest(st, i);
    NearestIsClient(st, i);
    TurnComesNearer(serve, st, es, i);
    RunKeepsCount(serve, st, es);
    if !ClaimedIn(serve, st, es) {
      BufferIsClaimed(serve, Run(serve, st, es), rounds[1..]);
    }
    ClaimedInLonger(serve, st, es, Flatten(rounds[1..]));
  }

  lemma NearestIsClient(st: State, i: nat)
    requires Nearest(st, i)
    ensures i < |st.clients|
  {
  }

  lemma WantedIsAway(st: State)
    requires Wanted(st)
    ensures 1 <= Distance(st) <= 7
  {
    FreeWhileWanted(st);
  }

  /** At any moment of a run without a disable the buffer has an owner, or nobody calls, or it is wanted. */
  lemma OwnedIdleOrWanted(serve: Oracle, st0: State, es: seq<Event>)
    requires Init(st0) && NeverDisabled(es)
    ensures var st := Run(serve, st0, es); SomeEngaged(st) || !SomeCalling(st) || Wanted(st)
  {
    InitInv(st0);
    RunInv(serve, st0, es);
    ReadyStays(serve, st0, es);
    RunRefuses(serve, st0, es);
  }

  lemma {:induction false} RunRefuses(serve: Oracle, st: State, es: seq<Event>)
    requires RefusedWhenDown(st)
    ensures RefusedWhenDown(Run(serve, st, es))
    decreases |es|
  {
    if es != [] {
      StepRefuses(serve, st, es[0]);
      RunRefuses(serve, Step(serve, st, es[0]), es[1..]);
    }
  }

  // ----- a disabled buffer -----

  lemma {:induction false} DownStays(serve: Oracle, st: State, es: seq<Event>)
    requires !st.x.flags.ready
    ensures !Run(serve, st, es).x.flags.ready
    decreases |es|
  {
    if es != [] {
      ReadyNeverRises(serve, st, es[0]);
      DownStays(serve, Step(serve, st, es[0]), es[1..]);
    }
  }

  /** Own steps to the end of a send over a disabled buffer. */
  function SendTurns(size: nat, s: Sender): nat {
    var c := Chunk(size, s.Left());
    match s.pc
    case SDone => 0
    case SCheck | SWaitReady => 1
    case SRaise => 2
    case SCopy(k) => 3 + if k < c then c - k else 0
    case SSetLen | SWaitStaged => 4 + c
  }

  function RecvTurns(size: nat, r: Receiver): nat {
    var c := Chunk(size, r.Left());
    match r.pc
    case RDone | RFail => 0
    case RCheck | RWaitReady => 1
    case RInit | RLower => 2
    case RCopy(k) => 3 + if k < c then c - k else 0
    case RWaitStaged => 4 + c
  }

  /** Own steps to the end of the call: they depend on the client alone, not on what the others do. */
  function TurnsToLeave(size: nat, c: Client): nat {
    var last := 6 + RecvTurns(size, c.rcv);
    match c.pc
    case CFinalReset | CUnlockErr => 1
    case CRecv => 1 + RecvTurns(size, c.rcv)
    case CCheckResp | CWaitReady => 2 + RecvTurns(size, c.rcv)
    case CWaitComplete => 3 + RecvTurns(size, c.rcv)
    case CSend => last + SendTurns(size, c.snd)
    case CIpi => last + SendTurns(size, c.snd) + 1
    case CStage => last + SendTurns(size, c.snd) + 3
    case CUnlockOk => last + SendTurns(size, c.snd) + 4
    case CRaise => last + SendTurns(size, c.snd) + 5
    case CReset => last + SendTurns(size, c.snd) + 6
    case CPending => last + SendTurns(size, c.snd) + 7
    case CReady => 2
    case _ => 0
  }

  /** In the call and past the lock, or back at it. */
  predicate Inside(pc: ClientPc) {
    Engaged(pc) || pc in {CReady, CUnlockErr, CReset, CRaise}
  }

  lemma SendTurnsFall(x: Buffer, s: Sender)
    requires !x.flags.ready && s.pc != SDone
    ensures var (y, t) := SendStep(x, s); SendTurns(|y.data|, t) < SendTurns(|x.data|, s) && |y.data| == |x.data|
  {
  }

  lemma RecvTurnsFall(x: Buffer, r: Receiver)
    requires !x.flags.ready && r.pc !in {RDone, RFail}
    ensures var (y, q) := RecvStep(x, r); RecvTurns(|y.data|, q) < RecvTurns(|x.data|, r) && |y.data| == |x.data|
  {
  }

  lemma TurnLeaves(st: State, i: nat)
    requires i < |st.clients| && !st.x.flags.ready && Inside(st.clients[i].pc)
    requires st.clients[i].pc in {CStage, CSend} ==> st.clients[i].snd.pc != SDone
    requires st.clients[i].pc == CRecv ==> st.clients[i].rcv.pc !in {RDone, RFail}
    ensures var st' := ClientStep(st, i); var c, c' := st.clients[i], st'.clients[i];
            && (c'.pc == CIdle || Inside(c'.pc))
            && (c'.pc != CIdle ==> TurnsToLeave(|st'.x.data|, c') < TurnsToLeave(|st.x.data|, c))
            && |st'.x.data| == |st.x.data|
  {
    var c := st.clients[i];
    if c.pc in {CStage, CSend} { SendTurnsFall(st.x, c.snd); }
    if c.pc == CRecv { RecvTurnsFall(st.x, c.rcv); }
    hide SendStep, RecvStep, RecvTurns;
  }

  lemma TurnSets(st: State, i: nat)
    requires Inv(st) && i < |st.clients|
    ensures st.clients[i].pc in {CStage, CSend} ==> st.clients[i].snd.pc != SDone
    ensures st.clients[i].pc == CRecv ==> st.clients[i].rcv.pc !in {RDone, RFail}
  {
    hide Counted, Holds, SenderOk;
    assert ClientOk(st, i);
    if st.clients[i].pc == CRecv {
      TakingIsCompleted(st.x, st.server, st.clients[i]);
    }
  }

  lemma StepKeepsSize(serve: Oracle, st: State, e: Event)
    ensures |Step(serve, st, e).x.data| == |st.x.data|
  {
    hide SendStep, RecvStep, ThreadStep;
    match e
    case ClientRun(i) =>
      if i < |st.clients| {
        SenderFrame(st.x, st.clients[i].snd);
        ReceiverFrame(st.x, st.clients[i].rcv);
      }
    case ThreadRun => ThreadFrame(serve, st);
    case _ =>
  }

  /** Somewhere in the run the client is out of its call. */
  ghost predicate LeavesIn(serve: Oracle, st: State, es: seq<Event>, i: nat) {
    exists k: nat :: k <= |es| && Out(Run(serve, st, es[..k]), i)
  }

  predicate Out(st: State, i: nat) {
    i < |st.clients| && st.clients[i].pc == CIdle
  }

  lemma LeavesLater(serve: Oracle, st: State, es: seq<Event>, i: nat)
    requires es != [] && LeavesIn(serve, Step(serve, st, es[0]), es[1..], i)
    ensures LeavesIn(serve, st, es, i)
  {
    var k: nat :| k <= |es[1..]| && Out(Run(serve, Step(serve, st, es[0]), es[1..][..k]), i);
    assert es[..k + 1][0] == es[0] && es[..k + 1][1..] == es[1..][..k];
    assert Out(Run(serve, st, es[..k + 1]), i);
  }

  lemma LeavesAtOnce(serve: Oracle, st: State, es: seq<Event>, i: nat)
    requires Out(st, i)
    ensures LeavesIn(serve, st, es, i)
  {
    assert es[..0] == [];
    assert Out(Run(serve, st, es[..0]), i);
  }

  /** After a disable a call that has the lock or the buffer ends within a number of its own turns that its own record
      tells, whatever the server and the other clients do or fail to do. */
  lemma {:induction false} DisabledCallEnds(serve: Oracle, st: State, es: seq<Event>, i: nat)
    requires Inv(st) && !st.x.flags.ready && i < |st.clients| && Inside(st.clients[i].pc)
    requires OwnTurns(es, i) >= TurnsToLeave(|st.x.data|, st.clients[i])
    ensures LeavesIn(serve, st, es, i)
    decreases |es|
  {
    hide Inv, ClientStep, LeavesIn;
    TurnsAreSome(|st.x.data|, st.clients[i]);
    hide TurnsToLeave;
    var st' := Step(serve, st, es[0]);
    StepInv(serve, st, es[0]);
    ReadyNeverRises(serve, st, es[0]);
    StepKeepsSize(serve, st, es[0]);
    StepKeepsCount(serve, st, es[0]);
    if es[0] == ClientRun(i) {
      TurnSets(st, i);
      TurnLeaves(st, i);
    } else {
      OthersLeaveCallAlone(serve, st, es[0], i);
    }
    if Out(st', i) {
      LeavesAtOnce(serve, st', es[1..], i);
    } else {
      DisabledCallEnds(serve, st', es[1..], i);
    }
    LeavesLater(serve, st, es, i);
  }

  lemma TurnsAreSome(size: nat, c: Client)
    requires Inside(c.pc)
    ensures TurnsToLeave(size, c) >= 1
  {
  }

  /** Before its look at READY, or refused by it. */
  predicate BeforeTheLook(pc: ClientPc) {
    pc in {CLock, CReady, CUnlockErr, CUnlockWait, CWait}
  }

  lemma LateTurn(serve: Oracle, st: State, e: Event, i: nat)
    requires !st.x.flags.ready && i < |st.clients| && BeforeTheLook(st.clients[i].pc)
    ensures var st' := Step(serve, st, e);
            && i < |st'.clients|
            && (BeforeTheLook(st'.clients[i].pc) || (st'.clients[i].pc == CIdle && st'.clients[i].result == -1))
            && (e == ClientRun(i) ==> st'.x == st.x && st'.server == st.server)
  {
    hide SendStep, RecvStep;
    if e != ClientRun(i) {
      OthersLeaveCallAlone(serve, st, e, i);
    }
  }

  /** After a disable a call that has not looked at READY yet returns -1 if it returns, and by LateTurn its turns
      touch nothing shared but the lock. */
  lemma {:induction false} LateCallFails(serve: Oracle, st: State, es: seq<Event>, i: nat)
    requires !st.x.flags.ready && i < |st.clients| && BeforeTheLook(st.clients[i].pc)
    requires forall k :: 0 <= k < |es| ==> !Out(Run(serve, st, es[..k]), i)
    ensures var st' := Run(serve, st, es);
            i < |st'.clients| && (Out(st', i) ==> st'.clients[i].result == -1)
    decreases |es|
  {
    hide Step;
    if es != [] {
      var st' := Step(serve, st, es[0]);
      LateTurn(serve, st, es[0], i);
      ReadyNeverRises(serve, st, es[0]);
      if |es| > 1 {
        forall k | 0 <= k < |es[1..]| ensures !Out(Run(serve, st', es[1..][..k]), i) {
          assert es[..k + 1][0] == es[0] && es[..k + 1][1..] == es[1..][..k];
        }
        assert es[1..][..0] == [];
        LateCallFails(serve, st', es[1..], i);
      } else {
        assert es[1..] == [];
      }
    }
  }
}
