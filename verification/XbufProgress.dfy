/** While the buffer stays enabled every exchange ends: some party always has a step that is not a spin. */
module XbufProgress {
  import opened Xbuf
  import opened XbufSafety
  import opened XbufInvariant
  import opened XbufSteps
  import opened XbufTheorems

  // ----- work left -----

  /** A wait costs the same however often it spins, and less once what it waits for is there. */
  function SendWork(x: Buffer, s: Sender): nat {
    var L := s.Left();
    var w :=
      match s.pc
      case SSetLen => 8 * L - 2
      case SCheck => 8 * L + 1
      case SWaitReady => if x.flags.staged then 8 * L else 8 * L - 1
      case SWaitStaged => if x.flags.staged then 8 * L else 8 * L - 2
      case SCopy(k) => 8 * L - 3 - k
      case SRaise => 8 * L - 4 - Chunk(|x.data|, L)
      case SDone => 0;
    if w < 0 then 0 else w
  }

  function RecvWork(x: Buffer, r: Receiver, total: nat): nat {
    var L := r.Left();
    var w :=
      match r.pc
      case RInit => 8 * total + 2
      case RCheck => 8 * L + 1
      case RWaitReady => if x.flags.staged then 8 * L - 1 else 8 * L
      case RWaitStaged => if x.flags.staged then 8 * L - 2 else 8 * L
      case RCopy(k) => 8 * L - 3 - k
      case RLower => 8 * L - 4 - Chunk(|x.data|, L)
      case RDone | RFail => 0;
    if w < 0 then 0 else w
  }

  /** The client's part, when the answer is m bytes long. */
  function ClientWork(x: Buffer, c: Client, m: nat): nat {
    match c.pc
    case CUnlockOk => 8 * m + 8 * |c.snd.msg| + 18
    case CStage => 8 * m + 16 + SendWork(x, c.snd)
    case CIpi => 8 * m + 17 + 8 * c.snd.Left()
    case CSend => 8 * m + 7 + SendWork(x, c.snd)
    case CWaitReady => 8 * m + if x.flags.complete then 6 else 7
    case CWaitComplete => 8 * m + if x.flags.complete then 5 else 7
    case CCheckResp => 8 * m + 4
    case CRecv => 1 + RecvWork(x, c.rcv, m)
    case CFinalReset => 1
    case _ => 0
  }

  function IrqWork(v: Server): nat {
    7 * v.ipis +
    match v.irq
    case IIdle => 0
    case IPending => 6
    case IActive => 5
    case IRaise => 4
    case IHandler => 3
    case ISetLcall => 2
    case IWake => 1
  }

  /** The thread's part, for a request of n bytes and an answer of m. */
  function ThreadWork(x: Buffer, v: Server, n: nat, m: nat): nat {
    var t := v.thread;
    if x.flags.complete then (if t.pc == TSend then 1 + SendWork(x, t.snd) else 0)
    else
      match t.pc
      case TRaiseComplete => 2 + SendWork(x, t.snd)
      case TStage => 3 + SendWork(x, t.snd)
      case TComplete => 8 * m + 4
      case THandle => 8 * m + 5
      case TRecv => 8 * m + 5 + RecvWork(x, t.rcv, n)
      case TRecvStart => 8 * m + 8 * n + 8
      case TClear => 8 * m + 8 * n + 9
      case TTest => 8 * m + 8 * n + if v.activeLcall then 10 else 13
      case TPrepare => 8 * m + 8 * n + if v.activeLcall then 11 else 13
      case TSleep => 8 * m + 8 * n + if v.activeLcall && !t.asleep then 12 else 13
      case TSend => 8 * m + 8 * n + if v.activeLcall then 12 else 13
      case TDead => 0
  }

  /** The length of the answer: the one being given, or the one the request in hand will get. */
  function AnswerLength(serve: Oracle, st: State, c: Client): nat {
    if st.x.flags.complete || st.server.thread.pc in {TComplete, TStage, TRaiseComplete} then |st.server.thread.snd.msg|
    else |serve(st.acquired, c.snd.msg)|
  }

  function Rank(serve: Oracle, st: State, i: nat): nat
    requires i < |st.clients|
  {
    var c := st.clients[i];
    var m := AnswerLength(serve, st, c);
    ClientWork(st.x, c, m) + IrqWork(st.server) + ThreadWork(st.x, st.server, |c.snd.msg|, m)
  }

  /** The length the server reads is the request's: always so, but for an empty request over a stale length. */
  predicate Sized(st: State, c: Client) {
    if c.snd.msg != [] || st.x.flags.complete then true
    else
      match st.server.thread.pc
      case THandle | TComplete | TStage | TRaiseComplete => true
      case TRecv => if st.server.thread.rcv.pc == RInit then st.x.dataLen == 0 else st.server.thread.rcv.len == 0
      case _ => st.x.dataLen == 0
  }

  /** Client i owns an enabled buffer. */
  ghost predicate Going(st: State, i: nat) {
    Inv(st) && st.x.flags.ready && i < |st.clients| && Engaged(st.clients[i].pc) && Sized(st, st.clients[i])
  }

  // ----- each party's step works its own part off and adds to no other's -----

  lemma SendWorks(x: Buffer, s: Sender, got: nat)
    requires SenderOk(x, s, got) && x.flags.ready && s.pc != SDone && (s.pc == SSetLen ==> s.msg != [])
    ensures var (y, t) := SendStep(x, s);
            SendWork(y, t) < SendWork(x, s) ||
            (y == x && x.flags.staged && s.pc in {SWaitStaged, SWaitReady} && SendWork(y, t) == SendWork(x, s))
    ensures SendStep(x, s).0.flags.staged || !x.flags.staged
  {
  }

  lemma RecvWorks(x: Buffer, s: Sender, r: Receiver, total: nat)
    requires SenderOk(x, s, r.read) && ReceiverOk(x, r, s.msg) && x.flags.ready && r.pc !in {RDone, RFail}
    requires total == |s.msg| && (r.pc == RInit ==> x.dataLen == total) && (r.pc != RInit ==> r.len == total)
    ensures var (y, q) := RecvStep(x, r);
            RecvWork(y, q, total) < RecvWork(x, r, total) ||
            (y == x && !x.flags.staged && r.pc in {RWaitStaged, RWaitReady} &&
                RecvWork(y, q, total) == RecvWork(x, r, total))
  {
  }

  /** The client's own step: its part shrinks, counting the interrupt it sends, or it spins and nothing shared changes. */
  ghost predicate ClientWorks(st: State, i: nat, n: nat, m: nat)
    requires i < |st.clients|
  {
    var st' := ClientStep(st, i);
    var c, c' := st.clients[i], st'.clients[i];
    && Engaged(c'.pc) && c'.snd.msg == c.snd.msg
    && (ClientWork(st'.x, c', m) + IrqWork(st'.server) < ClientWork(st.x, c, m) + IrqWork(st.server)
        || (st' == st.(clients := st'.clients) && ClientWork(st'.x, c', m) == ClientWork(st.x, c, m)))
    && ThreadWork(st'.x, st'.server, n, m) <= ThreadWork(st.x, st.server, n, m)
  }

  lemma ClaimWorks(st: State, i: nat, m: nat)
    requires i < |st.clients| && st.clients[i].pc in {CUnlockOk, CStage, CIpi}
    requires Claimed(st.x, st.server, st.clients[i]) && st.x.flags.ready
    ensures ClientWorks(st, i, |st.clients[i].snd.msg|, m)
  {
    var c := st.clients[i];
    if c.pc == CStage {
      SendWorks(st.x, c.snd, 0);
      SenderFrame(st.x, c.snd);
    }
  }

  /** What the server has of a request still being sent. */
  lemma SendingIsSound(st: State, c: Client) returns (got: nat)
    requires c.pc == CSend && st.x.flags.ready && Exchange(st.x, st.server, c) && c.snd.Left() > 0
    ensures SenderOk(st.x, c.snd, got) && c.snd.pc !in {SSetLen, SDone} && !st.x.flags.complete
    ensures st.server.thread.pc !in {THandle, TComplete, TStage, TRaiseComplete}
  {
    got := if st.server.thread.pc == TRecv then st.server.thread.rcv.read else 0;
  }

  lemma SendingWorks(st: State, i: nat, m: nat)
    requires i < |st.clients| && st.clients[i].pc == CSend && st.x.flags.ready
    requires Exchange(st.x, st.server, st.clients[i])
    ensures ClientWorks(st, i, |st.clients[i].snd.msg|, m)
  {
    var c := st.clients[i];
    if c.snd.Left() == 0 {
      SendingEnds(st, i, m);
    } else {
      var got := SendingIsSound(st, c);
      SendingGoesOn(st, i, m, got);
    }
  }

  lemma SendingEnds(st: State, i: nat, m: nat)
    requires i < |st.clients| && st.clients[i].pc == CSend && st.clients[i].snd.Left() == 0 && st.x.flags.ready
    requires Exchange(st.x, st.server, st.clients[i])
    ensures ClientWorks(st, i, |st.clients[i].snd.msg|, m)
  {
    var c := st.clients[i];
    assert c.snd.pc == SCheck;
    assert SendStep(st.x, c.snd) == (st.x, c.snd.(pc := SDone));
    var st' := ClientStep(st, i);
    assert st'.clients[i] == c.(pc := CWaitComplete, snd := c.snd.(pc := SDone));
    assert SendWork(st.x, c.snd) == 1;
    assert st'.x == st.x && st'.server == st.server;
  }

  lemma SendingGoesOn(st: State, i: nat, m: nat, got: nat)
    requires i < |st.clients| && st.clients[i].pc == CSend && st.x.flags.ready
    requires SenderOk(st.x, st.clients[i].snd, got) && st.clients[i].snd.pc !in {SSetLen, SDone}
    requires !st.x.flags.complete && st.clients[i].snd.Left() > 0
    requires st.server.thread.pc !in {THandle, TComplete, TStage, TRaiseComplete}
    ensures ClientWorks(st, i, |st.clients[i].snd.msg|, m)
  {
    var c := st.clients[i];
    SenderFrame(st.x, c.snd);
    SendWorks(st.x, c.snd, got);
  }

  lemma WaitingWorks(st: State, i: nat, m: nat)
    requires i < |st.clients| && st.clients[i].pc in {CWaitComplete, CWaitReady, CCheckResp} && st.x.flags.ready
    requires st.clients[i].rcv == NEW_RECEIVER
    ensures ClientWorks(st, i, |st.clients[i].snd.msg|, m)
  {
  }

  lemma TakingWorks(st: State, i: nat)
    requires i < |st.clients| && st.clients[i].pc == CRecv && st.x.flags.ready && st.x.flags.complete
    requires Completed(st.x, st.server, st.clients[i])
    ensures ClientWorks(st, i, |st.clients[i].snd.msg|, |st.server.thread.snd.msg|)
  {
    var r := st.clients[i].rcv;
    ReceiverFrame(st.x, r);
    TakingIsSound(st, st.clients[i]);
    TakingGoesOn(st, i);
  }

  lemma TakingIsSound(st: State, c: Client)
    requires c.pc == CRecv && st.x.flags.ready && Completed(st.x, st.server, c)
    ensures var s := st.server.thread.snd;
            && s.msg != [] && st.x.dataLen == |s.msg|
            && SenderOk(st.x, s, c.rcv.read) && ReceiverOk(st.x, c.rcv, s.msg) && c.rcv.pc !in {RDone, RFail}
  {
  }

  lemma TakingGoesOn(st: State, i: nat)
    requires i < |st.clients| && st.clients[i].pc == CRecv && st.x.flags.ready && st.x.flags.complete
    requires var s, r := st.server.thread.snd, st.clients[i].rcv;
             && s.msg != [] && st.x.dataLen == |s.msg|
             && SenderOk(st.x, s, r.read) && ReceiverOk(st.x, r, s.msg) && r.pc !in {RDone, RFail}
    ensures ClientWorks(st, i, |st.clients[i].snd.msg|, |st.server.thread.snd.msg|)
  {
    var s, r := st.server.thread.snd, st.clients[i].rcv;
    ReceiverFrame(st.x, r);
    RecvWorks(st.x, s, r, |s.msg|);
    var q := RecvStep(st.x, r).1;
    assert q.pc == RDone ==> q.len == |s.msg|;
    assert q.pc != RFail;
  }

  lemma IrqShrinks(st: State)
    ensures var st' := IrqStep(st);
            && (st' == st || IrqWork(st'.server) < IrqWork(st.server))
            && (st' == st <==> st.server.irq == IIdle && st.server.ipis == 0)
  {
  }

  lemma IrqSpares(serve: Oracle, st: State, c: Client, n: nat, m: nat)
    ensures var st' := IrqStep(st);
            && ThreadWork(st'.x, st'.server, n, m) <= ThreadWork(st.x, st.server, n, m)
            && AnswerLength(serve, st', c) == AnswerLength(serve, st, c)
  {
    var st' := IrqStep(st);
    assert st'.server.thread in {st.server.thread, st.server.thread.(asleep := false)};
    assert st'.x == st.x.(flags := st'.x.flags) && st'.x.flags.complete == st.x.flags.complete;
    assert st'.x.flags.staged == st.x.flags.staged;
    SendWorkByStaged(st.x, st'.x, st.server.thread.snd, st.server.thread.rcv, n);
  }

  lemma IrqSparesClient(st: State, c: Client, m: nat)
    ensures ClientWork(IrqStep(st).x, c, m) == ClientWork(st.x, c, m)
  {
    var y := IrqStep(st).x;
    assert y == st.x.(flags := y.flags) && y.flags.staged == st.x.flags.staged;
    SendWorkByStaged(st.x, y, c.snd, c.rcv, m);
  }

  lemma SendWorkByStaged(x: Buffer, y: Buffer, s: Sender, r: Receiver, n: nat)
    requires |x.data| == |y.data| && x.flags.staged == y.flags.staged
    ensures SendWork(x, s) == SendWork(y, s) && RecvWork(x, r, n) == RecvWork(y, r, n)
  {
  }

  /** The thread's own step: its part shrinks, or it spins and nothing shared changes. */
  ghost predicate ThreadWorks(serve: Oracle, st: State, c: Client) {
    var st' := ThreadStep(serve, st);
    var n := |c.snd.msg|;
    var m := AnswerLength(serve, st, c);
    && AnswerLength(serve, st', c) == m
    && ClientWork(st'.x, c, m) <= ClientWork(st.x, c, m)
    && (ThreadWork(st'.x, st'.server, n, m) < ThreadWork(st.x, st.server, n, m)
        || (st'.x == st.x && st'.server.activeLcall == st.server.activeLcall
            && ThreadWork(st'.x, st'.server, n, m) == ThreadWork(st.x, st.server, n, m)))
  }

  lemma ThreadWorksIdling(serve: Oracle, st: State, c: Client)
    requires st.server.thread.pc in {TPrepare, TTest, TSleep, TClear} || st.server.thread.pc == TRecvStart
    requires st.server.thread.pc == TRecvStart ==> st.x.flags.active
    requires st.x.flags.complete ==> st.server.thread.pc in {TPrepare, TTest, TSleep} && !st.server.activeLcall
    ensures ThreadWorks(serve, st, c)
  {
  }

  lemma ThreadWorksTail(serve: Oracle, st: State, c: Client)
    requires st.server.thread.pc == TSend && IdleThread(st.server.thread)
    requires !st.x.flags.complete
    ensures ThreadWorks(serve, st, c)
  {
  }

  lemma ThreadWorksReceiving(serve: Oracle, st: State, c: Client)
    requires Receiving(st.x, st.server, c) && st.server.thread.pc == TRecv && st.x.flags.ready
    requires Sized(st, c) && !st.x.flags.complete
    ensures ThreadWorks(serve, st, c)
  {
    hide Counted, Holds;
    var r := st.server.thread.rcv;
    ReceiverFrame(st.x, r);
    RecvWorks(st.x, c.snd, r, |c.snd.msg|);
    var q := RecvStep(st.x, r).1;
    assert q.pc != RFail;
  }

  lemma ThreadWorksHandling(serve: Oracle, st: State, c: Client)
    requires Replying(st.x, st.server, c) && st.server.thread.pc in {THandle, TComplete, TRaiseComplete}
    requires st.x.flags.ready && st.acquired == st.activated && !st.x.flags.complete
    ensures ThreadWorks(serve, st, c)
  {
    assert c.pc == CSend ==> c.snd.pc == SCheck;
  }

  lemma ThreadWorksStaging(serve: Oracle, st: State, c: Client)
    requires Replying(st.x, st.server, c) && st.server.thread.pc == TStage
    requires st.x.flags.ready && !st.x.flags.complete
    ensures ThreadWorks(serve, st, c)
  {
    var s := st.server.thread.snd;
    assert c.pc == CSend ==> c.snd.pc == SCheck;
    SenderFrame(st.x, s);
    SendWorks(st.x, s, 0);
  }

  lemma AnswerIsSound(st: State, c: Client)
    requires Completed(st.x, st.server, c) && st.server.thread.pc == TSend && st.x.flags.ready
    ensures var s := st.server.thread.snd; SenderOk(st.x, s, Taken(c)) && s.pc !in {SSetLen, SDone}
    ensures c.pc == CSend ==> c.snd.pc == SCheck
  {
  }

  lemma ThreadWorksSending(serve: Oracle, st: State, c: Client)
    requires Completed(st.x, st.server, c) && st.server.thread.pc == TSend
    requires st.x.flags.ready && st.x.flags.complete
    ensures ThreadWorks(serve, st, c)
  {
    var s := st.server.thread.snd;
    AnswerIsSound(st, c);
    SenderFrame(st.x, s);
    SendWorks(st.x, s, Taken(c));
    hide Completed, SenderOk;
  }

  lemma OwnerWorks(serve: Oracle, st: State, i: nat)
    requires Going(st, i) && st.clients[i].pc != CFinalReset
    ensures ClientWorks(st, i, |st.clients[i].snd.msg|, AnswerLength(serve, st, st.clients[i]))
  {
    var c := st.clients[i];
    var m := AnswerLength(serve, st, c);
    assert ClientOk(st, i);
    match c.pc
    case CUnlockOk | CStage | CIpi => ClaimWorks(st, i, m);
    case CSend => SendingWorks(st, i, m);
    case CRecv => TakingWorks(st, i);
    case _ => WaitingWorks(st, i, m);
  }

  lemma KernelThreadWorks(serve: Oracle, st: State, i: nat)
    requires Going(st, i)
    ensures ThreadWorks(serve, st, st.clients[i])
  {
    var c := st.clients[i];
    var t := st.server.thread;
    assert ClientOk(st, i);
    if t.pc in {TPrepare, TTest, TSleep, TClear, TRecvStart} {
      ThreadWorksIdling(serve, st, c);
    } else if t.pc == TSend {
      if st.x.flags.complete { ThreadWorksSending(serve, st, c); } else { ThreadWorksTail(serve, st, c); }
    } else if t.pc == TRecv {
      ThreadWorksReceiving(serve, st, c);
    } else if t.pc == TStage {
      ThreadWorksStaging(serve, st, c);
    } else {
      ThreadWorksHandling(serve, st, c);
    }
  }

  // ----- somebody moves -----

  datatype Party = TheClient | TheIrq | TheThread

  function Turn(p: Party, i: nat): Event {
    match p
    case TheClient => ClientRun(i)
    case TheIrq => IrqRun
    case TheThread => ThreadRun
  }

  /** The party has a step that is not a spin. */
  predicate Moves(serve: Oracle, st: State, i: nat, p: Party)
    requires i < |st.clients|
  {
    var c := st.clients[i];
    var m := AnswerLength(serve, st, c);
    match p
    case TheClient =>
      var st' := ClientStep(st, i);
      c.pc == CFinalReset ||
      ClientWork(st'.x, st'.clients[i], m) + IrqWork(st'.server) < ClientWork(st.x, c, m) + IrqWork(st.server)
    case TheIrq => st.server.irq != IIdle || st.server.ipis > 0
    case TheThread =>
      var st' := ThreadStep(serve, st);
      ThreadWork(st'.x, st'.server, |c.snd.msg|, m) < ThreadWork(st.x, st.server, |c.snd.msg|, m)
  }

  /** Before the thread has picked the message up, the interrupt or the awakened thread moves. */
  lemma CalledMoves(serve: Oracle, st: State, i: nat)
    requires i < |st.clients| && Called(st.x, st.server, st.clients[i]) && Awake(st) && !st.x.flags.complete
    requires st.server.thread.pc !in {TRecvStart, TRecv, THandle, TComplete, TStage, TRaiseComplete}
    ensures Moves(serve, st, i, TheIrq) || Moves(serve, st, i, TheThread)
  {
  }

  /** In a transfer one side moves: STAGED is the turn, so they never wait for each other. */
  lemma TransferMoves(x: Buffer, s: Sender, r: Receiver)
    requires SenderOk(x, s, r.read) && ReceiverOk(x, r, s.msg) && x.flags.ready && r.pc !in {RDone, RFail}
    requires (r.pc == RInit ==> x.dataLen == |s.msg|) && (r.pc != RInit ==> r.len == |s.msg|)
    requires s.pc == SSetLen ==> s.msg != []
    ensures RecvWork(RecvStep(x, r).0, RecvStep(x, r).1, |s.msg|) < RecvWork(x, r, |s.msg|)
            || (s.Left() > 0 && SendWork(SendStep(x, s).0, SendStep(x, s).1) < SendWork(x, s))
  {
    RecvWorks(x, s, r, |s.msg|);
    if r.pc in {RWaitStaged, RWaitReady} && !x.flags.staged {
      assert s.sent == r.read < |s.msg|;
      assert s.pc != SDone;
      SendWorks(x, s, r.read);
    }
  }

  lemma ReceivingMoves(serve: Oracle, st: State, i: nat)
    requires i < |st.clients| && Receiving(st.x, st.server, st.clients[i]) && st.server.thread.pc in {TRecvStart, TRecv}
    requires st.x.flags.ready && !st.x.flags.complete && Sized(st, st.clients[i])
    ensures Moves(serve, st, i, TheThread) || Moves(serve, st, i, TheClient)
  {
    var c, r := st.clients[i], st.server.thread.rcv;
    if st.server.thread.pc == TRecv {
      TransferMoves(st.x, c.snd, r);
      if RecvWork(RecvStep(st.x, r).0, RecvStep(st.x, r).1, |c.snd.msg|) < RecvWork(st.x, r, |c.snd.msg|) {
        RecvMovesThread(serve, st, i);
      } else {
        assert c.pc == CSend;
        SendMovesClient(serve, st, i);
      }
    }
  }

  lemma RecvMovesThread(serve: Oracle, st: State, i: nat)
    requires i < |st.clients| && st.server.thread.pc == TRecv && !st.x.flags.complete
    requires var r := st.server.thread.rcv; var n := |st.clients[i].snd.msg|;
             RecvWork(RecvStep(st.x, r).0, RecvStep(st.x, r).1, n) < RecvWork(st.x, r, n)
    ensures Moves(serve, st, i, TheThread)
  {
    ReceiverFrame(st.x, st.server.thread.rcv);
  }

  lemma SendMovesClient(serve: Oracle, st: State, i: nat)
    requires i < |st.clients| && st.clients[i].pc == CSend && !st.x.flags.complete
    requires var s := st.clients[i].snd; SendWork(SendStep(st.x, s).0, SendStep(st.x, s).1) < SendWork(st.x, s)
    ensures Moves(serve, st, i, TheClient)
  {
    SenderFrame(st.x, st.clients[i].snd);
  }

  lemma ReplyingMoves(serve: Oracle, st: State, i: nat)
    requires i < |st.clients| && Replying(st.x, st.server, st.clients[i])
    requires st.server.thread.pc in {THandle, TComplete, TStage, TRaiseComplete}
    requires st.x.flags.ready && !st.x.flags.complete && st.acquired == st.activated
    ensures Moves(serve, st, i, TheThread)
  {
    hide Called, Counted, Holds, Receiving, RecvStep;
    if st.server.thread.pc == TStage {
      SendWorks(st.x, st.server.thread.snd, 0);
    }
  }

  lemma TakingMoves(serve: Oracle, st: State, i: nat)
    requires i < |st.clients| && Completed(st.x, st.server, st.clients[i]) && st.x.flags.complete && st.x.flags.ready
    requires st.clients[i].pc == CRecv
    ensures Moves(serve, st, i, TheClient) || Moves(serve, st, i, TheThread)
  {
    var c, s := st.clients[i], st.server.thread.snd;
    TakingIsSound(st, c);
    TransferMoves(st.x, s, c.rcv);
    if RecvWork(RecvStep(st.x, c.rcv).0, RecvStep(st.x, c.rcv).1, |s.msg|) < RecvWork(st.x, c.rcv, |s.msg|) {
      assert AnswerLength(serve, st, c) == |s.msg|;
      TakingGoesOn(st, i);
      RecvMovesClient(serve, st, i);
    } else {
      assert st.server.thread.pc == TSend;
      SenderFrame(st.x, s);
      assert Moves(serve, st, i, TheThread);
    }
  }

  lemma RecvMovesClient(serve: Oracle, st: State, i: nat)
    requires i < |st.clients| && st.clients[i].pc == CRecv
    requires var r := st.clients[i].rcv; var m := AnswerLength(serve, st, st.clients[i]);
             RecvWork(RecvStep(st.x, r).0, RecvStep(st.x, r).1, m) < RecvWork(st.x, r, m)
    ensures Moves(serve, st, i, TheClient)
  {
  }

  /** A client that is done sending, or has only to look, or to leave. */
  lemma LookingMoves(serve: Oracle, st: State, i: nat)
    requires i < |st.clients| && st.x.flags.complete && st.x.flags.ready
    requires var c := st.clients[i];
             c.pc in {CWaitComplete, CWaitReady, CCheckResp, CFinalReset} ||
                 (c.pc == CSend && c.snd.pc == SCheck && c.snd.Left() == 0)
    requires st.clients[i].rcv == NEW_RECEIVER || st.clients[i].pc == CFinalReset
    ensures Moves(serve, st, i, TheClient)
  {
    hide AnswerLength, RecvStep;
  }

  lemma CompletedMoves(serve: Oracle, st: State, i: nat)
    requires i < |st.clients| && Completed(st.x, st.server, st.clients[i]) && st.x.flags.complete && st.x.flags.ready
    requires Exchange(st.x, st.server, st.clients[i])
    ensures Moves(serve, st, i, TheClient) || Moves(serve, st, i, TheThread)
  {
    hide Moves;
    if st.clients[i].pc == CRecv {
      TakingMoves(serve, st, i);
    } else {
      LookingMoves(serve, st, i);
    }
  }

  lemma SomeoneMoves(serve: Oracle, st: State, i: nat)
    requires Going(st, i)
    ensures exists p :: Moves(serve, st, i, p)
  {
    var c := st.clients[i];
    assert ClientOk(st, i);
    if c.pc in {CUnlockOk, CStage, CIpi} {
      ClaimMoves(serve, st, i);
    } else if st.x.flags.complete {
      CompletedMoves(serve, st, i);
    } else if st.server.thread.pc in {TRecvStart, TRecv} {
      ReceivingMoves(serve, st, i);
    } else if st.server.thread.pc in {THandle, TComplete, TStage, TRaiseComplete} {
      ReplyingMoves(serve, st, i);
    } else {
      CalledMoves(serve, st, i);
    }
  }

  lemma ClaimMoves(serve: Oracle, st: State, i: nat)
    requires i < |st.clients| && st.clients[i].pc in {CUnlockOk, CStage, CIpi} && st.x.flags.ready
    requires Claimed(st.x, st.server, st.clients[i])
    ensures Moves(serve, st, i, TheClient)
  {
    if st.clients[i].pc == CStage {
      SendWorks(st.x, st.clients[i].snd, 0);
    }
  }

  // ----- nothing but a disable undoes the work -----

  lemma SizedByThread(serve: Oracle, st: State, c: Client)
    requires Sized(st, c) && (st.server.thread.pc == TComplete ==> st.x.flags.active)
    requires st.server.thread.pc == TSend ==> st.server.thread.snd.pc != SSetLen
    ensures Sized(ThreadStep(serve, st), c)
  {
    hide SendStep;
    ReceiverFrame(st.x, st.server.thread.rcv);
    SenderFrame(st.x, st.server.thread.snd);
  }

  lemma SizedByOwner(st: State, i: nat)
    requires i < |st.clients| && Engaged(st.clients[i].pc) && st.clients[i].pc != CFinalReset
    requires Sized(st, st.clients[i]) && Exchange(st.x, st.server, st.clients[i])
    ensures Sized(ClientStep(st, i), ClientStep(st, i).clients[i])
  {
    OwnerFrame(st, i);
    var c := st.clients[i];
    SenderFrame(st.x, c.snd);
    ReceiverFrame(st.x, c.rcv);
    if c.snd.msg == [] {
      assert c.pc != CStage;
      assert ClientStep(st, i).x.dataLen == st.x.dataLen;
    }
  }

  /** From st the owner's exchange is no further off in st', and, if just as far, whoever could move still can. */
  ghost predicate NoLoss(serve: Oracle, st: State, st': State, i: nat)
    requires i < |st.clients|
  {
    && i < |st'.clients|
    && Rank(serve, st', i) <= Rank(serve, st, i)
    && (Rank(serve, st', i) == Rank(serve, st, i) ==> forall p :: Moves(serve, st, i, p) ==> Moves(serve, st', i, p))
  }

  lemma SameAnswer(serve: Oracle, st: State, st': State, c: Client, c': Client)
    requires st'.server.thread == st.server.thread && st'.acquired == st.acquired && c'.snd.msg == c.snd.msg
    requires st'.x.flags.complete == st.x.flags.complete
    ensures AnswerLength(serve, st', c') == AnswerLength(serve, st, c)
  {
  }

  lemma SpinsSpareThread(serve: Oracle, st: State, st': State, i: nat)
    requires i < |st.clients| && i < |st'.clients| && st' == st.(clients := st'.clients)
    requires st'.clients[i].snd.msg == st.clients[i].snd.msg
    ensures Moves(serve, st', i, TheThread) == Moves(serve, st, i, TheThread)
    ensures Moves(serve, st', i, TheIrq) == Moves(serve, st, i, TheIrq)
  {
    SameAnswer(serve, st, st', st.clients[i], st'.clients[i]);
    SameForThread(serve, st, st');
  }

  lemma OwnStepNoLoss(serve: Oracle, st: State, i: nat)
    requires Going(st, i) && st.clients[i].pc != CFinalReset
    ensures NoLoss(serve, st, ClientStep(st, i), i)
    ensures Moves(serve, st, i, TheClient) ==> Rank(serve, ClientStep(st, i), i) < Rank(serve, st, i)
    ensures Engaged(ClientStep(st, i).clients[i].pc)
  {
    var st' := ClientStep(st, i);
    OwnerWorks(serve, st, i);
    OwnerFrame(st, i);
    SameAnswer(serve, st, st', st.clients[i], st'.clients[i]);
    if st' == st.(clients := st'.clients) {
      SpinsSpareThread(serve, st, st', i);
    }
  }

  lemma IrqNoLoss(serve: Oracle, st: State, i: nat)
    requires Going(st, i)
    ensures NoLoss(serve, st, IrqStep(st), i)
    ensures Moves(serve, st, i, TheIrq) ==> Rank(serve, IrqStep(st), i) < Rank(serve, st, i)
  {
    var c := st.clients[i];
    var m := AnswerLength(serve, st, c);
    IrqShrinks(st);
    IrqSpares(serve, st, c, |c.snd.msg|, m);
    IrqSparesClient(st, c, m);
    assert IrqStep(st).clients == st.clients;
  }

  lemma ThreadNoLoss(serve: Oracle, st: State, i: nat)
    requires Going(st, i)
    ensures NoLoss(serve, st, ThreadStep(serve, st), i)
    ensures Moves(serve, st, i, TheThread) ==> Rank(serve, ThreadStep(serve, st), i) < Rank(serve, st, i)
  {
    KernelThreadWorks(serve, st, i);
    ThreadTouches(serve, st);
    var st' := ThreadStep(serve, st);
    if Rank(serve, st', i) == Rank(serve, st, i) && st.clients[i].pc != CFinalReset {
      SameForClient(st, st', i);
    }
  }

  /** The client's step looks at the shared buffer and its own record only. */
  lemma SameForClient(st: State, st': State, i: nat)
    requires i < |st.clients| && i < |st'.clients| && st'.clients[i] == st.clients[i] && st'.x == st.x
    requires st'.server.ipis == st.server.ipis && st'.server.irq == st.server.irq
    requires Engaged(st.clients[i].pc) && st.clients[i].pc != CFinalReset
    ensures ClientStep(st', i).clients[i] == ClientStep(st, i).clients[i] && ClientStep(st', i).x == ClientStep(st, i).x
    ensures IrqWork(ClientStep(st', i).server) == IrqWork(ClientStep(st, i).server)
  {
  }

  lemma SameForThread(serve: Oracle, st: State, st': State)
    requires st'.x == st.x && st'.server == st.server && st'.activated == st.activated
    ensures ThreadStep(serve, st').x == ThreadStep(serve, st).x
    ensures ThreadStep(serve, st').server == ThreadStep(serve, st).server
  {
    match st.server.thread.pc
    case TRecv =>
      var (x, rcv) := RecvStep(st.x, st.server.thread.rcv);
    case TStage | TSend =>
      var (x, snd) := SendStep(st.x, st.server.thread.snd);
    case _ =>
  }

  /** Another client of the same descriptor, entering or running, touches nothing of the exchange. */
  lemma BystanderNoLoss(serve: Oracle, st: State, e: Event, i: nat)
    requires Inv(st) && i < |st.clients| && Engaged(st.clients[i].pc) && (e.Begin? || (e.ClientRun? && e.client != i))
    ensures var st' := Step(serve, st, e);
            && i < |st'.clients| && st'.x == st.x && st'.server == st.server && st'.clients[i] == st.clients[i]
            && st'.acquired == st.acquired && st'.activated == st.activated
  {
    assert ClientOk(st, i);
    if e.ClientRun? && e.client < |st.clients| {
      assert ClientOk(st, e.client);
    }
  }

  lemma SameParts(serve: Oracle, st: State, st': State, i: nat)
    requires i < |st.clients| && i < |st'.clients| && Engaged(st.clients[i].pc)
    requires st'.x == st.x && st'.server == st.server && st'.clients[i] == st.clients[i]
    requires st'.acquired == st.acquired && st'.activated == st.activated
    ensures NoLoss(serve, st, st', i)
  {
    hide ClientStep, ThreadStep, Inv;
    SameForThread(serve, st, st');
    if st.clients[i].pc != CFinalReset {
      SameForClient(st, st', i);
    }
  }

  lemma StepNoLoss(serve: Oracle, st: State, e: Event, i: nat)
    requires Going(st, i) && e != Disable && (e == ClientRun(i) ==> st.clients[i].pc != CFinalReset)
    ensures Going(Step(serve, st, e), i) && NoLoss(serve, st, Step(serve, st, e), i)
    ensures forall p :: e == Turn(p, i) && Moves(serve, st, i, p) ==>
        Rank(serve, Step(serve, st, e), i) < Rank(serve, st, i)
  {
    hide ClientStep, IrqStep, ThreadStep, Begun, Exchange, Shared, Logged, Rank, Moves;
    StepInv(serve, st, e);
    StepKeepsReady(serve, st, e);
    assert ClientOk(st, i);
    match e
    case ClientRun(j) =>
      if j == i {
        OwnStepNoLoss(serve, st, i);
        SizedByOwner(st, i);
      } else {
        BystanderNoLoss(serve, st, e, i);
        SameParts(serve, st, Step(serve, st, e), i);
      }
    case Begin(j, request) =>
      BystanderNoLoss(serve, st, e, i);
      SameParts(serve, st, Step(serve, st, e), i);
    case IrqRun =>
      IrqNoLoss(serve, st, i);
      SizedByIrq(st, st.clients[i]);
    case ThreadRun =>
      ThreadNoLoss(serve, st, i);
      ThreadTouches(serve, st);
      ThreadSendsSized(st, st.clients[i]);
      SizedByThread(serve, st, st.clients[i]);
    case _ =>
  }

  lemma SizedByIrq(st: State, c: Client)
    requires Sized(st, c)
    ensures Sized(IrqStep(st), c) && IrqStep(st).clients == st.clients
  {
  }

  lemma ThreadSendsSized(st: State, c: Client)
    requires Engaged(c.pc) && Exchange(st.x, st.server, c)
    ensures st.server.thread.pc == TSend ==> st.server.thread.snd.pc != SSetLen
    ensures st.server.thread.pc == TComplete ==> st.x.flags.active
  {
  }

  // ----- fair runs -----

  /** Somewhere in the run the owner's call returns 0. */
  ghost predicate ReturnsIn(serve: Oracle, st: State, es: seq<Event>, i: nat) {
    exists k: nat :: k <= |es| && Returned(Run(serve, st, es[..k]), i)
  }

  lemma ReturnsLater(serve: Oracle, st: State, e: Event, es: seq<Event>, i: nat)
    requires ReturnsIn(serve, Step(serve, st, e), es, i)
    ensures ReturnsIn(serve, st, [e] + es, i)
  {
    var k: nat :| k <= |es| && Returned(Run(serve, Step(serve, st, e), es[..k]), i);
    assert ([e] + es)[..k + 1] == [e] + es[..k];
    assert Run(serve, st, [e] + es[..k]) == Run(serve, Step(serve, st, e), ([e] + es[..k])[1..]);
    assert ([e] + es[..k])[1..] == es[..k];
    assert Returned(Run(serve, st, ([e] + es)[..k + 1]), i);
  }

  lemma FinishReturns(serve: Oracle, st: State, es: seq<Event>, i: nat)
    requires i < |st.clients| && st.clients[i].pc == CFinalReset && es != [] && es[0] == ClientRun(i)
    ensures ReturnsIn(serve, st, es, i)
  {
    assert es[..1] == [es[0]] && [es[0]][1..] == [];
    assert Run(serve, st, [es[0]]) == Run(serve, Step(serve, st, es[0]), []);
    assert Returned(Run(serve, st, es[..1]), i);
  }

  /** A run without a disable never takes the exchange back. */
  lemma {:induction false} RunNoLoss(serve: Oracle, st: State, es: seq<Event>, i: nat)
    requires Going(st, i) && NeverDisabled(es)
    ensures ReturnsIn(serve, st, es, i)
            || (Going(Run(serve, st, es), i) && Rank(serve, Run(serve, st, es), i) <= Rank(serve, st, i))
    decreases |es|
  {
    hide Inv, Rank, Moves, ReturnsIn, Step;
    if es != [] {
      if es[0] == ClientRun(i) && st.clients[i].pc == CFinalReset {
        FinishReturns(serve, st, es, i);
      } else {
        StepNoLoss(serve, st, es[0], i);
        RunNoLoss(serve, Step(serve, st, es[0]), es[1..], i);
        assert [es[0]] + es[1..] == es;
        if ReturnsIn(serve, Step(serve, st, es[0]), es[1..], i) {
          ReturnsLater(serve, st, es[0], es[1..], i);
        }
      }
    }
  }

  /** A run in which a party that can move gets its turn brings the exchange nearer its end. */
  lemma {:induction false} RunGains(serve: Oracle, st: State, es: seq<Event>, i: nat, p: Party)
    requires Going(st, i) && NeverDisabled(es) && Moves(serve, st, i, p) && Turn(p, i) in es
    ensures ReturnsIn(serve, st, es, i)
            || (Going(Run(serve, st, es), i) && Rank(serve, Run(serve, st, es), i) < Rank(serve, st, i))
    decreases |es|
  {
    hide Inv, Rank, Moves, ReturnsIn, Step;
    if es[0] == ClientRun(i) && st.clients[i].pc == CFinalReset {
      FinishReturns(serve, st, es, i);
    } else {
      var st' := Step(serve, st, es[0]);
      StepNoLoss(serve, st, es[0], i);
      assert [es[0]] + es[1..] == es;
      if Rank(serve, st', i) < Rank(serve, st, i) {
        RunNoLoss(serve, st', es[1..], i);
      } else {
        assert es[0] != Turn(p, i);
        assert Moves(serve, st', i, p);
        RunGains(serve, st', es[1..], i, p);
      }
      if ReturnsIn(serve, st', es[1..], i) {
        ReturnsLater(serve, st, es[0], es[1..], i);
      }
    }
  }

  /** Every party of the exchange gets a turn, among whatever else happens, and nobody disables the buffer. */
  predicate FairRound(es: seq<Event>, i: nat) {
    NeverDisabled(es) && ClientRun(i) in es && IrqRun in es && ThreadRun in es
  }

  function Flatten(rounds: seq<seq<Event>>): seq<Event> {
    if rounds == [] then [] else rounds[0] + Flatten(rounds[1..])
  }

  lemma ReturnsInLonger(serve: Oracle, st: State, a: seq<Event>, b: seq<Event>, i: nat)
    ensures ReturnsIn(serve, st, a, i) ==> ReturnsIn(serve, st, a + b, i)
    ensures ReturnsIn(serve, Run(serve, st, a), b, i) ==> ReturnsIn(serve, st, a + b, i)
  {
    if ReturnsIn(serve, st, a, i) {
      var k: nat :| k <= |a| && Returned(Run(serve, st, a[..k]), i);
      assert (a + b)[..k] == a[..k];
    } else if ReturnsIn(serve, Run(serve, st, a), b, i) {
      var k: nat :| k <= |b| && Returned(Run(serve, Run(serve, st, a), b[..k]), i);
      RunConcat(serve, st, a, b[..k]);
      assert (a + b)[..|a| + k] == a + b[..k];
      assert Returned(Run(serve, st, (a + b)[..|a| + k]), i);
    }
  }

  /** While READY stays set an exchange ends, within as many fair rounds as there is work left. */
  lemma {:induction false} EveryExchangeEnds(serve: Oracle, st: State, rounds: seq<seq<Event>>, i: nat)
    requires Going(st, i) && |rounds| > Rank(serve, st, i)
    requires forall k :: 0 <= k < |rounds| ==> FairRound(rounds[k], i)
    ensures ReturnsIn(serve, st, Flatten(rounds), i)
    decreases |rounds|
  {
    var es := rounds[0];
    assert FairRound(es, i);
    SomeoneMoves(serve, st, i);
    var p :| Moves(serve, st, i, p);
    assert Turn(p, i) in es;
    RunGains(serve, st, es, i, p);
    if !ReturnsIn(serve, st, es, i) {
      EveryExchangeEnds(serve, Run(serve, st, es), rounds[1..], i);
    }
    ReturnsInLonger(serve, st, es, Flatten(rounds[1..]), i);
  }

  // ----- where progress ends: an empty request over a stale length -----

  /** An empty request writes no length, and the server is going to wait for, or waits for, the length it finds. */
  ghost predicate Hung(st: State, i: nat) {
    Inv(st) && st.x.flags.ready && i < |st.clients| && Engaged(st.clients[i].pc) && !Sized(st, st.clients[i])
  }

  lemma HungThread(serve: Oracle, st: State, i: nat)
    requires Hung(st, i)
    ensures !Sized(ThreadStep(serve, st), st.clients[i])
  {
    var c, t := st.clients[i], st.server.thread;
    assert ClientOk(st, i);
    if t.pc == TRecv {
      assert !st.x.flags.staged && t.rcv.read == 0;
    } else {
      ThreadSendsSized(st, c);
    }
  }

  lemma HungOwner(st: State, i: nat)
    requires Hung(st, i)
    ensures st.clients[i].pc != CFinalReset && !Sized(ClientStep(st, i), ClientStep(st, i).clients[i])
  {
    var c := st.clients[i];
    assert ClientOk(st, i);
    OwnerFrame(st, i);
    SenderFrame(st.x, c.snd);
    assert c.pc != CStage;
  }

  lemma HungStep(serve: Oracle, st: State, e: Event, i: nat)
    requires Hung(st, i) && e != Disable
    ensures Hung(Step(serve, st, e), i)
  {
    hide ClientStep, ThreadStep, Begun, Logged, Claimed, Called, Receiving, Replying, Completed;
    StepInv(serve, st, e);
    StepKeepsReady(serve, st, e);
    assert ClientOk(st, i);
    match e
    case ClientRun(j) =>
      if j == i {
        HungOwner(st, i);
        OwnerFrame(st, i);
        OwnerExchange(st, i);
      } else {
        BystanderNoLoss(serve, st, e, i);
      }
    case ThreadRun =>
      ThreadTouches(serve, st);
      HungThread(serve, st, i);
    case Begin(_, _) => BystanderNoLoss(serve, st, e, i);
    case _ =>
  }

  /** Such a call never returns while the buffer stays enabled: with EveryExchangeEnds, an exchange ends if and only if
      its request is not empty or the length left in the buffer is 0. */
  lemma {:induction false} EmptyRequestHangs(serve: Oracle, st: State, es: seq<Event>, i: nat)
    requires Hung(st, i) && NeverDisabled(es)
    ensures Hung(Run(serve, st, es), i) && !ReturnsIn(serve, st, es, i)
    decreases |es|
  {
    if es != [] {
      HungStep(serve, st, es[0], i);
      EmptyRequestHangs(serve, Step(serve, st, es[0]), es[1..], i);
    }
    forall k: nat | k <= |es| ensures !Returned(Run(serve, st, es[..k]), i) {
      if k > 0 {
        assert es[..k][0] == es[0] && es[..k][1..] == es[1..][..k - 1];
      }
    }
  }

  /** The two cases at the moment an empty request claims the buffer. */
  lemma EmptyRequestNeedsZeroLength(st: State, i: nat)
    requires Inv(st) && st.x.flags.ready && i < |st.clients| && st.clients[i].pc == CUnlockOk &&
        st.clients[i].snd.msg == []
    ensures Going(st, i) <==> st.x.dataLen == 0
    ensures Hung(st, i) <==> st.x.dataLen != 0
  {
    assert ClientOk(st, i);
  }
}
