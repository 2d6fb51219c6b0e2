/** The invariant of the whole machine: who may own the buffer, and how far the owner's exchange has come. */
module XbufInvariant {
  import opened Bytes
  import opened Xbuf
  import opened XbufSafety

  // ----- where the parties are -----

  /** Holding xbuf_lock. */
  predicate Locked(pc: ClientPc) {
    pc in {CReady, CUnlockErr, CPending, CReset, CRaise, CUnlockOk, CUnlockWait}
  }

  /** Between raising PENDING and the final reset. */
  predicate Engaged(pc: ClientPc) {
    pc in {CUnlockOk, CStage, CIpi, CSend, CWaitComplete, CWaitReady, CCheckResp, CRecv, CFinalReset}
  }

  predicate IdleThread(t: Thread) {
    t.pc in {TPrepare, TTest, TSleep} || (t.pc == TSend && t.snd.pc == SCheck && t.snd.Left() == 0)
  }

  predicate Signalled(irq: IrqPc) {
    irq in {IPending, IActive, IRaise}
  }

  /** The server has nothing left of an earlier exchange and no news of a next one. */
  predicate Quiet(v: Server) {
    v.ipis == 0 && v.irq in {IIdle, IWake} && !v.activeLcall && IdleThread(v.thread)
  }

  /** The server's receive was cut short by a disable, and the thread goes on with what it has. */
  predicate Cut(t: Thread) {
    t.rcv.pc == RFail
  }

  /** Inside init_stage_data. */
  predicate InStage(pc: SendPc) {
    pc == SSetLen || pc.SCopy? || pc == SRaise
  }

  /** A call that has touched no data yet. */
  predicate Fresh(c: Client) {
    c.snd == Sender(c.snd.msg, 0, 0, SSetLen) && c.rcv == NEW_RECEIVER
  }

  // ----- the phases of one exchange -----

  /** Before the interrupt is sent. */
  ghost predicate Claimed(x: Buffer, v: Server, c: Client) {
    var f := x.flags;
    && Quiet(v) && !f.active && !f.complete
    && SenderOk(x, c.snd, 0)
    && match c.pc
       case CUnlockOk => c.snd.pc == SSetLen
       case CStage =>
         && InStage(c.snd.pc) && c.snd.msg != [] && c.snd.sent == 0 && (c.snd.pc != SSetLen ==> x.dataLen == |c.snd.msg|)
       case _ => c.snd.pc == SCheck && (c.snd.msg != [] ==> x.dataLen == |c.snd.msg| && c.snd.sent > 0)
  }

  /** The client is sending the rest of its request or waiting for completion; the server has taken `got` bytes. */
  ghost predicate RequestOk(x: Buffer, c: Client, got: nat) {
    && c.pc in {CSend, CWaitComplete, CWaitReady}
    && SenderOk(x, c.snd, got)
    && (c.snd.msg != [] ==> x.dataLen == |c.snd.msg| && c.snd.sent > 0)
    && c.snd.pc != SSetLen && (c.pc == CSend <==> c.snd.pc != SDone)
  }

  /** Sent, and not yet picked up by the kernel thread. */
  ghost predicate Called(x: Buffer, v: Server, c: Client) {
    var f := x.flags;
    && RequestOk(x, c, 0)
    && (IdleThread(v.thread) || (v.activeLcall && v.thread.pc == TClear))
    && (if !f.active then !v.activeLcall && v.ipis + (if Signalled(v.irq) then 1 else 0) == 1
                          && v.irq !in {IHandler, ISetLcall}
        else if v.activeLcall then v.ipis == 0 && v.irq in {IIdle, IWake}
        else v.ipis == 0 && v.irq in {IHandler, ISetLcall})
  }

  ghost predicate PickedUp(x: Buffer, v: Server) {
    x.flags.active && !v.activeLcall && v.ipis == 0 && v.irq in {IIdle, IWake}
  }

  ghost predicate Receiving(x: Buffer, v: Server, c: Client) {
    && PickedUp(x, v)
    && (if v.thread.pc == TRecvStart then RequestOk(x, c, 0)
        else
          && RequestOk(x, c, v.thread.rcv.read)
          && ReceiverOk(x, v.thread.rcv, c.snd.msg)
          && v.thread.rcv.pc !in {RDone, RFail})
  }

  /** The server has whole chunks of the request and not all of it; with none, the first still stands in the buffer. */
  ghost predicate CutOk(x: Buffer, c: Client, r: Receiver) {
    && ReceiverOk(x, r, c.snd.msg)
    && (c.pc == CSend && c.snd.pc != SCheck ==> c.snd.Left() > 0)
    && (r.read == 0 && c.snd.msg != [] ==>
          x.flags.staged && c.pc != CFinalReset && !(c.pc == CSend && (c.snd.pc.SCopy? || c.snd.pc == SRaise)))
  }

  /** The whole request is on the server's side, and STAGED is free for the answer. */
  ghost predicate RequestSeen(x: Buffer, v: Server, c: Client) {
    && v.thread.rcv.pc == RDone
    && v.thread.rcv.buf == c.snd.msg
    && c.snd.sent == |c.snd.msg|
    && Counted(|x.data|, |c.snd.msg|, |c.snd.msg|, c.snd.handoffs)
    && (c.pc == CSend ==> c.snd.pc == SCheck)
  }

  ghost predicate AnswerStaging(v: Server) {
    var s := v.thread.snd;
    match v.thread.pc
    case THandle => true
    case TComplete => s.pc == SSetLen
    case TStage => s.msg != [] && s.sent == 0 && InStage(s.pc)
    case _ => s.pc == SCheck
  }

  ghost predicate Replying(x: Buffer, v: Server, c: Client) {
    var s := v.thread.snd;
    && |x.data| > 0
    && PickedUp(x, v)
    && c.pc in {CSend, CWaitComplete, CWaitReady}
    && AnswerStaging(v)
    && (s.msg != [] && (v.thread.pc == TRaiseComplete || (v.thread.pc == TStage && s.pc != SSetLen)) ==>
          x.dataLen == |s.msg|)
    && (v.thread.pc in {TComplete, TStage} ==> s.sent == 0)
    && (v.thread.pc == TRaiseComplete ==> if s.msg == [] then s.sent == 0 else x.flags.staged)
    && (if Cut(v.thread) then CutOk(x, c, v.thread.rcv)
        else
          && RequestSeen(x, v, c)
          && if v.thread.pc == THandle then !x.flags.staged else SenderOk(x, s, 0))
  }

  /** How much of the answer the client has taken. */
  function Taken(c: Client): nat {
    match c.pc
    case CRecv => c.rcv.read
    case CFinalReset => |c.rcv.buf|
    case _ => 0
  }

  ghost predicate Completed(x: Buffer, v: Server, c: Client) {
    var s := v.thread.snd;
    && |x.data| > 0
    && PickedUp(x, v)
    && v.thread.rcv.pc in {RDone, RFail}
    && (IdleThread(v.thread) || v.thread.pc == TSend)
    && (v.thread.pc == TSend ==> s.pc != SSetLen && s.pc != SDone)
    && (v.thread.pc != TSend ==> s.pc == SDone)
    && c.pc in {CSend, CWaitComplete, CWaitReady, CCheckResp, CRecv, CFinalReset}
    && (s.msg != [] ==> x.dataLen == |s.msg|)
    && (if Cut(v.thread) then
          && CutOk(x, c, v.thread.rcv)
          && s.pc in {SCheck, SDone}
          && (if s.msg == [] then s.sent == 0 else x.flags.staged && c.pc != CFinalReset)
          && (c.pc == CRecv ==> c.rcv == NEW_RECEIVER || (c.rcv.pc == RCheck && c.rcv.read == 0))
          && (c.pc == CFinalReset ==> c.rcv == NEW_RECEIVER)
        else
          && RequestSeen(x, v, c)
          && SenderOk(x, s, Taken(c))
          && (c.pc == CRecv ==>
                s.msg != [] && ReceiverOk(x, c.rcv, s.msg) && c.rcv.pc !in {RDone, RFail})
          && (c.pc == CFinalReset ==>
                c.rcv.buf == s.msg && Counted(|x.data|, |s.msg|, |s.msg|, c.rcv.handoffs))
          && (c.pc in {CSend, CWaitComplete, CWaitReady, CCheckResp} ==>
                s.msg != [] ==> x.flags.staged))
  }

  ghost predicate Exchange(x: Buffer, v: Server, c: Client) {
    && c.snd.sent <= |c.snd.msg|
    && (c.pc == CSend ==> c.snd.pc != SSetLen && c.snd.pc != SDone)
    && (c.pc !in {CRecv, CFinalReset} ==> c.rcv == NEW_RECEIVER)
    && (if c.pc in {CUnlockOk, CStage, CIpi} then Claimed(x, v, c)
        else if x.flags.complete then Completed(x, v, c)
        else if v.thread.pc in {TRecvStart, TRecv} then Receiving(x, v, c)
        else if v.thread.pc in {THandle, TComplete, TStage, TRaiseComplete} then Replying(x, v, c)
        else Called(x, v, c))
  }

  // ----- the whole state -----

  /** PENDING, ACTIVE and the interrupt: one activation for each acquisition. */
  predicate Interrupts(st: State) {
    var outstanding := st.server.ipis + if Signalled(st.server.irq) then 1 else 0;
    && (outstanding == 0 || (outstanding == 1 && st.x.flags.pending && !st.x.flags.active))
    && (st.server.irq in {IHandler, ISetLcall} ==> st.x.flags.pending && st.x.flags.active)
    && (st.server.activeLcall || st.server.thread.pc in {TClear, TRecvStart} ==> st.x.flags.active)
    && st.acquired == st.activated + if st.x.flags.pending && !st.x.flags.active then 1 else 0
  }

  /** A set active_lcall is never slept through. */
  predicate Awake(st: State) {
    st.server.activeLcall && st.server.irq != IWake ==> !(st.server.thread.pc == TSleep && st.server.thread.asleep)
  }

  predicate ClientAt(x: Buffer, lock: Option<nat>, c: Client, i: nat) {
    && (Locked(c.pc) <==> lock == Some(i))
    && (c.pc != CIdle && !Engaged(c.pc) ==> Fresh(c))
    && (c.pc in {CReset, CRaise} ==> !x.flags.pending)
    && (c.pc == CRaise ==> !x.flags.staged && !x.flags.active && !x.flags.complete)
    && (Engaged(c.pc) ==> x.flags.pending)
  }

  ghost predicate ClientOk(st: State, i: nat)
    requires i < |st.clients|
  {
    && ClientAt(st.x, st.lock, st.clients[i], i)
    && (Engaged(st.clients[i].pc) ==> Exchange(st.x, st.server, st.clients[i]))
  }

  ghost predicate OneEngaged(st: State) {
    forall i, j :: 0 <= i < j < |st.clients| ==> !(Engaged(st.clients[i].pc) && Engaged(st.clients[j].pc))
  }

  /** A pending buffer has an owner, unless the owner gave up on a disabled one. */
  ghost predicate Owned(st: State) {
    st.x.flags.pending && st.x.flags.ready ==> exists i :: 0 <= i < |st.clients| && Engaged(st.clients[i].pc)
  }

  /** Some of the chunks of a message, not none and not all. */
  ghost predicate Part(size: nat, msg: seq<Byte>, part: seq<Byte>) {
    size > 0 && 0 < |part| < |msg| && part == msg[..|part|] && |part| % size == 0
  }

  /** What a call that returned 0 achieved: both messages arrived, each in as many hand-offs as its length over `size`,
      rounded up; or a disable cut the server's receive, which is told by an empty answer alone. */
  ghost predicate Delivered(size: nat, o: Outcome) {
    && o.response == o.answer
    && (if o.cut then o.answer == [] && (o.seen == o.request || Part(size, o.request, o.seen))
        else
          && o.seen == o.request
          && Counted(size, |o.request|, |o.request|, o.sends)
          && Counted(size, |o.answer|, |o.answer|, o.receives))
  }

  lemma Stretched(a: int, size: nat)
    ensures a >= 1 ==> a * size >= size
    ensures a <= -1 ==> a * size + size <= 0
  {
  }

  lemma WholeChunks(size: nat, h: nat)
    requires size > 0
    ensures (h * size) % size == 0
  {
    var n := h * size;
    var q, r := n / size, n % size;
    assert n == q * size + r;
    assert (h - q) * size == r;
    Stretched(h - q, size);
  }

  lemma CutIsPart(x: Buffer, c: Client, r: Receiver)
    requires ReceiverOk(x, r, c.snd.msg) && r.pc == RFail && (r.read == 0 ==> c.snd.msg == [])
    ensures r.buf == c.snd.msg || Part(|x.data|, c.snd.msg, r.buf)
  {
    WholeChunks(|x.data|, r.handoffs);
  }

  ghost predicate Shared(st: State) {
    && |st.x.data| > 0
    && st.server.thread.pc != TDead
    && (st.lock.Some? ==> st.lock.value < |st.clients|)
    && (!st.x.flags.pending ==> Quiet(st.server))
    && Interrupts(st) && Awake(st) && Owned(st)
  }

  ghost predicate Logged(st: State) {
    forall k :: 0 <= k < |st.log| ==> Delivered(|st.x.data|, st.log[k]) && !(st.x.flags.ready && st.log[k].cut)
  }

  ghost predicate Inv(st: State) {
    && Shared(st) && OneEngaged(st) && Logged(st)
    && (forall i :: 0 <= i < |st.clients| ==> ClientOk(st, i))
  }

  lemma InitInv(st: State)
    requires Init(st)
    ensures Inv(st)
  {
  }
}
