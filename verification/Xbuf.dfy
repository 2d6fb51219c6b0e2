/**
 The shared message buffer of src/pisces_xbuf.c and its server thread of src/pisces_lcall.c, as a machine of
 atomic steps.  Every read or write of a shared word is one step, every locked flag operation is one step, and a
 memcpy takes one step a byte, so two copies that overlap in time are visible as two program counters inside a
 copy.  Any number of clients of one descriptor compete; the server is an interrupt handler and a kernel thread.
 */
module Xbuf {
  import opened Bytes

  // ----- struct pisces_xbuf -----

  datatype Flags = Flags(ready: bool, pending: bool, staged: bool, active: bool, complete: bool)

  const XBUF_READY: bv64 := 0x01
  const XBUF_PENDING: bv64 := 0x02
  const XBUF_STAGED: bv64 := 0x04
  const XBUF_ACTIVE: bv64 := 0x08
  const XBUF_COMPLETE: bv64 := 0x10

  /** The bit fields laid over the 64-bit word, the first in bit 0.  The machine below keeps this record in place of the
      word: where a step sets one field, the code applies RaiseFlag or LowerFlag to the word, and where it clears four,
      ResetWord; their contracts say that the record then changes just so. */
  function FlagsOf(w: bv64): Flags {
    Flags(w & 1 == 1, (w >> 1) & 1 == 1, (w >> 2) & 1 == 1, (w >> 3) & 1 == 1, (w >> 4) & 1 == 1)
  }

  /** raise_flag, a locked or. */
  function RaiseFlag(w: bv64, f: bv64): (r: bv64)
    ensures f == XBUF_PENDING ==> FlagsOf(r) == FlagsOf(w).(pending := true)
    ensures f == XBUF_STAGED ==> FlagsOf(r) == FlagsOf(w).(staged := true)
    ensures f == XBUF_ACTIVE ==> FlagsOf(r) == FlagsOf(w).(active := true)
    ensures f == XBUF_COMPLETE ==> FlagsOf(r) == FlagsOf(w).(complete := true)
  {
    w | f
  }

  /** lower_flag, a locked and with the complement. */
  function LowerFlag(w: bv64, f: bv64): (r: bv64)
    ensures f == XBUF_READY ==> FlagsOf(r) == FlagsOf(w).(ready := false)
    ensures f == XBUF_STAGED ==> FlagsOf(r) == FlagsOf(w).(staged := false)
  {
    w & !f
  }

  /** reset_flags, a locked and with XBUF_READY. */
  function ResetWord(w: bv64): (r: bv64)
    ensures FlagsOf(r) == ResetFlags(FlagsOf(w))
  {
    w & XBUF_READY
  }

  /** total_size is the length of `data`. */
  datatype Buffer = Buffer(flags: Flags, dataLen: nat, data: seq<Byte>)

  function ResetFlags(f: Flags): Flags {
    Flags(f.ready, false, false, false, false)
  }

  function Chunk(size: nat, left: nat): nat {
    if left > size then size else left
  }

  // ----- init_stage_data and send_data -----

  datatype SendPc = SSetLen | SCheck | SWaitStaged | SWaitReady | SCopy(k: nat) | SRaise | SDone

  /** `sent` bytes have been handed over, in `handoffs` raises of STAGED. */
  datatype Sender = Sender(msg: seq<Byte>, sent: nat, handoffs: nat, pc: SendPc) {
    function Left(): nat {
      if sent <= |msg| then |msg| - sent else 0
    }
  }

  /** SSetLen is the entry of init_stage_data, SCheck the loop head of send_data; both share the copy and the raise. */
  function SendStep(x: Buffer, s: Sender): (Buffer, Sender) {
    var c := Chunk(|x.data|, s.Left());
    match s.pc
    case SSetLen => (x.(dataLen := |s.msg|), s.(pc := SCopy(0)))
    case SCheck => (x, s.(pc := if s.Left() == 0 || !x.flags.ready then SDone else SWaitStaged))
    case SWaitStaged => (x, s.(pc := if x.flags.staged then SWaitReady else SCopy(0)))
    case SWaitReady => (x, s.(pc := if x.flags.ready then SWaitStaged else SDone))
    case SCopy(k) =>
      if k < c then (x.(data := x.data[k := s.msg[s.sent + k]]), s.(pc := SCopy(k + 1)))
      else (x, s.(pc := SRaise))
    case SRaise =>
      (x.(flags := x.flags.(staged := true)), s.(sent := s.sent + c, handoffs := s.handoffs + 1, pc := SCheck))
    case SDone => (x, s)
  }

  // ----- recv_data -----

  datatype RecvPc = RInit | RCheck | RWaitStaged | RWaitReady | RCopy(k: nat) | RLower | RDone | RFail

  /** RDone returns `len`, RFail (buffer disabled) returns 0. */
  datatype Receiver = Receiver(buf: seq<Byte>, len: nat, read: nat, handoffs: nat, pc: RecvPc) {
    function Left(): nat {
      if read <= len then len - read else 0
    }
  }

  const NEW_RECEIVER := Receiver([], 0, 0, 0, RInit)

  function RecvStep(x: Buffer, r: Receiver): (Buffer, Receiver) {
    var c := Chunk(|x.data|, r.Left());
    match r.pc
    case RInit => (x, Receiver([], x.dataLen, 0, 0, RCheck))
    case RCheck => (x, r.(pc := if r.Left() == 0 then RDone else if x.flags.ready then RWaitStaged else RFail))
    case RWaitStaged => (x, r.(pc := if x.flags.staged then RCopy(0) else RWaitReady))
    case RWaitReady => (x, r.(pc := if x.flags.ready then RWaitStaged else RFail))
    case RCopy(k) =>
      if k < c then (x, r.(buf := r.buf + [x.data[k]], pc := RCopy(k + 1)))
      else (x, r.(pc := RLower))
    case RLower =>
      (x.(flags := x.flags.(staged := false)), r.(read := r.read + c, handoffs := r.handoffs + 1, pc := RCheck))
    case RDone | RFail => (x, r)
  }

  // ----- the machine -----

  /** pisces_xbuf_sync_send, one value a point between two shared accesses. */
  datatype ClientPc =
    | CIdle | CLock | CReady | CUnlockErr | CPending | CReset | CRaise | CUnlockOk | CUnlockWait | CWait
    | CStage | CIpi | CSend | CWaitComplete | CWaitReady | CCheckResp | CRecv | CFinalReset

  datatype Client = Client(pc: ClientPc, snd: Sender, rcv: Receiver, result: int)

  /** irq_handler, with lcall_handler as the receive handler. */
  datatype IrqPc = IIdle | IPending | IActive | IRaise | IHandler | ISetLcall | IWake

  /** lcall_kern_thread: wait_event is TPrepare, TTest, TSleep; then pisces_xbuf_recv; then pisces_xbuf_complete. */
  datatype ThreadPc =
    | TPrepare | TTest | TSleep | TClear | TRecvStart | TRecv | THandle | TComplete | TStage | TRaiseComplete | TSend
    | TDead

  datatype Thread = Thread(pc: ThreadPc, asleep: bool, rcv: Receiver, snd: Sender)

  /** What one successful sync_send left behind: what each side sent and what the other side has of it. */
  datatype Outcome = Outcome(
    request: seq<Byte>, seen: seq<Byte>, answer: seq<Byte>, response: seq<Byte>, sends: nat, receives: nat, cut: bool)

  /** The server's side: interrupts under way, the handler, the kernel thread, and active_lcall between the two. */
  datatype Server = Server(ipis: nat, irq: IrqPc, thread: Thread, activeLcall: bool)

  /** `acquired`, `activated` and `log` record history; no step reads them but the oracle index `activated`. */
  datatype State = State(
    x: Buffer, lock: Option<nat>, clients: seq<Client>, server: Server, acquired: nat, activated: nat,
    log: seq<Outcome>)

  /** Disable is pisces_xbuf_disable; Begin enters sync_send. */
  datatype Event = Begin(client: nat, request: seq<Byte>) | ClientRun(client: nat) | IrqRun | ThreadRun | Disable

  /** The answer to the n-th activation: every choice the server's handlers can make is some oracle of this type. */
  type Oracle = (nat, seq<Byte>) -> seq<Byte>

  function Begun(st: State, i: nat, request: seq<Byte>): State
    requires i < |st.clients|
  {
    if st.clients[i].pc != CIdle then st
    else st.(clients := st.clients[i := Client(CLock, Sender(request, 0, 0, SSetLen), NEW_RECEIVER, 0)])
  }

  function ClientTo(st: State, i: nat, pc: ClientPc): State
    requires i < |st.clients|
  {
    st.(clients := st.clients[i := st.clients[i].(pc := pc)])
  }

  /** Leaves sync_send with `result`; the wake-up of waiting clients needs no step, see CWait. */
  function ClientReturns(st: State, i: nat, result: int): State
    requires i < |st.clients|
  {
    st.(clients := st.clients[i := st.clients[i].(pc := CIdle, result := result)])
  }

  function ClientStep(st: State, i: nat): State
    requires i < |st.clients|
  {
    var c := st.clients[i];
    var f := st.x.flags;
    match c.pc
    case CIdle => st
    case CLock => if st.lock == None then ClientTo(st.(lock := Some(i)), i, CReady) else st
    case CReady => ClientTo(st, i, if f.ready then CPending else CUnlockErr)
    case CUnlockErr => ClientReturns(st.(lock := None), i, -1)
    case CPending => ClientTo(st, i, if f.pending then CUnlockWait else CReset)
    case CReset => ClientTo(st.(x := st.x.(flags := ResetFlags(f))), i, CRaise)
    case CRaise =>
      ClientTo(st.(x := st.x.(flags := f.(pending := true)), acquired := st.acquired + 1), i, CUnlockOk)
    case CUnlockOk =>
      if |c.snd.msg| > 0 then ClientTo(st.(lock := None), i, CStage)
      else st.(lock := None, clients := st.clients[i := c.(pc := CIpi, snd := c.snd.(pc := SCheck))])
    case CUnlockWait => ClientTo(st.(lock := None), i, CWait)
    // The wait also ends on a signal, and the code looks again either way.
    case CWait => ClientTo(st, i, CLock)
    case CStage =>
      var (x, snd) := SendStep(st.x, c.snd);
      st.(x := x, clients := st.clients[i := c.(snd := snd, pc := if snd.pc == SCheck then CIpi else CStage)])
    case CIpi => ClientTo(st.(server := st.server.(ipis := st.server.ipis + 1)), i, CSend)
    // The result of send_data is not looked at.
    case CSend =>
      var (x, snd) := SendStep(st.x, c.snd);
      st.(x := x, clients := st.clients[i := c.(snd := snd, pc := if snd.pc == SDone then CWaitComplete else CSend)])
    case CWaitComplete => ClientTo(st, i, if f.complete then CCheckResp else CWaitReady)
    case CWaitReady => if f.ready then ClientTo(st, i, CWaitComplete) else ClientReturns(st, i, -1)
    case CCheckResp => ClientTo(st, i, if f.staged then CRecv else CFinalReset)
    case CRecv =>
      var (x, rcv) := RecvStep(st.x, c.rcv);
      var st' := st.(x := x, clients := st.clients[i := c.(rcv := rcv)]);
      if rcv.pc == RFail || (rcv.pc == RDone && rcv.len == 0) then ClientReturns(st', i, -1)
      else if rcv.pc == RDone then ClientTo(st', i, CFinalReset)
      else st'
    case CFinalReset =>
      var t := st.server.thread;
      ClientReturns(
        st.(x := st.x.(flags := ResetFlags(f)),
            log := st.log + [Outcome(c.snd.msg, t.rcv.buf, t.snd.msg, c.rcv.buf,
                                     c.snd.handoffs, c.rcv.handoffs, t.rcv.pc == RFail)]),
        i, 0)
  }

  /** The interrupt is taken when one is outstanding; only this handler takes the server's own xbuf_lock. */
  function IrqStep(st: State): State {
    var v := st.server;
    var f := st.x.flags;
    match v.irq
    case IIdle => if v.ipis > 0 then st.(server := v.(ipis := v.ipis - 1, irq := IPending)) else st
    case IPending => st.(server := v.(irq := if f.pending then IActive else IIdle))
    case IActive => st.(server := v.(irq := if f.active then IIdle else IRaise))
    case IRaise =>
      st.(x := st.x.(flags := f.(active := true)), activated := st.activated + 1, server := v.(irq := IHandler))
    case IHandler => st.(server := v.(irq := if f.pending then ISetLcall else IIdle))
    case ISetLcall => st.(server := v.(activeLcall := true, irq := IWake))
    case IWake => st.(server := v.(thread := v.thread.(asleep := false), irq := IIdle))
  }

  function ThreadTo(st: State, t: Thread): State {
    st.(server := st.server.(thread := t))
  }

  function ThreadStep(serve: Oracle, st: State): State {
    var t := st.server.thread;
    var f := st.x.flags;
    match t.pc
    case TPrepare => ThreadTo(st, t.(pc := TTest, asleep := true))
    case TTest => ThreadTo(st, if st.server.activeLcall then t.(pc := TClear, asleep := false) else t.(pc := TSleep))
    case TSleep => if t.asleep then st else ThreadTo(st, t.(pc := TPrepare))
    case TClear => st.(server := st.server.(activeLcall := false, thread := t.(pc := TRecvStart)))
    case TRecvStart => ThreadTo(st, if f.active then t.(pc := TRecv, rcv := NEW_RECEIVER) else t.(pc := TDead))
    // A receive cut short returns 0, and the thread goes on with what it has: it stops on -1 only.
    case TRecv =>
      var (x, rcv) := RecvStep(st.x, t.rcv);
      ThreadTo(st.(x := x), t.(rcv := rcv, pc := if rcv.pc in {RDone, RFail} then THandle else TRecv))
    case THandle => ThreadTo(st, t.(pc := TComplete, snd := Sender(serve(st.activated, t.rcv.buf), 0, 0, SSetLen)))
    case TComplete =>
      if !f.active then ThreadTo(st, t.(pc := TPrepare))
      else if |t.snd.msg| > 0 then ThreadTo(st, t.(pc := TStage))
      else ThreadTo(st, t.(pc := TRaiseComplete, snd := t.snd.(pc := SCheck)))
    case TStage =>
      var (x, snd) := SendStep(st.x, t.snd);
      ThreadTo(st.(x := x), t.(snd := snd, pc := if snd.pc == SCheck then TRaiseComplete else TStage))
    case TRaiseComplete => ThreadTo(st.(x := st.x.(flags := f.(complete := true))), t.(pc := TSend))
    case TSend =>
      var (x, snd) := SendStep(st.x, t.snd);
      ThreadTo(st.(x := x), t.(snd := snd, pc := if snd.pc == SDone then TPrepare else TSend))
    case TDead => st
  }

  /** One step of the whole system; an event nobody can take leaves the state alone. */
  function Step(serve: Oracle, st: State, e: Event): State {
    match e
    case Begin(i, request) => if i < |st.clients| then Begun(st, i, request) else st
    case ClientRun(i) => if i < |st.clients| then ClientStep(st, i) else st
    case IrqRun => IrqStep(st)
    case ThreadRun => ThreadStep(serve, st)
    case Disable => st.(x := st.x.(flags := st.x.flags.(ready := false)))
  }

  function Run(serve: Oracle, st: State, es: seq<Event>): State
    decreases |es|
  {
    if es == [] then st else Run(serve, Step(serve, st, es[0]), es[1..])
  }

  lemma {:induction false} RunConcat(serve: Oracle, st: State, a: seq<Event>, b: seq<Event>)
    ensures Run(serve, st, a + b) == Run(serve, Run(serve, st, a), b)
    decreases |a|
  {
    if a == [] {
      assert a + b == b;
    } else {
      assert (a + b)[0] == a[0] && (a + b)[1..] == a[1..] + b;
      RunConcat(serve, Step(serve, st, a[0]), a[1..], b);
    }
  }

  /** An enabled buffer, nothing in flight; the stale data_len and data are arbitrary. */
  ghost predicate Init(st: State) {
    && |st.x.data| > 0
    && st.x.flags == Flags(true, false, false, false, false)
    && st.lock == None
    && (forall i :: 0 <= i < |st.clients| ==> st.clients[i].pc == CIdle)
    && st.server.ipis == 0 && st.server.irq == IIdle && st.server.thread.pc == TPrepare && !st.server.activeLcall
    && st.acquired == 0 && st.activated == 0 && st.log == []
  }
}
