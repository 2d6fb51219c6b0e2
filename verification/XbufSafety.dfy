/** What every reachable state of the shared buffer keeps, and what a successful sync_send therefore delivered. */
module XbufSafety {
  import opened Bytes
  import opened Xbuf

  // ----- one transfer: STAGED is the turn -----

  /** `sent` of `n` bytes went over in h full hand-offs, but for a shorter last one; at sent == n, h is ceil(n / size). */
  ghost predicate Counted(size: nat, n: nat, sent: nat, h: nat) {
    && sent <= h * size
    && (sent < n ==> sent == h * size)
    && (if sent == 0 then h == 0 else (h - 1) * size < sent)
  }

  /** Message bytes [from, from + n) stand at the front of the shared data. */
  ghost predicate Holds(x: Buffer, msg: seq<Byte>, from: nat, n: nat) {
    && n <= |x.data| && from + n <= |msg|
    && forall j :: 0 <= j < n ==> x.data[j] == msg[from + j]
  }

  /** The sender's side, when the receiver has taken `got` bytes off the buffer. */
  ghost predicate SenderOk(x: Buffer, s: Sender, got: nat) {
    && |x.data| > 0
    && got <= s.sent <= |s.msg|
    && Counted(|x.data|, |s.msg|, s.sent, s.handoffs)
    && (x.flags.staged ==> got < s.sent == got + Chunk(|x.data|, |s.msg| - got) && Holds(x, s.msg, got, s.sent - got))
    && (!x.flags.staged ==> s.sent == got)
    && match s.pc
       case SSetLen => !x.flags.staged && s.sent == 0
       case SCheck => true
       case SWaitStaged | SWaitReady => s.Left() > 0
       case SCopy(k) => !x.flags.staged && s.Left() > 0 && k <= Chunk(|x.data|, s.Left()) && Holds(x, s.msg, s.sent, k)
       case SRaise => !x.flags.staged && s.Left() > 0 && Holds(x, s.msg, s.sent, Chunk(|x.data|, s.Left()))
       case SDone => s.Left() == 0 || !x.flags.ready
  }

  /** The receiver's side of a transfer of `msg`; an empty message leaves a stale length to be read. */
  ghost predicate ReceiverOk(x: Buffer, r: Receiver, msg: seq<Byte>) {
    && |x.data| > 0
    && r.read <= |msg|
    && Counted(|x.data|, |msg|, r.read, r.handoffs)
    && (r.pc == RInit ==> r.read == 0 && r.buf == [])
    && (r.pc != RInit && msg != [] ==> r.len == |msg|)
    && match r.pc
       case RInit => true
       case RCheck => r.buf == msg[..r.read]
       case RWaitStaged | RWaitReady => r.buf == msg[..r.read] && r.Left() > 0
       case RCopy(k) =>
         x.flags.staged && r.read < |msg| && k <= Chunk(|x.data|, r.Left()) && r.buf == msg[..r.read + k]
       case RLower => x.flags.staged && r.read < |msg| && r.buf == msg[..r.read + Chunk(|x.data|, r.Left())]
       case RDone => r.read == |msg| && r.buf == msg
       case RFail => !x.flags.ready && r.buf == msg[..r.read] && (msg != [] ==> r.read < |msg|)
  }

  ghost predicate SameButStaged(x: Buffer, y: Buffer) {
    x.flags.(staged := false) == y.flags.(staged := false) && |x.data| == |y.data|
  }

  lemma SenderCopies(x: Buffer, s: Sender, got: nat)
    requires SenderOk(x, s, got) && s.pc.SCopy? && s.pc.k < Chunk(|x.data|, s.Left())
    ensures SenderOk(SendStep(x, s).0, SendStep(x, s).1, got)
  {
  }

  lemma SenderRaises(x: Buffer, s: Sender, got: nat)
    requires SenderOk(x, s, got) && s.pc == SRaise
    ensures SenderOk(SendStep(x, s).0, SendStep(x, s).1, got)
  {
  }

  lemma SenderMoves(x: Buffer, s: Sender, got: nat)
    requires SenderOk(x, s, got) && s.pc in {SSetLen, SCheck, SWaitStaged, SWaitReady, SDone}
    requires s.pc == SSetLen ==> s.msg != []
    ensures SenderOk(SendStep(x, s).0, SendStep(x, s).1, got)
  {
  }

  lemma SenderKeeps(x: Buffer, s: Sender, got: nat)
    requires SenderOk(x, s, got) && (s.pc == SSetLen ==> s.msg != [])
    ensures var (y, t) := SendStep(x, s);
            && SenderOk(y, t, got)
            && (x.flags.staged ==> y.data == x.data && y.flags == x.flags)
  {
    match s.pc {
      case SCopy(k) =>
        if k < Chunk(|x.data|, s.Left()) {
          SenderCopies(x, s, got);
        }
      case SRaise => SenderRaises(x, s, got);
      case _ => SenderMoves(x, s, got);
    }
  }

  lemma SenderFrame(x: Buffer, s: Sender)
    ensures var (y, t) := SendStep(x, s);
            && SameButStaged(x, y) && t.msg == s.msg
            && (if s.pc == SSetLen then y.dataLen == |s.msg| else y.dataLen == x.dataLen)
  {
  }

  /** The sender never disturbs a receiver of the same message. */
  lemma SenderKeepsReceiver(x: Buffer, s: Sender, r: Receiver)
    requires SenderOk(x, s, r.read) && ReceiverOk(x, r, s.msg)
    ensures ReceiverOk(SendStep(x, s).0, r, s.msg)
  {
  }

  lemma ReceiverCopies(x: Buffer, s: Sender, r: Receiver)
    requires SenderOk(x, s, r.read) && ReceiverOk(x, r, s.msg) && r.pc.RCopy?
    ensures ReceiverOk(x, RecvStep(x, r).1, s.msg)
  {
  }

  lemma ReceiverLowers(x: Buffer, s: Sender, r: Receiver)
    requires SenderOk(x, s, r.read) && ReceiverOk(x, r, s.msg) && r.pc == RLower
    ensures var (y, q) := RecvStep(x, r); SenderOk(y, s, q.read) && ReceiverOk(y, q, s.msg)
  {
  }

  lemma ReceiverMoves(x: Buffer, s: Sender, r: Receiver)
    requires SenderOk(x, s, r.read) && ReceiverOk(x, r, s.msg) && !r.pc.RCopy? && r.pc != RLower
    requires s.msg != [] ==> x.dataLen == |s.msg|
    ensures ReceiverOk(x, RecvStep(x, r).1, s.msg) && RecvStep(x, r).1.read == r.read
  {
  }

  lemma ReceiverKeeps(x: Buffer, s: Sender, r: Receiver)
    requires SenderOk(x, s, r.read) && ReceiverOk(x, r, s.msg)
    requires s.msg != [] ==> x.dataLen == |s.msg|
    ensures var (y, q) := RecvStep(x, r); SenderOk(y, s, q.read) && ReceiverOk(y, q, s.msg)
  {
    match r.pc {
      case RCopy(k) => ReceiverCopies(x, s, r);
      case RLower => ReceiverLowers(x, s, r);
      case _ => ReceiverMoves(x, s, r);
    }
  }

  lemma ReceiverFrame(x: Buffer, r: Receiver)
    ensures var (y, q) := RecvStep(x, r);
            && SameButStaged(x, y) && y.dataLen == x.dataLen && y.data == x.data
            && (r.pc != RLower ==> y == x)
  {
  }
}
