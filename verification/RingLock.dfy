/** Any number of threads that use one early ring buffer under the test-and-set lock of src/pisces_lock.c. */
module RingLock {
  import opened Bytes
  import opened Ringbuf

  datatype Op = WriteOp(data: seq<Byte>) | ReadOp(len: nat)

  /** The statements of a ring operation between taking and releasing the lock.  `sec` is section_len. */
  datatype Phase =
    | Start
    | WFirst(sec: nat) | WReset(sec: nat) | WSecond(sec: nat) | WPlain | WAdd(n: nat) | WLen
    | RFirst(sec: nat) | RReset(sec: nat, got: seq<Byte>) | RSecond(sec: nat, got: seq<Byte>) | RPlain
    | RAdd(n: nat, got: seq<Byte>) | RLen(got: seq<Byte>)
    | Leave(ok: bool)

  datatype Pc = Idle | Trying(op: Op) | Spinning(op: Op) | Inside(op: Op, at: Phase)

  datatype Ring = Ring(r: nat, w: nat, len: nat, buf: seq<Byte>)

  /** `written` and `taken` log the bytes of the operations that updated the length. */
  datatype State = State(lock: nat, ring: Ring, pcs: map<nat, Pc>, written: seq<Byte>, taken: seq<Byte>) {
    function Pc(t: nat): Pc {
      if t in pcs then pcs[t] else Idle
    }

    function Goto(t: nat, pc: Pc): State {
      this.(pcs := pcs[t := pc])
    }
  }

  function Init(size: nat): State {
    State(0, Ring(0, 0, 0, Zeros(size)), map[], [], [])
  }

  predicate IsReadLoop(ring: Ring, len: nat) {
    ring.r >= ring.w && ring.len > 0 && |ring.buf| - ring.r < len
  }

  predicate IsWriteLoop(ring: Ring, len: nat) {
    ring.w >= ring.r && ring.len < |ring.buf| && |ring.buf| - ring.w < len
  }

  /** memcpy into the buffer; a copy that does not fit has no result here. */
  function Put(ring: Ring, at: nat, data: seq<Byte>): Ring {
    if at + |data| <= |ring.buf| then ring.(buf := Copied(ring.buf, at, data)) else ring
  }

  function Get(ring: Ring, at: nat, n: nat): seq<Byte> {
    if at + n <= |ring.buf| then ring.buf[at..at + n] else []
  }

  function Head(data: seq<Byte>, n: nat): seq<Byte> {
    if n <= |data| then data[..n] else data
  }

  function Tail(data: seq<Byte>, n: nat): seq<Byte> {
    if n <= |data| then data[n..] else []
  }

  /** The subtractions of the code, which never go below zero. */
  function Less(a: nat, b: nat): nat {
    if b <= a then a - b else 0
  }

  /** One statement of a write, with the bytes it adds to the log. */
  function WriteStep(ring: Ring, data: seq<Byte>, at: Phase): (Ring, Phase, seq<Byte>) {
    var size := |ring.buf|;
    match at
    case Start =>
      if |data| > Less(size, ring.len) then (ring, Leave(false), [])
      else (ring, if IsWriteLoop(ring, |data|) then WFirst(Less(size, ring.w)) else WPlain, [])
    case WFirst(sec) => (Put(ring, ring.w, Head(data, sec)), WReset(sec), [])
    case WReset(sec) => (ring.(w := 0), WSecond(sec), [])
    case WSecond(sec) => (Put(ring, ring.w, Tail(data, sec)), WAdd(Less(|data|, sec)), [])
    case WPlain => (Put(ring, ring.w, data), WAdd(|data|), [])
    case WAdd(n) => (ring.(w := ring.w + n), WLen, [])
    case WLen => (ring.(len := ring.len + |data|), Leave(true), data)
    case _ => (ring, Leave(true), [])
  }

  /** One statement of a read, with the bytes it hands to its caller. */
  function ReadStep(ring: Ring, len: nat, at: Phase): (Ring, Phase, seq<Byte>) {
    var size := |ring.buf|;
    match at
    case Start =>
      if len > ring.len then (ring, Leave(false), [])
      else (ring, if IsReadLoop(ring, len) then RFirst(Less(size, ring.r)) else RPlain, [])
    case RFirst(sec) => (ring, RReset(sec, Get(ring, ring.r, sec)), [])
    case RReset(sec, got) => (ring.(r := 0), RSecond(sec, got), [])
    case RSecond(sec, got) => (ring, RAdd(Less(len, sec), got + Get(ring, ring.r, Less(len, sec))), [])
    case RPlain => (ring, RAdd(len, Get(ring, ring.r, len)), [])
    case RAdd(n, got) => (ring.(r := ring.r + n), RLen(got), [])
    case RLen(got) => (ring.(len := Less(ring.len, len)), Leave(true), got)
    case _ => (ring, Leave(true), [])
  }

  /** One step of thread t, which starts `op` if it is idle. */
  function Step(s: State, t: nat, op: Op): State {
    match s.Pc(t)
    case Idle => s.Goto(t, Trying(op))
    case Trying(mine) => s.(lock := 1).Goto(t, if s.lock == 0 then Inside(mine, Start) else Spinning(mine))
    case Spinning(mine) => if s.lock == 0 then s.Goto(t, Trying(mine)) else s
    case Inside(mine, Leave(_)) => s.(lock := 0).Goto(t, Idle)
    case Inside(WriteOp(data), at) =>
      var (ring, next, bytes) := WriteStep(s.ring, data, at);
      s.(ring := ring, written := s.written + bytes).Goto(t, Inside(WriteOp(data), next))
    case Inside(ReadOp(len), at) =>
      var (ring, next, bytes) := ReadStep(s.ring, len, at);
      s.(ring := ring, taken := s.taken + bytes).Goto(t, Inside(ReadOp(len), next))
  }

  datatype Choice = Choice(t: nat, op: Op)

  function Run(s: State, schedule: seq<Choice>): State
    decreases |schedule|
  {
    if schedule == [] then s else Run(Step(s, schedule[0].t, schedule[0].op), schedule[1..])
  }

  // ----- the invariant -----

  /** The log is what was taken and then what the ring holds. */
  ghost predicate Rest(ring: Ring, written: seq<Byte>, taken: seq<Byte>) {
    Aligned(|ring.buf|, ring.r, ring.w, ring.len) && written == taken + Contents(ring.buf, ring.r, ring.len)
  }

  ghost predicate Wrapped(ring: Ring, data: seq<Byte>, w: nat, sec: nat) {
    sec < |data| <= |ring.buf| - ring.len && w + sec == |ring.buf|
  }

  /** What holds of the ring before each statement of a write. */
  ghost predicate WriteOk(ring: Ring, data: seq<Byte>, at: Phase, written: seq<Byte>, taken: seq<Byte>)
    requires ring.len <= |ring.buf|
  {
    var size := |ring.buf|;
    match at
    case Start | Leave(_) => Rest(ring, written, taken)
    case WFirst(sec) => Rest(ring, written, taken) && Wrapped(ring, data, ring.w, sec)
    case WReset(sec) =>
      Rest(ring, written, taken) && Wrapped(ring, data, ring.w, sec) && ring.buf[ring.w..] == data[..sec]
    case WSecond(sec) =>
      sec <= size && Rest(ring.(w := size - sec), written, taken) && Wrapped(ring, data, size - sec, sec) &&
      ring.w == 0 && ring.buf[size - sec..] == data[..sec]
    case WPlain => Rest(ring, written, taken) && |data| <= size - ring.len && ring.w + |data| <= size
    case WAdd(n) =>
      ring.len + |data| <= size &&
      Rest(ring.(w := ring.w + n, len := ring.len + |data|), written + data, taken)
    case WLen => ring.len + |data| <= size && Rest(ring.(len := ring.len + |data|), written + data, taken)
    case _ => false
  }

  /** What holds of the ring before each statement of a read. */
  ghost predicate ReadOk(ring: Ring, len: nat, at: Phase, written: seq<Byte>, taken: seq<Byte>)
    requires ring.len <= |ring.buf|
  {
    var size := |ring.buf|;
    match at
    case Start | Leave(_) => Rest(ring, written, taken)
    case RFirst(sec) => Rest(ring, written, taken) && ring.r + sec == size && sec < len <= ring.len
    case RReset(sec, got) =>
      Rest(ring, written, taken) && ring.r + sec == size && sec < len <= ring.len && got == ring.buf[ring.r..]
    case RSecond(sec, got) =>
      sec < len <= ring.len && sec <= size && Rest(ring.(r := size - sec), written, taken) &&
      ring.r == 0 && got == ring.buf[size - sec..]
    case RPlain => Rest(ring, written, taken) && len <= ring.len && ring.r + len <= size
    case RAdd(n, got) =>
      |got| == len <= ring.len && Rest(ring.(r := ring.r + n, len := ring.len - len), written, taken + got)
    case RLen(got) => |got| == len <= ring.len && Rest(ring.(len := ring.len - len), written, taken + got)
    case _ => false
  }

  ghost predicate OpOk(ring: Ring, op: Op, at: Phase, written: seq<Byte>, taken: seq<Byte>) {
    ring.len <= |ring.buf| &&
    match op
    case WriteOp(data) => WriteOk(ring, data, at, written, taken)
    case ReadOp(len) => ReadOk(ring, len, at, written, taken)
  }

  /** The lock is taken exactly when one thread is inside, and that thread's operation is on its way. */
  ghost predicate Inv(s: State) {
    s.lock in {0, 1} &&
    (forall t, u :: s.Pc(t).Inside? && s.Pc(u).Inside? ==> t == u) &&
    (s.lock == 1 <==> exists t :: s.Pc(t).Inside?) &&
    (s.lock == 0 ==> Rest(s.ring, s.written, s.taken)) &&
    (forall t :: s.Pc(t).Inside? ==> OpOk(s.ring, s.Pc(t).op, s.Pc(t).at, s.written, s.taken))
  }

  lemma InitInv(size: nat)
    ensures Inv(Init(size))
  {
  }

  // ----- every statement keeps it -----

  lemma WriteStart(ring: Ring, data: seq<Byte>, written: seq<Byte>, taken: seq<Byte>)
    requires Rest(ring, written, taken)
    ensures var (ring', next, bytes) := WriteStep(ring, data, Start);
            OpOk(ring', WriteOp(data), next, written + bytes, taken)
  {
  }

  /** After the copies: the index and the length still have to follow. */
  lemma WriteDone(ring: Ring, ring': Ring, data: seq<Byte>, w: nat, n: nat, written: seq<Byte>, taken: seq<Byte>)
    requires Rest(ring.(w := w), written, taken) && |data| <= |ring.buf| - ring.len
    requires Written(ring.buf, ring'.buf, w, data) && ring' == ring.(buf := ring'.buf)
    requires ring.w + n == w + |data| || (ring.w + n + |ring.buf| == w + |data| && ring.w + n > 0)
    requires ring.w + n <= |ring.buf|
    ensures OpOk(ring', WriteOp(data), WAdd(n), written, taken)
  {
    assert |ring'.buf| == |ring.buf|;
    hide Contents, Written, Slot;
    WrittenAppends(ring.buf, ring'.buf, ring.r, w, ring.len, data);
    assert taken + (Contents(ring.buf, ring.r, ring.len) + data) == taken + Contents(ring.buf, ring.r, ring.len) + data;
  }

  lemma WriteFirst(ring: Ring, data: seq<Byte>, sec: nat, written: seq<Byte>, taken: seq<Byte>)
    requires ring.len <= |ring.buf| && WriteOk(ring, data, WFirst(sec), written, taken)
    ensures var (ring', next, bytes) := WriteStep(ring, data, WFirst(sec));
            OpOk(ring', WriteOp(data), next, written + bytes, taken)
  {
  }

  lemma WriteReset(ring: Ring, data: seq<Byte>, sec: nat, written: seq<Byte>, taken: seq<Byte>)
    requires ring.len <= |ring.buf| && WriteOk(ring, data, WReset(sec), written, taken)
    ensures var (ring', next, bytes) := WriteStep(ring, data, WReset(sec));
            OpOk(ring', WriteOp(data), next, written + bytes, taken)
  {
  }

  lemma CopiedThere(buf: seq<Byte>, w: nat, data: seq<Byte>)
    requires w <= |buf| && buf[w..] == data
    ensures Copied(buf, w, data) == buf
  {
    assert buf[w + |data|..] == [];
  }

  lemma WriteSecond(ring: Ring, data: seq<Byte>, sec: nat, written: seq<Byte>, taken: seq<Byte>)
    requires ring.len <= |ring.buf| && WriteOk(ring, data, WSecond(sec), written, taken)
    ensures var (ring', next, bytes) := WriteStep(ring, data, WSecond(sec));
            OpOk(ring', WriteOp(data), next, written + bytes, taken)
  {
    hide Contents, Slot, Written, Copied;
    var w := |ring.buf| - sec;
    WrappedCopy(ring.buf, w, data);
    CopiedThere(ring.buf, w, data[..sec]);
    assert written + [] == written;
    WriteDone(ring, Put(ring, 0, data[sec..]), data, w, |data| - sec, written, taken);
  }

  lemma WritePlain(ring: Ring, data: seq<Byte>, written: seq<Byte>, taken: seq<Byte>)
    requires ring.len <= |ring.buf| && WriteOk(ring, data, WPlain, written, taken)
    ensures var (ring', next, bytes) := WriteStep(ring, data, WPlain);
            OpOk(ring', WriteOp(data), next, written + bytes, taken)
  {
    hide Contents, Slot, Written, Copied;
    PlainCopy(ring.buf, ring.w, data);
    assert written + [] == written;
    WriteDone(ring, Put(ring, ring.w, data), data, ring.w, |data|, written, taken);
  }

  lemma WriteIndices(ring: Ring, data: seq<Byte>, at: Phase, written: seq<Byte>, taken: seq<Byte>)
    requires ring.len <= |ring.buf| && WriteOk(ring, data, at, written, taken) && (at.WAdd? || at.WLen?)
    ensures var (ring', next, bytes) := WriteStep(ring, data, at);
            OpOk(ring', WriteOp(data), next, written + bytes, taken)
  {
    hide Contents;
    assert written + [] == written;
  }

  lemma WriteKeeps(ring: Ring, data: seq<Byte>, at: Phase, written: seq<Byte>, taken: seq<Byte>)
    requires OpOk(ring, WriteOp(data), at, written, taken) && !at.Leave?
    ensures var (ring', next, bytes) := WriteStep(ring, data, at);
            OpOk(ring', WriteOp(data), next, written + bytes, taken)
  {
    hide WriteStep, Contents, Rest;
    match at {
      case Start => WriteStart(ring, data, written, taken);
      case WFirst(sec) => WriteFirst(ring, data, sec, written, taken);
      case WReset(sec) => WriteReset(ring, data, sec, written, taken);
      case WSecond(sec) => WriteSecond(ring, data, sec, written, taken);
      case WPlain => WritePlain(ring, data, written, taken);
      case WAdd(n) => WriteIndices(ring, data, at, written, taken);
      case WLen => WriteIndices(ring, data, at, written, taken);
      case _ =>
    }
  }

  lemma ReadDone(ring: Ring, len: nat, r: nat, n: nat, got: seq<Byte>, written: seq<Byte>, taken: seq<Byte>)
    requires Rest(ring.(r := r), written, taken) && len <= ring.len && ring.r + n <= |ring.buf|
    requires ring.r + n == r + len || (ring.r + n + |ring.buf| == r + len && ring.r + n > 0)
    requires got == Contents(ring.buf, r, ring.len)[..len]
    ensures OpOk(ring, ReadOp(len), RAdd(n, got), written, taken)
  {
    hide Contents, Slot;
    var c := Contents(ring.buf, r, ring.len);
    ReadTakes(ring.buf, r, ring.len, len, ring.r + n);
    assert c == got + c[len..];
    assert taken + (got + c[len..]) == taken + got + c[len..];
  }

  lemma ReadStart(ring: Ring, len: nat, written: seq<Byte>, taken: seq<Byte>)
    requires Rest(ring, written, taken)
    ensures var (ring', next, bytes) := ReadStep(ring, len, Start);
            OpOk(ring', ReadOp(len), next, written, taken + bytes)
  {
    hide Contents;
    assert taken + [] == taken;
  }

  lemma ReadFirst(ring: Ring, len: nat, at: Phase, written: seq<Byte>, taken: seq<Byte>)
    requires ring.len <= |ring.buf| && ReadOk(ring, len, at, written, taken) && (at.RFirst? || at.RReset?)
    ensures var (ring', next, bytes) := ReadStep(ring, len, at);
            OpOk(ring', ReadOp(len), next, written, taken + bytes)
  {
    hide Contents;
    assert taken + [] == taken;
    if at.RReset? {
      assert ring.(r := 0).(r := |ring.buf| - at.sec) == ring;
    } else {
      assert ring.buf[ring.r..ring.r + at.sec] == ring.buf[ring.r..];
    }
  }

  lemma ReadCopiedSecond(ring: Ring, len: nat, sec: nat, got: seq<Byte>, written: seq<Byte>, taken: seq<Byte>)
    requires ring.len <= |ring.buf| && ReadOk(ring, len, RSecond(sec, got), written, taken)
    ensures OpOk(ring, ReadOp(len), RAdd(len - sec, got + Get(ring, 0, len - sec)), written, taken)
  {
    hide Contents;
    var r := |ring.buf| - sec;
    ReadIs(ring.buf, r, ring.len, len);
    ReadDone(ring, len, r, len - sec, got + Get(ring, 0, len - sec), written, taken);
  }

  lemma ReadCopiedPlain(ring: Ring, len: nat, written: seq<Byte>, taken: seq<Byte>)
    requires ring.len <= |ring.buf| && ReadOk(ring, len, RPlain, written, taken)
    ensures OpOk(ring, ReadOp(len), RAdd(len, Get(ring, ring.r, len)), written, taken)
  {
    hide Contents;
    ReadIs(ring.buf, ring.r, ring.len, len);
    ReadDone(ring, len, ring.r, len, Get(ring, ring.r, len), written, taken);
  }

  lemma ReadCopied(ring: Ring, len: nat, at: Phase, written: seq<Byte>, taken: seq<Byte>)
    requires ring.len <= |ring.buf| && ReadOk(ring, len, at, written, taken) && (at.RSecond? || at.RPlain?)
    ensures var (ring', next, bytes) := ReadStep(ring, len, at);
            OpOk(ring', ReadOp(len), next, written, taken + bytes)
  {
    hide Get, OpOk, Rest;
    assert taken + [] == taken;
    if at.RSecond? {
      ReadCopiedSecond(ring, len, at.sec, at.got, written, taken);
    } else {
      ReadCopiedPlain(ring, len, written, taken);
    }
  }

  lemma ReadIndices(ring: Ring, len: nat, at: Phase, written: seq<Byte>, taken: seq<Byte>)
    requires ring.len <= |ring.buf| && ReadOk(ring, len, at, written, taken) && (at.RAdd? || at.RLen?)
    ensures var (ring', next, bytes) := ReadStep(ring, len, at);
            OpOk(ring', ReadOp(len), next, written, taken + bytes)
  {
    hide Contents;
    assert taken + [] == taken;
  }

  lemma ReadKeeps(ring: Ring, len: nat, at: Phase, written: seq<Byte>, taken: seq<Byte>)
    requires OpOk(ring, ReadOp(len), at, written, taken) && !at.Leave?
    ensures var (ring', next, bytes) := ReadStep(ring, len, at);
            OpOk(ring', ReadOp(len), next, written, taken + bytes)
  {
    hide ReadStep, Contents, Rest;
    if at.Start? {
      ReadStart(ring, len, written, taken);
    } else if at.RFirst? || at.RReset? {
      ReadFirst(ring, len, at, written, taken);
    } else if at.RSecond? || at.RPlain? {
      ReadCopied(ring, len, at, written, taken);
    } else {
      ReadIndices(ring, len, at, written, taken);
    }
  }

  // ----- every step of every thread keeps it -----

  lemma StepInv(s: State, t: nat, op: Op)
    requires Inv(s)
    ensures Inv(Step(s, t, op))
  {
    hide OpOk, WriteStep, ReadStep, Rest;
    var s' := Step(s, t, op);
    forall u | u != t ensures s'.Pc(u) == s.Pc(u) {}
    match s.Pc(t) {
      case Inside(mine, at) =>
        if at.Leave? {
          LeaveRest(s.ring, mine, at, s.written, s.taken);
        } else {
          match mine {
            case WriteOp(data) => WriteKeeps(s.ring, data, at, s.written, s.taken);
            case ReadOp(len) => ReadKeeps(s.ring, len, at, s.written, s.taken);
          }
        }
        assert s'.Pc(t).Inside? == !at.Leave?;
      case Trying(mine) =>
        StartRest(s.ring, mine, s.written, s.taken);
        assert s'.Pc(t).Inside? == (s.lock == 0);
      case _ =>
    }
  }

  lemma LeaveRest(ring: Ring, op: Op, at: Phase, written: seq<Byte>, taken: seq<Byte>)
    requires OpOk(ring, op, at, written, taken) && at.Leave?
    ensures Rest(ring, written, taken)
  {
  }

  lemma StartRest(ring: Ring, op: Op, written: seq<Byte>, taken: seq<Byte>)
    ensures Rest(ring, written, taken) ==> OpOk(ring, op, Start, written, taken)
  {
  }

  lemma {:induction false} RunInv(s: State, schedule: seq<Choice>)
    requires Inv(s)
    ensures Inv(Run(s, schedule))
    decreases |schedule|
  {
    if schedule != [] {
      StepInv(s, schedule[0].t, schedule[0].op);
      RunInv(Step(s, schedule[0].t, schedule[0].op), schedule[1..]);
    }
  }

  // ----- the promises -----

  /** At most one thread is in a ring operation, whatever the schedule. */
  lemma OneInside(size: nat, schedule: seq<Choice>, t: nat, u: nat)
    ensures var s := Run(Init(size), schedule); s.Pc(t).Inside? && s.Pc(u).Inside? ==> t == u
  {
    InitInv(size);
    RunInv(Init(size), schedule);
  }

  /** What was read is a prefix of what was written, and while the lock is free the ring holds the rest. */
  lemma ReadsArePrefix(size: nat, schedule: seq<Choice>)
    ensures var s := Run(Init(size), schedule);
            s.taken <= s.written &&
            (s.lock == 0 ==> s.ring.r <= |s.ring.buf| && s.ring.len <= |s.ring.buf| &&
                             s.written == s.taken + Contents(s.ring.buf, s.ring.r, s.ring.len))
  {
    hide Contents;
    InitInv(size);
    RunInv(Init(size), schedule);
    var s := Run(Init(size), schedule);
    if s.lock == 1 {
      var t :| s.Pc(t).Inside?;
      PrefixInside(s.ring, s.Pc(t).op, s.Pc(t).at, s.written, s.taken);
    }
  }

  lemma PrefixInside(ring: Ring, op: Op, at: Phase, written: seq<Byte>, taken: seq<Byte>)
    requires OpOk(ring, op, at, written, taken)
    ensures taken <= written
  {
    hide Contents;
    if op.WriteOp? && (at.WAdd? || at.WLen?) {
      var all := written + op.data;
      assert taken == all[..|taken|];
      assert |taken| <= |written| && all[..|taken|] == written[..|taken|];
    }
  }

  // ----- what one operation does -----

  /** Thread t began its operation in s0, which it is still in.  It is going to succeed if and only if it fits, and with
      its answer ready it has moved all of its bytes or none. */
  ghost predicate UnderWay(s0: State, s: State, t: nat) {
    && s0.Pc(t).Inside? && s.Pc(t).Inside? && s.Pc(t).op == s0.Pc(t).op
    && |s.ring.buf| == |s0.ring.buf| && s0.ring.len <= |s0.ring.buf|
    && (match s.Pc(t).op
        case WriteOp(data) => WriteUnderWay(s0, s, data, s.Pc(t).at)
        case ReadOp(len) => ReadUnderWay(s0, s, len, s.Pc(t).at))
  }

  ghost predicate WriteUnderWay(s0: State, s: State, data: seq<Byte>, at: Phase) {
    var fits := s0.ring.len + |data| <= |s0.ring.buf|;
    && s.taken == s0.taken
    && match at
       case Start => s.written == s0.written && s.ring.len == s0.ring.len
       case Leave(ok) => ok == fits && s.written == s0.written + if ok then data else []
       case _ => fits && s.written == s0.written && s.ring.len == s0.ring.len
  }

  ghost predicate ReadUnderWay(s0: State, s: State, len: nat, at: Phase) {
    var fits := len <= s0.ring.len;
    && s.written == s0.written
    && match at
       case Start => s.taken == s0.taken && s.ring.len == s0.ring.len
       case Leave(ok) => ok == fits && |s.taken| == |s0.taken| + (if ok then len else 0)
       case _ => fits && s.taken == s0.taken && s.ring.len == s0.ring.len
  }

  /** Statements left before the lock is given back. */
  function Left(at: Phase): nat {
    match at
    case Start => 7
    case WFirst(_) | RFirst(_) => 6
    case WReset(_) | RReset(_, _) => 5
    case WSecond(_) | RSecond(_, _) | WPlain | RPlain => 4
    case WAdd(_) | RAdd(_, _) => 3
    case WLen | RLen(_) => 2
    case Leave(_) => 1
  }

  lemma WriteTurn(ring: Ring, data: seq<Byte>, at: Phase, written: seq<Byte>, taken: seq<Byte>)
    requires OpOk(ring, WriteOp(data), at, written, taken) && !at.Leave?
    ensures var (ring', next, bytes) := WriteStep(ring, data, at);
            && |ring'.buf| == |ring.buf| && Left(next) < Left(at) && next != Start
            && (if at == WLen then next == Leave(true) && bytes == data
                else bytes == [] && ring'.len == ring.len
                     && (next.Leave? <==> at == Start && ring.len + |data| > |ring.buf|)
                     && (next.Leave? ==> next == Leave(false)))
  {
    hide Rest;
  }

  lemma ReadTurn(ring: Ring, len: nat, at: Phase, written: seq<Byte>, taken: seq<Byte>)
    requires OpOk(ring, ReadOp(len), at, written, taken) && !at.Leave?
    ensures var (ring', next, bytes) := ReadStep(ring, len, at);
            && |ring'.buf| == |ring.buf| && Left(next) < Left(at) && next != Start
            && (if at.RLen? then next == Leave(true) && |bytes| == len
                else bytes == [] && ring'.len == ring.len
                     && (next.Leave? <==> at == Start && len > ring.len)
                     && (next.Leave? ==> next == Leave(false)))
  {
  }

  lemma OwnWriteTurn(s0: State, s: State, t: nat, op: Op, data: seq<Byte>, at: Phase)
    requires OpOk(s.ring, WriteOp(data), at, s.written, s.taken) && !at.Leave?
    requires s.Pc(t) == Inside(WriteOp(data), at) && UnderWay(s0, s, t)
    ensures UnderWay(s0, Step(s, t, op), t) && Left(Step(s, t, op).Pc(t).at) < Left(at)
  {
    WriteTurn(s.ring, data, at, s.written, s.taken);
    hide WriteStep, OpOk;
  }

  lemma OwnReadTurn(s0: State, s: State, t: nat, op: Op, len: nat, at: Phase)
    requires OpOk(s.ring, ReadOp(len), at, s.written, s.taken) && !at.Leave?
    requires s.Pc(t) == Inside(ReadOp(len), at) && UnderWay(s0, s, t)
    ensures UnderWay(s0, Step(s, t, op), t) && Left(Step(s, t, op).Pc(t).at) < Left(at)
  {
    ReadTurn(s.ring, len, at, s.written, s.taken);
    hide ReadStep, OpOk;
  }

  lemma OwnTurn(s0: State, s: State, t: nat, op: Op)
    requires Inv(s) && UnderWay(s0, s, t) && !s.Pc(t).at.Leave?
    ensures UnderWay(s0, Step(s, t, op), t) && Left(Step(s, t, op).Pc(t).at) < Left(s.Pc(t).at)
  {
    hide OpOk, Step, WriteUnderWay, ReadUnderWay;
    match s.Pc(t).op {
      case WriteOp(data) => OwnWriteTurn(s0, s, t, op, data, s.Pc(t).at);
      case ReadOp(len) => OwnReadTurn(s0, s, t, op, len, s.Pc(t).at);
    }
  }

  /** A thread inside is alone: the others reach neither the ring nor the logs. */
  lemma OthersKeepOut(s: State, t: nat, u: nat, op: Op)
    requires Inv(s) && s.Pc(t).Inside? && u != t
    ensures var s' := Step(s, u, op);
            s'.Pc(t) == s.Pc(t) && s'.ring == s.ring && s'.written == s.written && s'.taken == s.taken
  {
    hide OpOk, WriteStep, ReadStep;
  }

  /** The turns of one thread in a schedule. */
  function Turns(schedule: seq<Choice>, t: nat): nat
    decreases |schedule|
  {
    if schedule == [] then 0 else (if schedule[0].t == t then 1 else 0) + Turns(schedule[1..], t)
  }

  ghost predicate Answered(s0: State, s: State, t: nat) {
    Inv(s) && UnderWay(s0, s, t) && s.Pc(t).at.Leave?
  }

  ghost predicate AnsweredIn(s0: State, s: State, schedule: seq<Choice>, t: nat) {
    exists k: nat :: k <= |schedule| && Answered(s0, Run(s, schedule[..k]), t)
  }

  lemma AnsweredLater(s0: State, s: State, schedule: seq<Choice>, t: nat)
    requires schedule != [] && AnsweredIn(s0, Step(s, schedule[0].t, schedule[0].op), schedule[1..], t)
    ensures AnsweredIn(s0, s, schedule, t)
  {
    hide Step, Answered;
    var s' := Step(s, schedule[0].t, schedule[0].op);
    var k: nat :| k <= |schedule[1..]| && Answered(s0, Run(s', schedule[1..][..k]), t);
    assert schedule[..k + 1][0] == schedule[0] && schedule[..k + 1][1..] == schedule[1..][..k];
    assert Answered(s0, Run(s, schedule[..k + 1]), t);
  }

  lemma {:induction false} GoesOn(s0: State, s: State, schedule: seq<Choice>, t: nat)
    requires Inv(s) && UnderWay(s0, s, t) && Turns(schedule, t) + 1 >= Left(s.Pc(t).at)
    ensures AnsweredIn(s0, s, schedule, t)
    decreases |schedule|
  {
    hide Inv, Step, AnsweredIn, WriteUnderWay, ReadUnderWay;
    if s.Pc(t).at.Leave? {
      assert schedule[..0] == [];
      AnsweredAtOnce(s0, s, schedule, t);
    } else {
      var c := schedule[0];
      StepInv(s, c.t, c.op);
      if c.t == t {
        OwnTurn(s0, s, t, c.op);
      } else {
        OthersKeepOut(s, t, c.t, c.op);
        SameUnderWay(s0, s, Step(s, c.t, c.op), t);
      }
      GoesOn(s0, Step(s, c.t, c.op), schedule[1..], t);
      AnsweredLater(s0, s, schedule, t);
    }
  }

  lemma AnsweredAtOnce(s0: State, s: State, schedule: seq<Choice>, t: nat)
    requires Answered(s0, s, t)
    ensures AnsweredIn(s0, s, schedule, t)
  {
    assert schedule[..0] == [];
    assert Answered(s0, Run(s, schedule[..0]), t);
  }

  lemma SameUnderWay(s0: State, s: State, s': State, t: nat)
    requires UnderWay(s0, s, t)
    requires s'.Pc(t) == s.Pc(t) && s'.ring == s.ring && s'.written == s.written && s'.taken == s.taken
    ensures UnderWay(s0, s', t)
  {
  }

  /** A thread with the lock has its answer within six own turns, whatever the others do: it succeeds if and only
      if the operation fits the ring it found, and moves all of its bytes in order or none. */
  lemma OperationEnds(s0: State, schedule: seq<Choice>, t: nat)
    requires Inv(s0) && s0.Pc(t).Inside? && s0.Pc(t).at == Start && Turns(schedule, t) >= 6
    ensures exists k: nat :: k <= |schedule| && Done(s0, Run(s0, schedule[..k]), t)
  {
    FitsTheRing(s0, t);
    GoesOn(s0, s0, schedule, t);
    var k: nat :| k <= |schedule| && Answered(s0, Run(s0, schedule[..k]), t);
    AnsweredIsDone(s0, Run(s0, schedule[..k]), t);
  }

  lemma FitsTheRing(s: State, t: nat)
    requires Inv(s) && s.Pc(t).Inside? && s.Pc(t).at == Start
    ensures UnderWay(s, s, t) && Rest(s.ring, s.written, s.taken)
  {
  }

  /** The answer is ready: true with all bytes moved, or false with none. */
  ghost predicate Done(s0: State, s: State, t: nat)
    requires Inv(s0) && s0.Pc(t).Inside? && s0.Pc(t).at == Start
  {
    FitsTheRing(s0, t);
    var held := Contents(s0.ring.buf, s0.ring.r, s0.ring.len);
    match s0.Pc(t).op
    case WriteOp(data) =>
      var fits := |held| + |data| <= |s0.ring.buf|;
      && s.Pc(t) == Inside(s0.Pc(t).op, Leave(fits)) && s.taken == s0.taken
      && s.written == s0.written + if fits then data else []
    case ReadOp(len) =>
      var fits := len <= |held|;
      && s.Pc(t) == Inside(s0.Pc(t).op, Leave(fits)) && s.written == s0.written
      && s.taken == s0.taken + if fits then held[..len] else []
  }

  lemma AnsweredIsDone(s0: State, s: State, t: nat)
    requires Inv(s0) && s0.Pc(t).Inside? && s0.Pc(t).at == Start && Answered(s0, s, t)
    ensures Done(s0, s, t)
  {
    FitsTheRing(s0, t);
    LeaveRest(s.ring, s.Pc(t).op, s.Pc(t).at, s.written, s.taken);
    match s0.Pc(t).op {
      case WriteOp(data) =>
      case ReadOp(len) => TakenIs(s0, s, if s.Pc(t).at.ok then len else 0);
    }
  }

  lemma TakenIs(s0: State, s: State, n: nat)
    requires Rest(s0.ring, s0.written, s0.taken) && Rest(s.ring, s.written, s.taken) && s.written == s0.written
    requires n <= s0.ring.len && |s.taken| == |s0.taken| + n
    ensures s.taken == s0.taken + Contents(s0.ring.buf, s0.ring.r, s0.ring.len)[..n]
  {
    var c := Contents(s0.ring.buf, s0.ring.r, s0.ring.len);
    assert s.taken == s.written[..|s.taken|];
    assert s0.written[..|s0.taken| + n] == s0.taken + c[..n];
  }

  // ----- waiting for the lock -----

  /** A call goes on with its own operation until its answer is ready; the turn after that ends it. */
  lemma CallIsKept(s: State, t: nat, u: nat, op: Op)
    requires s.Pc(t) != Idle
    ensures var pc, pc' := s.Pc(t), Step(s, u, op).Pc(t);
            if u == t && pc.Inside? && pc.at.Leave? then pc' == Idle else pc' != Idle && pc'.op == pc.op
  {
    hide WriteStep, ReadStep;
  }

  /** The thread that gives its answer also gives the lock back, and the next to try it gets in. */
  lemma LockGoesRound(s: State, t: nat, u: nat, op: Op, op': Op, op'': Op)
    requires Inv(s) && s.Pc(t).Inside? && s.Pc(t).at.Leave? && s.Pc(u) == Trying(op)
    ensures var s' := Step(s, t, op'); s'.Pc(t) == Idle && s'.lock == 0 && s'.ring == s.ring
    ensures Step(Step(s, t, op'), u, op'').Pc(u) == Inside(op, Start)
  {
  }

  ghost predicate SomebodyInside(s: State) {
    exists t :: s.Pc(t).Inside?
  }

  ghost predicate TakenIn(s: State, schedule: seq<Choice>) {
    exists k: nat :: k <= |schedule| && SomebodyInside(Run(s, schedule[..k]))
  }

  /** A thread that waits for the lock, and no other, has to get turns for somebody to get the lock: two are enough. */
  lemma {:induction false} SomebodyGetsIn(s: State, schedule: seq<Choice>, u: nat)
    requires Inv(s) && (s.Pc(u).Trying? || s.Pc(u).Spinning?)
    requires Turns(schedule, u) >= if s.Pc(u).Trying? then 1 else 2
    ensures TakenIn(s, schedule)
    decreases |schedule|
  {
    hide OpOk, Step;
    if SomebodyInside(s) {
      TakenAtOnce(s, schedule);
    } else {
      var c := schedule[0];
      var s' := Step(s, c.t, c.op);
      StepInv(s, c.t, c.op);
      FreeTurn(s, u, c.t, c.op);
      if SomebodyInside(s') {
        TakenAtOnce(s', schedule[1..]);
      } else {
        SomebodyGetsIn(s', schedule[1..], u);
      }
      TakenLater(s, schedule);
    }
  }

  /** A turn while the lock is free. */
  lemma FreeTurn(s: State, u: nat, t: nat, op: Op)
    requires Inv(s) && !SomebodyInside(s) && (s.Pc(u).Trying? || s.Pc(u).Spinning?)
    ensures var s' := Step(s, t, op);
            || SomebodyInside(s')
            || (if t == u then s.Pc(u).Spinning? && s'.Pc(u).Trying? else s'.Pc(u) == s.Pc(u))
  {
    hide OpOk, WriteStep, ReadStep;
    assert s.lock == 0;
    assert !s.Pc(t).Inside?;
    if s.Pc(t).Trying? {
      assert Step(s, t, op).Pc(t).Inside?;
    }
  }

  lemma TakenAtOnce(s: State, schedule: seq<Choice>)
    requires SomebodyInside(s)
    ensures TakenIn(s, schedule)
  {
    assert schedule[..0] == [];
    assert SomebodyInside(Run(s, schedule[..0]));
  }

  lemma TakenLater(s: State, schedule: seq<Choice>)
    requires schedule != [] && TakenIn(Step(s, schedule[0].t, schedule[0].op), schedule[1..])
    ensures TakenIn(s, schedule)
  {
    hide Step;
    var s' := Step(s, schedule[0].t, schedule[0].op);
    var k: nat :| k <= |schedule[1..]| && SomebodyInside(Run(s', schedule[1..][..k]));
    assert schedule[..k + 1][0] == schedule[0] && schedule[..k + 1][1..] == schedule[1..][..k];
    assert SomebodyInside(Run(s, schedule[..k + 1]));
  }
}
