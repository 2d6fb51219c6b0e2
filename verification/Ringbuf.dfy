/** The early ring buffer of src/pisces_ringbuf.c, as one thread that holds the lock sees it. */
module Ringbuf {
  import opened Bytes

  const EARLY_RINGBUF_SIZE := 1024 * 8

  // ----- what the buffer holds -----

  /** Where byte k after position r stands; r may rest at size. */
  function Slot(size: nat, r: nat, k: nat): nat {
    if r + k < size then r + k else if r + k < 2 * size then r + k - size else 0
  }

  ghost function Contents(buf: seq<Byte>, r: nat, len: nat): (c: seq<Byte>)
    requires r <= |buf| && len <= |buf|
    ensures |c| == len && forall k :: 0 <= k < len ==> c[k] == buf[Slot(|buf|, r, k)]
  {
    seq(len, k requires 0 <= k < len => buf[Slot(|buf|, r, k)])
  }

  /** Both indices may rest at size, and equal indices are told apart by the length only. */
  predicate Aligned(size: nat, r: nat, w: nat, len: nat) {
    r <= size && w <= size && len <= size && (r + len == w || r + len == w + size || r + len == w + 2 * size)
  }

  /** A write of data at w, wrapped or not. */
  ghost predicate Written(buf: seq<Byte>, buf': seq<Byte>, w: nat, data: seq<Byte>) {
    |buf'| == |buf| && w <= |buf| && |data| <= |buf| &&
    (forall k :: 0 <= k < |data| ==> buf'[Slot(|buf|, w, k)] == data[k]) &&
    (forall i :: 0 <= i < |buf| && (forall k :: 0 <= k < |data| ==> i != Slot(|buf|, w, k)) ==> buf'[i] == buf[i])
  }

  /** A write into free space appends. */
  lemma WrittenAppends(buf: seq<Byte>, buf': seq<Byte>, r: nat, w: nat, len: nat, data: seq<Byte>)
    requires Aligned(|buf|, r, w, len) && |data| <= |buf| - len && Written(buf, buf', w, data)
    ensures Contents(buf', r, len + |data|) == Contents(buf, r, len) + data
  {
  }

  /** The bytes a read copies out, wrapped or not. */
  lemma ReadIs(buf: seq<Byte>, r: nat, len: nat, n: nat)
    requires r <= |buf| && len <= |buf| && n <= len
    ensures Contents(buf, r, len)[..n] ==
              if r + n <= |buf| then buf[r..r + n] else buf[r..] + buf[..n - (|buf| - r)]
  {
  }

  /** A read takes from the front. */
  lemma ReadTakes(buf: seq<Byte>, r: nat, len: nat, n: nat, r': nat)
    requires r <= |buf| && len <= |buf| && n <= len && r' <= |buf| && (r' == r + n || r' + |buf| == r + n)
    ensures Contents(buf, r', len - n) == Contents(buf, r, len)[n..]
  {
  }

  function Copied(buf: seq<Byte>, at: nat, data: seq<Byte>): (r: seq<Byte>)
    requires at + |data| <= |buf|
    ensures |r| == |buf|
    ensures forall i :: 0 <= i < |buf| ==> r[i] == if at <= i < at + |data| then data[i - at] else buf[i]
  {
    buf[..at] + data + buf[at + |data|..]
  }

  lemma PlainCopy(buf: seq<Byte>, w: nat, data: seq<Byte>)
    requires w + |data| <= |buf|
    ensures Written(buf, Copied(buf, w, data), w, data)
  {
  }

  lemma WrappedCopy(buf: seq<Byte>, w: nat, data: seq<Byte>)
    requires w <= |buf| && |buf| - w < |data| <= |buf|
    ensures var n := |buf| - w;
            Written(buf, Copied(Copied(buf, w, data[..n]), 0, data[n..]), w, data)
  {
  }

  // ----- the code -----

  class EarlyRingbuf {
    var readIdx: nat
    var writeIdx: nat
    var curLen: nat
    const buf: array<Byte>

    ghost predicate Valid()
      reads this
    {
      buf.Length == EARLY_RINGBUF_SIZE && Aligned(EARLY_RINGBUF_SIZE, readIdx, writeIdx, curLen)
    }

    ghost function Held(): seq<Byte>
      requires Valid()
      reads this, buf
    {
      Contents(buf[..], readIdx, curLen)
    }

    /** pisces_early_ringbuf_init */
    constructor ()
      ensures Valid() && Held() == [] && buf.Length == 8192 && fresh(buf)
    {
      buf := new Byte[EARLY_RINGBUF_SIZE](_ => 0);
      readIdx, writeIdx, curLen := 0, 0, 0;
    }

    predicate IsReadLoop(len: nat)
      reads this
    {
      readIdx >= writeIdx && curLen > 0 && EARLY_RINGBUF_SIZE - readIdx < len
    }

    predicate IsWriteLoop(len: nat)
      reads this
    {
      writeIdx >= readIdx && curLen < EARLY_RINGBUF_SIZE && EARLY_RINGBUF_SIZE - writeIdx < len
    }

    method CopyIn(at: nat, data: seq<Byte>)
      requires at + |data| <= buf.Length
      modifies buf
      ensures buf[..] == Copied(old(buf[..]), at, data)
    {
      forall k | 0 <= k < |data| {
        buf[at + k] := data[k];
      }
    }

    /** pisces_early_ringbuf_write, between taking and releasing the lock: all of the data or, if it does not fit,
      * none of it. */
    method Write(data: seq<Byte>) returns (ret: int)
      requires Valid()
      modifies this`writeIdx, this`curLen, buf
      ensures Valid()
      ensures ret == if |data| <= EARLY_RINGBUF_SIZE - old(curLen) then 0 else -1
      ensures Held() == if ret == 0 then old(Held()) + data else old(Held())
    {
      hide Written, Copied, Slot;
      if |data| > EARLY_RINGBUF_SIZE - curLen {
        return -1;
      }
      ghost var was, w, len := buf[..], writeIdx, curLen;
      if IsWriteLoop(|data|) {
        var sectionLen := EARLY_RINGBUF_SIZE - writeIdx;
        CopyIn(writeIdx, data[..sectionLen]);
        writeIdx := 0;
        CopyIn(writeIdx, data[sectionLen..]);
        writeIdx := writeIdx + (|data| - sectionLen);
        WrappedCopy(was, w, data);
      } else {
        PlainCopy(was, w, data);
        CopyIn(writeIdx, data);
        writeIdx := writeIdx + |data|;
      }
      curLen := curLen + |data|;
      WrittenAppends(was, buf[..], readIdx, w, len, data);
      ret := 0;
    }

    /** The copies of a read. */
    method TakeOut(len: nat) returns (data: seq<Byte>)
      requires Valid() && len <= curLen
      modifies this`readIdx
      ensures var r := old(readIdx);
              data == if r + len <= EARLY_RINGBUF_SIZE then buf[r..r + len]
                  else buf[r..] + buf[..len - (EARLY_RINGBUF_SIZE - r)]
      ensures readIdx == old(readIdx) + len - if old(readIdx) + len <= EARLY_RINGBUF_SIZE then 0 else EARLY_RINGBUF_SIZE
    {
      if IsReadLoop(len) {
        var sectionLen := EARLY_RINGBUF_SIZE - readIdx;
        data := buf[readIdx..readIdx + sectionLen];
        readIdx := 0;
        data := data + buf[readIdx..readIdx + (len - sectionLen)];
        readIdx := readIdx + (len - sectionLen);
      } else {
        data := buf[readIdx..readIdx + len];
        readIdx := readIdx + len;
      }
    }

    /** pisces_early_ringbuf_read, between taking and releasing the lock: exactly `len` bytes from the front, or none. */
    method Read(len: nat) returns (ret: int, data: seq<Byte>)
      requires Valid()
      modifies this`readIdx, this`curLen
      ensures Valid()
      ensures ret == if len <= old(curLen) then 0 else -1
      ensures if ret == 0 then data == old(Held())[..len] && Held() == old(Held())[len..]
              else data == [] && Held() == old(Held())
    {
      hide Slot, Contents;
      if len > curLen {
        return -1, [];
      }
      ghost var r := readIdx;
      data := TakeOut(len);
      ReadIs(buf[..], r, curLen, len);
      ReadTakes(buf[..], r, curLen, len, readIdx);
      curLen := curLen - len;
      ret := 0;
    }
  }
}
