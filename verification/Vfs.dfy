/** The scatter/gather file calls of src/enclave_fs.c: the descriptor loops of a read and a write. */
module Vfs {
  import opened Bytes

  /** A buffer in physical memory. */
  datatype Desc = Desc(addr: nat, size: nat)

  // ----- the bytes of a descriptor list, in order -----

  function Start(ds: seq<Desc>, i: nat): nat
    requires i <= |ds|
  {
    if i == 0 then 0 else Start(ds, i - 1) + ds[i - 1].size
  }

  function Total(ds: seq<Desc>): nat {
    Start(ds, |ds|)
  }

  lemma {:induction false} StartGrows(ds: seq<Desc>, i: nat, j: nat)
    requires i <= j <= |ds|
    ensures Start(ds, i) <= Start(ds, j)
    decreases j
  {
    if i < j {
      StartGrows(ds, i, j - 1);
    }
  }

  /** The descriptor that holds byte p of the list. */
  function Holder(ds: seq<Desc>, i: nat, p: nat): (h: nat)
    requires i <= |ds| && p < Start(ds, i)
    ensures h < i && Start(ds, h) <= p < Start(ds, h) + ds[h].size
    decreases i
  {
    if p >= Start(ds, i - 1) then i - 1 else Holder(ds, i - 1, p)
  }

  function Addr(ds: seq<Desc>, p: nat): nat
    requires p < Total(ds)
  {
    var h := Holder(ds, |ds|, p);
    ds[h].addr + p - Start(ds, h)
  }

  lemma HolderIs(ds: seq<Desc>, i: nat, k: nat)
    requires i < |ds| && k < ds[i].size && Start(ds, i) + k < Total(ds)
    ensures Holder(ds, |ds|, Start(ds, i) + k) == i
  {
    var h := Holder(ds, |ds|, Start(ds, i) + k);
    hide Holder;
    if h < i {
      StartGrows(ds, h + 1, i);
    } else if i < h {
      StartGrows(ds, i + 1, h);
    }
  }

  lemma AddrIs(ds: seq<Desc>, i: nat, k: nat)
    requires i < |ds| && k < ds[i].size
    ensures Start(ds, i) + k < Total(ds) && Addr(ds, Start(ds, i) + k) == ds[i].addr + k
  {
    StartGrows(ds, i + 1, |ds|);
    HolderIs(ds, i, k);
    hide Holder;
  }

  /** The buffers lie in memory and do not overlap. */
  ghost predicate AreBuffers(ds: seq<Desc>, size: nat) {
    (forall i :: 0 <= i < |ds| ==> ds[i].addr + ds[i].size <= size) &&
    (forall i, j :: 0 <= i < j < |ds| ==> ds[i].addr + ds[i].size <= ds[j].addr || ds[j].addr + ds[j].size <= ds[i].addr)
  }

  lemma AddrInjective(ds: seq<Desc>, size: nat, p: nat, q: nat)
    requires AreBuffers(ds, size) && p < q < Total(ds)
    ensures Addr(ds, p) != Addr(ds, q) && Addr(ds, p) < size && Addr(ds, q) < size
  {
  }

  /** A choice of the list's bytes, in order. */
  ghost predicate Rising(ds: seq<Desc>, pos: seq<nat>) {
    (forall k :: 0 <= k < |pos| ==> pos[k] < Total(ds)) && forall j, k :: 0 <= j < k < |pos| ==> pos[j] < pos[k]
  }

  /** The first bytes of the list, none left out. */
  ghost predicate Consecutive(pos: seq<nat>) {
    forall k :: 0 <= k < |pos| ==> pos[k] == k
  }

  /** n bytes from `from` on. */
  function Range(from: nat, n: nat): (r: seq<nat>)
    ensures |r| == n && forall k :: 0 <= k < n ==> r[k] == from + k
  {
    seq(n, k requires 0 <= k => from + k)
  }

  /** The bytes at those places of the list. */
  ghost function Gather(m: seq<Byte>, ds: seq<Desc>, pos: seq<nat>): (b: seq<Byte>)
    requires AreBuffers(ds, |m|) && Rising(ds, pos)
    ensures |b| == |pos| && forall k :: 0 <= k < |b| ==> b[k] == m[Addr(ds, pos[k])]
  {
    seq(|pos|, k requires 0 <= k < |pos| => m[Addr(ds, pos[k])])
  }

  // ----- where a call stops -----

  /** The first descriptor that is not begun, or is empty. */
  function Stop(ds: seq<Desc>, length: nat, i: nat): (s: nat)
    requires i <= |ds|
    ensures i <= s <= |ds|
    decreases |ds| - i
  {
    if i == |ds| || Start(ds, i) >= length || ds[i].size == 0 then i else Stop(ds, length, i + 1)
  }

  lemma {:induction false} StopIs(ds: seq<Desc>, length: nat, i: nat)
    requires i <= |ds|
    ensures var s := Stop(ds, length, i);
            && (s < |ds| ==> Start(ds, s) >= length || ds[s].size == 0)
            && forall j :: i <= j < s ==> ds[j].size > 0 && Start(ds, j) < length
    decreases |ds| - i
  {
    if Stop(ds, length, i) != i {
      StopIs(ds, length, i + 1);
    }
  }

  /** What the descriptors and the length ask for. */
  function Wanted(ds: seq<Desc>, length: nat): nat {
    Start(ds, Stop(ds, length, 0))
  }

  lemma {:induction false} AllEmpty(ds: seq<Desc>, i: nat, j: nat)
    requires i <= j <= |ds| && Start(ds, j) == Start(ds, i)
    ensures forall k :: i <= k < j ==> ds[k].size == 0
    decreases j
  {
    if i < j {
      StartGrows(ds, i, j - 1);
      AllEmpty(ds, i, j - 1);
    }
  }

  lemma {:induction false} NoneAdded(ds: seq<Desc>, i: nat, j: nat)
    requires i <= j <= |ds| && forall k :: i <= k < j ==> ds[k].size == 0
    ensures Start(ds, j) == Start(ds, i)
    decreases j
  {
    if i < j {
      NoneAdded(ds, i, j - 1);
    }
  }

  ghost predicate EmptyOnesLast(ds: seq<Desc>) {
    forall i, j :: 0 <= i < j < |ds| && ds[i].size == 0 ==> ds[j].size == 0
  }

  /** A call for the whole list moves the whole list if and only if no empty descriptor stands before another. */
  lemma WholeListExactly(ds: seq<Desc>, length: nat)
    requires length >= Total(ds)
    ensures Wanted(ds, length) == Total(ds) <==> EmptyOnesLast(ds)
  {
    hide Start, Stop;
    var s := Stop(ds, length, 0);
    StopIs(ds, length, 0);
    StartGrows(ds, s, |ds|);
    TailIsEmpty(ds, s);
    assert Wanted(ds, length) == Start(ds, s);
    hide Wanted;
    if Start(ds, s) != Total(ds) {
      var k :| s <= k < |ds| && ds[k].size != 0;
      assert ds[s].size == 0;
    }
  }

  lemma TailIsEmpty(ds: seq<Desc>, s: nat)
    requires s <= |ds|
    ensures Start(ds, s) == Total(ds) <==> forall k :: s <= k < |ds| ==> ds[k].size == 0
  {
    if Start(ds, s) == Total(ds) {
      AllEmpty(ds, s, |ds|);
    }
    if forall k :: s <= k < |ds| ==> ds[k].size == 0 {
      NoneAdded(ds, s, |ds|);
    }
  }

  lemma EmptyOneEndsACall()
    ensures var ds := [Desc(0, 1), Desc(1, 0), Desc(1, 1)]; Wanted(ds, 2) == 1 && Total(ds) == 2
  {
    var ds := [Desc(0, 1), Desc(1, 0), Desc(1, 1)];
    assert Start(ds, 1) == 1 && Start(ds, 2) == 1 && Start(ds, 3) == 2;
    assert Stop(ds, 2, 1) == 1;
    assert Stop(ds, 2, 0) == 1;
  }

  // ----- the file calls below -----

  /** What is left of a file after its bytes from `offset` on were written; a gap reads as zeros. */
  function Overwrite(file: seq<Byte>, offset: nat, data: seq<Byte>): seq<Byte> {
    if data == [] then file
    else
      var padded := if offset <= |file| then file else file + Zeros(offset - |file|);
      padded[..offset] + data + if offset + |data| <= |padded| then padded[offset + |data|..] else []
  }

  lemma OverwriteIs(file: seq<Byte>, offset: nat, data: seq<Byte>)
    requires data != []
    ensures var f, e := Overwrite(file, offset, data), offset + |data|;
            |f| == (if e <= |file| then |file| else e) &&
            forall x :: 0 <= x < |f| ==>
                f[x] == if offset <= x < e then data[x - offset] else if x < |file| then file[x] else 0
  {
  }

  lemma OverwriteMore(file: seq<Byte>, offset: nat, a: seq<Byte>, b: seq<Byte>)
    ensures Overwrite(Overwrite(file, offset, a), offset + |a|, b) == Overwrite(file, offset, a + b)
  {
    if a == [] {
      assert a + b == b;
    } else if b == [] {
      assert a + b == a;
    } else {
      OverwriteIs(file, offset, a);
      OverwriteIs(Overwrite(file, offset, a), offset + |a|, b);
      OverwriteIs(file, offset, a + b);
      hide Overwrite;
      assert Overwrite(Overwrite(file, offset, a), offset + |a|, b) == Overwrite(file, offset, a + b);
    }
  }

  /** How many bytes a call moves: an error, or no more than was asked for and the file or buffer allows. */
  function Moved(answer: int, len: nat, limit: nat): int {
    if answer < 0 then answer
    else if answer <= len && answer <= limit then answer
    else if len <= limit then len else limit
  }

  function Rest(file: seq<Byte>, offset: nat): nat {
    if offset <= |file| then |file| - offset else 0
  }

  method FileRead(file: seq<Byte>, mem: array<Byte>, at: nat, len: nat, offset: nat, answer: int) returns (ret: int)
    requires at + len <= mem.Length
    modifies mem
    ensures ret == Moved(answer, len, Rest(file, offset))
    ensures forall x :: 0 <= x < mem.Length ==>
              mem[x] == if at <= x < at + ret then file[offset + x - at] else old(mem[x])
  {
    ret := Moved(answer, len, Rest(file, offset));
    if ret > 0 {
      forall k | 0 <= k < ret {
        mem[at + k] := file[offset + k];
      }
    }
  }

  // ----- reading -----

  /** What a read has done: the places `pos` of the list hold the next bytes of the file, and nothing else changed. */
  ghost predicate Filled(file: seq<Byte>, offset: nat, was: seq<Byte>, m: seq<Byte>, ds: seq<Desc>, pos: seq<nat>)
    requires AreBuffers(ds, |m|)
  {
    && |was| == |m| && Rising(ds, pos) && (pos != [] ==> offset + |pos| <= |file|)
    && (forall k :: 0 <= k < |pos| ==> m[Addr(ds, pos[k])] == file[offset + k])
    && (forall x: nat :: x < |m| && (forall k :: 0 <= k < |pos| ==> x != Addr(ds, pos[k])) ==> m[x] == was[x])
  }

  /** The bytes of the list before a run of descriptor i stand outside the run. */
  lemma OutsideRun(ds: seq<Desc>, size: nat, i: nat, done: nat, n: nat, p: nat)
    requires AreBuffers(ds, size) && i < |ds| && done + n <= ds[i].size && p < Start(ds, i) + done <= Total(ds)
    ensures var at := ds[i].addr + done; !(at <= Addr(ds, p) < at + n)
  {
    hide Start, Addr, Holder;
    var at := ds[i].addr + done;
    if at <= Addr(ds, p) < at + n {
      var k := Addr(ds, p) - at;
      AddrIs(ds, i, done + k);
      AddrInjective(ds, size, p, Start(ds, i) + done + k);
    }
  }

  lemma AddrInMemory(ds: seq<Desc>, size: nat, p: nat)
    requires AreBuffers(ds, size) && p < Total(ds)
    ensures Addr(ds, p) < size
  {
  }

  /** n more bytes in the buffer of descriptor i, at `at`. */
  ghost predicate RunCopied(file: seq<Byte>, from: nat, m: seq<Byte>, m': seq<Byte>, at: nat, n: nat) {
    |m'| == |m| && from + n <= |file| &&
    forall x: nat :: x < |m| ==> m'[x] == if at <= x < at + n then file[from + x - at] else m[x]
  }

  /** All places lie before the end of what descriptor i has taken. */
  ghost predicate Before(pos: seq<nat>, end: nat) {
    forall k :: 0 <= k < |pos| ==> pos[k] < end
  }

  lemma RisingMore(ds: seq<Desc>, i: nat, done: nat, n: nat, pos: seq<nat>)
    requires i < |ds| && done + n <= ds[i].size && Rising(ds, pos) && Before(pos, Start(ds, i) + done)
    ensures Rising(ds, pos + Range(Start(ds, i) + done, n)) &&
        Before(pos + Range(Start(ds, i) + done, n), Start(ds, i) + done + n)
  {
    StartBound(ds, i);
    hide Start;
  }

  lemma FilledMore(file: seq<Byte>, offset: nat, was: seq<Byte>, m: seq<Byte>, m': seq<Byte>, ds: seq<Desc>,
                   pos: seq<nat>, i: nat, done: nat, n: nat)
    requires AreBuffers(ds, |m|) && i < |ds| && done + n <= ds[i].size && n > 0
    requires Filled(file, offset, was, m, ds, pos) && Before(pos, Start(ds, i) + done)
    requires RunCopied(file, offset + |pos|, m, m', ds[i].addr + done, n)
    ensures Filled(file, offset, was, m', ds, pos + Range(Start(ds, i) + done, n))
  {
    hide Start, Addr;
    var pos' := pos + Range(Start(ds, i) + done, n);
    RisingMore(ds, i, done, n, pos);
    forall k | 0 <= k < |pos'| ensures Addr(ds, pos'[k]) < |m'| && m'[Addr(ds, pos'[k])] == file[offset + k] {
      AddrInMemory(ds, |m|, pos'[k]);
      if k < |pos| {
        assert pos'[k] == pos[k];
        StartBound(ds, i);
        OutsideRun(ds, |m|, i, done, n, pos[k]);
      } else {
        AddrIs(ds, i, done + k - |pos|);
      }
    }
    forall x: nat | x < |m| && (forall k :: 0 <= k < |pos'| ==> x != Addr(ds, pos'[k])) ensures m'[x] == was[x] {
      forall k | 0 <= k < |pos| ensures x != Addr(ds, pos[k]) {
        assert pos'[k] == pos[k];
      }
      if ds[i].addr + done <= x < ds[i].addr + done + n {
        var p := pos'[|pos| + (x - ds[i].addr - done)];
        AddrIs(ds, i, x - ds[i].addr);
        assert false;
      }
    }
  }

  lemma StartBound(ds: seq<Desc>, i: nat)
    requires i < |ds|
    ensures Start(ds, i) + ds[i].size <= Total(ds)
  {
    StartGrows(ds, i + 1, |ds|);
  }

  lemma MovedIs(answer: int, len: nat, limit: nat)
    requires len > 0
    ensures var r := Moved(answer, len, limit);
            r <= len && (r < 0 <==> answer < 0) && (r >= 0 ==> r <= limit) &&
                (r == 0 <==> answer == 0 || (answer > 0 && limit == 0))
  {
  }

  lemma StartNext(ds: seq<Desc>, i: nat)
    requires i < |ds|
    ensures Start(ds, i + 1) == Start(ds, i) + ds[i].size && Start(ds, 0) == 0 && Total(ds) == Start(ds, |ds|)
  {
  }

  /** Some call failed or said that the file ended. */
  ghost predicate Refused(answers: nat -> int, calls: nat) {
    exists c :: 0 <= c < calls && answers(c) <= 0
  }

  ghost predicate Erred(answers: nat -> int, calls: nat) {
    exists c :: 0 <= c < calls && answers(c) < 0
  }

  /** After an error some later call was ready to move bytes. */
  ghost predicate Skipped(answers: nat -> int, calls: nat) {
    exists c, d :: 0 <= c < d < calls && answers(c) < 0 < answers(d)
  }

  /** How the calls for one descriptor went: all but the last moved bytes, and the last one filled it or ended the
      loop. */
  ghost predicate DescDone(answers: nat -> int, before: nat, calls: nat, size: nat, moved: nat, ret: int, limit: nat) {
    && before <= calls && moved <= size && moved <= limit && (before == calls <==> size == 0)
    && (forall c :: before <= c < calls - 1 ==> answers(c) > 0)
    && (size == 0 ==> ret == 0)
    && (ret < 0 ==> size > 0 && answers(calls - 1) < 0 && moved < size)
    && (ret > 0 ==> size > 0 && answers(calls - 1) > 0 && moved == size)
    && (ret == 0 && size > 0 ==> answers(calls - 1) == 0 || (answers(calls - 1) > 0 && moved == limit))
    && (moved > 0 <==> size > 0 && answers(before) > 0 && limit > 0)
  }

  lemma SkipsOn(answers: nat -> int, before: nat, calls: nat, size: nat, moved: nat, ret: int, limit: nat)
    requires DescDone(answers, before, calls, size, moved, ret, limit)
    ensures Skipped(answers, before) || (Erred(answers, before) && moved > 0) ==> Skipped(answers, calls)
    ensures Skipped(answers, calls) ==>
              Skipped(answers, before) || (Erred(answers, before) && size > 0 && (moved > 0 || limit == 0))
  {
    if c, d :| 0 <= c < d < calls && answers(c) < 0 < answers(d) && d >= before {
      assert c < before;
      assert d > before ==> answers(before) > 0;
    }
    if Erred(answers, before) && moved > 0 {
      var c :| 0 <= c < before && answers(c) < 0;
      assert answers(c) < 0 < answers(before);
    }
  }

  lemma ErrsOn(answers: nat -> int, before: nat, calls: nat, size: nat, moved: nat, ret: int, limit: nat)
    requires DescDone(answers, before, calls, size, moved, ret, limit)
    ensures Erred(answers, calls) <==> Erred(answers, before) || ret < 0
    ensures Refused(answers, before) ==> Refused(answers, calls)
    ensures Refused(answers, calls) ==> Refused(answers, before) || ret <= 0
    ensures !Refused(answers, calls) && ret == 0 && size > 0 ==> moved == limit
  {
    if ret < 0 {
      assert answers(calls - 1) < 0;
    }
    if ret == 0 && size > 0 && answers(calls - 1) == 0 {
      assert answers(calls - 1) <= 0;
    }
  }

  /** No place is left out unless an error was followed by a call that moves; with `room` there is no other way to
      stop one. */
  ghost predicate Kept(answers: nat -> int, calls: nat, pos: seq<nat>, room: bool) {
    && (!Skipped(answers, calls) ==> Consecutive(pos))
    && (room && Skipped(answers, calls) ==> !Consecutive(pos))
  }

  /** Before descriptor i: an error has left a gap, or all that went before is filled. */
  ghost predicate Reached(ds: seq<Desc>, length: nat, i: nat, answers: nat -> int, calls: nat, pos: seq<nat>) {
    && i <= |ds| && Before(pos, Start(ds, i))
    && (if Erred(answers, calls) then |pos| < Start(ds, i)
        else !Refused(answers, calls) && |pos| == Start(ds, i) && Stop(ds, length, 0) == Stop(ds, length, i))
  }

  lemma StaysConsecutive(from: nat, moved: nat, pos: seq<nat>)
    requires |pos| <= from
    ensures Consecutive(pos + Range(from, moved)) <==> Consecutive(pos) && (moved == 0 || |pos| == from)
  {
    var pos' := pos + Range(from, moved);
    if Consecutive(pos') {
      assert forall k :: 0 <= k < |pos| ==> pos[k] == pos'[k];
      assert moved > 0 ==> pos'[|pos|] == from;
    }
  }

  lemma KeptOn(ds: seq<Desc>, length: nat, i: nat, answers: nat -> int, before: nat, calls: nat, pos: seq<nat>,
               moved: nat, ret: int, limit: nat, room: bool)
    requires i < |ds| && Reached(ds, length, i, answers, before, pos) && Kept(answers, before, pos, room)
    requires DescDone(answers, before, calls, ds[i].size, moved, ret, limit)
    requires room && ds[i].size > 0 ==> limit > 0
    ensures Kept(answers, calls, pos + Range(Start(ds, i), moved), room)
  {
    StaysConsecutive(Start(ds, i), moved, pos);
    SkipsOn(answers, before, calls, ds[i].size, moved, ret, limit);
    hide Start, Erred, Skipped, Refused, Consecutive;
  }

  lemma ReachedOn(ds: seq<Desc>, length: nat, i: nat, answers: nat -> int, before: nat, calls: nat, pos: seq<nat>,
                  moved: nat, ret: int, limit: nat)
    requires i < |ds| && Reached(ds, length, i, answers, before, pos) && |pos| < length && ret != 0
    requires DescDone(answers, before, calls, ds[i].size, moved, ret, limit)
    ensures Reached(ds, length, i + 1, answers, calls, pos + Range(Start(ds, i), moved))
  {
    StartNext(ds, i);
    ErrsOn(answers, before, calls, ds[i].size, moved, ret, limit);
    hide Start, Erred, Refused;
  }

  function Min(a: nat, b: nat): nat {
    if a <= b then a else b
  }

  /** How much was moved, when a call stops at descriptor i after `moved` bytes of it. */
  ghost predicate Counts(ds: seq<Desc>, length: nat, answers: nat -> int, calls: nat, status: nat, rest: nat) {
    && (!Erred(answers, calls) ==> status <= Min(Wanted(ds, length), rest))
    && (!Refused(answers, calls) ==> status == Min(Wanted(ds, length), rest))
  }

  lemma CountsAtEnd(ds: seq<Desc>, length: nat, i: nat, answers: nat -> int, calls: nat, pos: seq<nat>, rest: nat)
    requires Reached(ds, length, i, answers, calls, pos) && (i == |ds| || |pos| >= length) && |pos| <= rest
    ensures Counts(ds, length, answers, calls, |pos|, rest)
  {
    assert Erred(answers, calls) ==> Refused(answers, calls);
    hide Erred, Refused;
  }

  lemma CountsAtStop(ds: seq<Desc>, length: nat, i: nat, answers: nat -> int, before: nat, calls: nat, pos: seq<nat>,
                     moved: nat, rest: nat)
    requires i < |ds| && Reached(ds, length, i, answers, before, pos) && |pos| < length && |pos| + moved <= rest
    requires DescDone(answers, before, calls, ds[i].size, moved, 0, rest - |pos|)
    ensures Counts(ds, length, answers, calls, |pos| + moved, rest)
  {
    ErrsOn(answers, before, calls, ds[i].size, moved, 0, rest - |pos|);
    if ds[i].size > 0 {
      StartNext(ds, i);
      StartGrows(ds, i + 1, Stop(ds, length, i + 1));
    }
    hide Refused;
  }

  /** The inner loop of a read: one descriptor, after `before` calls and |pos| bytes. */
  method ReadDesc(file: seq<Byte>, mem: array<Byte>, ds: seq<Desc>, i: nat, offset0: nat, ghost pos: seq<nat>, total: nat,
                  answers: nat -> int, before: nat, ghost was: seq<Byte>)
    returns (ret: int, read: nat, calls: nat)
    requires AreBuffers(ds, mem.Length) && i < |ds| && total == |pos| && Before(pos, Start(ds, i))
    requires Filled(file, offset0, was, mem[..], ds, pos)
    modifies mem
    ensures DescDone(answers, before, calls, ds[i].size, read, ret, Rest(file, offset0 + total))
    ensures Filled(file, offset0, was, mem[..], ds, pos + Range(Start(ds, i), read))
  {
    hide Start, Addr, Moved, Filled;
    var left: nat := ds[i].size;
    read, calls, ret := 0, before, 0;
    assert pos + Range(Start(ds, i), 0) == pos;
    while left > 0
      invariant read + left == ds[i].size && calls >= before && (before == calls <==> read == 0)
      invariant if read == 0 then ret == 0 else ret > 0 && answers(before) > 0 && Rest(file, offset0 + total) >= read
      invariant forall c :: before <= c < calls ==> answers(c) > 0
      invariant Filled(file, offset0, was, mem[..], ds, pos + Range(Start(ds, i), read))
      decreases left
    {
      ghost var m := mem[..];
      ret := FileRead(file, mem, ds[i].addr + read, left, offset0 + total + read, answers(calls));
      MovedIs(answers(calls), left, Rest(file, offset0 + total + read));
      calls := calls + 1;
      if ret <= 0 {
        assert mem[..] == m;
        return;
      }
      ghost var pos' := pos + Range(Start(ds, i), read);
      BeforeMore(pos, Start(ds, i), read);
      FilledMore(file, offset0, was, m, mem[..], ds, pos', i, read, ret);
      assert pos' + Range(Start(ds, i) + read, ret) == pos + Range(Start(ds, i), read + ret);
      read := read + ret;
      left := left - ret;
    }
  }

  lemma BeforeMore(pos: seq<nat>, from: nat, n: nat)
    requires Before(pos, from)
    ensures Before(pos + Range(from, n), from + n)
  {
  }

  ghost predicate HasEmpty(ds: seq<Desc>) {
    exists i :: 0 <= i < |ds| && ds[i].size == 0
  }

  /** What is left of a file or buffer is enough for every descriptor still to come. */
  lemma RoomLeft(ds: seq<Desc>, i: nat, size: nat, offset: nat, done: nat)
    requires i < |ds| && offset + Total(ds) <= size && done <= Start(ds, i) && ds[i].size > 0
    ensures offset + done < size
  {
    StartBound(ds, i);
  }

  /** The loops of enclave_vfs_read_lcall on an open file; call c of file_read answers answers(c).
    * The places `pos` of the list, `status` of them, hold the bytes of the file from `offset` on; they are the first
    * ones, none left out, exactly when no call moves bytes after an error; and without a refusal they are as many as
    * asked for. */
  method VfsRead(file: seq<Byte>, mem: array<Byte>, ds: seq<Desc>, offset0: nat, length: nat, answers: nat -> int)
    returns (status: nat, calls: nat, ghost pos: seq<nat>)
    requires AreBuffers(ds, mem.Length)
    modifies mem
    ensures |pos| == status && Filled(file, offset0, old(mem[..]), mem[..], ds, pos)
    ensures Kept(answers, calls, pos, offset0 + Total(ds) <= |file|)
    ensures Counts(ds, length, answers, calls, status, Rest(file, offset0))
    ensures calls >= |ds| || HasEmpty(ds) || status >= length || offset0 + status >= |file|
            || (calls > 0 && answers(calls - 1) == 0)
  {
    hide Start, Addr, Moved, Filled, Reached, Kept, Counts, Total, Wanted, Erred, Refused;
    var i := 0;
    ghost var was := mem[..];
    ghost var room := offset0 + Total(ds) <= |file|;
    status, calls, pos := 0, 0, [];
    FilledNone(file, offset0, was, ds);
    NothingYet(ds, length, answers, room);
    while i < |ds|
      invariant i <= |ds| && |pos| == status <= Rest(file, offset0) && Filled(file, offset0, was, mem[..], ds, pos)
      invariant Reached(ds, length, i, answers, calls, pos) && Kept(answers, calls, pos, room)
      invariant calls >= i || HasEmpty(ds)
    {
      if status >= length {
        break;
      }
      ReachedIs(ds, length, i, answers, calls, pos);
      var ret, read, before := 0, 0, calls;
      ret, read, calls := ReadDesc(file, mem, ds, i, offset0, pos, status, answers, before, was);
      ghost var limit := Rest(file, offset0 + status);
      if room && ds[i].size > 0 {
        RoomLeft(ds, i, |file|, offset0, status);
      }
      KeptOn(ds, length, i, answers, before, calls, pos, read, ret, limit, room);
      if ret == 0 {
        CountsAtStop(ds, length, i, answers, before, calls, pos, read, Rest(file, offset0));
        pos := pos + Range(Start(ds, i), read);
        status := status + read;
        return;
      }
      ReachedOn(ds, length, i, answers, before, calls, pos, read, ret, limit);
      pos := pos + Range(Start(ds, i), read);
      status := status + read;
      i := i + 1;
    }
    CountsAtEnd(ds, length, i, answers, calls, pos, Rest(file, offset0));
  }

  lemma ReachedIs(ds: seq<Desc>, length: nat, i: nat, answers: nat -> int, calls: nat, pos: seq<nat>)
    requires Reached(ds, length, i, answers, calls, pos)
    ensures Before(pos, Start(ds, i)) && |pos| <= Start(ds, i)
  {
  }

  lemma NothingYet(ds: seq<Desc>, length: nat, answers: nat -> int, room: bool)
    ensures Reached(ds, length, 0, answers, 0, []) && Kept(answers, 0, [], room)
  {
  }

  lemma FilledNone(file: seq<Byte>, offset: nat, m: seq<Byte>, ds: seq<Desc>)
    requires AreBuffers(ds, |m|)
    ensures Filled(file, offset, m, m, ds, [])
  {
  }

  /** An error for the first of two descriptors: the first byte of the file lands in the second. */
  method ErrorSkipsADescriptor(file: seq<Byte>, mem: array<Byte>) returns (status: nat)
    requires |file| > 2 && mem.Length == 2
    modifies mem
    ensures status == 1 && mem[0] == old(mem[0]) && mem[1] == file[0]
  {
    hide Filled, Kept, Counts;
    var ds := [Desc(0, 1), Desc(1, 1)];
    assert Start(ds, 1) == 1 && Start(ds, 2) == 2;
    var answers: nat -> int := c => if c == 0 then -1 else 1;
    var calls;
    ghost var pos;
    status, calls, pos := VfsRead(file, mem, ds, 0, |file|, answers);
    OneIsLeftOut(file, old(mem[..]), mem[..], ds, pos, answers, calls);
  }

  lemma OneIsLeftOut(file: seq<Byte>, was: seq<Byte>, m: seq<Byte>, ds: seq<Desc>, pos: seq<nat>,
                     answers: nat -> int, calls: nat)
    requires ds == [Desc(0, 1), Desc(1, 1)] && |m| == 2 < |file| && AreBuffers(ds, 2) && Total(ds) == 2 &&
        Start(ds, 1) == 1
    requires answers(0) < 0 < answers(1) && (calls >= 2 || |pos| >= |file|)
    requires Filled(file, 0, was, m, ds, pos) && Kept(answers, calls, pos, true)
    ensures |pos| == 1 && m[0] == was[0] && m[1] == file[0]
  {
    TwoPlaces(ds, pos);
    assert Skipped(answers, calls);
    hide Start, Addr, Total;
    AddrIs(ds, 0, 0);
    AddrIs(ds, 1, 0);
    assert pos[0] == 1;
  }

  lemma {:induction false} RisingFrom(ds: seq<Desc>, pos: seq<nat>, k: nat)
    requires Rising(ds, pos) && k < |pos|
    ensures pos[k] >= k
    decreases k
  {
    if k > 0 {
      RisingFrom(ds, pos, k - 1);
    }
  }

  lemma TwoPlaces(ds: seq<Desc>, pos: seq<nat>)
    requires Rising(ds, pos) && Total(ds) == 2
    ensures pos in {[], [0], [1], [0, 1]}
  {
    if |pos| > 0 {
      RisingFrom(ds, pos, |pos| - 1);
    }
    if |pos| == 1 {
      assert pos == [pos[0]] && pos[0] < 2;
    } else if |pos| == 2 {
      assert pos == [pos[0], pos[1]] && pos[0] < pos[1] < 2;
    }
  }

  // ----- writing -----

  /** file_write: some of the bytes go into the file at the offset. */
  method FileWrite(file: seq<Byte>, data: seq<Byte>, offset: nat, answer: int) returns (ret: int, file': seq<Byte>)
    ensures ret == Moved(answer, |data|, |data|)
    ensures file' == if ret > 0 then Overwrite(file, offset, data[..ret]) else file
  {
    ret := Moved(answer, |data|, |data|);
    file' := if ret > 0 then Overwrite(file, offset, data[..ret]) else file;
  }

  /** The bytes at the places `pos` of the list are in the file. */
  ghost predicate Stored(was: seq<Byte>, offset: nat, m: seq<Byte>, ds: seq<Desc>, pos: seq<nat>, file: seq<Byte>)
    requires AreBuffers(ds, |m|)
  {
    Rising(ds, pos) && file == Overwrite(was, offset, Gather(m, ds, pos))
  }

  lemma GatherMoreAt(m: seq<Byte>, ds: seq<Desc>, i: nat, done: nat, n: nat, pos: seq<nat>, k: nat)
    requires AreBuffers(ds, |m|) && i < |ds| && done + n <= ds[i].size && k < |pos| + n
    requires Rising(ds, pos) && Rising(ds, pos + Range(Start(ds, i) + done, n))
    ensures Gather(m, ds, pos + Range(Start(ds, i) + done, n))[k] ==
            if k < |pos| then Gather(m, ds, pos)[k] else m[ds[i].addr + done + k - |pos|]
  {
    var pos' := pos + Range(Start(ds, i) + done, n);
    assert pos'[k] == if k < |pos| then pos[k] else Start(ds, i) + done + k - |pos|;
    hide Start, Addr;
    if k >= |pos| {
      AddrIs(ds, i, done + k - |pos|);
    }
  }

  /** A run of descriptor i is the next piece. */
  lemma GatherMore(m: seq<Byte>, ds: seq<Desc>, i: nat, done: nat, n: nat, pos: seq<nat>)
    requires AreBuffers(ds, |m|) && i < |ds| && done + n <= ds[i].size
    requires Rising(ds, pos) && Before(pos, Start(ds, i) + done)
    ensures Rising(ds, pos + Range(Start(ds, i) + done, n))
    ensures Gather(m, ds, pos) + m[ds[i].addr + done..ds[i].addr + done + n] ==
            Gather(m, ds, pos + Range(Start(ds, i) + done, n))
  {
    RisingMore(ds, i, done, n, pos);
    hide Start, Addr, Gather, Before;
    var x := Gather(m, ds, pos) + m[ds[i].addr + done..ds[i].addr + done + n];
    var y := Gather(m, ds, pos + Range(Start(ds, i) + done, n));
    hide Rising;
    assert |x| == |y|;
    forall k: nat | k < |x| ensures x[k] == y[k] {
      GatherMoreAt(m, ds, i, done, n, pos, k);
    }
  }

  lemma StoredMore(was: seq<Byte>, offset: nat, m: seq<Byte>, ds: seq<Desc>, i: nat, done: nat, n: nat, pos: seq<nat>,
                   file: seq<Byte>, len: nat)
    requires AreBuffers(ds, |m|) && i < |ds| && n <= len && done + len <= ds[i].size
    requires Stored(was, offset, m, ds, pos, file) && Before(pos, Start(ds, i) + done)
    ensures Stored(was, offset, m, ds, pos + Range(Start(ds, i) + done, n),
                   Overwrite(file, offset + |pos|, m[ds[i].addr + done..ds[i].addr + done + len][..n]))
  {
    hide Start, Addr, Overwrite, Gather;
    GatherMore(m, ds, i, done, n, pos);
    hide Rising;
    var at := ds[i].addr + done;
    assert m[at..at + len][..n] == m[at..at + n];
    OverwriteMore(was, offset, Gather(m, ds, pos), m[at..at + n]);
  }

  /** The inner loop of a write: one descriptor; `limit` is no less than its size. */
  method WriteDesc(file0: seq<Byte>, mem: array<Byte>, ds: seq<Desc>, i: nat, offset0: nat, ghost pos: seq<nat>,
                   total: nat, answers: nat -> int, before: nat, ghost was: seq<Byte>, ghost limit: nat)
    returns (ret: int, written: nat, calls: nat, file: seq<Byte>)
    requires AreBuffers(ds, mem.Length) && i < |ds| && total == |pos| && Before(pos, Start(ds, i)) && limit >= ds[i].size
    requires Stored(was, offset0, mem[..], ds, pos, file0)
    ensures DescDone(answers, before, calls, ds[i].size, written, ret, limit)
    ensures ret == 0 && ds[i].size > 0 ==> answers(calls - 1) == 0
    ensures Stored(was, offset0, mem[..], ds, pos + Range(Start(ds, i), written), file)
  {
    hide Start, Addr, Moved, Stored, Overwrite;
    var left: nat := ds[i].size;
    written, calls, ret, file := 0, before, 0, file0;
    assert pos + Range(Start(ds, i), 0) == pos;
    while left > 0
      invariant written + left == ds[i].size && calls >= before && (before == calls <==> written == 0)
      invariant if written == 0 then ret == 0 else ret > 0 && answers(before) > 0
      invariant forall c :: before <= c < calls ==> answers(c) > 0
      invariant Stored(was, offset0, mem[..], ds, pos + Range(Start(ds, i), written), file)
      decreases left
    {
      var at := ds[i].addr + written;
      ghost var prior := file;
      MovedIs(answers(calls), left, left);
      ret, file := FileWrite(file, mem[at..at + left], offset0 + total + written, answers(calls));
      calls := calls + 1;
      if ret <= 0 {
        return;
      }
      ghost var pos' := pos + Range(Start(ds, i), written);
      BeforeMore(pos, Start(ds, i), written);
      StoredMore(was, offset0, mem[..], ds, i, written, ret, pos', prior, left);
      assert mem[..][at..at + left] == mem[at..at + left];
      assert pos' + Range(Start(ds, i) + written, ret) == pos + Range(Start(ds, i), written + ret);
      written := written + ret;
      left := left - ret;
    }
  }

  /** The loops of enclave_vfs_write_lcall on an open file: the bytes at the places `pos` of the list, `status` of them,
    * overwrite the file from `offset`; again the first ones exactly when no call moves bytes after an error. */
  method VfsWrite(file0: seq<Byte>, mem: array<Byte>, ds: seq<Desc>, offset0: nat, length: nat, answers: nat -> int)
    returns (status: nat, calls: nat, file: seq<Byte>, ghost pos: seq<nat>)
    requires AreBuffers(ds, mem.Length)
    ensures |pos| == status && Stored(file0, offset0, mem[..], ds, pos, file)
    ensures Kept(answers, calls, pos, true)
    ensures Counts(ds, length, answers, calls, status, Total(ds))
    ensures calls >= |ds| || HasEmpty(ds) || status >= length || (calls > 0 && answers(calls - 1) == 0)
  {
    hide Start, Addr, Moved, Stored, Reached, Kept, Counts, Total, Wanted, Erred, Refused;
    var i := 0;
    status, calls, file, pos := 0, 0, file0, [];
    StoredNone(file, offset0, mem[..], ds);
    NothingYet(ds, length, answers, true);
    while i < |ds|
      invariant i <= |ds| && |pos| == status <= Total(ds) && Stored(file0, offset0, mem[..], ds, pos, file)
      invariant Reached(ds, length, i, answers, calls, pos) && Kept(answers, calls, pos, true)
      invariant calls >= i || HasEmpty(ds)
    {
      if status >= length {
        break;
      }
      ReachedIs(ds, length, i, answers, calls, pos);
      StartBound(ds, i);
      var ret, written, before := 0, 0, calls;
      ret, written, calls, file :=
        WriteDesc(file, mem, ds, i, offset0, pos, status, answers, before, file0, Total(ds) - status);
      KeptOn(ds, length, i, answers, before, calls, pos, written, ret, Total(ds) - status, true);
      if ret == 0 {
        CountsAtStop(ds, length, i, answers, before, calls, pos, written, Total(ds));
        pos := pos + Range(Start(ds, i), written);
        status := status + written;
        return;
      }
      ReachedOn(ds, length, i, answers, before, calls, pos, written, ret, Total(ds) - status);
      pos := pos + Range(Start(ds, i), written);
      status := status + written;
      i := i + 1;
    }
    CountsAtEnd(ds, length, i, answers, calls, pos, Total(ds));
  }

  lemma StoredNone(file: seq<Byte>, offset: nat, m: seq<Byte>, ds: seq<Desc>)
    requires AreBuffers(ds, |m|)
    ensures Stored(file, offset, m, ds, [], file)
  {
  }

  // ----- a write and a read of the same range -----

  /** The bytes of one list, written and read back into another of the same total size, are the same bytes. */
  lemma ReadBack(was: seq<Byte>, file: seq<Byte>, offset: nat, m: seq<Byte>, ds: seq<Desc>, pos: seq<nat>,
                 before: seq<Byte>, after: seq<Byte>, ds': seq<Desc>, pos': seq<nat>)
    requires AreBuffers(ds, |m|) && AreBuffers(ds', |after|) && Total(ds) == Total(ds')
    requires Stored(was, offset, m, ds, pos, file) && Consecutive(pos) && |pos| == Total(ds)
    requires Filled(file, offset, before, after, ds', pos') && Consecutive(pos') && |pos'| == Total(ds')
    ensures forall p :: 0 <= p < Total(ds) ==> after[Addr(ds', p)] == m[Addr(ds, p)]
  {
    forall p | 0 <= p < Total(ds) ensures after[Addr(ds', p)] == m[Addr(ds, p)] {
      assert pos[p] == p == pos'[p];
      assert Gather(m, ds, pos)[p] == m[Addr(ds, p)];
    }
  }
}
