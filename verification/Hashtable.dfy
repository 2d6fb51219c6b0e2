/** The chained hash table with prime growth of src/util-hashtable.c. */
module Hashtable {
  type Word = w: nat | w < 0x1_0000_0000_0000_0000
  type Hash = h: nat | h < 0x1_0000_0000

  datatype Entry = Entry(key: Word, value: Word, hash: Hash)

  const PRIMES: seq<nat> := [
    53, 97, 193, 389, 769, 1543, 3079, 6151, 12289, 24593, 49157, 98317, 196613, 393241, 786433, 1572869, 3145739,
    6291469, 12582917, 25165843, 50331653, 100663319, 201326611, 402653189, 805306457, 1610612741]

  const LOAD_FACTORS: seq<nat> := [
    35, 64, 126, 253, 500, 1003, 2002, 3999, 7988, 15986, 31953, 63907, 127799, 255607, 511182, 1022365, 2044731,
    4089455, 8178897, 16357798, 32715575, 65431158, 130862298, 261724573, 523449198, 1046898282]

  const LAST := 25

  function Prime(i: nat): nat
    requires i <= LAST
  {
    PRIMES[i]
  }

  function LoadFactor(i: nat): nat
    requires i <= LAST
  {
    LOAD_FACTORS[i]
  }

  /** The load limit is 65 percent of the size, rounded up, and each size is about twice the one before. */
  lemma TablesAre(i: nat)
    requires i <= LAST
    ensures 0 < Prime(i) < 0x1_0000_0000 && LoadFactor(i) < Prime(i)
    ensures LoadFactor(i) == (65 * Prime(i) + 99) / 100
    ensures i < LAST ==> LoadFactor(i) < LoadFactor(i + 1) && 9 * Prime(i) <= 5 * Prime(i + 1) <= 11 * Prime(i)
  {
  }

  /** The scrambling that do_hash adds to the hash function of the user. */
  function Scramble(h: bv32): bv32 {
    var a := h + !(h << 9);
    var b := a ^ ((a >> 14) | (a << 18));
    var c := b + (b << 4);
    c ^ ((c >> 10) | (c << 22))
  }

  lemma SomeScrambled()
    ensures Scramble(0) == 0 && Scramble(1) == 0xfc5d_cee7 && Scramble(0x1234_5678) == 0xf778_ba7b
    ensures Scramble(0xffff_ffff) == 0xf0d9_ffd6
  {
  }

  // ----- the entries of all chains -----

  ghost function Entries(chains: seq<seq<Entry>>): multiset<Entry> {
    if chains == [] then multiset{} else multiset(chains[0]) + Entries(chains[1..])
  }

  lemma AddBoth(m: multiset<Entry>, a: multiset<Entry>, a': multiset<Entry>, b: multiset<Entry>, b': multiset<Entry>)
    requires a + a' == b + b'
    ensures m + a + a' == m + b + b'
  {
    assert m + a + a' == m + (a + a');
    assert m + b + b' == m + (b + b');
  }

  lemma {:induction false} EntriesUpdate(chains: seq<seq<Entry>>, b: nat, c: seq<Entry>)
    requires b < |chains|
    ensures Entries(chains[b := c]) + multiset(chains[b]) == Entries(chains) + multiset(c)
  {
    if b == 0 {
      assert chains[0 := c][1..] == chains[1..];
    } else {
      var rest := chains[1..];
      assert chains[b := c][1..] == rest[b - 1 := c] && chains[b := c][0] == chains[0] && rest[b - 1] == chains[b];
      EntriesUpdate(rest, b - 1, c);
      AddBoth(multiset(chains[0]), Entries(rest[b - 1 := c]), multiset(chains[b]), Entries(rest), multiset(c));
    }
  }

  lemma {:induction false} ChainIsPart(chains: seq<seq<Entry>>, b: nat)
    requires b < |chains|
    ensures multiset(chains[b]) <= Entries(chains)
  {
    if b > 0 {
      ChainIsPart(chains[1..], b - 1);
    }
  }

  lemma {:induction false} NoEntries(chains: seq<seq<Entry>>)
    requires forall b :: 0 <= b < |chains| ==> chains[b] == []
    ensures Entries(chains) == multiset{}
  {
    if chains != [] {
      NoEntries(chains[1..]);
    }
  }

  lemma {:induction false} EntryHasChain(chains: seq<seq<Entry>>, e: Entry) returns (b: nat)
    requires e in Entries(chains)
    ensures b < |chains| && e in chains[b]
  {
    if e in chains[0] {
      b := 0;
    } else {
      b := EntryHasChain(chains[1..], e);
      b := b + 1;
    }
  }

  // ----- one chain -----

  /** The place of the first entry with the key, or the length. */
  function Find(chain: seq<Entry>, hash: Hash, key: Word): (i: nat)
    ensures i <= |chain|
    ensures i < |chain| ==> chain[i].hash == hash && chain[i].key == key
    ensures forall j :: 0 <= j < i ==> !(chain[j].hash == hash && chain[j].key == key)
  {
    if chain == [] || (chain[0].hash == hash && chain[0].key == key) then 0 else 1 + Find(chain[1..], hash, key)
  }

  lemma RemoveOne(chain: seq<Entry>, i: nat)
    requires i < |chain|
    ensures multiset(chain[..i] + chain[i + 1..]) + multiset{chain[i]} == multiset(chain)
  {
    assert chain == chain[..i] + [chain[i]] + chain[i + 1..];
  }

  lemma ReplaceOne(chain: seq<Entry>, i: nat, e: Entry)
    requires i < |chain|
    ensures multiset(chain[i := e]) + multiset{chain[i]} == multiset(chain) + multiset{e}
  {
  }

  lemma PushOne(chain: seq<Entry>, e: Entry)
    ensures multiset([e] + chain) == multiset(chain) + multiset{e}
  {
  }

  // ----- the table -----

  class Table {
    var table: array<seq<Entry>>
    var entryCount: nat
    var loadLimit: nat
    var primeIndex: nat
    const hashFn: Word -> bv32

    /** What the table stands for. */
    ghost var dict: map<Word, Word>

    function DoHash(key: Word): Hash {
      Scramble(hashFn(key)) as Hash
    }

    ghost predicate IsItem(d: map<Word, Word>, e: Entry) {
      e.key in d && d[e.key] == e.value && e.hash == DoHash(e.key)
    }

    /** Every entry stands in the bucket that its hash says. */
    ghost predicate InBuckets(chains: seq<seq<Entry>>) {
      chains != [] && forall b, e :: 0 <= b < |chains| && e in chains[b] ==> e.hash % |chains| == b
    }

    /** The chains hold each item of the dictionary once and nothing else. */
    ghost predicate Holds(all: multiset<Entry>, d: map<Word, Word>) {
      forall e :: all[e] == if IsItem(d, e) then 1 else 0
    }

    /** Everything but the count, which an insertion raises before the entry is there. */
    ghost predicate Shape()
      reads this`table, this`primeIndex, this`loadLimit, table
    {
      primeIndex <= LAST && table.Length == Prime(primeIndex) && loadLimit == LoadFactor(primeIndex) &&
      InBuckets(table[..])
    }

    /** Whatever the keys. */
    ghost predicate Sound()
      reads this`table, this`primeIndex, this`loadLimit, this`entryCount, table
    {
      Shape() && entryCount == |Entries(table[..])| % 0x1_0000_0000
    }

    /** With no key twice, the table is the dictionary. */
    ghost predicate Valid()
      reads this, table
    {
      Sound() && Holds(Entries(table[..]), dict)
    }

    /** The part of create_htable that fills the table in: the first prime above min_size fits. */
    constructor (minSize: nat, hashFn: Word -> bv32)
      requires minSize <= 0x4000_0000
      ensures Valid() && fresh(table) && this.hashFn == hashFn && dict == map[] && entryCount == 0
      ensures table.Length > minSize && (primeIndex > 0 ==> Prime(primeIndex - 1) <= minSize)
    {
      var i := 0;
      while Prime(i) <= minSize
        invariant i <= LAST && (i > 0 ==> Prime(i - 1) <= minSize)
        decreases LAST - i
      {
        i := i + 1;
      }
      TablesAre(i);
      this.hashFn := hashFn;
      table := new seq<Entry>[Prime(i)](_ => []);
      entryCount, loadLimit, primeIndex := 0, LoadFactor(i), i;
      dict := map[];
      new;
      NoEntries(table[..]);
    }

    /** create_htable as a whole: null for a table that is too large or when memory is short. */
    static method Create(minSize: nat, hashFn: Word -> bv32, alloc: bool) returns (t: Table?)
      ensures t == null <==> minSize > 0x4000_0000 || !alloc
      ensures t != null ==> t.Valid() && fresh(t) && fresh(t.table) && t.hashFn == hashFn && t.dict == map[]
    {
      if minSize > 0x4000_0000 || !alloc {
        return null;
      }
      t := new Table(minSize, hashFn);
    }

    /** An entry of the dictionary is found in its own bucket, and only there. */
    lemma FoundInBucket(key: Word, b: nat, i: nat)
      requires Valid() && b == DoHash(key) % table.Length && i == Find(table[b], DoHash(key), key)
      ensures i < |table[b]| <==> key in dict
      ensures i < |table[b]| ==> IsItem(dict, table[b][i])
    {
      hide DoHash, Find, Entries;
      var chains := table[..];
      assert chains[b] == table[b];
      if i < |table[b]| {
        ChainIsPart(chains, b);
        assert table[b][i] in multiset(chains[b]);
      } else if key in dict {
        var e := Entry(key, dict[key], DoHash(key));
        assert IsItem(dict, e) && Entries(chains)[e] == 1;
        var b' := EntryHasChain(chains, e);
        assert b' == b;
      }
    }

    /** htable_search: the value of the key, or 0. */
    method Search(key: Word) returns (value: Word)
      requires Valid()
      ensures value == if key in dict then dict[key] else 0
    {
      hide DoHash, Entries, InBuckets, Holds, Prime, LoadFactor;
      TablesAre(primeIndex);
      var hash := DoHash(key);
      var index := hash % table.Length;
      var cursor := table[index];
      FoundInBucket(key, index, Find(cursor, hash, key));
      ghost var i := 0;
      while cursor != []
        invariant i <= |table[index]| && cursor == table[index][i..]
        invariant Find(table[index], hash, key) == i + Find(cursor, hash, key)
        decreases |cursor|
      {
        if hash == cursor[0].hash && key == cursor[0].key {
          return cursor[0].value;
        }
        cursor := cursor[1..];
        i := i + 1;
      }
      return 0;
    }

    /** The dictionary follows when one item is put in. */
    lemma HoldsMore(all: multiset<Entry>, d: map<Word, Word>, x: Entry)
      requires Holds(all, d) && x.key !in d && x.hash == DoHash(x.key)
      ensures Holds(all + multiset{x}, d[x.key := x.value])
    {
    }

    /** The dictionary follows when an item is taken out. */
    lemma HoldsLess(all: multiset<Entry>, d: map<Word, Word>, rest: multiset<Entry>, x: Entry)
      requires Holds(all, d) && x in all && rest + multiset{x} == all
      ensures Holds(rest, d - {x.key}) && IsItem(d, x)
    {
      hide DoHash;
      forall e ensures rest[e] == if IsItem(d - {x.key}, e) then 1 else 0 {
        assert all[e] == rest[e] + multiset{x}[e];
        assert all[x] == 1;
      }
    }

    /** One chain rewritten with entries of its own bucket. */
    lemma StillInBuckets(chains: seq<seq<Entry>>, b: nat, c: seq<Entry>)
      requires InBuckets(chains) && b < |chains| && forall e :: e in c ==> e.hash % |chains| == b
      ensures InBuckets(chains[b := c])
    {
    }

    /** The start of the chain walk that remove, change, inc and dec share. */
    method FindEntry(key: Word) returns (index: nat, i: nat)
      requires Valid()
      ensures table.Length > 0 && index == DoHash(key) % table.Length && i <= |table[index]|
      ensures i == Find(table[index], DoHash(key), key)
      ensures i < |table[index]| <==> key in dict
      ensures i < |table[index]| ==> IsItem(dict, table[index][i]) && table[index][i].key == key
    {
      hide DoHash, Entries, InBuckets, Holds, Prime, LoadFactor;
      TablesAre(primeIndex);
      var hash := DoHash(key);
      index := hash % table.Length;
      i := 0;
      while i < |table[index]| && !(hash == table[index][i].hash && key == table[index][i].key)
        invariant i <= |table[index]|
        invariant forall j :: 0 <= j < i ==> !(table[index][j].hash == hash && table[index][j].key == key)
      {
        i := i + 1;
      }
      FindIs(table[index], hash, key, i);
      FoundInBucket(key, index, i);
    }

    /** htable_remove: the value of the key, or 0; the key is gone. */
    method Remove(key: Word) returns (value: Word)
      requires Valid()
      modifies this, table
      ensures Valid() && table == old(table)
      ensures value == if key in old(dict) then old(dict[key]) else 0
      ensures dict == old(dict) - {key}
    {
      hide DoHash, Entries, InBuckets, Holds, Prime, LoadFactor;
      var index, i := FindEntry(key);
      if i == |table[index]| {
        assert dict == dict - {key};
        return 0;
      }
      ghost var chains := table[..];
      var chain := table[index];
      value := chain[i].value;
      table[index] := chain[..i] + chain[i + 1..];
      entryCount := (entryCount + 0x1_0000_0000 - 1) % 0x1_0000_0000;
      RemovedIs(chains, index, i, dict);
      Count32(|Entries(chains)| - 1);
      dict := dict - {key};
      assert table[..] == chains[index := table[index]];
    }

    lemma RemovedIs(chains: seq<seq<Entry>>, b: nat, i: nat, d: map<Word, Word>)
      requires InBuckets(chains) && b < |chains| && i < |chains[b]| && Holds(Entries(chains), d)
      ensures var r := chains[b := chains[b][..i] + chains[b][i + 1..]];
              InBuckets(r) && Holds(Entries(r), d - {chains[b][i].key}) && |Entries(r)| + 1 == |Entries(chains)|
    {
      hide DoHash, Entries, InBuckets, Holds, Prime, LoadFactor;
      var c := chains[b][..i] + chains[b][i + 1..];
      var r, x := chains[b := c], chains[b][i];
      InBucketsAt(chains, b);
      StillInBuckets(chains, b, c);
      EntriesUpdate(chains, b, c);
      RemoveOne(chains[b], i);
      TakeOne(Entries(r), Entries(chains), multiset(chains[b]), multiset(c), x);
      HoldsLess(Entries(chains), d, Entries(r), x);
    }

    lemma InBucketsAt(chains: seq<seq<Entry>>, b: nat)
      requires InBuckets(chains) && b < |chains|
      ensures forall e :: e in chains[b] ==> e.hash % |chains| == b
    {
    }

    /** The entry of a key with another value. */
    lemma ReplacedIs(chains: seq<seq<Entry>>, b: nat, i: nat, d: map<Word, Word>, value: Word)
      requires InBuckets(chains) && b < |chains| && i < |chains[b]| && Holds(Entries(chains), d)
      ensures var x := chains[b][i];
              var r := chains[b := chains[b][i := x.(value := value)]];
              InBuckets(r) && Holds(Entries(r), d[x.key := value]) && |Entries(r)| == |Entries(chains)|
    {
      hide DoHash, Entries, InBuckets, Holds, Prime, LoadFactor;
      var x := chains[b][i];
      var x' := x.(value := value);
      var c := chains[b][i := x'];
      var without := chains[b][..i] + chains[b][i + 1..];
      var cut, r := chains[b := without], chains[b := c];
      InBucketsAt(chains, b);
      assert x in chains[b];
      StillInBuckets(chains, b, c);
      EntriesUpdate(chains, b, without);
      EntriesUpdate(chains, b, c);
      RemoveOne(chains[b], i);
      ReplaceOne(chains[b], i, x');
      TakeOne(Entries(cut), Entries(chains), multiset(chains[b]), multiset(without), x);
      HoldsLess(Entries(chains), d, Entries(cut), x);
      assert c == chains[b][..i] + [x'] + chains[b][i + 1..];
      assert multiset(c) == multiset(without) + multiset{x'};
      PutOne(Entries(cut), Entries(chains), Entries(r), multiset(chains[b]), multiset(without), multiset(c), x');
      HoldsMore(Entries(cut), d - {x.key}, x');
      assert (d - {x.key})[x.key := value] == d[x.key := value];
    }

    /** The chain walk of change, inc and dec, and the write at its end. */
    method SetValue(index: nat, i: nat, value: Word)
      requires Valid() && index < table.Length && i < |table[index]|
      modifies this`dict, table
      ensures Valid() && dict == old(dict)[old(table[index][i].key) := value]
    {
      hide DoHash, Entries, InBuckets, Holds, Prime, LoadFactor;
      ghost var chains := table[..];
      ReplacedIs(chains, index, i, dict, value);
      dict := dict[table[index][i].key := value];
      table[index] := table[index][i := table[index][i].(value := value)];
      assert table[..] == chains[index := table[index]];
    }

    /** htable_change: a key that is there gets the value. */
    method Change(key: Word, value: Word) returns (found: bool)
      requires Valid()
      modifies this`dict, table
      ensures Valid() && found == (key in old(dict))
      ensures dict == if found then old(dict)[key := value] else old(dict)
    {
      hide Valid, DoHash;
      var index, i := FindEntry(key);
      found := i < |table[index]|;
      if found {
        SetValue(index, i, value);
      }
    }

    /** htable_inc, with the wrap of the machine word */
    method Inc(key: Word, value: Word) returns (found: bool)
      requires Valid()
      modifies this`dict, table
      ensures Valid() && found == (key in old(dict))
      ensures dict == if found then old(dict)[key := (old(dict)[key] + value) % 0x1_0000_0000_0000_0000] else old(dict)
    {
      hide Valid, DoHash;
      var index, i := FindEntry(key);
      found := i < |table[index]|;
      if found {
        SetValue(index, i, (table[index][i].value + value) % 0x1_0000_0000_0000_0000);
      }
    }

    /** htable_dec, with the wrap of the machine word */
    method Dec(key: Word, value: Word) returns (found: bool)
      requires Valid()
      modifies this`dict, table
      ensures Valid() && found == (key in old(dict))
      ensures dict == if found then old(dict)[key := (old(dict)[key] - value) % 0x1_0000_0000_0000_0000] else old(dict)
    {
      hide Valid, DoHash;
      var index, i := FindEntry(key);
      found := i < |table[index]|;
      if found {
        SetValue(index, i, (table[index][i].value - value) % 0x1_0000_0000_0000_0000);
      }
    }

    // ----- growing -----

    /** One entry taken off an old chain and put before a new one. */
    lemma MovedOne(olds: seq<seq<Entry>>, i: nat, news: seq<seq<Entry>>, index: nat)
      requires i < |olds| && olds[i] != [] && InBuckets(news) && news != [] && index == olds[i][0].hash % |news|
      ensures var (olds', news') := (olds[i := olds[i][1..]], news[index := [olds[i][0]] + news[index]]);
              Entries(olds') + Entries(news') == Entries(olds) + Entries(news) && InBuckets(news')
    {
      hide Entries, InBuckets, DoHash;
      var x := olds[i][0];
      InBucketsAt(news, index);
      StillInBuckets(news, index, [x] + news[index]);
      EntriesUpdate(olds, i, olds[i][1..]);
      EntriesUpdate(news, index, [x] + news[index]);
      assert olds[i] == [x] + olds[i][1..];
      PushOne(olds[i][1..], x);
      PushOne(news[index], x);
      TakeOne(Entries(olds[i := olds[i][1..]]), Entries(olds), multiset(olds[i]), multiset(olds[i][1..]), x);
      GiveOne(Entries(news[index := [x] + news[index]]), Entries(news), multiset(news[index]),
          multiset([x] + news[index]), x);
      var o, n := Entries(olds[i := olds[i][1..]]), Entries(news);
      assert o + (n + multiset{x}) == o + multiset{x} + n;
    }

    /** The loop that moves every entry to its new bucket. */
    method Rehash(newTable: array<seq<Entry>>)
      requires table != newTable && newTable.Length > 0 && InBuckets(newTable[..]) && Entries(newTable[..]) == multiset{}
      modifies table, newTable
      ensures InBuckets(newTable[..]) && Entries(newTable[..]) == old(Entries(table[..]))
    {
      hide DoHash, Entries, InBuckets;
      ghost var all := Entries(table[..]);
      assert all + multiset{} == all;
      var i := 0;
      while i < table.Length
        invariant i <= table.Length && InBuckets(newTable[..])
        invariant forall j :: 0 <= j < i ==> table[j] == []
        invariant Entries(table[..]) + Entries(newTable[..]) == all
      {
        while table[i] != []
          invariant InBuckets(newTable[..])
          invariant forall j :: 0 <= j < i ==> table[j] == []
          invariant Entries(table[..]) + Entries(newTable[..]) == all
          decreases |table[i]|
        {
          ghost var olds, news := table[..], newTable[..];
          var entry := table[i][0];
          var index := entry.hash % newTable.Length;
          MovedOne(olds, i, news, index);
          table[i] := table[i][1..];
          newTable[index] := [entry] + newTable[index];
          assert table[..] == olds[i := table[i]] && newTable[..] == news[index := newTable[index]];
        }
        i := i + 1;
      }
      NoEntries(table[..]);
      assert multiset{} + Entries(newTable[..]) == Entries(newTable[..]);
    }

    /** hashtable_expand; `alloc` is false when neither allocation of a new table succeeds. */
    method Expand(alloc: bool) returns (ok: bool)
      requires Shape()
      modifies this`table, this`primeIndex, this`loadLimit, table
      ensures Shape() && Entries(table[..]) == old(Entries(table[..]))
      ensures ok == (alloc && old(primeIndex) != LAST)
      ensures primeIndex == old(primeIndex) + if ok then 1 else 0
      ensures if ok then fresh(table) else table == old(table) && table[..] == old(table[..])
      ensures if ok then loadLimit > old(loadLimit) else loadLimit == old(loadLimit)
    {
      hide DoHash, Entries, InBuckets, Holds, Prime, LoadFactor;
      if primeIndex == LAST || !alloc {
        return false;
      }
      TablesAre(primeIndex);
      TablesAre(primeIndex + 1);
      var newSize := Prime(primeIndex + 1);
      var newTable := new seq<Entry>[newSize](_ => []);
      BlankBuckets(newTable[..]);
      Rehash(newTable);
      table := newTable;
      primeIndex := primeIndex + 1;
      loadLimit := LoadFactor(primeIndex);
      ok := true;
    }

    lemma BlankBuckets(chains: seq<seq<Entry>>)
      requires chains != [] && forall b :: 0 <= b < |chains| ==> chains[b] == []
      ensures InBuckets(chains) && Entries(chains) == multiset{}
    {
    }

    /** A new entry at the head of its chain. */
    lemma PushedIs(chains: seq<seq<Entry>>, b: nat, x: Entry)
      requires InBuckets(chains) && chains != [] && b == x.hash % |chains|
      ensures var r := chains[b := [x] + chains[b]];
              InBuckets(r) && Entries(r) == Entries(chains) + multiset{x}
    {
      hide DoHash, Entries, InBuckets, Holds, Prime, LoadFactor;
      var r := chains[b := [x] + chains[b]];
      InBucketsAt(chains, b);
      StillInBuckets(chains, b, [x] + chains[b]);
      EntriesUpdate(chains, b, [x] + chains[b]);
      PushOne(chains[b], x);
      GiveOne(Entries(r), Entries(chains), multiset(chains[b]), multiset([x] + chains[b]), x);
    }

    /** The end of an insertion: the entry goes before its chain, and the count already includes it. */
    method Push(key: Word, value: Word)
      requires Shape() && entryCount == (|Entries(table[..])| + 1) % 0x1_0000_0000
      modifies table
      ensures Sound() && Entries(table[..]) == old(Entries(table[..])) + multiset{Entry(key, value, DoHash(key))}
    {
      hide DoHash, Entries, InBuckets, Prime, LoadFactor;
      TablesAre(primeIndex);
      var hash := DoHash(key);
      var index := hash % table.Length;
      ghost var chains := table[..];
      PushedIs(chains, index, Entry(key, value, hash));
      table[index] := [Entry(key, value, hash)] + table[index];
      assert table[..] == chains[index := table[index]];
    }

    /** One entry more is over the load limit. */
    predicate Grows()
      reads this
    {
      (entryCount + 1) % 0x1_0000_0000 > loadLimit
    }

    /** The insertion, but for the dictionary. */
    method InsertEntry(key: Word, value: Word, allocTable: bool, allocEntry: bool)
      requires Sound()
      modifies this`table, this`primeIndex, this`loadLimit, this`entryCount, table
      ensures Sound() && (table == old(table) || fresh(table))
      ensures Entries(table[..]) ==
                old(Entries(table[..])) + if allocEntry then multiset{Entry(key, value, DoHash(key))} else multiset{}
      ensures old(entryCount) <= old(loadLimit) ==> entryCount <= loadLimit || !allocTable || primeIndex == LAST
      ensures primeIndex == old(primeIndex) + if old(Grows()) && allocTable && old(primeIndex) != LAST then 1 else 0
    {
      hide DoHash, Entries, InBuckets, Shape, Prime, LoadFactor;
      ghost var all := Entries(table[..]);
      entryCount := (entryCount + 1) % 0x1_0000_0000;
      Count32(|all|);
      if entryCount > loadLimit {
        var expanded := Expand(allocTable);
      }
      if allocEntry {
        Push(key, value);
      } else {
        TakeBack(all);
      }
    }

    /** The count without the entry there was no memory for. */
    method TakeBack(ghost all: multiset<Entry>)
      requires Shape() && Entries(table[..]) == all && entryCount == (|all| + 1) % 0x1_0000_0000
      modifies this`entryCount
      ensures Sound() && entryCount == |all| % 0x1_0000_0000
    {
      entryCount := (entryCount + 0x1_0000_0000 - 1) % 0x1_0000_0000;
      Count32(|all|);
    }

    /** htable_insert; the flags say which allocations succeed.  The table grows when the new entry is over the load
        limit,
        and only then.  A key that is there already is not looked for: its new
        entry stands beside the old one, and the table is no dictionary any more. */
    method Insert(key: Word, value: Word, allocTable: bool, allocEntry: bool) returns (ok: bool)
      requires Sound()
      modifies this, table
      ensures Sound() && ok == allocEntry && (table == old(table) || fresh(table))
      ensures Entries(table[..]) ==
                old(Entries(table[..])) + if ok then multiset{Entry(key, value, DoHash(key))} else multiset{}
      ensures old(Valid()) && (key !in old(dict) || !ok) ==>
                Valid() && dict == if ok then old(dict)[key := value] else old(dict)
      ensures old(entryCount) <= old(loadLimit) ==> entryCount <= loadLimit || !allocTable || primeIndex == LAST
      ensures primeIndex == old(primeIndex) + if old(Grows()) && allocTable && old(primeIndex) != LAST then 1 else 0
    {
      hide DoHash, Entries, Holds, Sound;
      ghost var all, fits := Entries(table[..]), Valid() && key !in dict;
      assert all + multiset{} == all;
      InsertEntry(key, value, allocTable, allocEntry);
      ok := allocEntry;
      if fits && ok {
        HoldsMore(all, dict, Entry(key, value, DoHash(key)));
        dict := dict[key := value];
      }
    }

    /** After a second insertion of a key no dictionary fits the entries. */
    lemma TwiceIsNoDictionary(all: multiset<Entry>, d: map<Word, Word>, x: Entry, d': map<Word, Word>)
      requires Holds(all, d) && x.key in d && x.hash == DoHash(x.key)
      ensures !Holds(all + multiset{x}, d')
    {
      hide DoHash;
      var y, more := Entry(x.key, d[x.key], x.hash), all + multiset{x};
      assert IsItem(d, y) && all[y] == 1;
      assert more[x] == all[x] + 1 && more[y] >= 1;
      assert IsItem(d', x) && IsItem(d', y) ==> x == y;
    }
  }

  lemma Count32(n: nat)
    ensures (n % 0x1_0000_0000 + 1) % 0x1_0000_0000 == (n + 1) % 0x1_0000_0000
    ensures ((n + 1) % 0x1_0000_0000 + 0x1_0000_0000 - 1) % 0x1_0000_0000 == n % 0x1_0000_0000
  {
  }

  lemma TakeOne(r: multiset<Entry>, all: multiset<Entry>, was: multiset<Entry>, c: multiset<Entry>, x: Entry)
    requires r + was == all + c && c + multiset{x} == was
    ensures r + multiset{x} == all && x in all
  {
    assert r + multiset{x} + c == all + c;
    assert forall e :: (r + multiset{x} + c)[e] == (r + multiset{x})[e] + c[e] && (all + c)[e] == all[e] + c[e];
    assert r + multiset{x} == all;
  }

  lemma GiveOne(r: multiset<Entry>, all: multiset<Entry>, was: multiset<Entry>, c: multiset<Entry>, x: Entry)
    requires r + was == all + c && c == was + multiset{x}
    ensures r == all + multiset{x}
  {
    assert forall e :: (r + was)[e] == r[e] + was[e] && (all + c)[e] == all[e] + was[e] + multiset{x}[e];
    assert forall e :: r[e] == (all + multiset{x})[e];
  }

  lemma PutOne(cut: multiset<Entry>, all: multiset<Entry>, r: multiset<Entry>,
               was: multiset<Entry>, without: multiset<Entry>, c: multiset<Entry>, x: Entry)
    requires cut + was == all + without && r + was == all + c && c == without + multiset{x}
    ensures r == cut + multiset{x}
  {
    assert forall e :: (cut + was)[e] == cut[e] + was[e] && (r + was)[e] == r[e] + was[e];
    assert forall e :: (all + without)[e] == all[e] + without[e] && (all + c)[e] == all[e] + without[e] + multiset{x}[e];
    assert forall e :: r[e] == (cut + multiset{x})[e];
  }

  lemma FindIs(chain: seq<Entry>, hash: Hash, key: Word, i: nat)
    requires i <= |chain| && (i < |chain| ==> chain[i].hash == hash && chain[i].key == key)
    requires forall j :: 0 <= j < i ==> !(chain[j].hash == hash && chain[j].key == key)
    ensures Find(chain, hash, key) == i
  {
  }
}
