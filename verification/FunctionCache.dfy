/** The open-addressing cache of function values (UIntCache, src/function_cache.cc,
    include/fflow/function_cache.hh:233-353). The hash is an arbitrary function; a value is the
    buffer that new_entry hands out. */
module FunctionCache {
  import opened Common

  type Key = seq<nat>

  datatype Entry = Empty | Entry(hashv: nat, key: Key, val: array<nat>)

  const DEFAULT_LOG2_CAP: nat := 7

  function Pow2(n: nat): (r: nat)
    ensures r > n
  {
    if n == 0 then 1 else 2 * Pow2(n - 1)
  }

  /** The smallest i >= 1 with 2^i >= x, for a shift that stays within 32 bits. */
  method NextPowOf2(x: nat) returns (i: nat)
    requires x <= 0x8000_0000
    ensures i >= 1 && Pow2(i) >= x && (i > 1 ==> Pow2(i - 1) < x)
  {
    i := 1;
    while Pow2(i) < x
      invariant i >= 1 && (i > 1 ==> Pow2(i - 1) < x)
      decreases x - i
    {
      i := i + 1;
    }
  }

  // ---- the table as a sequence ----

  /** hash & mask for a power of two. */
  function Home(h: nat, cap: nat): (pos: nat)
    requires cap > 0
    ensures pos < cap
  {
    h % cap
  }

  /** (pos + 1) & mask. */
  function Next(pos: nat, cap: nat): (n: nat)
    requires pos < cap
    ensures n < cap
  {
    if pos + 1 == cap then 0 else pos + 1
  }

  /** No empty slot on the way from `from` to `to`, both included. */
  predicate Filled(d: seq<Entry>, from: nat, to: nat)
    requires from < |d| && to < |d|
  {
    if from <= to then forall i :: from <= i <= to ==> d[i].Entry?
    else (forall i :: from <= i < |d| ==> d[i].Entry?) && forall i :: 0 <= i <= to ==> d[i].Entry?
  }

  /** Every key is stored once, and reached from its home without meeting an empty slot. */
  ghost predicate Table(d: seq<Entry>, hash: Key -> nat) {
    && |d| > 0
    && (forall i :: 0 <= i < |d| && d[i].Entry? ==>
         d[i].hashv == hash(d[i].key) && Filled(d, Home(d[i].hashv, |d|), i))
    && forall i, j :: 0 <= i < j < |d| && d[i].Entry? && d[j].Entry? ==> d[i].key != d[j].key
  }

  ghost predicate Stores(d: seq<Entry>, k: Key) {
    exists i :: 0 <= i < |d| && d[i].Entry? && d[i].key == k
  }

  /** m has exactly the keys and values of the table. */
  ghost predicate Represents(d: seq<Entry>, m: map<Key, array<nat>>) {
    && (forall k :: k in m <==> Stores(d, k))
    && forall i :: 0 <= i < |d| && d[i].Entry? ==> d[i].key in m && m[d[i].key] == d[i].val
  }

  function Occupied(d: seq<Entry>): (n: nat)
    ensures n <= |d|
  {
    if d == [] then 0 else Occupied(d[..|d| - 1]) + if d[|d| - 1].Entry? then 1 else 0
  }

  lemma {:induction false} OccupiedUpdate(d: seq<Entry>, i: nat, e: Entry)
    requires i < |d| && d[i].Empty?
    ensures Occupied(d[i := e]) == Occupied(d) + if e.Entry? then 1 else 0
    decreases |d|
  {
    var init := d[..|d| - 1];
    if i == |d| - 1 {
      assert d[i := e][..|d| - 1] == init;
    } else {
      assert d[i := e][..|d| - 1] == init[i := e];
      OccupiedUpdate(init, i, e);
    }
  }

  lemma {:induction false} EmptySlot(d: seq<Entry>) returns (i: nat)
    requires Occupied(d) < |d|
    ensures i < |d| && d[i].Empty?
    decreases |d|
  {
    if d[|d| - 1].Empty? {
      i := |d| - 1;
    } else {
      i := EmptySlot(d[..|d| - 1]);
    }
  }

  lemma {:induction false} OccupiedNone(d: seq<Entry>)
    requires forall i :: 0 <= i < |d| ==> d[i].Empty?
    ensures Occupied(d) == 0
    decreases |d|
  {
    if d != [] {
      OccupiedNone(d[..|d| - 1]);
    }
  }

  lemma OccupiedNext(d: seq<Entry>, i: nat)
    requires i < |d|
    ensures Occupied(d[..i + 1]) == Occupied(d[..i]) + if d[i].Entry? then 1 else 0
  {
    assert d[..i + 1][..i] == d[..i];
  }

  /** Slots probed from home on, up to but not including pos; wrapped once past the end. */
  predicate Probed(d: seq<Entry>, home: nat, pos: nat, wrapped: bool)
    requires home < |d| && pos < |d|
  {
    if wrapped then
      pos <= home && (forall i :: home <= i < |d| ==> d[i].Entry?) && forall i :: 0 <= i < pos ==> d[i].Entry?
    else home <= pos && forall i :: home <= i < pos ==> d[i].Entry?
  }

  /** None of the probed slots holds k. */
  predicate NotThere(d: seq<Entry>, home: nat, pos: nat, wrapped: bool, k: Key)
    requires home < |d| && pos < |d| && Probed(d, home, pos, wrapped)
  {
    if wrapped then (forall i :: home <= i < |d| ==> d[i].key != k) && forall i :: 0 <= i < pos ==> d[i].key != k
    else forall i :: home <= i < pos ==> d[i].key != k
  }

  /** How far the probing can still go: to the empty slot e at most. */
  function Distance(pos: nat, e: nat, cap: nat): (n: nat)
    requires pos < cap && e < cap
  {
    if pos <= e then e - pos else e + cap - pos
  }

  lemma ProbeNext(d: seq<Entry>, home: nat, pos: nat, wrapped: bool, e: nat)
    requires home < |d| && pos < |d| && e < |d| && d[e].Empty? && Probed(d, home, pos, wrapped) && d[pos].Entry?
    ensures var w := wrapped || pos + 1 == |d|; Probed(d, home, Next(pos, |d|), w)
    ensures Distance(Next(pos, |d|), e, |d|) < Distance(pos, e, |d|)
  {
  }

  /** If probing ends at an empty slot the key is not in the table. */
  lemma Absent(d: seq<Entry>, hash: Key -> nat, k: Key, pos: nat, wrapped: bool)
    requires Table(d, hash) && pos < |d| && d[pos].Empty?
    requires Probed(d, Home(hash(k), |d|), pos, wrapped) && NotThere(d, Home(hash(k), |d|), pos, wrapped, k)
    ensures !Stores(d, k)
  {
    var home := Home(hash(k), |d|);
    forall i | 0 <= i < |d| && d[i].Entry?
      ensures d[i].key != k
    {
      assert Filled(d, Home(d[i].hashv, |d|), i);
    }
  }

  /** Writing an entry with a new key into the empty slot that probing found. */
  lemma Placed(d: seq<Entry>, hash: Key -> nat, e: Entry, pos: nat, wrapped: bool)
    requires Table(d, hash) && pos < |d| && d[pos].Empty? && e.Entry? && e.hashv == hash(e.key) && !Stores(d, e.key)
    requires Probed(d, Home(e.hashv, |d|), pos, wrapped)
    ensures Table(d[pos := e], hash)
  {
    var d' := d[pos := e];
    forall i | 0 <= i < |d'| && d'[i].Entry?
      ensures d'[i].hashv == hash(d'[i].key) && Filled(d', Home(d'[i].hashv, |d'|), i)
    {
      if i != pos {
        assert Filled(d, Home(d[i].hashv, |d|), i);
      }
    }
  }

  lemma PlacedRepresents(d: seq<Entry>, m: map<Key, array<nat>>, e: Entry, pos: nat)
    requires Represents(d, m) && pos < |d| && d[pos].Empty? && e.Entry? && !Stores(d, e.key)
    ensures Represents(d[pos := e], m[e.key := e.val])
  {
    var d', m' := d[pos := e], m[e.key := e.val];
    forall k
      ensures k in m' <==> Stores(d', k)
    {
      if Stores(d, k) {
        var i :| 0 <= i < |d| && d[i].Entry? && d[i].key == k;
        assert d'[i] == d[i];
      }
      if Stores(d', k) {
        var i :| 0 <= i < |d'| && d'[i].Entry? && d'[i].key == k;
        if i != pos {
          assert d[i] == d'[i];
        }
      }
      assert d'[pos] == e;
    }
    forall i | 0 <= i < |d'| && d'[i].Entry?
      ensures d'[i].key in m' && m'[d'[i].key] == d'[i].val
    {
      if i != pos {
        assert d[i] == d'[i] && Stores(d, d[i].key);
      }
    }
  }

  lemma EmptyTable(d: seq<Entry>, hash: Key -> nat)
    requires |d| > 0 && forall i :: 0 <= i < |d| ==> d[i].Empty?
    ensures Table(d, hash) && Represents(d, map[]) && Occupied(d) == 0
  {
    OccupiedNone(d);
  }

  /** The probing loop that occurs in new_entry, rehash_ and merge_caches: an entry with a new key goes
      to the first empty slot from its home on; an empty entry changes nothing. */
  method Place(data: array<Entry>, e: Entry, ghost hash: Key -> nat, ghost m: map<Key, array<nat>>)
    returns (ghost m': map<Key, array<nat>>)
    requires Table(data[..], hash) && Represents(data[..], m) && Occupied(data[..]) < data.Length
    requires e.Entry? ==> e.hashv == hash(e.key) && e.key !in m
    modifies data
    ensures Table(data[..], hash) && Represents(data[..], m')
    ensures m' == if e.Entry? then m[e.key := e.val] else m
    ensures Occupied(data[..]) == old(Occupied(data[..])) + if e.Entry? then 1 else 0
  {
    hide Table, Represents, Occupied, Probed, Distance;
    ghost var d := data[..];
    ghost var free := EmptySlot(d);
    var home := Home(if e.Entry? then e.hashv else 0, data.Length);
    var pos: nat := home;
    ghost var wrapped := false;
    ProbeStart(d, home);
    while data[pos].Entry?
      invariant data[..] == d && pos < data.Length && Probed(d, home, pos, wrapped)
      decreases Distance(pos, free, |d|)
    {
      ProbeNext(d, home, pos, wrapped, free);
      wrapped := wrapped || pos + 1 == |d|;
      pos := Next(pos, data.Length);
    }
    data[pos] := e;
    assert data[..] == d[pos := e];
    OccupiedUpdate(d, pos, e);
    m' := m;
    if e.Entry? {
      NotStored(d, m, e.key);
      Placed(d, hash, e, pos, wrapped);
      PlacedRepresents(d, m, e, pos);
      m' := m[e.key := e.val];
    } else {
      assert d[pos := e] == d;
    }
  }

  lemma ProbeStart(d: seq<Entry>, home: nat)
    requires home < |d|
    ensures Probed(d, home, home, false)
  {
  }

  lemma NotStored(d: seq<Entry>, m: map<Key, array<nat>>, k: Key)
    requires Represents(d, m)
    ensures k in m <==> Stores(d, k)
  {
  }

  function Sum(sizes: seq<nat>): nat {
    if sizes == [] then 0 else Sum(sizes[..|sizes| - 1]) + sizes[|sizes| - 1]
  }

  function Union(ms: seq<map<Key, array<nat>>>): map<Key, array<nat>> {
    if ms == [] then map[] else Union(ms[..|ms| - 1]) + ms[|ms| - 1]
  }

  lemma {:induction false} SumNext(sizes: seq<nat>, i: nat)
    requires i < |sizes|
    ensures Sum(sizes[..i + 1]) == Sum(sizes[..i]) + sizes[i] <= Sum(sizes)
    decreases |sizes| - i
  {
    assert sizes[..i + 1][..i] == sizes[..i];
    if i + 1 < |sizes| {
      SumNext(sizes, i + 1);
    } else {
      assert sizes[..i + 1] == sizes;
    }
  }

  lemma NoSum(sizes: seq<nat>, ms: seq<map<Key, array<nat>>>)
    ensures Sum(sizes[..0]) == 0 && Union(ms[..0]) == map[]
  {
  }

  lemma UnionNext(ms: seq<map<Key, array<nat>>>, i: nat)
    requires i < |ms|
    ensures Union(ms[..i + 1]) == Union(ms[..i]) + ms[i]
  {
    assert ms[..i + 1][..i] == ms[..i];
  }

  lemma {:induction false} UnionDisjoint(ms: seq<map<Key, array<nat>>>, i: nat, base: map<Key, array<nat>>)
    requires i < |ms| && base.Keys !! ms[i].Keys && forall l :: 0 <= l < i ==> ms[l].Keys !! ms[i].Keys
    ensures (base + Union(ms[..i])).Keys !! ms[i].Keys
  {
    UnionApart(ms, i, ms[i].Keys);
  }

  ghost predicate Disjoint(ms: seq<map<Key, array<nat>>>, base: map<Key, array<nat>>) {
    && (forall i :: 0 <= i < |ms| ==> ms[i].Keys !! base.Keys)
    && forall i, j :: 0 <= i < j < |ms| ==> ms[i].Keys !! ms[j].Keys
  }

  lemma MergeStep(sizes: seq<nat>, ms: seq<map<Key, array<nat>>>, base: map<Key, array<nat>>, i: nat)
    requires i < |sizes| == |ms| && Disjoint(ms, base)
    ensures Sum(sizes[..i + 1]) == Sum(sizes[..i]) + sizes[i] <= Sum(sizes)
    ensures base + Union(ms[..i + 1]) == (base + Union(ms[..i])) + ms[i]
    ensures (base + Union(ms[..i])).Keys !! ms[i].Keys
  {
    SumNext(sizes, i);
    UnionNext(ms, i);
    UnionDisjoint(ms, i, base);
  }

  lemma {:induction false} UnionApart(ms: seq<map<Key, array<nat>>>, k: nat, ks: set<Key>)
    requires k <= |ms| && forall l :: 0 <= l < k ==> ms[l].Keys !! ks
    ensures Union(ms[..k]).Keys !! ks
    decreases k
  {
    if k > 0 {
      UnionApart(ms, k - 1, ks);
      UnionNext(ms, k - 1);
    }
  }

  ghost function Sizes(caches: seq<UIntCache>): (s: seq<nat>)
    reads set c | c in caches
    ensures |s| == |caches| && forall i :: 0 <= i < |s| ==> s[i] == caches[i].size
  {
    seq(|caches|, i requires 0 <= i < |caches| reads set c | c in caches => caches[i].size)
  }

  ghost function Stored(caches: seq<UIntCache>): (s: seq<map<Key, array<nat>>>)
    reads set c | c in caches
    ensures |s| == |caches| && forall i :: 0 <= i < |s| ==> s[i] == caches[i].contents
  {
    seq(|caches|, i requires 0 <= i < |caches| reads set c | c in caches => caches[i].contents)
  }

  class UIntCache {
    const nparsin: nat
    const hash: Key -> nat
    /** None before the first use (EMPTY_); the capacity is data.Length = 2^log2cap otherwise. */
    var log2cap: Option<nat>
    var data: array<Entry>
    var size: nat
    /** The keys and the buffers of their values. */
    ghost var contents: map<Key, array<nat>>

    constructor (nparsin: nat, hash: Key -> nat)
      ensures Valid() && contents == map[] && fresh(data) && log2cap == None
      ensures this.nparsin == nparsin && this.hash == hash
    {
      this.nparsin, this.hash := nparsin, hash;
      log2cap, data, size, contents := None, new Entry[0], 0, map[];
    }

    ghost predicate IsClear()
      reads this
    {
      log2cap.None? && data.Length == 0 && size == 0 && contents == map[]
    }

    /** At most half of the slots are taken. */
    ghost predicate Valid()
      reads this, data
    {
      if log2cap.None? then data.Length == 0 && size == 0 && contents == map[] else
        && data.Length == Pow2(log2cap.value)
        && Table(data[..], hash) && Represents(data[..], contents)
        && size == Occupied(data[..]) && 2 * size <= data.Length
    }

    method InitFirst(log2: nat)
      requires Valid() && log2cap.None?
      modifies `log2cap, `data
      ensures Valid() && log2cap == Some(log2) && fresh(data) && data.Length == Pow2(log2)
    {
      log2cap := Some(log2);
      data := new Entry[Pow2(log2)](_ => Empty);
      EmptyTable(data[..], hash);
    }

    /** The value stored for xin, if any. */
    method Find(xin: Key) returns (xout: Option<array<nat>>)
      requires Valid()
      ensures xout == if xin in contents then Some(contents[xin]) else None
    {
      if log2cap.None? {
        return None;
      }
      xout := Lookup(data, xin, hash, contents);
    }

    /** A larger table with the same entries. */
    method Rehash(log2: nat)
      requires Valid() && log2cap.Some? && 2 * size <= Pow2(log2)
      modifies `log2cap, `data
      ensures Valid() && log2cap == Some(log2) && fresh(data) && data.Length == Pow2(log2)
    {
      var newdata := new Entry[Pow2(log2)](_ => Empty);
      EmptyTable(newdata[..], hash);
      MoveAll(data, newdata, hash, contents, map[]);
      data := newdata;
      log2cap := Some(log2);
    }

    /** Stores a new key with a fresh buffer of nparsout words. */
    method NewEntry(xin: Key, nparsout: nat) returns (xout: array<nat>)
      requires Valid() && xin !in contents
      modifies this, data
      ensures Valid() && contents == old(contents)[xin := xout] && size == old(size) + 1
      ensures fresh(xout) && xout.Length == nparsout
      ensures log2cap.Some? && (data == old(data) || fresh(data))
      ensures old(log2cap.Some? && 2 * (size + 1) <= data.Length) ==> data == old(data)
    {
      if log2cap.None? {
        InitFirst(DEFAULT_LOG2_CAP);
      }
      if 2 * (size + 1) > data.Length {
        GrowthFacts();
        Rehash(log2cap.value + 1);
      }
      xout := new nat[nparsout];
      PutNew(Entry(hash(xin), xin, xout));
    }

    lemma GrowthFacts()
      requires Valid() && log2cap.Some?
      ensures Pow2(log2cap.value + 1) == 2 * data.Length && 2 * size <= data.Length && data.Length > 0
    {
    }

    /** Places an entry for which there is room. */
    method PutNew(e: Entry)
      requires Valid() && log2cap.Some? && 2 * (size + 1) <= data.Length
      requires e.Entry? && e.hashv == hash(e.key) && e.key !in contents
      modifies `size, `contents, data
      ensures Valid() && contents == old(contents)[e.key := e.val] && size == old(size) + 1
    {
      contents := Place(data, e, hash, contents);
      size := size + 1;
    }

    /** Room for n more entries: none of the next n insertions has to rehash. */
    method ReserveMore(n: nat)
      requires Valid() && 2 * (size + n + 1) <= 0x8000_0000
      modifies `log2cap, `data
      ensures Valid() && log2cap.Some? && 2 * (size + n) <= data.Length
      ensures data == old(data) || fresh(data)
    {
      var newsize := size + n;
      if log2cap.None? {
        var log2 := NextPowOf2(2 * (newsize + 1));
        InitFirst(log2);
      } else if 2 * newsize > data.Length {
        var log2 := NextPowOf2(2 * (newsize + 1));
        Rehash(log2);
      }
    }

    /** Takes over the entries of a cache that stores other keys, and empties it. */
    method MergeOne(c: UIntCache)
      requires Valid() && c.Valid() && log2cap.Some? && c.log2cap.Some? && c != this && c.data != data && c.hash == hash
      requires contents.Keys !! c.contents.Keys && 2 * (size + c.size) <= data.Length
      modifies `size, `contents, data, c
      ensures Valid() && contents == old(contents) + old(c.contents) && size == old(size) + old(c.size)
      ensures c.IsClear()
    {
      MergeEntries(c.data, c.contents);
      c.Clear();
    }

    method MergeEntries(src: array<Entry>, ghost m: map<Key, array<nat>>)
      requires Valid() && log2cap.Some? && src != data && contents.Keys !! m.Keys
      requires Table(src[..], hash) && Represents(src[..], m) && 2 * (size + Occupied(src[..])) <= data.Length
      modifies `size, `contents, data
      ensures Valid() && contents == old(contents) + m && size == old(size) + Occupied(src[..])
    {
      hide Table, Represents, Occupied, PartOf;
      ghost var d, base := src[..], contents;
      PartStart(d, m, base);
      OccupiedStart(d);
      for i := 0 to src.Length
        invariant src[..] == d && Valid() && log2cap == old(log2cap) && data == old(data)
        invariant PartOf(d, i, m, base, contents) && size == old(size) + Occupied(d[..i])
      {
        PartNext(d, hash, i, m, base, contents);
        OccupiedNext(d, i);
        OccupiedPrefix(d, i + 1);
        if src[i].Entry? {
          PutNew(src[i]);
        }
      }
      PartWhole(d, m, base, contents);
      assert d[..|d|] == d;
    }

    /** Caches in use with the same hash that share no key and no storage with each other or this one. */
    ghost predicate Mergeable(caches: seq<UIntCache>)
      reads this, set c | c in caches, set c | c in caches :: c.data
    {
      && (forall i :: 0 <= i < |caches| ==> caches[i].Valid() && caches[i].log2cap.Some? && caches[i].hash == hash)
      && (forall i :: 0 <= i < |caches| ==> caches[i] != this && caches[i].data != data)
      && (forall i :: 0 <= i < |caches| ==> caches[i].contents.Keys !! contents.Keys)
      && (forall i, j :: 0 <= i < j < |caches| ==> caches[i] != caches[j] && caches[i].data != caches[j].data)
      && (forall i, j :: 0 <= i < j < |caches| ==> caches[i].contents.Keys !! caches[j].contents.Keys)
    }

    /** The merged cache holds the entries of all caches, which end up empty. */
    method MergeCaches(caches: seq<UIntCache>)
      requires Valid() && Mergeable(caches) && 2 * (size + Sum(Sizes(caches)) + 1) <= 0x8000_0000
      modifies this, data, set c | c in caches
      ensures Valid() && contents == old(contents) + old(Union(Stored(caches))) && size == old(size) + old(Sum(Sizes(caches)))
      ensures forall i :: 0 <= i < |caches| ==> caches[i].Valid() && caches[i].contents == map[]
    {
      hide Valid, Sum, Union;
      var additionalSize := AdditionalSize(caches);
      ReserveMore(additionalSize);
      MergeAll(caches, data);
    }

    method AdditionalSize(caches: seq<UIntCache>) returns (n: nat)
      ensures n == Sum(Sizes(caches))
    {
      ghost var sizes := Sizes(caches);
      n := 0;
      for i := 0 to |caches|
        invariant n == Sum(sizes[..i])
      {
        SumNext(sizes, i);
        n := n + caches[i].size;
      }
      assert sizes[..|caches|] == sizes;
    }

    method MergeAll(caches: seq<UIntCache>, ghost table: array<Entry>)
      requires Valid() && Mergeable(caches) && log2cap.Some? && data == table
      requires 2 * (size + Sum(Sizes(caches))) <= data.Length
      modifies `size, `contents, data, set c | c in caches
      ensures Valid() && contents == old(contents) + old(Union(Stored(caches))) && size == old(size) + old(Sum(Sizes(caches)))
      ensures forall i :: 0 <= i < |caches| ==> caches[i].Valid() && caches[i].contents == map[]
    {
      ghost var sizes, stored := Sizes(caches), Stored(caches);
      assert sizes[..|caches|] == sizes && stored[..|caches|] == stored;
      MergeLoop(caches, table, sizes, stored);
    }

    method MergeLoop(caches: seq<UIntCache>, ghost table: array<Entry>, ghost sizes: seq<nat>, ghost stored: seq<map<Key, array<nat>>>)
      requires Valid() && log2cap.Some? && data == table && AllWaiting(caches, 0, sizes, stored, data)
      requires forall l, k :: 0 <= l < k < |caches| ==> caches[l] != caches[k]
      requires Disjoint(stored, contents) && 2 * (size + Sum(sizes)) <= data.Length
      modifies `size, `contents, data, set c | c in caches
      ensures Valid() && contents == old(contents) + Union(stored) && size == old(size) + Sum(sizes)
      ensures forall i :: 0 <= i < |caches| ==> caches[i].Valid() && caches[i].contents == map[]
    {
      hide *;
      ghost var base := contents;
      NoSum(sizes, stored);
      LoopStarts(caches, sizes, stored);
      for i := 0 to |caches|
        invariant Valid() && log2cap.Some? && data == table
        invariant contents == base + Union(stored[..i]) && size == old(size) + Sum(sizes[..i])
        invariant AllWaiting(caches, i, sizes, stored, data) && AllCleared(caches, i)
      {
        MergeStep(sizes, stored, base, i);
        MergeAt(caches, i, sizes, stored);
      }
      ClearedFacts(caches);
    }

    /** One step of the merge: cache i goes from waiting to cleared. */
    method MergeAt(caches: seq<UIntCache>, i: nat, ghost sizes: seq<nat>, ghost stored: seq<map<Key, array<nat>>>)
      requires Valid() && log2cap.Some? && i < |caches| == |sizes| == |stored|
      requires AllWaiting(caches, i, sizes, stored, data) && AllCleared(caches, i)
      requires forall l, k :: 0 <= l < k < |caches| ==> caches[l] != caches[k]
      requires contents.Keys !! stored[i].Keys && 2 * (size + sizes[i]) <= data.Length
      modifies `size, `contents, data, caches[i]
      ensures Valid() && contents == old(contents) + stored[i] && size == old(size) + sizes[i]
      ensures log2cap == old(log2cap) && data == old(data)
      ensures AllWaiting(caches, i + 1, sizes, stored, data) && AllCleared(caches, i + 1)
    {
      hide Valid;
      MergeOne(caches[i]);
    }

    /** The caches from i on still have to be merged. */
    ghost predicate AllWaiting(caches: seq<UIntCache>, i: nat, sizes: seq<nat>, stored: seq<map<Key, array<nat>>>, table: array<Entry>)
      reads set c | c in caches, set c | c in caches :: c.data
    {
      && |sizes| == |stored| == |caches|
      && forall l :: i <= l < |caches| ==> Waiting(caches[l], sizes[l], stored[l]) && caches[l].data != table
    }

    ghost predicate AllCleared(caches: seq<UIntCache>, i: nat)
      reads set c | c in caches
    {
      i <= |caches| && forall l :: 0 <= l < i ==> caches[l].IsClear()
    }

    lemma LoopStarts(caches: seq<UIntCache>, sizes: seq<nat>, stored: seq<map<Key, array<nat>>>)
      requires AllWaiting(caches, 0, sizes, stored, data)
      ensures AllCleared(caches, 0) && |sizes| == |stored| == |caches|
      ensures sizes[..|caches|] == sizes && stored[..|caches|] == stored
    {
    }

    lemma ClearedFacts(caches: seq<UIntCache>)
      requires AllCleared(caches, |caches|)
      ensures forall i :: 0 <= i < |caches| ==> caches[i].Valid() && caches[i].contents == map[]
    {
    }

    /** A cache that still has to be merged. */
    ghost predicate Waiting(c: UIntCache, n: nat, m: map<Key, array<nat>>)
      reads c, c.data
    {
      c != this && c.Valid() && c.log2cap.Some? && c.hash == hash && c.size == n && c.contents == m
    }

    method Clear()
      modifies this
      ensures Valid() && IsClear() && fresh(data)
    {
      data, size, log2cap, contents := new Entry[0], 0, None, map[];
    }
  }

  method Lookup(data: array<Entry>, xin: Key, hash: Key -> nat, ghost m: map<Key, array<nat>>) returns (xout: Option<array<nat>>)
    requires Table(data[..], hash) && Represents(data[..], m) && Occupied(data[..]) < data.Length
    ensures xout == if xin in m then Some(m[xin]) else None
  {
    hide Table, Represents, Occupied, Distance;
    ghost var d := data[..];
    ghost var free := EmptySlot(d);
    var h := hash(xin);
    var home: nat := Home(h, data.Length);
    var pos: nat := home;
    ghost var wrapped := false;
    NotStored(d, m, xin);
    while data[pos].Entry?
      invariant pos < data.Length && Probed(d, home, pos, wrapped) && NotThere(d, home, pos, wrapped, xin)
      decreases Distance(pos, free, |d|)
    {
      if data[pos].hashv == h && data[pos].key == xin {
        StoredHere(d, m, pos);
        return Some(data[pos].val);
      }
      HashOfKey(d, hash, pos);
      ProbeNext(d, home, pos, wrapped, free);
      wrapped := wrapped || pos + 1 == |d|;
      pos := Next(pos, data.Length);
    }
    Absent(d, hash, xin, pos, wrapped);
    return None;
  }

  lemma StoredHere(d: seq<Entry>, m: map<Key, array<nat>>, i: nat)
    requires Represents(d, m) && i < |d| && d[i].Entry?
    ensures d[i].key in m && m[d[i].key] == d[i].val
  {
  }

  lemma HashOfKey(d: seq<Entry>, hash: Key -> nat, i: nat)
    requires Table(d, hash) && i < |d| && d[i].Entry?
    ensures d[i].hashv == hash(d[i].key)
  {
  }

  /** The entries among the first i slots. */
  ghost predicate PartOf(d: seq<Entry>, i: nat, m: map<Key, array<nat>>, base: map<Key, array<nat>>, part: map<Key, array<nat>>)
    requires i <= |d|
  {
    && (forall k :: k in part <==> k in base || Stores(d[..i], k))
    && (forall k :: k in base ==> part[k] == base[k])
    && forall k :: k in part && k !in base ==> k in m && part[k] == m[k]
  }

  lemma PartNext(d: seq<Entry>, hash: Key -> nat, i: nat, m: map<Key, array<nat>>, base: map<Key, array<nat>>, part: map<Key, array<nat>>)
    requires Table(d, hash) && Represents(d, m) && i < |d| && PartOf(d, i, m, base, part) && base.Keys !! m.Keys
    ensures d[i].Entry? ==> d[i].key !in part && d[i].hashv == hash(d[i].key)
    ensures d[i].Entry? ==> PartOf(d, i + 1, m, base, part[d[i].key := d[i].val])
    ensures d[i].Empty? ==> PartOf(d, i + 1, m, base, part)
  {
    hide Occupied, Filled;
    if d[i].Entry? {
      assert d[i].key in m && d[i].key !in base;
      assert !Stores(d[..i], d[i].key);
    }
    forall k
      ensures Stores(d[..i + 1], k) <==> Stores(d[..i], k) || (d[i].Entry? && d[i].key == k)
    {
      if Stores(d[..i], k) {
        var l :| 0 <= l < i && d[..i][l].Entry? && d[..i][l].key == k;
        assert d[..i + 1][l] == d[..i][l];
      }
      if Stores(d[..i + 1], k) {
        var l :| 0 <= l < i + 1 && d[..i + 1][l].Entry? && d[..i + 1][l].key == k;
        if l < i {
          assert d[..i][l] == d[..i + 1][l];
        }
      }
      if d[i].Entry? {
        assert d[..i + 1][i] == d[i];
      }
    }
  }

  lemma PartWhole(d: seq<Entry>, m: map<Key, array<nat>>, base: map<Key, array<nat>>, part: map<Key, array<nat>>)
    requires Represents(d, m) && PartOf(d, |d|, m, base, part) && base.Keys !! m.Keys
    ensures part == base + m
  {
    assert d[..|d|] == d;
  }

  lemma PartStart(d: seq<Entry>, m: map<Key, array<nat>>, base: map<Key, array<nat>>)
    ensures PartOf(d, 0, m, base, base)
  {
  }

  /** Every entry of the old table is placed in the new one. */
  method MoveAll(data: array<Entry>, newdata: array<Entry>, ghost hash: Key -> nat,
                 ghost m: map<Key, array<nat>>, ghost base: map<Key, array<nat>>)
    requires data != newdata && base.Keys !! m.Keys
    requires data.Length > 0 ==> Table(data[..], hash)
    requires Represents(data[..], m)
    requires Table(newdata[..], hash) && Represents(newdata[..], base)
    requires Occupied(newdata[..]) + Occupied(data[..]) < newdata.Length
    modifies newdata
    ensures Table(newdata[..], hash) && Represents(newdata[..], base + m)
    ensures Occupied(newdata[..]) == old(Occupied(newdata[..])) + Occupied(data[..])
  {
    hide Table, Represents, Occupied, PartOf;
    ghost var d := data[..];
    ghost var part := base;
    PartStart(d, m, base);
    OccupiedStart(d);
    for i := 0 to data.Length
      invariant data[..] == d && Table(newdata[..], hash) && Represents(newdata[..], part) && PartOf(d, i, m, base, part)
      invariant Occupied(newdata[..]) == old(Occupied(newdata[..])) + Occupied(d[..i])
    {
      PartNext(d, hash, i, m, base, part);
      OccupiedNext(d, i);
      OccupiedPrefix(d, i + 1);
      part := Place(newdata, data[i], hash, part);
    }
    PartWhole(d, m, base, part);
    assert d[..|d|] == d;
  }

  lemma OccupiedStart(d: seq<Entry>)
    ensures Occupied(d[..0]) == 0
  {
  }

  lemma {:induction false} OccupiedPrefix(d: seq<Entry>, i: nat)
    requires i <= |d|
    ensures Occupied(d[..i]) <= Occupied(d)
    decreases |d|
  {
    if i < |d| {
      OccupiedPrefix(d[..|d| - 1], i);
      assert d[..|d| - 1][..i] == d[..i];
    } else {
      assert d[..i] == d;
    }
  }
}
