/** Sampling a function into caches, sequentially or split over threads, and reading the samples back
    (src/alg_reconstruction.cc:60-112, 236-276, src/graph.cc:1160-1305, bit arrays of
    include/fflow/common.hh:441-504). The evaluated graph is a function from a point, which ends with
    the modulus, to all outputs or to a failure; the threads' contexts make no difference to it. */
module Sampling {
  import opened Common
  import opened FFMod
  import opened FunctionCache

  const FAILED: nat := 0xffff_ffff_ffff_ffff

  type Words = seq<nat>

  type Evaluation = Key -> Option<seq<nat>>

  // ---- bit arrays ----

  /** Bit i of an array of 64-bit words. */
  predicate GetBit(data: Words, i: nat)
    requires i < 64 * |data|
  {
    data[i / 64] / Pow2(i % 64) % 2 == 1
  }

  /** The bits of word j below k, as powers of two. */
  function BitSum(data: Words, j: nat, k: nat): nat
    requires j < |data| && k <= 64
  {
    if k == 0 then 0 else BitSum(data, j, k - 1) + if GetBit(data, 64 * j + (k - 1)) then Pow2(k - 1) else 0
  }

  lemma {:induction false} BitSumIs(data: Words, j: nat, k: nat)
    requires j < |data| && k <= 64
    ensures BitSum(data, j, k) == data[j] % Pow2(k)
    decreases k
  {
    if k > 0 {
      BitSumIs(data, j, k - 1);
      BitPosition(j, k - 1);
      OneMoreBit(data[j], Pow2(k - 1));
    }
  }

  lemma BitPosition(j: nat, i: nat)
    requires i < 64
    ensures (64 * j + i) / 64 == j && (64 * j + i) % 64 == i
  {
  }

  lemma OneMoreBit(w: nat, t: nat)
    requires t > 0
    ensures w % (2 * t) == w % t + if w / t % 2 == 1 then t else 0
  {
    var q, r := w / t, w % t;
    var h, b := q / 2, q % 2;
    assert w == q * t + r && q == 2 * h + b;
    assert q * t == h * (2 * t) + b * t;
    QuotientUnique(w, 2 * t, h, b * t + r);
  }

  /** A 64-bit word is the sum of the powers of two of its set bits. */
  lemma WordIsBits(data: Words, j: nat)
    requires j < |data| && data[j] < Pow2(64)
    ensures BitSum(data, j, 64) == data[j]
  {
    BitSumIs(data, j, 64);
    QuotientUnique(data[j], Pow2(64), 0, data[j]);
  }

  function BitArraySize(size: nat): (n: nat)
    ensures size <= 64 * n < size + 64
  {
    size / 64 + if size % 64 != 0 then 1 else 0
  }

  /** The number of bits set below j. */
  function CountBits(data: Words, j: nat): (n: nat)
    requires j <= 64 * |data|
    ensures n <= j
  {
    if j == 0 then 0 else CountBits(data, j - 1) + if GetBit(data, j - 1) then 1 else 0
  }

  method BitArrayNonZeroes(data: Words, size: nat) returns (ret: nat)
    requires size <= 64 * |data|
    ensures ret == CountBits(data, size)
  {
    ret := 0;
    for i := 0 to size
      invariant ret == CountBits(data, i)
    {
      if GetBit(data, i) {
        ret := ret + 1;
      }
    }
  }

  lemma {:induction false} CountMonotone(data: Words, i: nat, j: nat)
    requires i <= j <= 64 * |data|
    ensures CountBits(data, i) <= CountBits(data, j)
    decreases j
  {
    hide GetBit;
    if i < j {
      CountMonotone(data, i, j - 1);
    }
  }

  // ---- one packed sample ----

  /** A point and the flags of the outputs needed there. */
  datatype Sample = Sample(point: Key, flags: Words)

  /** At least one of the outputs is needed: points without are dropped when they are generated. */
  predicate ValidSample(s: Sample, nparsout: nat) {
    |s.flags| == BitArraySize(nparsout) && CountBits(s.flags, nparsout) > 0
  }

  /** All outputs are residues, so none of them looks like a failure. */
  ghost predicate ValidEvaluation(f: Evaluation, nparsout: nat) {
    forall x: Key :: f(x).Some? ==> |f(x).value| == nparsout && forall j :: 0 <= j < nparsout ==> f(x).value[j] < FAILED
  }

  /** The flags, then the values of the needed outputs; only the failure mark if the evaluation failed. */
  ghost predicate Packed(buffer: seq<nat>, flags: Words, nparsout: nat, result: Option<seq<nat>>)
    requires |flags| == BitArraySize(nparsout)
    requires result.Some? ==> |result.value| == nparsout
  {
    var fs := |flags|;
    && |buffer| == fs + CountBits(flags, nparsout) && fs < |buffer|
    && match result
       case None => buffer[fs] == FAILED
       case Some(v) =>
         && buffer[..fs] == flags
         && forall j :: 0 <= j < nparsout && GetBit(flags, j) ==>
              CountBits(flags, j) < CountBits(flags, nparsout) && buffer[fs + CountBits(flags, j)] == v[j]
  }

  lemma CountNext(data: Words, j: nat)
    requires j < 64 * |data|
    ensures CountBits(data, j + 1) == CountBits(data, j) + if GetBit(data, j) then 1 else 0
  {
  }

  method Pack(flags: Words, nparsout: nat, result: Option<seq<nat>>, xout: array<nat>)
    requires |flags| == BitArraySize(nparsout) && CountBits(flags, nparsout) > 0
    requires result.Some? ==> |result.value| == nparsout
    requires xout.Length == |flags| + CountBits(flags, nparsout)
    modifies xout
    ensures Packed(xout[..], flags, nparsout, result)
  {
    hide GetBit, CountBits, BitArraySize;
    var fs := |flags|;
    if result.None? {
      xout[fs] := FAILED;
      return;
    }
    for i := 0 to fs
      invariant xout[..i] == flags[..i]
    {
      xout[i] := flags[i];
    }
    assert xout[..fs] == flags[..fs] == flags;
    PackValues(flags, nparsout, result.value, xout);
  }

  /** The needed values, packed behind the flags. */
  method PackValues(flags: Words, nparsout: nat, values: seq<nat>, xout: array<nat>)
    requires |flags| == BitArraySize(nparsout) && |values| == nparsout
    requires xout.Length == |flags| + CountBits(flags, nparsout) && xout[..|flags|] == flags
    modifies xout
    ensures xout[..|flags|] == flags
    ensures forall j :: 0 <= j < nparsout && GetBit(flags, j) ==>
      CountBits(flags, j) < CountBits(flags, nparsout) && xout[|flags| + CountBits(flags, j)] == values[j]
  {
    hide GetBit, CountBits, BitArraySize;
    var fs := |flags|;
    var xidx := fs;
    NoBits(flags);
    for j := 0 to nparsout
      invariant CountBits(flags, j) <= CountBits(flags, nparsout)
      invariant xidx == fs + CountBits(flags, j) && xout[..fs] == flags
      invariant forall l :: 0 <= l < j && GetBit(flags, l) ==>
        CountBits(flags, l) < CountBits(flags, j) && xout[fs + CountBits(flags, l)] == values[l]
    {
      CountMonotone(flags, j + 1, nparsout);
      CountNext(flags, j);
      if GetBit(flags, j) {
        xout[xidx] := values[j];
        xidx := xidx + 1;
        assert xout[..fs] == flags;
      }
    }
  }

  lemma NoBits(data: Words)
    ensures CountBits(data, 0) == 0
  {
  }

  /** Reading output idx back from a packed sample. */
  method Unpack(xout: array<nat>, idx: nat, nparsout: nat, ghost flags: Words, ghost result: Option<seq<nat>>)
    returns (value: nat)
    requires |flags| == BitArraySize(nparsout) && idx < nparsout && GetBit(flags, idx)
    requires result.Some? ==> |result.value| == nparsout && forall j :: 0 <= j < nparsout ==> result.value[j] < FAILED
    requires Packed(xout[..], flags, nparsout, result)
    ensures value == if result.None? then FAILED else result.value[idx]
  {
    hide GetBit, CountBits, BitArraySize;
    var fs := BitArraySize(nparsout);
    PackedFirst(xout[..], flags, nparsout, result);
    assert xout[fs] == xout[..][fs];
    if xout[fs] == FAILED {
      return FAILED;
    }
    var outIdx: nat := 0;
    var av := xout[..fs];
    assert av == xout[..][..fs] == flags;
    SizeOfBitArray(nparsout);
    NoBits(flags);
    for j := 0 to idx
      invariant outIdx == CountBits(flags, j)
    {
      CountNext(flags, j);
      if GetBit(av, j) {
        outIdx := outIdx + 1;
      }
    }
    value := xout[fs + outIdx];
    assert value == xout[..][fs + outIdx];
  }

  /** The first packed value is the failure mark exactly for a failure. */
  lemma PackedFirst(buffer: seq<nat>, flags: Words, nparsout: nat, result: Option<seq<nat>>)
    requires |flags| == BitArraySize(nparsout)
    requires result.Some? ==> |result.value| == nparsout && forall j :: 0 <= j < nparsout ==> result.value[j] < FAILED
    requires Packed(buffer, flags, nparsout, result)
    ensures buffer[|flags|] == FAILED <==> result.None?
  {
    if result.Some? {
      var j := FirstBit(flags, nparsout);
      assert buffer[|flags| + CountBits(flags, j)] == result.value[j];
    }
  }

  lemma {:induction false} FirstBit(flags: Words, n: nat) returns (j: nat)
    requires n <= 64 * |flags| && CountBits(flags, n) > 0
    ensures j < n && GetBit(flags, j) && CountBits(flags, j) == 0
    decreases n
  {
    if CountBits(flags, n - 1) > 0 {
      j := FirstBit(flags, n - 1);
    } else {
      j := n - 1;
    }
  }

  // ---- samples in a cache ----

  ghost predicate ValidSamples(samples: seq<Sample>, nparsout: nat) {
    && (forall i :: 0 <= i < |samples| ==> ValidSample(samples[i], nparsout))
    && forall i, j :: 0 <= i < j < |samples| ==> samples[i].point != samples[j].point
  }

  ghost function Points(samples: seq<Sample>): set<Key> {
    set i | 0 <= i < |samples| :: samples[i].point
  }

  /** The buffers of a cache. */
  ghost function Buffers(m: map<Key, array<nat>>): set<array<nat>> {
    m.Values
  }

  /** The buffer of a sample holds its packed evaluation. */
  ghost predicate SampleStored(m: map<Key, array<nat>>, s: Sample, f: Evaluation, nparsout: nat)
    reads if s.point in m then {m[s.point]} else {}
  {
    && s.point in m && |s.flags| == BitArraySize(nparsout)
    && (f(s.point).Some? ==> |f(s.point).value| == nparsout)
    && Packed(m[s.point][..], s.flags, nparsout, f(s.point))
  }

  lemma PointsNext(samples: seq<Sample>, i: nat, nparsout: nat)
    requires ValidSamples(samples, nparsout) && i < |samples|
    ensures Points(samples[..0]) == {} && Points(samples[..|samples|]) == Points(samples)
    ensures Points(samples[..i + 1]) == Points(samples[..i]) + {samples[i].point}
    ensures samples[i].point in Points(samples) && samples[i].point !in Points(samples[..i])
    ensures |samples[i].flags| == BitArraySize(nparsout) && CountBits(samples[i].flags, nparsout) > 0
  {
    var before, after := samples[..i], samples[..i + 1];
    forall x | x in Points(after)
      ensures x in Points(before) + {samples[i].point}
    {
      var l :| 0 <= l < |after| && after[l].point == x;
      if l < i {
        assert before[l] == after[l];
      }
    }
    forall x | x in Points(before)
      ensures x in Points(after)
    {
      var l :| 0 <= l < |before| && before[l].point == x;
      assert after[l] == before[l];
    }
    assert after[i] == samples[i];
    assert samples[..|samples|] == samples;
  }

  lemma NoPoints(samples: seq<Sample>)
    ensures Points(samples[..0]) == {} && Points(samples[..|samples|]) == Points(samples)
  {
    assert samples[..|samples|] == samples;
  }

  lemma StoredSame(m: map<Key, array<nat>>, m': map<Key, array<nat>>, s: Sample, f: Evaluation, nparsout: nat)
    requires SampleStored(m, s, f, nparsout) && s.point in m' && m'[s.point] == m[s.point]
    ensures SampleStored(m', s, f, nparsout)
  {
  }

  lemma StoredIntro(m: map<Key, array<nat>>, s: Sample, f: Evaluation, nparsout: nat)
    requires s.point in m && |s.flags| == BitArraySize(nparsout) && ValidEvaluation(f, nparsout)
    requires Packed(m[s.point][..], s.flags, nparsout, f(s.point))
    ensures SampleStored(m, s, f, nparsout)
  {
  }

  lemma ResultLength(f: Evaluation, nparsout: nat, x: Key)
    requires ValidEvaluation(f, nparsout)
    ensures f(x).Some? ==> |f(x).value| == nparsout && forall j :: 0 <= j < nparsout ==> f(x).value[j] < FAILED
  {
  }

  /** evaluate_and_sparse_cache_samples: one new entry for each sample. */
  method EvaluateAndSparseCacheSamples(samples: seq<Sample>, f: Evaluation, nparsout: nat, cache: UIntCache)
    requires cache.Valid() && ValidSamples(samples, nparsout) && ValidEvaluation(f, nparsout)
    requires Points(samples) !! cache.contents.Keys
    modifies cache, cache.data
    ensures cache.Valid() && cache.contents.Keys == old(cache.contents.Keys) + Points(samples)
    ensures cache.size == old(cache.size) + |samples|
    ensures forall k :: k in old(cache.contents) ==> cache.contents[k] == old(cache.contents[k])
    ensures forall i :: 0 <= i < |samples| ==> SampleStored(cache.contents, samples[i], f, nparsout)
    ensures forall k :: k in cache.contents && k !in old(cache.contents) ==> fresh(cache.contents[k])
    ensures samples != [] || old(cache.log2cap.Some?) ==> cache.log2cap.Some?
    ensures cache.data == old(cache.data) || fresh(cache.data)
  {
    hide *;
    NoPoints(samples);
    for i := 0 to |samples|
      invariant cache.Valid() && cache.size == old(cache.size) + i
      invariant cache.contents.Keys == old(cache.contents.Keys) + Points(samples[..i])
      invariant forall k :: k in old(cache.contents) ==> cache.contents[k] == old(cache.contents[k])
      invariant forall l :: 0 <= l < i ==> SampleStored(cache.contents, samples[l], f, nparsout)
      invariant forall k :: k in cache.contents && k !in old(cache.contents) ==> fresh(cache.contents[k])
      invariant i > 0 || old(cache.log2cap.Some?) ==> cache.log2cap.Some?
      invariant cache.data == old(cache.data) || fresh(cache.data)
    {
      PointsNext(samples, i, nparsout);
      AddSample(samples[i], samples[..i], f, nparsout, cache);
    }
  }

  /** One sample; those stored before stay as they are. */
  method AddSample(s: Sample, ghost before: seq<Sample>, f: Evaluation, nparsout: nat, cache: UIntCache)
    requires cache.Valid() && ValidEvaluation(f, nparsout) && s.point !in cache.contents
    requires |s.flags| == BitArraySize(nparsout) && CountBits(s.flags, nparsout) > 0
    requires forall l :: 0 <= l < |before| ==> SampleStored(cache.contents, before[l], f, nparsout)
    modifies cache, cache.data
    ensures cache.Valid() && cache.contents.Keys == old(cache.contents.Keys) + {s.point}
    ensures cache.size == old(cache.size) + 1 && cache.log2cap.Some?
    ensures forall k :: k in old(cache.contents) ==> cache.contents[k] == old(cache.contents[k])
    ensures forall l :: 0 <= l < |before| ==> SampleStored(cache.contents, before[l], f, nparsout)
    ensures SampleStored(cache.contents, s, f, nparsout) && fresh(cache.contents[s.point])
    ensures cache.data == old(cache.data) || fresh(cache.data)
  {
    hide *;
    ghost var m := cache.contents;
    ResultLength(f, nparsout, s.point);
    SizeOfBitArray(nparsout);
    var thisNout := BitArrayNonZeroes(s.flags, nparsout);
    var xout := cache.NewEntry(s.point, thisNout + BitArraySize(nparsout));
    Pack(s.flags, nparsout, f(s.point), xout);
    StoredIntro(cache.contents, s, f, nparsout);
    forall l | 0 <= l < |before|
      ensures SampleStored(cache.contents, before[l], f, nparsout)
    {
      StoredPoint(m, before[l], f, nparsout);
      StoredSame(m, cache.contents, before[l], f, nparsout);
    }
  }

  lemma SizeOfBitArray(n: nat)
    ensures n <= 64 * BitArraySize(n)
  {
  }

  lemma StoredPoint(m: map<Key, array<nat>>, s: Sample, f: Evaluation, nparsout: nat)
    requires SampleStored(m, s, f, nparsout)
    ensures s.point in m
  {
  }

  // ---- splitting the work ----

  /** The number of samples of thread i. */
  function ChunkSize(tot: nat, nthreads: nat, i: nat): nat
    requires i < nthreads
  {
    tot / nthreads + if i < tot % nthreads then 1 else 0
  }

  /** No thread has more than one sample more than another, and earlier ones have no less. */
  lemma ChunksBalanced(tot: nat, nthreads: nat, i: nat, j: nat)
    requires i < j < nthreads
    ensures ChunkSize(tot, nthreads, j) <= ChunkSize(tot, nthreads, i) <= ChunkSize(tot, nthreads, j) + 1
  {
  }

  /** Where the samples of thread i start. */
  function ChunkStart(tot: nat, nthreads: nat, i: nat): nat
    requires i <= nthreads && nthreads > 0
  {
    if i == 0 then 0 else ChunkStart(tot, nthreads, i - 1) + ChunkSize(tot, nthreads, i - 1)
  }

  lemma {:induction false} ChunkStartIs(tot: nat, nthreads: nat, i: nat)
    requires i <= nthreads && nthreads > 0
    ensures ChunkStart(tot, nthreads, i) == i * (tot / nthreads) + if i < tot % nthreads then i else tot % nthreads
    decreases i
  {
    if i > 0 {
      ChunkStartIs(tot, nthreads, i - 1);
      assert i * (tot / nthreads) == (i - 1) * (tot / nthreads) + tot / nthreads;
    }
  }

  /** The chunks tile the samples: each starts where the one before ends, and the last ends at the end. */
  lemma ChunksTile(tot: nat, nthreads: nat)
    requires nthreads > 0
    ensures ChunkStart(tot, nthreads, 0) == 0 && ChunkStart(tot, nthreads, nthreads) == tot
  {
    ChunkStartIs(tot, nthreads, nthreads);
  }

  lemma {:induction false} ChunkInside(tot: nat, nthreads: nat, i: nat)
    requires i <= nthreads && nthreads > 0
    ensures ChunkStart(tot, nthreads, i) <= tot
    decreases nthreads - i
  {
    ChunksTile(tot, nthreads);
    if i < nthreads {
      ChunkInside(tot, nthreads, i + 1);
    }
  }

  /** Every thread has work when there are no more threads than samples. */
  lemma ChunkNotEmpty(tot: nat, nthreads: nat, i: nat)
    requires i < nthreads <= tot
    ensures ChunkSize(tot, nthreads, i) > 0
  {
    var q, r := tot / nthreads, tot % nthreads;
    assert tot == q * nthreads + r;
    assert q == 0 ==> tot == r;
  }

  /** The samples of thread i. */
  function Chunk(samples: seq<Sample>, nthreads: nat, i: nat): (c: seq<Sample>)
    requires i < nthreads
    ensures |c| == ChunkSize(|samples|, nthreads, i)
  {
    ChunkInside(|samples|, nthreads, i + 1);
    samples[ChunkStart(|samples|, nthreads, i)..ChunkStart(|samples|, nthreads, i + 1)]
  }

  lemma {:induction false} ChunkOrder(tot: nat, nthreads: nat, i: nat, j: nat)
    requires i <= j <= nthreads && nthreads > 0
    ensures ChunkStart(tot, nthreads, i) <= ChunkStart(tot, nthreads, j)
    decreases j
  {
    if i < j {
      ChunkOrder(tot, nthreads, i, j - 1);
    }
  }

  lemma ChunkAt(samples: seq<Sample>, nthreads: nat, i: nat, l: nat)
    requires i < nthreads && l < |Chunk(samples, nthreads, i)|
    ensures var k := ChunkStart(|samples|, nthreads, i) + l;
      k < ChunkStart(|samples|, nthreads, i + 1) <= |samples| && Chunk(samples, nthreads, i)[l] == samples[k]
  {
    ChunkInside(|samples|, nthreads, i + 1);
  }

  lemma PointAt(samples: seq<Sample>, x: Key) returns (l: nat)
    requires x in Points(samples)
    ensures l < |samples| && samples[l].point == x
  {
    l :| 0 <= l < |samples| && samples[l].point == x;
  }

  lemma ChunkValid(samples: seq<Sample>, nthreads: nat, i: nat, nparsout: nat)
    requires i < nthreads && ValidSamples(samples, nparsout)
    ensures ValidSamples(Chunk(samples, nthreads, i), nparsout) && Points(Chunk(samples, nthreads, i)) <= Points(samples)
  {
    hide ChunkStart, Chunk, ValidSample;
    var c := Chunk(samples, nthreads, i);
    forall l | 0 <= l < |c|
      ensures c[l].point in Points(samples) && ValidSample(c[l], nparsout)
    {
      ChunkAt(samples, nthreads, i, l);
    }
    forall l, k | 0 <= l < k < |c|
      ensures c[l].point != c[k].point
    {
      ChunkAt(samples, nthreads, i, l);
      ChunkAt(samples, nthreads, i, k);
    }
  }

  lemma ChunksDisjoint(samples: seq<Sample>, nthreads: nat, i: nat, j: nat, nparsout: nat)
    requires i < j < nthreads && ValidSamples(samples, nparsout)
    ensures Points(Chunk(samples, nthreads, i)) !! Points(Chunk(samples, nthreads, j))
  {
    hide ChunkStart, Chunk, ValidSample, Points;
    ChunkOrder(|samples|, nthreads, i + 1, j);
    var c, d := Chunk(samples, nthreads, i), Chunk(samples, nthreads, j);
    forall x | x in Points(c) && x in Points(d)
      ensures false
    {
      var l := PointAt(c, x);
      var k := PointAt(d, x);
      ChunkAt(samples, nthreads, i, l);
      ChunkAt(samples, nthreads, j, k);
    }
  }

  /** Which thread gets sample k. */
  lemma {:induction false} ChunkOf(samples: seq<Sample>, nthreads: nat, k: nat, n: nat) returns (i: nat, l: nat)
    requires n <= nthreads && nthreads > 0 && k < ChunkStart(|samples|, nthreads, n) <= |samples|
    ensures i < n && l < |Chunk(samples, nthreads, i)| && Chunk(samples, nthreads, i)[l] == samples[k]
    decreases n
  {
    var a := ChunkStart(|samples|, nthreads, n - 1);
    if k < a {
      i, l := ChunkOf(samples, nthreads, k, n - 1);
    } else {
      i, l := n - 1, k - a;
    }
  }

  /** A cache that holds the evaluations of its chunk. */
  ghost predicate Done(c: UIntCache, chunk: seq<Sample>, hash: Key -> nat, f: Evaluation, nparsout: nat)
    reads c, c.data, c.contents.Values
  {
    && c.Valid() && c.log2cap.Some? && c.hash == hash && c.size == |chunk| && c.contents.Keys == Points(chunk)
    && forall i :: 0 <= i < |chunk| ==> SampleStored(c.contents, chunk[i], f, nparsout)
  }

  /** A cache with reserved room and no entries. */
  ghost predicate Ready(c: UIntCache, hash: Key -> nat)
    reads c, c.data
  {
    c.Valid() && c.log2cap.Some? && c.hash == hash && c.size == 0 && c.contents == map[]
  }

  ghost predicate Separate(caches: seq<UIntCache>)
    reads set c | c in caches
  {
    forall i, j :: 0 <= i < j < |caches| ==> caches[i] != caches[j] && caches[i].data != caches[j].data
  }

  /** One cache for each thread. */
  method InitCaches(tot: nat, nthreads: nat, nparsin: nat, hash: Key -> nat) returns (caches: seq<UIntCache>)
    requires nthreads <= tot && 2 * (tot + 1) <= 0x8000_0000
    ensures |caches| == nthreads && Separate(caches)
    ensures forall i :: 0 <= i < nthreads ==> Ready(caches[i], hash) && fresh(caches[i]) && fresh(caches[i].data)
  {
    caches := [];
    for i := 0 to nthreads
      invariant |caches| == i && Separate(caches)
      invariant forall l :: 0 <= l < i ==> Ready(caches[l], hash) && fresh(caches[l]) && fresh(caches[l].data)
    {
      ChunkNotEmpty(tot, nthreads, i);
      ChunkInside(tot, nthreads, i + 1);
      var c := NewCache(nparsin, hash, ChunkSize(tot, nthreads, i));
      caches := caches + [c];
    }
  }

  method NewCache(nparsin: nat, hash: Key -> nat, n: nat) returns (c: UIntCache)
    requires n > 0 && 2 * (n + 1) <= 0x8000_0000
    ensures Ready(c, hash) && fresh(c) && fresh(c.data)
  {
    c := new UIntCache(nparsin + 1, hash);
    c.ReserveMore(n);
    EmptyHasNoSize(c);
  }

  lemma EmptyHasNoSize(c: UIntCache)
    requires c.Valid() && c.contents == map[]
    ensures c.size == 0
  {
    if c.log2cap.Some? {
      forall i | 0 <= i < c.data.Length
        ensures c.data[i].Empty?
      {
        assert c.data[i] == c.data[..][i];
      }
      OccupiedNone(c.data[..]);
    }
  }

  /** Thread i evaluates its chunk into its own cache. */
  method RunThread(samples: seq<Sample>, f: Evaluation, nparsout: nat, nthreads: nat, i: nat, start: nat,
                   caches: seq<UIntCache>, ghost hash: Key -> nat)
    requires i < nthreads == |caches| && start == ChunkStart(|samples|, nthreads, i)
    requires ValidSamples(samples, nparsout) && ValidEvaluation(f, nparsout)
    requires Separate(caches) && forall l :: i <= l < nthreads ==> Ready(caches[l], hash)
    requires forall l :: 0 <= l < i ==> Done(caches[l], Chunk(samples, nthreads, l), hash, f, nparsout)
    modifies caches[i], caches[i].data
    ensures Separate(caches) && (caches[i].data == old(caches[i].data) || fresh(caches[i].data))
    ensures forall l :: i < l < nthreads ==> Ready(caches[l], hash)
    ensures forall l :: 0 <= l < i + 1 ==> Done(caches[l], Chunk(samples, nthreads, l), hash, f, nparsout)
  {
    hide ValidSamples, ValidEvaluation, ChunkStart, SampleStored, UIntCache.Valid;
    ChunkValid(samples, nthreads, i, nparsout);
    ChunkSplit(samples, nthreads, i);
    var n := ChunkSize(|samples|, nthreads, i);
    EvaluateAndSparseCacheSamples(samples[start..start + n], f, nparsout, caches[i]);
  }

  lemma ChunkSplit(samples: seq<Sample>, nthreads: nat, i: nat)
    requires i < nthreads
    ensures var start := ChunkStart(|samples|, nthreads, i); var n := ChunkSize(|samples|, nthreads, i);
      start + n == ChunkStart(|samples|, nthreads, i + 1) <= |samples| && samples[start..start + n] == Chunk(samples, nthreads, i)
  {
    ChunkInside(|samples|, nthreads, i + 1);
  }

  /** The union of disjoint maps holds the entries of each. */
  lemma {:induction false} UnionHolds(ms: seq<map<Key, array<nat>>>)
    requires forall i, j :: 0 <= i < j < |ms| ==> ms[i].Keys !! ms[j].Keys
    ensures forall i, k :: 0 <= i < |ms| && k in ms[i] ==> k in Union(ms) && Union(ms)[k] == ms[i][k]
    ensures forall k :: k in Union(ms) ==> exists i :: 0 <= i < |ms| && k in ms[i]
    decreases |ms|
  {
    if ms != [] {
      var init := ms[..|ms| - 1];
      UnionHolds(init);
      forall i, k | 0 <= i < |ms| && k in ms[i]
        ensures k in Union(ms) && Union(ms)[k] == ms[i][k]
      {
        if i < |init| {
          assert init[i] == ms[i];
        }
      }
      forall k | k in Union(ms)
        ensures exists i :: 0 <= i < |ms| && k in ms[i]
      {
        if k !in ms[|ms| - 1] {
          assert k in Union(init);
          var i :| 0 <= i < |init| && k in init[i];
          assert k in ms[i];
        }
      }
    }
  }

  /** The caches of all threads together hold exactly the samples. */
  lemma AllDone(samples: seq<Sample>, f: Evaluation, nparsout: nat, nthreads: nat, caches: seq<UIntCache>, hash: Key -> nat)
    requires 0 < nthreads == |caches| && ValidSamples(samples, nparsout)
    requires forall l :: 0 <= l < nthreads ==> Done(caches[l], Chunk(samples, nthreads, l), hash, f, nparsout)
    ensures var ms := Stored(caches);
      && (forall i, j :: 0 <= i < j < nthreads ==> ms[i].Keys !! ms[j].Keys)
      && Union(ms).Keys == Points(samples)
      && forall k :: 0 <= k < |samples| ==> SampleStored(Union(ms), samples[k], f, nparsout)
  {
    hide ChunkStart, Chunk, ValidSample, Points, SampleStored, UIntCache.Valid, Union;
    var ms := Stored(caches);
    forall i, j | 0 <= i < j < nthreads
      ensures ms[i].Keys !! ms[j].Keys
    {
      ChunksDisjoint(samples, nthreads, i, j, nparsout);
    }
    UnionHolds(ms);
    forall x | x in Union(ms)
      ensures x in Points(samples)
    {
      var i :| 0 <= i < |ms| && x in ms[i];
      ChunkValid(samples, nthreads, i, nparsout);
    }
    ChunksTile(|samples|, nthreads);
    forall k | 0 <= k < |samples|
      ensures SampleStored(Union(ms), samples[k], f, nparsout)
    {
      var i, l := ChunkOf(samples, nthreads, k, nthreads);
      StoredPoint(ms[i], samples[k], f, nparsout);
      StoredSame(ms[i], Union(ms), samples[k], f, nparsout);
    }
    forall x | x in Points(samples)
      ensures x in Union(ms)
    {
      var k := PointAt(samples, x);
      StoredPoint(Union(ms), samples[k], f, nparsout);
    }
  }

  /** The sizes of the chunks add up to the number of samples. */
  lemma {:induction false} SizesAddUp(tot: nat, nthreads: nat, sizes: seq<nat>, i: nat)
    requires nthreads > 0 && i <= nthreads == |sizes|
    requires forall l :: 0 <= l < nthreads ==> sizes[l] == ChunkSize(tot, nthreads, l)
    ensures Sum(sizes[..i]) == ChunkStart(tot, nthreads, i)
    decreases i
  {
    if i > 0 {
      SizesAddUp(tot, nthreads, sizes, i - 1);
      SumNext(sizes, i - 1);
    }
  }

  /** Sampling with any number of threads: the cache receives exactly the samples, each with the packed
      evaluation of its point. */
  method ParallelSample(samples: seq<Sample>, f: Evaluation, nparsin: nat, nparsout: nat, threads: nat, cache: UIntCache)
    requires cache.Valid() && ValidSamples(samples, nparsout) && ValidEvaluation(f, nparsout)
    requires Points(samples) !! cache.contents.Keys && 2 * (cache.size + |samples| + 1) <= 0x8000_0000 && threads > 0
    modifies cache, cache.data
    ensures cache.Valid() && cache.contents.Keys == old(cache.contents.Keys) + Points(samples)
    ensures forall k :: k in old(cache.contents) ==> cache.contents[k] == old(cache.contents[k])
    ensures forall i :: 0 <= i < |samples| ==> SampleStored(cache.contents, samples[i], f, nparsout)
  {
    hide *;
    var tot := |samples|;
    var nthreads := if threads < tot then threads else tot;
    if nthreads == 0 {
      NoPoints(samples);
      assert samples[..0] == samples;
      MergeNothing(cache);
      return;
    }
    var caches := InitCaches(tot, nthreads, nparsin, cache.hash);
    var start: nat := 0;
    StartAtZero(tot, nthreads);
    for i := 0 to nthreads
      invariant start == ChunkStart(tot, nthreads, i) && Separate(caches)
      invariant unchanged(cache) && unchanged(cache.data)
      invariant forall l :: 0 <= l < nthreads ==> fresh(caches[l]) && fresh(caches[l].data)
      invariant forall l :: i <= l < nthreads ==> Ready(caches[l], cache.hash)
      invariant forall l :: 0 <= l < i ==> Done(caches[l], Chunk(samples, nthreads, l), cache.hash, f, nparsout)
    {
      ChunkSplit(samples, nthreads, i);
      RunThread(samples, f, nparsout, nthreads, i, start, caches, cache.hash);
      start := start + ChunkSize(tot, nthreads, i);
    }
    MergeDone(samples, f, nparsout, nthreads, caches, cache);
  }

  /** Without threads the merge only makes sure that the cache has a table. */
  method MergeNothing(cache: UIntCache)
    requires cache.Valid() && 2 * (cache.size + 1) <= 0x8000_0000
    modifies cache, cache.data
    ensures cache.Valid() && cache.contents == old(cache.contents)
  {
    hide UIntCache.Valid;
    var none: seq<UIntCache> := [];
    assert Sizes(none) == [] && Stored(none) == [];
    cache.MergeCaches(none);
  }

  lemma StartAtZero(tot: nat, nthreads: nat)
    requires nthreads > 0
    ensures ChunkStart(tot, nthreads, 0) == 0
  {
  }

  method MergeDone(samples: seq<Sample>, f: Evaluation, nparsout: nat, nthreads: nat, caches: seq<UIntCache>, cache: UIntCache)
    requires cache.Valid() && ValidSamples(samples, nparsout) && 0 < nthreads == |caches| && Separate(caches)
    requires forall l :: 0 <= l < nthreads ==> Done(caches[l], Chunk(samples, nthreads, l), cache.hash, f, nparsout)
    requires forall l :: 0 <= l < nthreads ==> caches[l] != cache && caches[l].data != cache.data
    requires Points(samples) !! cache.contents.Keys && 2 * (cache.size + |samples| + 1) <= 0x8000_0000
    modifies cache, cache.data, set c | c in caches
    ensures cache.Valid() && cache.contents.Keys == old(cache.contents.Keys) + Points(samples)
    ensures forall k :: k in old(cache.contents) ==> cache.contents[k] == old(cache.contents[k])
    ensures forall i :: 0 <= i < |samples| ==> SampleStored(cache.contents, samples[i], f, nparsout)
  {
    hide UIntCache.Valid, Points, Chunk, ValidSamples, Union, Sum, UIntCache.Mergeable, Packed;
    ghost var all := Union(Stored(caches));
    AllDone(samples, f, nparsout, nthreads, caches, cache.hash);
    ReadyToMerge(samples, f, nparsout, nthreads, caches, cache);
    assert allocated(all);
    label before:
    cache.MergeCaches(caches);
    assert forall i :: 0 <= i < |samples| ==> old@before(SampleStored(all, samples[i], f, nparsout));
    assert forall i :: 0 <= i < |samples| ==> unchanged@before(all[samples[i].point]);
    MergedStored(samples, f, nparsout, all, cache.contents);
  }

  lemma ReadyToMerge(samples: seq<Sample>, f: Evaluation, nparsout: nat, nthreads: nat, caches: seq<UIntCache>, cache: UIntCache)
    requires ValidSamples(samples, nparsout) && 0 < nthreads == |caches| && Separate(caches)
    requires forall l :: 0 <= l < nthreads ==> Done(caches[l], Chunk(samples, nthreads, l), cache.hash, f, nparsout)
    requires forall l :: 0 <= l < nthreads ==> caches[l] != cache && caches[l].data != cache.data
    requires Points(samples) !! cache.contents.Keys
    ensures cache.Mergeable(caches) && Sum(Sizes(caches)) == |samples|
  {
    hide UIntCache.Valid, Points, Chunk, SampleStored, ValidSamples, Sum;
    var sizes := Sizes(caches);
    SizesAddUp(|samples|, nthreads, sizes, nthreads);
    ChunksTile(|samples|, nthreads);
    assert sizes[..nthreads] == sizes;
    forall i | 0 <= i < nthreads
      ensures caches[i].contents.Keys !! cache.contents.Keys
    {
      ChunkValid(samples, nthreads, i, nparsout);
    }
    forall i, j | 0 <= i < j < nthreads
      ensures caches[i].contents.Keys !! caches[j].contents.Keys
    {
      ChunksDisjoint(samples, nthreads, i, j, nparsout);
    }
  }

  lemma MergedStored(samples: seq<Sample>, f: Evaluation, nparsout: nat, all: map<Key, array<nat>>, m: map<Key, array<nat>>)
    requires forall k :: k in all ==> k in m && m[k] == all[k]
    requires forall i :: 0 <= i < |samples| ==> SampleStored(all, samples[i], f, nparsout)
    ensures forall i :: 0 <= i < |samples| ==> SampleStored(m, samples[i], f, nparsout)
  {
    hide SampleStored;
    forall i | 0 <= i < |samples|
      ensures SampleStored(m, samples[i], f, nparsout)
    {
      StoredPoint(all, samples[i], f, nparsout);
      StoredSame(all, m, samples[i], f, nparsout);
    }
  }

  // ---- reading samples ----

  /** One output of the sampled function, looked up in the cache (SparselySampledRatFun). */
  class SparselySampledRatFun {
    const samples: UIntCache
    const idx: nat
    const nparsout: nat
    var missingMods: seq<nat>

    constructor (samples: UIntCache, idx: nat, nparsout: nat)
      ensures this.samples == samples && this.idx == idx && this.nparsout == nparsout && missingMods == []
    {
      this.samples, this.idx, this.nparsout, missingMods := samples, idx, nparsout, [];
    }

    /** The value the function had at x modulo p, or FAILED; a missing point is noted under its prime.
        A sample of the point is only looked at if it has the flag of this output. */
    method Evaluate(x: seq<nat>, p: nat, ghost f: Evaluation, ghost s: Option<Sample>) returns (value: nat)
      requires samples.Valid() && ValidEvaluation(f, nparsout) && idx < nparsout
      requires match s
        case None => x + [p] !in samples.contents
        case Some(s) => s.point == x + [p] && SampleStored(samples.contents, s, f, nparsout) && GetBit(s.flags, idx)
      modifies this
      ensures s.Some? && f(x + [p]).Some? ==> value == f(x + [p]).value[idx] && value != FAILED
      ensures s.Some? && f(x + [p]).None? ==> value == FAILED
      ensures s.Some? ==> missingMods == old(missingMods)
      ensures s.None? ==> value == FAILED
      ensures s.None? ==> missingMods == old(missingMods) + if p in old(missingMods) then [] else [p]
    {
      hide GetBit, CountBits, UIntCache.Valid;
      var xout := samples.Find(x + [p]);
      if xout.None? {
        if p !in missingMods {
          missingMods := missingMods + [p];
        }
        return FAILED;
      }
      value := Unpack(xout.value, idx, nparsout, s.value.flags, f(x + [p]));
    }
  }
}
