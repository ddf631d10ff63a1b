/** Sparse rows: strictly column-sorted lists of non-zero entries, and r1 - r1[pivot] * r2
    (SparseMatrixRow, include/fflow/matrix.hh:354-607, src/matrix.cc:175-276). */
module SparseRow {
  import opened ModArith

  /** One entry of a row. */
  datatype Cell = Cell(col: nat, val: int)

  type Cells = seq<Cell>

  predicate Sorted(r: Cells) {
    forall i, j :: 0 <= i < j < |r| ==> r[i].col < r[j].col
  }

  /** Columns below m in increasing order, entries non-zero mod p. */
  predicate WellFormed(r: Cells, m: nat, p: int) {
    Sorted(r) && forall i :: 0 <= i < |r| ==> r[i].col < m && 0 < r[i].val < p
  }

  /** The entry in column c, 0 when there is none. */
  function Coef(r: Cells, c: nat): int {
    if r == [] then 0 else if r[0].col == c then r[0].val else Coef(r[1..], c)
  }

  predicate HasCol(r: Cells, c: nat) {
    exists i :: 0 <= i < |r| && r[i].col == c
  }

  /** a - b * f mod p, as `sub_mod(a, mul_mod(b, f))`; with a == 0 it is `neg_mod(mul_mod(b, f))`. */
  function DiffTerm(a: int, b: int, f: int, p: int): int
    requires p > 0
  {
    (a - b * f % p) % p
  }

  /** a - f * b, both lists walked in parallel (the loop of gauss_elimination_impl). */
  function Merge(a: Cells, b: Cells, f: int, p: int): Cells
    requires p > 0
    decreases |a| + |b|
  {
    if a == [] && b == [] then []
    else if b == [] || (a != [] && a[0].col < b[0].col) then
      [a[0]] + Merge(a[1..], b, f, p)
    else if a == [] || b[0].col < a[0].col then
      [Cell(b[0].col, DiffTerm(0, b[0].val, f, p))] + Merge(a, b[1..], f, p)
    else
      var res := DiffTerm(a[0].val, b[0].val, f, p);
      (if res != 0 then [Cell(a[0].col, res)] else []) + Merge(a[1..], b[1..], f, p)
  }

  /** The first position from i on whose column is at least c. */
  function Position(r: Cells, c: nat, i: nat): (k: nat)
    requires i <= |r|
    ensures i <= k <= |r|
    ensures forall l :: i <= l < k ==> r[l].col < c
    ensures k < |r| ==> r[k].col >= c
    decreases |r| - i
  {
    if i == |r| || r[i].col >= c then i else Position(r, c, i + 1)
  }

  lemma PositionOf(r: Cells, c: nat)
    requires Sorted(r) && HasCol(r, c)
    ensures Position(r, c, 0) < |r| && r[Position(r, c, 0)].col == c
  {
  }

  /** r1 - r1[pivot] * r2, where r2 starts at pivot with value 1. */
  function Eliminate(r1: Cells, r2: Cells, pivot: nat, p: int): Cells
    requires p > 0 && HasCol(r1, pivot) && Sorted(r1) && |r2| > 0
  {
    PositionOf(r1, pivot);
    var k := Position(r1, pivot, 0);
    r1[..k] + Merge(r1[k + 1..], r2[1..], r1[k].val, p)
  }

  // ---- entries ----

  lemma {:induction false} CoefAt(r: Cells, i: nat)
    requires Sorted(r) && i < |r|
    ensures Coef(r, r[i].col) == r[i].val
    decreases |r|
  {
    if i > 0 {
      CoefAt(r[1..], i - 1);
    }
  }

  lemma {:induction false} CoefMissing(r: Cells, c: nat)
    ensures !HasCol(r, c) ==> Coef(r, c) == 0
    ensures Coef(r, c) != 0 ==> HasCol(r, c)
    decreases |r|
  {
    if r != [] {
      CoefMissing(r[1..], c);
      if HasCol(r[1..], c) {
        var i :| 0 <= i < |r[1..]| && r[1..][i].col == c;
        assert r[i + 1].col == c;
      }
      if r[0].col == c {
        assert HasCol(r, c);
      }
    }
  }

  lemma {:induction false} CoefConcat(a: Cells, b: Cells, c: nat)
    ensures Coef(a + b, c) == if HasCol(a, c) then Coef(a, c) else Coef(b, c)
    decreases |a|
  {
    if a == [] {
      assert a + b == b;
    } else {
      CoefConcat(a[1..], b, c);
      assert (a + b)[1..] == a[1..] + b;
      if HasCol(a, c) && a[0].col != c {
        var i :| 0 <= i < |a| && a[i].col == c;
        assert a[1..][i - 1].col == c;
      }
      if HasCol(a[1..], c) {
        var i :| 0 <= i < |a[1..]| && a[1..][i].col == c;
        assert a[i + 1].col == c;
      }
    }
  }

  /** The entries of a well-formed row lie in [0, p). */
  lemma CoefRange(r: Cells, c: nat, m: nat, p: int)
    requires WellFormed(r, m, p) && p > 0
    ensures 0 <= Coef(r, c) < p
    ensures Coef(r, c) != 0 <==> HasCol(r, c)
  {
  }

  /** Well-formed rows are determined by their entries. */
  lemma {:induction false} SameEntries(a: Cells, b: Cells, m: nat, p: int)
    requires WellFormed(a, m, p) && WellFormed(b, m, p) && p > 0
    requires forall c: nat :: Coef(a, c) == Coef(b, c)
    ensures a == b
    decreases |a|
  {
    if a == [] || b == [] {
      if a != [] {
        CoefAt(a, 0);
      }
      if b != [] {
        CoefAt(b, 0);
      }
    } else {
      HeadAgrees(a, b, m, p);
      HeadAgrees(b, a, m, p);
      CoefAt(a, 0);
      CoefAt(b, 0);
      forall c: nat
        ensures Coef(a[1..], c) == Coef(b[1..], c)
      {
        assert Coef(a, c) == Coef(b, c);
        if c == a[0].col {
          NoSmaller(a[1..], c);
          NoSmaller(b[1..], c);
        }
      }
      SameEntries(a[1..], b[1..], m, p);
    }
  }

  lemma HeadAgrees(a: Cells, b: Cells, m: nat, p: int)
    requires WellFormed(a, m, p) && WellFormed(b, m, p) && p > 0 && a != [] && b != []
    requires forall c: nat :: Coef(a, c) == Coef(b, c)
    ensures b[0].col <= a[0].col
  {
    CoefAt(a, 0);
    assert Coef(b, a[0].col) == a[0].val;
    CoefMissing(b, a[0].col);
  }

  lemma NoSmaller(r: Cells, c: nat)
    requires forall i :: 0 <= i < |r| ==> r[i].col > c
    ensures Coef(r, c) == 0
  {
  }

  // ---- the entries of a merge ----

  lemma CoefCons(x: Cell, r: Cells, c: nat)
    ensures Coef([x] + r, c) == if x.col == c then x.val else Coef(r, c)
  {
  }

  lemma DiffTermValue(a: int, b: int, f: int, p: int)
    requires p > 0
    ensures DiffTerm(a, b, f, p) == (a - b * f) % p && 0 <= DiffTerm(a, b, f, p) < p
  {
    CongRefl(a, p);
    CongMod(b * f, p);
    CongSub(a, a, b * f % p, b * f, p);
    CongModEq(a - b * f % p, a - b * f, p);
    CongMod(a - b * f, p);
  }

  /** b * f is not 0 mod the prime p when neither factor is. */
  lemma DiffTermNonZero(b: int, f: int, p: int)
    requires IsPrime(p) && 0 < b < p && 0 < f < p
    ensures DiffTerm(0, b, f, p) != 0
  {
    DiffTermValue(0, b, f, p);
    if (0 - b * f) % p == 0 {
      CongMod(0 - b * f, p);
      CongSym(0, 0 - b * f, p);
      var k := CongElim(0 - b * f, 0, p);
      CongIntro(b * f, 0, -k, p);
      EuclidPrime(b, f, p);
      if Cong(b, 0, p) {
        CongUnique(b, 0, p);
      } else {
        CongUnique(f, 0, p);
      }
      assert false;
    }
  }

  predicate ColsFrom(r: Cells, lo: nat) {
    forall i :: 0 <= i < |r| ==> r[i].col >= lo
  }

  lemma ConsWellFormed(x: Cell, r: Cells, m: nat, p: int, lo: nat)
    requires WellFormed(r, m, p) && ColsFrom(r, x.col + 1) && lo <= x.col < m && 0 < x.val < p
    ensures WellFormed([x] + r, m, p) && ColsFrom([x] + r, lo)
  {
  }

  lemma TailWellFormed(r: Cells, m: nat, p: int, lo: nat)
    requires WellFormed(r, m, p) && ColsFrom(r, lo) && r != []
    ensures WellFormed(r[1..], m, p) && ColsFrom(r[1..], r[0].col + 1)
    ensures lo <= r[0].col < m && 0 < r[0].val < p
  {
  }

  lemma HeadBound(r: Cells, m: nat, p: int, k: nat)
    requires WellFormed(r, m, p) && (r == [] || k <= r[0].col)
    ensures ColsFrom(r, k)
  {
  }

  /** Merging keeps the columns sorted and the entries non-zero. */
  lemma {:induction false} MergeWellFormed(a: Cells, b: Cells, f: int, m: nat, p: int, lo: nat)
    requires IsPrime(p) && 0 < f < p && WellFormed(a, m, p) && WellFormed(b, m, p)
    requires ColsFrom(a, lo) && ColsFrom(b, lo)
    ensures WellFormed(Merge(a, b, f, p), m, p) && ColsFrom(Merge(a, b, f, p), lo)
    decreases |a| + |b|
  {
    hide DiffTerm, IsPrime, WellFormed, ColsFrom;
    if a != [] {
      TailWellFormed(a, m, p, lo);
    }
    if b != [] {
      TailWellFormed(b, m, p, lo);
    }
    if a == [] && b == [] {
    } else if b == [] || (a != [] && a[0].col < b[0].col) {
      HeadBound(b, m, p, a[0].col + 1);
      MergeWellFormed(a[1..], b, f, m, p, a[0].col + 1);
      ConsWellFormed(a[0], Merge(a[1..], b, f, p), m, p, lo);
    } else if a == [] || b[0].col < a[0].col {
      HeadBound(a, m, p, b[0].col + 1);
      MergeWellFormed(a, b[1..], f, m, p, b[0].col + 1);
      DiffTermNonZero(b[0].val, f, p);
      DiffTermValue(0, b[0].val, f, p);
      ConsWellFormed(Cell(b[0].col, DiffTerm(0, b[0].val, f, p)), Merge(a, b[1..], f, p), m, p, lo);
    } else {
      MergeWellFormed(a[1..], b[1..], f, m, p, a[0].col + 1);
      DiffTermValue(a[0].val, b[0].val, f, p);
      var res, rest := DiffTerm(a[0].val, b[0].val, f, p), Merge(a[1..], b[1..], f, p);
      if res != 0 {
        ConsWellFormed(Cell(a[0].col, res), rest, m, p, lo);
      } else {
        LowerBound(rest, a[0].col + 1, lo);
        assert [] + rest == rest;
      }
    }
  }

  lemma LowerBound(r: Cells, k: nat, lo: nat)
    requires ColsFrom(r, k) && lo <= k
    ensures ColsFrom(r, lo)
  {
  }

  /** Each entry of the merge is a[c] - b[c] * f mod p. */
  lemma {:induction false} MergeCoef(a: Cells, b: Cells, f: int, m: nat, p: int, c: nat)
    requires IsPrime(p) && 0 < f < p && WellFormed(a, m, p) && WellFormed(b, m, p)
    ensures Coef(Merge(a, b, f, p), c) == DiffTerm(Coef(a, c), Coef(b, c), f, p)
    decreases |a| + |b|
  {
    hide DiffTerm, IsPrime;
    if a != [] {
      TailWellFormed(a, m, p, 0);
    }
    if b != [] {
      TailWellFormed(b, m, p, 0);
    }
    if a == [] && b == [] {
      SmallResidue(0, f, p);
    } else if b == [] || (a != [] && a[0].col < b[0].col) {
      MergeCoef(a[1..], b, f, m, p, c);
      CoefCons(a[0], Merge(a[1..], b, f, p), c);
      if a[0].col == c {
        NoSmaller(b, c);
        SmallResidue(a[0].val, f, p);
      }
    } else if a == [] || b[0].col < a[0].col {
      MergeCoef(a, b[1..], f, m, p, c);
      CoefCons(Cell(b[0].col, DiffTerm(0, b[0].val, f, p)), Merge(a, b[1..], f, p), c);
      if b[0].col == c {
        NoSmaller(a, c);
      }
    } else {
      MergeCoef(a[1..], b[1..], f, m, p, c);
      var res, rest := DiffTerm(a[0].val, b[0].val, f, p), Merge(a[1..], b[1..], f, p);
      CoefCons(Cell(a[0].col, res), rest, c);
      if a[0].col == c && res == 0 {
        MergeWellFormed(a[1..], b[1..], f, m, p, c + 1);
        NoSmaller(rest, c);
      }
      assert [] + rest == rest;
    }
  }

  lemma SmallResidue(x: int, f: int, p: int)
    requires 0 <= x < p
    ensures DiffTerm(x, 0, f, p) == x
  {
  }

  // ---- elimination ----

  /** The parts of r before and after position k. */
  lemma SplitWellFormed(r: Cells, k: nat, m: nat, p: int)
    requires WellFormed(r, m, p) && k < |r|
    ensures WellFormed(r[..k], m, p) && WellFormed(r[k + 1..], m, p) && ColsFrom(r[k + 1..], r[k].col + 1)
    ensures r == r[..k] + ([r[k]] + r[k + 1..]) && forall i :: 0 <= i < k ==> r[i].col < r[k].col
    ensures 0 < r[k].val < p
  {
  }

  lemma AppendWellFormed(a: Cells, b: Cells, m: nat, p: int, c: nat)
    requires WellFormed(a, m, p) && WellFormed(b, m, p)
    requires (forall i :: 0 <= i < |a| ==> a[i].col < c) && ColsFrom(b, c + 1)
    ensures WellFormed(a + b, m, p)
  {
  }

  /** r2 starts at column c with value 1. */
  predicate StartsWithOne(r2: Cells, c: nat) {
    |r2| > 0 && r2[0] == Cell(c, 1)
  }

  lemma EliminateAt(r1: Cells, r2: Cells, pivot: nat, p: int) returns (k: nat)
    requires p > 0 && HasCol(r1, pivot) && Sorted(r1) && |r2| > 0
    ensures k < |r1| && r1[k].col == pivot
    ensures Eliminate(r1, r2, pivot, p) == r1[..k] + Merge(r1[k + 1..], r2[1..], r1[k].val, p)
  {
    hide Merge;
    PositionOf(r1, pivot);
    k := Position(r1, pivot, 0);
  }

  lemma EliminateParts(r1: Cells, r2: Cells, pivot: nat, m: nat, p: int) returns (k: nat, a: Cells, b: Cells)
    requires IsPrime(p) && WellFormed(r1, m, p) && WellFormed(r2, m, p)
    requires HasCol(r1, pivot) && StartsWithOne(r2, pivot)
    ensures k < |r1| && r1[k].col == pivot && a == r1[k + 1..] && b == r2[1..] && 0 < r1[k].val < p
    ensures r1 == r1[..k] + ([r1[k]] + a) && r2 == [Cell(pivot, 1)] + b
    ensures forall i :: 0 <= i < k ==> r1[i].col < pivot
    ensures WellFormed(r1[..k], m, p) && WellFormed(a, m, p) && WellFormed(b, m, p)
    ensures ColsFrom(a, pivot + 1) && ColsFrom(b, pivot + 1)
    ensures Eliminate(r1, r2, pivot, p) == r1[..k] + Merge(a, b, r1[k].val, p)
  {
    PositionOf(r1, pivot);
    assert |r2| > 0 && r2[0] == Cell(pivot, 1);
    k := EliminateAt(r1, r2, pivot, p);
    hide *;
    a, b := r1[k + 1..], r2[1..];
    SplitWellFormed(r1, k, m, p);
    SplitWellFormed(r2, 0, m, p);
  }

  lemma EliminateWellFormed(r1: Cells, r2: Cells, pivot: nat, m: nat, p: int)
    requires IsPrime(p) && WellFormed(r1, m, p) && WellFormed(r2, m, p)
    requires HasCol(r1, pivot) && StartsWithOne(r2, pivot)
    ensures WellFormed(Eliminate(r1, r2, pivot, p), m, p)
  {
    var k, a, b := EliminateParts(r1, r2, pivot, m, p);
    MergeWellFormed(a, b, r1[k].val, m, p, pivot + 1);
    AppendWellFormed(r1[..k], Merge(a, b, r1[k].val, p), m, p, pivot);
  }

  /** The result is r1 - r1[pivot] * r2, entry by entry. */
  lemma EliminateCoef(r1: Cells, r2: Cells, pivot: nat, m: nat, p: int, c: nat)
    requires IsPrime(p) && WellFormed(r1, m, p) && WellFormed(r2, m, p)
    requires HasCol(r1, pivot) && StartsWithOne(r2, pivot)
    ensures Coef(Eliminate(r1, r2, pivot, p), c) == (Coef(r1, c) - Coef(r1, pivot) * Coef(r2, c)) % p
  {
    hide DiffTerm, IsPrime, WellFormed, Merge, Eliminate;
    var k, a, b := EliminateParts(r1, r2, pivot, m, p);
    var f, head := r1[k].val, r1[..k];
    var rest := Merge(a, b, f, p);
    MergeWellFormed(a, b, f, m, p, pivot + 1);
    MergeCoef(a, b, f, m, p, c);
    CoefConcat(head, [r1[k]] + a, c);
    CoefConcat(head, [r1[k]] + a, pivot);
    CoefConcat(head, rest, c);
    CoefCons(r1[k], a, c);
    CoefCons(r1[k], a, pivot);
    CoefCons(Cell(pivot, 1), b, c);
    DiffTermValue(Coef(r1, c), Coef(r2, c), f, p);
    assert Coef(r1, pivot) == f;
    if c <= pivot {
      NoSmaller(a, c);
      NoSmaller(b, c);
      NoSmaller(rest, c);
    }
    if c < pivot {
      HeadRange(r1, k, c, m, p);
      SmallResidue(Coef(r1, c), f, p);
    } else if c == pivot {
      assert f - f * 1 == 0;
      CongMod(0, p);
      CongUnique(0 % p, 0, p);
    } else {
      assert !HasCol(head, c);
    }
    assert Coef(r2, c) * f == f * Coef(r2, c);
  }

  lemma HeadRange(r: Cells, k: nat, c: nat, m: nat, p: int)
    requires WellFormed(r, m, p) && k < |r| && p > 0
    ensures 0 <= Coef(r, c) < p
  {
    CoefRange(r, c, m, p);
  }
}

/** Sparse rows in growable buffers ended by a cell of column END
    (SparseMatrixRow, include/fflow/matrix.hh:354-607, src/matrix.cc:175-276). */
module SparseBuffers {
  import opened ModArith
  import opened FFMod
  import opened SparseRow
  import opened SparseElimination

  const END: nat := 0xffff_ffff
  const DEF_SIZE: nat := 8
  /** From this length on the precomputed form of multiplication is used. */
  const GAUSS_SHOUP_THRESHOLD: nat := 4

  /** a - b * c, by Shoup multiplication or by a + (-b) * c. */
  method Ambc(a: int, b: int, c: int, shoup: bool, p: Mod) returns (r: int)
    requires FFMod.Valid(p) && 0 <= a < p.n && 0 <= b < p.n && 0 <= c < p.n
    ensures r == DiffTerm(a, b, c, p.n)
  {
    DiffTermValue(a, b, c, p.n);
    if shoup {
      var t := MulModShoup(b, c, PrecomputedMulShoup(c, p), p);
      CongMod(b * c, p.n);
      r := SubMod(a, t, p);
    } else {
      var nb := SubMod(0, b, p);
      CongMod(0 - b, p.n);
      r := APBCMod(a, nb, c, p);
      NegatedFactor(a, b, c, nb, p.n);
    }
  }

  /** -(a * b). */
  method NegMul(a: int, b: int, shoup: bool, p: Mod) returns (r: int)
    requires FFMod.Valid(p) && 0 <= a < p.n && 0 <= b < p.n
    ensures r == DiffTerm(0, a, b, p.n)
  {
    CongMod(a * b, p.n);
    var t;
    if shoup {
      t := MulModShoup(a, b, PrecomputedMulShoup(b, p), p);
    } else {
      t := MulMod(a, b, p);
    }
    r := SubMod(0, t, p);
  }

  lemma NegatedFactor(a: int, b: int, c: int, nb: int, n: int)
    requires n > 0 && Cong(nb, 0 - b, n)
    ensures (a + nb * c) % n == (a - b * c) % n
  {
    CongRefl(c, n);
    CongRefl(a, n);
    CongMul(nb, 0 - b, c, c, n);
    CongAdd(a, a, nb * c, (0 - b) * c, n);
    assert (0 - b) * c == -(b * c);
    CongModEq(a + nb * c, a - b * c, n);
  }

  ghost predicate Terminated(data: array<Cell>, size: nat)
    reads data
  {
    && size < data.Length && data[size].col == END
    && forall i :: 0 <= i < size ==> data[i].col < END
  }

  ghost predicate ValuesInRange(data: array<Cell>, size: nat, n: int)
    requires size <= data.Length
    reads data
  {
    forall i :: 0 <= i < size ==> 0 <= data[i].val < n
  }

  lemma MergeTakeA(a: Cells, b: Cells, f: int, p: int)
    requires p > 0 && a != [] && (b == [] || a[0].col < b[0].col)
    ensures Merge(a, b, f, p) == [a[0]] + Merge(a[1..], b, f, p)
  {
  }

  lemma MergeTakeB(a: Cells, b: Cells, f: int, p: int)
    requires p > 0 && b != [] && (a == [] || b[0].col < a[0].col)
    ensures Merge(a, b, f, p) == [Cell(b[0].col, DiffTerm(0, b[0].val, f, p))] + Merge(a, b[1..], f, p)
  {
  }

  lemma MergeTakeBoth(a: Cells, b: Cells, f: int, p: int)
    requires p > 0 && a != [] && b != [] && a[0].col == b[0].col
    ensures var res := DiffTerm(a[0].val, b[0].val, f, p);
            Merge(a, b, f, p) == (if res != 0 then [Cell(a[0].col, res)] else []) + Merge(a[1..], b[1..], f, p)
  {
  }

  /** The main loop: both rows are walked up to END while the result is written from position k0.
      Its three inner loops, on <, == and > of the two current columns, are the three branches. */
  method MergeInto(out: array<Cell>, k0: nat, a: array<Cell>, i0: nat, b: array<Cell>, j0: nat,
                   ghost na: nat, ghost nb: nat, f: int, shoup: bool, p: Mod)
    returns (k: nat)
    requires FFMod.Valid(p) && 0 <= f < p.n && out != a && out != b
    requires i0 <= na && j0 <= nb && Terminated(a, na) && Terminated(b, nb)
    requires ValuesInRange(a, na, p.n) && ValuesInRange(b, nb, p.n)
    requires k0 + (na - i0) + (nb - j0) < out.Length
    modifies out
    ensures k <= k0 + (na - i0) + (nb - j0)
    ensures out[k].col == END
    ensures out[..k] == old(out[..k0]) + Merge(a[i0..na], b[j0..nb], f, p.n)
  {
    hide DiffTerm, Merge, FFMod.Valid;
    ghost var target := out[..k0] + Merge(a[i0..na], b[j0..nb], f, p.n);
    k := k0;
    var i, j := i0, j0;
    while a[i].col != END || b[j].col != END
      invariant i <= na && j <= nb
      invariant k + (na - i) + (nb - j) <= k0 + (na - i0) + (nb - j0)
      invariant out[..k] + Merge(a[i..na], b[j..nb], f, p.n) == target
      decreases (na - i) + (nb - j)
    {
      assert i < na ==> a[i..na][0] == a[i] && a[i..na][1..] == a[i + 1..na];
      assert j < nb ==> b[j..nb][0] == b[j] && b[j..nb][1..] == b[j + 1..nb];
      if a[i].col < b[j].col {
        MergeTakeA(a[i..na], b[j..nb], f, p.n);
        out[k] := a[i];
        k, i := k + 1, i + 1;
      } else if a[i].col == b[j].col {
        MergeTakeBoth(a[i..na], b[j..nb], f, p.n);
        var res := Ambc(a[i].val, b[j].val, f, shoup, p);
        if res != 0 {
          out[k] := Cell(a[i].col, res);
          k := k + 1;
        }
        i, j := i + 1, j + 1;
      } else {
        MergeTakeB(a[i..na], b[j..nb], f, p.n);
        var res := NegMul(b[j].val, f, shoup, p);
        out[k] := Cell(b[j].col, res);
        k, j := k + 1, j + 1;
      }
    }
    assert a[i..na] == [] && b[j..nb] == [];
    MergeEmpty(f, p.n);
    assert out[..k] == target;
    out[k] := Cell(END, out[k].val);
    assert out[..k] == target;
  }

  lemma MergeEmpty(f: int, p: int)
    requires p > 0
    ensures Merge([], [], f, p) == []
  {
  }

  lemma ScaleByOne(r: Cells, m: nat, p: int)
    requires p > 1 && WellFormed(r, m, p)
    ensures ScaleRow(r, 1, p) == r
  {
  }

  class SparseMatrixRow {
    /** The cells, with room for the END cell: the capacity is data.Length - 1. */
    var data: array<Cell>
    var size: nat
    var id: nat

    ghost predicate Valid()
      reads this, data
    {
      Terminated(data, size)
    }

    ghost function Row(): (r: Cells)
      requires Valid()
      reads this, data
      ensures |r| == size
    {
      data[..size]
    }

    constructor ()
      ensures Valid() && Row() == [] && fresh(data) && id == 0
    {
      data := new Cell[DEF_SIZE + 1](_ => Cell(END, 0));
      size, id := 0, 0;
    }

    /** Room for n cells and END; a grown buffer keeps the cells of the old one. */
    method Resize(n: nat)
      requires data.Length > 0
      modifies this
      ensures size == n && n < data.Length && id == old(id)
      ensures data == old(data) || fresh(data)
      ensures old(data.Length) <= data.Length && data[..old(data.Length)] == old(data[..])
    {
      if n > data.Length - 1 {
        var newsize := if 2 * (data.Length - 1) > n then 2 * (data.Length - 1) else n;
        var newdata := new Cell[newsize + 1](_ => Cell(END, 0));
        for i := 0 to data.Length
          modifies newdata
          invariant newdata[..i] == data[..i]
        {
          newdata[i] := data[i];
        }
        data := newdata;
      }
      size := n;
    }

    /** Cells and END are copied; the equation number of the other row stays. */
    method CopyInto(oth: SparseMatrixRow)
      requires Valid() && oth != this && oth.data != data && oth.data.Length > 0
      modifies oth, oth.data
      ensures oth.Valid() && oth.Row() == Row() && oth.id == old(oth.id)
      ensures oth.data == old(oth.data) || fresh(oth.data)
    {
      oth.Resize(size);
      for i := 0 to size + 1
        modifies oth.data
        invariant oth.data[..i] == data[..i]
      {
        oth.data[i] := data[i];
      }
      SamePrefixCells(oth.data, data, size);
    }

    method Clear()
      requires data.Length > 0
      modifies this`size, data
      ensures Valid() && Row() == []
    {
      size := 0;
      data[0] := Cell(END, data[0].val);
    }

    /** The two rows exchange their buffers. */
    method Swap(oth: SparseMatrixRow)
      requires oth != this
      modifies this, oth
      ensures data == old(oth.data) && size == old(oth.size) && id == old(oth.id)
      ensures oth.data == old(data) && oth.size == old(size) && oth.id == old(id)
    {
      data, oth.data := oth.data, data;
      size, oth.size := oth.size, size;
      id, oth.id := oth.id, id;
    }

    /** The first value, or 0 for the empty row. */
    function GetFirst(): (v: int)
      requires Valid()
      reads this, data
      ensures v == if Row() == [] then 0 else Row()[0].val
    {
      if data[0].col != END then data[0].val else 0
    }

    /** Every value times z. */
    method Mul(z: int, ghost m: nat, p: Mod)
      requires Valid() && FFMod.Valid(p) && 0 <= z < p.n && WellFormed(Row(), m, p.n)
      modifies data
      ensures Valid() && Row() == ScaleRow(old(Row()), z, p.n)
    {
      hide FFMod.Valid;
      ghost var r := Row();
      CellsOf(data, size, r);
      var idx := 0;
      while data[idx].col != END
        invariant idx <= size && data[size].col == END
        invariant forall i :: 0 <= i < idx ==> data[i] == Cell(r[i].col, r[i].val * z % p.n)
        invariant forall i :: idx <= i < size ==> data[i] == r[i]
        decreases size - idx
      {
        var v := MulMod(data[idx].val, z, p);
        data[idx] := Cell(data[idx].col, v);
        idx := idx + 1;
      }
    }

    /** The row divided by its leading entry elif. */
    method Normalize(elif: int, ghost m: nat, p: Mod)
      requires Valid() && FFMod.Valid(p) && IsPrime(p.n) && WellFormed(Row(), m, p.n)
      requires Row() != [] && elif == Row()[0].val
      modifies data
      ensures Valid() && Row() == Normal(old(Row()), m, p.n)
    {
      hide FFMod.Valid, IsPrime;
      if elif != 1 {
        var ielif := MulInverse(elif, p);
        InverseIs(elif, ielif, p.n);
        Mul(ielif, m, p);
      } else {
        InverseIs(1, 1, p.n);
        ScaleByOne(Row(), m, p.n);
      }
    }

    /** this := r1 - r1[pivot] * r2; the buffer of size |r1| + |r2| never overflows. */
    method GaussElimination(r1: SparseMatrixRow, r2: SparseMatrixRow, pivot: nat, ghost m: nat, p: Mod)
      requires this != r1 && this != r2 && data != r1.data && data != r2.data && data.Length > 0
      requires r1.Valid() && r2.Valid() && FFMod.Valid(p) && IsPrime(p.n) && m <= END
      requires WellFormed(r1.Row(), m, p.n) && WellFormed(r2.Row(), m, p.n)
      requires HasCol(r1.Row(), pivot) && StartsWithOne(r2.Row(), pivot)
      modifies this, data
      ensures Valid() && Row() == Eliminate(r1.Row(), r2.Row(), pivot, p.n) && id == r1.id
      ensures data == old(data) || fresh(data)
    {
      hide Merge, WellFormed, IsPrime, Eliminate, StartsWithOne, HasCol, FFMod.Valid;
      Resize(r1.size + r2.size);
      size := EliminateInto(data, r1.data, r1.size, r2.data, r2.size, pivot, m, p);
      id := r1.id;
    }
  }

  /** gauss_elimination_impl on the buffers of the three rows. */
  method EliminateInto(out: array<Cell>, d1: array<Cell>, ghost n1: nat, d2: array<Cell>, n2: nat,
                       pivot: nat, ghost m: nat, p: Mod)
    returns (k: nat)
    requires out != d1 && out != d2 && Terminated(d1, n1) && Terminated(d2, n2) && n1 + n2 < out.Length
    requires FFMod.Valid(p) && IsPrime(p.n) && m <= END
    requires WellFormed(d1[..n1], m, p.n) && WellFormed(d2[..n2], m, p.n)
    requires HasCol(d1[..n1], pivot) && StartsWithOne(d2[..n2], pivot)
    modifies out
    ensures Terminated(out, k) && out[..k] == Eliminate(d1[..n1], d2[..n2], pivot, p.n)
  {
    hide Merge, WellFormed, IsPrime, Eliminate, FFMod.Valid;
    ghost var c1, c2 := d1[..n1], d2[..n2];
    RowValues(c1, m, p.n);
    RowValues(c2, m, p.n);
    CellsOf(d1, n1, c1);
    CellsOf(d2, n2, c2);
    ghost var pos, a, b := EliminateParts(c1, c2, pivot, m, p.n);
    ghost var result := Eliminate(c1, c2, pivot, p.n);
    EliminateWellFormed(c1, c2, pivot, m, p.n);
    RowValues(result, m, p.n);
    var i := CopyBefore(d1, out, pivot, pos);
    assert d1[i + 1..n1] == a && d2[1..n2] == b;
    k := MergeInto(out, i, d1, i + 1, d2, 1, n1, n2, d1[i].val, n2 >= GAUSS_SHOUP_THRESHOLD, p);
    CellsOf(out, k, result);
  }

  lemma CellsOf(x: array<Cell>, n: nat, r: Cells)
    requires n <= x.Length && x[..n] == r
    ensures forall i :: 0 <= i < n ==> x[i] == r[i]
  {
  }

  lemma SamePrefixCells(x: array<Cell>, y: array<Cell>, n: nat)
    requires n < x.Length && n < y.Length && x[..n + 1] == y[..n + 1]
    ensures x[..n] == y[..n] && x[n] == y[n] && forall i :: 0 <= i < n ==> x[i] == y[i]
  {
  }

  lemma RowValues(r: Cells, m: nat, p: int)
    requires WellFormed(r, m, p) && m <= END
    ensures Sorted(r) && forall i :: 0 <= i < |r| ==> 0 <= r[i].val < p && r[i].col < END
  {
  }

  /** Copy the cells before the pivot column. */
  method CopyBefore(src: array<Cell>, out: array<Cell>, pivot: nat, ghost pos: nat) returns (i: nat)
    requires src != out && pos < src.Length && pos < out.Length
    requires (forall l :: 0 <= l < pos ==> src[l].col < pivot) && src[pos].col == pivot
    modifies out
    ensures i == pos && out[..pos] == src[..pos]
  {
    i := 0;
    while src[i].col < pivot
      invariant i <= pos && out[..i] == src[..i]
      decreases pos - i
    {
      out[i] := src[i];
      i := i + 1;
    }
  }
}
