/** Sparse Gauss elimination as a function of the rows (value level of SparseMatrix::toRowEcholon
    and toReducedRowEcholon without a column limit, src/matrix.cc:318-416). A row is reduced by
    always substituting the equation with the smallest number whose leading column it contains
    (eq_to_substitute, include/fflow/matrix.hh:536-554). */
module SparseElimination {
  import opened ModArith
  import opened LinearAlgebra
  import opened SparseRow

  function Lead(r: Cells): nat
    requires r != []
  {
    r[0].col
  }

  predicate Monic(r: Cells) {
    r == [] || r[0].val == 1
  }

  /** Every row is well formed. */
  predicate AllWellFormed(rows: seq<Cells>, m: nat, p: int) {
    forall i :: 0 <= i < |rows| ==> WellFormed(rows[i], m, p)
  }

  /** Rows that may be substituted: well formed, empty or led by a 1. */
  predicate Substitutable(done: seq<Cells>, m: nat, p: int) {
    AllWellFormed(done, m, p) && forall e :: 0 <= e < |done| ==> Monic(done[e])
  }

  /** The row contains the leading column of equation e. */
  predicate Uses(row: Cells, done: seq<Cells>, e: nat)
    requires e < |done|
  {
    done[e] != [] && HasCol(row, Lead(done[e]))
  }

  /** The smallest equation from e on whose leading column the row contains; |done| if none. */
  function MinEq(row: Cells, done: seq<Cells>, e: nat): (k: nat)
    requires e <= |done|
    ensures e <= k <= |done|
    ensures forall l :: e <= l < k ==> !Uses(row, done, l)
    ensures k < |done| ==> Uses(row, done, k)
    decreases |done| - e
  {
    if e == |done| || Uses(row, done, e) then e else MinEq(row, done, e + 1)
  }

  /** A reduced row and the equations substituted into it, in order. */
  datatype Reduction = Reduction(row: Cells, deps: seq<nat>)

  ghost function Substitute(row: Cells, done: seq<Cells>, e: nat, m: nat, p: int): (r: Cells)
    requires IsPrime(p) && WellFormed(row, m, p) && Substitutable(done, m, p) && e < |done| && Uses(row, done, e)
    ensures WellFormed(r, m, p)
  {
    EliminateWellFormed(row, done[e], Lead(done[e]), m, p);
    Eliminate(row, done[e], Lead(done[e]), p)
  }

  ghost function Reduce(row: Cells, done: seq<Cells>, e0: nat, m: nat, p: int): (r: Reduction)
    requires IsPrime(p) && WellFormed(row, m, p) && Substitutable(done, m, p) && e0 <= |done|
    ensures WellFormed(r.row, m, p)
    ensures forall d :: d in r.deps ==> e0 <= d < |done|
    decreases |done| - e0
  {
    var e := MinEq(row, done, e0);
    if e == |done| then Reduction(row, []) else
      var next := Reduce(Substitute(row, done, e, m, p), done, e + 1, m, p);
      Reduction(next.row, [e] + next.deps)
  }

  // ---- termination and shape: substitution only brings in later equations ----

  /** No row contains the leading column of an earlier one. */
  predicate Triangular(done: seq<Cells>) {
    forall e, f :: 0 <= e < f < |done| ==> !Uses(done[f], done, e)
  }

  /** No equation numbered below e0 can be substituted. */
  predicate ClearBelow(row: Cells, done: seq<Cells>, e0: nat)
    requires e0 <= |done|
  {
    forall e :: 0 <= e < e0 ==> !Uses(row, done, e)
  }

  lemma EliminateCols(r1: Cells, r2: Cells, pivot: nat, m: nat, p: int, c: nat)
    requires IsPrime(p) && WellFormed(r1, m, p) && WellFormed(r2, m, p)
    requires HasCol(r1, pivot) && StartsWithOne(r2, pivot)
    ensures HasCol(Eliminate(r1, r2, pivot, p), c) ==> c != pivot && (HasCol(r1, c) || HasCol(r2, c))
  {
    var r := Eliminate(r1, r2, pivot, p);
    EliminateWellFormed(r1, r2, pivot, m, p);
    EliminateCoef(r1, r2, pivot, m, p, c);
    CoefRange(r, c, m, p);
    CoefMissing(r1, c);
    CoefMissing(r2, c);
    CoefAtHead(r2, m, p);
    CongMod(0, p);
    CongUnique(0 % p, 0, p);
    var f := Coef(r1, pivot);
    assert f - f * 1 == 0;
    assert 0 - f * 0 == 0;
  }

  lemma CoefAtHead(r: Cells, m: nat, p: int)
    requires WellFormed(r, m, p) && r != []
    ensures Coef(r, r[0].col) == r[0].val
  {
  }

  /** One substitution removes equation e and keeps all smaller ones out. */
  lemma SubstituteClears(row: Cells, done: seq<Cells>, e: nat, m: nat, p: int)
    requires IsPrime(p) && WellFormed(row, m, p) && Substitutable(done, m, p) && Triangular(done)
    requires e < |done| && Uses(row, done, e) && ClearBelow(row, done, e)
    ensures ClearBelow(Substitute(row, done, e, m, p), done, e + 1)
  {
    forall l | 0 <= l < e + 1
      ensures !Uses(Substitute(row, done, e, m, p), done, l)
    {
      if done[l] != [] {
        EliminateCols(row, done[e], Lead(done[e]), m, p, Lead(done[l]));
        if l < e {
          assert !Uses(done[e], done, l) && !Uses(row, done, l);
        }
      }
    }
  }

  /** A reduced row contains the leading column of no equation at all. */
  lemma {:induction false} ReduceClears(row: Cells, done: seq<Cells>, e0: nat, m: nat, p: int)
    requires IsPrime(p) && WellFormed(row, m, p) && Substitutable(done, m, p) && Triangular(done)
    requires e0 <= |done| && ClearBelow(row, done, e0)
    ensures ClearBelow(Reduce(row, done, e0, m, p).row, done, |done|)
    decreases |done| - e0
  {
    hide Triangular, IsPrime, WellFormed, Substitute, Substitutable;
    var e := MinEq(row, done, e0);
    if e < |done| {
      SubstituteClears(row, done, e, m, p);
      ReduceClears(Substitute(row, done, e, m, p), done, e + 1, m, p);
    }
  }

  // ---- solutions ----

  /** The row written out over all m columns. */
  function ToDense(r: Cells, m: nat): (d: Row)
    ensures |d| == m
  {
    seq(m, c requires 0 <= c < m => Coef(r, c))
  }

  ghost predicate RowHolds(r: Cells, v: Row, m: nat, p: int)
    requires |v| == m
  {
    Holds(ToDense(r, m), v, m, p)
  }

  ghost predicate AllHold(rows: seq<Cells>, v: Row, m: nat, p: int)
    requires |v| == m
  {
    forall i :: 0 <= i < |rows| ==> RowHolds(rows[i], v, m, p)
  }

  lemma SubstituteHolds(row: Cells, done: seq<Cells>, e: nat, v: Row, m: nat, p: int)
    requires IsPrime(p) && WellFormed(row, m, p) && Substitutable(done, m, p) && e < |done| && Uses(row, done, e)
    requires |v| == m && RowHolds(done[e], v, m, p)
    ensures RowHolds(Substitute(row, done, e, m, p), v, m, p) <==> RowHolds(row, v, m, p)
  {
    var c := Lead(done[e]);
    var r := Substitute(row, done, e, m, p);
    forall j | 0 <= j < m
      ensures Cong(ToDense(r, m)[j], ToDense(row, m)[j] - Coef(row, c) * ToDense(done[e], m)[j], p)
    {
      EliminateCoef(row, done[e], c, m, p, j);
      CongMod(Coef(row, j) - Coef(row, c) * Coef(done[e], j), p);
    }
    HoldsCombine(ToDense(r, m), ToDense(row, m), ToDense(done[e], m), Coef(row, c), v, m, p);
  }

  /** On the solutions of the equations from e0 on, reducing does not change whether a row holds. */
  lemma {:induction false} ReduceHolds(row: Cells, done: seq<Cells>, e0: nat, v: Row, m: nat, p: int)
    requires IsPrime(p) && WellFormed(row, m, p) && Substitutable(done, m, p) && e0 <= |done| && |v| == m
    requires forall e :: e0 <= e < |done| ==> RowHolds(done[e], v, m, p)
    ensures RowHolds(Reduce(row, done, e0, m, p).row, v, m, p) <==> RowHolds(row, v, m, p)
    decreases |done| - e0
  {
    hide IsPrime, WellFormed, Substitute, Substitutable, RowHolds;
    var e := MinEq(row, done, e0);
    if e < |done| {
      SubstituteHolds(row, done, e, v, m, p);
      ReduceHolds(Substitute(row, done, e, m, p), done, e + 1, v, m, p);
    }
  }

  // ---- the recorded equations ----

  /** What the listed equations, each times its factor, have in a column. */
  function Contribution(done: seq<Cells>, deps: seq<nat>, factors: seq<int>, c: nat): int
    requires |factors| == |deps| && forall d :: d in deps ==> d < |done|
  {
    if deps == [] then 0 else
      assert deps[0] in deps && forall d :: d in deps[1..] ==> d in deps;
      factors[0] * Coef(done[deps[0]], c) + Contribution(done, deps[1..], factors[1..], c)
  }

  /** Column by column, r is the row less the listed equations, each times a factor that is not 0. */
  ghost predicate IsCombination(r: Cells, row: Cells, done: seq<Cells>, deps: seq<nat>, factors: seq<int>, p: int)
    requires forall d :: d in deps ==> d < |done|
  {
    && |factors| == |deps| && (forall k :: 0 <= k < |factors| ==> 0 < factors[k] < p)
    && forall c: nat :: Cong(Coef(r, c), Coef(row, c) - Contribution(done, deps, factors, c), p)
  }

  /** The recorded equations are the ones the row was combined with, each once and in increasing order. */
  lemma {:induction false} RecordedAreCombined(row: Cells, done: seq<Cells>, e0: nat, m: nat, p: int)
    returns (factors: seq<int>)
    requires IsPrime(p) && WellFormed(row, m, p) && Substitutable(done, m, p) && e0 <= |done|
    ensures var r := Reduce(row, done, e0, m, p);
      && (forall j, k :: 0 <= j < k < |r.deps| ==> r.deps[j] < r.deps[k])
      && IsCombination(r.row, row, done, r.deps, factors, p)
    decreases |done| - e0
  {
    hide IsPrime, WellFormed, Substitute, Substitutable, IsCombination, Uses;
    var e := MinEq(row, done, e0);
    if e == |done| {
      factors := [];
      NothingCombined(row, done, p);
    } else {
      var next := Substitute(row, done, e, m, p);
      var rest := RecordedAreCombined(next, done, e + 1, m, p);
      var r := Reduce(next, done, e + 1, m, p);
      factors := CombinedWith(row, done, e, r, rest, m, p);
      assert forall k :: 0 <= k < |r.deps| ==> r.deps[k] in r.deps;
    }
  }

  lemma NothingCombined(row: Cells, done: seq<Cells>, p: int)
    ensures IsCombination(row, row, done, [], [], p)
  {
    forall c: nat
      ensures Cong(Coef(row, c), Coef(row, c) - Contribution(done, [], [], c), p)
    {
      CongRefl(Coef(row, c), p);
    }
  }

  lemma CombinedWith(row: Cells, done: seq<Cells>, e: nat, r: Reduction, rest: seq<int>, m: nat, p: int)
    returns (factors: seq<int>)
    requires IsPrime(p) && WellFormed(row, m, p) && Substitutable(done, m, p) && e < |done| && Uses(row, done, e)
    requires forall d :: d in r.deps ==> d < |done|
    requires IsCombination(r.row, Substitute(row, done, e, m, p), done, r.deps, rest, p)
    ensures IsCombination(r.row, row, done, [e] + r.deps, factors, p)
  {
    var lead := Lead(done[e]);
    var next := Substitute(row, done, e, m, p);
    var f := Coef(row, lead);
    CoefRange(row, lead, m, p);
    factors := [f] + rest;
    assert factors[1..] == rest && ([e] + r.deps)[1..] == r.deps;
    forall c: nat
      ensures Cong(Coef(r.row, c), Coef(row, c) - Contribution(done, [e] + r.deps, factors, c), p)
    {
      var others := Contribution(done, r.deps, rest, c);
      var own := f * Coef(done[e], c);
      assert Contribution(done, [e] + r.deps, factors, c) == own + others;
      EliminateCoef(row, done[e], lead, m, p, c);
      CongMod(Coef(row, c) - own, p);
      CongRefl(others, p);
      CongSub(Coef(next, c), Coef(row, c) - own, others, others, p);
      CongTrans(Coef(r.row, c), Coef(next, c) - others, Coef(row, c) - own - others, p);
      assert Coef(row, c) - own - others == Coef(row, c) - (own + others);
    }
  }

  // ---- normalisation ----

  function ScaleRow(r: Cells, z: int, p: int): (s: Cells)
    requires p > 0
    ensures |s| == |r| && forall i :: 0 <= i < |r| ==> s[i] == Cell(r[i].col, r[i].val * z % p)
  {
    seq(|r|, i requires 0 <= i < |r| => Cell(r[i].col, r[i].val * z % p))
  }

  /** The row divided by its leading entry. */
  ghost function Normal(r: Cells, m: nat, p: int): Cells
    requires IsPrime(p) && WellFormed(r, m, p)
  {
    if r == [] then [] else ScaleRow(r, Inverse(r[0].val, p), p)
  }

  lemma {:induction false} ScaleCoef(r: Cells, z: int, p: int, c: nat)
    requires p > 0
    ensures Coef(ScaleRow(r, z, p), c) == if HasCol(r, c) then Coef(r, c) * z % p else 0
    decreases |r|
  {
    if r == [] {
    } else {
      ScaleCoef(r[1..], z, p, c);
      assert ScaleRow(r, z, p)[1..] == ScaleRow(r[1..], z, p);
      if HasCol(r, c) && r[0].col != c {
        var i :| 0 <= i < |r| && r[i].col == c;
        assert r[1..][i - 1].col == c;
      }
      if HasCol(r[1..], c) {
        var i :| 0 <= i < |r[1..]| && r[1..][i].col == c;
        assert r[i + 1].col == c;
      }
    }
  }

  lemma ScaledEntry(x: int, z: int, t: int, p: int)
    requires IsPrime(p) && 0 < x < p && Cong(t * z, 1, p)
    ensures 0 < x * z % p < p
  {
    CongMod(x * z, p);
    if x * z % p == 0 {
      CongSym(0, x * z, p);
      assert x * z == z * x;
      assert t * z == z * t;
      CancelInverse(z, x, t, p);
      CongUnique(x, 0, p);
      assert false;
    }
  }

  lemma NormalFacts(r: Cells, m: nat, p: int)
    requires IsPrime(p) && WellFormed(r, m, p)
    ensures WellFormed(Normal(r, m, p), m, p) && Monic(Normal(r, m, p))
    ensures Normal(r, m, p) == [] <==> r == []
    ensures r != [] ==> Lead(Normal(r, m, p)) == Lead(r)
    ensures forall c {:trigger HasCol(r, c)} :: HasCol(Normal(r, m, p), c) <==> HasCol(r, c)
  {
    if r != [] {
      var t, z := r[0].val, Inverse(r[0].val, p);
      var s := ScaleRow(r, z, p);
      forall i | 0 <= i < |r|
        ensures 0 < s[i].val < p
      {
        ScaledEntry(r[i].val, z, t, p);
      }
      CongModEq(t * z, 1, p);
      CongMod(1, p);
      CongUnique(1 % p, 1, p);
      SameColumns(r, s);
    }
  }

  lemma SameColumns(r: Cells, s: Cells)
    requires |r| == |s| && forall i :: 0 <= i < |r| ==> s[i].col == r[i].col
    ensures forall c {:trigger HasCol(r, c)} :: HasCol(s, c) <==> HasCol(r, c)
  {
    forall c
      ensures HasCol(s, c) <==> HasCol(r, c)
    {
      if HasCol(r, c) {
        var i :| 0 <= i < |r| && r[i].col == c;
        assert s[i].col == c;
      }
      if HasCol(s, c) {
        var i :| 0 <= i < |s| && s[i].col == c;
        assert r[i].col == c;
      }
    }
  }

  lemma NormalHolds(r: Cells, v: Row, m: nat, p: int)
    requires IsPrime(p) && WellFormed(r, m, p) && |v| == m
    ensures RowHolds(Normal(r, m, p), v, m, p) <==> RowHolds(r, v, m, p)
  {
    if r != [] {
      var t, z := r[0].val, Inverse(r[0].val, p);
      var s := ScaleRow(r, z, p);
      forall j | 0 <= j < m
        ensures Cong(ToDense(s, m)[j], z * ToDense(r, m)[j], p)
      {
        ScaleCoef(r, z, p, j);
        CoefMissing(r, j);
        CongMod(Coef(r, j) * z, p);
        CongRefl(0, p);
        assert Coef(r, j) * z == z * Coef(r, j);
      }
      assert t * z == z * t;
      HoldsScale(ToDense(s, m), ToDense(r, m), z, t, v, m, p);
    }
  }
}

/** Forward elimination, removal of zero rows and back substitution of a sparse system, as functions
    of its rows, and what they keep (src/matrix.cc:318-416). */
module SparseReduction {
  import opened ModArith
  import opened LinearAlgebra
  import opened SparseRow
  import opened SparseElimination

  /** The first k rows after forward elimination. */
  ghost function Forward(rows: seq<Cells>, k: nat, m: nat, p: int): (done: seq<Cells>)
    requires IsPrime(p) && AllWellFormed(rows, m, p) && k <= |rows|
    ensures |done| == k && Substitutable(done, m, p)
  {
    if k == 0 then [] else
      var done := Forward(rows, k - 1, m, p);
      var r := Reduce(rows[k - 1], done, 0, m, p).row;
      NormalFacts(r, m, p);
      done + [Normal(r, m, p)]
  }

  /** The equations substituted into row k during forward elimination. */
  ghost function ForwardDeps(rows: seq<Cells>, k: nat, m: nat, p: int): (deps: seq<nat>)
    requires IsPrime(p) && AllWellFormed(rows, m, p) && k < |rows|
    ensures forall d :: d in deps ==> d < k
  {
    Reduce(rows[k], Forward(rows, k, m, p), 0, m, p).deps
  }

  /** Forward elimination terminates in rows none of which contains an earlier leading column. */
  lemma {:induction false} ForwardTriangular(rows: seq<Cells>, k: nat, m: nat, p: int)
    requires IsPrime(p) && AllWellFormed(rows, m, p) && k <= |rows|
    ensures Triangular(Forward(rows, k, m, p))
    decreases k
  {
    if k > 0 {
      ForwardTriangular(rows, k - 1, m, p);
      var done := Forward(rows, k - 1, m, p);
      var r := Reduce(rows[k - 1], done, 0, m, p).row;
      ReduceClears(rows[k - 1], done, 0, m, p);
      NormalFacts(r, m, p);
      TriangularAppend(done, r, Normal(r, m, p));
    }
  }

  lemma TriangularAppend(done: seq<Cells>, r: Cells, s: Cells)
    requires Triangular(done) && ClearBelow(r, done, |done|)
    requires forall c {:trigger HasCol(r, c)} :: HasCol(s, c) <==> HasCol(r, c)
    ensures Triangular(done + [s])
  {
    var all := done + [s];
    forall e, f | 0 <= e < f < |all|
      ensures !Uses(all[f], all, e)
    {
      if f == |done| {
        assert !Uses(r, done, e);
      } else {
        assert !Uses(done[f], done, e);
      }
    }
  }

  /** The forward rows have the solutions of the original rows. */
  lemma {:induction false} ForwardHolds(rows: seq<Cells>, k: nat, v: Row, m: nat, p: int)
    requires IsPrime(p) && AllWellFormed(rows, m, p) && k <= |rows| && |v| == m
    ensures AllHold(Forward(rows, k, m, p), v, m, p) <==> AllHold(rows[..k], v, m, p)
    decreases k
  {
    hide IsPrime, WellFormed, RowHolds, Reduce, Normal;
    if k > 0 {
      ForwardHolds(rows, k - 1, v, m, p);
      var done := Forward(rows, k - 1, m, p);
      var r := Reduce(rows[k - 1], done, 0, m, p).row;
      NormalHolds(r, v, m, p);
      assert rows[..k] == rows[..k - 1] + [rows[k - 1]];
      HoldAppend(done, Normal(r, m, p), v, m, p);
      HoldAppend(rows[..k - 1], rows[k - 1], v, m, p);
      if AllHold(done, v, m, p) {
        ReduceHolds(rows[k - 1], done, 0, v, m, p);
      }
    }
  }

  lemma HoldAppend(rows: seq<Cells>, r: Cells, v: Row, m: nat, p: int)
    requires |v| == m
    ensures AllHold(rows + [r], v, m, p) <==> AllHold(rows, v, m, p) && RowHolds(r, v, m, p)
  {
    var all := rows + [r];
    assert all[|rows|] == r;
    assert forall i :: 0 <= i < |rows| ==> all[i] == rows[i];
  }

  // ---- zero rows ----

  /** The non-zero rows, in order. */
  function NonZero(rows: seq<Cells>): (s: seq<Cells>)
    ensures forall i :: 0 <= i < |s| ==> s[i] != []
  {
    if rows == [] then [] else
      NonZero(rows[..|rows| - 1]) + if rows[|rows| - 1] == [] then [] else [rows[|rows| - 1]]
  }

  /** Their positions. */
  function NonZeroAt(rows: seq<Cells>): seq<nat> {
    if rows == [] then [] else
      NonZeroAt(rows[..|rows| - 1]) + if rows[|rows| - 1] == [] then [] else [|rows| - 1]
  }

  lemma {:induction false} NonZeroAtMembers(rows: seq<Cells>, i: nat)
    ensures i in NonZeroAt(rows) <==> i < |rows| && rows[i] != []
    decreases |rows|
  {
    if rows != [] {
      NonZeroAtMembers(rows[..|rows| - 1], i);
    }
  }

  lemma {:induction false} NonZeroAtIncreasing(rows: seq<Cells>)
    ensures forall k, l :: 0 <= k < l < |NonZeroAt(rows)| ==> NonZeroAt(rows)[k] < NonZeroAt(rows)[l]
    decreases |rows|
  {
    if rows != [] {
      var init := rows[..|rows| - 1];
      NonZeroAtIncreasing(init);
      var at := NonZeroAt(init);
      forall k | 0 <= k < |at|
        ensures at[k] < |init|
      {
        NonZeroAtMembers(init, at[k]);
      }
    }
  }

  lemma {:induction false} NonZeroAtRows(rows: seq<Cells>)
    ensures |NonZeroAt(rows)| == |NonZero(rows)|
    ensures forall k :: 0 <= k < |NonZero(rows)| ==> NonZeroAt(rows)[k] < |rows| && NonZero(rows)[k] == rows[NonZeroAt(rows)[k]]
    decreases |rows|
  {
    if rows != [] {
      NonZeroAtRows(rows[..|rows| - 1]);
    }
  }

  lemma {:induction false} NonZeroMember(rows: seq<Cells>, i: nat) returns (j: nat)
    requires i < |NonZero(rows)|
    ensures j < |rows| && rows[j] == NonZero(rows)[i]
    decreases |rows|
  {
    var init := rows[..|rows| - 1];
    if i < |NonZero(init)| {
      j := NonZeroMember(init, i);
    } else {
      j := |rows| - 1;
    }
  }

  lemma {:induction false} NonZeroTriangular(rows: seq<Cells>)
    requires Triangular(rows)
    ensures Triangular(NonZero(rows))
    decreases |rows|
  {
    if rows != [] {
      var init, last := rows[..|rows| - 1], rows[|rows| - 1];
      forall e, f | 0 <= e < f < |init|
        ensures !Uses(init[f], init, e)
      {
        assert !Uses(rows[f], rows, e);
      }
      NonZeroTriangular(init);
      forall e | 0 <= e < |NonZero(init)|
        ensures !Uses(last, NonZero(init), e)
      {
        var j := NonZeroMember(init, e);
        assert !Uses(rows[|rows| - 1], rows, j);
      }
      if last != [] {
        TriangularAppend(NonZero(init), last, last);
      } else {
        assert NonZero(rows) == NonZero(init);
      }
    }
  }

  lemma NonZeroSubstitutable(rows: seq<Cells>, m: nat, p: int)
    requires Substitutable(rows, m, p)
    ensures Substitutable(NonZero(rows), m, p)
  {
  }

  lemma EmptyHolds(v: Row, m: nat, p: int)
    requires |v| == m
    ensures RowHolds([], v, m, p)
  {
    DotZero(ToDense([], m), v, m);
    CongRefl(0, p);
  }

  lemma {:induction false} NonZeroHolds(rows: seq<Cells>, v: Row, m: nat, p: int)
    requires |v| == m
    ensures AllHold(NonZero(rows), v, m, p) <==> AllHold(rows, v, m, p)
    decreases |rows|
  {
    if rows != [] {
      var init, last := rows[..|rows| - 1], rows[|rows| - 1];
      NonZeroHolds(init, v, m, p);
      HoldAppend(init, last, v, m, p);
      assert rows == init + [last];
      if last == [] {
        EmptyHolds(v, m, p);
        assert NonZero(rows) == NonZero(init);
      } else {
        HoldAppend(NonZero(init), last, v, m, p);
      }
    }
  }

  lemma {:induction false} NonZeroAll(rows: seq<Cells>)
    requires forall i :: 0 <= i < |rows| ==> rows[i] != []
    ensures NonZero(rows) == rows
    decreases |rows|
  {
    if rows != [] {
      NonZeroAll(rows[..|rows| - 1]);
    }
  }

  // ---- back substitution ----

  /** Which variables are needed; without flags all of them are. */
  datatype Flags = AllNeeded | Needed(flags: seq<bool>)

  predicate IsNeeded(fl: Flags, c: nat) {
    fl.AllNeeded? || (c < |fl.flags| && fl.flags[c])
  }

  /** Row i after back substitution of the later rows, if its variable is needed. */
  ghost function BackRow(done: seq<Cells>, i: nat, fl: Flags, m: nat, p: int): (r: Reduction)
    requires IsPrime(p) && Substitutable(done, m, p) && i < |done| && done[i] != []
    ensures WellFormed(r.row, m, p) && forall d :: d in r.deps ==> i < d < |done|
  {
    if IsNeeded(fl, Lead(done[i])) then Reduce(done[i], done, i + 1, m, p) else Reduction(done[i], [])
  }

  ghost function Back(done: seq<Cells>, fl: Flags, m: nat, p: int): (res: seq<Cells>)
    requires IsPrime(p) && Substitutable(done, m, p) && forall i :: 0 <= i < |done| ==> done[i] != []
    ensures |res| == |done| && forall i :: 0 <= i < |done| ==> res[i] == BackRow(done, i, fl, m, p).row
  {
    seq(|done|, i requires 0 <= i < |done| => BackRow(done, i, fl, m, p).row)
  }

  lemma BackRowHolds(done: seq<Cells>, i: nat, fl: Flags, v: Row, m: nat, p: int)
    requires IsPrime(p) && Substitutable(done, m, p) && i < |done| && done[i] != [] && |v| == m
    requires forall e :: i < e < |done| ==> RowHolds(done[e], v, m, p)
    ensures RowHolds(BackRow(done, i, fl, m, p).row, v, m, p) <==> RowHolds(done[i], v, m, p)
  {
    if IsNeeded(fl, Lead(done[i])) {
      ReduceHolds(done[i], done, i + 1, v, m, p);
    }
  }

  lemma {:induction false} BackHoldsFrom(done: seq<Cells>, fl: Flags, v: Row, m: nat, p: int, i: nat)
    requires IsPrime(p) && Substitutable(done, m, p) && (forall l :: 0 <= l < |done| ==> done[l] != []) && |v| == m
    requires i <= |done| && AllHold(Back(done, fl, m, p), v, m, p)
    ensures forall e :: i <= e < |done| ==> RowHolds(done[e], v, m, p)
    decreases |done| - i
  {
    if i < |done| {
      BackHoldsFrom(done, fl, v, m, p, i + 1);
      BackRowHolds(done, i, fl, v, m, p);
      assert RowHolds(Back(done, fl, m, p)[i], v, m, p);
    }
  }

  /** Back substitution keeps the solutions, whichever rows are substituted. */
  lemma BackHolds(done: seq<Cells>, fl: Flags, v: Row, m: nat, p: int)
    requires IsPrime(p) && Substitutable(done, m, p) && (forall l :: 0 <= l < |done| ==> done[l] != []) && |v| == m
    ensures AllHold(Back(done, fl, m, p), v, m, p) <==> AllHold(done, v, m, p)
  {
    if AllHold(Back(done, fl, m, p), v, m, p) {
      BackHoldsFrom(done, fl, v, m, p, 0);
    }
    if AllHold(done, v, m, p) {
      forall i | 0 <= i < |done|
        ensures RowHolds(Back(done, fl, m, p)[i], v, m, p)
      {
        BackRowHolds(done, i, fl, v, m, p);
      }
    }
  }

  /** Substituting rows that lead elsewhere leaves the first cell alone. */
  lemma {:induction false} ReduceHead(row: Cells, done: seq<Cells>, e0: nat, m: nat, p: int)
    requires IsPrime(p) && WellFormed(row, m, p) && Substitutable(done, m, p) && e0 <= |done| && row != []
    requires forall e :: e0 <= e < |done| && done[e] != [] ==> Lead(done[e]) != Lead(row)
    ensures var r := Reduce(row, done, e0, m, p).row; r != [] && r[0] == row[0]
    decreases |done| - e0
  {
    hide IsPrime, WellFormed, Substitutable, Merge;
    var e := MinEq(row, done, e0);
    if e < |done| {
      var r := Substitute(row, done, e, m, p);
      SubstituteHead(row, done, e, m, p);
      ReduceHead(r, done, e + 1, m, p);
    }
  }

  lemma SubstituteHead(row: Cells, done: seq<Cells>, e: nat, m: nat, p: int)
    requires IsPrime(p) && WellFormed(row, m, p) && Substitutable(done, m, p) && e < |done| && Uses(row, done, e)
    requires row != [] && Lead(done[e]) != Lead(row)
    ensures var r := Substitute(row, done, e, m, p); r != [] && r[0] == row[0]
  {
  }

  lemma LeadsDiffer(done: seq<Cells>, i: nat)
    requires Triangular(done) && i < |done| && forall l :: 0 <= l < |done| ==> done[l] != []
    ensures forall e :: i < e < |done| ==> Lead(done[e]) != Lead(done[i])
  {
    forall e | i < e < |done|
      ensures Lead(done[e]) != Lead(done[i])
    {
      assert !Uses(done[e], done, i);
      assert done[e][0].col == Lead(done[e]);
    }
  }

  /** The row of a flagged variable ends up without the leading column of any other row; other rows stay. */
  lemma BackClear(done: seq<Cells>, i: nat, fl: Flags, m: nat, p: int)
    requires IsPrime(p) && Substitutable(done, m, p) && Triangular(done)
    requires i < |done| && forall l :: 0 <= l < |done| ==> done[l] != []
    ensures var r := BackRow(done, i, fl, m, p).row; r != [] && r[0] == done[i][0]
    ensures
      if fl.AllNeeded? || (Lead(done[i]) < |fl.flags| && fl.flags[Lead(done[i])])
      then forall e :: 0 <= e < |done| && e != i ==> !HasCol(BackRow(done, i, fl, m, p).row, Lead(done[e]))
      else BackRow(done, i, fl, m, p) == Reduction(done[i], [])
  {
    hide IsPrime, WellFormed, Triangular, Reduce;
    LeadsDiffer(done, i);
    ReduceHead(done[i], done, i + 1, m, p);
    BackReduceClears(done, i, m, p);
    var r := BackRow(done, i, fl, m, p).row;
    if IsNeeded(fl, Lead(done[i])) {
      forall e | 0 <= e < |done| && e != i
        ensures !HasCol(r, Lead(done[e]))
      {
        assert !Uses(r, done, e);
      }
    }
  }

  /** The rows but row i, from which no earlier one can be substituted into row i. */
  lemma TakenOut(done: seq<Cells>, i: nat, m: nat, p: int)
    requires Substitutable(done, m, p) && Triangular(done) && i < |done|
    ensures Substitutable(done[i := []], m, p) && Triangular(done[i := []]) && ClearBelow(done[i], done[i := []], i + 1)
    ensures WellFormed(done[i], m, p)
  {
    var others := done[i := []];
    forall e, f | 0 <= e < f < |others|
      ensures !Uses(others[f], others, e)
    {
      assert !Uses(done[f], done, e);
    }
    forall e | 0 <= e < i + 1
      ensures !Uses(done[i], others, e)
    {
      if e < i {
        assert !Uses(done[i], done, e);
      }
    }
  }

  /** Back substitution of row i clears every other leading column: the earlier ones were absent
      and stay so, the later ones are substituted away. */
  lemma BackReduceClears(done: seq<Cells>, i: nat, m: nat, p: int)
    requires IsPrime(p) && Substitutable(done, m, p) && Triangular(done) && i < |done| && done[i] != []
    ensures var r := Reduce(done[i], done, i + 1, m, p).row;
            forall e :: 0 <= e < |done| && e != i ==> !Uses(r, done, e)
  {
    hide *;
    // the sweep over all equations but i: equation i itself is taken out of the list
    var others := done[i := []];
    TakenOut(done, i, m, p);
    ReduceClears(done[i], others, i + 1, m, p);
    ReduceSameTail(done[i], done, others, i + 1, m, p);
    var r := Reduce(done[i], done, i + 1, m, p).row;
    forall e | 0 <= e < |done| && e != i
      ensures !Uses(r, done, e)
    {
      ClearAt(r, others, |others|, e);
      SameUses(r, done, others, e);
    }
  }

  lemma ClearAt(row: Cells, done: seq<Cells>, e0: nat, e: nat)
    requires e < e0 <= |done| && ClearBelow(row, done, e0)
    ensures !Uses(row, done, e)
  {
  }

  /** Reduction only looks at the equations from e0 on. */
  lemma {:induction false} ReduceSameTail(row: Cells, a: seq<Cells>, b: seq<Cells>, e0: nat, m: nat, p: int)
    requires IsPrime(p) && WellFormed(row, m, p) && Substitutable(a, m, p) && Substitutable(b, m, p)
    requires |a| == |b| && e0 <= |a| && forall e :: e0 <= e < |a| ==> a[e] == b[e]
    ensures Reduce(row, a, e0, m, p) == Reduce(row, b, e0, m, p)
    decreases |a| - e0
  {
    hide IsPrime, WellFormed, Substitutable, Eliminate, Uses;
    var e := MinEq(row, a, e0);
    forall l | e0 <= l <= e && l < |a|
      ensures Uses(row, a, l) <==> Uses(row, b, l)
    {
      SameUses(row, a, b, l);
    }
    MinEqIs(row, b, e0, e);
    if e < |a| {
      SubstituteSame(row, a, b, e, m, p);
      ReduceSameTail(Substitute(row, a, e, m, p), a, b, e + 1, m, p);
    }
  }

  lemma SameUses(row: Cells, a: seq<Cells>, b: seq<Cells>, e: nat)
    requires e < |a| == |b| && a[e] == b[e]
    ensures Uses(row, a, e) <==> Uses(row, b, e)
  {
  }

  lemma SubstituteSame(row: Cells, a: seq<Cells>, b: seq<Cells>, e: nat, m: nat, p: int)
    requires IsPrime(p) && WellFormed(row, m, p) && Substitutable(a, m, p) && Substitutable(b, m, p)
    requires e < |a| == |b| && a[e] == b[e] && Uses(row, a, e) && Uses(row, b, e)
    ensures Substitute(row, a, e, m, p) == Substitute(row, b, e, m, p)
  {
  }

  lemma MinEqIs(row: Cells, done: seq<Cells>, e0: nat, e: nat)
    requires e0 <= e <= |done| && (forall l :: e0 <= l < e ==> !Uses(row, done, l))
    requires e < |done| ==> Uses(row, done, e)
    ensures MinEq(row, done, e0) == e
  {
  }

  // ---- the whole reduction ----

  ghost function Reduced(rows: seq<Cells>, fl: Flags, m: nat, p: int): seq<Cells>
    requires IsPrime(p) && AllWellFormed(rows, m, p)
  {
    var done := Forward(rows, |rows|, m, p);
    NonZeroSubstitutable(done, m, p);
    Back(NonZero(done), fl, m, p)
  }

  /** Sparse reduction keeps the solutions of the system. */
  lemma ReducedHolds(rows: seq<Cells>, fl: Flags, v: Row, m: nat, p: int)
    requires IsPrime(p) && AllWellFormed(rows, m, p) && |v| == m
    ensures AllHold(Reduced(rows, fl, m, p), v, m, p) <==> AllHold(rows, v, m, p)
  {
    var done := Forward(rows, |rows|, m, p);
    ForwardHolds(rows, |rows|, v, m, p);
    assert rows[..|rows|] == rows;
    NonZeroHolds(done, v, m, p);
    NonZeroSubstitutable(done, m, p);
    BackHolds(NonZero(done), fl, v, m, p);
  }

  /** What back substitution of the rows d leaves, told from the flags: rows keep their leading cells; without flags no
      row contains the leading column of another one; with flags this holds for every row whose leading variable is
      flagged, and all other rows are left as they were. */
  predicate SubstitutedByFlags(d: seq<Cells>, res: seq<Cells>, fl: Flags) {
    && |res| == |d| && (forall i :: 0 <= i < |d| ==> d[i] != [] && res[i] != [] && res[i][0] == d[i][0])
    && match fl
       case AllNeeded => forall i, e :: 0 <= i < |d| && 0 <= e < |d| && e != i ==> !HasCol(res[i], d[e][0].col)
       case Needed(f) => forall i :: 0 <= i < |d| ==>
         if d[i][0].col < |f| && f[d[i][0].col] then forall e :: 0 <= e < |d| && e != i ==> !HasCol(res[i], d[e][0].col)
         else res[i] == d[i]
  }

  lemma BackByFlags(d: seq<Cells>, fl: Flags, m: nat, p: int)
    requires IsPrime(p) && Substitutable(d, m, p) && Triangular(d) && forall i :: 0 <= i < |d| ==> d[i] != []
    ensures SubstitutedByFlags(d, Back(d, fl, m, p), fl)
  {
    hide Triangular, Substitutable, IsPrime, HasCol;
    forall i | 0 <= i < |d|
      ensures var r := BackRow(d, i, fl, m, p).row; r != [] && r[0] == d[i][0]
      ensures
        if fl.AllNeeded? || (d[i][0].col < |fl.flags| && fl.flags[d[i][0].col])
        then forall e :: 0 <= e < |d| && e != i ==> !HasCol(BackRow(d, i, fl, m, p).row, d[e][0].col)
        else BackRow(d, i, fl, m, p).row == d[i]
    {
      BackClear(d, i, fl, m, p);
    }
    hide BackRow;
  }

  /** Exactly the rows of flagged variables are back-substituted. */
  lemma ReducedByFlags(rows: seq<Cells>, fl: Flags, m: nat, p: int)
    requires IsPrime(p) && AllWellFormed(rows, m, p)
    ensures SubstitutedByFlags(NonZero(Forward(rows, |rows|, m, p)), Reduced(rows, fl, m, p), fl)
  {
    hide Triangular, Substitutable, SubstitutedByFlags, IsPrime, AllWellFormed;
    var done := Forward(rows, |rows|, m, p);
    ForwardTriangular(rows, |rows|, m, p);
    NonZeroTriangular(done);
    NonZeroSubstitutable(done, m, p);
    BackByFlags(NonZero(done), fl, m, p);
  }

  /** Every reduced row is led by a 1; the row of a flagged variable contains no other leading column. */
  lemma ReducedShape(rows: seq<Cells>, fl: Flags, m: nat, p: int)
    requires IsPrime(p) && AllWellFormed(rows, m, p)
    ensures var res := Reduced(rows, fl, m, p);
      && (forall i :: 0 <= i < |res| ==> WellFormed(res[i], m, p) && res[i] != [] && res[i][0].val == 1)
      && (forall i, e :: 0 <= i < |res| && 0 <= e < |res| && e != i
                         && (fl.AllNeeded? || (res[i][0].col < |fl.flags| && fl.flags[res[i][0].col])) ==>
           !HasCol(res[i], res[e][0].col))
      && (forall i, e :: 0 <= i < e < |res| ==> res[i][0].col != res[e][0].col)
  {
    var done := Forward(rows, |rows|, m, p);
    ForwardTriangular(rows, |rows|, m, p);
    NonZeroTriangular(done);
    NonZeroSubstitutable(done, m, p);
    var d: seq<Cells> := NonZero(done);
    var res: seq<Cells> := Reduced(rows, fl, m, p);
    forall i | 0 <= i < |res|
      ensures res[i] != [] && res[i][0] == d[i][0] && WellFormed(res[i], m, p) && res[i][0].val == 1
      ensures (fl.AllNeeded? || (d[i][0].col < |fl.flags| && fl.flags[d[i][0].col])) ==>
        forall e :: 0 <= e < |d| && e != i ==> !HasCol(res[i], d[e][0].col)
    {
      BackClear(d, i, fl, m, p);
      assert Monic(d[i]);
    }
    forall i, e | 0 <= i < e < |res|
      ensures res[i][0].col != res[e][0].col
    {
      assert !Uses(d[e], d, i);
      assert d[e][0].col == Lead(d[e]);
    }
  }
}

/** When a sparse system has a solution. As for dense systems the last of the m columns is the
    right-hand side, so a solution x of length m - 1 is tested as the vector x + [-1]. */
module SparseSystem {
  import opened ModArith
  import opened LinearAlgebra
  import opened SparseRow
  import opened SparseElimination
  import opened SparseReduction
  import ReducedSystem

  ghost predicate Solvable(rows: seq<Cells>, m: nat, p: int)
    requires m >= 1
  {
    exists x: Row :: |x| == m - 1 && AllHold(rows, x + [-1], m, p)
  }

  /** Some row leads with the right-hand side. */
  predicate RhsLeads(rows: seq<Cells>, m: nat) {
    exists i :: 0 <= i < |rows| && rows[i] != [] && Lead(rows[i]) + 1 == m
  }

  /** Fully reduced: led by a 1 in distinct columns, and no row contains another row's leading column. */
  predicate FullyReduced(res: seq<Cells>, m: nat, p: int) {
    && (forall i :: 0 <= i < |res| ==> WellFormed(res[i], m, p) && res[i] != [] && res[i][0].val == 1)
    && (forall i, e :: 0 <= i < |res| && 0 <= e < |res| && e != i ==> !HasCol(res[i], Lead(res[e])))
    && (forall i, e :: 0 <= i < |res| && 0 <= e < |res| && e != i ==> Lead(res[i]) != Lead(res[e]))
  }

  /** The solution that sets every variable leading none of the first k rows to 0. */
  function LeadSolution(res: seq<Cells>, k: nat, m: nat, p: int): (x: Row)
    requires m >= 1 && FullyReduced(res, m, p) && !RhsLeads(res, m) && k <= |res|
    ensures |x| == m - 1
    ensures forall i :: 0 <= i < k ==> Lead(res[i]) < m - 1 && x[Lead(res[i])] == Coef(res[i], m - 1)
    ensures forall c :: 0 <= c < m - 1 && (forall i :: 0 <= i < k ==> Lead(res[i]) != c) ==> x[c] == 0
  {
    if k == 0 then seq(m - 1, c => 0) else
      LeadSolution(res, k - 1, m, p)[Lead(res[k - 1]) := Coef(res[k - 1], m - 1)]
  }

  lemma LeadSolutionHolds(res: seq<Cells>, i: nat, m: nat, p: int)
    requires m >= 1 && FullyReduced(res, m, p) && !RhsLeads(res, m) && i < |res| && p > 1
    ensures RowHolds(res[i], LeadSolution(res, |res|, m, p) + [-1], m, p)
  {
    var x := LeadSolution(res, |res|, m, p);
    var v, row, c := x + [-1], ToDense(res[i], m), Lead(res[i]);
    forall j | 0 <= j < m - 1 && j != c
      ensures row[j] * v[j] == 0
    {
      if e :| 0 <= e < |res| && Lead(res[e]) == j {
        assert !HasCol(res[i], Lead(res[e]));
        CoefMissing(res[i], j);
      } else {
        assert x[j] == 0;
      }
    }
    ReducedSystem.DotSingle(row, v, c, m - 1);
    CongRefl(0, p);
  }

  /** A fully reduced system has a solution exactly when no row leads with the right-hand side. */
  lemma FullyReducedSolvable(res: seq<Cells>, m: nat, p: int)
    requires m >= 1 && FullyReduced(res, m, p) && p > 1
    ensures Solvable(res, m, p) <==> !RhsLeads(res, m)
  {
    if RhsLeads(res, m) {
      var i :| 0 <= i < |res| && Lead(res[i]) + 1 == m;
      RhsRow(res[i], m, p);
      forall x: Row | |x| == m - 1
        ensures !AllHold(res, x + [-1], m, p)
      {
        var v := x + [-1];
        DotZero(ToDense(res[i], m), v, m - 1);
        if RowHolds(res[i], v, m, p) {
          var k := CongElim(-1, 0, p);
          MultipleBound(k, p);
          assert false;
        }
      }
    } else {
      var x := LeadSolution(res, |res|, m, p);
      forall i | 0 <= i < |res|
        ensures RowHolds(res[i], x + [-1], m, p)
      {
        LeadSolutionHolds(res, i, m, p);
      }
    }
  }

  lemma RhsRow(r: Cells, m: nat, p: int)
    requires m >= 1 && WellFormed(r, m, p) && r != [] && r[0].val == 1 && Lead(r) + 1 == m
    ensures ToDense(r, m)[m - 1] == 1 && forall j :: 0 <= j < m - 1 ==> ToDense(r, m)[j] == 0
  {
    forall j | 0 <= j < m - 1
      ensures ToDense(r, m)[j] == 0
    {
      CoefMissing(r, j);
    }
  }

  /** Without flags the reduction is complete. */
  lemma ReducedFully(rows: seq<Cells>, m: nat, p: int)
    requires IsPrime(p) && AllWellFormed(rows, m, p)
    ensures FullyReduced(Reduced(rows, AllNeeded, m, p), m, p)
  {
    hide WellFormed, HasCol, Reduced;
    ReducedShape(rows, AllNeeded, m, p);
  }

  /** A system has a solution exactly when forward elimination leaves no row that leads with the
      right-hand side. */
  lemma SolvableIff(rows: seq<Cells>, m: nat, p: int)
    requires m >= 1 && IsPrime(p) && AllWellFormed(rows, m, p)
    ensures Solvable(rows, m, p) <==> !RhsLeads(NonZero(Forward(rows, |rows|, m, p)), m)
  {
    hide WellFormed, RowHolds, HasCol, BackRow, Forward;
    var d := NonZero(Forward(rows, |rows|, m, p));
    var res: seq<Cells> := Reduced(rows, AllNeeded, m, p);
    ReducedFully(rows, m, p);
    ForwardTriangular(rows, |rows|, m, p);
    NonZeroTriangular(Forward(rows, |rows|, m, p));
    NonZeroSubstitutable(Forward(rows, |rows|, m, p), m, p);
    forall i | 0 <= i < |res|
      ensures res[i] != [] && d[i] != [] && Lead(res[i]) == Lead(d[i])
    {
      BackClear(d, i, AllNeeded, m, p);
    }
    assert RhsLeads(res, m) <==> RhsLeads(d, m);
    FullyReducedSolvable(res, m, p);
    forall x: Row | |x| == m - 1
      ensures AllHold(res, x + [-1], m, p) <==> AllHold(rows, x + [-1], m, p)
    {
      ReducedHolds(rows, AllNeeded, x + [-1], m, p);
    }
  }
}
