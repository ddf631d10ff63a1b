/** Why the equations kept by the dense solver suffice (src/alg_linear_solver.cc:66-144, 208-250). */
module DenseLearning {
  import opened ModArith
  import opened LinearAlgebra
  import opened Elimination
  import opened ReducedSystem

  /** The row with the coefficients of the zero variables removed. */
  function ZeroColumns(row: Row, zero: seq<bool>): (r: Row)
    ensures |r| == |row|
    ensures forall j :: 0 <= j < |row| ==> r[j] == if j < |zero| && zero[j] then 0 else row[j]
  {
    seq(|row|, j requires 0 <= j < |row| => if j < |zero| && zero[j] then 0 else row[j])
  }

  function ZeroColumnsAll(rows: seq<Row>, zero: seq<bool>): (r: seq<Row>)
    ensures |r| == |rows|
    ensures forall i :: 0 <= i < |rows| ==> |r[i]| == |rows[i]| && r[i] == ZeroColumns(rows[i], zero)
  {
    seq(|rows|, i requires 0 <= i < |rows| => ZeroColumns(rows[i], zero))
  }

  /** The learned zero variables vanish in x. */
  ghost predicate ZeroesVanish(x: Row, zero: seq<bool>, p: int) {
    forall j :: 0 <= j < |zero| && j < |x| && zero[j] ==> Cong(x[j], 0, p)
  }

  lemma {:induction false} DotZeroColumns(row: Row, zero: seq<bool>, v: Row, m: nat, p: int)
    requires m <= |row| && m <= |v|
    requires forall j :: 0 <= j < m && j < |zero| && zero[j] ==> Cong(v[j], 0, p)
    ensures Cong(Dot(ZeroColumns(row, zero), v, m), Dot(row, v, m), p)
    decreases m
  {
    if m == 0 {
      CongRefl(0, p);
    } else {
      DotZeroColumns(row, zero, v, m - 1, p);
      var r, x := ZeroColumns(row, zero), v[m - 1];
      if m - 1 < |zero| && zero[m - 1] {
        CongRefl(row[m - 1], p);
        CongMul(row[m - 1], row[m - 1], x, 0, p);
        CongSym(row[m - 1] * x, 0, p);
      } else {
        CongRefl(row[m - 1] * x, p);
      }
      CongAdd(Dot(r, v, m - 1), Dot(row, v, m - 1), r[m - 1] * x, row[m - 1] * x, p);
    }
  }

  lemma ZeroColumnsHolds(row: Row, zero: seq<bool>, x: Row, m: nat, p: int)
    requires m >= 1 && m <= |row| && |x| == m - 1 && |zero| == m - 1 && ZeroesVanish(x, zero, p)
    ensures Holds(ZeroColumns(row, zero), x + [-1], m, p) <==> Holds(row, x + [-1], m, p)
  {
    DotZeroColumns(row, zero, x + [-1], m, p);
    CongHolds(Dot(ZeroColumns(row, zero), x + [-1], m), Dot(row, x + [-1], m), p);
  }

  /** Every zero variable vanishes in every solution. */
  ghost predicate ZeroesForced(rows: seq<Row>, zero: seq<bool>, m: nat, p: int)
    requires m >= 1 && Shape(rows, m)
  {
    forall x: Row :: |x| == m - 1 && IsSolution(rows, x, m, p) ==> ZeroesVanish(x, zero, p)
  }

  /** The picked equations and the learned zeroes describe exactly the solutions of the system. */
  ghost predicate PickedDescribe(rows: seq<Row>, picked: seq<nat>, zero: seq<bool>, m: nat, p: int)
    requires m >= 1 && Shape(rows, m) && forall i :: 0 <= i < |picked| ==> picked[i] < |rows|
  {
    forall x: Row :: |x| == m - 1 ==>
      (IsSolution(rows, x, m, p) <==>
        ZeroesVanish(x, zero, p) && forall i :: 0 <= i < |picked| ==> Holds(rows[picked[i]], x + [-1], m, p))
  }

  /** With the zero variables dropped, a solution of the system stays a solution, and back. */
  lemma ZeroColumnsSolution(rows: seq<Row>, zero: seq<bool>, x: Row, m: nat, p: int)
    requires m >= 1 && Shape(rows, m) && |x| == m - 1 && |zero| == m - 1 && ZeroesVanish(x, zero, p)
    ensures IsSolution(ZeroColumnsAll(rows, zero), x, m, p) <==> IsSolution(rows, x, m, p)
  {
    forall i | 0 <= i < |rows|
      ensures Holds(ZeroColumns(rows[i], zero), x + [-1], m, p) <==> Holds(rows[i], x + [-1], m, p)
    {
      ZeroColumnsHolds(rows[i], zero, x, m, p);
    }
  }

  lemma PickedSuffice(rows: seq<Row>, zero: seq<bool>, perm: seq<nat>, r: nat, m: nat, p: int)
    requires m >= 1 && Shape(rows, m) && |zero| == m - 1 && ZeroesForced(rows, zero, m, p)
    requires r <= |perm| && forall i :: 0 <= i < |perm| ==> perm[i] < |rows|
    requires PickSuffices(ZeroColumnsAll(rows, zero), perm, r, m, p)
    ensures PickedDescribe(rows, perm[..r], zero, m, p)
  {
    var reduced, picked := ZeroColumnsAll(rows, zero), perm[..r];
    forall x: Row | |x| == m - 1
      ensures IsSolution(rows, x, m, p) <==>
        ZeroesVanish(x, zero, p) && forall i :: 0 <= i < |picked| ==> Holds(rows[picked[i]], x + [-1], m, p)
    {
      if ZeroesVanish(x, zero, p) {
        ZeroColumnsSolution(rows, zero, x, m, p);
        forall i | 0 <= i < r
          ensures Holds(reduced[perm[i]], x + [-1], m, p) <==> Holds(rows[picked[i]], x + [-1], m, p)
        {
          ZeroColumnsHolds(rows[perm[i]], zero, x, m, p);
        }
        assert SolvesPicked(reduced, perm, r, x + [-1], m, p) <==>
          forall i :: 0 <= i < |picked| ==> Holds(rows[picked[i]], x + [-1], m, p);
      }
    }
  }

  // ---- reading the zero variables off the reduced system ----

  /** Row a says that its pivot variable is zero: no other entry, right-hand side included. */
  ghost predicate SaysZero(row: Row, c: nat, m: nat)
    requires c < m <= |row|
  {
    forall j :: c < j < m ==> row[j] == 0
  }

  /** zero marks exactly the pivot variables whose row says they are zero. */
  ghost predicate ZeroesRead(cur: seq<Row>, piv: seq<nat>, zero: seq<bool>, m: nat)
    requires Reduced(cur, piv, m) && |zero| == m - 1
  {
    forall c :: 0 <= c < m - 1 ==>
      (zero[c] <==> exists a :: 0 <= a < |piv| && piv[a] == c && SaysZero(cur[a], c, m))
  }

  lemma ZeroesReadForced(orig: seq<Row>, cur: seq<Row>, piv: seq<nat>, zero: seq<bool>, m: nat, p: int)
    requires m >= 1 && Shape(orig, m) && Reduced(cur, piv, m) && SameSolutions(orig, cur, m, p)
    requires |zero| == m - 1 && ZeroesRead(cur, piv, zero, m)
    ensures ZeroesForced(orig, zero, m, p)
  {
    forall x: Row | |x| == m - 1 && IsSolution(orig, x, m, p)
      ensures ZeroesVanish(x, zero, p)
    {
      var v := x + [-1];
      assert Solves(cur, |cur|, v, m, p);
      forall c | 0 <= c < m - 1 && zero[c]
        ensures Cong(x[c], 0, p)
      {
        var a :| 0 <= a < |piv| && piv[a] == c && SaysZero(cur[a], c, m);
        assert LeadsAt(cur[a], c, m) && Holds(cur[a], v, m, p);
        DotSingle(cur[a], v, c, m);
      }
    }
  }

  /** A solvable system stays solvable when its zero variables are dropped. */
  lemma StaysSolvable(rows: seq<Row>, zero: seq<bool>, m: nat, p: int)
    requires m >= 1 && Shape(rows, m) && |zero| == m - 1 && ZeroesForced(rows, zero, m, p)
    requires Solvable(rows, m, p)
    ensures Solvable(ZeroColumnsAll(rows, zero), m, p)
  {
    var x: Row :| |x| == m - 1 && IsSolution(rows, x, m, p);
    ZeroColumnsSolution(rows, zero, x, m, p);
  }

  lemma SameSolvable(a: seq<Row>, b: seq<Row>, m: nat, p: int)
    requires m >= 1 && Shape(a, m) && Shape(b, m) && SameSolutions(a, b, m, p)
    ensures Solvable(a, m, p) <==> Solvable(b, m, p)
  {
  }

  // ---- rows that agree on their first m columns ----

  ghost predicate SamePrefix(a: seq<Row>, b: seq<Row>, m: nat) {
    |a| == |b| && Shape(a, m) && Shape(b, m) && forall i, j :: 0 <= i < |a| && 0 <= j < m ==> a[i][j] == b[i][j]
  }

  lemma PrefixHolds(a: seq<Row>, b: seq<Row>, i: nat, v: Row, m: nat, p: int)
    requires SamePrefix(a, b, m) && i < |a| && |v| == m
    ensures Holds(a[i], v, m, p) <==> Holds(b[i], v, m, p)
  {
    DotSame(a[i], b[i], v, m);
  }

  lemma PrefixSameSolutions(a: seq<Row>, b: seq<Row>, m: nat, p: int)
    requires SamePrefix(a, b, m)
    ensures SameSolutions(a, b, m, p)
  {
    forall v: Row | |v| == m
      ensures Solves(a, |a|, v, m, p) <==> Solves(b, |b|, v, m, p)
    {
      forall i | 0 <= i < |a|
        ensures Holds(a[i], v, m, p) <==> Holds(b[i], v, m, p)
      {
        PrefixHolds(a, b, i, v, m, p);
      }
    }
  }

  lemma PrefixPickSuffices(a: seq<Row>, b: seq<Row>, perm: seq<nat>, r: nat, m: nat, p: int)
    requires SamePrefix(a, b, m) && r <= |perm| && forall i :: 0 <= i < |perm| ==> perm[i] < |a|
    requires PickSuffices(a, perm, r, m, p)
    ensures PickSuffices(b, perm, r, m, p)
  {
    PrefixSameSolutions(a, b, m, p);
    forall v: Row | |v| == m
      ensures Solves(b, |b|, v, m, p) <==> SolvesPicked(b, perm, r, v, m, p)
    {
      forall i | 0 <= i < r
        ensures Holds(a[perm[i]], v, m, p) <==> Holds(b[perm[i]], v, m, p)
      {
        PrefixHolds(a, b, perm[i], v, m, p);
      }
      assert SolvesPicked(a, perm, r, v, m, p) <==> SolvesPicked(b, perm, r, v, m, p);
    }
  }

  lemma ZeroColumnsPrefix(sample: seq<Row>, written: seq<Row>, cleared: seq<Row>, zero: seq<bool>, m: nat, p: int)
    requires SamePrefix(sample, written, m) && SamePrefix(cleared, ZeroColumnsAll(written, zero), m)
    requires MatrixInRange(sample, m, p) && p > 0
    ensures SamePrefix(cleared, ZeroColumnsAll(sample, zero), m) && MatrixInRange(cleared, m, p)
  {
  }

  lemma SameSolutionsTrans(a: seq<Row>, b: seq<Row>, c: seq<Row>, m: nat, p: int)
    requires Shape(a, m) && Shape(b, m) && Shape(c, m)
    requires SameSolutions(a, b, m, p) && SameSolutions(b, c, m, p)
    ensures SameSolutions(a, c, m, p)
  {
  }

  // ---- the two reductions of the first learning pass ----

  /** First reduction: an impossible sample is recognised, and the zeroes read off any other are forced. */
  lemma FirstReduction(sample: seq<Row>, filled: seq<Row>, cur: seq<Row>, piv: seq<nat>, m: nat, p: int)
    requires m >= 1 && p > 1 && SamePrefix(sample, filled, m) && Reduced(cur, piv, m) && SameSolutions(filled, cur, m, p)
    ensures RhsPivot(piv, m) <==> !Solvable(sample, m, p)
  {
    PrefixSameSolutions(sample, filled, m, p);
    SameSolutionsTrans(sample, filled, cur, m, p);
    SameSolvable(sample, cur, m, p);
    SolvableIff(cur, piv, m, p);
  }

  lemma FirstZeroes(sample: seq<Row>, filled: seq<Row>, cur: seq<Row>, piv: seq<nat>, zero: seq<bool>, m: nat, p: int)
    requires m >= 1 && SamePrefix(sample, filled, m) && Reduced(cur, piv, m) && SameSolutions(filled, cur, m, p)
    requires |zero| == m - 1 && ZeroesRead(cur, piv, zero, m)
    ensures ZeroesForced(sample, zero, m, p)
  {
    PrefixSameSolutions(sample, filled, m, p);
    SameSolutionsTrans(sample, filled, cur, m, p);
    ZeroesReadForced(sample, cur, piv, zero, m, p);
  }

  /** Second reduction: every pivot is a variable and the pivot equations describe the system. */
  lemma SecondReduction(sample: seq<Row>, zero: seq<bool>, filled: seq<Row>, cur: seq<Row>, perm: seq<nat>, piv: seq<nat>, m: nat, p: int)
    requires m >= 1 && p > 1 && Shape(sample, m) && Solvable(sample, m, p)
    requires |zero| == m - 1 && ZeroesForced(sample, zero, m, p)
    requires SamePrefix(filled, ZeroColumnsAll(sample, zero), m)
    requires Reduced(cur, piv, m) && SameSolutions(filled, cur, m, p)
    requires |perm| == |sample| && |piv| <= |perm| && forall i :: 0 <= i < |perm| ==> perm[i] < |sample|
    requires PickSuffices(filled, perm, |piv|, m, p)
    ensures VariablePivots(piv, m) == piv
    ensures PickedDescribe(sample, perm[..|piv|], zero, m, p)
  {
    var reduced := ZeroColumnsAll(sample, zero);
    StaysSolvable(sample, zero, m, p);
    PrefixSameSolutions(reduced, filled, m, p);
    SameSolutionsTrans(reduced, filled, cur, m, p);
    SameSolvable(reduced, cur, m, p);
    SolvableIff(cur, piv, m, p);
    PrefixPickSuffices(filled, reduced, perm, |piv|, m, p);
    PickedSuffice(sample, zero, perm, |piv|, m, p);
  }
}

/** What the dense solver's flags and outputs mean: which variables are pivots once the zero variables are
    gone, and when the output coefficients express a dependent variable through the needed independent ones
    (src/alg_linear_solver.cc:79-92, 178-206, 288-326). */
module DenseEvaluation {
  import opened ModArith
  import opened LinearAlgebra
  import opened Elimination
  import opened ReducedSystem
  import opened ReducedUnique
  import opened DenseLearning

  predicate IsZero(zero: seq<bool>, c: nat) {
    c < |zero| && zero[c]
  }

  /** The zero variables vanish in the vector v, whose last entry belongs to the right-hand side. */
  ghost predicate VectorVanishes(v: Row, zero: seq<bool>, m: nat, p: int)
    requires m <= |v|
  {
    forall j :: 0 <= j < m && IsZero(zero, j) ==> Cong(v[j], 0, p)
  }

  lemma ZeroesVanishIn(cur: seq<Row>, piv: seq<nat>, zero: seq<bool>, v: Row, m: nat, p: int)
    requires m >= 1 && Reduced(cur, piv, m) && |zero| == m - 1 && ZeroesRead(cur, piv, zero, m)
    requires |v| == m && Solves(cur, |cur|, v, m, p)
    ensures VectorVanishes(v, zero, m, p)
  {
    forall c | 0 <= c < m && IsZero(zero, c)
      ensures Cong(v[c], 0, p)
    {
      var a :| 0 <= a < |piv| && piv[a] == c && SaysZero(cur[a], c, m);
      assert LeadsAt(cur[a], c, m) && Holds(cur[a], v, m, p);
      DotSingle(cur[a], v, c, m);
    }
  }

  lemma ClearedSolves(rows: seq<Row>, zero: seq<bool>, v: Row, m: nat, p: int)
    requires Shape(rows, m) && |v| == m && VectorVanishes(v, zero, m, p)
    ensures Solves(ZeroColumnsAll(rows, zero), |rows|, v, m, p) <==> Solves(rows, |rows|, v, m, p)
  {
    forall i | 0 <= i < |rows|
      ensures Holds(ZeroColumns(rows[i], zero), v, m, p) <==> Holds(rows[i], v, m, p)
    {
      DotZeroColumns(rows[i], zero, v, m, p);
      CongHolds(Dot(ZeroColumns(rows[i], zero), v, m), Dot(rows[i], v, m), p);
    }
  }

  /** Setting the zero variables to 0 keeps a solution of the cleared system. */
  lemma DropZeroes(rows: seq<Row>, zero: seq<bool>, v: Row, m: nat, p: int)
    requires Shape(rows, m) && |v| == m && Solves(ZeroColumnsAll(rows, zero), |rows|, v, m, p)
    ensures Solves(ZeroColumnsAll(rows, zero), |rows|, ZeroColumns(v, zero), m, p)
    ensures VectorVanishes(ZeroColumns(v, zero), zero, m, p)
  {
    var w := ZeroColumns(v, zero);
    CongRefl(0, p);
    forall i | 0 <= i < |rows|
      ensures Holds(ZeroColumns(rows[i], zero), w, m, p)
    {
      var row := ZeroColumns(rows[i], zero);
      assert Holds(ZeroColumnsAll(rows, zero)[i], v, m, p);
      forall j | 0 <= j < m
        ensures row[j] * v[j] == row[j] * w[j]
      {
        if IsZero(zero, j) {
          assert row[j] == 0;
        }
      }
      DotSameVectors(row, v, w, m);
    }
  }

  lemma {:induction false} DotSameVectors(row: Row, v: Row, w: Row, m: nat)
    requires m <= |row| && m <= |v| && m <= |w| && forall j :: 0 <= j < m ==> row[j] * v[j] == row[j] * w[j]
    ensures Dot(row, v, m) == Dot(row, w, m)
    decreases m
  {
    if m > 0 {
      DotSameVectors(row, v, w, m - 1);
    }
  }

  /** The column of a zero variable is not forced: it is empty. */
  lemma ZeroNotForced(rows: seq<Row>, zero: seq<bool>, c: nat, m: nat, p: int)
    requires Shape(rows, m) && c < m && IsZero(zero, c) && p > 1
    ensures !Forced(ZeroColumnsAll(rows, zero), c, m, p)
  {
    var v := seq(m, j => if j == c then 1 else 0);
    CongRefl(0, p);
    forall i | 0 <= i < |rows|
      ensures Holds(ZeroColumns(rows[i], zero), v, m, p)
    {
      DotSingle(ZeroColumns(rows[i], zero), v, c, m);
    }
    assert Solves(ZeroColumnsAll(rows, zero), |rows|, v, m, p) && VanishesAfter(v, c, m, p);
    if Cong(v[c], 0, p) {
      CongUnique(1, 0, p);
    }
  }

  /** Any other column is forced in the cleared system exactly when it is in the full one. */
  lemma ForcedAfterZeroes(rows: seq<Row>, cur: seq<Row>, piv: seq<nat>, zero: seq<bool>, c: nat, m: nat, p: int)
    requires m >= 1 && Shape(rows, m) && Reduced(cur, piv, m) && SameSolutions(rows, cur, m, p)
    requires |zero| == m - 1 && ZeroesRead(cur, piv, zero, m) && c < m && !IsZero(zero, c)
    ensures Forced(ZeroColumnsAll(rows, zero), c, m, p) <==> Forced(rows, c, m, p)
  {
    var cleared := ZeroColumnsAll(rows, zero);
    if Forced(rows, c, m, p) {
      forall w: Row | |w| == m && Solves(cleared, |cleared|, w, m, p) && VanishesAfter(w, c, m, p)
        ensures Cong(w[c], 0, p)
      {
        var v := ZeroColumns(w, zero);
        DropZeroes(rows, zero, w, m, p);
        ClearedSolves(rows, zero, v, m, p);
        CongRefl(0, p);
        assert VanishesAfter(v, c, m, p);
        assert v[c] == w[c];
      }
    }
    if Forced(cleared, c, m, p) {
      forall v: Row | |v| == m && Solves(rows, |rows|, v, m, p) && VanishesAfter(v, c, m, p)
        ensures Cong(v[c], 0, p)
      {
        ZeroesVanishIn(cur, piv, zero, v, m, p);
        ClearedSolves(rows, zero, v, m, p);
      }
    }
  }

  /** Dropping the zero variables takes exactly their columns from the pivots. */
  lemma PivotsAfterZeroes(rows: seq<Row>, cur: seq<Row>, piv: seq<nat>, zero: seq<bool>,
                          cur': seq<Row>, piv': seq<nat>, m: nat, p: int)
    requires m >= 1 && Shape(rows, m) && p > 1 && |zero| == m - 1
    requires Reduced(cur, piv, m) && SameSolutions(rows, cur, m, p) && ZeroesRead(cur, piv, zero, m)
    requires Reduced(cur', piv', m) && SameSolutions(ZeroColumnsAll(rows, zero), cur', m, p)
    ensures forall c: nat :: c in piv' <==> c in piv && !IsZero(zero, c)
  {
    var cleared := ZeroColumnsAll(rows, zero);
    forall c: nat
      ensures c in piv' <==> c in piv && !IsZero(zero, c)
    {
      if c < m {
        PivotIff(cur, piv, c, m, p);
        PivotIff(cur', piv', c, m, p);
        assert Forced(cur, c, m, p) <==> Forced(rows, c, m, p);
        assert Forced(cur', c, m, p) <==> Forced(cleared, c, m, p);
        if IsZero(zero, c) {
          ZeroNotForced(rows, zero, c, m, p);
        } else {
          ForcedAfterZeroes(rows, cur, piv, zero, c, m, p);
        }
      }
    }
  }

  /** No zero variable is a pivot of the cleared system, and its column stays empty. */
  lemma ZeroColumnEmpty(rows: seq<Row>, zero: seq<bool>, cur: seq<Row>, piv: seq<nat>, c: nat, m: nat, p: int)
    requires Shape(rows, m) && p > 1 && c < m && IsZero(zero, c)
    requires Reduced(cur, piv, m) && SameSolutions(ZeroColumnsAll(rows, zero), cur, m, p) && MatrixInRange(cur, m, p)
    ensures c !in piv && forall i :: 0 <= i < |cur| ==> cur[i][c] == 0
  {
    ZeroNotForced(rows, zero, c, m, p);
    PivotIff(cur, piv, c, m, p);
    var v := seq(m, j => if j == c then 1 else 0);
    CongRefl(0, p);
    forall i | 0 <= i < |rows|
      ensures Holds(ZeroColumns(rows[i], zero), v, m, p)
    {
      DotSingle(ZeroColumns(rows[i], zero), v, c, m);
    }
    assert Solves(ZeroColumnsAll(rows, zero), |rows|, v, m, p);
    forall i | 0 <= i < |cur|
      ensures cur[i][c] == 0
    {
      assert Holds(cur[i], v, m, p) && InRange(cur[i], m, p);
      DotSingle(cur[i], v, c, m);
      CongUnique(cur[i][c], 0, p);
    }
  }

  // ---- what the output of one row says ----

  function NegMod(a: int, p: int): (r: int)
    requires p > 0
  {
    -a % p
  }

  /** The coefficients of the needed independent variables, moved to the other side, then the right-hand side. */
  function RowOutput(row: Row, indep: seq<nat>, homog: bool, m: nat, p: int): (out: seq<int>)
    requires 1 <= m <= |row| && p > 0 && forall l :: 0 <= l < |indep| ==> indep[l] < m
    ensures |out| == |indep| + if homog then 0 else 1
    ensures forall l :: 0 <= l < |indep| ==> out[l] == NegMod(row[indep[l]], p)
    ensures !homog ==> out[|indep|] == row[m - 1]
  {
    seq(|indep|, l requires 0 <= l < |indep| => NegMod(row[indep[l]], p)) + if homog then [] else [row[m - 1]]
  }

  /** The first k coefficients applied to the independent variables of x. */
  function Applied(out: seq<int>, indep: seq<nat>, x: Row, k: nat): int
    requires k <= |indep| && k <= |out| && forall l :: 0 <= l < k ==> indep[l] < |x|
  {
    if k == 0 then 0 else Applied(out, indep, x, k - 1) + out[k - 1] * x[indep[k - 1]]
  }

  /** The value that the output of a row gives its dependent variable. */
  function AnswerValue(out: seq<int>, indep: seq<nat>, homog: bool, x: Row): int
    requires |out| == |indep| + (if homog then 0 else 1) && forall l :: 0 <= l < |indep| ==> indep[l] < |x|
  {
    Applied(out, indep, x, |indep|) + if homog then 0 else out[|indep|]
  }

  /** The entries outside the listed columns. */
  function Left(row: Row, cols: seq<nat>): (r: Row)
    requires forall l :: 0 <= l < |cols| ==> cols[l] < |row|
    ensures |r| == |row| && forall j :: 0 <= j < |row| ==> r[j] == if j in cols then 0 else row[j]
  {
    if cols == [] then row else
      assert cols == cols[..|cols| - 1] + [cols[|cols| - 1]];
      Left(row, cols[..|cols| - 1])[cols[|cols| - 1] := 0]
  }

  lemma {:induction false} DotClearOne(row: Row, v: Row, c: nat, m: nat)
    requires c < m <= |row| && m <= |v|
    ensures Dot(row, v, m) == Dot(row[c := 0], v, m) + row[c] * v[c]
    decreases m
  {
    if c == m - 1 {
      DotSame(row, row[c := 0], v, c);
    } else {
      DotClearOne(row, v, c, m - 1);
    }
  }

  lemma ClearStep(d: int, applied: int, before: int, after: int, r: int, x: int, p: int)
    requires p > 0 && Cong(d + applied, before, p) && before == after + r * x
    ensures Cong(d + (applied + NegMod(r, p) * x), after, p)
  {
    CongMod(-r, p);
    CongRefl(x, p);
    CongMul(-r % p, -r, x, x, p);
    CongAdd(d + applied, before, -r % p * x, -r * x, p);
    assert before + -r * x == after;
  }

  /** One more listed column. */
  lemma DotLeftNext(row: Row, cols: seq<nat>, out: seq<int>, x: Row, k: nat, m: nat, p: int)
    requires 1 <= m <= |row| && |x| == m - 1 && p > 0 && Increasing(cols) && |cols| == k + 1 <= |out|
    requires forall l :: 0 <= l < |cols| ==> cols[l] < m - 1
    requires out[k] == NegMod(row[cols[k]], p)
    requires Cong(Dot(row, x + [-1], m) + Applied(out, cols[..k], x, k), Dot(Left(row, cols[..k]), x + [-1], m), p)
    ensures Cong(Dot(row, x + [-1], m) + Applied(out, cols, x, k + 1), Dot(Left(row, cols), x + [-1], m), p)
  {
    var v, c := x + [-1], cols[k];
    var before := Left(row, cols[..k]);
    assert Applied(out, cols, x, k + 1) == Applied(out, cols, x, k) + out[k] * x[c] && v[c] == x[c];
    hide *;
    AppliedPrefix(out, cols, x, k);
    DotClearOne(before, v, c, m);
    LeftLast(row, cols);
    ClearStep(Dot(row, v, m), Applied(out, cols, x, k), Dot(before, v, m), Dot(Left(row, cols), v, m), row[c], x[c], p);
  }

  /** The listed columns contribute what the output coefficients give, with the opposite sign. */
  lemma {:induction false} DotLeft(row: Row, cols: seq<nat>, out: seq<int>, x: Row, m: nat, p: int)
    requires 1 <= m <= |row| && |x| == m - 1 && p > 0 && Increasing(cols)
    requires forall l :: 0 <= l < |cols| ==> cols[l] < m - 1
    requires |cols| <= |out| && forall l :: 0 <= l < |cols| ==> out[l] == NegMod(row[cols[l]], p)
    ensures Cong(Dot(row, x + [-1], m) + Applied(out, cols, x, |cols|), Dot(Left(row, cols), x + [-1], m), p)
    decreases |cols|
  {
    hide Dot, NegMod, Cong;
    if cols == [] {
      CongRefl(Dot(row, x + [-1], m), p);
    } else {
      DotLeft(row, cols[..|cols| - 1], out, x, m, p);
      DotLeftNext(row, cols, out, x, |cols| - 1, m, p);
    }
  }

  lemma LeftLast(row: Row, cols: seq<nat>)
    requires cols != [] && Increasing(cols) && forall l :: 0 <= l < |cols| ==> cols[l] < |row|
    ensures
      var k := |cols| - 1;
      Left(row, cols) == Left(row, cols[..k])[cols[k] := 0] && Left(row, cols[..k])[cols[k]] == row[cols[k]]
  {
  }

  lemma {:induction false} AppliedPrefix(out: seq<int>, cols: seq<nat>, x: Row, k: nat)
    requires k <= |cols| && k <= |out| && forall l :: 0 <= l < k ==> cols[l] < |x|
    ensures Applied(out, cols[..k], x, k) == Applied(out, cols, x, k)
    decreases k
  {
    if k > 0 {
      AppliedPrefix(out, cols, x, k - 1);
      assert cols[..k][..k - 1] == cols[..k - 1];
      AppliedPrefix(out, cols[..k], x, k - 1);
    }
  }

  /** Every entry of the row is its pivot, in a listed column, or a right-hand side that is put out. */
  predicate Covered(row: Row, dep: nat, indep: seq<nat>, homog: bool, m: nat)
    requires 1 <= m <= |row|
  {
    forall j :: 0 <= j < m && j != dep && j !in indep && (homog || j < m - 1) ==> row[j] == 0
  }

  /** The entries that the output leaves out. */
  function Rest(row: Row, dep: nat, indep: seq<nat>, homog: bool, m: nat): (r: Row)
    requires 1 <= m <= |row| && dep < m && forall l :: 0 <= l < |indep| ==> indep[l] < m
    ensures |r| == |row|
    ensures forall j :: 0 <= j < m ==>
      r[j] == if j == dep || j in indep || (!homog && j == m - 1) then 0 else row[j]
  {
    var r := Left(row, indep)[dep := 0];
    if homog then r else r[m - 1 := 0]
  }

  /** On a solution of the row, the value given by the output differs from the variable by what is left out. */
  lemma AnswerGap(row: Row, dep: nat, indep: seq<nat>, homog: bool, x: Row, m: nat, p: int)
    requires 1 <= m <= |row| && |x| == m - 1 && p > 0 && dep < m - 1 && row[dep] == 1 && dep !in indep
    requires Increasing(indep) && forall l :: 0 <= l < |indep| ==> indep[l] < m - 1
    requires Holds(row, x + [-1], m, p)
    ensures Cong(AnswerValue(RowOutput(row, indep, homog, m, p), indep, homog, x), x[dep], p)
       <==> Cong(Dot(Rest(row, dep, indep, homog, m), x + [-1], m), 0, p)
  {
    hide Left, RowOutput, Applied, Dot, Cong, Increasing;
    var v, out := x + [-1], RowOutput(row, indep, homog, m, p);
    var left := Left(row, indep);
    DotLeft(row, indep, out, x, m, p);
    DotClearOne(left, v, dep, m);
    if !homog {
      DotClearOne(left[dep := 0], v, m - 1, m);
      assert m - 1 !in indep;
    }
    var rest := Rest(row, dep, indep, homog, m);
    var constant := if homog then 0 else row[m - 1];
    assert Dot(left, v, m) == Dot(rest, v, m) + x[dep] - constant;
    var applied := Applied(out, indep, x, |indep|);
    assert AnswerValue(out, indep, homog, x) == applied + constant;
    GapStep(Dot(row, v, m), applied, Dot(rest, v, m), x[dep], constant, p);
  }

  lemma GapStep(d: int, applied: int, rest: int, x: int, constant: int, p: int)
    requires Cong(d, 0, p) && Cong(d + applied, rest + x - constant, p)
    ensures Cong(applied + constant, x, p) <==> Cong(rest, 0, p)
  {
    var k := CongElim(d, 0, p);
    var l := CongElim(d + applied, rest + x - constant, p);
    assert (l - k) * p == l * p - k * p;
    if Cong(applied + constant, x, p) {
      var n := CongElim(applied + constant, x, p);
      assert (n - (l - k)) * p == n * p - (l - k) * p;
      CongIntro(rest, 0, n - (l - k), p);
    }
    if Cong(rest, 0, p) {
      var n := CongElim(rest, 0, p);
      assert (n + (l - k)) * p == n * p + (l - k) * p;
      CongIntro(applied + constant, x, n + (l - k), p);
    }
  }

  lemma {:induction false} DotDiff(row: Row, v: Row, w: Row, u: Row, m: nat)
    requires m <= |row| && m <= |v| && m <= |w| && m <= |u| && forall j :: 0 <= j < m ==> u[j] == v[j] - w[j]
    ensures Dot(row, u, m) == Dot(row, v, m) - Dot(row, w, m)
    decreases m
  {
    if m > 0 {
      DotDiff(row, v, w, u, m - 1);
      assert row[m - 1] * u[m - 1] == row[m - 1] * v[m - 1] - row[m - 1] * w[m - 1];
    }
  }

  lemma SolvesDiff(rows: seq<Row>, v: Row, w: Row, u: Row, m: nat, p: int)
    requires Shape(rows, m) && |v| == m && |w| == m && |u| == m && forall j :: 0 <= j < m ==> u[j] == v[j] - w[j]
    requires Solves(rows, |rows|, v, m, p) && Solves(rows, |rows|, w, m, p)
    ensures Solves(rows, |rows|, u, m, p)
  {
    forall i | 0 <= i < |rows|
      ensures Holds(rows[i], u, m, p)
    {
      assert Holds(rows[i], v, m, p) && Holds(rows[i], w, m, p);
      DotDiff(rows[i], v, w, u, m);
      CongSub(Dot(rows[i], v, m), 0, Dot(rows[i], w, m), 0, p);
    }
  }

  lemma ZeroVectorSolves(rows: seq<Row>, v: Row, m: nat, p: int)
    requires Shape(rows, m) && |v| == m && forall j :: 0 <= j < m ==> v[j] == 0
    ensures Solves(rows, |rows|, v, m, p)
  {
    forall i | 0 <= i < |rows|
      ensures Holds(rows[i], v, m, p)
    {
      DotZeroVector(rows[i], v, m);
      CongRefl(0, p);
    }
  }

  lemma {:induction false} DotZeroVector(row: Row, v: Row, m: nat)
    requires m <= |row| && m <= |v| && forall j :: 0 <= j < m ==> v[j] == 0
    ensures Dot(row, v, m) == 0
    decreases m
  {
    if m > 0 {
      DotZeroVector(row, v, m - 1);
    }
  }

  /** Column c of the row alone: the free vector has no other entry where the rest of row i has one. */
  lemma RestOnFree(cur: seq<Row>, piv: seq<nat>, rest: Row, c: nat, m: nat)
    requires Reduced(cur, piv, m) && c < m <= |rest| && c !in piv
    requires forall j :: 0 <= j < m && j in piv ==> rest[j] == 0
    ensures Dot(rest, FreeVector(cur, piv, c, m), m) == rest[c]
  {
    var v := FreeVector(cur, piv, c, m);
    DotSingle(rest, v, c, m);
  }

  ghost predicate AlwaysRight(cur: seq<Row>, i: nat, dep: nat, indep: seq<nat>, homog: bool, m: nat, p: int)
    requires 1 <= m && Shape(cur, m) && i < |cur| && p > 0 && dep < m - 1
    requires forall l :: 0 <= l < |indep| ==> indep[l] < m - 1
  {
    forall x: Row :: |x| == m - 1 && IsSolution(cur, x, m, p) ==>
      Cong(AnswerValue(RowOutput(cur[i], indep, homog, m, p), indep, homog, x), x[dep], p)
  }

  /** If the answer is always right, what is left out vanishes on every solution. */
  lemma RestVanishes(cur: seq<Row>, i: nat, dep: nat, indep: seq<nat>, homog: bool, u: Row, m: nat, p: int)
    requires 1 <= m && Shape(cur, m) && i < |cur| && p > 0 && dep < m - 1 && dep !in indep && cur[i][dep] == 1
    requires Increasing(indep) && forall l :: 0 <= l < |indep| ==> indep[l] < m - 1
    requires AlwaysRight(cur, i, dep, indep, homog, m, p)
    requires |u| == m && u[m - 1] == -1 && Solves(cur, |cur|, u, m, p)
    ensures Cong(Dot(Rest(cur[i], dep, indep, homog, m), u, m), 0, p)
  {
    var x := u[..m - 1];
    assert u == x + [-1];
    assert IsSolution(cur, x, m, p) && Holds(cur[i], x + [-1], m, p);
    AnswerGap(cur[i], dep, indep, homog, x, m, p);
  }

  lemma RhsNoPivot(piv: seq<nat>, m: nat)
    requires Increasing(piv) && (forall a :: 0 <= a < |piv| ==> piv[a] < m) && !RhsPivot(piv, m) && m >= 1
    ensures m - 1 !in piv
  {
  }

  /** The solutions are probed with the free vectors of the right-hand side and of column c. */
  lemma LeftOut(cur: seq<Row>, piv: seq<nat>, i: nat, indep: seq<nat>, homog: bool, c: nat, m: nat, p: int)
    requires 1 <= m && Reduced(cur, piv, m) && p > 1 && !RhsPivot(piv, m) && i < |piv| && piv[i] < m - 1
    requires Increasing(indep) && forall l :: 0 <= l < |indep| ==> indep[l] < m - 1 && indep[l] !in piv
    requires AlwaysRight(cur, i, piv[i], indep, homog, m, p)
    requires c < m && c !in piv && c !in indep && (homog || c < m - 1) && InRange(cur[i], m, p)
    ensures cur[i][c] == 0
  {
    var dep, rest := piv[i], Rest(cur[i], piv[i], indep, homog, m);
    RestAtPivots(cur, piv, i, indep, homog, m);
    RhsNoPivot(piv, m);
    var r, zero := m - 1, seq(m, j => 0);
    var w := FreeVector(cur, piv, r, m);
    var u := seq(m, j requires 0 <= j < m => zero[j] - w[j]);
    FreeVectorSolves(cur, piv, r, m, p);
    ZeroVectorSolves(cur, zero, m, p);
    SolvesDiff(cur, zero, w, u, m, p);
    RestOnFree(cur, piv, rest, r, m);
    DotDiff(rest, zero, w, u, m);
    DotZeroVector(rest, zero, m);
    RestVanishes(cur, i, dep, indep, homog, u, m, p);
    NegatedVanishes(rest[r], p);
    if c < r {
      var f := FreeVector(cur, piv, c, m);
      var g := seq(m, j requires 0 <= j < m => f[j] - w[j]);
      FreeVectorSolves(cur, piv, c, m, p);
      SolvesDiff(cur, f, w, g, m, p);
      RestOnFree(cur, piv, rest, c, m);
      DotDiff(rest, f, w, g, m);
      assert PivotRow(piv, r) == |piv| && f[r] == 0;
      RestVanishes(cur, i, dep, indep, homog, g, m, p);
      CongAdd(rest[c] - rest[r], 0, rest[r], 0, p);
    }
    CongUnique(cur[i][c], 0, p);
  }

  lemma NegatedVanishes(a: int, p: int)
    requires Cong(0 - a, 0, p)
    ensures Cong(a, 0, p)
  {
    var k := CongElim(0 - a, 0, p);
    assert -k * p == -(k * p);
    CongIntro(a, 0, -k, p);
  }

  lemma RestAtPivots(cur: seq<Row>, piv: seq<nat>, i: nat, indep: seq<nat>, homog: bool, m: nat)
    requires 1 <= m && Reduced(cur, piv, m) && i < |piv| && forall l :: 0 <= l < |indep| ==> indep[l] < m
    ensures forall j :: 0 <= j < m && j in piv ==> Rest(cur[i], piv[i], indep, homog, m)[j] == 0
  {
    forall j | 0 <= j < m && j in piv
      ensures Rest(cur[i], piv[i], indep, homog, m)[j] == 0
    {
      var a :| 0 <= a < |piv| && piv[a] == j;
      assert a != i ==> cur[i][piv[a]] == 0;
    }
  }

  /** The output of a pivot row is right for every solution exactly when it leaves nothing out. */
  lemma AnswerIff(cur: seq<Row>, piv: seq<nat>, i: nat, indep: seq<nat>, homog: bool, m: nat, p: int)
    requires 1 <= m && Reduced(cur, piv, m) && MatrixInRange(cur, m, p) && p > 1 && !RhsPivot(piv, m) && i < |piv|
    requires piv[i] < m - 1
    requires Increasing(indep) && forall l :: 0 <= l < |indep| ==> indep[l] < m - 1 && indep[l] !in piv
    ensures AlwaysRight(cur, i, piv[i], indep, homog, m, p) <==> Covered(cur[i], piv[i], indep, homog, m)
  {
    var dep, row := piv[i], cur[i];
    var rest := Rest(row, dep, indep, homog, m);
    assert LeadsAt(row, dep, m);
    assert dep !in indep;
    if Covered(row, dep, indep, homog, m) {
      forall x: Row | |x| == m - 1 && IsSolution(cur, x, m, p)
        ensures Cong(AnswerValue(RowOutput(row, indep, homog, m, p), indep, homog, x), x[dep], p)
      {
        assert Holds(row, x + [-1], m, p);
        DotZero(rest, x + [-1], m);
        CongRefl(0, p);
        AnswerGap(row, dep, indep, homog, x, m, p);
      }
    }
    if AlwaysRight(cur, i, dep, indep, homog, m, p) {
      forall c | 0 <= c < m && c != dep && c !in indep && (homog || c < m - 1)
        ensures row[c] == 0
      {
        if c in piv {
          var a :| 0 <= a < |piv| && piv[a] == c;
          assert row[piv[a]] == 0;
        } else {
          LeftOut(cur, piv, i, indep, homog, c, m, p);
        }
      }
    }
  }

  // ---- the whole output ----

  /** The needed ones among the first k dependent variables. */
  function NeededOf(depv: seq<nat>, needed: seq<bool>, k: nat): (s: seq<nat>)
    requires k <= |depv| && forall a :: 0 <= a < |depv| ==> depv[a] < |needed|
    ensures forall c :: c in s <==> exists a :: 0 <= a < k && depv[a] == c && needed[c]
  {
    if k == 0 then [] else
      NeededOf(depv, needed, k - 1) + if needed[depv[k - 1]] then [depv[k - 1]] else []
  }

  function Width(indep: seq<nat>, homog: bool): nat {
    |indep| + if homog then 0 else 1
  }

  /** The outputs of the first k rows, those of needed variables only. */
  function Outputs(cur: seq<Row>, depv: seq<nat>, needed: seq<bool>, indep: seq<nat>, homog: bool, k: nat, m: nat, p: int): seq<int>
    requires 1 <= m && Shape(cur, m) && p > 0 && k <= |depv| <= |cur|
    requires forall a :: 0 <= a < |depv| ==> depv[a] < |needed|
    requires forall l :: 0 <= l < |indep| ==> indep[l] < m
  {
    if k == 0 then [] else
      Outputs(cur, depv, needed, indep, homog, k - 1, m, p)
      + if needed[depv[k - 1]] then RowOutput(cur[k - 1], indep, homog, m, p) else []
  }

  /** The number of outputs: a block for each needed dependent variable. */
  lemma {:induction false} OutputsLength(cur: seq<Row>, depv: seq<nat>, needed: seq<bool>, indep: seq<nat>, homog: bool, k: nat, m: nat, p: int)
    requires 1 <= m && Shape(cur, m) && p > 0 && k <= |depv| <= |cur|
    requires forall a :: 0 <= a < |depv| ==> depv[a] < |needed|
    requires forall l :: 0 <= l < |indep| ==> indep[l] < m
    ensures |Outputs(cur, depv, needed, indep, homog, k, m, p)| == Times(|NeededOf(depv, needed, k)|, Width(indep, homog))
    decreases k
  {
    OneMore(if k > 0 then |NeededOf(depv, needed, k - 1)| else 0, Width(indep, homog));
    hide Times;
    if k > 0 {
      OutputsLength(cur, depv, needed, indep, homog, k - 1, m, p);
    }
  }

  function Times(n: nat, w: nat): nat {
    n * w
  }

  lemma OneMore(n: nat, w: nat)
    ensures Times(n + 1, w) == Times(n, w) + w && Times(0, w) == 0
  {
  }

  /** The block of the needed variable of row a, found by the number of needed variables before it. */
  lemma {:induction false} OutputBlock(cur: seq<Row>, depv: seq<nat>, needed: seq<bool>, indep: seq<nat>, homog: bool,
                                       a: nat, k: nat, m: nat, p: int)
    requires 1 <= m && Shape(cur, m) && p > 0 && a < k <= |depv| <= |cur|
    requires forall a :: 0 <= a < |depv| ==> depv[a] < |needed|
    requires forall l :: 0 <= l < |indep| ==> indep[l] < m
    requires needed[depv[a]]
    ensures
      var out, w := Outputs(cur, depv, needed, indep, homog, k, m, p), Width(indep, homog);
      var start := Times(|NeededOf(depv, needed, a)|, w);
      start + w <= |out| && out[start..start + w] == RowOutput(cur[a], indep, homog, m, p)
    decreases k
  {
    hide Times, NeededOf, RowOutput;
    OutputsLength(cur, depv, needed, indep, homog, a, m, p);
    if k > a + 1 {
      OutputBlock(cur, depv, needed, indep, homog, a, k - 1, m, p);
    }
    var before := Outputs(cur, depv, needed, indep, homog, k - 1, m, p);
    var last := if needed[depv[k - 1]] then RowOutput(cur[k - 1], indep, homog, m, p) else [];
    Slices(before, last, Times(|NeededOf(depv, needed, a)|, Width(indep, homog)), Width(indep, homog));
  }

  lemma Slices(s: seq<int>, t: seq<int>, start: nat, w: nat)
    ensures start + w <= |s| ==> (s + t)[start..start + w] == s[start..start + w]
    ensures start == |s| && w == |t| ==> (s + t)[start..start + w] == t
  {
  }

  // ---- the state after learning ----

  /** The picked rows. */
  function PickRows(rows: seq<Row>, picked: seq<nat>): (r: seq<Row>)
    requires forall i :: 0 <= i < |picked| ==> picked[i] < |rows|
    ensures |r| == |picked| && forall i :: 0 <= i < |picked| ==> r[i] == rows[picked[i]]
  {
    seq(|picked|, i requires 0 <= i < |picked| => rows[picked[i]])
  }

  lemma PickedSame(rows: seq<Row>, perm: seq<nat>, r: nat, m: nat, p: int)
    requires Shape(rows, m) && r <= |perm| && (forall i :: 0 <= i < |perm| ==> perm[i] < |rows|)
    requires PickSuffices(rows, perm, r, m, p)
    ensures Shape(PickRows(rows, perm[..r]), m) && SameSolutions(rows, PickRows(rows, perm[..r]), m, p)
  {
    var picked := PickRows(rows, perm[..r]);
    forall v: Row | |v| == m
      ensures Solves(rows, |rows|, v, m, p) <==> Solves(picked, |picked|, v, m, p)
    {
      assert SolvesPicked(rows, perm, r, v, m, p) <==> forall i :: 0 <= i < r ==> Holds(picked[i], v, m, p);
    }
  }

  lemma ClearedPicks(rows: seq<Row>, picked: seq<nat>, zero: seq<bool>)
    requires forall i :: 0 <= i < |picked| ==> picked[i] < |rows|
    ensures ZeroColumnsAll(PickRows(rows, picked), zero) == PickRows(ZeroColumnsAll(rows, zero), picked)
  {
  }

  /** The variables flagged as dependent by the two passes are the final pivots and the zero variables. */
  lemma FlagsAfterPasses(rows: seq<Row>, cur: seq<Row>, piv: seq<nat>, zero: seq<bool>,
                         cur': seq<Row>, piv': seq<nat>, m: nat, p: int)
    requires m >= 1 && Shape(rows, m) && p > 1 && |zero| == m - 1
    requires Reduced(cur, piv, m) && SameSolutions(rows, cur, m, p) && ZeroesRead(cur, piv, zero, m)
    requires Reduced(cur', piv', m) && SameSolutions(ZeroColumnsAll(rows, zero), cur', m, p)
    ensures forall c: nat :: c < m - 1 ==> ((c in piv || c in piv') <==> (c in piv' || zero[c]))
    ensures forall c: nat :: c < m - 1 && c in piv' ==> !zero[c]
  {
    PivotsAfterZeroes(rows, cur, piv, zero, cur', piv', m, p);
  }

  /** Entry c of the row of a needed dependent variable makes variable c needed. */
  ghost predicate MadeNeeded(cur: seq<Row>, depv: seq<nat>, needed: seq<bool>, k: nat, c: nat)
    requires k <= |depv| <= |cur| && Shape(cur, |needed|) && c < |needed|
    requires forall a :: 0 <= a < |depv| ==> depv[a] < |needed|
  {
    exists a :: 0 <= a < k && needed[depv[a]] && depv[a] < c && cur[a][c] != 0
  }

  /** Once the flags are extended, no row of a needed variable has an entry outside the needed independent ones. */
  lemma NeededCovers(cur: seq<Row>, piv: seq<nat>, zero: seq<bool>, needed: seq<bool>, indep: seq<nat>, a: nat, m: nat)
    requires m >= 1 && Reduced(cur, piv, m) && |needed| == m - 1 == |zero| && a < |piv|
    requires (forall a :: 0 <= a < |piv| ==> piv[a] < m - 1) && needed[piv[a]]
    requires forall c :: 0 <= c < m - 1 && zero[c] ==> cur[a][c] == 0
    requires forall c: nat :: c < m - 1 && c !in piv && !zero[c] && MadeNeeded(cur, piv, needed, |piv|, c) ==> c in indep
    ensures Covered(cur[a], piv[a], indep, false, m)
  {
    forall c: nat | c < m - 1 && c != piv[a] && c !in indep
      ensures cur[a][c] == 0
    {
      if c in piv {
        var b :| 0 <= b < |piv| && piv[b] == c;
        assert cur[a][piv[b]] == 0;
      } else if c < piv[a] {
        assert LeadsAt(cur[a], piv[a], m);
      }
    }
  }

  /** Evaluating the kept equations where they were learned gives the learned rows again, and the output of
      each needed variable is right for every solution of the full system if it need not put out a constant. */
  lemma EvaluationRight(sample: seq<Row>, picked: seq<nat>, zero: seq<bool>, form: seq<Row>, learned: seq<nat>,
                        cur: seq<Row>, piv: seq<nat>, indep: seq<nat>, homog: bool, a: nat, x: Row, m: nat, p: int)
    requires m >= 1 && p > 1 && Shape(sample, m) && |zero| == m - 1
    requires forall i :: 0 <= i < |picked| ==> picked[i] < |sample|
    requires Reduced(form, learned, m) && MatrixInRange(form, m, p)
    requires SameSolutions(ZeroColumnsAll(sample, zero), form, m, p)
    requires SameSolutions(ZeroColumnsAll(sample, zero), PickRows(ZeroColumnsAll(sample, zero), picked), m, p)
    requires Reduced(cur, piv, m) && MatrixInRange(cur, m, p)
    requires SameSolutions(ZeroColumnsAll(PickRows(sample, picked), zero), cur, m, p)
    requires a < |learned| && (forall b :: 0 <= b < |learned| ==> learned[b] < m - 1)
    requires Increasing(indep) && forall l :: 0 <= l < |indep| ==> indep[l] < m - 1 && indep[l] !in learned
    requires Covered(form[a], learned[a], indep, homog, m)
    requires |x| == m - 1 && IsSolution(sample, x, m, p) && ZeroesVanish(x, zero, p)
    ensures piv == learned
    ensures Cong(AnswerValue(RowOutput(cur[a], indep, homog, m, p), indep, homog, x), x[learned[a]], p)
  {
    var cleared := ZeroColumnsAll(sample, zero);
    ClearedPicks(sample, picked, zero);
    SameSolutionsSym(cleared, form, m, p);
    SameSolutionsTrans(form, cleared, PickRows(cleared, picked), m, p);
    SameSolutionsTrans(form, PickRows(cleared, picked), cur, m, p);
    ReducedDetermined(form, learned, cur, piv, m, p);
    ZeroColumnsSolution(sample, zero, x, m, p);
    assert IsSolution(form, x, m, p) && IsSolution(cur, x, m, p);
    assert Covered(cur[a], learned[a], indep, homog, m);
    assert !RhsPivot(piv, m);
    AnswerIff(cur, piv, a, indep, homog, m, p);
    assert AlwaysRight(cur, a, piv[a], indep, homog, m, p);
  }

  lemma SameSolutionsSym(a: seq<Row>, b: seq<Row>, m: nat, p: int)
    requires Shape(a, m) && Shape(b, m) && SameSolutions(a, b, m, p)
    ensures SameSolutions(b, a, m, p)
  {
  }

  /** The second reduction of the learning pass: its rows, the picked equations and the flags. */
  lemma SecondPass(sample: seq<Row>, zero: seq<bool>, filled: seq<Row>, cur: seq<Row>, perm: seq<nat>, piv: seq<nat>,
                   first: seq<Row>, firstPiv: seq<nat>, m: nat, p: int)
    requires m >= 1 && p > 1 && Shape(sample, m) && |zero| == m - 1
    requires SamePrefix(filled, ZeroColumnsAll(sample, zero), m)
    requires Reduced(cur, piv, m) && SameSolutions(filled, cur, m, p)
    requires Reduced(first, firstPiv, m) && SameSolutions(sample, first, m, p) && ZeroesRead(first, firstPiv, zero, m)
    requires |piv| <= |perm| && forall i :: 0 <= i < |perm| ==> perm[i] < |sample|
    requires PickSuffices(filled, perm, |piv|, m, p)
    ensures SameSolutions(ZeroColumnsAll(sample, zero), cur, m, p)
    ensures SameSolutions(ZeroColumnsAll(sample, zero), PickRows(ZeroColumnsAll(sample, zero), perm[..|piv|]), m, p)
    ensures forall c: nat :: c < m - 1 ==> ((c in firstPiv || c in piv) <==> (c in piv || zero[c]))
    ensures forall c: nat :: c < m - 1 && c in piv ==> !zero[c]
  {
    var cleared := ZeroColumnsAll(sample, zero);
    PrefixSameSolutions(cleared, filled, m, p);
    SameSolutionsTrans(cleared, filled, cur, m, p);
    PrefixPickSuffices(filled, cleared, perm, |piv|, m, p);
    PickedSame(cleared, perm, |piv|, m, p);
    FlagsAfterPasses(sample, first, firstPiv, zero, cur, piv, m, p);
  }

  /** The variable of a pivot row is made needed by no other row. */
  lemma PivotNotMade(cur: seq<Row>, piv: seq<nat>, needed: seq<bool>, k: nat, a: nat, m: nat)
    requires m >= 1 && Reduced(cur, piv, m) && |needed| == m - 1 && k <= |piv| && a < |piv|
    requires forall b :: 0 <= b < |piv| ==> piv[b] < m - 1
    ensures !MadeNeeded(cur, piv, needed, k, piv[a])
  {
  }

  /** What the next row adds. */
  lemma MadeNeededNext(cur: seq<Row>, depv: seq<nat>, needed: seq<bool>, k: nat, c: nat)
    requires k < |depv| <= |cur| && Shape(cur, |needed|) && c < |needed|
    requires forall a :: 0 <= a < |depv| ==> depv[a] < |needed|
    ensures MadeNeeded(cur, depv, needed, k + 1, c) <==>
      MadeNeeded(cur, depv, needed, k, c) || (needed[depv[k]] && depv[k] < c && cur[k][c] != 0)
  {
    if MadeNeeded(cur, depv, needed, k, c) {
      var a :| 0 <= a < k && needed[depv[a]] && depv[a] < c && cur[a][c] != 0;
      assert a < k + 1;
    }
  }

  lemma {:induction false} NeededOfIncreasing(depv: seq<nat>, needed: seq<bool>, k: nat)
    requires k <= |depv| && Increasing(depv) && forall a :: 0 <= a < |depv| ==> depv[a] < |needed|
    ensures Increasing(NeededOf(depv, needed, k))
    decreases k
  {
    if k > 0 {
      NeededOfIncreasing(depv, needed, k - 1);
      NeededOfBelow(depv, needed, k - 1);
    }
  }

  lemma NeededOfBelow(depv: seq<nat>, needed: seq<bool>, k: nat)
    requires k < |depv| && Increasing(depv) && forall a :: 0 <= a < |depv| ==> depv[a] < |needed|
    ensures forall i :: 0 <= i < |NeededOf(depv, needed, k)| ==> NeededOf(depv, needed, k)[i] < depv[k]
  {
    var s := NeededOf(depv, needed, k);
    forall i | 0 <= i < |s|
      ensures s[i] < depv[k]
    {
      assert s[i] in s;
    }
  }

  lemma {:induction false} NeededOfSame(depv: seq<nat>, needed: seq<bool>, needed': seq<bool>, k: nat)
    requires k <= |depv| && |needed| == |needed'| && forall a :: 0 <= a < |depv| ==> depv[a] < |needed|
    requires forall a :: 0 <= a < |depv| ==> needed[depv[a]] == needed'[depv[a]]
    ensures NeededOf(depv, needed, k) == NeededOf(depv, needed', k)
    decreases k
  {
    if k > 0 {
      NeededOfSame(depv, needed, needed', k - 1);
    }
  }

  /** The learned form has the solutions of the sample without its zero variables, and so have the equations kept. */
  ghost predicate LearnedSystem(form: seq<Row>, learned: seq<nat>, picked: seq<nat>, zero: seq<bool>, sample: seq<Row>,
                                m: nat, p: int)
  {
    && Shape(sample, m) && Reduced(form, learned, m) && MatrixInRange(form, m, p)
    && (forall i :: 0 <= i < |picked| ==> picked[i] < |sample|)
    && SameSolutions(ZeroColumnsAll(sample, zero), form, m, p)
    && SameSolutions(ZeroColumnsAll(sample, zero), PickRows(ZeroColumnsAll(sample, zero), picked), m, p)
  }

  /** No row of a needed variable has an entry outside the needed independent ones. */
  ghost predicate AllCovered(form: seq<Row>, learned: seq<nat>, needed: seq<bool>, indep: seq<nat>, m: nat) {
    && m >= 1 && |learned| <= |form| && Shape(form, m) && (forall a :: 0 <= a < |learned| ==> learned[a] < |needed|)
    && forall a :: 0 <= a < |learned| && needed[learned[a]] ==> Covered(form[a], learned[a], indep, false, m)
  }

  lemma LearnedCovered(form: seq<Row>, learned: seq<nat>, picked: seq<nat>, zero: seq<bool>, sample: seq<Row>,
                       needed: seq<bool>, needed': seq<bool>, indep: seq<nat>, m: nat, p: int)
    requires m >= 1 && p > 1 && LearnedSystem(form, learned, picked, zero, sample, m, p)
    requires |zero| == |needed| == |needed'| == m - 1 && forall a :: 0 <= a < |learned| ==> learned[a] < m - 1
    requires forall a :: 0 <= a < |learned| ==> needed[learned[a]] == needed'[learned[a]]
    requires forall c: nat :: c < m - 1 && c !in learned && !zero[c] && MadeNeeded(form, learned, needed, |learned|, c) ==> c in indep
    ensures AllCovered(form, learned, needed', indep, m)
  {
    forall a | 0 <= a < |learned| && needed'[learned[a]]
      ensures Covered(form[a], learned[a], indep, false, m)
    {
      forall c | 0 <= c < m - 1 && zero[c]
        ensures form[a][c] == 0
      {
        ZeroColumnEmpty(sample, zero, form, learned, c, m, p);
      }
      NeededCovers(form, learned, zero, needed, indep, a, m);
    }
  }

  lemma InsidePrefix(s: seq<nat>, t: seq<nat>, i: nat)
    requires Increasing(s) && Increasing(t) && s != [] && i < |t| && t[i] == s[|s| - 1]
    requires forall c :: c in s ==> c in t
    ensures forall c :: c in s[..|s| - 1] ==> c in t[..i]
  {
    forall c | c in s[..|s| - 1]
      ensures c in t[..i]
    {
      assert c in s && c < t[i];
      var j :| 0 <= j < |t| && t[j] == c;
      assert j < i;
    }
  }

  /** An increasing list inside another is not longer, and is the other if it is as long. */
  lemma {:induction false} IncreasingInside(s: seq<nat>, t: seq<nat>)
    requires Increasing(s) && Increasing(t) && forall c :: c in s ==> c in t
    ensures |s| <= |t| && (|s| == |t| ==> s == t)
    decreases |s|
  {
    if s != [] {
      var k := |s| - 1;
      assert s[k] in s;
      var i :| 0 <= i < |t| && t[i] == s[k];
      InsidePrefix(s, t, i);
      IncreasingInside(s[..k], t[..i]);
      hide Increasing;
      assert s == s[..k] + [s[k]];
      if |s| == |t| {
        assert t == t[..i] + [t[i]];
      }
    }
  }

  lemma ZeroesNoPivots(rows: seq<Row>, zero: seq<bool>, cur: seq<Row>, piv: seq<nat>, m: nat, p: int)
    requires Shape(rows, m) && p > 1 && Reduced(cur, piv, m) && |zero| <= m
    requires SameSolutions(ZeroColumnsAll(rows, zero), cur, m, p) && MatrixInRange(cur, m, p)
    ensures forall c: nat :: c < |zero| && c in piv ==> !zero[c]
  {
    forall c: nat | c < |zero| && zero[c]
      ensures c !in piv
    {
      ZeroColumnEmpty(rows, zero, cur, piv, c, m, p);
    }
  }

  lemma RowOutputNext(row: Row, indep: seq<nat>, k: nat, m: nat, p: int)
    requires 1 <= m <= |row| && p > 0 && k < |indep| && forall l :: 0 <= l < |indep| ==> indep[l] < m
    ensures RowOutput(row, indep[..k + 1], true, m, p) == RowOutput(row, indep[..k], true, m, p) + [NegMod(row[indep[k]], p)]
  {
  }

  lemma RowOutputWhole(row: Row, indep: seq<nat>, homog: bool, m: nat, p: int)
    requires 1 <= m <= |row| && p > 0 && forall l :: 0 <= l < |indep| ==> indep[l] < m
    ensures RowOutput(row, indep[..0], true, m, p) == []
    ensures RowOutput(row, indep, homog, m, p) == RowOutput(row, indep[..|indep|], true, m, p) + if homog then [] else [row[m - 1]]
  {
    assert indep[..|indep|] == indep;
  }

  lemma OutputsNext(cur: seq<Row>, depv: seq<nat>, needed: seq<bool>, indep: seq<nat>, homog: bool, k: nat, m: nat, p: int)
    requires 1 <= m && Shape(cur, m) && p > 0 && k < |depv| <= |cur|
    requires forall a :: 0 <= a < |depv| ==> depv[a] < |needed|
    requires forall l :: 0 <= l < |indep| ==> indep[l] < m
    ensures Outputs(cur, depv, needed, indep, homog, 0, m, p) == []
    ensures Outputs(cur, depv, needed, indep, homog, k + 1, m, p)
         == Outputs(cur, depv, needed, indep, homog, k, m, p)
            + if needed[depv[k]] then RowOutput(cur[k], indep, homog, m, p) else []
  {
  }

  /** The reduced form of the sample without its zero variables. */
  ghost predicate ReducedSample(cur: seq<Row>, piv: seq<nat>, sample: seq<Row>, zero: seq<bool>, m: nat, p: int) {
    && Shape(sample, m) && Reduced(cur, piv, m) && MatrixInRange(cur, m, p)
    && SameSolutions(ZeroColumnsAll(sample, zero), cur, m, p)
  }

  /** The blocks of all rows of needed variables. */
  ghost predicate PutsOut(out: seq<int>, cur: seq<Row>, learned: seq<nat>, needed: seq<bool>, indep: seq<nat>, homog: bool,
                          m: nat, p: int)
  {
    && 1 <= m && p > 0 && Shape(cur, m) && |learned| <= |cur|
    && (forall a :: 0 <= a < |learned| ==> learned[a] < |needed|) && (forall l :: 0 <= l < |indep| ==> indep[l] < m)
    && out == Outputs(cur, learned, needed, indep, homog, |learned|, m, p)
    && |out| == Times(|NeededOf(learned, needed, |learned|)|, Width(indep, homog))
  }

  /** The picked equations describe the sample, and cur is their reduced form. */
  ghost predicate PicksReduced(cur: seq<Row>, piv: seq<nat>, sample: seq<Row>, picked: seq<nat>, zero: seq<bool>, m: nat, p: int) {
    && m >= 1 && Shape(sample, m) && (forall i :: 0 <= i < |picked| ==> picked[i] < |sample|)
    && PickedDescribe(sample, picked, zero, m, p) && ReducedSample(cur, piv, PickRows(sample, picked), zero, m, p)
  }

  /** Row a has no right-hand side. */
  predicate NoConstant(form: seq<Row>, a: nat, m: nat) {
    1 <= m && a < |form| && m <= |form[a]| && form[a][m - 1] == 0
  }

  /** The block of row a in the output gives the value of its variable in x. */
  ghost predicate BlockAnswers(out: seq<int>, learned: seq<nat>, needed: seq<bool>, indep: seq<nat>, homog: bool, a: nat, x: Row, p: int) {
    && a < |learned| && (forall b :: 0 <= b < |learned| ==> learned[b] < |needed| && learned[b] < |x|)
    && (forall l :: 0 <= l < |indep| ==> indep[l] < |x|)
    && var w, start := Width(indep, homog), Times(|NeededOf(learned, needed, a)|, Width(indep, homog));
       start + w <= |out| && Cong(AnswerValue(out[start..start + w], indep, homog, x), x[learned[a]], p)
  }

  /** Evaluating the equations kept, at the point they were learned from: the pivots are the learned ones, and the
      block of each needed variable gives its value in every solution of the full system; without the constants,
      if the row has none. */
  lemma OutputsRight(sample: seq<Row>, picked: seq<nat>, zero: seq<bool>, form: seq<Row>, learned: seq<nat>,
                     cur: seq<Row>, piv: seq<nat>, needed: seq<bool>, indep: seq<nat>, homog: bool, out: seq<int>,
                     a: nat, x: Row, m: nat, p: int)
    requires m >= 1 && p > 1 && |zero| == m - 1 && LearnedSystem(form, learned, picked, zero, sample, m, p)
    requires PicksReduced(cur, piv, sample, picked, zero, m, p) && AllCovered(form, learned, needed, indep, m)
    requires PutsOut(out, cur, learned, needed, indep, homog, m, p)
    requires a < |learned| && (forall b :: 0 <= b < |learned| ==> learned[b] < m - 1) && needed[learned[a]]
    requires Increasing(indep) && forall l :: 0 <= l < |indep| ==> indep[l] < m - 1 && indep[l] !in learned
    requires homog ==> NoConstant(form, a, m)
    requires |x| == m - 1 && IsSolution(sample, x, m, p)
    ensures piv == learned && BlockAnswers(out, learned, needed, indep, homog, a, x, p)
  {
    hide Reduced, SameSolutions, MatrixInRange, Outputs, NeededOf, Times;
    OutputBlock(cur, learned, needed, indep, homog, a, |learned|, m, p);
    assert Covered(form[a], learned[a], indep, homog, m);
    EvaluationRight(sample, picked, zero, form, learned, cur, piv, indep, homog, a, x, m, p);
  }
}
