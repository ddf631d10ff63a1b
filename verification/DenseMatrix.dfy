/** Dense matrices over a prime field, reduced in place (MatrixView, src/matrix.cc:9-161). */
module DenseMatrix {
  import opened ModArith
  import opened LinearAlgebra
  import opened Elimination
  import opened FFMod
  import opened ReducedSystem

  /** Columns from m on (the equation number the dense solver keeps there) move with their row. */
  ghost predicate TailKept(cur: seq<Row>, orig: seq<Row>, perm: seq<nat>, m: nat)
    requires IsPermutation(perm, |cur|) && |cur| == |orig| && Shape(cur, m) && Shape(orig, m)
  {
    forall i :: 0 <= i < |cur| ==> cur[i][m..] == orig[perm[i]][m..]
  }

  lemma ColumnStepTail(cur: seq<Row>, orig: seq<Row>, perm: seq<nat>, r: nat, q: nat, k: nat, m: nat, s: int, p: int)
    requires IsPermutation(perm, |cur|) && |cur| == |orig| && Shape(cur, m) && Shape(orig, m)
    requires r <= q < |cur| && k < m && p > 0 && TailKept(cur, orig, perm, m)
    ensures IsPermutation(Swap(perm, r, q), |cur|)
    ensures Shape(ColumnStep(cur, r, q, k, m, s, p), m)
    ensures TailKept(ColumnStep(cur, r, q, k, m, s, p), orig, Swap(perm, r, q), m)
  {
    SwapPermutation(perm, |cur|, r, q);
    var res, sw := ColumnStep(cur, r, q, k, m, s, p), Swap(cur, r, q);
    forall i | 0 <= i < |cur|
      ensures res[i][m..] == sw[i][m..]
    {
    }
  }

  /** Inverse of a pivot, computed only when the pivot is not already 1. */
  method PivotInverse(x: int, p: Mod) returns (inv: int)
    requires Valid(p) && IsPrime(p.n) && 0 < x < p.n
    ensures 0 <= inv < p.n && Cong(inv * x, 1, p.n)
  {
    hide IsPrime, Cong;
    if x == 1 {
      inv := 1;
      CongRefl(1, p.n);
    } else {
      inv := MulInverse(x, p);
      ProductIsOne(x, inv, p.n);
    }
  }

  lemma ProductIsOne(x: int, inv: int, n: int)
    requires n > 0 && x * inv % n == 1
    ensures Cong(inv * x, 1, n)
  {
    var w := x * inv;
    CongMod(w, n);
    CongSym(1, w, n);
    assert inv * x == w;
  }

  /** Divide the pivot row by its leading entry. */
  method NormalizeRow(elr: array<int>, k: nat, m: nat, p: Mod) returns (ielrk: int)
    requires Valid(p) && IsPrime(p.n) && k < m <= elr.Length
    requires InRange(elr[..], m, p.n) && elr[k] != 0
    modifies elr
    ensures 0 <= ielrk < p.n && Cong(ielrk * old(elr[k]), 1, p.n)
    ensures elr[..] == Scaled(old(elr[..]), k, m, ielrk, p.n)
  {
    ielrk := PivotInverse(elr[k], p);
    elr[k] := 1;
    ScaleAfter(elr, k, m, ielrk, p);
  }

  method ScaleAfter(elr: array<int>, k: nat, m: nat, s: int, p: Mod)
    requires Valid(p) && 0 <= s < p.n && k < m <= elr.Length && InRange(elr[k + 1..], m - k - 1, p.n)
    modifies elr
    ensures forall l :: 0 <= l < elr.Length ==>
      elr[l] == if k < l < m then old(elr[l]) * s % p.n else old(elr[l])
  {
    ghost var was := elr[..];
    assert forall l :: k < l < m ==> was[l] == elr[k + 1..][l - k - 1];
    for j := k + 1 to m
      invariant forall l :: 0 <= l < elr.Length ==>
        elr[l] == if k < l < j then was[l] * s % p.n else was[l]
    {
      if elr[j] != 0 {
        elr[j] := MulMod(elr[j], s, p);
      } else {
        NoChange(0, s, p.n);
      }
    }
  }

  /** eli := eli - eli[k] * elr from column k on. */
  method EliminateRow(eli: array<int>, elr: array<int>, k: nat, m: nat, p: Mod)
    requires Valid(p) && p.n > 1 && eli != elr && k < m <= eli.Length && m <= elr.Length
    requires InRange(eli[..], m, p.n) && InRange(elr[..], m, p.n)
    modifies eli
    ensures eli[..] == Eliminated(old(eli[..]), elr[..], k, m, p.n)
  {
    ghost var was := eli[..];
    var elik := eli[k];
    eli[k] := 0;
    if elik != 0 {
      var elikMp := PrecomputedMulShoup(elik, p);
      for j := k + 1 to m
        invariant forall l :: 0 <= l < eli.Length ==>
          eli[l] == if l == k then 0 else if k < l < j then (was[l] - elr[l] * elik % p.n) % p.n else was[l]
      {
        if elr[j] != 0 {
          var t := MulModShoup(elr[j], elik, elikMp, p);
          CongMod(elr[j] * elik, p.n);
          eli[j] := SubMod(eli[j], t, p);
        } else {
          NoChange(was[j], elik, p.n);
        }
      }
    } else {
      forall j | k < j < m
        ensures (was[j] - elr[j] * 0 % p.n) % p.n == was[j]
      {
        NoChange(was[j], elr[j], p.n);
      }
    }
  }

  lemma NoChange(x: int, y: int, n: int)
    requires 0 <= x < n
    ensures (x - 0 * y % n) % n == x && (x - y * 0 % n) % n == x
    ensures 0 * y % n == 0
  {
    QuotientUnique(x, n, 0, x);
  }

  /** What holds after the first k columns have been eliminated. */
  ghost predicate State(cur: seq<Row>, orig: seq<Row>, perm: seq<nat>, piv: seq<nat>, k: nat, m: nat, p: int) {
    && Tracks(cur, orig, perm, |piv|, m, p)
    && Echelon(cur, piv, k, m)
    && MatrixInRange(cur, m, p)
    && TailKept(cur, orig, perm, m)
  }

  lemma StateInitially(orig: seq<Row>, m: nat, p: int)
    requires MatrixInRange(orig, m, p)
    ensures State(orig, orig, Identity(|orig|), [], 0, m, p)
  {
    TracksInitially(orig, m, p);
  }

  lemma StateFacts(cur: seq<Row>, orig: seq<Row>, perm: seq<nat>, piv: seq<nat>, k: nat, m: nat, p: int)
    requires State(cur, orig, perm, piv, k, m, p)
    ensures |piv| <= |cur| == |perm| && MatrixInRange(cur, m, p)
  {
  }

  lemma StateStep(cur: seq<Row>, orig: seq<Row>, perm: seq<nat>, piv: seq<nat>, q: nat, k: nat, m: nat, s: int, p: int)
    requires State(cur, orig, perm, piv, k, m, p) && k < m && |piv| <= q < |cur| && p > 1
    requires Cong(s * cur[q][k], 1, p)
    ensures State(ColumnStep(cur, |piv|, q, k, m, s, p), orig, Swap(perm, |piv|, q), piv + [k], k + 1, m, p)
  {
    ColumnStepTracks(cur, orig, perm, piv, q, k, m, s, p);
    ColumnStepEchelon(cur, piv, q, k, m, s, p);
    ColumnStepRange(cur, |piv|, q, k, m, s, p);
    ColumnStepTail(cur, orig, perm, |piv|, q, k, m, s, p);
  }

  /** Column k vanishes in rows lo..hi. */
  ghost predicate ColumnZero(cur: seq<Row>, lo: nat, hi: nat, k: nat, m: nat)
    requires Shape(cur, m) && hi <= |cur| && k < m
  {
    forall i :: lo <= i < hi ==> cur[i][k] == 0
  }

  lemma StateSkip(cur: seq<Row>, orig: seq<Row>, perm: seq<nat>, piv: seq<nat>, k: nat, m: nat, p: int)
    requires State(cur, orig, perm, piv, k, m, p) && k < m
    requires ColumnZero(cur, |piv|, |cur|, k, m)
    ensures State(cur, orig, perm, piv, k + 1, m, p)
  {
  }

  /** res is the reduced row echelon form of orig: piv are its pivot columns, res[i] came from
      orig[perm[i]], and the solutions are those of orig and of its rows perm[0..|piv|]. */
  ghost predicate IsReductionOf(res: seq<Row>, orig: seq<Row>, perm: seq<nat>, piv: seq<nat>, m: nat, p: int) {
    && |res| == |orig| && IsPermutation(perm, |res|) && Shape(orig, m)
    && Reduced(res, piv, m)
    && SameSolutions(orig, res, m, p)
    && PickSuffices(orig, perm, |piv|, m, p)
    && MatrixInRange(res, m, p)
    && TailKept(res, orig, perm, m)
  }

  // ---- back substitution, from the last row up ----

  ghost predicate BackState(cur: seq<Row>, orig: seq<Row>, perm: seq<nat>, piv: seq<nat>, r: nat, m: nat, p: int) {
    && |cur| == |orig| && IsPermutation(perm, |cur|) && Shape(orig, m)
    && Echelon(cur, piv, m, m)
    && ClearFrom(cur, piv, r, m)
    && SameSolutions(orig, cur, m, p)
    && PickSuffices(orig, perm, |piv|, m, p)
    && MatrixInRange(cur, m, p)
    && TailKept(cur, orig, perm, m)
  }

  lemma BackInitially(cur: seq<Row>, orig: seq<Row>, perm: seq<nat>, piv: seq<nat>, m: nat, p: int)
    requires State(cur, orig, perm, piv, m, m, p)
    ensures BackState(cur, orig, perm, piv, |cur|, m, p)
  {
    EchelonSame(cur, orig, perm, piv, m, p);
  }

  lemma BackFinally(cur: seq<Row>, orig: seq<Row>, perm: seq<nat>, piv: seq<nat>, m: nat, p: int)
    requires BackState(cur, orig, perm, piv, 0, m, p)
    ensures IsReductionOf(cur, orig, perm, piv, m, p)
  {
  }

  lemma BackFacts(cur: seq<Row>, orig: seq<Row>, perm: seq<nat>, piv: seq<nat>, r: nat, m: nat, p: int)
    requires BackState(cur, orig, perm, piv, r, m, p)
    ensures MatrixInRange(cur, m, p)
  {
  }

  lemma BackSkip(cur: seq<Row>, orig: seq<Row>, perm: seq<nat>, piv: seq<nat>, r: nat, m: nat, p: int)
    requires BackState(cur, orig, perm, piv, r + 1, m, p) && r < |cur| && ZeroUpTo(cur[r], m)
    ensures BackState(cur, orig, perm, piv, r, m, p)
  {
  }

  /** The first non-zero column of row r is its pivot column, and clearing it keeps the state. */
  lemma BackAdvance(cur: seq<Row>, orig: seq<Row>, perm: seq<nat>, piv: seq<nat>, r: nat, c: nat, m: nat, p: int)
    requires BackState(cur, orig, perm, piv, r + 1, m, p) && r < |cur| && c < m && p > 1
    requires ZeroUpTo(cur[r], c) && cur[r][c] != 0
    ensures BackState(BackStep(cur, r, c, m, p), orig, perm, piv, r, m, p)
  {
    assert r < |piv| by {
      assert r >= |piv| ==> ZeroUpTo(cur[r], m);
    }
    assert LeadsAt(cur[r], piv[r], m);
    assert c == piv[r];
    BackStepEchelon(cur, piv, r, m, p);
    BackStepClear(cur, piv, r, m, p);
    BackStepSame(orig, cur, r, c, m, p);
    BackStepRange(cur, r, c, m, p);
    BackStepTail(cur, orig, perm, r, c, m, p);
  }

  lemma BackStepRange(cur: seq<Row>, r: nat, c: nat, m: nat, p: int)
    requires MatrixInRange(cur, m, p) && r < |cur| && c < m && p > 1
    ensures MatrixInRange(BackStep(cur, r, c, m, p), m, p)
  {
  }

  lemma BackStepTail(cur: seq<Row>, orig: seq<Row>, perm: seq<nat>, r: nat, c: nat, m: nat, p: int)
    requires IsPermutation(perm, |cur|) && |cur| == |orig| && Shape(cur, m) && Shape(orig, m)
    requires r < |cur| && c < m && p > 0 && TailKept(cur, orig, perm, m)
    ensures TailKept(BackStep(cur, r, c, m, p), orig, perm, m)
  {
  }

  // ---- reading a reduced matrix ----

  /** Row i is the last row with a non-zero right-hand side: it is led by the right-hand side, or
      the right-hand side is no pivot. */
  lemma LastRhsRow(cur: seq<Row>, piv: seq<nat>, i: int, m: nat)
    requires m >= 1 && Reduced(cur, piv, m) && -1 <= i < |cur|
    requires forall l :: i < l < |cur| ==> cur[l][m - 1] == 0
    requires i >= 0 ==> cur[i][m - 1] != 0
    ensures RhsPivot(piv, m) <==> i >= 0 && ZeroUpTo(cur[i], m - 1)
  {
  }

  /** From the column after the previous pivot on, row j is zero up to its own pivot. */
  lemma RowScan(cur: seq<Row>, piv: seq<nat>, j: nat, c: nat, m: nat)
    requires m >= 1 && Reduced(cur, piv, m) && j < |cur| && c <= m - 1
    ensures var vp := VariablePivots(piv, m);
            && Increasing(vp) && (forall a :: 0 <= a < |vp| ==> vp[a] < m - 1) && |vp| <= |cur|
            && (j < |vp| ==> cur[j][vp[j]] != 0 && ZeroUpTo(cur[j], vp[j]))
            && (j >= |vp| ==> ZeroUpTo(cur[j], m - 1))
  {
    var vp := VariablePivots(piv, m);
    if j < |piv| {
      assert LeadsAt(cur[j], piv[j], m);
    } else {
      assert ZeroUpTo(cur[j], m);
    }
    if |piv| > 0 {
      assert forall a :: 0 <= a < |piv| - 1 ==> piv[a] < piv[|piv| - 1] < m;
    }
  }

  /** A column between two consecutive pivots is none. */
  lemma NotPivot(vp: seq<nat>, j: nat, c: nat)
    requires Increasing(vp) && j <= |vp|
    requires j > 0 ==> vp[j - 1] < c
    requires j < |vp| ==> c < vp[j]
    ensures NonPivots(vp, c + 1) == NonPivots(vp, c) + [c]
  {
    forall a | 0 <= a < |vp|
      ensures vp[a] != c
    {
      if a < j {
        assert vp[a] <= vp[j - 1];
      } else {
        assert vp[j] <= vp[a];
      }
    }
  }

  lemma PivotSkipped(vp: seq<nat>, j: nat)
    requires j < |vp|
    ensures NonPivots(vp, vp[j] + 1) == NonPivots(vp, vp[j])
  {
  }

  lemma VariablePivotFacts(cur: seq<Row>, piv: seq<nat>, m: nat)
    requires m >= 1 && Reduced(cur, piv, m)
    ensures Increasing(VariablePivots(piv, m)) && |VariablePivots(piv, m)| <= |cur|
  {
  }

  lemma NoneBelowZero(vp: seq<nat>)
    ensures NonPivots(vp, 0) == []
  {
  }

  /** A view of n rows and m columns. Rows are held by reference, so exchanging two rows exchanges
      two references; an underlying row may have more than m columns. */
  class MatrixView {
    const rows: array<array<int>>
    const n: nat
    const m: nat

    constructor (rows: array<array<int>>, n: nat, m: nat)
      ensures this.rows == rows && this.n == n && this.m == m
    {
      this.rows, this.n, this.m := rows, n, m;
    }

    ghost function Cells(): set<array<int>>
      requires n <= rows.Length
      reads rows
    {
      set i | 0 <= i < n :: rows[i]
    }

    ghost predicate Valid()
      reads rows
    {
      && n <= rows.Length
      && (forall i :: 0 <= i < n ==> m <= rows[i].Length)
      && (forall i, j :: 0 <= i < j < n ==> rows[i] != rows[j])
    }

    ghost function Contents(): (c: seq<Row>)
      requires Valid()
      reads rows, Cells()
      ensures |c| == n && Shape(c, m)
      ensures forall i :: 0 <= i < n ==> c[i] == rows[i][..]
    {
      seq(n, i requires 0 <= i < n && Valid() reads rows, Cells() => rows[i][..])
    }

    /** The first row from r on with a non-zero entry in column k, or n. */
    method FindPivot(r: nat, k: nat) returns (q: nat)
      requires Valid() && r <= n && k < m
      ensures r <= q <= n
      ensures ColumnZero(Contents(), r, q, k, m)
      ensures q < n ==> Contents()[q][k] != 0
    {
      q := r;
      while q < n
        invariant r <= q <= n
        invariant forall i :: r <= i < q ==> Contents()[i][k] == 0
      {
        if rows[q][k] != 0 {
          break;
        }
        q := q + 1;
      }
    }

    method SwapRows(i: nat, j: nat)
      requires Valid() && i < n && j < n
      modifies rows
      ensures Valid() && Cells() == old(Cells())
      ensures Contents() == Swap(old(Contents()), i, j)
    {
      rows[i], rows[j] := rows[j], rows[i];
      assert Cells() == old(Cells()) by {
        assert forall c :: c in old(Cells()) ==> c in Cells() by {
          forall l | 0 <= l < n
            ensures old(rows[l]) in Cells()
          {
            var l' := if l == i then j else if l == j then i else l;
            assert rows[l'] == old(rows[l]);
          }
        }
      }
    }

    /** Eliminate column k from rows lo..hi, other than row r, with pivot row r. */
    method EliminateColumn(r: nat, lo: nat, hi: nat, k: nat, p: Mod)
      requires Valid() && FFMod.Valid(p) && p.n > 1 && r < n && lo <= hi <= n && !(lo <= r < hi) && k < m
      requires MatrixInRange(Contents(), m, p.n)
      modifies Cells()
      ensures Valid() && Cells() == old(Cells())
      ensures Contents() == ColumnEliminated(old(Contents()), r, lo, hi, k, m, p.n)
    {
      hide Eliminated, ColumnEliminated, FFMod.Valid;
      ghost var was := Contents();
      for i := lo to hi
        invariant forall l :: 0 <= l < n ==>
          rows[l][..] == (if lo <= l < i then Eliminated(was[l], was[r], k, m, p.n) else was[l])
      {
        assert InRange(was[i], m, p.n) && InRange(was[r], m, p.n);
        EliminateRow(rows[i], rows[r], k, m, p);
      }
      ColumnEliminatedIs(was, Contents(), r, lo, hi, k, m, p.n);
    }

    method NormalizeAt(r: nat, k: nat, p: Mod) returns (s: int)
      requires Valid() && FFMod.Valid(p) && IsPrime(p.n) && r < n && k < m
      requires InRange(Contents()[r], m, p.n) && Contents()[r][k] != 0
      modifies Cells()
      ensures Valid() && Cells() == old(Cells())
      ensures Cong(s * old(Contents())[r][k], 1, p.n)
      ensures Contents() == old(Contents())[r := Scaled(old(Contents())[r], k, m, s, p.n)]
    {
      hide Scaled, FFMod.Valid;
      ghost var cur := Contents();
      s := NormalizeRow(rows[r], k, m, p);
      assert forall i :: 0 <= i < n && i != r ==> rows[i][..] == cur[i];
    }

    /** Bring row q to position r, normalise it and clear column k below it. */
    method PivotStep(r: nat, q: nat, k: nat, p: Mod) returns (ghost s: int)
      requires Valid() && FFMod.Valid(p) && IsPrime(p.n) && r <= q < n && k < m
      requires MatrixInRange(Contents(), m, p.n) && Contents()[q][k] != 0
      modifies rows, Cells()
      ensures Valid() && Cells() == old(Cells())
      ensures Cong(s * old(Contents())[q][k], 1, p.n)
      ensures Contents() == ColumnStep(old(Contents()), r, q, k, m, s, p.n)
    {
      hide Eliminated, ColumnEliminated, Scaled, Swap, Cells, Contents, Valid, FFMod.Valid;
      ghost var cur := Contents();
      ghost var sw := Swap(cur, r, q);
      SwapRange(cur, r, q, m, p.n);
      if r != q {
        SwapRows(r, q);
      }
      s := NormalizeAt(r, k, p);
      ScaledRange(sw, r, k, m, s, p.n);
      EliminateColumn(r, r + 1, n, k, p);
    }

    /** The pivot found in row q becomes row r of the echelon form. */
    method TakePivot(r: nat, q: nat, k: nat, p: Mod, ghost orig: seq<Row>, ghost perm: seq<nat>, ghost piv: seq<nat>)
      requires Valid() && FFMod.Valid(p) && IsPrime(p.n) && r == |piv| <= q < n && k < m
      requires State(Contents(), orig, perm, piv, k, m, p.n) && Contents()[q][k] != 0
      modifies rows, Cells()
      ensures Valid() && Cells() == old(Cells()) && r < |perm| == n
      ensures State(Contents(), orig, Swap(perm, r, q), piv + [k], k + 1, m, p.n)
    {
      assert p.n > 1;
      hide State, FFMod.Valid, MatrixInRange, Swap, ColumnStep, IsPrime, Cong, Contents;
      ghost var cur := Contents();
      StateFacts(cur, orig, perm, piv, k, m, p.n);
      ghost var s := PivotStep(r, q, k, p);
      StateStep(cur, orig, perm, piv, q, k, m, s, p.n);
    }

    /** Row echelon form. piv lists the pivot columns and perm says where each row came from. */
    method ToRowEchelon(p: Mod) returns (ghost piv: seq<nat>, ghost perm: seq<nat>)
      requires Valid() && FFMod.Valid(p) && IsPrime(p.n) && MatrixInRange(Contents(), m, p.n)
      modifies rows, Cells()
      ensures Valid() && Cells() == old(Cells())
      ensures State(Contents(), old(Contents()), perm, piv, m, m, p.n)
    {
      hide State, ColumnZero, Contents, FFMod.Valid, MatrixInRange, Identity, Swap, ColumnStep, Shape, IsPrime, Cong;
      ghost var orig := Contents();
      perm, piv := Identity(n), [];
      StateInitially(orig, m, p.n);
      var r := 0;
      for k := 0 to m
        invariant Valid() && Cells() == old(Cells())
        invariant r == |piv|
        invariant State(Contents(), orig, perm, piv, k, m, p.n)
      {
        ghost var cur := Contents();
        StateFacts(cur, orig, perm, piv, k, m, p.n);
        var q := FindPivot(r, k);
        if q == n {
          StateSkip(cur, orig, perm, piv, k, m, p.n);
          continue;
        }
        TakePivot(r, q, k, p, orig, perm, piv);
        perm, piv := Swap(perm, r, q), piv + [k];
        r := r + 1;
      }
    }

    /** The first non-zero column of row r, or m. */
    method LeadColumn(r: nat) returns (c: nat)
      requires Valid() && r < n
      ensures c <= m && ZeroUpTo(Contents()[r], c) && (c < m ==> Contents()[r][c] != 0)
    {
      c := 0;
      while c < m
        invariant c <= m && ZeroUpTo(rows[r][..], c)
      {
        if rows[r][c] != 0 {
          break;
        }
        c := c + 1;
      }
    }

    /** Reduced row echelon form, with exactly the solutions of the original matrix; the original
        rows perm[0..|piv|], which became the pivot rows, already have those solutions. */
    method ToReducedRowEchelon(p: Mod) returns (ghost piv: seq<nat>, ghost perm: seq<nat>)
      requires Valid() && FFMod.Valid(p) && IsPrime(p.n) && MatrixInRange(Contents(), m, p.n)
      modifies rows, Cells()
      ensures Valid() && Cells() == old(Cells())
      ensures IsReductionOf(Contents(), old(Contents()), perm, piv, m, p.n)
    {
      hide State, BackState, IsReductionOf, FFMod.Valid;
      ghost var orig := Contents();
      piv, perm := ToRowEchelon(p);
      BackInitially(Contents(), orig, perm, piv, m, p.n);
      var r := n;
      while r > 0
        invariant 0 <= r <= n && Valid() && Cells() == old(Cells())
        invariant BackState(Contents(), orig, perm, piv, r, m, p.n)
      {
        r := r - 1;
        ghost var cur := Contents();
        BackFacts(cur, orig, perm, piv, r + 1, m, p.n);
        var c := LeadColumn(r);
        if c == m {
          BackSkip(cur, orig, perm, piv, r, m, p.n);
          continue;
        }
        BackAdvance(cur, orig, perm, piv, r, c, m, p.n);
        EliminateColumn(r, 0, r, c, p);
      }
      BackFinally(Contents(), orig, perm, piv, m, p.n);
    }

    // ---- reading a reduced matrix ----

    /** Find the last row with a non-zero right-hand side; the system is impossible when that row
        is otherwise zero. */
    method IsImpossibleSystem(ghost piv: seq<nat>, ghost p: int) returns (impossible: bool)
      requires Valid() && m >= 1 && p > 1 && Reduced(Contents(), piv, m)
      ensures impossible <==> RhsPivot(piv, m)
      ensures impossible <==> !Solvable(Contents(), m, p)
    {
      ghost var cur := Contents();
      SolvableIff(cur, piv, m, p);
      var i := n - 1;
      while i >= 0
        invariant -1 <= i < n
        invariant forall l :: i < l < n ==> cur[l][m - 1] == 0
      {
        if rows[i][m - 1] != 0 {
          break;
        }
        i := i - 1;
      }
      LastRhsRow(cur, piv, i, m);
      if i < 0 {
        return false;
      }
      for j := 0 to m - 1
        invariant ZeroUpTo(cur[i], j)
      {
        if rows[i][j] != 0 {
          return false;
        }
      }
      return true;
    }

    /** The dependent variables are the pivot columns among the variables, in order. */
    method DependentVars(ghost piv: seq<nat>) returns (vars: seq<nat>)
      requires Valid() && m >= 1 && Reduced(Contents(), piv, m)
      ensures vars == VariablePivots(piv, m)
    {
      ghost var cur, vp := Contents(), VariablePivots(piv, m);
      var nVars := m - 1;
      var currentCol: nat := 0;
      vars := [];
      for j := 0 to n
        invariant vars == vp[..if j < |vp| then j else |vp|]
        invariant currentCol == if j > |vp| then nVars else if j == 0 then 0 else vp[j - 1] + 1
      {
        RowScan(cur, piv, j, currentCol, m);
        while currentCol < nVars
          invariant currentCol <= nVars
          invariant j < |vp| ==> currentCol <= vp[j]
          invariant vars == vp[..if j < |vp| then j else |vp|]
        {
          if rows[j][currentCol] != 0 {
            vars := vars + [currentCol];
            currentCol := currentCol + 1;
            break;
          }
          currentCol := currentCol + 1;
        }
      }
    }

    /** The independent variables are the remaining columns, in order. With no variable column at
        all the loop would run into the right-hand side, so there must be one. */
    method IndependentVars(ghost piv: seq<nat>) returns (vars: seq<nat>)
      requires Valid() && m >= 2 && Reduced(Contents(), piv, m)
      ensures vars == NonPivots(VariablePivots(piv, m), m - 1)
    {
      hide NonPivots, VariablePivots, Reduced;
      ghost var cur, vp := Contents(), VariablePivots(piv, m);
      NoneBelowZero(vp);
      VariablePivotFacts(cur, piv, m);
      var nVars := m - 1;
      var currentCol: nat := 0;
      vars := [];
      for j := 0 to n
        invariant currentCol < nVars && j <= |vp|
        invariant currentCol == if j == 0 then 0 else vp[j - 1] + 1
        invariant vars == NonPivots(vp, currentCol)
      {
        RowScan(cur, piv, j, currentCol, m);
        while rows[j][currentCol] == 0
          invariant currentCol < nVars && (j < |vp| ==> currentCol <= vp[j])
          invariant vars == NonPivots(vp, currentCol)
          invariant currentCol > 0 && j > 0 ==> currentCol > vp[j - 1]
          decreases nVars - currentCol
        {
          NotPivot(vp, j, currentCol);
          vars := vars + [currentCol];
          currentCol := currentCol + 1;
          if currentCol == nVars {
            return;
          }
        }
        PivotSkipped(vp, j);
        currentCol := currentCol + 1;
        if currentCol == nVars {
          return;
        }
      }
      while currentCol < nVars
        invariant currentCol <= nVars
        invariant vars == NonPivots(vp, currentCol)
        invariant |vp| > 0 ==> currentCol > vp[|vp| - 1]
      {
        NotPivot(vp, |vp|, currentCol);
        vars := vars + [currentCol];
        currentCol := currentCol + 1;
      }
    }
  }
}
