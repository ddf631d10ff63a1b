/** Linear equations mod p as rows of coefficients, and the solutions they share.
    A row of m coefficients constrains a vector v of length m; for an inhomogeneous system the
    last coefficient is the right-hand side and v ends with -1. */
module LinearAlgebra {
  import opened ModArith

  type Row = seq<int>

  /** Sum of row[j] * v[j] over the first m columns. */
  function Dot(row: Row, v: Row, m: nat): int
    requires m <= |row| && m <= |v|
  {
    if m == 0 then 0 else Dot(row, v, m - 1) + row[m - 1] * v[m - 1]
  }

  ghost predicate Holds(row: Row, v: Row, m: nat, p: int)
    requires m <= |row| && m <= |v|
  {
    Cong(Dot(row, v, m), 0, p)
  }

  predicate InRange(row: Row, m: nat, p: int) {
    m <= |row| && forall j :: 0 <= j < m ==> 0 <= row[j] < p
  }

  predicate Shape(rows: seq<Row>, m: nat) {
    forall i :: 0 <= i < |rows| ==> m <= |rows[i]|
  }

  predicate MatrixInRange(rows: seq<Row>, m: nat, p: int) {
    forall i :: 0 <= i < |rows| ==> InRange(rows[i], m, p)
  }

  /** v satisfies the first r rows. */
  ghost predicate Solves(rows: seq<Row>, r: nat, v: Row, m: nat, p: int)
    requires r <= |rows| && Shape(rows, m) && m <= |v|
  {
    forall i :: 0 <= i < r ==> Holds(rows[i], v, m, p)
  }

  /** A row that is b - s * c column by column mod p is so on every vector. */
  lemma {:induction false} DotCombine(a: Row, b: Row, c: Row, s: int, v: Row, m: nat, p: int)
    requires m <= |a| && m <= |b| && m <= |c| && m <= |v|
    requires forall j :: 0 <= j < m ==> Cong(a[j], b[j] - s * c[j], p)
    ensures Cong(Dot(a, v, m), Dot(b, v, m) - s * Dot(c, v, m), p)
    decreases m
  {
    if m == 0 {
      CongRefl(0, p);
    } else {
      DotCombine(a, b, c, s, v, m - 1, p);
      var x := v[m - 1];
      CongRefl(x, p);
      CongMul(a[m - 1], b[m - 1] - s * c[m - 1], x, x, p);
      CongAdd(Dot(a, v, m - 1), Dot(b, v, m - 1) - s * Dot(c, v, m - 1),
              a[m - 1] * x, (b[m - 1] - s * c[m - 1]) * x, p);
      CombineTerm(b[m - 1], c[m - 1], s, x, Dot(c, v, m - 1));
    }
  }

  lemma CombineTerm(b: int, c: int, s: int, x: int, d: int)
    ensures (b - s * c) * x - s * d == b * x - s * (d + c * x)
  {
    assert (b - s * c) * x == b * x - (s * c) * x;
    assert (s * c) * x == s * (c * x);
  }

  lemma {:induction false} DotScale(a: Row, b: Row, s: int, v: Row, m: nat, p: int)
    requires m <= |a| && m <= |b| && m <= |v|
    requires forall j :: 0 <= j < m ==> Cong(a[j], s * b[j], p)
    ensures Cong(Dot(a, v, m), s * Dot(b, v, m), p)
    decreases m
  {
    if m == 0 {
      CongRefl(0, p);
    } else {
      DotScale(a, b, s, v, m - 1, p);
      var x := v[m - 1];
      CongRefl(x, p);
      CongMul(a[m - 1], s * b[m - 1], x, x, p);
      CongAdd(Dot(a, v, m - 1), s * Dot(b, v, m - 1), a[m - 1] * x, (s * b[m - 1]) * x, p);
      assert (s * b[m - 1]) * x == s * (b[m - 1] * x);
      assert s * (Dot(b, v, m - 1) + b[m - 1] * x) == s * Dot(b, v, m - 1) + s * (b[m - 1] * x);
    }
  }

  lemma {:induction false} DotZero(a: Row, v: Row, m: nat)
    requires m <= |a| && m <= |v| && forall j :: 0 <= j < m ==> a[j] == 0
    ensures Dot(a, v, m) == 0
    decreases m
  {
    if m > 0 {
      DotZero(a, v, m - 1);
    }
  }

  /** Only the compared columns matter. */
  lemma {:induction false} DotSame(a: Row, b: Row, v: Row, m: nat)
    requires m <= |a| && m <= |b| && m <= |v| && forall j :: 0 <= j < m ==> a[j] * v[j] == b[j] * v[j]
    ensures Dot(a, v, m) == Dot(b, v, m)
    decreases m
  {
    if m > 0 {
      DotSame(a, b, v, m - 1);
    }
  }

  /** Subtracting a multiple of a satisfied row does not change whether a row holds. */
  lemma HoldsCombine(a: Row, b: Row, c: Row, s: int, v: Row, m: nat, p: int)
    requires m <= |a| && m <= |b| && m <= |c| && m <= |v|
    requires forall j :: 0 <= j < m ==> Cong(a[j], b[j] - s * c[j], p)
    requires Holds(c, v, m, p)
    ensures Cong(Dot(a, v, m), Dot(b, v, m), p)
    ensures Holds(a, v, m, p) <==> Holds(b, v, m, p)
  {
    var x, y, z := Dot(a, v, m), Dot(b, v, m), Dot(c, v, m);
    DotCombine(a, b, c, s, v, m, p);
    CongRefl(s, p);
    CongMul(s, s, z, 0, p);
    CongRefl(y, p);
    CongSub(y, y, s * z, 0, p);
    CongTrans(x, y - s * z, y, p);
    CongHolds(x, y, p);
  }

  lemma CongHolds(x: int, y: int, p: int)
    requires Cong(x, y, p)
    ensures Cong(x, 0, p) <==> Cong(y, 0, p)
  {
    CongSym(x, y, p);
    if Cong(x, 0, p) {
      CongTrans(y, x, 0, p);
    }
    if Cong(y, 0, p) {
      CongTrans(x, y, 0, p);
    }
  }

  /** Scaling by an invertible factor does not change whether a row holds. */
  lemma HoldsScale(a: Row, b: Row, s: int, t: int, v: Row, m: nat, p: int)
    requires m <= |a| && m <= |b| && m <= |v|
    requires forall j :: 0 <= j < m ==> Cong(a[j], s * b[j], p)
    requires Cong(s * t, 1, p)
    ensures Holds(a, v, m, p) <==> Holds(b, v, m, p)
  {
    var x, y := Dot(a, v, m), Dot(b, v, m);
    DotScale(a, b, s, v, m, p);
    CongHolds(x, s * y, p);
    if Cong(s * y, 0, p) {
      CancelInverse(s, y, t, p);
    }
    if Cong(y, 0, p) {
      CongRefl(s, p);
      CongMul(s, s, y, 0, p);
    }
  }
}

/** What one column of dense Gauss elimination does to a matrix, and what it keeps
    (value level of MatrixView::toRowEcholon and toReducedRowEcholon, src/matrix.cc:9-85). */
module Elimination {
  import opened ModArith
  import opened LinearAlgebra

  /** The pivot row divided by its leading entry: columns after k scaled by s, column k set to 1. */
  function Scaled(row: Row, k: nat, m: nat, s: int, p: int): (r: Row)
    requires k < m <= |row| && p > 0
    ensures |r| == |row|
  {
    seq(|row|, j requires 0 <= j < |row| =>
      if j == k then 1 else if k < j < m then row[j] * s % p else row[j])
  }

  /** row minus row[k] times the pivot row, from column k on. */
  function Eliminated(row: Row, piv: Row, k: nat, m: nat, p: int): (r: Row)
    requires k < m <= |row| && m <= |piv| && p > 0
    ensures |r| == |row|
  {
    seq(|row|, j requires 0 <= j < |row| =>
      if j == k then 0 else if k < j < m then (row[j] - piv[j] * row[k] % p) % p else row[j])
  }

  lemma EliminatedCong(row: Row, piv: Row, k: nat, m: nat, p: int)
    requires k < m <= |row| && m <= |piv| && p > 0
    requires piv[k] == 1 && forall j :: 0 <= j < k ==> piv[j] == 0
    ensures forall j :: 0 <= j < m ==> Cong(Eliminated(row, piv, k, m, p)[j], row[j] - row[k] * piv[j], p)
  {
    forall j | 0 <= j < m
      ensures Cong(Eliminated(row, piv, k, m, p)[j], row[j] - row[k] * piv[j], p)
    {
      if j <= k {
        CongRefl(row[j] - row[k] * piv[j], p);
      } else {
        var x := piv[j] * row[k];
        CongMod(x, p);
        CongRefl(row[j], p);
        CongSub(row[j], row[j], x % p, x, p);
        CongMod(row[j] - x % p, p);
        CongTrans((row[j] - x % p) % p, row[j] - x % p, row[j] - x, p);
      }
    }
  }

  lemma ScaledCong(row: Row, k: nat, m: nat, s: int, p: int)
    requires k < m <= |row| && p > 0
    requires Cong(s * row[k], 1, p) && forall j :: 0 <= j < k ==> row[j] == 0
    ensures forall j :: 0 <= j < m ==> Cong(Scaled(row, k, m, s, p)[j], s * row[j], p)
  {
    forall j | 0 <= j < m
      ensures Cong(Scaled(row, k, m, s, p)[j], s * row[j], p)
    {
      if j < k {
        CongRefl(0, p);
      } else if j == k {
        CongSym(s * row[k], 1, p);
      } else {
        CongMod(row[j] * s, p);
      }
    }
  }

  // ---- permutations of the rows ----

  ghost predicate IsPermutation(perm: seq<nat>, n: nat) {
    && |perm| == n
    && (forall i :: 0 <= i < n ==> perm[i] < n)
    && (forall i, j :: 0 <= i < j < n ==> perm[i] != perm[j])
  }

  function Swap<T>(s: seq<T>, i: nat, j: nat): (r: seq<T>)
    requires i < |s| && j < |s|
    ensures |r| == |s|
  {
    s[i := s[j]][j := s[i]]
  }

  lemma SwapPermutation(perm: seq<nat>, n: nat, i: nat, j: nat)
    requires IsPermutation(perm, n) && i < n && j < n
    ensures IsPermutation(Swap(perm, i, j), n)
  {
  }

  // ---- what elimination keeps ----

  /** v satisfies the original equations picked by the first r entries of perm. */
  ghost predicate SolvesPicked(orig: seq<Row>, perm: seq<nat>, r: nat, v: Row, m: nat, p: int)
    requires r <= |perm| && Shape(orig, m) && m <= |v| && forall i :: 0 <= i < |perm| ==> perm[i] < |orig|
  {
    forall i :: 0 <= i < r ==> Holds(orig[perm[i]], v, m, p)
  }

  ghost predicate SameValue(cur: seq<Row>, orig: seq<Row>, perm: seq<nat>, r: nat, v: Row, m: nat, p: int)
    requires IsPermutation(perm, |cur|) && |cur| == |orig| && Shape(cur, m) && Shape(orig, m) && m <= |v|
  {
    forall i :: r <= i < |cur| ==> Cong(Dot(cur[i], v, m), Dot(orig[perm[i]], v, m), p)
  }

  ghost predicate TracksAt(cur: seq<Row>, orig: seq<Row>, perm: seq<nat>, r: nat, v: Row, m: nat, p: int)
    requires IsPermutation(perm, |cur|) && |cur| == |orig| && r <= |cur|
    requires Shape(cur, m) && Shape(orig, m) && m <= |v|
  {
    && (Solves(cur, r, v, m, p) <==> SolvesPicked(orig, perm, r, v, m, p))
    && (Solves(cur, r, v, m, p) ==> SameValue(cur, orig, perm, r, v, m, p))
  }

  /** The first r rows stand for the original equations perm[0..r]; on their solutions every other
      row still has the value of the original equation it came from. */
  ghost predicate Tracks(cur: seq<Row>, orig: seq<Row>, perm: seq<nat>, r: nat, m: nat, p: int) {
    && IsPermutation(perm, |cur|) && |cur| == |orig| && r <= |cur|
    && Shape(cur, m) && Shape(orig, m)
    && (forall v: Row :: |v| == m ==> TracksAt(cur, orig, perm, r, v, m, p))
  }

  function Identity(n: nat): (s: seq<nat>)
    ensures IsPermutation(s, n)
  {
    seq(n, i => i)
  }

  lemma TracksInitially(orig: seq<Row>, m: nat, p: int)
    requires Shape(orig, m)
    ensures Tracks(orig, orig, Identity(|orig|), 0, m, p)
  {
    var perm := Identity(|orig|);
    forall v: Row | |v| == m
      ensures TracksAt(orig, orig, perm, 0, v, m, p)
    {
      forall i | 0 <= i < |orig|
        ensures Cong(Dot(orig[i], v, m), Dot(orig[perm[i]], v, m), p)
      {
        CongRefl(Dot(orig[i], v, m), p);
      }
    }
  }

  lemma TracksSwap(cur: seq<Row>, orig: seq<Row>, perm: seq<nat>, r: nat, q: nat, m: nat, p: int)
    requires Tracks(cur, orig, perm, r, m, p) && r <= q < |cur|
    ensures Tracks(Swap(cur, r, q), orig, Swap(perm, r, q), r, m, p)
  {
    var cur', perm' := Swap(cur, r, q), Swap(perm, r, q);
    SwapPermutation(perm, |cur|, r, q);
    forall v: Row | |v| == m
      ensures TracksAt(cur', orig, perm', r, v, m, p)
    {
      assert TracksAt(cur, orig, perm, r, v, m, p);
      assert forall i :: 0 <= i < r ==> cur'[i] == cur[i] && perm'[i] == perm[i];
    }
  }

  /** Scaling row r by an invertible factor makes it the next pivot row. */
  lemma TracksPivot(cur: seq<Row>, orig: seq<Row>, perm: seq<nat>, r: nat, a: Row, s: int, t: int, m: nat, p: int)
    requires Tracks(cur, orig, perm, r, m, p) && r < |cur|
    requires m <= |a| && Cong(s * t, 1, p) && forall j :: 0 <= j < m ==> Cong(a[j], s * cur[r][j], p)
    ensures Tracks(cur[r := a], orig, perm, r + 1, m, p)
  {
    var cur' := cur[r := a];
    forall v: Row | |v| == m
      ensures TracksAt(cur', orig, perm, r + 1, v, m, p)
    {
      assert TracksAt(cur, orig, perm, r, v, m, p);
      HoldsScale(a, cur[r], s, t, v, m, p);
      assert forall i :: 0 <= i < r ==> cur'[i] == cur[i];
      if Solves(cur, r, v, m, p) {
        CongHolds(Dot(cur[r], v, m), Dot(orig[perm[r]], v, m), p);
        assert Solves(cur', r + 1, v, m, p) <==> Holds(cur'[r], v, m, p);
      } else {
        assert !Solves(cur', r + 1, v, m, p);
        assert !SolvesPicked(orig, perm, r + 1, v, m, p);
      }
    }
  }

  /** Rows after the pivots may change by multiples of the last pivot row. */
  lemma TracksBelow(cur: seq<Row>, cur': seq<Row>, orig: seq<Row>, perm: seq<nat>, r: nat, s: seq<int>, m: nat, p: int)
    requires Tracks(cur, orig, perm, r + 1, m, p)
    requires |cur'| == |cur| == |s| && Shape(cur', m) && cur'[..r + 1] == cur[..r + 1]
    requires forall i, j :: r < i < |cur| && 0 <= j < m ==> Cong(cur'[i][j], cur[i][j] - s[i] * cur[r][j], p)
    ensures Tracks(cur', orig, perm, r + 1, m, p)
  {
    assert forall i :: 0 <= i <= r ==> cur'[i] == cur'[..r + 1][i] == cur[i];
    forall v: Row | |v| == m
      ensures TracksAt(cur', orig, perm, r + 1, v, m, p)
    {
      assert TracksAt(cur, orig, perm, r + 1, v, m, p);
      if Solves(cur, r + 1, v, m, p) {
        assert Holds(cur[r], v, m, p);
        forall i | r + 1 <= i < |cur|
          ensures Cong(Dot(cur'[i], v, m), Dot(orig[perm[i]], v, m), p)
        {
          HoldsCombine(cur'[i], cur[i], cur[r], s[i], v, m, p);
          CongTrans(Dot(cur'[i], v, m), Dot(cur[i], v, m), Dot(orig[perm[i]], v, m), p);
        }
      }
    }
  }

  // ---- shape ----

  ghost predicate Increasing(piv: seq<nat>) {
    forall a, b :: 0 <= a < b < |piv| ==> piv[a] < piv[b]
  }

  ghost predicate LeadsAt(row: Row, c: nat, m: nat) {
    c < m <= |row| && row[c] == 1 && forall j :: 0 <= j < c ==> row[j] == 0
  }

  ghost predicate ZeroUpTo(row: Row, k: nat) {
    k <= |row| && forall j :: 0 <= j < k ==> row[j] == 0
  }

  /** Echelon form of the first k columns: pivot rows first, each led by a 1 in its pivot column,
      then rows that vanish in the first k columns. */
  ghost predicate Echelon(cur: seq<Row>, piv: seq<nat>, k: nat, m: nat) {
    && |piv| <= |cur| && k <= m && Shape(cur, m)
    && Increasing(piv) && (forall a :: 0 <= a < |piv| ==> piv[a] < k)
    && (forall i :: 0 <= i < |piv| ==> LeadsAt(cur[i], piv[i], m))
    && (forall i :: |piv| <= i < |cur| ==> ZeroUpTo(cur[i], k))
  }

  /** Rows lo..hi lose their entry in column k to a multiple of row r. */
  function ColumnEliminated(cur: seq<Row>, r: nat, lo: nat, hi: nat, k: nat, m: nat, p: int): (res: seq<Row>)
    requires Shape(cur, m) && r < |cur| && k < m && p > 0
    ensures |res| == |cur|
  {
    seq(|cur|, i requires 0 <= i < |cur| => if lo <= i < hi then Eliminated(cur[i], cur[r], k, m, p) else cur[i])
  }

  lemma ColumnEliminatedIs(cur: seq<Row>, res: seq<Row>, r: nat, lo: nat, hi: nat, k: nat, m: nat, p: int)
    requires Shape(cur, m) && r < |cur| && k < m && p > 0 && |res| == |cur|
    requires forall i :: 0 <= i < |cur| ==>
      res[i] == (if lo <= i < hi then Eliminated(cur[i], cur[r], k, m, p) else cur[i])
    ensures res == ColumnEliminated(cur, r, lo, hi, k, m, p)
  {
  }

  /** The matrix after the column-k step with pivot row q and factor s. */
  function ColumnStep(cur: seq<Row>, r: nat, q: nat, k: nat, m: nat, s: int, p: int): (res: seq<Row>)
    requires Shape(cur, m) && r <= q < |cur| && k < m && p > 0
    ensures |res| == |cur|
  {
    var sw := Swap(cur, r, q);
    ColumnEliminated(sw[r := Scaled(sw[r], k, m, s, p)], r, r + 1, |cur|, k, m, p)
  }

  lemma ColumnStepEchelon(cur: seq<Row>, piv: seq<nat>, q: nat, k: nat, m: nat, s: int, p: int)
    requires Echelon(cur, piv, k, m) && k < m && |piv| <= q < |cur| && p > 0
    ensures Echelon(ColumnStep(cur, |piv|, q, k, m, s, p), piv + [k], k + 1, m)
  {
    var r := |piv|;
    var res := ColumnStep(cur, r, q, k, m, s, p);
    var sw := Swap(cur, r, q);
    assert ZeroUpTo(sw[r], k);
    forall i | r < i < |cur|
      ensures ZeroUpTo(res[i], k + 1)
    {
      assert ZeroUpTo(sw[i], k);
    }
    forall i | 0 <= i < r + 1
      ensures LeadsAt(res[i], (piv + [k])[i], m)
    {
      if i < r {
        assert LeadsAt(cur[i], piv[i], m);
      }
    }
  }

  /** The rows below row r, led by column k, lose multiples of it; the others stay. */
  lemma EliminatedFactors(mid: seq<Row>, r: nat, k: nat, m: nat, p: int) returns (factors: seq<int>)
    requires Shape(mid, m) && r < |mid| && k < m && p > 0 && mid[r][k] == 1 && forall j :: 0 <= j < k ==> mid[r][j] == 0
    ensures |factors| == |mid|
    ensures
      var res := ColumnEliminated(mid, r, r + 1, |mid|, k, m, p);
      && Shape(res, m) && res[..r + 1] == mid[..r + 1]
      && forall i, j :: r < i < |mid| && 0 <= j < m ==> Cong(res[i][j], mid[i][j] - factors[i] * mid[r][j], p)
  {
    var res := ColumnEliminated(mid, r, r + 1, |mid|, k, m, p);
    factors := seq(|mid|, i requires 0 <= i < |mid| => mid[i][k]);
    hide Cong;
    forall i, j | r < i < |mid| && 0 <= j < m
      ensures Cong(res[i][j], mid[i][j] - factors[i] * mid[r][j], p)
    {
      EliminatedCong(mid[i], mid[r], k, m, p);
    }
    assert res[..r + 1] == mid[..r + 1];
  }

  lemma ColumnStepTracks(cur: seq<Row>, orig: seq<Row>, perm: seq<nat>, piv: seq<nat>, q: nat, k: nat, m: nat, s: int, p: int)
    requires Echelon(cur, piv, k, m) && k < m && |piv| <= q < |cur| && p > 0
    requires Tracks(cur, orig, perm, |piv|, m, p)
    requires Cong(s * cur[q][k], 1, p)
    ensures Tracks(ColumnStep(cur, |piv|, q, k, m, s, p), orig, Swap(perm, |piv|, q), |piv| + 1, m, p)
  {
    var r := |piv|;
    var sw, perm' := Swap(cur, r, q), Swap(perm, r, q);
    assert ZeroUpTo(cur[q], k) && Shape(cur, m);
    hide Tracks, Cong;
    TracksSwap(cur, orig, perm, r, q, m, p);
    var a := Scaled(sw[r], k, m, s, p);
    ScaledCong(sw[r], k, m, s, p);
    TracksPivot(sw, orig, perm', r, a, s, cur[q][k], m, p);
    var mid := sw[r := a];
    var factors := EliminatedFactors(mid, r, k, m, p);
    hide ColumnEliminated;
    TracksBelow(mid, ColumnStep(cur, r, q, k, m, s, p), orig, perm', r, factors, m, p);
  }

  lemma ColumnStepRange(cur: seq<Row>, r: nat, q: nat, k: nat, m: nat, s: int, p: int)
    requires MatrixInRange(cur, m, p) && r <= q < |cur| && k < m && p > 1
    ensures MatrixInRange(ColumnStep(cur, r, q, k, m, s, p), m, p)
  {
  }

  lemma SwapRange(cur: seq<Row>, r: nat, q: nat, m: nat, p: int)
    requires MatrixInRange(cur, m, p) && r < |cur| && q < |cur|
    ensures MatrixInRange(Swap(cur, r, q), m, p)
    ensures InRange(Swap(cur, r, q)[r], m, p) && Swap(cur, r, q)[r] == cur[q]
    ensures r == q ==> Swap(cur, r, q) == cur
  {
  }

  lemma ScaledRange(cur: seq<Row>, r: nat, k: nat, m: nat, s: int, p: int)
    requires MatrixInRange(cur, m, p) && r < |cur| && k < m && p > 1
    ensures MatrixInRange(cur[r := Scaled(cur[r], k, m, s, p)], m, p)
  {
  }

  // ---- the whole of forward elimination ----

  /** Distinct values below n that fill n positions include every value below n. */
  lemma PermutationOnto(perm: seq<nat>, n: nat, x: nat)
    requires IsPermutation(perm, n) && x < n
    ensures x in perm
  {
    if x !in perm {
      var image := set i | 0 <= i < n :: perm[i];
      InjectiveImage(perm, n);
      SubsetSize(image, Below(n) - {x});
      assert false;
    }
  }

  lemma {:induction false} InjectiveImage(perm: seq<nat>, k: nat)
    requires k <= |perm| && forall i, j :: 0 <= i < j < |perm| ==> perm[i] != perm[j]
    ensures |set i | 0 <= i < k :: perm[i]| == k
    decreases k
  {
    var image := set i | 0 <= i < k :: perm[i];
    if k > 0 {
      InjectiveImage(perm, k - 1);
      var before := set i | 0 <= i < k - 1 :: perm[i];
      assert image == before + {perm[k - 1]};
      assert perm[k - 1] !in before;
    } else {
      assert image == {};
    }
  }

  function Below(n: nat): (s: set<nat>)
    ensures |s| == n && forall y: nat :: y in s <==> y < n
  {
    if n == 0 then {} else Below(n - 1) + {n - 1}
  }

  lemma {:induction false} SubsetSize<T>(a: set<T>, b: set<T>)
    requires a <= b
    ensures |a| <= |b|
    decreases a
  {
    if a != {} {
      var x :| x in a;
      SubsetSize(a - {x}, b - {x});
    }
  }

  /** After forward elimination the rows, the original equations, and the original equations that
      became pivots all have the same solutions. */
  lemma EchelonSolutions(cur: seq<Row>, orig: seq<Row>, perm: seq<nat>, piv: seq<nat>, m: nat, p: int, v: Row)
    requires Echelon(cur, piv, m, m) && Tracks(cur, orig, perm, |piv|, m, p) && |v| == m
    ensures Solves(orig, |orig|, v, m, p) <==> Solves(cur, |cur|, v, m, p)
    ensures Solves(orig, |orig|, v, m, p) <==> SolvesPicked(orig, perm, |piv|, v, m, p)
  {
    var r, n := |piv|, |cur|;
    assert TracksAt(cur, orig, perm, r, v, m, p);
    forall i | r <= i < n
      ensures Holds(cur[i], v, m, p)
    {
      assert ZeroUpTo(cur[i], m);
      DotZero(cur[i], v, m);
      CongRefl(0, p);
    }
    assert Solves(cur, n, v, m, p) <==> Solves(cur, r, v, m, p);
    if Solves(cur, r, v, m, p) {
      forall x | 0 <= x < n
        ensures Holds(orig[x], v, m, p)
      {
        PermutationOnto(perm, n, x);
        var i :| 0 <= i < n && perm[i] == x;
        if i >= r {
          CongHolds(Dot(cur[i], v, m), Dot(orig[x], v, m), p);
        }
      }
    }
  }

  // ---- back substitution ----

  function BackStep(cur: seq<Row>, r: nat, c: nat, m: nat, p: int): (res: seq<Row>)
    requires Shape(cur, m) && r < |cur| && c < m && p > 0
    ensures |res| == |cur|
  {
    ColumnEliminated(cur, r, 0, r, c, m, p)
  }

  /** The pivot columns from lo on are zero outside their own row. */
  ghost predicate ClearFrom(cur: seq<Row>, piv: seq<nat>, lo: nat, m: nat)
    requires Shape(cur, m) && forall a :: 0 <= a < |piv| ==> piv[a] < m
  {
    forall a, i :: lo <= a < |piv| && 0 <= i < |cur| && i != a ==> cur[i][piv[a]] == 0
  }

  /** Reduced row echelon form. */
  ghost predicate Reduced(cur: seq<Row>, piv: seq<nat>, m: nat) {
    Echelon(cur, piv, m, m) && ClearFrom(cur, piv, 0, m)
  }

  lemma BackStepEchelon(cur: seq<Row>, piv: seq<nat>, r: nat, m: nat, p: int)
    requires Echelon(cur, piv, m, m) && r < |piv| && p > 0
    ensures Echelon(BackStep(cur, r, piv[r], m, p), piv, m, m)
  {
  }

  lemma KeepsZero(x: int, p: int)
    requires p > 0
    ensures (0 - 0 * x % p) % p == 0
  {
  }

  lemma BackStepClear(cur: seq<Row>, piv: seq<nat>, r: nat, m: nat, p: int)
    requires Echelon(cur, piv, m, m) && r < |piv| && ClearFrom(cur, piv, r + 1, m) && p > 0
    ensures ClearFrom(BackStep(cur, r, piv[r], m, p), piv, r, m)
  {
    var res, c := BackStep(cur, r, piv[r], m, p), piv[r];
    forall a, i | r <= a < |piv| && 0 <= i < |cur| && i != a
      ensures res[i][piv[a]] == 0
    {
      if i < r {
        if a > r {
          assert cur[i][piv[a]] == 0 && cur[r][piv[a]] == 0;
          KeepsZero(cur[i][c], p);
        }
      } else if a == r {
        assert if i < |piv| then LeadsAt(cur[i], piv[i], m) else ZeroUpTo(cur[i], m);
      } else {
        assert cur[i][piv[a]] == 0;
      }
    }
  }

  lemma BackStepSolutions(cur: seq<Row>, r: nat, c: nat, m: nat, p: int, v: Row)
    requires Shape(cur, m) && r < |cur| && LeadsAt(cur[r], c, m) && p > 0 && |v| == m
    ensures Solves(cur, |cur|, v, m, p) <==> Solves(BackStep(cur, r, c, m, p), |cur|, v, m, p)
  {
    var res := BackStep(cur, r, c, m, p);
    assert res[r] == cur[r];
    if Holds(cur[r], v, m, p) {
      forall i | 0 <= i < |cur|
        ensures Holds(res[i], v, m, p) <==> Holds(cur[i], v, m, p)
      {
        if i < r {
          EliminatedCong(cur[i], cur[r], c, m, p);
          HoldsCombine(res[i], cur[i], cur[r], cur[i][c], v, m, p);
        }
      }
    }
  }

  /** The two matrices have the same solutions. */
  ghost predicate SameSolutions(a: seq<Row>, b: seq<Row>, m: nat, p: int)
    requires Shape(a, m) && Shape(b, m)
  {
    forall v: Row :: |v| == m ==> (Solves(a, |a|, v, m, p) <==> Solves(b, |b|, v, m, p))
  }

  /** The original equations perm[0..r] have the same solutions as the whole matrix. */
  ghost predicate PickSuffices(orig: seq<Row>, perm: seq<nat>, r: nat, m: nat, p: int)
    requires r <= |perm| && Shape(orig, m) && forall i :: 0 <= i < |perm| ==> perm[i] < |orig|
  {
    forall v: Row :: |v| == m ==> (Solves(orig, |orig|, v, m, p) <==> SolvesPicked(orig, perm, r, v, m, p))
  }

  lemma BackStepSame(orig: seq<Row>, cur: seq<Row>, r: nat, c: nat, m: nat, p: int)
    requires Shape(orig, m) && Shape(cur, m) && r < |cur| && LeadsAt(cur[r], c, m) && p > 0
    requires SameSolutions(orig, cur, m, p)
    ensures SameSolutions(orig, BackStep(cur, r, c, m, p), m, p)
  {
    forall v: Row | |v| == m
      ensures Solves(orig, |orig|, v, m, p) <==> Solves(BackStep(cur, r, c, m, p), |cur|, v, m, p)
    {
      BackStepSolutions(cur, r, c, m, p, v);
    }
  }

  lemma EchelonSame(cur: seq<Row>, orig: seq<Row>, perm: seq<nat>, piv: seq<nat>, m: nat, p: int)
    requires Echelon(cur, piv, m, m) && Tracks(cur, orig, perm, |piv|, m, p)
    ensures SameSolutions(orig, cur, m, p) && PickSuffices(orig, perm, |piv|, m, p)
  {
    forall v: Row | |v| == m
      ensures Solves(orig, |orig|, v, m, p) <==> Solves(cur, |cur|, v, m, p)
      ensures Solves(orig, |orig|, v, m, p) <==> SolvesPicked(orig, perm, |piv|, v, m, p)
    {
      EchelonSolutions(cur, orig, perm, piv, m, p, v);
    }
  }
}

/** Reading solutions off a matrix in reduced row echelon form. The last of the m columns is the
    right-hand side; a solution x of length m - 1 is tested as the vector x + [-1]. */
module ReducedSystem {
  import opened ModArith
  import opened LinearAlgebra
  import opened Elimination

  ghost predicate IsSolution(rows: seq<Row>, x: Row, m: nat, p: int)
    requires m >= 1 && Shape(rows, m) && |x| == m - 1
  {
    Solves(rows, |rows|, x + [-1], m, p)
  }

  ghost predicate Solvable(rows: seq<Row>, m: nat, p: int)
    requires m >= 1 && Shape(rows, m)
  {
    exists x: Row :: |x| == m - 1 && IsSolution(rows, x, m, p)
  }

  /** The right-hand side is a pivot column. */
  predicate RhsPivot(piv: seq<nat>, m: nat) {
    |piv| > 0 && piv[|piv| - 1] + 1 == m
  }

  /** The pivot columns among the variables. */
  function VariablePivots(piv: seq<nat>, m: nat): (vp: seq<nat>) {
    if RhsPivot(piv, m) then piv[..|piv| - 1] else piv
  }

  /** Only column c contributes to the value of the row. */
  lemma {:induction false} DotSingle(row: Row, v: Row, c: nat, m: nat)
    requires c < m <= |row| && m <= |v|
    requires forall j :: 0 <= j < m && j != c ==> row[j] * v[j] == 0
    ensures Dot(row, v, m) == row[c] * v[c]
    decreases m
  {
    if c == m - 1 {
      var zero := seq(|row|, j => 0);
      DotSame(row, zero, v, c);
      DotZero(zero, v, c);
    } else {
      DotSingle(row, v, c, m - 1);
    }
  }

  /** The solution that sets every non-pivot variable to 0. */
  function PivotSolution(cur: seq<Row>, piv: seq<nat>, k: nat, m: nat): (x: Row)
    requires m >= 1 && Shape(cur, m) && k <= |piv| <= |cur|
    requires Increasing(piv) && forall a :: 0 <= a < k ==> piv[a] < m - 1
    ensures |x| == m - 1
    ensures forall a :: 0 <= a < k ==> x[piv[a]] == cur[a][m - 1]
    ensures forall c :: 0 <= c < m - 1 && c !in piv[..k] ==> x[c] == 0
  {
    if k == 0 then seq(m - 1, c => 0) else
      var x := PivotSolution(cur, piv, k - 1, m);
      assert piv[..k] == piv[..k - 1] + [piv[k - 1]];
      x[piv[k - 1] := cur[k - 1][m - 1]]
  }

  lemma PivotSolutionHolds(cur: seq<Row>, piv: seq<nat>, m: nat, p: int)
    requires m >= 1 && Reduced(cur, piv, m) && !RhsPivot(piv, m)
    ensures Solvable(cur, m, p)
  {
    assert forall a :: 0 <= a < |piv| ==> piv[a] < m - 1 by {
      assert |piv| > 0 ==> piv[|piv| - 1] < m - 1;
    }
    var x := PivotSolution(cur, piv, |piv|, m);
    var v := x + [-1];
    forall i | 0 <= i < |cur|
      ensures Holds(cur[i], v, m, p)
    {
      if i < |piv| {
        PivotRowValue(cur, piv, x, i, m);
      } else {
        assert ZeroUpTo(cur[i], m);
        DotZero(cur[i], v, m);
      }
      CongRefl(0, p);
    }
    assert IsSolution(cur, x, m, p);
  }

  lemma PivotRowValue(cur: seq<Row>, piv: seq<nat>, x: Row, i: nat, m: nat)
    requires m >= 1 && Reduced(cur, piv, m) && i < |piv| && |x| == m - 1
    requires forall a :: 0 <= a < |piv| ==> piv[a] < m - 1 && x[piv[a]] == cur[a][m - 1]
    requires forall c :: 0 <= c < m - 1 && c !in piv ==> x[c] == 0
    ensures Dot(cur[i], x + [-1], m) == 0
  {
    var v, row := x + [-1], cur[i];
    assert LeadsAt(row, piv[i], m);
    forall j | 0 <= j < m - 1 && j != piv[i]
      ensures row[j] * v[j] == 0
    {
      if j in piv {
        var a :| 0 <= a < |piv| && piv[a] == j;
        assert row[piv[a]] == 0;
      }
    }
    DotSingle(row, v, piv[i], m - 1);
  }

  lemma RhsPivotUnsolvable(cur: seq<Row>, piv: seq<nat>, m: nat, p: int)
    requires m >= 1 && Reduced(cur, piv, m) && RhsPivot(piv, m) && p > 1
    ensures !Solvable(cur, m, p)
  {
    var i := |piv| - 1;
    forall x: Row | |x| == m - 1
      ensures !IsSolution(cur, x, m, p)
    {
      var v := x + [-1];
      assert LeadsAt(cur[i], piv[i], m);
      DotZero(cur[i], v, m - 1);
      if Holds(cur[i], v, m, p) {
        var k := CongElim(-1, 0, p);
        MultipleBound(k, p);
        assert false;
      }
    }
  }

  /** A reduced system has a solution exactly when the right-hand side is not a pivot column. */
  lemma SolvableIff(cur: seq<Row>, piv: seq<nat>, m: nat, p: int)
    requires m >= 1 && Reduced(cur, piv, m) && p > 1
    ensures Solvable(cur, m, p) <==> !RhsPivot(piv, m)
  {
    if RhsPivot(piv, m) {
      RhsPivotUnsolvable(cur, piv, m, p);
    } else {
      PivotSolutionHolds(cur, piv, m, p);
    }
  }

  /** The columns below c that are not pivots, in increasing order. */
  function NonPivots(piv: seq<nat>, c: nat): (s: seq<nat>)
    ensures forall j: nat :: j in s <==> j < c && j !in piv
    ensures Increasing(s)
  {
    if c == 0 then [] else
      var before := NonPivots(piv, c - 1);
      assert forall b :: 0 <= b < |before| ==> before[b] in before;
      if c - 1 in piv then before else before + [c - 1]
  }
}

/** A reduced row echelon form is determined by the solutions it has: neither the order of the equations
    nor the choice of pivot rows shows in the result of a reduction (src/matrix.cc:9-85). */
module ReducedUnique {
  import opened ModArith
  import opened LinearAlgebra
  import opened Elimination
  import opened ReducedSystem

  // ---- the solution that a column without pivot gives ----

  /** The row whose pivot is column j, or |piv|. */
  function PivotRow(piv: seq<nat>, j: nat): (a: nat)
    ensures a <= |piv| && (a < |piv| ==> piv[a] == j) && (a == |piv| <==> j !in piv)
  {
    if piv == [] then 0 else if piv[|piv| - 1] == j then |piv| - 1 else
      var a := PivotRow(piv[..|piv| - 1], j);
      if a == |piv| - 1 then |piv| else a
  }

  /** Column c set to 1, every other column without pivot to 0. */
  function FreeVector(cur: seq<Row>, piv: seq<nat>, c: nat, m: nat): (v: Row)
    requires |piv| <= |cur| && Shape(cur, m) && c < m
    ensures |v| == m
  {
    seq(m, j requires 0 <= j < m =>
      if j == c then 1 else
        var a := PivotRow(piv, j);
        if a < |piv| then -cur[a][c] else 0)
  }

  /** Only columns c and d contribute to the value of the row. */
  lemma {:induction false} DotPair(row: Row, v: Row, c: nat, d: nat, m: nat)
    requires c < d < m <= |row| && m <= |v|
    requires forall j :: 0 <= j < m && j != c && j != d ==> row[j] * v[j] == 0
    ensures Dot(row, v, m) == row[c] * v[c] + row[d] * v[d]
    decreases m
  {
    if d == m - 1 {
      DotSingle(row, v, c, m - 1);
    } else {
      DotPair(row, v, c, d, m - 1);
    }
  }

  lemma PivotsDistinct(piv: seq<nat>, i: nat)
    requires Increasing(piv) && i < |piv|
    ensures PivotRow(piv, piv[i]) == i
  {
    var a := PivotRow(piv, piv[i]);
    assert a < |piv| && piv[a] == piv[i];
  }

  /** The value of row i of a matrix b with the same pivots: its own entry in column c less that of cur. */
  lemma FreeVectorValue(cur: seq<Row>, b: seq<Row>, piv: seq<nat>, c: nat, i: nat, m: nat)
    requires Reduced(b, piv, m) && |piv| <= |cur| && Shape(cur, m) && c < m && c !in piv && i < |piv|
    ensures Dot(b[i], FreeVector(cur, piv, c, m), m) == b[i][c] - cur[i][c]
  {
    var v := FreeVector(cur, piv, c, m);
    PivotsDistinct(piv, i);
    forall j | 0 <= j < m && j != c && j != piv[i]
      ensures b[i][j] * v[j] == 0
    {
      var a := PivotRow(piv, j);
      if a < |piv| {
        assert b[i][piv[a]] == 0;
      }
    }
    assert LeadsAt(b[i], piv[i], m) && v[c] == 1 && v[piv[i]] == -cur[i][c];
    hide FreeVector, Reduced;
    if c < piv[i] {
      DotPair(b[i], v, c, piv[i], m);
    } else {
      DotPair(b[i], v, piv[i], c, m);
    }
  }

  lemma FreeVectorSolves(cur: seq<Row>, piv: seq<nat>, c: nat, m: nat, p: int)
    requires Reduced(cur, piv, m) && c < m && c !in piv
    ensures Solves(cur, |cur|, FreeVector(cur, piv, c, m), m, p)
  {
    var v := FreeVector(cur, piv, c, m);
    forall i | 0 <= i < |cur|
      ensures Holds(cur[i], v, m, p)
    {
      if i < |piv| {
        FreeVectorValue(cur, cur, piv, c, i, m);
      } else {
        assert ZeroUpTo(cur[i], m);
        DotZero(cur[i], v, m);
      }
      CongRefl(0, p);
    }
  }

  // ---- pivots ----

  ghost predicate VanishesAfter(v: Row, c: nat, m: nat, p: int)
    requires m <= |v|
  {
    forall j :: c < j < m ==> Cong(v[j], 0, p)
  }

  /** Column c vanishes in every solution in which all later columns vanish. */
  ghost predicate Forced(rows: seq<Row>, c: nat, m: nat, p: int)
    requires Shape(rows, m) && c < m
  {
    forall v: Row :: |v| == m && Solves(rows, |rows|, v, m, p) && VanishesAfter(v, c, m, p) ==> Cong(v[c], 0, p)
  }

  /** The value of a row led by column c, when the later columns of v vanish. */
  lemma {:induction false} DotLead(row: Row, v: Row, c: nat, k: nat, m: nat, p: int)
    requires LeadsAt(row, c, m) && |v| == m && VanishesAfter(v, c, m, p) && c < k <= m
    ensures Cong(Dot(row, v, k), v[c], p)
    decreases k
  {
    if k == c + 1 {
      DotZero(row, v, c);
      CongRefl(v[c], p);
    } else {
      DotLead(row, v, c, k - 1, m, p);
      CongRefl(row[k - 1], p);
      CongMul(row[k - 1], row[k - 1], v[k - 1], 0, p);
      CongAdd(Dot(row, v, k - 1), v[c], row[k - 1] * v[k - 1], 0, p);
    }
  }

  /** The pivots are the forced columns. */
  lemma PivotIff(cur: seq<Row>, piv: seq<nat>, c: nat, m: nat, p: int)
    requires Reduced(cur, piv, m) && c < m && p > 1
    ensures c in piv <==> Forced(cur, c, m, p)
  {
    if c in piv {
      var a :| 0 <= a < |piv| && piv[a] == c;
      forall v: Row | |v| == m && Solves(cur, |cur|, v, m, p) && VanishesAfter(v, c, m, p)
        ensures Cong(v[c], 0, p)
      {
        assert LeadsAt(cur[a], c, m) && Holds(cur[a], v, m, p);
        DotLead(cur[a], v, c, m, m, p);
        CongHolds(Dot(cur[a], v, m), v[c], p);
      }
    } else {
      var v := FreeVector(cur, piv, c, m);
      FreeVectorSolves(cur, piv, c, m, p);
      FreeVectorVanishes(cur, piv, c, m, p);
      if Cong(v[c], 0, p) {
        CongUnique(1, 0, p);
      }
    }
  }

  /** Pivots after column c lead rows that have no entry in column c. */
  lemma FreeVectorVanishes(cur: seq<Row>, piv: seq<nat>, c: nat, m: nat, p: int)
    requires Reduced(cur, piv, m) && c < m
    ensures VanishesAfter(FreeVector(cur, piv, c, m), c, m, p)
  {
    forall j | c < j < m
      ensures FreeVector(cur, piv, c, m)[j] == 0
    {
      var a := PivotRow(piv, j);
      if a < |piv| {
        assert LeadsAt(cur[a], j, m);
      }
    }
    CongRefl(0, p);
  }

  lemma {:induction false} SameMembers(s: seq<nat>, t: seq<nat>)
    requires Increasing(s) && Increasing(t) && forall c :: c in s <==> c in t
    ensures s == t
    decreases |s|
  {
    assert |t| > 0 ==> t[0] in t;
    if s != [] {
      assert s[0] in t;
      assert t[0] in s;
      var a, b :| 0 <= a < |s| && s[a] == t[0] && 0 <= b < |t| && t[b] == s[0];
      assert s[0] == t[0];
      forall c
        ensures c in s[1..] <==> c in t[1..]
      {
        if c in s[1..] {
          assert c in s && c != s[0];
        }
        if c in t[1..] {
          assert c in t && c != t[0];
        }
        assert s == [s[0]] + s[1..] && t == [t[0]] + t[1..];
      }
      SameMembers(s[1..], t[1..]);
      assert s == [s[0]] + s[1..] && t == [t[0]] + t[1..];
    }
  }

  /** Two reduced forms with the same solutions have the same pivot columns. */
  lemma PivotsDetermined(a: seq<Row>, piva: seq<nat>, b: seq<Row>, pivb: seq<nat>, m: nat, p: int)
    requires Reduced(a, piva, m) && Reduced(b, pivb, m) && SameSolutions(a, b, m, p) && p > 1
    ensures piva == pivb
  {
    forall c: nat
      ensures c in piva <==> c in pivb
    {
      if c < m {
        PivotIff(a, piva, c, m, p);
        PivotIff(b, pivb, c, m, p);
        assert Forced(a, c, m, p) <==> Forced(b, c, m, p);
      }
    }
    SameMembers(piva, pivb);
  }

  // ---- entries ----

  lemma EntryDetermined(a: seq<Row>, b: seq<Row>, piv: seq<nat>, i: nat, c: nat, m: nat, p: int)
    requires Reduced(a, piv, m) && Reduced(b, piv, m) && SameSolutions(a, b, m, p) && p > 1
    requires i < |piv| && c < m && c !in piv
    ensures Cong(b[i][c], a[i][c], p)
  {
    var v := FreeVector(a, piv, c, m);
    FreeVectorSolves(a, piv, c, m, p);
    assert Holds(b[i], v, m, p);
    FreeVectorValue(a, b, piv, c, i, m);
    var k := CongElim(b[i][c] - a[i][c], 0, p);
    CongIntro(b[i][c], a[i][c], k, p);
  }

  /** Two reduced matrices of residues with the same solutions agree in all their non-zero rows. */
  lemma ReducedDetermined(a: seq<Row>, piva: seq<nat>, b: seq<Row>, pivb: seq<nat>, m: nat, p: int)
    requires Reduced(a, piva, m) && Reduced(b, pivb, m) && SameSolutions(a, b, m, p) && p > 1
    requires MatrixInRange(a, m, p) && MatrixInRange(b, m, p)
    ensures piva == pivb && forall i, j :: 0 <= i < |piva| && 0 <= j < m ==> a[i][j] == b[i][j]
  {
    PivotsDetermined(a, piva, b, pivb, m, p);
    forall i, j | 0 <= i < |piva| && 0 <= j < m
      ensures a[i][j] == b[i][j]
    {
      if j in piva {
        var r :| 0 <= r < |piva| && piva[r] == j;
        assert LeadsAt(a[i], piva[i], m) && LeadsAt(b[i], piva[i], m);
        assert r != i ==> a[i][piva[r]] == 0 && b[i][piva[r]] == 0;
      } else {
        EntryDetermined(a, b, piva, i, j, m, p);
        assert InRange(a[i], m, p) && InRange(b[i], m, p);
        CongUnique(b[i][j], a[i][j], p);
      }
    }
  }
}
