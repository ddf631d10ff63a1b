/** Sparse matrices reduced in place (SparseMatrix, include/fflow/matrix.hh:616-732,
    src/matrix.cc:318-433), without a column limit (`maxrow` is END). */
module SparseMatrices {
  import opened ModArith
  import opened FFMod
  import opened SparseRow
  import opened SparseBuffers
  import opened SparseElimination
  import opened SparseReduction
  import opened SparseSystem

  const NO_EQ: nat := 0xffff_ffff

  /** varEq maps the leading column of each non-zero row of done to its number; column skip, whose
      entry is never looked up, is left out. */
  ghost predicate Registers(varEq: seq<nat>, done: seq<Cells>, skip: int) {
    && (forall c :: 0 <= c < |varEq| && c != skip && varEq[c] != NO_EQ ==>
         varEq[c] < |done| && done[varEq[c]] != [] && Lead(done[varEq[c]]) == c)
    && (forall e :: 0 <= e < |done| && done[e] != [] ==>
         Lead(done[e]) < |varEq| && Lead(done[e]) != skip && varEq[Lead(done[e])] == e)
  }

  /** Smallest registered equation among the cells from position first on. */
  method EqToSubstitute(data: array<Cell>, size: nat, first: nat, varEq: array<nat>,
                        ghost done: seq<Cells>, ghost skip: int)
    returns (eq: nat)
    requires Terminated(data, size) && first <= size && |done| <= NO_EQ
    requires forall i :: 0 <= i < size ==> data[i].col < varEq.Length
    requires Registers(varEq[..], done, skip)
    requires forall i :: first <= i < size ==> data[i].col != skip
    requires forall i, e :: 0 <= i < first && 0 <= e < |done| && done[e] != [] ==> Lead(done[e]) != data[i].col
    ensures var k := MinEq(data[..size], done, 0); eq == if k == |done| then NO_EQ else k
  {
    eq := NO_EQ;
    var idx := first;
    while data[idx].col != END
      invariant first <= idx <= size
      invariant eq != NO_EQ ==> eq < |done| && Uses(data[..size], done, eq)
      invariant forall i :: first <= i < idx ==> varEq[data[i].col] >= eq
      decreases size - idx
    {
      if varEq[data[idx].col] < eq {
        eq := varEq[data[idx].col];
        assert data[..size][idx].col == Lead(done[eq]);
      }
      idx := idx + 1;
    }
    forall e | 0 <= e < |done| && e < eq
      ensures !Uses(data[..size], done, e)
    {
      assert done[e] != [] ==> forall i :: 0 <= i < size ==> data[..size][i].col != Lead(done[e]);
      NotUsed(data[..size], done, e);
    }
    MinEqIs(data[..size], done, 0, if eq == NO_EQ then |done| else eq);
  }

  lemma NotUsed(row: Cells, done: seq<Cells>, e: nat)
    requires e < |done| && (done[e] != [] ==> forall i :: 0 <= i < |row| ==> row[i].col != Lead(done[e]))
    ensures !Uses(row, done, e)
  {
  }

  /** Rows that begin with the equations done. */
  lemma StartsWith(contents: seq<Cells>, done: seq<Cells>, rest: seq<Cells>)
    requires contents == done + rest
    ensures forall e :: 0 <= e < |done| ==> contents[e] == done[e]
    ensures rest != [] ==> contents[|done|] == rest[0]
  {
  }

  lemma RegistersZero(varEq: seq<nat>, done: seq<Cells>)
    requires Registers(varEq, done, -1)
    ensures Registers(varEq, done + [[]], -1)
  {
  }

  /** Registering a row that contains no earlier leading column. */
  lemma RegistersAdd(varEq: seq<nat>, done: seq<Cells>, r: Cells)
    requires Registers(varEq, done, -1) && r != [] && Lead(r) < |varEq| && ClearBelow(r, done, |done|)
    requires |done| < NO_EQ
    ensures Registers(varEq[Lead(r) := |done|], done + [r], -1)
  {
    assert r[0].col == Lead(r);
    forall e | 0 <= e < |done| && done[e] != []
      ensures Lead(done[e]) != Lead(r)
    {
      assert !Uses(r, done, e);
    }
  }

  /** What forward elimination does to one row, in the three cases of the loop body. */
  lemma ForwardStep(orig: seq<Cells>, i: nat, varEq: seq<nat>, m: nat, p: int)
    requires IsPrime(p) && AllWellFormed(orig, m, p) && i < |orig| <= NO_EQ && |varEq| == m
    requires Registers(varEq, Forward(orig, i, m, p), -1)
    ensures var done := Forward(orig, i, m, p);
            var r := Reduce(orig[i], done, 0, m, p);
      && Triangular(done) && ClearBelow(orig[i], done, 0)
      && WellFormed(orig[i], m, p) && WellFormed(r.row, m, p) && ForwardDeps(orig, i, m, p) == r.deps
      && Forward(orig, i + 1, m, p) == done + [Normal(r.row, m, p)]
      && (orig[i] == [] ==> r == Reduction([], []))
      && (orig[i] != [] ==> orig[i][0].val != 0) && (r.row != [] ==> r.row[0].val != 0)
      && (r.row == [] ==> Normal(r.row, m, p) == [] && Registers(varEq, done + [Normal(r.row, m, p)], -1))
      && (r.row != [] ==> Lead(r.row) < m)
      && (r.row != [] ==> Registers(varEq[Lead(r.row) := i], done + [Normal(r.row, m, p)], -1))
  {
    hide IsPrime, Triangular, Reduce, Registers, Uses, HasCol;
    var done := Forward(orig, i, m, p);
    var r := Reduce(orig[i], done, 0, m, p);
    ForwardTriangular(orig, i, m, p);
    ReduceClears(orig[i], done, 0, m, p);
    NormalFacts(r.row, m, p);
    if orig[i] == [] {
      EmptyReduces(done, m, p);
    }
    if r.row == [] {
      RegistersZero(varEq, done);
    } else {
      NormalClear(r.row, done, m, p);
      RegistersAdd(varEq, done, Normal(r.row, m, p));
    }
  }

  lemma NextStage(before: seq<Cells>, orig: seq<Cells>, i: nat, m: nat, p: int)
    requires IsPrime(p) && AllWellFormed(orig, m, p) && i < |orig|
    requires before == Forward(orig, i, m, p) + orig[i..]
    ensures before[i := Forward(orig, i + 1, m, p)[i]] == Forward(orig, i + 1, m, p) + orig[i + 1..]
  {
  }

  /** eqdeps lists the forward dependencies of the first rows. */
  ghost predicate ListsForwardDeps(eqdeps: seq<seq<nat>>, orig: seq<Cells>, m: nat, p: int)
    requires IsPrime(p) && AllWellFormed(orig, m, p) && |eqdeps| <= |orig|
  {
    forall k :: 0 <= k < |eqdeps| ==> eqdeps[k] == ForwardDeps(orig, k, m, p)
  }

  lemma ListsNext(eqdeps: seq<seq<nat>>, orig: seq<Cells>, m: nat, p: int)
    requires IsPrime(p) && AllWellFormed(orig, m, p) && |eqdeps| < |orig| && ListsForwardDeps(eqdeps, orig, m, p)
    ensures ListsForwardDeps(eqdeps + [ForwardDeps(orig, |eqdeps|, m, p)], orig, m, p)
  {
  }

  lemma StageEnds(orig: seq<Cells>, m: nat, p: int)
    requires IsPrime(p) && AllWellFormed(orig, m, p)
    ensures Forward(orig, 0, m, p) + orig[0..] == orig && Forward(orig, 0, m, p) == []
    ensures Forward(orig, |orig|, m, p) + orig[|orig|..] == Forward(orig, |orig|, m, p)
    ensures ListsForwardDeps([], orig, m, p)
  {
  }

  lemma NormalClear(r: Cells, done: seq<Cells>, m: nat, p: int)
    requires IsPrime(p) && WellFormed(r, m, p) && ClearBelow(r, done, |done|)
    ensures ClearBelow(Normal(r, m, p), done, |done|)
  {
    NormalFacts(r, m, p);
    forall e | 0 <= e < |done|
      ensures !Uses(Normal(r, m, p), done, e)
    {
      assert !Uses(r, done, e);
    }
  }

  lemma EmptyReduces(done: seq<Cells>, m: nat, p: int)
    requires IsPrime(p) && Substitutable(done, m, p) && WellFormed([], m, p)
    ensures Reduce([], done, 0, m, p) == Reduction([], [])
  {
  }

  function Zeros(k: nat): (z: seq<Cells>)
    ensures |z| == k && forall i :: 0 <= i < k ==> z[i] == []
  {
    seq(k, _ => [])
  }

  /** The rows once the zero rows among the first i have been swapped behind the others. */
  ghost function Removed(orig: seq<Cells>, i: nat): (s: seq<Cells>)
    requires i <= |orig| && |NonZero(orig[..i])| <= i
  {
    NonZero(orig[..i]) + Zeros(i - |NonZero(orig[..i])|) + orig[i..]
  }

  lemma RemovedStart(orig: seq<Cells>)
    ensures NonZero(orig[..0]) == [] && Removed(orig, 0) == orig
    ensures NonZero(orig[..|orig|]) == NonZero(orig) && |NonZero(orig)| <= |orig|
    ensures Removed(orig, |orig|) == NonZero(orig) + Zeros(|orig| - |NonZero(orig)|)
  {
    assert orig[..|orig|] == orig;
    NonZeroShorter(orig);
  }

  lemma {:induction false} NonZeroShorter(rows: seq<Cells>)
    ensures |NonZero(rows)| <= |rows|
    decreases |rows|
  {
    if rows != [] {
      NonZeroShorter(rows[..|rows| - 1]);
    }
  }

  /** Swapping a non-zero row with the first zero row, or letting a zero row be, is the next stage. */
  lemma RemovedStep(orig: seq<Cells>, i: nat)
    requires i < |orig|
    ensures |NonZero(orig[..i])| <= i && |NonZero(orig[..i + 1])| <= i + 1
    ensures var before, k := Removed(orig, i), |NonZero(orig[..i])|;
      && |before| == |orig| && before[i] == orig[i]
      && (orig[i] == [] ==> Removed(orig, i + 1) == before && |NonZero(orig[..i + 1])| == k)
      && (orig[i] != [] ==> |NonZero(orig[..i + 1])| == k + 1)
      && (orig[i] != [] ==> Removed(orig, i + 1) == if k < i then before[k := before[i]][i := before[k]] else before)
  {
    NonZeroShorter(orig[..i]);
    NonZeroShorter(orig[..i + 1]);
    assert orig[..i + 1][..i] == orig[..i];
  }

  /** The first rows have the numbers of the rows at the given positions; without removed rows all numbers stay. */
  ghost predicate IdsKept(ids: seq<nat>, before: seq<nat>, at: seq<nat>) {
    && |at| <= |ids| == |before|
    && (forall k :: 0 <= k < |at| ==> at[k] < |before| && ids[k] == before[at[k]])
    && (|at| == |before| ==> ids == before)
  }

  /** The numbers once the first i rows have been looked at. */
  ghost predicate IdsMoved(ids: seq<nat>, before: seq<nat>, orig: seq<Cells>, i: nat) {
    && i <= |orig| == |ids| == |before| && IdsKept(ids[..i], before[..i], NonZeroAt(orig[..i])) && ids[i..] == before[i..]
  }

  lemma IdsStart(orig: seq<Cells>, ids: seq<nat>)
    requires |orig| == |ids|
    ensures IdsMoved(ids, ids, orig, 0)
    ensures forall now :: IdsMoved(now, ids, orig, |orig|) ==> IdsKept(now, ids, NonZeroAt(orig))
  {
    assert orig[..|orig|] == orig && ids[..|ids|] == ids;
    forall now | IdsMoved(now, ids, orig, |orig|)
      ensures IdsKept(now, ids, NonZeroAt(orig))
    {
      assert now[..|now|] == now;
    }
  }

  /** A row that moves up takes its number along. */
  lemma IdsStep(ids: seq<nat>, before: seq<nat>, orig: seq<Cells>, i: nat)
    requires i < |orig| && IdsMoved(ids, before, orig, i)
    ensures |NonZero(orig[..i])| <= i < |ids|
    ensures var k := |NonZero(orig[..i])|;
      IdsMoved(if orig[i] == [] || k == i then ids else ids[k := ids[i]][i := ids[k]], before, orig, i + 1)
  {
    NonZeroShorter(orig[..i]);
    NonZeroAtRows(orig[..i]);
    NonZeroAtRows(orig[..i + 1]);
    NonZeroShorter(orig[..i + 1]);
    assert orig[..i + 1][..i] == orig[..i];
    var k := |NonZero(orig[..i])|;
    var now := if orig[i] == [] || k == i then ids else ids[k := ids[i]][i := ids[k]];
    assert ids[i] == ids[i..][0] == before[i..][0] == before[i];
    assert now[i + 1..] == ids[i..][1..] == before[i..][1..] == before[i + 1..];
    var at := NonZeroAt(orig[..i]);
    assert NonZeroAt(orig[..i + 1]) == at + if orig[i] == [] then [] else [i];
    forall l | 0 <= l < |at|
      ensures now[l] == before[at[l]] && at[l] < i
    {
      assert ids[..i][l] == before[..i][at[l]];
    }
    if |NonZeroAt(orig[..i + 1])| == i + 1 {
      assert ids[..i] == before[..i];
      assert now[..i + 1] == before[..i + 1];
    }
  }

  /** The rows left after forward elimination: non-zero, led by a 1, no earlier leading columns. */
  ghost predicate NonZeroSystem(d: seq<Cells>, m: nat, p: int) {
    && Substitutable(d, m, p) && Triangular(d) && |d| < NO_EQ
    && forall i :: 0 <= i < |d| ==> d[i] != []
  }

  lemma RegistersNext(varEq: seq<nat>, d: seq<Cells>, i: nat, m: nat, p: int)
    requires NonZeroSystem(d, m, p) && i < |d| && Registers(varEq, d[..i], -1) && |varEq| == m
    ensures d[i] != [] && Lead(d[i]) < m && Registers(varEq[Lead(d[i]) := i], d[..i + 1], -1)
  {
    hide Registers, Substitutable;
    assert Lead(d[i]) < m by {
      NonZeroRow(d, i, m, p);
    }
    forall e | 0 <= e < i
      ensures !Uses(d[i], d[..i], e)
    {
      assert !Uses(d[i], d, e);
    }
    RegistersAdd(varEq, d[..i], d[i]);
    assert d[..i] + [d[i]] == d[..i + 1];
  }

  lemma NonZeroRow(d: seq<Cells>, i: nat, m: nat, p: int)
    requires NonZeroSystem(d, m, p) && i < |d|
    ensures d[i] != [] && WellFormed(d[i], m, p) && Lead(d[i]) < m
  {
  }

  /** The non-zero rows after forward elimination. */
  ghost function Independent(orig: seq<Cells>, m: nat, p: int): seq<Cells>
    requires IsPrime(p) && AllWellFormed(orig, m, p)
  {
    NonZero(Forward(orig, |orig|, m, p))
  }

  lemma IndependentSystem(orig: seq<Cells>, m: nat, p: int)
    requires IsPrime(p) && AllWellFormed(orig, m, p) && |orig| < NO_EQ
    ensures NonZeroSystem(Independent(orig, m, p), m, p) && |Independent(orig, m, p)| <= |orig|
    ensures forall i :: 0 <= i < |Independent(orig, m, p)| ==> Independent(orig, m, p)[i] != []
  {
    hide Triangular, IsPrime, AllWellFormed, Substitutable;
    var done := Forward(orig, |orig|, m, p);
    ForwardTriangular(orig, |orig|, m, p);
    NonZeroTriangular(done);
    NonZeroSubstitutable(done, m, p);
    NonZeroShorter(done);
  }

  /** eqdeps[k] holds the forward dependencies of given row k and, for the first i rows left, their
      back substitutions. */
  ghost predicate ListsDeps(eqdeps: seq<seq<nat>>, orig: seq<Cells>, i: nat, fl: Flags, m: nat, p: int)
    requires IsPrime(p) && AllWellFormed(orig, m, p) && |eqdeps| == |orig| < NO_EQ && i <= |Independent(orig, m, p)|
  {
    IndependentSystem(orig, m, p);
    var d := Independent(orig, m, p);
    forall k :: 0 <= k < |eqdeps| ==>
      eqdeps[k] == ForwardDeps(orig, k, m, p) + if k < i then BackRow(d, k, fl, m, p).deps else []
  }

  lemma ListsNextDeps(eqdeps: seq<seq<nat>>, orig: seq<Cells>, i: nat, fl: Flags, m: nat, p: int)
    requires IsPrime(p) && AllWellFormed(orig, m, p) && |eqdeps| == |orig| < NO_EQ && i < |Independent(orig, m, p)| <= |orig|
    requires ListsDeps(eqdeps, orig, i, fl, m, p) && NonZeroSystem(Independent(orig, m, p), m, p)
    ensures var d := Independent(orig, m, p);
      d[i] != [] && Substitutable(d, m, p) &&
      ListsDeps(eqdeps[i := eqdeps[i] + BackRow(d, i, fl, m, p).deps], orig, i + 1, fl, m, p)
  {
    hide ForwardDeps, BackRow, IsPrime, AllWellFormed, Independent;
  }

  lemma IndependentFacts(orig: seq<Cells>, eqdeps: seq<seq<nat>>, fl: Flags, m: nat, p: int)
    requires IsPrime(p) && AllWellFormed(orig, m, p) && |orig| < NO_EQ && |eqdeps| == |orig|
    requires ListsForwardDeps(eqdeps, orig, m, p)
    ensures var d := Independent(orig, m, p);
      && d == NonZero(Forward(orig, |orig|, m, p)) && NonZeroSystem(d, m, p) && |d| <= |orig|
      && ListsDeps(eqdeps, orig, 0, fl, m, p)
  {
    hide ForwardDeps, BackRow, IsPrime, AllWellFormed, Forward, NonZeroSystem;
    IndependentSystem(orig, m, p);
  }

  /** Back substitution leads from the independent rows to the reduced ones. */
  lemma StagesOfReduction(orig: seq<Cells>, eqdeps: seq<seq<nat>>, tail: seq<Cells>, fl: Flags, m: nat, p: int)
    requires IsPrime(p) && AllWellFormed(orig, m, p) && |orig| < NO_EQ && |eqdeps| == |orig|
    requires ListsDeps(eqdeps, orig, 0, AllNeeded, m, p)
    ensures var d := Independent(orig, m, p);
      && NonZeroSystem(d, m, p) && |d| <= |orig|
      && BackStage(d, 0, tail, fl, m, p) == d + tail
      && BackStage(d, |d|, tail, fl, m, p) == Reduced(orig, fl, m, p) + tail
      && ListsDeps(eqdeps, orig, 0, fl, m, p)
  {
    hide ForwardDeps, BackRow, IsPrime, AllWellFormed, Forward, NonZeroSystem;
    IndependentSystem(orig, m, p);
  }

  lemma RowsByFlags(orig: seq<Cells>, tail: seq<Cells>, fl: Flags, m: nat, p: int)
    requires IsPrime(p) && AllWellFormed(orig, m, p)
    ensures var d, all := Independent(orig, m, p), Reduced(orig, fl, m, p) + tail;
      |d| <= |all| && SubstitutedByFlags(d, all[..|d|], fl)
  {
    hide IsPrime, AllWellFormed, Forward, NonZero, HasCol, Reduced;
    ReducedByFlags(orig, fl, m, p);
    assert (Reduced(orig, fl, m, p) + tail)[..|Independent(orig, m, p)|] == Reduced(orig, fl, m, p);
  }

  /** The last row has nothing to substitute. */
  lemma LastBackRow(d: seq<Cells>, tail: seq<Cells>, fl: Flags, m: nat, p: int)
    requires IsPrime(p) && NonZeroSystem(d, m, p)
    ensures d != [] ==> BackStage(d, |d| - 1, tail, fl, m, p) == BackStage(d, |d|, tail, fl, m, p)
    ensures d != [] ==> BackRow(d, |d| - 1, fl, m, p) == Reduction(d[|d| - 1], [])
  {
  }

  lemma ListsToEnd(eqdeps: seq<seq<nat>>, orig: seq<Cells>, fl: Flags, m: nat, p: int)
    requires IsPrime(p) && AllWellFormed(orig, m, p) && |eqdeps| == |orig| < NO_EQ
    requires var d := Independent(orig, m, p); ListsDeps(eqdeps, orig, if |d| < 2 then 0 else |d| - 1, fl, m, p)
    ensures ListsDeps(eqdeps, orig, |Independent(orig, m, p)|, fl, m, p)
  {
    hide ForwardDeps, IsPrime, AllWellFormed, Independent, BackRow;
    var d := Independent(orig, m, p);
    IndependentSystem(orig, m, p);
    if d != [] {
      LastBackRow(d, [], fl, m, p);
    }
  }

  /** The matrix when the rows before i have been back-substituted. */
  ghost function BackStage(d: seq<Cells>, i: nat, tail: seq<Cells>, fl: Flags, m: nat, p: int): seq<Cells>
    requires IsPrime(p) && NonZeroSystem(d, m, p) && i <= |d|
  {
    Back(d, fl, m, p)[..i] + d[i..] + tail
  }

  /** Row i takes part neither in its own substitution nor in the look-up. */
  lemma BackStageNext(d: seq<Cells>, i: nat, tail: seq<Cells>, fl: Flags, varEq: seq<nat>, m: nat, p: int)
    requires IsPrime(p) && NonZeroSystem(d, m, p) && i < |d| && Registers(varEq, d, -1)
    ensures var others, before := d[i := []], BackStage(d, i, tail, fl, m, p);
      && |before| > i && before[i] == d[i] && d[i] != [] && WellFormed(d[i], m, p) && |d| <= |before|
      && Substitutable(others, m, p) && Triangular(others) && ClearBelow(d[i], others, i + 1)
      && Registers(varEq, others, Lead(d[i])) && LookedUp(d[i], 1, Lead(d[i])) && |others| == |d|
      && BackStage(d, i + 1, tail, fl, m, p) == before[i := BackRow(d, i, fl, m, p).row]
      && BackRow(d, i, fl, m, p) ==
           (if IsNeeded(fl, Lead(d[i])) then Reduce(d[i], others, i + 1, m, p) else Reduction(d[i], []))
      && before[i := d[i]] == before
  {
    hide IsPrime, Reduce, Uses, HasCol, Registers, Triangular, Substitutable;
    var others := d[i := []];
    NonZeroRow(d, i, m, p);
    OthersTriangular(d, i, m, p);
    OthersRegistered(varEq, d, i);
    ReduceSameTail(d[i], d, others, i + 1, m, p);
  }

  /** Row i after its back substitution, told from the flags. */
  ghost predicate RowByFlags(d: seq<Cells>, i: nat, row: Cells, fl: Flags)
    requires i < |d| && forall l :: 0 <= l < |d| ==> d[l] != []
  {
    if fl.AllNeeded? || (Lead(d[i]) < |fl.flags| && fl.flags[Lead(d[i])])
    then forall e :: 0 <= e < |d| && e != i ==> !HasCol(row, Lead(d[e]))
    else row == d[i]
  }

  lemma BackStageRow(d: seq<Cells>, i: nat, tail: seq<Cells>, fl: Flags, m: nat, p: int)
    requires IsPrime(p) && NonZeroSystem(d, m, p) && i < |d|
    ensures (forall l :: 0 <= l < |d| ==> d[l] != []) && |BackStage(d, i + 1, tail, fl, m, p)| == |d| + |tail|
    ensures RowByFlags(d, i, BackStage(d, i + 1, tail, fl, m, p)[i], fl)
  {
    hide IsPrime, Triangular, Substitutable, HasCol;
    BackClear(d, i, fl, m, p);
  }

  lemma OthersTriangular(d: seq<Cells>, i: nat, m: nat, p: int)
    requires NonZeroSystem(d, m, p) && i < |d|
    ensures Substitutable(d[i := []], m, p) && Triangular(d[i := []]) && ClearBelow(d[i], d[i := []], i + 1)
  {
    var others := d[i := []];
    forall e, f | 0 <= e < f < |d|
      ensures !Uses(others[f], others, e)
    {
      assert !Uses(d[f], d, e);
    }
    forall e | 0 <= e < i + 1
      ensures !Uses(d[i], others, e)
    {
      if e < i {
        assert !Uses(d[i], d, e);
      }
    }
  }

  lemma OthersRegistered(varEq: seq<nat>, d: seq<Cells>, i: nat)
    requires i < |d| && d[i] != [] && Registers(varEq, d, -1)
    ensures Registers(varEq, d[i := []], Lead(d[i]))
  {
  }

  class SparseMatrix {
    /** n rows and two working rows after them. The row objects stay in place; moving or swapping
        rows exchanges their buffers. */
    const rows: array<SparseMatrixRow>
    const m: nat
    const varEq: array<nat>
    var n: nat
    /** The row objects and their buffers. */
    ghost var Repr: set<object>

    constructor (rows: array<SparseMatrixRow>, n: nat, m: nat, ghost repr: set<object>)
      requires n + 2 <= rows.Length && n < NO_EQ && m <= END && rows !in repr
      requires forall i :: 0 <= i < n + 2 ==> rows[i].Valid() && rows[i] in repr && rows[i].data in repr
      requires forall i, j :: 0 <= i < j < n + 2 ==> rows[i] != rows[j] && rows[i].data != rows[j].data
      ensures Valid() && this.rows == rows && this.n == n && this.m == m && fresh(varEq) && Repr == repr
    {
      this.rows, this.n, this.m := rows, n, m;
      varEq := new nat[m];
      Repr := repr;
    }

    /** Every row is terminated and no two rows share an object or a buffer. */
    ghost predicate Valid()
      reads this, rows, Repr
    {
      && n + 2 <= rows.Length && n < NO_EQ && varEq.Length == m && m <= END
      && this !in Repr && rows !in Repr && varEq !in Repr
      && (forall i :: 0 <= i < n + 2 ==> rows[i] in Repr && rows[i].data in Repr)
      && (forall i :: 0 <= i < n ==> rows[i].Valid())
      && rows[n].data.Length > 0 && rows[n + 1].data.Length > 0
      && (forall i, j :: 0 <= i < j < n + 2 ==> rows[i] != rows[j] && rows[i].data != rows[j].data)
    }

    ghost function Contents(): (c: seq<Cells>)
      requires Valid()
      reads this, rows, Repr
      ensures |c| == n && forall i :: 0 <= i < n ==> c[i] == rows[i].Row()
    {
      seq(n, i requires 0 <= i < n && Valid() reads this, rows, Repr => rows[i].Row())
    }

    /** The equation numbers of the rows. */
    ghost function Ids(): (ids: seq<nat>)
      requires Valid()
      reads this, rows, Repr
      ensures |ids| == n && forall i :: 0 <= i < n ==> ids[i] == rows[i].id
    {
      seq(n, i requires 0 <= i < n && Valid() reads this, rows, Repr => rows[i].id)
    }

    /** Keeps the first k rows; the working rows move up behind them. */
    method RestrictRows(k: nat)
      requires Valid() && k <= n
      modifies `n, Repr
      ensures Valid() && n == k && Repr == old(Repr)
      ensures Contents() == old(Contents())[..k] && Ids() == old(Ids())[..k]
    {
      hide SparseMatrixRow.Row, Terminated;
      if k < n {
        rows[k].Swap(rows[n]);
        rows[k + 1].Swap(rows[n + 1]);
        n := k;
      }
    }

    /** The substitution loop for row i. */
    method SubstituteAll(i: nat, first: nat, ghost done: seq<Cells>, ghost e0: nat, ghost skip: int, p: Mod)
      returns (deps: seq<nat>)
      requires Valid() && i < n && FFMod.Valid(p) && IsPrime(p.n)
      requires e0 <= |done| <= n && HoldsEqs(rows, done, e0) && (i < e0 || |done| <= i)
      requires WellFormed(rows[i].Row(), m, p.n) && Substitutable(done, m, p.n) && Triangular(done)
      requires ClearBelow(rows[i].Row(), done, e0)
      requires Registers(varEq[..], done, skip) && LookedUp(rows[i].Row(), first, skip)
      modifies `Repr, Repr
      ensures Valid() && fresh(Repr - old(Repr)) && n == old(n) && varEq[..] == old(varEq[..]) && Ids() == old(Ids())
      ensures Reduction(rows[i].Row(), deps) == Reduce(old(rows[i].Row()), done, e0, m, p.n)
      ensures Contents() == old(Contents())[i := rows[i].Row()]
    {
      hide IsPrime, WellFormed, Substitutable, Triangular, Registers, ClearBelow, FFMod.Valid, Reduce, LookedUp;
      deps := ReduceInPlace(rows, rows[i], rows[n], rows[n + 1], first, varEq, done, e0, skip, m, p);
      Repr := Repr + {rows[i].data, rows[n].data, rows[n + 1].data};
      RowReplaced(i);
    }

    /** Forward elimination of row i, once the rows before it are done. */
    method ForwardRow(i: nat, ghost orig: seq<Cells>, p: Mod) returns (deps: seq<nat>)
      requires Valid() && FFMod.Valid(p) && IsPrime(p.n) && AllWellFormed(orig, m, p.n)
      requires i < n == |orig| && Contents() == Forward(orig, i, m, p.n) + orig[i..]
      requires Registers(varEq[..], Forward(orig, i, m, p.n), -1)
      modifies `Repr, Repr, varEq
      ensures Valid() && fresh(Repr - old(Repr)) && n == old(n) && deps == ForwardDeps(orig, i, m, p.n)
      ensures Contents() == Forward(orig, i + 1, m, p.n) + orig[i + 1..] && Ids() == old(Ids())
      ensures Registers(varEq[..], Forward(orig, i + 1, m, p.n), -1)
    {
      hide IsPrime, AllWellFormed, Substitutable, Triangular, Registers, FFMod.Valid, Reduce, Normal, Forward, ForwardDeps,
           SparseMatrixRow.Valid, WellFormed, Monic, HasCol;
      ghost var before, done := Contents(), Forward(orig, i, m, p.n);
      ForwardStep(orig, i, varEq[..], m, p.n);
      NextStage(before, orig, i, m, p.n);
      StartsWith(Contents(), done, orig[i..]);
      var elif := rows[i].GetFirst();
      if elif == 0 {
        assert before[i := before[i]] == before;
        return [];
      }
      deps := SubstituteAll(i, 0, done, 0, -1, p);
      elif := rows[i].GetFirst();
      if elif != 0 {
        RegisterRow(i, elif, p);
      }
    }

    /** A non-zero row is registered for its leading column and divided by its leading entry. */
    method RegisterRow(i: nat, elif: int, p: Mod)
      requires Valid() && i < n && FFMod.Valid(p) && IsPrime(p.n)
      requires WellFormed(rows[i].Row(), m, p.n) && rows[i].Row() != [] && elif == rows[i].Row()[0].val
      modifies varEq, rows[i].data
      ensures Valid() && rows[i].Row() == Normal(old(rows[i].Row()), m, p.n)
      ensures varEq[..] == old(varEq[..])[Lead(old(rows[i].Row())) := i]
      ensures Contents() == old(Contents())[i := rows[i].Row()] && Ids() == old(Ids())
    {
      hide FFMod.Valid, IsPrime, Normal, SparseMatrixRow.Row, Terminated;
      RegisterLead(i);
      rows[i].Normalize(elif, m, p);
    }

    /** No equation is registered. */
    method ResetEqs()
      requires Valid()
      modifies varEq
      ensures Valid() && Contents() == old(Contents()) && Ids() == old(Ids()) && Repr == old(Repr)
      ensures Registers(varEq[..], [], -1)
    {
      for c := 0 to m
        invariant forall l :: 0 <= l < c ==> varEq[l] == NO_EQ
      {
        varEq[c] := NO_EQ;
      }
    }

    /** Forward elimination, recording for each row the equations substituted into it. */
    method ToRowEchelon(p: Mod) returns (eqdeps: seq<seq<nat>>)
      requires Valid() && FFMod.Valid(p) && IsPrime(p.n) && AllWellFormed(Contents(), m, p.n)
      modifies `Repr, Repr, varEq
      ensures Valid() && fresh(Repr - old(Repr)) && n == old(n)
      ensures Contents() == Forward(old(Contents()), n, m, p.n) && Ids() == old(Ids())
      ensures |eqdeps| == n && ListsForwardDeps(eqdeps, old(Contents()), m, p.n)
    {
      hide *;
      ghost var orig := Contents();
      ResetEqs();
      eqdeps := [];
      StageEnds(orig, m, p.n);
      for i := 0 to n
        invariant Valid() && fresh(Repr - old(Repr)) && |eqdeps| == i && n == |orig|
        invariant Contents() == Forward(orig, i, m, p.n) + orig[i..] && Ids() == old(Ids())
        invariant Registers(varEq[..], Forward(orig, i, m, p.n), -1)
        invariant ListsForwardDeps(eqdeps, orig, m, p.n)
      {
        var deps := ForwardRow(i, orig, p);
        ListsNext(eqdeps, orig, m, p.n);
        eqdeps := eqdeps + [deps];
      }
    }

    method SwapRows(i: nat, j: nat)
      requires Valid() && i < n && j < n && i != j
      modifies rows[i], rows[j]
      ensures Valid() && Contents() == old(Contents())[i := old(Contents())[j]][j := old(Contents())[i]]
      ensures Ids() == old(Ids())[i := old(Ids())[j]][j := old(Ids())[i]]
    {
      hide SparseMatrixRow.Row, Terminated;
      SwapKeeps(rows[i], rows[j]);
    }

    /** std::remove_if for the zero rows: the others move up by swapping, the zero rows end up last. */
    method RemoveZeroRows() returns (nindep: nat)
      requires Valid()
      modifies Repr
      ensures Valid() && n == old(n) && Repr == old(Repr) && nindep == |NonZero(old(Contents()))| <= n
      ensures Contents() == NonZero(old(Contents())) + Zeros(n - nindep)
      ensures IdsKept(Ids(), old(Ids()), NonZeroAt(old(Contents())))
    {
      hide *;
      ghost var orig, ids := Contents(), Ids();
      RemovedStart(orig);
      IdsStart(orig, ids);
      nindep := 0;
      for i := 0 to n
        invariant Valid() && Repr == old(Repr) && nindep <= i && nindep == |NonZero(orig[..i])|
        invariant Contents() == Removed(orig, i) && IdsMoved(Ids(), ids, orig, i)
      {
        RemovedStep(orig, i);
        IdsStep(Ids(), ids, orig, i);
        var zero := IsZeroRow(i);
        if !zero {
          if nindep < i {
            MayModify(i);
            MayModify(nindep);
            SwapRows(nindep, i);
          }
          nindep := nindep + 1;
        }
      }
    }

    lemma Sizes()
      requires Valid()
      ensures varEq.Length == m && n < NO_EQ
    {
    }

    method RegisterLead(i: nat)
      requires Valid() && i < n && Contents()[i] != [] && Lead(Contents()[i]) < m
      modifies varEq
      ensures Valid() && Contents() == old(Contents()) && Ids() == old(Ids()) && Repr == old(Repr)
      ensures varEq[..] == old(varEq[..])[Lead(old(Contents())[i]) := i]
    {
      varEq[rows[i].data[0].col] := i;
    }

    /** The leading columns of the non-zero rows d, which are the first ones. */
    method RegisterLeads(nindep: nat, ghost d: seq<Cells>, ghost p: int)
      requires Valid() && nindep == |d| <= n && Contents()[..nindep] == d
      requires NonZeroSystem(d, m, p) && Registers(varEq[..], [], -1)
      modifies varEq
      ensures Valid() && Contents() == old(Contents()) && Ids() == old(Ids())
      ensures Registers(varEq[..], d, -1)
    {
      hide *;
      Sizes();
      for i := 0 to nindep
        invariant Valid() && Contents() == old(Contents()) && Ids() == old(Ids()) && varEq.Length == m
        invariant Registers(varEq[..], d[..i], -1)
      {
        assert Contents()[i] == d[i];
        RegistersNext(varEq[..], d, i, m, p);
        RegisterLead(i);
      }
      assert d[..nindep] == d;
    }

    /** Some row leads with the right-hand side. */
    predicate IsImpossibleSystem()
      requires Valid() && m >= 1
      reads this, rows, Repr, varEq
    {
      varEq[m - 1] != NO_EQ
    }

    lemma ImpossibleIff(orig: seq<Cells>, p: int)
      requires Valid() && IsPrime(p) && AllWellFormed(orig, m, p) && |orig| < NO_EQ
      requires Registers(varEq[..], Independent(orig, m, p), -1)
      ensures varEq.Length == m
      ensures m >= 1 ==> (IsImpossibleSystem() <==> !Solvable(orig, m, p))
    {
      hide IsPrime, AllWellFormed, Forward, NonZero, Solvable, Substitutable;
      if m >= 1 {
        var d := Independent(orig, m, p);
        SolvableIff(orig, m, p);
        IndependentSystem(orig, m, p);
        if IsImpossibleSystem() {
          assert Lead(d[varEq[m - 1]]) + 1 == m;
        }
      }
    }

    /** Back substitution of row i of the non-zero rows d. */
    method BackRowStep(i: nat, ghost d: seq<Cells>, ghost tail: seq<Cells>, fl: Flags, p: Mod) returns (deps: seq<nat>)
      requires Valid() && FFMod.Valid(p) && IsPrime(p.n) && NonZeroSystem(d, m, p.n)
      requires i < |d| && Contents() == BackStage(d, i, tail, fl, m, p.n) && Registers(varEq[..], d, -1)
      modifies `Repr, Repr
      ensures Valid() && fresh(Repr - old(Repr)) && n == old(n) && deps == BackRow(d, i, fl, m, p.n).deps
      ensures varEq[..] == old(varEq[..])
      ensures Contents() == BackStage(d, i + 1, tail, fl, m, p.n) && Ids() == old(Ids())
      ensures |d| <= n && d[i] != [] && RowByFlags(d, i, Contents()[i], fl)
    {
      hide *;
      ghost var others := d[i := []];
      BackStageNext(d, i, tail, fl, varEq[..], m, p.n);
      BackStageRow(d, i, tail, fl, m, p.n);
      var thisVar := LeadOf(i);
      if !IsNeeded(fl, thisVar) {
        return [];
      }
      HoldsLater(i, d, tail, fl, p.n);
      deps := SubstituteAll(i, 1, others, i + 1, thisVar, p);
    }

    function LeadOf(i: nat): (c: nat)
      requires Valid() && i < n && Contents()[i] != []
      reads this, rows, Repr
      ensures c == Lead(Contents()[i])
    {
      rows[i].data[0].col
    }

    lemma HoldsLater(i: nat, d: seq<Cells>, tail: seq<Cells>, fl: Flags, p: int)
      requires Valid() && IsPrime(p) && NonZeroSystem(d, m, p)
      requires i < |d| && Contents() == BackStage(d, i, tail, fl, m, p)
      ensures HoldsEqs(rows, d[i := []], i + 1) && rows[i].Row() == d[i] && i + 1 <= |d| <= n
      ensures i < rows.Length && rows[i].Valid()
    {
      hide NonZeroSystem, IsPrime, Back;
      forall e | i < e < |d|
        ensures rows[e].Valid() && rows[e].Row() == d[e]
      {
        assert Contents()[e] == d[e];
      }
      assert Contents()[i] == d[i];
    }

    function IdOf(i: nat): (id: nat)
      requires Valid() && i < n
      reads this, rows, Repr
      ensures id == Ids()[i]
    {
      rows[i].id
    }

    function SizeOf(i: nat): (size: nat)
      requires Valid() && i < n
      reads this, rows, Repr
      ensures size == |Contents()[i]|
    {
      rows[i].size
    }

    function IsZeroRow(i: nat): (zero: bool)
      requires Valid() && i < n
      reads this, rows, Repr
      ensures zero <==> Contents()[i] == []
    {
      rows[i].data[0].col == END
    }

    lemma MayModify(i: nat)
      requires Valid() && i < n
      ensures i < rows.Length && rows[i] in Repr
    {
    }

    /** Forward elimination, removal of the zero rows and registration of the others. */
    method ToIndependentRows(p: Mod) returns (nindep: nat, eqdeps: seq<seq<nat>>)
      requires Valid() && FFMod.Valid(p) && IsPrime(p.n) && AllWellFormed(Contents(), m, p.n)
      modifies `Repr, Repr, varEq
      ensures Valid() && fresh(Repr - old(Repr)) && n == old(n) && nindep == |Independent(old(Contents()), m, p.n)| <= n
      ensures Contents() == Independent(old(Contents()), m, p.n) + Zeros(n - nindep)
      ensures |eqdeps| == n < NO_EQ && ListsDeps(eqdeps, old(Contents()), 0, AllNeeded, m, p.n)
      ensures Registers(varEq[..], Independent(old(Contents()), m, p.n), -1)
      ensures IdsKept(Ids(), old(Ids()), NonZeroAt(Forward(old(Contents()), n, m, p.n)))
    {
      hide *;
      ghost var orig := Contents();
      Sizes();
      eqdeps := ToRowEchelon(p);
      ghost var d := Independent(orig, m, p.n);
      IndependentSystem(orig, m, p.n);
      ghost var tail := Zeros(n - |d|);
      IndependentFacts(orig, eqdeps, AllNeeded, m, p.n);
      ResetEqs();
      nindep := RemoveZeroRows();
      assert Contents() == d + tail;
      assert Contents()[..nindep] == d;
      RegisterLeads(nindep, d, p.n);
    }

    /** Forward elimination, removal of the zero rows and back substitution of the needed rows.
        eqdeps[k] grows twice: by row k of the given matrix and by row k without the zero rows. */
    method ToReducedRowEchelon(reduced: bool, fl: Flags, p: Mod) returns (nindep: nat, eqdeps: seq<seq<nat>>)
      requires Valid() && FFMod.Valid(p) && IsPrime(p.n) && AllWellFormed(Contents(), m, p.n)
      modifies `Repr, Repr, varEq
      ensures Valid() && fresh(Repr - old(Repr)) && n == old(n) && nindep == |Independent(old(Contents()), m, p.n)| <= n
      ensures Contents() == (if reduced then Reduced(old(Contents()), fl, m, p.n) else Independent(old(Contents()), m, p.n))
                              + Zeros(n - nindep)
      ensures |eqdeps| == n && ListsDeps(eqdeps, old(Contents()), if reduced then nindep else 0, fl, m, p.n)
      ensures Registers(varEq[..], Independent(old(Contents()), m, p.n), -1)
      ensures IdsKept(Ids(), old(Ids()), NonZeroAt(Forward(old(Contents()), n, m, p.n)))
      ensures reduced ==> SubstitutedByFlags(Independent(old(Contents()), m, p.n), Contents()[..nindep], fl)
    {
      hide *;
      ghost var orig := Contents();
      nindep, eqdeps := ToIndependentRows(p);
      ghost var ids := Ids();
      ghost var d := Independent(orig, m, p.n);
      ghost var tail := Zeros(n - |d|);
      StagesOfReduction(orig, eqdeps, tail, fl, m, p.n);
      RowsByFlags(orig, tail, fl, m, p.n);
      if !reduced {
        return;
      }
      LastBackRow(d, tail, fl, m, p.n);
      if nindep < 2 {
        ListsToEnd(eqdeps, orig, fl, m, p.n);
        return;
      }
      for i := 0 to nindep - 1
        invariant Valid() && fresh(Repr - old(Repr)) && |eqdeps| == n == |orig|
        invariant Contents() == BackStage(d, i, tail, fl, m, p.n) && Registers(varEq[..], d, -1)
        invariant Ids() == ids
        invariant ListsDeps(eqdeps, orig, i, fl, m, p.n)
      {
        ghost var before := eqdeps;
        var deps := BackRowStep(i, d, tail, fl, p);
        eqdeps := eqdeps[i := eqdeps[i] + deps];
        ListsNextDeps(before, orig, i, fl, m, p.n);
      }
      ListsToEnd(eqdeps, orig, fl, m, p.n);
    }

    /** The other rows keep object, buffer and cells. */
    twostate predicate SameRow(j: nat)
      requires j < rows.Length && rows[j] == old(rows[j])
      reads rows, rows[j], rows[j].data
    {
      && rows[j].data == old(rows[j].data) && rows[j].size == old(rows[j].size) && rows[j].id == old(rows[j].id)
      && rows[j].data[..] == old(rows[j].data[..])
    }

    /** A matrix of which only row i and the working rows changed. */
    twostate predicate Replaced(i: nat)
      reads this, rows, set j | 0 <= j < rows.Length :: rows[j], set j | 0 <= j < rows.Length :: rows[j].data
    {
      && old(Valid()) && n == old(n) && i < n && n + 2 <= rows.Length && rows[..] == old(rows[..])
      && OwnThree(rows[i], rows[n], rows[n + 1]) && rows[i].Valid() && rows[i].id == old(rows[i].id)
      && (forall j :: 0 <= j < n && j != i ==> rows[j] == old(rows[j]) && SameRow(j))
      && Repr == old(Repr) + {rows[i].data, rows[n].data, rows[n + 1].data}
    }

    twostate lemma ReplacedValid(i: nat)
      requires Replaced(i)
      ensures Valid() && fresh(Repr - old(Repr))
    {
    }

    twostate lemma RowReplaced(i: nat)
      requires Replaced(i)
      ensures Valid() && fresh(Repr - old(Repr)) && Ids() == old(Ids())
      ensures Contents() == old(Contents())[i := rows[i].Row()]
    {
      ReplacedValid(i);
    }
  }

  /** Two row objects exchange what they hold. */
  method SwapKeeps(a: SparseMatrixRow, b: SparseMatrixRow)
    requires a != b && a.Valid() && b.Valid()
    modifies a, b
    ensures a.Valid() && b.Valid() && a.data == old(b.data) && b.data == old(a.data)
    ensures a.Row() == old(b.Row()) && b.Row() == old(a.Row()) && a.id == old(b.id) && b.id == old(a.id)
  {
    a.Swap(b);
  }

  /** working_row(0) := working_row(1) - working_row(1)[pivot] * r, then the working rows swap. */
  method SubstituteStep(w0: SparseMatrixRow, w1: SparseMatrixRow, r: SparseMatrixRow, ghost m: nat, p: Mod)
    requires w0 != w1 && w0 != r && w1 != r && w0.data != w1.data && w0.data != r.data && w0.data.Length > 0
    requires w1.Valid() && r.Valid() && FFMod.Valid(p) && IsPrime(p.n) && m <= END
    requires r.Row() != [] && Monic(r.Row()) && HasCol(w1.Row(), Lead(r.Row()))
    requires WellFormed(w1.Row(), m, p.n) && WellFormed(r.Row(), m, p.n)
    modifies w0, w1, w0.data
    ensures w1.Valid() && w1.Row() == Eliminate(old(w1.Row()), old(r.Row()), Lead(old(r.Row())), p.n)
    ensures w0.data == old(w1.data) && w0.data.Length > 0
    ensures w1.data == old(w0.data) || fresh(w1.data)
  {
    hide WellFormed, IsPrime, FFMod.Valid, Eliminate;
    var firstCol := r.data[0].col;
    w0.GaussElimination(w1, r, firstCol, m, p);
    w0.Swap(w1);
  }

  /** The buffers of the working rows are two of the original ones or new. */
  twostate predicate OwnBuffers(w0: SparseMatrixRow, w1: SparseMatrixRow)
    reads w0, w1
  {
    && w0.data != w1.data && w0.data.Length > 0
    && (w0.data == old(w0.data) || w0.data == old(w1.data) || fresh(w0.data))
    && (w1.data == old(w0.data) || w1.data == old(w1.data) || fresh(w1.data))
  }

  /** Without skip the whole row is looked up; with it, all cells but the first, which is in column skip. */
  ghost predicate LookedUp(row: Cells, first: nat, skip: int) {
    if skip == -1 then first == 0 else first == 1 && row != [] && row[0].col == skip
  }

  lemma MinEqSkips(row: Cells, done: seq<Cells>, k: nat)
    requires k <= |done| && ClearBelow(row, done, k)
    ensures MinEq(row, done, 0) == MinEq(row, done, k)
  {
  }

  /** One pass through the substitution loop: what is left to do is the rest of the reduction. */
  lemma LoopStep(row: Cells, varEq: seq<nat>, done: seq<Cells>, k: nat, e: nat, first: nat, skip: int, m: nat, p: int)
    returns (next: Cells)
    requires IsPrime(p) && WellFormed(row, m, p) && Substitutable(done, m, p) && Triangular(done)
    requires k <= |done| && ClearBelow(row, done, k) && e == MinEq(row, done, 0) < |done|
    requires Registers(varEq, done, skip) && LookedUp(row, first, skip)
    ensures Uses(row, done, e) && next == Eliminate(row, done[e], Lead(done[e]), p)
    ensures k <= e && WellFormed(next, m, p) && ClearBelow(next, done, e + 1) && LookedUp(next, first, skip)
    ensures Reduce(row, done, k, m, p) ==
      Reduction(Reduce(next, done, e + 1, m, p).row, [e] + Reduce(next, done, e + 1, m, p).deps)
  {
    hide IsPrime, WellFormed, Triangular, Eliminate;
    MinEqSkips(row, done, k);
    next := Substitute(row, done, e, m, p);
    SubstituteIs(row, done, e, m, p);
    assert ClearBelow(row, done, e) by {
      forall l | 0 <= l < e
        ensures !Uses(row, done, l)
      {
      }
    }
    SubstituteClears(row, done, e, m, p);
    if skip != -1 {
      SubstituteHead(row, done, e, m, p);
    }
  }

  lemma SubstituteIs(row: Cells, done: seq<Cells>, e: nat, m: nat, p: int)
    requires IsPrime(p) && WellFormed(row, m, p) && Substitutable(done, m, p) && e < |done| && Uses(row, done, e)
    ensures Substitute(row, done, e, m, p) == Eliminate(row, done[e], Lead(done[e]), p)
    ensures WellFormed(done[e], m, p) && Monic(done[e]) && done[e] != [] && HasCol(row, Lead(done[e]))
  {
  }

  lemma LoopDone(row: Cells, done: seq<Cells>, k: nat, m: nat, p: int)
    requires IsPrime(p) && WellFormed(row, m, p) && Substitutable(done, m, p)
    requires k <= |done| && ClearBelow(row, done, k) && MinEq(row, done, 0) == |done|
    ensures Reduce(row, done, k, m, p) == Reduction(row, [])
  {
  }

  /** The row objects holding the equations that may be substituted. */
  ghost predicate HoldsEqs(rows: array<SparseMatrixRow>, done: seq<Cells>, e0: nat)
    reads rows, set e | 0 <= e < |done| && e < rows.Length :: rows[e]
    reads set e | 0 <= e < |done| && e < rows.Length :: rows[e].data
  {
    && |done| <= rows.Length
    && forall e :: e0 <= e < |done| ==> rows[e].Valid() && rows[e].Row() == done[e]
  }

  /** A row that shares nothing with the equations from e0 on. */
  ghost predicate Apart(w: SparseMatrixRow, rows: array<SparseMatrixRow>, e0: nat, hi: nat)
    reads w, rows, set e | 0 <= e < hi && e < rows.Length :: rows[e]
  {
    hi <= rows.Length && forall e :: e0 <= e < hi ==> rows[e] != w && rows[e].data != w.data
  }

  /** Look-up in a whole row object. */
  method NextEq(r: SparseMatrixRow, first: nat, varEq: array<nat>, ghost done: seq<Cells>, ghost skip: int, ghost m: nat, ghost p: int)
    returns (eq: nat)
    requires r.Valid() && WellFormed(r.Row(), m, p) && varEq.Length == m <= END && |done| < NO_EQ
    requires Registers(varEq[..], done, skip) && LookedUp(r.Row(), first, skip)
    ensures var k := MinEq(r.Row(), done, 0); eq == if k == |done| then NO_EQ else k
  {
    CellsOf(r.data, r.size, r.Row());
    eq := EqToSubstitute(r.data, r.size, first, varEq, done, skip);
  }

  /** One substitution of an equation of the matrix into the working rows. */
  method SubstituteEq(rows: array<SparseMatrixRow>, w0: SparseMatrixRow, w1: SparseMatrixRow, eq: nat,
                      ghost done: seq<Cells>, ghost e0: nat, ghost m: nat, p: Mod)
    requires FFMod.Valid(p) && IsPrime(p.n) && m <= END
    requires w0 != w1 && w0.data != w1.data && w0.data.Length > 0 && w1.Valid()
    requires HoldsEqs(rows, done, e0) && Apart(w0, rows, e0, |done|) && Apart(w1, rows, e0, |done|)
    requires e0 <= eq < |done| && done[eq] != [] && Monic(done[eq]) && HasCol(w1.Row(), Lead(done[eq]))
    requires WellFormed(w1.Row(), m, p.n) && WellFormed(done[eq], m, p.n)
    modifies w0, w1, w0.data
    ensures OwnBuffers(w0, w1) && w1.Valid()
    ensures w1.Row() == Eliminate(old(w1.Row()), done[eq], Lead(done[eq]), p.n)
    ensures HoldsEqs(rows, done, e0) && Apart(w0, rows, e0, |done|) && Apart(w1, rows, e0, |done|)
  {
    hide IsPrime, WellFormed, FFMod.Valid, Eliminate, HasCol, Monic;
    SubstituteStep(w0, w1, rows[eq], m, p);
  }

  lemma ShiftDep(deps: seq<nat>, e: nat, rest: seq<nat>)
    ensures deps + ([e] + rest) == (deps + [e]) + rest
  {
  }

  /** The substitution loop on the working rows, from a first equation eq0. */
  method ReduceWorking(rows: array<SparseMatrixRow>, w0: SparseMatrixRow, w1: SparseMatrixRow, eq0: nat, first: nat,
                       varEq: array<nat>, ghost done: seq<Cells>, ghost e0: nat, ghost skip: int, ghost m: nat, p: Mod)
    returns (deps: seq<nat>)
    requires FFMod.Valid(p) && IsPrime(p.n) && varEq.Length == m <= END && |done| < NO_EQ
    requires w0 != w1 && w0.data != w1.data && w0.data.Length > 0 && w1.Valid()
    requires WellFormed(w1.Row(), m, p.n) && Substitutable(done, m, p.n) && Triangular(done)
    requires e0 <= |done| && ClearBelow(w1.Row(), done, e0) && HoldsEqs(rows, done, e0)
    requires Apart(w0, rows, e0, |done|) && Apart(w1, rows, e0, |done|)
    requires Registers(varEq[..], done, skip) && LookedUp(w1.Row(), first, skip)
    requires eq0 == MinEq(w1.Row(), done, 0) < |done|
    modifies w0, w1, w0.data, w1.data
    ensures OwnBuffers(w0, w1) && w1.Valid()
    ensures Reduction(w1.Row(), deps) == Reduce(old(w1.Row()), done, e0, m, p.n)
  {
    hide IsPrime, WellFormed, Substitutable, Triangular, Registers, ClearBelow, Uses, Monic, Eliminate, FFMod.Valid;
    hide HoldsEqs, Apart, Reduce, LookedUp;
    ghost var target := Reduce(w1.Row(), done, e0, m, p.n);
    var eq := eq0;
    deps := [];
    ghost var k := e0;
    while eq != NO_EQ
      invariant e0 <= k <= |done| && OwnBuffers(w0, w1) && w1.Valid()
      invariant WellFormed(w1.Row(), m, p.n) && ClearBelow(w1.Row(), done, k) && LookedUp(w1.Row(), first, skip)
      invariant HoldsEqs(rows, done, e0) && Apart(w0, rows, e0, |done|) && Apart(w1, rows, e0, |done|)
      invariant target.row == Reduce(w1.Row(), done, k, m, p.n).row
      invariant target.deps == deps + Reduce(w1.Row(), done, k, m, p.n).deps
      invariant var l := MinEq(w1.Row(), done, 0); eq == if l == |done| then NO_EQ else l
      decreases |done| - k
    {
      ghost var row := w1.Row();
      ghost var next := LoopStep(row, varEq[..], done, k, eq, first, skip, m, p.n);
      SubstituteIs(row, done, eq, m, p.n);
      SubstituteEq(rows, w0, w1, eq, done, e0, m, p);
      assert w1.Row() == next;
      ShiftDep(deps, eq, Reduce(next, done, eq + 1, m, p.n).deps);
      deps := deps + [eq];
      k := eq + 1;
      eq := NextEq(w1, first, varEq, done, skip, m, p.n);
    }
    LoopDone(w1.Row(), done, k, m, p.n);
  }

  /** The buffers of three rows are distinct and each is one of the original three or new. */
  twostate predicate OwnThree(r: SparseMatrixRow, w0: SparseMatrixRow, w1: SparseMatrixRow)
    reads r, w0, w1
  {
    && r.data != w0.data && r.data != w1.data && w0.data != w1.data
    && w0.data.Length > 0 && w1.data.Length > 0
    && (r.data == old(r.data) || fresh(r.data))
    && (w0.data == old(w0.data) || w0.data == old(w1.data) || fresh(w0.data))
    && (w1.data == old(w0.data) || w1.data == old(w1.data) || fresh(w1.data))
  }

  /** If some equation applies, the row is copied to working row 1, reduced there and copied back. */
  method ReduceInPlace(rows: array<SparseMatrixRow>, r: SparseMatrixRow, w0: SparseMatrixRow, w1: SparseMatrixRow,
                       first: nat, varEq: array<nat>, ghost done: seq<Cells>, ghost e0: nat, ghost skip: int,
                       ghost m: nat, p: Mod)
    returns (deps: seq<nat>)
    requires FFMod.Valid(p) && IsPrime(p.n) && varEq.Length == m <= END && |done| < NO_EQ
    requires r != w0 && r != w1 && w0 != w1 && r.data != w0.data && r.data != w1.data && w0.data != w1.data
    requires r.Valid() && w0.data.Length > 0 && w1.data.Length > 0
    requires WellFormed(r.Row(), m, p.n) && Substitutable(done, m, p.n) && Triangular(done)
    requires e0 <= |done| && ClearBelow(r.Row(), done, e0) && HoldsEqs(rows, done, e0)
    requires Apart(w0, rows, e0, |done|) && Apart(w1, rows, e0, |done|)
    requires Registers(varEq[..], done, skip) && LookedUp(r.Row(), first, skip)
    modifies r, w0, w1, r.data, w0.data, w1.data
    ensures OwnThree(r, w0, w1) && r.Valid() && r.id == old(r.id)
    ensures Reduction(r.Row(), deps) == Reduce(old(r.Row()), done, e0, m, p.n)
  {
    hide IsPrime, WellFormed, Substitutable, Triangular, Registers, ClearBelow, FFMod.Valid, Reduce, LookedUp;
    var eq := NextEq(r, first, varEq, done, skip, m, p.n);
    if eq == NO_EQ {
      LoopDone(r.Row(), done, e0, m, p.n);
      return [];
    }
    r.CopyInto(w1);
    deps := ReduceWorking(rows, w0, w1, eq, first, varEq, done, e0, skip, m, p);
    w1.CopyInto(r);
  }
}
