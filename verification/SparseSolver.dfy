/** Mark and sweep of the equations that no needed variable depends on
    (SparseLinearSolver::mark_eq_, mark_and_sweep_eqs, src/alg_linear_solver.cc:1000-1051). */
module MarkSweep {
  import opened ModArith
  import opened SparseRow
  import opened SparseElimination
  import opened SparseReduction

  // ---- reachability in the dependency graph ----

  /** The equations that a path of at most n dependencies leads to from eq. */
  ghost predicate ReachesIn(eqdeps: seq<seq<nat>>, eq: nat, to: nat, n: nat)
    decreases n
  {
    eq == to || (n > 0 && eq < |eqdeps| && exists d :: d in eqdeps[eq] && ReachesIn(eqdeps, d, to, n - 1))
  }

  ghost predicate Reaches(eqdeps: seq<seq<nat>>, eq: nat, to: nat) {
    exists n: nat :: ReachesIn(eqdeps, eq, to, n)
  }

  lemma ReachesSelf(eqdeps: seq<seq<nat>>, eq: nat)
    ensures Reaches(eqdeps, eq, eq)
  {
    assert ReachesIn(eqdeps, eq, eq, 0);
  }

  lemma ReachesStep(eqdeps: seq<seq<nat>>, eq: nat, d: nat, to: nat)
    requires eq < |eqdeps| && d in eqdeps[eq] && Reaches(eqdeps, d, to)
    ensures Reaches(eqdeps, eq, to)
  {
    var n: nat :| ReachesIn(eqdeps, d, to, n);
    assert ReachesIn(eqdeps, eq, to, n + 1);
  }

  /** Every dependency of a marked equation is marked. */
  ghost predicate Closed(eqdeps: seq<seq<nat>>, marked: set<nat>) {
    forall e, d :: e in marked && e < |eqdeps| && d in eqdeps[e] ==> d in marked
  }

  lemma {:induction false} ClosedReaches(eqdeps: seq<seq<nat>>, marked: set<nat>, eq: nat, to: nat, n: nat)
    requires Closed(eqdeps, marked) && eq in marked && ReachesIn(eqdeps, eq, to, n)
    ensures to in marked
    decreases n
  {
    if eq != to {
      var d :| d in eqdeps[eq] && ReachesIn(eqdeps, d, to, n - 1);
      ClosedReaches(eqdeps, marked, d, to, n - 1);
    }
  }

  ghost predicate WellFormedDeps(eqdeps: seq<seq<nat>>) {
    forall e, d :: 0 <= e < |eqdeps| && d in eqdeps[e] ==> d < |eqdeps|
  }

  // ---- the sub-system of the marked equations ----

  /** Increasing positions below n. */
  predicate IsSelection(sel: seq<nat>, n: nat) {
    && (forall k, l :: 0 <= k < l < |sel| ==> sel[k] < sel[l])
    && forall k :: 0 <= k < |sel| ==> sel[k] < n
  }

  function Select<T>(s: seq<T>, sel: seq<nat>): (r: seq<T>)
    requires IsSelection(sel, |s|)
    ensures |r| == |sel| && forall k :: 0 <= k < |sel| ==> r[k] == s[sel[k]]
  {
    seq(|sel|, k requires 0 <= k < |sel| => s[sel[k]])
  }

  /** k0 is the first selected position that is at least e0. */
  predicate StartsAt(sel: seq<nat>, k0: nat, e0: nat) {
    && k0 <= |sel|
    && (forall k :: 0 <= k < k0 ==> sel[k] < e0)
    && (forall k :: k0 <= k < |sel| ==> e0 <= sel[k])
  }

  /** If every substituted equation is selected, reducing with the selected equations only makes the
      same substitutions. */
  lemma {:induction false} ReduceSelected(row: Cells, done: seq<Cells>, sel: seq<nat>, sub: seq<Cells>, e0: nat, k0: nat, m: nat, p: int)
    requires IsPrime(p) && WellFormed(row, m, p) && Substitutable(done, m, p) && e0 <= |done|
    requires IsSelection(sel, |done|) && sub == Select(done, sel) && Substitutable(sub, m, p) && StartsAt(sel, k0, e0)
    requires forall d :: d in Reduce(row, done, e0, m, p).deps ==> d in sel
    ensures Reduce(row, sub, k0, m, p).row == Reduce(row, done, e0, m, p).row
    decreases |done| - e0
  {
    hide IsPrime, WellFormed, Substitutable, Uses, Substitute, MinEq, IsSelection, StartsAt;
    var e := MinEq(row, done, e0);
    if e == |done| {
      var k := SelectedMinEq(row, done, sel, sub, e0, k0);
    } else {
      var next := Substitute(row, done, e, m, p);
      var rest := Reduce(next, done, e + 1, m, p);
      var deps := [e] + rest.deps;
      assert Reduce(row, done, e0, m, p) == Reduction(rest.row, deps);
      assert deps[0] in deps;
      assert forall d :: d in rest.deps ==> d in deps;
      var k := SelectedMinEq(row, done, sel, sub, e0, k0);
      SelectedSubstitute(row, done, sel, sub, k, m, p);
      ReduceSelected(next, done, sel, sub, e + 1, k + 1, m, p);
    }
  }

  /** The smallest usable equation is selected, so it is the smallest usable selected one. */
  lemma SelectedMinEq(row: Cells, done: seq<Cells>, sel: seq<nat>, sub: seq<Cells>, e0: nat, k0: nat) returns (k: nat)
    requires e0 <= |done| && IsSelection(sel, |done|) && sub == Select(done, sel) && StartsAt(sel, k0, e0)
    requires MinEq(row, done, e0) == |done| || MinEq(row, done, e0) in sel
    ensures k0 <= k <= |sub| && MinEq(row, sub, k0) == k
    ensures if MinEq(row, done, e0) == |done| then k == |sub| else
      k < |sub| && sel[k] == MinEq(row, done, e0) && Uses(row, sub, k) && StartsAt(sel, k + 1, sel[k] + 1)
  {
    hide Uses;
    var e := MinEq(row, done, e0);
    if e == |done| {
      k := |sub|;
    } else {
      k :| 0 <= k < |sel| && sel[k] == e;
      SelectedUses(row, done, sel, sub, k);
    }
    forall l | k0 <= l < k
      ensures !Uses(row, sub, l)
    {
      SelectedUses(row, done, sel, sub, l);
      assert e0 <= sel[l] < e;
    }
    MinEqIs(row, sub, k0, k);
  }

  lemma SelectedUses(row: Cells, done: seq<Cells>, sel: seq<nat>, sub: seq<Cells>, k: nat)
    requires IsSelection(sel, |done|) && sub == Select(done, sel) && k < |sel|
    ensures Uses(row, sub, k) <==> Uses(row, done, sel[k])
  {
  }

  lemma SelectedSubstitute(row: Cells, done: seq<Cells>, sel: seq<nat>, sub: seq<Cells>, k: nat, m: nat, p: int)
    requires IsPrime(p) && WellFormed(row, m, p) && Substitutable(done, m, p) && Substitutable(sub, m, p)
    requires IsSelection(sel, |done|) && sub == Select(done, sel) && k < |sel|
    requires Uses(row, sub, k) && Uses(row, done, sel[k])
    ensures Substitute(row, sub, k, m, p) == Substitute(row, done, sel[k], m, p)
  {
  }

  lemma SelectSubstitutable(done: seq<Cells>, sel: seq<nat>, m: nat, p: int)
    requires Substitutable(done, m, p) && IsSelection(sel, |done|)
    ensures Substitutable(Select(done, sel), m, p)
  {
  }

  lemma SelectWellFormed(rows: seq<Cells>, sel: seq<nat>, m: nat, p: int)
    requires AllWellFormed(rows, m, p) && IsSelection(sel, |rows|)
    ensures AllWellFormed(Select(rows, sel), m, p)
  {
  }

  /** The dependencies of row k recorded by both passes over rows none of which becomes zero. */
  ghost function Deps(rows: seq<Cells>, k: nat, fl: Flags, m: nat, p: int): seq<nat>
    requires IsPrime(p) && AllWellFormed(rows, m, p) && k < |rows| && NoZeroRow(rows, m, p)
  {
    ForwardDeps(rows, k, m, p) + BackRow(Forward(rows, |rows|, m, p), k, fl, m, p).deps
  }

  /** No row becomes zero in forward elimination. */
  ghost predicate NoZeroRow(rows: seq<Cells>, m: nat, p: int)
    requires IsPrime(p) && AllWellFormed(rows, m, p)
  {
    forall i :: 0 <= i < |rows| ==> Forward(rows, |rows|, m, p)[i] != []
  }

  /** The selection contains the dependencies of each of its equations. */
  ghost predicate DepsSelected(rows: seq<Cells>, sel: seq<nat>, fl: Flags, m: nat, p: int)
    requires IsPrime(p) && AllWellFormed(rows, m, p) && NoZeroRow(rows, m, p) && IsSelection(sel, |rows|)
  {
    forall k, d :: 0 <= k < |sel| && d in Deps(rows, sel[k], fl, m, p) ==> d in sel
  }

  lemma {:induction false} ForwardPrefix(rows: seq<Cells>, j: nat, k: nat, m: nat, p: int)
    requires IsPrime(p) && AllWellFormed(rows, m, p) && j <= k <= |rows|
    ensures Forward(rows, j, m, p) == Forward(rows, k, m, p)[..j]
    decreases k
  {
    hide IsPrime, WellFormed, Reduce, Normal;
    if j < k {
      ForwardPrefix(rows, j, k - 1, m, p);
    }
  }

  /** Forward elimination of the selected equations gives the rows it gave among all equations. */
  lemma {:induction false} SweptForward(rows: seq<Cells>, sel: seq<nat>, fl: Flags, k: nat, m: nat, p: int)
    requires IsPrime(p) && AllWellFormed(rows, m, p) && NoZeroRow(rows, m, p) && IsSelection(sel, |rows|)
    requires DepsSelected(rows, sel, fl, m, p) && k <= |sel| && AllWellFormed(Select(rows, sel), m, p)
    ensures Forward(Select(rows, sel), k, m, p) == Select(Forward(rows, |rows|, m, p), sel)[..k]
    decreases k
  {
    hide IsPrime, WellFormed, Reduce, Normal, Substitutable;
    if k > 0 {
      SweptForward(rows, sel, fl, k - 1, m, p);
      var e := sel[k - 1];
      ForwardPrefix(rows, e, |rows|, m, p);
      ForwardPrefix(rows, e + 1, |rows|, m, p);
      var full, done := Forward(rows, |rows|, m, p), Forward(rows, e, m, p);
      var before := sel[..k - 1];
      var sub := Select(done, before);
      assert sub == Select(full, sel)[..k - 1];
      EarlierDeps(rows, sel, fl, k - 1, m, p);
      SelectSubstitutable(done, before, m, p);
      ReduceSelected(rows[e], done, before, sub, 0, 0, m, p);
      assert Forward(rows, e + 1, m, p)[e] == full[e];
      assert Select(full, sel)[..k] == sub + [full[e]];
    }
  }

  lemma EarlierDeps(rows: seq<Cells>, sel: seq<nat>, fl: Flags, k: nat, m: nat, p: int)
    requires IsPrime(p) && AllWellFormed(rows, m, p) && NoZeroRow(rows, m, p) && IsSelection(sel, |rows|)
    requires DepsSelected(rows, sel, fl, m, p) && k < |sel|
    ensures forall d :: d in ForwardDeps(rows, sel[k], m, p) ==> d in sel[..k]
  {
    hide IsPrime, WellFormed, ForwardDeps, BackRow, Forward;
    forall d | d in ForwardDeps(rows, sel[k], m, p)
      ensures d in sel[..k]
    {
      assert d in Deps(rows, sel[k], fl, m, p);
      assert d in sel && d < sel[k];
      var l :| 0 <= l < |sel| && sel[l] == d;
      assert l < k;
      assert sel[..k][l] == d;
    }
  }

  /** Rerunning the sparse reduction on a selection that contains its own dependencies gives, for
      each selected equation, the identical reduced row. */
  lemma SweptReduction(rows: seq<Cells>, sel: seq<nat>, fl: Flags, m: nat, p: int)
    requires IsPrime(p) && AllWellFormed(rows, m, p) && NoZeroRow(rows, m, p) && IsSelection(sel, |rows|)
    requires DepsSelected(rows, sel, fl, m, p)
    ensures AllWellFormed(Select(rows, sel), m, p)
    ensures NoZeroRow(Select(rows, sel), m, p)
    ensures |Reduced(rows, fl, m, p)| == |rows| && |Reduced(Select(rows, sel), fl, m, p)| == |sel|
    ensures forall k :: 0 <= k < |sel| ==>
      Reduced(Select(rows, sel), fl, m, p)[k] == Reduced(rows, fl, m, p)[sel[k]]
  {
    hide IsPrime, WellFormed, Reduce, Normal, Forward, Substitutable;
    SelectWellFormed(rows, sel, m, p);
    var sub := Select(rows, sel);
    SweptForward(rows, sel, fl, |sel|, m, p);
    var full, part := Forward(rows, |rows|, m, p), Forward(sub, |sel|, m, p);
    assert part == Select(full, sel);
    NonZeroAll(full);
    NonZeroAll(part);
    forall k | 0 <= k < |sel|
      ensures BackRow(part, k, fl, m, p).row == BackRow(full, sel[k], fl, m, p).row
    {
      SweptBackRow(rows, sel, fl, k, m, p);
    }
  }

  lemma SweptBackRow(rows: seq<Cells>, sel: seq<nat>, fl: Flags, k: nat, m: nat, p: int)
    requires IsPrime(p) && AllWellFormed(rows, m, p) && NoZeroRow(rows, m, p) && IsSelection(sel, |rows|)
    requires DepsSelected(rows, sel, fl, m, p) && k < |sel|
    ensures var full := Forward(rows, |rows|, m, p);
      && Substitutable(Select(full, sel), m, p)
      && BackRow(Select(full, sel), k, fl, m, p).row == BackRow(full, sel[k], fl, m, p).row
  {
    hide IsPrime, WellFormed, Reduce, Forward;
    var full := Forward(rows, |rows|, m, p);
    SelectSubstitutable(full, sel, m, p);
    if IsNeeded(fl, Lead(full[sel[k]])) {
      var deps := Reduce(full[sel[k]], full, sel[k] + 1, m, p).deps;
      forall d | d in deps
        ensures d in sel
      {
        assert d in Deps(rows, sel[k], fl, m, p);
      }
      ReduceSelected(full[sel[k]], full, sel, Select(full, sel), sel[k] + 1, k + 1, m, p);
    }
  }
}

/** The second learning pass of the sparse linear solver, marking and sweeping
    (src/alg_linear_solver.cc:654-690, 887-920, 1000-1051). */
module SparseSolver {
  import opened ModArith
  import opened FFMod
  import opened SparseRow
  import opened SparseBuffers
  import opened SparseElimination
  import opened SparseReduction
  import opened SparseSystem
  import opened SparseMatrices
  import opened MarkSweep

  // ---- marking ----

  function Unmarked(marked: seq<bool>): (s: set<nat>)
    ensures forall e: nat :: e in s <==> e < |marked| && !marked[e]
  {
    set e: nat | e < |marked| && !marked[e]
  }

  /** Every dependency of a marked equation is marked, except for the equations still being visited. */
  ghost predicate ClosedBut(eqdeps: seq<seq<nat>>, marked: seq<bool>, gray: set<nat>)
    requires |marked| == |eqdeps| && WellFormedDeps(eqdeps)
  {
    forall e, d :: 0 <= e < |eqdeps| && marked[e] && e !in gray && d in eqdeps[e] ==> marked[d]
  }

  /** Marks only grow, and every new one is reached from eq. */
  ghost predicate Grown(eqdeps: seq<seq<nat>>, eq: nat, before: seq<bool>, after: seq<bool>) {
    && |before| == |after|
    && forall e :: 0 <= e < |before| ==> (before[e] ==> after[e]) && (after[e] && !before[e] ==> Reaches(eqdeps, eq, e))
  }

  /** Marks eq and, recursively, what it depends on. */
  method MarkEq(eqdeps: seq<seq<nat>>, eq: nat, marked: array<bool>, ghost gray: set<nat>)
    requires WellFormedDeps(eqdeps) && marked.Length == |eqdeps| && eq < |eqdeps|
    requires ClosedBut(eqdeps, marked[..], gray)
    modifies marked
    ensures marked[eq] && ClosedBut(eqdeps, marked[..], gray) && Grown(eqdeps, eq, old(marked[..]), marked[..])
    decreases Unmarked(marked[..])
  {
    if marked[eq] {
      return;
    }
    ghost var before := marked[..];
    marked[eq] := true;
    ReachesSelf(eqdeps, eq);
    assert eq in Unmarked(before) && eq !in Unmarked(marked[..]);
    for k := 0 to |eqdeps[eq]|
      invariant marked[eq] && ClosedBut(eqdeps, marked[..], gray + {eq}) && Grown(eqdeps, eq, before, marked[..])
      invariant forall l :: 0 <= l < k ==> eqdeps[eq][l] < |eqdeps| && marked[eqdeps[eq][l]]
    {
      var deq := eqdeps[eq][k];
      assert deq in eqdeps[eq];
      ghost var now := marked[..];
      assert Unmarked(now) < Unmarked(before) by {
        assert eq !in Unmarked(now);
      }
      MarkEq(eqdeps, deq, marked, gray + {eq});
      GrownStep(eqdeps, eq, deq, before, now, marked[..]);
    }
  }

  lemma GrownStep(eqdeps: seq<seq<nat>>, eq: nat, d: nat, before: seq<bool>, now: seq<bool>, after: seq<bool>)
    requires eq < |eqdeps| && d in eqdeps[eq]
    requires Grown(eqdeps, eq, before, now) && Grown(eqdeps, d, now, after)
    ensures Grown(eqdeps, eq, before, after)
  {
    forall e | 0 <= e < |before| && after[e] && !before[e]
      ensures Reaches(eqdeps, eq, e)
    {
      if !now[e] {
        ReachesStep(eqdeps, eq, d, e);
      }
    }
  }

  ghost function MarkedSet(marked: seq<bool>): (s: set<nat>)
    ensures forall e: nat :: e in s <==> e < |marked| && marked[e]
  {
    set e: nat | e < |marked| && marked[e]
  }

  /** The positions below k that are flagged, in order. */
  function Positions(flags: seq<bool>, k: nat): (sel: seq<nat>)
    requires k <= |flags|
    ensures IsSelection(sel, k) && |sel| <= k
    ensures forall e: nat :: e in sel <==> e < k && flags[e]
  {
    if k == 0 then [] else
      var before := Positions(flags, k - 1);
      assert forall l :: 0 <= l < |before| ==> before[l] in before;
      if flags[k - 1] then before + [k - 1] else before
  }

  // ---- the flags of the variables ----

  datatype SparseVar = SparseVar(isNeeded: bool, isSweeped: bool, isDep: bool, isNonZero: bool)

  function NeededFlags(xinfo: seq<SparseVar>): (f: seq<bool>)
    ensures |f| == |xinfo| && forall c :: 0 <= c < |f| ==> f[c] == xinfo[c].isNeeded
  {
    seq(|xinfo|, c requires 0 <= c < |xinfo| => xinfo[c].isNeeded)
  }

  /** Which rows lead with a needed variable. */
  function WantedFlags(needed: seq<bool>, rows: seq<Cells>): (w: seq<bool>)
    requires forall i :: 0 <= i < |rows| ==> rows[i] != [] && Lead(rows[i]) < |needed|
    ensures |w| == |rows| && forall i :: 0 <= i < |w| ==> w[i] == needed[Lead(rows[i])]
  {
    seq(|rows|, i requires 0 <= i < |rows| => needed[Lead(rows[i])])
  }

  /** The marks are the equations that some wanted one depends on. */
  ghost predicate MarksReached(eqdeps: seq<seq<nat>>, wanted: seq<bool>, marked: seq<bool>) {
    && |marked| == |wanted|
    && forall e :: 0 <= e < |marked| ==>
         (marked[e] <==> exists j :: 0 <= j < |wanted| && wanted[j] && Reaches(eqdeps, j, e))
  }

  /** The marks made for the wanted equations before j. */
  ghost predicate MarksSoFar(eqdeps: seq<seq<nat>>, wanted: seq<bool>, marked: seq<bool>, j: nat) {
    && |marked| == |wanted| && j <= |wanted|
    && (forall i :: 0 <= i < j && wanted[i] ==> marked[i])
    && forall e :: 0 <= e < |marked| && marked[e] ==>
         exists i :: 0 <= i < |wanted| && wanted[i] && Reaches(eqdeps, i, e)
  }

  lemma NoMarks(eqdeps: seq<seq<nat>>, wanted: seq<bool>, marked: seq<bool>)
    requires |marked| == |wanted| == |eqdeps| && WellFormedDeps(eqdeps)
    requires forall e :: 0 <= e < |marked| ==> !marked[e]
    ensures ClosedBut(eqdeps, marked, {}) && MarksSoFar(eqdeps, wanted, marked, 0)
  {
  }

  lemma MarkStep(eqdeps: seq<seq<nat>>, wanted: seq<bool>, before: seq<bool>, after: seq<bool>, j: nat)
    requires MarksSoFar(eqdeps, wanted, before, j) && j < |wanted|
    requires if wanted[j] then Grown(eqdeps, j, before, after) && after[j] else after == before
    ensures MarksSoFar(eqdeps, wanted, after, j + 1)
  {
  }

  lemma ReachedMarks(eqdeps: seq<seq<nat>>, wanted: seq<bool>, marked: seq<bool>)
    requires WellFormedDeps(eqdeps) && |marked| == |wanted| == |eqdeps| && ClosedBut(eqdeps, marked, {})
    requires MarksSoFar(eqdeps, wanted, marked, |wanted|)
    ensures MarksReached(eqdeps, wanted, marked)
  {
    var all := MarkedSet(marked);
    assert Closed(eqdeps, all);
    forall e, j | 0 <= e < |marked| && 0 <= j < |wanted| && wanted[j] && Reaches(eqdeps, j, e)
      ensures marked[e]
    {
      var n: nat :| ReachesIn(eqdeps, j, e, n);
      ClosedReaches(eqdeps, all, j, e, n);
    }
  }

  // ---- sweeping ----

  /** The flags before, which rows are wanted, the rows, their equation numbers and the marks. */
  datatype SweepInput = SweepInput(xinfo: seq<SparseVar>, wanted: seq<bool>, rows: seq<Cells>, ids: seq<nat>, marked: seq<bool>)

  datatype SweepResult = SweepResult(xinfo: seq<SparseVar>, indepeqs: seq<nat>, outeqPos: seq<nat>)

  ghost predicate ValidInput(input: SweepInput) {
    && |input.rows| == |input.ids| == |input.marked| == |input.wanted|
    && (forall i :: 0 <= i < |input.rows| ==> input.rows[i] != [] && Lead(input.rows[i]) < |input.xinfo|)
    && input.wanted == WantedFlags(NeededFlags(input.xinfo), input.rows)
    && forall i :: 0 <= i < |input.rows| && input.wanted[i] ==> input.marked[i]
  }

  /** The numbers of the marked equations come first. */
  ghost predicate NumbersKept(input: SweepInput, i: nat, indepeqs: seq<nat>) {
    && i <= |input.marked| == |input.ids| <= |indepeqs|
    && var sel := Positions(input.marked, i);
       forall k :: 0 <= k < |sel| ==> indepeqs[k] == input.ids[sel[k]]
  }

  /** The positions among the first i marked rows of the wanted ones. */
  ghost function NewPositions(input: SweepInput, i: nat): (s: seq<nat>)
    requires i <= |input.marked| == |input.wanted|
  {
    var sel := Positions(input.marked, i);
    Positions(Select(input.wanted, sel), |sel|)
  }

  /** The new positions of the wanted equations come first. */
  ghost predicate OutputsKept(input: SweepInput, i: nat, outeqPos: seq<nat>) {
    && i <= |input.marked| == |input.wanted|
    && |outeqPos| == |Positions(input.wanted, |input.wanted|)|
    && |NewPositions(input, i)| == |Positions(input.wanted, i)| <= |outeqPos|
    && outeqPos[..|NewPositions(input, i)|] == NewPositions(input, i)
  }

  /** Swept are, besides those swept before, the leading variables of the unmarked ones of the first i rows. */
  ghost predicate SweptFlags(input: SweepInput, i: nat, xinfo: seq<SparseVar>) {
    && ValidInput(input) && i <= |input.rows| && |xinfo| == |input.xinfo|
    && (forall c :: 0 <= c < |xinfo| ==> xinfo[c] == input.xinfo[c].(isSweeped := xinfo[c].isSweeped))
    && forall c :: 0 <= c < |xinfo| ==> (xinfo[c].isSweeped <==>
         input.xinfo[c].isSweeped || exists l :: 0 <= l < i && !input.marked[l] && Lead(input.rows[l]) == c)
  }

  ghost predicate SweepStage(input: SweepInput, i: nat, r: SweepResult) {
    ValidInput(input) && NumbersKept(input, i, r.indepeqs) && OutputsKept(input, i, r.outeqPos) && SweptFlags(input, i, r.xinfo)
  }

  lemma SweepStart(eqdeps: seq<seq<nat>>, input: SweepInput, r: SweepResult)
    requires |input.rows| == |input.ids| == |input.marked| == |input.wanted|
    requires forall i :: 0 <= i < |input.rows| ==> input.rows[i] != [] && Lead(input.rows[i]) < |input.xinfo|
    requires input.wanted == WantedFlags(NeededFlags(input.xinfo), input.rows)
    requires MarksReached(eqdeps, input.wanted, input.marked) && r.xinfo == input.xinfo
    requires |r.indepeqs| >= |input.rows| && |r.outeqPos| == |Positions(input.wanted, |input.rows|)|
    ensures SweepStage(input, 0, r)
  {
    forall i | 0 <= i < |input.rows| && input.wanted[i]
      ensures input.marked[i]
    {
      ReachesSelf(eqdeps, i);
    }
    assert NewPositions(input, 0) == [];
  }

  /** The next position is flagged or not. */
  lemma PositionsNext(flags: seq<bool>, i: nat)
    requires i < |flags|
    ensures Positions(flags, i + 1) == Positions(flags, i) + if flags[i] then [i] else []
  {
  }

  lemma {:induction false} PositionsMonotone(flags: seq<bool>, i: nat, j: nat)
    requires i <= j <= |flags|
    ensures |Positions(flags, i)| <= |Positions(flags, j)|
    decreases j
  {
    hide Positions, IsSelection;
    if i < j {
      PositionsMonotone(flags, i, j - 1);
      PositionsNext(flags, j - 1);
    }
  }

  lemma {:induction false} PositionsPrefix(a: seq<bool>, b: seq<bool>, k: nat)
    requires k <= |a| && k <= |b| && a[..k] == b[..k]
    ensures Positions(a, k) == Positions(b, k)
    decreases k
  {
    if k > 0 {
      assert a[k - 1] == a[..k][k - 1] && b[k - 1] == b[..k][k - 1];
      assert a[..k - 1] == a[..k][..k - 1] && b[..k - 1] == b[..k][..k - 1];
      PositionsPrefix(a, b, k - 1);
    }
  }

  lemma StageSizes(input: SweepInput, i: nat, r: SweepResult)
    requires SweepStage(input, i, r)
    ensures |r.xinfo| == |input.xinfo|
  {
  }

  lemma NumbersStep(input: SweepInput, i: nat, indepeqs: seq<nat>)
    requires NumbersKept(input, i, indepeqs) && i < |input.marked|
    ensures |Positions(input.marked, i)| < |indepeqs|
    ensures NumbersKept(input, i + 1,
              if input.marked[i] then indepeqs[|Positions(input.marked, i)| := input.ids[i]] else indepeqs)
  {
  }

  /** A marked row takes the next new position. */
  lemma NewPositionsNext(input: SweepInput, i: nat)
    requires i < |input.marked| == |input.wanted|
    ensures NewPositions(input, i + 1) == NewPositions(input, i) +
      if input.marked[i] && input.wanted[i] then [|Positions(input.marked, i)|] else []
  {
    hide Positions;
    PositionsNext(input.marked, i);
    var sel := Positions(input.marked, i);
    if input.marked[i] {
      var w' := Select(input.wanted, Positions(input.marked, i + 1));
      assert w'[..|sel|] == Select(input.wanted, sel);
      assert Select(input.wanted, sel)[..|sel|] == Select(input.wanted, sel);
      PositionsPrefix(Select(input.wanted, sel), w', |sel|);
      PositionsNext(w', |sel|);
      assert w'[|sel|] == input.wanted[i];
    } else {
      assert Positions(input.marked, i + 1) == sel;
    }
  }

  /** The new positions lead to the wanted rows, in the same order. */
  lemma {:induction false} NewPositionsLead(input: SweepInput, i: nat)
    requires i <= |input.marked| == |input.wanted|
    requires forall e :: 0 <= e < |input.wanted| && input.wanted[e] ==> input.marked[e]
    ensures |NewPositions(input, i)| == |Positions(input.wanted, i)|
    ensures forall t :: 0 <= t < |NewPositions(input, i)| ==>
      && NewPositions(input, i)[t] < |Positions(input.marked, i)|
      && Positions(input.marked, i)[NewPositions(input, i)[t]] == Positions(input.wanted, i)[t]
    decreases i
  {
    hide Positions, NewPositions;
    if i > 0 {
      NewPositionsLead(input, i - 1);
      NewPositionsNext(input, i - 1);
      PositionsNext(input.marked, i - 1);
      PositionsNext(input.wanted, i - 1);
    } else {
      NoPositions(input);
    }
  }

  lemma NoPositions(input: SweepInput)
    requires |input.marked| == |input.wanted|
    ensures NewPositions(input, 0) == [] && Positions(input.marked, 0) == [] && Positions(input.wanted, 0) == []
  {
  }

  /** When all rows have been looked at, the recorded positions are those of the wanted rows among the marked ones. */
  lemma OutputsLead(input: SweepInput, r: SweepResult)
    requires SweepStage(input, |input.rows|, r)
    ensures var sel, wanted := Positions(input.marked, |input.rows|), Positions(input.wanted, |input.rows|);
      && |r.outeqPos| == |wanted|
      && forall t :: 0 <= t < |wanted| ==> r.outeqPos[t] < |sel| && sel[r.outeqPos[t]] == wanted[t]
  {
    hide Positions, NewPositions;
    NewPositionsLead(input, |input.rows|);
    assert r.outeqPos == r.outeqPos[..|NewPositions(input, |input.rows|)|];
  }

  lemma OutputsStep(input: SweepInput, i: nat, outeqPos: seq<nat>)
    requires OutputsKept(input, i, outeqPos) && i < |input.marked| && (input.wanted[i] ==> input.marked[i])
    ensures input.wanted[i] ==> |Positions(input.wanted, i)| < |outeqPos|
    ensures OutputsKept(input, i + 1,
              if input.wanted[i] then outeqPos[|Positions(input.wanted, i)| := |Positions(input.marked, i)|] else outeqPos)
  {
    hide Positions, NewPositions;
    NewPositionsNext(input, i);
    PositionsNext(input.wanted, i);
    PositionsMonotone(input.wanted, i + 1, |input.wanted|);
  }

  lemma FlagsStep(input: SweepInput, i: nat, xinfo: seq<SparseVar>)
    requires SweptFlags(input, i, xinfo) && i < |input.rows|
    ensures var depv := Lead(input.rows[i]);
      && xinfo[depv].isNeeded == input.wanted[i]
      && SweptFlags(input, i + 1, if input.marked[i] then xinfo else xinfo[depv := xinfo[depv].(isSweeped := true)])
  {
  }

  /** One pass through the sweep. */
  lemma SweepStep(input: SweepInput, i: nat, r: SweepResult)
    requires SweepStage(input, i, r) && i < |input.rows|
    ensures |Positions(input.marked, i)| < |r.indepeqs|
    ensures input.wanted[i] ==> |Positions(input.wanted, i)| < |r.outeqPos|
    ensures |input.rows| == |input.marked| == |input.ids| == |input.wanted| && |r.xinfo| == |input.xinfo|
    ensures input.rows[i] != [] && Lead(input.rows[i]) < |r.xinfo|
    ensures var newn, outeq, depv := |Positions(input.marked, i)|, |Positions(input.wanted, i)|, Lead(input.rows[i]);
      SweepStage(input, i + 1, SweepResult(
        if input.marked[i] then r.xinfo else r.xinfo[depv := r.xinfo[depv].(isSweeped := true)],
        if input.marked[i] then r.indepeqs[newn := input.ids[i]] else r.indepeqs,
        if input.wanted[i] then r.outeqPos[outeq := newn] else r.outeqPos))
    ensures r.xinfo[Lead(input.rows[i])].isNeeded == input.wanted[i] && (input.wanted[i] ==> input.marked[i])
    ensures |Positions(input.marked, i + 1)| == |Positions(input.marked, i)| + if input.marked[i] then 1 else 0
    ensures |Positions(input.wanted, i + 1)| == |Positions(input.wanted, i)| + if input.wanted[i] then 1 else 0
  {
    hide Positions, NumbersKept, OutputsKept;
    assert r.xinfo == r.xinfo && |r.xinfo| == |input.xinfo|;
    NumbersStep(input, i, r.indepeqs);
    OutputsStep(input, i, r.outeqPos);
    FlagsStep(input, i, r.xinfo);
    PositionsNext(input.marked, i);
    PositionsNext(input.wanted, i);
  }

  // ---- what sweeping preserves ----

  lemma {:induction false} ReachesAppend(eqdeps: seq<seq<nat>>, eq: nat, e: nat, d: nat, n: nat)
    requires ReachesIn(eqdeps, eq, e, n) && e < |eqdeps| && d in eqdeps[e]
    ensures Reaches(eqdeps, eq, d)
    decreases n
  {
    if eq == e {
      ReachesSelf(eqdeps, d);
      ReachesStep(eqdeps, eq, d, d);
    } else {
      var next :| next in eqdeps[eq] && ReachesIn(eqdeps, next, e, n - 1);
      ReachesAppend(eqdeps, next, e, d, n - 1);
      ReachesStep(eqdeps, eq, next, d);
    }
  }

  /** Without zero rows the dependencies recorded by the reduction are those of both its passes. */
  lemma RecordedDeps(orig: seq<Cells>, eqdeps: seq<seq<nat>>, fl: Flags, m: nat, p: int)
    requires IsPrime(p) && AllWellFormed(orig, m, p) && NoZeroRow(orig, m, p) && |eqdeps| == |orig| < NO_EQ
    requires ListsDeps(eqdeps, orig, |Independent(orig, m, p)|, fl, m, p)
    ensures |Independent(orig, m, p)| == |orig| && WellFormedDeps(eqdeps)
    ensures forall k :: 0 <= k < |orig| ==> eqdeps[k] == Deps(orig, k, fl, m, p)
  {
    hide IsPrime, AllWellFormed, ForwardDeps, BackRow, Forward;
    NonZeroAll(Forward(orig, |orig|, m, p));
  }

  /** Marks that are exactly what the wanted equations reach are closed under dependencies. */
  lemma KeptDepsSelected(orig: seq<Cells>, eqdeps: seq<seq<nat>>, fl: Flags, wanted: seq<bool>, kept: seq<bool>, m: nat, p: int)
    requires IsPrime(p) && AllWellFormed(orig, m, p) && NoZeroRow(orig, m, p) && |eqdeps| == |orig| == |kept|
    requires WellFormedDeps(eqdeps) && forall k :: 0 <= k < |orig| ==> eqdeps[k] == Deps(orig, k, fl, m, p)
    requires MarksReached(eqdeps, wanted, kept)
    ensures DepsSelected(orig, Positions(kept, |orig|), fl, m, p)
  {
    hide IsPrime, AllWellFormed, Deps, NoZeroRow, WellFormedDeps, Positions;
    var sel := Positions(kept, |orig|);
    forall k, d | 0 <= k < |sel| && d in Deps(orig, sel[k], fl, m, p)
      ensures d in sel
    {
      assert sel[k] in sel;
      assert d in eqdeps[sel[k]];
      DepsInside(eqdeps, sel[k], d);
      var j: nat :| j < |wanted| && wanted[j] && Reaches(eqdeps, j, sel[k]);
      var n: nat :| ReachesIn(eqdeps, j, sel[k], n);
      ReachesAppend(eqdeps, j, sel[k], d, n);
      assert kept[d];
    }
  }

  lemma DepsInside(eqdeps: seq<seq<nat>>, e: nat, d: nat)
    requires WellFormedDeps(eqdeps) && e < |eqdeps| && d in eqdeps[e]
    ensures d < |eqdeps|
  {
  }

  /** The equations kept are enough: reducing them alone, in the same order and with the same flags,
      gives for each of them the row it had, and every row of a needed variable is among them. */
  lemma SweepPreserves(orig: seq<Cells>, eqdeps: seq<seq<nat>>, needed: seq<bool>, kept: seq<bool>, m: nat, p: int)
    requires IsPrime(p) && AllWellFormed(orig, m, p) && NoZeroRow(orig, m, p) && |eqdeps| == |orig| < NO_EQ
    requires ListsDeps(eqdeps, orig, |Independent(orig, m, p)|, Needed(needed), m, p)
    requires var res := Reduced(orig, Needed(needed), m, p);
      && (forall i :: 0 <= i < |res| ==> res[i] != [] && Lead(res[i]) < |needed|)
      && MarksReached(eqdeps, WantedFlags(needed, res), kept)
    ensures |kept| == |orig| && AllWellFormed(Select(orig, Positions(kept, |orig|)), m, p)
    ensures var fl, sel := Needed(needed), Positions(kept, |orig|);
      var res, again := Reduced(orig, fl, m, p), Reduced(Select(orig, sel), fl, m, p);
      && |res| == |orig| && |again| == |sel|
      && (forall k :: 0 <= k < |sel| ==> again[k] == res[sel[k]])
      && (forall j :: 0 <= j < |res| && needed[Lead(res[j])] ==> exists k :: 0 <= k < |sel| && sel[k] == j && again[k] == res[j])
  {
    hide IsPrime, AllWellFormed, NoZeroRow, Reduced, ListsDeps, DepsSelected, Reaches;
    var fl := Needed(needed);
    var res := Reduced(orig, fl, m, p);
    var wanted := WantedFlags(needed, res);
    RecordedDeps(orig, eqdeps, fl, m, p);
    ReducedLength(orig, fl, m, p);
    KeptDepsSelected(orig, eqdeps, fl, wanted, kept, m, p);
    var sel := Positions(kept, |orig|);
    SweptReduction(orig, sel, fl, m, p);
    forall j: nat | j < |res| && needed[Lead(res[j])]
      ensures j in sel
    {
      ReachesSelf(eqdeps, j);
    }
  }

  lemma ReducedLength(orig: seq<Cells>, fl: Flags, m: nat, p: int)
    requires IsPrime(p) && AllWellFormed(orig, m, p)
    ensures |Reduced(orig, fl, m, p)| == |Independent(orig, m, p)|
  {
  }

  // ---- the check after a reduction ----

  /** The leading variable of a row of so many cells is as it was learned. */
  predicate RowPasses(x: SparseVar, size: nat, zeroOpt: bool) {
    && x.isDep && !x.isSweeped
    && (x.isNeeded ==> if size != 1 then x.isNonZero else !zeroOpt || !x.isNonZero)
  }

  /** The first k rows are those before the first zero row. */
  predicate UpToZero(rows: seq<Cells>, k: nat) {
    k <= |rows| && (forall i :: 0 <= i < k ==> rows[i] != []) && (k < |rows| ==> rows[k] == [])
  }

  predicate LeadsBelow(rows: seq<Cells>, c: nat) {
    forall i :: 0 <= i < |rows| && rows[i] != [] ==> Lead(rows[i]) < c
  }

  /** How many of the first k rows lead with a needed variable. */
  function NeededRows(xinfo: seq<SparseVar>, rows: seq<Cells>, k: nat): nat
    requires k <= |rows| && LeadsBelow(rows, |xinfo|) && forall i :: 0 <= i < k ==> rows[i] != []
  {
    if k == 0 then 0 else NeededRows(xinfo, rows, k - 1) + if xinfo[Lead(rows[k - 1])].isNeeded then 1 else 0
  }

  predicate RowsPass(xinfo: seq<SparseVar>, rows: seq<Cells>, k: nat, zeroOpt: bool)
    requires k <= |rows| && LeadsBelow(rows, |xinfo|) && forall i :: 0 <= i < k ==> rows[i] != []
  {
    forall i :: 0 <= i < k ==> RowPasses(xinfo[Lead(rows[i])], |rows[i]|, zeroOpt)
  }

  /** Every row before the first zero row passes, and as many needed variables are found as were learned. */
  ghost predicate PassesCheck(xinfo: seq<SparseVar>, rows: seq<Cells>, zeroOpt: bool, zeros: nat, nndeps: nat) {
    LeadsBelow(rows, |xinfo|) &&
    exists k: nat :: UpToZero(rows, k) && RowsPass(xinfo, rows, k, zeroOpt) && zeros + NeededRows(xinfo, rows, k) == nndeps
  }

  /** The rows before the first zero row that lead with a needed variable. */
  ghost function NeededBelow(xinfo: seq<SparseVar>, rows: seq<Cells>, k: nat): set<nat>
    requires k <= |rows| && LeadsBelow(rows, |xinfo|) && forall i :: 0 <= i < k ==> rows[i] != []
  {
    set i: nat | i < k && xinfo[Lead(rows[i])].isNeeded
  }

  /** What the second pass demands of the reduced rows: each one before the first zero row leads with a dependent
      variable that has not been swept, a needed one being zero or not as it was learned; and with the zero variables
      as many needed ones are found as were learned. */
  ghost predicate LeadsAsLearned(xinfo: seq<SparseVar>, rows: seq<Cells>, zeroOpt: bool, zeros: nat, nndeps: nat) {
    LeadsBelow(rows, |xinfo|) &&
    exists k: nat :: UpToZero(rows, k)
      && (forall i :: 0 <= i < k ==> xinfo[Lead(rows[i])].isDep && !xinfo[Lead(rows[i])].isSweeped)
      && (forall i :: 0 <= i < k && xinfo[Lead(rows[i])].isNeeded && |rows[i]| > 1 ==> xinfo[Lead(rows[i])].isNonZero)
      && (forall i :: 0 <= i < k && xinfo[Lead(rows[i])].isNeeded && |rows[i]| == 1 && zeroOpt ==> !xinfo[Lead(rows[i])].isNonZero)
      && zeros + |NeededBelow(xinfo, rows, k)| == nndeps
  }

  lemma {:induction false} NeededRowsCount(xinfo: seq<SparseVar>, rows: seq<Cells>, k: nat)
    requires k <= |rows| && LeadsBelow(rows, |xinfo|) && forall i :: 0 <= i < k ==> rows[i] != []
    ensures NeededRows(xinfo, rows, k) == |NeededBelow(xinfo, rows, k)|
    decreases k
  {
    if k > 0 {
      NeededRowsCount(xinfo, rows, k - 1);
      NeededBelowNext(xinfo, rows, k - 1);
    } else {
      assert NeededBelow(xinfo, rows, 0) == {};
    }
  }

  lemma NeededBelowNext(xinfo: seq<SparseVar>, rows: seq<Cells>, k: nat)
    requires k < |rows| && LeadsBelow(rows, |xinfo|) && forall i :: 0 <= i <= k ==> rows[i] != []
    ensures |NeededBelow(xinfo, rows, k + 1)| == |NeededBelow(xinfo, rows, k)| + if xinfo[Lead(rows[k])].isNeeded then 1 else 0
  {
    var before, all := NeededBelow(xinfo, rows, k), NeededBelow(xinfo, rows, k + 1);
    assert k !in before;
    if xinfo[Lead(rows[k])].isNeeded {
      assert all == before + {k};
    } else {
      assert all == before;
    }
  }

  lemma PassesIffLearned(xinfo: seq<SparseVar>, rows: seq<Cells>, zeroOpt: bool, zeros: nat, nndeps: nat)
    ensures PassesCheck(xinfo, rows, zeroOpt, zeros, nndeps) <==> LeadsAsLearned(xinfo, rows, zeroOpt, zeros, nndeps)
  {
    hide NeededRows;
    if LeadsBelow(rows, |xinfo|) {
      forall k: nat | UpToZero(rows, k)
        ensures NeededRows(xinfo, rows, k) == |NeededBelow(xinfo, rows, k)|
        ensures RowsPass(xinfo, rows, k, zeroOpt) <==>
          && (forall i :: 0 <= i < k ==> xinfo[Lead(rows[i])].isDep && !xinfo[Lead(rows[i])].isSweeped)
          && (forall i :: 0 <= i < k && xinfo[Lead(rows[i])].isNeeded && |rows[i]| > 1 ==> xinfo[Lead(rows[i])].isNonZero)
          && (forall i :: 0 <= i < k && xinfo[Lead(rows[i])].isNeeded && |rows[i]| == 1 && zeroOpt ==> !xinfo[Lead(rows[i])].isNonZero)
      {
        NeededRowsCount(xinfo, rows, k);
      }
    }
  }

  /** The needed variables that are dependent, besides those learned to be zero. */
  ghost function LearnedNeeded(xinfo: seq<SparseVar>, zerodeps: seq<nat>): set<nat> {
    set c: nat | c < |xinfo| && xinfo[c].isDep && !xinfo[c].isSweeped && xinfo[c].isNeeded && c !in zerodeps
  }

  lemma SameSize(a: set<nat>, b: set<nat>)
    requires a <= b
    ensures |a| <= |b| && (|a| == |b| <==> a == b)
  {
    assert b == a + (b - a);
    assert |b| == |a| + |b - a|;
  }

  /** If the rows lead with different variables, none of them a zero one, and the number learned is that of the needed
      dependent variables, the check says exactly this: rows lead with dependent variables that have not been swept, as
      they were learned, and every needed one leads a row. */
  lemma CheckFindsLearned(xinfo: seq<SparseVar>, rows: seq<Cells>, k: nat, zeroOpt: bool, zerodeps: seq<nat>, nndeps: nat)
    requires LeadsBelow(rows, |xinfo|) && UpToZero(rows, k) && nndeps == |zerodeps| + |LearnedNeeded(xinfo, zerodeps)|
    requires forall i, j :: 0 <= i < j < k ==> Lead(rows[i]) != Lead(rows[j])
    requires forall i :: 0 <= i < k ==> Lead(rows[i]) !in zerodeps
    ensures LeadsAsLearned(xinfo, rows, zeroOpt, |zerodeps|, nndeps) <==>
      && (forall i :: 0 <= i < k ==> xinfo[Lead(rows[i])].isDep && !xinfo[Lead(rows[i])].isSweeped)
      && (forall i :: 0 <= i < k && xinfo[Lead(rows[i])].isNeeded && |rows[i]| > 1 ==> xinfo[Lead(rows[i])].isNonZero)
      && (forall i :: 0 <= i < k && xinfo[Lead(rows[i])].isNeeded && |rows[i]| == 1 && zeroOpt ==> !xinfo[Lead(rows[i])].isNonZero)
      && (forall c :: c in LearnedNeeded(xinfo, zerodeps) ==> exists i :: 0 <= i < k && Lead(rows[i]) == c)
  {
    forall j: nat | UpToZero(rows, j)
      ensures j == k
    {
      UpToZeroUnique(rows, j, k);
    }
    LeadsFound(xinfo, rows, k);
    if forall i :: 0 <= i < k ==> xinfo[Lead(rows[i])].isDep && !xinfo[Lead(rows[i])].isSweeped {
      FoundIffAll(xinfo, rows, k, zerodeps);
    }
  }

  /** The needed variables that lead one of the first k rows. */
  ghost function FoundNeeded(xinfo: seq<SparseVar>, rows: seq<Cells>, k: nat): set<nat>
    requires k <= |rows| && LeadsBelow(rows, |xinfo|) && forall i :: 0 <= i < k ==> rows[i] != []
  {
    set i: nat | i < k && xinfo[Lead(rows[i])].isNeeded :: Lead(rows[i])
  }

  lemma {:induction false} LeadsFound(xinfo: seq<SparseVar>, rows: seq<Cells>, k: nat)
    requires k <= |rows| && LeadsBelow(rows, |xinfo|) && forall i :: 0 <= i < k ==> rows[i] != []
    requires forall i, j :: 0 <= i < j < k ==> Lead(rows[i]) != Lead(rows[j])
    ensures |FoundNeeded(xinfo, rows, k)| == |NeededBelow(xinfo, rows, k)|
    decreases k
  {
    hide *;
    if k == 0 {
      NothingFound(xinfo, rows);
    } else {
      LeadsFound(xinfo, rows, k - 1);
      NeededBelowNext(xinfo, rows, k - 1);
      FoundNext(xinfo, rows, k - 1);
    }
  }

  lemma NothingFound(xinfo: seq<SparseVar>, rows: seq<Cells>)
    requires LeadsBelow(rows, |xinfo|)
    ensures FoundNeeded(xinfo, rows, 0) == {} == NeededBelow(xinfo, rows, 0)
  {
  }

  /** A row with a new leading variable adds that variable if it is needed. */
  lemma FoundNext(xinfo: seq<SparseVar>, rows: seq<Cells>, k: nat)
    requires k < |rows| && LeadsBelow(rows, |xinfo|) && forall i :: 0 <= i <= k ==> rows[i] != []
    requires forall i :: 0 <= i < k ==> Lead(rows[i]) != Lead(rows[k])
    ensures Lead(rows[k]) !in FoundNeeded(xinfo, rows, k)
    ensures FoundNeeded(xinfo, rows, k + 1) ==
      FoundNeeded(xinfo, rows, k) + if xinfo[Lead(rows[k])].isNeeded then {Lead(rows[k])} else {}
  {
  }

  lemma FoundIffAll(xinfo: seq<SparseVar>, rows: seq<Cells>, k: nat, zerodeps: seq<nat>)
    requires LeadsBelow(rows, |xinfo|) && UpToZero(rows, k)
    requires forall i :: 0 <= i < k ==> Lead(rows[i]) !in zerodeps
    requires forall i :: 0 <= i < k ==> xinfo[Lead(rows[i])].isDep && !xinfo[Lead(rows[i])].isSweeped
    ensures |FoundNeeded(xinfo, rows, k)| == |LearnedNeeded(xinfo, zerodeps)| <==>
      forall c :: c in LearnedNeeded(xinfo, zerodeps) ==> exists i :: 0 <= i < k && Lead(rows[i]) == c
  {
    var found, l := FoundNeeded(xinfo, rows, k), LearnedNeeded(xinfo, zerodeps);
    assert found <= l;
    SameSize(found, l);
    if forall c :: c in l ==> exists i :: 0 <= i < k && Lead(rows[i]) == c {
      forall c | c in l
        ensures c in found
      {
        var i: nat :| i < k && Lead(rows[i]) == c;
      }
    }
  }

  lemma UpToZeroUnique(rows: seq<Cells>, k: nat, l: nat)
    requires UpToZero(rows, k) && UpToZero(rows, l)
    ensures k == l
  {
  }

  /** Without zero rows, the needed rows that were counted are those whose positions are taken. */
  lemma {:induction false} NeededRowsPositions(xinfo: seq<SparseVar>, rows: seq<Cells>, k: nat)
    requires k <= |rows| && (forall i :: 0 <= i < |rows| ==> rows[i] != []) && LeadsBelow(rows, |xinfo|)
    ensures NeededRows(xinfo, rows, k) == |Positions(WantedFlags(NeededFlags(xinfo), rows), k)|
    decreases k
  {
    hide Positions, IsSelection;
    assert Positions(WantedFlags(NeededFlags(xinfo), rows), 0) == [];
    if k > 0 {
      NeededRowsPositions(xinfo, rows, k - 1);
      PositionsNext(WantedFlags(NeededFlags(xinfo), rows), k - 1);
    }
  }

  /** A system without zero rows that passes has one output position for each of its needed rows. */
  lemma PassedPositions(xinfo: seq<SparseVar>, rows: seq<Cells>, zeroOpt: bool, zeros: nat, nndeps: nat)
    requires PassesCheck(xinfo, rows, zeroOpt, zeros, nndeps) && forall i :: 0 <= i < |rows| ==> rows[i] != []
    ensures zeros + |Positions(WantedFlags(NeededFlags(xinfo), rows), |rows|)| == nndeps
  {
    var k: nat :| UpToZero(rows, k) && zeros + NeededRows(xinfo, rows, k) == nndeps;
    assert UpToZero(rows, |rows|);
    UpToZeroUnique(rows, k, |rows|);
    NeededRowsPositions(xinfo, rows, |rows|);
  }

  /** The next row passes and counts on its own. */
  lemma CheckNext(xinfo: seq<SparseVar>, rows: seq<Cells>, j: nat, zeroOpt: bool)
    requires j < |rows| && LeadsBelow(rows, |xinfo|) && forall i :: 0 <= i <= j ==> rows[i] != []
    ensures RowsPass(xinfo, rows, j + 1, zeroOpt) <==>
      RowsPass(xinfo, rows, j, zeroOpt) && RowPasses(xinfo[Lead(rows[j])], |rows[j]|, zeroOpt)
    ensures NeededRows(xinfo, rows, j + 1) == NeededRows(xinfo, rows, j) + if xinfo[Lead(rows[j])].isNeeded then 1 else 0
  {
    hide RowPasses;
  }

  lemma CheckStarts(xinfo: seq<SparseVar>, rows: seq<Cells>, zeroOpt: bool)
    requires LeadsBelow(rows, |xinfo|)
    ensures RowsPass(xinfo, rows, 0, zeroOpt) && NeededRows(xinfo, rows, 0) == 0
    ensures forall i :: 0 <= i < |rows| && rows[i] != [] ==> Lead(rows[i]) < |xinfo|
  {
  }

  /** The rows before the first zero row decide. */
  lemma CheckEnds(xinfo: seq<SparseVar>, rows: seq<Cells>, j: nat, zeroOpt: bool, zeros: nat, nndeps: nat)
    requires j <= |rows| && LeadsBelow(rows, |xinfo|) && (forall i :: 0 <= i < j ==> rows[i] != [])
    requires j < |rows| ==> rows[j] == []
    ensures PassesCheck(xinfo, rows, zeroOpt, zeros, nndeps) <==>
      RowsPass(xinfo, rows, j, zeroOpt) && zeros + NeededRows(xinfo, rows, j) == nndeps
  {
    assert UpToZero(rows, j);
    forall k: nat | UpToZero(rows, k)
      ensures k == j
    {
      UpToZeroUnique(rows, k, j);
    }
    hide RowsPass, NeededRows;
  }

  /** A row that does not pass lies before the first zero row. */
  lemma StopsEarly(xinfo: seq<SparseVar>, rows: seq<Cells>, j: nat, zeroOpt: bool, zeros: nat, nndeps: nat)
    requires j < |rows| && LeadsBelow(rows, |xinfo|) && forall i :: 0 <= i <= j ==> rows[i] != []
    requires !RowPasses(xinfo[Lead(rows[j])], |rows[j]|, zeroOpt)
    ensures !PassesCheck(xinfo, rows, zeroOpt, zeros, nndeps)
  {
    hide RowPasses, NeededRows;
  }

  lemma ReducedLeads(orig: seq<Cells>, fl: Flags, m: nat, p: int, k: nat)
    requires IsPrime(p) && AllWellFormed(orig, m, p)
    ensures LeadsBelow(Reduced(orig, fl, m, p) + Zeros(k), m)
  {
    hide Reduced, IsPrime, AllWellFormed;
    ReducedShape(orig, fl, m, p);
    var res := Reduced(orig, fl, m, p);
    forall i | 0 <= i < |res|
      ensures Lead(res[i]) < m
    {
      HeadColumn(res[i], m, p);
    }
  }

  lemma HeadColumn(row: Cells, m: nat, p: int)
    requires WellFormed(row, m, p) && row != []
    ensures Lead(row) < m
  {
  }

  /** The reduced form of a sample and what its rows depend on. */
  ghost predicate Recorded(orig: seq<Cells>, needed: seq<bool>, rows: seq<Cells>, deps: seq<seq<nat>>, m: nat, p: int) {
    && IsPrime(p) && AllWellFormed(orig, m, p) && |deps| == |orig| < NO_EQ && |Independent(orig, m, p)| <= |orig|
    && rows == Reduced(orig, Needed(needed), m, p) + Zeros(|orig| - |Independent(orig, m, p)|)
    && ListsDeps(deps, orig, |Independent(orig, m, p)|, Needed(needed), m, p)
  }

  lemma {:induction false} NonZeroFull(rows: seq<Cells>)
    ensures |NonZero(rows)| <= |rows| && (|NonZero(rows)| == |rows| ==> forall i :: 0 <= i < |rows| ==> rows[i] != [])
    decreases |rows|
  {
    if rows != [] {
      NonZeroFull(rows[..|rows| - 1]);
    }
  }

  lemma TailIsZero(res: seq<Cells>, k: nat)
    requires k > 0
    ensures (res + Zeros(k))[|res|] == []
  {
  }

  /** If no row of the reduced sample is zero, no row became zero on the way. */
  lemma NoneVanished(orig: seq<Cells>, needed: seq<bool>, rows: seq<Cells>, deps: seq<seq<nat>>, m: nat, p: int)
    requires Recorded(orig, needed, rows, deps, m, p) && forall i :: 0 <= i < |rows| ==> rows[i] != []
    ensures NoZeroRow(orig, m, p) && |Independent(orig, m, p)| == |orig| == |rows| && rows == Reduced(orig, Needed(needed), m, p)
  {
    hide IsPrime, AllWellFormed, Forward, ListsDeps, NonZero, Reduced;
    var k := |orig| - |Independent(orig, m, p)|;
    ReducedLength(orig, Needed(needed), m, p);
    var res := Reduced(orig, Needed(needed), m, p);
    if k > 0 {
      TailIsZero(res, k);
    }
    assert rows == Reduced(orig, Needed(needed), m, p) + [];
    NonZeroFull(Forward(orig, |orig|, m, p));
  }

  /** Rows of needed variables are fully reduced. */
  lemma NeededRowsClear(orig: seq<Cells>, xinfo: seq<SparseVar>, rows: seq<Cells>, m: nat, p: int)
    requires IsPrime(p) && AllWellFormed(orig, m, p) && rows == Reduced(orig, Needed(NeededFlags(xinfo)), m, p)
    requires forall i :: 0 <= i < |rows| ==> rows[i] != [] && Lead(rows[i]) < |xinfo|
    ensures forall j, e :: 0 <= j < |rows| && 0 <= e < |rows| && e != j && xinfo[Lead(rows[j])].isNeeded ==>
      !HasCol(rows[j], Lead(rows[e]))
  {
    hide IsPrime, AllWellFormed, Reduced, HasCol;
    ReducedShape(orig, Needed(NeededFlags(xinfo)), m, p);
  }

  /** After a second pass without zero rows the marks made from its dependencies leave out nothing that matters:
      reducing the marked equations alone gives every marked row again, the needed ones among them, and the numbers
      recorded for them are those of the equations they were filled from. */
  lemma SweepAfterLearning(orig: seq<Cells>, ids: seq<nat>, xinfo: seq<SparseVar>, rows: seq<Cells>, deps: seq<seq<nat>>,
                           kept: seq<bool>, r: SweepResult, m: nat, p: int)
    requires Recorded(orig, NeededFlags(xinfo), rows, deps, m, p)
    requires forall i :: 0 <= i < |rows| ==> rows[i] != [] && Lead(rows[i]) < |xinfo|
    requires MarksReached(deps, WantedFlags(NeededFlags(xinfo), rows), kept)
    requires SweepStage(SweepInput(xinfo, WantedFlags(NeededFlags(xinfo), rows), rows, ids, kept), |rows|, r)
    ensures IsPrime(p) && |kept| == |ids| == |orig| == |rows| <= |r.indepeqs|
    ensures AllWellFormed(Select(orig, Positions(kept, |orig|)), m, p)
    ensures
      var sel := Positions(kept, |orig|);
      var again := Reduced(Select(orig, sel), Needed(NeededFlags(xinfo)), m, p);
      && |again| == |sel| && (forall k :: 0 <= k < |sel| ==> again[k] == rows[sel[k]])
      && (forall j :: 0 <= j < |rows| && xinfo[Lead(rows[j])].isNeeded ==> exists k :: 0 <= k < |sel| && sel[k] == j)
      && (forall k :: 0 <= k < |sel| ==> Select(orig, sel)[k] == orig[sel[k]] && r.indepeqs[k] == ids[sel[k]])
    ensures forall j, e :: 0 <= j < |rows| && 0 <= e < |rows| && e != j && xinfo[Lead(rows[j])].isNeeded ==>
      !HasCol(rows[j], Lead(rows[e]))
  {
    NoneVanished(orig, NeededFlags(xinfo), rows, deps, m, p);
    NeededRowsClear(orig, xinfo, rows, m, p);
    hide IsPrime, AllWellFormed, NoZeroRow, Reduced, ListsDeps, MarksReached, Positions, Independent;
    SweepPreserves(orig, deps, NeededFlags(xinfo), kept, m, p);
  }

  /** In the rows reduced again the recorded output positions lead to the rows of the needed variables, in order. */
  lemma OutputsAfterLearning(orig: seq<Cells>, ids: seq<nat>, xinfo: seq<SparseVar>, rows: seq<Cells>, deps: seq<seq<nat>>,
                             kept: seq<bool>, r: SweepResult, again: seq<Cells>, m: nat, p: int)
    requires Recorded(orig, NeededFlags(xinfo), rows, deps, m, p)
    requires forall i :: 0 <= i < |rows| ==> rows[i] != [] && Lead(rows[i]) < |xinfo|
    requires MarksReached(deps, WantedFlags(NeededFlags(xinfo), rows), kept)
    requires SweepStage(SweepInput(xinfo, WantedFlags(NeededFlags(xinfo), rows), rows, ids, kept), |rows|, r)
    requires |kept| == |orig| && AllWellFormed(Select(orig, Positions(kept, |orig|)), m, p)
    requires again == Reduced(Select(orig, Positions(kept, |orig|)), Needed(NeededFlags(xinfo)), m, p)
    ensures var wanted := Positions(WantedFlags(NeededFlags(xinfo), rows), |rows|);
      && |r.outeqPos| == |wanted|
      && forall t :: 0 <= t < |wanted| ==> r.outeqPos[t] < |again| && again[r.outeqPos[t]] == rows[wanted[t]]
  {
    hide IsPrime, AllWellFormed, Recorded, Reduced, MarksReached, Positions, SweepStage, HasCol;
    OutputsLead(SweepInput(xinfo, WantedFlags(NeededFlags(xinfo), rows), rows, ids, kept), r);
    SweepAfterLearning(orig, ids, xinfo, rows, deps, kept, r, m, p);
  }

  ghost predicate Impossible(orig: seq<Cells>, m: nat, p: int) {
    m >= 1 && IsPrime(p) && AllWellFormed(orig, m, p) && !Solvable(orig, m, p)
  }

  class SparseLinearSolver {
    const nvars: nat
    const mat: SparseMatrix
    var xinfo: seq<SparseVar>
    var indepeqs: seq<nat>
    var outeqPos: seq<nat>
    var nnindepeqs: nat
    var eqdeps: seq<seq<nat>>
    var markedAndSweeped: bool
    /** The zero variables found by the first pass, if those are searched for. */
    const zeroOpt: bool
    var zerodeps: seq<nat>
    var nndeps: nat
    var nnindeps: nat
    const homog: bool
    var nparsout: nat
    var impossible: bool
    var learnedFirst: bool

    constructor (nvars: nat, mat: SparseMatrix, zeroOpt: bool, homog: bool)
      requires mat.m == nvars + 1
      ensures this.nvars == nvars && this.mat == mat && this.zeroOpt == zeroOpt && this.homog == homog
      ensures zerodeps == [] && nndeps == nnindeps == nparsout == 0 && !impossible && !learnedFirst
      ensures xinfo == seq(nvars + 1, _ => SparseVar(false, false, false, false))
      ensures indepeqs == [] && outeqPos == [] && nnindepeqs == 0 && eqdeps == [] && !markedAndSweeped
    {
      this.nvars, this.mat, this.zeroOpt, this.homog := nvars, mat, zeroOpt, homog;
      zerodeps, nndeps, nnindeps, nparsout, impossible, learnedFirst := [], 0, 0, 0, false, false;
      xinfo := seq(nvars + 1, _ => SparseVar(false, false, false, false));
      indepeqs, outeqPos, nnindepeqs, eqdeps, markedAndSweeped := [], [], 0, [], false;
    }

    ghost predicate Valid()
      reads this, mat, mat.rows, mat.Repr
    {
      && this !in mat.Repr && mat.Valid() && mat.m == nvars + 1 && |xinfo| == nvars + 1
      && mat !in mat.Repr
    }

    /** Every row is non-zero and leads with a variable or the right-hand side. */
    ghost predicate AllLead()
      requires Valid()
      reads this, mat, mat.rows, mat.Repr
    {
      forall i :: 0 <= i < mat.n ==> mat.Contents()[i] != [] && Lead(mat.Contents()[i]) < |xinfo|
    }

    ghost function Wanted(): (w: seq<bool>)
      requires Valid() && AllLead()
      reads this, mat, mat.rows, mat.Repr
      ensures |w| == mat.n
    {
      WantedFlags(NeededFlags(xinfo), mat.Contents())
    }

    /** The leading variables of the reduced rows must be the learned ones. */
    method CheckDependentVariables() returns (success: bool)
      requires Valid() && LeadsBelow(mat.Contents(), nvars + 1)
      ensures success <==> LeadsAsLearned(xinfo, mat.Contents(), zeroOpt, |zerodeps|, nndeps)
    {
      hide SparseMatrix.Valid, RowPasses, RowsPass, NeededRows, PassesCheck, LeadsBelow, LeadsAsLearned;
      ghost var rows := mat.Contents();
      PassesIffLearned(xinfo, rows, zeroOpt, |zerodeps|, nndeps);
      var count := |zerodeps|;
      CheckStarts(xinfo, rows, zeroOpt);
      for j := 0 to mat.n
        invariant forall i :: 0 <= i < j ==> rows[i] != []
        invariant RowsPass(xinfo, rows, j, zeroOpt) && count == |zerodeps| + NeededRows(xinfo, rows, j)
      {
        if mat.IsZeroRow(j) {
          CheckEnds(xinfo, rows, j, zeroOpt, |zerodeps|, nndeps);
          return count == nndeps;
        }
        CheckNext(xinfo, rows, j, zeroOpt);
        var x := xinfo[mat.LeadOf(j)];
        if !RowPasses(x, mat.SizeOf(j), zeroOpt) {
          StopsEarly(xinfo, rows, j, zeroOpt, |zerodeps|, nndeps);
          return false;
        }
        if x.isNeeded {
          count := count + 1;
        }
      }
      CheckEnds(xinfo, rows, mat.n, zeroOpt, |zerodeps|, nndeps);
      return count == nndeps;
    }

    /** Second learning pass: the matrix has been filled with a sample of the equations kept, or filling it failed.
        It is reduced, recording which equations every row depends on; then either it is impossible like the first
        sample, or its leading variables must be the learned ones. */
    method Learn2(filled: bool, p: Mod, ghost orig: seq<Cells>) returns (success: bool)
      requires Valid() && FFMod.Valid(p) && IsPrime(p.n) && AllWellFormed(orig, mat.m, p.n) && mat.Contents() == orig
      requires nnindepeqs == mat.n
      modifies this, mat`Repr, mat.Repr, mat.varEq
      ensures Valid() && mat.n == old(mat.n) && unchanged(`xinfo) && unchanged(`zerodeps) && unchanged(`nndeps)
      ensures unchanged(`nnindepeqs) && unchanged(`indepeqs) && unchanged(`outeqPos)
      ensures !filled ==> !success && mat.Contents() == orig && eqdeps == old(eqdeps)
      ensures filled && Impossible(orig, mat.m, p.n) ==> eqdeps == [] && (success <==> old(impossible))
      ensures filled && !Impossible(orig, mat.m, p.n) ==>
        && Recorded(orig, NeededFlags(xinfo), mat.Contents(), eqdeps, mat.m, p.n)
        && (success <==> LeadsAsLearned(xinfo, mat.Contents(), zeroOpt, |zerodeps|, nndeps))
        && IdsKept(mat.Ids(), old(mat.Ids()), NonZeroAt(Forward(orig, mat.n, mat.m, p.n)))
      ensures unchanged(`impossible) && unchanged(`markedAndSweeped) && unchanged(`nnindeps)
      ensures !filled || |Independent(orig, mat.m, p.n)| == mat.n ==> mat.Ids() == old(mat.Ids())
      ensures learnedFirst == if filled && !success then false else old(learnedFirst)
      ensures nparsout == if success && !Impossible(orig, mat.m, p.n) then nndeps * (nnindeps + if homog then 0 else 1)
                          else old(nparsout)
    {
      hide SparseMatrix.Valid, FFMod.Valid, IsPrime, AllWellFormed, Impossible, Recorded, LeadsAsLearned, LeadsBelow, Independent, IdsKept, NonZeroAt, Forward;
      if !filled {
        return false;
      }
      var impossibleSample, deps := ReduceSample(p, orig);
      eqdeps := deps;
      if impossibleSample {
        eqdeps := [];
        success := impossible;
      } else {
        success := CheckDependentVariables();
        if success {
          nparsout := nndeps * (nnindeps + if homog then 0 else 1);
        }
      }
      if !success {
        learnedFirst := false;
      }
    }

    method ReduceSample(p: Mod, ghost orig: seq<Cells>) returns (impossibleSample: bool, deps: seq<seq<nat>>)
      requires Valid() && FFMod.Valid(p) && IsPrime(p.n) && AllWellFormed(orig, mat.m, p.n) && mat.Contents() == orig
      modifies mat`Repr, mat.Repr, mat.varEq
      ensures Valid() && mat.n == old(mat.n) && fresh(mat.Repr - old(mat.Repr))
      ensures Recorded(orig, NeededFlags(xinfo), mat.Contents(), deps, mat.m, p.n)
      ensures LeadsBelow(mat.Contents(), nvars + 1)
      ensures |Independent(orig, mat.m, p.n)| == mat.n ==> mat.Ids() == old(mat.Ids())
      ensures IdsKept(mat.Ids(), old(mat.Ids()), NonZeroAt(Forward(orig, mat.n, mat.m, p.n)))
      ensures impossibleSample <==> Impossible(orig, mat.m, p.n)
    {
      hide SparseMatrix.Valid, FFMod.Valid, IsPrime, AllWellFormed, Reduced, ListsDeps, Registers, Solvable, LeadsBelow,
           SubstitutedByFlags, NonZero, NonZeroAt, Forward;
      MatrixSize();
      NonZeroAtRows(Forward(orig, mat.n, mat.m, p.n));
      var fl := Needed(NeededFlags(xinfo));
      var nindep;
      nindep, deps := mat.ToReducedRowEchelon(true, fl, p);
      ReducedLeads(orig, fl, mat.m, p.n, mat.n - nindep);
      mat.ImpossibleIff(orig, p.n);
      impossibleSample := mat.IsImpossibleSystem();
    }

    /** A second pass without zero rows is followed by marking and sweeping: its dependencies are well formed, and
        the output positions are as many as the needed rows. */
    lemma ReadyToSweep(orig: seq<Cells>, p: int)
      requires Valid() && AllLead() && Recorded(orig, NeededFlags(xinfo), mat.Contents(), eqdeps, mat.m, p)
      requires LeadsAsLearned(xinfo, mat.Contents(), zeroOpt, |zerodeps|, nndeps) && |zerodeps| + |outeqPos| == nndeps
      ensures WellFormedDeps(eqdeps) && |eqdeps| == mat.n && |outeqPos| == |Positions(Wanted(), mat.n)|
    {
      hide SparseMatrix.Valid, Reduced, Independent, IsPrime, AllWellFormed, ListsDeps, Positions, PassesCheck, NoZeroRow,
           LeadsAsLearned;
      ghost var rows := mat.Contents();
      PassesIffLearned(xinfo, rows, zeroOpt, |zerodeps|, nndeps);
      NoneVanished(orig, NeededFlags(xinfo), rows, eqdeps, mat.m, p);
      RecordedDeps(orig, eqdeps, Needed(NeededFlags(xinfo)), mat.m, p);
      PassedPositions(xinfo, rows, zeroOpt, |zerodeps|, nndeps);
    }

    lemma MatrixSize()
      requires Valid()
      ensures mat.n < NO_EQ && this !in mat.Repr && mat !in mat.Repr
    {
    }

    /** Marks every equation that the row of a needed variable depends on. */
    method Mark() returns (marked: array<bool>)
      requires Valid() && AllLead() && nnindepeqs == mat.n == |eqdeps| && WellFormedDeps(eqdeps)
      ensures fresh(marked) && marked.Length == nnindepeqs && MarksReached(eqdeps, Wanted(), marked[..])
    {
      hide *;
      ghost var wanted := Wanted();
      MarkFacts();
      marked := new bool[nnindepeqs](_ => false);
      NoMarks(eqdeps, wanted, marked[..]);
      for j := 0 to nnindepeqs
        invariant ClosedBut(eqdeps, marked[..], {}) && MarksSoFar(eqdeps, wanted, marked[..], j)
      {
        if mat.IsZeroRow(j) {
          break;
        }
        ghost var before := marked[..];
        if xinfo[mat.LeadOf(j)].isNeeded {
          MarkEq(eqdeps, j, marked, {});
        }
        MarkStep(eqdeps, wanted, before, marked[..], j);
      }
      ReachedMarks(eqdeps, wanted, marked[..]);
    }

    lemma MarkFacts()
      requires Valid() && AllLead()
      ensures mat.Valid()
      ensures forall j :: 0 <= j < mat.n ==> mat.Contents()[j] != [] && Lead(mat.Contents()[j]) < |xinfo|
      ensures forall j :: 0 <= j < mat.n ==> Wanted()[j] == xinfo[Lead(mat.Contents()[j])].isNeeded
    {
    }

    /** Keeps the marked equations only and forgets the dependencies. */
    method MarkAndSweepEqs() returns (ghost kept: seq<bool>)
      requires Valid() && nnindepeqs <= |indepeqs| && WellFormedDeps(eqdeps)
      requires eqdeps != [] ==> AllLead() && nnindepeqs == mat.n == |eqdeps|
      requires eqdeps != [] ==> |outeqPos| == |Positions(Wanted(), mat.n)|
      modifies this, mat`n, mat.Repr
      ensures Valid()
      ensures old(eqdeps) == [] ==> unchanged(this) && mat.Contents() == old(mat.Contents())
      ensures old(eqdeps) != [] ==> MarksReached(old(eqdeps), old(Wanted()), kept) && eqdeps == [] && markedAndSweeped
      ensures old(eqdeps) != [] ==> nnindepeqs == mat.n == |Positions(kept, old(mat.n))|
      ensures old(eqdeps) != [] ==>
        SweepStage(SweepInput(old(xinfo), old(Wanted()), old(mat.Contents()), old(mat.Ids()), kept), old(mat.n),
                   SweepResult(xinfo, indepeqs, outeqPos))
      ensures unchanged(`zerodeps) && unchanged(`nndeps) && unchanged(`nnindeps) && unchanged(`nparsout)
      ensures unchanged(`impossible) && unchanged(`learnedFirst)
    {
      hide *;
      if eqdeps == [] {
        return [];
      }
      var marked := Mark();
      kept := marked[..];
      Sweep(marked);
      Forget();
    }

    /** The matrix is cut to the equations kept. */
    method Forget()
      requires Valid() && nnindepeqs <= mat.n
      modifies this, mat`n, mat.Repr
      ensures Valid() && mat.n == nnindepeqs && eqdeps == [] && markedAndSweeped
      ensures unchanged(`xinfo) && unchanged(`indepeqs) && unchanged(`outeqPos) && unchanged(`nnindepeqs)
      ensures unchanged(`zerodeps) && unchanged(`nndeps) && unchanged(`nnindeps) && unchanged(`nparsout)
      ensures unchanged(`impossible) && unchanged(`learnedFirst) && mat.Contents() == old(mat.Contents())[..mat.n]
    {
      mat.RestrictRows(nnindepeqs);
      eqdeps := [];
      markedAndSweeped := true;
    }

    /** Records the marked equations and where the needed ones end up; flags the variables of the others. */
    method Sweep(marked: array<bool>)
      requires Valid() && AllLead() && nnindepeqs == mat.n == marked.Length == |eqdeps| <= |indepeqs|
      requires MarksReached(eqdeps, Wanted(), marked[..]) && |outeqPos| == |Positions(Wanted(), mat.n)|
      modifies `xinfo, `indepeqs, `outeqPos, `nnindepeqs
      ensures Valid() && nnindepeqs == |Positions(marked[..], mat.n)| && mat.n == old(mat.n)
      ensures SweepStage(SweepInput(old(xinfo), old(Wanted()), old(mat.Contents()), old(mat.Ids()), marked[..]), mat.n,
                         SweepResult(xinfo, indepeqs, outeqPos))
    {
      hide *;
      BeginSweep(marked);
      ghost var input := SweepInput(xinfo, Wanted(), mat.Contents(), mat.Ids(), marked[..]);
      SweepRows(marked, input);
      StageSizes(input, mat.n, SweepResult(xinfo, indepeqs, outeqPos));
      ValidIntro();
    }

    lemma BeginSweep(marked: array<bool>)
      requires Valid() && AllLead() && mat.n == marked.Length <= |indepeqs|
      requires MarksReached(eqdeps, Wanted(), marked[..]) && |outeqPos| == |Positions(Wanted(), mat.n)|
      ensures SweepStage(SweepInput(xinfo, Wanted(), mat.Contents(), mat.Ids(), marked[..]), 0,
                         SweepResult(xinfo, indepeqs, outeqPos))
      ensures mat.Valid() && this !in mat.Repr && mat !in mat.Repr && mat.m == nvars + 1 && |xinfo| == nvars + 1
    {
      hide SparseMatrix.Valid, MarksReached;
      SweepStart(eqdeps, SweepInput(xinfo, Wanted(), mat.Contents(), mat.Ids(), marked[..]),
                 SweepResult(xinfo, indepeqs, outeqPos));
    }

    method SweepRows(marked: array<bool>, ghost input: SweepInput)
      requires mat.Valid() && this !in mat.Repr && mat.n == |input.rows| == |input.wanted| == marked.Length
      requires input.rows == mat.Contents() && input.ids == mat.Ids() && input.marked == marked[..]
      requires SweepStage(input, 0, SweepResult(xinfo, indepeqs, outeqPos))
      modifies `xinfo, `indepeqs, `outeqPos, `nnindepeqs
      ensures mat.n == old(mat.n) && SweepStage(input, mat.n, SweepResult(xinfo, indepeqs, outeqPos))
      ensures nnindepeqs == |Positions(input.marked, mat.n)|
    {
      hide *;
      var newn, outeq := 0, 0;
      assert Positions(input.marked, 0) == [] && Positions(input.wanted, 0) == [];
      for i := 0 to mat.n
        modifies `xinfo, `indepeqs, `outeqPos
        invariant mat.Valid() && this !in mat.Repr && mat.n == |input.rows| && input.rows == mat.Contents() && input.ids == mat.Ids() && input.marked == marked[..]
        invariant newn == |Positions(input.marked, i)| && outeq == |Positions(input.wanted, i)|
        invariant SweepStage(input, i, SweepResult(xinfo, indepeqs, outeqPos))
      {
        SweepStep(input, i, SweepResult(xinfo, indepeqs, outeqPos));
        var depv := mat.LeadOf(i);
        assert marked[i] == input.marked[i];
        if marked[i] {
          indepeqs := indepeqs[newn := mat.IdOf(i)];
          if xinfo[depv].isNeeded {
            outeqPos := outeqPos[outeq := newn];
            outeq := outeq + 1;
          }
          newn := newn + 1;
        } else {
          xinfo := xinfo[depv := xinfo[depv].(isSweeped := true)];
        }
      }
      nnindepeqs := newn;
    }

    lemma ValidIntro()
      requires this !in mat.Repr && mat !in mat.Repr && mat.Valid() && mat.m == nvars + 1 && |xinfo| == nvars + 1
      ensures Valid()
    {
    }
  }
}
