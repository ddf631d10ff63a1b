/** The dense linear solver: both learning passes and the evaluation (src/alg_linear_solver.cc:20-330). */
module DenseSolver {
  import opened Common
  import opened ModArith
  import opened LinearAlgebra
  import opened Elimination
  import opened ReducedSystem
  import opened DenseMatrix
  import opened DenseLearning
  import opened ReducedUnique
  import opened DenseEvaluation
  import opened FFMod

  /** The flags of one variable (LSVar). */
  datatype VarInfo = VarInfo(isDep: bool, isNeeded: bool, isNonZero: bool)

  datatype Stage = FirstStage | SecondStage

  /** The variables flagged zero. */
  function ZeroFlags(xinfo: seq<VarInfo>, nvars: nat): (z: seq<bool>)
    requires nvars <= |xinfo|
    ensures |z| == nvars && forall j :: 0 <= j < nvars ==> z[j] == !xinfo[j].isNonZero
  {
    seq(nvars, j requires 0 <= j < nvars => !xinfo[j].isNonZero)
  }

  class DenseLinearSolver {
    const nvars: nat
    /** The matrix seen through nvars + 1 columns; each row has one more, for its number. */
    const mv: MatrixView
    var xinfo: seq<VarInfo>
    var depv: seq<nat>
    var indepv: seq<nat>
    var indepeqs: seq<nat>
    var zeroVars: nat
    /** Only the coefficients of the homogeneous system are put out. */
    const homog: bool
    /** The needed dependent and independent variables. */
    var neededDep: seq<nat>
    var neededIndep: seq<nat>
    var nndeps: nat
    var nnindeps: nat
    var nparsout: nat
    /** The pivots of the sample the flags were learned from, and its reduced form. */
    ghost var learned: seq<nat>
    ghost var learnedForm: seq<Row>
    var impossible: bool
    var stage: Stage

    constructor (nvars: nat, mv: MatrixView, homog: bool)
      requires mv.m == nvars + 1
      ensures this.nvars == nvars && this.mv == mv && this.homog == homog
      ensures neededDep == [] && neededIndep == [] && nndeps == nnindeps == nparsout == 0
      ensures learned == [] && learnedForm == [] && depv == [] && indepv == [] && indepeqs == []
      ensures xinfo == seq(nvars + 1, _ => VarInfo(false, false, false))
      ensures zeroVars == 0 && !impossible && stage == FirstStage
    {
      this.nvars, this.mv, this.homog := nvars, mv, homog;
      neededDep, neededIndep, nndeps, nnindeps, nparsout := [], [], 0, 0, 0;
      learned, learnedForm := [], [];
      xinfo := seq(nvars + 1, _ => VarInfo(false, false, false));
      depv, indepv, indepeqs := [], [], [];
      zeroVars, impossible, stage := 0, false, FirstStage;
    }

    ghost predicate Valid()
      reads this, mv.rows
    {
      && mv.Valid() && mv.m == nvars + 1 && |xinfo| == nvars + 1
      && forall i :: 0 <= i < mv.n ==> mv.rows[i].Length == nvars + 2
    }

    /** The flags before a sample has been looked at: needed are the variables asked for. */
    ghost predicate IsReset(needed: seq<nat>)
      reads this
    {
      && |xinfo| == nvars + 1 && (forall j :: 0 <= j <= nvars ==> xinfo[j] == VarInfo(false, j in needed, true))
      && depv == [] && indepv == [] && indepeqs == Identity(mv.n)
    }

    method Reset(needed: seq<nat>)
      requires Valid() && forall i :: 0 <= i < |needed| ==> needed[i] < nvars
      modifies this
      ensures Valid()
      ensures forall j :: 0 <= j <= nvars ==> xinfo[j] == VarInfo(false, j in needed, true)
      ensures IsReset(needed) && impossible == old(impossible) && stage == old(stage)
    {
      depv, indepv := [], [];
      xinfo := seq(mv.m, _ => VarInfo(false, false, true));
      for i := 0 to |needed|
        modifies `xinfo
        invariant |xinfo| == mv.m
        invariant forall j :: 0 <= j <= nvars ==> xinfo[j] == VarInfo(false, j in needed[..i], true)
      {
        xinfo := xinfo[needed[i] := xinfo[needed[i]].(isNeeded := true)];
        assert needed[..i + 1] == needed[..i] + [needed[i]];
      }
      assert needed[..|needed|] == needed;
      indepeqs := seq(mv.n, i => i);
    }

    /** Each row of the matrix, in its present position, is given its number. */
    method NumberEqs()
      requires Valid()
      modifies mv.Cells()
      ensures Valid()
      ensures forall i :: 0 <= i < mv.n ==> mv.rows[i][mv.m] == i
    {
      for i := 0 to mv.n
        invariant forall l :: 0 <= l < i ==> mv.rows[l][mv.m] == l
      {
        mv.rows[i][mv.m] := i;
      }
    }

    method GetDependentVariables(ghost piv: seq<nat>)
      requires Valid() && Reduced(mv.Contents(), piv, mv.m)
      modifies this
      ensures Valid() && depv == VariablePivots(piv, mv.m)
      ensures forall j :: 0 <= j <= nvars ==> xinfo[j] == if j in depv then old(xinfo[j]).(isDep := true) else old(xinfo[j])
      ensures ListsUnflagged(indepv, xinfo, nvars)
      ensures indepeqs == old(indepeqs) && zeroVars == old(zeroVars) && impossible == old(impossible) && stage == old(stage)
    {
      hide Reduced, VariablePivots, Unflagged, ListsUnflagged;
      VariablePivotRange(mv.Contents(), piv, mv.m);
      ghost var cur := mv.Contents();
      indepv := [];
      assert mv.Contents() == cur;
      depv := mv.DependentVars(piv);
      FlagDependent();
      CollectIndependent();
      UnflaggedLists(xinfo, nvars);
    }

    method FlagDependent()
      requires |xinfo| == nvars + 1 && forall i :: 0 <= i < |depv| ==> depv[i] <= nvars
      modifies `xinfo
      ensures |xinfo| == nvars + 1
      ensures forall j :: 0 <= j <= nvars ==> xinfo[j] == if j in depv then old(xinfo[j]).(isDep := true) else old(xinfo[j])
    {
      ghost var was := xinfo;
      for i := 0 to |depv|
        invariant |xinfo| == nvars + 1
        invariant forall j :: 0 <= j <= nvars ==> xinfo[j] == if j in depv[..i] then was[j].(isDep := true) else was[j]
      {
        xinfo := xinfo[depv[i] := xinfo[depv[i]].(isDep := true)];
        assert depv[..i + 1] == depv[..i] + [depv[i]];
      }
      assert depv[..|depv|] == depv;
    }

    method CollectIndependent()
      requires |xinfo| == nvars + 1 && indepv == []
      modifies `indepv
      ensures indepv == Unflagged(xinfo, nvars)
    {
      for i := 0 to nvars
        invariant indepv == Unflagged(xinfo, i)
      {
        if !xinfo[i].isDep {
          indepv := indepv + [i];
        }
      }
    }

    /** A dependent variable is zero when its row has no other entry. */
    method LearnZeroes(ghost piv: seq<nat>)
      requires Valid() && Reduced(mv.Contents(), piv, mv.m) && depv == VariablePivots(piv, mv.m)
      requires forall j :: 0 <= j <= nvars ==> xinfo[j].isNonZero
      modifies `xinfo, `zeroVars
      ensures Valid() && ZeroesRead(mv.Contents(), piv, ZeroFlags(xinfo, nvars), mv.m)
      ensures forall j :: 0 <= j <= nvars ==> xinfo[j] == old(xinfo[j]).(isNonZero := xinfo[j].isNonZero)
      ensures Shape(mv.Contents(), mv.m) && |depv| <= mv.n && forall a :: 0 <= a < |depv| ==> depv[a] < mv.m
      ensures zeroVars == |ZeroSet(xinfo, nvars)|
    {
      hide Reduced, VariablePivots, ZeroRowBefore, ZeroesRead, SaysZero, ZeroSet;
      ghost var cur := mv.Contents();
      VariablePivotFacts(cur, piv, mv.m);
      VariablePivotRange(cur, piv, mv.m);
      zeroVars := 0;
      NoZeroRowYet(cur, depv, mv.m);
      NoZeroes(xinfo, nvars);
      for eq := 0 to |depv|
        modifies `xinfo, `zeroVars
        invariant |xinfo| == mv.m
        invariant forall j :: 0 <= j <= nvars ==> xinfo[j] == old(xinfo[j]).(isNonZero := xinfo[j].isNonZero)
        invariant forall j :: 0 <= j <= nvars ==> (!xinfo[j].isNonZero <==> ZeroRowBefore(cur, depv, eq, j, mv.m))
        invariant zeroVars == |ZeroSet(xinfo, nvars)|
      {
        var dep := depv[eq];
        ZeroRowStep(cur, depv, eq, mv.m);
        NotZeroYet(cur, depv, eq, mv.m);
        var nonZero := HasEntryAfter(mv.rows[eq], dep, mv.m);
        if !nonZero {
          OneMoreZero(xinfo, dep, nvars);
          xinfo := xinfo[dep := xinfo[dep].(isNonZero := false)];
          zeroVars := zeroVars + 1;
        }
      }
      ZeroesReadIntro(cur, piv, ZeroFlags(xinfo, nvars), mv.m);
      assert mv.Contents() == cur;
    }

    /** The numbers of the pivot rows. */
    method GetIndependentEqs()
      requires Valid() && |depv| <= mv.n && forall i :: 0 <= i < mv.n ==> mv.rows[i][mv.m] >= 0
      modifies `indepeqs
      ensures Valid() && |indepeqs| == |depv|
      ensures forall i :: 0 <= i < |depv| ==> indepeqs[i] == mv.rows[i][mv.m]
    {
      indepeqs := [];
      for eq := 0 to |depv|
        modifies `indepeqs
        invariant |indepeqs| == eq
        invariant forall i :: 0 <= i < eq ==> indepeqs[i] == mv.rows[i][mv.m]
      {
        indepeqs := indepeqs + [mv.rows[eq][mv.m]];
      }
    }

    lemma Basics(p: Mod)
      requires Valid() && IsPrime(p.n)
      ensures mv.Valid() && mv.m == nvars + 1 && |xinfo| == nvars + 1 && p.n > 1
    {
    }

    /** What the first reduction has shown: the dependent variables are its pivots, the zero variables those
        whose row says so. */
    ghost predicate FirstRead(flags: seq<VarInfo>, sample: seq<Row>, first: seq<Row>, firstPiv: seq<nat>, p: int) {
      && |flags| == nvars + 1 && Shape(sample, nvars + 1) && Reduced(first, firstPiv, nvars + 1)
      && SameSolutions(sample, first, nvars + 1, p) && ZeroesRead(first, firstPiv, ZeroFlags(flags, nvars), nvars + 1)
      && forall j: nat :: j < nvars ==> (flags[j].isDep <==> j in firstPiv)
    }

    /** Reduce the sample; unless it is impossible, read off the dependent and the zero variables. */
    method LearnFirst(ghost sample: seq<Row>, p: Mod)
      returns (impossibleSample: bool, ghost first: seq<Row>, ghost firstPiv: seq<nat>)
      requires Valid() && FFMod.Valid(p) && IsPrime(p.n)
      requires MatrixInRange(mv.Contents(), mv.m, p.n) && SamePrefix(sample, mv.Contents(), mv.m)
      requires forall j :: 0 <= j <= nvars ==> xinfo[j].isNonZero && !xinfo[j].isDep
      modifies this, mv.rows, mv.Cells()
      ensures Valid() && mv.Cells() == old(mv.Cells())
      ensures impossibleSample <==> !Solvable(sample, mv.m, p.n)
      ensures !impossibleSample ==> FirstRead(xinfo, sample, first, firstPiv, p.n)
      ensures !impossibleSample ==> ZeroesForced(sample, ZeroFlags(xinfo, nvars), mv.m, p.n)
      ensures NeededFlags(xinfo, nvars) == old(NeededFlags(xinfo, nvars))
      ensures if impossibleSample then unchanged(this) else zeroVars == |ZeroSet(xinfo, nvars)|
      ensures indepeqs == old(indepeqs) && impossible == old(impossible) && stage == old(stage)
    {
      hide SameSolutions, PickedDescribe, ZeroesForced, Solvable, SamePrefix, MatrixInRange, PickSuffices, FFMod.Valid,
           FirstRead, SecondRead, IsPrime, Reduced, VariablePivots, RhsPivot, PickRows, Flagged, LearnedFrom, Shape,
           IsPermutation;
      Basics(p);
      ghost var filled := mv.Contents();
      ghost var perm;
      firstPiv, perm := Reduce(p);
      Basics(p);
      first := mv.Contents();
      FirstReduction(sample, filled, first, firstPiv, mv.m, p.n);
      impossibleSample := mv.IsImpossibleSystem(firstPiv, p.n);
      if !impossibleSample {
        ReadVariables(sample, filled, firstPiv, p);
      }
    }

    /** Dependent and zero variables of a reduced sample. */
    method ReadVariables(ghost sample: seq<Row>, ghost filled: seq<Row>, ghost piv: seq<nat>, ghost p: Mod)
      requires Valid() && Reduced(mv.Contents(), piv, mv.m) && !RhsPivot(piv, mv.m)
      requires SamePrefix(sample, filled, mv.m) && SameSolutions(filled, mv.Contents(), mv.m, p.n)
      requires forall j :: 0 <= j <= nvars ==> xinfo[j].isNonZero && !xinfo[j].isDep
      modifies this
      ensures Valid() && FirstRead(xinfo, sample, mv.Contents(), piv, p.n)
      ensures ZeroesForced(sample, ZeroFlags(xinfo, nvars), mv.m, p.n)
      ensures NeededFlags(xinfo, nvars) == old(NeededFlags(xinfo, nvars))
      ensures zeroVars == |ZeroSet(xinfo, nvars)|
      ensures indepeqs == old(indepeqs) && impossible == old(impossible) && stage == old(stage)
    {
      assert VariablePivots(piv, mv.m) == piv;
      hide SameSolutions, ZeroesRead, ZeroesForced, SamePrefix, FFMod.Valid, Reduced, VariablePivots, RhsPivot, FirstRead, ZeroSet,
           ListsUnflagged, NeededFlags;
      ghost var cur, was := mv.Contents(), xinfo;
      GetDependentVariables(piv);
      assert mv.Contents() == cur;
      LearnZeroes(piv);
      assert mv.Contents() == cur;
      FirstZeroes(sample, filled, cur, piv, ZeroFlags(xinfo, nvars), mv.m, p.n);
      assert forall j: nat :: j < nvars ==> (xinfo[j].isDep <==> j in piv);
      FirstReadIntro(sample, filled, cur, piv, p.n);
      SameNeeded(was, xinfo, nvars);
    }

    lemma FirstReadIntro(sample: seq<Row>, filled: seq<Row>, cur: seq<Row>, piv: seq<nat>, p: int)
      requires |xinfo| == nvars + 1 && Reduced(cur, piv, nvars + 1)
      requires SamePrefix(sample, filled, nvars + 1) && SameSolutions(filled, cur, nvars + 1, p)
      requires ZeroesRead(cur, piv, ZeroFlags(xinfo, nvars), nvars + 1)
      requires forall j: nat :: j < nvars ==> (xinfo[j].isDep <==> j in piv)
      ensures FirstRead(xinfo, sample, cur, piv, p)
    {
      PrefixSameSolutions(sample, filled, nvars + 1, p);
      SameSolutionsTrans(sample, filled, cur, nvars + 1, p);
    }

    /** The reduction of the whole matrix; every row keeps its number. */
    method Reduce(p: Mod) returns (ghost piv: seq<nat>, ghost perm: seq<nat>)
      requires Valid() && FFMod.Valid(p) && IsPrime(p.n) && MatrixInRange(mv.Contents(), mv.m, p.n)
      modifies mv.rows, mv.Cells()
      ensures Valid() && mv.Cells() == old(mv.Cells())
      ensures IsPermutation(perm, mv.n) && |piv| <= mv.n
      ensures Reduced(mv.Contents(), piv, mv.m) && MatrixInRange(mv.Contents(), mv.m, p.n)
      ensures SameSolutions(old(mv.Contents()), mv.Contents(), mv.m, p.n)
      ensures PickSuffices(old(mv.Contents()), perm, |piv|, mv.m, p.n)
      ensures forall i :: 0 <= i < mv.n ==> mv.rows[i][mv.m] == old(mv.Contents())[perm[i]][mv.m]
    {
      hide Reduced, SameSolutions, PickSuffices, MatrixInRange, IsReductionOf, FFMod.Valid;
      ghost var orig := mv.Contents();
      piv, perm := mv.ToReducedRowEchelon(p);
      KeepLengths(orig, mv.Contents(), perm, piv, mv.m, p.n);
      assert forall i :: 0 <= i < mv.n ==> mv.rows[i][..] == mv.Contents()[i];
    }

    /** The state the flags are in after both reductions. */
    ghost predicate Flagged()
      reads this
    {
      FlagsOf(xinfo, learned, nvars) && |depv| == |learned|
    }

    ghost predicate LearnedFrom(sample: seq<Row>, p: int)
      reads this
    {
      |xinfo| == nvars + 1
      && LearnedSystem(learnedForm, learned, indepeqs, ZeroFlags(xinfo, nvars), sample, nvars + 1, p)
    }

    /** Reduce the sample again without its zero variables and keep the equations of the pivots. */
    method LearnSecond(sample: seq<Row>, p: Mod, ghost first: seq<Row>, ghost firstPiv: seq<nat>)
      requires Valid() && FFMod.Valid(p) && IsPrime(p.n)
      requires |sample| == mv.n && MatrixInRange(sample, mv.m, p.n)
      requires forall i :: 0 <= i < mv.n ==> |sample[i]| == mv.m
      requires Solvable(sample, mv.m, p.n) && ZeroesForced(sample, ZeroFlags(xinfo, nvars), mv.m, p.n)
      requires FirstRead(xinfo, sample, first, firstPiv, p.n)
      modifies this, mv.rows, mv.Cells()
      ensures Valid() && impossible == old(impossible)
      ensures forall i :: 0 <= i < |indepeqs| ==> indepeqs[i] < mv.n
      ensures PickedDescribe(sample, indepeqs, ZeroFlags(xinfo, nvars), mv.m, p.n)
      ensures Flagged() && LearnedFrom(sample, p.n) && depv == learned && |indepeqs| == |learned|
      ensures mv.Contents() == learnedForm && NeededFlags(xinfo, nvars) == old(NeededFlags(xinfo, nvars))
      ensures ZeroFlags(xinfo, nvars) == old(ZeroFlags(xinfo, nvars)) && zeroVars == old(zeroVars) && stage == old(stage)
    {
      hide SameSolutions, PickedDescribe, ZeroesForced, Solvable, SamePrefix, MatrixInRange, PickSuffices, FFMod.Valid,
           FirstRead, SecondRead, IsPrime, Reduced, VariablePivots, RhsPivot, PickRows, Flagged, LearnedFrom, Shape,
           IsPermutation;
      Basics(p);
      ghost var flags := xinfo;
      ghost var piv, perm := ReduceSecond(sample, p, first, firstPiv);
      Basics(p);
      ghost var cur := mv.Contents();
      KeepPivotEquations(piv, perm);
      Basics(p);
      learned, learnedForm := piv, cur;
      LearnedIntro(sample, flags, perm, p.n);
    }

    /** The second reduction; the numbers in the pivot rows are those of equations that suffice. */
    method ReduceSecond(sample: seq<Row>, p: Mod, ghost first: seq<Row>, ghost firstPiv: seq<nat>)
      returns (ghost piv: seq<nat>, ghost perm: seq<nat>)
      requires Valid() && FFMod.Valid(p) && IsPrime(p.n)
      requires |sample| == mv.n && MatrixInRange(sample, mv.m, p.n)
      requires forall i :: 0 <= i < mv.n ==> |sample[i]| == mv.m
      requires Solvable(sample, mv.m, p.n) && ZeroesForced(sample, ZeroFlags(xinfo, nvars), mv.m, p.n)
      requires FirstRead(xinfo, sample, first, firstPiv, p.n)
      modifies mv.rows, mv.Cells()
      ensures Valid() && Reduced(mv.Contents(), piv, mv.m) && VariablePivots(piv, mv.m) == piv
      ensures MatrixInRange(mv.Contents(), mv.m, p.n)
      ensures |perm| == mv.n && forall i :: 0 <= i < mv.n ==> mv.rows[i][mv.m] == perm[i] < mv.n
      ensures |piv| <= mv.n && PickedDescribe(sample, perm[..|piv|], ZeroFlags(xinfo, nvars), mv.m, p.n)
      ensures SecondRead(xinfo, sample, mv.Contents(), piv, perm, p.n)
    {
      hide SameSolutions, PickedDescribe, ZeroesForced, Solvable, SamePrefix, MatrixInRange, PickSuffices, FFMod.Valid,
           FirstRead, SecondRead, IsPrime, Reduced, VariablePivots, RhsPivot, PickRows, Shape;
      Basics(p);
      RowsShape(sample, mv.m);
      ghost var zero := ZeroFlags(xinfo, nvars);
      RestoreWithoutZeroes(sample, p);
      ghost var filled := mv.Contents();
      piv, perm := Reduce(p);
      ghost var cur := mv.Contents();
      SecondReduction(sample, zero, filled, cur, perm, piv, mv.m, p.n);
      SecondLearned(sample, zero, filled, cur, perm, piv, first, firstPiv, p.n);
    }

    /** What the second reduction has shown. */
    ghost predicate SecondRead(flags: seq<VarInfo>, sample: seq<Row>, cur: seq<Row>, piv: seq<nat>, perm: seq<nat>, p: int) {
      && |flags| == nvars + 1 && Shape(sample, nvars + 1) && Shape(cur, nvars + 1)
      && |piv| <= |perm| && (forall i :: 0 <= i < |perm| ==> perm[i] < |sample|)
      && Shape(PickRows(ZeroColumnsAll(sample, ZeroFlags(flags, nvars)), perm[..|piv|]), nvars + 1)
      && SameSolutions(ZeroColumnsAll(sample, ZeroFlags(flags, nvars)), cur, nvars + 1, p)
      && SameSolutions(ZeroColumnsAll(sample, ZeroFlags(flags, nvars)),
                       PickRows(ZeroColumnsAll(sample, ZeroFlags(flags, nvars)), perm[..|piv|]), nvars + 1, p)
      && (forall c: nat :: c < nvars ==> (flags[c].isDep || c in piv <==> c in piv || !flags[c].isNonZero))
      && (forall c: nat :: c < nvars && c in piv ==> flags[c].isNonZero)
      && Increasing(piv) && forall a :: 0 <= a < |piv| ==> piv[a] < nvars
    }

    lemma SecondLearned(sample: seq<Row>, zero: seq<bool>, filled: seq<Row>, cur: seq<Row>, perm: seq<nat>, piv: seq<nat>,
                        first: seq<Row>, firstPiv: seq<nat>, p: int)
      requires p > 1 && FirstRead(xinfo, sample, first, firstPiv, p) && zero == ZeroFlags(xinfo, nvars)
      requires SamePrefix(filled, ZeroColumnsAll(sample, zero), nvars + 1)
      requires Reduced(cur, piv, nvars + 1) && SameSolutions(filled, cur, nvars + 1, p) && VariablePivots(piv, nvars + 1) == piv
      requires |piv| <= |perm| && forall i :: 0 <= i < |perm| ==> perm[i] < |sample|
      requires PickSuffices(filled, perm, |piv|, nvars + 1, p)
      ensures SecondRead(xinfo, sample, cur, piv, perm, p)
    {
      SecondPass(sample, zero, filled, cur, perm, piv, first, firstPiv, nvars + 1, p);
      VariablePivotRange(cur, piv, nvars + 1);
      assert forall c: nat :: c < nvars ==> zero[c] == !xinfo[c].isNonZero;
      hide SameSolutions, PickSuffices, SamePrefix, VariablePivots, ZeroesRead;
    }

    /** After the pivot equations have been kept; flags are those before. */
    lemma LearnedIntro(sample: seq<Row>, flags: seq<VarInfo>, perm: seq<nat>, p: int)
      requires |xinfo| == nvars + 1 == |flags| && depv == learned && ZeroFlags(xinfo, nvars) == ZeroFlags(flags, nvars)
      requires forall j: nat :: j < nvars ==> (xinfo[j].isDep <==> j in learned || flags[j].isDep)
      requires SecondRead(flags, sample, learnedForm, learned, perm, p)
      requires Reduced(learnedForm, learned, nvars + 1) && MatrixInRange(learnedForm, nvars + 1, p)
      requires indepeqs == perm[..|learned|]
      ensures Flagged() && LearnedFrom(sample, p)
    {
      assert forall j: nat :: j < nvars ==> ZeroFlags(flags, nvars)[j] == !xinfo[j].isNonZero;
      hide SameSolutions, Reduced, MatrixInRange;
    }

    /** The numbers found in the pivot rows are the original positions of those rows. */
    method KeepPivotEquations(ghost piv: seq<nat>, ghost perm: seq<nat>)
      requires Valid() && Reduced(mv.Contents(), piv, mv.m) && VariablePivots(piv, mv.m) == piv
      requires |perm| == mv.n && forall i :: 0 <= i < mv.n ==> mv.rows[i][mv.m] == perm[i]
      modifies this
      ensures Valid() && impossible == old(impossible) && zeroVars == old(zeroVars) && stage == old(stage)
      ensures |piv| <= mv.n && indepeqs == perm[..|piv|] && depv == piv
      ensures ZeroFlags(xinfo, nvars) == old(ZeroFlags(xinfo, nvars)) && NeededFlags(xinfo, nvars) == old(NeededFlags(xinfo, nvars))
      ensures forall j: nat :: j < nvars ==> (xinfo[j].isDep <==> j in piv || old(xinfo[j].isDep))
    {
      hide Reduced;
      VariablePivotFacts(mv.Contents(), piv, mv.m);
      GetDependentVariables(piv);
      GetIndependentEqs();
    }

    /** Number the rows, write the sample back and clear its zero variables. */
    method RestoreWithoutZeroes(sample: seq<Row>, p: Mod)
      requires Valid() && p.n > 1 && |sample| == mv.n && MatrixInRange(sample, mv.m, p.n)
      requires forall i :: 0 <= i < mv.n ==> |sample[i]| == mv.m
      modifies mv.Cells()
      ensures Valid()
      ensures SamePrefix(mv.Contents(), ZeroColumnsAll(sample, ZeroFlags(xinfo, nvars)), mv.m)
      ensures MatrixInRange(mv.Contents(), mv.m, p.n)
      ensures forall i :: 0 <= i < mv.n ==> mv.Contents()[i][mv.m] == i
    {
      hide SamePrefix, MatrixInRange;
      NumberEqs();
      FillMatrix(mv, sample);
      ghost var written := mv.Contents();
      ReplaceZeroes(mv, xinfo, nvars);
      ZeroColumnsPrefix(sample, written, mv.Contents(), ZeroFlags(xinfo, nvars), mv.m, p.n);
    }

    // ---- the needed variables ----

    /** The lists hold the needed variables that are not zero, and cover the rows of the needed dependent ones. */
    ghost predicate Listed()
      reads this
    {
      && FlagsOf(xinfo, learned, nvars)
      && neededDep == NeededOf(learned, NeededFlags(xinfo, nvars), |learned|)
      && neededIndep == Listing(xinfo, false, nvars)
      && nndeps == |neededDep| && nnindeps == |neededIndep|
      && AllCovered(learnedForm, learned, NeededFlags(xinfo, nvars), neededIndep, nvars + 1)
    }

    /** Marks the variables that the rows of needed ones contain, and lists the needed ones. */
    method LearnNeeded(ghost sample: seq<Row>, ghost p: int)
      requires Valid() && p > 1 && Flagged() && LearnedFrom(sample, p) && depv == learned && mv.Contents() == learnedForm
      modifies `xinfo, `neededDep, `neededIndep, `nndeps, `nnindeps
      ensures Valid() && Flagged() && LearnedFrom(sample, p) && Listed()
      ensures MarkedFlags(old(xinfo), xinfo, learnedForm, learned, nvars)
      ensures ZeroFlags(xinfo, nvars) == old(ZeroFlags(xinfo, nvars))
      ensures NeededOf(learned, old(NeededFlags(xinfo, nvars)), |learned|) == neededDep
    {
      hide LearnedSystem, FlagsOf, MarkedFlags, AllCovered, Listing, NeededOf, ZeroFlags, NeededFlags;
      ghost var was := xinfo;
      FlagFacts(xinfo, learned, nvars);
      LearnedReduced(learnedForm, learned, indepeqs, ZeroFlags(xinfo, nvars), sample, nvars + 1, p);
      var marked, n := MarkNeeded(mv, xinfo, depv, nvars);
      assert mv.Contents() == learnedForm;
      assert MarkedFlags(was, marked, learnedForm, learned, nvars);
      xinfo, nndeps := marked, n;
      MarkedKeeps(was, xinfo, learnedForm, learned, nvars);
      FlagFacts(xinfo, learned, nvars);
      nnindeps := CountIndependent(xinfo, nvars);
      neededDep, neededIndep := ListNeeded(xinfo, nvars);
      NeededListed(was, xinfo, learnedForm, learned, indepeqs, sample, nvars, p);
    }

    /** First learning pass on a sampled system. An impossible sample is recognised; otherwise the
        kept equations together with the variables learned to be zero have exactly the solutions of
        the full sampled system. A failed evaluation of the sample leaves the stage as it was. */
    method Learn1(filled: Option<seq<Row>>, needed: seq<nat>, p: Mod) returns (success: bool)
      requires Valid() && FFMod.Valid(p) && IsPrime(p.n)
      requires forall i :: 0 <= i < |needed| ==> needed[i] < nvars
      requires filled.Some? ==> |filled.value| == mv.n && MatrixInRange(filled.value, mv.m, p.n)
      requires filled.Some? ==> forall i :: 0 <= i < mv.n ==> |filled.value[i]| == mv.m
      modifies this, mv.rows, mv.Cells()
      ensures Valid() && success == filled.Some?
      ensures !success ==> stage == old(stage) && impossible == old(impossible) && IsReset(needed)
      ensures success ==> stage == SecondStage
      ensures success && !Solvable(filled.value, mv.m, p.n) ==> impossible && IsReset(needed)
      ensures success && Solvable(filled.value, mv.m, p.n) ==>
        && impossible == old(impossible)
        && (forall i :: 0 <= i < |indepeqs| ==> indepeqs[i] < mv.n)
        && PickedDescribe(filled.value, indepeqs, ZeroFlags(xinfo, nvars), mv.m, p.n)
        && Flagged() && LearnedFrom(filled.value, p.n) && Listed() && |indepeqs| == |learned|
        && AskedFor(needed) && zeroVars == |ZeroSet(xinfo, nvars)|
    {
      hide PickedDescribe, Solvable, FFMod.Valid, FlagsOf, LearnedSystem, MatrixInRange, AllCovered, Listing, NeededOf,
           NeededAs;
      Reset(needed);
      if filled.None? {
        return false;
      }
      LearnSample(filled.value, p, needed);
      stage := SecondStage;
      return true;
    }

    /** Both reductions of a sample, from fresh flags. */
    method LearnSample(sample: seq<Row>, p: Mod, ghost needed: seq<nat>)
      requires Valid() && FFMod.Valid(p) && IsPrime(p.n)
      requires |sample| == mv.n && MatrixInRange(sample, mv.m, p.n)
      requires forall i :: 0 <= i < mv.n ==> |sample[i]| == mv.m
      requires IsReset(needed)
      modifies this, mv.rows, mv.Cells()
      ensures Valid() && stage == old(stage)
      ensures !Solvable(sample, mv.m, p.n) ==> impossible && IsReset(needed)
      ensures Solvable(sample, mv.m, p.n) ==>
        && impossible == old(impossible)
        && (forall i :: 0 <= i < |indepeqs| ==> indepeqs[i] < mv.n)
        && PickedDescribe(sample, indepeqs, ZeroFlags(xinfo, nvars), mv.m, p.n)
        && Flagged() && LearnedFrom(sample, p.n) && Listed() && |indepeqs| == |learned|
        && AskedFor(needed) && zeroVars == |ZeroSet(xinfo, nvars)|
    {
      hide PickedDescribe, ZeroesForced, Solvable, FFMod.Valid, FlagsOf, LearnedSystem, MarkedFlags, FirstRead,
           SamePrefix, Reduced, IsPrime, AllCovered, Listing, NeededOf, NeededAs, NeededFlags, ZeroFlags, ZeroSet;
      FillMatrix(mv, sample);
      PrefixRange(sample, mv.Contents(), mv.m, p.n);
      ghost var flags := xinfo;
      ghost var first, firstPiv;
      var impossibleSample;
      impossibleSample, first, firstPiv := LearnFirst(sample, p);
      if impossibleSample {
        impossible := true;
      } else {
        WantedFlags(flags, needed, nvars);
        LearnRest(sample, p, first, firstPiv, needed);
      }
    }

    /** What follows the first reduction of a sample that has a solution. */
    method LearnRest(sample: seq<Row>, p: Mod, ghost first: seq<Row>, ghost firstPiv: seq<nat>, ghost needed: seq<nat>)
      requires Valid() && FFMod.Valid(p) && IsPrime(p.n)
      requires |sample| == mv.n && MatrixInRange(sample, mv.m, p.n)
      requires forall i :: 0 <= i < mv.n ==> |sample[i]| == mv.m
      requires Solvable(sample, mv.m, p.n) && ZeroesForced(sample, ZeroFlags(xinfo, nvars), mv.m, p.n)
      requires FirstRead(xinfo, sample, first, firstPiv, p.n)
      requires AreWanted(NeededFlags(xinfo, nvars), needed) && zeroVars == |ZeroSet(xinfo, nvars)|
      modifies this, mv.rows, mv.Cells()
      ensures Valid() && stage == old(stage) && impossible == old(impossible)
      ensures forall i :: 0 <= i < |indepeqs| ==> indepeqs[i] < mv.n
      ensures PickedDescribe(sample, indepeqs, ZeroFlags(xinfo, nvars), mv.m, p.n)
      ensures Flagged() && LearnedFrom(sample, p.n) && Listed() && |indepeqs| == |learned|
      ensures AskedFor(needed) && zeroVars == |ZeroSet(xinfo, nvars)|
    {
      hide PickedDescribe, ZeroesForced, Solvable, FFMod.Valid, FlagsOf, LearnedSystem, MarkedFlags, FirstRead,
           SamePrefix, Reduced, IsPrime, AllCovered, Listing, NeededOf, NeededAs, NeededFlags, ZeroFlags, ZeroSet, AreWanted,
           MatrixInRange;
      ghost var start := xinfo;
      LearnSecond(sample, p, first, firstPiv);
      Basics(p);
      ghost var was := xinfo;
      LearnNeeded(sample, p.n);
      ZeroSetSame(start, xinfo, nvars);
      FlagFacts(xinfo, learned, nvars);
      NeededAsIntro(was, xinfo, needed, learnedForm, learned, neededDep, nvars);
    }

    /** The variables flagged needed and listed as needed are those asked for and those in their rows. */
    ghost predicate AskedFor(needed: seq<nat>)
      reads this
    {
      NeededAs(xinfo, needed, learnedForm, learned, neededDep, nvars)
    }

    // ---- evaluation ----

    /** The new pivots must be the learned ones: as many, and all flagged. */
    method CheckDependentVariables(view: MatrixView, ghost piv: seq<nat>) returns (success: bool)
      requires Flagged() && view.Valid() && view.m == nvars + 1 && Reduced(view.Contents(), piv, view.m)
      requires forall c: nat :: c < nvars && c in piv ==> xinfo[c].isNonZero
      modifies `depv
      ensures Flagged() && (success <==> VariablePivots(piv, view.m) == learned) && (success ==> depv == learned)
    {
      hide Reduced, VariablePivots, RhsPivot;
      VariablePivotFacts(view.Contents(), piv, view.m);
      VariablePivotRange(view.Contents(), piv, view.m);
      PivotsInside(piv, view.m);
      var ndeps := |depv|;
      depv := view.DependentVars(piv);
      ghost var vp := depv;
      if ndeps != |depv| {
        depv := if |depv| > ndeps then depv[..ndeps] else depv + seq(ndeps - |depv|, _ => 0);
        return false;
      }
      for i := 0 to |depv|
        invariant forall a :: 0 <= a < i ==> vp[a] in learned
      {
        if !xinfo[depv[i]].isDep {
          assert depv[i] in vp;
          return false;
        }
      }
      IncreasingInside(vp, learned);
      return true;
    }

    /** The sample, without its zero variables, reduced in the rows of the view. */
    method ReduceView(view: MatrixView, sample: seq<Row>, p: Mod) returns (ghost cur: seq<Row>, ghost piv: seq<nat>)
      requires FFMod.Valid(p) && IsPrime(p.n) && view.Valid() && view.m == nvars + 1 && |xinfo| == nvars + 1
      requires Fits(sample, view.n, view.m, p.n)
      modifies view.rows, view.Cells()
      ensures view.Valid() && cur == view.Contents()
      ensures ReducedSample(cur, piv, sample, ZeroFlags(xinfo, nvars), view.m, p.n)
    {
      hide SameSolutions, SamePrefix, MatrixInRange, PickSuffices, FFMod.Valid, Reduced, ZeroFlags, Shape, IsReductionOf;
      RowsShape(sample, view.m);
      ghost var zero := ZeroFlags(xinfo, nvars);
      FillMatrix(view, sample);
      ghost var written := view.Contents();
      ReplaceZeroes(view, xinfo, nvars);
      ghost var filled := view.Contents();
      FieldPositive(p);
      ZeroColumnsPrefix(sample, written, filled, zero, view.m, p.n);
      ghost var perm;
      piv, perm := view.ToReducedRowEchelon(p);
      cur := view.Contents();
      KeepLengths(filled, cur, perm, piv, view.m, p.n);
      ReducedShape(cur, piv, view.m);
      PrefixSame(sample, zero, filled, cur, view.m, p.n);
    }

    /** Reading the pivots off a reduced sample: an impossible one, one with other pivots than the learned ones, or
        one like the sample that was learned from. */
    method CheckReduced(view: MatrixView, ghost sample: seq<Row>, ghost piv: seq<nat>, ghost p: int)
      returns (impossibleSample: bool, success: bool)
      requires Flagged() && p > 1 && view.Valid() && view.m == nvars + 1
      requires ReducedSample(view.Contents(), piv, sample, ZeroFlags(xinfo, nvars), view.m, p)
      modifies `depv
      ensures Flagged() && (impossibleSample <==> RhsPivot(piv, view.m))
      ensures (success <==> piv == learned) && (success ==> depv == learned && !impossibleSample)
    {
      hide SameSolutions, MatrixInRange, Reduced, RhsPivot, FlagsOf, Shape, ZeroFlags;
      FlagFacts(xinfo, learned, nvars);
      ghost var cur := view.Contents();
      impossibleSample := view.IsImpossibleSystem(piv, p);
      assert view.Contents() == cur;
      if impossibleSample {
        ImpossiblePivots(piv, learned, nvars);
        return true, false;
      }
      PossiblePivots(piv, view.m);
      PivotsNonZero(sample, xinfo, cur, piv, nvars, p);
      success := CheckDependentVariables(view, piv);
    }

    /** Second learning pass: a sample must be impossible like the first one, or have the learned pivots. */
    method Learn2(view: MatrixView, filled: Option<seq<Row>>, p: Mod)
      returns (success: bool, ghost cur: seq<Row>, ghost piv: seq<nat>)
      requires Flagged() && FFMod.Valid(p) && IsPrime(p.n) && view.Valid() && view.m == nvars + 1
      requires filled.Some? ==> Fits(filled.value, view.n, view.m, p.n)
      modifies `depv, `stage, `nparsout, view.rows, view.Cells()
      ensures Flagged()
      ensures filled.Some? ==> ReducedSample(cur, piv, filled.value, ZeroFlags(xinfo, nvars), view.m, p.n)
      ensures success <==> filled.Some? && if RhsPivot(piv, view.m) then impossible else piv == learned
      ensures stage == if filled.Some? && !success then FirstStage else old(stage)
      ensures success && !RhsPivot(piv, view.m) ==> nparsout == Times(nndeps, nnindeps + if homog then 0 else 1)
    {
      hide ReducedSample, FFMod.Valid, RhsPivot, FlagsOf, ZeroFlags, Times, Fits;
      cur, piv := [], [];
      if filled.None? {
        return false, [], [];
      }
      FlagFacts(xinfo, learned, nvars);
      FieldPositive(p);
      cur, piv := ReduceView(view, filled.value, p);
      var impossibleSample;
      impossibleSample, success := CheckReduced(view, filled.value, piv, p.n);
      if impossibleSample {
        success := impossible;
      }
      if !success {
        stage := FirstStage;
      } else if !impossibleSample {
        nparsout := Times(nndeps, nnindeps + if homog then 0 else 1);
      }
    }

    /** The coefficients of the needed dependent variables, unless the sample cannot be filled, has no solution,
        or has other pivots than the learned ones. */
    method Evaluate(view: MatrixView, filled: Option<seq<Row>>, p: Mod)
      returns (res: Option<seq<int>>, ghost cur: seq<Row>, ghost piv: seq<nat>)
      requires Flagged() && Listed() && FFMod.Valid(p) && IsPrime(p.n) && view.Valid() && view.m == nvars + 1
      requires filled.Some? ==> Fits(filled.value, view.n, view.m, p.n)
      modifies `depv, view.rows, view.Cells()
      ensures Flagged() && Listed()
      ensures filled.Some? ==> ReducedSample(cur, piv, filled.value, ZeroFlags(xinfo, nvars), view.m, p.n)
      ensures res.Some? <==> filled.Some? && piv == learned
      ensures res.Some? ==> PutsOut(res.value, cur, learned, NeededFlags(xinfo, nvars), neededIndep, homog, view.m, p.n)
    {
      hide ReducedSample, FFMod.Valid, RhsPivot, FlagsOf, ZeroFlags, Times, AllCovered, NeededOf, Listing, PutsOut,
           NeededFlags, Fits;
      cur, piv := [], [];
      if filled.None? {
        return None, [], [];
      }
      FlagFacts(xinfo, learned, nvars);
      FieldPositive(p);
      cur, piv := ReduceView(view, filled.value, p);
      var impossibleSample, success := CheckReduced(view, filled.value, piv, p.n);
      if !success {
        return None, cur, piv;
      }
      assert cur == view.Contents();
      SampleShape(cur, piv, filled.value, ZeroFlags(xinfo, nvars), view.m, p.n);
      ListingRange(xinfo, false, nvars);
      var out := PutOut(view, depv, xinfo, neededIndep, homog, nvars, p.n);
      assert cur == view.Contents();
      PutsOutIntro(out, cur, learned, NeededFlags(xinfo, nvars), neededIndep, homog, view.m, p.n);
      res := Some(out);
    }

    /** Learning from a sample and evaluating the equations kept at the same point: the output exists, and the block
        of each needed dependent variable gives its value in every solution of the full sampled system. */
    lemma EvaluationIsSolution(sample: seq<Row>, cur: seq<Row>, piv: seq<nat>, out: seq<int>, a: nat, x: Row, p: int)
      requires p > 1 && Flagged() && Listed() && LearnedFrom(sample, p)
      requires PicksReduced(cur, piv, sample, indepeqs, ZeroFlags(xinfo, nvars), nvars + 1, p)
      requires PutsOut(out, cur, learned, NeededFlags(xinfo, nvars), neededIndep, homog, nvars + 1, p)
      requires a < |learned| && learned[a] < nvars && xinfo[learned[a]].isNeeded
      requires homog ==> NoConstant(learnedForm, a, nvars + 1)
      requires Shape(sample, nvars + 1) && |x| == nvars && IsSolution(sample, x, nvars + 1, p)
      ensures piv == learned
      ensures BlockAnswers(out, learned, NeededFlags(xinfo, nvars), neededIndep, homog, a, x, p)
    {
      hide LearnedSystem, AllCovered, PicksReduced, PutsOut, Listing, BlockAnswers, IsSolution, Shape;
      ListingRange(xinfo, false, nvars);
      forall l | 0 <= l < |neededIndep|
        ensures neededIndep[l] !in learned
      {
        assert neededIndep[l] in neededIndep;
      }
      hide FlagsOf;
      OutputsRight(sample, indepeqs, ZeroFlags(xinfo, nvars), learnedForm, learned, cur, piv, NeededFlags(xinfo, nvars),
                   neededIndep, homog, out, a, x, nvars + 1, p);
    }

    /** So every variable asked for is answered: a zero one vanishes in every solution, a dependent one has its block,
        and any other is one of the free variables that the blocks refer to. */
    lemma AskedAreAnswered(sample: seq<Row>, cur: seq<Row>, piv: seq<nat>, out: seq<int>, needed: seq<nat>, c: nat, x: Row, p: int)
      requires p > 1 && Flagged() && Listed() && LearnedFrom(sample, p) && AskedFor(needed) && c in needed && c < nvars
      requires PicksReduced(cur, piv, sample, indepeqs, ZeroFlags(xinfo, nvars), nvars + 1, p)
      requires PutsOut(out, cur, learned, NeededFlags(xinfo, nvars), neededIndep, homog, nvars + 1, p)
      requires homog ==> forall a :: 0 <= a < |learned| && learned[a] == c ==> NoConstant(learnedForm, a, nvars + 1)
      requires Shape(sample, nvars + 1) && |x| == nvars && IsSolution(sample, x, nvars + 1, p)
      ensures xinfo[c].isNeeded
      ensures
        if c in learned then
          && c in neededDep
          && (exists a :: 0 <= a < |learned| && learned[a] == c
                && BlockAnswers(out, learned, NeededFlags(xinfo, nvars), neededIndep, homog, a, x, p))
        else if xinfo[c].isNonZero then c in neededIndep && !xinfo[c].isDep
        else Cong(x[c], 0, p)
    {
      if c in learned {
        var a :| 0 <= a < |learned| && learned[a] == c;
        hide LearnedSystem, AllCovered, PicksReduced, PutsOut, Listing, BlockAnswers, IsSolution, Shape, PickedDescribe, NoConstant;
        EvaluationIsSolution(sample, cur, piv, out, a, x, p);
      } else {
        AskedOthers(sample, needed, c, x, p);
      }
    }

    lemma AskedOthers(sample: seq<Row>, needed: seq<nat>, c: nat, x: Row, p: int)
      requires Flagged() && Listed() && AskedFor(needed) && c in needed && c < nvars && c !in learned
      requires Shape(sample, nvars + 1) && |x| == nvars && IsSolution(sample, x, nvars + 1, p)
      requires (forall i :: 0 <= i < |indepeqs| ==> indepeqs[i] < |sample|)
      requires PickedDescribe(sample, indepeqs, ZeroFlags(xinfo, nvars), nvars + 1, p)
      ensures xinfo[c].isNeeded
      ensures if xinfo[c].isNonZero then c in neededIndep && !xinfo[c].isDep else Cong(x[c], 0, p)
    {
      assert ZeroFlags(xinfo, nvars)[c] == !xinfo[c].isNonZero;
      hide IsSolution, Shape;
    }
  }

  predicate Fits(sample: seq<Row>, n: nat, m: nat, p: int) {
    |sample| == n && MatrixInRange(sample, m, p) && forall i :: 0 <= i < n ==> |sample[i]| == m
  }

  lemma SampleShape(cur: seq<Row>, piv: seq<nat>, sample: seq<Row>, zero: seq<bool>, m: nat, p: int)
    requires ReducedSample(cur, piv, sample, zero, m, p)
    ensures |piv| <= |cur| && Shape(cur, m)
  {
  }

  lemma PutsOutIntro(out: seq<int>, cur: seq<Row>, learned: seq<nat>, needed: seq<bool>, indep: seq<nat>, homog: bool,
                     m: nat, p: int)
    requires 1 <= m && p > 0 && Shape(cur, m) && |learned| <= |cur|
    requires (forall a :: 0 <= a < |learned| ==> learned[a] < |needed|) && forall l :: 0 <= l < |indep| ==> indep[l] < m
    requires out == Outputs(cur, learned, needed, indep, homog, |learned|, m, p)
    ensures PutsOut(out, cur, learned, needed, indep, homog, m, p)
  {
    OutputsLength(cur, learned, needed, indep, homog, |learned|, m, p);
    hide Outputs, Times;
  }

  lemma ReducedShape(cur: seq<Row>, piv: seq<nat>, m: nat)
    requires Reduced(cur, piv, m)
    ensures |piv| <= |cur| && Shape(cur, m)
  {
  }

  lemma PivotsInside(piv: seq<nat>, m: nat)
    ensures forall c :: c in VariablePivots(piv, m) ==> c in piv
  {
  }

  lemma FieldPositive(p: Mod)
    requires IsPrime(p.n)
    ensures p.n > 1
  {
  }

  lemma PrefixSame(sample: seq<Row>, zero: seq<bool>, filled: seq<Row>, cur: seq<Row>, m: nat, p: int)
    requires Shape(sample, m) && SamePrefix(filled, ZeroColumnsAll(sample, zero), m) && Shape(cur, m)
    requires SameSolutions(filled, cur, m, p)
    ensures SameSolutions(ZeroColumnsAll(sample, zero), cur, m, p)
  {
    PrefixSameSolutions(ZeroColumnsAll(sample, zero), filled, m, p);
    SameSolutionsTrans(ZeroColumnsAll(sample, zero), filled, cur, m, p);
  }

  lemma PossiblePivots(piv: seq<nat>, m: nat)
    requires !RhsPivot(piv, m)
    ensures VariablePivots(piv, m) == piv
  {
  }

  lemma ImpossiblePivots(piv: seq<nat>, learned: seq<nat>, nvars: nat)
    requires RhsPivot(piv, nvars + 1) && forall a :: 0 <= a < |learned| ==> learned[a] < nvars
    ensures piv != learned
  {
  }

  lemma PivotsNonZero(sample: seq<Row>, xinfo: seq<VarInfo>, cur: seq<Row>, piv: seq<nat>, nvars: nat, p: int)
    requires p > 1 && |xinfo| == nvars + 1 && ReducedSample(cur, piv, sample, ZeroFlags(xinfo, nvars), nvars + 1, p)
    ensures forall c: nat :: c < nvars && c in piv ==> xinfo[c].isNonZero
  {
    ZeroesNoPivots(sample, ZeroFlags(xinfo, nvars), cur, piv, nvars + 1, p);
    assert forall c: nat :: c < nvars ==> ZeroFlags(xinfo, nvars)[c] == !xinfo[c].isNonZero;
  }

  lemma ListingRange(xinfo: seq<VarInfo>, dep: bool, c: nat)
    requires c <= |xinfo|
    ensures forall l :: 0 <= l < |Listing(xinfo, dep, c)| ==> Listing(xinfo, dep, c)[l] < c
  {
    forall l | 0 <= l < |Listing(xinfo, dep, c)|
      ensures Listing(xinfo, dep, c)[l] < c
    {
      assert Listing(xinfo, dep, c)[l] in Listing(xinfo, dep, c);
    }
  }

  /** The outputs of the rows of needed variables, one after the other. */
  method PutOut(view: MatrixView, depv: seq<nat>, xinfo: seq<VarInfo>, indep: seq<nat>, homog: bool, nvars: nat, p: int)
    returns (out: seq<int>)
    requires view.Valid() && view.m == nvars + 1 && |xinfo| == nvars + 1 && p > 0 && |depv| <= view.n
    requires (forall a :: 0 <= a < |depv| ==> depv[a] < nvars) && forall l :: 0 <= l < |indep| ==> indep[l] < nvars
    ensures out == Outputs(view.Contents(), depv, NeededFlags(xinfo, nvars), indep, homog, |depv|, view.m, p)
  {
    hide Outputs, RowOutput, NegMod;
    ghost var cur, need := view.Contents(), NeededFlags(xinfo, nvars);
    out := [];
    if |depv| == 0 {
      NoOutputs(cur, depv, need, indep, homog, view.m, p);
    }
    for i := 0 to |depv|
      invariant out == if i == 0 then [] else Outputs(cur, depv, need, indep, homog, i, view.m, p)
    {
      OutputsNext(cur, depv, need, indep, homog, i, view.m, p);
      if xinfo[depv[i]].isNeeded {
        var block := PutOutRow(view.rows[i], indep, homog, nvars, p);
        out := out + block;
      }
    }
    assert view.Contents() == cur;
  }

  lemma NoOutputs(cur: seq<Row>, depv: seq<nat>, needed: seq<bool>, indep: seq<nat>, homog: bool, m: nat, p: int)
    requires 1 <= m && Shape(cur, m) && p > 0 && |depv| <= |cur|
    requires forall a :: 0 <= a < |depv| ==> depv[a] < |needed|
    requires forall l :: 0 <= l < |indep| ==> indep[l] < m
    ensures Outputs(cur, depv, needed, indep, homog, 0, m, p) == []
  {
  }

  method PutOutRow(row: array<int>, indep: seq<nat>, homog: bool, nvars: nat, p: int) returns (out: seq<int>)
    requires nvars < row.Length && p > 0 && forall l :: 0 <= l < |indep| ==> indep[l] < nvars
    ensures out == RowOutput(row[..], indep, homog, nvars + 1, p)
  {
    hide RowOutput, NegMod;
    RowOutputWhole(row[..], indep, homog, nvars + 1, p);
    out := [];
    for j := 0 to |indep|
      invariant out == RowOutput(row[..], indep[..j], true, nvars + 1, p)
    {
      RowOutputNext(row[..], indep, j, nvars + 1, p);
      out := out + [NegMod(row[indep[j]], p)];
    }
    if !homog {
      out := out + [row[nvars]];
    }
  }

  lemma RowsShape(rows: seq<Row>, m: nat)
    requires forall i :: 0 <= i < |rows| ==> |rows[i]| == m
    ensures Shape(rows, m)
  {
  }

  lemma PrefixRange(a: seq<Row>, b: seq<Row>, m: nat, p: int)
    requires SamePrefix(a, b, m) && MatrixInRange(a, m, p)
    ensures MatrixInRange(b, m, p)
  {
    forall i | 0 <= i < |b|
      ensures InRange(b[i], m, p)
    {
      assert InRange(a[i], m, p);
    }
  }

  function NeededFlags(xinfo: seq<VarInfo>, nvars: nat): (n: seq<bool>)
    requires nvars <= |xinfo|
    ensures |n| == nvars && forall j :: 0 <= j < nvars ==> n[j] == xinfo[j].isNeeded
  {
    seq(nvars, j requires 0 <= j < nvars => xinfo[j].isNeeded)
  }

  /** The needed variables below c that are not zero, dependent or not. */
  function Listing(xinfo: seq<VarInfo>, dep: bool, c: nat): (s: seq<nat>)
    requires c <= |xinfo|
    ensures Increasing(s)
    ensures forall j: nat :: j in s <==> j < c && xinfo[j].isNeeded && xinfo[j].isNonZero && xinfo[j].isDep == dep
  {
    if c == 0 then [] else
      var before := Listing(xinfo, dep, c - 1);
      var x := xinfo[c - 1];
      assert forall i :: 0 <= i < |before| ==> before[i] in before;
      before + if x.isNeeded && x.isNonZero && x.isDep == dep then [c - 1] else []
  }

  /** Dependent are the learned pivots and the zero variables. */
  ghost predicate FlagsOf(xinfo: seq<VarInfo>, learned: seq<nat>, nvars: nat) {
    && |xinfo| == nvars + 1 && Increasing(learned) && (forall a :: 0 <= a < |learned| ==> learned[a] < nvars)
    && (forall j: nat :: j < nvars ==> (xinfo[j].isDep <==> j in learned || !xinfo[j].isNonZero))
    && (forall j: nat :: j < nvars && j in learned ==> xinfo[j].isNonZero)
  }

  /** Needed are the variables that were, and those in a row of a dependent one that was. */
  ghost predicate MarkedFlags(was: seq<VarInfo>, xinfo: seq<VarInfo>, form: seq<Row>, learned: seq<nat>, nvars: nat) {
    && |xinfo| == nvars + 1 == |was| && |learned| <= |form| && Shape(form, nvars)
    && (forall a :: 0 <= a < |learned| ==> learned[a] < nvars)
    && forall j: nat :: j < nvars ==> xinfo[j] == was[j].(isNeeded :=
         was[j].isNeeded || MadeNeeded(form, learned, NeededFlags(was, nvars), |learned|, j))
  }

  ghost function ZeroSet(xinfo: seq<VarInfo>, nvars: nat): set<nat>
    requires nvars <= |xinfo|
  {
    set j: nat | j < nvars && !xinfo[j].isNonZero
  }

  lemma NoZeroes(xinfo: seq<VarInfo>, nvars: nat)
    requires |xinfo| == nvars + 1 && forall j :: 0 <= j <= nvars ==> xinfo[j].isNonZero
    ensures ZeroSet(xinfo, nvars) == {}
  {
  }

  lemma OneMoreZero(xinfo: seq<VarInfo>, dep: nat, nvars: nat)
    requires dep < nvars < |xinfo| && xinfo[dep].isNonZero
    ensures |ZeroSet(xinfo[dep := xinfo[dep].(isNonZero := false)], nvars)| == |ZeroSet(xinfo, nvars)| + 1
  {
    assert ZeroSet(xinfo[dep := xinfo[dep].(isNonZero := false)], nvars) == ZeroSet(xinfo, nvars) + {dep};
  }

  lemma SameNeeded(a: seq<VarInfo>, b: seq<VarInfo>, nvars: nat)
    requires nvars <= |a| && nvars <= |b| && forall j :: 0 <= j < nvars ==> a[j].isNeeded == b[j].isNeeded
    ensures NeededFlags(a, nvars) == NeededFlags(b, nvars)
  {
  }

  lemma ZeroSetSame(a: seq<VarInfo>, b: seq<VarInfo>, nvars: nat)
    requires nvars <= |a| && nvars <= |b| && ZeroFlags(a, nvars) == ZeroFlags(b, nvars)
    ensures ZeroSet(a, nvars) == ZeroSet(b, nvars)
  {
    assert forall j: nat :: j < nvars ==> ZeroFlags(a, nvars)[j] == ZeroFlags(b, nvars)[j];
  }

  /** Flagged are exactly the listed variables. */
  ghost predicate AreWanted(flags: seq<bool>, needed: seq<nat>) {
    forall j: nat :: j < |flags| ==> (flags[j] <==> j in needed)
  }

  lemma WantedFlags(xinfo: seq<VarInfo>, needed: seq<nat>, nvars: nat)
    requires |xinfo| == nvars + 1 && forall j :: 0 <= j <= nvars ==> xinfo[j] == VarInfo(false, j in needed, true)
    ensures AreWanted(NeededFlags(xinfo, nvars), needed)
  {
  }

  /** Needed are exactly the variables asked for and those in the row of a learned variable asked for; the list holds
      the learned variables asked for in order. */
  ghost predicate NeededAs(xinfo: seq<VarInfo>, needed: seq<nat>, form: seq<Row>, learned: seq<nat>, neededDep: seq<nat>,
                           nvars: nat) {
    && |xinfo| == nvars + 1 && |learned| <= |form| && Shape(form, nvars)
    && (forall j: nat :: j < nvars ==> (xinfo[j].isNeeded <==>
         j in needed || exists a :: 0 <= a < |learned| && learned[a] in needed && learned[a] < j && form[a][j] != 0))
    && Increasing(neededDep) && forall c: nat :: c in neededDep <==> c in learned && c in needed
  }

  lemma NeededAsIntro(was: seq<VarInfo>, xinfo: seq<VarInfo>, needed: seq<nat>, form: seq<Row>, learned: seq<nat>,
                      neededDep: seq<nat>, nvars: nat)
    requires MarkedFlags(was, xinfo, form, learned, nvars) && Increasing(learned)
    requires AreWanted(NeededFlags(was, nvars), needed)
    requires neededDep == NeededOf(learned, NeededFlags(was, nvars), |learned|)
    ensures NeededAs(xinfo, needed, form, learned, neededDep, nvars)
  {
    NeededOfIncreasing(learned, NeededFlags(was, nvars), |learned|);
  }

  lemma MarkedIntro(was: seq<VarInfo>, xinfo: seq<VarInfo>, form: seq<Row>, learned: seq<nat>, nvars: nat)
    requires |xinfo| == nvars + 1 == |was| && |learned| <= |form| && Shape(form, nvars)
    requires forall a :: 0 <= a < |learned| ==> learned[a] < nvars
    requires forall j: nat :: j < nvars ==> xinfo[j] == was[j].(isNeeded :=
      was[j].isNeeded || MadeNeeded(form, learned, NeededFlags(was, nvars), |learned|, j))
    ensures MarkedFlags(was, xinfo, form, learned, nvars)
  {
    hide MadeNeeded;
  }

  lemma FlagFacts(xinfo: seq<VarInfo>, learned: seq<nat>, nvars: nat)
    requires FlagsOf(xinfo, learned, nvars)
    ensures |xinfo| == nvars + 1 && Increasing(learned) && forall a :: 0 <= a < |learned| ==> learned[a] < nvars
    ensures forall j :: 0 <= j < nvars && !xinfo[j].isDep ==> xinfo[j].isNonZero
  {
  }

  lemma LearnedReduced(form: seq<Row>, learned: seq<nat>, picked: seq<nat>, zero: seq<bool>, sample: seq<Row>, m: nat, p: int)
    requires LearnedSystem(form, learned, picked, zero, sample, m, p)
    ensures Reduced(form, learned, m) && |learned| <= |form| && Shape(form, m)
  {
  }

  lemma MarkedKeeps(was: seq<VarInfo>, xinfo: seq<VarInfo>, form: seq<Row>, learned: seq<nat>, nvars: nat)
    requires FlagsOf(was, learned, nvars) && MarkedFlags(was, xinfo, form, learned, nvars)
    ensures FlagsOf(xinfo, learned, nvars) && ZeroFlags(xinfo, nvars) == ZeroFlags(was, nvars)
  {
    hide MadeNeeded;
  }

  /** Marking leaves the dependent variables as they were. */
  lemma DependentsKept(was: seq<VarInfo>, xinfo: seq<VarInfo>, form: seq<Row>, learned: seq<nat>, nvars: nat)
    requires Reduced(form, learned, nvars + 1) && MarkedFlags(was, xinfo, form, learned, nvars)
    ensures forall a :: 0 <= a < |learned| ==> NeededFlags(was, nvars)[learned[a]] == NeededFlags(xinfo, nvars)[learned[a]]
  {
    var need := NeededFlags(was, nvars);
    forall a | 0 <= a < |learned|
      ensures need[learned[a]] == NeededFlags(xinfo, nvars)[learned[a]]
    {
      PivotNotMade(form, learned, need, |learned|, a, nvars + 1);
    }
  }

  /** The needed dependent variables that are not zero are the needed ones among the learned pivots. */
  lemma DependentListing(xinfo: seq<VarInfo>, learned: seq<nat>, nvars: nat)
    requires FlagsOf(xinfo, learned, nvars)
    ensures Listing(xinfo, true, nvars) == NeededOf(learned, NeededFlags(xinfo, nvars), |learned|)
  {
    var need := NeededFlags(xinfo, nvars);
    NeededOfIncreasing(learned, need, |learned|);
    forall c: nat
      ensures c in Listing(xinfo, true, nvars) <==> c in NeededOf(learned, need, |learned|)
    {
    }
    hide Listing, NeededOf;
    SameMembers(Listing(xinfo, true, nvars), NeededOf(learned, need, |learned|));
  }

  /** A variable made needed that is neither a pivot nor zero is listed as independent. */
  lemma MadeListed(was: seq<VarInfo>, xinfo: seq<VarInfo>, form: seq<Row>, learned: seq<nat>, nvars: nat)
    requires FlagsOf(xinfo, learned, nvars) && MarkedFlags(was, xinfo, form, learned, nvars)
    ensures forall c: nat ::
      c < nvars && c !in learned && !ZeroFlags(xinfo, nvars)[c] && MadeNeeded(form, learned, NeededFlags(was, nvars), |learned|, c)
      ==> c in Listing(xinfo, false, nvars)
  {
    hide MadeNeeded;
  }

  /** The lists have the lengths that were counted, and they cover the rows. */
  lemma NeededListed(was: seq<VarInfo>, xinfo: seq<VarInfo>, form: seq<Row>, learned: seq<nat>, picked: seq<nat>,
                     sample: seq<Row>, nvars: nat, p: int)
    requires p > 1 && FlagsOf(was, learned, nvars) && FlagsOf(xinfo, learned, nvars)
    requires MarkedFlags(was, xinfo, form, learned, nvars)
    requires LearnedSystem(form, learned, picked, ZeroFlags(xinfo, nvars), sample, nvars + 1, p)
    ensures Listing(xinfo, true, nvars) == NeededOf(learned, NeededFlags(xinfo, nvars), |learned|)
    ensures NeededOf(learned, NeededFlags(was, nvars), |learned|) == NeededOf(learned, NeededFlags(xinfo, nvars), |learned|)
    ensures AllCovered(form, learned, NeededFlags(xinfo, nvars), Listing(xinfo, false, nvars), nvars + 1)
  {
    hide *;
    FlagFacts(was, learned, nvars);
    FlagFacts(xinfo, learned, nvars);
    var need, need' := NeededFlags(was, nvars), NeededFlags(xinfo, nvars);
    LearnedReduced(form, learned, picked, ZeroFlags(xinfo, nvars), sample, nvars + 1, p);
    DependentsKept(was, xinfo, form, learned, nvars);
    NeededOfSame(learned, need, need', |learned|);
    DependentListing(xinfo, learned, nvars);
    MadeListed(was, xinfo, form, learned, nvars);
    LearnedCovered(form, learned, picked, ZeroFlags(xinfo, nvars), sample, need, need', Listing(xinfo, false, nvars), nvars + 1, p);
  }

  method MarkNeeded(mv: MatrixView, was: seq<VarInfo>, depv: seq<nat>, nvars: nat)
    returns (xinfo: seq<VarInfo>, nndeps: nat)
    requires mv.Valid() && mv.m == nvars + 1 && |was| == nvars + 1 && Reduced(mv.Contents(), depv, nvars + 1)
    requires |depv| <= mv.n && forall a :: 0 <= a < |depv| ==> depv[a] < nvars
    ensures MarkedFlags(was, xinfo, mv.Contents(), depv, nvars)
    ensures nndeps == |NeededOf(depv, NeededFlags(was, nvars), |depv|)|
  {
    hide Reduced, MadeNeeded, NeededOf;
    ghost var need, form := NeededFlags(was, nvars), mv.Contents();
    NothingNeeded(form, depv, need);
    xinfo, nndeps := was, 0;
    for eq := 0 to |depv|
      invariant |xinfo| == nvars + 1
      invariant forall j: nat :: j < nvars ==> xinfo[j] == was[j].(isNeeded :=
        was[j].isNeeded || MadeNeeded(form, depv, need, eq, j))
      invariant nndeps == |NeededOf(depv, need, eq)|
    {
      PivotNotMade(form, depv, need, eq, eq, nvars + 1);
      forall j: nat | j < nvars
        ensures MadeNeeded(form, depv, need, eq + 1, j) <==>
          MadeNeeded(form, depv, need, eq, j) || (need[depv[eq]] && depv[eq] < j && form[eq][j] != 0)
      {
        MadeNeededNext(form, depv, need, eq, j);
      }
      NeededOfNext(depv, need, eq);
      if xinfo[depv[eq]].isNeeded {
        xinfo := MarkEntries(xinfo, mv.rows[eq], depv[eq], nvars);
        nndeps := nndeps + 1;
      }
    }
    assert mv.Contents() == form;
    assert Shape(form, nvars) && |depv| <= |form|;
    MarkedIntro(was, xinfo, form, depv, nvars);
  }

  method CountIndependent(xinfo: seq<VarInfo>, nvars: nat) returns (n: nat)
    requires |xinfo| == nvars + 1 && forall j :: 0 <= j < nvars && !xinfo[j].isDep ==> xinfo[j].isNonZero
    ensures n == |Listing(xinfo, false, nvars)|
  {
    n := 0;
    for j := 0 to nvars
      invariant n == |Listing(xinfo, false, j)|
    {
      if xinfo[j].isNeeded && !xinfo[j].isDep {
        n := n + 1;
      }
    }
  }

  lemma ListingEmpty(xinfo: seq<VarInfo>)
    ensures forall dep :: Listing(xinfo, dep, 0) == []
  {
  }

  lemma ListingNext(xinfo: seq<VarInfo>, dep: bool, c: nat)
    requires c < |xinfo|
    ensures
      var x := xinfo[c];
      Listing(xinfo, dep, c + 1)
      == Listing(xinfo, dep, c) + if x.isNeeded && x.isNonZero && x.isDep == dep then [c] else []
  {
  }

  method ListNeeded(xinfo: seq<VarInfo>, nvars: nat) returns (dep: seq<nat>, indep: seq<nat>)
    requires |xinfo| == nvars + 1
    ensures dep == Listing(xinfo, true, nvars) && indep == Listing(xinfo, false, nvars)
  {
    ListingEmpty(xinfo);
    hide Listing;
    dep, indep := [], [];
    for j := 0 to nvars
      invariant dep == Listing(xinfo, true, j) && indep == Listing(xinfo, false, j)
    {
      ListingNext(xinfo, true, j);
      ListingNext(xinfo, false, j);
      if xinfo[j].isNeeded && xinfo[j].isNonZero {
        if xinfo[j].isDep {
          dep := dep + [j];
        } else {
          indep := indep + [j];
        }
      }
    }
  }

  lemma NothingNeeded(cur: seq<Row>, depv: seq<nat>, needed: seq<bool>)
    requires |depv| <= |cur| && Shape(cur, |needed|) && forall a :: 0 <= a < |depv| ==> depv[a] < |needed|
    ensures forall c :: 0 <= c < |needed| ==> !MadeNeeded(cur, depv, needed, 0, c)
    ensures NeededOf(depv, needed, 0) == []
  {
  }

  lemma NeededOfNext(depv: seq<nat>, needed: seq<bool>, k: nat)
    requires k < |depv| && forall a :: 0 <= a < |depv| ==> depv[a] < |needed|
    ensures NeededOf(depv, needed, k + 1) == NeededOf(depv, needed, k) + if needed[depv[k]] then [depv[k]] else []
  {
  }

  /** The variables behind dep that the row contains. */
  method MarkEntries(xinfo: seq<VarInfo>, row: array<int>, dep: nat, nvars: nat) returns (marked: seq<VarInfo>)
    requires |xinfo| == nvars + 1 && nvars <= row.Length && dep < nvars
    ensures |marked| == nvars + 1 && marked[nvars] == xinfo[nvars]
    ensures forall j :: 0 <= j < nvars ==>
      marked[j] == xinfo[j].(isNeeded := xinfo[j].isNeeded || (dep < j && row[j] != 0))
  {
    marked := xinfo;
    for j := dep + 1 to nvars
      invariant |marked| == nvars + 1 && marked[nvars] == xinfo[nvars]
      invariant forall i :: 0 <= i < nvars ==>
        marked[i] == xinfo[i].(isNeeded := xinfo[i].isNeeded || (dep < i < j && row[i] != 0))
    {
      if row[j] != 0 {
        marked := marked[j := marked[j].(isNeeded := true)];
      }
    }
  }

  /** The equation number of a row is that of the row it came from. */
  lemma KeepLengths(orig: seq<Row>, cur: seq<Row>, perm: seq<nat>, piv: seq<nat>, m: nat, p: int)
    requires IsReductionOf(cur, orig, perm, piv, m, p)
    ensures |cur| == |orig| && IsPermutation(perm, |cur|) && |piv| <= |perm| && Shape(orig, m)
    ensures Reduced(cur, piv, m) && SameSolutions(orig, cur, m, p) && PickSuffices(orig, perm, |piv|, m, p)
    ensures MatrixInRange(cur, m, p)
    ensures forall i :: 0 <= i < |perm| ==> perm[i] < |orig|
    ensures forall i :: 0 <= i < |cur| ==> |cur[i]| == |orig[perm[i]]|
    ensures forall i :: 0 <= i < |cur| && |cur[i]| > m ==> cur[i][m] == orig[perm[i]][m]
  {
  }

  /** The sample matrix is written over the columns of the view, row by row. */
  method FillMatrix(view: MatrixView, sample: seq<Row>)
    requires view.Valid() && |sample| == view.n && forall i :: 0 <= i < view.n ==> |sample[i]| == view.m
    modifies view.Cells()
    ensures view.Valid() && SamePrefix(sample, view.Contents(), view.m)
    ensures forall i, j :: 0 <= i < view.n && view.m <= j < view.rows[i].Length ==>
      view.rows[i][j] == old(view.rows[i][j])
  {
    for i := 0 to view.n
      invariant forall l, j :: 0 <= l < i && 0 <= j < view.m ==> view.rows[l][j] == sample[l][j]
      invariant forall l, j :: 0 <= l < view.n && view.m <= j < view.rows[l].Length ==>
        view.rows[l][j] == old(view.rows[l][j])
    {
      WriteRow(view.rows[i], sample[i]);
    }
  }

  /** Clear the columns of the learned zero variables. */
  method ReplaceZeroes(view: MatrixView, xinfo: seq<VarInfo>, nvars: nat)
    requires view.Valid() && view.m == nvars + 1 && nvars <= |xinfo|
    modifies view.Cells()
    ensures view.Valid()
    ensures SamePrefix(view.Contents(), ZeroColumnsAll(old(view.Contents()), ZeroFlags(xinfo, nvars)), view.m)
    ensures forall i, j :: 0 <= i < view.n && view.m <= j < view.rows[i].Length ==>
      view.rows[i][j] == old(view.rows[i][j])
  {
    ghost var was := view.Contents();
    for i := 0 to view.n
      invariant forall l :: i <= l < view.n ==> view.rows[l][..] == was[l]
      invariant forall l :: 0 <= l < i ==> view.rows[l][..] == ZeroColumns(was[l], ZeroFlags(xinfo, nvars))
    {
      ClearColumns(view.rows[i], xinfo, nvars);
    }
  }

  method WriteRow(row: array<int>, values: Row)
    requires |values| <= row.Length
    modifies row
    ensures forall j :: 0 <= j < row.Length ==> row[j] == if j < |values| then values[j] else old(row[j])
  {
    for j := 0 to |values|
      invariant forall l :: 0 <= l < row.Length ==> row[l] == if l < j then values[l] else old(row[l])
    {
      row[j] := values[j];
    }
  }

  method ClearColumns(row: array<int>, xinfo: seq<VarInfo>, nvars: nat)
    requires nvars <= |xinfo| && nvars <= row.Length
    modifies row
    ensures row[..] == ZeroColumns(old(row[..]), ZeroFlags(xinfo, nvars))
  {
    for j := 0 to nvars
      invariant forall l :: 0 <= l < row.Length ==>
        row[l] == if l < j && !xinfo[l].isNonZero then 0 else old(row[l])
    {
      if !xinfo[j].isNonZero {
        row[j] := 0;
      }
    }
  }

  method HasEntryAfter(row: array<int>, dep: nat, m: nat) returns (nonZero: bool)
    requires dep < m <= row.Length
    ensures nonZero <==> !SaysZero(row[..], dep, m)
  {
    nonZero := false;
    for j := dep + 1 to m
      invariant !nonZero && forall l :: dep < l < j ==> row[l] == 0
    {
      if row[j] != 0 {
        return true;
      }
    }
  }

  /** The variables below c that are not flagged as dependent, in order. */
  function Unflagged(xinfo: seq<VarInfo>, c: nat): (s: seq<nat>)
    requires c <= |xinfo|
  {
    if c == 0 then [] else
      Unflagged(xinfo, c - 1) + if xinfo[c - 1].isDep then [] else [c - 1]
  }

  ghost predicate ListsUnflagged(s: seq<nat>, xinfo: seq<VarInfo>, c: nat)
    requires c <= |xinfo|
  {
    Increasing(s) && forall j: nat :: j in s <==> j < c && !xinfo[j].isDep
  }

  lemma {:induction false} UnflaggedLists(xinfo: seq<VarInfo>, c: nat)
    requires c <= |xinfo|
    ensures ListsUnflagged(Unflagged(xinfo, c), xinfo, c)
    decreases c
  {
    if c > 0 {
      UnflaggedLists(xinfo, c - 1);
      var before := Unflagged(xinfo, c - 1);
      assert forall i :: 0 <= i < |before| ==> before[i] in before;
    }
  }

  lemma VariablePivotRange(cur: seq<Row>, piv: seq<nat>, m: nat)
    requires m >= 1 && Reduced(cur, piv, m)
    ensures forall a :: 0 <= a < |VariablePivots(piv, m)| ==> VariablePivots(piv, m)[a] < m - 1
  {
  }

  ghost predicate ZeroRowBefore(cur: seq<Row>, depv: seq<nat>, k: nat, c: nat, m: nat)
    requires Shape(cur, m) && k <= |depv| <= |cur| && forall a :: 0 <= a < |depv| ==> depv[a] < m
  {
    exists a :: 0 <= a < k && depv[a] == c && SaysZero(cur[a], c, m)
  }

  lemma NotZeroYet(cur: seq<Row>, depv: seq<nat>, k: nat, m: nat)
    requires Shape(cur, m) && k < |depv| <= |cur| && Increasing(depv) && forall a :: 0 <= a < |depv| ==> depv[a] < m
    ensures !ZeroRowBefore(cur, depv, k, depv[k], m)
  {
    hide SaysZero;
  }

  lemma NoZeroRowYet(cur: seq<Row>, depv: seq<nat>, m: nat)
    requires Shape(cur, m) && |depv| <= |cur| && forall a :: 0 <= a < |depv| ==> depv[a] < m
    ensures forall c :: 0 <= c < m ==> !ZeroRowBefore(cur, depv, 0, c, m)
  {
  }

  lemma ZeroRowStep(cur: seq<Row>, depv: seq<nat>, k: nat, m: nat)
    requires Shape(cur, m) && k < |depv| <= |cur| && forall a :: 0 <= a < |depv| ==> depv[a] < m
    ensures forall c :: 0 <= c < m ==> (ZeroRowBefore(cur, depv, k + 1, c, m) <==>
      ZeroRowBefore(cur, depv, k, c, m) || (c == depv[k] && SaysZero(cur[k], depv[k], m)))
  {
    forall c | 0 <= c < m
      ensures ZeroRowBefore(cur, depv, k + 1, c, m) <==>
        ZeroRowBefore(cur, depv, k, c, m) || (c == depv[k] && SaysZero(cur[k], depv[k], m))
    {
      if ZeroRowBefore(cur, depv, k, c, m) {
        var a :| 0 <= a < k && depv[a] == c && SaysZero(cur[a], c, m);
        assert a < k + 1;
      }
    }
  }

  lemma ZeroesReadIntro(cur: seq<Row>, piv: seq<nat>, zero: seq<bool>, m: nat)
    requires m >= 1 && Reduced(cur, piv, m) && |zero| == m - 1
    requires |VariablePivots(piv, m)| <= |cur|
    requires forall a :: 0 <= a < |VariablePivots(piv, m)| ==> VariablePivots(piv, m)[a] < m
    requires forall c :: 0 <= c < m - 1 ==>
      (zero[c] <==> ZeroRowBefore(cur, VariablePivots(piv, m), |VariablePivots(piv, m)|, c, m))
    ensures ZeroesRead(cur, piv, zero, m)
  {
  }
}