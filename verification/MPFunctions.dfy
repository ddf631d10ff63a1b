/** Merging a polynomial reconstructed modulo p with its image modulo a further prime q
    (MPReconstructedPoly::merge_, src/mp_functions.cc:67-150; the monomial order of
    include/fflow/polynomial.hh:310-330). */
module MPFunctions {
  import opened Common
  import opened ModArith
  import opened Gcds
  import opened FFMod
  import opened MPGcd

  /** Total degree and exponents of a monomial. */
  datatype Monomial = Monomial(degree: nat, exponents: seq<nat>)

  /** A monomial with its coefficient. */
  datatype Term = Term(monomial: Monomial, coeff: nat)

  type Terms = seq<Term>

  // ---- the order of monomials ----

  function CompareNat(x: nat, y: nat): int {
    if x < y then -1 else if x > y then 1 else 0
  }

  function CompareLex(x: seq<nat>, y: seq<nat>): int
    requires |x| == |y|
  {
    if x == [] then 0
    else if CompareNat(x[0], y[0]) != 0 then CompareNat(x[0], y[0])
    else CompareLex(x[1..], y[1..])
  }

  predicate SameVars(x: Monomial, y: Monomial) {
    |x.exponents| == |y.exponents|
  }

  /** By degree first, then lexicographically. */
  function Compare(x: Monomial, y: Monomial): int
    requires SameVars(x, y)
  {
    if CompareNat(x.degree, y.degree) != 0 then CompareNat(x.degree, y.degree)
    else CompareLex(x.exponents, y.exponents)
  }

  lemma {:induction false} CompareLexFacts(x: seq<nat>, y: seq<nat>)
    requires |x| == |y|
    ensures CompareLex(x, y) == 0 <==> x == y
    ensures CompareLex(y, x) == -CompareLex(x, y)
    decreases |x|
  {
    if x != [] {
      CompareLexFacts(x[1..], y[1..]);
      assert x == [x[0]] + x[1..] && y == [y[0]] + y[1..];
    }
  }

  lemma {:induction false} CompareLexTrans(x: seq<nat>, y: seq<nat>, z: seq<nat>)
    requires |x| == |y| == |z| && CompareLex(x, y) > 0 && CompareLex(y, z) > 0
    ensures CompareLex(x, z) > 0
    decreases |x|
  {
    if x[0] == y[0] == z[0] {
      CompareLexTrans(x[1..], y[1..], z[1..]);
    }
  }

  /** compare is a strict total order on monomials in the same variables. */
  lemma CompareOrder(x: Monomial, y: Monomial, z: Monomial)
    requires SameVars(x, y) && SameVars(y, z)
    ensures Compare(x, y) == 0 <==> x == y
    ensures Compare(y, x) == -Compare(x, y)
    ensures Compare(x, y) > 0 && Compare(y, z) > 0 ==> Compare(x, z) > 0
  {
    CompareLexFacts(x.exponents, y.exponents);
    if Compare(x, y) > 0 && Compare(y, z) > 0 && x.degree == y.degree == z.degree {
      CompareLexTrans(x.exponents, y.exponents, z.exponents);
    }
  }

  /** The larger monomial has the larger degree, or the same degree and the larger exponent where they first differ. */
  lemma CompareMeans(x: Monomial, y: Monomial)
    requires SameVars(x, y)
    ensures Compare(x, y) > 0 <==>
      || x.degree > y.degree
      || (&& x.degree == y.degree
          && exists k :: 0 <= k < |x.exponents| && x.exponents[..k] == y.exponents[..k] && x.exponents[k] > y.exponents[k])
  {
    CompareLexMeans(x.exponents, y.exponents);
  }

  lemma {:induction false} CompareLexMeans(x: seq<nat>, y: seq<nat>)
    requires |x| == |y|
    ensures CompareLex(x, y) > 0 <==> exists k :: 0 <= k < |x| && x[..k] == y[..k] && x[k] > y[k]
    decreases |x|
  {
    if x != [] {
      CompareLexMeans(x[1..], y[1..]);
      if CompareLex(x, y) > 0 {
        if x[0] > y[0] {
          assert x[..0] == y[..0];
        } else {
          var k :| 0 <= k < |x[1..]| && x[1..][..k] == y[1..][..k] && x[1..][k] > y[1..][k];
          assert x[..k + 1] == [x[0]] + x[1..][..k] && y[..k + 1] == [y[0]] + y[1..][..k];
          assert x[k + 1] > y[k + 1];
        }
      }
      if k :| 0 <= k < |x| && x[..k] == y[..k] && x[k] > y[k] {
        if k > 0 {
          assert x[0] == x[..k][0] == y[..k][0] == y[0];
          assert x[1..][..k - 1] == x[..k][1..] && y[1..][..k - 1] == y[..k][1..];
          assert x[1..][k - 1] > y[1..][k - 1];
        }
      }
    }
  }

  // ---- sorted lists of terms ----

  predicate InVars(ts: Terms, nvars: nat) {
    forall i :: 0 <= i < |ts| ==> |ts[i].monomial.exponents| == nvars
  }

  /** Strictly descending. */
  predicate Ordered(ts: Terms, nvars: nat) {
    && InVars(ts, nvars)
    && forall i, j :: 0 <= i < j < |ts| ==> Compare(ts[i].monomial, ts[j].monomial) > 0
  }

  predicate Occurs(ts: Terms, x: Monomial) {
    exists i :: 0 <= i < |ts| && ts[i].monomial == x
  }

  /** The coefficient of a monomial, 0 when it is missing. */
  function CoeffOf(ts: Terms, x: Monomial): nat {
    if ts == [] then 0 else if ts[0].monomial == x then ts[0].coeff else CoeffOf(ts[1..], x)
  }

  lemma {:induction false} CoeffMissing(ts: Terms, x: Monomial)
    requires !Occurs(ts, x)
    ensures CoeffOf(ts, x) == 0
    decreases |ts|
  {
    if ts != [] {
      assert ts[0].monomial != x;
      forall i | 0 <= i < |ts[1..]|
        ensures ts[1..][i].monomial != x
      {
        assert ts[1..][i] == ts[i + 1];
      }
      CoeffMissing(ts[1..], x);
    }
  }

  /** All monomials of the list come after x. */
  predicate Below(ts: Terms, x: Monomial, nvars: nat) {
    && InVars(ts, nvars) && |x.exponents| == nvars
    && forall i :: 0 <= i < |ts| ==> Compare(x, ts[i].monomial) > 0
  }

  lemma BelowMissing(ts: Terms, x: Monomial, nvars: nat)
    requires Below(ts, x, nvars)
    ensures !Occurs(ts, x)
  {
    forall i | 0 <= i < |ts|
      ensures ts[i].monomial != x
    {
      CompareOrder(x, x, x);
    }
  }

  lemma OrderedTail(ts: Terms, nvars: nat)
    requires Ordered(ts, nvars) && ts != []
    ensures Ordered(ts[1..], nvars) && Below(ts[1..], ts[0].monomial, nvars)
  {
  }

  lemma OrderedCons(t: Term, ts: Terms, nvars: nat)
    requires Ordered(ts, nvars) && Below(ts, t.monomial, nvars)
    ensures Ordered([t] + ts, nvars)
  {
  }

  lemma BelowTrans(ts: Terms, x: Monomial, y: Monomial, nvars: nat)
    requires Below(ts, y, nvars) && |x.exponents| == nvars && Compare(x, y) > 0
    ensures Below(ts, x, nvars)
  {
    forall i | 0 <= i < |ts|
      ensures Compare(x, ts[i].monomial) > 0
    {
      CompareOrder(x, y, ts[i].monomial);
    }
  }

  lemma OccursCons(t: Term, ts: Terms, x: Monomial)
    ensures Occurs([t] + ts, x) <==> t.monomial == x || Occurs(ts, x)
    ensures CoeffOf([t] + ts, x) == if t.monomial == x then t.coeff else CoeffOf(ts, x)
  {
    var all := [t] + ts;
    assert all[1..] == ts && all[0] == t;
    if i :| 0 <= i < |ts| && ts[i].monomial == x {
      assert all[i + 1].monomial == x;
    }
  }

  // ---- the merge ----

  /** Coefficients of the Chinese remainder theorem with their modulus. */
  datatype Crt = Crt(c1: nat, c2: nat, mod12: nat)

  /** a mod p and b mod q. */
  function Combined(a: nat, b: nat, crt: Crt): nat
    requires crt.mod12 > 0
  {
    (crt.c2 * b + crt.c1 * a) % crt.mod12
  }

  function Merged(a: Terms, b: Terms, crt: Crt, nvars: nat): Terms
    requires crt.mod12 > 0 && InVars(a, nvars) && InVars(b, nvars)
    decreases |a| + |b|
  {
    if a == [] && b == [] then []
    else if b == [] || (a != [] && Compare(a[0].monomial, b[0].monomial) > 0) then
      [Term(a[0].monomial, Combined(a[0].coeff, 0, crt))] + Merged(a[1..], b, crt, nvars)
    else if a == [] || Compare(a[0].monomial, b[0].monomial) < 0 then
      [Term(b[0].monomial, Combined(0, b[0].coeff, crt))] + Merged(a, b[1..], crt, nvars)
    else
      [Term(a[0].monomial, Combined(a[0].coeff, b[0].coeff, crt))] + Merged(a[1..], b[1..], crt, nvars)
  }

  lemma CombinedZero(crt: Crt)
    requires crt.mod12 > 0
    ensures Combined(0, 0, crt) == 0
  {
  }

  lemma ConsSplit(ts: Terms)
    requires ts != []
    ensures ts == [ts[0]] + ts[1..]
  {
  }

  lemma {:induction false} MergedBelow(a: Terms, b: Terms, x: Monomial, crt: Crt, nvars: nat)
    requires crt.mod12 > 0 && Below(a, x, nvars) && Below(b, x, nvars)
    ensures Below(Merged(a, b, crt, nvars), x, nvars)
    decreases |a| + |b|
  {
    hide Combined, Compare;
    if a == [] && b == [] {
    } else if b == [] || (a != [] && Compare(a[0].monomial, b[0].monomial) > 0) {
      MergedBelow(a[1..], b, x, crt, nvars);
    } else if a == [] || Compare(a[0].monomial, b[0].monomial) < 0 {
      MergedBelow(a, b[1..], x, crt, nvars);
    } else {
      MergedBelow(a[1..], b[1..], x, crt, nvars);
    }
  }

  /** The merged list is strictly ordered. */
  lemma {:induction false} MergedOrdered(a: Terms, b: Terms, crt: Crt, nvars: nat)
    requires crt.mod12 > 0 && Ordered(a, nvars) && Ordered(b, nvars)
    ensures Ordered(Merged(a, b, crt, nvars), nvars)
    decreases |a| + |b|
  {
    hide Combined, Compare, Below, Ordered;
    MergedParts(a, b, nvars);
    if a == [] && b == [] {
      EmptyOrdered(nvars);
    } else if b == [] || (a != [] && Compare(a[0].monomial, b[0].monomial) > 0) {
      MergedOrdered(a[1..], b, crt, nvars);
      MergedBelow(a[1..], b, a[0].monomial, crt, nvars);
      OrderedCons(Term(a[0].monomial, Combined(a[0].coeff, 0, crt)), Merged(a[1..], b, crt, nvars), nvars);
    } else if a == [] || Compare(a[0].monomial, b[0].monomial) < 0 {
      MergedOrdered(a, b[1..], crt, nvars);
      MergedBelow(a, b[1..], b[0].monomial, crt, nvars);
      OrderedCons(Term(b[0].monomial, Combined(0, b[0].coeff, crt)), Merged(a, b[1..], crt, nvars), nvars);
    } else {
      MergedOrdered(a[1..], b[1..], crt, nvars);
      MergedBelow(a[1..], b[1..], a[0].monomial, crt, nvars);
      OrderedCons(Term(a[0].monomial, Combined(a[0].coeff, b[0].coeff, crt)), Merged(a[1..], b[1..], crt, nvars), nvars);
    }
  }

  lemma EmptyOrdered(nvars: nat)
    ensures Ordered([], nvars)
  {
  }

  /** In each case of the merge the rest of both lists comes after the head that is taken. */
  lemma MergedParts(a: Terms, b: Terms, nvars: nat)
    requires Ordered(a, nvars) && Ordered(b, nvars)
    ensures InVars(a, nvars) && InVars(b, nvars)
    ensures a != [] ==> Ordered(a[1..], nvars) && Below(a[1..], a[0].monomial, nvars)
    ensures b != [] ==> Ordered(b[1..], nvars) && Below(b[1..], b[0].monomial, nvars)
    ensures a != [] && (b == [] || Compare(a[0].monomial, b[0].monomial) > 0) ==> Below(b, a[0].monomial, nvars)
    ensures b != [] && (a == [] || Compare(a[0].monomial, b[0].monomial) < 0) ==> Below(a, b[0].monomial, nvars)
    ensures a != [] && b != [] && Compare(a[0].monomial, b[0].monomial) == 0 ==> a[0].monomial == b[0].monomial
  {
    hide Compare;
    if a != [] {
      OrderedTail(a, nvars);
    }
    if b != [] {
      OrderedTail(b, nvars);
    }
    if a != [] && b != [] {
      var x, y := a[0].monomial, b[0].monomial;
      CompareOrder(x, y, x);
      if Compare(x, y) > 0 {
        BelowTrans(b[1..], x, y, nvars);
        BelowHead(b, x, nvars);
      }
      if Compare(x, y) < 0 {
        BelowTrans(a[1..], y, x, nvars);
        BelowHead(a, y, nvars);
      }
    }
  }

  lemma BelowHead(ts: Terms, x: Monomial, nvars: nat)
    requires ts != [] && InVars(ts, nvars) && Below(ts[1..], x, nvars) && Compare(x, ts[0].monomial) > 0
    ensures Below(ts, x, nvars)
  {
  }

  /** Merging is the Chinese remainder theorem monomial by monomial, a missing monomial counting as 0. */
  lemma {:induction false} MergedCoeff(a: Terms, b: Terms, x: Monomial, crt: Crt, nvars: nat)
    requires crt.mod12 > 0 && Ordered(a, nvars) && Ordered(b, nvars)
    ensures Occurs(Merged(a, b, crt, nvars), x) <==> Occurs(a, x) || Occurs(b, x)
    ensures CoeffOf(Merged(a, b, crt, nvars), x) == Combined(CoeffOf(a, x), CoeffOf(b, x), crt)
    decreases |a| + |b|
  {
    hide Combined, Compare, Below, Ordered, Occurs, CoeffOf;
    MergedParts(a, b, nvars);
    if a != [] {
      ConsSplit(a);
      OccursCons(a[0], a[1..], x);
    }
    if b != [] {
      ConsSplit(b);
      OccursCons(b[0], b[1..], x);
    }
    if a == [] && b == [] {
      CombinedZero(crt);
      EmptyCoeff(x);
    } else if b == [] || (a != [] && Compare(a[0].monomial, b[0].monomial) > 0) {
      MergedCoeff(a[1..], b, x, crt, nvars);
      OccursCons(Term(a[0].monomial, Combined(a[0].coeff, 0, crt)), Merged(a[1..], b, crt, nvars), x);
      BelowMissing(b, a[0].monomial, nvars);
      CoeffMissing(b, a[0].monomial);
    } else if a == [] || Compare(a[0].monomial, b[0].monomial) < 0 {
      MergedCoeff(a, b[1..], x, crt, nvars);
      OccursCons(Term(b[0].monomial, Combined(0, b[0].coeff, crt)), Merged(a, b[1..], crt, nvars), x);
      BelowMissing(a, b[0].monomial, nvars);
      CoeffMissing(a, b[0].monomial);
    } else {
      MergedCoeff(a[1..], b[1..], x, crt, nvars);
      OccursCons(Term(a[0].monomial, Combined(a[0].coeff, b[0].coeff, crt)), Merged(a[1..], b[1..], crt, nvars), x);
    }
  }

  lemma EmptyCoeff(x: Monomial)
    ensures !Occurs([], x) && CoeffOf([], x) == 0
  {
  }

  /** Every coefficient of the merged polynomial is congruent to both inputs, each modulo its modulus. */
  lemma MergedCongruent(a: Terms, b: Terms, x: Monomial, crt: Crt, p: nat, q: nat, nvars: nat)
    requires crt.mod12 == q * p > 0 && CrtCoefficients(crt.c1, crt.c2, p, q) && Ordered(a, nvars) && Ordered(b, nvars)
    ensures var c := CoeffOf(Merged(a, b, crt, nvars), x);
      c < crt.mod12 && Cong(c, CoeffOf(a, x), p) && Cong(c, CoeffOf(b, x), q)
  {
    MergedCoeff(a, b, x, crt, nvars);
    CombinationMeets(CoeffOf(a, x), CoeffOf(b, x), crt.c1, crt.c2, p, q);
  }

  // ---- the polynomial ----

  /** Monomials and coefficients, which the class keeps in two lists. */
  function Zip(ms: seq<Monomial>, cs: seq<nat>): (ts: Terms)
    requires |ms| == |cs|
    ensures |ts| == |ms| && forall i :: 0 <= i < |ms| ==> ts[i] == Term(ms[i], cs[i])
  {
    seq(|ms|, i requires 0 <= i < |ms| => Term(ms[i], cs[i]))
  }

  lemma ZipUpdate(ms: seq<Monomial>, cs: seq<nat>, i: nat, c: nat)
    requires |ms| == |cs| && i < |cs|
    ensures Zip(ms, cs[i := c])[..i + 1] == Zip(ms, cs)[..i] + [Term(ms[i], c)]
    ensures Zip(ms, cs[i := c])[i + 1..] == Zip(ms, cs)[i..][1..]
    ensures Zip(ms, cs)[i..] != [] && Zip(ms, cs)[i..][0] == Term(ms[i], cs[i])
  {
  }

  lemma ZipInsert(ms: seq<Monomial>, cs: seq<nat>, i: nat, x: Monomial, c: nat)
    requires |ms| == |cs| && i <= |cs|
    ensures var ms', cs' := ms[..i] + [x] + ms[i..], cs[..i] + [c] + cs[i..];
      Zip(ms', cs')[..i + 1] == Zip(ms, cs)[..i] + [Term(x, c)] && Zip(ms', cs')[i + 1..] == Zip(ms, cs)[i..]
  {
  }

  /** What remains of the merge with i terms of the first list in place and b still to come. */
  predicate Pending(done: Terms, a: Terms, b: Terms, crt: Crt, nvars: nat, target: Terms) {
    crt.mod12 > 0 && InVars(a, nvars) && InVars(b, nvars) && done + Merged(a, b, crt, nvars) == target
  }

  lemma PendingFirst(done: Terms, a: Terms, b: Terms, crt: Crt, nvars: nat, target: Terms)
    requires Pending(done, a, b, crt, nvars, target) && a != []
    requires b == [] || Compare(a[0].monomial, b[0].monomial) > 0
    ensures Pending(done + [Term(a[0].monomial, Combined(a[0].coeff, 0, crt))], a[1..], b, crt, nvars, target)
  {
  }

  lemma PendingSecond(done: Terms, a: Terms, b: Terms, crt: Crt, nvars: nat, target: Terms)
    requires Pending(done, a, b, crt, nvars, target) && b != []
    requires a == [] || Compare(a[0].monomial, b[0].monomial) < 0
    ensures Pending(done + [Term(b[0].monomial, Combined(0, b[0].coeff, crt))], a, b[1..], crt, nvars, target)
  {
  }

  lemma PendingBoth(done: Terms, a: Terms, b: Terms, crt: Crt, nvars: nat, target: Terms)
    requires Pending(done, a, b, crt, nvars, target) && a != [] && b != []
    requires Compare(a[0].monomial, b[0].monomial) == 0
    ensures Pending(done + [Term(a[0].monomial, Combined(a[0].coeff, b[0].coeff, crt))], a[1..], b[1..], crt, nvars, target)
  {
    hide Combined, Compare;
    assert done + ([Term(a[0].monomial, Combined(a[0].coeff, b[0].coeff, crt))] + Merged(a[1..], b[1..], crt, nvars))
        == done + [Term(a[0].monomial, Combined(a[0].coeff, b[0].coeff, crt))] + Merged(a[1..], b[1..], crt, nvars);
  }

  lemma PendingStart(a: Terms, b: Terms, crt: Crt, nvars: nat)
    requires crt.mod12 > 0 && InVars(a, nvars) && InVars(b, nvars)
    ensures Pending(a[..0], a[0..], b[0..], crt, nvars, Merged(a, b, crt, nvars))
  {
  }

  lemma PendingEnd(a: Terms, i: nat, b: Terms, j: nat, crt: Crt, nvars: nat, target: Terms)
    requires i == |a| && j == |b| && Pending(a[..i], a[i..], b[j..], crt, nvars, target)
    ensures a == target
  {
  }

  /** The rational coefficients: one that cannot be reconstructed keeps the entry at its index. */
  function Rationals(cz: seq<nat>, mod: nat, before: seq<Rational>): (cq: seq<Rational>)
    requires mod > 1 && forall i :: 0 <= i < |cz| ==> cz[i] < mod
    ensures |cq| == |cz|
  {
    seq(|cz|, i requires 0 <= i < |cz| =>
      var r := Reconstruct(cz[i], mod);
      if r.Some? then r.value else if i < |before| then before[i] else Rational(0, 1))
  }

  /** What is known of the rational coefficients: a residue whose common factor with the modulus is not too large has its
      reconstruction in lowest terms; any other keeps the entry at its index, or 0 past the end. */
  ghost predicate RationalsMeet(cz: seq<nat>, mod: nat, before: seq<Rational>, cq: seq<Rational>) {
    && |cq| == |cz|
    && forall i :: 0 <= i < |cz| ==>
         if HasLargeFactor(cz[i], mod) then cq[i] == if i < |before| then before[i] else Rational(0, 1)
         else IsReconstruction(cz[i], mod, cq[i])
  }

  lemma RationalsAreMet(cz: seq<nat>, mod: nat, before: seq<Rational>)
    requires mod > 1 && forall i :: 0 <= i < |cz| ==> cz[i] < mod
    ensures RationalsMeet(cz, mod, before, Rationals(cz, mod, before))
  {
    hide Reconstruct, HasLargeFactor, IsReconstruction;
    var cq := Rationals(cz, mod, before);
    forall i | 0 <= i < |cz|
      ensures if HasLargeFactor(cz[i], mod) then cq[i] == if i < |before| then before[i] else Rational(0, 1)
              else IsReconstruction(cz[i], mod, cq[i])
    {
      ReconstructMeets(cz[i], mod);
    }
  }

  lemma {:induction false} CoeffAt(ts: Terms, i: nat, nvars: nat)
    requires Ordered(ts, nvars) && i < |ts|
    ensures CoeffOf(ts, ts[i].monomial) == ts[i].coeff
    decreases i
  {
    if i > 0 {
      CompareOrder(ts[0].monomial, ts[i].monomial, ts[0].monomial);
      OrderedTail(ts, nvars);
      CoeffAt(ts[1..], i - 1, nvars);
      assert ts[0].monomial != ts[i].monomial;
    }
  }

  /** A true coefficient n / d of the monomial, small for the product of the moduli, is found by the merge if the
      coefficients merged are its residues. */
  lemma MergeRecovers(a: Terms, b: Terms, crt: Crt, p: nat, q: nat, nvars: nat, before: seq<Rational>, cz: seq<nat>,
                      cq: seq<Rational>, i: nat, n: int, d: int)
    requires crt.mod12 == q * p > 1 && p > 0 && IsPrime(q) && !Divides(q, p) && CrtCoefficients(crt.c1, crt.c2, p, q)
    requires Ordered(a, nvars) && Ordered(b, nvars) && i < |cz| == |Merged(a, b, crt, nvars)|
    requires forall l :: 0 <= l < |cz| ==> cz[l] == Merged(a, b, crt, nvars)[l].coeff
    requires RationalsMeet(cz, crt.mod12, before, cq) && Small(n, d, crt.mod12)
    requires var x := Merged(a, b, crt, nvars)[i].monomial;
      Represents(CoeffOf(a, x), n, d, p) && Represents(CoeffOf(b, x), n, d, q)
    ensures d != 0 && i < |cq| && cq[i] == Canonicalize(n, d)
  {
    var ts := Merged(a, b, crt, nvars);
    var x := ts[i].monomial;
    hide *;
    MergedOrdered(a, b, crt, nvars);
    MergedCongruent(a, b, x, crt, p, q, nvars);
    CoeffAt(ts, i, nvars);
    RepresentsProduct(cz[i], CoeffOf(a, x), CoeffOf(b, x), n, d, p, q);
    CoefficientRecovered(cz, crt.mod12, before, cq, i, n, d);
  }

  lemma CoefficientRecovered(cz: seq<nat>, m: nat, before: seq<Rational>, cq: seq<Rational>, i: nat, n: int, d: int)
    requires m > 1 && i < |cz| && cz[i] < m && RationalsMeet(cz, m, before, cq)
    requires Represents(cz[i], n, d, m) && Small(n, d, m)
    ensures d != 0 && i < |cq| && cq[i] == Canonicalize(n, d)
  {
    hide IsReconstruction, HasLargeFactor, Small, Canonicalize, Gcd, Cong;
    SmallHasNoLargeFactor(cz[i], n, d, m);
    RecoveredIs(cz[i], m, n, d, cq[i]);
  }

  lemma RepresentsProduct(c: nat, a: nat, b: nat, n: int, d: int, p: nat, q: nat)
    requires q * p > 1 && p > 0 && IsPrime(q) && !Divides(q, p) && Cong(c, a, p) && Cong(c, b, q)
    requires Represents(a, n, d, p) && Represents(b, n, d, q)
    ensures Represents(c, n, d, q * p)
  {
    CoprimeProduct(Abs(d), p, q);
    CongRefl(d, p);
    CongMul(c, a, d, d, p);
    CongTrans(c * d, a * d, n, p);
    CongRefl(d, q);
    CongMul(c, b, d, d, q);
    CongTrans(c * d, b * d, n, q);
    CrtUnique(c * d, n, p, q);
  }

  class MPReconstructedPoly {
    const nvars: nat
    var monomials: seq<Monomial>
    var cz: seq<nat>
    var cq: seq<Rational>
    var mod: nat

    constructor (nvars: nat)
      ensures this.nvars == nvars && monomials == [] && cz == [] && cq == [] && mod == 1
    {
      this.nvars := nvars;
      monomials, cz, cq, mod := [], [], [], 1;
    }

    ghost predicate Valid()
      reads this
    {
      |monomials| == |cz| && Ordered(Zip(monomials, cz), nvars)
    }

    /** The entries of p1 from i on that come before x, the next monomial of the other list. */
    method SkipLarger(i0: nat, x: Monomial, crt: Crt, ghost b: Terms, ghost target: Terms, ghost p: nat, ghost q: nat)
      returns (i: nat)
      requires |monomials| == |cz| && i0 <= |cz| && InVars(Zip(monomials, cz), nvars)
      requires crt.mod12 == q * p > 0 && CrtCoefficients(crt.c1, crt.c2, p, q)
      requires b != [] && b[0].monomial == x && |x.exponents| == nvars
      requires Pending(Zip(monomials, cz)[..i0], Zip(monomials, cz)[i0..], b, crt, nvars, target)
      modifies `cz
      ensures |monomials| == |cz| && i0 <= i <= |cz| && InVars(Zip(monomials, cz), nvars)
      ensures Pending(Zip(monomials, cz)[..i], Zip(monomials, cz)[i..], b, crt, nvars, target)
      ensures i < |cz| ==> Compare(monomials[i], x) <= 0
    {
      hide Compare, Pending, CrtCoefficients;
      i := i0;
      while i < |monomials| && Compare(monomials[i], x) > 0
        invariant |monomials| == |cz| && i0 <= i <= |cz| && InVars(Zip(monomials, cz), nvars)
        invariant Pending(Zip(monomials, cz)[..i], Zip(monomials, cz)[i..], b, crt, nvars, target)
        decreases |monomials| - i
      {
        i := MissingInSecond(i, crt, b, target, p, q);
      }
    }

    /** Entry i of p1 has no partner. */
    method MissingInSecond(i: nat, crt: Crt, ghost b: Terms, ghost target: Terms, ghost p: nat, ghost q: nat)
      returns (next: nat)
      requires |monomials| == |cz| && i < |cz| && InVars(Zip(monomials, cz), nvars)
      requires crt.mod12 == q * p > 0 && CrtCoefficients(crt.c1, crt.c2, p, q)
      requires b == [] || (|b[0].monomial.exponents| == nvars && Compare(monomials[i], b[0].monomial) > 0)
      requires Pending(Zip(monomials, cz)[..i], Zip(monomials, cz)[i..], b, crt, nvars, target)
      modifies `cz
      ensures |monomials| == |cz| == old(|cz|) && next == i + 1 && InVars(Zip(monomials, cz), nvars)
      ensures Pending(Zip(monomials, cz)[..i + 1], Zip(monomials, cz)[i + 1..], b, crt, nvars, target)
    {
      hide Compare, Pending, CrtCoefficients;
      ghost var before := Zip(monomials, cz);
      PendingFirst(before[..i], before[i..], b, crt, nvars, target);
      var c := ChineseRemainderFromCoeffs(cz[i], 0, crt.c1, crt.c2, crt.mod12, p, q);
      ZipUpdate(monomials, cz, i, c);
      cz := cz[i := c];
      next := i + 1;
    }

    /** Entry i of p1 and the first of b belong to the same monomial. */
    method InBoth(i: nat, t: Term, crt: Crt, ghost b: Terms, ghost target: Terms, ghost p: nat, ghost q: nat)
      requires |monomials| == |cz| && i < |cz| && InVars(Zip(monomials, cz), nvars)
      requires crt.mod12 == q * p > 0 && CrtCoefficients(crt.c1, crt.c2, p, q)
      requires b != [] && b[0] == t && |t.monomial.exponents| == nvars && Compare(monomials[i], t.monomial) == 0
      requires Pending(Zip(monomials, cz)[..i], Zip(monomials, cz)[i..], b, crt, nvars, target)
      modifies `cz
      ensures |monomials| == |cz| == old(|cz|) && InVars(Zip(monomials, cz), nvars)
      ensures Pending(Zip(monomials, cz)[..i + 1], Zip(monomials, cz)[i + 1..], b[1..], crt, nvars, target)
    {
      hide Compare, Pending, CrtCoefficients;
      ghost var before := Zip(monomials, cz);
      PendingBoth(before[..i], before[i..], b, crt, nvars, target);
      var c := ChineseRemainderFromCoeffs(cz[i], t.coeff, crt.c1, crt.c2, crt.mod12, p, q);
      ZipUpdate(monomials, cz, i, c);
      cz := cz[i := c];
    }

    /** The first of b is inserted before entry i of p1, with the roles of the two moduli exchanged. */
    method MissingInFirst(i: nat, t: Term, crt: Crt, ghost b: Terms, ghost target: Terms, ghost p: nat, ghost q: nat)
      requires |monomials| == |cz| && i <= |cz| && InVars(Zip(monomials, cz), nvars)
      requires crt.mod12 == q * p > 0 && CrtCoefficients(crt.c1, crt.c2, p, q)
      requires b != [] && b[0] == t && |t.monomial.exponents| == nvars
      requires i == |cz| || Compare(monomials[i], t.monomial) < 0
      requires Pending(Zip(monomials, cz)[..i], Zip(monomials, cz)[i..], b, crt, nvars, target)
      modifies `cz, `monomials
      ensures |monomials| == |cz| == old(|cz|) + 1 && InVars(Zip(monomials, cz), nvars)
      ensures Pending(Zip(monomials, cz)[..i + 1], Zip(monomials, cz)[i + 1..], b[1..], crt, nvars, target)
    {
      ghost var before := Zip(monomials, cz);
      assert CrtCoefficients(crt.c2, crt.c1, q, p) && q * p == p * q;
      hide Compare, Pending, CrtCoefficients;
      PendingSecond(before[..i], before[i..], b, crt, nvars, target);
      var c := ChineseRemainderFromCoeffs(t.coeff, 0, crt.c2, crt.c1, crt.mod12, q, p);
      SwappedCombined(t.coeff, crt);
      ZipInsert(monomials, cz, i, t.monomial, c);
      monomials := monomials[..i] + [t.monomial] + monomials[i..];
      cz := cz[..i] + [c] + cz[i..];
    }

    /** Merge with the terms of another polynomial, then reconstruct every coefficient. */
    method Merge(oth: Terms, crt: Crt, ghost p: nat, ghost q: nat)
      requires Valid() && Ordered(oth, nvars) && crt.mod12 > 1
      requires crt.mod12 == q * p && CrtCoefficients(crt.c1, crt.c2, p, q)
      modifies this
      ensures Valid() && Zip(monomials, cz) == Merged(old(Zip(monomials, cz)), oth, crt, nvars)
      ensures mod == crt.mod12 && (forall i :: 0 <= i < |cz| ==> cz[i] < mod)
      ensures RationalsMeet(cz, mod, old(cq), cq)
    {
      hide Compare, Pending, CrtCoefficients, Ordered, Combined, Merged, RationalsMeet;
      ghost var a := Zip(monomials, cz);
      TermsInVars(a, nvars);
      TermsInVars(oth, nvars);
      ghost var target := Merged(a, oth, crt, nvars);
      PendingStart(a, oth, crt, nvars);
      MergeTerms(oth, crt, target, p, q);
      MergedOrdered(a, oth, crt, nvars);
      MergedSmall(a, oth, crt, nvars);
      CoefficientsSmall(cz, monomials, target, crt.mod12);
      mod := crt.mod12;
      RationalsAreMet(cz, mod, cq);
      UpdateRationals();
    }

    /** The three loops over the entries of both lists. */
    method MergeTerms(oth: Terms, crt: Crt, ghost target: Terms, ghost p: nat, ghost q: nat)
      requires |monomials| == |cz| && InVars(Zip(monomials, cz), nvars)
      requires forall l :: 0 <= l < |oth| ==> |oth[l].monomial.exponents| == nvars
      requires crt.mod12 == q * p > 0 && CrtCoefficients(crt.c1, crt.c2, p, q)
      requires Pending(Zip(monomials, cz)[..0], Zip(monomials, cz)[0..], oth[0..], crt, nvars, target)
      modifies `monomials, `cz
      ensures |monomials| == |cz| && Zip(monomials, cz) == target
    {
      hide *;
      var i, j := 0, 0;
      while j < |oth|
        invariant |monomials| == |cz| && i <= |cz| && j <= |oth| && InVars(Zip(monomials, cz), nvars)
        invariant Pending(Zip(monomials, cz)[..i], Zip(monomials, cz)[i..], oth[j..], crt, nvars, target)
      {
        NextOf(oth, j, nvars);
        i := SkipLarger(i, oth[j].monomial, crt, oth[j..], target, p, q);
        if i == |monomials| {
          break;
        }
        EntryInVars(i);
        var cmp := Compare(monomials[i], oth[j].monomial);
        if cmp == 0 {
          InBoth(i, oth[j], crt, oth[j..], target, p, q);
        } else {
          MissingInFirst(i, oth[j], crt, oth[j..], target, p, q);
        }
        i := i + 1;
        j := j + 1;
      }
      MergeRest(i, j, oth, crt, target, p, q);
    }

    lemma EntryInVars(i: nat)
      requires |monomials| == |cz| && InVars(Zip(monomials, cz), nvars) && i < |cz|
      ensures forall x: Monomial :: |x.exponents| == nvars ==> SameVars(monomials[i], x)
    {
    }

    /** What is left of either list. */
    method MergeRest(i0: nat, j0: nat, oth: Terms, crt: Crt, ghost target: Terms, ghost p: nat, ghost q: nat)
      requires |monomials| == |cz| && i0 <= |cz| && j0 <= |oth| && InVars(Zip(monomials, cz), nvars)
      requires forall l :: 0 <= l < |oth| ==> |oth[l].monomial.exponents| == nvars
      requires crt.mod12 == q * p > 0 && CrtCoefficients(crt.c1, crt.c2, p, q)
      requires i0 == |cz| || j0 == |oth|
      requires Pending(Zip(monomials, cz)[..i0], Zip(monomials, cz)[i0..], oth[j0..], crt, nvars, target)
      modifies `monomials, `cz
      ensures |monomials| == |cz| && Zip(monomials, cz) == target
    {
      hide *;
      var i, j := i0, j0;
      while i < |monomials|
        invariant |monomials| == |cz| && i <= |cz| && j == j0 && InVars(Zip(monomials, cz), nvars)
        invariant i == |cz| || oth[j..] == []
        invariant Pending(Zip(monomials, cz)[..i], Zip(monomials, cz)[i..], oth[j..], crt, nvars, target)
        decreases |monomials| - i
        modifies `cz
      {
        i := MissingInSecond(i, crt, oth[j..], target, p, q);
      }
      while j < |oth|
        invariant |monomials| == |cz| && i == |cz| && j <= |oth| && InVars(Zip(monomials, cz), nvars)
        invariant Pending(Zip(monomials, cz)[..i], Zip(monomials, cz)[i..], oth[j..], crt, nvars, target)
      {
        NextOf(oth, j, nvars);
        MissingInFirst(i, oth[j], crt, oth[j..], target, p, q);
        i := i + 1;
        j := j + 1;
      }
      PendingEnd(Zip(monomials, cz), i, oth, j, crt, nvars, target);
    }

    /** rat_rec of every coefficient into the list resized to the new length. */
    method UpdateRationals()
      requires mod > 1 && forall i :: 0 <= i < |cz| ==> cz[i] < mod
      modifies `cq
      ensures cq == Rationals(cz, mod, old(cq))
    {
      hide Reconstruct;
      ghost var before := cq;
      cq := if |cz| <= |cq| then cq[..|cz|] else cq + seq(|cz| - |cq|, _ => Rational(0, 1));
      for i := 0 to |cz|
        modifies `cq
        invariant |cq| == |cz|
        invariant forall l :: 0 <= l < i ==> cq[l] == Rationals(cz, mod, before)[l]
        invariant forall l :: i <= l < |cz| ==> cq[l] == if l < |before| then before[l] else Rational(0, 1)
      {
        var r := RatRec(cz[i], mod);
        if r.Some? {
          cq := cq[i := r.value];
        }
      }
    }
  }

  lemma NextOf(ts: Terms, j: nat, nvars: nat)
    requires j < |ts| && forall l :: 0 <= l < |ts| ==> |ts[l].monomial.exponents| == nvars
    ensures ts[j..] != [] && ts[j..][0] == ts[j] && ts[j..][1..] == ts[j + 1..] && |ts[j].monomial.exponents| == nvars
  {
  }

  lemma SwappedCombined(c: nat, crt: Crt)
    requires crt.mod12 > 0
    ensures (crt.c1 * 0 + crt.c2 * c) % crt.mod12 == Combined(0, c, crt)
  {
  }

  lemma TermsInVars(ts: Terms, nvars: nat)
    requires Ordered(ts, nvars)
    ensures InVars(ts, nvars) && forall i :: 0 <= i < |ts| ==> |ts[i].monomial.exponents| == nvars
  {
  }

  lemma {:induction false} MergedSmall(a: Terms, b: Terms, crt: Crt, nvars: nat)
    requires crt.mod12 > 0 && InVars(a, nvars) && InVars(b, nvars)
    ensures forall i :: 0 <= i < |Merged(a, b, crt, nvars)| ==> Merged(a, b, crt, nvars)[i].coeff < crt.mod12
    decreases |a| + |b|
  {
    hide Compare;
    if a == [] && b == [] {
    } else if b == [] || (a != [] && Compare(a[0].monomial, b[0].monomial) > 0) {
      MergedSmall(a[1..], b, crt, nvars);
    } else if a == [] || Compare(a[0].monomial, b[0].monomial) < 0 {
      MergedSmall(a, b[1..], crt, nvars);
    } else {
      MergedSmall(a[1..], b[1..], crt, nvars);
    }
  }

  lemma CoefficientsSmall(cz: seq<nat>, ms: seq<Monomial>, ts: Terms, m: nat)
    requires |ms| == |cz| && Zip(ms, cz) == ts && forall i :: 0 <= i < |ts| ==> ts[i].coeff < m
    ensures forall i :: 0 <= i < |cz| ==> cz[i] < m
  {
  }
}
