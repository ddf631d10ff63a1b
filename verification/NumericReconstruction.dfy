/** Reconstruction of rational numbers from their images modulo several primes
    (algorithm_reconstruct_numeric, src/alg_mp_reconstruction.cc:708-781). */
module NumericReconstruction {
  import opened Common
  import opened ModArith
  import opened Gcds
  import opened FFMod
  import opened MPGcd

  /** The images of nout numbers modulo the primes used so far, in order. */
  datatype Run = Run(nout: nat, primes: seq<nat>, images: seq<seq<nat>>)

  ghost predicate ValidRun(run: Run) {
    && |run.primes| == |run.images|
    && (forall i :: 0 <= i < |run.primes| ==> IsPrime(run.primes[i]) && ModulusInRange(run.primes[i]))
    && (forall i, j :: 0 <= i < j < |run.primes| ==> run.primes[i] != run.primes[j])
    && (forall i :: 0 <= i < |run.images| ==> |run.images[i]| == run.nout)
    && forall i, j :: 0 <= i < |run.images| && 0 <= j < run.nout ==> run.images[i][j] < run.primes[i]
  }

  /** The product of the first k primes. */
  function TotMod(ps: seq<nat>, k: nat): nat
    requires k <= |ps|
  {
    if k == 0 then 1 else ps[k - 1] * TotMod(ps, k - 1)
  }

  lemma {:induction false} TotModPositive(run: Run, k: nat)
    requires ValidRun(run) && k <= |run.primes|
    ensures TotMod(run.primes, k) >= 1 && (k > 0 ==> TotMod(run.primes, k) >= 2)
    decreases k
  {
    if k > 0 {
      TotModPositive(run, k - 1);
      MulMono(2, run.primes[k - 1], TotMod(run.primes, k - 1));
    }
  }

  /** A further prime does not divide the product of the earlier ones. */
  lemma {:induction false} NewPrimeCoprime(run: Run, q: nat, k: nat)
    requires ValidRun(run) && k <= |run.primes| && IsPrime(q)
    requires forall i :: 0 <= i < k ==> run.primes[i] != q
    ensures !Divides(q, TotMod(run.primes, k))
    decreases k
  {
    if k == 0 {
      if Divides(q, 1) {
        DivisorBound(q, 1);
      }
    } else {
      NewPrimeCoprime(run, q, k - 1);
      var p := run.primes[k - 1];
      if Divides(q, TotMod(run.primes, k)) {
        EuclidPrime(p, TotMod(run.primes, k - 1), q);
        assert Divides(q, p);
        DivisorBound(q, p);
        assert false;
      }
    }
  }

  /** The number below q * p that is a mod p and b mod q. */
  ghost function Combine(a: nat, b: nat, p: nat, q: nat): (r: nat)
    requires p > 0 && IsPrime(q) && !Divides(q, p)
    ensures r < q * p && Cong(r, a, p) && Cong(r, b, q)
  {
    CombineExists(a, b, p, q);
    var r: nat :| r < q * p && Cong(r, a, p) && Cong(r, b, q);
    r
  }

  lemma CombineExists(a: nat, b: nat, p: nat, q: nat)
    requires p > 0 && IsPrime(q) && !Divides(q, p)
    ensures exists r: nat :: r < q * p && Cong(r, a, p) && Cong(r, b, q)
  {
    CongMod(p, q);
    DividesMod(q, p);
    var i := InverseExists(p % q, q);
    CongMod(i, q);
    CongRefl(p % q, q);
    CongMul(p % q, p % q, i % q, i, q);
    CongTrans((p % q) * (i % q), (p % q) * i, 1, q);
    CongModEq((p % q) * (i % q), 1, q);
    CongMod(1, q);
    CongUnique(1 % q, 1, q);
    MultipleBound(p, q);
    assert p * q == q * p;
    CoefficientsMeet(p, q, i % q);
    var c2 := p * (i % q) % (q * p);
    var c1 := (1 - c2) % (q * p);
    CombinationMeets(a, b, c1, c2, p, q);
  }

  lemma CombineUnique(a: nat, b: nat, p: nat, q: nat, r: nat)
    requires p > 0 && IsPrime(q) && !Divides(q, p)
    requires r < q * p && Cong(r, a, p) && Cong(r, b, q)
    ensures r == Combine(a, b, p, q)
  {
    var s := Combine(a, b, p, q);
    CongSym(s, a, p);
    CongTrans(r, a, s, p);
    CongSym(s, b, q);
    CongTrans(r, b, s, q);
    CrtUnique(r, s, p, q);
    CongUnique(r, s, q * p);
  }

  /** The residue of output j after k primes. */
  ghost function Residue(run: Run, j: nat, k: nat): (z: nat)
    requires ValidRun(run) && j < run.nout && 1 <= k <= |run.primes|
    ensures z < TotMod(run.primes, k)
  {
    if k == 1 then run.images[0][j] else
      TotModPositive(run, k - 1);
      NewPrimeCoprime(run, run.primes[k - 1], k - 1);
      Combine(Residue(run, j, k - 1), run.images[k - 1][j], TotMod(run.primes, k - 1), run.primes[k - 1])
  }

  /** The fraction guessed for output j after k primes: a failed reconstruction keeps the guess before. */
  ghost function Candidate(run: Run, j: nat, k: nat): (q: Rational)
    requires ValidRun(run) && j < run.nout && 1 <= k <= |run.primes|
    ensures Canonical(q)
  {
    TotModPositive(run, k);
    var r := Reconstruct(Residue(run, j, k), TotMod(run.primes, k));
    if k == 1 then
      PrimeRoundTrip(run.images[0][j], run.primes[0]);
      assert TotMod(run.primes, 1) == run.primes[0];
      r.value
    else if r.Some? then r.value else Candidate(run, j, k - 1)
  }

  ghost function Candidates(run: Run, k: nat): (s: seq<Rational>)
    requires ValidRun(run) && 1 <= k <= |run.primes|
    ensures |s| == run.nout && forall j :: 0 <= j < run.nout ==> s[j] == Candidate(run, j, k)
  {
    seq(run.nout, j requires 0 <= j < run.nout => Candidate(run, j, k))
  }

  /** The residues match every image, and are the only ones below the modulus that do. */
  lemma {:induction false} ResidueMatches(run: Run, j: nat, k: nat)
    requires ValidRun(run) && j < run.nout && 1 <= k <= |run.primes|
    ensures forall i :: 0 <= i < k ==> Cong(Residue(run, j, k), run.images[i][j], run.primes[i])
    decreases k
  {
    if k == 1 {
      CongRefl(run.images[0][j], run.primes[0]);
    } else {
      ResidueMatches(run, j, k - 1);
      var z, y := Residue(run, j, k), Residue(run, j, k - 1);
      forall i | 0 <= i < k - 1
        ensures Cong(z, run.images[i][j], run.primes[i])
      {
        ModulusFactor(run, z, y, i, k - 1);
        CongTrans(z, y, run.images[i][j], run.primes[i]);
      }
    }
  }

  lemma {:induction false} ModulusFactor(run: Run, x: int, y: int, i: nat, k: nat)
    requires ValidRun(run) && i < k <= |run.primes| && Cong(x, y, TotMod(run.primes, k))
    ensures Cong(x, y, run.primes[i])
    decreases k
  {
    CongFactor(x, y, TotMod(run.primes, k - 1), run.primes[k - 1]);
    if i < k - 1 {
      ModulusFactor(run, x, y, i, k - 1);
    }
  }

  /** Congruence modulo every prime is congruence modulo the product. */
  lemma {:induction false} CongTotMod(run: Run, x: int, y: int, k: nat)
    requires ValidRun(run) && k <= |run.primes| && forall i :: 0 <= i < k ==> Cong(x, y, run.primes[i])
    ensures Cong(x, y, TotMod(run.primes, k))
    decreases k
  {
    if k == 0 {
      CongIntro(x, y, x - y, 1);
    } else {
      CongTotMod(run, x, y, k - 1);
      TotModPositive(run, k - 1);
      NewPrimeCoprime(run, run.primes[k - 1], k - 1);
      CrtUnique(x, y, TotMod(run.primes, k - 1), run.primes[k - 1]);
    }
  }

  lemma ResidueUnique(run: Run, j: nat, k: nat, z: nat)
    requires ValidRun(run) && j < run.nout && 1 <= k <= |run.primes| && z < TotMod(run.primes, k)
    requires forall i :: 0 <= i < k ==> Cong(z, run.images[i][j], run.primes[i])
    ensures z == Residue(run, j, k)
  {
    ResidueMatches(run, j, k);
    var y := Residue(run, j, k);
    forall i | 0 <= i < k
      ensures Cong(z, y, run.primes[i])
    {
      CongSym(y, run.images[i][j], run.primes[i]);
      CongTrans(z, run.images[i][j], y, run.primes[i]);
    }
    CongTotMod(run, z, y, k);
    CongUnique(z, y, TotMod(run.primes, k));
  }

  // ---- the check against the next prime ----

  /** Every candidate has the image found for the next prime. */
  ghost predicate Accepts(run: Run, k: nat)
    requires ValidRun(run) && 1 <= k < |run.primes|
  {
    forall j :: 0 <= j < run.nout ==> RatMod(Candidate(run, j, k), run.primes[k]) == Some(run.images[k][j])
  }

  /** The first candidate that does not have its image has a denominator that the next prime divides. */
  ghost predicate Stuck(run: Run, k: nat)
    requires ValidRun(run) && 1 <= k < |run.primes|
  {
    exists j :: 0 <= j < run.nout && StuckAt(run, k, j)
  }

  ghost predicate StuckAt(run: Run, k: nat, j: nat)
    requires ValidRun(run) && 1 <= k < |run.primes| && j < run.nout
  {
    && RatMod(Candidate(run, j, k), run.primes[k]).None?
    && forall i :: 0 <= i < j ==> RatMod(Candidate(run, i, k), run.primes[k]) == Some(run.images[k][i])
  }

  /** The outcome of checking the candidates after k primes, then those after k + 1 and so on. */
  ghost function Search(run: Run, k: nat): Option<seq<Rational>>
    requires ValidRun(run) && 1 <= k <= |run.primes|
    decreases |run.primes| - k
  {
    if k == |run.primes| then None
    else if Accepts(run, k) then Some(Candidates(run, k))
    else if Stuck(run, k) then None
    else Search(run, k + 1)
  }

  // ---- when the answer is right ----

  /** The images of output j are those of n / d, whose denominator none of the first k primes divides. */
  ghost predicate Faithful(run: Run, j: nat, n: int, d: int, k: nat)
    requires ValidRun(run) && j < run.nout && k <= |run.primes|
  {
    forall i :: 0 <= i < k ==> Represents(run.images[i][j], n, d, run.primes[i])
  }

  lemma {:induction false} CoprimeTotMod(run: Run, j: nat, n: int, d: int, k: nat)
    requires ValidRun(run) && j < run.nout && 1 <= k <= |run.primes| && Faithful(run, j, n, d, k)
    ensures d != 0 && Gcd(Abs(d), TotMod(run.primes, k)) == 1
    decreases k
  {
    hide Gcd;
    assert Represents(run.images[k - 1][j], n, d, run.primes[k - 1]);
    if k == 1 {
      assert TotMod(run.primes, 1) == run.primes[0];
    } else {
      CoprimeTotMod(run, j, n, d, k - 1);
      TotModPositive(run, k);
      TotModPositive(run, k - 1);
      CoprimeProduct(Abs(d), TotMod(run.primes, k - 1), run.primes[k - 1]);
    }
  }

  /** The residue represents the true fraction. */
  lemma ResidueRepresents(run: Run, j: nat, n: int, d: int, k: nat)
    requires ValidRun(run) && j < run.nout && 1 <= k <= |run.primes| && Faithful(run, j, n, d, k)
    ensures Represents(Residue(run, j, k), n, d, TotMod(run.primes, k))
  {
    hide Gcd;
    CoprimeTotMod(run, j, n, d, k);
    ResidueMatches(run, j, k);
    var z := Residue(run, j, k);
    forall i | 0 <= i < k
      ensures Cong(z * d, n, run.primes[i])
    {
      assert Represents(run.images[i][j], n, d, run.primes[i]);
      CongRefl(d, run.primes[i]);
      CongMul(z, run.images[i][j], d, d, run.primes[i]);
      CongTrans(z * d, run.images[i][j] * d, n, run.primes[i]);
    }
    CongTotMod(run, z * d, n, k);
  }

  /** As soon as the product of the primes is large enough the candidate is the true fraction. */
  lemma CandidateRight(run: Run, j: nat, n: int, d: int, k: nat)
    requires ValidRun(run) && j < run.nout && 1 <= k <= |run.primes|
    requires Faithful(run, j, n, d, k) && Small(n, d, TotMod(run.primes, k))
    ensures d != 0 && Candidate(run, j, k) == Canonicalize(n, d)
  {
    hide Gcd, Reconstruct;
    TotModPositive(run, k);
    ResidueRepresents(run, j, n, d, k);
    RecoversFraction(Residue(run, j, k), TotMod(run.primes, k), n, d);
  }

  /** The image of a fraction is the image of its lowest terms. */
  lemma ImageOfLowestTerms(x: nat, n: int, d: int, p: nat)
    requires p > 1 && IsPrime(p) && x < p && Represents(x, n, d, p)
    ensures RatMod(Canonicalize(n, d), p) == Some(x)
  {
    hide Gcd, Canonicalize, IsPrime;
    var c := Canonicalize(n, d);
    assert p > 0;
    CongSym(x * d, n, p);
    assert x * d == d * x;
    CrossCong(x, n, d, c.num, c.den, p);
    var y := x * c.den - c.num;
    AbsFactor(d, y, p);
    CoprimeCancels(Abs(d), p, y);
    CongDifference(x * c.den, c.num, p);
    LowestTermsCoprime(c, x, p);
    RatModUnique(c, p, x);
  }

  lemma LowestTermsCoprime(c: Rational, x: int, p: nat)
    requires Canonical(c) && IsPrime(p) && Cong(x * c.den, c.num, p)
    ensures Gcd(c.den, p) == 1
  {
    hide Gcd;
    GcdGreatest(c.den, p);
    var g := Gcd(c.den, p);
    DivisorBound(g, p);
    if g != 1 {
      assert g == p;
      var k := DividesElim(p, c.den);
      assert x * (k * p) == (x * k) * p;
      CongIntro(x * c.den, 0, x * k, p);
      CongSym(x * c.den, c.num, p);
      CongTrans(c.num, x * c.den, 0, p);
      var l := CongElim(c.num, 0, p);
      assert (-l) * p == -(l * p);
      DividesIntro(p, Abs(c.num), if c.num < 0 then -l else l);
      CoprimeDivisor(Abs(c.num), c.den, p);
    }
  }

  /** The true values: a numerator and a denominator for every output. */
  type Truth = seq<(int, int)>

  ghost predicate FaithfulTo(run: Run, f: Truth, k: nat)
    requires ValidRun(run) && k <= |run.primes|
  {
    |f| == run.nout && forall j :: 0 <= j < run.nout ==> Faithful(run, j, f[j].0, f[j].1, k)
  }

  predicate AllSmall(f: Truth, b: nat) {
    forall j :: 0 <= j < |f| ==> Small(f[j].0, f[j].1, b)
  }

  ghost predicate AreTruth(cs: seq<Rational>, f: Truth) {
    |cs| == |f| && forall j :: 0 <= j < |f| ==> f[j].1 != 0 && cs[j] == Canonicalize(f[j].0, f[j].1)
  }

  /** Convergence: once the product of k primes is large enough for every true value, the candidates
      are the true values and the next prime accepts them. */
  lemma Converges(run: Run, f: Truth, k: nat)
    requires ValidRun(run) && 1 <= k < |run.primes|
    requires FaithfulTo(run, f, k + 1) && AllSmall(f, TotMod(run.primes, k))
    ensures AreTruth(Candidates(run, k), f) && Accepts(run, k)
  {
    hide Canonicalize, Small, TotMod, RatMod;
    forall j | 0 <= j < run.nout
      ensures f[j].1 != 0 && Candidate(run, j, k) == Canonicalize(f[j].0, f[j].1)
      ensures RatMod(Candidate(run, j, k), run.primes[k]) == Some(run.images[k][j])
    {
      assert Represents(run.images[k][j], f[j].0, f[j].1, run.primes[k]);
      CandidateRight(run, j, f[j].0, f[j].1, k);
      ImageOfLowestTerms(run.images[k][j], f[j].0, f[j].1, run.primes[k]);
    }
  }

  /** If no earlier check ends the search, it ends there with the true values. */
  lemma {:induction false} SearchConverges(run: Run, f: Truth, k: nat, l: nat)
    requires ValidRun(run) && 1 <= l <= k < |run.primes|
    requires FaithfulTo(run, f, k + 1) && AllSmall(f, TotMod(run.primes, k))
    requires forall i :: l <= i < k ==> !Accepts(run, i) && !Stuck(run, i)
    ensures Search(run, l).Some? && AreTruth(Search(run, l).value, f)
    decreases k - l
  {
    hide AreTruth, Candidates, FaithfulTo;
    if l == k {
      Converges(run, f, k);
    } else {
      SearchConverges(run, f, k, l + 1);
    }
  }

  /** Soundness of the check: a freshly reconstructed candidate accepted by a further prime is the true
      fraction if that is small for the product that includes the further prime. */
  lemma AcceptedRight(run: Run, j: nat, n: int, d: int, k: nat)
    requires ValidRun(run) && j < run.nout && 1 <= k < |run.primes| && Accepts(run, k)
    requires Faithful(run, j, n, d, k + 1) && Small(n, d, TotMod(run.primes, k + 1))
    requires TotMod(run.primes, k) > 1 && Reconstruct(Residue(run, j, k), TotMod(run.primes, k)).Some?
    ensures d != 0 && Candidate(run, j, k) == Canonicalize(n, d)
  {
    hide Gcd, Reconstruct, Canonicalize, Small, IsPrime, RatMod;
    var M, p, z, x := TotMod(run.primes, k), run.primes[k], Residue(run, j, k), run.images[k][j];
    assert Represents(x, n, d, p);
    ResidueRepresents(run, j, n, d, k);
    ReconstructMeets(z, M);
    var c := Candidate(run, j, k);
    CandidateFresh(run, j, k);
    var num, den :| Reconstructs(z, M, num, den) && SameFraction(c.num, c.den, num, den);
    SmallRoot(den, M);
    CrossDifference(z, num, den, n, d, M);
    AcceptedCross(c, num, den, n, d, x, p);
    NewPrimeCoprime(run, p, k);
    CrtUnique(num * d - n * den, 0, M, p);
    assert TotMod(run.primes, k + 1) == p * M;
    MulMono(1, p, M);
    BoundedPair(num, den, n, d, p * M);
    var t := Canonicalize(n, d);
    SameFractionTrans(t.num, t.den, n, d, num, den);
    SameFractionTrans(c.num, c.den, num, den, t.num, t.den);
    CanonicalUnique(c, t);
  }

  lemma CandidateFresh(run: Run, j: nat, k: nat)
    requires ValidRun(run) && j < run.nout && 1 <= k <= |run.primes| && TotMod(run.primes, k) > 1
    requires Reconstruct(Residue(run, j, k), TotMod(run.primes, k)).Some?
    ensures Some(Candidate(run, j, k)) == Reconstruct(Residue(run, j, k), TotMod(run.primes, k))
  {
  }

  /** Two fractions with the same image mod p have a cross difference that vanishes mod p. */
  lemma AcceptedCross(c: Rational, num: int, den: int, n: int, d: int, x: nat, p: nat)
    requires IsPrime(p) && c.den > 0 && RatMod(c, p) == Some(x) && SameFraction(c.num, c.den, num, den)
    requires Cong(x * d, n, p)
    ensures Cong(num * d - n * den, 0, p)
  {
    hide Gcd;
    CongSym(x * c.den, c.num, p);
    assert x * c.den == c.den * x;
    CrossDifference(x, c.num, c.den, n, d, p);
    var y := c.num * d - n * c.den;
    CongRefl(den, p);
    CongMul(y, 0, den, den, p);
    assert y * den == (c.num * den) * d - (n * den) * c.den;
    assert (num * c.den) * d - (n * den) * c.den == c.den * (num * d - n * den);
    CoprimeCancels(c.den, p, num * d - n * den);
  }

  // ---- the loop ----

  /** The prime used at step i: the table is walked from start on. */
  function PrimeIndex(start: nat, i: nat, size: nat): nat
    requires size > 0
  {
    (start + i) % size
  }

  /** A table of distinct primes and an evaluation: its results by prime number, which may fail. */
  ghost predicate ValidTable(primes: seq<nat>, eval: nat -> Option<seq<nat>>, nout: nat) {
    && (forall i :: 0 <= i < |primes| ==> IsPrime(primes[i]) && ModulusInRange(primes[i]))
    && (forall i, j :: 0 <= i < j < |primes| ==> primes[i] != primes[j])
    && forall i: nat :: i < |primes| && eval(i).Some? ==>
         |eval(i).value| == nout && forall j :: 0 <= j < nout ==> eval(i).value[j] < primes[i]
  }

  /** The images of the first k steps, none of which failed. */
  ghost function FirstImages(primes: seq<nat>, eval: nat -> Option<seq<nat>>, nout: nat, start: nat, k: nat): (run: Run)
    requires ValidTable(primes, eval, nout) && k <= |primes| && |primes| > 0
    requires forall i :: 0 <= i < k ==> eval(PrimeIndex(start, i, |primes|)).Some?
    ensures ValidRun(run) && run.nout == nout && |run.primes| == k
    ensures forall i :: 0 <= i < k ==>
      var step := (start + i) % |primes|; run.primes[i] == primes[step] && Some(run.images[i]) == eval(step)
  {
    var run := Run(nout, seq(k, i requires 0 <= i < k => primes[PrimeIndex(start, i, |primes|)]),
                   seq(k, i requires 0 <= i < k => eval(PrimeIndex(start, i, |primes|)).value));
    forall i, j | 0 <= i < j < k
      ensures run.primes[i] != run.primes[j]
    {
      StepsDistinct(start, i, j, |primes|);
    }
    run
  }

  lemma StepsDistinct(start: nat, i: nat, j: nat, size: nat)
    requires i < j < i + size
    ensures PrimeIndex(start, i, size) != PrimeIndex(start, j, size)
  {
    var x, y := start + i, start + j;
    var q, r := x / size, y / size;
    assert x == q * size + x % size && y == r * size + y % size;
    if x % size == y % size {
      assert y - x == (r - q) * size;
      MultipleBound(r - q, size);
    }
  }

  /** How many steps in a row succeed from step k on, at most max in all. */
  ghost function Leading(eval: nat -> Option<seq<nat>>, start: nat, size: nat, k: nat, max: nat): (n: nat)
    requires size > 0 && k <= max
    ensures k <= n <= max && forall i :: k <= i < n ==> eval(PrimeIndex(start, i, size)).Some?
    ensures n < max ==> eval(PrimeIndex(start, n, size)).None?
    decreases max - k
  {
    if k == max || eval(PrimeIndex(start, k, size)).None? then k else Leading(eval, start, size, k + 1, max)
  }

  datatype Verdict = Accepted | Rejected | Failed

  /** rat_mod of every candidate against the images for the next prime. */
  method Check(res: array<Rational>, xout: seq<nat>, p: nat, ghost run: Run, ghost k: nat) returns (verdict: Verdict)
    requires ValidRun(run) && 1 <= k < |run.primes| && p == run.primes[k] && xout == run.images[k]
    requires res[..] == Candidates(run, k)
    ensures verdict == Accepted <==> Accepts(run, k)
    ensures verdict == Failed <==> Stuck(run, k)
  {
    hide Candidate, RatMod;
    ghost var cs := Candidates(run, k);
    for j := 0 to |xout|
      invariant forall i :: 0 <= i < j ==> RatMod(Candidate(run, i, k), p) == Some(xout[i])
    {
      assert res[j] == res[..][j] == Candidate(run, j, k);
      var xmp := RatMod(res[j], p);
      if xmp.None? {
        assert StuckAt(run, k, j);
        return Failed;
      }
      if xout[j] != xmp.value {
        NotStuck(run, k, j);
        return Rejected;
      }
    }
    return Accepted;
  }

  lemma NotStuck(run: Run, k: nat, j: nat)
    requires ValidRun(run) && 1 <= k < |run.primes| && j < run.nout
    requires forall i :: 0 <= i < j ==> RatMod(Candidate(run, i, k), run.primes[k]) == Some(run.images[k][i])
    requires RatMod(Candidate(run, j, k), run.primes[k]) != None
    requires RatMod(Candidate(run, j, k), run.primes[k]) != Some(run.images[k][j])
    ensures !Stuck(run, k) && !Accepts(run, k)
  {
    hide Candidate, RatMod;
  }

  ghost predicate Holds(run: Run, k: nat, zout: seq<nat>, res: seq<Rational>) {
    && ValidRun(run) && 1 <= k <= |run.primes| && |zout| == |res| == run.nout
    && (forall j :: 0 <= j < run.nout ==> zout[j] == Residue(run, j, k))
    && res == Candidates(run, k)
  }

  /** The images for the first prime and their reconstructions; a zero is not reconstructed. */
  method Guess(zout: array<nat>, res: array<Rational>, xout: seq<nat>, p: nat, ghost run: Run)
    requires ValidRun(run) && 1 <= |run.primes| && p == run.primes[0] && xout == run.images[0]
    requires zout.Length == res.Length == run.nout
    modifies zout, res
    ensures Holds(run, 1, zout[..], res[..])
  {
    hide Reconstruct, Descend;
    assert TotMod(run.primes, 1) == p;
    for j := 0 to |xout|
      invariant forall i :: 0 <= i < j ==> zout[i] == Residue(run, i, 1) && res[i] == Candidate(run, i, 1)
    {
      PrimeRoundTrip(xout[j], p);
      if xout[j] != 0 {
        zout[j] := xout[j];
        var r := RatRec(xout[j], p);
        res[j] := r.value;
      } else {
        zout[j] := 0;
        res[j] := Rational(0, 1);
        ZeroReconstructs(p);
      }
    }
  }

  lemma ZeroReconstructs(b: nat)
    requires b > 1
    ensures Reconstruct(0, b) == Some(Rational(0, 1))
  {
  }

  /** Merge with the images for the next prime; a failed reconstruction leaves the candidate alone. */
  method Merge(zout: array<nat>, res: array<Rational>, xout: seq<nat>, totmod: nat, q: Mod, ghost run: Run, ghost k: nat)
    returns (mod12: nat)
    requires Holds(run, k, zout[..], res[..]) && k < |run.primes| && totmod == TotMod(run.primes, k)
    requires FFMod.Valid(q) && q.n == run.primes[k] && xout == run.images[k]
    modifies zout, res
    ensures mod12 == TotMod(run.primes, k + 1)
    ensures Holds(run, k + 1, zout[..], res[..])
  {
    hide Reconstruct, Descend, FFMod.Valid, IsPrime;
    ghost var z0, r0 := zout[..], res[..];
    TotModPositive(run, k);
    TotModPositive(run, k + 1);
    NewPrimeCoprime(run, q.n, k);
    var c1, c2;
    c1, c2, mod12 := ChineseRemainderCoeffs(totmod, q);
    for j := 0 to |xout|
      invariant forall i :: 0 <= i < j ==> zout[i] == Residue(run, i, k + 1) && res[i] == Candidate(run, i, k + 1)
      invariant forall i :: j <= i < run.nout ==> zout[i] == z0[i] && res[i] == r0[i]
    {
      var z := ChineseRemainderFromCoeffs(zout[j], xout[j], c1, c2, mod12, totmod, q.n);
      CombineUnique(Residue(run, j, k), xout[j], totmod, q.n, z);
      zout[j] := z;
      var r := RatRec(z, mod12);
      if r.Some? {
        res[j] := r.value;
      }
    }
  }

  /** Guess from one prime, check with the next, merge and go on. A failed evaluation is repeated with
      the same prime, so with a deterministic algorithm it fails until the loop gives up. */
  method ReconstructNumeric(primes: seq<nat>, eval: nat -> Option<seq<nat>>, nout: nat,
                            start: nat, maxPrimes: nat, nSingular: nat)
    returns (res: Option<seq<Rational>>)
    requires ValidTable(primes, eval, nout) && start < |primes| && maxPrimes < |primes|
    ensures var n := Leading(eval, start, |primes|, 0, maxPrimes + 1);
      res == if n == 0 then None else Search(FirstImages(primes, eval, nout, start, n), 1)
  {
    hide *;
    ghost var n := Leading(eval, start, |primes|, 0, maxPrimes + 1);
    ghost var run := FirstImages(primes, eval, nout, start, n);
    ghost var goal := if n == 0 then None else Search(run, 1);
    var zout, guess := new nat[nout], new Rational[nout](_ => Rational(0, 1));
    var totmod: nat, primeI, singular := 0, start, 0;
    FirstIndex(start, |primes|);
    for ip := 0 to maxPrimes + 1
      invariant singular <= ip && ip - singular <= n && primeI == PrimeIndex(start, ip - singular, |primes|)
      invariant singular > 0 ==> n == ip - singular && goal == None
      invariant singular == 0 && ip > 0 ==> totmod == TotMod(run.primes, ip) && Holds(run, ip, zout[..], guess[..])
      invariant singular == 0 && ip > 0 ==> Search(run, ip) == goal
    {
      IndexInTable(start, ip - singular, primes, eval, nout);
      var mod := PrecomputedReciprocal(primes[primeI]);
      var ret := eval(primeI);
      if ret.None? {
        if singular == 0 && ip > 0 {
          SearchUnfold(run, ip);
        }
        if singular == nSingular {
          return None;
        }
        singular := singular + 1;
        continue;
      }
      var xout := ret.value;
      StepImages(primes, eval, nout, start, n, ip);
      if ip == 0 {
        totmod := mod.n;
        Guess(zout, guess, xout, mod.n, run);
      } else {
        SearchUnfold(run, ip);
        HoldsFacts(run, ip, zout[..], guess[..]);
        var verdict := Check(guess, xout, mod.n, run, ip);
        if verdict == Failed {
          return None;
        }
        if verdict == Accepted {
          return Some(guess[..]);
        }
        if ip == maxPrimes {
          SearchUnfold(run, ip + 1);
          return None;
        }
        totmod := Merge(zout, guess, xout, totmod, mod, run, ip);
      }
      NextIndex(start, ip, |primes|);
      primeI := (primeI + 1) % |primes|;
    }
    if singular == 0 {
      HoldsFacts(run, maxPrimes + 1, zout[..], guess[..]);
      SearchUnfold(run, maxPrimes + 1);
    }
    return None;
  }

  lemma FirstIndex(start: nat, size: nat)
    requires start < size
    ensures PrimeIndex(start, 0, size) == start
  {
  }

  lemma IndexInTable(start: nat, i: nat, primes: seq<nat>, eval: nat -> Option<seq<nat>>, nout: nat)
    requires ValidTable(primes, eval, nout) && |primes| > 0
    ensures var k := PrimeIndex(start, i, |primes|); 0 <= k < |primes| && ModulusInRange(primes[k])
  {
  }

  lemma SearchUnfold(run: Run, k: nat)
    requires ValidRun(run) && 1 <= k <= |run.primes|
    ensures k == |run.primes| ==> Search(run, k) == None
    ensures k < |run.primes| && Accepts(run, k) ==> Search(run, k) == Some(Candidates(run, k))
    ensures k < |run.primes| && !Accepts(run, k) && Stuck(run, k) ==> Search(run, k) == None
    ensures k < |run.primes| && !Accepts(run, k) && !Stuck(run, k) ==> Search(run, k) == Search(run, k + 1)
  {
  }

  lemma HoldsFacts(run: Run, k: nat, zout: seq<nat>, res: seq<Rational>)
    requires Holds(run, k, zout, res)
    ensures ValidRun(run) && 1 <= k <= |run.primes| && |zout| == |res| == run.nout && res == Candidates(run, k)
  {
  }

  /** The step i in the run of the first n steps. */
  lemma StepImages(primes: seq<nat>, eval: nat -> Option<seq<nat>>, nout: nat, start: nat, n: nat, i: nat)
    requires ValidTable(primes, eval, nout) && i < n <= |primes|
    requires forall l :: 0 <= l < n ==> eval(PrimeIndex(start, l, |primes|)).Some?
    ensures var run, at := FirstImages(primes, eval, nout, start, n), PrimeIndex(start, i, |primes|);
      && 0 <= at < |primes| && |run.primes| == |run.images| == n
      && run.primes[i] == primes[at] && run.images[i] == eval(at).value && |run.images[i]| == nout
      && TotMod(run.primes, 0) == 1 && TotMod(run.primes, 1) == run.primes[0]
  {
  }

  lemma NextIndex(start: nat, i: nat, size: nat)
    requires size > 0
    ensures (PrimeIndex(start, i, size) + 1) % size == PrimeIndex(start, i + 1, size)
  {
    CongMod(start + i, size);
    CongRefl(1, size);
    CongAdd((start + i) % size, start + i, 1, 1, size);
    CongModEq((start + i) % size + 1, start + i + 1, size);
  }
}
