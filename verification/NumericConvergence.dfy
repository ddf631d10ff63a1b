/** When the loop over several primes ends with the true values (algorithm_reconstruct_numeric,
    src/alg_mp_reconstruction.cc:708-781), in terms of these values and the primes alone. */
module NumericConvergence {
  import opened Common
  import opened ModArith
  import opened Gcds
  import opened FFMod
  import opened MPGcd
  import opened NumericReconstruction

  predicate AboveFour(ps: seq<nat>) {
    forall i :: 0 <= i < |ps| ==> ps[i] > 4
  }

  lemma {:induction false} ProductAboveFour(ps: seq<nat>, k: nat)
    requires AboveFour(ps) && 1 <= k <= |ps|
    ensures TotMod(ps, k) > 4
    decreases k
  {
    if k > 1 {
      ProductAboveFour(ps, k - 1);
      MulMono(1, ps[k - 1], TotMod(ps, k - 1));
    } else {
      assert TotMod(ps, 1) == ps[0] * TotMod(ps, 0);
    }
  }

  lemma {:induction false} ProductGrows(ps: seq<nat>, h: nat, k: nat)
    requires AboveFour(ps) && 1 <= h < k <= |ps|
    ensures 4 * TotMod(ps, h) <= TotMod(ps, k)
    decreases k
  {
    ProductAboveFour(ps, k - 1);
    if h == k - 1 {
      MulMono(4, ps[k - 1], TotMod(ps, k - 1));
    } else {
      ProductGrows(ps, h, k - 1);
      MulMono(1, ps[k - 1], TotMod(ps, k - 1));
    }
  }

  // ---- the guess, told from the true value ----

  lemma {:induction false} LeastDenominator(n: int, d: int, m: nat, x: int, y: nat)
    requires 0 < y && x * x <= m && Agree(x, y, n, d, m)
    ensures exists u, v :: Simplest(n, d, m, u, v)
    decreases y
  {
    if u, v :| 0 < v < y && u * u <= m && Agree(u, v, n, d, m) {
      LeastDenominator(n, d, m, u, v);
    } else {
      assert Simplest(n, d, m, x, y);
    }
  }

  ghost function SimplestPair(n: int, d: int, m: nat): (q: (int, int))
    requires m > 0
    ensures Simplest(n, d, m, q.0, q.1)
  {
    CongIntro(0 * d - n * m, 0, -n, m);
    LeastDenominator(n, d, m, 0, m);
    var u, v :| Simplest(n, d, m, u, v);
    (u, v)
  }

  /** The guess for n / d after k primes: the simplest fraction that agrees with it modulo their product. If that is 0
      although n / d is not, the guess before is kept. */
  ghost function Guessed(n: int, d: int, ps: seq<nat>, k: nat): (q: Rational)
    requires AboveFour(ps) && 1 <= k <= |ps|
    ensures Canonical(q)
    decreases k
  {
    ProductAboveFour(ps, k);
    var m := TotMod(ps, k);
    var s := SimplestPair(n, d, m);
    if k > 1 && s.0 == 0 && !Divides(m, n) then Guessed(n, d, ps, k - 1) else Canonicalize(s.0, s.1)
  }

  lemma {:induction false} CandidateIsGuessed(run: Run, j: nat, n: int, d: int, k: nat)
    requires ValidRun(run) && AboveFour(run.primes) && j < run.nout && 1 <= k <= |run.primes| && Faithful(run, j, n, d, k)
    ensures Candidate(run, j, k) == Guessed(n, d, run.primes, k)
    decreases k
  {
    hide Gcd, Reconstruct, Canonicalize, Simplest, IsPrime;
    ProductAboveFour(run.primes, k);
    ResidueRepresents(run, j, n, d, k);
    var m := TotMod(run.primes, k);
    var s := SimplestPair(n, d, m);
    ReconstructsSimplest(Residue(run, j, k), n, d, m, s.0, s.1);
    if k > 1 {
      CandidateIsGuessed(run, j, n, d, k - 1);
    } else {
      assert m == run.primes[0];
      PrimeRoundTrip(run.images[0][j], m);
    }
  }

  // ---- the check, told from the true values ----

  /** Modulo the next prime every guess agrees with its true value. */
  ghost predicate AllAgree(f: Truth, ps: seq<nat>, k: nat)
    requires AboveFour(ps) && 1 <= k < |ps|
  {
    forall j :: 0 <= j < |f| ==> GuessAgrees(f[j].0, f[j].1, ps, k)
  }

  ghost predicate GuessAgrees(n: int, d: int, ps: seq<nat>, k: nat)
    requires AboveFour(ps) && 1 <= k < |ps|
  {
    var q := Guessed(n, d, ps, k);
    Agree(q.num, q.den, n, d, ps[k])
  }

  /** The next prime divides the denominator of a guess, and the guesses before it agree. */
  ghost predicate GivesUpAt(f: Truth, ps: seq<nat>, k: nat, j: nat)
    requires AboveFour(ps) && 1 <= k < |ps| && j < |f|
  {
    && Divides(ps[k], Guessed(f[j].0, f[j].1, ps, k).den)
    && forall i :: 0 <= i < j ==> GuessAgrees(f[i].0, f[i].1, ps, k)
  }

  ghost predicate AllTrue(f: Truth, ps: seq<nat>, k: nat)
    requires AboveFour(ps) && 1 <= k <= |ps|
  {
    forall j :: 0 <= j < |f| ==> GuessIsTrue(f[j].0, f[j].1, ps, k)
  }

  ghost predicate GuessIsTrue(n: int, d: int, ps: seq<nat>, k: nat)
    requires AboveFour(ps) && 1 <= k <= |ps|
  {
    var q := Guessed(n, d, ps, k);
    SameFraction(q.num, q.den, n, d)
  }

  /** The check after k primes goes wrong: all guesses agree with the true values modulo the next prime and one is not
      the true value, or the next prime divides the denominator of the first one that does not agree. */
  ghost predicate Misled(f: Truth, ps: seq<nat>, k: nat)
    requires AboveFour(ps) && 1 <= k < |ps|
  {
    if AllAgree(f, ps, k) then !AllTrue(f, ps, k) else exists j :: 0 <= j < |f| && GivesUpAt(f, ps, k, j)
  }

  lemma NotCoprimeToPrime(x: nat, p: nat)
    requires IsPrime(p) && x > 0
    ensures Gcd(x, p) != 1 <==> Divides(p, x)
  {
    hide Gcd;
    GcdGreatest(x, p);
    var g := Gcd(x, p);
    DivisorBound(g, p);
    if Divides(p, x) && g == 1 {
      DividesIntro(p, p, 1);
      CoprimeDivisor(x, p, p);
      assert false;
    }
  }

  /** rat_mod of a fraction in lowest terms against the image of n / d. */
  lemma CheckOne(q: Rational, x: nat, n: int, d: int, p: nat)
    requires Canonical(q) && IsPrime(p) && x < p && Represents(x, n, d, p)
    ensures RatMod(q, p) == Some(x) <==> Agree(q.num, q.den, n, d, p)
    ensures RatMod(q, p) == None <==> Divides(p, q.den)
  {
    hide Gcd;
    NotCoprimeToPrime(q.den, p);
    AgreeWithResidue(x, n, d, p, q.num, q.den);
    assert q.den * x == x * q.den;
    if RatMod(q, p) == Some(x) {
      CongSym(x * q.den, q.num, p);
    }
    if Agree(q.num, q.den, n, d, p) {
      CongSym(q.num, x * q.den, p);
      LowestTermsCoprime(q, x, p);
      RatModUnique(q, p, x);
    }
  }

  lemma TrueIffCanonical(q: Rational, n: int, d: int)
    requires Canonical(q) && d != 0
    ensures SameFraction(q.num, q.den, n, d) <==> q == Canonicalize(n, d)
  {
    hide Gcd;
    var c := Canonicalize(n, d);
    if SameFraction(q.num, q.den, n, d) {
      SameFractionTrans(q.num, q.den, n, d, c.num, c.den);
      CanonicalUnique(q, c);
    }
  }

  lemma CandidateFacts(run: Run, f: Truth, k: nat, j: nat)
    requires ValidRun(run) && AboveFour(run.primes) && 1 <= k < |run.primes| && FaithfulTo(run, f, k + 1) && j < run.nout
    ensures f[j].1 != 0 && Candidate(run, j, k) == Guessed(f[j].0, f[j].1, run.primes, k)
    ensures RatMod(Candidate(run, j, k), run.primes[k]) == Some(run.images[k][j]) <==> GuessAgrees(f[j].0, f[j].1, run.primes, k)
    ensures RatMod(Candidate(run, j, k), run.primes[k]) == None <==> Divides(run.primes[k], Candidate(run, j, k).den)
    ensures Candidate(run, j, k) == Canonicalize(f[j].0, f[j].1) <==> GuessIsTrue(f[j].0, f[j].1, run.primes, k)
  {
    hide Gcd, RatMod, Canonicalize, Canonical, IsPrime, Candidate, Guessed;
    var n, d := f[j].0, f[j].1;
    assert Represents(run.images[k][j], n, d, run.primes[k]);
    CandidateIsGuessed(run, j, n, d, k);
    CheckOne(Candidate(run, j, k), run.images[k][j], n, d, run.primes[k]);
    TrueIffCanonical(Candidate(run, j, k), n, d);
  }

  /** The three ways a check of the candidates ends, told from the true values. */
  lemma CheckOutcome(run: Run, f: Truth, k: nat)
    requires ValidRun(run) && AboveFour(run.primes) && 1 <= k < |run.primes| && FaithfulTo(run, f, k + 1)
    ensures Accepts(run, k) <==> AllAgree(f, run.primes, k)
    ensures Stuck(run, k) <==> exists j :: 0 <= j < |f| && GivesUpAt(f, run.primes, k, j)
    ensures AreTruth(Candidates(run, k), f) <==> AllTrue(f, run.primes, k)
  {
    hide RatMod, Canonicalize, Candidate, Guessed, GuessAgrees, GuessIsTrue, Faithful;
    forall j | 0 <= j < run.nout
      ensures f[j].1 != 0 && Candidate(run, j, k) == Guessed(f[j].0, f[j].1, run.primes, k)
      ensures RatMod(Candidate(run, j, k), run.primes[k]) == Some(run.images[k][j]) <==> GuessAgrees(f[j].0, f[j].1, run.primes, k)
      ensures RatMod(Candidate(run, j, k), run.primes[k]) == None <==> Divides(run.primes[k], Candidate(run, j, k).den)
      ensures Candidate(run, j, k) == Canonicalize(f[j].0, f[j].1) <==> GuessIsTrue(f[j].0, f[j].1, run.primes, k)
    {
      CandidateFacts(run, f, k, j);
    }
    forall j | 0 <= j < run.nout
      ensures StuckAt(run, k, j) <==> GivesUpAt(f, run.primes, k, j)
    {
    }
  }

  // ---- once right, always right ----

  lemma LowestTermsSmaller(q: Rational, num: int, den: int)
    requires Canonical(q) && den != 0 && SameFraction(q.num, q.den, num, den)
    ensures 0 < q.den <= Abs(den) && Abs(q.num) <= Abs(num)
  {
    hide Gcd;
    TrueIffCanonical(q, num, den);
    AbsProduct(q.num, den);
    AbsProduct(num, q.den);
    QuotientSmaller(Abs(q.num), Abs(den), Abs(num), q.den);
  }

  lemma QuotientSmaller(x: nat, d: nat, y: nat, e: nat)
    requires x * d == y * e && 0 < e <= d
    ensures x <= y
  {
    if x > y {
      ProductMono(x, y + 1, d, e);
    }
  }

  lemma AbsProduct(x: int, y: int)
    ensures Abs(x * y) == Abs(x) * Abs(y)
  {
    assert (-x) * y == -(x * y) == x * (-y) && (-x) * (-y) == x * y;
  }

  lemma SmallerSquare(x: int, y: int, m: int)
    requires Abs(x) <= Abs(y) && y * y <= m
    ensures x * x <= m
  {
    SquareMono(y, Abs(x));
    assert (-x) * (-x) == x * x;
  }

  lemma ReconstructionSmall(a: nat, m: nat, q: Rational)
    requires IsReconstruction(a, m, q)
    ensures q.num * q.num <= m && q.den * q.den <= m
  {
    var num, den :| Reconstructs(a, m, num, den) && SameFraction(q.num, q.den, num, den);
    hide *;
    LowestTermsSmall(a, m, q, num, den);
  }

  lemma LowestTermsSmall(a: nat, m: nat, q: Rational, num: int, den: int)
    requires Canonical(q) && Reconstructs(a, m, num, den) && SameFraction(q.num, q.den, num, den)
    ensures q.num * q.num <= m && q.den * q.den <= m
  {
    hide Gcd, Canonical, Cong, SameFraction;
    assert den != 0;
    LowestTermsSmaller(q, num, den);
    SmallerSquare(q.num, num, m);
    SmallerSquare(q.den, den, m);
  }

  /** A candidate is bounded by the square root of the modulus. */
  lemma {:induction false} CandidateSmall(run: Run, j: nat, k: nat)
    requires ValidRun(run) && AboveFour(run.primes) && j < run.nout && 1 <= k <= |run.primes|
    ensures var q := Candidate(run, j, k); q.num * q.num <= TotMod(run.primes, k) && q.den * q.den <= TotMod(run.primes, k)
    decreases k
  {
    hide Gcd, Reconstruct, Canonical, IsPrime, IsReconstruction, HasLargeFactor;
    ProductAboveFour(run.primes, k);
    var m, a := TotMod(run.primes, k), Residue(run, j, k);
    ReconstructMeets(a, m);
    if Reconstruct(a, m).Some? {
      CandidateFresh(run, j, k);
      ReconstructionSmall(a, m, Candidate(run, j, k));
    } else {
      if k == 1 {
        assert m == run.primes[0];
        PrimeRoundTrip(run.images[0][j], m);
      }
      CandidateSmall(run, j, k - 1);
      ProductGrows(run.primes, k - 1, k);
    }
  }

  /** The lowest terms of a true value represent it too. */
  lemma FaithfulLowestTerms(run: Run, j: nat, n: int, d: int, k: nat)
    requires ValidRun(run) && j < run.nout && k <= |run.primes| && Faithful(run, j, n, d, k) && d != 0
    ensures var c := Canonicalize(n, d); Faithful(run, j, c.num, c.den, k)
  {
    hide Gcd, Canonicalize;
    var c := Canonicalize(n, d);
    forall i | 0 <= i < k
      ensures Represents(run.images[i][j], c.num, c.den, run.primes[i])
    {
      assert Represents(run.images[i][j], n, d, run.primes[i]);
      ImageOfLowestTerms(run.images[i][j], n, d, run.primes[i]);
    }
  }

  /** Candidates that are the true values after h primes are so after all later ones. */
  lemma StaysTrue(run: Run, f: Truth, h: nat, k: nat)
    requires ValidRun(run) && AboveFour(run.primes) && 1 <= h < k <= |run.primes| && FaithfulTo(run, f, k)
    requires AreTruth(Candidates(run, h), f)
    ensures AreTruth(Candidates(run, k), f)
  {
    hide Gcd, Canonicalize, Canonical, IsPrime, Faithful;
    forall j | 0 <= j < run.nout
      ensures f[j].1 != 0 && Candidate(run, j, k) == Canonicalize(f[j].0, f[j].1)
    {
      var q := Candidates(run, h)[j];
      assert q == Candidate(run, j, h) == Canonicalize(f[j].0, f[j].1);
      CandidateSmall(run, j, h);
      ProductGrows(run.primes, h, k);
      FaithfulLowestTerms(run, j, f[j].0, f[j].1, k);
      CandidateRight(run, j, q.num, q.den, k);
      TrueIffCanonical(q, q.num, q.den);
    }
  }

  // ---- convergence ----

  ghost predicate Finds(res: Option<seq<Rational>>, f: Truth) {
    res.Some? && AreTruth(res.value, f)
  }

  /** Once k primes are enough for every true value, the search that starts with l primes finds the true values if and
      only if none of the checks before goes wrong. */
  lemma {:induction false} SearchFromConvergesIff(run: Run, f: Truth, k: nat, l: nat)
    requires ValidRun(run) && AboveFour(run.primes) && 1 <= l <= k < |run.primes|
    requires FaithfulTo(run, f, k + 1) && AllSmall(f, TotMod(run.primes, k))
    ensures Finds(Search(run, l), f) <==> forall i :: l <= i < k ==> !Misled(f, run.primes, i)
    decreases k - l
  {
    hide AreTruth, Candidates, FaithfulTo, Accepts, Stuck, AllAgree, AllTrue, GivesUpAt, ValidRun;
    if l == k {
      Converges(run, f, k);
    } else {
      FaithfulPrefix(run, f, k + 1, l + 1);
      CheckOutcome(run, f, l);
      if !Accepts(run, l) && !Stuck(run, l) {
        SearchFromConvergesIff(run, f, k, l + 1);
      } else if Accepts(run, l) && AllTrue(f, run.primes, l) {
        forall i | l < i < k
          ensures !Misled(f, run.primes, i)
        {
          StaysUnmisled(run, f, k, l, i);
        }
      } else {
        assert Misled(f, run.primes, l);
      }
    }
  }

  lemma FaithfulPrefix(run: Run, f: Truth, k: nat, l: nat)
    requires ValidRun(run) && l <= k <= |run.primes| && FaithfulTo(run, f, k)
    ensures FaithfulTo(run, f, l)
  {
  }

  lemma StaysUnmisled(run: Run, f: Truth, k: nat, l: nat, i: nat)
    requires ValidRun(run) && AboveFour(run.primes) && 1 <= l < i < k < |run.primes| && FaithfulTo(run, f, k + 1)
    requires AllTrue(f, run.primes, l)
    ensures !Misled(f, run.primes, i)
  {
    hide AreTruth, Candidates, FaithfulTo, Accepts, Stuck, AllAgree, AllTrue, GivesUpAt, ValidRun;
    FaithfulPrefix(run, f, k + 1, l + 1);
    FaithfulPrefix(run, f, k + 1, i + 1);
    FaithfulPrefix(run, f, k + 1, i);
    CheckOutcome(run, f, l);
    CheckOutcome(run, f, i);
    StaysTrue(run, f, l, i);
    TrueAgrees(run, f, i);
  }

  lemma TrueAgrees(run: Run, f: Truth, k: nat)
    requires ValidRun(run) && AboveFour(run.primes) && 1 <= k < |run.primes| && FaithfulTo(run, f, k + 1)
    requires AreTruth(Candidates(run, k), f)
    ensures Accepts(run, k)
  {
    hide Gcd, Canonicalize, RatMod, IsPrime, Candidate;
    forall j | 0 <= j < run.nout
      ensures RatMod(Candidate(run, j, k), run.primes[k]) == Some(run.images[k][j])
    {
      assert Candidates(run, k)[j] == Candidate(run, j, k);
      assert Represents(run.images[k][j], f[j].0, f[j].1, run.primes[k]);
      ImageOfLowestTerms(run.images[k][j], f[j].0, f[j].1, run.primes[k]);
    }
  }

  lemma SearchConvergesIff(run: Run, f: Truth, k: nat)
    requires ValidRun(run) && AboveFour(run.primes) && 1 <= k < |run.primes|
    requires FaithfulTo(run, f, k + 1) && AllSmall(f, TotMod(run.primes, k))
    ensures Finds(Search(run, 1), f) <==> forall i :: 1 <= i < k ==> !Misled(f, run.primes, i)
  {
    SearchFromConvergesIff(run, f, k, 1);
  }

  // ---- the primes of the program's tables ----

  /** All from the table of the 400 largest primes below 2^32, or all from that of the 2048 largest below 2^63. */
  predicate FromTable(ps: seq<nat>) {
    || (forall i :: 0 <= i < |ps| ==> 4294958449 <= ps[i] <= 4294967291)
    || (forall i :: 0 <= i < |ps| ==> 9223372036854686687 <= ps[i] <= 9223372036854775783)
  }

  lemma FirstProducts(ps: seq<nat>)
    ensures |ps| >= 1 ==> TotMod(ps, 1) == ps[0]
    ensures |ps| >= 2 ==> TotMod(ps, 2) == ps[1] * ps[0]
    ensures |ps| >= 5 ==> TotMod(ps, 5) == ps[4] * (ps[3] * (ps[2] * (ps[1] * ps[0])))
  {
    if |ps| >= 5 {
      TotModNext(ps, 5);
      TotModNext(ps, 4);
      TotModNext(ps, 3);
    }
    if |ps| >= 2 {
      TotModNext(ps, 2);
    }
    if |ps| >= 1 {
      TotModNext(ps, 1);
    }
  }

  lemma TotModNext(ps: seq<nat>, k: nat)
    requires 1 <= k <= |ps|
    ensures TotMod(ps, k) == ps[k - 1] * TotMod(ps, k - 1) && TotMod(ps, 0) == 1
  {
  }

  /** Primes of a table differ by less than their square roots. */
  lemma TableFacts(ps: seq<nat>, i: nat, j: nat)
    requires FromTable(ps) && i < |ps| && j < |ps|
    ensures AboveFour(ps) && ps[i] >= 16 && ps[i] < ps[j] * ps[j] && ps[i] + 1 <= 2 * ps[j]
    ensures exists w: nat :: Near(ps[i], ps[j], w)
  {
    var w := if ps[i] < 4294967296 then 8842 else 89096;
    assert Near(ps[i], ps[j], w);
    MulMono(4, ps[j], ps[j]);
  }

  predicate Near(p: nat, q: nat, w: nat) {
    p - w <= q <= p + w && w * w < p && w * w < q
  }

  /** The first check never gives up: the denominator of the first guess is smaller than the next prime. */
  lemma FirstCheckNotStuck(run: Run)
    requires ValidRun(run) && FromTable(run.primes) && 2 <= |run.primes|
    ensures !Stuck(run, 1)
  {
    hide Gcd, Candidate, FromTable, IsPrime;
    TableFacts(run.primes, 0, 1);
    var p, q := run.primes[0], run.primes[1];
    assert TotMod(run.primes, 1) == p;
    forall j | 0 <= j < run.nout
      ensures !StuckAt(run, 1, j)
    {
      CandidateSmall(run, j, 1);
      var den := Candidate(run, j, 1).den;
      NotCoprimeToPrime(den, q);
      if Divides(q, den) {
        DivisorBound(q, den);
        SquareMono(den, q);
        assert false;
      }
    }
  }

  /** If two primes are enough for the true values, the search finds them: nothing can mislead it before. */
  lemma TwoPrimesConverge(run: Run, f: Truth)
    requires ValidRun(run) && FromTable(run.primes) && 3 <= |run.primes|
    requires FaithfulTo(run, f, 3) && AllSmall(f, TotMod(run.primes, 2))
    ensures Finds(Search(run, 1), f)
  {
    hide Gcd, Candidate, FromTable, IsPrime, AllAgree, AllTrue, GivesUpAt, Reconstruct, Canonicalize, Small, Faithful;
    TableFacts(run.primes, 0, 1);
    FaithfulPrefix(run, f, 3, 2);
    CheckOutcome(run, f, 1);
    FirstCheckNotStuck(run);
    if Accepts(run, 1) {
      forall j | 0 <= j < run.nout
        ensures f[j].1 != 0 && Candidate(run, j, 1) == Canonicalize(f[j].0, f[j].1)
      {
        FirstGuessFresh(run, j);
        AcceptedRight(run, j, f[j].0, f[j].1, 1);
      }
      assert AreTruth(Candidates(run, 1), f);
    }
    SearchConvergesIff(run, f, 2);
  }

  lemma FirstGuessFresh(run: Run, j: nat)
    requires ValidRun(run) && 1 <= |run.primes| && j < run.nout
    ensures TotMod(run.primes, 1) > 1 && Reconstruct(Residue(run, j, 1), TotMod(run.primes, 1)).Some?
  {
    hide Gcd, Reconstruct;
    assert TotMod(run.primes, 1) == run.primes[0];
    PrimeRoundTrip(run.images[0][j], run.primes[0]);
  }

  // ---- table primes at which the search goes wrong ----

  ghost predicate TablePrimes(ps: seq<nat>) {
    && FromTable(ps)
    && (forall i :: 0 <= i < |ps| ==> IsPrime(ps[i]))
    && forall i, j :: 0 <= i < j < |ps| ==> ps[i] != ps[j]
  }

  /** The images of one integer. */
  function IntegerRun(ps: seq<nat>, n: int): Run
    requires AboveFour(ps)
  {
    Run(1, ps, seq(|ps|, i requires 0 <= i < |ps| => [n % ps[i]]))
  }

  lemma OneCoprime(p: nat)
    requires p >= 2
    ensures Gcd(1, p) == 1
  {
  }

  /** The images of n are also those of every integer congruent to it modulo the first primes. */
  lemma IntegerRunFaithful(ps: seq<nat>, n: int, c: int, k: nat)
    requires TablePrimes(ps) && k <= |ps| && forall i :: 0 <= i < k ==> Cong(n, c, ps[i])
    ensures AboveFour(ps) && ValidRun(IntegerRun(ps, n)) && FaithfulTo(IntegerRun(ps, n), [(c, 1)], k)
  {
    hide IsPrime, Gcd;
    var run := IntegerRun(ps, n);
    forall i | 0 <= i < k
      ensures Represents(run.images[i][0], c, 1, ps[i])
    {
      OneCoprime(ps[i]);
      CongMod(n, ps[i]);
      CongTrans(n % ps[i], n, c, ps[i]);
    }
  }

  /** A wrong value is accepted: an integer that is small modulo the first two primes is taken for its residue. */
  lemma AcceptsResidue(ps: seq<nat>, n: int, c: int)
    requires TablePrimes(ps) && 2 <= |ps| && Cong(n, c, ps[0] * ps[1]) && 4 * (c * c) <= ps[0]
    ensures AboveFour(ps) && ValidRun(IntegerRun(ps, n)) && Search(IntegerRun(ps, n), 1) == Some([Canonicalize(c, 1)])
    ensures Finds(Search(IntegerRun(ps, n), 1), [(n, 1)]) <==> n == c
  {
    hide IsPrime, Gcd, Canonicalize, FromTable, IntegerRun;
    TableFacts(ps, 0, 1);
    CongFactor(n, c, ps[1], ps[0]);
    IntegerRunFaithful(ps, n, c, 2);
    var run := IntegerRun(ps, n);
    assert TotMod(ps, 1) == ps[0];
    IntegerRunShape(ps, n);
    Converges(run, [(c, 1)], 1);
    assert Candidates(run, 1) == [Canonicalize(c, 1)];
    FindsInteger(n, c);
  }

  lemma FindsInteger(n: int, c: int)
    ensures Finds(Some([Canonicalize(c, 1)]), [(n, 1)]) <==> n == c
  {
    hide Gcd, Canonicalize;
    var q := Canonicalize(c, 1);
    var cs, f := [q], [(n, 1)];
    assert f[0].1 == 1 && cs[0] == q;
    assert Finds(Some(cs), f) <==> q == Canonicalize(n, 1);
    TrueIffCanonical(q, n, 1);
    if q.num * 1 == n * q.den {
      CancelFactor(n, c, q.den);
    }
  }

  lemma IntegerRunShape(ps: seq<nat>, n: int)
    requires AboveFour(ps)
    ensures IntegerRun(ps, n).primes == ps && IntegerRun(ps, n).nout == 1
  {
  }

  lemma TimesInverse(x: int, y: int, n: int, p: int, m: int)
    requires Cong(n * p, 1, m) && Cong(x - n * y, 0, m)
    ensures Cong(x * p - y, 0, m)
  {
    CongRefl(p, m);
    CongRefl(y, m);
    CongMul(x - n * y, 0, p, p, m);
    CongMul(y, y, n * p, 1, m);
    CongAdd((x - n * y) * p, 0 * p, y * (n * p), y * 1, m);
    assert (x - n * y) * p + y * (n * p) == x * p;
    CongDifference(x * p, y, m);
  }

  /** The product of two numbers near p at even distances is not between p * p and p * p + p. */
  lemma Gap(p1: nat, p2: nat, p: nat, u: nat)
    requires (p1 - p) % 2 == 0 && (p2 - p) % 2 == 0 && Abs(p1 - p) <= u && Abs(p2 - p) <= u && u * u < p
    requires p * p < p1 * p2
    ensures p1 * p2 > p * p + p
  {
    var e := AroundBy(p, p1 - p, p2 - p, u);
    AroundSquare(p, p1, p2, e);
  }

  lemma OddDifference(p: nat, q: nat)
    requires p % 2 == q % 2 == 1
    ensures (p - q) % 2 == 0
  {
  }

  lemma AroundBy(p: nat, a: int, b: int, u: nat) returns (e: int)
    requires a % 2 == 0 && b % 2 == 0 && Abs(a) <= u && Abs(b) <= u && u * u < p
    ensures e == (a + b) * p + a * b && (e > 0 ==> e > p)
  {
    e := (a + b) * p + a * b;
    if e > 0 {
      GapAround(p, a, b, a + b, u);
    }
  }

  lemma AroundSquare(p: int, p1: int, p2: int, e: int)
    requires e == (p1 - p + (p2 - p)) * p + (p1 - p) * (p2 - p)
    ensures p1 * p2 == p * p + e
  {
  }

  lemma GapAround(p: nat, a: int, b: int, s: int, u: nat)
    requires s == a + b && s % 2 == 0 && Abs(a) <= u && Abs(b) <= u && u * u < p && s * p + a * b > 0
    ensures s * p + a * b > p
  {
    BoundedProduct(a, b, u);
    MulMono(2, s, p);
    MulMono(s, -2, p);
    if s == 0 {
      OppositeProduct(a, b);
    }
  }

  lemma BoundedProduct(a: int, b: int, u: nat)
    requires Abs(a) <= u && Abs(b) <= u
    ensures -(u * u) <= a * b <= u * u
  {
    AbsProduct(a, b);
    ProductMono(u, Abs(a), u, Abs(b));
  }

  lemma OppositeProduct(a: int, b: int)
    requires a + b == 0
    ensures a * b <= 0
  {
    assert a * b == -(a * a);
  }

  /** The only small fraction that agrees with 1 / p modulo m and whose denominator is at most p is 1 / p itself. */
  lemma OnlyInverse(m: nat, p: nat, x: int, y: nat, k: int)
    requires p > 1 && m > p * p + p && x * x <= m && 0 < y <= p && x * p - y == k * m
    ensures x == 1 && y == p
  {
    if x >= 1 {
      if x * p >= m {
        ProductTooLarge(x, p, m);
      }
      MulMono(1, x, p);
      MultipleBound(k, m);
      MulMono(2, x, p);
    } else {
      var z := -x;
      assert z * p == -(x * p);
      MulMono(0, z, p);
      MultipleBound(k, m);
      if z >= p {
        LargeNumerator(z, p, y, m);
      } else {
        MulMono(z + 1, p, p);
      }
    }
  }

  lemma ProductTooLarge(x: nat, p: nat, m: nat)
    requires x * x <= m && p * p < m
    ensures x * p < m
  {
    if x <= p {
      MulMono(x, p, p);
    } else {
      MulMono(p + 1, x, x);
      assert (p + 1) * x == x * p + x;
    }
  }

  lemma LargeNumerator(z: nat, p: nat, y: nat, m: nat)
    requires z >= p > 0 && z * z <= m && 0 < y <= p && m > p * p + p
    ensures z * p + y < m
  {
    if z == p {
    } else {
      ProductMono(z, p + 1, z - p, 1);
      assert z * z - z * p == z * (z - p);
    }
  }

  lemma PrimeOdd(p: nat)
    requires IsPrime(p) && p > 2
    ensures p % 2 == 1
  {
    DividesMod(2, p);
  }

  /** n is the inverse of the third prime modulo the first two. */
  ghost predicate InverseOfThird(ps: seq<nat>, n: nat) {
    TablePrimes(ps) && 3 <= |ps| && n < ps[0] * ps[1] && Cong(n * ps[2], 1, ps[0] * ps[1])
  }

  lemma TableGap(ps: seq<nat>)
    requires TablePrimes(ps) && 3 <= |ps| && ps[2] * ps[2] < ps[0] * ps[1]
    ensures ps[0] * ps[1] > ps[2] * ps[2] + ps[2]
  {
    hide FromTable, IsPrime;
    TableFacts(ps, 0, 2);
    TableFacts(ps, 1, 2);
    PrimeOdd(ps[0]);
    PrimeOdd(ps[1]);
    PrimeOdd(ps[2]);
    var v: nat :| Near(ps[0], ps[2], v);
    var w: nat :| Near(ps[1], ps[2], w);
    OddDifference(ps[0], ps[2]);
    OddDifference(ps[1], ps[2]);
    Gap(ps[0], ps[1], ps[2], if v > w then v else w);
  }

  /** After two primes the guess for the inverse n is 1 / ps[2] if this is small enough. */
  lemma InverseGuessed(ps: seq<nat>, n: nat)
    requires InverseOfThird(ps, n) && ps[2] * ps[2] < ps[0] * ps[1]
    ensures AboveFour(ps) && Divides(ps[2], Guessed(n, 1, ps, 2).den)
  {
    hide FromTable, IsPrime, Gcd, Canonicalize;
    TableFacts(ps, 0, 1);
    var m, p := TotMod(ps, 2), ps[2];
    FirstProducts(ps);
    assert m == ps[0] * ps[1];
    TableGap(ps);
    var s := SimplestPair(n, 1, m);
    CongRefl(1, m);
    CongSub(1, 1, n * p, 1, m);
    assert Agree(1, p, n, 1, m);
    TimesInverse(s.0, s.1, n, p, m);
    var k := CongElim(s.0 * p - s.1, 0, m);
    OnlyInverse(m, p, s.0, s.1, k);
    var q := Canonicalize(1, p);
    DividesIntro(p, q.den, q.num);
  }

  /** For the inverse of the third prime the first check rejects, and the second gives up exactly if the third prime is
      below the square root of the product of the first two. */
  lemma InverseChecks(ps: seq<nat>, n: nat)
    requires InverseOfThird(ps, n)
    ensures AboveFour(ps) && ValidRun(IntegerRun(ps, n)) && FaithfulTo(IntegerRun(ps, n), [(n, 1)], |ps|)
    ensures !Accepts(IntegerRun(ps, n), 1) && !Stuck(IntegerRun(ps, n), 1)
    ensures Stuck(IntegerRun(ps, n), 2) <==> ps[2] * ps[2] < ps[0] * ps[1]
  {
    hide FromTable, IsPrime, Gcd, GuessAgrees, IntegerRun, FaithfulTo, Guessed, Accepts, Stuck, AllTrue, Cong;
    TableFacts(ps, 0, 1);
    IntegerItself(ps, n);
    IntegerRunShape(ps, n);
    var run, f := IntegerRun(ps, n), [(n as int, 1)];
    FaithfulPrefix(run, f, |ps|, 2);
    FaithfulPrefix(run, f, |ps|, 3);
    FirstCheckNotStuck(run);
    CheckOutcome(run, f, 1);
    CheckOutcome(run, f, 2);
    InverseRejected(ps, n);
    if ps[2] * ps[2] < ps[0] * ps[1] {
      InverseGuessed(ps, n);
      assert GivesUpAt(f, ps, 2, 0);
    } else {
      SecondNotStuck(run);
    }
  }

  lemma IntegerItself(ps: seq<nat>, n: int)
    requires TablePrimes(ps)
    ensures AboveFour(ps) && ValidRun(IntegerRun(ps, n)) && FaithfulTo(IntegerRun(ps, n), [(n, 1)], |ps|)
  {
    forall i | 0 <= i < |ps|
      ensures Cong(n, n, ps[i])
    {
      CongRefl(n, ps[i]);
    }
    IntegerRunFaithful(ps, n, n, |ps|);
  }

  /** A denominator after two primes is not a multiple of the third if that is above the square root of their product. */
  lemma SecondNotStuck(run: Run)
    requires ValidRun(run) && FromTable(run.primes) && 3 <= |run.primes|
    requires run.primes[2] * run.primes[2] >= run.primes[0] * run.primes[1]
    ensures !Stuck(run, 2)
  {
    hide Gcd, Candidate, FromTable, IsPrime;
    TableFacts(run.primes, 0, 1);
    var m, p := TotMod(run.primes, 2), run.primes[2];
    FirstProducts(run.primes);
    assert m == run.primes[0] * run.primes[1];
    NewPrimeCoprime(run, p, 2);
    forall j | 0 <= j < run.nout
      ensures !StuckAt(run, 2, j)
    {
      CandidateSmall(run, j, 2);
      var den := Candidate(run, j, 2).den;
      NotCoprimeToPrime(den, p);
      if Divides(p, den) {
        DivisorBound(p, den);
        SquareMono(den, p);
        DividesIntro(p, m, p);
        assert false;
      }
    }
  }

  /** No fraction with a numerator and a denominator below the square root of the first prime agrees with the inverse. */
  lemma InverseRejected(ps: seq<nat>, n: nat)
    requires InverseOfThird(ps, n) && AboveFour(ps)
    ensures !GuessAgrees(n, 1, ps, 1)
  {
    hide FromTable, IsPrime, Gcd, IntegerRun, Candidate, Guessed, Cong, TotMod;
    TableFacts(ps, 0, 2);
    TableFacts(ps, 2, 1);
    FirstProducts(ps);
    IntegerItself(ps, n);
    IntegerRunShape(ps, n);
    var run := IntegerRun(ps, n);
    assert Faithful(run, 0, [(n as int, 1)][0].0, [(n as int, 1)][0].1, |ps|);
    CandidateIsGuessed(run, 0, n, 1, 1);
    var q := Guessed(n, 1, ps, 1);
    CandidateSmall(run, 0, 1);
    if GuessAgrees(n, 1, ps, 1) {
      assert Represents(run.images[0][0], n, 1, ps[0]);
      FirstGuess(run, 0);
      CheckOne(q, run.images[0][0], n, 1, ps[0]);
      NewPrimeCoprime(run, ps[1], 1);
      CrtUnique(q.num * 1 - n * q.den, 0, ps[0], ps[1]);
      assert ps[1] * ps[0] == ps[0] * ps[1];
      TimesInverse(q.num, q.den, n, ps[2], ps[1] * ps[0]);
      var k := CongElim(q.num * ps[2] - q.den, 0, ps[1] * ps[0]);
      TooSmall(ps[0], ps[1], ps[2], q.num, q.den, k);
    }
  }

  lemma FirstGuess(run: Run, j: nat)
    requires ValidRun(run) && 1 <= |run.primes| && j < run.nout
    ensures run.primes[0] > 1 && RatMod(Candidate(run, j, 1), run.primes[0]) == Some(run.images[0][j])
  {
    hide Gcd, Reconstruct, RatMod;
    FirstProducts(run.primes);
    PrimeRoundTrip(run.images[0][j], run.primes[0]);
  }

  lemma TooSmall(p1: nat, p2: nat, p: nat, x: int, y: int, k: int)
    requires p1 > 4 && x * x <= p1 && y * y <= p1 && y > 0 && p1 < p * p && p + 1 <= 2 * p2
    ensures x * p - y != k * (p2 * p1)
  {
    HalfRoot(x, p1);
    HalfRoot(y, p1);
    SumBelow(p1, p2, p, Abs(x), y);
    AbsProduct(x, p);
    MultipleBound(k, p2 * p1);
    SquareMono(y, p);
    MulMono(1, x, p);
    MulMono(x, 0, p);
  }

  lemma SumBelow(p1: nat, p2: nat, p: nat, x: nat, y: nat)
    requires 2 * x < p1 && 2 * y < p1 && p + 1 <= 2 * p2
    ensures x * p + y < p2 * p1
  {
    MulMono(2 * x + 1, p1, p);
    MulMono(p + 1, 2 * p2, p1);
    assert (2 * x + 1) * p == 2 * (x * p) + p;
    assert (p + 1) * p1 == p1 * p + p1 && (2 * p2) * p1 == 2 * (p2 * p1);
  }

  lemma ThirdInverse(ps: seq<nat>) returns (n: nat)
    requires TablePrimes(ps) && 3 <= |ps|
    ensures InverseOfThird(ps, n)
  {
    hide FromTable, IsPrime, Gcd;
    TableFacts(ps, 0, 1);
    var p, m := ps[2], ps[0] * ps[1];
    DistinctCoprime(p, ps[0]);
    DistinctCoprime(p, ps[1]);
    MulMono(4, ps[0], ps[1]);
    CoprimeProduct(p, ps[1], ps[0]);
    var i := CoprimeInverse(p, m);
    n := i % m;
    CongMod(i, m);
    CongRefl(p, m);
    CongMul(n, i, p, p, m);
    assert i * p == p * i;
    CongTrans(n * p, p * i, 1, m);
  }

  lemma DistinctCoprime(p: nat, q: nat)
    requires IsPrime(p) && IsPrime(q) && p != q
    ensures Gcd(p, q) == 1
  {
    hide Gcd;
    NotCoprimeToPrime(p, q);
    if Divides(q, p) {
      DivisorBound(q, p);
    }
  }

  lemma FiveEnough(ps: seq<nat>, n: nat)
    requires FromTable(ps) && 5 <= |ps| && n < ps[0] * ps[1]
    ensures AllSmall([(n, 1)], TotMod(ps, 5))
  {
    hide FromTable;
    TableFacts(ps, 0, 2);
    TableFacts(ps, 1, 3);
    TableFacts(ps, 4, 3);
    FirstProducts(ps);
    Regroup(ps[0], ps[1], ps[2], ps[3], ps[4]);
    FiveProduct(ps[0], ps[1], ps[2], ps[3], ps[4], n);
  }

  lemma FiveProduct(a: nat, b: nat, c: nat, d: nat, e: nat, n: nat)
    requires n < a * b && a <= 2 * c && b <= 2 * d && e >= 16
    ensures 4 * (n * n) <= (e * (d * c)) * (a * b) && 4 <= (e * (d * c)) * (a * b)
  {
    var m, q := a * b, d * c;
    ProductMono(2 * d, b, 2 * c, a);
    assert (2 * d) * (2 * c) == 4 * q && b * a == m;
    MulMono(16, e, q);
    FourSquares(e * q, m, n);
  }

  lemma FourSquares(w: nat, m: nat, n: nat)
    requires w >= 4 * m && n < m
    ensures 4 * (n * n) <= w * m && 4 <= w * m
  {
    MulMono(4 * m, w, m);
    ProductMono(m, n, m, n);
    ProductMono(m, 1, m, 1);
    assert (4 * m) * m == 4 * (m * m);
  }

  lemma Regroup(a: nat, b: nat, c: nat, d: nat, e: nat)
    ensures e * (d * (c * (b * a))) == (e * (d * c)) * (a * b)
  {
  }

  lemma StuckNotAccepted(run: Run, k: nat)
    requires ValidRun(run) && 1 <= k < |run.primes| && Stuck(run, k)
    ensures !Accepts(run, k)
  {
    hide RatMod, Candidate;
    var j :| 0 <= j < run.nout && StuckAt(run, k, j);
  }

  /** For all primes of a table whose third is below the square root of the product of the first two, as it is when the
      table is walked downwards, there is an integer for which the search gives up although five primes are enough. */
  lemma SearchCanGiveUp(ps: seq<nat>) returns (n: nat)
    requires TablePrimes(ps) && 6 <= |ps| && ps[2] * ps[2] < ps[0] * ps[1]
    ensures AboveFour(ps) && ValidRun(IntegerRun(ps, n)) && FaithfulTo(IntegerRun(ps, n), [(n, 1)], |ps|)
    ensures AllSmall([(n, 1)], TotMod(ps, 5))
    ensures Search(IntegerRun(ps, n), 1) == None
  {
    n := ThirdInverse(ps);
    InverseChecks(ps, n);
    FiveEnough(ps, n);
    hide *;
    IntegerRunShape(ps, n);
    StuckNotAccepted(IntegerRun(ps, n), 2);
    SearchUnfold(IntegerRun(ps, n), 1);
    SearchUnfold(IntegerRun(ps, n), 2);
  }
}
