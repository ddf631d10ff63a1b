/** Fermat's little theorem, by the binomial expansion of (a + 1)^p. */
module Fermat {
  import opened ModArith
  import opened IntegerMath

  function Choose(n: nat, k: nat): nat {
    if k == 0 then 1 else if n == 0 then 0 else Choose(n - 1, k - 1) + Choose(n - 1, k)
  }

  lemma {:induction false} ChooseAbove(n: nat, k: nat)
    requires k > n
    ensures Choose(n, k) == 0
    decreases n
  {
    if n > 0 {
      ChooseAbove(n - 1, k - 1);
      ChooseAbove(n - 1, k);
    }
  }

  lemma {:induction false} ChooseAll(n: nat)
    ensures Choose(n, n) == 1
    decreases n
  {
    if n > 0 {
      ChooseAll(n - 1);
      ChooseAbove(n - 1, n);
    }
  }

  /** k * C(n, k) = n * C(n - 1, k - 1) */
  lemma {:induction false} ChooseAbsorb(n: nat, k: nat)
    requires n > 0 && k > 0
    ensures k * Choose(n, k) == n * Choose(n - 1, k - 1)
    decreases n
  {
    if n == 1 {
      ChooseAbove(0, k);
      if k > 1 {
        ChooseAbove(0, k - 1);
      }
    } else {
      ChooseAbsorb(n - 1, k);
      if k > 1 {
        ChooseAbsorb(n - 1, k - 1);
        var x, y := Choose(n - 1, k - 1), Choose(n - 1, k);
        assert x == Choose(n - 2, k - 2) + Choose(n - 2, k - 1);
        AbsorbStep(n, k, x, y, Choose(n - 2, k - 1), Choose(n - 2, k - 2));
      } else {
        assert Choose(n - 1, 0) == 1 && Choose(n - 2, 0) == 1;
      }
    }
  }

  lemma AbsorbStep(n: int, k: int, x: int, y: int, u: int, v: int)
    requires k * y == (n - 1) * u && (k - 1) * x == (n - 1) * v && x == u + v
    ensures k * (x + y) == n * x
  {
  }

  /** A prime divides its inner binomial coefficients. */
  lemma ChoosePrime(p: nat, k: nat)
    requires IsPrime(p) && 0 < k < p
    ensures Cong(Choose(p, k), 0, p)
  {
    ChooseAbsorb(p, k);
    assert k * Choose(p, k) == Choose(p - 1, k - 1) * p;
    CongIntro(k * Choose(p, k), 0, Choose(p - 1, k - 1), p);
    EuclidPrime(k, Choose(p, k), p);
    if Cong(k, 0, p) {
      CongUnique(k, 0, p);
    }
  }

  /** Sum of C(n, k) * a^k for k < m. */
  function Expansion(a: int, n: nat, m: nat): int {
    if m == 0 then 0 else Expansion(a, n, m - 1) + Choose(n, m - 1) * Pow(a, m - 1)
  }

  /** The expansion of one power more. */
  lemma {:induction false} ExpansionNext(a: int, n: nat, m: nat)
    ensures Expansion(a, n + 1, m + 1) == Expansion(a, n, m + 1) + a * Expansion(a, n, m)
    decreases m
  {
    if m == 0 {
      assert Expansion(a, n + 1, 1) == Expansion(a, n + 1, 0) + Choose(n + 1, 0) * Pow(a, 0);
      assert Expansion(a, n, 1) == Expansion(a, n, 0) + Choose(n, 0) * Pow(a, 0);
    } else {
      ExpansionNext(a, n, m - 1);
      var x, y, z := Choose(n, m - 1), Choose(n, m), Pow(a, m - 1);
      assert Pow(a, m) == a * z && Choose(n + 1, m) == x + y;
      ExpansionTerm(a, x, y, z, Expansion(a, n, m - 1));
    }
  }

  lemma ExpansionTerm(a: int, x: int, y: int, z: int, e: int)
    ensures (x + y) * (a * z) == y * (a * z) + a * (x * z)
    ensures a * (e + x * z) == a * e + a * (x * z)
  {
  }

  lemma LastTerm(a: int, n: nat, m: nat)
    ensures Expansion(a, n, m + 1) == Expansion(a, n, m) + Choose(n, m) * Pow(a, m)
  {
  }

  lemma PowNext(x: int, n: nat)
    ensures Pow(x, n + 1) == x * Pow(x, n)
  {
  }

  lemma FirstExpansion(a: int)
    ensures Expansion(a, 0, 1) == 1 == Pow(a + 1, 0)
  {
  }

  /** The binomial theorem for (a + 1)^n. */
  lemma {:induction false} Binomial(a: int, n: nat)
    ensures Expansion(a, n, n + 1) == Pow(a + 1, n)
    decreases n
  {
    hide Expansion, Choose, Pow;
    if n == 0 {
      FirstExpansion(a);
    } else {
      Binomial(a, n - 1);
      ExpansionNext(a, n - 1, n);
      ChooseAbove(n - 1, n);
      LastTerm(a, n - 1, n);
      PowNext(a + 1, n - 1);
      var e := Expansion(a, n - 1, n);
      assert e + a * e == (a + 1) * e;
    }
  }

  /** The inner terms vanish modulo a prime. */
  lemma {:induction false} InnerTerms(a: int, p: nat, m: nat)
    requires IsPrime(p) && 1 <= m <= p
    ensures Cong(Expansion(a, p, m), 1, p)
    decreases m
  {
    if m == 1 {
      assert Expansion(a, p, 1) == Expansion(a, p, 0) + Choose(p, 0) * Pow(a, 0);
      CongRefl(1, p);
    } else {
      InnerTerms(a, p, m - 1);
      ChoosePrime(p, m - 1);
      var z := Pow(a, m - 1);
      CongRefl(z, p);
      CongMul(Choose(p, m - 1), 0, z, z, p);
      CongAdd(Expansion(a, p, m - 1), 1, Choose(p, m - 1) * z, 0 * z, p);
    }
  }

  /** a^p is a modulo the prime p. */
  lemma {:induction false} FermatPower(a: nat, p: nat)
    requires IsPrime(p) && p >= 2
    ensures Cong(Pow(a, p), a, p)
    decreases a
  {
    hide Expansion, Choose, Pow, IsPrime;
    if a == 0 {
      PowNext(0, p - 1);
      CongRefl(0, p);
    } else {
      var b := a - 1;
      FermatPower(b, p);
      Binomial(b, p);
      InnerTerms(b, p, p);
      ChooseAll(p);
      LastTerm(b, p, p);
      CongAdd(Expansion(b, p, p), 1, Pow(b, p), b, p);
    }
  }

  /** Fermat's little theorem. */
  lemma FermatLittle(a: nat, p: nat)
    requires IsPrime(p) && !Cong(a, 0, p)
    ensures Cong(Pow(a, p - 1), 1, p)
  {
    FermatPower(a, p);
    var z := Pow(a, p - 1);
    assert Pow(a, p) == a * z && a * z - a == a * (z - 1);
    var k := CongElim(Pow(a, p), a, p);
    CongIntro(a * (z - 1), 0, k, p);
    EuclidPrime(a, z - 1, p);
    var l := CongElim(z - 1, 0, p);
    CongIntro(z, 1, l, p);
  }
}

/** The generator of the table of 32-bit primes (scripts/generate_primes32.py:14-52). */
module PrimeTable {
  import opened ModArith
  import opened FFMod
  import opened IntegerMath
  import opened Fermat

  const LIMIT: nat := 0x1_0000_0000
  const SMALL_PRIMES: seq<nat> := [2, 3, 5, 7, 11, 13, 17, 19, 23, 29, 31, 37]
  const BASES: seq<nat> := [2, 3, 5, 7]

  function PowTwo(s: nat): (r: nat)
    ensures r >= 1
  {
    if s == 0 then 1 else 2 * PowTwo(s - 1)
  }

  /** n - 1 = 2^s * d with d odd. */
  predicate Splits(n: nat, d: nat, s: nat) {
    d % 2 == 1 && PowTwo(s) * d + 1 == n
  }

  /** n is 1 or -1 to base a at some step: a^d is 1, or a^(2^r d) is -1 for some r < s. */
  ghost predicate StrongProbablePrime(n: nat, a: nat, d: nat, s: nat)
    requires n > 0
  {
    Pow(a, d) % n == 1 || exists r :: 0 <= r < s && Pow(a, PowTwo(r) * d) % n == n - 1
  }

  /** The test of the script: trial division by small primes, then the strong test to each base below n. */
  ghost predicate Passes(n: nat) {
    n >= 2 &&
    if exists i :: 0 <= i < |SMALL_PRIMES| && n % SMALL_PRIMES[i] == 0 then n in SMALL_PRIMES
    else forall j, d, s {:trigger StrongProbablePrime(n, BASES[j], d, s)} ::
      0 <= j < |BASES| && BASES[j] < n && Splits(n, d, s) ==> StrongProbablePrime(n, BASES[j], d, s)
  }

  // ---- no prime is rejected ----

  /** A square root of 1 modulo a prime is 1 or -1. */
  lemma RootOfOne(x: int, p: nat)
    requires IsPrime(p) && Cong(x * x, 1, p)
    ensures Cong(x, 1, p) || Cong(x, -1, p)
  {
    var k := CongElim(x * x, 1, p);
    assert (x - 1) * (x + 1) == x * x - 1;
    CongIntro((x - 1) * (x + 1), 0, k, p);
    EuclidPrime(x - 1, x + 1, p);
    if Cong(x - 1, 0, p) {
      var l := CongElim(x - 1, 0, p);
      CongIntro(x, 1, l, p);
    } else {
      var l := CongElim(x + 1, 0, p);
      CongIntro(x, -1, l, p);
    }
  }

  lemma PowDouble(a: int, r: nat, d: nat)
    ensures Pow(a, PowTwo(r + 1) * d) == Pow(a, PowTwo(r) * d) * Pow(a, PowTwo(r) * d)
  {
    var e := PowTwo(r) * d;
    assert PowTwo(r + 1) * d == e + e;
    PowAdd(a, e, e);
  }

  /** If a^(2^s d) is 1 modulo a prime, some step is 1 or -1. */
  lemma {:induction false} SomeStep(p: nat, a: nat, d: nat, s: nat)
    requires IsPrime(p) && Cong(Pow(a, PowTwo(s) * d), 1, p)
    ensures Cong(Pow(a, d), 1, p) || exists r :: 0 <= r < s && Cong(Pow(a, PowTwo(r) * d), -1, p)
    decreases s
  {
    hide IsPrime, Pow;
    if s == 0 {
      assert PowTwo(0) * d == d;
    } else {
      PowDouble(a, s - 1, d);
      RootOfOne(Pow(a, PowTwo(s - 1) * d), p);
      if Cong(Pow(a, PowTwo(s - 1) * d), 1, p) {
        SomeStep(p, a, d, s - 1);
      }
    }
  }

  lemma ResidueIs(x: int, y: int, p: nat)
    requires p > 0 && 0 <= y < p && Cong(x, y, p)
    ensures x % p == y
  {
    CongModEq(x, y, p);
    QuotientUnique(y, p, 0, y);
  }

  lemma MinusOneIs(x: int, p: nat)
    requires p >= 2 && Cong(x, -1, p)
    ensures x % p == p - 1
  {
    var k := CongElim(x, -1, p);
    CongIntro(x, p - 1, k - 1, p);
    ResidueIs(x, p - 1, p);
  }

  lemma PrimeIsStrong(p: nat, a: nat, d: nat, s: nat)
    requires IsPrime(p) && 0 < a < p && Splits(p, d, s)
    ensures StrongProbablePrime(p, a, d, s)
  {
    hide Pow, PowTwo;
    if Cong(a, 0, p) {
      CongUnique(a, 0, p);
    }
    FermatLittle(a, p);
    assert p - 1 == PowTwo(s) * d;
    SomeStep(p, a, d, s);
    if Cong(Pow(a, d), 1, p) {
      ResidueIs(Pow(a, d), 1, p);
    } else {
      var r :| 0 <= r < s && Cong(Pow(a, PowTwo(r) * d), -1, p);
      MinusOneIs(Pow(a, PowTwo(r) * d), p);
    }
  }

  /** The test never rejects a prime. */
  lemma PrimePasses(p: nat)
    requires IsPrime(p)
    ensures Passes(p)
  {
    forall i | 0 <= i < |SMALL_PRIMES| && p % SMALL_PRIMES[i] == 0
      ensures p == SMALL_PRIMES[i]
    {
      DividesMod(SMALL_PRIMES[i], p);
      assert SMALL_PRIMES[i] >= p;
      QuotientSmall(p, SMALL_PRIMES[i]);
    }
    forall j, d, s | 0 <= j < |BASES| && BASES[j] < p && Splits(p, d, s)
      ensures StrongProbablePrime(p, BASES[j], d, s)
    {
      PrimeIsStrong(p, BASES[j], d, s);
    }
  }

  lemma QuotientSmall(n: nat, q: nat)
    requires 0 < n <= q && n % q == 0
    ensures n == q
  {
  }

  // ---- the test as it runs ----

  /** Splitting off the factors 2 of n - 1. */
  method SplitPowers(n: nat) returns (d: nat, s: nat)
    requires n >= 2
    ensures Splits(n, d, s)
  {
    d, s := n - 1, 0;
    while d % 2 == 0
      invariant d > 0 && PowTwo(s) * d + 1 == n
      decreases d
    {
      assert PowTwo(s + 1) * (d / 2) == PowTwo(s) * d;
      s := s + 1;
      d := d / 2;
    }
  }

  lemma PowTwoNext(s: nat, d: nat)
    ensures PowTwo(s + 1) * d == 2 * (PowTwo(s) * d)
    ensures PowTwo(0) * d == d
  {
  }

  lemma {:induction false} SplitUnique(n: nat, d: nat, s: nat, d': nat, s': nat)
    requires Splits(n, d, s) && Splits(n, d', s')
    ensures d == d' && s == s'
    decreases s
  {
    var t, t' := if s > 0 then s - 1 else 0, if s' > 0 then s' - 1 else 0;
    PowTwoNext(t, d);
    PowTwoNext(t', d');
    hide PowTwo;
    if s > 0 && s' > 0 {
      SplitUnique(PowTwo(t) * d + 1, d, t, d', t');
    }
  }

  /** The squarings for one base: false exactly when n is no strong probable prime to it. */
  method StrongTest(n: nat, a: nat, d: nat, s: nat) returns (b: bool)
    requires n >= 2 && Splits(n, d, s) && s > 0
    ensures b <==> StrongProbablePrime(n, a, d, s)
  {
    hide Pow, Splits, PowTwo;
    var x := Pow(a, d) % n;
    FirstPower(a, d);
    if x == 1 || x == n - 1 {
      return true;
    }
    for j := 1 to s
      invariant x == Pow(a, PowTwo(j - 1) * d) % n
      invariant forall r :: 0 <= r < j ==> Pow(a, PowTwo(r) * d) % n != n - 1
    {
      PowDouble(a, j - 1, d);
      SquareResidue(Pow(a, PowTwo(j - 1) * d), n);
      x := x * x % n;
      if x == n - 1 {
        return true;
      }
    }
    return false;
  }

  lemma FirstPower(a: int, d: nat)
    ensures Pow(a, PowTwo(0) * d) == Pow(a, d)
  {
  }

  lemma SquareResidue(x: int, n: nat)
    requires n > 0
    ensures (x % n) * (x % n) % n == x * x % n
  {
    CongMod(x, n);
    CongMul(x % n, x, x % n, x, n);
    CongModEq((x % n) * (x % n), x * x, n);
  }

  method IsPrimeU32(n: int) returns (b: bool)
    ensures b <==> n >= 0 && Passes(n)
  {
    if n < 2 {
      return false;
    }
    for i := 0 to |SMALL_PRIMES|
      invariant forall l :: 0 <= l < i ==> n % SMALL_PRIMES[l] != 0
    {
      var p := SMALL_PRIMES[i];
      if n % p == 0 {
        SmallDivisor(n, i);
        return n == p;
      }
    }
    var d, s := SplitPowers(n);
    OddSplit(n, d, s);
    for j := 0 to |BASES|
      invariant forall l :: 0 <= l < j && BASES[l] < n ==> StrongProbablePrime(n, BASES[l], d, s)
    {
      var a := BASES[j];
      if a >= n {
        continue;
      }
      var strong := StrongTest(n, a, d, s);
      if !strong {
        return false;
      }
    }
    forall d', s' | Splits(n, d', s')
      ensures d' == d && s' == s
    {
      SplitUnique(n, d, s, d', s');
    }
    return true;
  }

  /** The first small prime that divides n decides: another small prime is no multiple of it. */
  lemma SmallDivisor(n: nat, i: nat)
    requires i < |SMALL_PRIMES| && n % SMALL_PRIMES[i] == 0 && forall l :: 0 <= l < i ==> n % SMALL_PRIMES[l] != 0
    ensures n in SMALL_PRIMES <==> n == SMALL_PRIMES[i]
  {
  }

  lemma OddSplit(n: nat, d: nat, s: nat)
    requires Splits(n, d, s) && n % SMALL_PRIMES[0] != 0
    ensures s > 0
  {
  }

  // ---- the table ----

  /** The number of accepted numbers among n, n - 2, n - 4 and so on. */
  ghost function Accepted(n: int): nat
    decreases if n < 0 then 0 else n + 1
  {
    if n < 0 then 0 else Accepted(n - 2) + if Passes(n) then 1 else 0
  }

  predicate Descending(s: seq<nat>) {
    forall i, j :: 0 <= i < j < |s| ==> s[i] > s[j]
  }

  /** The largest accepted odd numbers below 2^32. There must be as many as are asked for. */
  method LargestU32Primes(count: nat) returns (primes: seq<nat>)
    requires count <= Accepted(LIMIT - 1)
    ensures |primes| == count && Descending(primes)
    ensures forall i :: 0 <= i < count ==> primes[i] < LIMIT && primes[i] % 2 == 1 && Passes(primes[i])
    ensures count > 0 ==> forall q: nat :: primes[count - 1] <= q < LIMIT && q % 2 == 1 && Passes(q) ==> q in primes
  {
    hide Passes;
    primes := [];
    var n: int := LIMIT - 1;
    while |primes| < count
      invariant |primes| <= count && n < LIMIT && n % 2 == 1 && Descending(primes)
      invariant count - |primes| <= Accepted(n)
      invariant forall i :: 0 <= i < |primes| ==> n < primes[i] < LIMIT && primes[i] % 2 == 1 && Passes(primes[i])
      invariant forall q: nat :: n < q < LIMIT && q % 2 == 1 && Passes(q) ==> q in primes
      decreases n + 1
    {
      var b := IsPrimeU32(n);
      if b {
        primes := primes + [n];
      }
      n := n - 2;
    }
  }

  /** No prime between the last element of the table and 2^32 is skipped. */
  lemma NoPrimeSkipped(primes: seq<nat>, q: nat)
    requires primes != [] && IsPrime(q) && primes[|primes| - 1] <= q < LIMIT && q % 2 == 1
    requires forall q: nat :: primes[|primes| - 1] <= q < LIMIT && q % 2 == 1 && Passes(q) ==> q in primes
    ensures q in primes
  {
    PrimePasses(q);
  }

  // ---- a composite number is accepted ----

  /** 151 * 751 * 28351, a number of 32 bits. */
  const COMPOSITE: nat := 3215031751

  /** r represents a^e modulo n. */
  ghost predicate Power(a: nat, e: nat, r: nat, n: nat) {
    Cong(Pow(a, e), r, n)
  }

  lemma PowerStart(a: nat, n: nat)
    ensures Power(a, 1, a, n)
  {
    assert Pow(a, 1) == a * Pow(a, 0);
    CongRefl(a, n);
  }

  /** The next power of a ladder, with the quotient of its reduction. */
  lemma Twice(a: nat, e: nat, r: nat, q: nat, t: nat, n: nat)
    requires Power(a, e, r, n) && r * r == q * n + t
    ensures Power(a, 2 * e, t, n)
  {
    PowAdd(a, e, e);
    CongMul(Pow(a, e), r, Pow(a, e), r, n);
    CongIntro(r * r, t, q, n);
    CongTrans(Pow(a, 2 * e), r * r, t, n);
  }

  lemma TwicePlus(a: nat, e: nat, r: nat, q: nat, t: nat, n: nat)
    requires Power(a, e, r, n) && r * r * a == q * n + t
    ensures Power(a, 2 * e + 1, t, n)
  {
    PowAdd(a, e, e);
    PowAdd(a, 2 * e, 1);
    assert Pow(a, 1) == a * Pow(a, 0);
    CongMul(Pow(a, e), r, Pow(a, e), r, n);
    CongRefl(a, n);
    CongMul(Pow(a, 2 * e), r * r, a, a, n);
    CongIntro(r * r * a, t, q, n);
    CongTrans(Pow(a, 2 * e + 1), r * r * a, t, n);
  }

  lemma PowerOfTwo()
    ensures Power(2, 70875, 1, 3215031751)
  {
    hide Power;
    PowerStart(2, 3215031751);
    Twice(2, 1, 2, 0, 4, 3215031751);
    Twice(2, 2, 4, 0, 16, 3215031751);
    Twice(2, 4, 16, 0, 256, 3215031751);
    TwicePlus(2, 8, 256, 0, 131072, 3215031751);
    Twice(2, 17, 131072, 5, 1104710429, 3215031751);
    TwicePlus(2, 34, 1104710429, 759174544, 371781538, 3215031751);
    Twice(2, 69, 371781538, 42992269, 2115112425, 3215031751);
    Twice(2, 138, 2115112425, 1391494988, 2612016637, 3215031751);
    TwicePlus(2, 276, 2612016637, 4244207485, 1822723303, 3215031751);
    TwicePlus(2, 553, 1822723303, 2066741790, 2629885328, 3215031751);
    Twice(2, 1107, 2629885328, 2151237491, 923090843, 3215031751);
    TwicePlus(2, 2214, 923090843, 530070475, 1468249573, 3215031751);
    TwicePlus(2, 4429, 1468249573, 1341048534, 787361624, 3215031751);
    Twice(2, 8859, 787361624, 192824946, 3173056930, 3215031751);
    TwicePlus(2, 17718, 3173056930, 6263260247, 3160947303, 3215031751);
    TwicePlus(2, 35437, 3160947303, 6215545367, 1, 3215031751);
  }

  lemma PowerOfThree()
    ensures Power(3, 70875, 3215031750, 3215031751)
  {
    hide Power;
    PowerStart(3, 3215031751);
    Twice(3, 1, 3, 0, 9, 3215031751);
    Twice(3, 2, 9, 0, 81, 3215031751);
    Twice(3, 4, 81, 0, 6561, 3215031751);
    TwicePlus(3, 8, 6561, 0, 129140163, 3215031751);
    Twice(3, 17, 129140163, 5187252, 1819228317, 3215031751);
    TwicePlus(3, 34, 1819228317, 3088235444, 1100375023, 3215031751);
    Twice(3, 69, 1100375023, 376613758, 1408820271, 3215031751);
    Twice(3, 138, 1408820271, 617342132, 370480309, 3215031751);
    TwicePlus(3, 276, 370480309, 128075555, 2218259638, 3215031751);
    TwicePlus(3, 553, 2218259638, 4591565063, 412357819, 3215031751);
    Twice(3, 1107, 412357819, 52888737, 2165148274, 3215031751);
    TwicePlus(3, 2214, 2165148274, 4374327295, 2524593683, 3215031751);
    TwicePlus(3, 4429, 2524593683, 5947288012, 1808844455, 3215031751);
    Twice(3, 8859, 1808844455, 1017693918, 3214656607, 3215031751);
    TwicePlus(3, 17718, 3214656607, 9642844520, 1029902827, 3215031751);
    TwicePlus(3, 35437, 1029902827, 989756787, 3215031750, 3215031751);
  }

  lemma PowerOfFive()
    ensures Power(5, 70875, 1, 3215031751)
  {
    hide Power;
    PowerStart(5, 3215031751);
    Twice(5, 1, 5, 0, 25, 3215031751);
    Twice(5, 2, 25, 0, 625, 3215031751);
    Twice(5, 4, 625, 0, 390625, 3215031751);
    TwicePlus(5, 8, 390625, 237, 976928138, 3215031751);
    Twice(5, 17, 976928138, 296851994, 758485550, 3215031751);
    TwicePlus(5, 34, 758485550, 894703962, 2218515038, 3215031751);
    Twice(5, 69, 2218515038, 1530874142, 517258802, 3215031751);
    Twice(5, 138, 517258802, 83220536, 2671236668, 3215031751);
    TwicePlus(5, 276, 2671236668, 11097099327, 2032979543, 3215031751);
    TwicePlus(5, 553, 2032979543, 6427628313, 1360878182, 3215031751);
    Twice(5, 1107, 1360878182, 576040788, 2952565336, 3215031751);
    TwicePlus(5, 2214, 2952565336, 13557629812, 2859803668, 3215031751);
    TwicePlus(5, 4429, 2859803668, 12719123251, 683928619, 3215031751);
    Twice(5, 8859, 683928619, 145491053, 1005823358, 3215031751);
    TwicePlus(5, 17718, 1005823358, 1573360243, 485905327, 3215031751);
    TwicePlus(5, 35437, 485905327, 367187644, 1, 3215031751);
  }

  lemma PowerOfSeven()
    ensures Power(7, 70875, 3215031750, 3215031751)
  {
    hide Power;
    PowerStart(7, 3215031751);
    Twice(7, 1, 7, 0, 49, 3215031751);
    Twice(7, 2, 49, 0, 2401, 3215031751);
    Twice(7, 4, 2401, 0, 5764801, 3215031751);
    TwicePlus(7, 8, 5764801, 72357, 461580100, 3215031751);
    Twice(7, 17, 461580100, 66268766, 1926420734, 3215031751);
    TwicePlus(7, 34, 1926420734, 8080068852, 1249571440, 3215031751);
    Twice(7, 69, 1249571440, 485665120, 2510448480, 3215031751);
    Twice(7, 138, 2510448480, 1960276618, 3121412282, 3215031751);
    TwicePlus(7, 276, 3121412282, 21213632623, 2548719795, 3215031751);
    TwicePlus(7, 553, 2548719795, 14143502047, 2535399878, 3215031751);
    Twice(7, 1107, 2535399878, 1999436720, 2447118164, 3215031751);
    TwicePlus(7, 2214, 2447118164, 13038350600, 381215672, 3215031751);
    TwicePlus(7, 4429, 381215672, 316412962, 790924626, 3215031751);
    Twice(7, 8859, 790924626, 194574054, 2482451322, 3215031751);
    TwicePlus(7, 17718, 2482451322, 13417581941, 737625097, 3215031751);
    TwicePlus(7, 35437, 737625097, 1184633863, 3215031750, 3215031751);
  }

  /** A power that is 1 or -1 is not changed by an odd exponent. */
  lemma {:induction false} OddMultiple(a: nat, e: nat, r: nat, m: nat)
    requires Power(a, e, r, 3215031751) && (r == 1 || r == 3215031750) && m % 2 == 1
    ensures Power(a, e * m, r, 3215031751)
    decreases m
  {
    if m == 1 {
      assert e * m == e;
    } else {
      OddMultiple(a, e, r, m - 2);
      var i, x := e * (m - 2), Pow(a, e);
      assert e * m == i + (e + e);
      PowAdd(a, i, e + e);
      PowAdd(a, e, e);
      CongMul(x, r, x, r, 3215031751);
      CongIntro(r * r, 1, if r == 1 then 0 else 3215031749, 3215031751);
      CongTrans(x * x, r * r, 1, 3215031751);
      CongMul(Pow(a, i), r, x * x, 1, 3215031751);
    }
  }

  lemma CompositeStrong(j: nat, d: nat, s: nat)
    requires j < |BASES| && d == 1607515875 && s == 1
    ensures StrongProbablePrime(COMPOSITE, BASES[j], d, s)
  {
    hide Power, Pow;
    var a, r := BASES[j], if j % 2 == 0 then 1 else 3215031750;
    PowerOfTwo();
    PowerOfThree();
    PowerOfFive();
    PowerOfSeven();
    OddMultiple(a, 70875, r, 22681);
    CompositeResidue(a, r);
    assert PowTwo(0) * d == d;
  }

  lemma CompositeResidue(a: nat, r: nat)
    requires Power(a, 70875 * 22681, r, 3215031751) && r < 3215031751
    ensures Pow(a, 1607515875) % COMPOSITE == r
  {
    hide Pow;
    ResidueIs(Pow(a, 1607515875), r, 3215031751);
  }

  /** The test accepts a composite number below 2^32. */
  lemma CompositePasses()
    ensures COMPOSITE < LIMIT && Passes(COMPOSITE) && !IsPrime(COMPOSITE)
  {
    hide StrongProbablePrime;
    DividesIntro(151, COMPOSITE, 751 * 28351);
    var d0, s0 := 1607515875, 1;
    assert Splits(COMPOSITE, d0, s0) by {
      assert PowTwo(1) == 2 * PowTwo(0);
    }
    forall j, d, s | 0 <= j < |BASES| && BASES[j] < COMPOSITE && Splits(COMPOSITE, d, s)
      ensures StrongProbablePrime(COMPOSITE, BASES[j], d, s)
    {
      SplitUnique(COMPOSITE, d, s, d0, s0);
      CompositeStrong(j, d, s);
    }
  }

  // ---- what acceptance means, and a composite number that is rejected ----

  lemma {:induction false} PowOne(x: int, n: int, k: nat)
    requires Cong(x, 1, n)
    ensures Cong(Pow(x, k), 1, n)
    decreases k
  {
    if k == 0 {
      CongRefl(1, n);
    } else {
      PowOne(x, n, k - 1);
      CongMul(x, 1, Pow(x, k - 1), 1, n);
    }
  }

  lemma {:induction false} SplitExists(m: nat) returns (d: nat, s: nat)
    requires m > 0
    ensures d % 2 == 1 && PowTwo(s) * d == m
    decreases m
  {
    if m % 2 == 1 {
      d, s := m, 0;
    } else {
      d, s := SplitExists(m / 2);
      s := s + 1;
      assert PowTwo(s) * d == 2 * (PowTwo(s - 1) * d);
    }
  }

  lemma {:induction false} StepsToOne(a: nat, d: nat, r: nat, s: nat, n: nat)
    requires r <= s && Cong(Pow(a, PowTwo(r) * d), 1, n)
    ensures Cong(Pow(a, PowTwo(s) * d), 1, n)
    decreases s
  {
    if r < s {
      StepsToOne(a, d, r, s - 1, n);
      PowDouble(a, s - 1, d);
      var x := Pow(a, PowTwo(s - 1) * d);
      CongMul(x, 1, x, 1, n);
    }
  }

  /** A strong probable prime satisfies Fermat's congruence. */
  lemma StrongIsFermat(n: nat, a: nat, d: nat, s: nat)
    requires n > 1 && Splits(n, d, s) && StrongProbablePrime(n, a, d, s)
    ensures Cong(Pow(a, n - 1), 1, n)
  {
    hide Pow;
    var x := Pow(a, d);
    if x % n == 1 {
      assert PowTwo(0) * d == d;
      CongMod(x, n);
      CongSym(1, x, n);
      StepsToOne(a, d, 0, s, n);
    } else {
      var r :| 0 <= r < s && Pow(a, PowTwo(r) * d) % n == n - 1;
      var y := Pow(a, PowTwo(r) * d);
      CongMod(y, n);
      CongSym(n - 1, y, n);
      CongIntro(n - 1, -1, 1, n);
      CongTrans(y, n - 1, -1, n);
      CongMul(y, -1, y, -1, n);
      PowDouble(a, r, d);
      StepsToOne(a, d, r + 1, s, n);
    }
  }

  /** A number above 37 that the test accepts has no prime factor up to 37 and satisfies Fermat's congruence for the
      bases 2, 3, 5 and 7. */
  lemma PassedMeans(n: nat)
    requires n > 37 && Passes(n)
    ensures n % 2 != 0 && n % 3 != 0 && n % 5 != 0 && n % 7 != 0 && n % 11 != 0 && n % 13 != 0
    ensures n % 17 != 0 && n % 19 != 0 && n % 23 != 0 && n % 29 != 0 && n % 31 != 0 && n % 37 != 0
    ensures Cong(Pow(2, n - 1), 1, n) && Cong(Pow(3, n - 1), 1, n) && Cong(Pow(5, n - 1), 1, n) && Cong(Pow(7, n - 1), 1, n)
  {
    assert n !in SMALL_PRIMES;
    assert forall i :: 0 <= i < |SMALL_PRIMES| ==> n % SMALL_PRIMES[i] != 0;
    assert SMALL_PRIMES[0] == 2 && SMALL_PRIMES[1] == 3 && SMALL_PRIMES[2] == 5 && SMALL_PRIMES[3] == 7;
    assert SMALL_PRIMES[4] == 11 && SMALL_PRIMES[5] == 13 && SMALL_PRIMES[6] == 17 && SMALL_PRIMES[7] == 19;
    assert SMALL_PRIMES[8] == 23 && SMALL_PRIMES[9] == 29 && SMALL_PRIMES[10] == 31 && SMALL_PRIMES[11] == 37;
    var d, s := SplitExists(n - 1);
    hide Pow, StrongProbablePrime, PowTwo;
    forall j | 0 <= j < |BASES|
      ensures Cong(Pow(BASES[j], n - 1), 1, n)
    {
      assert StrongProbablePrime(n, BASES[j], d, s);
      StrongIsFermat(n, BASES[j], d, s);
    }
    assert BASES[0] == 2 && BASES[1] == 3 && BASES[2] == 5 && BASES[3] == 7;
  }

  lemma RejectedPower()
    ensures Power(2, 4294967292, 1869716612, 4294967293)
  {
    hide Power;
    PowerStart(2, 4294967293);
    TwicePlus(2, 1, 2, 0, 8, 4294967293);
    TwicePlus(2, 3, 8, 0, 128, 4294967293);
    TwicePlus(2, 7, 128, 0, 32768, 4294967293);
    TwicePlus(2, 15, 32768, 0, 2147483648, 4294967293);
    TwicePlus(2, 31, 2147483648, 2147483649, 2147483651, 4294967293);
    TwicePlus(2, 63, 2147483651, 2147483655, 2147483687, 4294967293);
    TwicePlus(2, 127, 2147483687, 2147483727, 2147486927, 4294967293);
    TwicePlus(2, 255, 2147486927, 2147490207, 2169007007, 4294967293);
    TwicePlus(2, 511, 2169007007, 2190746087, 1897463607, 4294967293);
    TwicePlus(2, 1023, 1897463607, 1676552063, 4182225439, 4294967293);
    TwicePlus(2, 2047, 4182225439, 8144886062, 3735915276, 4294967293);
    TwicePlus(2, 4095, 3735915276, 6499263904, 2644820480, 4294967293);
    TwicePlus(2, 8191, 2644820480, 3257335804, 2357002228, 4294967293);
    TwicePlus(2, 16383, 2357002228, 2586962425, 1998962443, 4294967293);
    TwicePlus(2, 32767, 1998962443, 1860713051, 1345815555, 4294967293);
    TwicePlus(2, 65535, 1345815555, 843414808, 1368041306, 4294967293);
    TwicePlus(2, 131071, 1368041306, 871502336, 951274824, 4294967293);
    TwicePlus(2, 262143, 951274824, 421387977, 2674025691, 4294967293);
    TwicePlus(2, 524287, 2674025691, 3329670709, 640934225, 4294967293);
    TwicePlus(2, 1048575, 640934225, 191292111, 1398775727, 4294967293);
    TwicePlus(2, 2097151, 1398775727, 911100551, 1709478615, 4294967293);
    TwicePlus(2, 4194303, 1709478615, 1360809960, 95998170, 4294967293);
    TwicePlus(2, 8388607, 95998170, 4291370, 3494536390, 4294967293);
    TwicePlus(2, 16777215, 3494536390, 5686555332, 1293707924, 4294967293);
    TwicePlus(2, 33554431, 1293707924, 779368073, 2497343163, 4294967293);
    TwicePlus(2, 67108863, 2497343163, 2904200404, 68302766, 4294967293);
    TwicePlus(2, 134217727, 68302766, 2172434, 2710300350, 4294967293);
    TwicePlus(2, 268435455, 2710300350, 3420621153, 541296171, 4294967293);
    TwicePlus(2, 536870911, 541296171, 136439476, 2584464014, 4294967293);
    Twice(2, 1073741823, 2584464014, 1555181630, 4136564606, 4294967293);
    Twice(2, 2147483646, 4136564606, 3984003968, 1869716612, 4294967293);
  }

  /** 9241 * 464773, which has no small factor, is rejected. */
  lemma CompositeRejected()
    ensures 4294967293 == 9241 * 464773 < LIMIT && !Passes(4294967293)
  {
    hide Passes, Pow;
    if Passes(4294967293) {
      PassedMeans(4294967293);
      RejectedPower();
      CongSym(Pow(2, 4294967292), 1, 4294967293);
      CongTrans(1, Pow(2, 4294967292), 1869716612, 4294967293);
      CongUnique(1, 1869716612, 4294967293);
    }
  }
}
