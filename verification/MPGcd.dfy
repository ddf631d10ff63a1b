/** Rational reconstruction and Chinese remainders over unbounded integers (src/mp_gcd.cc). */
module MPGcd {
  import opened Common
  import opened ModArith
  import opened Gcds
  import opened FFMod

  /** A fraction in lowest terms with a positive denominator (MPRational after canonicalize). */
  datatype Rational = Rational(num: int, den: int)

  /** The two fractions are equal. */
  predicate SameFraction(num: int, den: int, n: int, d: int) {
    num * d == n * den
  }

  predicate Canonical(q: Rational) {
    q.den > 0 && Gcd(Abs(q.num), q.den) == 1
  }

  // ---- Bezout coefficients and coprimality ----

  function Bezout(a: nat, b: nat): (r: (int, int))
    ensures a * r.0 + b * r.1 == Gcd(a, b)
    decreases b
  {
    if b == 0 then (1, 0) else
      var s := Bezout(b, a % b);
      BezoutStep(a, b, s.0, s.1);
      (s.1, s.0 - a / b * s.1)
  }

  lemma BezoutStep(a: nat, b: nat, x: int, y: int)
    requires b > 0
    ensures a * y + b * (x - a / b * y) == b * x + (a % b) * y
  {
  }

  lemma NegatedFactor(n: int, k: int)
    ensures (-k) * n == -(n * k)
  {
  }

  /** A number coprime to n is invertible mod n. */
  lemma CoprimeInverse(z: nat, n: nat) returns (inv: int)
    requires n > 0 && Gcd(z, n) == 1
    ensures inv == Bezout(z, n).0 && Cong(z * inv, 1, n)
  {
    hide Gcd, Bezout;
    inv := Bezout(z, n).0;
    var k := Bezout(z, n).1;
    NegatedFactor(n, k);
    CongIntro(z * inv, 1, -k, n);
  }

  /** A common divisor of coprime numbers is 1. */
  lemma CoprimeDivisor(z: nat, n: nat, d: int)
    requires Gcd(z, n) == 1 && d > 0 && Divides(d, z) && Divides(d, n)
    ensures d == 1
  {
    GcdGreatest(z, n);
    DivisorBound(d, 1);
  }

  lemma CommonFactor(x: int, y: int, g: int, i: int, k: int)
    ensures (x * g) * i - k * (y * g) == (x * i - k * y) * g
  {
  }

  lemma InvertibleCoprime(z: nat, n: nat, inv: int)
    requires n > 1 && Cong(z * inv, 1, n)
    ensures Gcd(z, n) == 1
  {
    hide Gcd;
    GcdGreatest(z, n);
    var g := Gcd(z, n);
    var k := CongElim(z * inv, 1, n);
    var x := DividesElim(g, z);
    var y := DividesElim(g, n);
    CommonFactor(x, y, g, inv, k);
    assert (x * g) * inv - k * (y * g) == 1;
    DividesIntro(g, 1, x * inv - k * y);
    DivisorBound(g, 1);
  }

  /** num / den in lowest terms. */
  function Canonicalize(num: int, den: int): (q: Rational)
    requires den != 0
    ensures Canonical(q) && SameFraction(q.num, q.den, num, den) && q.den <= Abs(den)
  {
    var g := Gcd(Abs(num), Abs(den));
    CanonicalFacts(num, den);
    if den > 0 then Rational(num / g, den / g) else Rational(-num / g, -den / g)
  }

  lemma ExactQuotient(x: int, g: int, k: int)
    requires g > 0 && x == k * g
    ensures x / g == k
  {
    assert x % g == 0 by {
      DividesIntro(g, x, k);
      DividesMod(g, x);
    }
    assert x == x / g * g;
    assert (x / g - k) * g == 0;
    MultipleBound(x / g - k, g);
  }

  /** x is an exact multiple of g. */
  lemma Multiple(x: int, g: int) returns (k: int)
    requires g > 0 && Divides(g, Abs(x))
    ensures x == k * g && x / g == k && (x > 0 ==> 0 < k <= x) && (x == 0 ==> k == 0)
  {
    var l := DividesElim(g, Abs(x));
    k := if x < 0 then -l else l;
    assert (-l) * g == -(l * g);
    ExactQuotient(x, g, k);
    MultipleBound(k, g);
    if x > 0 {
      MulMono(1, g, k);
      assert 1 * k <= g * k == k * g;
    }
  }

  lemma CanonicalFacts(num: int, den: int)
    requires den != 0
    ensures var g := Gcd(Abs(num), Abs(den));
      && g > 0
      && Canonical(if den > 0 then Rational(num / g, den / g) else Rational(-num / g, -den / g))
      && SameFraction(if den > 0 then num / g else -num / g, if den > 0 then den / g else -den / g, num, den)
      && (if den > 0 then den / g else -den / g) <= Abs(den)
  {
    hide Gcd;
    GcdGreatest(Abs(num), Abs(den));
    var g := Gcd(Abs(num), Abs(den));
    var s := if den > 0 then 1 else -1;
    var x := Multiple(s * num, g);
    var y := Multiple(s * den, g);
    QuotientsCoprime(Abs(num), Abs(den), Abs(x), y, g);
    ScaledFraction(num, den, x, y, g, s);
  }

  lemma ScaledFraction(num: int, den: int, x: int, y: int, g: int, s: int)
    requires (s == 1 || s == -1) && s * num == x * g && s * den == y * g
    ensures SameFraction(x, y, num, den)
  {
  }

  lemma Scaled(i: int, h: int, g: int)
    ensures (i * h) * g == i * (h * g)
  {
  }

  lemma QuotientsCoprime(a: nat, b: nat, x: nat, y: nat, g: nat)
    requires b > 0 && g == Gcd(a, b) > 0 && a == x * g && b == y * g && y > 0
    ensures Gcd(x, y) == 1
  {
    hide Gcd;
    GcdGreatest(a, b);
    GcdGreatest(x, y);
    var h := Gcd(x, y);
    var i := DividesElim(h, x);
    var j := DividesElim(h, y);
    Scaled(i, h, g);
    Scaled(j, h, g);
    MultipleBound(h, g);
    var hg := h * g;
    DividesIntro(hg, a, i);
    DividesIntro(hg, b, j);
    DivisorBound(hg, g);
    MulMono(2, h, g);
  }

  // ---- rational reconstruction ----

  /** rr and r are small multiples of a modulo b: remainders and cofactors of a Euclidean descent. */
  ghost predicate Descent(a: nat, b: nat, rr: int, r: int, ss: int, s: int) {
    && 0 <= rr && 0 <= r && rr * Abs(s) + r * Abs(ss) == b
    && Cong(rr, ss * a, b) && Cong(r, s * a, b)
    && (ss <= 0 <= s || s <= 0 <= ss)
    && Gcd(rr, r) == Gcd(a, b)
    && (s == 0 ==> ss == 1 && rr == a && r == b)
    && (ss == 0 ==> s == 1 && rr == b && r == a)
    && (if a == 0 then rr == 0 else rr > 0)
    && ss * ss < b
  }

  lemma DescentStart(a: nat, b: nat)
    requires a < b && b > 1
    ensures Descent(a, b, a, b, 1, 0)
  {
    CongRefl(a, b);
    CongIntro(b, 0 * a, 1, b);
  }

  /** The cofactors grow in absolute value and keep opposite signs. */
  lemma CofactorStep(rr: int, r: int, ss: int, s: int, q: int, b: int)
    requires 0 <= r && 0 <= q && 0 <= rr - q * r && rr * Abs(s) + r * Abs(ss) == b
    requires ss <= 0 <= s || s <= 0 <= ss
    ensures r * Abs(ss - q * s) + (rr - q * r) * Abs(s) == b
    ensures s <= 0 <= ss - q * s || ss - q * s <= 0 <= s
    ensures ss != 0 ==> ss - q * s != 0
    ensures q >= 1 && s != 0 ==> ss - q * s != 0
  {
  }

  /** A cofactor times the remainder before it stays below b, so it is small while that is large. */
  lemma CofactorBound(rr: int, s: int, b: int)
    requires b > 0 && 0 <= rr && rr * Abs(s) <= b && rr * rr > b
    ensures s * s < b
  {
  }

  lemma ProductMono(x: int, x0: int, y: int, y0: int)
    requires x >= x0 >= 0 && y >= y0 >= 0
    ensures x * y >= x0 * y0
  {
  }

  lemma CongStep(a: nat, b: nat, rr: int, r: int, ss: int, s: int, q: int)
    requires Cong(rr, ss * a, b) && Cong(r, s * a, b)
    ensures Cong(rr - q * r, (ss - q * s) * a, b)
  {
    CongRefl(q, b);
    CongMul(q, q, r, s * a, b);
    CongSub(rr, ss * a, q * r, q * (s * a), b);
    assert (ss - q * s) * a == ss * a - q * (s * a);
  }

  lemma GcdStep(x: nat, y: nat)
    requires y > 0
    ensures Gcd(x, y) == Gcd(y, x % y)
  {
  }

  lemma Quotient(x: nat, y: nat)
    requires y > 0
    ensures var q := x / y; q >= 0 && x - q * y == x % y && (x >= y <==> q >= 1)
  {
  }

  lemma DescentStep(a: nat, b: nat, rr: nat, r: nat, ss: int, s: int)
    requires a < b && b > 1 && Descent(a, b, rr, r, ss, s) && rr * rr > b && r > 0
    ensures 0 <= rr - rr / r * r < r && Descent(a, b, r, rr - rr / r * r, s, ss - rr / r * s)
  {
    hide Descent;
    Quotient(rr, r);
    GcdStep(rr, r);
    DescentBy(a, b, rr, r, ss, s, rr / r);
  }

  lemma DescentBy(a: nat, b: nat, rr: nat, r: nat, ss: int, s: int, q: int)
    requires a < b && b > 1 && Descent(a, b, rr, r, ss, s) && rr * rr > b && r > 0
    requires q >= 0 && 0 <= rr - q * r < r && (rr >= r <==> q >= 1) && Gcd(rr, r) == Gcd(r, rr - q * r)
    ensures Descent(a, b, r, rr - q * r, s, ss - q * s)
  {
    hide Gcd, Cong, Abs;
    DescentCofactor(a, b, rr, r, ss, s);
    CofactorStep(rr, r, ss, s, q, b);
    CongStep(a, b, rr, r, ss, s, q);
    FirstSteps(rr, r, ss, s, q);
    assert rr > 0;
    if s == 0 {
      assert q * r == 0;
    }
    DescentIntro(a, b, r, rr - q * r, s, ss - q * s);
  }

  lemma DescentCofactor(a: nat, b: nat, rr: nat, r: nat, ss: int, s: int)
    requires b > 1 && Descent(a, b, rr, r, ss, s) && rr * rr > b
    ensures s * s < b
  {
    MulMono(0, Abs(ss), r);
    assert Abs(ss) * r == r * Abs(ss);
    CofactorBound(rr, s, b);
  }

  lemma DescentIntro(a: nat, b: nat, rr: int, r: int, ss: int, s: int)
    requires rr > 0 && 0 <= r && rr * Abs(s) + r * Abs(ss) == b && a > 0 && s != 0 && ss * ss < b
    requires Cong(rr, ss * a, b) && Cong(r, s * a, b) && (ss <= 0 <= s || s <= 0 <= ss) && Gcd(rr, r) == Gcd(a, b)
    requires ss == 0 ==> s == 1 && rr == b && r == a
    ensures Descent(a, b, rr, r, ss, s)
  {
    hide Gcd, Cong, Abs;
  }

  /** The two starting pairs. */
  lemma FirstSteps(rr: nat, r: nat, ss: int, s: int, q: int)
    requires (s == 0 ==> ss == 1 && rr < r) && (ss == 0 ==> s == 1 && r < rr)
    requires q >= 0 && (rr >= r <==> q >= 1) && (ss != 0 ==> ss - q * s != 0) && (q >= 1 && s != 0 ==> ss - q * s != 0)
    ensures ss - q * s != 0 && (s == 0 ==> q == 0 && ss - q * s == 1)
  {
  }

  /** The reconstruction before it is brought to lowest terms. */
  ghost predicate Reconstructs(a: int, b: int, num: int, den: int) {
    Cong(num, den * a, b) && num * num <= b && 0 < den * den < b
  }

  /** There is no reconstruction with these bounds: the common factor of a and b is too large. */
  predicate HasLargeFactor(a: nat, b: nat) {
    a != 0 && Gcd(a, b) * Gcd(a, b) > b
  }

  lemma DescentFactor(a: nat, b: nat, rr: nat, r: nat, ss: int, s: int)
    requires a < b && b > 1 && Descent(a, b, rr, r, ss, s)
    ensures rr * rr <= b ==> ss != 0 && !HasLargeFactor(a, b)
    ensures rr * rr > b && r == 0 ==> HasLargeFactor(a, b)
  {
    if rr * rr <= b {
      if ss == 0 {
        MulMono(2, b, b);
        assert false;
      }
      if a != 0 {
        var g := Gcd(a, b);
        hide Gcd;
        GcdGreatest(rr, r);
        DivisorBound(g, rr);
        ProductMono(rr, g, rr, g);
      }
    }
  }

  /** q is a reconstruction of a mod b in lowest terms. */
  ghost predicate IsReconstruction(a: int, b: int, q: Rational) {
    Canonical(q) && exists num, den :: Reconstructs(a, b, num, den) && SameFraction(q.num, q.den, num, den)
  }

  /** The descent from given remainders and cofactors: the numerator and denominator it ends with. */
  function Descend(b: nat, rr: nat, r: nat, ss: int, s: int): Option<(int, int)>
    decreases r
  {
    if rr * rr <= b then Some((rr, ss))
    else if r == 0 then None
    else Descend(b, r, rr % r, s, ss - rr / r * s)
  }

  lemma {:induction false} DescendMeets(a: nat, b: nat, rr: nat, r: nat, ss: int, s: int)
    requires a < b && b > 1 && Descent(a, b, rr, r, ss, s)
    ensures var res := Descend(b, rr, r, ss, s);
      && (res.None? <==> HasLargeFactor(a, b))
      && (res.Some? ==> Reconstructs(a, b, res.value.0, res.value.1))
    decreases r
  {
    DescentFactor(a, b, rr, r, ss, s);
    if rr * rr > b && r != 0 {
      hide Descent, HasLargeFactor, Reconstructs;
      DescentStep(a, b, rr, r, ss, s);
      Quotient(rr, r);
      DescendMeets(a, b, r, rr % r, s, ss - rr / r * s);
    } else if rr * rr <= b {
      assert ss * ss > 0;
    }
  }

  /** Rational reconstruction of a mod b. */
  function Reconstruct(a: nat, b: nat): (res: Option<Rational>)
    requires a < b && b > 1
  {
    var found := Descend(b, a, b, 1, 0);
    if found.None? then None else
      DescentStart(a, b);
      DescendMeets(a, b, a, b, 1, 0);
      Some(Canonicalize(found.value.0, found.value.1))
  }

  /** It fails exactly when a and b have too large a common factor. */
  lemma ReconstructMeets(a: nat, b: nat)
    requires a < b && b > 1
    ensures Reconstruct(a, b).None? <==> HasLargeFactor(a, b)
    ensures Reconstruct(a, b).Some? ==> IsReconstruction(a, b, Reconstruct(a, b).value)
  {
    DescentStart(a, b);
    DescendMeets(a, b, a, b, 1, 0);
  }

  // ---- the smallest denominator ----

  /** Remainders and cofactors of a descent span all pairs with x = y * a mod b. */
  lemma DescentSpans(a: nat, b: nat, rr: nat, r: nat, ss: int, s: int, x: int, y: int) returns (i: int, k: int)
    requires b > 0 && Descent(a, b, rr, r, ss, s) && Cong(x, y * a, b)
    ensures x == i * rr + k * r && y == i * ss + k * s
  {
    hide Gcd;
    i := CrossMultiple(a, b, x, y, r, s);
    k := CrossMultiple(a, b, x, y, rr, ss);
    SpanBy(b, rr, r, ss, s, x, y, i, k);
    if s > 0 || ss < 0 {
      k := -k;
    } else {
      i := -i;
    }
  }

  lemma CrossMultiple(a: int, b: int, x: int, y: int, r: int, s: int) returns (i: int)
    requires Cong(x, y * a, b) && Cong(r, s * a, b)
    ensures x * s - r * y == i * b
  {
    CongSym(r, s * a, b);
    assert s * a == a * s;
    CrossDifference(a, x, y, r, s, b);
    i := CongElim(x * s - r * y, 0, b);
  }

  lemma SpanBy(b: int, rr: nat, r: nat, ss: int, s: int, x: int, y: int, i: int, k: int)
    requires b > 0 && rr * Abs(s) + r * Abs(ss) == b && (ss <= 0 <= s || s <= 0 <= ss)
    requires x * s - r * y == i * b && x * ss - rr * y == k * b
    ensures if s > 0 || ss < 0 then x == i * rr + (-k) * r && y == i * ss + (-k) * s
            else x == (-i) * rr + k * r && y == (-i) * ss + k * s
  {
    SpanTimes(b, rr, r, ss, s, x, y, i, k);
    Negations(i, k, rr, r);
    Negations(i, k, ss, s);
    if s > 0 || ss < 0 {
      CancelFactor(x, i * rr - k * r, b);
      CancelFactor(y, i * ss - k * s, b);
    } else {
      CancelFactor(-x, i * rr - k * r, b);
      CancelFactor(-y, i * ss - k * s, b);
    }
  }

  lemma Negations(i: int, k: int, u: int, v: int)
    ensures (-i) * u == -(i * u) && (-k) * v == -(k * v)
  {
  }

  lemma SpanTimes(b: int, rr: nat, r: nat, ss: int, s: int, x: int, y: int, i: int, k: int)
    requires b > 0 && rr * Abs(s) + r * Abs(ss) == b && (ss <= 0 <= s || s <= 0 <= ss)
    requires x * s - r * y == i * b && x * ss - rr * y == k * b
    ensures var e := if s > 0 || ss < 0 then 1 else -1;
      (e * x) * b == (i * rr - k * r) * b && (e * y) * b == (i * ss - k * s) * b
  {
    var e := rr * s - r * ss;
    CrossProducts(x, y, rr, r, ss, s);
    Combination(i, k, rr, r, b);
    Combination(i, k, ss, s, b);
    if s > 0 || ss < 0 {
      assert r * (-ss) == -(r * ss);
      assert e == b;
    } else {
      assert rr * (-s) == -(rr * s);
      assert e == -b;
      assert x * e == (-x) * b && y * e == (-y) * b;
    }
  }

  lemma CrossProducts(x: int, y: int, rr: int, r: int, ss: int, s: int)
    ensures (x * s - r * y) * rr - (x * ss - rr * y) * r == x * (rr * s - r * ss)
    ensures (x * s - r * y) * ss - (x * ss - rr * y) * s == y * (rr * s - r * ss)
  {
  }

  lemma Combination(i: int, k: int, u: int, v: int, b: int)
    ensures (i * b) * u - (k * b) * v == (i * u - k * v) * b
  {
  }

  lemma CancelFactor(x: int, y: int, b: int)
    requires b > 0 && x * b == y * b
    ensures x == y
  {
    assert (x - y) * b == 0;
    MultipleBound(x - y, b);
  }

  /** A smaller denominator than the next cofactor has a numerator at least as large as the last remainder. */
  lemma BelowCofactor(a: nat, b: nat, rr: nat, r: nat, ss: int, s: int, x: int, y: int)
    requires b > 0 && Descent(a, b, rr, r, ss, s) && Cong(x, y * a, b) && 0 < Abs(y) < Abs(s)
    ensures Abs(x) >= rr
  {
    var i, k := DescentSpans(a, b, rr, r, ss, s, x, y);
    SpanBound(rr, r, ss, s, i, k);
  }

  lemma SpanBound(rr: nat, r: nat, ss: int, s: int, i: int, k: int)
    requires (ss <= 0 <= s || s <= 0 <= ss) && 0 < Abs(i * ss + k * s) < Abs(s)
    ensures Abs(i * rr + k * r) >= rr
  {
    ScaledBound(i, rr);
    ScaledBound(k, r);
    ScaledBound(i, ss);
    ScaledBound(k, s);
  }

  /** The sign and size of a multiple. */
  lemma ScaledBound(i: int, x: int)
    ensures i >= 1 && x >= 0 ==> i * x >= x
    ensures i >= 1 && x <= 0 ==> i * x <= x
    ensures i <= -1 && x >= 0 ==> i * x <= -x
    ensures i <= -1 && x <= 0 ==> i * x >= -x
    ensures i == 0 ==> i * x == 0
  {
    assert i >= 1 && x >= 0 ==> (i - 1) * x >= 0;
    assert i >= 1 && x <= 0 ==> (i - 1) * x <= 0;
    assert i <= -1 && x >= 0 ==> (i + 1) * x <= 0;
    assert i <= -1 && x <= 0 ==> (i + 1) * x >= 0;
  }

  lemma SquareMono(x: int, y: nat)
    ensures Abs(x) >= y <==> x * x >= y * y
  {
    var z := Abs(x);
    assert x * x == z * z by {
      assert (-x) * (-x) == x * x;
    }
    if z >= y {
      ProductMono(z, y, z, y);
    } else {
      ProductMono(y, z + 1, y, z + 1);
      assert (z + 1) * (z + 1) == z * z + 2 * z + 1;
    }
  }

  /** The descent ends with the smallest denominator that has a small numerator. */
  lemma {:induction false} DescendSmallest(a: nat, b: nat, rr: nat, r: nat, ss: int, s: int, x: int, y: int)
    requires a < b && b > 1 && Descent(a, b, rr, r, ss, s) && rr * rr > b && Descend(b, rr, r, ss, s).Some?
    requires y != 0 && x * x <= b && Cong(x, y * a, b)
    ensures Abs(Descend(b, rr, r, ss, s).value.1) <= Abs(y)
    decreases r
  {
    hide Descent;
    DescentStep(a, b, rr, r, ss, s);
    Quotient(rr, r);
    if r * r <= b {
      if Abs(y) < Abs(s) {
        BelowCofactor(a, b, rr, r, ss, s, x, y);
        SquareMono(x, rr);
        assert false;
      }
    } else {
      DescendSmallest(a, b, r, rr % r, s, ss - rr / r * s, x, y);
    }
  }

  /** x / y agrees with n / d modulo m: their cross difference vanishes. */
  ghost predicate Agree(x: int, y: int, n: int, d: int, m: int) {
    Cong(x * d - n * y, 0, m)
  }

  /** Among the fractions that agree with n / d modulo m and whose numerator is at most the square root of m,
      x / y has the smallest denominator. */
  ghost predicate Simplest(n: int, d: int, m: nat, x: int, y: int) {
    && 0 < y && x * x <= m && Agree(x, y, n, d, m)
    && forall u, v :: 0 < v < y && u * u <= m ==> !Agree(u, v, n, d, m)
  }

  lemma AgreeWithResidue(a: nat, n: int, d: int, m: nat, x: int, y: int)
    requires m > 0 && Represents(a, n, d, m)
    ensures Agree(x, y, n, d, m) <==> Cong(x, y * a, m)
  {
    hide Gcd;
    if Cong(x, y * a, m) {
      CrossDifference(a, x, y, n, d, m);
    }
    if Agree(x, y, n, d, m) {
      // d * (x - y * a) = (x * d - n * y) - y * (a * d - n)
      CongDifference(a * d, n, m);
      CongRefl(y, m);
      CongMul(y, y, a * d - n, 0, m);
      CongSub(x * d - n * y, 0, y * (a * d - n), 0, m);
      assert y * (a * d - n) == d * (y * a) - n * y;
      assert d * (x - y * a) == x * d - d * (y * a);
      AbsFactor(d, x - y * a, m);
      CoprimeCancels(Abs(d), m, x - y * a);
      CongDifference(x, y * a, m);
    }
  }

  /** What the reconstruction of the residue of n / d is: the simplest fraction that agrees with n / d, unless that is
      0 although n / d is not. */
  lemma ReconstructsSimplest(a: nat, n: int, d: int, m: nat, x: int, y: int)
    requires a < m && m > 4 && Represents(a, n, d, m) && Simplest(n, d, m, x, y)
    ensures Reconstruct(a, m) == if x == 0 && !Divides(m, n) then None else Some(Canonicalize(x, y))
  {
    hide Gcd, Descend, Canonicalize;
    ReconstructMeets(a, m);
    AgreeWithResidue(a, n, d, m, x, y);
    ResidueZero(a, n, d, m);
    if HasLargeFactor(a, m) {
      LargeFactorNumerator(a, m, x, y);
    } else {
      var num, den := SmallestFound(a, m);
      AgreeWithResidue(a, n, d, m, num, den);
      SimplestUnique(a, n, d, m, x, y, num, den);
    }
  }

  lemma ResidueZero(a: nat, n: int, d: int, m: nat)
    requires a < m && m > 1 && Represents(a, n, d, m)
    ensures a == 0 <==> Divides(m, n)
  {
    hide Gcd;
    if a == 0 {
      CongSym(0, n, m);
    }
    if Divides(m, n) {
      CongTrans(a * d, n, 0, m);
      assert a * d == d * a;
      AbsFactor(d, a, m);
      CoprimeCancels(Abs(d), m, a);
      CongUnique(a, 0, m);
    }
  }

  /** With too large a common factor the only small numerator is 0. */
  lemma LargeFactorNumerator(a: nat, m: nat, x: int, y: int)
    requires a < m && m > 1 && HasLargeFactor(a, m) && x * x <= m && Cong(x, y * a, m)
    ensures x == 0
  {
    hide Gcd;
    var g := Gcd(a, m);
    GcdGreatest(a, m);
    if x != 0 {
      var k := CongElim(x, y * a, m);
      var i := DividesElim(g, a);
      var l := DividesElim(g, m);
      assert x == (y * i + k * l) * g;
      var c := y * i + k * l;
      assert -x == (-c) * g;
      DividesIntro(g, Abs(x), if x < 0 then -c else c);
      DivisorBound(g, Abs(x));
      SquareMono(x, g);
    }
  }

  /** The reconstruction in the form found by the descent, with a positive denominator. */
  lemma SmallestFound(a: nat, m: nat) returns (num: int, den: int)
    requires a < m && m > 1 && !HasLargeFactor(a, m)
    ensures Reconstructs(a, m, num, den) && den > 0 && (num == 0 ==> a == 0)
    ensures Reconstruct(a, m) == Some(Canonicalize(num, den))
    ensures forall x, y :: y > 0 && x * x <= m && Cong(x, y * a, m) ==> den <= y
  {
    DescentStart(a, m);
    DescendMeets(a, m, a, m, 1, 0);
    var found := Descend(m, a, m, 1, 0).value;
    num, den := found.0, found.1;
    forall x, y | y > 0 && x * x <= m && Cong(x, y * a, m)
      ensures Abs(den) <= y
    {
      if a * a > m {
        DescendSmallest(a, m, a, m, 1, 0, x, y);
      }
    }
    DescendNonZero(a, m, a, m, 1, 0);
    if den < 0 {
      hide Descend, Descent, Gcd;
      NegatedPair(a, m, num, den);
      num, den := -num, -den;
    }
  }

  lemma {:induction false} DescendNonZero(a: nat, b: nat, rr: nat, r: nat, ss: int, s: int)
    requires a < b && b > 1 && Descent(a, b, rr, r, ss, s) && Descend(b, rr, r, ss, s).Some?
    ensures a != 0 ==> Descend(b, rr, r, ss, s).value.0 != 0
    decreases r
  {
    if rr * rr > b {
      DescentStep(a, b, rr, r, ss, s);
      Quotient(rr, r);
      DescendNonZero(a, b, r, rr % r, s, ss - rr / r * s);
    }
  }

  lemma NegatedPair(a: nat, m: nat, num: int, den: int)
    requires Reconstructs(a, m, num, den) && den != 0
    ensures Reconstructs(a, m, -num, -den) && Canonicalize(-num, -den) == Canonicalize(num, den)
  {
    hide Gcd;
    CongRefl(0, m);
    CongSub(0, 0, num, den * a, m);
    assert 0 - den * a == (-den) * a;
    assert (-num) * (-num) == num * num && (-den) * (-den) == den * den;
    var c, e := Canonicalize(num, den), Canonicalize(-num, -den);
    assert e.num * (-den) == -(e.num * den) && (-num) * e.den == -(num * e.den);
    SameFractionTrans(c.num, c.den, num, den, e.num, e.den);
    CanonicalUnique(c, e);
  }

  lemma SimplestUnique(a: nat, n: int, d: int, m: nat, x: int, y: int, num: int, den: int)
    requires m > 4 && Represents(a, n, d, m) && Simplest(n, d, m, x, y) && num * num <= m && den > 0
    requires Agree(num, den, n, d, m)
    requires forall u, v :: v > 0 && u * u <= m && Cong(u, v * a, m) ==> den <= v
    ensures x == num && y == den
  {
    hide Gcd, Represents;
    AgreeWithResidue(a, n, d, m, x, y);
    AgreeWithResidue(a, n, d, m, num, den);
    assert y == den;
    CongSub(x, y * a, num, y * a, m);
    var k := CongElim(x - num, 0, m);
    MultipleBound(k, m);
    HalfRoot(x, m);
    HalfRoot(num, m);
  }

  lemma HalfRoot(x: int, m: nat)
    requires m > 4 && x * x <= m
    ensures 2 * Abs(x) < m
  {
    if 2 * Abs(x) >= m {
      SquareMono(2 * x, m);
      MulMono(5, m, m);
    }
  }

  /** The loop of rat_rec. */
  method RatRec(a: nat, b: nat) returns (res: Option<Rational>)
    requires a < b && b > 1
    ensures res == Reconstruct(a, b)
  {
    var s, ss, r, rr := 0, 1, b, a;
    DescentStart(a, b);
    while rr * rr > b
      invariant rr >= 0 && r >= 0 && Descent(a, b, rr, r, ss, s)
      invariant Descend(b, rr, r, ss, s) == Descend(b, a, b, 1, 0)
      decreases r
    {
      if r == 0 {
        return None;
      }
      DescentStep(a, b, rr, r, ss, s);
      Quotient(rr, r);
      var q := rr / r;
      rr, r := r, rr - q * r;
      ss, s := s, ss - q * s;
    }
    DescendMeets(a, b, rr, r, ss, s);
    return Some(Canonicalize(rr, ss));
  }

  /** If n is coprime to z and divides z * y, it divides y. */
  lemma CoprimeCancels(z: nat, n: nat, y: int)
    requires n > 0 && Gcd(z, n) == 1 && Cong(z * y, 0, n)
    ensures Cong(y, 0, n)
  {
    var inv := CoprimeInverse(z, n);
    CancelInverse(z, y, inv, n);
  }

  lemma GcdSym(a: nat, b: nat)
    requires Gcd(a, b) == 1 && a > 0 && b > 0
    ensures Gcd(b, a) == 1
  {
    GcdGreatest(a, b);
    GcdGreatest(b, a);
    hide Gcd;
    CoprimeDivisor(a, b, Gcd(b, a));
  }

  /** Lowest terms are unique. */
  lemma CanonicalUnique(p: Rational, q: Rational)
    requires Canonical(p) && Canonical(q) && SameFraction(p.num, p.den, q.num, q.den)
    ensures p == q
  {
    hide Gcd;
    DenominatorDivides(p, q);
    DenominatorDivides(q, p);
    DivisorBound(p.den, q.den);
    DivisorBound(q.den, p.den);
    assert (p.num - q.num) * p.den == 0;
    MultipleBound(p.num - q.num, p.den);
  }

  lemma DenominatorDivides(p: Rational, q: Rational)
    requires Canonical(p) && Canonical(q) && SameFraction(p.num, p.den, q.num, q.den)
    ensures Divides(p.den, q.den)
  {
    hide Gcd;
    var s := if p.num < 0 then -1 else 1;
    assert Abs(p.num) * q.den == (s * q.num) * p.den by {
      assert (-p.num) * q.den == -(p.num * q.den) && (-q.num) * p.den == -(q.num * p.den);
    }
    DividesIntro(p.den, Abs(p.num) * q.den, s * q.num);
    CoprimeCancels(Abs(p.num), p.den, q.den);
  }

  /** The residue of a fraction mod p, if its denominator is invertible. */
  function RatMod(q: Rational, p: nat): (res: Option<nat>)
    requires q.den > 0 && p > 1
    ensures res.Some? <==> Gcd(q.den, p) == 1
    ensures res.Some? ==> res.value < p && Cong(res.value * q.den, q.num, p)
  {
    if Gcd(q.den, p) == 1 then
      var inv := Bezout(q.den, p).0;
      RatModResidue(q, p, inv);
      Some(q.num * inv % p)
    else None
  }

  lemma RatModResidue(q: Rational, p: nat, inv: int)
    requires q.den > 0 && p > 1 && inv == Bezout(q.den, p).0 && Gcd(q.den, p) == 1
    ensures 0 <= q.num * inv % p < p && Cong((q.num * inv % p) * q.den, q.num, p)
  {
    hide Gcd, Bezout;
    var i := CoprimeInverse(q.den, p);
    InverseTimes(q.num, q.den, inv, p);
  }

  lemma InverseTimes(n: int, d: int, inv: int, p: int)
    requires p > 0 && Cong(d * inv, 1, p)
    ensures 0 <= n * inv % p < p && Cong((n * inv % p) * d, n, p)
  {
    var x := n * inv;
    CongMod(x, p);
    CongRefl(d, p);
    CongRefl(n, p);
    CongMul(x % p, x, d, d, p);
    CongMul(n, n, d * inv, 1, p);
    assert x * d == n * (d * inv);
    CongTrans((x % p) * d, n * (d * inv), n * 1, p);
  }

  /** RatMod gives the only residue that represents the fraction. */
  lemma RatModUnique(q: Rational, p: nat, x: nat)
    requires q.den > 0 && p > 1 && Gcd(q.den, p) == 1 && x < p && Cong(x * q.den, q.num, p)
    ensures RatMod(q, p) == Some(x)
  {
    hide Gcd;
    var y := RatMod(q, p).value;
    CongSub(y * q.den, q.num, x * q.den, q.num, p);
    assert y * q.den - x * q.den == q.den * (y - x);
    CoprimeCancels(q.den, p, y - x);
    var k := CongElim(y - x, 0, p);
    CongIntro(y, x, k, p);
    CongUnique(y, x, p);
  }

  /** num = den * a and qn / qd = num / den give qn = qd * a, up to the factor den. */
  lemma CrossCong(a: int, num: int, den: int, qn: int, qd: int, b: int)
    requires Cong(num, den * a, b) && SameFraction(qn, qd, num, den)
    ensures Cong(den * (a * qd - qn), 0, b)
  {
    var k := CongElim(num, den * a, b);
    assert qn * den == (den * a + k * b) * qd;
    assert (den * a + k * b) * qd == (den * a) * qd + (k * b) * qd;
    assert (den * a) * qd == den * (a * qd);
    assert den * (a * qd - qn) == den * (a * qd) - den * qn;
    assert (k * b) * qd == (k * qd) * b;
    assert den * (a * qd - qn) == (-(k * qd)) * b;
    CongIntro(den * (a * qd - qn), 0, -(k * qd), b);
  }

  lemma CongDifference(x: int, y: int, b: int)
    ensures Cong(x - y, 0, b) <==> Cong(x, y, b)
  {
    if Cong(x - y, 0, b) {
      var k := CongElim(x - y, 0, b);
      CongIntro(x, y, k, b);
    }
    if Cong(x, y, b) {
      var k := CongElim(x, y, b);
      CongIntro(x - y, 0, k, b);
    }
  }

  /** Modulo a prime the reconstruction represents a exactly. */
  lemma ReconstructionRepresents(a: nat, b: nat, q: Rational)
    requires a < b && IsPrime(b) && IsReconstruction(a, b, q)
    ensures RatMod(q, b) == Some(a)
  {
    hide Gcd, SameFraction;
    var num, den :| Reconstructs(a, b, num, den) && SameFraction(q.num, q.den, num, den);
    SmallRoot(den, b);
    CrossCong(a, num, den, q.num, q.den, b);
    EuclidPrime(den, a * q.den - q.num, b);
    NotMultiple(den, b);
    CongDifference(a * q.den, q.num, b);
    DenominatorSmall(q, num, den, b);
    PrimeCoprime(q.den, b);
    GcdSym(b, q.den);
    RatModUnique(q, b, a);
  }

  lemma SmallRoot(x: int, b: int)
    requires 0 < x * x < b
    ensures 0 < Abs(x) < b
  {
  }

  lemma NotMultiple(x: int, b: int)
    requires 0 < Abs(x) < b
    ensures !Cong(x, 0, b)
  {
  }

  lemma DenominatorSmall(q: Rational, num: int, den: int, b: nat)
    requires Canonical(q) && SameFraction(q.num, q.den, num, den) && 0 < Abs(den) < b
    ensures q.den < b
  {
    hide Gcd;
    var c := Canonicalize(num, den);
    SameFractionTrans(q.num, q.den, num, den, c.num, c.den);
    CanonicalUnique(q, c);
  }

  lemma SameFractionTrans(n0: int, d0: int, n1: int, d1: int, n2: int, d2: int)
    requires SameFraction(n0, d0, n1, d1) && SameFraction(n2, d2, n1, d1) && d1 != 0
    ensures SameFraction(n0, d0, n2, d2)
  {
  }

  /** Modulo a prime there is always a reconstruction. */
  lemma PrimeHasNoLargeFactor(a: nat, b: nat)
    requires a < b && IsPrime(b)
    ensures !HasLargeFactor(a, b)
  {
    if a > 0 {
      PrimeCoprime(a, b);
      GcdSym(b, a);
    }
  }

  /** Numbers coprime to p and to q are coprime to their product. */
  lemma CoprimeProduct(x: nat, p: nat, q: nat)
    requires p > 0 && q > 0 && q * p > 1 && Gcd(x, p) == 1 && Gcd(x, q) == 1
    ensures Gcd(x, q * p) == 1
  {
    hide Gcd;
    var i := CoprimeInverse(x, p);
    var j := CoprimeInverse(x, q);
    var k := CongElim(x * i, 1, p);
    var l := CongElim(x * j, 1, q);
    var y := i + j - x * (i * j);
    // 1 - x * y = (1 - x * i) * (1 - x * j) is a multiple of p and of q
    ProductOfDifferences(x, i, j);
    ProductOfMultiples(k, p, l, q);
    CongIntro(x * y, 1, -(k * l), q * p);
    InvertibleCoprime(x, q * p, y);
  }

  lemma ProductOfMultiples(k: int, p: int, l: int, q: int)
    ensures -((k * p) * (l * q)) == (-(k * l)) * (q * p)
  {
  }

  lemma ProductOfDifferences(x: int, i: int, j: int)
    ensures x * (i + j - x * (i * j)) - 1 == -((x * i - 1) * (x * j - 1))
  {
  }

  // ---- recovery of a small fraction ----

  /** a represents n / d modulo b. */
  ghost predicate Represents(a: int, n: int, d: int, b: nat) {
    d != 0 && Gcd(Abs(d), b) == 1 && Cong(a * d, n, b)
  }

  /** Numerator and denominator are at most half the square root of b. */
  predicate Small(n: int, d: int, b: nat) {
    4 * (n * n) <= b && 4 * (d * d) <= b
  }

  lemma HalfBound(x: int, y: int, b: int)
    requires b > 0 && 4 * (x * x) <= b && y * y <= b
    ensures 2 * Abs(x * y) <= b
    ensures y * y < b ==> 2 * Abs(x * y) < b
  {
  }

  lemma CrossDifference(a: int, num: int, den: int, n: int, d: int, b: int)
    requires Cong(num, den * a, b) && Cong(a * d, n, b)
    ensures Cong(num * d - n * den, 0, b)
  {
    var k := CongElim(num, den * a, b);
    var l := CongElim(a * d, n, b);
    var u, v := k * d, den * l;
    assert num * d == (den * a) * d + u * b by {
      assert (k * b) * d == u * b;
    }
    assert (den * a) * d == n * den + v * b by {
      assert (den * a) * d == den * (a * d) && den * (l * b) == v * b;
    }
    assert (u + v) * b == u * b + v * b;
    CongIntro(num * d - n * den, 0, u + v, b);
  }

  /** Two fractions bounded for b whose cross difference vanishes mod b are equal. */
  lemma BoundedPair(num: int, den: int, n: int, d: int, b: nat)
    requires b > 0 && num * num <= b && den * den < b && Small(n, d, b) && Cong(num * d - n * den, 0, b)
    ensures SameFraction(num, den, n, d)
  {
    HalfBound(n, den, b);
    HalfBound(d, num, b);
    var x, y := num * d, n * den;
    assert d * num == x;
    var k := CongElim(x - y, 0, b);
    MultipleBound(k, b);
  }

  lemma RecoversPair(a: int, num: int, den: int, n: int, d: int, b: nat)
    requires b > 1 && Reconstructs(a, b, num, den) && Cong(a * d, n, b) && Small(n, d, b)
    ensures SameFraction(num, den, n, d)
  {
    CrossDifference(a, num, den, n, d, b);
    BoundedPair(num, den, n, d, b);
  }

  lemma AbsFactor(d: int, y: int, n: int)
    requires Cong(d * y, 0, n)
    ensures Cong(Abs(d) * y, 0, n)
  {
    if d < 0 {
      CongRefl(0, n);
      CongSub(0, 0, d * y, 0, n);
      assert (-d) * y == 0 - d * y;
    }
  }

  lemma SmallHasNoLargeFactor(a: nat, n: int, d: int, b: nat)
    requires a < b && b > 1 && Represents(a, n, d, b) && Small(n, d, b)
    ensures !HasLargeFactor(a, b)
  {
    hide Gcd;
    if n == 0 {
      assert a * d == d * a;
      AbsFactor(d, a, b);
      CoprimeCancels(Abs(d), b, a);
      CongUnique(a, 0, b);
    } else if a != 0 {
      var g := Gcd(a, b);
      GcdGreatest(a, b);
      FactorDividesNumerator(a, n, d, b, g);
      DivisorBound(g, Abs(n));
      ProductMono(Abs(n), g, Abs(n), g);
    }
  }

  lemma FactorDividesNumerator(a: int, n: int, d: int, b: int, g: int)
    requires Divides(g, a) && Divides(g, b) && Cong(a * d, n, b)
    ensures Divides(g, Abs(n))
  {
    var x := DividesElim(g, a);
    var y := DividesElim(g, b);
    var k := CongElim(a * d, n, b);
    CommonFactor(x, y, g, d, k);
    var c := x * d - k * y;
    assert n == c * g;
    assert -n == (-c) * g;
    DividesIntro(g, Abs(n), if n < 0 then -c else c);
  }

  /** A fraction that is small for b is recovered from its residue, in lowest terms. */
  lemma RecoversFraction(a: nat, b: nat, n: int, d: int)
    requires a < b && b > 1 && Represents(a, n, d, b) && Small(n, d, b)
    ensures Reconstruct(a, b) == Some(Canonicalize(n, d))
  {
    hide Gcd, Reconstruct, HasLargeFactor, Canonical;
    SmallHasNoLargeFactor(a, n, d, b);
    ReconstructMeets(a, b);
    RecoveredIs(a, b, n, d, Reconstruct(a, b).value);
  }

  /** Modulo a prime every residue is reconstructed, to a fraction that it represents. */
  lemma PrimeRoundTrip(a: nat, b: nat)
    requires a < b && IsPrime(b)
    ensures Reconstruct(a, b).Some? && RatMod(Reconstruct(a, b).value, b) == Some(a)
  {
    hide Gcd, Reconstruct, HasLargeFactor, Canonical, IsReconstruction;
    ReconstructMeets(a, b);
    PrimeHasNoLargeFactor(a, b);
    ReconstructionRepresents(a, b, Reconstruct(a, b).value);
  }

  lemma RecoveredIs(a: nat, b: nat, n: int, d: int, q: Rational)
    requires a < b && b > 1 && Represents(a, n, d, b) && Small(n, d, b) && IsReconstruction(a, b, q)
    ensures q == Canonicalize(n, d)
  {
    hide Gcd;
    var c := Canonicalize(n, d);
    var num, den :| Reconstructs(a, b, num, den) && SameFraction(q.num, q.den, num, den);
    SmallRoot(den, b);
    RecoversPair(a, num, den, n, d, b);
    SameFractionTrans(c.num, c.den, n, d, num, den);
    SameFractionTrans(q.num, q.den, num, den, c.num, c.den);
    CanonicalUnique(q, c);
  }

  // ---- Chinese remainders ----

  /** c1 is 1 mod p and 0 mod q, c2 is 0 mod p and 1 mod q. */
  ghost predicate CrtCoefficients(c1: int, c2: int, p: int, q: int) {
    Cong(c1, 1, p) && Cong(c1, 0, q) && Cong(c2, 0, p) && Cong(c2, 1, q)
  }

  /** The residue of a multiple of the modulus. */
  lemma CongFactor(x: int, y: int, p: int, q: int)
    requires Cong(x, y, q * p)
    ensures Cong(x, y, p) && Cong(x, y, q)
  {
    var k := CongElim(x, y, q * p);
    assert k * (q * p) == (k * q) * p == (k * p) * q;
    CongIntro(x, y, k * q, p);
    CongIntro(x, y, k * p, q);
  }

  method ChineseRemainderCoeffs(p: nat, q: Mod) returns (c1: nat, c2: nat, mod12: nat)
    requires p > 0 && FFMod.Valid(q) && IsPrime(q.n) && !Divides(q.n, p)
    ensures mod12 == q.n * p && c1 < mod12 && c2 < mod12
    ensures CrtCoefficients(c1, c2, p, q.n)
  {
    var qp := q.n * p;
    MultipleBound(p, q.n);
    CongMod(p, q.n);
    DividesMod(q.n, p);
    var ipmodq := MulInverse(p % q.n, q);
    var pinvp := p * ipmodq % qp;
    var qinvq := (1 - pinvp) % qp;
    CoefficientsMeet(p, q.n, ipmodq);
    return qinvq, pinvp, qp;
  }

  lemma CoefficientsMeet(p: nat, q: nat, ip: nat)
    requires p > 0 && q > 1 && ((p % q) * ip) % q == 1 && q * p > 0
    ensures var c2 := p * ip % (q * p); var c1 := (1 - c2) % (q * p);
      0 <= c1 < q * p && 0 <= c2 < q * p && CrtCoefficients(c1, c2, p, q)
  {
    var m := q * p;
    var c2 := p * ip % m;
    var c1 := (1 - c2) % m;
    CongMod(p * ip, m);
    CongMod(1 - c2, m);
    CongFactor(c2, p * ip, p, q);
    CongFactor(c1, 1 - c2, p, q);
    assert p * ip == ip * p;
    DividesIntro(p, p * ip, ip);
    CongTrans(c2, p * ip, 0, p);
    CongMod(p, q);
    CongRefl(ip, q);
    CongMul(p % q, p, ip, ip, q);
    CongMod((p % q) * ip, q);
    CongSym(1, (p % q) * ip, q);
    CongSym((p % q) * ip, p * ip, q);
    CongTrans(p * ip, (p % q) * ip, 1, q);
    CongTrans(c2, p * ip, 1, q);
    CongRefl(1, p);
    CongRefl(1, q);
    CongSub(1, 1, c2, 0, p);
    CongSub(1, 1, c2, 1, q);
    CongTrans(c1, 1 - c2, 1, p);
    CongTrans(c1, 1 - c2, 0, q);
  }

  /** The number below m that is a mod p and b mod q. */
  method ChineseRemainderFromCoeffs(a: nat, b: nat, c1: nat, c2: nat, mod12: nat, ghost p: nat, ghost q: nat)
    returns (r: nat)
    requires mod12 == q * p > 0 && CrtCoefficients(c1, c2, p, q)
    ensures r < mod12 && Cong(r, a, p) && Cong(r, b, q)
    ensures r == (c2 * b + c1 * a) % mod12
  {
    r := (c2 * b + c1 * a) % mod12;
    CombinationMeets(a, b, c1, c2, p, q);
  }

  lemma CombinationMeets(a: int, b: int, c1: int, c2: int, p: nat, q: nat)
    requires q * p > 0 && CrtCoefficients(c1, c2, p, q)
    ensures var r := (c2 * b + c1 * a) % (q * p); 0 <= r < q * p && Cong(r, a, p) && Cong(r, b, q)
  {
    var x := c2 * b + c1 * a;
    CongMod(x, q * p);
    var r := x % (q * p);
    CongFactor(r, x, p, q);
    CongRefl(a, p);
    CongRefl(b, p);
    CongMul(c1, 1, a, a, p);
    CongMul(c2, 0, b, b, p);
    CongAdd(c2 * b, 0 * b, c1 * a, 1 * a, p);
    CongTrans(r, x, a, p);
    CongRefl(a, q);
    CongRefl(b, q);
    CongMul(c1, 0, a, a, q);
    CongMul(c2, 1, b, b, q);
    CongAdd(c2 * b, 1 * b, c1 * a, 0 * a, q);
    CongTrans(r, x, b, q);
  }

  /** Residues below p * q are determined by their residues mod p and mod the prime q. */
  lemma CrtUnique(x: int, y: int, p: nat, q: nat)
    requires p > 0 && IsPrime(q) && !Divides(q, p) && Cong(x, y, p) && Cong(x, y, q)
    ensures Cong(x, y, q * p)
  {
    var k := CongElim(x, y, p);
    CongDifference(x, y, q);
    assert x - y == k * p;
    EuclidPrime(k, p, q);
    var l := CongElim(k, 0, q);
    assert (l * q) * p == l * (q * p);
    CongIntro(x, y, l, q * p);
  }
}
