/** What several components share: optional results and powers of 256. */
module Common {
  datatype Option<T> = None | Some(value: T)

  function Pow256(n: nat): (p: nat)
    ensures p > 0
  {
    if n == 0 then 1 else 256 * Pow256(n - 1)
  }
}

/** Exact arithmetic modulo n: congruences, primes and Euclid's lemma.
    The operations of include/fflow/common.hh (`add_mod`, `sub_mod`, `neg_mod`, `mul_mod`)
    are exact arithmetic mod p on operands below p; they appear in the models as `%`. */
module ModArith {

  ghost predicate DiffersBy(a: int, b: int, k: int, n: int) {
    a - b == k * n
  }

  /** a and b are congruent modulo n. */
  ghost predicate Cong(a: int, b: int, n: int) {
    exists k :: DiffersBy(a, b, k, n)
  }

  /** A non-zero multiple of n is at least n in absolute value. */
  lemma MultipleBound(k: int, n: int)
    requires n > 0
    ensures k >= 1 ==> k * n >= n
    ensures k <= -1 ==> k * n <= -n
  {
    assert k >= 1 ==> (k - 1) * n >= 0;
    assert k <= -1 ==> (k + 1) * n <= 0;
  }

  lemma MulMono(a: int, b: int, d: int)
    requires d >= 0
    ensures a <= b ==> a * d <= b * d
  {
    assert a <= b ==> (b - a) * d >= 0;
  }

  lemma CongIntro(a: int, b: int, k: int, n: int)
    requires a - b == k * n
    ensures Cong(a, b, n)
  {
    assert DiffersBy(a, b, k, n);
  }

  lemma CongElim(a: int, b: int, n: int) returns (k: int)
    requires Cong(a, b, n)
    ensures a == b + k * n
  {
    k :| DiffersBy(a, b, k, n);
  }

  lemma CongRefl(a: int, n: int)
    ensures Cong(a, a, n)
  {
    CongIntro(a, a, 0, n);
  }

  lemma CongSym(a: int, b: int, n: int)
    requires Cong(a, b, n)
    ensures Cong(b, a, n)
  {
    var k := CongElim(a, b, n);
    assert b - a == (-k) * n;
    CongIntro(b, a, -k, n);
  }

  lemma CongTrans(a: int, b: int, c: int, n: int)
    requires Cong(a, b, n) && Cong(b, c, n)
    ensures Cong(a, c, n)
  {
    var k := CongElim(a, b, n);
    var l := CongElim(b, c, n);
    assert a - c == (k + l) * n;
    CongIntro(a, c, k + l, n);
  }

  lemma CongAdd(a: int, b: int, c: int, d: int, n: int)
    requires Cong(a, b, n) && Cong(c, d, n)
    ensures Cong(a + c, b + d, n)
  {
    var k := CongElim(a, b, n);
    var l := CongElim(c, d, n);
    assert (a + c) - (b + d) == (k + l) * n;
    CongIntro(a + c, b + d, k + l, n);
  }

  lemma CongSub(a: int, b: int, c: int, d: int, n: int)
    requires Cong(a, b, n) && Cong(c, d, n)
    ensures Cong(a - c, b - d, n)
  {
    var k := CongElim(a, b, n);
    var l := CongElim(c, d, n);
    assert (a - c) - (b - d) == (k - l) * n;
    CongIntro(a - c, b - d, k - l, n);
  }

  lemma CongMul(a: int, b: int, c: int, d: int, n: int)
    requires Cong(a, b, n) && Cong(c, d, n)
    ensures Cong(a * c, b * d, n)
  {
    var k := CongElim(a, b, n);
    var l := CongElim(c, d, n);
    assert a * c - b * d == (k * d + b * l + k * l * n) * n by {
      assert a * c == (b + k * n) * (d + l * n);
      assert (b + k * n) * (d + l * n) == b * d + b * (l * n) + (k * n) * d + (k * n) * (l * n);
      assert b * (l * n) == (b * l) * n;
      assert (k * n) * d == (k * d) * n;
      assert (k * n) * (l * n) == (k * l * n) * n;
    }
    CongIntro(a * c, b * d, k * d + b * l + k * l * n, n);
  }

  lemma CongMod(a: int, n: int)
    requires n > 0
    ensures Cong(a % n, a, n) && 0 <= a % n < n
  {
    assert a % n - a == (-(a / n)) * n;
    CongIntro(a % n, a, -(a / n), n);
  }

  /** Residues in [0, n) are determined by their class. */
  lemma CongUnique(a: int, b: int, n: int)
    requires n > 0 && Cong(a, b, n) && 0 <= a < n && 0 <= b < n
    ensures a == b
  {
    var k := CongElim(a, b, n);
    MultipleBound(k, n);
  }

  lemma CongModEq(a: int, b: int, n: int)
    requires n > 0 && Cong(a, b, n)
    ensures a % n == b % n
  {
    CongMod(a, n);
    CongMod(b, n);
    CongSym(b % n, b, n);
    CongTrans(a % n, a, b, n);
    CongTrans(a % n, b, b % n, n);
    CongUnique(a % n, b % n, n);
  }

  // ---- primes ----

  ghost predicate Divides(d: int, x: int) {
    Cong(x, 0, d)
  }

  lemma DividesMod(d: int, x: int)
    requires d > 0
    ensures Divides(d, x) <==> x % d == 0
  {
    if Divides(d, x) {
      CongModEq(x, 0, d);
    } else {
      assert x == x / d * d + x % d;
      if x % d == 0 {
        CongIntro(x, 0, x / d, d);
      }
    }
  }

  ghost predicate IsPrime(p: int) {
    p >= 2 && forall d :: 2 <= d < p ==> !Divides(d, p)
  }

  lemma DividesIntro(d: int, x: int, k: int)
    requires x == k * d
    ensures Divides(d, x)
  {
    CongIntro(x, 0, k, d);
  }

  lemma DividesElim(d: int, x: int) returns (k: int)
    requires Divides(d, x)
    ensures x == k * d
  {
    k := CongElim(x, 0, d);
  }

  lemma InverseStep(a: int, p: int, q: int, r: int, c: int, k: int)
    requires p == q * a + r && r * c == 1 + k * p
    ensures a * (-q * c) - 1 == (k - c) * p
  {
    assert p * c == (q * a) * c + r * c;
    assert (q * a) * c == a * (q * c);
    assert a * (-q * c) == -(a * (q * c));
  }

  /** Every a in (0, p) is invertible mod the prime p: descent on a through p mod a. */
  lemma {:induction false} InverseExists(a: int, p: int) returns (b: int)
    requires IsPrime(p) && 0 < a < p
    ensures Cong(a * b, 1, p)
    decreases a
  {
    if a == 1 {
      b := 1;
      CongRefl(1, p);
    } else {
      var q, r := p / a, p % a;
      assert p == q * a + r;
      if r == 0 {
        DividesIntro(a, p, q);
        assert false;
      }
      var c := InverseExists(r, p);
      b := -q * c;
      var k := CongElim(r * c, 1, p);
      InverseStep(a, p, q, r, c, k);
      CongIntro(a * b, 1, k - c, p);
    }
  }

  /** Euclid's lemma. */
  lemma EuclidPrime(a: int, b: int, p: int)
    requires IsPrime(p) && Cong(a * b, 0, p)
    ensures Cong(a, 0, p) || Cong(b, 0, p)
  {
    CongMod(a, p);
    if a % p == 0 {
      CongSym(0, a, p);
    } else {
      var c := InverseExists(a % p, p);
      CongRefl(c, p);
      CongMul(a % p, a, c, c, p);
      CongSym((a % p) * c, a * c, p);
      CongTrans(a * c, (a % p) * c, 1, p);
      CancelInverse(a, b, c, p);
    }
  }

  /** If c inverts a and a * b vanishes, then b vanishes. */
  lemma CancelInverse(a: int, b: int, c: int, n: int)
    requires Cong(a * c, 1, n) && Cong(a * b, 0, n)
    ensures Cong(b, 0, n)
  {
    CongRefl(b, n);
    CongRefl(c, n);
    CongMul(a * c, 1, b, b, n);
    CongMul(a * b, 0, c, c, n);
    assert a * b * c == a * c * b;
    CongSym(a * c * b, 1 * b, n);
    CongTrans(b, a * c * b, 0, n);
  }

  // ---- inverses modulo a prime ----

  ghost predicate IsInverse(x: int, y: int, p: int) {
    0 <= y < p && Cong(x * y, 1, p)
  }

  ghost function Inverse(x: int, p: int): (y: int)
    requires IsPrime(p) && 0 < x < p
    ensures IsInverse(x, y, p)
  {
    InverseWitness(x, p);
    var y :| IsInverse(x, y, p);
    y
  }

  lemma InverseWitness(x: int, p: int)
    requires IsPrime(p) && 0 < x < p
    ensures exists y :: IsInverse(x, y, p)
  {
    var b := InverseExists(x, p);
    CongMod(b, p);
    CongRefl(x, p);
    CongMul(x, x, b % p, b, p);
    CongTrans(x * (b % p), x * b, 1, p);
    assert IsInverse(x, b % p, p);
  }

  /** Inverses are unique. */
  lemma InverseUnique(x: int, y: int, z: int, p: int)
    requires IsInverse(x, y, p) && IsInverse(x, z, p)
    ensures y == z
  {
    CongSub(x * y, 1, x * z, 1, p);
    assert x * y - x * z == x * (y - z);
    CancelInverse(x, y - z, y, p);
    var k := CongElim(y - z, 0, p);
    CongIntro(y, z, k, p);
    CongUnique(y, z, p);
  }

  lemma InverseIs(x: int, y: int, p: int)
    requires IsPrime(p) && 0 < x < p && 0 <= y < p && x * y % p == 1
    ensures Inverse(x, p) == y
  {
    CongMod(x * y, p);
    CongSym(1, x * y, p);
    InverseUnique(x, y, Inverse(x, p), p);
  }
}

/** Greatest common divisors. */
module Gcds {
  import opened ModArith

  function Gcd(a: nat, b: nat): nat
    decreases b
  {
    if b == 0 then a else Gcd(b, a % b)
  }

  /** d divides x - q * y and y exactly when it divides x and y. */
  lemma DividesStep(d: int, x: int, y: int)
    requires y > 0
    ensures Divides(d, x) && Divides(d, y) <==> Divides(d, y) && Divides(d, x % y)
  {
    if Divides(d, y) {
      DividesLinear(d, x, y, x / y, x % y);
    }
  }

  lemma DividesLinear(d: int, x: int, y: int, q: int, s: int)
    requires x == q * y + s && Divides(d, y)
    ensures Divides(d, x) <==> Divides(d, s)
  {
    CongRefl(q, d);
    CongMul(q, q, y, 0, d);
    if Divides(d, x) {
      CongSub(x, 0, q * y, 0, d);
    }
    if Divides(d, s) {
      CongAdd(q * y, 0, s, 0, d);
    }
  }

  /** Gcd(a, b) is the common divisor that every common divisor divides. */
  lemma {:induction false} GcdGreatest(a: nat, b: nat)
    requires a > 0 || b > 0
    ensures Gcd(a, b) > 0 && Divides(Gcd(a, b), a) && Divides(Gcd(a, b), b)
    ensures forall d {:trigger Divides(d, Gcd(a, b))} :: d > 0 && Divides(d, a) && Divides(d, b) ==> Divides(d, Gcd(a, b))
    decreases b
  {
    if b == 0 {
      DividesIntro(a, a, 1);
      DividesIntro(a, 0, 0);
    } else {
      GcdGreatest(b, a % b);
      DividesStep(Gcd(a, b), a, b);
      forall d | d > 0 && Divides(d, a) && Divides(d, b)
        ensures Divides(d, Gcd(a, b))
      {
        DividesStep(d, a, b);
      }
    }
  }

  /** A positive number is at least each of its divisors. */
  lemma DivisorBound(d: int, x: int)
    requires d > 0 && x > 0 && Divides(d, x)
    ensures d <= x
  {
  }

  lemma PrimeCoprime(a: nat, p: nat)
    requires IsPrime(p) && 0 < a < p
    ensures Gcd(p, a) == 1
  {
    GcdGreatest(p, a);
    DivisorBound(Gcd(p, a), a);
  }
}
