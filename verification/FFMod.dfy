/** Word-level modular arithmetic (include/fflow/ffmod.h, src/ffmod.c).
    Words are integers in [0, B) with B = 2^64; every wrap-around is written out as `% B`. */
module FFMod {
  import opened ModArith
  import opened Gcds

  const B: int := 0x1_0000_0000_0000_0000

  /** A modulus with its precomputed reciprocal, as `FFMod`. */
  datatype Mod = Mod(n: int, v: int)

  predicate IsU32(n: int) {
    0 < n <= 0xffff_ffff
  }

  /** The moduli the library accepts: primes below 2^32, or 2n < 2^64 < 3n. */
  predicate ModulusInRange(n: int) {
    IsU32(n) || 2 * n < B < 3 * n
  }

  predicate Valid(p: Mod) {
    && ModulusInRange(p.n)
    && p.v == if IsU32(p.n) then 0 else (B * B - 1) / (2 * p.n) - B
  }

  method PrecomputedReciprocal(n: int) returns (res: Mod)
    requires ModulusInRange(n)
    ensures Valid(res) && res.n == n
  {
    if 0 < n <= 0xffff_ffff {
      return Mod(n, 0);
    }
    var d := n * 2 % B;
    // all ones, with d subtracted from the high word
    var hl := (B - 1 - d) * B + (B - 1);
    ReciprocalWord(d);
    res := Mod(n, hl / d % B);
  }

  lemma ReciprocalWord(d: int)
    requires B < 2 * d && d < B
    ensures ((B - 1 - d) * B + (B - 1)) / d % B == (B * B - 1) / d - B
  {
    QuotientShift(B * B - 1, B, d);
    assert (B - 1 - d) * B + (B - 1) == B * B - 1 - B * d;
    ReciprocalBound(d, (B * B - 1) / d);
  }

  lemma QuotientShift(x: int, k: int, d: int)
    requires d > 0
    ensures (x - k * d) / d == x / d - k
  {
    var q, r := x / d, x % d;
    assert x - k * d == (q - k) * d + r by {
      assert x == q * d + r;
      assert (q - k) * d == q * d - k * d;
    }
    QuotientUnique(x - k * d, d, q - k, r);
  }

  lemma QuotientUnique(x: int, d: int, q: int, r: int)
    requires d > 0 && x == q * d + r && 0 <= r < d
    ensures x / d == q && x % d == r
  {
    var q', r' := x / d, x % d;
    assert x == q' * d + r';
    assert (q' - q) * d == r - r';
    MultipleBound(q' - q, d);
  }

  /** The reciprocal of a normalised divisor has a 1 in position 64. */
  lemma ReciprocalBound(d: int, V: int)
    requires B < 2 * d && d < B && V == (B * B - 1) / d
    ensures B <= V < 2 * B
    ensures 1 <= B * B - V * d <= d
  {
    var r := (B * B - 1) % d;
    assert B * B - 1 == V * d + r;
    MulMono(V, B - 1, d);
    MulMono(2 * B, V, d);
  }

  /** Remainder of z mod p by the precomputed reciprocal of d = 2p (Moller and Granlund,
      Improved Division by Invariant Integers): u = 2z is divided by d with one multiplication
      and at most two corrections. */
  method Div2Mod1(z: int, p: Mod) returns (rem: int)
    requires Valid(p) && 0 <= z && (IsU32(p.n) || z < p.n * p.n + p.n)
    ensures rem == z % p.n
  {
    if IsU32(p.n) {
      return z % p.n;
    }
    var d := p.n * 2 % B;
    var u := z * 2;
    var uhigh, ulow := u / B, u % B;
    HighWordBound(z, p.n);
    var q := p.v * uhigh + u;
    var qhigh, qlow := (q / B + 1) % B, q % B;
    var r := (ulow - qhigh * d) % B;
    DivisionStep(d, p.v + B, uhigh, ulow, q, r);
    if r > qlow {
      r := (r + d) % B;
    }
    if r >= d {
      r := r - d;
    }
    rem := r / 2;
    HalfRemainder(z, p.n, r);
  }

  lemma HighWordBound(z: int, n: int)
    requires 0 <= z < n * n + n && 0 < n && 2 * n < B
    ensures z * 2 / B < n * 2
  {
    assert n * n + n == (n + 1) * n;
    MulMono(n + 1, B / 2, n);
  }

  /** b times the candidate u - (qhigh + 1) * d, in terms that show its sign. */
  lemma CandidateIdentity(b: int, d: int, V: int, u1: int, u0: int, qh: int, q0: int)
    requires V * u1 + u0 == qh * b + q0
    ensures b * (u1 * b + u0 - (qh + 1) * d) == u1 * (b * b - V * d) + u0 * (b - d) + q0 * d - b * d
  {
  }

  lemma MaxBound(T: int, e: int, q0: int, d: int, b: int)
    requires e + d == b && e >= 0 && d >= 0 && b * T < e * e + q0 * d
    ensures T < e || T < q0
  {
  }

  /** The unwrapped remainder candidate T lies in [-d, max(b - d, q0)), and when it is negative
      its wrapped form exceeds q0. */
  lemma CandidateBounds(b: int, d: int, k: int, u1: int, u0: int, q0: int, T: int)
    requires 0 < d < b && 1 <= k <= d
    requires 0 <= u1 < d && 0 <= u0 < b && 0 <= q0 < b
    requires b * T == u1 * k + u0 * (b - d) + q0 * d - b * d
    ensures -d <= T && (T < b - d || T < q0) && (T < 0 ==> b + T > q0)
  {
    var e := b - d;
    ProductBounds(u1, k, d, d);
    ProductBounds(u0, e, b, e);
    ProductBounds(q0, d, b, d);
    Squares(b, d, e);
    LowerBound(b, d, T);
    MaxBound(T, e, q0, d, b);
    WrappedExceeds(b, d, q0, T);
  }

  lemma ProductBounds(x: int, y: int, m: int, n: int)
    requires 0 <= x < m && 0 <= y <= n
    ensures 0 <= x * y <= m * n - n
  {
    MulMono(x, m - 1, y);
    MulMono(y, n, m - 1);
    assert (m - 1) * n == m * n - n;
  }

  lemma LowerBound(b: int, d: int, T: int)
    requires b > 0 && b * T >= -(b * d)
    ensures T >= -d
  {
  }

  lemma Squares(b: int, d: int, e: int)
    requires e == b - d
    ensures d * d + b * e - b * d == e * e
  {
  }

  lemma WrappedExceeds(b: int, d: int, q0: int, T: int)
    requires 0 < d < b && 0 <= q0 < b && b * T >= q0 * d - b * d
    ensures b + T > q0
  {
  }

  /** Reducing the multiplier (qhigh + 1) mod b first does not change the wrapped candidate. */
  lemma WrappedCandidate(b: int, d: int, u1: int, u0: int, h: int)
    requires b > 0
    ensures (u0 - h % b * d) % b == (u1 * b + u0 - h * d) % b
  {
    var m := h / b;
    assert h % b == h - m * b;
    assert h % b * d == h * d - (m * d) * b;
    var k := m * d - u1;
    assert (u0 - h % b * d) - (u1 * b + u0 - h * d) == k * b;
    CongIntro(u0 - h % b * d, u1 * b + u0 - h * d, k, b);
    CongModEq(u0 - h % b * d, u1 * b + u0 - h * d, b);
  }

  /** The two corrections turn the wrapped candidate into the exact remainder. */
  lemma CorrectionStep(b: int, d: int, u: int, qh: int, q0: int, T: int)
    requires 0 < d < b < 2 * d && u == (qh + 1) * d + T
    requires -d <= T && (T < b - d || T < q0) && (T < 0 ==> b + T > q0) && 0 <= q0 < b
    ensures var r := T % b;
            var r1 := if r > q0 then (r + d) % b else r;
            (if r1 >= d then r1 - d else r1) == u % d
  {
    assert (qh + 1) * d == qh * d + d;
    assert (qh + 2) * d == qh * d + 2 * d;
    if T < 0 {
      QuotientUnique(T, b, -1, T + b);
      QuotientUnique(T + b + d, b, 1, T + d);
      QuotientUnique(u, d, qh, T + d);
    } else {
      QuotientUnique(T, b, 0, T);
      if T >= d {
        QuotientUnique(u, d, qh + 2, T - d);
      } else {
        QuotientUnique(u, d, qh + 1, T);
      }
      if T > q0 {
        QuotientUnique(T + d, b, 0, T + d);
      }
    }
  }

  lemma DivisionStep(d: int, V: int, u1: int, u0: int, q: int, r: int)
    requires B < 2 * d && d < B && V == (B * B - 1) / d
    requires 0 <= u1 < d && 0 <= u0 < B && q == V * u1 + u0
    requires r == (u0 - (q / B + 1) % B * d) % B
    ensures var r1 := if r > q % B then (r + d) % B else r;
            var r2 := if r1 >= d then r1 - d else r1;
            r2 == (u1 * B + u0) % d
  {
    ReciprocalBound(d, V);
    var qh, q0 := q / B, q % B;
    var T := u1 * B + u0 - (qh + 1) * d;
    CandidateIdentity(B, d, V, u1, u0, qh, q0);
    CandidateBounds(B, d, B * B - V * d, u1, u0, q0, T);
    WrappedCandidate(B, d, u1, u0, qh + 1);
    CorrectionStep(B, d, u1 * B + u0, qh, q0, T);
  }

  lemma HalfRemainder(z: int, n: int, r: int)
    requires n > 0 && r == (z * 2) % (n * 2)
    ensures r / 2 == z % n
  {
    var q, s := z / n, z % n;
    assert z == q * n + s;
    assert z * 2 == q * (n * 2) + s * 2 by {
      assert q * (n * 2) == (q * n) * 2;
    }
    QuotientUnique(z * 2, n * 2, q, s * 2);
  }

  // ---- ring operations on residues ----

  lemma AddCases(a: int, b: int, n: int)
    requires 0 <= a < n && 0 <= b < n
    ensures a % n == a && b % n == b
    ensures (a + b) % n == if a + b >= n then a + b - n else a + b
    ensures (a - b) % n == if a >= b then a - b else a + n - b
  {
    QuotientUnique(a, n, 0, a);
    QuotientUnique(b, n, 0, b);
    QuotientUnique(a + b, n, if a + b >= n then 1 else 0, if a + b >= n then a + b - n else a + b);
    QuotientUnique(a - b, n, if a >= b then 0 else -1, if a >= b then a - b else a + n - b);
  }

  /** The sign test of the 63-bit path: x in (-n, n) wrapped to a word, corrected by n when the
      sign bit is set. */
  lemma SignCorrection(x: int, n: int)
    requires -n <= x < n && 0 < n && 2 * n < B
    ensures (if x % B >= B / 2 then (x % B + n) % B else x % B) == if x >= 0 then x else x + n
  {
  }

  method AddMod(a: int, b: int, p: Mod) returns (r: int)
    requires Valid(p) && 0 <= a < p.n && 0 <= b < p.n
    ensures r == (a + b) % p.n
  {
    AddCases(a, b, p.n);
    if IsU32(p.n) {
      return (a % p.n + b % p.n) % p.n;
    }
    SignCorrection(a + b - p.n, p.n);
    var ret := (a + b - p.n) % B;
    // the sign bit of ret
    return if ret >= B / 2 then (ret + p.n) % B else ret;
  }

  method SubMod(a: int, b: int, p: Mod) returns (r: int)
    requires Valid(p) && 0 <= a < p.n && 0 <= b < p.n
    ensures r == (a - b) % p.n
  {
    AddCases(a, b, p.n);
    if IsU32(p.n) {
      var ar, br := a % p.n, b % p.n;
      return if ar >= br then ar - br else ar + p.n - br;
    }
    SignCorrection(a - b, p.n);
    var ret := (a - b) % B;
    return if ret >= B / 2 then (ret + p.n) % B else ret;
  }

  lemma ProductRange(a: int, b: int, n: int)
    requires 0 <= a < n && 0 <= b < n
    ensures 0 <= a * b <= a + a * b < n * n
  {
    ProductBounds(a, b, n, n);
    MulMono(b, n - 1, a);
    MulMono(a, n - 1, n);
    assert a * (n - 1) == a * n - a;
    assert (n - 1) * n == n * n - n;
  }

  method MulMod(a: int, b: int, p: Mod) returns (r: int)
    requires Valid(p) && 0 <= a < p.n && 0 <= b < p.n
    ensures r == (a * b) % p.n
  {
    AddCases(a, b, p.n);
    if IsU32(p.n) {
      return (a % p.n) * (b % p.n) % p.n;
    }
    ProductRange(a, b, p.n);
    r := Div2Mod1(a * b, p);
  }

  lemma AddReduced(a: int, z: int, n: int)
    requires n > 0
    ensures (a + z % n) % n == (a + z) % n
  {
    CongMod(z, n);
    CongRefl(a, n);
    CongAdd(a, a, z % n, z, n);
    CongModEq(a + z % n, a + z, n);
  }

  /** a + b * c mod p. */
  method APBCMod(a: int, b: int, c: int, p: Mod) returns (r: int)
    requires Valid(p) && 0 <= a < p.n && 0 <= b < p.n && 0 <= c < p.n
    ensures r == (a + b * c) % p.n
  {
    AddCases(a, b, p.n);
    AddCases(c, c, p.n);
    if IsU32(p.n) {
      var br, cr := b % p.n, c % p.n;
      AddReduced(a, b * c, p.n);
      return (a % p.n + br * cr % p.n) % p.n;
    }
    ProductBounds(b, c, p.n, p.n);
    r := Div2Mod1(b * c + a, p);
  }

  /** floor(2^64 * w / p), Shoup's precomputed quotient; unused for the small moduli. */
  function PrecomputedMulShoup(w: int, p: Mod): int
    requires Valid(p)
  {
    if IsU32(p.n) then 0 else w * B / p.n
  }

  /** Shoup's multiplication t * w mod p: the quotient by p is read off the high word of
      wp * t and is at most one too small. */
  method MulModShoup(t: int, w: int, wp: int, p: Mod) returns (r: int)
    requires Valid(p) && 0 <= t < p.n && 0 <= w < p.n && wp == PrecomputedMulShoup(w, p)
    ensures r == (t * w) % p.n
  {
    if IsU32(p.n) {
      r := MulMod(t, w, p);
      return;
    }
    var qhigh := wp * t / B;
    r := (w * t - qhigh * p.n) % B;
    ShoupQuotient(B, t, w, wp, qhigh, p.n);
    if r >= p.n {
      r := r - p.n;
    }
  }

  lemma ShoupQuotient(b: int, t: int, w: int, wp: int, qh: int, n: int)
    requires 0 < n && 2 * n < b && 0 <= t < n && 0 <= w < n
    requires wp == w * b / n && qh == wp * t / b
    ensures var T := w * t - qh * n;
            0 <= T < 2 * n && T % b == T && (t * w) % n == if T >= n then T - n else T
  {
    var T := w * t - qh * n;
    ShoupRange(b, t, w, wp, qh, n, w * b % n, wp * t % b);
    QuotientUnique(T, b, 0, T);
    ShoupRemainder(t, w, n, qh, T);
  }

  lemma ShoupRemainder(t: int, w: int, n: int, qh: int, T: int)
    requires 0 <= T < 2 * n && T == w * t - qh * n
    ensures (t * w) % n == if T >= n then T - n else T
  {
    assert (qh + 1) * n == qh * n + n;
    QuotientUnique(t * w, n, if T >= n then qh + 1 else qh, if T >= n then T - n else T);
  }

  lemma ShoupRange(b: int, t: int, w: int, wp: int, qh: int, n: int, r: int, s: int)
    requires 0 < n < b && 0 <= t < n && 0 <= r < n && 0 <= s < b
    requires w * b == wp * n + r && wp * t == qh * b + s
    ensures 0 <= w * t - qh * n < 2 * n
  {
    ShoupIdentity(b, t, w, wp, qh, n, r, s);
    ProductBounds(s, n, b, n);
    ProductBounds(t, r, n, n - 1);
    ShoupBounds(b, n, w * t - qh * n, s * n, t * r);
  }

  lemma ShoupBounds(b: int, n: int, T: int, x: int, y: int)
    requires 0 < n && n < b && b * T == x + y
    requires 0 <= x <= b * n - n && 0 <= y <= n * (n - 1) - (n - 1)
    ensures 0 <= T < 2 * n
  {
    MulMono(T, -1, b);
    MulMono(2 * n, T, b);
    MulMono(n - 1, b, n);
    assert n * (n - 1) == (n - 1) * n;
    assert b * (2 * n) == b * n + b * n;
  }

  lemma ShoupIdentity(b: int, t: int, w: int, wp: int, qh: int, n: int, r: int, s: int)
    requires w * b == wp * n + r && wp * t == qh * b + s
    ensures b * (w * t - qh * n) == s * n + t * r
  {
  }

  // ---- inverses (src/ffmod.c) ----

  function Abs(x: int): nat {
    if x < 0 then -x else x
  }

  /** One step of the extended Euclid loop keeps |t| * newr + |newt| * r and the bounds. */
  lemma EuclidStep(n: int, t: int, newt: int, r: int, newr: int, q: int)
    requires 0 < newr < r <= n && q >= 1 && 0 <= r - q * newr < newr
    requires t <= 0 <= newt || newt <= 0 <= t
    requires Abs(t) * newr + Abs(newt) * r == n
    ensures var t' := t - q * newt;
            && Abs(newt) * (r - q * newr) + Abs(t') * newr == n
            && Abs(t') == Abs(t) + q * Abs(newt)
            && (newt <= 0 <= t' || t' <= 0 <= newt)
            && Abs(newt) < n && Abs(t') <= n
  {
    var x := q * newt;
    var t', newr' := t - x, r - q * newr;
    var y := Abs(newt);
    assert x == if newt >= 0 then q * y else -(q * y);
    assert q * y >= 0;
    ProductSwap(Abs(t), y, q, r, newr);
    // 2 * |newt| <= r * |newt| <= n and |t'| <= |t'| * newr <= n
    MulMono(2, r, y);
    MulMono(1, newr, Abs(t'));
    MulMono(0, Abs(t), newr);
    MulMono(0, y, newr');
  }

  lemma EuclidCongruence(n: int, z: int, t: int, newt: int, r: int, newr: int, q: int)
    requires Cong(z * t, r, n) && Cong(z * newt, newr, n)
    ensures Cong(z * (t - q * newt), r - q * newr, n)
  {
    CongRefl(q, n);
    CongMul(z * newt, newr, q, q, n);
    CongSub(z * t, r, z * newt * q, newr * q, n);
    assert z * newt * q == z * (q * newt);
    assert z * (t - q * newt) == z * t - z * (q * newt);
  }

  lemma ProductSwap(a: int, b: int, q: int, r: int, s: int)
    ensures b * (r - q * s) + (a + q * b) * s == a * s + b * r
  {
  }

  /** Extended Euclid on machine words: the coefficients t, newt never leave [-p, p] and the
      product q * newt never leaves [-2p, 2p], so the signed 128-bit arithmetic is exact. */
  method MulInverse(z: int, p: Mod) returns (inv: int)
    requires Valid(p) && 0 <= z < p.n
    ensures 0 <= inv < p.n && Cong(z * inv, Gcd(p.n, z), p.n)
    ensures IsPrime(p.n) && z > 0 ==> (z * inv) % p.n == 1
  {
    var n := p.n;
    var t, newt := 0, 1;
    var r, newr := n, z;
    CongIntro(z * 0, n, -1, n);
    CongRefl(z, n);
    while newr != 0
      invariant 0 <= newr < r <= n
      invariant Gcd(r, newr) == Gcd(n, z)
      invariant t <= 0 <= newt || newt <= 0 <= t
      invariant Abs(t) < n && Abs(newt) <= n
      invariant Abs(t) * newr + Abs(newt) * r == n
      invariant Cong(z * t, r, n) && Cong(z * newt, newr, n)
    {
      var q := r / newr;
      QuotientPositive(r, newr);
      EuclidStep(n, t, newt, r, newr, q);
      EuclidCongruence(n, z, t, newt, r, newr, q);
      assert -2 * n <= q * newt <= 2 * n;
      var tmpT := t - q * newt;
      t := newt;
      newt := tmpT;
      var tmpR := r - q * newr;
      r := newr;
      newr := tmpR;
    }
    InverseResult(z, t, r, n);
    inv := if t < 0 then t + n else t;
  }

  lemma QuotientPositive(r: int, s: int)
    requires 0 < s < r
    ensures r / s >= 1 && r - r / s * s == r % s
  {
  }

  lemma InverseResult(z: int, t: int, g: int, n: int)
    requires 0 <= z < n && Abs(t) < n && g == Gcd(n, z) && Cong(z * t, g, n)
    ensures var inv := if t < 0 then t + n else t;
            Cong(z * inv, g, n) && (IsPrime(n) && z > 0 ==> (z * inv) % n == 1)
  {
    var inv := if t < 0 then t + n else t;
    if t < 0 {
      CongIntro(z * (t + n), z * t, z, n);
      CongTrans(z * (t + n), z * t, g, n);
    }
    if IsPrime(n) && z > 0 {
      PrimeCoprime(z, n);
      CongModEq(z * inv, 1, n);
      QuotientUnique(1, n, 0, 1);
    }
  }
}

/** Powers modulo p (src/integer_math.cc). */
module IntegerMath {
  import opened ModArith
  import opened FFMod

  function Pow(x: int, y: nat): int {
    if y == 0 then 1 else x * Pow(x, y - 1)
  }

  lemma {:induction false} PowAdd(x: int, m: nat, n: nat)
    ensures Pow(x, m + n) == Pow(x, m) * Pow(x, n)
    decreases m
  {
    if m > 0 {
      PowAdd(x, m - 1, n);
      MulAssoc(x, Pow(x, m - 1), Pow(x, n));
    }
  }

  lemma MulAssoc(a: int, b: int, c: int)
    ensures a * b * c == a * (b * c)
  {
  }

  lemma {:induction false} PowMul(x: int, m: nat, n: nat)
    ensures Pow(x, m * n) == Pow(Pow(x, m), n)
    decreases n
  {
    if n > 0 {
      PowMul(x, m, n - 1);
      assert m * n == m + m * (n - 1);
      PowAdd(x, m, m * (n - 1));
    }
  }

  lemma PowTwo(x: int)
    ensures Pow(x, 2) == x * x
  {
    assert Pow(x, 1) == x * Pow(x, 0);
  }

  lemma {:induction false} PowCong(a: int, b: int, k: nat, n: int)
    requires Cong(a, b, n)
    ensures Cong(Pow(a, k), Pow(b, k), n)
    decreases k
  {
    if k == 0 {
      CongRefl(1, n);
    } else {
      PowCong(a, b, k - 1, n);
      CongMul(a, b, Pow(a, k - 1), Pow(b, k - 1), n);
    }
  }

  /** The value still to be multiplied in, one squaring step of the loop. */
  lemma PowerStep(target: int, res: int, x: int, y: nat, n: int)
    requires n > 0 && y > 0 && Cong(res * Pow(x, y), target, n)
    ensures Cong((if y % 2 == 1 then res * x % n else res) * Pow(x * x % n, y / 2), target, n)
  {
    var h := y / 2;
    PowMul(x, 2, h);
    PowTwo(x);
    CongMod(x * x, n);
    PowCong(x * x % n, x * x, h, n);
    var res' := if y % 2 == 1 then res * x % n else res;
    var full := if y % 2 == 1 then res * x else res;
    CongRefl(res, n);
    CongMod(res * x, n);
    CongMul(res', full, Pow(x * x % n, h), Pow(x * x, h), n);
    if y % 2 == 1 {
      assert Pow(x, y) == x * Pow(x, y - 1);
      MulAssoc(res, x, Pow(x, y - 1));
    }
    assert 2 * h == if y % 2 == 1 then y - 1 else y;
    assert full * Pow(x * x, h) == res * Pow(x, y);
    CongTrans(res' * Pow(x * x % n, h), full * Pow(x * x, h), target, n);
  }

  /** Square-and-multiply. The exponent parameter is a 32-bit word. */
  method PowerMod(x0: int, y0: nat, p: Mod) returns (res: int)
    requires Valid(p) && p.n > 1 && 0 <= x0 < p.n && y0 < 0x1_0000_0000
    ensures res == Pow(x0, y0) % p.n
  {
    var x, y := x0, y0;
    res := 1;
    CongRefl(Pow(x, y), p.n);
    while y != 0
      invariant 0 <= x < p.n && 0 <= res < p.n
      invariant Cong(res * Pow(x, y), Pow(x0, y0), p.n)
    {
      PowerStep(Pow(x0, y0), res, x, y, p.n);
      if y % 2 == 1 {
        res := MulMod(res, x, p);
      }
      x := MulMod(x, x, p);
      y := y / 2;
    }
    CongModEq(res, Pow(x0, y0), p.n);
    QuotientUnique(res, p.n, 0, res);
  }
}
