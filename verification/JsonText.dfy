/** The text form of rational functions: the tokens of the scanner, the grammar of the parser and the
    text of the writers, as functions on strings (src/json.cc:122-172, 546-694, 787-851). */
module JsonText {
  const WORD: nat := 0x1_0000_0000
  const LONG_MAX: nat := 0x7FFF_FFFF_FFFF_FFFF

  // ---- numbers ----

  predicate IsDigit(c: char) {
    '0' <= c <= '9'
  }

  function DigitChar(d: nat): (c: char)
    requires d < 10
    ensures IsDigit(c) && c as int == d + '0' as int
  {
    (d + '0' as int) as char
  }

  /** Decimal digits, no leading zero but for 0 itself. */
  function Digits(n: nat): (s: string)
    ensures |s| > 0 && forall i :: 0 <= i < |s| ==> IsDigit(s[i])
  {
    if n < 10 then [DigitChar(n)] else Digits(n / 10) + [DigitChar(n % 10)]
  }

  function IntText(n: int): string {
    if n < 0 then "-" + Digits(-n) else Digits(n)
  }

  function DigitOf(c: char): (d: nat)
    requires IsDigit(c)
    ensures d < 10 && DigitChar(d) == c
  {
    c as int - '0' as int
  }

  function ValueOf(s: string): nat
    requires forall i :: 0 <= i < |s| ==> IsDigit(s[i])
  {
    if s == "" then 0 else 10 * ValueOf(s[..|s| - 1]) + DigitOf(s[|s| - 1])
  }

  /** The number of leading digits. */
  function DigitRun(s: string): (n: nat)
    ensures n <= |s| && forall i :: 0 <= i < n ==> IsDigit(s[i])
    ensures n < |s| ==> !IsDigit(s[n])
  {
    if s == "" || !IsDigit(s[0]) then 0 else 1 + DigitRun(s[1..])
  }

  function Word32(n: int): nat {
    n % WORD
  }

  /** A two's complement 16-bit integer. */
  function Int16(n: int): int {
    (n + 0x8000) % 0x1_0000 - 0x8000
  }

  // ---- tokens ----

  datatype Token = Open | Close | Comma | Str(chars: string) | Integer(val: nat) | End | Invalid

  predicate IsSpace(c: char) {
    c == ' ' || '\t' <= c <= '\r'
  }

  function SkipSpaces(s: string): (t: string)
    ensures |t| <= |s| && t == s[|s| - |t|..]
  {
    if s != "" && IsSpace(s[0]) then SkipSpaces(s[1..]) else s
  }

  /** The position of the first quote, or the length. */
  function QuoteAt(s: string): (n: nat)
    ensures n <= |s|
  {
    if s == "" || s[0] == '"' then 0 else 1 + QuoteAt(s[1..])
  }

  /** The next token and the text after it. The length of a string is a 32-bit word. */
  function Scan(s: string): (Token, string) {
    ScanToken(SkipSpaces(s))
  }

  function ScanToken(t: string): (Token, string) {
    if t == "" || t[0] == '\0' then (End, t)
    else if t[0] == '[' then (Open, t[1..])
    else if t[0] == ']' then (Close, t[1..])
    else if t[0] == ',' then (Comma, t[1..])
    else if t[0] == '"' then ScanString(t[1..])
    else if IsDigit(t[0]) then
      (Integer(Saturated(ValueOf(t[..DigitRun(t)]))), t[DigitRun(t)..])
    else (Invalid, t)
  }

  /** The text is behind the opening quote. */
  function ScanString(s: string): (Token, string) {
    var n := QuoteAt(s);
    if n == |s| then (Invalid, "") else (Str(s[..n % WORD]), s[n + 1..])
  }

  function Saturated(n: nat): nat {
    if n > LONG_MAX then LONG_MAX else n
  }

  /** Resolves \/ and \\ from position r on, w characters being written already. Any other escape
      leaves the character that stands at the writing position. */
  function Unescaped(s: string, r: nat, w: nat): string
    requires w <= r
    decreases |s| - r
  {
    if r + 1 < |s| then
      if s[r] == '\\' then
        [if s[r + 1] == '/' then '/' else if s[r + 1] == '\\' then '\\' else s[w]] + Unescaped(s, r + 2, w + 1)
      else [s[r]] + Unescaped(s, r + 1, w + 1)
    else if r < |s| then [s[r]]
    else ""
  }

  // ---- what the tokens mean ----

  predicate IsBlank(c: char) {
    c in [' ', 9 as char, 10 as char, 11 as char, 12 as char, 13 as char]
  }

  lemma SpaceIsBlank(c: char)
    ensures IsSpace(c) <==> IsBlank(c)
  {
  }

  lemma {:induction false} SkipBlanks(w: string, s: string)
    requires forall i :: 0 <= i < |w| ==> IsBlank(w[i])
    ensures SkipSpaces(w + s) == SkipSpaces(s)
    decreases |w|
  {
    hide IsSpace, IsBlank;
    if w == "" {
      assert w + s == s;
    } else {
      assert (w + s)[1..] == w[1..] + s && (w + s)[0] == w[0];
      SpaceIsBlank(w[0]);
      SkipBlanks(w[1..], s);
    }
  }

  /** Blanks before a token do not matter, and nothing else is skipped. */
  lemma ScanBlanks(w: string, s: string)
    requires forall i :: 0 <= i < |w| ==> IsBlank(w[i])
    ensures Scan(w + s) == Scan(s)
    ensures s != "" && !IsBlank(s[0]) ==> Scan(w + s) == ScanToken(s)
  {
    hide IsSpace, IsBlank, ScanToken;
    SkipBlanks(w, s);
    if s != "" {
      SpaceIsBlank(s[0]);
    }
  }

  function Pow10(n: nat): nat {
    if n == 0 then 1 else 10 * Pow10(n - 1)
  }

  predicate AllDigits(s: string) {
    forall i :: 0 <= i < |s| ==> IsDigit(s[i])
  }

  lemma TenTimes(x: int, y: int, z: int)
    ensures 10 * (x * y + z) == x * (10 * y) + 10 * z
  {
  }

  /** The first digit of a number counts for a power of ten. */
  lemma {:induction false} ValueOfFirst(s: string)
    requires s != "" && AllDigits(s)
    ensures ValueOf(s) == (s[0] as int - '0' as int) * Pow10(|s| - 1) + ValueOf(s[1..])
    decreases |s|
  {
    if |s| == 1 {
      ValueOfLast(s);
    } else {
      var init, d := s[..|s| - 1], s[0] as int - '0' as int;
      ValueOfFirst(init);
      assert init[1..] == s[1..][..|s| - 2] && s[1..][|s| - 2] == s[|s| - 1] && init[0] == s[0];
      ValueOfLast(s);
      ValueOfLast(s[1..]);
      TenTimes(d, Pow10(|s| - 2), ValueOf(init[1..]));
    }
  }

  lemma ValueOfLast(s: string)
    requires s != "" && AllDigits(s)
    ensures ValueOf(s) == 10 * ValueOf(s[..|s| - 1]) + (s[|s| - 1] as int - '0' as int)
    ensures ValueOf("") == 0 && |s| == 1 ==> s[1..] == "" && s[..0] == "" && Pow10(0) == 1
    ensures |s| > 1 ==> Pow10(|s| - 1) == 10 * Pow10(|s| - 2)
  {
  }

  lemma {:induction false} DigitRunIs(d: string, s: string)
    requires AllDigits(d) && (s == "" || !IsDigit(s[0]))
    ensures DigitRun(d + s) == |d|
    decreases |d|
  {
    if d == "" {
      assert d + s == s;
    } else {
      assert (d + s)[1..] == d[1..] + s;
      DigitRunIs(d[1..], s);
    }
  }

  lemma DigitFirst(t: string)
    requires t != "" && IsDigit(t[0])
    ensures Scan(t) == (Integer(Saturated(ValueOf(t[..DigitRun(t)]))), t[DigitRun(t)..])
  {
    hide ValueOf, DigitRun, ScanString;
  }

  /** A run of digits, leading zeros included, is read as its value, at most the largest 64-bit integer. */
  lemma ScanDigits(d: string, s: string)
    requires d != "" && AllDigits(d) && (s == "" || !IsDigit(s[0]))
    ensures Scan(d + s) == (Integer(if ValueOf(d) > 9223372036854775807 then 9223372036854775807 else ValueOf(d)), s)
  {
    hide ValueOf, DigitRun, Scan;
    var t := d + s;
    assert t[0] == d[0] && IsDigit(d[0]);
    DigitRunIs(d, s);
    assert t[..|d|] == d && t[|d|..] == s;
    DigitFirst(t);
  }

  /** An exponent is the 16-bit integer congruent to what was read. */
  lemma Int16Is(n: int)
    ensures -32768 <= Int16(n) <= 32767 && (n - Int16(n)) % 65536 == 0
  {
  }

  /** Slashes and backslashes with a backslash before them. */
  function Escaped(t: string): string {
    if t == "" then "" else (if t[0] == '/' || t[0] == '\\' then ['\\', t[0]] else [t[0]]) + Escaped(t[1..])
  }

  /** Resolving the escapes gives the text back. */
  lemma UnescapeEscaped(t: string)
    ensures Unescaped(Escaped(t), 0, 0) == t
  {
    UnescapeFrom("", t, 0);
    assert "" + Escaped(t) == Escaped(t);
  }

  lemma {:induction false} UnescapeFrom(before: string, t: string, w: nat)
    requires w <= |before|
    ensures Unescaped(before + Escaped(t), |before|, w) == t
    decreases |t|
  {
    if t != "" {
      var s, r := before + Escaped(t), |before|;
      var head := if t[0] == '/' || t[0] == '\\' then ['\\', t[0]] else [t[0]];
      assert Escaped(t) == head + Escaped(t[1..]);
      assert s == (before + head) + Escaped(t[1..]);
      assert s[r] == head[0];
      UnescapeFrom(before + head, t[1..], w + 1);
      if |head| == 2 {
        assert s[r + 1] == t[0];
      } else {
        assert s[r] == t[0] != '\\';
        if r + 1 == |s| {
          assert Escaped(t[1..]) == "";
          EscapedEmpty(t[1..]);
        }
      }
      assert t == [t[0]] + t[1..];
    }
  }

  lemma EscapedEmpty(t: string)
    requires Escaped(t) == ""
    ensures t == ""
  {
  }

  // ---- grammar ----

  datatype Parsed<T> = Failed | Parsed(value: T, rest: string)
  {
    predicate IsFailure() { Failed? }

    function PropagateFailure<U>(): Parsed<U>
      requires Failed?
    {
      Parsed<U>.Failed
    }

    function Extract(): Parsed<T>
      requires Parsed?
    {
      this
    }
  }

  /** A coefficient as text, the total degree and the exponents. */
  datatype Term = Term(coeff: string, degree: int, exponents: seq<int>)

  /** A vanishing function has no terms at all. */
  datatype RatFun = RatFun(num: seq<Term>, den: seq<Term>)

  datatype FunctionList = FunctionList(nvars: nat, funs: seq<RatFun>)

  function Expect(s: string, token: Token): Parsed<Token> {
    var (t, rest) := Scan(s);
    if t == token then Parsed(t, rest) else Failed
  }

  function ExpectInteger(s: string): Parsed<nat> {
    var (t, rest) := Scan(s);
    if t.Integer? then Parsed(t.val, rest) else Failed
  }

  function ExpectString(s: string): Parsed<string> {
    var (t, rest) := Scan(s);
    if t.Str? then Parsed(t.chars, rest) else Failed
  }

  /** A comma before every list entry but the first. */
  function Separator(s: string, j: nat): Parsed<Token> {
    if j > 0 then Expect(s, Comma) else Parsed(Comma, s)
  }

  function ParseExponents(s: string, k: nat, npars: nat): Parsed<seq<nat>>
    requires k <= npars
    decreases npars - k
  {
    if k == npars then Parsed([], s)
    else
      var a :- Separator(s, k);
      var b :- ExpectInteger(a.rest);
      var c :- ParseExponents(b.rest, k + 1, npars);
      Parsed([b.value] + c.value, c.rest)
  }

  function Sum(s: seq<int>): int {
    if s == [] then 0 else s[0] + Sum(s[1..])
  }

  function Stored(vals: seq<nat>): (e: seq<int>)
    ensures |e| == |vals| && forall i :: 0 <= i < |vals| ==> e[i] == Int16(vals[i])
  {
    seq(|vals|, i requires 0 <= i < |vals| => Int16(vals[i]))
  }

  function ParseTerm(s: string, npars: nat): Parsed<Term> {
    var a :- Expect(s, Open);
    var b :- ExpectString(a.rest);
    var c :- Expect(b.rest, Comma);
    var d :- Expect(c.rest, Open);
    var e :- ParseExponents(d.rest, 0, npars);
    var f :- Expect(e.rest, Close);
    var g :- Expect(f.rest, Close);
    Parsed(Term(Unescaped(b.value, 0, 0), Int16(Sum(e.value)), Stored(e.value)), g.rest)
  }

  function ParseTerms(s: string, j: nat, n: nat, npars: nat): Parsed<seq<Term>>
    requires j <= n
    decreases n - j
  {
    if j == n then Parsed([], s)
    else
      var a :- Separator(s, j);
      var b :- ParseTerm(a.rest, npars);
      var c :- ParseTerms(b.rest, j + 1, n, npars);
      Parsed([b.value] + c.value, c.rest)
  }

  function ParsePoly(s: string, n: nat, npars: nat): Parsed<seq<Term>> {
    var a :- Expect(s, Open);
    var b :- ParseTerms(a.rest, 0, n, npars);
    var c :- Expect(b.rest, Close);
    Parsed(b.value, c.rest)
  }

  /** The number of terms and the terms. */
  function ParsePart(s: string, npars: nat): Parsed<seq<Term>> {
    var a :- Expect(s, Open);
    var b :- ExpectInteger(a.rest);
    var c :- Expect(b.rest, Comma);
    var d :- ParsePoly(c.rest, Word32(b.value), npars);
    var e :- Expect(d.rest, Close);
    Parsed(d.value, e.rest)
  }

  function ParseBoth(s: string, npars: nat): Parsed<RatFun> {
    var a :- ParsePart(s, npars);
    var b :- Expect(a.rest, Comma);
    var c :- ParsePart(b.rest, npars);
    var d :- Expect(c.rest, Close);
    Parsed(RatFun(a.value, c.value), d.rest)
  }

  function ParseRatFun(s: string, npars: nat): Parsed<RatFun> {
    var (t, rest) := Scan(s);
    if t == Integer(0) then Parsed(RatFun([], []), rest)
    else
      var a :- Expect(s, Open);
      ParseBoth(a.rest, npars)
  }

  function ParseRatFuns(s: string, j: nat, n: nat, npars: nat): Parsed<seq<RatFun>>
    requires j <= n
    decreases n - j
  {
    if j == n then Parsed([], s)
    else
      var a :- Separator(s, j);
      var b :- ParseRatFun(a.rest, npars);
      var c :- ParseRatFuns(b.rest, j + 1, n, npars);
      Parsed([b.value] + c.value, c.rest)
  }

  function ParseList(s: string): Parsed<FunctionList> {
    var a :- Expect(s, Open);
    var b :- ExpectInteger(a.rest);
    var c :- Expect(b.rest, Comma);
    var d :- ExpectInteger(c.rest);
    var e :- Expect(d.rest, Comma);
    var f :- Expect(e.rest, Open);
    var g :- ParseRatFuns(f.rest, 0, Word32(b.value), Word32(d.value));
    var h :- Expect(g.rest, Close);
    var i :- Expect(h.rest, Close);
    Parsed(FunctionList(Word32(d.value), g.value), i.rest)
  }

  // ---- the steps of the parser ----

  /** One step over a list of numbers. */
  lemma ExponentsStep(s: string, j: nat, n: nat)
    requires j < n
    ensures ParseExponents(s, j, n) ==
      var a := Separator(s, j);
      if a.Failed? then Failed else
      var b := ExpectInteger(a.rest);
      if b.Failed? then Failed else
      var c := ParseExponents(b.rest, j + 1, n);
      if c.Failed? then Failed else Parsed([b.value] + c.value, c.rest)
  {
  }

  /** One step over a list of terms. */
  lemma TermsStep(s: string, j: nat, n: nat, npars: nat)
    requires j < n
    ensures ParseTerms(s, j, n, npars) ==
      var a := Separator(s, j);
      if a.Failed? then Failed else
      var b := ParseTerm(a.rest, npars);
      if b.Failed? then Failed else
      var c := ParseTerms(b.rest, j + 1, n, npars);
      if c.Failed? then Failed else Parsed([b.value] + c.value, c.rest)
  {
  }

  /** One step over a list of functions. */
  lemma FunsStep(s: string, j: nat, n: nat, npars: nat)
    requires j < n
    ensures ParseRatFuns(s, j, n, npars) ==
      var a := Separator(s, j);
      if a.Failed? then Failed else
      var b := ParseRatFun(a.rest, npars);
      if b.Failed? then Failed else
      var c := ParseRatFuns(b.rest, j + 1, n, npars);
      if c.Failed? then Failed else Parsed([b.value] + c.value, c.rest)
  {
  }

  lemma PartSteps(s0: string, s1: string, s2: string, s3: string, s4: string, rest: string, n: nat, nvars: nat,
                  terms: Parsed<seq<Term>>)
    requires n < WORD && Expect(s0, Open) == Parsed(Open, s1) && ExpectInteger(s1) == Parsed(n, s2)
    requires Expect(s2, Comma) == Parsed(Comma, s3)
    requires ParsePoly(s3, n, nvars) == terms && (terms.Parsed? ==> terms.rest == s4)
    requires Expect(s4, Close) == Parsed(Close, rest)
    ensures ParsePart(s0, nvars) == if terms.Parsed? then Parsed(terms.value, rest) else Failed
  {
    hide Expect, ExpectInteger, ParsePoly;
  }

  /** The parser's steps over a list, the text being cut where the steps cut it. */
  lemma ListSteps(s0: string, s1: string, s2: string, s3: string, s4: string, s5: string, s6: string, s7: string,
                  s8: string, n: nat, nvars: nat, funs: Parsed<seq<RatFun>>)
    requires n < WORD && nvars < WORD
    requires Expect(s0, Open) == Parsed(Open, s1) && ExpectInteger(s1) == Parsed(n, s2)
    requires Expect(s2, Comma) == Parsed(Comma, s3) && ExpectInteger(s3) == Parsed(nvars, s4)
    requires Expect(s4, Comma) == Parsed(Comma, s5) && Expect(s5, Open) == Parsed(Open, s6)
    requires ParseRatFuns(s6, 0, n, nvars) == funs && (funs.Parsed? ==> funs.rest == s7)
    requires Expect(s7, Close) == Parsed(Close, s8) && Expect(s8, Close) == Parsed(Close, "")
    ensures ParseList(s0) == if funs.Parsed? then Parsed(FunctionList(nvars, funs.value), "") else Failed
  {
    hide Expect, ExpectInteger, ParseRatFuns;
  }

  lemma Assoc(a: string, b: string, rest: string)
    ensures (a + b) + rest == a + (b + rest)
  {
  }

  // ---- the written form ----

  datatype Rational = Rational(num: int, den: nat)

  /** A term of a reconstructed polynomial. */
  datatype WrittenTerm = WrittenTerm(coeff: Rational, exponents: seq<int>)

  datatype WrittenFun = WrittenFun(num: seq<WrittenTerm>, den: seq<WrittenTerm>)

  function RationalText(q: Rational): string {
    IntText(q.num) + if q.den == 1 then "" else "/" + Digits(q.den)
  }

  function ReadUnsigned(s: string): Parsed<Rational> {
    var n := DigitRun(s);
    if n == 0 then Failed
    else if n == |s| then Parsed(Rational(ValueOf(s), 1), "")
    else ReadDenominator(ValueOf(s[..n]), s[n..])
  }

  function ReadDenominator(num: nat, s: string): Parsed<Rational>
    requires s != ""
  {
    var m := DigitRun(s[1..]);
    if s[0] == '/' && m > 0 && m == |s| - 1 then Parsed(Rational(num, ValueOf(s[1..])), "") else Failed
  }

  /** The integer or fraction a coefficient text denotes. */
  function ReadRational(s: string): Parsed<Rational> {
    if s != "" && s[0] == '-' then
      var q :- ReadUnsigned(s[1..]);
      Parsed(Rational(0 - q.value.num, q.value.den), q.rest)
    else ReadUnsigned(s)
  }

  function CommaText(j: nat): string {
    if j > 0 then "," else ""
  }

  function ExponentsText(e: seq<int>, k: nat): string
    requires k <= |e|
    decreases |e| - k
  {
    if k == |e| then "" else CommaText(k) + IntText(e[k]) + ExponentsText(e, k + 1)
  }

  function TermText(t: WrittenTerm): string {
    "[\"" + RationalText(t.coeff) + "\",[" + ExponentsText(t.exponents, 0) + "]]"
  }

  function TermsText(p: seq<WrittenTerm>, j: nat): string
    requires j <= |p|
    decreases |p| - j
  {
    if j == |p| then "" else CommaText(j) + TermText(p[j]) + TermsText(p, j + 1)
  }

  function PolyText(p: seq<WrittenTerm>): string {
    "[" + TermsText(p, 0) + "]"
  }

  function PartText(p: seq<WrittenTerm>): string {
    "[" + Digits(|p|) + "," + PolyText(p) + "]"
  }

  function RatFunText(f: WrittenFun): string {
    if f.num == [] then "0" else "[" + PartText(f.num) + "," + PartText(f.den) + "]"
  }

  function RatFunsText(fs: seq<WrittenFun>, j: nat): string
    requires j <= |fs|
    decreases |fs| - j
  {
    if j == |fs| then "" else CommaText(j) + RatFunText(fs[j]) + RatFunsText(fs, j + 1)
  }

  function ListText(fs: seq<WrittenFun>, nvars: nat): string {
    "[" + Digits(|fs|) + "," + Digits(nvars) + ",[" + RatFunsText(fs, 0) + "]]"
  }
}

/** Reading what the writers print (src/json.cc:546-694, 787-851). */
module JsonRoundTrip {
  import opened JsonText

  // ---- tokens ----

  lemma {:induction false} ValueOfDigits(n: nat)
    ensures ValueOf(Digits(n)) == n
  {
    if n >= 10 {
      ValueOfDigits(n / 10);
      assert Digits(n)[..|Digits(n)| - 1] == Digits(n / 10);
    } else {
      assert Digits(n)[..0] == "";
    }
  }

  predicate StartsPlain(s: string) {
    s == "" || !IsDigit(s[0])
  }

  lemma {:induction false} DigitRunStops(d: string, rest: string)
    requires StartsPlain(rest) && forall i :: 0 <= i < |d| ==> IsDigit(d[i])
    ensures DigitRun(d + rest) == |d|
  {
    if d == "" {
      assert d + rest == rest;
    } else {
      assert (d + rest)[1..] == d[1..] + rest;
      DigitRunStops(d[1..], rest);
    }
  }

  lemma Halves(d: string, rest: string)
    ensures (d + rest)[..|d|] == d && (d + rest)[|d|..] == rest
    ensures d != "" ==> (d + rest)[0] == d[0]
  {
  }

  lemma ScanDigits(s: string)
    requires s != "" && IsDigit(s[0])
    ensures Scan(s) == (Integer(Saturated(ValueOf(s[..DigitRun(s)]))), s[DigitRun(s)..])
  {
    hide ValueOf, DigitRun;
  }

  lemma ScanInteger(n: nat, rest: string)
    requires n <= LONG_MAX && StartsPlain(rest)
    ensures Scan(Digits(n) + rest) == (Integer(n), rest)
  {
    assert Saturated(n) == n;
    hide *;
    ValueOfDigits(n);
    DigitRunStops(Digits(n), rest);
    Halves(Digits(n), rest);
    ScanDigits(Digits(n) + rest);
  }

  lemma ScanNegative(n: int, rest: string)
    requires n < 0
    ensures Scan(IntText(n) + rest).0 == Invalid
  {
  }

  lemma ScanSymbol(rest: string)
    ensures Scan("[" + rest) == (Open, rest)
    ensures Scan("]" + rest) == (Close, rest)
    ensures Scan("," + rest) == (Comma, rest)
  {
  }

  predicate Plain(s: string) {
    forall i :: 0 <= i < |s| ==> s[i] != '"' && s[i] != '\\'
  }

  lemma {:induction false} QuoteAfter(c: string, rest: string)
    requires Plain(c)
    ensures QuoteAt(c + "\"" + rest) == |c|
  {
    var s := c + "\"" + rest;
    if c != "" {
      assert s[1..] == c[1..] + "\"" + rest;
      QuoteAfter(c[1..], rest);
    }
  }

  lemma ScanQuoted(c: string, rest: string)
    requires Plain(c) && |c| < WORD
    ensures Scan("\"" + (c + "\"" + rest)) == (Str(c), rest)
  {
    var s := c + "\"" + rest;
    assert ("\"" + s)[1..] == s;
    QuoteAfter(c, rest);
    assert s[..|c|] == c && s[|c| + 1..] == rest;
  }

  lemma {:induction false} UnescapedPlain(s: string, i: nat)
    requires Plain(s) && i <= |s|
    ensures Unescaped(s, i, i) == s[i..]
    decreases |s| - i
  {
    if i + 1 < |s| {
      UnescapedPlain(s, i + 1);
      assert s[i..] == [s[i]] + s[i + 1..];
    }
  }

  lemma RationalTextPlain(q: Rational)
    ensures Plain(RationalText(q))
  {
  }

  lemma UnsignedReads(n: nat, d: nat)
    ensures ReadUnsigned(Digits(n)) == Parsed(Rational(n, 1), "")
    ensures ReadUnsigned(Digits(n) + ("/" + Digits(d))) == Parsed(Rational(n, d), "")
  {
    var f := "/" + Digits(d);
    assert f[0] == '/' && f[1..] == Digits(d) && StartsPlain(f);
    assert Digits(n) + "" == Digits(n) && Digits(d) + "" == Digits(d);
    ValueOfDigits(n);
    ValueOfDigits(d);
    DigitRunStops(Digits(n), f);
    DigitRunStops(Digits(n), "");
    DigitRunStops(Digits(d), "");
    Halves(Digits(n), f);
    hide ValueOf, DigitRun, Digits, StartsPlain;
  }

  lemma SignReads(s: string)
    ensures ReadRational("-" + s) ==
      var q := ReadUnsigned(s);
      if q.Failed? then Failed else Parsed(Rational(0 - q.value.num, q.value.den), q.rest)
    ensures s != "" && IsDigit(s[0]) ==> ReadRational(s) == ReadUnsigned(s)
  {
  }

  /** The text of a coefficient denotes the coefficient. */
  lemma CoefficientReads(q: Rational)
    requires q.den > 0
    ensures ReadRational(RationalText(q)) == Parsed(q, "")
  {
    var n := if q.num < 0 then 0 - q.num else q.num;
    var d := Digits(n);
    var tail := if q.den == 1 then "" else "/" + Digits(q.den);
    assert RationalText(q) == (if q.num < 0 then "-" + d else d) + tail;
    hide *;
    UnsignedReads(n, q.den);
    assert d + "" == d;
    SignReads(d + tail);
    Assoc("-", d, tail);
    Halves(d, tail);
  }

  // ---- the grammar, level by level ----

  predicate Int16Range(e: seq<int>) {
    forall i :: 0 <= i < |e| ==> -0x8000 <= e[i] < 0x8000
  }

  predicate NonNegative(e: seq<int>, k: nat) {
    forall i :: k <= i < |e| ==> e[i] >= 0
  }

  lemma SeparatorReads(j: nat, rest: string)
    ensures Separator(CommaText(j) + rest, j) == Parsed(Comma, rest)
  {
  }

  lemma IntegerReads(n: int, rest: string)
    requires n <= LONG_MAX && StartsPlain(rest)
    ensures ExpectInteger(IntText(n) + rest) == if n >= 0 then Parsed(n, rest) else Failed
  {
    if n < 0 {
      ScanNegative(n, rest);
    } else {
      ScanInteger(n, rest);
    }
    hide Scan, Digits;
  }

  lemma SymbolReads(rest: string)
    ensures Expect("[" + rest, Open) == Parsed(Open, rest)
    ensures Expect("]" + rest, Close) == Parsed(Close, rest)
    ensures Expect("," + rest, Comma) == Parsed(Comma, rest)
  {
    ScanSymbol(rest);
    hide Scan;
  }

  /** The text of entry k and of the entries behind it. */
  lemma ExponentsSplit(e: seq<int>, k: nat, rest: string)
    requires k < |e| && StartsPlain(rest)
    ensures ExponentsText(e, k) + rest == CommaText(k) + (IntText(e[k]) + (ExponentsText(e, k + 1) + rest))
    ensures StartsPlain(ExponentsText(e, k + 1) + rest)
  {
    hide IntText;
    var tail := ExponentsText(e, k + 1);
    assert tail != "" ==> tail[0] == ',';
    hide ExponentsText, CommaText;
    Assoc(CommaText(k) + IntText(e[k]), tail, rest);
    Assoc(CommaText(k), IntText(e[k]), tail + rest);
  }

  lemma Suffix<T>(s: seq<T>, k: nat)
    requires k < |s|
    ensures s[k..] == [s[k]] + s[k + 1..]
  {
  }

  lemma ExponentHead(e: seq<int>, k: nat, rest: string) returns (s: string)
    requires k < |e| && Int16Range(e) && StartsPlain(rest)
    ensures Separator(ExponentsText(e, k) + rest, k) == Parsed(Comma, s)
    ensures ExpectInteger(s) == if e[k] >= 0 then Parsed(e[k], ExponentsText(e, k + 1) + rest) else Failed
  {
    var tail := ExponentsText(e, k + 1) + rest;
    s := IntText(e[k]) + tail;
    ExponentsSplit(e, k, rest);
    SeparatorReads(k, s);
    IntegerReads(e[k], tail);
    hide *;
  }

  /** The number list comes back, unless a number is negative: no token starts with a minus sign. */
  lemma {:induction false} ReadExponents(e: seq<int>, k: nat, rest: string)
    requires k <= |e| && Int16Range(e) && StartsPlain(rest)
    ensures ParseExponents(ExponentsText(e, k) + rest, k, |e|)
         == if NonNegative(e, k) then Parsed(e[k..], rest) else Failed
    decreases |e| - k
  {
    if k == |e| {
      assert "" + rest == rest;
      return;
    }
    assert NonNegative(e, k) <==> e[k] >= 0 && NonNegative(e, k + 1);
    hide *;
    var s := ExponentHead(e, k, rest);
    ReadExponents(e, k + 1, rest);
    Suffix(e, k);
    ExponentsStep(ExponentsText(e, k) + rest, k, |e|);
  }

  // ---- terms and polynomials ----

  /** A term of so many variables whose coefficient text is shorter than 2^32. */
  predicate TermFits(t: WrittenTerm, nvars: nat) {
    t.coeff.den > 0 && |RationalText(t.coeff)| < WORD && |t.exponents| == nvars && Int16Range(t.exponents)
  }

  predicate PolyFits(p: seq<WrittenTerm>, nvars: nat) {
    |p| < WORD && forall j :: 0 <= j < |p| ==> TermFits(p[j], nvars)
  }

  predicate FunFits(f: WrittenFun, nvars: nat) {
    PolyFits(f.num, nvars) && PolyFits(f.den, nvars)
  }

  predicate ListFits(fs: seq<WrittenFun>, nvars: nat) {
    |fs| < WORD && nvars < WORD && forall j :: 0 <= j < |fs| ==> FunFits(fs[j], nvars)
  }

  predicate TermsNonNegative(p: seq<WrittenTerm>, j: nat) {
    forall i :: j <= i < |p| ==> NonNegative(p[i].exponents, 0)
  }

  predicate FunNonNegative(f: WrittenFun) {
    f.num == [] || (TermsNonNegative(f.num, 0) && TermsNonNegative(f.den, 0))
  }

  predicate FunsNonNegative(fs: seq<WrittenFun>, j: nat) {
    forall i :: j <= i < |fs| ==> FunNonNegative(fs[i])
  }

  /** The term as it is read: coefficient and exponents unchanged, the degree in 16 bits. */
  function RereadTerm(t: WrittenTerm): Term {
    Term(RationalText(t.coeff), Int16(Sum(t.exponents)), t.exponents)
  }

  function RereadTerms(p: seq<WrittenTerm>): (r: seq<Term>)
    ensures |r| == |p| && forall j :: 0 <= j < |p| ==> r[j] == RereadTerm(p[j])
  {
    seq(|p|, j requires 0 <= j < |p| => RereadTerm(p[j]))
  }

  /** A function without numerator is read as the zero function. */
  function RereadFun(f: WrittenFun): RatFun {
    if f.num == [] then RatFun([], []) else RatFun(RereadTerms(f.num), RereadTerms(f.den))
  }

  function RereadFuns(fs: seq<WrittenFun>): (r: seq<RatFun>)
    ensures |r| == |fs| && forall j :: 0 <= j < |fs| ==> r[j] == RereadFun(fs[j])
  {
    seq(|fs|, j requires 0 <= j < |fs| => RereadFun(fs[j]))
  }

  lemma Opening(s: string)
    ensures "[\"" + s == "[" + ("\"" + s) && "\",[" + s == "\"" + ("," + ("[" + s)) && "]]" + s == "]" + ("]" + s)
  {
  }

  lemma TermSplit(t: WrittenTerm, rest: string)
    ensures TermText(t) + rest == "[" + ("\"" + (RationalText(t.coeff) + ("\"" + ("," + ("[" +
                                  (ExponentsText(t.exponents, 0) + ("]" + ("]" + rest))))))))
  {
    var c, e := RationalText(t.coeff), ExponentsText(t.exponents, 0);
    assert TermText(t) == "[\"" + c + "\",[" + e + "]]";
    hide *;
    var s := "]]" + rest;
    Assoc("[\"" + c + "\",[" + e, "]]", rest);
    Assoc("[\"" + c + "\",[", e, s);
    Assoc("[\"" + c, "\",[", e + s);
    Assoc("[\"", c, "\",[" + (e + s));
    Opening(rest);
    Opening(e + s);
    Opening(c + ("\",[" + (e + s)));
  }

  lemma QuotedReads(q: Rational, rest: string)
    requires |RationalText(q)| < WORD
    ensures ExpectString("\"" + (RationalText(q) + ("\"" + rest))) == Parsed(RationalText(q), rest)
    ensures Unescaped(RationalText(q), 0, 0) == RationalText(q)
  {
    RationalTextPlain(q);
    ScanQuoted(RationalText(q), rest);
    Assoc(RationalText(q), "\"", rest);
    UnescapedPlain(RationalText(q), 0);
    hide Scan, RationalText, Plain;
  }

  lemma StoredNonNegative(e: seq<int>)
    requires Int16Range(e) && NonNegative(e, 0)
    ensures Stored(e) == e
  {
  }

  lemma ReadTerm(t: WrittenTerm, nvars: nat, rest: string)
    requires TermFits(t, nvars)
    ensures ParseTerm(TermText(t) + rest, nvars)
         == if NonNegative(t.exponents, 0) then Parsed(RereadTerm(t), rest) else Failed
  {
    TermSplit(t, rest);
    var g := "]" + rest;
    var f := "]" + g;
    var e := ExponentsText(t.exponents, 0) + f;
    var d := "[" + e;
    var c := "," + d;
    SymbolReads("\"" + (RationalText(t.coeff) + ("\"" + c)));
    QuotedReads(t.coeff, c);
    SymbolReads(d);
    SymbolReads(e);
    ReadExponents(t.exponents, 0, f);
    SymbolReads(g);
    SymbolReads(rest);
    if NonNegative(t.exponents, 0) {
      StoredNonNegative(t.exponents);
      assert t.exponents[0..] == t.exponents;
    }
    hide Scan, Expect, ExpectString, RationalText, ExponentsText, ParseExponents, Unescaped, TermText, Sum,
         Int16, Stored, NonNegative, Int16Range;
  }

  lemma TermsSplit(p: seq<WrittenTerm>, j: nat, rest: string)
    requires j < |p|
    ensures TermsText(p, j) + rest == CommaText(j) + (TermText(p[j]) + (TermsText(p, j + 1) + rest))
  {
  }

  lemma TermHead(p: seq<WrittenTerm>, j: nat, nvars: nat, rest: string) returns (s: string)
    requires j < |p| && TermFits(p[j], nvars)
    ensures Separator(TermsText(p, j) + rest, j) == Parsed(Comma, s)
    ensures ParseTerm(s, nvars)
         == if NonNegative(p[j].exponents, 0) then Parsed(RereadTerm(p[j]), TermsText(p, j + 1) + rest) else Failed
  {
    var tail := TermsText(p, j + 1) + rest;
    s := TermText(p[j]) + tail;
    TermsSplit(p, j, rest);
    SeparatorReads(j, s);
    ReadTerm(p[j], nvars, tail);
    hide *;
  }

  lemma {:induction false} ReadTerms(p: seq<WrittenTerm>, j: nat, nvars: nat, rest: string)
    requires j <= |p| && forall i :: 0 <= i < |p| ==> TermFits(p[i], nvars)
    ensures ParseTerms(TermsText(p, j) + rest, j, |p|, nvars)
         == if TermsNonNegative(p, j) then Parsed(RereadTerms(p)[j..], rest) else Failed
    decreases |p| - j
  {
    if j == |p| {
      assert "" + rest == rest;
      return;
    }
    assert TermsNonNegative(p, j) <==> NonNegative(p[j].exponents, 0) && TermsNonNegative(p, j + 1);
    hide *;
    var s := TermHead(p, j, nvars, rest);
    ReadTerms(p, j + 1, nvars, rest);
    Suffix(RereadTerms(p), j);
    TermsStep(TermsText(p, j) + rest, j, |p|, nvars);
  }

  lemma ReadPoly(p: seq<WrittenTerm>, nvars: nat, rest: string)
    requires PolyFits(p, nvars)
    ensures ParsePoly("[" + (TermsText(p, 0) + ("]" + rest)), |p|, nvars)
         == if TermsNonNegative(p, 0) then Parsed(RereadTerms(p), rest) else Failed
  {
    hide Expect, TermsText, ParseTerms, RereadTerms, TermsNonNegative, TermFits;
    var tail := "]" + rest;
    var s := TermsText(p, 0) + tail;
    SymbolReads(s);
    ReadTerms(p, 0, nvars, tail);
    SymbolReads(rest);
    assert RereadTerms(p)[0..] == RereadTerms(p);
  }

  lemma NumberReads(n: nat, rest: string)
    requires n < WORD
    ensures ExpectInteger(Digits(n) + ("," + rest)) == Parsed(n, "," + rest)
  {
    IntegerReads(n, "," + rest);
    hide ExpectInteger, Digits;
  }

  lemma PartSplit(p: seq<WrittenTerm>, rest: string)
    ensures PartText(p) + rest
         == "[" + (Digits(|p|) + ("," + ("[" + (TermsText(p, 0) + ("]" + ("]" + rest))))))
  {
    hide Digits, TermsText;
  }

  lemma ReadPart(p: seq<WrittenTerm>, nvars: nat, rest: string)
    requires PolyFits(p, nvars)
    ensures ParsePart(PartText(p) + rest, nvars)
         == if TermsNonNegative(p, 0) then Parsed(RereadTerms(p), rest) else Failed
  {
    assert |p| < WORD;
    hide *;
    PartSplit(p, rest);
    var d := "]" + rest;
    var b := "[" + (TermsText(p, 0) + ("]" + d));
    var a := Digits(|p|) + ("," + b);
    SymbolReads(a);
    NumberReads(|p|, b);
    SymbolReads(b);
    ReadPoly(p, nvars, d);
    SymbolReads(rest);
    PartSteps("[" + a, a, "," + b, b, d, rest, |p|, nvars, ParsePoly(b, |p|, nvars));
  }

  // ---- functions ----

  lemma FunSplit(f: WrittenFun, rest: string)
    requires f.num != []
    ensures RatFunText(f) + rest == "[" + (PartText(f.num) + ("," + (PartText(f.den) + ("]" + rest))))
  {
    hide PartText;
  }

  lemma ReadZero(nvars: nat, rest: string)
    requires StartsPlain(rest)
    ensures ParseRatFun("0" + rest, nvars) == Parsed(RatFun([], []), rest)
  {
    ScanInteger(0, rest);
    assert Digits(0) == "0";
    hide Scan, Digits;
  }

  lemma ReadFun(f: WrittenFun, nvars: nat, rest: string)
    requires FunFits(f, nvars) && StartsPlain(rest)
    ensures ParseRatFun(RatFunText(f) + rest, nvars)
         == if FunNonNegative(f) then Parsed(RereadFun(f), rest) else Failed
  {
    if f.num == [] {
      ReadZero(nvars, rest);
      hide ParseRatFun;
    } else {
      FunSplit(f, rest);
      var d := "]" + rest;
      var c := PartText(f.den) + d;
      var b := "," + c;
      var a := PartText(f.num) + b;
      ScanSymbol(a);
      SymbolReads(a);
      ReadPart(f.num, nvars, b);
      SymbolReads(c);
      ReadPart(f.den, nvars, d);
      SymbolReads(rest);
      hide Scan, Expect, PartText, RatFunText, ParsePart, RereadTerms, TermsNonNegative, PolyFits;
    }
  }

  lemma FunsSplit(fs: seq<WrittenFun>, j: nat, rest: string)
    requires j < |fs| && StartsPlain(rest)
    ensures RatFunsText(fs, j) + rest == CommaText(j) + (RatFunText(fs[j]) + (RatFunsText(fs, j + 1) + rest))
    ensures StartsPlain(RatFunsText(fs, j + 1) + rest)
  {
    hide RatFunText;
    var tail := RatFunsText(fs, j + 1);
    assert tail != "" ==> tail[0] == ',';
    hide CommaText, RatFunsText;
    Assoc(CommaText(j) + RatFunText(fs[j]), tail, rest);
    Assoc(CommaText(j), RatFunText(fs[j]), tail + rest);
  }

  lemma FunHead(fs: seq<WrittenFun>, j: nat, nvars: nat, rest: string) returns (s: string)
    requires j < |fs| && StartsPlain(rest) && FunFits(fs[j], nvars)
    ensures Separator(RatFunsText(fs, j) + rest, j) == Parsed(Comma, s)
    ensures ParseRatFun(s, nvars)
         == if FunNonNegative(fs[j]) then Parsed(RereadFun(fs[j]), RatFunsText(fs, j + 1) + rest) else Failed
  {
    var tail := RatFunsText(fs, j + 1) + rest;
    s := RatFunText(fs[j]) + tail;
    FunsSplit(fs, j, rest);
    SeparatorReads(j, s);
    ReadFun(fs[j], nvars, tail);
    hide *;
  }

  lemma FunsNonNegativeNext(fs: seq<WrittenFun>, j: nat)
    requires j < |fs|
    ensures FunsNonNegative(fs, j) <==> FunNonNegative(fs[j]) && FunsNonNegative(fs, j + 1)
  {
  }

  lemma {:induction false} ReadFuns(fs: seq<WrittenFun>, j: nat, nvars: nat, rest: string)
    requires j <= |fs| && StartsPlain(rest) && forall i :: 0 <= i < |fs| ==> FunFits(fs[i], nvars)
    ensures ParseRatFuns(RatFunsText(fs, j) + rest, j, |fs|, nvars)
         == if FunsNonNegative(fs, j) then Parsed(RereadFuns(fs)[j..], rest) else Failed
    decreases |fs| - j
  {
    if j == |fs| {
      hide RereadFuns, FunFits;
      assert "" + rest == rest;
      return;
    }
    FunsNonNegativeNext(fs, j);
    hide *;
    var s := FunHead(fs, j, nvars, rest);
    ReadFuns(fs, j + 1, nvars, rest);
    Suffix(RereadFuns(fs), j);
    FunsStep(RatFunsText(fs, j) + rest, j, |fs|, nvars);
  }

  lemma ListSplit(fs: seq<WrittenFun>, nvars: nat)
    ensures ListText(fs, nvars)
         == "[" + (Digits(|fs|) + ("," + (Digits(nvars) + ("," + ("[" + (RatFunsText(fs, 0) + ("]" + ("]" + ""))))))))
  {
    hide Digits, RatFunsText;
    assert ",[" == "," + "[" && "]]" == "]" + "]";
  }

  /** Reading back what was written gives the same list of functions, exactly when no exponent that is
      written is negative; otherwise reading fails. */
  lemma RoundTrip(fs: seq<WrittenFun>, nvars: nat)
    requires ListFits(fs, nvars)
    ensures ParseList(ListText(fs, nvars))
         == if FunsNonNegative(fs, 0) then Parsed(FunctionList(nvars, RereadFuns(fs)), "") else Failed
  {
    assert |fs| < WORD && nvars < WORD && RereadFuns(fs)[0..] == RereadFuns(fs) && StartsPlain("]" + ("]" + ""));
    assert forall i :: 0 <= i < |fs| ==> FunFits(fs[i], nvars);
    hide *;
    ListSplit(fs, nvars);
    var g := "]" + "";
    var f := "]" + g;
    var e := RatFunsText(fs, 0) + f;
    var d := "[" + e;
    var c := Digits(nvars) + ("," + d);
    var a := Digits(|fs|) + ("," + c);
    SymbolReads(a);
    NumberReads(|fs|, c);
    SymbolReads(c);
    NumberReads(nvars, d);
    SymbolReads(d);
    SymbolReads(e);
    ReadFuns(fs, 0, nvars, f);
    SymbolReads(g);
    SymbolReads("");
    ListSteps("[" + a, a, "," + c, c, "," + d, d, e, f, g, |fs|, nvars, ParseRatFuns(e, 0, |fs|, nvars));
  }
}
