/** Which texts the list parser accepts (parse_ratfun_list, parse_ratfun and parse_poly, src/json.cc:546-694,
    787-851): exactly those whose tokens spell a list, and the list read is the one they spell. */
module JsonGrammar {
  import opened JsonText

  // ---- token sequences ----

  /** The text begins with these tokens, blanks before each not counting, and rest follows. */
  ghost predicate Reads(s: string, tokens: seq<Token>, rest: string)
    decreases |tokens|
  {
    if tokens == [] then s == rest else Scan(s).0 == tokens[0] && Reads(Scan(s).1, tokens[1..], rest)
  }

  lemma ReadsOne(s: string, t: Token, tokens: seq<Token>, rest: string)
    ensures Reads(s, [t] + tokens, rest) <==> Scan(s).0 == t && Reads(Scan(s).1, tokens, rest)
  {
    assert ([t] + tokens)[1..] == tokens;
  }

  lemma {:induction false} ReadsConcat(s: string, a: seq<Token>, mid: string, b: seq<Token>, rest: string)
    requires Reads(s, a, mid) && Reads(mid, b, rest)
    ensures Reads(s, a + b, rest)
    decreases |a|
  {
    hide Scan;
    if a == [] {
      assert a + b == b;
    } else {
      ReadsConcat(Scan(s).1, a[1..], mid, b, rest);
      assert (a + b)[1..] == a[1..] + b;
    }
  }

  lemma {:induction false} ReadsSplit(s: string, a: seq<Token>, b: seq<Token>, rest: string) returns (mid: string)
    requires Reads(s, a + b, rest)
    ensures Reads(s, a, mid) && Reads(mid, b, rest)
    decreases |a|
  {
    hide Scan;
    if a == [] {
      assert a + b == b;
      mid := s;
    } else {
      assert (a + b)[1..] == a[1..] + b;
      mid := ReadsSplit(Scan(s).1, a[1..], b, rest);
    }
  }

  // ---- what is spelled ----

  /** A term as spelled: the characters between the quotes and the numbers. */
  datatype SpelledTerm = SpelledTerm(coeff: string, exponents: seq<nat>)

  datatype SpelledPart = SpelledPart(count: nat, terms: seq<SpelledTerm>)

  datatype SpelledFun = Vanishing | Quotient(num: SpelledPart, den: SpelledPart)

  datatype SpelledList = SpelledList(count: nat, nvars: nat, funs: seq<SpelledFun>)

  /** The entries with a comma between any two of them; one comes first unless first is set. */
  function CommaTokens(first: bool): seq<Token> {
    if first then [] else [Comma]
  }

  function NumberTokens(es: seq<nat>, first: bool): seq<Token> {
    if es == [] then [] else CommaTokens(first) + [Integer(es[0])] + NumberTokens(es[1..], false)
  }

  /** Terms and parts of a function open alike and close with two brackets. */
  function Enclosed(x: Token, body: seq<Token>): seq<Token> {
    [Open, x, Comma, Open] + body + [Close, Close]
  }

  function TermTokens(t: SpelledTerm): seq<Token> {
    Enclosed(Str(t.coeff), NumberTokens(t.exponents, true))
  }

  function TermsTokens(ts: seq<SpelledTerm>, first: bool): seq<Token> {
    if ts == [] then [] else CommaTokens(first) + TermTokens(ts[0]) + TermsTokens(ts[1..], false)
  }

  function PartTokens(f: SpelledPart): seq<Token> {
    Enclosed(Integer(f.count), TermsTokens(f.terms, true))
  }

  function FunTokens(f: SpelledFun): seq<Token> {
    match f
    case Vanishing => [Integer(0)]
    case Quotient(num, den) => [Open] + PartTokens(num) + [Comma] + PartTokens(den) + [Close]
  }

  function FunsTokens(fs: seq<SpelledFun>, first: bool): seq<Token> {
    if fs == [] then [] else CommaTokens(first) + FunTokens(fs[0]) + FunsTokens(fs[1..], false)
  }

  function ListTokens(l: SpelledList): seq<Token> {
    [Open, Integer(l.count), Comma, Integer(l.nvars), Comma, Open] + FunsTokens(l.funs, true) + [Close, Close]
  }

  // ---- the counts fit, modulo 2^32, and what the spelled list stands for ----

  predicate TermsFit(ts: seq<SpelledTerm>, npars: nat) {
    forall i :: 0 <= i < |ts| ==> |ts[i].exponents| == npars
  }

  predicate PartFits(f: SpelledPart, npars: nat) {
    |f.terms| == f.count % 0x1_0000_0000 && TermsFit(f.terms, npars)
  }

  predicate FunFits(f: SpelledFun, npars: nat) {
    f.Quotient? ==> PartFits(f.num, npars) && PartFits(f.den, npars)
  }

  predicate FunsFit(fs: seq<SpelledFun>, npars: nat) {
    forall i :: 0 <= i < |fs| ==> FunFits(fs[i], npars)
  }

  predicate ListFits(l: SpelledList) {
    |l.funs| == l.count % 0x1_0000_0000 && FunsFit(l.funs, l.nvars % 0x1_0000_0000)
  }

  function TermMeant(t: SpelledTerm): Term {
    Term(Unescaped(t.coeff, 0, 0), Int16(Sum(t.exponents)), Stored(t.exponents))
  }

  function TermsMeant(ts: seq<SpelledTerm>): seq<Term> {
    seq(|ts|, i requires 0 <= i < |ts| => TermMeant(ts[i]))
  }

  function FunMeant(f: SpelledFun): RatFun {
    match f
    case Vanishing => RatFun([], [])
    case Quotient(num, den) => RatFun(TermsMeant(num.terms), TermsMeant(den.terms))
  }

  function FunsMeant(fs: seq<SpelledFun>): seq<RatFun> {
    seq(|fs|, i requires 0 <= i < |fs| => FunMeant(fs[i]))
  }

  function ListMeant(l: SpelledList): FunctionList {
    FunctionList(l.nvars % 0x1_0000_0000, FunsMeant(l.funs))
  }

  // ---- a list of numbers ----

  /** With a separator before it, an entry is read exactly if the comma is there where one is due. */
  lemma SeparatorReads(s: string, j: nat, tokens: seq<Token>, rest: string)
    ensures Reads(s, CommaTokens(j == 0) + tokens, rest) <==>
      Separator(s, j).Parsed? && Reads(Separator(s, j).rest, tokens, rest)
  {
    if j == 0 {
      assert CommaTokens(true) + tokens == tokens;
    } else {
      ReadsOne(s, Comma, tokens, rest);
    }
  }

  lemma {:induction false} ExponentsIff(s: string, k: nat, npars: nat, es: seq<nat>, rest: string)
    requires k <= npars
    ensures ParseExponents(s, k, npars) == Parsed(es, rest) <==>
      |es| == npars - k && Reads(s, NumberTokens(es, k == 0), rest)
    decreases npars - k
  {
    hide Scan;
    if k < npars {
      var a := Separator(s, k);
      if a.Parsed? {
        var b := ExpectInteger(a.rest);
        if b.Parsed? && es != [] {
          ExponentsIff(b.rest, k + 1, npars, es[1..], rest);
          assert es == [es[0]] + es[1..];
        }
      }
      if es != [] {
        var tail := NumberTokens(es[1..], false);
        assert NumberTokens(es, k == 0) == CommaTokens(k == 0) + ([Integer(es[0])] + tail);
        SeparatorReads(s, k, [Integer(es[0])] + tail, rest);
        if a.Parsed? {
          ReadsOne(a.rest, Integer(es[0]), tail, rest);
        }
      }
      ExponentsSplit(s, k, npars, es, rest);
    }
  }

  /** A list that is read has a first entry. */
  lemma ExponentsSplit(s: string, k: nat, npars: nat, es: seq<nat>, rest: string)
    requires k < npars
    ensures ParseExponents(s, k, npars) == Parsed(es, rest) <==>
      var a := Separator(s, k);
      && es != [] && a.Parsed? && ExpectInteger(a.rest) == Parsed(es[0], ExpectRest(a.rest))
      && ParseExponents(ExpectRest(a.rest), k + 1, npars) == Parsed(es[1..], rest)
  {
    hide Scan, Separator;
    var a := Separator(s, k);
    if a.Parsed? && ExpectInteger(a.rest).Parsed? {
      var b := ExpectInteger(a.rest);
      var c := ParseExponents(b.rest, k + 1, npars);
      if c.Parsed? {
        assert ([b.value] + c.value)[1..] == c.value;
        if es != [] {
          assert es == [es[0]] + es[1..];
        }
      }
    }
  }

  function ExpectRest(s: string): string {
    Scan(s).1
  }

  // ---- a term ----

  /** The text behind the next n tokens. */
  function After(s: string, n: nat): string
    decreases n
  {
    if n == 0 then s else After(Scan(s).1, n - 1)
  }

  lemma AfterNext(s: string)
    ensures After(s, 0) == s && After(s, 1) == Scan(s).1 && After(s, 2) == Scan(After(s, 1)).1
    ensures After(s, 3) == Scan(After(s, 2)).1 && After(s, 4) == Scan(After(s, 3)).1
  {
    hide Scan;
    var s1 := Scan(s).1;
    assert After(s, 2) == After(s1, 1) && After(s, 3) == After(s1, 2) && After(s, 4) == After(s1, 3);
    var s2 := Scan(s1).1;
    assert After(s1, 2) == After(s2, 1) && After(s1, 3) == After(s2, 2);
    assert After(s2, 2) == After(Scan(s2).1, 1);
  }

  lemma EnclosedReads(s: string, x: Token, body: seq<Token>, rest: string)
    ensures Reads(s, Enclosed(x, body), rest) <==>
      && Scan(s).0 == Open && Scan(After(s, 1)).0 == x && Scan(After(s, 2)).0 == Comma && Scan(After(s, 3)).0 == Open
      && Reads(After(s, 4), body + [Close, Close], rest)
  {
    hide Scan, After;
    AfterNext(s);
    var tail := body + [Close, Close];
    assert Enclosed(x, body) == [Open] + ([x] + ([Comma] + ([Open] + tail)));
    ReadsOne(s, Open, [x] + ([Comma] + ([Open] + tail)), rest);
    ReadsOne(After(s, 1), x, [Comma] + ([Open] + tail), rest);
    ReadsOne(After(s, 2), Comma, [Open] + tail, rest);
    ReadsOne(After(s, 3), Open, tail, rest);
  }

  lemma ClosingReads(s: string, rest: string)
    ensures Reads(s, [Close, Close], rest) <==> Scan(s).0 == Close && Scan(Scan(s).1).0 == Close && Scan(Scan(s).1).1 == rest
  {
    hide Scan;
    assert [Close, Close] == [Close] + ([Close] + []);
    ReadsOne(s, Close, [Close] + [], rest);
    ReadsOne(Scan(s).1, Close, [], rest);
  }

  /** A term that is read is spelled by its tokens. */
  lemma TermSpelled(s: string, npars: nat) returns (t: SpelledTerm)
    requires ParseTerm(s, npars).Parsed?
    ensures |t.exponents| == npars && ParseTerm(s, npars).value == TermMeant(t)
    ensures Reads(s, TermTokens(t), ParseTerm(s, npars).rest)
  {
    hide Scan, ParseExponents, Reads, NumberTokens, After, Enclosed;
    AfterNext(s);
    var c := Scan(After(s, 1)).0;
    var e := ParseExponents(After(s, 4), 0, npars);
    t := SpelledTerm(c.chars, e.value);
    var rest := ParseTerm(s, npars).rest;
    ExponentsIff(After(s, 4), 0, npars, e.value, e.rest);
    ClosingReads(e.rest, rest);
    ReadsConcat(After(s, 4), NumberTokens(e.value, true), e.rest, [Close, Close], rest);
    EnclosedReads(s, c, NumberTokens(e.value, true), rest);
  }

  /** A spelled term is read. */
  lemma TermRead(s: string, t: SpelledTerm, rest: string, npars: nat)
    requires |t.exponents| == npars && Reads(s, TermTokens(t), rest)
    ensures ParseTerm(s, npars) == Parsed(TermMeant(t), rest)
  {
    hide Scan, ParseExponents, Reads, NumberTokens, After, Enclosed;
    AfterNext(s);
    EnclosedReads(s, Str(t.coeff), NumberTokens(t.exponents, true), rest);
    var mid := ReadsSplit(After(s, 4), NumberTokens(t.exponents, true), [Close, Close], rest);
    ExponentsIff(After(s, 4), 0, npars, t.exponents, mid);
    ClosingReads(mid, rest);
  }

  // ---- lists of terms and of functions ----

  lemma JoinReads(s: string, j: nat, item: seq<Token>, mid: string, tail: seq<Token>, rest: string)
    requires Separator(s, j).Parsed? && Reads(Separator(s, j).rest, item, mid) && Reads(mid, tail, rest)
    ensures Reads(s, CommaTokens(j == 0) + item + tail, rest)
  {
    hide Separator, Reads, CommaTokens;
    ReadsConcat(Separator(s, j).rest, item, mid, tail, rest);
    SeparatorReads(s, j, item + tail, rest);
    assert CommaTokens(j == 0) + item + tail == CommaTokens(j == 0) + (item + tail);
  }

  lemma PartReads(s: string, j: nat, item: seq<Token>, tail: seq<Token>, rest: string) returns (mid: string)
    requires Reads(s, CommaTokens(j == 0) + item + tail, rest)
    ensures Separator(s, j).Parsed? && Reads(Separator(s, j).rest, item, mid) && Reads(mid, tail, rest)
  {
    hide Separator, Reads, CommaTokens;
    assert CommaTokens(j == 0) + item + tail == CommaTokens(j == 0) + (item + tail);
    SeparatorReads(s, j, item + tail, rest);
    mid := ReadsSplit(Separator(s, j).rest, item, tail, rest);
  }

  lemma {:induction false} TermsSpelled(s: string, j: nat, n: nat, npars: nat) returns (ts: seq<SpelledTerm>)
    requires j <= n && ParseTerms(s, j, n, npars).Parsed?
    ensures |ts| == n - j && TermsFit(ts, npars) && ParseTerms(s, j, n, npars).value == TermsMeant(ts)
    ensures Reads(s, TermsTokens(ts, j == 0), ParseTerms(s, j, n, npars).rest)
    decreases n - j
  {
    hide Scan, Separator, ParseTerm, TermTokens, TermMeant, CommaTokens;
    if j == n {
      ts := [];
      assert TermsMeant(ts) == [];
    } else {
      var a := Separator(s, j);
      var b := ParseTerm(a.rest, npars);
      var t := TermSpelled(a.rest, npars);
      var more := TermsSpelled(b.rest, j + 1, n, npars);
      ts := [t] + more;
      assert ts[1..] == more;
      var c := ParseTerms(b.rest, j + 1, n, npars);
      JoinReads(s, j, TermTokens(t), b.rest, TermsTokens(more, false), c.rest);
      assert TermsMeant(ts) == [TermMeant(t)] + TermsMeant(more);
    }
  }

  lemma {:induction false} TermsRead(s: string, j: nat, n: nat, ts: seq<SpelledTerm>, rest: string, npars: nat)
    requires j <= n && |ts| == n - j && TermsFit(ts, npars) && Reads(s, TermsTokens(ts, j == 0), rest)
    ensures ParseTerms(s, j, n, npars) == Parsed(TermsMeant(ts), rest)
    decreases n - j
  {
    hide Scan, Separator, ParseTerm, TermTokens, TermMeant, CommaTokens;
    if j < n {
      var mid := PartReads(s, j, TermTokens(ts[0]), TermsTokens(ts[1..], false), rest);
      TermRead(Separator(s, j).rest, ts[0], mid, npars);
      TermsRead(mid, j + 1, n, ts[1..], rest, npars);
      assert TermsMeant(ts) == [TermMeant(ts[0])] + TermsMeant(ts[1..]);
    } else {
      assert TermsMeant(ts) == [];
    }
  }

  // ---- a function ----

  lemma PartSpelled(s: string, npars: nat) returns (f: SpelledPart)
    requires ParsePart(s, npars).Parsed?
    ensures PartFits(f, npars) && ParsePart(s, npars).value == TermsMeant(f.terms)
    ensures Reads(s, PartTokens(f), ParsePart(s, npars).rest)
  {
    hide Scan, ParseTerms, Reads, TermsTokens, After, Enclosed, TermsMeant, TermsFit;
    AfterNext(s);
    var c := Scan(After(s, 1)).0;
    var n := Word32(c.val);
    var e := ParseTerms(After(s, 4), 0, n, npars);
    var ts := TermsSpelled(After(s, 4), 0, n, npars);
    f := SpelledPart(c.val, ts);
    var rest := ParsePart(s, npars).rest;
    ClosingReads(e.rest, rest);
    ReadsConcat(After(s, 4), TermsTokens(ts, true), e.rest, [Close, Close], rest);
    EnclosedReads(s, c, TermsTokens(ts, true), rest);
  }

  lemma PartRead(s: string, f: SpelledPart, rest: string, npars: nat)
    requires PartFits(f, npars) && Reads(s, PartTokens(f), rest)
    ensures ParsePart(s, npars) == Parsed(TermsMeant(f.terms), rest)
  {
    hide Scan, ParseTerms, Reads, TermsTokens, After, Enclosed, TermsMeant, TermsFit;
    AfterNext(s);
    EnclosedReads(s, Integer(f.count), TermsTokens(f.terms, true), rest);
    var mid := ReadsSplit(After(s, 4), TermsTokens(f.terms, true), [Close, Close], rest);
    TermsRead(After(s, 4), 0, Word32(f.count), f.terms, mid, npars);
    ClosingReads(mid, rest);
  }

  /** The tokens of a quotient, cut where its parts end. */
  lemma QuotientReads(s: string, a: seq<Token>, b: seq<Token>, rest: string) returns (s1: string, s2: string)
    requires Reads(s, [Open] + a + [Comma] + b + [Close], rest)
    ensures Scan(s).0 == Open && Reads(Scan(s).1, a, s1) && Scan(s1).0 == Comma && Reads(Scan(s1).1, b, s2)
    ensures Scan(s2) == (Close, rest)
  {
    hide Scan, Reads;
    assert [Open] + a + [Comma] + b + [Close] == [Open] + (a + ([Comma] + (b + [Close])));
    ReadsOne(s, Open, a + ([Comma] + (b + [Close])), rest);
    s1 := ReadsSplit(Scan(s).1, a, [Comma] + (b + [Close]), rest);
    ReadsOne(s1, Comma, b + [Close], rest);
    s2 := ReadsSplit(Scan(s1).1, b, [Close], rest);
    LastReads(s2, Close, rest);
  }

  lemma QuotientJoins(s: string, a: seq<Token>, s1: string, b: seq<Token>, s2: string, rest: string)
    requires Scan(s).0 == Open && Reads(Scan(s).1, a, s1) && Scan(s1).0 == Comma && Reads(Scan(s1).1, b, s2)
    requires Scan(s2) == (Close, rest)
    ensures Reads(s, [Open] + a + [Comma] + b + [Close], rest)
  {
    hide Scan, Reads;
    assert [Open] + a + [Comma] + b + [Close] == [Open] + (a + ([Comma] + (b + [Close])));
    LastReads(s2, Close, rest);
    ReadsConcat(Scan(s1).1, b, s2, [Close], rest);
    ReadsOne(s1, Comma, b + [Close], rest);
    ReadsConcat(Scan(s).1, a, s1, [Comma] + (b + [Close]), rest);
    ReadsOne(s, Open, a + ([Comma] + (b + [Close])), rest);
  }

  lemma LastReads(s: string, t: Token, rest: string)
    ensures Reads(s, [t], rest) <==> Scan(s) == (t, rest)
  {
    assert [t] == [t] + [];
    ReadsOne(s, t, [], rest);
  }

  lemma FunSpelled(s: string, npars: nat) returns (f: SpelledFun)
    requires ParseRatFun(s, npars).Parsed?
    ensures FunFits(f, npars) && ParseRatFun(s, npars).value == FunMeant(f)
    ensures Reads(s, FunTokens(f), ParseRatFun(s, npars).rest)
  {
    hide Scan, ParsePart, Reads, PartTokens, PartFits, TermsMeant;
    var (t, rest) := Scan(s);
    if t == Integer(0) {
      f := Vanishing;
      LastReads(s, t, rest);
    } else {
      var num := PartSpelled(rest, npars);
      var s1 := ParsePart(rest, npars).rest;
      var den := PartSpelled(Scan(s1).1, npars);
      var s2 := ParsePart(Scan(s1).1, npars).rest;
      f := Quotient(num, den);
      QuotientJoins(s, PartTokens(num), s1, PartTokens(den), s2, Scan(s2).1);
    }
  }

  lemma FunRead(s: string, f: SpelledFun, rest: string, npars: nat)
    requires FunFits(f, npars) && Reads(s, FunTokens(f), rest)
    ensures ParseRatFun(s, npars) == Parsed(FunMeant(f), rest)
  {
    hide Scan, ParsePart, Reads, PartTokens, PartFits, TermsMeant;
    match f
    case Vanishing =>
      LastReads(s, Integer(0), rest);
    case Quotient(num, den) =>
      var s1, s2 := QuotientReads(s, PartTokens(num), PartTokens(den), rest);
      PartRead(Scan(s).1, num, s1, npars);
      PartRead(Scan(s1).1, den, s2, npars);
  }

  // ---- the whole list ----

  lemma {:induction false} FunsSpelled(s: string, j: nat, n: nat, npars: nat) returns (fs: seq<SpelledFun>)
    requires j <= n && ParseRatFuns(s, j, n, npars).Parsed?
    ensures |fs| == n - j && FunsFit(fs, npars) && ParseRatFuns(s, j, n, npars).value == FunsMeant(fs)
    ensures Reads(s, FunsTokens(fs, j == 0), ParseRatFuns(s, j, n, npars).rest)
    decreases n - j
  {
    hide Scan, Separator, ParseRatFun, FunTokens, FunMeant, CommaTokens, FunFits;
    if j == n {
      fs := [];
      assert FunsMeant(fs) == [];
    } else {
      var a := Separator(s, j);
      var b := ParseRatFun(a.rest, npars);
      var f := FunSpelled(a.rest, npars);
      var more := FunsSpelled(b.rest, j + 1, n, npars);
      fs := [f] + more;
      assert fs[1..] == more;
      var c := ParseRatFuns(b.rest, j + 1, n, npars);
      JoinReads(s, j, FunTokens(f), b.rest, FunsTokens(more, false), c.rest);
      assert FunsMeant(fs) == [FunMeant(f)] + FunsMeant(more);
    }
  }

  lemma {:induction false} FunsRead(s: string, j: nat, n: nat, fs: seq<SpelledFun>, rest: string, npars: nat)
    requires j <= n && |fs| == n - j && FunsFit(fs, npars) && Reads(s, FunsTokens(fs, j == 0), rest)
    ensures ParseRatFuns(s, j, n, npars) == Parsed(FunsMeant(fs), rest)
    decreases n - j
  {
    hide Scan, Separator, ParseRatFun, FunTokens, FunMeant, CommaTokens, FunFits;
    if j < n {
      var mid := PartReads(s, j, FunTokens(fs[0]), FunsTokens(fs[1..], false), rest);
      FunRead(Separator(s, j).rest, fs[0], mid, npars);
      FunsRead(mid, j + 1, n, fs[1..], rest, npars);
      assert FunsMeant(fs) == [FunMeant(fs[0])] + FunsMeant(fs[1..]);
    } else {
      assert FunsMeant(fs) == [];
    }
  }

  /** The list opens with its two numbers. */
  lemma OpeningReads(s: string, x: Token, y: Token, body: seq<Token>, rest: string)
    ensures Reads(s, [Open, x, Comma, y, Comma, Open] + body + [Close, Close], rest) <==>
      && Scan(s).0 == Open && Scan(After(s, 1)).0 == x && Scan(After(s, 2)).0 == Comma
      && Reads(After(s, 3), [y, Comma, Open] + (body + [Close, Close]), rest)
  {
    hide Scan, After, Reads;
    AfterNext(s);
    var tail := [y, Comma, Open] + (body + [Close, Close]);
    assert [Open, x, Comma, y, Comma, Open] + body + [Close, Close] == [Open] + ([x] + ([Comma] + tail));
    ReadsOne(s, Open, [x] + ([Comma] + tail), rest);
    ReadsOne(After(s, 1), x, [Comma] + tail, rest);
    ReadsOne(After(s, 2), Comma, tail, rest);
  }

  lemma SecondReads(s: string, y: Token, tail: seq<Token>, rest: string)
    ensures Reads(s, [y, Comma, Open] + tail, rest) <==>
      && Scan(s).0 == y && Scan(After(s, 1)).0 == Comma && Scan(After(s, 2)).0 == Open && Reads(After(s, 3), tail, rest)
  {
    hide Scan, After, Reads;
    AfterNext(s);
    assert [y, Comma, Open] + tail == [y] + ([Comma] + ([Open] + tail));
    ReadsOne(s, y, [Comma] + ([Open] + tail), rest);
    ReadsOne(After(s, 1), Comma, [Open] + tail, rest);
    ReadsOne(After(s, 2), Open, tail, rest);
  }

  /** Some list whose counts fit is spelled by the tokens up to rest and stands for l. */
  ghost predicate Spells(s: string, l: FunctionList, rest: string) {
    exists x: SpelledList :: ListFits(x) && Reads(s, ListTokens(x), rest) && l == ListMeant(x)
  }

  lemma ListSpelled(s: string)
    requires ParseList(s).Parsed?
    ensures Spells(s, ParseList(s).value, ParseList(s).rest)
  {
    hide Scan, ParseRatFuns, Reads, FunsTokens, After, FunsMeant, FunsFit;
    AfterNext(s);
    var s3 := After(s, 3);
    AfterNext(s3);
    var x, y := Scan(After(s, 1)).0, Scan(s3).0;
    var n, npars := Word32(x.val), Word32(y.val);
    var g := ParseRatFuns(After(s3, 3), 0, n, npars);
    var fs := FunsSpelled(After(s3, 3), 0, n, npars);
    var rest := ParseList(s).rest;
    var l := SpelledList(x.val, y.val, fs);
    ClosingReads(g.rest, rest);
    ReadsConcat(After(s3, 3), FunsTokens(fs, true), g.rest, [Close, Close], rest);
    SecondReads(s3, y, FunsTokens(fs, true) + [Close, Close], rest);
    OpeningReads(s, x, y, FunsTokens(fs, true), rest);
    assert ListFits(l) && Reads(s, ListTokens(l), rest) && ParseList(s).value == ListMeant(l);
  }

  lemma ListRead(s: string, l: SpelledList, rest: string)
    requires ListFits(l) && Reads(s, ListTokens(l), rest)
    ensures ParseList(s) == Parsed(ListMeant(l), rest)
  {
    hide Scan, ParseRatFuns, Reads, FunsTokens, After, FunsMeant, FunsFit;
    AfterNext(s);
    var s3 := After(s, 3);
    AfterNext(s3);
    OpeningReads(s, Integer(l.count), Integer(l.nvars), FunsTokens(l.funs, true), rest);
    SecondReads(s3, Integer(l.nvars), FunsTokens(l.funs, true) + [Close, Close], rest);
    var mid := ReadsSplit(After(s3, 3), FunsTokens(l.funs, true), [Close, Close], rest);
    FunsRead(After(s3, 3), 0, Word32(l.count), l.funs, mid, Word32(l.nvars));
    ClosingReads(mid, rest);
  }

  /** The parser accepts exactly the texts that spell a list, and reads what they spell. */
  lemma ParsesIffSpelled(s: string, l: FunctionList, rest: string)
    ensures ParseList(s) == Parsed(l, rest) <==> Spells(s, l, rest)
  {
    hide ParseList, Reads, ListTokens, ListFits, ListMeant;
    if ParseList(s).Parsed? {
      ListSpelled(s);
    }
    if Spells(s, l, rest) {
      var x: SpelledList :| ListFits(x) && Reads(s, ListTokens(x), rest) && l == ListMeant(x);
      ListRead(s, x, rest);
    }
  }
}
