/** The tokenizer and the parser of lists of rational functions, as they move over the text and fill their
    buffers (JSONTokenizer and JSONParser, src/json.cc:105-172, 180-262, 546-694). */
module JsonReader {
  import opened JsonText

  lemma BlankSkipped(s: string, i: nat)
    requires i <= |s|
    ensures i < |s| && IsSpace(s[i]) ==> SkipSpaces(s[i..]) == SkipSpaces(s[i + 1..])
    ensures i == |s| || !IsSpace(s[i]) ==> SkipSpaces(s[i..]) == s[i..]
  {
  }

  lemma TokenAt(s: string, i: nat)
    requires i <= |s|
    ensures i == |s| || s[i] == '\0' ==> ScanToken(s[i..]) == (End, s[i..])
    ensures i < |s| && s[i] == '[' ==> ScanToken(s[i..]) == (Open, s[i + 1..])
    ensures i < |s| && s[i] == ']' ==> ScanToken(s[i..]) == (Close, s[i + 1..])
    ensures i < |s| && s[i] == ',' ==> ScanToken(s[i..]) == (Comma, s[i + 1..])
    ensures i < |s| && s[i] == '"' ==> ScanToken(s[i..]) == ScanString(s[i + 1..])
    ensures i < |s| && IsDigit(s[i]) ==>
      var n := DigitRun(s[i..]);
      ScanToken(s[i..]) == (Integer(Saturated(ValueOf(s[i..][..n]))), s[i + n..])
    ensures i < |s| && s[i] != '\0' && s[i] != '[' && s[i] != ']' && s[i] != ',' && s[i] != '"' && !IsDigit(s[i]) ==>
      ScanToken(s[i..]) == (Invalid, s[i..])
  {
  }

  lemma UnescapeStep(s: string, r: nat, w: nat, done: string)
    requires w <= r && r + 1 < |s|
    ensures s[r] != '\\' ==> done + Unescaped(s, r, w) == done + [s[r]] + Unescaped(s, r + 1, w + 1)
    ensures s[r] == '\\' ==>
      var c := if s[r + 1] == '/' then '/' else if s[r + 1] == '\\' then '\\' else s[w];
      done + Unescaped(s, r, w) == done + [c] + Unescaped(s, r + 2, w + 1)
  {
  }

  lemma UnescapeEnd(s: string, r: nat, w: nat)
    requires w <= r <= |s| <= r + 1
    ensures Unescaped(s, r, w) == s[r..]
  {
  }

  class JsonTokenizer {
    const data: string
    var cur: nat

    constructor (data: string)
      ensures this.data == data && cur == 0
    {
      this.data := data;
      cur := 0;
    }

    ghost predicate Valid()
      reads this
    {
      cur <= |data|
    }

    /** What is still to be read. */
    function Rest(): string
      reads this
      requires Valid()
    {
      data[cur..]
    }

    /** The end of the text reads as a null character. */
    function Peek(): char
      reads this
      requires Valid()
    {
      if cur < |data| then data[cur] else '\0'
    }

    method SkipBlanks()
      requires Valid()
      modifies this
      ensures Valid() && Rest() == SkipSpaces(old(Rest()))
    {
      hide SkipSpaces;
      while IsSpace(Peek())
        invariant Valid() && SkipSpaces(data[cur..]) == SkipSpaces(old(data[cur..]))
        decreases |data| - cur
      {
        BlankSkipped(data, cur);
        cur := cur + 1;
      }
      BlankSkipped(data, cur);
    }

    /** The text of a string, the opening quote being passed. */
    method ScanChars() returns (token: Token)
      requires Valid()
      modifies this
      ensures Valid() && (token, Rest()) == ScanString(old(Rest()))
    {
      var start := cur;
      while cur < |data| && data[cur] != '"'
        invariant start <= cur <= |data| && QuoteAt(data[start..]) == cur - start + QuoteAt(data[cur..])
      {
        assert data[cur..][1..] == data[cur + 1..];
        cur := cur + 1;
      }
      var n := cur - start;
      assert QuoteAt(data[cur..]) == 0;
      if cur == |data| {
        return Invalid;
      }
      assert data[start..][..n % WORD] == data[start..start + n % WORD];
      assert data[start..][n + 1..] == data[cur + 1..];
      token := Str(data[start..start + n % WORD]);
      cur := cur + 1;
    }

    method NextToken() returns (token: Token)
      requires Valid()
      modifies this
      ensures Valid() && (token, Rest()) == Scan(old(Rest()))
    {
      SkipBlanks();
      token := TokenHere();
    }

    /** The token at a place that is not blank. */
    method TokenHere() returns (token: Token)
      requires Valid()
      modifies this
      ensures Valid() && (token, Rest()) == ScanToken(old(Rest()))
    {
      hide ScanToken, ScanString, ValueOf, DigitRun, Saturated;
      TokenAt(data, cur);
      if cur == |data| || data[cur] == '\0' {
        return End;
      }
      var c := data[cur];
      if c == '[' || c == ']' || c == ',' {
        token := if c == '[' then Open else if c == ']' then Close else Comma;
        cur := cur + 1;
      } else if c == '"' {
        cur := cur + 1;
        token := ScanChars();
      } else if IsDigit(c) {
        var n := DigitRun(data[cur..]);
        token := Integer(Saturated(ValueOf(data[cur..][..n])));
        cur := cur + n;
      } else {
        token := Invalid;
      }
    }
  }

  /** Resolving escapes in a buffer: reading runs ahead of writing, and the rest is cut off. */
  method Unescape(s: array<char>) returns (size: nat)
    modifies s
    ensures size <= s.Length && s[..size] == Unescaped(old(s[..]), 0, 0)
  {
    hide Unescaped;
    var read, write: nat := 0, 0;
    ghost var text := s[..];
    while read + 1 < s.Length
      invariant write <= read <= s.Length && forall i :: write <= i < s.Length ==> s[i] == text[i]
      invariant s[..write] + Unescaped(text, read, write) == Unescaped(text, 0, 0)
    {
      ghost var before := s[..write];
      UnescapeStep(text, read, write, before);
      if s[read] == '\\' {
        var escaped := s[read + 1];
        if escaped == '/' {
          s[write] := '/';
        }
        if escaped == '\\' {
          s[write] := '\\';
        }
        read := read + 2;
      } else {
        s[write] := s[read];
        read := read + 1;
      }
      assert s[..write + 1] == before + [s[write]];
      write := write + 1;
    }
    UnescapeEnd(text, read, write);
    if read < s.Length {
      s[write] := s[read];
      write := write + 1;
    }
    size := write;
  }
}

/** The parser of lists of rational functions, which fills its buffers token by token
    (JSONParser, src/json.cc:172-262, 546-694). */
module JsonParsers {
  import opened JsonText
  import opened JsonReader

  /** A monomial of a buffer; the number of exponents is fixed when it is made. */
  datatype Monomial = Monomial(degree: int, exponents: seq<int>)

  /** The first n monomials with their coefficients. */
  function Collected(m: seq<Monomial>, c: seq<string>, n: nat): (r: seq<Term>)
    requires n <= |m| && n <= |c|
    ensures |r| == n && forall j :: 0 <= j < n ==> r[j] == Term(c[j], m[j].degree, m[j].exponents)
  {
    seq(n, j requires 0 <= j < n => Term(c[j], m[j].degree, m[j].exponents))
  }

  /** What the loop has read so far, followed by what it will read, is the whole list. */
  ghost predicate Continued<T>(whole: Parsed<seq<T>>, done: seq<T>, tail: Parsed<seq<T>>) {
    whole == if tail.Failed? then Failed else Parsed(done + tail.value, tail.rest)
  }

  lemma ContinuedNext<T>(whole: Parsed<seq<T>>, done: seq<T>, tail: Parsed<seq<T>>, v: T, next: Parsed<seq<T>>)
    requires Continued(whole, done, tail)
    requires tail == if next.Failed? then Failed else Parsed([v] + next.value, next.rest)
    ensures Continued(whole, done + [v], next)
  {
    if next.Parsed? {
      assert done + ([v] + next.value) == done + [v] + next.value;
    }
  }

  lemma ContinuedStart<T>(whole: Parsed<seq<T>>)
    ensures Continued(whole, [], whole)
  {
    if whole.Parsed? {
      assert [] + whole.value == whole.value;
    }
  }

  lemma ContinuedEnd<T>(whole: Parsed<seq<T>>, done: seq<T>, rest: string)
    requires Continued(whole, done, Parsed([], rest))
    ensures whole == Parsed(done, rest)
  {
    assert done + [] == done;
  }

  lemma ContinuedFailed<T>(whole: Parsed<seq<T>>, done: seq<T>)
    requires Continued(whole, done, Failed)
    ensures whole.Failed?
  {
  }

  lemma ExponentsEnd(s: string, n: nat)
    ensures ParseExponents(s, n, n) == Parsed([], s)
  {
  }

  lemma {:induction false} SumNext(s: seq<int>, v: int)
    ensures Sum(s + [v]) == Sum(s) + v
  {
    if s == [] {
      assert s + [v] == [v];
    } else {
      assert (s + [v])[1..] == s[1..] + [v];
      SumNext(s[1..], v);
    }
  }

  /** Cutting the sum to 32 bits at every step leaves its 16-bit form as it is. */
  lemma DegreeStep(total: nat, sum: int, v: nat)
    requires total == Word32(sum)
    ensures Word32(total + v) == Word32(sum + v)
  {
  }

  lemma DegreeStart()
    ensures Word32(Sum([])) == 0 && Stored([]) == []
  {
  }

  lemma StoredNext(done: seq<nat>, val: nat)
    ensures Stored(done + [val]) == Stored(done) + [Int16(val)]
  {
  }

  lemma MultipleDrops(n: int, m: int)
    ensures (n + 0x1_0000 * m) % 0x1_0000 == n % 0x1_0000
  {
  }

  lemma DegreeOf(sum: int)
    ensures Int16(Word32(sum)) == Int16(sum)
  {
    var q := sum / WORD;
    assert sum == WORD * q + Word32(sum);
    MultipleDrops(Word32(sum) + 0x8000, 0x1_0000 * q);
    hide Word32;
  }

  class JsonParser {
    const tokenizer: JsonTokenizer
    var currToken: Token
    var npars: nat
    var numMonomials: array<Monomial>
    var denMonomials: array<Monomial>

    constructor (text: string)
      ensures fresh(tokenizer) && tokenizer.Valid() && tokenizer.Rest() == text && Valid()
      ensures fresh(numMonomials) && fresh(denMonomials)
      ensures numMonomials.Length == denMonomials.Length == 0 && npars == 0 && currToken == End
    {
      tokenizer := new JsonTokenizer(text);
      currToken := End;
      npars := 0;
      numMonomials := new Monomial[0];
      denMonomials := new Monomial[0];
      new;
      assert text[0..] == text;
    }

    ghost predicate Valid()
      reads this, numMonomials, denMonomials
    {
      numMonomials != denMonomials && Allocated(numMonomials[..], npars) && Allocated(denMonomials[..], npars)
    }

    method Expect(token: Token) returns (ok: bool)
      requires tokenizer.Valid()
      modifies this`currToken, tokenizer
      ensures tokenizer.Valid()
      ensures var r := JsonText.Expect(old(tokenizer.Rest()), token);
        ok == r.Parsed? && (ok ==> tokenizer.Rest() == r.rest)
    {
      hide Scan;
      currToken := tokenizer.NextToken();
      ok := currToken == token;
    }

    method ExpectInteger() returns (ok: bool)
      requires tokenizer.Valid()
      modifies this`currToken, tokenizer
      ensures tokenizer.Valid()
      ensures var r := JsonText.ExpectInteger(old(tokenizer.Rest()));
        ok == r.Parsed? && (ok ==> tokenizer.Rest() == r.rest && currToken == Integer(r.value))
    {
      hide Scan;
      currToken := tokenizer.NextToken();
      ok := currToken.Integer?;
    }

    method ExpectString() returns (ok: bool)
      requires tokenizer.Valid()
      modifies this`currToken, tokenizer
      ensures tokenizer.Valid()
      ensures var r := JsonText.ExpectString(old(tokenizer.Rest()));
        ok == r.Parsed? && (ok ==> tokenizer.Rest() == r.rest && currToken == Str(r.value))
    {
      hide Scan;
      currToken := tokenizer.NextToken();
      ok := currToken.Str?;
    }

    method ExpectSeparator(j: nat) returns (ok: bool)
      requires tokenizer.Valid()
      modifies this`currToken, tokenizer
      ensures tokenizer.Valid()
      ensures var r := Separator(old(tokenizer.Rest()), j);
        ok == r.Parsed? && (ok ==> tokenizer.Rest() == r.rest)
    {
      hide Scan, JsonText.Expect;
      ok := true;
      if j > 0 {
        ok := Expect(Comma);
      }
    }

    /** The exponents of one monomial: stored in 16 bits, summed in 32. */
    method ParseExponents(monomials: array<Monomial>, j: nat) returns (ok: bool, totDeg: nat)
      requires tokenizer.Valid() && j < monomials.Length && |monomials[j].exponents| == npars
      modifies this`currToken, tokenizer, monomials
      ensures tokenizer.Valid() && |monomials[j].exponents| == npars
      ensures forall i :: 0 <= i < monomials.Length && i != j ==> monomials[i] == old(monomials[i])
      ensures var r := JsonText.ParseExponents(old(tokenizer.Rest()), 0, npars);
        ok == r.Parsed? && (ok ==> tokenizer.Rest() == r.rest && totDeg == Word32(Sum(r.value))
                                   && monomials[j].exponents == Stored(r.value))
    {
      DegreeStart();
      hide *;
      totDeg := 0;
      ghost var whole := JsonText.ParseExponents(tokenizer.Rest(), 0, npars);
      ghost var done: seq<nat> := [];
      ContinuedStart(whole);
      var ex: nat := 0;
      while ex < npars
        invariant ex <= npars && tokenizer.Valid() && |monomials[j].exponents| == npars && |done| == ex
        invariant forall i :: 0 <= i < monomials.Length && i != j ==> monomials[i] == old(monomials[i])
        invariant Continued(whole, done, JsonText.ParseExponents(tokenizer.Rest(), ex, npars))
        invariant totDeg == Word32(Sum(done))
        invariant monomials[j].exponents[..ex] == Stored(done)
      {
        ghost var tail := JsonText.ParseExponents(tokenizer.Rest(), ex, npars);
        ExponentsStep(tokenizer.Rest(), ex, npars);
        ok := ExpectSeparator(ex);
        if ok {
          ok := ExpectInteger();
        }
        if !ok {
          ContinuedFailed(whole, done);
          return false, 0;
        }
        var val := currToken.val;
        StoredNext(done, val);
        ContinuedNext(whole, done, tail, val, JsonText.ParseExponents(tokenizer.Rest(), ex + 1, npars));
        monomials[j] := monomials[j].(exponents := monomials[j].exponents[ex := Int16(val)]);
        SumNext(done, val);
        DegreeStep(totDeg, Sum(done), val);
        done := done + [val];
        totDeg := Word32(totDeg + val);
        ex := ex + 1;
      }
      ExponentsEnd(tokenizer.Rest(), npars);
      ContinuedEnd(whole, done, tokenizer.Rest());
      ok := true;
    }

    /** One monomial with its coefficient, into entry j of the buffers. */
    method ParseTerm(monomials: array<Monomial>, coeffs: array<string>, j: nat) returns (ok: bool)
      requires tokenizer.Valid() && j < monomials.Length && j < coeffs.Length && |monomials[j].exponents| == npars
      modifies this`currToken, tokenizer, monomials, coeffs
      ensures tokenizer.Valid() && |monomials[j].exponents| == npars
      ensures forall i :: 0 <= i < monomials.Length && i != j ==> monomials[i] == old(monomials[i])
      ensures forall i :: 0 <= i < coeffs.Length && i != j ==> coeffs[i] == old(coeffs[i])
      ensures var r := JsonText.ParseTerm(old(tokenizer.Rest()), npars);
        ok == r.Parsed? && (ok ==> tokenizer.Rest() == r.rest
                                   && Term(coeffs[j], monomials[j].degree, monomials[j].exponents) == r.value)
    {
      hide JsonText.Expect, JsonText.ExpectString, JsonText.ParseExponents, Unescaped, Stored, Int16, Word32, Sum;
      ok := Expect(Open);
      if !ok { return; }
      ok := ExpectString();
      if !ok { return; }
      var chars := currToken.chars;
      var strBuff := new char[|chars|](i requires 0 <= i < |chars| => chars[i]);
      assert strBuff[..] == chars;
      var size := Unescape(strBuff);
      coeffs[j] := strBuff[..size];
      ok := Expect(Comma);
      if !ok { return; }
      ok := Expect(Open);
      if !ok { return; }
      ghost var exponents := JsonText.ParseExponents(tokenizer.Rest(), 0, npars);
      var totDeg;
      ok, totDeg := ParseExponents(monomials, j);
      if !ok { return; }
      DegreeOf(Sum(exponents.value));
      monomials[j] := monomials[j].(degree := Int16(totDeg));
      ok := Expect(Close);
      if !ok { return; }
      ok := Expect(Close);
    }

    /** So many terms, into the first entries of the buffers. */
    method ParsePoly(monomials: array<Monomial>, coeffs: array<string>, nTerms: nat) returns (ok: bool)
      requires tokenizer.Valid() && nTerms <= monomials.Length && nTerms <= coeffs.Length && Allocated(monomials[..], npars)
      modifies this`currToken, tokenizer, monomials, coeffs
      ensures tokenizer.Valid() && Allocated(monomials[..], npars)
      ensures var r := JsonText.ParsePoly(old(tokenizer.Rest()), nTerms, npars);
        ok == r.Parsed? && (ok ==> tokenizer.Rest() == r.rest && Collected(monomials[..], coeffs[..], nTerms) == r.value)
    {
      hide JsonText.Expect, JsonText.ParseTerm, ParseTerms, Separator, Collected;
      ok := Expect(Open);
      if !ok { return; }
      ghost var whole := ParseTerms(tokenizer.Rest(), 0, nTerms, npars);
      ghost var done: seq<Term> := [];
      ContinuedStart(whole);
      var j: nat := 0;
      while j < nTerms
        invariant j <= nTerms && tokenizer.Valid() && Allocated(monomials[..], npars)
        invariant Continued(whole, done, ParseTerms(tokenizer.Rest(), j, nTerms, npars))
        invariant Collected(monomials[..], coeffs[..], j) == done
      {
        hide *;
        ghost var tail := ParseTerms(tokenizer.Rest(), j, nTerms, npars);
        TermsStep(tokenizer.Rest(), j, nTerms, npars);
        ok := ExpectSeparator(j);
        if ok {
          ghost var was := monomials[..];
          EntryAllocated(was, npars, j);
          ok := ParseTerm(monomials, coeffs, j);
          EntryReplaced(was, monomials[..], npars, j);
        }
        if !ok {
          ContinuedFailed(whole, done);
          return;
        }
        ghost var term := Term(coeffs[j], monomials[j].degree, monomials[j].exponents);
        CollectedNext(monomials[..], coeffs[..], done, j);
        ContinuedNext(whole, done, tail, term, ParseTerms(tokenizer.Rest(), j + 1, nTerms, npars));
        done := done + [term];
        j := j + 1;
      }
      TermsEnd(tokenizer.Rest(), nTerms, npars);
      ContinuedEnd(whole, done, tokenizer.Rest());
      ok := Expect(Close);
    }

    /** The buffer itself if it is long enough, else a longer one whose new entries are zero. */
    method ResizeMonomials(m: array<Monomial>, n: nat) returns (r: array<Monomial>)
      requires Allocated(m[..], npars)
      ensures r == m || fresh(r)
      ensures n <= r.Length && m.Length <= r.Length && Allocated(r[..], npars)
      ensures forall i :: 0 <= i < r.Length ==>
        r[i] == if i < m.Length then old(m[i]) else Monomial(0, seq(npars, _ => 0))
    {
      r := m;
      if m.Length < n {
        var kept, vars := m[..], npars;
        r := new Monomial[n](i requires 0 <= i < n =>
          if i < |kept| then kept[i] else Monomial(0, seq(vars, _ => 0)));
      }
    }

    /** The number of terms and the terms of a numerator or denominator. */
    method ParsePart(monomials: array<Monomial>)
      returns (ok: bool, grown: array<Monomial>, coeffs: array<string>, terms: nat)
      requires tokenizer.Valid() && Allocated(monomials[..], npars)
      modifies this`currToken, tokenizer, monomials
      ensures tokenizer.Valid() && (grown == monomials || fresh(grown)) && Allocated(grown[..], npars) && fresh(coeffs)
      ensures Allocated(monomials[..], npars) && terms <= grown.Length && terms <= coeffs.Length
      ensures var r := JsonText.ParsePart(old(tokenizer.Rest()), npars);
        ok == r.Parsed? && (ok ==> tokenizer.Rest() == r.rest && Collected(grown[..], coeffs[..], terms) == r.value)
    {
      hide JsonText.Expect, JsonText.ExpectInteger, JsonText.ParsePoly, Word32, Allocated, Collected;
      grown, coeffs, terms := monomials, new string[0], 0;
      ok := Expect(Open);
      if !ok { return; }
      ok := ExpectInteger();
      if !ok { return; }
      terms := Word32(currToken.val);
      coeffs := new string[terms](i => "");
      grown := ResizeMonomials(monomials, terms);
      ok := Expect(Comma);
      if !ok { return; }
      ok := ParsePoly(grown, coeffs, terms);
      if !ok { return; }
      ok := Expect(Close);
    }

    /** Numerator and denominator of a function, its opening bracket being passed. */
    method ParseParts() returns (ok: bool, f: RatFun)
      requires tokenizer.Valid() && Valid()
      modifies this, tokenizer, numMonomials, denMonomials
      ensures tokenizer.Valid() && Valid() && npars == old(npars) && Buffers(old(numMonomials), old(denMonomials))
      ensures var r := ParseBoth(old(tokenizer.Rest()), npars);
        ok == r.Parsed? && (ok ==> tokenizer.Rest() == r.rest && f == r.value)
    {
      hide JsonText.ParsePart, JsonText.Expect, Allocated, Collected;
      f := RatFun([], []);
      var num, numCoeffs, numTerms;
      ok, num, numCoeffs, numTerms := ParsePart(numMonomials);
      numMonomials := num;
      if !ok { return; }
      ok := Expect(Comma);
      if !ok { return; }
      var den, denCoeffs, denTerms;
      ok, den, denCoeffs, denTerms := ParsePart(denMonomials);
      denMonomials := den;
      if !ok { return; }
      ok := Expect(Close);
      f := RatFun(Collected(num[..], numCoeffs[..], numTerms), Collected(den[..], denCoeffs[..], denTerms));
    }

    /** One function, into a slot that holds the zero function; a zero leaves the slot as it is. */
    method ParseRatFun(f: array<RatFun>, j: nat) returns (ok: bool)
      requires tokenizer.Valid() && Valid() && j < f.Length && f[j] == RatFun([], [])
      modifies this, tokenizer, numMonomials, denMonomials, f
      ensures tokenizer.Valid() && Valid() && npars == old(npars) && Buffers(old(numMonomials), old(denMonomials))
      ensures forall i :: 0 <= i < f.Length && i != j ==> f[i] == old(f[i])
      ensures var r := JsonText.ParseRatFun(old(tokenizer.Rest()), npars);
        ok == r.Parsed? && (ok ==> tokenizer.Rest() == r.rest && f[j] == r.value)
    {
      hide JsonText.ParseRatFun, ParseBoth, Scan, Allocated;
      RatFunStep(tokenizer.Rest(), npars);
      currToken := tokenizer.NextToken();
      if currToken == Integer(0) {
        return true;
      }
      ok := currToken == Open;
      if ok {
        var both;
        ok, both := ParseParts();
        if ok {
          f[j] := both;
        }
      }
    }

    /** A list of functions, by a parser whose buffers are still empty. */
    method ParseRatFunList() returns (ok: bool, f: array<RatFun>)
      requires tokenizer.Valid() && Valid() && numMonomials.Length == denMonomials.Length == 0
      modifies this, tokenizer, numMonomials, denMonomials
      ensures tokenizer.Valid() && Valid() && fresh(f)
      ensures var r := ParseList(old(tokenizer.Rest()));
        ok == r.Parsed? && (ok ==> tokenizer.Rest() == r.rest && FunctionList(npars, f[..]) == r.value)
    {
      hide Scan, JsonText.Expect, JsonText.ExpectInteger, ParseRatFuns, Word32;
      f := new RatFun[0];
      ok := Expect(Open);
      if !ok { return; }
      ok := ExpectInteger();
      if !ok { return; }
      var nfunctions := Word32(currToken.val);
      ok := Expect(Comma);
      if !ok { return; }
      ok := ExpectInteger();
      if !ok { return; }
      npars := Word32(currToken.val);
      ok := Expect(Comma);
      if !ok { return; }
      f := new RatFun[nfunctions](i => RatFun([], []));
      ok := Expect(Open);
      if !ok { return; }
      ok := ParseSlots(f);
      if !ok { return; }
      ok := Expect(Close);
      if !ok { return; }
      ok := Expect(Close);
    }

    /** The entries of the list, slot by slot. */
    method ParseSlots(f: array<RatFun>) returns (ok: bool)
      requires tokenizer.Valid() && Valid() && forall i :: 0 <= i < f.Length ==> f[i] == RatFun([], [])
      modifies this, tokenizer, numMonomials, denMonomials, f
      ensures tokenizer.Valid() && Valid() && npars == old(npars) && Buffers(old(numMonomials), old(denMonomials))
      ensures var r := ParseRatFuns(old(tokenizer.Rest()), 0, f.Length, npars);
        ok == r.Parsed? && (ok ==> tokenizer.Rest() == r.rest && f[..] == r.value)
    {
      hide ParseRatFuns, JsonText.ParseRatFun, Separator, Continued, Allocated;
      ghost var whole := ParseRatFuns(tokenizer.Rest(), 0, f.Length, npars);
      ContinuedStart(whole);
      var j: nat := 0;
      while j < f.Length
        invariant j <= f.Length && tokenizer.Valid() && Valid()
        invariant npars == old(npars) && Buffers(old(numMonomials), old(denMonomials))
        invariant forall i :: j <= i < f.Length ==> f[i] == RatFun([], [])
        invariant Continued(whole, f[..j], ParseRatFuns(tokenizer.Rest(), j, f.Length, npars))
      {
        ghost var done := f[..j];
        ghost var tail := ParseRatFuns(tokenizer.Rest(), j, f.Length, npars);
        FunsStep(tokenizer.Rest(), j, f.Length, npars);
        ok := ExpectSeparator(j);
        if ok {
          ok := ParseRatFun(f, j);
        }
        if !ok {
          ContinuedFailed(whole, done);
          return;
        }
        assert f[..j + 1] == done + [f[j]];
        ContinuedNext(whole, done, tail, f[j], ParseRatFuns(tokenizer.Rest(), j + 1, f.Length, npars));
        j := j + 1;
      }
      FunsEnd(tokenizer.Rest(), f.Length, npars);
      assert f[..f.Length] == f[..];
      ContinuedEnd(whole, f[..], tokenizer.Rest());
      ok := true;
    }

    /** The buffers are the given ones or new. */
    twostate predicate Buffers(num: array<Monomial>, den: array<Monomial>)
      reads this
    {
      (numMonomials == num || fresh(numMonomials)) && (denMonomials == den || fresh(denMonomials))
    }
  }

  lemma EntryAllocated(m: seq<Monomial>, npars: nat, j: nat)
    requires Allocated(m, npars) && j < |m|
    ensures |m[j].exponents| == npars
  {
  }

  lemma EntryReplaced(was: seq<Monomial>, m: seq<Monomial>, npars: nat, j: nat)
    requires Allocated(was, npars) && j < |m| == |was| && |m[j].exponents| == npars
    requires forall i :: 0 <= i < |m| && i != j ==> m[i] == was[i]
    ensures Allocated(m, npars)
  {
  }

  /** The entries before j being those read so far, entry j is the next. */
  lemma CollectedNext(m: seq<Monomial>, c: seq<string>, done: seq<Term>, j: nat)
    requires j < |m| && j < |c| && |done| == j && forall i :: 0 <= i < j ==> done[i] == Term(c[i], m[i].degree, m[i].exponents)
    ensures Collected(m, c, j + 1) == done + [Term(c[j], m[j].degree, m[j].exponents)]
  {
  }

  lemma FunsEnd(s: string, n: nat, npars: nat)
    ensures ParseRatFuns(s, n, n, npars) == Parsed([], s)
  {
  }

  lemma RatFunStep(s: string, npars: nat)
    ensures
      var (t, rest) := Scan(s);
      JsonText.ParseRatFun(s, npars) == if t == Integer(0) then Parsed(RatFun([], []), rest)
                                        else if t != Open then Failed else ParseBoth(rest, npars)
  {
  }

  lemma TermsEnd(s: string, n: nat, npars: nat)
    ensures ParseTerms(s, n, n, npars) == Parsed([], s)
  {
  }

  predicate Allocated(m: seq<Monomial>, npars: nat) {
    forall i :: 0 <= i < |m| ==> |m[i].exponents| == npars
  }
}

/** The writers, which append to a stream (src/json.cc:787-851, 902-928). */
module JsonWriters {
  import opened JsonText

  class TextStream {
    var text: string

    constructor ()
      ensures text == ""
    {
      text := "";
    }

    method Put(s: string)
      modifies this
      ensures text == old(text) + s
    {
      text := text + s;
    }
  }

  lemma NothingLeft(s: string)
    ensures s + "" == s
  {
  }

  lemma Nothing(e: seq<int>, p: seq<WrittenTerm>, fs: seq<WrittenFun>)
    ensures ExponentsText(e, |e|) == "" && TermsText(p, |p|) == "" && RatFunsText(fs, |fs|) == ""
  {
  }

  lemma ExponentsNext(e: seq<int>, k: nat)
    requires k < |e|
    ensures ExponentsText(e, k) == CommaText(k) + IntText(e[k]) + ExponentsText(e, k + 1)
  {
  }

  lemma TermsNext(p: seq<WrittenTerm>, j: nat)
    requires j < |p|
    ensures TermsText(p, j) == CommaText(j) + TermText(p[j]) + TermsText(p, j + 1)
  {
  }

  lemma FunsNext(fs: seq<WrittenFun>, j: nat)
    requires j < |fs|
    ensures RatFunsText(fs, j) == CommaText(j) + RatFunText(fs[j]) + RatFunsText(fs, j + 1)
  {
  }

  /** An entry has been written behind its comma. */
  lemma EntryWritten(before: string, comma: string, entry: string, tail: string)
    ensures before + comma + entry + tail == before + (comma + entry + tail)
  {
  }

  /** The pieces of one term, written one after the other. */
  lemma TermWritten(before: string, c: string, e: string)
    ensures before + "[" + "\"" + c + "\"" + "," + "[" + e + "]" + "]" == before + ("[\"" + c + "\",[" + e + "]]")
  {
  }

  method WriteExponents(out: TextStream, exponents: seq<int>, nvars: nat)
    requires |exponents| == nvars
    modifies out
    ensures out.text == old(out.text) + ExponentsText(exponents, 0)
  {
    hide *;
    ghost var before := out.text;
    for k := 0 to nvars
      invariant out.text + ExponentsText(exponents, k) == before + ExponentsText(exponents, 0)
    {
      EntryWritten(out.text, CommaText(k), IntText(exponents[k]), ExponentsText(exponents, k + 1));
      ExponentsNext(exponents, k);
      WriteComma(out, k);
      out.Put(IntText(exponents[k]));
    }
    Nothing(exponents, [], []);
    NothingLeft(out.text);
  }

  method WriteComma(out: TextStream, k: nat)
    modifies out
    ensures out.text == old(out.text) + CommaText(k)
  {
    if k > 0 {
      out.Put(",");
    } else {
      NothingLeft(out.text);
    }
  }

  method WritePoly(out: TextStream, poly: seq<WrittenTerm>, nvars: nat)
    requires forall j :: 0 <= j < |poly| ==> |poly[j].exponents| == nvars
    modifies out
    ensures out.text == old(out.text) + PolyText(poly)
  {
    ghost var first := out.text;
    assert PolyText(poly) == "[" + TermsText(poly, 0) + "]";
    assert forall t: WrittenTerm ::
      TermText(t) == "[\"" + RationalText(t.coeff) + "\",[" + ExponentsText(t.exponents, 0) + "]]";
    hide *;
    out.Put("[");
    ghost var before := out.text;
    for j := 0 to |poly|
      invariant out.text + TermsText(poly, j) == before + TermsText(poly, 0)
    {
      EntryWritten(out.text, CommaText(j), TermText(poly[j]), TermsText(poly, j + 1));
      TermsNext(poly, j);
      WriteComma(out, j);
      TermWritten(out.text, RationalText(poly[j].coeff), ExponentsText(poly[j].exponents, 0));
      out.Put("[");
      out.Put("\"");
      out.Put(RationalText(poly[j].coeff));
      out.Put("\"");
      out.Put(",");
      out.Put("[");
      WriteExponents(out, poly[j].exponents, nvars);
      out.Put("]");
      out.Put("]");
    }
    Nothing([], poly, []);
    NothingLeft(out.text);
    Assoc(first, "[", TermsText(poly, 0));
    Assoc(first, "[" + TermsText(poly, 0), "]");
    out.Put("]");
  }

  lemma PartWritten(before: string, n: string, poly: string)
    ensures before + "[" + n + "," + poly + "]" == before + ("[" + n + "," + poly + "]")
  {
  }

  /** The number of terms and the terms. */
  method WritePart(out: TextStream, poly: seq<WrittenTerm>, nvars: nat)
    requires forall j :: 0 <= j < |poly| ==> |poly[j].exponents| == nvars
    modifies out
    ensures out.text == old(out.text) + PartText(poly)
  {
    assert PartText(poly) == "[" + Digits(|poly|) + "," + PolyText(poly) + "]";
    hide *;
    PartWritten(out.text, Digits(|poly|), PolyText(poly));
    out.Put("[");
    out.Put(Digits(|poly|));
    out.Put(",");
    WritePoly(out, poly, nvars);
    out.Put("]");
  }

  predicate HasVars(f: WrittenFun, nvars: nat) {
    && (forall j :: 0 <= j < |f.num| ==> |f.num[j].exponents| == nvars)
    && (forall j :: 0 <= j < |f.den| ==> |f.den[j].exponents| == nvars)
  }

  method WriteRatFun(out: TextStream, f: WrittenFun, nvars: nat)
    requires HasVars(f, nvars)
    modifies out
    ensures out.text == old(out.text) + RatFunText(f)
  {
    assert RatFunText(f) == if f.num == [] then "0" else "[" + PartText(f.num) + "," + PartText(f.den) + "]";
    hide RatFunText, PartText;
    if f.num == [] {
      out.Put("0");
      return;
    }
    PartWritten(out.text, PartText(f.num), PartText(f.den));
    out.Put("[");
    WritePart(out, f.num, nvars);
    out.Put(",");
    WritePart(out, f.den, nvars);
    out.Put("]");
  }

  lemma ListWritten(before: string, n: string, m: string, funs: string)
    ensures before + "[" + n + "," + m + "," + "[" + funs + "]" + "]"
         == before + ("[" + n + "," + m + ",[" + funs + "]]")
  {
  }

  /** The whole file. */
  method WriteRatFunList(fs: seq<WrittenFun>, nvars: nat) returns (out: TextStream)
    requires forall j :: 0 <= j < |fs| ==> HasVars(fs[j], nvars)
    ensures fresh(out) && out.text == ListText(fs, nvars)
  {
    assert ListText(fs, nvars) == "[" + Digits(|fs|) + "," + Digits(nvars) + ",[" + RatFunsText(fs, 0) + "]]";
    hide *;
    out := new TextStream();
    ListWritten(out.text, Digits(|fs|), Digits(nvars), RatFunsText(fs, 0));
    out.Put("[");
    out.Put(Digits(|fs|));
    out.Put(",");
    out.Put(Digits(nvars));
    out.Put(",");
    out.Put("[");
    ghost var before := out.text;
    for j := 0 to |fs|
      invariant out.text + RatFunsText(fs, j) == before + RatFunsText(fs, 0)
    {
      EntryWritten(out.text, CommaText(j), RatFunText(fs[j]), RatFunsText(fs, j + 1));
      FunsNext(fs, j);
      WriteComma(out, j);
      WriteRatFun(out, fs[j], nvars);
    }
    Nothing([], [], fs);
    NothingLeft(out.text);
    out.Put("]");
    out.Put("]");
    assert "" + ListText(fs, nvars) == ListText(fs, nvars);
  }
}
