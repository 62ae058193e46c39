/** 32-bit integers as C# sees them: the wrap-around of unchecked `int`
    arithmetic, and the text conversion `int.Parse(string)` with its
    default style (leading and trailing white space, an optional leading
    sign, decimal digits) and the invariant signs `+` and `-`. */
module Int32Text {
  import opened Wrappers

  const MinInt32: int := -0x8000_0000
  const MaxInt32: int := 0x7FFF_FFFF

  predicate InInt32(x: int) {
    MinInt32 <= x <= MaxInt32
  }

  /** The values of a C# `int`. */
  type Int32 = x: int | MinInt32 <= x <= MaxInt32

  /** Unchecked `int` arithmetic: the mathematical result reduced into the
      32-bit range, which C# does silently on overflow. */
  function Wrap32(x: int): (r: Int32)
    ensures (r - x) % 0x1_0000_0000 == 0
    ensures InInt32(x) ==> r == x
  {
    (x - MinInt32) % 0x1_0000_0000 + MinInt32
  }

  /** The exceptions `int.Parse` throws: `ArgumentNullException`,
      `FormatException` and `OverflowException`. */
  datatype ParseError = NullArgument | BadFormat | Overflow

  /** White space that `NumberStyles.AllowLeadingWhite` and
      `AllowTrailingWhite` accept: U+0009 to U+000D and U+0020. */
  predicate IsWhite(c: char) {
    c == ' ' || '\t' <= c <= '\r'
  }

  predicate AllWhite(s: string) {
    forall i :: 0 <= i < |s| ==> IsWhite(s[i])
  }

  predicate IsDigit(c: char) {
    '0' <= c <= '9'
  }

  predicate AllDigits(s: string) {
    forall i :: 0 <= i < |s| ==> IsDigit(s[i])
  }

  function DigitValue(c: char): (d: nat)
    requires IsDigit(c)
    ensures d < 10
  {
    c as int - '0' as int
  }

  function DigitChar(d: nat): (c: char)
    requires d < 10
    ensures IsDigit(c) && DigitValue(c) == d
  {
    ('0' as int + d) as char
  }

  /** Drops the leading white space. */
  function TrimStart(s: string): string
  {
    if s != [] && IsWhite(s[0]) then TrimStart(s[1..]) else s
  }

  /** Drops the trailing white space. */
  function TrimEnd(s: string): string
  {
    if s != [] && IsWhite(s[|s| - 1]) then TrimEnd(s[..|s| - 1]) else s
  }

  function Trim(s: string): string {
    TrimEnd(TrimStart(s))
  }

  /** A leading `-` or `+`, if there is one, and the rest. */
  function SplitSign(u: string): (r: (bool, string))
    ensures |r.1| <= |u|
  {
    if u != [] && u[0] == '-' then (true, u[1..])
    else if u != [] && u[0] == '+' then (false, u[1..])
    else (false, u)
  }

  /** The value of a string of decimal digits, most significant first. */
  function DigitsValue(s: string): (v: nat)
    requires AllDigits(s)
  {
    if s == [] then 0 else DigitsValue(s[..|s| - 1]) * 10 + DigitValue(s[|s| - 1])
  }

  /** `int.Parse(s)`.  A null string, text that is not an optionally signed
      run of digits between optional white space, and a numeral outside the
      32-bit range are the three failures; a malformed text is reported as
      such even when its digits would also overflow. */
  function ParseInt32(s: Option<string>): (r: Result<Int32, ParseError>)
    ensures r == Err(NullArgument) <==> s.None?
  {
    match s
    case None => Err(NullArgument)
    case Some(t) =>
      var (negative, digits) := SplitSign(Trim(t));
      if digits == [] || !AllDigits(digits) then Err(BadFormat)
      else
        var v: int := if negative then -(DigitsValue(digits) as int) else DigitsValue(digits);
        if InInt32(v) then Ok(v) else Err(Overflow)
  }

  /** The decimal digits of `n`, without leading zeros. */
  function Digits(n: nat): (r: string)
    ensures r != [] && AllDigits(r)
    ensures r[0] != '0' || n == 0
  {
    if n < 10 then [DigitChar(n)] else Digits(n / 10) + [DigitChar(n % 10)]
  }

  /** `n.ToString()` with the invariant culture: a `-` for negative values,
      then the digits of the magnitude. */
  function FormatInt(n: int): (r: string)
    ensures r != [] && !IsWhite(r[0]) && !IsWhite(r[|r| - 1])
  {
    if n < 0 then "-" + Digits(-n) else Digits(n)
  }

  // ---------------------------------------------------------------------
  // Digits and values

  /** Reading back the digits of `n` gives `n`. */
  lemma {:induction false} DigitsRoundTrip(n: nat)
    ensures DigitsValue(Digits(n)) == n
  {
    if n >= 10 {
      var s := Digits(n);
      var prefix := Digits(n / 10);
      assert s[..|s| - 1] == prefix;
      DigitsRoundTrip(n / 10);
    }
  }

  /** A digit string without a leading zero has a positive value. */
  lemma {:induction false} LeadingDigitPositive(s: string)
    requires s != [] && AllDigits(s) && s[0] != '0'
    ensures DigitsValue(s) >= 1
  {
    if |s| > 1 {
      var prefix := s[..|s| - 1];
      assert prefix[0] == s[0];
      LeadingDigitPositive(prefix);
    }
  }

  /** Conversely, every digit string without superfluous leading zeros is
      the rendering of its own value. */
  lemma {:induction false} CanonicalDigits(s: string)
    requires s != [] && AllDigits(s) && (s[0] != '0' || |s| == 1)
    ensures Digits(DigitsValue(s)) == s
  {
    if |s| > 1 {
      var prefix := s[..|s| - 1];
      var d := DigitValue(s[|s| - 1]);
      assert prefix[0] == s[0];
      LeadingDigitPositive(prefix);
      CanonicalDigits(prefix);
      var v := DigitsValue(s);
      assert v / 10 == DigitsValue(prefix) && v % 10 == d;
      assert DigitChar(d) == s[|s| - 1];
      assert s == prefix + [s[|s| - 1]];
    }
  }

  // ---------------------------------------------------------------------
  // White space

  /** Trimming the start removes exactly a white prefix, and what is left
      is empty or starts with a character that is not white. */
  lemma {:induction false} TrimStartShape(s: string)
    ensures var r := TrimStart(s);
      |r| <= |s| && r == s[|s| - |r|..] && AllWhite(s[..|s| - |r|]) &&
      (r == [] || !IsWhite(r[0]))
  {
    if s != [] && IsWhite(s[0]) {
      TrimStartShape(s[1..]);
      var r := TrimStart(s);
      assert s[..|s| - |r|] == [s[0]] + s[1..][..|s| - 1 - |r|];
    }
  }

  /** Trimming the end removes exactly a white suffix, and what is left is
      empty or ends with a character that is not white. */
  lemma {:induction false} TrimEndShape(s: string)
    ensures var r := TrimEnd(s);
      |r| <= |s| && r == s[..|r|] && AllWhite(s[|r|..]) &&
      (r == [] || !IsWhite(r[|r| - 1]))
  {
    if s != [] && IsWhite(s[|s| - 1]) {
      var p := s[..|s| - 1];
      TrimEndShape(p);
      var r := TrimEnd(s);
      assert s[|r|..] == p[|r|..] + [s[|s| - 1]];
    }
  }

  lemma {:induction false} TrimStartWhitePrefix(w: string, s: string)
    requires AllWhite(w)
    ensures TrimStart(w + s) == TrimStart(s)
  {
    if w != [] {
      assert (w + s)[0] == w[0];
      assert (w + s)[1..] == w[1..] + s;
      TrimStartWhitePrefix(w[1..], s);
    } else {
      assert w + s == s;
    }
  }

  lemma {:induction false} TrimEndWhiteSuffix(s: string, w: string)
    requires AllWhite(w)
    ensures TrimEnd(s + w) == TrimEnd(s)
  {
    if w != [] {
      assert (s + w)[|s + w| - 1] == w[|w| - 1];
      assert (s + w)[..|s + w| - 1] == s + w[..|w| - 1];
      TrimEndWhiteSuffix(s, w[..|w| - 1]);
    } else {
      assert s + w == s;
    }
  }

  /** Text that is all white space trims to nothing. */
  lemma {:induction false} TrimStartAllWhite(s: string)
    requires AllWhite(s)
    ensures TrimStart(s) == []
  {
    if s != [] {
      TrimStartAllWhite(s[1..]);
    }
  }

  /** Trailing white space is not reached by trimming from the start unless
      the text before it is all white. */
  lemma {:induction false} TrimStartBeforeWhite(s: string, w: string)
    requires AllWhite(w) && !AllWhite(s)
    ensures TrimStart(s + w) == TrimStart(s) + w
  {
    if IsWhite(s[0]) {
      assert (s + w)[1..] == s[1..] + w;
      assert !AllWhite(s[1..]) by {
        var i :| 0 <= i < |s| && !IsWhite(s[i]);
        assert s[1..][i - 1] == s[i];
      }
      TrimStartBeforeWhite(s[1..], w);
    }
  }

  /** White space around a text does not change what `int.Parse` makes
      of it. */
  lemma ParseIgnoresSurroundingWhite(w1: string, t: string, w2: string)
    requires AllWhite(w1) && AllWhite(w2)
    ensures ParseInt32(Some(w1 + t + w2)) == ParseInt32(Some(t))
  {
    TrimIgnoresSurroundingWhite(w1, t, w2);
  }

  lemma TrimIgnoresSurroundingWhite(w1: string, t: string, w2: string)
    requires AllWhite(w1) && AllWhite(w2)
    ensures Trim(w1 + t + w2) == Trim(t)
  {
    assert w1 + t + w2 == w1 + (t + w2);
    TrimStartWhitePrefix(w1, t + w2);
    if AllWhite(t) {
      assert AllWhite(t + w2);
      TrimStartAllWhite(t + w2);
      TrimStartAllWhite(t);
    } else {
      TrimStartBeforeWhite(t, w2);
      TrimEndWhiteSuffix(TrimStart(t), w2);
    }
  }

  // ---------------------------------------------------------------------
  // Round trips

  /** `int.Parse(n.ToString()) == n` for every 32-bit `n`; the rendering of
      any other integer overflows. */
  lemma ParseFormatRoundTrip(n: int)
    ensures ParseInt32(Some(FormatInt(n))) == if InInt32(n) then Ok(n) else Err(Overflow)
  {
    var s := FormatInt(n);
    assert TrimStart(s) == s;
    assert TrimEnd(s) == s;
    if n < 0 {
      var m: nat := -n;
      assert SplitSign(s) == (true, Digits(m));
      DigitsRoundTrip(m);
    } else {
      assert SplitSign(s) == (false, Digits(n));
      DigitsRoundTrip(n);
    }
  }

  /** Conversely, a text that parses and is already in canonical form (no
      white space, no `+`, no leading zeros, no `-0`) is the rendering of
      its value. */
  lemma FormatParseRoundTrip(t: string)
    requires ParseInt32(Some(t)).Ok?
    requires t != [] && t[0] != '+' && !IsWhite(t[0]) && !IsWhite(t[|t| - 1])
    requires var digits := SplitSign(t).1; digits[0] != '0' || t == "0"
    ensures FormatInt(ParseInt32(Some(t)).value) == t
  {
    assert Trim(t) == t;
    var (negative, digits) := SplitSign(t);
    assert digits[0] != '0' || |digits| == 1;
    CanonicalDigits(digits);
    if negative {
      assert digits[0] != '0';
      LeadingDigitPositive(digits);
      assert t == "-" + digits;
    } else {
      assert t == digits;
    }
  }

  /** Sample conversions: surrounding white space and a sign are accepted. */
  lemma ParseAcceptsExamples()
    ensures ParseInt32(Some(" -42\t")) == Ok(-42)
    ensures ParseInt32(Some("+7")) == Ok(7)
  {
    assert Trim(" -42\t") == "-42";
    assert "42"[..1] == "4";
    assert DigitsValue("42") == 42;
  }

  /** Empty or blank text, a lone sign, inner white space and a stray
      character are malformed; a null string is its own failure. */
  lemma ParseRejectsExamples()
    ensures ParseInt32(Some("")) == Err(BadFormat)
    ensures ParseInt32(Some(" \n")) == Err(BadFormat)
    ensures ParseInt32(Some("-")) == Err(BadFormat)
    ensures ParseInt32(Some("4 2")) == Err(BadFormat)
    ensures ParseInt32(Some("12a")) == Err(BadFormat)
    ensures ParseInt32(None) == Err(NullArgument)
  {
    assert !IsDigit("4 2"[1]);
    assert !IsDigit("12a"[2]);
  }
}
