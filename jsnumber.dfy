/**
 * JavaScript's `parseInt(s)` (no radix argument) and `parseFloat(s)` over
 * unbounded numbers. `None` stands for NaN. Both skip leading white space,
 * accept one sign, and read the longest numeric prefix.
 */
module JsNumber {
  import opened Wrappers

  /** ECMAScript StrWhiteSpaceChar: a WhiteSpace or LineTerminator code point. */
  predicate IsWhiteSpace(c: char) {
    var k := c as int;
    k == 0x09 || k == 0x0B || k == 0x0C || k == 0x20 || k == 0xA0 || k == 0xFEFF
    || k == 0x1680 || (0x2000 <= k <= 0x200A) || k == 0x202F || k == 0x205F || k == 0x3000
    || k == 0x0A || k == 0x0D || k == 0x2028 || k == 0x2029
  }

  function TrimStart(s: string): (r: string)
    ensures r == [] || !IsWhiteSpace(r[0])
    decreases |s|
  {
    if s != [] && IsWhiteSpace(s[0]) then TrimStart(s[1..]) else s
  }

  predicate IsDigit(c: char) {
    '0' <= c <= '9'
  }

  /** The value of `c` as a digit in any radix up to 36, or 36 when it is none. */
  function DigitValue(c: char): (d: nat)
    ensures d <= 36
    ensures IsDigit(c) <==> d < 10
  {
    if '0' <= c <= '9' then c as int - '0' as int
    else if 'a' <= c <= 'z' then c as int - 'a' as int + 10
    else if 'A' <= c <= 'Z' then c as int - 'A' as int + 10
    else 36
  }

  /** The length of the longest prefix of `s` made of digits of `radix`. */
  function DigitRun(s: string, radix: nat): (n: nat)
    ensures n <= |s|
    decreases |s|
  {
    if s != [] && DigitValue(s[0]) < radix then 1 + DigitRun(s[1..], radix) else 0
  }

  /** The number the decimal digits `s` denote, most significant first. */
  function DecimalValue(s: string): nat
    decreases |s|
  {
    if s == [] then 0 else DecimalValue(s[..|s| - 1]) * 10 + DigitValue(s[|s| - 1])
  }

  /** The number the hexadecimal digits `s` denote, most significant first. */
  function HexValue(s: string): nat
    decreases |s|
  {
    if s == [] then 0 else HexValue(s[..|s| - 1]) * 16 + DigitValue(s[|s| - 1])
  }

  /** `t` without one leading sign, and whether that sign was `-`. */
  function Unsigned(t: string): (string, bool) {
    if t != [] && (t[0] == '+' || t[0] == '-') then (t[1..], t[0] == '-') else (t, false)
  }

  /** `parseInt(s)`: a `0x`/`0X` prefix selects radix 16, otherwise radix 10. */
  function ParseInt(s: string): (r: Option<int>)
    ensures Unsigned(TrimStart(s)).0 == [] ==> r == None
    ensures r.Some? ==> if Unsigned(TrimStart(s)).1 then r.value <= 0 else r.value >= 0
  {
    var (u, negative) := Unsigned(TrimStart(s));
    var hex := |u| >= 2 && u[0] == '0' && (u[1] == 'x' || u[1] == 'X');
    var radix := if hex then 16 else 10;
    var body := if hex then u[2..] else u;
    var n := DigitRun(body, radix);
    if n == 0 then None
    else
      var v: int := if hex then HexValue(body[..n]) else DecimalValue(body[..n]);
      Some(if negative then -v else v)
  }

  /** A number `parseFloat` can produce; NaN is `None`. */
  datatype Number = Finite(value: real) | Infinity(negative: bool)

  /** `x * 10^e`. */
  function Scale(x: real, e: int): (y: real)
    ensures x >= 0.0 ==> y >= 0.0
    decreases if e >= 0 then e else -e
  {
    if e == 0 then x
    else if e > 0 then Scale(x, e - 1) * 10.0
    else Scale(x, e + 1) / 10.0
  }

  /** The exponent part at the start of `s` (`e`, optional sign, digits), or 0 without one. */
  function ExponentOf(s: string): int {
    if |s| >= 2 && (s[0] == 'e' || s[0] == 'E') then
      var (u, negative) := Unsigned(s[1..]);
      var n := DigitRun(u, 10);
      if n == 0 then 0
      else
        var v: int := DecimalValue(u[..n]);
        if negative then -v else v
    else 0
  }

  /** The value of the longest StrUnsignedDecimalLiteral prefix of `u` that has digits. */
  function DecimalPrefix(u: string): Option<real> {
    var n1 := DigitRun(u, 10);
    AfterWholePart(DecimalValue(u[..n1]), n1 > 0, u[n1..])
  }

  /** The value of the digits after a decimal point: `0.ds`. */
  function Fraction(ds: string): (f: real)
    ensures f >= 0.0
    decreases |ds|
  {
    if ds == [] then 0.0 else (DigitValue(ds[0]) as real + Fraction(ds[1..])) / 10.0
  }

  /** The rest of a decimal literal once its whole part (`whole`, present or not) is read. */
  function AfterWholePart(whole: nat, hasWhole: bool, rest: string): (r: Option<real>)
    ensures r.Some? ==> r.value >= 0.0
  {
    if rest != [] && rest[0] == '.' then
      var digits := rest[1..];
      var n2 := DigitRun(digits, 10);
      if !hasWhole && n2 == 0 then None
      else Some(Scale(whole as real + Fraction(digits[..n2]), ExponentOf(digits[n2..])))
    else if !hasWhole then None
    else Some(Scale(whole as real, ExponentOf(rest)))
  }

  /** `parseFloat(s)`. */
  function ParseFloat(s: string): (r: Option<Number>)
    ensures Unsigned(TrimStart(s)).0 == [] ==> r == None
    ensures r.Some? && r.value.Finite? ==> if Unsigned(TrimStart(s)).1 then r.value.value <= 0.0 else r.value.value >= 0.0
    ensures r.Some? && r.value.Infinity? ==> r.value.negative == Unsigned(TrimStart(s)).1
  {
    var (u, negative) := Unsigned(TrimStart(s));
    if |u| >= 8 && u[..8] == "Infinity" then Some(Infinity(negative))
    else
      match DecimalPrefix(u)
      case None => None
      case Some(x) => Some(Finite(if negative then -x else x))
  }

  /** `n >= bound` in JavaScript: false for NaN. */
  predicate AtLeast(n: Option<Number>, bound: real) {
    match n
    case None => false
    case Some(Finite(x)) => x >= bound
    case Some(Infinity(negative)) => !negative
  }

  predicate AllDigits(s: string)
    decreases |s|
  {
    s == [] || (IsDigit(s[0]) && AllDigits(s[1..]))
  }

  /** A run of decimal digits holds no other character. */
  lemma {:induction false} DigitsAvoid(s: string, c: char)
    requires AllDigits(s) && !IsDigit(c)
    ensures c !in s
    decreases |s|
  {
    if s != [] {
      DigitsAvoid(s[1..], c);
      assert s == [s[0]] + s[1..];
    }
  }

  lemma {:induction false} DigitRunOfDigits(ds: string, rest: string)
    requires AllDigits(ds)
    requires rest == [] || !IsDigit(rest[0])
    ensures DigitRun(ds + rest, 10) == |ds|
    decreases |ds|
  {
    if ds != [] {
      assert (ds + rest)[1..] == ds[1..] + rest;
      DigitRunOfDigits(ds[1..], rest);
    } else {
      assert ds + rest == rest;
    }
  }

  lemma {:induction false} FractionBelowOne(ds: string)
    requires AllDigits(ds)
    ensures 0.0 <= Fraction(ds) < 1.0
    decreases |ds|
  {
    if ds != [] {
      FractionBelowOne(ds[1..]);
    }
  }

  /**
   * `parseInt` reads a leading run of decimal digits as their value, as long as
   * the run is not a lone `0` placed before an `x` (which would select hex).
   */
  lemma {:induction false} ParseIntOfDigits(ds: string, rest: string)
    requires ds != [] && AllDigits(ds)
    requires rest == [] || !IsDigit(rest[0])
    requires !(ds == "0" && rest != [] && (rest[0] == 'x' || rest[0] == 'X'))
    ensures ParseInt(ds + rest) == Some(DecimalValue(ds))
  {
    var s := ds + rest;
    assert !IsWhiteSpace(s[0]) && s[0] != '+' && s[0] != '-';
    assert TrimStart(s) == s;
    DigitRunOfDigits(ds, rest);
    assert s[..|ds|] == ds;
  }

  /** Without any digit to read, `parseInt` gives NaN. */
  lemma {:induction false} ParseIntNeedsDigit(s: string)
    requires s == [] || (!IsDigit(s[0]) && !IsWhiteSpace(s[0]) && s[0] != '+' && s[0] != '-')
    ensures ParseInt(s) == None
  {
    if s != [] {
      assert TrimStart(s) == s;
      assert Unsigned(s) == (s, false);
      assert DigitRun(s, 10) == 0;
    }
  }

  /** After a whole part, `.fs` with decimal digits `fs` adds `0.fs`. */
  lemma {:induction false} AfterWholePartOfFraction(whole: nat, fs: string)
    requires AllDigits(fs)
    ensures AfterWholePart(whole, true, "." + fs) == Some(whole as real + Fraction(fs))
  {
    assert ("." + fs)[1..] == fs;
    DigitRunOfDigits(fs, "");
    assert fs + "" == fs;
    assert fs[..|fs|] == fs;
    assert fs[|fs|..] == "";
    assert ExponentOf("") == 0;
    assert Scale(whole as real + Fraction(fs), 0) == whole as real + Fraction(fs);
  }

  /** A decimal prefix that starts with the digits `ds` reads them as its whole part. */
  lemma {:induction false} DecimalPrefixOfWhole(s: string, ds: string, rest: string)
    requires s == ds + rest && ds != [] && AllDigits(ds)
    requires rest == [] || !IsDigit(rest[0])
    ensures DecimalPrefix(s) == AfterWholePart(DecimalValue(ds), true, rest)
  {
    DigitRunOfDigits(ds, rest);
    assert s[..|ds|] == ds && s[|ds|..] == rest;
  }

  /** `ds.fs`, with decimal digits on both sides, is read as `ds + 0.fs`. */
  lemma {:induction false} DecimalPrefixOfDecimal(ds: string, fs: string)
    requires ds != [] && AllDigits(ds) && AllDigits(fs)
    ensures DecimalPrefix(ds + "." + fs) == Some(DecimalValue(ds) as real + Fraction(fs))
  {
    var s := ds + "." + fs;
    var rest := "." + fs;
    var whole := DecimalValue(ds);
    assert s == ds + rest && rest[0] == '.';
    assert DecimalPrefix(s) == AfterWholePart(whole, true, rest) by {
      DecimalPrefixOfWhole(s, ds, rest);
    }
    assert AfterWholePart(whole, true, rest) == Some(whole as real + Fraction(fs)) by {
      AfterWholePartOfFraction(whole, fs);
    }
  }

  /** A non-negative number below one added to a whole number does not reach the next whole number. */
  lemma {:induction false} WholePartDecides(whole: nat, f: real, bound: nat)
    requires 0.0 <= f < 1.0
    ensures whole as real + f >= bound as real <==> whole >= bound
  {
  }

  /** Text that starts with a digit is read by the decimal grammar alone. */
  lemma {:induction false} ParseFloatOfDigitFirst(s: string)
    requires s != [] && IsDigit(s[0])
    ensures ParseFloat(s) == if DecimalPrefix(s).Some? then Some(Finite(DecimalPrefix(s).value)) else None
  {
    assert TrimStart(s) == s;
    assert Unsigned(s) == (s, false);
    if |s| >= 8 {
      assert s[..8][0] == s[0] != 'I';
    }
  }

  /** A version written `ds.fs` with decimal digits on both sides parses to `ds + 0.fs`. */
  lemma {:induction false} ParseFloatOfDecimal(ds: string, fs: string)
    requires ds != [] && AllDigits(ds) && AllDigits(fs)
    ensures ParseFloat(ds + "." + fs) == Some(Finite(DecimalValue(ds) as real + Fraction(fs)))
  {
    var s := ds + "." + fs;
    assert s[0] == ds[0];
    ParseFloatOfDigitFirst(s);
    DecimalPrefixOfDecimal(ds, fs);
  }

  /** A version written as decimal digits alone parses to their value. */
  lemma {:induction false} ParseFloatOfWhole(ds: string)
    requires ds != [] && AllDigits(ds)
    ensures ParseFloat(ds) == Some(Finite(DecimalValue(ds) as real))
  {
    ParseFloatOfDigitFirst(ds);
    assert ds + "" == ds;
    DecimalPrefixOfWhole(ds, ds, "");
    assert ExponentOf("") == 0;
  }

  /** Such a version is at least a whole bound exactly when its value is. */
  lemma {:induction false} WholeAtLeast(ds: string, bound: nat)
    requires ds != [] && AllDigits(ds)
    ensures AtLeast(ParseFloat(ds), bound as real) <==> DecimalValue(ds) >= bound
  {
    ParseFloatOfWhole(ds);
  }

  /** Such a version is at least a whole bound exactly when its integer part is. */
  lemma {:induction false} DecimalAtLeast(ds: string, fs: string, bound: nat)
    requires ds != [] && AllDigits(ds) && AllDigits(fs)
    ensures AtLeast(ParseFloat(ds + "." + fs), bound as real) <==> DecimalValue(ds) >= bound
  {
    ParseFloatOfDecimal(ds, fs);
    FractionBelowOne(fs);
    WholePartDecides(DecimalValue(ds), Fraction(fs), bound);
  }

  /** A text whose first character is a letter other than `I` parses to NaN. */
  lemma {:induction false} ParseFloatOfWord(s: string)
    requires s != [] && (('a' <= s[0] <= 'z') || ('A' <= s[0] <= 'Z' && s[0] != 'I'))
    ensures ParseFloat(s) == None
  {
    assert TrimStart(s) == s;
    assert Unsigned(s) == (s, false);
    assert DigitValue(s[0]) >= 10;
    assert DigitRun(s, 10) == 0;
  }
}
