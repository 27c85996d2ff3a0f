/**
  The two number conversions the tool leans on, over ASCII text:
  Python's int() on a column of the listing and float() on a size string.
  Both skip the surrounding whitespace CPython skips: ASCII whitespace and
  the non-ASCII characters str.isspace() accepts, which CPython first turns
  into spaces. The four information separators U+001C..U+001F, which
  str.isspace() also accepts, are neither skipped nor allowed. Not modelled:
  underscores between digits, non-ASCII digits, int()'s limit on the number
  of digits, and float's exponents, "inf" and "nan".
 */
module Numerals {
  import opened Outcomes
  import opened Text

  predicate IsDigit(c: char) {
    '0' <= c <= '9'
  }

  predicate AllDigits(s: string) {
    forall i :: 0 <= i < |s| ==> IsDigit(s[i])
  }

  /** Python's str.isdigit() on ASCII text: non-empty and digits only. */
  predicate IsDigitString(s: string) {
    |s| > 0 && AllDigits(s)
  }

  predicate IsSign(c: char) {
    c == '+' || c == '-'
  }

  function Pow(base: nat, exp: nat): (r: nat)
    ensures base > 0 ==> r > 0
  {
    if exp == 0 then 1 else base * Pow(base, exp - 1)
  }

  function DigitValue(c: char): nat
    requires IsDigit(c)
  {
    c as int - '0' as int
  }

  function DigitChar(d: nat): (c: char)
    requires d < 10
    ensures IsDigit(c) && DigitValue(c) == d
  {
    ('0' as int + d) as char
  }

  /** The number a run of decimal digits denotes; the empty run denotes 0. */
  function DigitsValue(s: string): nat
    requires AllDigits(s)
  {
    if |s| == 0 then 0 else DigitsValue(s[..|s| - 1]) * 10 + DigitValue(s[|s| - 1])
  }

  /** Digits written after others shift them left by their count. */
  lemma {:induction false} DigitsValueConcat(a: string, b: string)
    requires AllDigits(a) && AllDigits(b)
    ensures AllDigits(a + b)
    ensures DigitsValue(a + b) == DigitsValue(a) * Pow(10, |b|) + DigitsValue(b)
    decreases |b|
  {
    if |b| > 0 {
      var b' := b[..|b| - 1];
      assert (a + b)[..|a + b| - 1] == a + b';
      DigitsValueConcat(a, b');
      var x, p, y, d := DigitsValue(a), Pow(10, |b'|), DigitsValue(b'), DigitValue(b[|b| - 1]);
      calc {
        DigitsValue(a + b);
        DigitsValue(a + b') * 10 + d;
        (x * p + y) * 10 + d;
        { ShiftDigit(x, p, y, d); }
        x * (10 * p) + (y * 10 + d);
        DigitsValue(a) * Pow(10, |b|) + DigitsValue(b);
      }
    } else {
      assert a + b == a;
    }
  }

  /** One more digit shifts everything before it left by one place. */
  lemma ShiftDigit(x: int, p: int, y: int, d: int)
    ensures (x * p + y) * 10 + d == x * (10 * p) + (y * 10 + d)
  {
  }

  /** The shortest decimal numeral of n, as str(n) writes it. */
  function FormatNat(n: nat): string
  {
    if n < 10 then [DigitChar(n)] else FormatNat(n / 10) + [DigitChar(n % 10)]
  }

  /** Reading back a written natural number gives the number. */
  lemma {:induction false} FormatNatRoundTrip(n: nat)
    ensures IsDigitString(FormatNat(n))
    ensures DigitsValue(FormatNat(n)) == n
  {
    if n >= 10 {
      FormatNatRoundTrip(n / 10);
      var s := FormatNat(n);
      assert s[..|s| - 1] == FormatNat(n / 10);
    }
  }

  /** Length of the optional sign in front of a numeral: 1 for '+' or '-', else 0. */
  function SignLength(t: string): (n: nat)
    ensures n <= |t| && n <= 1
    ensures n == 1 <==> |t| > 0 && IsSign(t[0])
  {
    if |t| > 0 && IsSign(t[0]) then 1 else 0
  }

  /** Whether the numeral t starts with a minus sign. */
  predicate Negative(t: string) {
    |t| > 0 && t[0] == '-'
  }

  /** A magnitude with the sign applied. */
  function Signed(negative: bool, n: nat): (r: int)
    ensures negative ==> r == -(n as int)
    ensures !negative ==> r == n
  {
    var v: int := n;
    if negative then -v else v
  }

  /** The information separators FS, GS, RS and US. */
  predicate IsSeparator(c: char) {
    '\U{1C}' <= c <= '\U{1F}'
  }

  /** No information separator anywhere in s: int() and float() refuse any text holding one. */
  predicate NoSeparator(s: string) {
    forall k :: 0 <= k < |s| ==> !IsSeparator(s[k])
  }

  /** A text holding an information separator is neither an int() nor a float() numeral. */
  lemma SeparatorRefused(s: string, k: nat)
    requires k < |s| && IsSeparator(s[k])
    ensures ParseInt(s) == None && ParseDecimal(s) == None
  {
  }

  /** A sign followed by digits and dots holds no information separator. */
  lemma NumeralNoSeparator(sign: string, body: string)
    requires sign == "" || sign == "+" || sign == "-"
    requires forall k :: 0 <= k < |body| ==> IsDigit(body[k]) || body[k] == '.'
    ensures NoSeparator(sign + body)
  {
    var s := sign + body;
    forall k | 0 <= k < |s| ensures !IsSeparator(s[k]) {
      if k >= |sign| {
        assert s[k] == body[k - |sign|];
      }
    }
  }

  /**
    Python's int(s) for base 10: optional surrounding whitespace, an optional
    sign, then one or more digits; anything else raises ValueError (None).
   */
  function ParseInt(s: string): (r: Option<int>)
    ensures r.Some? ==> NoSeparator(s)
    ensures r.Some? ==> var t := Strip(s);
      && |t| > 0 && IsDigit(t[|t| - 1])
      && (forall k :: 0 <= k < |t| ==> IsDigit(t[k]) || (k == 0 && IsSign(t[k])))
    ensures r.Some? && r.value < 0 ==> Strip(s)[0] == '-'
  {
    var t := Strip(s);
    var digits := t[SignLength(t)..];
    if NoSeparator(s) && IsDigitString(digits) then
      SignedDigits(t, SignLength(t));
      Some(Signed(Negative(t), DigitsValue(digits)))
    else None
  }

  /** The characters of a digit run behind an optional sign. */
  lemma SignedDigits(t: string, off: nat)
    requires off <= 1 && off <= |t| && (off == 1 ==> IsSign(t[0]))
    requires IsDigitString(t[off..])
    ensures |t| > 0 && IsDigit(t[|t| - 1])
    ensures forall k :: 0 <= k < |t| ==> IsDigit(t[k]) || (k == 0 && IsSign(t[k]))
  {
    forall k | off <= k < |t| ensures IsDigit(t[k]) {
      assert t[k] == t[off..][k - off];
    }
  }

  /** A sign followed by digits, as a numeral is written, is read off as its parts. */
  lemma SignedNumeral(sign: string, body: string)
    requires sign == "" || sign == "+" || sign == "-"
    requires |body| > 0 && !IsSign(body[0]) && !IsSpace(body[0]) && !IsSpace(body[|body| - 1])
    ensures Strip(sign + body) == sign + body
    ensures SignLength(sign + body) == |sign|
    ensures (sign + body)[|sign|..] == body
    ensures Negative(sign + body) <==> sign == "-"
  {
    var s := sign + body;
    assert s[0] == if |sign| > 0 then sign[0] else body[0];
    assert s[|s| - 1] == body[|body| - 1];
    StripUnpadded(s);
  }

  /** int() of digits behind an optional sign is the number they denote. */
  lemma ParseIntOfDigits(sign: string, digits: string)
    requires sign == "" || sign == "+" || sign == "-"
    requires IsDigitString(digits)
    ensures ParseInt(sign + digits) == Some(Signed(sign == "-", DigitsValue(digits)))
  {
    SignedNumeral(sign, digits);
    NumeralNoSeparator(sign, digits);
  }

  /** str(i): a minus sign for negative numbers, then the digits. */
  function FormatInt(i: int): string
  {
    if i < 0 then "-" + FormatNat(-i) else FormatNat(i)
  }

  /** int(str(i)) == i. */
  lemma ParseIntFormatInt(i: int)
    ensures ParseInt(FormatInt(i)) == Some(i)
  {
    var n: nat := if i < 0 then -i else i;
    FormatNatRoundTrip(n);
    if i < 0 {
      ParseIntOfDigits("-", FormatNat(n));
    } else {
      ParseIntOfDigits("", FormatNat(n));
      assert "" + FormatNat(n) == FormatNat(n);
    }
  }

  /**
    An exact decimal: (-1 if negative) * mantissa / 10^scale. It stands in for
    the float value Python computes.
   */
  datatype Decimal = Decimal(negative: bool, mantissa: nat, scale: nat)

  /** Position of the first '.' in s, or |s| if there is none. */
  function DotIndex(s: string): (i: nat)
    ensures i <= |s|
    ensures forall k :: 0 <= k < i ==> s[k] != '.'
    ensures i < |s| ==> s[i] == '.'
  {
    if |s| == 0 || s[0] == '.' then 0 else 1 + DotIndex(s[1..])
  }

  /**
    Python's float(s) on plain decimal numerals: optional surrounding
    whitespace, an optional sign, digits with at most one '.', and at least
    one digit ("5", "2.5", "5.", ".5"). Anything else raises ValueError (None).
   */
  function ParseDecimal(s: string): Option<Decimal>
  {
    var t := Strip(s);
    var m := UnsignedDecimal(t[SignLength(t)..]);
    if NoSeparator(s) && m.Some? then Some(Decimal(Negative(t), m.value.0, m.value.1)) else None
  }

  /**
    What float() accepts: after stripping, only digits, at most one dot, a
    sign only in front, and at least one digit; a minus sign makes it negative.
   */
  lemma ParseDecimalAccepts(s: string)
    ensures ParseDecimal(s).Some? ==> NoSeparator(s)
    ensures ParseDecimal(s).Some? ==> var t := Strip(s);
      && (forall k :: 0 <= k < |t| ==> IsDigit(t[k]) || t[k] == '.' || (k == 0 && IsSign(t[k])))
      && (forall i, j :: 0 <= i < j < |t| && t[i] == '.' ==> t[j] != '.')
      && (exists k :: 0 <= k < |t| && IsDigit(t[k]))
    ensures ParseDecimal(s).Some? ==> ParseDecimal(s).value.negative == Negative(Strip(s))
  {
    var t := Strip(s);
    if ParseDecimal(s).Some? {
      DecimalShape(t, SignLength(t));
    }
  }

  /**
    The magnitude of an unsigned decimal numeral as (mantissa, scale): the
    digits with the dot removed, and the number of digits after the dot.
   */
  function UnsignedDecimal(u: string): (r: Option<(nat, nat)>)
    ensures r.Some? ==> DecimalBody(u)
  {
    var d := DotIndex(u);
    if d == |u| then
      if IsDigitString(u) then Some((DigitsValue(u), 0)) else None
    else
      var whole, frac := u[..d], u[d + 1..];
      if AllDigits(whole) && AllDigits(frac) && |whole| + |frac| > 0 then
        DotBody(u, d);
        DigitsValueConcat(whole, frac);
        Some((DigitsValue(whole + frac), |frac|))
      else None
  }

  /** Digits with at most one dot among them, and at least one digit. */
  predicate DecimalBody(u: string) {
    && (forall k :: 0 <= k < |u| ==> IsDigit(u[k]) || u[k] == '.')
    && (forall i, j :: 0 <= i < j < |u| && u[i] == '.' ==> u[j] != '.')
    && (exists k :: 0 <= k < |u| && IsDigit(u[k]))
  }

  lemma DotBody(u: string, d: nat)
    requires d < |u| && u[d] == '.'
    requires AllDigits(u[..d]) && AllDigits(u[d + 1..]) && |u| > 1
    ensures DecimalBody(u)
  {
    forall k | 0 <= k < |u| ensures IsDigit(u[k]) || (u[k] == '.' && k == d) {
      if k < d {
        assert u[k] == u[..d][k];
      } else if k > d {
        assert u[k] == u[d + 1..][k - d - 1];
      }
    }
    var w := if d > 0 then 0 else 1;
    assert IsDigit(u[w]);
  }

  /** A decimal body behind an optional sign. */
  lemma DecimalShape(t: string, off: nat)
    requires off <= 1 && off <= |t| && (off == 1 ==> IsSign(t[0]))
    requires DecimalBody(t[off..])
    ensures forall k :: 0 <= k < |t| ==> IsDigit(t[k]) || t[k] == '.' || (k == 0 && IsSign(t[k]))
    ensures forall i, j :: 0 <= i < j < |t| && t[i] == '.' ==> t[j] != '.'
    ensures exists k :: 0 <= k < |t| && IsDigit(t[k])
  {
    var u := t[off..];
    forall k | off <= k < |t| ensures t[k] == u[k - off] { }
    var w :| 0 <= w < |u| && IsDigit(u[w]);
    assert IsDigit(t[w + off]);
  }

  /**
    int(x * factor) for the decimal x: Python's int() of a float truncates
    toward zero.
   */
  function Truncate(d: Decimal, factor: nat): int
  {
    Signed(d.negative, (d.mantissa * factor) / Pow(10, d.scale))
  }

  /**
    The truncated product is the whole number of bytes nearest zero: its
    magnitude q satisfies q * 10^scale <= mantissa * factor < (q + 1) * 10^scale,
    and its sign is the decimal's.
   */
  lemma TruncateBounds(d: Decimal, factor: nat)
    ensures var p, x := Pow(10, d.scale), d.mantissa * factor;
      var q := if d.negative then -Truncate(d, factor) else Truncate(d, factor);
      q >= 0 && q * p <= x < (q + 1) * p
  {
    var p, x := Pow(10, d.scale), d.mantissa * factor;
    var q := if d.negative then -Truncate(d, factor) else Truncate(d, factor);
    assert q == x / p;
    DivBounds(q, x, p);
  }

  /** A whole number of units is exact. */
  lemma TruncateWhole(n: nat, factor: nat)
    ensures Truncate(Decimal(false, n, 0), factor) == n * factor
  {
    assert Pow(10, 0) == 1;
  }

  /** A written integer part, a dot and a fraction read as the decimal they denote. */
  lemma ParseDecimalOfParts(sign: string, whole: string, frac: string)
    requires sign == "" || sign == "+" || sign == "-"
    requires AllDigits(whole) && AllDigits(frac) && |whole| + |frac| > 0
    ensures ParseDecimal(sign + (whole + "." + frac))
         == Some(Decimal(sign == "-", DigitsValue(whole + frac), |frac|))
  {
    var u := whole + "." + frac;
    assert u[0] == if |whole| > 0 then whole[0] else '.';
    assert u[|u| - 1] == if |frac| > 0 then frac[|frac| - 1] else '.';
    SignedNumeral(sign, u);
    UnsignedDecimalOfParts(whole, frac);
    PartsNoSeparator(sign, whole, frac);
  }

  lemma PartsNoSeparator(sign: string, whole: string, frac: string)
    requires sign == "" || sign == "+" || sign == "-"
    requires AllDigits(whole) && AllDigits(frac)
    ensures NoSeparator(sign + (whole + "." + frac))
  {
    var u := whole + "." + frac;
    forall k | 0 <= k < |u| ensures IsDigit(u[k]) || u[k] == '.' {
      if k < |whole| {
        assert u[k] == whole[k];
      } else if k > |whole| {
        assert u[k] == frac[k - |whole| - 1];
      }
    }
    NumeralNoSeparator(sign, u);
  }

  lemma UnsignedDecimalOfParts(whole: string, frac: string)
    requires AllDigits(whole) && AllDigits(frac) && |whole| + |frac| > 0
    ensures UnsignedDecimal(whole + "." + frac) == Some((DigitsValue(whole + frac), |frac|))
  {
    var u := whole + "." + frac;
    DotIndexOf(whole, frac);
    assert u[..|whole|] == whole && u[|whole| + 1..] == frac;
  }

  /** A digit run, with an optional sign, read as the whole number it denotes. */
  lemma ParseDecimalOfWhole(sign: string, whole: string)
    requires sign == "" || sign == "+" || sign == "-"
    requires IsDigitString(whole)
    ensures ParseDecimal(sign + whole) == Some(Decimal(sign == "-", DigitsValue(whole), 0))
  {
    SignedNumeral(sign, whole);
    DotIndexNone(whole);
    NumeralNoSeparator(sign, whole);
  }

  lemma DotIndexOf(whole: string, frac: string)
    requires AllDigits(whole)
    ensures DotIndex(whole + "." + frac) == |whole|
  {
    var u := whole + "." + frac;
    var i := DotIndex(u);
    assert u[|whole|] == '.';
    assert i < |whole| ==> u[i] == whole[i] && IsDigit(u[i]);
  }

  lemma {:induction false} DotIndexNone(s: string)
    requires AllDigits(s)
    ensures DotIndex(s) == |s|
  {
    if |s| > 0 {
      assert IsDigit(s[0]);
      DotIndexNone(s[1..]);
    }
  }

  /** Quotient bounds of natural division. */
  lemma DivBounds(q: int, x: nat, p: nat)
    requires p > 0 && q == x / p
    ensures q >= 0 && q * p <= x < (q + 1) * p
  {
    var r := x % p;
    assert x == q * p + r;
    assert (q + 1) * p == q * p + p;
  }
}
