/**
  parse_size: the --minsize argument ("500G", "2.5T", "1048576") turned into
  a byte count. The text is stripped and upper-cased, then the unit table is
  walked in order "", K, M, G, T and the first entry that applies converts it.
 */
module SizeParse {
  import opened Outcomes
  import opened Text
  import opened Numerals

  /**
    Why a size was refused: no table entry applied ("Invalid size: …"), or
    an entry applied but float() refused the number in front of the unit.
   */
  datatype SizeError = InvalidSize(text: string) | NotANumber(text: string)

  /** The unit table, in its iteration order: suffix and bytes per unit. */
  const Units: seq<(string, nat)> :=
    [("", 1), ("K", 1024), ("M", 1048576), ("G", 1073741824), ("T", 1099511627776)]

  /**
    How the bare entry (empty suffix) decides that the text is a plain byte
    count: AllButLast is the tool's test, that everything except the last
    character is digits; WholeText is the test that the whole text is digits.
   */
  datatype BareRule = AllButLast | WholeText

  predicate BareMatches(s: string, rule: BareRule) {
    match rule
    case AllButLast => |s| > 0 && IsDigitString(s[..|s| - 1])
    case WholeText => IsDigitString(s)
  }

  /** Whether the table entry with this suffix applies to s. */
  predicate EntryMatches(s: string, suffix: string, rule: BareRule) {
    EndsWith(s, suffix) && (|suffix| > 0 || BareMatches(s, rule))
  }

  /** int(float(num) * factor), or the error float() raises. */
  function Scaled(num: string, factor: nat): Result<int, SizeError>
  {
    match ParseDecimal(num)
    case None => Err(NotANumber(num))
    case Some(d) => Ok(Truncate(d, factor))
  }

  /** The first table entry, from entry i on, that applies to s. */
  function FirstEntry(s: string, i: nat, rule: BareRule): (r: Option<nat>)
    requires i <= |Units|
    ensures r.Some? ==> i <= r.value < |Units| && EntryMatches(s, Units[r.value].0, rule)
    decreases |Units| - i
  {
    if i == |Units| then None
    else if EntryMatches(s, Units[i].0, rule) then Some(i)
    else FirstEntry(s, i + 1, rule)
  }

  /**
    The walk honours the table order: the entry it picks is the first that
    applies, and it picks none exactly when no entry from i on applies.
   */
  lemma {:induction false} FirstEntryIsFirst(s: string, i: nat, rule: BareRule)
    requires i <= |Units|
    ensures var r := FirstEntry(s, i, rule);
      && (r.Some? ==> i <= r.value < |Units| && EntryMatches(s, Units[r.value].0, rule))
      && (r.Some? ==> forall k :: i <= k < r.value ==> !EntryMatches(s, Units[k].0, rule))
      && (r.None? ==> forall k :: i <= k < |Units| ==> !EntryMatches(s, Units[k].0, rule))
    decreases |Units| - i
  {
    if i < |Units| && !EntryMatches(s, Units[i].0, rule) {
      FirstEntryIsFirst(s, i + 1, rule);
    }
  }

  /**
    The table walk: the text float() is given and the factor of the first
    entry that applies, or None when none does.
   */
  function Dispatch(s: string, rule: BareRule): Option<(string, nat)>
  {
    match FirstEntry(s, 0, rule)
    case None => None
    case Some(i) => Some((s[..|s| - |Units[i].0|], Units[i].1))
  }

  /** The outcome of the walk: the converted number, or "Invalid size" when no entry applied. */
  function Convert(s: string, choice: Option<(string, nat)>): Result<int, SizeError>
  {
    match choice
    case None => Err(InvalidSize(s))
    case Some((num, factor)) => Scaled(num, factor)
  }

  /** Bytes per unit for a unit letter: the factor of the table entry whose suffix it is. */
  function UnitFactor(c: char): Option<nat> {
    match c
    case 'K' => Some(Units[1].1)
    case 'M' => Some(Units[2].1)
    case 'G' => Some(Units[3].1)
    case 'T' => Some(Units[4].1)
    case _ => None
  }

  /** The units are the powers of 1024, K to T the first to the fourth. */
  lemma UnitPowers()
    ensures UnitFactor('K') == Some(Pow(1024, 1))
    ensures UnitFactor('M') == Some(Pow(1024, 2))
    ensures UnitFactor('G') == Some(Pow(1024, 3))
    ensures UnitFactor('T') == Some(Pow(1024, 4))
  {
    assert Pow(1024, 1) == 1024;
    assert Pow(1024, 2) == 1048576;
    assert Pow(1024, 3) == 1073741824;
  }

  /** The text parse_size actually looks at. */
  function Normalize(text: string): string {
    Upper(Strip(text))
  }

  /** The last character of s is the one-letter suffix c. */
  lemma EndsWithLetter(s: string, c: char)
    ensures EndsWith(s, [c]) <==> |s| > 0 && s[|s| - 1] == c
  {
    if |s| > 0 {
      assert s[|s| - 1..] == [s[|s| - 1]];
    }
  }

  /** The unit entries, K to T, are tried in turn when the bare entry does not apply. */
  lemma FirstEntryUnits(s: string, rule: BareRule)
    requires !BareMatches(s, rule)
    ensures FirstEntry(s, 0, rule) == FirstEntry(s, 1, rule)
    ensures FirstEntry(s, 1, rule) ==
      if |s| == 0 then None
      else match s[|s| - 1]
        case 'K' => Some(1) case 'M' => Some(2) case 'G' => Some(3) case 'T' => Some(4)
        case _ => None
  {
    EndsWithLetter(s, 'K');
    EndsWithLetter(s, 'M');
    EndsWithLetter(s, 'G');
    EndsWithLetter(s, 'T');
  }

  /** The table walk converts with the first entry that applies. */
  lemma DispatchAt(s: string, rule: BareRule, i: nat)
    requires i < |Units| && FirstEntry(s, 0, rule) == Some(i)
    ensures Dispatch(s, rule) == Some((s[..|s| - |Units[i].0|], Units[i].1))
  {
  }

  /** The bare entry, when it applies, converts the whole text as bytes. */
  lemma DispatchBare(s: string, rule: BareRule)
    requires BareMatches(s, rule)
    ensures Dispatch(s, rule) == Some((s, 1))
  {
    assert Units[0] == ("", 1);
    assert EndsWith(s, "") by { assert s[|s| - 0..] == []; }
    assert FirstEntry(s, 0, rule) == Some(0);
    DispatchAt(s, rule, 0);
    assert s[..|s| - 0] == s;
  }

  /** Otherwise a unit letter at the end converts the text before it, in that unit. */
  lemma DispatchUnit(s: string, rule: BareRule)
    requires !BareMatches(s, rule) && |s| > 0 && UnitFactor(s[|s| - 1]).Some?
    ensures Dispatch(s, rule) == Some((s[..|s| - 1], UnitFactor(s[|s| - 1]).value))
  {
    FirstEntryUnits(s, rule);
    var i := FirstEntry(s, 0, rule).value;
    assert |Units[i].0| == 1 && Units[i].1 == UnitFactor(s[|s| - 1]).value;
    DispatchAt(s, rule, i);
  }

  /** Otherwise no entry applies and the text is an invalid size. */
  lemma DispatchInvalid(s: string, rule: BareRule)
    requires !BareMatches(s, rule) && (|s| == 0 || UnitFactor(s[|s| - 1]).None?)
    ensures Dispatch(s, rule) == None
  {
    FirstEntryUnits(s, rule);
  }

  /** parse_size as the tool has it: strip, upper-case, walk the table. */
  function ParseSize(text: string): Result<int, SizeError>
  {
    var s := Normalize(text);
    Convert(s, Dispatch(s, AllButLast))
  }

  /**
    parse_size read as a decision on the normalised text: when everything
    but the last character is digits the bare entry converts the whole text,
    unit letter included; otherwise a final unit letter scales the number
    before it; otherwise the size is invalid.
   */
  lemma ParseSizeCases(text: string)
    ensures var s, r := Normalize(text), ParseSize(text);
      && (BareMatches(s, AllButLast) ==> r == Scaled(s, 1))
      && (!BareMatches(s, AllButLast) && |s| > 0 && UnitFactor(s[|s| - 1]).Some? ==>
            r == Scaled(s[..|s| - 1], UnitFactor(s[|s| - 1]).value))
      && (!BareMatches(s, AllButLast) && (|s| == 0 || UnitFactor(s[|s| - 1]).None?) ==>
            r == Err(InvalidSize(s)))
  {
    var s := Normalize(text);
    if BareMatches(s, AllButLast) {
      DispatchBare(s, AllButLast);
    } else if |s| > 0 && UnitFactor(s[|s| - 1]).Some? {
      DispatchUnit(s, AllButLast);
    } else {
      DispatchInvalid(s, AllButLast);
    }
  }

  /**
    parse_size as its help text and default ("500G", "100M", "2T") intend:
    the bare entry takes only a text made of digits.
   */
  function ParseSizeIntended(text: string): Result<int, SizeError>
  {
    var s := Normalize(text);
    Convert(s, Dispatch(s, WholeText))
  }

  /**
    The corrected parse_size as a decision: digits alone are a byte count;
    otherwise a final unit letter scales the number before it; otherwise the
    size is invalid.
   */
  lemma ParseSizeIntendedCases(text: string)
    ensures var s, r := Normalize(text), ParseSizeIntended(text);
      && (IsDigitString(s) ==> r == Ok(DigitsValue(s)))
      && (!IsDigitString(s) && |s| > 0 && UnitFactor(s[|s| - 1]).Some? ==>
            r == Scaled(s[..|s| - 1], UnitFactor(s[|s| - 1]).value))
      && (!IsDigitString(s) && (|s| == 0 || UnitFactor(s[|s| - 1]).None?) ==>
            r == Err(InvalidSize(s)))
  {
    var s := Normalize(text);
    if IsDigitString(s) {
      DispatchBare(s, WholeText);
      ScaledBytes(s);
    } else if |s| > 0 && UnitFactor(s[|s| - 1]).Some? {
      DispatchUnit(s, WholeText);
    } else {
      DispatchInvalid(s, WholeText);
    }
  }

  /** A digit run taken as bytes is the number it denotes. */
  lemma ScaledBytes(s: string)
    requires IsDigitString(s)
    ensures Scaled(s, 1) == Ok(DigitsValue(s))
  {
    assert "" + s == s;
    ParseDecimalOfWhole("", s);
    TruncateWhole(DigitsValue(s), 1);
  }

  /** A digit run taken in a unit is the number it denotes times the unit. */
  lemma ScaledUnits(s: string, factor: nat)
    requires IsDigitString(s)
    ensures Scaled(s, factor) == Ok(DigitsValue(s) * factor)
  {
    assert "" + s == s;
    ParseDecimalOfWhole("", s);
    TruncateWhole(DigitsValue(s), factor);
  }

  /** The text is normalised the same way whatever its case. */
  lemma NormalizeCase(a: string, b: string)
    requires Upper(a) == Upper(b)
    ensures Normalize(a) == Normalize(b)
  {
    UpperStrip(a);
    UpperStrip(b);
  }

  /** parse_size ignores surrounding whitespace and the case of letters. */
  lemma ParseSizeIgnoresPaddingAndCase(lead: string, text: string, trail: string, variant: string)
    requires AllSpace(lead) && AllSpace(trail) && Upper(variant) == Upper(text)
    ensures ParseSize(lead + variant + trail) == ParseSize(text)
    ensures ParseSizeIntended(lead + variant + trail) == ParseSizeIntended(text)
  {
    StripPadded(lead, variant, trail);
    NormalizeCase(variant, text);
  }

  /** A text with no whitespace around it and no lower-case letter is its own normal form. */
  lemma NormalizeFixed(s: string)
    requires s == [] || (!IsSpace(s[0]) && !IsSpace(s[|s| - 1]))
    requires forall i :: 0 <= i < |s| ==> !('a' <= s[i] <= 'z')
    ensures Normalize(s) == s
  {
    StripUnpadded(s);
  }

  /** Digits and a unit letter form a text that is its own normal form. */
  lemma NormalizeAmount(digits: string, unit: char)
    requires IsDigitString(digits) && UnitFactor(unit).Some?
    ensures var s := digits + [unit];
      Normalize(s) == s && s[..|s| - 1] == digits && s[|s| - 1] == unit
  {
    var s := digits + [unit];
    assert s[0] == digits[0] && s[|s| - 1] == unit && s[..|s| - 1] == digits;
    NormalizeFixed(s);
  }

  /**
    The corrected parse_size reads digits and a unit letter as the number
    times the unit: K, M, G, T are 1024 to the power 1, 2, 3, 4.
   */
  lemma ParseSizeIntendedScales(digits: string, unit: char)
    requires IsDigitString(digits) && UnitFactor(unit).Some?
    ensures ParseSizeIntended(digits + [unit]) == Ok(DigitsValue(digits) * UnitFactor(unit).value)
  {
    var s := digits + [unit];
    NormalizeAmount(digits, unit);
    assert !IsDigit(s[|s| - 1]);
    DispatchUnit(s, WholeText);
    ScaledUnits(digits, UnitFactor(unit).value);
  }

  /** The corrected parse_size reads a plain byte count as itself, a single digit included. */
  lemma ParseSizeIntendedBytes(digits: string)
    requires IsDigitString(digits)
    ensures ParseSizeIntended(digits) == Ok(DigitsValue(digits))
  {
    NormalizeFixed(digits);
    DispatchBare(digits, WholeText);
    ScaledBytes(digits);
  }

  /**
    As written, parse_size refuses every whole number followed by a unit
    letter, the default "500G" among them: the bare entry claims it and
    float() then fails on the unit letter.
   */
  lemma ParseSizeRejectsUnitSuffix(digits: string, unit: char)
    requires IsDigitString(digits) && UnitFactor(unit).Some?
    ensures ParseSize(digits + [unit]) == Err(NotANumber(digits + [unit]))
  {
    var s := digits + [unit];
    NormalizeAmount(digits, unit);
    DispatchBare(s, AllButLast);
    NotANumberAtEnd(s);
  }

  /** float() refuses a text that ends in a letter. */
  lemma NotANumberAtEnd(s: string)
    requires |s| > 0 && UnitFactor(s[|s| - 1]).Some? && Strip(s) == s
    ensures Scaled(s, 1) == Err(NotANumber(s))
  {
    ParseDecimalAccepts(s);
    assert !(IsDigit(s[|s| - 1]) || s[|s| - 1] == '.' || IsSign(s[|s| - 1]));
  }

  /** As written, parse_size refuses a byte count of a single digit as an invalid size. */
  lemma ParseSizeRejectsOneDigit(c: char)
    requires IsDigit(c)
    ensures ParseSize([c]) == Err(InvalidSize([c]))
  {
    OneDigitFixed(c);
    OneDigitUnmatched(c);
  }

  lemma OneDigitFixed(c: char)
    requires IsDigit(c)
    ensures Normalize([c]) == [c]
  {
    NormalizeFixed([c]);
  }

  /** No entry of the table as written applies to a single digit. */
  lemma OneDigitUnmatched(c: char)
    requires IsDigit(c)
    ensures Dispatch([c], AllButLast) == None
  {
    var s := [c];
    assert !BareMatches(s, AllButLast) by { assert s[..0] == []; }
    DispatchInvalid(s, AllButLast);
  }

  /** The default --minsize, as written and as intended. */
  lemma DefaultMinSize(minsize: string)
    requires minsize == "500G"
    ensures ParseSize(minsize) == Err(NotANumber(minsize))
    ensures ParseSizeIntended(minsize) == Ok(536870912000)
  {
    var digits := ['5', '0', '0'];
    assert digits + ['G'] == minsize;
    ParseSizeRejectsUnitSuffix(digits, 'G');
    DefaultMinSizeIntended(digits, minsize);
  }

  lemma DefaultMinSizeIntended(digits: string, minsize: string)
    requires digits == ['5', '0', '0'] && minsize == digits + ['G']
    ensures ParseSizeIntended(minsize) == Ok(536870912000)
  {
    DigitsValueOfThree('5', '0', '0');
    IntendedAmount(digits, 'G', minsize, 500, 1073741824);
  }

  /** ParseSizeIntendedScales with the number and the factor named. */
  lemma IntendedAmount(digits: string, unit: char, text: string, n: nat, factor: nat)
    requires IsDigitString(digits) && DigitsValue(digits) == n
    requires UnitFactor(unit) == Some(factor) && text == digits + [unit]
    ensures ParseSizeIntended(text) == Ok(n * factor)
  {
    ParseSizeIntendedScales(digits, unit);
  }

  lemma DigitsValueOfThree(a: char, b: char, c: char)
    requires IsDigit(a) && IsDigit(b) && IsDigit(c)
    ensures DigitsValue([a, b, c]) == DigitValue(a) * 100 + DigitValue(b) * 10 + DigitValue(c)
  {
    assert [a, b, c][..2] == [a, b];
    assert [a, b][..1] == [a];
    assert [a][..0] == [];
    assert DigitsValue([a]) == DigitValue(a);
    assert DigitsValue([a, b]) == DigitValue(a) * 10 + DigitValue(b);
  }

  /**
    A fractional amount of a unit ("2.5G"), which both readings accept: the
    exact amount times the unit, truncated to whole bytes.
   */
  lemma ParseSizeFraction(whole: string, frac: string, unit: char)
    requires AllDigits(whole) && AllDigits(frac) && |whole| + |frac| > 0 && UnitFactor(unit).Some?
    ensures var r := Ok(Truncate(Decimal(false, DigitsValue(whole + frac), |frac|), UnitFactor(unit).value));
      && ParseSize(whole + "." + frac + [unit]) == r
      && ParseSizeIntended(whole + "." + frac + [unit]) == r
  {
    NormalizeFraction(whole, frac, unit);
    FractionDispatch(whole, frac, unit, AllButLast);
    FractionDispatch(whole, frac, unit, WholeText);
    ScaledFraction(whole, frac, UnitFactor(unit).value);
  }

  /** Neither bare-entry test takes a text with a dot in it: the unit letter decides. */
  lemma FractionDispatch(whole: string, frac: string, unit: char, rule: BareRule)
    requires UnitFactor(unit).Some?
    ensures Dispatch(whole + "." + frac + [unit], rule)
         == Some((whole + "." + frac, UnitFactor(unit).value))
  {
    var num := whole + "." + frac;
    var s := num + [unit];
    assert s[..|s| - 1] == num && s[|s| - 1] == unit;
    assert s[|whole|] == num[|whole|] == '.';
    assert !BareMatches(s, rule) by {
      assert !IsDigit(s[|whole|]) && !IsDigit(num[|whole|]);
    }
    DispatchUnit(s, rule);
  }

  lemma ScaledFraction(whole: string, frac: string, factor: nat)
    requires AllDigits(whole) && AllDigits(frac) && |whole| + |frac| > 0
    ensures Scaled(whole + "." + frac, factor)
         == Ok(Truncate(Decimal(false, DigitsValue(whole + frac), |frac|), factor))
  {
    assert "" + (whole + "." + frac) == whole + "." + frac;
    ParseDecimalOfParts("", whole, frac);
  }

  lemma NormalizeFraction(whole: string, frac: string, unit: char)
    requires AllDigits(whole) && AllDigits(frac) && UnitFactor(unit).Some?
    ensures Normalize(whole + "." + frac + [unit]) == whole + "." + frac + [unit]
  {
    var s := whole + "." + frac + [unit];
    assert s[0] == if |whole| > 0 then whole[0] else '.';
    assert s[|s| - 1] == unit;
    forall i | 0 <= i < |s| ensures !('a' <= s[i] <= 'z') {
      if i < |whole| {
        assert s[i] == whole[i];
      } else if |whole| < i < |s| - 1 {
        assert s[i] == frac[i - |whole| - 1];
      }
    }
    NormalizeFixed(s);
  }

  /**
    The corrected parse_size gives the same answer as the written one on
    every text whose bare-entry tests agree; they disagree only on digits
    followed by one more character, and on a single digit.
   */
  lemma IntendedAgrees(text: string)
    requires var s := Normalize(text); BareMatches(s, AllButLast) == BareMatches(s, WholeText)
    ensures ParseSizeIntended(text) == ParseSize(text)
  {
    var s := Normalize(text);
    if BareMatches(s, WholeText) {
      DispatchBare(s, AllButLast);
      DispatchBare(s, WholeText);
    } else if |s| > 0 && UnitFactor(s[|s| - 1]).Some? {
      DispatchUnit(s, AllButLast);
      DispatchUnit(s, WholeText);
    } else {
      DispatchInvalid(s, AllButLast);
      DispatchInvalid(s, WholeText);
    }
  }
}
