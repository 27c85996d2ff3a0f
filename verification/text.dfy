/**
  Character-level string helpers: the parts of Python's str.strip, str.upper,
  str.endswith and the `in` substring test that the tool relies on.
  Letters are ASCII only.
 */
module Text {

  /**
    The characters Python's str.isspace() accepts, which are the ones strip()
    and split() with no separator treat as whitespace.
   */
  predicate IsSpace(c: char) {
    || c == ' ' || '\t' <= c <= '\r' || '\U{1C}' <= c <= '\U{1F}'
    || c == '\U{85}' || c == '\U{A0}' || c == '\U{1680}' || '\U{2000}' <= c <= '\U{200A}'
    || c == '\U{2028}' || c == '\U{2029}' || c == '\U{202F}' || c == '\U{205F}' || c == '\U{3000}'
  }

  predicate AllSpace(s: string) {
    forall i :: 0 <= i < |s| ==> IsSpace(s[i])
  }

  predicate NoSpace(s: string) {
    forall i :: 0 <= i < |s| ==> !IsSpace(s[i])
  }

  /** Number of whitespace characters at the front of s. */
  function LeadingSpaces(s: string): (n: nat)
    ensures n <= |s|
    ensures AllSpace(s[..n])
    ensures n < |s| ==> !IsSpace(s[n])
  {
    if |s| > 0 && IsSpace(s[0]) then
      var m := LeadingSpaces(s[1..]);
      assert s[..1 + m] == [s[0]] + s[1..][..m];
      AllSpaceConcat([s[0]], s[1..][..m]);
      1 + m
    else 0
  }

  /** LeadingSpaces is the only length with the three properties above. */
  lemma LeadingSpacesUnique(s: string, k: nat)
    requires k <= |s| && AllSpace(s[..k])
    requires k < |s| ==> !IsSpace(s[k])
    ensures LeadingSpaces(s) == k
  {
    var n := LeadingSpaces(s);
    forall p | 0 <= p < k ensures IsSpace(s[p]) { assert s[..k][p] == s[p]; }
    forall p | 0 <= p < n ensures IsSpace(s[p]) { assert s[..n][p] == s[p]; }
  }

  /** Number of whitespace characters at the back of s. */
  function TrailingSpaces(s: string): (n: nat)
    ensures n <= |s|
    ensures AllSpace(s[|s| - n..])
    ensures n < |s| ==> !IsSpace(s[|s| - 1 - n])
  {
    if |s| > 0 && IsSpace(s[|s| - 1]) then
      var t := s[..|s| - 1];
      var m := TrailingSpaces(t);
      assert s[|s| - 1 - m..] == t[|t| - m..] + [s[|s| - 1]];
      AllSpaceConcat(t[|t| - m..], [s[|s| - 1]]);
      assert 1 + m < |s| ==> s[|s| - 2 - m] == t[|t| - 1 - m];
      1 + m
    else 0
  }

  /**
    s[i..j] is what stripping s leaves: everything outside it is whitespace and,
    unless it is empty, it starts and ends with a non-whitespace character.
   */
  predicate StripsTo(s: string, i: nat, j: nat) {
    && i <= j <= |s|
    && AllSpace(s[..i])
    && AllSpace(s[j..])
    && (i < j ==> !IsSpace(s[i]) && !IsSpace(s[j - 1]))
  }

  /** At most one slice of s is what stripping leaves. */
  lemma StripsToUnique(s: string, i: nat, j: nat, i': nat, j': nat)
    requires StripsTo(s, i, j) && StripsTo(s, i', j')
    ensures s[i..j] == s[i'..j']
  {
    SpaceOutside(s, i, j);
    SpaceOutside(s, i', j');
  }

  lemma SpaceOutside(s: string, i: nat, j: nat)
    requires StripsTo(s, i, j)
    ensures forall p :: 0 <= p < i ==> IsSpace(s[p])
    ensures forall p :: j <= p < |s| ==> IsSpace(s[p])
  {
    forall p | 0 <= p < i ensures IsSpace(s[p]) { assert s[..i][p] == s[p]; }
    forall p | j <= p < |s| ensures IsSpace(s[p]) { assert s[j..][p - j] == s[p]; }
  }

  /** The bounds of the slice left by stripping s. */
  function StripBounds(s: string): (b: (nat, nat))
    ensures StripsTo(s, b.0, b.1)
  {
    var i := LeadingSpaces(s);
    var t := TrailingSpaces(s[i..]);
    assert s[i + (|s| - i - t)..] == s[i..][|s[i..]| - t..];
    if i == |s| then (i, i)
    else
      assert s[i..][|s[i..]| - 1 - t] == s[|s| - t - 1];
      (i, |s| - t)
  }

  /** Python's s.strip(), over the whitespace of str.isspace(). */
  function Strip(s: string): (r: string)
    ensures |r| <= |s|
    ensures r == [] || (!IsSpace(r[0]) && !IsSpace(r[|r| - 1]))
  {
    var b := StripBounds(s);
    s[b.0..b.1]
  }

  /**
    Stripping leaves the slice of s outside of which everything is
    whitespace and which neither starts nor ends with whitespace.
   */
  lemma StripSlice(s: string)
    ensures exists i: nat, j: nat :: StripsTo(s, i, j) && Strip(s) == s[i..j]
  {
    var b := StripBounds(s);
    assert StripsTo(s, b.0, b.1) && Strip(s) == s[b.0..b.1];
  }

  /** Surrounding whitespace does not change what stripping leaves. */
  lemma StripPadded(lead: string, x: string, trail: string)
    requires AllSpace(lead) && AllSpace(trail)
    ensures Strip(lead + x + trail) == Strip(x)
  {
    var b := StripBounds(x);
    StripsToShift(lead, x, trail, b.0, b.1);
    StripMoved(lead + x + trail, x, |lead|, b.0, b.1);
  }

  /** Two texts whose stripped slices hold the same characters strip to the same text. */
  lemma StripMoved(s: string, x: string, off: nat, i: nat, j: nat)
    requires StripsTo(x, i, j) && StripsTo(s, off + i, off + j)
    requires s[off + i..off + j] == x[i..j]
    ensures Strip(s) == Strip(x)
  {
    calc {
      Strip(s);
      { StripIs(s, off + i, off + j); }
      s[off + i..off + j];
      x[i..j];
      { StripIs(x, i, j); }
      Strip(x);
    }
  }

  /** Stripping leaves the one slice StripsTo describes. */
  lemma StripIs(s: string, i: nat, j: nat)
    requires StripsTo(s, i, j)
    ensures Strip(s) == s[i..j]
  {
    var c := StripBounds(s);
    StripsToUnique(s, i, j, c.0, c.1);
  }

  /** Whitespace put around a text moves its stripped slice along with it. */
  lemma StripsToShift(lead: string, x: string, trail: string, i: nat, j: nat)
    requires AllSpace(lead) && AllSpace(trail) && StripsTo(x, i, j)
    ensures StripsTo(lead + x + trail, |lead| + i, |lead| + j)
    ensures (lead + x + trail)[|lead| + i..|lead| + j] == x[i..j]
  {
    var s := lead + x + trail;
    var i', j' := |lead| + i, |lead| + j;
    assert AllSpace(s[..i']) by {
      assert s[..i'] == lead + x[..i];
      AllSpaceConcat(lead, x[..i]);
    }
    assert AllSpace(s[j'..]) by {
      assert s[j'..] == x[j..] + trail;
      AllSpaceConcat(x[j..], trail);
    }
    assert s[i'..j'] == x[i..j];
    if i < j {
      assert s[i'] == x[i] && s[j' - 1] == x[j - 1];
    }
  }

  lemma AllSpaceConcat(a: string, b: string)
    requires AllSpace(a) && AllSpace(b)
    ensures AllSpace(a + b)
  {
  }

  /** Text without surrounding whitespace is left alone by stripping. */
  lemma StripUnpadded(s: string)
    requires s == [] || (!IsSpace(s[0]) && !IsSpace(s[|s| - 1]))
    ensures Strip(s) == s
  {
    assert s[..0] == [] && s[|s|..] == [] && s[0..|s|] == s;
    StripIs(s, 0, |s|);
  }

  /** Python's upper() on one character, ASCII letters only. */
  function UpperChar(c: char): char {
    if 'a' <= c <= 'z' then (c as int - 32) as char else c
  }

  /** Python's s.upper(), ASCII letters only. */
  function Upper(s: string): (r: string)
    ensures |r| == |s|
    ensures forall i :: 0 <= i < |s| ==> r[i] == UpperChar(s[i])
  {
    seq(|s|, i requires 0 <= i < |s| => UpperChar(s[i]))
  }

  /** Upper-casing touches no whitespace, so it commutes with stripping. */
  lemma UpperStrip(s: string)
    ensures Strip(Upper(s)) == Upper(Strip(s))
  {
    var b := StripBounds(s);
    UpperStripsTo(s, b.0, b.1);
    UpperSlice(s, b.0, b.1);
    var c := StripBounds(Upper(s));
    StripsToUnique(Upper(s), b.0, b.1, c.0, c.1);
  }

  lemma UpperStripsTo(s: string, i: nat, j: nat)
    requires StripsTo(s, i, j)
    ensures StripsTo(Upper(s), i, j)
  {
    var u := Upper(s);
    assert u[..i] == Upper(s[..i]);
    assert u[j..] == Upper(s[j..]);
  }

  lemma UpperSlice(s: string, i: nat, j: nat)
    requires i <= j <= |s|
    ensures Upper(s)[i..j] == Upper(s[i..j])
  {
  }

  /** Python's s.endswith(suffix). */
  predicate EndsWith(s: string, suffix: string) {
    |suffix| <= |s| && s[|s| - |suffix|..] == suffix
  }

  predicate IsPrefix(p: string, s: string) {
    |p| <= |s| && s[..|p|] == p
  }

  /** Python's `sub in s`. */
  predicate Contains(s: string, sub: string) {
    exists i :: 0 <= i <= |s| - |sub| && IsPrefix(sub, s[i..])
  }
}
