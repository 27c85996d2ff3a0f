/**
  Python's str.split(None, maxsplit): the splitter that turns one row of
  `lsof +L1` output into its columns.
 */
module Fields {
  import opened Text

  /** Length of the run of non-whitespace characters at the front of s. */
  function TokenLength(s: string): (n: nat)
    ensures n <= |s|
    ensures NoSpace(s[..n])
    ensures n < |s| ==> IsSpace(s[n])
  {
    if |s| > 0 && !IsSpace(s[0]) then
      var m := TokenLength(s[1..]);
      assert s[..1 + m] == [s[0]] + s[1..][..m];
      1 + m
    else 0
  }

  /** TokenLength is the only length with the three properties above. */
  lemma TokenLengthUnique(s: string, k: nat)
    requires k <= |s| && NoSpace(s[..k])
    requires k < |s| ==> IsSpace(s[k])
    ensures TokenLength(s) == k
  {
    var n := TokenLength(s);
    forall p | 0 <= p < k ensures !IsSpace(s[p]) { assert s[..k][p] == s[p]; }
    forall p | 0 <= p < n ensures !IsSpace(s[p]) { assert s[..n][p] == s[p]; }
  }

  /**
    Python's s.split(None, maxsplit): leading whitespace is skipped, then up to
    maxsplit whitespace-free words are cut off; whatever is left after that,
    minus its leading whitespace, is the last field, internal and trailing
    whitespace included.
   */
  function Split(s: string, maxsplit: nat): seq<string>
    decreases |s|
  {
    var t := s[LeadingSpaces(s)..];
    if |t| == 0 then []
    else if maxsplit == 0 then [t]
    else
      var n := TokenLength(t);
      [t[..n]] + Split(t[n..], maxsplit - 1)
  }

  /**
    The text of a row laid out as gaps[0] fields[0] gaps[1] fields[1] ...,
    the inverse direction of Split.
   */
  function Unsplit(fields: seq<string>, gaps: seq<string>): string
    requires |gaps| == |fields|
  {
    if fields == [] then [] else gaps[0] + fields[0] + Unsplit(fields[1..], gaps[1..])
  }

  /**
    A layout Split can recover: every field is non-empty and starts with a
    non-whitespace character, every gap is whitespace and every gap after the
    first is non-empty; while splits are left a field is one word, and the
    field reached with no splits left is the last one and takes the rest of
    the text, trailing whitespace included.
   */
  predicate Layout(fields: seq<string>, gaps: seq<string>, trail: string, maxsplit: nat)
    decreases |fields|
  {
    && |gaps| == |fields|
    && AllSpace(trail)
    && (fields != [] ==>
          && AllSpace(gaps[0])
          && |fields[0]| > 0 && !IsSpace(fields[0][0])
          && (if maxsplit == 0 then |fields| == 1 && trail == []
              else
                && NoSpace(fields[0])
                && (|fields| > 1 ==> |gaps[1]| > 0)
                && Layout(fields[1..], gaps[1..], trail, maxsplit - 1)))
  }

  /** Splitting a well-laid-out row gives back exactly its fields. */
  lemma {:induction false} SplitUnsplit(fields: seq<string>, gaps: seq<string>, trail: string, maxsplit: nat)
    requires Layout(fields, gaps, trail, maxsplit)
    ensures Split(Unsplit(fields, gaps) + trail, maxsplit) == fields
    decreases |fields|
  {
    if fields == [] {
      SplitBlank(trail, maxsplit);
    } else if maxsplit == 0 {
      SplitLayoutLast(fields, gaps, trail);
    } else {
      var rest := Unsplit(fields[1..], gaps[1..]) + trail;
      SplitLayoutStep(fields, gaps, trail, maxsplit);
      SplitUnsplit(fields[1..], gaps[1..], trail, maxsplit - 1);
      calc {
        Split(Unsplit(fields, gaps) + trail, maxsplit);
        [fields[0]] + Split(rest, maxsplit - 1);
        [fields[0]] + fields[1..];
        fields;
      }
    }
  }

  /**
    Every text is a layout of the fields Split returns: the fields, put back
    between the whitespace Split skipped, give the text again. With
    SplitUnsplit this makes Split the one way of reading a row as a layout.
   */
  lemma SplitShape(s: string, maxsplit: nat) returns (gaps: seq<string>, trail: string)
    ensures Layout(Split(s, maxsplit), gaps, trail, maxsplit)
    ensures Unsplit(Split(s, maxsplit), gaps) + trail == s
  {
    var fields;
    fields, gaps, trail := LayoutOf(s, maxsplit);
    SplitUnsplit(fields, gaps, trail, maxsplit);
  }

  /** Split makes at most maxsplit cuts, so at most maxsplit + 1 fields. */
  lemma {:induction false} SplitAtMost(s: string, maxsplit: nat)
    ensures |Split(s, maxsplit)| <= maxsplit + 1
    decreases |s|
  {
    var t := s[LeadingSpaces(s)..];
    if |t| > 0 && maxsplit > 0 {
      SplitAtMost(t[TokenLength(t)..], maxsplit - 1);
    }
  }

  /** Splitting whitespace alone gives no fields. */
  lemma SplitBlank(s: string, maxsplit: nat)
    requires AllSpace(s)
    ensures Split(s, maxsplit) == []
  {
    LeadingSpacesUnique(s, |s|);
  }

  /** With no splits left, the field is the text after its leading gap. */
  lemma SplitRemainder(gap: string, field: string)
    requires AllSpace(gap) && |field| > 0 && !IsSpace(field[0])
    ensures Split(gap + field, 0) == [field]
  {
    var s := gap + field;
    assert s[..|gap|] == gap;
    LeadingSpacesUnique(s, |gap|);
    assert s[|gap|..] == field;
  }

  /** One split cuts off the first word and carries on with what follows it. */
  lemma SplitWord(gap: string, word: string, rest: string, maxsplit: nat)
    requires AllSpace(gap) && |word| > 0 && !IsSpace(word[0]) && NoSpace(word)
    requires rest == [] || IsSpace(rest[0])
    requires maxsplit > 0
    ensures Split(gap + word + rest, maxsplit) == [word] + Split(rest, maxsplit - 1)
  {
    var s := gap + word + rest;
    assert s[..|gap|] == gap;
    LeadingSpacesUnique(s, |gap|);
    var t := s[|gap|..];
    assert t == word + rest;
    assert t[..|word|] == word;
    TokenLengthUnique(t, |word|);
    assert t[|word|..] == rest;
  }

  /** A layout whose first gap is non-empty starts with whitespace. */
  lemma UnsplitStartsWithSpace(fields: seq<string>, gaps: seq<string>, trail: string)
    requires |gaps| == |fields| > 0 && |gaps[0]| > 0 && AllSpace(gaps[0])
    ensures IsSpace((Unsplit(fields, gaps) + trail)[0])
  {
    assert (Unsplit(fields, gaps) + trail)[0] == gaps[0][0];
  }

  /** Splitting a layout with splits left cuts off its first field. */
  lemma SplitLayoutStep(fields: seq<string>, gaps: seq<string>, trail: string, maxsplit: nat)
    requires Layout(fields, gaps, trail, maxsplit) && |fields| > 0 && maxsplit > 0
    ensures Split(Unsplit(fields, gaps) + trail, maxsplit)
         == [fields[0]] + Split(Unsplit(fields[1..], gaps[1..]) + trail, maxsplit - 1)
  {
    var rest := Unsplit(fields[1..], gaps[1..]) + trail;
    assert Unsplit(fields, gaps) + trail == gaps[0] + fields[0] + rest;
    if |fields| > 1 {
      UnsplitStartsWithSpace(fields[1..], gaps[1..], trail);
    }
    SplitWord(gaps[0], fields[0], rest, maxsplit);
  }

  /** Splitting a layout with no splits left gives its one field. */
  lemma SplitLayoutLast(fields: seq<string>, gaps: seq<string>, trail: string)
    requires Layout(fields, gaps, trail, 0) && |fields| > 0
    ensures Split(Unsplit(fields, gaps) + trail, 0) == fields
  {
    assert fields[1..] == [];
    assert Unsplit(fields, gaps) + trail == gaps[0] + fields[0];
    SplitRemainder(gaps[0], fields[0]);
  }

  /** Every text can be laid out as fields and gaps. */
  lemma {:induction false} LayoutOf(s: string, maxsplit: nat) returns (fields: seq<string>, gaps: seq<string>, trail: string)
    ensures Layout(fields, gaps, trail, maxsplit)
    ensures Unsplit(fields, gaps) + trail == s
    decreases |s|
  {
    var l := LeadingSpaces(s);
    var t := s[l..];
    if |t| == 0 {
      assert s[..l] == s;
      fields, gaps, trail := [], [], s;
    } else if maxsplit == 0 {
      fields, gaps, trail := [t], [s[..l]], [];
      UnsplitOne(t, s[..l]);
      assert s == s[..l] + t;
    } else {
      var n := TokenLength(t);
      var gap, word, rest := s[..l], t[..n], t[n..];
      Cut(s, l, n);
      assert word[0] == t[0];
      var fs, gs, tr := LayoutOf(rest, maxsplit - 1);
      LayoutOfCons(s, maxsplit, gap, word, rest, fs, gs, tr);
      fields, gaps, trail := [word] + fs, [gap] + gs, tr;
    }
  }

  /** The inductive step of LayoutOf, stated over the pieces of the text. */
  lemma LayoutOfCons(s: string, maxsplit: nat, gap: string, word: string, rest: string,
                     fs: seq<string>, gs: seq<string>, tr: string)
    requires s == gap + word + rest && maxsplit > 0
    requires AllSpace(gap) && |word| > 0 && !IsSpace(word[0]) && NoSpace(word)
    requires rest == [] || IsSpace(rest[0])
    requires Layout(fs, gs, tr, maxsplit - 1) && Unsplit(fs, gs) + tr == rest
    ensures Layout([word] + fs, [gap] + gs, tr, maxsplit)
    ensures Unsplit([word] + fs, [gap] + gs) + tr == s
  {
    if |fs| > 0 {
      assert Unsplit(fs, gs) == gs[0] + fs[0] + Unsplit(fs[1..], gs[1..]);
    }
    LayoutCons(word, gap, fs, gs, tr, maxsplit);
    UnsplitCons(word, gap, fs, gs);
    Regroup(gap, word, Unsplit(fs, gs), tr);
  }

  /** A word and a gap put in front of a layout with one split fewer. */
  lemma LayoutCons(word: string, gap: string, fs: seq<string>, gs: seq<string>, trail: string, maxsplit: nat)
    requires AllSpace(gap) && |word| > 0 && !IsSpace(word[0]) && NoSpace(word)
    requires maxsplit > 0 && Layout(fs, gs, trail, maxsplit - 1)
    requires |fs| > 0 ==> |gs[0]| > 0
    ensures Layout([word] + fs, [gap] + gs, trail, maxsplit)
  {
    assert ([word] + fs)[1..] == fs;
    assert ([gap] + gs)[1..] == gs;
  }

  lemma UnsplitOne(field: string, gap: string)
    ensures Unsplit([field], [gap]) == gap + field
  {
    var fields: seq<string> := [field];
    assert fields[1..] == [];
  }

  lemma UnsplitCons(field: string, gap: string, fields: seq<string>, gaps: seq<string>)
    requires |fields| == |gaps|
    ensures Unsplit([field] + fields, [gap] + gaps) == gap + field + Unsplit(fields, gaps)
  {
    assert ([field] + fields)[1..] == fields;
    assert ([gap] + gaps)[1..] == gaps;
  }

  lemma Regroup(a: string, b: string, c: string, d: string)
    ensures a + b + c + d == a + b + (c + d)
  {
  }

  lemma Cut(s: string, l: nat, n: nat)
    requires l + n <= |s|
    ensures s == s[..l] + s[l..][..n] + s[l..][n..]
  {
    assert s == s[..l] + s[l..];
    assert s[l..] == s[l..][..n] + s[l..][n..];
  }
}
