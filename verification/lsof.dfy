/**
  parse_lsof: the rows of `lsof +L1` output turned into records of files
  that are deleted (no links left, "(deleted)" in the name) and at least
  the minimum size. The first line is the column header and is skipped;
  rows that do not fit are skipped silently.
 */
module Lsof {
  import opened Outcomes
  import opened Text
  import opened Fields
  import opened Numerals

  /** The record kept for one row: its size, link count and the other columns as text. */
  datatype Entry = Entry(
    sizeB: int, command: string, pid: string, user: string, fd: string,
    fileType: string, device: string, nlink: int, node: string, name: string)

  /** The text lsof appends to the name of a file that has been unlinked. */
  const DeletedMarker: string := "(deleted)"

  /** COMMAND PID USER FD TYPE DEVICE SIZE/OFF NLINK NODE NAME. */
  const Columns: nat := 10

  /** What becomes of one row of the listing. */
  datatype Verdict =
    | Kept(entry: Entry)
    | TooFewColumns   // fewer than ten columns
    | NotAnInteger    // the size or the link count is not an integer
    | NotDeleted      // links remain, or the name lacks the marker
    | BelowThreshold  // smaller than the minimum size

  /** The record a row's ten columns make, when both numbers read. */
  function EntryOf(parts: seq<string>, sizeB: int, nlink: int): Entry
    requires |parts| == Columns
  {
    Entry(sizeB, parts[0], parts[1], parts[2], parts[3], parts[4], parts[5], nlink, parts[8], parts[9])
  }

  /** One pass of the loop body of parse_lsof. */
  function ParseLine(line: string, minBytes: int): Verdict
  {
    var parts := Split(line, Columns - 1);
    if |parts| < Columns then TooFewColumns
    else
      SplitAtMost(line, Columns - 1);
      match (ParseInt(parts[6]), ParseInt(parts[7]))
      case (Some(sizeB), Some(nlink)) =>
        if nlink != 0 || !Contains(parts[9], DeletedMarker) then NotDeleted
        else if sizeB < minBytes then BelowThreshold
        else Kept(EntryOf(parts, sizeB, nlink))
      case _ => NotAnInteger
  }

  /**
    A kept row has no links, carries the marker and is large enough, and its
    record holds the row's columns: the size column read as an integer, the
    rest as text.
   */
  lemma ParseLineSound(line: string, minBytes: int)
    ensures var r := ParseLine(line, minBytes);
      r.Kept? ==>
        && r.entry.nlink == 0 && Contains(r.entry.name, DeletedMarker) && r.entry.sizeB >= minBytes
        && var parts := Split(line, Columns - 1);
           && |parts| == Columns && ParseInt(parts[6]) == Some(r.entry.sizeB)
           && ParseInt(parts[7]) == Some(0)
           && r.entry == EntryOf(parts, r.entry.sizeB, 0)
    ensures var parts := Split(line, Columns - 1);
      |parts| == Columns && ParseInt(parts[6]).Some? && ParseInt(parts[7]) == Some(0)
      && Contains(parts[9], DeletedMarker) && ParseInt(parts[6]).value >= minBytes ==>
        ParseLine(line, minBytes) == Kept(EntryOf(parts, ParseInt(parts[6]).value, 0))
  {
    SplitAtMost(line, Columns - 1);
    ParseLineComplete(line, minBytes);
  }

  /**
    The second ensures of ParseLineSound, proved on its own only to keep each
    proof small: a row of ten columns that passes every test is kept.
   */
  lemma ParseLineComplete(line: string, minBytes: int)
    ensures var parts := Split(line, Columns - 1);
      |parts| == Columns && ParseInt(parts[6]).Some? && ParseInt(parts[7]) == Some(0)
      && Contains(parts[9], DeletedMarker) && ParseInt(parts[6]).value >= minBytes ==>
        ParseLine(line, minBytes) == Kept(EntryOf(parts, ParseInt(parts[6]).value, 0))
  {
    SplitAtMost(line, Columns - 1);
  }

  /** The records of the data rows, in the order of the rows. */
  function Collect(rows: seq<string>, minBytes: int): seq<Entry>
  {
    if rows == [] then []
    else
      var rest := Collect(rows[1..], minBytes);
      match ParseLine(rows[0], minBytes)
      case Kept(e) => [e] + rest
      case _ => rest
  }

  /** parse_lsof: nothing without a header and a row; otherwise the kept rows after the header. */
  function ParseLsof(lines: seq<string>, minBytes: int): (r: seq<Entry>)
    ensures |lines| < 2 ==> r == []
    ensures |lines| >= 1 ==> |r| <= |lines| - 1
    ensures forall e :: e in r ==>
      e.nlink == 0 && Contains(e.name, DeletedMarker) && e.sizeB >= minBytes
  {
    if |lines| < 2 then []
    else
      CollectBounds(lines[1..], minBytes);
      Collect(lines[1..], minBytes)
  }

  lemma {:induction false} CollectBounds(rows: seq<string>, minBytes: int)
    ensures |Collect(rows, minBytes)| <= |rows|
    ensures forall e :: e in Collect(rows, minBytes) ==>
      e.nlink == 0 && Contains(e.name, DeletedMarker) && e.sizeB >= minBytes
  {
    if rows != [] {
      ParseLineSound(rows[0], minBytes);
      CollectBounds(rows[1..], minBytes);
    }
  }

  /** Collecting is done row by row: the records of two stretches of rows follow each other. */
  lemma {:induction false} CollectAppend(a: seq<string>, b: seq<string>, minBytes: int)
    ensures Collect(a + b, minBytes) == Collect(a, minBytes) + Collect(b, minBytes)
  {
    if a != [] {
      assert (a + b)[1..] == a[1..] + b;
      CollectAppend(a[1..], b, minBytes);
    } else {
      assert a + b == b;
    }
  }

  /** A record is collected exactly when some row gives it. */
  lemma {:induction false} CollectMembers(rows: seq<string>, minBytes: int, e: Entry)
    ensures e in Collect(rows, minBytes) <==>
      exists i :: 0 <= i < |rows| && ParseLine(rows[i], minBytes) == Kept(e)
  {
    if rows != [] {
      CollectMembers(rows[1..], minBytes, e);
      if e in Collect(rows[1..], minBytes) {
        var i :| 0 <= i < |rows[1..]| && ParseLine(rows[1..][i], minBytes) == Kept(e);
        assert ParseLine(rows[i + 1], minBytes) == Kept(e);
      }
      if exists i :: 0 <= i < |rows| && ParseLine(rows[i], minBytes) == Kept(e) {
        var i :| 0 <= i < |rows| && ParseLine(rows[i], minBytes) == Kept(e);
        if i > 0 {
          assert ParseLine(rows[1..][i - 1], minBytes) == Kept(e);
        }
      }
    }
  }

  /** parse_lsof keeps a record exactly when some line after the header gives it. */
  lemma ParseLsofMembers(lines: seq<string>, minBytes: int, e: Entry)
    ensures e in ParseLsof(lines, minBytes) <==>
      exists i :: 1 <= i < |lines| && ParseLine(lines[i], minBytes) == Kept(e)
  {
    if |lines| >= 2 {
      CollectMembers(lines[1..], minBytes, e);
      if exists i :: 1 <= i < |lines| && ParseLine(lines[i], minBytes) == Kept(e) {
        var i :| 1 <= i < |lines| && ParseLine(lines[i], minBytes) == Kept(e);
        assert lines[1..][i - 1] == lines[i];
      }
      if exists i :: 0 <= i < |lines[1..]| && ParseLine(lines[1..][i], minBytes) == Kept(e) {
        var i :| 0 <= i < |lines[1..]| && ParseLine(lines[1..][i], minBytes) == Kept(e);
        assert lines[1..][i] == lines[i + 1];
      }
    }
  }

  /** The first line is never read: any header gives the same records. */
  lemma HeaderIgnored(header: string, other: string, rows: seq<string>, minBytes: int)
    ensures ParseLsof([header] + rows, minBytes) == ParseLsof([other] + rows, minBytes)
  {
    assert ([header] + rows)[1..] == rows;
    assert ([other] + rows)[1..] == rows;
  }

  /** Appending lines to the listing appends their records, in order. */
  lemma ParseLsofAppend(lines: seq<string>, more: seq<string>, minBytes: int)
    requires |lines| >= 1
    ensures ParseLsof(lines + more, minBytes) == ParseLsof(lines, minBytes) + Collect(more, minBytes)
  {
    assert (lines + more)[1..] == lines[1..] + more;
    CollectAppend(lines[1..], more, minBytes);
    if |lines| == 1 {
      assert lines[1..] == [];
      if |more| == 0 {
        assert lines + more == lines;
      }
    }
  }

  /** A column lsof prints as one word: non-empty, no whitespace. */
  predicate IsWord(w: string) {
    |w| > 0 && NoSpace(w)
  }

  /** A record whose columns can be printed as a row: one word each, and a name that does not start with whitespace. */
  predicate Printable(e: Entry) {
    && IsWord(e.command) && IsWord(e.pid) && IsWord(e.user) && IsWord(e.fd)
    && IsWord(e.fileType) && IsWord(e.device) && IsWord(e.node)
    && |e.name| > 0 && !IsSpace(e.name[0])
  }

  /** The ten columns lsof prints for a record, sizes written in decimal. */
  function RowColumns(e: Entry): (cols: seq<string>)
    ensures |cols| == Columns
  {
    [e.command, e.pid, e.user, e.fd, e.fileType, e.device,
     FormatInt(e.sizeB), FormatInt(e.nlink), e.node, e.name]
  }

  /** Gaps a row can be printed with: whitespace, and at least one character between columns. */
  predicate RowGaps(gaps: seq<string>) {
    && |gaps| == Columns
    && (forall k :: 0 <= k < |gaps| ==> AllSpace(gaps[k]))
    && (forall k :: 1 <= k < |gaps| ==> |gaps[k]| > 0)
  }

  /**
    A printed row is read back as the record it was printed from, whatever
    the spacing, and the filter then decides on that record: kept when it
    has no links, the marker and the minimum size.
   */
  lemma ParseLineOfRow(e: Entry, gaps: seq<string>, minBytes: int)
    requires Printable(e) && RowGaps(gaps)
    ensures var v := ParseLine(Unsplit(RowColumns(e), gaps), minBytes);
      && (e.nlink != 0 || !Contains(e.name, DeletedMarker) ==> v == NotDeleted)
      && (e.nlink == 0 && Contains(e.name, DeletedMarker) && e.sizeB < minBytes ==> v == BelowThreshold)
      && (e.nlink == 0 && Contains(e.name, DeletedMarker) && e.sizeB >= minBytes ==> v == Kept(e))
  {
    var cols := RowColumns(e);
    var line := Unsplit(cols, gaps);
    FormatIntWord(e.sizeB);
    FormatIntWord(e.nlink);
    RowLayout(cols, gaps, Columns - 1);
    SplitUnsplit(cols, gaps, [], Columns - 1);
    assert line + [] == line;
    ParseIntFormatInt(e.sizeB);
    ParseIntFormatInt(e.nlink);
    assert EntryOf(cols, e.sizeB, e.nlink) == e;
  }

  /** A number written in decimal is one word. */
  lemma FormatIntWord(i: int)
    ensures IsWord(FormatInt(i))
  {
    var n: nat := if i < 0 then -i else i;
    FormatNatRoundTrip(n);
    var s := FormatInt(i);
    forall k | 0 <= k < |s| ensures !IsSpace(s[k]) {
      if i < 0 && k > 0 {
        assert s[k] == FormatNat(n)[k - 1];
      }
    }
  }

  /** Words, then a last column, between whitespace gaps: a layout Split reads back. */
  lemma {:induction false} RowLayout(cols: seq<string>, gaps: seq<string>, n: nat)
    requires |cols| == |gaps| == n + 1
    requires forall k :: 0 <= k < n ==> IsWord(cols[k])
    requires |cols[n]| > 0 && !IsSpace(cols[n][0])
    requires forall k :: 0 <= k < |gaps| ==> AllSpace(gaps[k])
    requires forall k :: 1 <= k < |gaps| ==> |gaps[k]| > 0
    ensures Layout(cols, gaps, [], n)
    decreases n
  {
    if n > 0 {
      RowLayout(cols[1..], gaps[1..], n - 1);
    }
  }
}
