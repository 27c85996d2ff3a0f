/**
  The listing main prints: the kept records ordered by size, largest first,
  with Python's stable sort (records of equal size keep their order), or
  the "no deleted-but-open files" message when there are none.
 */
module Report {
  import opened Outcomes
  import opened SizeParse
  import opened Lsof

  /** Every record is at least as large as every record after it. */
  predicate SortedBySizeDesc(es: seq<Entry>) {
    forall i, j :: 0 <= i < j < |es| ==> es[i].sizeB >= es[j].sizeB
  }

  /** The records of one size, in their order in es. */
  function WithSize(es: seq<Entry>, v: int): seq<Entry>
  {
    if es == [] then []
    else (if es[0].sizeB == v then [es[0]] else []) + WithSize(es[1..], v)
  }

  lemma {:induction false} WithSizeAppend(a: seq<Entry>, b: seq<Entry>, v: int)
    ensures WithSize(a + b, v) == WithSize(a, v) + WithSize(b, v)
  {
    if a != [] {
      assert (a + b)[1..] == a[1..] + b;
      WithSizeAppend(a[1..], b, v);
    } else {
      assert a + b == b;
    }
  }

  lemma {:induction false} WithSizeMembers(es: seq<Entry>, v: int)
    ensures forall e :: e in WithSize(es, v) <==> e in es && e.sizeB == v
  {
    if es != [] {
      WithSizeMembers(es[1..], v);
    }
  }

  /** No record of the size, no records in WithSize. */
  lemma {:induction false} WithSizeNone(es: seq<Entry>, v: int)
    requires forall x :: x in es ==> x.sizeB != v
    ensures WithSize(es, v) == []
  {
    if es != [] {
      WithSizeNone(es[1..], v);
    }
  }

  /**
    Put e into a sorted list after every record at least as large, so that
    it comes after the records of its size already there.
   */
  function Insert(e: Entry, sorted: seq<Entry>): seq<Entry>
  {
    if sorted == [] then [e]
    else if sorted[0].sizeB < e.sizeB then [e] + sorted
    else [sorted[0]] + Insert(e, sorted[1..])
  }

  /** Insert adds e and loses nothing. */
  lemma {:induction false} InsertCount(e: Entry, sorted: seq<Entry>)
    ensures multiset(Insert(e, sorted)) == multiset(sorted) + multiset{e}
  {
    if sorted != [] && sorted[0].sizeB >= e.sizeB {
      InsertCount(e, sorted[1..]);
      assert sorted == [sorted[0]] + sorted[1..];
    }
  }

  /** The first record after an insertion: e, or the old first record. */
  lemma InsertFirst(e: Entry, sorted: seq<Entry>)
    ensures Insert(e, sorted)[0] == if sorted == [] || sorted[0].sizeB < e.sizeB then e else sorted[0]
  {
  }

  /** Insert keeps a list sorted largest first. */
  lemma {:induction false} InsertSorted(e: Entry, sorted: seq<Entry>)
    requires SortedBySizeDesc(sorted)
    ensures SortedBySizeDesc(Insert(e, sorted))
  {
    if sorted != [] && sorted[0].sizeB >= e.sizeB {
      var tail := Insert(e, sorted[1..]);
      InsertSorted(e, sorted[1..]);
      InsertFirst(e, sorted[1..]);
      var r := [sorted[0]] + tail;
      forall i, j | 0 <= i < j < |r| ensures r[i].sizeB >= r[j].sizeB {
        if i == 0 {
          assert tail[0].sizeB <= sorted[0].sizeB;
          assert r[j] == tail[j - 1];
        } else {
          assert r[i] == tail[i - 1] && r[j] == tail[j - 1];
        }
      }
    }
  }

  /** Insert puts e after the records of its size and moves no other record of any size. */
  lemma {:induction false} InsertStable(e: Entry, sorted: seq<Entry>, v: int)
    requires SortedBySizeDesc(sorted)
    ensures WithSize(Insert(e, sorted), v) == WithSize(sorted, v) + WithSize([e], v)
  {
    if sorted == [] {
      assert [e] == [] + [e];
    } else if sorted[0].sizeB < e.sizeB {
      WithSizeAppend([e], sorted, v);
      if v == e.sizeB {
        WithSizeNone(sorted, v);
      } else {
        assert WithSize([e], v) == [];
      }
    } else {
      InsertStable(e, sorted[1..], v);
      WithSizeAppend([sorted[0]], Insert(e, sorted[1..]), v);
      WithSizeAppend([sorted[0]], sorted[1..], v);
      assert sorted == [sorted[0]] + sorted[1..];
    }
  }

  /**
    entries.sort(key=size, reverse=True): largest first; records of equal
    size keep the order they had, as Python's sort guarantees.
   */
  function SortBySizeDesc(es: seq<Entry>): (r: seq<Entry>)
    ensures multiset(r) == multiset(es)
    ensures SortedBySizeDesc(r)
    ensures forall v :: WithSize(r, v) == WithSize(es, v)
  {
    if es == [] then []
    else
      var init, last := es[..|es| - 1], es[|es| - 1];
      var sorted := SortBySizeDesc(init);
      SortStep(es, init, last, sorted);
      Insert(last, sorted)
  }

  /** The step of SortBySizeDesc: insert the last record into the sorted rest. */
  lemma SortStep(es: seq<Entry>, init: seq<Entry>, last: Entry, sorted: seq<Entry>)
    requires es == init + [last]
    requires multiset(sorted) == multiset(init) && SortedBySizeDesc(sorted)
    requires forall v :: WithSize(sorted, v) == WithSize(init, v)
    ensures multiset(Insert(last, sorted)) == multiset(es)
    ensures SortedBySizeDesc(Insert(last, sorted))
    ensures forall v :: WithSize(Insert(last, sorted), v) == WithSize(es, v)
  {
    InsertCount(last, sorted);
    InsertSorted(last, sorted);
    forall v ensures WithSize(Insert(last, sorted), v) == WithSize(es, v) {
      InsertStable(last, sorted, v);
      WithSizeAppend(init, [last], v);
    }
  }

  /**
    There is only one stable sort by size: two size-descending lists that
    hold the same records of each size in the same order are equal. So any
    stable sort, Python's among them, gives what SortBySizeDesc gives.
   */
  lemma {:induction false} StableSortUnique(a: seq<Entry>, b: seq<Entry>)
    requires SortedBySizeDesc(a) && SortedBySizeDesc(b)
    requires forall v :: WithSize(a, v) == WithSize(b, v)
    ensures a == b
    decreases |a|
  {
    NonEmptyWitness(a);
    NonEmptyWitness(b);
    if a != [] && b != [] {
      SameHead(a, b);
      TailsAgree(a, b);
      StableSortUnique(a[1..], b[1..]);
      assert a == [a[0]] + a[1..] && b == [b[0]] + b[1..];
    }
  }

  /** A non-empty list has records of its first record's size. */
  lemma NonEmptyWitness(es: seq<Entry>)
    ensures es != [] ==> WithSize(es, es[0].sizeB) != []
  {
  }

  /** Two stable sorts of the same records start with the same record. */
  lemma SameHead(a: seq<Entry>, b: seq<Entry>)
    requires a != [] && b != [] && SortedBySizeDesc(a) && SortedBySizeDesc(b)
    requires forall v :: WithSize(a, v) == WithSize(b, v)
    ensures a[0] == b[0]
  {
    var v, w := a[0].sizeB, b[0].sizeB;
    WithSizeMembers(a, w);
    WithSizeMembers(b, v);
    assert b[0] in WithSize(b, w);
    assert a[0] in WithSize(a, v);
    var i :| 0 <= i < |a| && a[i] == b[0];
    var j :| 0 <= j < |b| && b[j] == a[0];
    assert v >= a[i].sizeB && w >= b[j].sizeB;
    assert WithSize(a, v)[0] == a[0] && WithSize(b, v)[0] == b[0];
  }

  /** With equal heads, the rests are sorted and agree size by size. */
  lemma TailsAgree(a: seq<Entry>, b: seq<Entry>)
    requires a != [] && b != [] && a[0] == b[0]
    requires SortedBySizeDesc(a) && SortedBySizeDesc(b)
    requires forall v :: WithSize(a, v) == WithSize(b, v)
    ensures SortedBySizeDesc(a[1..]) && SortedBySizeDesc(b[1..])
    ensures forall u :: WithSize(a[1..], u) == WithSize(b[1..], u)
  {
    forall u ensures WithSize(a[1..], u) == WithSize(b[1..], u) {
      DropHead(a, b, u);
    }
  }

  /** With equal heads, the rests agree at one size. */
  lemma DropHead(a: seq<Entry>, b: seq<Entry>, u: int)
    requires a != [] && b != [] && a[0] == b[0]
    requires WithSize(a, u) == WithSize(b, u)
    ensures WithSize(a[1..], u) == WithSize(b[1..], u)
  {
    var p := if a[0].sizeB == u then [a[0]] else [];
    assert WithSize(a, u) == p + WithSize(a[1..], u);
    assert WithSize(b, u) == p + WithSize(b[1..], u);
    assert WithSize(a[1..], u) == WithSize(a, u)[|p|..];
    assert WithSize(b[1..], u) == WithSize(b, u)[|p|..];
  }

  /** What the tool prints: the no-match message, or the rows largest first. */
  datatype Listing = NoMatches | Rows(rows: seq<Entry>)

  /** main after the size has been read: parse the listing, then sort the kept records. */
  function Report(lines: seq<string>, minBytes: int): (r: Listing)
    ensures r.NoMatches? <==> forall i :: 1 <= i < |lines| ==> !ParseLine(lines[i], minBytes).Kept?
    ensures r.Rows? ==> SortedBySizeDesc(r.rows) && |r.rows| > 0
    ensures r.Rows? ==> multiset(r.rows) == multiset(ParseLsof(lines, minBytes))
    ensures r.Rows? ==> forall v :: WithSize(r.rows, v) == WithSize(ParseLsof(lines, minBytes), v)
  {
    var es := ParseLsof(lines, minBytes);
    NoneKept(lines, minBytes);
    if es == [] then NoMatches else Rows(SortBySizeDesc(es))
  }

  /** parse_lsof returns nothing exactly when no line after the header is kept. */
  lemma NoneKept(lines: seq<string>, minBytes: int)
    ensures ParseLsof(lines, minBytes) == [] <==>
      forall i :: 1 <= i < |lines| ==> !ParseLine(lines[i], minBytes).Kept?
  {
    var es := ParseLsof(lines, minBytes);
    if es != [] {
      ParseLsofMembers(lines, minBytes, es[0]);
    }
    forall i | 1 <= i < |lines| && ParseLine(lines[i], minBytes).Kept?
      ensures es != []
    {
      ParseLsofMembers(lines, minBytes, ParseLine(lines[i], minBytes).entry);
    }
  }

  /**
    The tool end to end, from the --minsize text and the lines lsof printed:
    the size error that stops it, or the listing. The size is read with the
    corrected parse_size.
   */
  function Run(minsize: string, lines: seq<string>): (r: Result<Listing, SizeError>)
    ensures r.Err? <==> ParseSizeIntended(minsize).Err?
    ensures r.Ok? && r.value.Rows? ==> forall e :: e in r.value.rows ==>
      e.sizeB >= ParseSizeIntended(minsize).value && e.nlink == 0
    ensures r.Ok? ==> var m := ParseSizeIntended(minsize).value;
      && (r.value.NoMatches? <==> forall i :: 1 <= i < |lines| ==> !ParseLine(lines[i], m).Kept?)
      && (r.value.Rows? ==>
            && SortedBySizeDesc(r.value.rows)
            && multiset(r.value.rows) == multiset(ParseLsof(lines, m))
            && forall v :: WithSize(r.value.rows, v) == WithSize(ParseLsof(lines, m), v))
  {
    match ParseSizeIntended(minsize)
    case Err(e) => Err(e)
    case Ok(minBytes) =>
      var listing := Report(lines, minBytes);
      assert listing.Rows? ==> forall e :: e in listing.rows ==> e in multiset(ParseLsof(lines, minBytes));
      Ok(listing)
  }
}
