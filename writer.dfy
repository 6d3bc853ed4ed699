// The item selection of generate_rss_xml: the list is sorted in place by
// publication date, latest first (a stable sort: entries with the same date
// keep their order), cut to the first `maxItems`, and every entry becomes an
// output record with a journal-prefixed title (unless it was read back from
// the previous output) and sanitised text fields.

module Writer {
  import opened PyText
  import opened Feed
  import opened XmlText

  /** Latest first: pubDate never increases along the list. */
  predicate SortedDesc(s: seq<Entry>)
  {
    forall i, j :: 0 <= i < j < |s| ==> s[i].pubDate >= s[j].pubDate
  }

  /** The entries with publication date `k`, in the order of `s`. */
  function WithDate(s: seq<Entry>, k: int): seq<Entry>
  {
    if s == [] then []
    else (if s[0].pubDate == k then [s[0]] else []) + WithDate(s[1..], k)
  }

  /** Places `x` in a latest-first list after every entry at least as late as
      it, so that it follows the entries with the same date. */
  function Insert(x: Entry, s: seq<Entry>): (r: seq<Entry>)
    ensures |r| == |s| + 1
  {
    if s == [] then [x]
    else if s[0].pubDate < x.pubDate then [x] + s
    else [s[0]] + Insert(x, s[1..])
  }

  /** `sorted(s, key=pub_date, reverse=True)`: each entry, in input order, is
      inserted after all entries at least as late as it. */
  function SortDesc(s: seq<Entry>): (r: seq<Entry>)
    ensures |r| == |s|
  {
    if s == [] then [] else Insert(s[|s| - 1], SortDesc(s[..|s| - 1]))
  }

  /** Insert adds `x` and keeps everything else. */
  lemma {:induction false} InsertPerm(x: Entry, s: seq<Entry>)
    ensures multiset(Insert(x, s)) == multiset(s) + multiset{x}
    decreases |s|
  {
    if s != [] && s[0].pubDate >= x.pubDate {
      InsertPerm(x, s[1..]);
      assert s == [s[0]] + s[1..];
    }
  }

  /** Every entry of Insert(x, s) is as early as some entry of s or as x. */
  lemma {:induction false} InsertBounded(x: Entry, s: seq<Entry>, v: int)
    requires x.pubDate <= v
    requires forall i :: 0 <= i < |s| ==> s[i].pubDate <= v
    ensures forall i :: 0 <= i < |Insert(x, s)| ==> Insert(x, s)[i].pubDate <= v
    decreases |s|
  {
    if s != [] && s[0].pubDate >= x.pubDate {
      InsertBounded(x, s[1..], v);
      assert Insert(x, s) == [s[0]] + Insert(x, s[1..]);
    }
  }

  /** Insert keeps a latest-first list latest first. */
  lemma {:induction false} InsertSorted(x: Entry, s: seq<Entry>)
    requires SortedDesc(s)
    ensures SortedDesc(Insert(x, s))
    decreases |s|
  {
    if s != [] && s[0].pubDate >= x.pubDate {
      var t := Insert(x, s[1..]);
      InsertSorted(x, s[1..]);
      InsertBounded(x, s[1..], s[0].pubDate);
      assert Insert(x, s) == [s[0]] + t;
      ConsSorted(s[0], t);
    }
  }

  lemma ConsSorted(h: Entry, t: seq<Entry>)
    requires SortedDesc(t)
    requires forall i :: 0 <= i < |t| ==> t[i].pubDate <= h.pubDate
    ensures SortedDesc([h] + t)
  {
    var r := [h] + t;
    forall i, j | 0 <= i < j < |r|
      ensures r[i].pubDate >= r[j].pubDate
    {
      assert r[j] == t[j - 1];
      if i > 0 {
        assert r[i] == t[i - 1];
      }
    }
  }

  /** The sort is latest first. */
  lemma {:induction false} SortDescSorted(s: seq<Entry>)
    ensures SortedDesc(SortDesc(s))
    decreases |s|
  {
    if s != [] {
      var p := s[..|s| - 1];
      SortDescSorted(p);
      InsertSorted(s[|s| - 1], SortDesc(p));
    }
  }

  /** The sort keeps every entry, as often as it occurs. */
  lemma {:induction false} SortDescPerm(s: seq<Entry>)
    ensures multiset(SortDesc(s)) == multiset(s)
    decreases |s|
  {
    if s != [] {
      var p := s[..|s| - 1];
      SortDescPerm(p);
      InsertPerm(s[|s| - 1], SortDesc(p));
      assert s == p + [s[|s| - 1]];
    }
  }

  lemma {:induction false} WithDateAppend(a: seq<Entry>, b: seq<Entry>, k: int)
    ensures WithDate(a + b, k) == WithDate(a, k) + WithDate(b, k)
    decreases |a|
  {
    if a == [] {
      assert a + b == b;
    } else {
      var ab := a + b;
      assert ab[0] == a[0] && ab[1..] == a[1..] + b;
      WithDateAppend(a[1..], b, k);
    }
  }

  /** No entry of a latest-first list whose first entry is earlier than `k`
      has date `k`. */
  lemma {:induction false} WithDateEarlier(s: seq<Entry>, k: int)
    requires SortedDesc(s) && s != [] && s[0].pubDate < k
    ensures WithDate(s, k) == []
    decreases |s|
  {
    if |s| > 1 {
      assert s[1].pubDate <= s[0].pubDate;
      WithDateEarlier(s[1..], k);
    }
  }

  /** Inserting `x` adds it behind the entries that already have its date. */
  lemma {:induction false} InsertStable(x: Entry, s: seq<Entry>, k: int)
    requires SortedDesc(s)
    ensures WithDate(Insert(x, s), k) == WithDate(s, k) + (if x.pubDate == k then [x] else [])
    decreases |s|
  {
    if s == [] {
    } else if s[0].pubDate < x.pubDate {
      if x.pubDate == k {
        WithDateEarlier(s, k);
      }
      assert Insert(x, s) == [x] + s;
      assert ([x] + s)[1..] == s;
    } else {
      InsertStable(x, s[1..], k);
      assert Insert(x, s)[1..] == Insert(x, s[1..]);
    }
  }

  /** The sort is stable: the entries with any one date keep their input order. */
  lemma {:induction false} SortDescStable(s: seq<Entry>, k: int)
    ensures WithDate(SortDesc(s), k) == WithDate(s, k)
    decreases |s|
  {
    if s != [] {
      var p, x := s[..|s| - 1], s[|s| - 1];
      SortDescStable(p, k);
      SortDescSorted(p);
      StableStep(p, SortDesc(p), x, k);
      assert s == p + [x];
    }
  }

  lemma StableStep(p: seq<Entry>, sp: seq<Entry>, x: Entry, k: int)
    requires SortedDesc(sp) && WithDate(sp, k) == WithDate(p, k)
    ensures WithDate(Insert(x, sp), k) == WithDate(p + [x], k)
  {
    InsertStable(x, sp, k);
    WithDateAppend(p, [x], k);
    assert [x][1..] == [];
  }

  /** In a latest-first list, `x` goes at the first position whose entry is
      earlier than it. */
  lemma {:induction false} InsertAt(x: Entry, s: seq<Entry>, j: nat)
    requires j <= |s|
    requires forall i :: 0 <= i < j ==> s[i].pubDate >= x.pubDate
    requires j < |s| ==> s[j].pubDate < x.pubDate
    ensures Insert(x, s) == s[..j] + [x] + s[j..]
    decreases j
  {
    if j == 0 {
      assert s[..0] + [x] + s[0..] == [x] + s;
    } else {
      InsertAt(x, s[1..], j - 1);
      assert s[..j] == [s[0]] + s[1..][..j - 1];
      assert s[j..] == s[1..][j - 1..];
    }
  }

  /** `items.sort(key=lambda x: x['pub_date'], reverse=True)`, in place: an
      insertion sort that moves each entry left past the entries earlier than it. */
  method SortByPubDateDesc(a: array<Entry>)
    modifies a
    ensures a[..] == SortDesc(old(a[..]))
  {
    ghost var input := a[..];
    var i := 0;
    while i < a.Length
      invariant 0 <= i <= a.Length
      invariant a[..i] == SortDesc(input[..i])
      invariant a[i..] == input[i..]
    {
      SortDescSorted(input[..i]);
      assert input[..i + 1] == input[..i] + [input[i]];
      InsertNext(a, i);
      i := i + 1;
    }
    assert input[..a.Length] == input;
  }

  /** One step of the insertion sort: `a[i]` moves left into the latest-first
      prefix `a[..i]`; the rest of the array is untouched. */
  method InsertNext(a: array<Entry>, i: nat)
    requires i < a.Length && SortedDesc(a[..i])
    modifies a
    ensures a[..i + 1] == Insert(old(a[i]), old(a[..i]))
    ensures a[i + 1..] == old(a[i + 1..])
  {
    ghost var sorted := a[..i];
    var x := a[i];
    var j := i;
    while j > 0 && a[j - 1].pubDate < x.pubDate
      invariant 0 <= j <= i
      invariant forall k :: 0 <= k < j ==> a[k] == sorted[k]
      invariant forall k :: j < k <= i ==> a[k] == sorted[k - 1]
      invariant forall k :: i < k < a.Length ==> a[k] == old(a[k])
      invariant forall k :: j <= k < i ==> sorted[k].pubDate < x.pubDate
    {
      a[j] := a[j - 1];
      j := j - 1;
    }
    a[j] := x;
    ShiftedIsInsert(a[..i + 1], sorted, x, j);
    assert a[i + 1..] == old(a[i + 1..]);
  }

  /** The array prefix the insertion step leaves behind is Insert's result. */
  lemma ShiftedIsInsert(t: seq<Entry>, sorted: seq<Entry>, x: Entry, j: nat)
    requires SortedDesc(sorted) && j <= |sorted| && |t| == |sorted| + 1
    requires forall k :: 0 <= k < j ==> t[k] == sorted[k]
    requires t[j] == x
    requires forall k :: j < k < |t| ==> t[k] == sorted[k - 1]
    requires j > 0 ==> sorted[j - 1].pubDate >= x.pubDate
    requires forall k :: j <= k < |sorted| ==> sorted[k].pubDate < x.pubDate
    ensures t == Insert(x, sorted)
  {
    InsertAt(x, sorted, j);
    assert t == sorted[..j] + [x] + sorted[j..];
  }

  /** `items[:max_items]` after the sort: the latest `maxItems` entries. */
  function Select(items: seq<Entry>, maxItems: nat): (sel: seq<Entry>)
    ensures |sel| == if |items| <= maxItems then |items| else maxItems
  {
    var sorted := SortDesc(items);
    if |sorted| <= maxItems then sorted else sorted[..maxItems]
  }

  /** The selection is the first min(|items|, maxItems) entries of the stable
      latest-first sort, so it is latest first, and no entry left out is later
      than one kept; together with the ones left out it is a permutation of
      the input. */
  lemma SelectSpec(items: seq<Entry>, maxItems: nat)
    ensures var sel := Select(items, maxItems);
      && |sel| == (if |items| <= maxItems then |items| else maxItems)
      && sel == SortDesc(items)[..|sel|]
      && SortedDesc(sel)
      && (forall i, j :: 0 <= i < |sel| <= j < |items| ==> SortDesc(items)[j].pubDate <= sel[i].pubDate)
      && multiset(sel) + multiset(SortDesc(items)[|sel|..]) == multiset(items)
  {
    var sorted := SortDesc(items);
    var sel := Select(items, maxItems);
    SortDescSorted(items);
    SortDescPerm(items);
    assert sorted == sel + sorted[|sel|..];
  }

  /** The selection holds only entries of the input. */
  lemma SelectMembers(items: seq<Entry>, maxItems: nat)
    ensures forall e :: e in Select(items, maxItems) ==> e in items
  {
    var sel := Select(items, maxItems);
    SelectSpec(items, maxItems);
    var dropped := SortDesc(items)[|sel|..];
    assert multiset(sel) + multiset(dropped) == multiset(items);
    forall e | e in sel
      ensures e in items
    {
      assert e in multiset(sel);
      assert e in multiset(items);
    }
  }

  lemma SelectIsPrefix(items: seq<Entry>, sorted: seq<Entry>, maxItems: nat, n: nat)
    requires sorted == SortDesc(items)
    requires n == if |items| <= maxItems then |items| else maxItems
    ensures sorted[..n] == Select(items, maxItems)
  {
  }

  /** Truncation keeps the order of entries with the same date: those kept are
      the first ones of that date in input order (all of them when nothing is
      cut). */
  lemma SelectStable(items: seq<Entry>, maxItems: nat, k: int)
    ensures WithDate(Select(items, maxItems), k) <= WithDate(items, k)
    ensures |items| <= maxItems ==> WithDate(Select(items, maxItems), k) == WithDate(items, k)
  {
    var sorted := SortDesc(items);
    var sel := Select(items, maxItems);
    SortDescStable(items, k);
    assert sorted == sel + sorted[|sel|..];
    WithDateAppend(sel, sorted[|sel|..], k);
  }

  /** An output record: rfeed's Item with the fields the script fills in. */
  datatype RssItem = RssItem(
    title: string,
    link: string,
    description: string,
    author: string,
    guid: string,
    pubDate: int)

  /** The title before sanitising: "[journal] title" for a fetched entry, the
      title as it is for one read back from the previous output. */
  function DisplayTitle(e: Entry): (t: string)
    ensures e.isOld ==> t == e.title
    ensures !e.isOld ==> |t| == |e.journal| + |e.title| + 3 && t[0] == '[' && t[|t| - |e.title|..] == e.title
  {
    if e.isOld then e.title else "[" + (e.journal + ("] " + e.title))
  }

  /** The record built for one entry in the loop of generate_rss_xml. */
  function RenderItem(e: Entry): (r: RssItem)
    ensures r.link == e.link && r.guid == e.id && r.pubDate == e.pubDate
  {
    RssItem(
      RemoveIllegalXmlChars(Some(DisplayTitle(e))),
      e.link,
      RemoveIllegalXmlChars(Some(e.summary)),
      RemoveIllegalXmlChars(Some(e.journal)),
      e.id,
      e.pubDate)
  }

  /** A fetched entry's title is its sanitised journal in brackets, a space and
      its sanitised title; an old entry's is its sanitised title. The text
      fields are the sanitised summary and journal. */
  lemma RenderItemFields(e: Entry)
    ensures !e.isOld ==> RenderItem(e).title == "[" + (DropIllegal(e.journal) + ("] " + DropIllegal(e.title)))
    ensures e.isOld ==> RenderItem(e).title == DropIllegal(e.title)
    ensures RenderItem(e).description == DropIllegal(e.summary)
    ensures RenderItem(e).author == DropIllegal(e.journal)
    ensures NoIllegalChars(RenderItem(e).title)
    ensures NoIllegalChars(RenderItem(e).description) && NoIllegalChars(RenderItem(e).author)
  {
    if !e.isOld {
      var open, close := "[", "] ";
      assert NoIllegalChars(open) && NoIllegalChars(close);
      DropIllegalFramed(open, e.journal, close, e.title);
    }
  }

  /** How get_existing_items reads an output record back as an old entry: the
      description becomes the summary, the author the journal, the guid the id. */
  function ReadBack(item: RssItem): (e: Entry)
    ensures e.isOld
  {
    Entry(item.title, item.link, item.description, item.author, item.guid, item.pubDate, true)
  }

  /** The loop of get_existing_items: every record of the previous output
      becomes an old entry, in order. */
  function ReadBackAll(items: seq<RssItem>): (r: seq<Entry>)
    ensures |r| == |items|
    ensures forall i :: 0 <= i < |items| ==> r[i] == ReadBack(items[i])
    ensures forall e :: e in r ==> e.isOld
  {
    if items == [] then [] else [ReadBack(items[0])] + ReadBackAll(items[1..])
  }

  /** On the next run, a record read back renders to the same record: the
      journal prefix is not added twice and sanitising again changes nothing. */
  lemma RenderReadBack(e: Entry)
    ensures RenderItem(ReadBack(RenderItem(e))) == RenderItem(e)
  {
    var r := RenderItem(e);
    DropIllegalKeepsLegal(r.title);
    DropIllegalKeepsLegal(r.description);
    DropIllegalKeepsLegal(r.author);
  }

  /** The records for a list of entries, in order. */
  function RenderAll(s: seq<Entry>): (r: seq<RssItem>)
    ensures |r| == |s|
  {
    if s == [] then [] else [RenderItem(s[0])] + RenderAll(s[1..])
  }

  lemma {:induction false} RenderAllAt(s: seq<Entry>)
    ensures forall i :: 0 <= i < |s| ==> RenderAll(s)[i] == RenderItem(s[i])
    decreases |s|
  {
    if s != [] {
      RenderAllAt(s[1..]);
    }
  }

  /** generate_rss_xml up to the construction of the feed: sorts `items` in
      place, keeps the first `maxItems` and returns their records in order. */
  method GenerateItems(items: array<Entry>, maxItems: nat) returns (rssItems: seq<RssItem>)
    modifies items
    ensures items[..] == SortDesc(old(items[..]))
    ensures rssItems == RenderAll(Select(old(items[..]), maxItems))
  {
    ghost var input := items[..];
    SortByPubDateDesc(items);
    var n := if items.Length <= maxItems then items.Length else maxItems;
    var selected := items[..n];
    SelectIsPrefix(input, items[..], maxItems, n);
    RenderAllAt(selected);
    rssItems := [];
    var i := 0;
    while i < |selected|
      invariant 0 <= i <= |selected|
      invariant |rssItems| == i
      invariant forall k :: 0 <= k < i ==> rssItems[k] == RenderItem(selected[k])
    {
      rssItems := rssItems + [RenderItem(selected[i])];
      i := i + 1;
    }
  }
}
