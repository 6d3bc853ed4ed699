// main: read both configurations, stop when either is empty, merge the old
// entries with the matching fetched ones, and produce the output records.
// What the environment, the files, the previous output and the network
// supply is passed in: `previous` is the list of records get_existing_items
// read back, and `fetch` gives the entries parse_rss builds for a URL.

module Pipeline {
  import opened PyText
  import opened Feed
  import opened XmlText
  import opened Config
  import opened Query
  import opened Aggregate
  import opened Writer

  /** The entries parse_rss returns. Its dictionaries have no 'is_old' key, so
      generate_rss_xml reads every fetched entry as new, whatever `es` says. */
  function MarkFetched(es: seq<Entry>): (r: seq<Entry>)
    ensures |r| == |es|
    ensures forall i :: 0 <= i < |es| ==> !r[i].isOld && r[i].(isOld := es[i].isOld) == es[i]
  {
    seq(|es|, i requires 0 <= i < |es| => es[i].(isOld := false))
  }

  /** What parse_rss returns for each configured URL, in order. */
  function FetchAll(urls: seq<string>, fetch: string -> seq<Entry>): (feeds: seq<seq<Entry>>)
    ensures |feeds| == |urls|
    ensures forall i :: 0 <= i < |urls| ==> feeds[i] == MarkFetched(fetch(urls[i]))
  {
    if urls == [] then [] else [MarkFetched(fetch(urls[0]))] + FetchAll(urls[1..], fetch)
  }

  /** No entry that came from a feed is old. */
  lemma FetchedAreNew(urls: seq<string>, fetch: string -> seq<Entry>)
    ensures forall e :: e in Flatten(FetchAll(urls, fetch)) ==> !e.isOld
  {
    var feeds := FetchAll(urls, fetch);
    forall e | e in Flatten(feeds)
      ensures !e.isOld
    {
      FlattenMembership(feeds, e);
      var f :| 0 <= f < |feeds| && e in feeds[f];
      var i :| 0 <= i < |feeds[f]| && feeds[f][i] == e;
    }
  }

  /** main: None when either configuration is empty (the error exit), otherwise
      the records written to the output file. */
  method Run(journalsEnv: Option<string>, journalsFile: Option<seq<string>>,
             keywordsEnv: Option<string>, keywordsFile: Option<seq<string>>,
             previous: seq<RssItem>, fetch: string -> seq<Entry>, maxItems: nat)
    returns (out: Option<seq<RssItem>>)
    ensures var urls := LoadConfig(journalsEnv, journalsFile);
      var queries := LoadConfig(keywordsEnv, keywordsFile);
      && (out.None? <==> urls == [] || queries == [])
      && (out.Some? ==>
            out.value == RenderAll(Output(ReadBackAll(previous), urls, queries, fetch, maxItems)))
  {
    var rssUrls := LoadConfig(journalsEnv, journalsFile);
    var queries := LoadConfig(keywordsEnv, keywordsFile);
    if rssUrls == [] || queries == [] {
      return None;
    }
    var existing := ReadBackAll(previous);
    var all, newCount := AggregateFeeds(existing, FetchAll(rssUrls, fetch), queries);
    var items := new Entry[|all|](i requires 0 <= i < |all| => all[i]);
    assert items[..] == all;
    var rssItems := GenerateItems(items, maxItems);
    return Some(rssItems);
  }

  /** The entries whose records main writes: the latest `maxItems` of the old
      entries and the matching new ones. */
  function Output(existing: seq<Entry>, urls: seq<string>, queries: seq<string>,
                  fetch: string -> seq<Entry>, maxItems: nat): (sel: seq<Entry>)
    ensures |sel| <= maxItems
  {
    SelectSpec(Merge(existing, Flatten(FetchAll(urls, fetch)), Matcher(queries)), maxItems);
    Select(Merge(existing, Flatten(FetchAll(urls, fetch)), Matcher(queries)), maxItems)
  }

  /** What each written record is: an old entry keeps its sanitised title, and
      a fetched entry (one that matches the queries) gets its journal in
      brackets in front. Nothing else is written. */
  lemma OutputTitles(previous: seq<RssItem>, urls: seq<string>, queries: seq<string>,
                     fetch: string -> seq<Entry>, maxItems: nat)
    ensures var sel := Output(ReadBackAll(previous), urls, queries, fetch, maxItems);
      forall i :: 0 <= i < |sel| ==>
        && (sel[i].isOld ==>
              sel[i] in ReadBackAll(previous)
              && RenderAll(sel)[i].title == DropIllegal(sel[i].title))
        && (!sel[i].isOld ==>
              sel[i] in Flatten(FetchAll(urls, fetch)) && Matches(sel[i], queries)
              && RenderAll(sel)[i].title == "[" + (DropIllegal(sel[i].journal) + ("] " + DropIllegal(sel[i].title))))
  {
    var existing := ReadBackAll(previous);
    var fetched := Flatten(FetchAll(urls, fetch));
    var sel := Output(existing, urls, queries, fetch, maxItems);
    assert sel == Select(Merge(existing, fetched, Matcher(queries)), maxItems);
    FetchedAreNew(urls, fetch);
    SelectedOrigin(existing, fetched, Matcher(queries), maxItems);
    forall i | 0 <= i < |sel| && !sel[i].isOld
      ensures Matches(sel[i], queries)
    {
      assert Matcher(queries)(sel[i]);
    }
  }

  /** With old entries marked old and fetched ones not, each selected entry's
      record says where it came from. */
  lemma SelectedOrigin(existing: seq<Entry>, fetched: seq<Entry>, isMatch: Entry -> bool, maxItems: nat)
    requires forall e :: e in existing ==> e.isOld
    requires forall e :: e in fetched ==> !e.isOld
    ensures var sel := Select(Merge(existing, fetched, isMatch), maxItems);
      forall i :: 0 <= i < |sel| ==>
        && (sel[i].isOld ==> sel[i] in existing && RenderAll(sel)[i].title == DropIllegal(sel[i].title))
        && (!sel[i].isOld ==>
              sel[i] in fetched && isMatch(sel[i])
              && RenderAll(sel)[i].title == "[" + (DropIllegal(sel[i].journal) + ("] " + DropIllegal(sel[i].title))))
  {
    var merged := Merge(existing, fetched, isMatch);
    var sel := Select(merged, maxItems);
    MergeOrigin(existing, fetched, isMatch);
    SelectMembers(merged, maxItems);
    RenderAllAt(sel);
    forall i | 0 <= i < |sel|
      ensures sel[i].isOld ==> sel[i] in existing && RenderAll(sel)[i].title == DropIllegal(sel[i].title)
      ensures !sel[i].isOld ==>
        sel[i] in fetched && isMatch(sel[i])
        && RenderAll(sel)[i].title == "[" + (DropIllegal(sel[i].journal) + ("] " + DropIllegal(sel[i].title)))
    {
      assert sel[i] in merged;
      RenderItemFields(sel[i]);
    }
  }
}
