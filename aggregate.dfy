// The aggregation loop of `main`: the entries read back from the previous
// output are kept as they are, and the fetched entries are walked feed by
// feed, in order. An entry whose id has been seen is skipped; otherwise it is
// appended, and its id recorded, only when it matches the queries.

module Aggregate {
  import opened Feed
  import opened Query

  /** The verdict of match_entry with the configured queries, as a predicate. */
  function Matcher(queries: seq<string>): Entry -> bool
  {
    e => Matches(e, queries)
  }

  /** The ids of a list of entries: `set(entry['id'] for entry in s)`. */
  function Ids(s: seq<Entry>): set<string>
  {
    if s == [] then {} else Ids(s[..|s| - 1]) + {s[|s| - 1].id}
  }

  /** An id is in Ids(s) iff some entry of s carries it. */
  lemma {:induction false} IdsMembership(s: seq<Entry>, id: string)
    ensures id in Ids(s) <==> exists i :: 0 <= i < |s| && s[i].id == id
    decreases |s|
  {
    if s != [] {
      var p := s[..|s| - 1];
      IdsMembership(p, id);
      if id in Ids(p) {
        var i :| 0 <= i < |p| && p[i].id == id;
        assert s[i] == p[i];
      }
      if exists i :: 0 <= i < |s| && s[i].id == id {
        var i :| 0 <= i < |s| && s[i].id == id;
        if i < |p| {
          assert p[i] == s[i];
        }
      }
    }
  }

  /** The ids of a prefix are among the ids of the whole. */
  lemma {:induction false} IdsPrefix(s: seq<Entry>, n: nat)
    requires n <= |s|
    ensures Ids(s[..n]) <= Ids(s)
    decreases |s|
  {
    if n < |s| {
      var p := s[..|s| - 1];
      assert p[..n] == s[..n];
      IdsPrefix(p, n);
    } else {
      assert s[..n] == s;
    }
  }

  /** The fetched entries of all feeds, in the order they are visited. */
  function Flatten(feeds: seq<seq<Entry>>): (r: seq<Entry>)
  {
    if feeds == [] then [] else Flatten(feeds[..|feeds| - 1]) + feeds[|feeds| - 1]
  }

  /** An entry was fetched iff it is in one of the feeds. */
  lemma {:induction false} FlattenMembership(feeds: seq<seq<Entry>>, e: Entry)
    ensures e in Flatten(feeds) <==> exists f :: 0 <= f < |feeds| && e in feeds[f]
    decreases |feeds|
  {
    if feeds != [] {
      var p := feeds[..|feeds| - 1];
      FlattenMembership(p, e);
      if e in Flatten(p) {
        var f :| 0 <= f < |p| && e in p[f];
        assert feeds[f] == p[f];
      }
      if exists f :: 0 <= f < |feeds| && e in feeds[f] {
        var f :| 0 <= f < |feeds| && e in feeds[f];
        if f < |p| {
          assert p[f] == feeds[f];
        }
      }
    }
  }

  /** The list `all_entries` after the loop has visited `fetched`, starting from
      `existing`: each fetched entry is appended iff its id has not been seen
      (in `existing` or among those appended so far) and it matches. The old
      entries are kept as they are, duplicates included. */
  function Merge(existing: seq<Entry>, fetched: seq<Entry>, isMatch: Entry -> bool): (r: seq<Entry>)
    ensures |existing| <= |r| <= |existing| + |fetched|
    ensures r[..|existing|] == existing
    decreases |fetched|
  {
    if fetched == [] then existing
    else
      var prev := Merge(existing, fetched[..|fetched| - 1], isMatch);
      var e := fetched[|fetched| - 1];
      if e.id !in Ids(prev) && isMatch(e) then prev + [e] else prev
  }

  /** An entry whose id has been seen is skipped, whether it matches or not. */
  lemma MergeSkipsSeen(existing: seq<Entry>, fetched: seq<Entry>, e: Entry, isMatch: Entry -> bool)
    requires e.id in Ids(Merge(existing, fetched, isMatch))
    ensures Merge(existing, fetched + [e], isMatch) == Merge(existing, fetched, isMatch)
  {
    assert (fetched + [e])[..|fetched|] == fetched;
  }

  /** An unseen entry that matches is appended, and its id is seen from then on. */
  lemma MergeTakes(existing: seq<Entry>, fetched: seq<Entry>, e: Entry, isMatch: Entry -> bool)
    requires e.id !in Ids(Merge(existing, fetched, isMatch)) && isMatch(e)
    ensures Merge(existing, fetched + [e], isMatch) == Merge(existing, fetched, isMatch) + [e]
    ensures Ids(Merge(existing, fetched + [e], isMatch)) == Ids(Merge(existing, fetched, isMatch)) + {e.id}
  {
    assert (fetched + [e])[..|fetched|] == fetched;
    var m := Merge(existing, fetched, isMatch);
    assert (m + [e])[..|m|] == m;
  }

  /** An entry that does not match is dropped, and its id is not recorded. */
  lemma MergeDropsUnmatched(existing: seq<Entry>, fetched: seq<Entry>, e: Entry, isMatch: Entry -> bool)
    requires !isMatch(e)
    ensures Merge(existing, fetched + [e], isMatch) == Merge(existing, fetched, isMatch)
  {
    assert (fetched + [e])[..|fetched|] == fetched;
  }

  /** A non-matching entry leaves its id unrecorded, so a later entry with
      the same id that does match is still taken. */
  lemma UnmatchedDoesNotBlock(existing: seq<Entry>, fetched: seq<Entry>, x: Entry, y: Entry, isMatch: Entry -> bool)
    requires x.id == y.id && !isMatch(x) && isMatch(y)
    requires y.id !in Ids(Merge(existing, fetched, isMatch))
    ensures Merge(existing, fetched + [x, y], isMatch) == Merge(existing, fetched, isMatch) + [y]
  {
    MergeDropsUnmatched(existing, fetched, x, isMatch);
    MergeTakes(existing, fetched + [x], y, isMatch);
    assert fetched + [x] + [y] == fetched + [x, y];
  }

  /** What `all` holds after the old entries: entries that were fetched, match,
      and carry an id seen neither in the old entries nor earlier. */
  predicate AddedEntriesOk(existing: seq<Entry>, r: seq<Entry>, fetched: seq<Entry>, isMatch: Entry -> bool)
    requires |existing| <= |r|
  {
    forall i :: |existing| <= i < |r| ==> r[i] in fetched && isMatch(r[i]) && r[i].id !in Ids(r[..i])
  }

  /** Every entry after the old ones was fetched, matches, and has an id that
      neither an old entry nor an earlier added entry has. */
  lemma {:induction false} MergeAppended(existing: seq<Entry>, fetched: seq<Entry>, isMatch: Entry -> bool)
    ensures AddedEntriesOk(existing, Merge(existing, fetched, isMatch), fetched, isMatch)
    decreases |fetched|
  {
    if fetched != [] {
      var p := fetched[..|fetched| - 1];
      var e := fetched[|fetched| - 1];
      var prev := Merge(existing, p, isMatch);
      var r := Merge(existing, fetched, isMatch);
      MergeAppended(existing, p, isMatch);
      assert fetched == p + [e];
      forall i | |existing| <= i < |r|
        ensures r[i] in fetched && isMatch(r[i]) && r[i].id !in Ids(r[..i])
      {
        if i < |prev| {
          assert r[i] == prev[i] && r[..i] == prev[..i];
          assert prev[i] in p;
        } else {
          assert r == prev + [e] && r[..i] == prev;
        }
      }
    }
  }

  /** Every entry of `all_entries` is an old entry or a fetched entry that matches. */
  lemma MergeOrigin(existing: seq<Entry>, fetched: seq<Entry>, isMatch: Entry -> bool)
    ensures forall e :: e in Merge(existing, fetched, isMatch) ==> e in existing || (e in fetched && isMatch(e))
  {
    var r := Merge(existing, fetched, isMatch);
    MergeAppended(existing, fetched, isMatch);
    forall e | e in r
      ensures e in existing || (e in fetched && isMatch(e))
    {
      var i :| 0 <= i < |r| && r[i] == e;
      if i < |existing| {
        assert r[..|existing|][i] == e;
      }
    }
  }

  /** Every added entry was returned by one of the feeds. */
  lemma AddedFromFeeds(existing: seq<Entry>, feeds: seq<seq<Entry>>, isMatch: Entry -> bool)
    ensures var r := Merge(existing, Flatten(feeds), isMatch);
      forall i :: |existing| <= i < |r| ==> exists f :: 0 <= f < |feeds| && r[i] in feeds[f]
  {
    var r := Merge(existing, Flatten(feeds), isMatch);
    MergeAppended(existing, Flatten(feeds), isMatch);
    forall i | |existing| <= i < |r|
      ensures exists f :: 0 <= f < |feeds| && r[i] in feeds[f]
    {
      FlattenMembership(feeds, r[i]);
    }
  }

  /** The ids added after the old ones are new and pairwise different. */
  lemma AppendedIdsFresh(existing: seq<Entry>, fetched: seq<Entry>, isMatch: Entry -> bool)
    ensures var r := Merge(existing, fetched, isMatch);
      forall i :: |existing| <= i < |r| ==> r[i].id !in Ids(existing)
    ensures var r := Merge(existing, fetched, isMatch);
      forall i, j :: |existing| <= j < i < |r| ==> r[j].id != r[i].id
  {
    var r := Merge(existing, fetched, isMatch);
    MergeAppended(existing, fetched, isMatch);
    assert AddedEntriesOk(existing, r, fetched, isMatch);
    forall i | |existing| <= i < |r|
      ensures r[i].id !in Ids(existing)
      ensures forall j :: |existing| <= j < i ==> r[j].id != r[i].id
    {
      IdsMembership(r[..i], r[i].id);
      assert r[..i][..|existing|] == existing;
      IdsPrefix(r[..i], |existing|);
      forall j | |existing| <= j < i
        ensures r[j].id != r[i].id
      {
        assert r[..i][j] == r[j];
      }
    }
  }

  /** The ids of the fetched entries that match, whether or not they are added. */
  function MatchingIds(fetched: seq<Entry>, isMatch: Entry -> bool): set<string>
  {
    if fetched == [] then {}
    else
      var e := fetched[|fetched| - 1];
      MatchingIds(fetched[..|fetched| - 1], isMatch) + (if isMatch(e) then {e.id} else {})
  }

  /** An id is in MatchingIds iff some matching fetched entry carries it. */
  lemma {:induction false} MatchingIdsMembership(fetched: seq<Entry>, isMatch: Entry -> bool, id: string)
    ensures id in MatchingIds(fetched, isMatch) <==>
      exists i :: 0 <= i < |fetched| && isMatch(fetched[i]) && fetched[i].id == id
    decreases |fetched|
  {
    if fetched != [] {
      var p := fetched[..|fetched| - 1];
      MatchingIdsMembership(p, isMatch, id);
      if id in MatchingIds(p, isMatch) {
        var i :| 0 <= i < |p| && isMatch(p[i]) && p[i].id == id;
        assert fetched[i] == p[i];
      }
      if exists i :: 0 <= i < |fetched| && isMatch(fetched[i]) && fetched[i].id == id {
        var i :| 0 <= i < |fetched| && isMatch(fetched[i]) && fetched[i].id == id;
        if i < |p| {
          assert p[i] == fetched[i];
        }
      }
    }
  }

  /** `seen_ids` at the end: the old ids and the id of every fetched entry that
      matches. A matching entry skipped as a duplicate had its id seen already;
      a non-matching entry contributes nothing. */
  lemma {:induction false} MergeIds(existing: seq<Entry>, fetched: seq<Entry>, isMatch: Entry -> bool)
    ensures Ids(Merge(existing, fetched, isMatch)) == Ids(existing) + MatchingIds(fetched, isMatch)
    decreases |fetched|
  {
    if fetched != [] {
      var p := fetched[..|fetched| - 1];
      var e := fetched[|fetched| - 1];
      MergeIds(existing, p, isMatch);
      var prev := Merge(existing, p, isMatch);
      assert fetched == p + [e];
      if e.id !in Ids(prev) && isMatch(e) {
        MergeTakes(existing, p, e, isMatch);
      }
    }
  }

  lemma GrowPrefix(a: seq<Entry>, b: seq<Entry>, k: nat)
    requires k < |b|
    ensures a + b[..k + 1] == (a + b[..k]) + [b[k]]
  {
    assert b[..k + 1] == b[..k] + [b[k]];
  }

  /** The aggregation loop of `main`. `feeds` holds what parse_rss returned for
      each configured URL, in order. Returns `all_entries` and `new_count`. */
  method AggregateFeeds(existing: seq<Entry>, feeds: seq<seq<Entry>>, queries: seq<string>)
    returns (all: seq<Entry>, newCount: nat)
    ensures all == Merge(existing, Flatten(feeds), Matcher(queries))
    ensures newCount == |all| - |existing|
  {
    var seen := Ids(existing);
    all := existing;
    newCount := 0;
    var f := 0;
    while f < |feeds|
      invariant 0 <= f <= |feeds|
      invariant all == Merge(existing, Flatten(feeds[..f]), Matcher(queries))
      invariant seen == Ids(all)
      invariant newCount == |all| - |existing|
    {
      all, seen, newCount := VisitFeed(existing, Flatten(feeds[..f]), feeds[f], queries, all, seen, newCount);
      assert feeds[..f + 1][..f] == feeds[..f];
      f := f + 1;
    }
    assert feeds[..|feeds|] == feeds;
  }

  /** The inner loop of the aggregation, over the entries of one feed. `before`
      is what the earlier feeds returned; `all0`, `seen0` and `count0` are the
      state the earlier feeds left. */
  method VisitFeed(existing: seq<Entry>, ghost before: seq<Entry>, fetched: seq<Entry>, queries: seq<string>,
                   all0: seq<Entry>, seen0: set<string>, count0: nat)
    returns (all: seq<Entry>, seen: set<string>, newCount: nat)
    requires all0 == Merge(existing, before, Matcher(queries))
    requires seen0 == Ids(all0)
    requires count0 == |all0| - |existing|
    ensures all == Merge(existing, before + fetched, Matcher(queries))
    ensures seen == Ids(all)
    ensures newCount == |all| - |existing|
  {
    all, seen, newCount := all0, seen0, count0;
    var k := 0;
    assert before + fetched[..k] == before;
    while k < |fetched|
      invariant 0 <= k <= |fetched|
      invariant all == Merge(existing, before + fetched[..k], Matcher(queries))
      invariant seen == Ids(all)
      invariant newCount == |all| - |existing|
    {
      var entry := fetched[k];
      GrowPrefix(before, fetched, k);
      if entry.id in seen {
        MergeSkipsSeen(existing, before + fetched[..k], entry, Matcher(queries));
        k := k + 1;
        continue;
      }
      var isMatch := MatchEntry(entry, queries);
      if isMatch {
        assert Matcher(queries)(entry);
        MergeTakes(existing, before + fetched[..k], entry, Matcher(queries));
        all := all + [entry];
        seen := seen + {entry.id};
        newCount := newCount + 1;
      } else {
        assert !Matcher(queries)(entry);
        MergeDropsUnmatched(existing, before + fetched[..k], entry, Matcher(queries));
      }
      k := k + 1;
    }
    assert fetched[..|fetched|] == fetched;
  }
}
