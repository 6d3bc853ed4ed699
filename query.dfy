// match_entry: the keyword query language. A query is cut at each " NOT ";
// the first piece is cut at each " AND " into terms that must all occur, the
// other pieces are terms that must not occur. Terms are stripped and
// lower-cased and looked for in the lower-cased "title summary" text. An
// entry matches when at least one query holds for it.

module Query {
  import opened PyText
  import opened Feed

  const NotSep: string := " NOT "
  const AndSep: string := " AND "

  /** A query after parsing: the terms that must occur and those that must not. */
  datatype ParsedQuery = ParsedQuery(andTerms: seq<string>, notTerms: seq<string>)

  /** `k.strip().lower()` */
  function Normalize(k: string): (r: string)
    ensures |r| <= |k|
  {
    Lower(Strip(k))
  }

  function NormalizeAll(ks: seq<string>): (r: seq<string>)
    ensures |r| == |ks|
  {
    if ks == [] then [] else [Normalize(ks[0])] + NormalizeAll(ks[1..])
  }

  /** Normalizing maps the terms one by one, in order. */
  lemma {:induction false} NormalizeAllAt(ks: seq<string>)
    ensures forall i :: 0 <= i < |ks| ==> NormalizeAll(ks)[i] == Normalize(ks[i])
    decreases |ks|
  {
    if ks != [] {
      NormalizeAllAt(ks[1..]);
    }
  }

  /** A normalized term has no capital letters. */
  lemma NormalizeNoCapitals(k: string)
    ensures forall i :: 0 <= i < |Normalize(k)| ==> !('A' <= Normalize(k)[i] <= 'Z')
  {
    LowerIdempotent(Strip(k));
  }

  /** The parse done at the top of each iteration of match_entry's loop: the
      first " NOT " piece cut at " AND ", the other pieces excluded (none when
      there is no " NOT "), every term stripped and lower-cased. */
  function ParseQuery(q: string): (r: ParsedQuery)
    ensures |r.andTerms| >= 1
    ensures !Contains(q, NotSep) ==> r.notTerms == []
  {
    var notParts := Split(q, NotSep);
    var andPart := notParts[0];
    var excludeKeywords := if |notParts| > 1 then NormalizeAll(notParts[1..]) else [];
    ParsedQuery(NormalizeAll(Split(andPart, AndSep)), excludeKeywords)
  }

  /** `(entry['title'] + " " + entry['summary']).lower()` */
  function SearchText(e: Entry): (text: string)
    ensures |text| == |e.title| + 1 + |e.summary|
    ensures forall i :: 0 <= i < |text| ==> !('A' <= text[i] <= 'Z')
  {
    LowerIdempotent(e.title + " " + e.summary);
    Lower(e.title + " " + e.summary)
  }

  /** A parsed query holds for a text: all AND-terms occur, no NOT-term does. */
  predicate Holds(pq: ParsedQuery, text: string)
  {
    && (forall k :: 0 <= k < |pq.andTerms| ==> Contains(text, pq.andTerms[k]))
    && (forall k :: 0 <= k < |pq.notTerms| ==> !Contains(text, pq.notTerms[k]))
  }

  /** The declarative matching rule: some query holds for the entry's text. */
  predicate Matches(e: Entry, queries: seq<string>)
  {
    exists i :: 0 <= i < |queries| && Holds(ParseQuery(queries[i]), SearchText(e))
  }

  /** match_entry: try the queries in order and stop at the first that holds. */
  method MatchEntry(e: Entry, queries: seq<string>) returns (r: bool)
    ensures r == Matches(e, queries)
  {
    r := AnyQueryHolds(SearchText(e), queries);
  }

  /** match_entry's loop over the queries, on the already lower-cased text. */
  method AnyQueryHolds(text: string, queries: seq<string>) returns (r: bool)
    ensures r <==> exists i :: 0 <= i < |queries| && Holds(ParseQuery(queries[i]), text)
  {
    var qi := 0;
    while qi < |queries|
      invariant 0 <= qi <= |queries|
      invariant forall i :: 0 <= i < qi ==> !Holds(ParseQuery(queries[i]), text)
    {
      var holds := QueryHolds(text, ParseQuery(queries[qi]));
      if holds {
        return true;
      }
      assert !Holds(ParseQuery(queries[qi]), text);
      qi := qi + 1;
    }
    return false;
  }

  /** One iteration of match_entry's loop after the parse: the AND-terms loop
      and the NOT-terms loop, each with its flag and `break`. A `false` result
      is the loop's `continue`. */
  method QueryHolds(text: string, pq: ParsedQuery) returns (ok: bool)
    ensures ok == Holds(pq, text)
  {
    var andKeywords, excludeKeywords := pq.andTerms, pq.notTerms;

    var isMatch := true;
    var k := 0;
    while k < |andKeywords|
      invariant 0 <= k <= |andKeywords|
      invariant isMatch
      invariant forall j :: 0 <= j < k ==> Contains(text, andKeywords[j])
    {
      if !Contains(text, andKeywords[k]) {
        isMatch := false;
        break;
      }
      k := k + 1;
    }

    if !isMatch {
      return false;
    }

    var excluded := false;
    k := 0;
    while k < |excludeKeywords|
      invariant 0 <= k <= |excludeKeywords|
      invariant !excluded
      invariant forall j :: 0 <= j < k ==> !Contains(text, excludeKeywords[j])
    {
      if Contains(text, excludeKeywords[k]) {
        excluded := true;
        break;
      }
      k := k + 1;
    }
    return isMatch && !excluded;
  }


  /** An entry matches a list of queries iff it matches the first part or the
      rest: OR across queries, and no query at all matches nothing. */
  lemma MatchesAppend(e: Entry, a: seq<string>, b: seq<string>)
    ensures Matches(e, a + b) <==> Matches(e, a) || Matches(e, b)
    ensures !Matches(e, [])
  {
    var text := SearchText(e);
    if Matches(e, a + b) {
      var i :| 0 <= i < |a + b| && Holds(ParseQuery((a + b)[i]), text);
      if i < |a| {
        assert (a + b)[i] == a[i];
      } else {
        assert (a + b)[i] == b[i - |a|];
      }
    }
    if Matches(e, a) {
      var i :| 0 <= i < |a| && Holds(ParseQuery(a[i]), text);
      assert (a + b)[i] == a[i];
    }
    if Matches(e, b) {
      var i :| 0 <= i < |b| && Holds(ParseQuery(b[i]), text);
      assert (a + b)[|a| + i] == b[i];
    }
  }

  /** With a single query, matching is that query holding. */
  lemma MatchesSingle(e: Entry, q: string)
    ensures Matches(e, [q]) <==> Holds(ParseQuery(q), SearchText(e))
  {
    assert [q][0] == q;
  }

  /** Only the lower-cased title and summary matter: entries whose title and
      summary differ only in the case of ASCII letters match the same queries. */
  lemma MatchesIgnoresCase(e1: Entry, e2: Entry, queries: seq<string>)
    requires Lower(e1.title) == Lower(e2.title) && Lower(e1.summary) == Lower(e2.summary)
    ensures Matches(e1, queries) == Matches(e2, queries)
  {
    LowerAppend(e1.title, " " + e1.summary);
    LowerAppend(" ", e1.summary);
    LowerAppend(e2.title, " " + e2.summary);
    LowerAppend(" ", e2.summary);
    assert e1.title + " " + e1.summary == e1.title + (" " + e1.summary);
    assert e2.title + " " + e2.summary == e2.title + (" " + e2.summary);
    assert SearchText(e1) == SearchText(e2);
  }

  /** A query with neither separator is a single AND-term and excludes nothing. */
  lemma ParseWithoutSeparators(q: string)
    requires !Contains(q, AndSep) && !Contains(q, NotSep)
    ensures ParseQuery(q) == ParsedQuery([Normalize(q)], [])
  {
  }

  /** Everything after the first " NOT " is exclusion text, even an " AND " in it:
      only the part before it is cut at " AND ". */
  lemma ParseAtFirstNot(q: string, i: nat)
    requires IndexOf(q, NotSep) == Some(i)
    ensures ParseQuery(q).andTerms == NormalizeAll(Split(q[..i], AndSep))
    ensures ParseQuery(q).notTerms == NormalizeAll(Split(q[i + |NotSep|..], NotSep))
  {
    SplitAtFirst(q, NotSep, i);
  }

  /** The separators are case-sensitive: a query written in lower case (say
      "brain and tumor") is one AND-term however many "and"s and "not"s it has. */
  lemma LowerCaseQueryIsOneTerm(q: string)
    requires forall i :: 0 <= i < |q| ==> !('A' <= q[i] <= 'Z')
    ensures ParseQuery(q) == ParsedQuery([Normalize(q)], [])
  {
    assert AndSep[1] == 'A' && NotSep[1] == 'N';
    ContainsNeedsChar(q, AndSep, 'A');
    ContainsNeedsChar(q, NotSep, 'N');
    ParseWithoutSeparators(q);
  }

  /** An empty AND-term is found in every text, so it changes nothing. */
  lemma EmptyAndTermIsNeutral(pq: ParsedQuery, text: string)
    ensures Holds(ParsedQuery(pq.andTerms + [""], pq.notTerms), text) <==> Holds(pq, text)
  {
    var ands := pq.andTerms + [""];
    ContainsEmpty(text);
    assert ands[|pq.andTerms|] == "";
    assert forall k :: 0 <= k < |pq.andTerms| ==> ands[k] == pq.andTerms[k];
  }

  /** An empty NOT-term is found in every text, so the query never holds. */
  lemma EmptyNotTermExcludesAll(pq: ParsedQuery, text: string)
    requires "" in pq.notTerms
    ensures !Holds(pq, text)
  {
    ContainsEmpty(text);
  }

  /** A query ending in " NOT " (whose first " NOT " is that one) has the empty
      string as its only NOT-term. */
  lemma ParseTrailingNot(s: string)
    requires IndexOf(s + NotSep, NotSep) == Some(|s|)
    ensures ParseQuery(s + NotSep).notTerms == [""]
  {
    SplitTrailing(s, NotSep);
    EmptyTailTerm(s);
  }

  lemma EmptyTailTerm(s: string)
    ensures NormalizeAll([s, ""][1..]) == [""]
  {
    assert [s, ""][1..] == [""];
    assert Normalize("") == "";
    assert [""][1..] == [];
  }

  /** A query with an empty NOT-term (such as one ending in " NOT ") matches
      no entry. */
  lemma EmptyNotTermMatchesNothing(q: string, e: Entry)
    requires "" in ParseQuery(q).notTerms
    ensures !Matches(e, [q])
  {
    EmptyNotTermExcludesAll(ParseQuery(q), SearchText(e));
    MatchesSingle(e, q);
  }

  /** A single-term query matches an entry whose title contains the stripped
      term, whatever the case of either. */
  lemma TitleHitMatches(e: Entry, q: string)
    requires !Contains(q, AndSep) && !Contains(q, NotSep)
    requires Contains(Lower(e.title), Lower(Strip(q)))
    ensures Matches(e, [q])
  {
    ParseWithoutSeparators(q);
    TitleInSearchText(e, Normalize(q));
    MatchesSingle(e, q);
  }

  /** What occurs in the lower-cased title occurs in the searched text. */
  lemma TitleInSearchText(e: Entry, term: string)
    requires Contains(Lower(e.title), term)
    ensures Contains(SearchText(e), term)
  {
    var t := e.title + " " + e.summary;
    assert Lower(t) == Lower(e.title) + Lower(" " + e.summary);
    ContainsPrefix(Lower(e.title), Lower(" " + e.summary), term);
  }
}
