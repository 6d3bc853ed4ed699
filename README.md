# paper-feed filter core, in Dafny

`get_RSS.py` builds a filtered RSS feed of journal papers. It reads a list of
feed URLs and a list of keyword queries, either from an environment variable
or from a file. It keeps the entries of the previous output and adds every
newly fetched entry that matches a query and has an id not seen before. It
then writes the latest entries, up to `MAX_ITEMS` of them, as RSS 2.0 items.
This project models the logic between the library calls and proves what it
does:

- `PyText` (`pytext.dfy`): the parts of Python's `str` the script uses:
  - `strip()` with the full `str.isspace()` whitespace set;
  - ASCII `lower()`;
  - `split(sep)` on a non-empty separator;
  - `in` (substring containment) and `startswith`;
  - `join`, which the script does not call, used only to state round trips.
- `XmlText` (`xmltext.dfy`): `remove_illegal_xml_chars`. It deletes the ASCII
  control characters that the `Char` production of section 2.2 of XML 1.0
  forbids, and only those.
- `Config` (`config.dfy`): the splitting and filtering in `load_config`.
- `Feed` (`entry.dfy`): the entry record. `pubDate` is an abstract ordered
  integer.
- `Query` (`query.dfy`): `match_entry`'s query language (`AND`, `NOT`, OR
  across queries). It gives a declarative rule, `Matches`, and the
  flag-and-break loops, `MatchEntry` and `QueryHolds`, proved equal to it.
- `Aggregate` (`aggregate.dfy`): the merge/dedup loop of `main`. It is proved
  equal to the recursive specification `Merge`, and the loop keeps
  `seen_ids == Ids(all_entries)` and `new_count == |all_entries| - |existing|`
  as invariants.
- `Writer` (`writer.dfy`): `generate_rss_xml` up to the construction of the
  feed. It sorts in place (an insertion sort proved equal to the stable sort
  `SortDesc`), truncates, and maps each entry to its output record.
- `Pipeline` (`pipeline.dfy`): `main` as a composition of the above.

## Model

| member | source | states |
|---|---|---|
| PyText.Strip | get_RSS.py:19 | `line.strip()`: the result has no whitespace at either end and is no longer than the input |
| PyText.StripTrimmed | get_RSS.py:19 | strip removes only whitespace, and only from the two ends: the result is a contiguous run of the input with whitespace on both sides |
| PyText.StripStripped | get_RSS.py:19 | strip leaves an already stripped string unchanged |
| PyText.StripEmptyIff | get_RSS.py:19 | `line.strip()` is empty iff the line is all whitespace |
| PyText.StripUnique | get_RSS.py:26 | any non-empty stripped run with only whitespace around it is what strip returns |
| PyText.Lower | get_RSS.py:102 | `s.lower()` on ASCII letters: same length, each character lower-cased on its own |
| PyText.LowerIdempotent | get_RSS.py:102 | lower-casing twice is lower-casing once, and the result has no ASCII capitals |
| PyText.LowerAppend | get_RSS.py:102 | `(a + b).lower() == a.lower() + b.lower()` |
| PyText.LowerNoCapitals | get_RSS.py:108 | text without capitals is its own lower-case form |
| PyText.ContainsIff | get_RSS.py:114 | `needle in haystack` holds iff the needle occurs at some position |
| PyText.ContainsChar | get_RSS.py:18 | `c in s` for a one-character needle is membership |
| PyText.ContainsNeedsChar | get_RSS.py:106 | a needle with a character the haystack lacks does not occur in it |
| PyText.ContainsPrefix | get_RSS.py:102 | what occurs in `a` occurs in `a + b` |
| PyText.ContainsEmpty | get_RSS.py:114 | the empty string occurs in every string |
| PyText.ContainsLower | get_RSS.py:114 | containment survives lower-casing both sides |
| PyText.Contains | get_RSS.py:114 | `needle in haystack`: the needle starts here or further on; it never occurs in a shorter string |
| PyText.StartsWith | get_RSS.py:26 | `s.startswith(prefix)`: the prefix is the first characters of `s` |
| PyText.IndexOf | get_RSS.py:106 | the first occurrence of the separator: it occurs there, nowhere earlier, and None means it does not occur |
| PyText.Split | get_RSS.py:106 | `s.split(sep)` has at least one part, exactly one iff `sep` does not occur, and then that part is `s` |
| PyText.SplitJoin | get_RSS.py:18-21 | splitting on a one-character separator undoes joining parts that do not contain it |
| PyText.SplitTrailing | get_RSS.py:106 | a string whose first separator is at its end splits into the text before it and `""` |
| PyText.SplitAtFirst | get_RSS.py:106 | the split is cut at the first occurrence, and the rest is split again |
| XmlText.DropIllegal | get_RSS.py:34-35 | the result has no character of `[\x00-\x08\x0b\x0c\x0e-\x1f]` and is no longer than the input |
| XmlText.RemoveIllegalXmlChars | get_RSS.py:30-35 | None gives `""`, the result never has an illegal character, and text is filtered by DropIllegal |
| XmlText.DropIllegalCounts | get_RSS.py:34-35 | exactly the illegal characters are deleted: every legal character keeps its number of occurrences and every illegal one drops to zero |
| XmlText.DropIllegalAppend | get_RSS.py:35 | the filter distributes over concatenation, so kept characters stay in order |
| XmlText.DropIllegalKeepsLegal | get_RSS.py:35 | text without illegal characters (TAB, LF and CR included) is unchanged |
| XmlText.SanitiseIdempotent | get_RSS.py:30-35 | sanitising twice equals sanitising once |
| XmlText.SanitiseKeepsTabNewlineReturn | get_RSS.py:34 | TAB, LF and CR survive sanitising |
| XmlText.SanitiseDeletesControl | get_RSS.py:34-35 | a U+0001 between legal text is deleted, not replaced |
| XmlText.LegalPrefix | get_RSS.py:35 | legal text in front passes through the filter unchanged |
| XmlText.DropIllegalFramed | get_RSS.py:143-145 | sanitising `a + m + b + t` with legal `a`, `b` sanitises only `m` and `t` |
| Config.StripNonEmpty | get_RSS.py:19-21 | every element of the result is stripped and non-empty, and there are no more elements than parts |
| Config.StripNonEmptyAppend | get_RSS.py:19-21 | the parts are taken one by one, so the order of the input is kept |
| Config.StripNonEmptyMembership | get_RSS.py:19-21 | an entry comes out iff it is non-empty and some part strips to it |
| Config.EnvSeparator | get_RSS.py:18-21 | the separator is `'\n'` iff the content has a newline, and `';'` otherwise |
| Config.SplitEnvContent | get_RSS.py:18-21 | the entries taken from the environment value are all stripped and non-empty |
| Config.FileEntries | get_RSS.py:26 | the entries taken from the file are all stripped and non-empty, at most one per line |
| Config.KeepFileLine | get_RSS.py:26 | a raw line is kept iff its strip is non-empty and it does not start with `#` |
| Config.LoadConfig | get_RSS.py:14-28 | a set, non-empty variable is split; otherwise an existing file is filtered; otherwise `[]` |
| Config.FileEntriesAppend | get_RSS.py:26 | filtering goes line by line, so the order of the lines is kept |
| Config.FileEntriesMembership | get_RSS.py:26 | an entry comes out of the file iff some line, not blank and not starting with `#`, strips to it |
| Config.CommentOnlyAtColumnZero | get_RSS.py:26 | a line starting with `#` is dropped; one with `#` after leading whitespace is kept |
| Config.SemicolonRoundTrip | get_RSS.py:18-21 | clean entries without `;` or newlines, joined with `;`, are read back as they were |
| Config.NewlineRoundTrip | get_RSS.py:18-19 | two or more clean entries joined with newlines are read back as they were, `;` in them included |
| Config.SingleLineSplitsOnSemicolon | get_RSS.py:20-21 | `"a;b"` with no newline gives `[a, b]` |
| Query.NormalizeAllAt | get_RSS.py:108-111 | each term is stripped and lower-cased, one for one and in order |
| Query.NormalizeNoCapitals | get_RSS.py:108-111 | a normalised term has no ASCII capitals |
| Query.Normalize | get_RSS.py:108-111 | `k.strip().lower()`: never longer than `k` |
| Query.NormalizeAll | get_RSS.py:108-111 | the list comprehension over the terms: one normalised term per term |
| Query.SearchText | get_RSS.py:102 | `(title + " " + summary).lower()`: as long as title, space and summary together, with no ASCII capital left |
| Query.Holds | get_RSS.py:112-128 | the declarative rule for one parsed query: every AND-term occurs and no NOT-term does |
| Query.Matches | get_RSS.py:97-131 | the declarative rule for `match_entry`: some query holds for the entry's text |
| Query.ParseQuery | get_RSS.py:106-111 | there is at least one AND-term, and no NOT-term when `" NOT "` does not occur |
| Query.MatchEntry | get_RSS.py:97-131 | the loop returns exactly the declarative rule `Matches`: some query has every AND-term and no NOT-term in the lower-cased `title + " " + summary` |
| Query.AnyQueryHolds | get_RSS.py:104-131 | the loop over the queries returns true iff some query, parsed, holds for the text |
| Query.QueryHolds | get_RSS.py:112-128 | the two flag-and-break loops return true iff every AND-term and no NOT-term is contained |
| Query.MatchesAppend | get_RSS.py:104-131 | OR across queries: an entry matches `a + b` iff it matches `a` or `b`; no query matches nothing |
| Query.MatchesSingle | get_RSS.py:104-129 | with one query, matching is that query holding |
| Query.MatchesIgnoresCase | get_RSS.py:102 | entries whose title and summary differ only in ASCII case match the same queries |
| Query.ParseWithoutSeparators | get_RSS.py:106-111 | a query with neither separator is one AND-term, its normalised text, and no NOT-term |
| Query.ParseAtFirstNot | get_RSS.py:106-111 | only the text before the first `" NOT "` is cut at `" AND "`; everything after it is NOT-terms, an `" AND "` there included |
| Query.LowerCaseQueryIsOneTerm | get_RSS.py:106-111 | the separators are case-sensitive: a lower-case query such as `"a and b"` is a single term |
| Query.EmptyAndTermIsNeutral | get_RSS.py:113-116 | an empty AND-term changes nothing |
| Query.EmptyNotTermExcludesAll | get_RSS.py:123-126 | an empty NOT-term makes the query fail for every text |
| Query.ParseTrailingNot | get_RSS.py:106-108 | a query ending in its first `" NOT "` has `""` as its only NOT-term |
| Query.EmptyNotTermMatchesNothing | get_RSS.py:123-129 | a query with an empty NOT-term, such as a trailing `" NOT "`, matches no entry |
| Query.TitleHitMatches | get_RSS.py:102-114 | a one-term query whose term occurs in the title, in any case, matches |
| Query.TitleInSearchText | get_RSS.py:102 | what occurs in the lower-cased title occurs in the searched text |
| Aggregate.IdsMembership | get_RSS.py:181 | an id is in `set(entry['id'] for ...)` iff some entry carries it |
| Aggregate.IdsPrefix | get_RSS.py:181-195 | the ids of a prefix are among the ids of the whole list |
| Aggregate.Ids | get_RSS.py:181 | `set(entry['id'] for entry in s)`, pinned by IdsMembership |
| Aggregate.FlattenMembership | get_RSS.py:187-189 | an entry is visited iff one of the feeds returned it |
| Aggregate.Merge | get_RSS.py:183-196 | the old entries are an unchanged prefix of `all_entries`, duplicates included, and at most one entry is added per fetched entry |
| Aggregate.MergeSkipsSeen | get_RSS.py:190-191 | a fetched entry whose id was seen is skipped even if it matches |
| Aggregate.MergeTakes | get_RSS.py:193-196 | an unseen matching entry is appended and its id recorded |
| Aggregate.MergeDropsUnmatched | get_RSS.py:193 | a non-matching entry is dropped |
| Aggregate.UnmatchedDoesNotBlock | get_RSS.py:190-195 | a non-matching entry does not record its id, so a later matching entry with that id is still added |
| Aggregate.MergeAppended | get_RSS.py:189-196 | every added entry was fetched, matches, and has an id not among those before it |
| Aggregate.AppendedIdsFresh | get_RSS.py:181-195 | no added id is an old id, and the added ids are pairwise different |
| Aggregate.MergeOrigin | get_RSS.py:183-196 | every entry of `all_entries` is an old entry or a fetched entry that matches |
| Aggregate.AddedFromFeeds | get_RSS.py:187-196 | every added entry was returned by one of the feeds |
| Aggregate.MatchingIdsMembership | get_RSS.py:193-195 | `MatchingIds` holds exactly the ids of the matching fetched entries |
| Aggregate.MergeIds | get_RSS.py:181-195 | `seen_ids` at the end is the old ids plus the id of every matching fetched entry; non-matching entries add nothing |
| Aggregate.AggregateFeeds | get_RSS.py:180-197 | the nested loop computes `Merge` over all feeds in order, with `new_count == len(all) - len(existing)` |
| Aggregate.VisitFeed | get_RSS.py:189-196 | the inner loop extends `Merge` by one feed and keeps `seen_ids == Ids(all_entries)` |
| Writer.InsertPerm | get_RSS.py:137 | one insertion adds the entry and keeps every other |
| Writer.InsertBounded | get_RSS.py:137 | insertion adds no entry later than the bound |
| Writer.InsertSorted | get_RSS.py:137 | insertion keeps a latest-first list latest first |
| Writer.SortDescSorted | get_RSS.py:137 | the sort's result has non-increasing pubDate |
| Writer.SortDescPerm | get_RSS.py:137 | the sort's result is a permutation of its input |
| Writer.WithDateAppend | get_RSS.py:137 | the entries of one date in `a + b` are those of `a` then those of `b` |
| Writer.WithDateEarlier | get_RSS.py:137 | a latest-first list starting earlier than `k` has no entry with date `k` |
| Writer.InsertStable | get_RSS.py:137 | insertion puts an entry behind the entries that have its date |
| Writer.SortDescStable | get_RSS.py:137 | the sort is stable: for every date, the entries with it keep their input order |
| Writer.InsertAt | get_RSS.py:137 | in a latest-first list, insertion goes at the first position holding an earlier entry |
| Writer.Insert | get_RSS.py:137 | one step of the stable latest-first sort: one more element, placed behind the entries at least as late (InsertAt, InsertStable) |
| Writer.SortDesc | get_RSS.py:137 | `sort(key=pub_date, reverse=True)`: same length, latest first, a permutation, stable (SortDescSorted, SortDescPerm, SortDescStable) |
| Writer.SortByPubDateDesc | get_RSS.py:137 | the in-place sort leaves the array equal to `SortDesc` of its old contents |
| Writer.InsertNext | get_RSS.py:137 | one step of the in-place sort inserts `a[i]` into the sorted prefix and leaves the rest alone |
| Writer.SelectSpec | get_RSS.py:137-138 | the selection has `min(len, max)` items, is a prefix of the sort, is latest first, no dropped item is later than a kept one, and kept plus dropped is a permutation of the input |
| Writer.SelectStable | get_RSS.py:137-138 | entries with the same date keep their input order after truncation, the kept ones being the first of that date |
| Writer.Select | get_RSS.py:137-138 | `items[:MAX_ITEMS]` after the sort: `min(len, max)` items |
| Writer.SelectMembers | get_RSS.py:137-138 | the selection holds only entries of the input |
| Writer.DisplayTitle | get_RSS.py:141-143 | an old entry's title as it is; a fetched one's is `"[" + journal + "] " + title`, three characters longer than journal and title |
| Writer.RenderItem | get_RSS.py:149-156 | link, guid and pubDate pass through unchanged |
| Writer.RenderItemFields | get_RSS.py:141-153 | a fetched entry's title is `"[" + journal + "] " + title` with both parts sanitised, an old one's is its sanitised title; description is the sanitised summary and author the sanitised journal; none has an illegal character |
| Writer.ReadBack | get_RSS.py:84-91 | an item read back from the previous output is marked old |
| Writer.ReadBackAll | get_RSS.py:79-92 | every record of the previous output becomes an old entry, one for one and in order |
| Writer.RenderReadBack | get_RSS.py:141-156 | on the next run an output item read back renders to the same item: no second journal prefix, no further change from sanitising |
| Writer.RenderAllAt | get_RSS.py:140-157 | the records are one per selected entry, in order |
| Writer.RenderAll | get_RSS.py:140-157 | one record per entry (RenderAllAt gives each) |
| Writer.GenerateItems | get_RSS.py:133-157 | the array ends sorted by `SortDesc` and the records are those of `Select`, in order |
| Pipeline.MarkFetched | get_RSS.py:54-61 | the entries of parse_rss carry no `is_old`, so every one reads as new; nothing else changes |
| Pipeline.FetchAll | get_RSS.py:187-188 | one fetched list per configured URL, the `i`-th being what parse_rss returns for the `i`-th URL |
| Pipeline.FetchedAreNew | get_RSS.py:142 | no fetched entry is old, so `.get('is_old', False)` is False for all of them |
| Pipeline.Output | get_RSS.py:180-197 | the entries written: the selection from the merged old and matching new entries, at most `maxItems` |
| Pipeline.SelectedOrigin | get_RSS.py:137-157 | with old entries marked old and fetched ones not, a written old entry keeps its sanitised title and a written new one matched and gets its journal prefix |
| Pipeline.OutputTitles | get_RSS.py:172-200 | in a whole run, each written record is an old record read back, with its title only sanitised, or a fetched entry that matches the queries, with `"[journal] "` in front |
| Pipeline.Run | get_RSS.py:172-200 | the run stops when either configuration is empty, and otherwise writes the records of `Output` over the read-back previous records and the fetched feeds |

## Left out

- Fetching with `feedparser`, the retry loop and `time.sleep` in `parse_rss`
  (get_RSS.py:42-66) are network I/O. `Run` takes a function `fetch` giving
  each URL's entry list instead. The dictionary defaults filled in there
  (`'Unknown Journal'`, id falling back to link) are not modelled.
- Reading the previous output in `get_existing_items` (get_RSS.py:68-95) is
  file I/O and XML parsing. `Run` takes the records as parsed, `previous`,
  and `ReadBack` models only the field mapping (get_RSS.py:84-91).
- Writer.RenderReadBack: holds for the records as written. The parse does not
  always give them back unchanged: an XML parser turns a CR in element content
  into LF (section 2.11 of XML 1.0), and feedparser sanitises the HTML of
  `description`. Records changed that way are read back as changed.
- The `os.environ`, `os.path.exists` and `open` calls of `load_config`
  (get_RSS.py:15-17,23-25) are I/O. `LoadConfig` takes the variable's value
  and the file's lines as options. Lines keep their newline in Python, which
  strip removes; a caller passing lines without it gets the same entries.
- The clock: `convert_struct_time_to_datetime` and `datetime.now()`
  (get_RSS.py:37-40,164). `pubDate` is an opaque ordered integer.
- `rfeed`'s `Item`/`Feed` construction, `feed.rss()` and the file write
  (get_RSS.py:159-170). The model ends at the list of `RssItem` records, and
  `guid` is the id string that `Guid(...)` wraps.
- All `print` logging, including the count of new entries.
- PyText.Lower: models `str.lower()` on ASCII letters only. Other characters
  are left as they are, whereas Python also lower-cases non-ASCII letters.
- Writer.SortByPubDateDesc: Python's `list.sort` is Timsort, not insertion
  sort. Only its result is modelled, and that result is `SortDesc`, since a
  stable sort has only one possible result.
- Query.QueryHolds: the body of `match_entry`'s loop is a separate method that
  takes the parsed query. Its `false` result stands for the loop's `continue`.
  The loop itself is `AnyQueryHolds`, on the text `MatchEntry` computes.
- Aggregate.VisitFeed: the inner loop of `main` is a separate method; the
  outer loop passes it the state and gets it back.
- Aggregate.AggregateFeeds: the predicate `Matcher(queries)` is used in the
  specification, and `MatchEntry` (proved equal to it) is called in the loop.
- Writer.Select: `maxItems` is a natural number; `items[:n]` with a negative
  `n` is not modelled (the script's `MAX_ITEMS` is 1000, get_RSS.py:11).
