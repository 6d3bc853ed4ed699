// The parts of Python's `str` that the feed script relies on: `strip()`,
// ASCII `lower()`, `split(sep)` with a non-empty separator, `in` (substring
// containment) and `startswith`; `sep.join(...)`, which the script does not
// call, is here only to state round trips of the configuration splitting.

module PyText {

  datatype Option<T> = None | Some(value: T)

  /** Python's str.isspace() for a single character (the whitespace set that
      `strip()` with no argument removes). */
  predicate IsSpace(c: char)
  {
    ('\U{09}' <= c <= '\U{0D}') || ('\U{1C}' <= c <= '\U{1F}') || c == ' ' ||
    c == '\U{0085}' || c == '\U{00A0}' || c == '\U{1680}' ||
    ('\U{2000}' <= c <= '\U{200A}') || c == '\U{2028}' || c == '\U{2029}' ||
    c == '\U{202F}' || c == '\U{205F}' || c == '\U{3000}'
  }

  /** A string with no whitespace at either end: what `strip()` returns. */
  predicate IsStripped(s: string)
  {
    s == [] || (!IsSpace(s[0]) && !IsSpace(s[|s| - 1]))
  }

  function StripLeft(s: string): (r: string)
    ensures |r| <= |s|
    ensures r == [] || !IsSpace(r[0])
  {
    if s != [] && IsSpace(s[0]) then StripLeft(s[1..]) else s
  }

  /** StripLeft drops a whitespace prefix and keeps the rest as it is. */
  lemma {:induction false} StripLeftSuffix(s: string)
    ensures StripLeft(s) == s[|s| - |StripLeft(s)|..]
    ensures forall i :: 0 <= i < |s| - |StripLeft(s)| ==> IsSpace(s[i])
    decreases |s|
  {
    if s != [] && IsSpace(s[0]) {
      StripLeftSuffix(s[1..]);
    }
  }

  function StripRight(s: string): (r: string)
    ensures |r| <= |s| && r == s[..|r|]
    ensures r == [] || !IsSpace(r[|r| - 1])
    ensures forall i :: |r| <= i < |s| ==> IsSpace(s[i])
  {
    if s != [] && IsSpace(s[|s| - 1]) then StripRight(s[..|s| - 1]) else s
  }

  /** `r` is `s[i..i + |r|]` and everything of `s` outside that run is whitespace. */
  predicate TrimmedAt(s: string, r: string, i: int)
  {
    && 0 <= i <= i + |r| <= |s| && r == s[i..i + |r|]
    && (forall k :: 0 <= k < i ==> IsSpace(s[k]))
    && (forall k :: i + |r| <= k < |s| ==> IsSpace(s[k]))
  }

  /** Python's `s.strip()`: whitespace removed from both ends. */
  function Strip(s: string): (r: string)
    ensures IsStripped(r)
    ensures |r| <= |s|
  {
    StripRight(StripLeft(s))
  }

  /** What Strip removes is whitespace, and only from the two ends. */
  lemma StripTrimmed(s: string)
    ensures exists i :: TrimmedAt(s, Strip(s), i)
  {
    var l := StripLeft(s);
    StripLeftSuffix(s);
    var r := StripRight(l);
    TrimmedFromParts(s, l, r);
    assert r == Strip(s);
  }

  /** A whitespace run cut from the front and then one from the back leave a
      trimmed run of the original. */
  lemma TrimmedFromParts(s: string, l: string, r: string)
    requires |l| <= |s| && l == s[|s| - |l|..]
    requires forall k :: 0 <= k < |s| - |l| ==> IsSpace(s[k])
    requires |r| <= |l| && r == l[..|r|]
    requires forall k :: |r| <= k < |l| ==> IsSpace(l[k])
    ensures TrimmedAt(s, r, |s| - |l|)
  {
    var i := |s| - |l|;
    forall k | i + |r| <= k < |s|
      ensures IsSpace(s[k])
    {
      assert s[k] == l[k - i];
    }
  }

  /** Strip removes nothing from a string that is already stripped. */
  lemma StripStripped(s: string)
    requires IsStripped(s)
    ensures Strip(s) == s
  {
  }

  /** An all-whitespace string (and only such a string) strips to "". */
  lemma StripEmptyIff(s: string)
    ensures Strip(s) == [] <==> forall k :: 0 <= k < |s| ==> IsSpace(s[k])
  {
    var r := Strip(s);
    StripTrimmed(s);
    var i :| TrimmedAt(s, r, i);
    if r != [] {
      assert !IsSpace(s[i]);
    }
  }

  /** The contract of Strip pins its result down: any non-empty stripped run
      with only whitespace around it is what Strip returns. */
  lemma StripUnique(s: string, t: string, i: int)
    requires TrimmedAt(s, t, i) && t != "" && IsStripped(t)
    ensures Strip(s) == t
  {
    var r := Strip(s);
    StripTrimmed(s);
    var j :| TrimmedAt(s, r, j);
    assert !IsSpace(s[i]) && !IsSpace(s[i + |t| - 1]);
  }

  function LowerChar(c: char): (r: char)
    ensures 'A' <= c <= 'Z' ==> r as int == c as int + 32
    ensures !('A' <= c <= 'Z') ==> r == c
  {
    if 'A' <= c <= 'Z' then (c as int + 32) as char else c
  }

  /** Python's `s.lower()`, restricted to the ASCII letters. */
  function Lower(s: string): (r: string)
    ensures |r| == |s|
  {
    seq(|s|, i requires 0 <= i < |s| => LowerChar(s[i]))
  }

  /** Lower-casing works character by character, so it distributes over `+`. */
  lemma LowerAppend(a: string, b: string)
    ensures Lower(a + b) == Lower(a) + Lower(b)
  {
  }

  /** Text without ASCII capitals is its own lower-case form. */
  lemma LowerNoCapitals(s: string)
    requires forall i :: 0 <= i < |s| ==> !('A' <= s[i] <= 'Z')
    ensures Lower(s) == s
  {
  }

  lemma LowerIdempotent(s: string)
    ensures Lower(Lower(s)) == Lower(s)
    ensures forall i :: 0 <= i < |s| ==> !('A' <= Lower(s)[i] <= 'Z')
  {
  }

  /** `needle` occurs in `haystack` at position `i`. */
  predicate OccursAt(haystack: string, needle: string, i: int)
  {
    0 <= i && i + |needle| <= |haystack| && haystack[i..i + |needle|] == needle
  }

  /** Python's `needle in haystack` on strings: `needle` starts here or
      somewhere further on. */
  predicate Contains(haystack: string, needle: string)
    ensures Contains(haystack, needle) ==> |needle| <= |haystack|
    decreases |haystack|
  {
    StartsWith(haystack, needle) || (haystack != [] && Contains(haystack[1..], needle))
  }

  /** Contains agrees with the declarative reading: some position holds an
      occurrence. */
  lemma {:induction false} ContainsIff(haystack: string, needle: string)
    ensures Contains(haystack, needle) <==> exists i :: OccursAt(haystack, needle, i)
    decreases |haystack|
  {
    if haystack != [] {
      ContainsIff(haystack[1..], needle);
      assert forall i :: 1 <= i ==> (OccursAt(haystack, needle, i) <==> OccursAt(haystack[1..], needle, i - 1));
      if exists i :: OccursAt(haystack, needle, i) {
        var i :| OccursAt(haystack, needle, i);
        if i > 0 { assert OccursAt(haystack[1..], needle, i - 1); }
      }
      if StartsWith(haystack, needle) {
        assert OccursAt(haystack, needle, 0);
      } else if Contains(haystack[1..], needle) {
        var j :| OccursAt(haystack[1..], needle, j);
        assert OccursAt(haystack, needle, j + 1);
      }
    } else {
      assert OccursAt(haystack, needle, 0) <==> StartsWith(haystack, needle);
    }
  }

  /** A one-character string occurs exactly where that character does. */
  lemma {:induction false} ContainsChar(haystack: string, c: char)
    ensures Contains(haystack, [c]) <==> c in haystack
    decreases |haystack|
  {
    if haystack != [] {
      ContainsChar(haystack[1..], c);
      assert haystack == [haystack[0]] + haystack[1..];
    }
  }

  /** A needle with a character the haystack lacks does not occur in it. */
  lemma {:induction false} ContainsNeedsChar(haystack: string, needle: string, c: char)
    requires c in needle && c !in haystack
    ensures !Contains(haystack, needle)
    decreases |haystack|
  {
    if haystack != [] {
      ContainsNeedsChar(haystack[1..], needle, c);
    }
  }

  /** What occurs in a string occurs in any longer string that begins with it. */
  lemma {:induction false} ContainsPrefix(a: string, b: string, needle: string)
    requires Contains(a, needle)
    ensures Contains(a + b, needle)
    decreases |a|
  {
    if StartsWith(a, needle) {
      assert (a + b)[..|needle|] == a[..|needle|];
    } else {
      ContainsPrefix(a[1..], b, needle);
      assert (a + b)[1..] == a[1..] + b;
    }
  }

  /** The empty string occurs in every string. */
  lemma ContainsEmpty(haystack: string)
    ensures Contains(haystack, "")
  {
  }

  /** Lowering both sides keeps every occurrence: containment survives case folding. */
  lemma {:induction false} ContainsLower(haystack: string, needle: string)
    requires Contains(haystack, needle)
    ensures Contains(Lower(haystack), Lower(needle))
    decreases |haystack|
  {
    if StartsWith(haystack, needle) {
      assert Lower(haystack)[..|needle|] == Lower(haystack[..|needle|]);
    } else {
      ContainsLower(haystack[1..], needle);
      assert Lower(haystack)[1..] == Lower(haystack[1..]);
    }
  }

  /** The position of the first occurrence of `sep` in `s` (Python's `s.find(sep)`,
      with None for -1). */
  function IndexOf(s: string, sep: string): (r: Option<nat>)
    requires |sep| > 0
    ensures r.Some? ==> OccursAt(s, sep, r.value)
    ensures r.Some? ==> forall j :: 0 <= j < r.value ==> !OccursAt(s, sep, j)
    ensures r.None? ==> !Contains(s, sep)
    decreases |s|
  {
    if |s| < |sep| then None
    else if s[..|sep|] == sep then Some(0)
    else
      match IndexOf(s[1..], sep)
      case None => None
      case Some(k) =>
        OccursShift(s, sep);
        Some(k + 1)
  }

  /** Past the first position, `sep` occurs in `s` where it occurs in its tail. */
  lemma OccursShift(s: string, sep: string)
    requires s != []
    ensures forall j :: 1 <= j ==> (OccursAt(s, sep, j) <==> OccursAt(s[1..], sep, j - 1))
  {
  }

  /** Python's `s.split(sep)` for a non-empty separator: cut at each leftmost,
      non-overlapping occurrence of `sep`. */
  function Split(s: string, sep: string): (r: seq<string>)
    requires |sep| > 0
    ensures |r| >= 1
    ensures |r| == 1 <==> !Contains(s, sep)
    ensures |r| == 1 ==> r[0] == s
    decreases |s|
  {
    match IndexOf(s, sep)
    case None => [s]
    case Some(i) =>
      ContainsIff(s, sep);
      [s[..i]] + Split(s[i + |sep|..], sep)
  }

  /** Python's `sep.join(parts)`. */
  function Join(parts: seq<string>, sep: string): string
  {
    if parts == [] then ""
    else if |parts| == 1 then parts[0]
    else parts[0] + sep + Join(parts[1..], sep)
  }

  /** Joining and splitting on a one-character separator that no part contains
      gives the parts back. */
  lemma {:induction false} SplitJoin(parts: seq<string>, c: char)
    requires |parts| >= 1
    requires forall k :: 0 <= k < |parts| ==> c !in parts[k]
    ensures Split(Join(parts, [c]), [c]) == parts
    decreases |parts|
  {
    if |parts| == 1 {
      ContainsChar(parts[0], c);
    } else {
      var x, rest := parts[0], Join(parts[1..], [c]);
      var s := x + [c] + rest;
      assert Join(parts, [c]) == s;
      assert OccursAt(s, [c], |x|);
      ContainsIff(s, [c]);
      var idx := IndexOf(s, [c]);
      assert idx == Some(|x|) by {
        assert idx.Some? && idx.value <= |x|;
        assert s[idx.value] == c;
        assert forall k :: 0 <= k < |x| ==> s[k] == x[k];
      }
      assert s[..|x|] == x && s[|x| + 1..] == rest;
      SplitJoin(parts[1..], c);
    }
  }

  /** When the first occurrence of `sep` is at the end, the split has an empty tail. */
  lemma SplitTrailing(s: string, sep: string)
    requires |sep| > 0
    requires IndexOf(s + sep, sep) == Some(|s|)
    ensures Split(s + sep, sep) == [s, ""]
  {
    assert (s + sep)[|s| + |sep|..] == "";
    assert (s + sep)[..|s|] == s;
    assert !Contains("", sep);
  }

  /** When `sep` first occurs at `i`, the split is the text before it followed by
      the split of everything after it. */
  lemma {:induction false} SplitAtFirst(s: string, sep: string, i: nat)
    requires |sep| > 0
    requires IndexOf(s, sep) == Some(i)
    ensures Split(s, sep) == [s[..i]] + Split(s[i + |sep|..], sep)
  {
    assert OccursAt(s, sep, i);
    var parts := Split(s, sep);
    assert parts == [s[..i]] + Split(s[i + |sep|..], sep);
  }

  /** Python's `s.startswith(prefix)`. */
  predicate StartsWith(s: string, prefix: string)
  {
    |prefix| <= |s| && s[..|prefix|] == prefix
  }
}
