// The text handling of load_config: an environment value is split on
// newlines when it has any, otherwise on semicolons; a file is taken line by
// line with blank lines and '#' comment lines dropped. Reading the
// environment and the file system is left to the caller, which passes in
// what it read.

module Config {
  import opened PyText

  /** Every entry is stripped and non-empty. */
  predicate AllClean(xs: seq<string>)
  {
    forall k :: 0 <= k < |xs| ==> xs[k] != "" && IsStripped(xs[k])
  }

  /** `[line.strip() for line in parts if line.strip()]` */
  function StripNonEmpty(parts: seq<string>): (r: seq<string>)
    ensures |r| <= |parts|
    ensures AllClean(r)
  {
    if parts == [] then []
    else
      var rest := StripNonEmpty(parts[1..]);
      var t := Strip(parts[0]);
      if t != "" then [t] + rest else rest
  }

  /** Parts are taken one by one, so the order of the input is kept. */
  lemma {:induction false} StripNonEmptyAppend(a: seq<string>, b: seq<string>)
    ensures StripNonEmpty(a + b) == StripNonEmpty(a) + StripNonEmpty(b)
    decreases |a|
  {
    if a == [] {
      assert a + b == b;
    } else {
      assert (a + b)[1..] == a[1..] + b;
      StripNonEmptyAppend(a[1..], b);
    }
  }

  /** An entry comes out iff it is non-empty and some part strips to it. */
  lemma {:induction false} StripNonEmptyMembership(parts: seq<string>, x: string)
    ensures x in StripNonEmpty(parts) <==> x != "" && exists k :: 0 <= k < |parts| && Strip(parts[k]) == x
    decreases |parts|
  {
    if parts != [] {
      StripNonEmptyMembership(parts[1..], x);
      if x in StripNonEmpty(parts[1..]) {
        var k :| 0 <= k < |parts[1..]| && Strip(parts[1..][k]) == x;
        assert parts[k + 1] == parts[1..][k];
      }
      if x != "" && exists k :: 0 <= k < |parts| && Strip(parts[k]) == x {
        var k :| 0 <= k < |parts| && Strip(parts[k]) == x;
        if k > 0 {
          assert parts[1..][k - 1] == parts[k];
        }
      }
    }
  }

  /** The separator used for an environment value: '\n' if it has one, else ';'. */
  function EnvSeparator(content: string): (sep: string)
    ensures |sep| == 1
    ensures sep == "\n" <==> '\n' in content
    ensures sep != "\n" ==> sep == ";"
  {
    if '\n' in content then "\n" else ";"
  }

  /** The entries of a configuration given in an environment variable. */
  function SplitEnvContent(content: string): (r: seq<string>)
    ensures AllClean(r)
  {
    StripNonEmpty(Split(content, EnvSeparator(content)))
  }

  /** A raw line read from the file is kept iff it is not blank and does not start
      with '#' (before stripping: an indented '#' line is kept). */
  predicate KeepFileLine(line: string)
  {
    Strip(line) != "" && !StartsWith(line, "#")
  }

  /** `[line.strip() for line in f if line.strip() and not line.startswith('#')]` */
  function FileEntries(lines: seq<string>): (r: seq<string>)
    ensures |r| <= |lines|
    ensures AllClean(r)
  {
    if lines == [] then []
    else
      var rest := FileEntries(lines[1..]);
      if KeepFileLine(lines[0]) then [Strip(lines[0])] + rest else rest
  }

  /** load_config: `env` is the environment variable's value (None when unset or
      when no variable is named), `file` the file's lines (None when it does not
      exist). A set, non-empty variable wins over the file. */
  function LoadConfig(env: Option<string>, file: Option<seq<string>>): (r: seq<string>)
    ensures AllClean(r)
    ensures env.Some? && env.value != "" ==> r == SplitEnvContent(env.value)
    ensures (env.None? || env.value == "") && file.Some? ==> r == FileEntries(file.value)
    ensures (env.None? || env.value == "") && file.None? ==> r == []
  {
    if env.Some? && env.value != "" then SplitEnvContent(env.value)
    else if file.Some? then FileEntries(file.value)
    else []
  }

  /** Filtering works line by line, so the order of the input is kept. */
  lemma {:induction false} FileEntriesAppend(a: seq<string>, b: seq<string>)
    ensures FileEntries(a + b) == FileEntries(a) + FileEntries(b)
    decreases |a|
  {
    if a == [] {
      assert a + b == b;
    } else {
      assert (a + b)[1..] == a[1..] + b;
      FileEntriesAppend(a[1..], b);
    }
  }

  /** An entry comes out of the file iff some kept line strips to it. */
  lemma {:induction false} FileEntriesMembership(lines: seq<string>, x: string)
    ensures x in FileEntries(lines) <==> exists k :: 0 <= k < |lines| && KeepFileLine(lines[k]) && Strip(lines[k]) == x
    decreases |lines|
  {
    if lines != [] {
      FileEntriesMembership(lines[1..], x);
      if x in FileEntries(lines[1..]) {
        var k :| 0 <= k < |lines[1..]| && KeepFileLine(lines[1..][k]) && Strip(lines[1..][k]) == x;
        assert lines[k + 1] == lines[1..][k];
      }
      if exists k :: 0 <= k < |lines| && KeepFileLine(lines[k]) && Strip(lines[k]) == x {
        var k :| 0 <= k < |lines| && KeepFileLine(lines[k]) && Strip(lines[k]) == x;
        if k > 0 {
          assert lines[1..][k - 1] == lines[k];
        }
      }
    }
  }

  /** A comment line is dropped, but a '#' after leading whitespace is kept. */
  lemma CommentOnlyAtColumnZero(text: string)
    requires IsStripped(text)
    ensures FileEntries(["#" + text]) == []
    ensures text != "" && text[0] == '#' ==> FileEntries([" " + text]) == [text]
  {
    assert StartsWith("#" + text, "#");
    if text != "" && text[0] == '#' {
      var line := " " + text;
      assert !StartsWith(line, "#");
      assert TrimmedAt(line, text, 1);
      StripUnique(line, text, 1);
    }
  }

  /** Entries joined with ';' (and no newline anywhere) are read back as they were. */
  lemma SemicolonRoundTrip(xs: seq<string>)
    requires AllClean(xs)
    requires forall k :: 0 <= k < |xs| ==> ';' !in xs[k] && '\n' !in xs[k]
    ensures SplitEnvContent(Join(xs, ";")) == xs
  {
    JoinAvoids(xs, ";", '\n');
    if xs == [] {
      assert Split("", ";") == [""];
      assert Strip("") == "";
    } else {
      SplitJoin(xs, ';');
      StripNonEmptyClean(xs);
    }
  }

  /** Two or more entries joined with newlines are read back as they were, even
      when they contain ';'. */
  lemma NewlineRoundTrip(xs: seq<string>)
    requires |xs| >= 2 && AllClean(xs)
    requires forall k :: 0 <= k < |xs| ==> '\n' !in xs[k]
    ensures SplitEnvContent(Join(xs, "\n")) == xs
  {
    var s := Join(xs, "\n");
    assert s == xs[0] + "\n" + Join(xs[1..], "\n");
    assert s[|xs[0]|] == '\n';
    SplitJoin(xs, '\n');
    StripNonEmptyClean(xs);
  }

  /** A single line with ';' in it is cut at each ';': there is no newline to prefer. */
  lemma SingleLineSplitsOnSemicolon(a: string, b: string)
    requires a != "" && b != "" && IsStripped(a) && IsStripped(b)
    requires ';' !in a && ';' !in b && '\n' !in a && '\n' !in b
    ensures SplitEnvContent(a + ";" + b) == [a, b]
  {
    assert Join([a, b], ";") == a + ";" + b;
    SemicolonRoundTrip([a, b]);
  }

  lemma {:induction false} StripNonEmptyClean(xs: seq<string>)
    requires AllClean(xs)
    ensures StripNonEmpty(xs) == xs
    decreases |xs|
  {
    if xs != [] {
      StripStripped(xs[0]);
      StripNonEmptyClean(xs[1..]);
    }
  }

  lemma {:induction false} JoinAvoids(xs: seq<string>, sep: string, c: char)
    requires c !in sep
    requires forall k :: 0 <= k < |xs| ==> c !in xs[k]
    ensures c !in Join(xs, sep)
    decreases |xs|
  {
    if |xs| > 1 {
      JoinAvoids(xs[1..], sep, c);
    }
  }
}
