// remove_illegal_xml_chars: deletes the ASCII control characters that the
// `Char` production of section 2.2 of XML 1.0 does not allow. Only the ASCII
// ones are deleted; U+FFFE, U+FFFF and surrogates pass through untouched.

module XmlText {
  import opened PyText

  /** The characters of the regular expression class [\x00-\x08\x0b\x0c\x0e-\x1f]. */
  predicate IsIllegalXmlChar(c: char)
  {
    c <= '\U{08}' || c == '\U{0B}' || c == '\U{0C}' || ('\U{0E}' <= c <= '\U{1F}')
  }

  predicate NoIllegalChars(s: string)
  {
    forall i :: 0 <= i < |s| ==> !IsIllegalXmlChar(s[i])
  }

  /** `re.sub(illegal_chars, '', text)`: keep every other character, in order. */
  function DropIllegal(s: string): (r: string)
    ensures |r| <= |s|
    ensures NoIllegalChars(r)
  {
    if s == [] then []
    else
      var rest := DropIllegal(s[1..]);
      if IsIllegalXmlChar(s[0]) then rest else [s[0]] + rest
  }

  /** Every legal character keeps its number of occurrences; every illegal one
      is gone. */
  lemma {:induction false} DropIllegalCounts(s: string)
    ensures forall c :: multiset(DropIllegal(s))[c] == if IsIllegalXmlChar(c) then 0 else multiset(s)[c]
    decreases |s|
  {
    if s != [] {
      DropIllegalCounts(s[1..]);
      assert s == [s[0]] + s[1..];
    }
  }

  /** remove_illegal_xml_chars(text): None and "" give "", anything else is filtered. */
  function RemoveIllegalXmlChars(text: Option<string>): (r: string)
    ensures text.None? ==> r == ""
    ensures NoIllegalChars(r)
    ensures text.Some? ==> r == DropIllegal(text.value)
  {
    match text
    case None => ""
    case Some(s) => if s == "" then "" else DropIllegal(s)
  }

  /** The filter works character by character: it distributes over concatenation
      (so the kept characters stay in their original order). */
  lemma {:induction false} DropIllegalAppend(a: string, b: string)
    ensures DropIllegal(a + b) == DropIllegal(a) + DropIllegal(b)
    decreases |a|
  {
    if a == [] {
      assert a + b == b;
    } else {
      assert (a + b)[1..] == a[1..] + b;
      DropIllegalAppend(a[1..], b);
    }
  }

  /** A string with no illegal characters (TAB, LF, CR included) is left as it is. */
  lemma {:induction false} DropIllegalKeepsLegal(s: string)
    requires NoIllegalChars(s)
    ensures DropIllegal(s) == s
    decreases |s|
  {
    if s != [] {
      DropIllegalKeepsLegal(s[1..]);
    }
  }

  /** Sanitising twice is the same as sanitising once. */
  lemma SanitiseIdempotent(text: Option<string>)
    ensures RemoveIllegalXmlChars(Some(RemoveIllegalXmlChars(text))) == RemoveIllegalXmlChars(text)
  {
    var r := RemoveIllegalXmlChars(text);
    if r != "" {
      DropIllegalKeepsLegal(r);
    }
  }

  /** TAB, LF and CR are whitespace, not illegal: they survive sanitising. */
  lemma SanitiseKeepsTabNewlineReturn(a: string, b: string)
    requires NoIllegalChars(a) && NoIllegalChars(b)
    ensures RemoveIllegalXmlChars(Some(a + "\t\n\r" + b)) == a + "\t\n\r" + b
  {
    DropIllegalKeepsLegal(a + "\t\n\r" + b);
  }

  /** A control character inside a title is deleted, not escaped. */
  lemma SanitiseDeletesControl(a: string, b: string)
    requires NoIllegalChars(a) && NoIllegalChars(b)
    ensures RemoveIllegalXmlChars(Some(a + "\U{01}" + b)) == a + b
  {
    var ctl := "\U{01}";
    DropIllegalAppend(a, ctl + b);
    DropIllegalAppend(ctl, b);
    assert DropIllegal(ctl) == [];
    DropIllegalKeepsLegal(a);
    DropIllegalKeepsLegal(b);
    assert DropIllegal(a + (ctl + b)) == a + b;
    assert a + ctl + b == a + (ctl + b);
  }

  /** Legal text in front passes through unchanged. */
  lemma LegalPrefix(a: string, t: string)
    requires NoIllegalChars(a)
    ensures DropIllegal(a + t) == a + DropIllegal(t)
  {
    DropIllegalAppend(a, t);
    DropIllegalKeepsLegal(a);
  }

  /** Sanitising text framed by legal text sanitises the parts between. */
  lemma DropIllegalFramed(a: string, m: string, b: string, t: string)
    requires NoIllegalChars(a) && NoIllegalChars(b)
    ensures DropIllegal(a + (m + (b + t))) == a + (DropIllegal(m) + (b + DropIllegal(t)))
  {
    LegalPrefix(a, m + (b + t));
    DropIllegalAppend(m, b + t);
    LegalPrefix(b, t);
  }
}
