/**
 * The text clean-up and the migration planning of convert.py, which copies
 * the questions and answers of the old SQL Server database into MySQL and
 * exports them as an SQL script.
 */
module Convert {
  import opened Wrappers
  import opened Strings
  import opened Sorting

  // ------------------------------------------------------------------
  // Text clean-up
  // ------------------------------------------------------------------

  /**
   * `truncate_content(content, max_length)`: a text longer than the limit is
   * cut to its first `max_length` characters; any other text is returned as
   * it came.
   */
  function TruncateContent(content: string, maxLength: int): (r: string)
    ensures |r| <= |content| && r == content[..|r|]
    ensures |content| <= maxLength ==> r == content
    ensures 0 <= maxLength < |content| ==> |r| == maxLength
  {
    if content != "" && |content| > maxLength then PyPrefix(content, maxLength) else content
  }

  /** No two characters of the class side by side. */
  predicate NoDoubleRun(s: string, cls: char -> bool) {
    forall i :: 0 <= i < |s| - 1 ==> !(cls(s[i]) && cls(s[i + 1]))
  }

  /** No two whitespace characters side by side. */
  predicate NoDoubleSpace(s: string) {
    NoDoubleRun(s, IsSpace)
  }

  /**
   * Replacing every run of at least one (or two) characters of a class by one
   * character of that class keeps the text empty exactly when it was, and
   * keeps each end in the class exactly when it was.
   */
  lemma {:induction false} SubRunsEnds(s: string, cls: char -> bool, minRun: nat, rep: string)
    requires 1 <= minRun <= 2 && |rep| == 1 && cls(rep[0])
    ensures var r := SubRuns(s, cls, minRun, rep);
      (r == [] <==> s == [])
      && (s != [] ==> (cls(r[0]) <==> cls(s[0])) && (cls(r[|r| - 1]) <==> cls(s[|s| - 1])))
    decreases |s|
  {
    if s != [] {
      var r := SubRuns(s, cls, minRun, rep);
      var k := if cls(s[0]) then RunLength(s, cls) else 1;
      var piece := if !cls(s[0]) then [s[0]] else if k >= minRun then rep else s[..k];
      var rest := SubRuns(s[k..], cls, minRun, rep);
      assert |piece| == 1 && (cls(piece[0]) <==> cls(s[0]));
      SubRunsEnds(s[k..], cls, minRun, rep);
      assert r == piece + rest;
      if s[k..] != [] {
        assert s[|s| - 1] == s[k..][|s[k..]| - 1];
        assert r[|r| - 1] == rest[|rest| - 1];
      }
    }
  }

  /** ... and leaves no two characters of the class side by side. */
  lemma {:induction false} SubRunsSingles(s: string, cls: char -> bool, minRun: nat, rep: string)
    requires 1 <= minRun <= 2 && |rep| == 1 && cls(rep[0])
    ensures NoDoubleRun(SubRuns(s, cls, minRun, rep), cls)
    decreases |s|
  {
    if s != [] {
      var r := SubRuns(s, cls, minRun, rep);
      var k := if cls(s[0]) then RunLength(s, cls) else 1;
      var piece := if !cls(s[0]) then [s[0]] else if k >= minRun then rep else s[..k];
      var rest := SubRuns(s[k..], cls, minRun, rep);
      assert |piece| == 1 && (cls(piece[0]) <==> cls(s[0]));
      SubRunsSingles(s[k..], cls, minRun, rep);
      SubRunsEnds(s[k..], cls, minRun, rep);
      assert r == piece + rest;
      if s[k..] != [] && cls(s[0]) {
        assert !cls(s[k..][0]);
      }
      assert forall i :: 1 <= i < |r| ==> r[i] == rest[i - 1];
    }
  }

  lemma SubRunsSingleSpaces(s: string, minRun: nat)
    requires 1 <= minRun <= 2
    ensures var r := SubRuns(s, IsSpace, minRun, " ");
      NoDoubleSpace(r)
      && (r == [] <==> s == [])
      && (s != [] ==> (IsSpace(r[0]) <==> IsSpace(s[0])) && (IsSpace(r[|r| - 1]) <==> IsSpace(s[|s| - 1])))
  {
    SubRunsEnds(s, IsSpace, minRun, " ");
    SubRunsSingles(s, IsSpace, minRun, " ");
  }

  /** `re.sub(r'\s+', ' ', text)` (convert.py line 29). */
  function CollapseWhitespace(text: string): string {
    SubRuns(text, IsSpace, 1, " ")
  }

  /** `text.strip()` followed by `re.sub(r'\s{2,}', ' ', text)` (lines 34-35). */
  function CleanTextTail(text: string): string {
    SubRuns(Strip(text), IsSpace, 2, " ")
  }

  /**
   * `clean_text`: the emoji and HTML-entity removal of lines 27-28 and the
   * punctuation passes of lines 30-33 are the parameters `entities` and
   * `punctuation`; the whitespace steps are modelled.
   */
  function CleanText(text: string, entities: string -> string, punctuation: string -> string): string {
    CleanTextTail(punctuation(CollapseWhitespace(entities(text))))
  }

  /** After `\s+` becomes one space, no two whitespace characters are adjacent. */
  lemma CollapseWhitespaceSpec(text: string)
    ensures NoDoubleSpace(CollapseWhitespace(text))
  {
    SubRunsSingleSpaces(text, 1);
  }

  /**
   * Whatever the other passes do, `clean_text` returns a text with no
   * whitespace at either end and no two whitespace characters side by side.
   */
  lemma CleanTextSpec(text: string, entities: string -> string, punctuation: string -> string)
    ensures var r := CleanText(text, entities, punctuation);
      NoDoubleSpace(r) && (r == [] || (!IsSpace(r[0]) && !IsSpace(r[|r| - 1])))
  {
    var t := Strip(punctuation(CollapseWhitespace(entities(text))));
    StripShape(punctuation(CollapseWhitespace(entities(text))));
    SubRunsSingleSpaces(t, 2);
  }

  /** Cleaning twice changes nothing more: the tail is idempotent. */
  lemma CleanTextTailIdempotent(text: string)
    ensures CleanTextTail(CleanTextTail(text)) == CleanTextTail(text)
  {
    var r := CleanTextTail(text);
    StripShape(text);
    SubRunsSingleSpaces(Strip(text), 2);
    StripTrimmed(r);
    SubRunsNoDouble(r);
  }

  /** A text with no two adjacent whitespace characters has no run to replace. */
  lemma {:induction false} SubRunsNoDouble(s: string)
    requires NoDoubleSpace(s)
    ensures SubRuns(s, IsSpace, 2, " ") == s
    decreases |s|
  {
    if s != [] {
      assert NoDoubleSpace(s[1..]);
      if !IsSpace(s[0]) {
        SubRunsNoDouble(s[1..]);
      } else {
        if |s| > 1 {
          assert !IsSpace(s[1]) && s[1..][0] == s[1];
        }
        assert RunLength(s, IsSpace) == 1;
        SubRunsNoDouble(s[1..]);
        assert s[..1] + s[1..] == s;
      }
    }
  }

  /**
   * `html_to_text`: `None` gives the empty text; otherwise the comment,
   * script, style and tag passes of lines 43-52 (the parameter `tags`) are
   * followed by the newline steps: runs of newlines become one, then every
   * newline becomes a space.
   */
  function HtmlToText(html: Option<string>, tags: string -> string): string {
    match html
    case None => ""
    case Some(h) => ReplaceAll(SubRuns(tags(h), IsNewline, 2, "\n"), "\n", " ")
  }

  /** The converted text never holds a newline, and `None` converts to the empty text. */
  lemma HtmlToTextSpec(html: Option<string>, tags: string -> string)
    ensures '\n' !in HtmlToText(html, tags)
    ensures html.None? ==> HtmlToText(html, tags) == ""
  {
    if html.Some? {
      ReplaceCharRemoves(SubRuns(tags(html.value), IsNewline, 2, "\n"), '\n', " ");
    }
  }

  // ------------------------------------------------------------------
  // SQL export
  // ------------------------------------------------------------------

  /** `s.replace("'", "''")`: the escaping of every text written into an SQL literal. */
  function Escape(s: string): string {
    ReplaceAll(s, "'", "''")
  }

  /** Un-doubling the quotes, the inverse of `Escape` (MySQL's backslash escapes are not modelled). */
  function Unescape(s: string): string {
    ReplaceAll(s, "''", "'")
  }

  /** Every quote comes in a doubled pair. */
  predicate QuotesPaired(s: string)
    decreases |s|
  {
    s == [] || (s[0] != '\'' && QuotesPaired(s[1..])) || (|s| >= 2 && s[0] == '\'' && s[1] == '\'' && QuotesPaired(s[2..]))
  }

  /** Un-doubling recovers the text, and the escaped text has no unpaired quote. */
  lemma {:induction false} EscapeRoundTrip(s: string)
    ensures Unescape(Escape(s)) == s
    ensures QuotesPaired(Escape(s))
    decreases |s|
  {
    if s != [] {
      EscapeRoundTrip(s[1..]);
      var rest := Escape(s[1..]);
      if s[0] == '\'' {
        assert StartsWith(s, "'");
        assert Escape(s) == "''" + rest;
        assert StartsWith("''" + rest, "''");
        assert ("''" + rest)[2..] == rest;
        assert ("''" + rest)[0] == '\'' && ("''" + rest)[1] == '\'';
      } else {
        assert !StartsWith(s, "'");
        assert Escape(s) == [s[0]] + rest;
        assert ([s[0]] + rest)[0] == s[0];
        assert !StartsWith([s[0]] + rest, "''");
        assert ([s[0]] + rest)[1..] == rest;
      }
    }
  }

  /** A text without quotes is written as it is. */
  lemma EscapeNoQuote(s: string)
    requires '\'' !in s
    ensures Escape(s) == s
  {
    if Contains(s, "'") {
      ContainsChar(s, "'", 0);
      assert false;
    }
    ReplaceAllUnchanged(s, "'", "''");
  }

  /** A text column: the escaped text, or the default when the value is missing or empty. */
  function SqlText(value: Option<string>, default: string): string {
    if value.Some? && value.value != "" then Escape(value.value) else default
  }

  /** Un-doubling the quotes of a text column recovers the value, or the column is the default when there was none. */
  lemma SqlTextRoundTrip(value: Option<string>, default: string)
    ensures value.Some? && value.value != "" ==>
      Unescape(SqlText(value, default)) == value.value && QuotesPaired(SqlText(value, default))
    ensures !(value.Some? && value.value != "") ==> SqlText(value, default) == default
  {
    if value.Some? && value.value != "" {
      EscapeRoundTrip(value.value);
    }
  }

  /** A nullable text column: a quoted, escaped literal, or `NULL`. */
  function SqlNullableText(value: Option<string>): string {
    if value.Some? && value.value != "" then "'" + Escape(value.value) + "'" else "NULL"
  }

  /** The nullable column is a quoted literal whose inside un-doubles to the value, or `NULL`. */
  lemma SqlNullableTextRoundTrip(value: Option<string>)
    ensures var lit := SqlNullableText(value);
      if value.Some? && value.value != "" then
        |lit| >= 2 && lit[0] == '\'' && lit[|lit| - 1] == '\'' && Unescape(lit[1..|lit| - 1]) == value.value
        && QuotesPaired(lit[1..|lit| - 1])
      else lit == "NULL"
  {
    if value.Some? && value.value != "" {
      EscapeRoundTrip(value.value);
      var lit := SqlNullableText(value);
      assert lit[1..|lit| - 1] == Escape(value.value);
    }
  }
}
