/** The scanner under the stock-table extractor (webScraper.js): `RegExp.prototype.exec` for the
    global, dot-all patterns `/<tr[^>]*>(.*?)<\/tr>/gs` and `/<td[^>]*>(.*?)<\/td>/gs`, which find
    rows in a page and cells in a row without any HTML tree, and the cleaning chain that turns the
    text between `<td …>` and `</td>` into a cell value. */
module HtmlScan {
  import opened Wrappers
  import opened JsText

  const RowOpen := "<tr"
  const RowClose := "</tr>"
  const CellOpen := "<td"
  const CellClose := "</td>"

  /** Where one match lies: `open` at `start`, the body from `bodyStart` (just after the `>` that
      closes the opening tag) to `bodyEnd` (where the closing tag begins), and `end`, just after
      the closing tag, where the next search resumes (the regular expression's `lastIndex`). */
  datatype Span = Span(start: nat, bodyStart: nat, bodyEnd: nat, end: nat)

  /** `/<open[^>]*>(.*?)<close>/s` matches `s` at `p`: `[^>]*` runs to the `>` at `q`, the first
      `>` after `open`, and the lazy `(.*?)` stops at `e`, the first `close` after that `>`. */
  ghost predicate MatchAt(s: string, open: string, close: string, p: int, q: int, e: int) {
    && OccursAt(s, open, p)
    && p + |open| <= q < |s| && s[q] == '>'
    && (forall k :: p + |open| <= k < q ==> s[k] != '>')
    && q < e && OccursAt(s, close, e)
    && (forall k :: q < k < e ==> !OccursAt(s, close, k))
  }

  /** `exec` with `lastIndex == from`: the first match at or after `from`, if any. */
  function NextElement(s: string, open: string, close: string, from: nat): (r: Option<Span>)
    ensures r.Some? ==> from <= r.value.start < r.value.bodyStart <= r.value.bodyEnd <= r.value.end <= |s|
    ensures r.Some? ==> r.value.end == r.value.bodyEnd + |close| && from < r.value.end
  {
    match IndexOf(s, open, from)
    case None => None
    case Some(p) =>
      match IndexOf(s, ">", p + |open|)
      case None => None
      case Some(q) =>
        match IndexOf(s, close, q + 1)
        case None => None
        case Some(e) => Some(Span(p, q + 1, e, e + |close|))
  }

  /** `NextElement` is the regular expression's own answer: the match it reports is one, there
      is no match that starts earlier, the match at that start is unique, and when it reports
      none there is no match at all from `from` on. */
  lemma {:induction false} NextElementIsLeftmostMatch(s: string, open: string, close: string, from: nat)
    ensures var r := NextElement(s, open, close, from);
      && (r.Some? ==> MatchAt(s, open, close, r.value.start, r.value.bodyStart - 1, r.value.bodyEnd))
      && (r.Some? ==> forall p, q, e :: from <= p < r.value.start ==> !MatchAt(s, open, close, p, q, e))
      && (r.Some? ==> forall q, e :: MatchAt(s, open, close, r.value.start, q, e) ==>
                                      q == r.value.bodyStart - 1 && e == r.value.bodyEnd)
      && (r.None? ==> forall p, q, e :: from <= p ==> !MatchAt(s, open, close, p, q, e))
  {
    forall k ensures OccursAt(s, ">", k) <==> 0 <= k < |s| && s[k] == '>' {
      OccursAtChar(s, '>', k);
    }
  }

  /** The bodies of all the matches the `exec` loop finds from `from` on, in document order. */
  function AllMatches(s: string, open: string, close: string, from: nat): (r: seq<string>)
    ensures |r| <= (if from <= |s| then |s| - from else 0)
    decreases |s| - from
  {
    match NextElement(s, open, close, from)
    case None => []
    case Some(m) => [s[m.bodyStart..m.bodyEnd]] + AllMatches(s, open, close, m.end)
  }

  // ---------------------------------------------------------------------------------------------
  // Cleaning a cell

  /** The text of a cell: tags removed, then `&nbsp;`, `&amp;`, `&lt;` and `&gt;` decoded in that
      order, one global replacement each, then white space trimmed from both ends. */
  function CleanCell(raw: string): (r: string)
    ensures Trimmed(r)
  {
    var untagged := StripTags(raw);
    var spaced := ReplaceAll(untagged, "&nbsp;", " ");
    var ampersands := ReplaceAll(spaced, "&amp;", "&");
    var lessThans := ReplaceAll(ampersands, "&lt;", "<");
    Trim(ReplaceAll(lessThans, "&gt;", ">"))
  }

  /** No `&gt;` survives cleaning: the last decoding pass removes every one, and trimming cannot
      create one. */
  lemma {:induction false} CleanCellLeavesNoEscapedGreaterThan(raw: string)
    ensures forall k :: !OccursAt(CleanCell(raw), "&gt;", k)
  {
    var lessThans := ReplaceAll(ReplaceAll(ReplaceAll(StripTags(raw), "&nbsp;", " "), "&amp;", "&"), "&lt;", "<");
    ReplaceAllLeavesNoPattern(lessThans, "&gt;", ">");
    NoOccurrenceInTrim(ReplaceAll(lessThans, "&gt;", ">"), "&gt;");
  }

  /** Plain text, with no `&` and nothing that looks like a tag, is only trimmed. */
  lemma {:induction false} CleanCellPlainText(raw: string)
    requires NoTag(raw) && '&' !in raw
    ensures CleanCell(raw) == Trim(raw)
  {
    StripTagsKeepsUntagged(raw);
    NoOccurrenceWithoutHead(raw, "&nbsp;");
    ReplaceAllWithoutPattern(raw, "&nbsp;", " ");
    NoOccurrenceWithoutHead(raw, "&amp;");
    ReplaceAllWithoutPattern(raw, "&amp;", "&");
    NoOccurrenceWithoutHead(raw, "&lt;");
    ReplaceAllWithoutPattern(raw, "&lt;", "<");
    NoOccurrenceWithoutHead(raw, "&gt;");
    ReplaceAllWithoutPattern(raw, "&gt;", ">");
  }

  /** An escaped ampersand between two pieces of plain text is decoded, and nothing else
      changes but the trimming. When the text after it starts with `lt;` or `gt;` the result is
      decoded a second time (`&amp;lt;` becomes `<`), so that case is excluded here. */
  lemma {:induction false} CleanCellDecodesAmpersand(a: string, b: string)
    requires '<' !in a && '&' !in a && '<' !in b && '&' !in b
    requires b == [] || (b[0] != 'l' && b[0] != 'g')
    ensures CleanCell(a + "&amp;" + b) == Trim(a + "&" + b)
  {
    var raw := a + "&amp;" + b;
    var n := |a|;
    assert forall k :: 0 <= k < |raw| ==> raw[k] != '<';
    StripTagsKeepsUntagged(raw);
    assert forall k :: 0 <= k < |raw| && k != n ==> raw[k] != '&';
    NoOccurrenceAwayFrom(raw, "&nbsp;", n);
    ReplaceAllWithoutPattern(raw, "&nbsp;", " ");
    ReplaceAllSingleOccurrence(a, "&amp;", b, "&");
    var decoded := a + "&" + b;
    assert forall k :: 0 <= k < |decoded| && k != n ==> decoded[k] != '&';
    NoOccurrenceAwayFrom(decoded, "&lt;", n);
    ReplaceAllWithoutPattern(decoded, "&lt;", "<");
    NoOccurrenceAwayFrom(decoded, "&gt;", n);
    ReplaceAllWithoutPattern(decoded, "&gt;", ">");
  }

  /** For example, `A &amp; B` cleans to `A & B`. */
  lemma CleanCellAmpersandExample()
    ensures CleanCell("A &amp; B") == "A & B"
  {
    assert "A &amp; B" == "A " + "&amp;" + " B";
    CleanCellDecodesAmpersand("A ", " B");
    DecodedExampleIsTrimmed();
  }

  lemma DecodedExampleIsTrimmed()
    ensures "A " + "&" + " B" == "A & B" && Trimmed("A & B")
  {
  }

  /** The decoding passes run one after another, so an escaped `&lt;` is decoded twice:
      `&amp;lt;` becomes `<`, not `&lt;`. */
  lemma CleanCellDecodesTwice()
    ensures CleanCell("&amp;lt;") == "<"
  {
    DoubleEscapeHasNoTag();
    DoubleEscapeHasNoSpace();
    DoubleEscapeAmpersandPass();
    DoubleEscapeLessThanPass();
  }

  lemma DoubleEscapeHasNoTag()
    ensures StripTags("&amp;lt;") == "&amp;lt;"
  {
    StripTagsWithoutClose("&amp;lt;");
  }

  lemma DoubleEscapeHasNoSpace()
    ensures ReplaceAll("&amp;lt;", "&nbsp;", " ") == "&amp;lt;"
  {
    NoOccurrenceAwayFrom("&amp;lt;", "&nbsp;", 0);
    ReplaceAllWithoutPattern("&amp;lt;", "&nbsp;", " ");
  }

  lemma DoubleEscapeAmpersandPass()
    ensures ReplaceAll("&amp;lt;", "&amp;", "&") == "&lt;"
  {
    ReplaceAllSingleOccurrence([], "&amp;", "lt;", "&");
    assert [] + "&amp;" + "lt;" == "&amp;lt;";
    assert [] + "&" + "lt;" == "&lt;";
  }

  lemma DoubleEscapeLessThanPass()
    ensures ReplaceAll("&lt;", "&lt;", "<") == "<"
    ensures ReplaceAll("<", "&gt;", ">") == "<"
    ensures Trim("<") == "<"
  {
    ReplaceAllSingleOccurrence([], "&lt;", [], "<");
    assert [] + "&lt;" + [] == "&lt;";
    assert [] + "<" + [] == "<";
    NoOccurrenceWithoutHead("<", "&gt;");
    ReplaceAllWithoutPattern("<", "&gt;", ">");
    assert Trimmed("<");
  }
}
