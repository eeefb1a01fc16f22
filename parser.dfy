/**
 * src/parser.ts: the two pattern scanners (inline citations and footnote
 * lines), the footnotes-block marker tests and the block renderer.
 *
 * Both scanners are the source's `while (true) { regex.exec(text) ... }`
 * loops. The regular expressions are written out as the backtracking searches
 * ECMAScript performs for them: `exec` tries every start offset from
 * `lastIndex` on, a lazy group `(.*?)` first tries the rest of the pattern and
 * only then takes one more character, and a greedy `\s*` takes the longest
 * run first.
 */
module Parser {
  import opened Wrappers
  import opened Strings
  import opened Utils

  /** An inline citation: the matched text, its title and URL, and its span in the document. */
  datatype Citation = Citation(fullMatch: string, title: string, url: string, start: nat, end: nat)

  /** A footnote entry: `[^id]`, title and URL. */
  datatype Footnote = Footnote(id: string, title: string, url: string)

  const BeginMarker := "<!-- footernotes:begin -->"
  const EndMarker := "<!-- footernotes:end -->"

  // ---------------------------------------------------------------------------
  // The citation pattern /\(\[(.*?)\]\((.*?)\)\)/gs
  // ---------------------------------------------------------------------------

  /**
   * A match of the citation pattern: `([` at `start`, the title group up to
   * `titleEnd`, `](` there, the URL group up to `urlEnd`, `))` there.
   */
  datatype CitationMatch = CitationMatch(start: nat, titleEnd: nat, urlEnd: nat)
  {
    function End(): nat { urlEnd + 2 }
  }

  ghost predicate IsCitationMatch(text: string, m: CitationMatch) {
    && m.start + 2 <= m.titleEnd && m.titleEnd + 2 <= m.urlEnd && m.End() <= |text|
    && StartsAt(text, "([", m.start) && StartsAt(text, "](", m.titleEnd) && StartsAt(text, "))", m.urlEnd)
  }

  /**
   * The lazy title group holds `text[i + 2..c]`: first the rest of the
   * pattern is tried, `](` and then the lazy URL group, which with the `s`
   * flag stops at the first `))`; otherwise the group takes one more
   * character (with the `s` flag `.` takes any).
   */
  function LazyCitationTitle(text: string, i: nat, c: nat): (r: Option<CitationMatch>)
    requires i + 2 <= c <= |text| && StartsAt(text, "([", i)
    ensures r.Some? ==> IsCitationMatch(text, r.value) && r.value.start == i
    decreases |text| - c
  {
    var close := if StartsAt(text, "](", c) then IndexFrom(text, "))", c + 2) else None;
    if close.Some? then Some(CitationMatch(i, c, close.value))
    else if c < |text| then LazyCitationTitle(text, i, c + 1)
    else None
  }

  /** The citation pattern matched at offset `i` exactly. */
  function CitationAt(text: string, i: nat): (r: Option<CitationMatch>)
    requires i <= |text|
    ensures r.Some? ==> IsCitationMatch(text, r.value) && r.value.start == i
  {
    if StartsAt(text, "([", i) then LazyCitationTitle(text, i, i + 2) else None
  }

  /** `regex.exec(text)` with `lastIndex == from`: the match at the least start offset. */
  function NextCitationMatch(text: string, from: nat): (r: Option<CitationMatch>)
    requires from <= |text|
    ensures r.Some? ==> IsCitationMatch(text, r.value) && from <= r.value.start
    ensures r.Some? ==> CitationAt(text, r.value.start) == r
    ensures forall j :: from <= j <= |text| && (r.None? || j < r.value.start) ==> CitationAt(text, j).None?
    decreases |text| - from
  {
    match CitationAt(text, from)
    case Some(m) => Some(m)
    case None => if from < |text| then NextCitationMatch(text, from + 1) else None
  }

  /** `title && url && isValidUrl(url)`. */
  predicate CitationAccepted(api: UrlApi, title: string, url: string) {
    title != "" && url != "" && IsValidUrl(api, url)
  }

  /** The citation a match yields, if its title and URL are non-empty and the URL is valid. */
  function AcceptCitation(api: UrlApi, text: string, m: CitationMatch): Option<Citation>
    requires IsCitationMatch(text, m)
  {
    var title, url := text[m.start + 2..m.titleEnd], text[m.titleEnd + 2..m.urlEnd];
    if CitationAccepted(api, title, url)
    then Some(Citation(text[m.start..m.End()], FoldNewlines(title), url, m.start, m.End()))
    else None
  }

  /** The citations the scan reports from offset `from` on; a rejected match still consumes its span. */
  function CitationsFrom(api: UrlApi, text: string, from: nat): seq<Citation>
    requires from <= |text|
    decreases |text| - from
  {
    match NextCitationMatch(text, from)
    case None => []
    case Some(m) => OptionToSeq(AcceptCitation(api, text, m)) + CitationsFrom(api, text, m.End())
  }

  /** One `exec` step: the match found from `from` on contributes its citation, if accepted, before the rest. */
  lemma CitationsFromStep(api: UrlApi, text: string, from: nat, m: CitationMatch)
    requires from <= |text| && NextCitationMatch(text, from) == Some(m)
    ensures m.End() <= |text|
    ensures CitationsFrom(api, text, from) == OptionToSeq(AcceptCitation(api, text, m)) + CitationsFrom(api, text, m.End())
  {
  }

  /** What `findInlineCitations(text)` returns. */
  function InlineCitations(api: UrlApi, text: string): seq<Citation> {
    CitationsFrom(api, text, 0)
  }

  /** One turn of the `exec` loop: the citations so far, the one this match yields, the ones after it. */
  lemma CitationsScanStep(api: UrlApi, text: string, from: nat, m: CitationMatch, done: seq<Citation>)
    requires from <= |text| && NextCitationMatch(text, from) == Some(m)
    requires done + CitationsFrom(api, text, from) == InlineCitations(api, text)
    ensures from < m.End() <= |text|
    ensures done + OptionToSeq(AcceptCitation(api, text, m)) + CitationsFrom(api, text, m.End()) == InlineCitations(api, text)
  {
    CitationsFromStep(api, text, from, m);
    var x, rest := OptionToSeq(AcceptCitation(api, text, m)), CitationsFrom(api, text, m.End());
    AppendAssoc(done, x, rest);
  }

  /** `findInlineCitations`: the `exec` loop, pushing every accepted match. */
  method FindInlineCitations(api: UrlApi, text: string) returns (citations: seq<Citation>)
    ensures citations == InlineCitations(api, text)
  {
    citations := [];
    var lastIndex := 0;
    while true
      invariant lastIndex <= |text|
      invariant citations + CitationsFrom(api, text, lastIndex) == InlineCitations(api, text)
      decreases |text| - lastIndex
    {
      var found := NextCitationMatch(text, lastIndex);
      if found.None? {
        break;
      }
      var m := found.value;
      CitationsScanStep(api, text, lastIndex, m, citations);
      var accepted := AcceptCitation(api, text, m);
      ghost var before := citations;
      if accepted.Some? {
        citations := citations + [accepted.value];
      }
      assert citations == before + OptionToSeq(accepted);
      lastIndex := m.End();
    }
  }

  // ---------------------------------------------------------------------------
  // The footnote pattern
  // /\[\^(.*?)\]:\s*\[(.*?)\]\((.*?)\)(?:\s*<blockquote>.*?<\/blockquote>)?/g
  // (no `s` flag: `.` stops at line terminators, `\s` does not)
  // ---------------------------------------------------------------------------

  /**
   * A match of the footnote pattern: `[^` at `start`, the id group up to
   * `idEnd`, `]:`, white space, `[` before `titleStart`, the title group up to
   * `titleEnd`, `](`, the URL group up to `urlEnd`, `)` there, and the whole
   * match (with the optional blockquote) ending at `end`.
   */
  datatype FootnoteMatch = FootnoteMatch(start: nat, idEnd: nat, titleStart: nat, titleEnd: nat, urlEnd: nat, end: nat)

  predicate NoLineTerminator(s: string) {
    forall k :: 0 <= k < |s| ==> !IsLineTerminator(s[k])
  }

  ghost predicate IsFootnoteMatch(text: string, m: FootnoteMatch) {
    && m.start + 2 <= m.idEnd && m.idEnd + 3 <= m.titleStart <= m.titleEnd
    && m.titleEnd + 2 <= m.urlEnd < m.end <= |text|
    && StartsAt(text, "[^", m.start) && StartsAt(text, "]:", m.idEnd) && text[m.titleStart - 1] == '['
    && StartsAt(text, "](", m.titleEnd) && text[m.urlEnd] == ')'
    && NoLineTerminator(text[m.start + 2..m.idEnd])
    && NoLineTerminator(text[m.titleStart..m.titleEnd])
    && NoLineTerminator(text[m.titleEnd + 2..m.urlEnd]) && ')' !in text[m.titleEnd + 2..m.urlEnd]
  }

  /** `.*?<\/blockquote>`: the end of the first `</blockquote>` reached before a line terminator. */
  function LazyQuoteEnd(text: string, q: nat): (r: Option<nat>)
    requires q <= |text|
    ensures r.Some? ==> q + 13 <= r.value <= |text|
    decreases |text| - q
  {
    if StartsAt(text, "</blockquote>", q) then Some(q + 13)
    else if q < |text| && !IsLineTerminator(text[q]) then LazyQuoteEnd(text, q + 1)
    else None
  }

  /**
   * The greedy optional group `(?:\s*<blockquote>.*?<\/blockquote>)?` after
   * offset `p`: the end of the match with the group, or `p` without it. Only
   * the longest white-space run can be followed by `<`.
   */
  function BlockquoteEnd(text: string, p: nat): (e: nat)
    requires p <= |text|
    ensures p <= e <= |text|
  {
    var w := SpaceRunEnd(text, p);
    var quote := if StartsAt(text, "<blockquote>", w) then LazyQuoteEnd(text, w + 12) else None;
    if quote.Some? then quote.value else p
  }

  /** `(.*?)\)`: the URL group runs to the first `)` reached before a line terminator. */
  function LazyFootnoteUrl(text: string, u: nat): (r: Option<nat>)
    requires u <= |text|
    ensures r.Some? ==> u <= r.value < |text| && text[r.value] == ')'
    ensures r.Some? ==> NoLineTerminator(text[u..r.value]) && ')' !in text[u..r.value]
    decreases |text| - u
  {
    if u < |text| && text[u] == ')' then Some(u)
    else if u < |text| && !IsLineTerminator(text[u]) then LazyFootnoteUrl(text, u + 1)
    else None
  }

  /** The lazy title group holds `text[p..t]`: the rest of the pattern first, then one more character. */
  function LazyFootnoteTitle(text: string, i: nat, c: nat, p: nat, t: nat): (r: Option<FootnoteMatch>)
    requires i + 2 <= c && c + 3 <= p <= t <= |text|
    requires StartsAt(text, "[^", i) && StartsAt(text, "]:", c) && text[p - 1] == '['
    requires NoLineTerminator(text[i + 2..c]) && NoLineTerminator(text[p..t])
    ensures r.Some? ==> IsFootnoteMatch(text, r.value) && r.value.start == i
    decreases |text| - t
  {
    var close := if StartsAt(text, "](", t) then LazyFootnoteUrl(text, t + 2) else None;
    if close.Some? then Some(FootnoteMatch(i, c, p, t, close.value, BlockquoteEnd(text, close.value + 1)))
    else if t < |text| && !IsLineTerminator(text[t]) then
      assert text[p..t + 1] == text[p..t] + [text[t]];
      LazyFootnoteTitle(text, i, c, p, t + 1)
    else None
  }

  /** `\]:\s*\[` at `c`: only the longest white-space run can be followed by `[`. */
  function AfterFootnoteId(text: string, i: nat, c: nat): (r: Option<FootnoteMatch>)
    requires i + 2 <= c && StartsAt(text, "[^", i) && StartsAt(text, "]:", c)
    requires NoLineTerminator(text[i + 2..c])
    ensures r.Some? ==> IsFootnoteMatch(text, r.value) && r.value.start == i
  {
    var w := SpaceRunEnd(text, c + 2);
    if w < |text| && text[w] == '[' then LazyFootnoteTitle(text, i, c, w + 1, w + 1) else None
  }

  /** The lazy id group holds `text[i + 2..c]`: the rest of the pattern first, then one more character. */
  function LazyFootnoteId(text: string, i: nat, c: nat): (r: Option<FootnoteMatch>)
    requires i + 2 <= c <= |text| && StartsAt(text, "[^", i)
    requires NoLineTerminator(text[i + 2..c])
    ensures r.Some? ==> IsFootnoteMatch(text, r.value) && r.value.start == i
    decreases |text| - c
  {
    var rest := if StartsAt(text, "]:", c) then AfterFootnoteId(text, i, c) else None;
    if rest.Some? then rest
    else if c < |text| && !IsLineTerminator(text[c]) then
      assert text[i + 2..c + 1] == text[i + 2..c] + [text[c]];
      LazyFootnoteId(text, i, c + 1)
    else None
  }

  /** The footnote pattern matched at offset `i` exactly. */
  function FootnoteAt(text: string, i: nat): (r: Option<FootnoteMatch>)
    requires i <= |text|
    ensures r.Some? ==> IsFootnoteMatch(text, r.value) && r.value.start == i
  {
    if StartsAt(text, "[^", i) then LazyFootnoteId(text, i, i + 2) else None
  }

  /** `regex.exec(text)` with `lastIndex == from`: the match at the least start offset. */
  function NextFootnoteMatch(text: string, from: nat): (r: Option<FootnoteMatch>)
    requires from <= |text|
    ensures r.Some? ==> IsFootnoteMatch(text, r.value) && from <= r.value.start
    ensures r.Some? ==> FootnoteAt(text, r.value.start) == r
    ensures forall j :: from <= j <= |text| && (r.None? || j < r.value.start) ==> FootnoteAt(text, j).None?
    decreases |text| - from
  {
    match FootnoteAt(text, from)
    case Some(m) => Some(m)
    case None => if from < |text| then NextFootnoteMatch(text, from + 1) else None
  }

  /** `id && title && url && isValidUrl(url)`. */
  predicate FootnoteAccepted(api: UrlApi, id: string, title: string, url: string) {
    id != "" && title != "" && url != "" && IsValidUrl(api, url)
  }

  /** The footnote a match yields: id, title and URL non-empty and the URL valid; the id re-wrapped. */
  function AcceptFootnote(api: UrlApi, text: string, m: FootnoteMatch): Option<Footnote>
    requires IsFootnoteMatch(text, m)
  {
    var id, title, url := text[m.start + 2..m.idEnd], text[m.titleStart..m.titleEnd], text[m.titleEnd + 2..m.urlEnd];
    if FootnoteAccepted(api, id, title, url)
    then Some(Footnote("[^" + id + "]", title, url))
    else None
  }

  /** The footnotes the scan reports from offset `from` on. */
  function FootnotesFrom(api: UrlApi, text: string, from: nat): seq<Footnote>
    requires from <= |text|
    decreases |text| - from
  {
    match NextFootnoteMatch(text, from)
    case None => []
    case Some(m) => OptionToSeq(AcceptFootnote(api, text, m)) + FootnotesFrom(api, text, m.end)
  }

  /** One `exec` step: the match found from `from` on contributes its footnote, if accepted, before the rest. */
  lemma FootnotesFromStep(api: UrlApi, text: string, from: nat, m: FootnoteMatch)
    requires from <= |text| && NextFootnoteMatch(text, from) == Some(m)
    ensures m.end <= |text|
    ensures FootnotesFrom(api, text, from) == OptionToSeq(AcceptFootnote(api, text, m)) + FootnotesFrom(api, text, m.end)
  {
  }

  /** What `findExistingFootnotes(text)` returns. */
  function ExistingFootnotes(api: UrlApi, text: string): seq<Footnote> {
    FootnotesFrom(api, text, 0)
  }

  /** One turn of the `exec` loop: the footnotes so far, the one this match yields, the ones after it. */
  lemma FootnotesScanStep(api: UrlApi, text: string, from: nat, m: FootnoteMatch, done: seq<Footnote>)
    requires from <= |text| && NextFootnoteMatch(text, from) == Some(m)
    requires done + FootnotesFrom(api, text, from) == ExistingFootnotes(api, text)
    ensures from < m.end <= |text|
    ensures done + OptionToSeq(AcceptFootnote(api, text, m)) + FootnotesFrom(api, text, m.end) == ExistingFootnotes(api, text)
  {
    FootnotesFromStep(api, text, from, m);
    var x, rest := OptionToSeq(AcceptFootnote(api, text, m)), FootnotesFrom(api, text, m.end);
    AppendAssoc(done, x, rest);
  }

  /** `findExistingFootnotes`: the `exec` loop, pushing every accepted match. */
  method FindExistingFootnotes(api: UrlApi, text: string) returns (footnotes: seq<Footnote>)
    ensures footnotes == ExistingFootnotes(api, text)
  {
    footnotes := [];
    var lastIndex := 0;
    while true
      invariant lastIndex <= |text|
      invariant footnotes + FootnotesFrom(api, text, lastIndex) == ExistingFootnotes(api, text)
      decreases |text| - lastIndex
    {
      var found := NextFootnoteMatch(text, lastIndex);
      if found.None? {
        break;
      }
      var m := found.value;
      FootnotesScanStep(api, text, lastIndex, m, footnotes);
      var accepted := AcceptFootnote(api, text, m);
      ghost var before := footnotes;
      if accepted.Some? {
        footnotes := footnotes + [accepted.value];
      }
      assert footnotes == before + OptionToSeq(accepted);
      lastIndex := m.end;
    }
  }

  // ---------------------------------------------------------------------------
  // The footnotes block
  // ---------------------------------------------------------------------------

  /** `hasFootnotesSection`: both marker strings occur, in either order. */
  function HasFootnotesSection(text: string): (r: bool)
    ensures r <==> (exists i: nat :: StartsAt(text, BeginMarker, i)) && (exists j: nat :: StartsAt(text, EndMarker, j))
  {
    Includes(text, BeginMarker) && Includes(text, EndMarker)
  }

  /** `getFootnotesInsertPosition`: just after the first begin marker, else the end of the text. */
  function GetFootnotesInsertPosition(text: string): (r: nat)
    ensures r <= |text|
    ensures (forall i: nat :: !StartsAt(text, BeginMarker, i)) ==> r == |text|
    ensures (exists i: nat :: StartsAt(text, BeginMarker, i)) ==>
      && r >= |BeginMarker| && StartsAt(text, BeginMarker, r - |BeginMarker|)
      && forall j :: 0 <= j < r - |BeginMarker| ==> !StartsAt(text, BeginMarker, j)
  {
    var beginIndex := IndexOf(text, BeginMarker);
    if beginIndex != -1 then beginIndex + |BeginMarker| else |text|
  }

  /** One line of the block: `id: [title](url)`, and the quotation when the URL has a non-empty text fragment. */
  function FootnoteLine(api: UrlApi, f: Footnote): string {
    var fragment := ExtractTextFragment(api, f.url);
    if fragment.Some? && fragment.value != ""
    then f.id + ": [" + f.title + "](" + f.url + ") <blockquote>" + fragment.value + "</blockquote>"
    else f.id + ": [" + f.title + "](" + f.url + ")"
  }

  function FootnoteLines(api: UrlApi, fs: seq<Footnote>): (lines: seq<string>)
    ensures |lines| == |fs| && forall k :: 0 <= k < |fs| ==> lines[k] == FootnoteLine(api, fs[k])
  {
    seq(|fs|, k requires 0 <= k < |fs| => FootnoteLine(api, fs[k]))
  }

  /** `createFootnotesSection`: the begin marker, one line per footnote, the end marker. */
  function CreateFootnotesSection(api: UrlApi, fs: seq<Footnote>): string {
    BeginMarker + "\n" + Join(FootnoteLines(api, fs), "\n") + "\n" + EndMarker
  }
}
