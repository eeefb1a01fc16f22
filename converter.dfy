/**
 * src/converter.ts: `convertToFootnotes`, the pipeline that turns every
 * inline citation `([title](url))` into a footnote reference `[^host-n]` and
 * keeps a footnotes block at the end of the document.
 *
 * The source is one function of consecutive loops over local tables. The
 * method `ConvertToFootnotes` keeps those loops and tables; each loop is
 * proved to compute a left fold over the prefix it has consumed, and the
 * folds, composed as the source composes the loops, make up the reference
 * definition `Convert` that the lemmas in `ConvertLemmas` are about.
 */
module Converter {
  import opened Wrappers
  import opened Strings
  import opened Utils
  import opened Parser

  // ---------------------------------------------------------------------------
  // The counter suffix of an identifier: /\[\^(.*?)-(\d+)\]/
  // ---------------------------------------------------------------------------

  /** The greedy `\d+` from `p`: the end of the longest run of ASCII digits. */
  function DigitRunEnd(s: string, p: nat): (e: nat)
    requires p <= |s|
    ensures p <= e <= |s| && AllDigits(s[p..e])
    ensures e < |s| ==> !IsDigit(s[e])
    decreases |s| - p
  {
    if p < |s| && IsDigit(s[p]) then
      var e := DigitRunEnd(s, p + 1);
      assert s[p..e] == [s[p]] + s[p + 1..e];
      e
    else p
  }

  /**
   * The lazy group `(.*?)` ends at `p`: `-`, at least one digit and `]`
   * there, or else one more character that is not a line terminator.
   * The result is `Number.parseInt` of the digit group.
   */
  function LazyCounter(s: string, p: nat): Option<nat>
    requires p <= |s|
    decreases |s| - p
  {
    var e := if p < |s| && s[p] == '-' then DigitRunEnd(s, p + 1) else p;
    if p < |s| && s[p] == '-' && p + 1 < e < |s| && s[e] == ']' then Some(ParseDecimal(s[p + 1..e]))
    else if p < |s| && !IsLineTerminator(s[p]) then LazyCounter(s, p + 1)
    else None
  }

  /** The pattern matched at offset `i` exactly. */
  function CounterAt(s: string, i: nat): Option<nat>
    requires i <= |s|
  {
    if StartsAt(s, "[^", i) then LazyCounter(s, i + 2) else None
  }

  /** `s.match(pattern)`: the match at the least start offset at or after `i`. */
  function CounterFrom(s: string, i: nat): Option<nat>
    requires i <= |s|
    decreases |s| - i
  {
    if CounterAt(s, i).Some? then CounterAt(s, i)
    else if i < |s| then CounterFrom(s, i + 1)
    else None
  }

  /** `id.match(/\[\^(.*?)-(\d+)\]/)` and `parseInt(match[2], 10)`: the counter an identifier carries, if any. */
  function CounterSuffix(id: string): Option<nat> {
    CounterFrom(id, 0)
  }

  // ---------------------------------------------------------------------------
  // The identifier tables
  // ---------------------------------------------------------------------------

  /** `domainCounters` and `urlToFootnote`. */
  datatype IdState = IdState(counters: map<string, nat>, urlIds: map<string, string>)

  /** `table[key] ?? 0` and `table[key] || 0` on the counters. */
  function Get(m: map<string, nat>, key: string): nat {
    if key in m then m[key] else 0
  }

  function Max(a: nat, b: nat): nat {
    if a >= b then a else b
  }

  /** The host a URL contributes: `extractDomain` when it is truthy (not null, not empty). */
  function Host(api: UrlApi, url: string): Option<string> {
    var domain := ExtractDomain(api, url);
    if domain.Some? && domain.value != "" then domain else None
  }

  /** `!urlToFootnote[url]`: no identifier yet (absent or empty). */
  predicate Unassigned(urlIds: map<string, string>, url: string) {
    url !in urlIds || urlIds[url] == ""
  }

  /** One pass of the seeding loop: raise the host's counter to the footnote's, record the URL's identifier. */
  function SeedStep(api: UrlApi, st: IdState, f: Footnote): IdState {
    match Host(api, f.url)
    case None => st
    case Some(domain) =>
      var counters :=
        match CounterSuffix(f.id)
        case Some(counter) => st.counters[domain := Max(Get(st.counters, domain), counter)]
        case None => st.counters;
      IdState(counters, st.urlIds[f.url := f.id])
  }

  /** The tables after seeding from the footnotes `fs`, in order. */
  function Seeded(api: UrlApi, fs: seq<Footnote>): IdState {
    if |fs| == 0 then IdState(map[], map[])
    else SeedStep(api, Seeded(api, fs[..|fs| - 1]), fs[|fs| - 1])
  }

  /** The error `convertToFootnotes` throws for a citation whose URL yields no host. */
  function InvalidUrl(url: string): string {
    "Invalid URL: " + url
  }

  /** One pass of the assignment loop: a URL without identifier gets its host's next counter. */
  function AssignStep(api: UrlApi, st: IdState, c: Citation): Result<IdState, string> {
    if !Unassigned(st.urlIds, c.url) then Ok(st)
    else match Host(api, c.url)
      case None => Err(InvalidUrl(c.url))
      case Some(domain) =>
        var counter := Get(st.counters, domain) + 1;
        Ok(IdState(st.counters[domain := counter], st.urlIds[c.url := GenerateFootnoteId(domain, counter)]))
  }

  /** The tables after the assignment loop over `cs`, or the first error thrown. */
  function Assigned(api: UrlApi, st: IdState, cs: seq<Citation>): Result<IdState, string> {
    if |cs| == 0 then Ok(st)
    else match Assigned(api, st, cs[..|cs| - 1])
      case Err(e) => Err(e)
      case Ok(s) => AssignStep(api, s, cs[|cs| - 1])
  }

  /** Once thrown, the error is what the whole loop throws. */
  lemma {:induction false} AssignedErrStays(api: UrlApi, st: IdState, cs: seq<Citation>, j: nat, e: string)
    requires j <= |cs| && Assigned(api, st, cs[..j]) == Err(e)
    ensures Assigned(api, st, cs) == Err(e)
    decreases |cs| - j
  {
    if j < |cs| {
      assert cs[..j + 1][..j] == cs[..j];
      AssignedErrStays(api, st, cs, j + 1, e);
    } else {
      assert cs[..j] == cs;
    }
  }

  // ---------------------------------------------------------------------------
  // New footnotes and replacements
  // ---------------------------------------------------------------------------

  /** `urlToFirstCitation` after the first pass over `cs`. */
  function FirstCitations(cs: seq<Citation>): map<string, Citation> {
    if |cs| == 0 then map[]
    else
      var m := FirstCitations(cs[..|cs| - 1]);
      var c := cs[|cs| - 1];
      if c.url in m then m else m[c.url := c]
  }

  /** One entry of `replacements`: the span of a citation and the identifier that replaces it. */
  datatype Replacement = Replacement(start: nat, end: nat, id: string)

  /** `processedUrls`, `newFootnotes` and `replacements`. */
  datatype Collected = Collected(processed: set<string>, news: seq<Footnote>, reps: seq<Replacement>)

  /** One pass of the collection loop. */
  function CollectStep(urlIds: map<string, string>, firsts: map<string, Citation>, acc: Collected, c: Citation): Collected {
    if Unassigned(urlIds, c.url) then acc
    else
      var id := urlIds[c.url];
      var isFirst := c.url !in acc.processed && c.url in firsts;
      var processed := if isFirst then acc.processed + {c.url} else acc.processed;
      var news := if isFirst then acc.news + [Footnote(id, firsts[c.url].title, c.url)] else acc.news;
      Collected(processed, news, acc.reps + [Replacement(c.start, c.end, id)])
  }

  /** The collection loop over `cs`. */
  function Collect(urlIds: map<string, string>, firsts: map<string, Citation>, cs: seq<Citation>): Collected {
    if |cs| == 0 then Collected({}, [], [])
    else CollectStep(urlIds, firsts, Collect(urlIds, firsts, cs[..|cs| - 1]), cs[|cs| - 1])
  }

  // ---------------------------------------------------------------------------
  // Sorting and applying the replacements
  // ---------------------------------------------------------------------------

  /** Insert `x` into a list ordered by descending start, after every entry starting at or after it. */
  function InsertDescending(s: seq<Replacement>, x: Replacement): (r: seq<Replacement>)
    ensures |r| == |s| + 1 && multiset(r) == multiset(s) + multiset{x}
  {
    if |s| == 0 then [x]
    else if s[0].start >= x.start then
      assert s == [s[0]] + s[1..];
      [s[0]] + InsertDescending(s[1..], x)
    else [x] + s
  }

  /**
   * `replacements.sort((a, b) => b.start - a.start)`: ECMAScript's sort is
   * stable, so entries with the same start keep their order; an insertion
   * sort gives the same result.
   */
  function SortDescending(s: seq<Replacement>): (r: seq<Replacement>)
    ensures |r| == |s|
  {
    if |s| == 0 then [] else InsertDescending(SortDescending(s[..|s| - 1]), s[|s| - 1])
  }

  /** `${result.slice(0, start)}${id}${result.slice(end)}`. */
  function Splice(s: string, r: Replacement): string {
    JsSliceTo(s, r.start) + r.id + JsSliceFrom(s, r.end)
  }

  /** The text after the replacement loop over `rs`, in that order. */
  function ApplyReplacements(text: string, rs: seq<Replacement>): string {
    if |rs| == 0 then text else Splice(ApplyReplacements(text, rs[..|rs| - 1]), rs[|rs| - 1])
  }

  // ---------------------------------------------------------------------------
  // The footnotes block
  // ---------------------------------------------------------------------------

  /** `all.some((f) => f.url === url)`. */
  predicate HasUrl(all: seq<Footnote>, url: string) {
    exists k :: 0 <= k < |all| && all[k].url == url
  }

  /** `allFootnotes` after the merge loop over `news`. */
  function Merged(existing: seq<Footnote>, news: seq<Footnote>): seq<Footnote> {
    if |news| == 0 then existing
    else
      var all := Merged(existing, news[..|news| - 1]);
      var f := news[|news| - 1];
      if HasUrl(all, f.url) then all else all + [f]
  }

  /**
   * The last step: rewrite the lines between the first begin marker and the
   * first end marker when the text has both markers, else trim the text and
   * append a new block.
   */
  function Reconciled(api: UrlApi, body: string, all: seq<Footnote>): string {
    if HasFootnotesSection(body) then
      var insertPosition := GetFootnotesInsertPosition(body);
      var endMarkerPosition := IndexOf(body, EndMarker);
      JsSliceTo(body, insertPosition) + "\n" + Join(FootnoteLines(api, all), "\n") + "\n" + JsSliceFrom(body, endMarkerPosition)
    else Trim(body) + "\n\n" + CreateFootnotesSection(api, all)
  }

  /** `convertToFootnotes` as a composition of its loops; `Err` is the exception it throws. */
  function Convert(api: UrlApi, text: string): Result<string, string> {
    var citations := InlineCitations(api, text);
    var existing := ExistingFootnotes(api, text);
    if |citations| == 0 then Ok(text)
    else match Assigned(api, Seeded(api, existing), citations)
      case Err(e) => Err(e)
      case Ok(st) =>
        var collected := Collect(st.urlIds, FirstCitations(citations), citations);
        var body := ApplyReplacements(text, SortDescending(collected.reps));
        Ok(Reconciled(api, body, Merged(existing, collected.news)))
  }

  // ---------------------------------------------------------------------------
  // The source's loops
  // ---------------------------------------------------------------------------

  /** Lines 48-60: seed `domainCounters` and `urlToFootnote` from the existing footnotes. */
  method SeedTables(api: UrlApi, existingFootnotes: seq<Footnote>)
      returns (domainCounters: map<string, nat>, urlToFootnote: map<string, string>)
    ensures IdState(domainCounters, urlToFootnote) == Seeded(api, existingFootnotes)
  {
    domainCounters, urlToFootnote := map[], map[];
    var i := 0;
    while i < |existingFootnotes|
      invariant i <= |existingFootnotes|
      invariant IdState(domainCounters, urlToFootnote) == Seeded(api, existingFootnotes[..i])
    {
      var footnote := existingFootnotes[i];
      var domain := ExtractDomain(api, footnote.url);
      if domain.Some? && domain.value != "" {
        var counter := CounterSuffix(footnote.id);
        if counter.Some? {
          domainCounters := domainCounters[domain.value := Max(Get(domainCounters, domain.value), counter.value)];
        }
        urlToFootnote := urlToFootnote[footnote.url := footnote.id];
      }
      assert existingFootnotes[..i + 1][..i] == existingFootnotes[..i];
      i := i + 1;
    }
    assert existingFootnotes[..i] == existingFootnotes;
  }

  /** Lines 79-83: the first citation of every URL. */
  method CollectFirstCitations(citations: seq<Citation>) returns (urlToFirstCitation: map<string, Citation>)
    ensures urlToFirstCitation == FirstCitations(citations)
  {
    urlToFirstCitation := map[];
    var i := 0;
    while i < |citations|
      invariant i <= |citations|
      invariant urlToFirstCitation == FirstCitations(citations[..i])
    {
      var citation := citations[i];
      if citation.url !in urlToFirstCitation {
        urlToFirstCitation := urlToFirstCitation[citation.url := citation];
      }
      assert citations[..i + 1][..i] == citations[..i];
      i := i + 1;
    }
    assert citations[..i] == citations;
  }

  /** Lines 89-100: give every URL without identifier its host's next counter, or throw. */
  method AssignIds(api: UrlApi, seed: IdState, citations: seq<Citation>) returns (r: Result<IdState, string>)
    ensures r == Assigned(api, seed, citations)
  {
    var domainCounters: map<string, nat>, urlToFootnote: map<string, string> := seed.counters, seed.urlIds;
    var i := 0;
    while i < |citations|
      invariant i <= |citations|
      invariant Assigned(api, seed, citations[..i]) == Ok(IdState(domainCounters, urlToFootnote))
    {
      var citation := citations[i];
      assert citations[..i + 1][..i] == citations[..i];
      if Unassigned(urlToFootnote, citation.url) {
        var domain := ExtractDomain(api, citation.url);
        if domain.None? || domain.value == "" {
          AssignedErrStays(api, seed, citations, i + 1, InvalidUrl(citation.url));
          return Err(InvalidUrl(citation.url));
        }
        domainCounters := domainCounters[domain.value := Get(domainCounters, domain.value) + 1];
        var id := GenerateFootnoteId(domain.value, domainCounters[domain.value]);
        urlToFootnote := urlToFootnote[citation.url := id];
      }
      i := i + 1;
    }
    assert citations[..i] == citations;
    return Ok(IdState(domainCounters, urlToFootnote));
  }

  /** Lines 103-128: the new footnotes, one per URL, and one replacement per citation. */
  method CollectReplacements(urlToFootnote: map<string, string>, urlToFirstCitation: map<string, Citation>, citations: seq<Citation>)
      returns (newFootnotes: seq<Footnote>, replacements: seq<Replacement>)
    ensures newFootnotes == Collect(urlToFootnote, urlToFirstCitation, citations).news
    ensures replacements == Collect(urlToFootnote, urlToFirstCitation, citations).reps
  {
    var processedUrls: set<string> := {};
    newFootnotes, replacements := [], [];
    var i := 0;
    while i < |citations|
      invariant i <= |citations|
      invariant Collected(processedUrls, newFootnotes, replacements) == Collect(urlToFootnote, urlToFirstCitation, citations[..i])
    {
      var citation := citations[i];
      var footnoteId := if citation.url in urlToFootnote then urlToFootnote[citation.url] else "";
      if footnoteId != "" {
        if citation.url !in processedUrls {
          if citation.url in urlToFirstCitation {
            var firstCitation := urlToFirstCitation[citation.url];
            newFootnotes := newFootnotes + [Footnote(footnoteId, firstCitation.title, citation.url)];
            processedUrls := processedUrls + {citation.url};
          }
        }
        replacements := replacements + [Replacement(citation.start, citation.end, footnoteId)];
      }
      assert citations[..i + 1][..i] == citations[..i];
      i := i + 1;
    }
    assert citations[..i] == citations;
  }

  /** Lines 131-134: sort the replacements by descending start and splice each into the text. */
  method ApplyAll(text: string, replacements: seq<Replacement>) returns (result: string)
    ensures result == ApplyReplacements(text, SortDescending(replacements))
  {
    var sorted := SortDescending(replacements);
    result := text;
    var i := 0;
    while i < |sorted|
      invariant i <= |sorted|
      invariant result == ApplyReplacements(text, sorted[..i])
    {
      var replacement := sorted[i];
      result := JsSliceTo(result, replacement.start) + replacement.id + JsSliceFrom(result, replacement.end);
      assert sorted[..i + 1][..i] == sorted[..i];
      i := i + 1;
    }
    assert sorted[..i] == sorted;
  }

  /** Lines 137-142: the existing footnotes, then every new one whose URL is not listed yet. */
  method MergeFootnotes(existingFootnotes: seq<Footnote>, newFootnotes: seq<Footnote>) returns (allFootnotes: seq<Footnote>)
    ensures allFootnotes == Merged(existingFootnotes, newFootnotes)
  {
    allFootnotes := existingFootnotes;
    var i := 0;
    while i < |newFootnotes|
      invariant i <= |newFootnotes|
      invariant allFootnotes == Merged(existingFootnotes, newFootnotes[..i])
    {
      var footnote := newFootnotes[i];
      if !HasUrl(allFootnotes, footnote.url) {
        allFootnotes := allFootnotes + [footnote];
      }
      assert newFootnotes[..i + 1][..i] == newFootnotes[..i];
      i := i + 1;
    }
    assert newFootnotes[..i] == newFootnotes;
  }

  /** `convertToFootnotes`: the loops of the source, in order; `Err` is the exception it throws. */
  method ConvertToFootnotes(api: UrlApi, text: string) returns (r: Result<string, string>)
    ensures r == Convert(api, text)
  {
    var citations := FindInlineCitations(api, text);
    var existingFootnotes := FindExistingFootnotes(api, text);
    if |citations| == 0 {
      return Ok(text);
    }
    var domainCounters, urlToFootnote := SeedTables(api, existingFootnotes);
    var urlToFirstCitation := CollectFirstCitations(citations);
    var ids := AssignIds(api, IdState(domainCounters, urlToFootnote), citations);
    if ids.Err? {
      return Err(ids.error);
    }
    urlToFootnote := ids.value.urlIds;
    var newFootnotes, replacements := CollectReplacements(urlToFootnote, urlToFirstCitation, citations);
    var result := ApplyAll(text, replacements);
    var allFootnotes := MergeFootnotes(existingFootnotes, newFootnotes);
    var footnotesSection := CreateFootnotesSection(api, allFootnotes);
    if HasFootnotesSection(result) {
      var insertPosition := GetFootnotesInsertPosition(result);
      var endMarkerPosition := IndexOf(result, EndMarker);
      result := JsSliceTo(result, insertPosition) + "\n" + Join(FootnoteLines(api, allFootnotes), "\n") + "\n"
        + JsSliceFrom(result, endMarkerPosition);
    } else {
      result := Trim(result) + "\n\n" + footnotesSection;
    }
    return Ok(result);
  }
}
