/**
 * What `convertToFootnotes` as a whole promises: it throws only for a cited
 * URL the URL parser accepts with an empty host name, every citation is
 * replaced in place by its URL's identifier, the footnotes are the existing
 * ones followed by one new footnote per newly cited URL, and the result
 * carries a footnotes block. A second run can find a citation in the first
 * run's output, so the conversion is not idempotent.
 */
module ConvertLemmas {
  import opened Wrappers
  import opened Strings
  import opened Utils
  import opened Parser
  import opened ParserLemmas
  import opened Converter
  import opened IdLemmas
  import opened RewriteLemmas

  /** The replacement of every citation, in text order. */
  function ReplacementsOf(urlIds: map<string, string>, cs: seq<Citation>): (rs: seq<Replacement>)
    ensures |rs| == |cs| && forall k :: 0 <= k < |cs| ==> rs[k] == ReplacementOf(urlIds, cs[k])
  {
    seq(|cs|, k requires 0 <= k < |cs| => ReplacementOf(urlIds, cs[k]))
  }

  /** The new footnote of every first citation, in text order. */
  function NewFootnotes(urlIds: map<string, string>, firsts: seq<Citation>): (fs: seq<Footnote>)
    ensures |fs| == |firsts| && forall k :: 0 <= k < |firsts| ==> fs[k] == NewFootnote(urlIds, firsts[k])
  {
    seq(|firsts|, k requires 0 <= k < |firsts| => NewFootnote(urlIds, firsts[k]))
  }

  /** The conversion throws only for a cited URL that parses but has an empty host name. */
  lemma ConvertFails(api: UrlApi, text: string, e: string)
    requires Convert(api, text) == Err(e)
    ensures exists c <- InlineCitations(api, text) ::
      && e == InvalidUrl(c.url)
      && IsValidUrl(api, c.url) && api.parse(c.url).value.hostname == ""
  {
    var cs := InlineCitations(api, text);
    InlineCitationsWellFormed(api, text);
    AssignedSpec(api, Seeded(api, ExistingFootnotes(api, text)), cs);
    var c :| c in cs && e == InvalidUrl(c.url) && Host(api, c.url).None?;
    assert WellFormedCitation(api, text, c);
    ValidUrlHasDomain(api, c.url);
  }

  /** With a URL parser whose host names are never empty, the conversion never throws. */
  lemma ConvertNeverFails(api: UrlApi, text: string)
    requires HostsNonEmpty(api)
    ensures Convert(api, text).Ok?
  {
    var cs := InlineCitations(api, text);
    InlineCitationsWellFormed(api, text);
    assert forall c <- cs :: WellFormedCitation(api, text, c);
    AssignedNeverFails(api, Seeded(api, ExistingFootnotes(api, text)), cs);
  }

  /** The citations' spans, replaced by anything, lie in order inside the text. */
  lemma CitationSpans(api: UrlApi, text: string, urlIds: map<string, string>)
    ensures var rs := ReplacementsOf(urlIds, InlineCitations(api, text));
      && Spans(rs, 0, |text|) && forall k :: 0 <= k < |rs| ==> rs[k].start < rs[k].end
  {
    var cs := InlineCitations(api, text);
    InlineCitationsWellFormed(api, text);
    var rs := ReplacementsOf(urlIds, cs);
    forall k | 0 <= k < |rs|
      ensures 0 <= rs[k].start < rs[k].end <= |text|
    {
      assert cs[k] in cs && WellFormedCitation(api, text, cs[k]);
    }
  }

  /**
   * The result of a conversion with citations: `Reconciled` of the text with
   * every citation replaced by its URL's identifier, and of the footnotes
   * list, which is the existing ones followed by one new footnote per newly
   * listed URL, in order of first citation, carrying the title of that first
   * citation.
   */
  lemma ConvertRewrites(api: UrlApi, text: string, st: IdState)
    requires |InlineCitations(api, text)| > 0
    requires Assigned(api, Seeded(api, ExistingFootnotes(api, text)), InlineCitations(api, text)) == Ok(st)
    ensures var cs := InlineCitations(api, text);
      var existing := ExistingFootnotes(api, text);
      var rs := ReplacementsOf(st.urlIds, cs);
      && Spans(rs, 0, |text|)
      && Convert(api, text) == Ok(Reconciled(api, Rewritten(text, rs, 0),
           existing + Unlisted(existing, NewFootnotes(st.urlIds, FirstOccurrences(cs)))))
  {
    ConvertUnfolds(api, text, st);
    CollectedRewrites(api, text, st);
  }

  /** What the lists of the collection loop lead to: the rewrite of every citation and the unlisted new footnotes. */
  lemma CollectedRewrites(api: UrlApi, text: string, st: IdState)
    requires Assigned(api, Seeded(api, ExistingFootnotes(api, text)), InlineCitations(api, text)) == Ok(st)
    ensures var cs := InlineCitations(api, text);
      var existing := ExistingFootnotes(api, text);
      var rs := ReplacementsOf(st.urlIds, cs);
      var collected := Collect(st.urlIds, FirstCitations(cs), cs);
      && Spans(rs, 0, |text|)
      && ApplyReplacements(text, SortDescending(collected.reps)) == Rewritten(text, rs, 0)
      && Merged(existing, collected.news) == existing + Unlisted(existing, NewFootnotes(st.urlIds, FirstOccurrences(cs)))
  {
    var cs := InlineCitations(api, text);
    var existing := ExistingFootnotes(api, text);
    AssignedCovers(api, Seeded(api, existing), cs, st);
    CitationSpans(api, text, st.urlIds);
    CollectedParts(text, st.urlIds, cs, existing);
  }

  /** The replaced text and the merged footnotes the collection loop's lists lead to. */
  lemma CollectedParts(text: string, urlIds: map<string, string>, cs: seq<Citation>, existing: seq<Footnote>)
    requires forall c <- cs :: !Unassigned(urlIds, c.url)
    requires var rs := ReplacementsOf(urlIds, cs);
      Spans(rs, 0, |text|) && forall k :: 0 <= k < |rs| ==> rs[k].start < rs[k].end
    ensures var collected := Collect(urlIds, FirstCitations(cs), cs);
      && ApplyReplacements(text, SortDescending(collected.reps)) == Rewritten(text, ReplacementsOf(urlIds, cs), 0)
      && Merged(existing, collected.news) == existing + Unlisted(existing, NewFootnotes(urlIds, FirstOccurrences(cs)))
  {
    CollectedLists(urlIds, cs);
    SortedApplyIsRewritten(text, ReplacementsOf(urlIds, cs));
    FirstOccurrencesSpec(cs);
    MergedAppendsUnlisted(existing, NewFootnotes(urlIds, FirstOccurrences(cs)));
  }

  /** The conversion with citations whose URLs all receive an identifier, step by step. */
  lemma ConvertUnfolds(api: UrlApi, text: string, st: IdState)
    requires |InlineCitations(api, text)| > 0
    requires Assigned(api, Seeded(api, ExistingFootnotes(api, text)), InlineCitations(api, text)) == Ok(st)
    ensures var cs := InlineCitations(api, text);
      var collected := Collect(st.urlIds, FirstCitations(cs), cs);
      Convert(api, text) == Ok(Reconciled(api, ApplyReplacements(text, SortDescending(collected.reps)),
        Merged(ExistingFootnotes(api, text), collected.news)))
  {
  }

  /** The collection loop's lists, as whole sequences. */
  lemma CollectedLists(urlIds: map<string, string>, cs: seq<Citation>)
    requires forall c <- cs :: !Unassigned(urlIds, c.url)
    ensures Collect(urlIds, FirstCitations(cs), cs).reps == ReplacementsOf(urlIds, cs)
    ensures Collect(urlIds, FirstCitations(cs), cs).news == NewFootnotes(urlIds, FirstOccurrences(cs))
  {
    CollectSpec(urlIds, cs);
  }

  lemma StartsAtLeft(a: string, b: string, pat: string, i: nat)
    requires StartsAt(a, pat, i)
    ensures StartsAt(a + b, pat, i)
  {
    assert (a + b)[i..i + |pat|] == a[i..i + |pat|];
  }

  lemma StartsAtRight(a: string, b: string, pat: string, i: nat)
    requires StartsAt(b, pat, i)
    ensures StartsAt(a + b, pat, |a| + i)
  {
    assert (a + b)[|a| + i..|a| + i + |pat|] == b[i..i + |pat|];
  }

  /**
   * With a block in the text, the text up to the end of the first begin
   * marker and the text from the first end marker are kept, in either order
   * of the markers; only what lies between is replaced.
   */
  lemma ReconciledKeepsAround(api: UrlApi, body: string, all: seq<Footnote>)
    requires HasFootnotesSection(body)
    ensures var r := Reconciled(api, body, all);
      var p, e := GetFootnotesInsertPosition(body), IndexOf(body, EndMarker);
      && 0 <= e && body[..p] <= r
      && |body| - e <= |r| && r[|r| - (|body| - e)..] == body[e..]
  {
    var p, e := GetFootnotesInsertPosition(body), IndexOf(body, EndMarker);
    var head, tail := JsSliceTo(body, p), JsSliceFrom(body, e);
    var mid := "\n" + Join(FootnoteLines(api, all), "\n") + "\n";
    assert e >= 0 && head == body[..p] && tail == body[e..];
    assert Reconciled(api, body, all) == head + mid + tail;
    var r := head + mid + tail;
    assert r[..|head|] == head;
    assert r[|r| - |tail|..] == tail;
  }

  /** Both branches of the last step leave both markers in the text. */
  lemma ReconciledHasSection(api: UrlApi, body: string, all: seq<Footnote>)
    ensures HasFootnotesSection(Reconciled(api, body, all))
  {
    var joined := Join(FootnoteLines(api, all), "\n");
    if HasFootnotesSection(body) {
      var insertPosition := GetFootnotesInsertPosition(body);
      var endMarkerPosition := IndexOf(body, EndMarker);
      MarkersAround(body, insertPosition, endMarkerPosition, JsSliceTo(body, insertPosition), joined, JsSliceFrom(body, endMarkerPosition));
    } else {
      MarkersInBlock(Trim(body) + "\n\n", joined, CreateFootnotesSection(api, all));
    }
  }

  /** The kept text before the lines ends with the begin marker, the kept text after them starts with the end marker. */
  lemma MarkersAround(body: string, insertPosition: nat, endMarkerPosition: int, head: string, joined: string, tail: string)
    requires HasFootnotesSection(body)
    requires insertPosition == GetFootnotesInsertPosition(body) && endMarkerPosition == IndexOf(body, EndMarker)
    requires head == JsSliceTo(body, insertPosition) && tail == JsSliceFrom(body, endMarkerPosition)
    ensures HasFootnotesSection(head + "\n" + joined + "\n" + tail)
  {
    var lines := "\n" + joined + "\n";
    assert head + "\n" + joined + "\n" + tail == head + lines + tail;
    assert head == body[..insertPosition];
    var b := insertPosition - |BeginMarker|;
    assert head[b..b + |BeginMarker|] == body[b..insertPosition];
    StartsAtLeft(head, lines + tail, BeginMarker, b);
    AppendAssoc(head, lines, tail);
    assert StartsAt(tail, EndMarker, 0);
    StartsAtRight(head + lines, tail, EndMarker, 0);
  }

  /** A new block after the trimmed text holds both markers. */
  lemma MarkersInBlock(head: string, joined: string, block: string)
    requires block == BeginMarker + "\n" + joined + "\n" + EndMarker
    ensures HasFootnotesSection(head + block)
  {
    var lines := "\n" + joined + "\n";
    assert block == BeginMarker + lines + EndMarker;
    StartsAtLeft(BeginMarker, lines + EndMarker, BeginMarker, 0);
    assert block == BeginMarker + (lines + EndMarker);
    StartsAtRight(head, block, BeginMarker, 0);
    assert StartsAt(EndMarker, EndMarker, 0);
    StartsAtRight(BeginMarker + lines, EndMarker, EndMarker, 0);
    StartsAtRight(head, block, EndMarker, |BeginMarker + lines|);
  }

  /** A conversion that found citations leaves a footnotes block in the text. */
  lemma ConvertHasSection(api: UrlApi, text: string, out: string)
    requires |InlineCitations(api, text)| > 0 && Convert(api, text) == Ok(out)
    ensures HasFootnotesSection(out)
  {
    var existing := ExistingFootnotes(api, text);
    var st := Assigned(api, Seeded(api, existing), InlineCitations(api, text)).value;
    var collected := Collect(st.urlIds, FirstCitations(InlineCitations(api, text)), InlineCitations(api, text));
    ReconciledHasSection(api, ApplyReplacements(text, SortDescending(collected.reps)), Merged(existing, collected.news));
  }

  // ---------------------------------------------------------------------------
  // The conversion is not idempotent
  // ---------------------------------------------------------------------------

  /**
   * A run over `(([A](https://a.com)) [B](https://b.com))` replaces the
   * citation at offsets 1 to 21 and leaves `([^a.com-1] [B](https://b.com))`
   * in front of the footnotes block. A second run reads that as one
   * citation, titled `^a.com-1] [B`, and replaces the marker written by
   * the first run, so running the conversion twice differs from running it once.
   */
  lemma RescanCounterexample(api: UrlApi, rest: string)
    requires IsValidUrl(api, "https://b.com")
    ensures var cs := InlineCitations(api, "([^a.com-1] [B](https://b.com))" + rest);
      |cs| > 0 && cs[0].title == "^a.com-1] [B" && cs[0].url == "https://b.com" && cs[0].start == 0 && cs[0].end == 31
  {
    WitnessText();
    WitnessParts();
    CitationOfParts(api, "^a.com-1] [B", "https://b.com", rest);
  }

  /** The rescanned text is `([`, a title, `](`, a URL and `))`. */
  lemma WitnessText()
    ensures "([" + "^a.com-1] [B" + "](" + "https://b.com" + "))" == "([^a.com-1] [B](https://b.com))"
  {
  }

  /** The title holds no `(` and no newline, the URL no `)`. */
  lemma WitnessParts()
    ensures '(' !in "^a.com-1] [B" && '\n' !in "^a.com-1] [B" && ')' !in "https://b.com"
  {
  }

  /**
   * Text that opens with `([`, a title without `(` and without line feeds,
   * `](`, a URL without `)`
   * and `))` is read as a citation with that title and URL, whatever follows.
   */
  lemma CitationOfParts(api: UrlApi, title: string, url: string, rest: string)
    requires title != "" && '(' !in title && '\n' !in title
    requires url != "" && ')' !in url && IsValidUrl(api, url)
    ensures var cs := InlineCitations(api, "([" + title + "](" + url + "))" + rest);
      |cs| > 0 && cs[0].title == title && cs[0].url == url && cs[0].start == 0 && cs[0].end == |title| + |url| + 6
  {
    var text := "([" + title + "](" + url + "))" + rest;
    var m := CitationMatch(0, |title| + 2, |title| + |url| + 4);
    PartsSlices(text, title, url, rest);
    MatchOfParts(text, title, url);
    CitationsFromStep(api, text, 0, m);
    assert FoldNewlines(title) == title;
  }

  /** Where the pieces of such text lie. */
  lemma PartsSlices(text: string, title: string, url: string, rest: string)
    requires text == "([" + title + "](" + url + "))" + rest
    ensures |title| + |url| + 6 <= |text|
    ensures text[0..2] == "([" && text[2..|title| + 2] == title && text[|title| + 2..|title| + 4] == "]("
    ensures text[|title| + 4..|title| + |url| + 4] == url && text[|title| + |url| + 4..|title| + |url| + 6] == "))"
  {
  }

  /** The match of such text: `](` right after the title, `))` right after the URL. */
  lemma MatchOfParts(text: string, title: string, url: string)
    requires |title| + |url| + 6 <= |text|
    requires text[0..2] == "([" && text[2..|title| + 2] == title && text[|title| + 2..|title| + 4] == "]("
    requires text[|title| + 4..|title| + |url| + 4] == url && text[|title| + |url| + 4..|title| + |url| + 6] == "))"
    requires '(' !in title && ')' !in url
    ensures NextCitationMatch(text, 0) == Some(CitationMatch(0, |title| + 2, |title| + |url| + 4))
  {
    var m := CitationMatch(0, |title| + 2, |title| + |url| + 4);
    BracketsOfParts(text, title, url);
    assert StartsAt(text, "([", 0);
    CitationAtIsFirstBrackets(text, 0);
    MatchHere(text, 0, m);
  }

  /** The first `](` after the opening is the one after the title, and the first `))` after it the one after the URL. */
  lemma BracketsOfParts(text: string, title: string, url: string)
    requires |title| + |url| + 6 <= |text|
    requires text[2..|title| + 2] == title && text[|title| + 2..|title| + 4] == "]("
    requires text[|title| + 4..|title| + |url| + 4] == url && text[|title| + |url| + 4..|title| + |url| + 6] == "))"
    requires '(' !in title && ')' !in url
    ensures FirstBrackets(text, 0, 2) == Some(CitationMatch(0, |title| + 2, |title| + |url| + 4))
  {
    TitleCloses(text, title);
    UrlCloses(text, url, |title| + 4);
  }

  /** A match at `from` is what the scan from `from` finds. */
  lemma MatchHere(text: string, from: nat, m: CitationMatch)
    requires from <= |text| && CitationAt(text, from) == Some(m)
    ensures NextCitationMatch(text, from) == Some(m)
  {
  }

  /** After `([` and a title without `(`, the first `](` is the one right after the title. */
  lemma TitleCloses(text: string, title: string)
    requires |title| + 4 <= |text| && text[2..|title| + 2] == title && text[|title| + 2..|title| + 4] == "]("
    requires '(' !in title
    ensures IndexFrom(text, "](", 2) == Some(|title| + 2)
  {
    var te := |title| + 2;
    forall j | 2 <= j < te
      ensures !StartsAt(text, "](", j)
    {
      PairAt(text, "](", j);
      if j + 1 < te {
        assert text[j + 1] == title[j - 1];
      } else {
        assert text[j + 1] == text[te..te + 2][0];
      }
    }
    FirstIndex(text, "](", 2, te);
  }

  /** Past `from`, a URL without `)` runs up to the first `))`. */
  lemma UrlCloses(text: string, url: string, from: nat)
    requires from + |url| + 2 <= |text| && text[from..from + |url|] == url && text[from + |url|..from + |url| + 2] == "))"
    requires ')' !in url
    ensures IndexFrom(text, "))", from) == Some(from + |url|)
  {
    var ue := from + |url|;
    forall j | from <= j < ue
      ensures !StartsAt(text, "))", j)
    {
      PairAt(text, "))", j);
      assert text[j] == url[j - from];
    }
    FirstIndex(text, "))", from, ue);
  }

  /** `indexOf` returns the first occurrence at or after `from`. */
  lemma FirstIndex(s: string, pat: string, from: nat, v: nat)
    requires from <= v && StartsAt(s, pat, v)
    requires forall j :: from <= j < v ==> !StartsAt(s, pat, j)
    ensures IndexFrom(s, pat, from) == Some(v)
  {
  }

  /** A two-character pattern occurs where its two characters do. */
  lemma PairAt(s: string, pat: string, j: nat)
    requires |pat| == 2
    ensures StartsAt(s, pat, j) <==> j + 2 <= |s| && s[j] == pat[0] && s[j + 1] == pat[1]
  {
    if j + 2 <= |s| {
      assert s[j..j + 2][0] == s[j] && s[j..j + 2][1] == s[j + 1];
      if s[j] == pat[0] && s[j + 1] == pat[1] {
        assert s[j..j + 2] == pat;
      }
    }
  }
}
