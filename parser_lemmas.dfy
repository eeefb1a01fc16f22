/**
 * What the citation scanner of src/parser.ts guarantees: the lazy match of
 * the citation pattern is the first `](` after `([` and the first `))`
 * after that, every reported citation is well formed, and the citations
 * come in text order with disjoint spans.
 */
module ParserLemmas {
  import opened Wrappers
  import opened Strings
  import opened Utils
  import opened Parser

  // ---------------------------------------------------------------------------
  // The citation pattern's match at one offset
  // ---------------------------------------------------------------------------

  /**
   * The match read off directly: the first `](` at or after `from`, then
   * the first `))` after it.
   */
  function FirstBrackets(text: string, i: nat, from: nat): Option<CitationMatch> {
    match IndexFrom(text, "](", from)
    case None => None
    case Some(t) =>
      match IndexFrom(text, "))", t + 2)
      case None => None
      case Some(e) => Some(CitationMatch(i, t, e))
  }

  /**
   * The backtracking of the two lazy groups settles on the first `](` and
   * the first `))` after it: if no `))` follows the first `](`, none follows
   * a later one either.
   */
  lemma {:induction false} LazyCitationTitleIsFirstBrackets(text: string, i: nat, c: nat)
    requires i + 2 <= c <= |text| && StartsAt(text, "([", i)
    ensures LazyCitationTitle(text, i, c) == FirstBrackets(text, i, c)
    decreases |text| - c
  {
    if c == |text| {
      TitleAtEnd(text, i, c);
    } else if StartsAt(text, "](", c) && IndexFrom(text, "))", c + 2).Some? {
      TitleClosesAt(text, i, c);
    } else if StartsAt(text, "](", c) {
      TitleNeverCloses(text, i, c);
    } else {
      TitleSkips(text, i, c);
      LazyCitationTitleIsFirstBrackets(text, i, c + 1);
    }
  }

  lemma TitleAtEnd(text: string, i: nat, c: nat)
    requires i + 2 <= c == |text| && StartsAt(text, "([", i)
    ensures LazyCitationTitle(text, i, c) == None == FirstBrackets(text, i, c)
  {
    assert IndexFrom(text, "](", c) == None;
  }

  lemma TitleClosesAt(text: string, i: nat, c: nat)
    requires i + 2 <= c <= |text| && StartsAt(text, "([", i)
    requires StartsAt(text, "](", c) && IndexFrom(text, "))", c + 2).Some?
    ensures LazyCitationTitle(text, i, c) == FirstBrackets(text, i, c)
  {
    assert IndexFrom(text, "](", c) == Some(c);
  }

  /** With no `))` after the first `](`, no later `](` closes either. */
  lemma {:induction false} TitleNeverCloses(text: string, i: nat, c: nat)
    requires i + 2 <= c <= |text| && StartsAt(text, "([", i)
    requires StartsAt(text, "](", c) && IndexFrom(text, "))", c + 2).None?
    ensures LazyCitationTitle(text, i, c) == None == FirstBrackets(text, i, c)
    decreases |text| - c
  {
    assert IndexFrom(text, "](", c) == Some(c);
    NoCloseFrom(text, i, c + 1, c + 2);
  }

  lemma {:induction false} NoCloseFrom(text: string, i: nat, c: nat, a: nat)
    requires i + 2 <= c <= |text| && StartsAt(text, "([", i)
    requires a <= c + 2 && IndexFrom(text, "))", a).None?
    ensures LazyCitationTitle(text, i, c) == None
    decreases |text| - c
  {
    if StartsAt(text, "](", c) {
      IndexFromNoneLater(text, "))", a, c + 2);
    }
    if c < |text| {
      NoCloseFrom(text, i, c + 1, a);
    }
  }

  lemma TitleSkips(text: string, i: nat, c: nat)
    requires i + 2 <= c < |text| && StartsAt(text, "([", i) && !StartsAt(text, "](", c)
    ensures LazyCitationTitle(text, i, c) == LazyCitationTitle(text, i, c + 1)
    ensures FirstBrackets(text, i, c) == FirstBrackets(text, i, c + 1)
  {
    IndexFromSkip(text, "](", c);
  }

  /** `([` at `i`, the first `](` after it, the first `))` after that: the match the pattern finds at `i`. */
  lemma CitationAtIsFirstBrackets(text: string, i: nat)
    requires i <= |text|
    ensures CitationAt(text, i) == if StartsAt(text, "([", i) then FirstBrackets(text, i, i + 2) else None
  {
    if StartsAt(text, "([", i) {
      LazyCitationTitleIsFirstBrackets(text, i, i + 2);
    }
  }

  // ---------------------------------------------------------------------------
  // Reported citations
  // ---------------------------------------------------------------------------

  /**
   * A reported citation: its span holds `([` raw-title `](` url `))`, the
   * title is the raw title with line feeds turned into spaces, `](` first
   * occurs after the raw title and `))` first occurs after the URL; title and
   * URL are non-empty and the URL is valid.
   */
  ghost predicate WellFormedCitation(api: UrlApi, text: string, c: Citation) {
    && c.start < c.end <= |text| && c.end == c.start + |c.fullMatch| && text[c.start..c.end] == c.fullMatch
    && |c.fullMatch| == |c.title| + |c.url| + 6
    && c.fullMatch == "([" + c.fullMatch[2..2 + |c.title|] + "](" + c.url + "))"
    && c.title == FoldNewlines(c.fullMatch[2..2 + |c.title|])
    && (forall j :: 2 <= j < 2 + |c.title| ==> !StartsAt(c.fullMatch, "](", j))
    && (forall j :: 4 + |c.title| <= j < |c.fullMatch| - 2 ==> !StartsAt(c.fullMatch, "))", j))
    && c.title != "" && c.url != "" && IsValidUrl(api, c.url)
  }

  /** A slice of the text and the same slice of a span that contains it are the same pattern test. */
  lemma StartsAtInSpan(text: string, a: nat, b: nat, pat: string, j: nat)
    requires a <= b <= |text| && j + |pat| <= b - a
    ensures StartsAt(text[a..b], pat, j) <==> StartsAt(text, pat, a + j)
  {
    var span := text[a..b];
    forall k | j <= k < j + |pat|
      ensures span[k] == text[a + k]
    {
    }
    assert span[j..j + |pat|] == text[a + j..a + j + |pat|];
  }

  lemma SliceSplit(s: string, a: nat, b: nat, c: nat)
    requires a <= b <= c <= |s|
    ensures s[a..c] == s[a..b] + s[b..c]
  {
  }

  /** The matched text is `([`, the title group, `](`, the URL group, `))`. */
  lemma MatchedText(text: string, m: CitationMatch)
    requires IsCitationMatch(text, m)
    ensures text[m.start..m.End()] == "([" + text[m.start + 2..m.titleEnd] + "](" + text[m.titleEnd + 2..m.urlEnd] + "))"
  {
    SliceSplit(text, m.start, m.start + 2, m.End());
    SliceSplit(text, m.start + 2, m.titleEnd, m.End());
    SliceSplit(text, m.titleEnd, m.titleEnd + 2, m.End());
    SliceSplit(text, m.titleEnd + 2, m.urlEnd, m.End());
  }

  /** The two searches behind a match found by `FirstBrackets`. */
  lemma FirstBracketsParts(text: string, i: nat, from: nat, m: CitationMatch)
    requires FirstBrackets(text, i, from) == Some(m)
    ensures IndexFrom(text, "](", from) == Some(m.titleEnd)
    ensures IndexFrom(text, "))", m.titleEnd + 2) == Some(m.urlEnd)
  {
  }

  /** No `](` inside the title group and no `))` inside the URL group, read on the matched text. */
  lemma MatchIsLazy(text: string, m: CitationMatch)
    requires m.start <= |text| && CitationAt(text, m.start) == Some(m)
    ensures var fm := text[m.start..m.End()];
      && (forall j :: 2 <= j < m.titleEnd - m.start ==> !StartsAt(fm, "](", j))
      && (forall j :: m.titleEnd + 2 - m.start <= j < |fm| - 2 ==> !StartsAt(fm, "))", j))
  {
    CitationAtIsFirstBrackets(text, m.start);
    FirstBracketsParts(text, m.start, m.start + 2, m);
    NotFoundInSpan(text, "](", m.start, m.End(), m.start + 2, m.titleEnd);
    NotFoundInSpan(text, "))", m.start, m.End(), m.titleEnd + 2, m.urlEnd);
  }

  /** Offsets `indexOf` passes over before its result, read on a span that contains them. */
  lemma NotFoundInSpan(text: string, pat: string, a: nat, b: nat, from: nat, r: nat)
    requires a <= from && r + |pat| <= b <= |text| && IndexFrom(text, pat, from) == Some(r)
    ensures forall j :: from - a <= j < r - a ==> !StartsAt(text[a..b], pat, j)
  {
    forall j | from - a <= j < r - a
      ensures !StartsAt(text[a..b], pat, j)
    {
      StartsAtInSpan(text, a, b, pat, j);
    }
  }

  /** The citation an accepted match yields is well formed. */
  lemma AcceptedCitationWellFormed(api: UrlApi, text: string, m: CitationMatch)
    requires m.start <= |text| && CitationAt(text, m.start) == Some(m)
    requires AcceptCitation(api, text, m).Some?
    ensures WellFormedCitation(api, text, AcceptCitation(api, text, m).value)
  {
    var c := AcceptCitation(api, text, m).value;
    MatchedText(text, m);
    MatchIsLazy(text, m);
    assert c.fullMatch[2..2 + |c.title|] == text[m.start + 2..m.titleEnd];
  }

  /** Every citation reported from `from` on is well formed. */
  lemma {:induction false} CitationsFromWellFormed(api: UrlApi, text: string, from: nat)
    requires from <= |text|
    ensures forall c <- CitationsFrom(api, text, from) :: WellFormedCitation(api, text, c)
    decreases |text| - from
  {
    match NextCitationMatch(text, from)
    case None =>
    case Some(m) =>
      CitationsFromWellFormed(api, text, m.End());
      var accepted := AcceptCitation(api, text, m);
      if accepted.Some? {
        AcceptedCitationWellFormed(api, text, m);
      }
      assert CitationsFrom(api, text, from) == OptionToSeq(accepted) + CitationsFrom(api, text, m.End());
  }

  /** Spans at or after `from`, in text order, not overlapping. */
  ghost predicate SpansInOrder(cs: seq<Citation>, from: nat) {
    && (forall k :: 0 <= k < |cs| ==> from <= cs[k].start < cs[k].end)
    && (forall k, l :: 0 <= k < l < |cs| ==> cs[k].end <= cs[l].start)
  }

  /** The citations reported from `from` on start at or after `from`, in text order, with disjoint spans. */
  lemma {:induction false} CitationsFromOrdered(api: UrlApi, text: string, from: nat)
    requires from <= |text|
    ensures SpansInOrder(CitationsFrom(api, text, from), from)
    decreases |text| - from
  {
    match NextCitationMatch(text, from)
    case None =>
    case Some(m) =>
      var rest := CitationsFrom(api, text, m.End());
      CitationsFromOrdered(api, text, m.End());
      assert SpansInOrder(rest, m.End());
      var accepted := AcceptCitation(api, text, m);
      assert CitationsFrom(api, text, from) == OptionToSeq(accepted) + rest;
      if accepted.Some? {
        assert accepted.value.start == m.start && accepted.value.end == m.End();
        PrependInOrder(accepted.value, rest, from);
      }
  }

  lemma PrependInOrder(c: Citation, rest: seq<Citation>, from: nat)
    requires from <= c.start < c.end && SpansInOrder(rest, c.end)
    ensures SpansInOrder([c] + rest, from)
  {
    var cs := [c] + rest;
    forall k, l | 0 <= k < l < |cs|
      ensures cs[k].end <= cs[l].start
    {
      assert cs[l] == rest[l - 1];
      if k > 0 {
        assert cs[k] == rest[k - 1];
      }
    }
  }

  /** `findInlineCitations`: well-formed citations, in text order, with disjoint spans. */
  lemma InlineCitationsWellFormed(api: UrlApi, text: string)
    ensures var cs := InlineCitations(api, text);
      && (forall c <- cs :: WellFormedCitation(api, text, c))
      && (forall k, l :: 0 <= k < l < |cs| ==> cs[k].end <= cs[l].start)
  {
    assert InlineCitations(api, text) == CitationsFrom(api, text, 0);
    CitationsFromWellFormed(api, text, 0);
    CitationsFromOrdered(api, text, 0);
  }
}
