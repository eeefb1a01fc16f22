/**
 * What the footnote scanner of src/parser.ts guarantees, and the round trip
 * through the footnotes block: the block `createFootnotesSection` renders
 * reads back, through `findExistingFootnotes`, as the very entries it was
 * rendered from. The block is the store the converter re-reads on its next
 * run.
 */
module FootnoteLemmas {
  import opened Wrappers
  import opened Strings
  import opened Utils
  import opened Parser

  // ---------------------------------------------------------------------------
  // Reported footnotes
  // ---------------------------------------------------------------------------

  /** The label between `[^` and `]` of an identifier. */
  function Label(id: string): string
    requires |id| >= 3
  {
    id[2..|id| - 1]
  }

  /**
   * A reported footnote: the identifier is `[^label]` around a non-empty
   * label on one line, the title is non-empty and on one line, and the URL is
   * non-empty, on one line, free of `)` and valid.
   */
  ghost predicate WellFormedFootnote(api: UrlApi, f: Footnote) {
    && |f.id| >= 4 && f.id == "[^" + Label(f.id) + "]" && NoLineTerminator(Label(f.id))
    && f.title != "" && NoLineTerminator(f.title)
    && f.url != "" && NoLineTerminator(f.url) && ')' !in f.url && IsValidUrl(api, f.url)
  }

  lemma AcceptedFootnoteWellFormed(api: UrlApi, text: string, m: FootnoteMatch)
    requires IsFootnoteMatch(text, m) && AcceptFootnote(api, text, m).Some?
    ensures WellFormedFootnote(api, AcceptFootnote(api, text, m).value)
  {
    var inner := text[m.start + 2..m.idEnd];
    var f := AcceptFootnote(api, text, m).value;
    assert f.id == "[^" + inner + "]";
    assert Label(f.id) == inner;
  }

  /** Every footnote reported from `from` on is well formed. */
  lemma {:induction false} FootnotesFromWellFormed(api: UrlApi, text: string, from: nat)
    requires from <= |text|
    ensures forall f <- FootnotesFrom(api, text, from) :: WellFormedFootnote(api, f)
    decreases |text| - from
  {
    match NextFootnoteMatch(text, from)
    case None =>
    case Some(m) =>
      FootnotesFromWellFormed(api, text, m.end);
      var accepted := AcceptFootnote(api, text, m);
      if accepted.Some? {
        AcceptedFootnoteWellFormed(api, text, m);
      }
      assert FootnotesFrom(api, text, from) == OptionToSeq(accepted) + FootnotesFrom(api, text, m.end);
  }

  /** `findExistingFootnotes`: every entry is well formed. */
  lemma ExistingFootnotesWellFormed(api: UrlApi, text: string)
    ensures forall f <- ExistingFootnotes(api, text) :: WellFormedFootnote(api, f)
  {
    FootnotesFromWellFormed(api, text, 0);
  }

  // ---------------------------------------------------------------------------
  // Skipping text that holds no `[`
  // ---------------------------------------------------------------------------

  /** No match starts where `[^` does not. */
  lemma FootnotesFromSkip(api: UrlApi, text: string, a: nat)
    requires a < |text| && !StartsAt(text, "[^", a)
    ensures FootnotesFrom(api, text, a) == FootnotesFrom(api, text, a + 1)
  {
    assert NextFootnoteMatch(text, a) == NextFootnoteMatch(text, a + 1);
  }

  /** Text without `[` between `a` and `b` is passed over. */
  lemma {:induction false} FootnotesFromSkipTo(api: UrlApi, text: string, a: nat, b: nat)
    requires a <= b <= |text| && forall k :: a <= k < b ==> text[k] != '['
    ensures FootnotesFrom(api, text, a) == FootnotesFrom(api, text, b)
    decreases b - a
  {
    if a < b {
      assert !StartsAt(text, "[^", a) by {
        assert a + 2 <= |text| ==> text[a..a + 2][0] == text[a];
      }
      FootnotesFromSkip(api, text, a);
      FootnotesFromSkipTo(api, text, a + 1, b);
    }
  }

  lemma FootnotesFromEnd(api: UrlApi, text: string)
    ensures FootnotesFrom(api, text, |text|) == []
  {
    assert NextFootnoteMatch(text, |text|) == None;
  }

  // ---------------------------------------------------------------------------
  // One rendered line, group by group
  // ---------------------------------------------------------------------------

  /** The lazy URL group stops at the first `)`. */
  lemma {:induction false} UrlRun(text: string, a: nat, e: nat)
    requires a <= e < |text| && text[e] == ')' && ')' !in text[a..e] && NoLineTerminator(text[a..e])
    ensures LazyFootnoteUrl(text, a) == Some(e)
    decreases e - a
  {
    if a < e {
      assert text[a] == text[a..e][0];
      assert text[a + 1..e] == text[a..e][1..];
      UrlRun(text, a + 1, e);
    }
  }

  /** The next character of a one-line run without `]`, and the run after it. */
  lemma RunFacts(text: string, p: nat, t: nat, e: nat)
    requires p <= t < e <= |text| && NoLineTerminator(text[p..e]) && ']' !in text[t..e]
    ensures text[t] != ']' && !IsLineTerminator(text[t])
    ensures NoLineTerminator(text[p..t + 1]) && ']' !in text[t + 1..e]
  {
    assert text[t] == text[t..e][0];
    assert text[t] == text[p..e][t - p];
    assert text[t + 1..e] == text[t..e][1..];
    assert text[p..t + 1] == text[p..e][..t + 1 - p];
  }

  /** A character other than `]` does not start `]:` or `](`. */
  lemma NoBracketClose(text: string, pat: string, at: nat)
    requires at < |text| && text[at] != ']' && |pat| > 0 && pat[0] == ']'
    ensures !StartsAt(text, pat, at)
  {
    if at + |pat| <= |text| {
      assert text[at..at + |pat|][0] == text[at];
    }
  }

  /** A title character other than `]`: the lazy title group takes it and goes on. */
  lemma TitleStep(text: string, i: nat, c: nat, p: nat, t: nat)
    requires i + 2 <= c && c + 3 <= p <= t < |text|
    requires StartsAt(text, "[^", i) && StartsAt(text, "]:", c) && text[p - 1] == '['
    requires NoLineTerminator(text[i + 2..c]) && NoLineTerminator(text[p..t + 1])
    requires text[t] != ']' && !IsLineTerminator(text[t])
    ensures NoLineTerminator(text[p..t])
    ensures LazyFootnoteTitle(text, i, c, p, t) == LazyFootnoteTitle(text, i, c, p, t + 1)
  {
    assert text[p..t] == text[p..t + 1][..t - p];
    NoBracketClose(text, "](", t);
  }

  /** An id character other than `]`: the lazy id group takes it and goes on. */
  lemma IdStep(text: string, i: nat, c: nat)
    requires i + 2 <= c < |text| && StartsAt(text, "[^", i)
    requires NoLineTerminator(text[i + 2..c + 1])
    requires text[c] != ']' && !IsLineTerminator(text[c])
    ensures NoLineTerminator(text[i + 2..c])
    ensures LazyFootnoteId(text, i, c) == LazyFootnoteId(text, i, c + 1)
  {
    assert text[i + 2..c] == text[i + 2..c + 1][..c - i - 2];
    NoBracketClose(text, "]:", c);
  }

  /** The lazy title group passes over characters other than `]`. */
  lemma {:induction false} TitleRun(text: string, i: nat, c: nat, p: nat, t: nat, e: nat)
    requires i + 2 <= c && c + 3 <= p <= t <= e <= |text|
    requires StartsAt(text, "[^", i) && StartsAt(text, "]:", c) && text[p - 1] == '['
    requires NoLineTerminator(text[i + 2..c]) && NoLineTerminator(text[p..t])
    requires NoLineTerminator(text[p..e]) && ']' !in text[t..e]
    ensures LazyFootnoteTitle(text, i, c, p, t) == LazyFootnoteTitle(text, i, c, p, e)
    decreases e - t
  {
    if t < e {
      RunFacts(text, p, t, e);
      TitleStep(text, i, c, p, t);
      TitleRun(text, i, c, p, t + 1, e);
    }
  }

  /** The lazy id group passes over characters other than `]`. */
  lemma {:induction false} IdRun(text: string, i: nat, c: nat, e: nat)
    requires i + 2 <= c <= e <= |text| && StartsAt(text, "[^", i)
    requires NoLineTerminator(text[i + 2..c]) && NoLineTerminator(text[i + 2..e]) && ']' !in text[c..e]
    ensures LazyFootnoteId(text, i, c) == LazyFootnoteId(text, i, e)
    decreases e - c
  {
    if c < e {
      RunFacts(text, i + 2, c, e);
      IdStep(text, i, c);
      IdRun(text, i, c + 1, e);
    }
  }

  /** A single space before `[`: the white-space run is that space. */
  lemma OneSpace(text: string, p: nat)
    requires p + 1 < |text| && text[p] == ' ' && text[p + 1] == '['
    ensures SpaceRunEnd(text, p) == p + 1
  {
    assert SpaceRunEnd(text, p + 1) == p + 1;
  }

  /** One space and then `[` after `]:`: the title group opens right after the `[`. */
  lemma AfterIdOpens(text: string, i: nat, c: nat)
    requires i + 2 <= c && c + 4 <= |text| && StartsAt(text, "[^", i) && NoLineTerminator(text[i + 2..c])
    requires StartsAt(text, "]:", c) && text[c + 2] == ' ' && text[c + 3] == '['
    ensures AfterFootnoteId(text, i, c) == LazyFootnoteTitle(text, i, c, c + 4, c + 4)
  {
    OneSpace(text, c + 2);
    AfterIdAt(text, i, c, c + 3);
  }

  /** A `[` where the white-space run after `]:` ends: the title group opens right after it. */
  lemma AfterIdAt(text: string, i: nat, c: nat, w: nat)
    requires i + 2 <= c && StartsAt(text, "[^", i) && StartsAt(text, "]:", c) && NoLineTerminator(text[i + 2..c])
    requires c + 2 <= |text| && w == SpaceRunEnd(text, c + 2) && w < |text| && text[w] == '['
    ensures AfterFootnoteId(text, i, c) == LazyFootnoteTitle(text, i, c, w + 1, w + 1)
  {
  }

  /** `]: [` after the id and a title group that closes: the id group stops at `c`. */
  lemma IdCloses(text: string, i: nat, c: nat)
    requires i + 2 <= c && c + 4 <= |text| && StartsAt(text, "[^", i) && NoLineTerminator(text[i + 2..c])
    requires StartsAt(text, "]:", c) && text[c + 2] == ' ' && text[c + 3] == '['
    requires LazyFootnoteTitle(text, i, c, c + 4, c + 4).Some?
    ensures LazyFootnoteId(text, i, c) == LazyFootnoteTitle(text, i, c, c + 4, c + 4)
  {
    AfterIdOpens(text, i, c);
  }

  /** The lazy quotation stops at the first `</blockquote>`. */
  lemma {:induction false} QuoteRun(text: string, q: nat, e: nat)
    requires q <= e && StartsAt(text, "</blockquote>", e) && '<' !in text[q..e] && NoLineTerminator(text[q..e])
    ensures LazyQuoteEnd(text, q) == Some(e + 13)
    decreases e - q
  {
    if q < e {
      assert text[q] == text[q..e][0];
      assert q + 13 <= |text| ==> text[q..q + 13][0] == text[q];
      assert text[q + 1..e] == text[q..e][1..];
      QuoteRun(text, q + 1, e);
    }
  }

  /** No quotation: a line feed and then a character that is neither white space nor `<blockquote>`. */
  lemma NoQuote(text: string, u: nat)
    requires u + 3 < |text| && text[u + 1] == '\n' && !IsJsSpace(text[u + 2])
    requires text[u + 2] != '<' || text[u + 3] != 'b'
    ensures BlockquoteEnd(text, u + 1) == u + 1
  {
    assert SpaceRunEnd(text, u + 2) == u + 2;
    assert SpaceRunEnd(text, u + 1) == u + 2;
    assert u + 14 <= |text| ==> text[u + 2..u + 14][0] == text[u + 2] && text[u + 2..u + 14][1] == text[u + 3];
  }

  /** A quotation: one space, `<blockquote>`, the quoted text, `</blockquote>`. */
  lemma Quote(text: string, u: nat, e: nat)
    requires u + 14 <= e && StartsAt(text, "<blockquote>", u + 2) && text[u + 1] == ' '
    requires StartsAt(text, "</blockquote>", e) && '<' !in text[u + 14..e] && NoLineTerminator(text[u + 14..e])
    ensures BlockquoteEnd(text, u + 1) == e + 13
  {
    assert text[u + 2] == text[u + 2..u + 14][0];
    assert SpaceRunEnd(text, u + 2) == u + 2;
    assert SpaceRunEnd(text, u + 1) == u + 2;
    QuoteRun(text, u + 14, e);
  }

  // ---------------------------------------------------------------------------
  // The round trip
  // ---------------------------------------------------------------------------

  /** A quotation `findExistingFootnotes` reads past: no `<` (the quotation is HTML-escaped) and one line. */
  predicate QuoteRereadable(fragment: Option<string>) {
    fragment.Some? && fragment.value != "" ==> '<' !in fragment.value && NoLineTerminator(fragment.value)
  }

  /**
   * A footnote that the block stores faithfully: the label, the title and
   * the URL are on one line and free of the character that ends their group
   * (`]`, `]` and `)`), none is empty, and the URL is valid.
   */
  ghost predicate Rereadable(api: UrlApi, f: Footnote) {
    && |f.id| >= 4 && f.id == "[^" + Label(f.id) + "]"
    && ']' !in Label(f.id) && NoLineTerminator(Label(f.id))
    && f.title != "" && ']' !in f.title && NoLineTerminator(f.title)
    && f.url != "" && ')' !in f.url && NoLineTerminator(f.url) && IsValidUrl(api, f.url)
    && QuoteRereadable(ExtractTextFragment(api, f.url))
  }

  /** What follows the `)` of a rendered line. */
  function QuoteTail(api: UrlApi, f: Footnote): string {
    var fragment := ExtractTextFragment(api, f.url);
    if fragment.Some? && fragment.value != "" then " <blockquote>" + fragment.value + "</blockquote>" else ""
  }

  lemma Peel(text: string, at: nat, a: string, b: string)
    requires at <= |text| && text[at..] == a + b
    ensures at + |a| <= |text| && text[at..at + |a|] == a && text[at + |a|..] == b
  {
    assert text[at..at + |a|] == text[at..][..|a|];
    assert text[at + |a|..] == text[at..][|a|..];
  }

  /** A rendered line is the link part, its `)`, then the optional quotation. */
  lemma LineThenQuote(api: UrlApi, f: Footnote)
    ensures FootnoteLine(api, f) == f.id + ": [" + f.title + "](" + f.url + ")" + QuoteTail(api, f)
  {
    var head := f.id + ": [" + f.title + "](" + f.url;
    var fragment := ExtractTextFragment(api, f.url);
    if fragment.Some? && fragment.value != "" {
      var v := fragment.value;
      assert ") <blockquote>" == ")" + " <blockquote>";
      calc {
        FootnoteLine(api, f);
        head + ") <blockquote>" + v + "</blockquote>";
        head + (")" + " <blockquote>") + v + "</blockquote>";
        head + ")" + (" <blockquote>" + v + "</blockquote>");
      }
    } else {
      assert head + ")" + "" == head + ")";
    }
  }

  /** A rendered line followed by a line feed, group by group. */
  lemma LineGroups(api: UrlApi, f: Footnote, rest: string)
    requires |f.id| >= 3 && f.id == "[^" + Label(f.id) + "]"
    ensures FootnoteLine(api, f) + "\n" + rest
      == "[^" + (Label(f.id) + ("]: [" + (f.title + ("](" + (f.url + (")" + (QuoteTail(api, f) + ("\n" + rest))))))))
  {
    var name, quote := Label(f.id), QuoteTail(api, f);
    var y := f.title + ("](" + (f.url + (")" + (quote + ("\n" + rest)))));
    LineThenQuote(api, f);
    RightNested(f.id, ": [", f.title, "](", f.url, ")", quote, "\n", rest);
    RightNested3("[^", name, "]", ": [" + y);
    assert "]" + (": [" + y) == "]: [" + y;
  }

  /** Nine pieces concatenated left to right, regrouped to the right. */
  lemma RightNested<T>(a: seq<T>, b: seq<T>, c: seq<T>, d: seq<T>, e: seq<T>, f: seq<T>, g: seq<T>, h: seq<T>, k: seq<T>)
    ensures a + b + c + d + e + f + g + h + k == a + (b + c + d + e + (f + (g + (h + k))))
    ensures b + c + d + e + (f + (g + (h + k))) == b + (c + (d + (e + (f + (g + (h + k))))))
  {
  }

  /** Four pieces concatenated left to right, regrouped to the right. */
  lemma RightNested3<T>(a: seq<T>, b: seq<T>, c: seq<T>, d: seq<T>)
    ensures a + b + c + d == a + (b + (c + d))
  {
  }

  /** The quotation after the `)`: one space, `<blockquote>`, the fragment, `</blockquote>`. */
  lemma QuoteGroups(q: string, rest: string)
    ensures " <blockquote>" + q + "</blockquote>" + ("\n" + rest)
      == " " + ("<blockquote>" + (q + ("</blockquote>" + ("\n" + rest))))
  {
  }

  /** Four consecutive pieces of the text from `at` on. */
  lemma Layout4(text: string, at: nat, a: string, b: string, c: string, d: string)
    requires at <= |text| && text[at..] == a + (b + (c + d))
    ensures at + |a| + |b| + |c| <= |text|
    ensures text[at..at + |a|] == a && text[at + |a|..at + |a| + |b|] == b
    ensures text[at + |a| + |b|..at + |a| + |b| + |c|] == c && text[at + |a| + |b| + |c|..] == d
  {
    Peel(text, at, a, b + (c + d));
    Peel(text, at + |a|, b, c + d);
    Peel(text, at + |a| + |b|, c, d);
  }

  /** `]: [` read character by character. */
  lemma IdSeparator(text: string, c: nat)
    requires c + 4 <= |text| && text[c..c + 4] == "]: ["
    ensures StartsAt(text, "]:", c) && text[c + 2] == ' ' && text[c + 3] == '['
  {
    assert text[c..c + 2] == text[c..c + 4][..2];
    assert text[c + 2] == text[c..c + 4][2] && text[c + 3] == text[c..c + 4][3];
  }

  /** The groups of a line `[^x]: [title](url)` followed by `tail`, over plain strings. */
  lemma LinePieces(text: string, at: nat, x: string, title: string, url: string, tail: string, c: nat, t: nat, u: nat)
    requires at <= |text| && text[at..] == "[^" + (x + ("]: [" + (title + ("](" + (url + (")" + tail))))))
    requires c == at + 2 + |x| && t == c + 4 + |title| && u == t + 2 + |url|
    ensures u < |text|
    ensures StartsAt(text, "[^", at) && text[at + 2..c] == x && text[c..c + 4] == "]: ["
    ensures text[c + 4..t] == title && StartsAt(text, "](", t) && text[t + 2..u] == url
    ensures text[u] == ')' && text[u + 1..] == tail
  {
    Layout4(text, at, "[^", x, "]: [", title + ("](" + (url + (")" + tail))));
    Layout4(text, c + 4, title, "](", url, ")" + tail);
    Peel(text, u, ")", tail);
    assert text[u] == text[u..u + 1][0];
  }

  /** A line without quotation: the line feed right after the `)`. */
  lemma TailNone(text: string, u: nat, rest: string)
    requires u < |text| && text[u + 1..] == "\n" + rest
    requires |rest| >= 2 && (rest[0] == '[' || (rest[0] == '<' && rest[1] == '!'))
    ensures BlockquoteEnd(text, u + 1) == u + 1
    ensures u + 1 < |text| && text[u + 1] == '\n' && text[u + 2..] == rest
  {
    Peel(text, u + 1, "\n", rest);
    assert text[u + 1] == text[u + 1..u + 2][0];
    assert text[u + 2] == rest[0] && text[u + 3] == rest[1];
    NoQuote(text, u);
  }

  /** A line with a quotation `q`: the line feed right after `</blockquote>`. */
  lemma TailQuote(text: string, u: nat, q: string, rest: string)
    requires u < |text| && text[u + 1..] == " " + ("<blockquote>" + (q + ("</blockquote>" + ("\n" + rest))))
    requires '<' !in q && NoLineTerminator(q)
    ensures BlockquoteEnd(text, u + 1) == u + 27 + |q|
    ensures u + 27 + |q| < |text| && text[u + 27 + |q|] == '\n' && text[u + 28 + |q|..] == rest
  {
    var e := u + 14 + |q|;
    Layout4(text, u + 1, " ", "<blockquote>", q, "</blockquote>" + ("\n" + rest));
    assert u + 1 + |" "| == u + 2 && u + 2 + |"<blockquote>"| == u + 14 && u + 14 + |q| == e;
    assert text[u + 1] == text[u + 1..u + 2][0];
    Quote(text, u, e);
    Layout4(text, e, "</blockquote>", "\n", rest, "");
    assert e + |"</blockquote>"| == u + 27 + |q| && u + 27 + |q| + |"\n"| == u + 28 + |q|;
    assert text[u + 27 + |q|] == text[u + 27 + |q|..u + 28 + |q|][0];
  }

  /** The rest of a rendered line after its `)`: the optional group ends where the line does. */
  lemma TailEnd(api: UrlApi, text: string, u: nat, f: Footnote, rest: string, lineEnd: nat)
    requires QuoteRereadable(ExtractTextFragment(api, f.url))
    requires u < |text| && text[u + 1..] == QuoteTail(api, f) + ("\n" + rest)
    requires |rest| >= 2 && (rest[0] == '[' || (rest[0] == '<' && rest[1] == '!'))
    requires lineEnd == u + 1 + |QuoteTail(api, f)|
    ensures BlockquoteEnd(text, u + 1) == lineEnd
    ensures lineEnd < |text| && text[lineEnd] == '\n' && text[lineEnd + 1..] == rest
  {
    var fragment := ExtractTextFragment(api, f.url);
    if fragment.Some? && fragment.value != "" {
      QuoteGroups(fragment.value, rest);
      TailQuote(text, u, fragment.value, rest);
    } else {
      TailNone(text, u, rest);
    }
  }

  /** `](` at the end of the title group and a URL group closing at `u`: the title group stops there. */
  lemma TitleCloses(text: string, i: nat, c: nat, p: nat, t: nat, u: nat)
    requires i + 2 <= c && c + 3 <= p <= t && t + 2 <= u < |text|
    requires StartsAt(text, "[^", i) && StartsAt(text, "]:", c) && text[p - 1] == '['
    requires NoLineTerminator(text[i + 2..c]) && NoLineTerminator(text[p..t])
    requires StartsAt(text, "](", t) && LazyFootnoteUrl(text, t + 2) == Some(u)
    ensures LazyFootnoteTitle(text, i, c, p, t) == Some(FootnoteMatch(i, c, p, t, u, BlockquoteEnd(text, u + 1)))
  {
  }

  /** The title and URL groups of a line laid out group by group: the title group opened at `c + 4` closes at `t`. */
  lemma TitleFromOpen(text: string, at: nat, c: nat, t: nat, u: nat, lineEnd: nat)
    requires at + 2 <= c && c + 4 <= t && t + 2 <= u < lineEnd <= |text|
    requires StartsAt(text, "[^", at) && NoLineTerminator(text[at + 2..c])
    requires StartsAt(text, "]:", c) && text[c + 3] == '['
    requires ']' !in text[c + 4..t] && NoLineTerminator(text[c + 4..t]) && StartsAt(text, "](", t)
    requires ')' !in text[t + 2..u] && NoLineTerminator(text[t + 2..u]) && text[u] == ')'
    requires BlockquoteEnd(text, u + 1) == lineEnd
    ensures LazyFootnoteTitle(text, at, c, c + 4, c + 4) == Some(FootnoteMatch(at, c, c + 4, t, u, lineEnd))
  {
    UrlRun(text, t + 2, u);
    TitleCloses(text, at, c, c + 4, t, u);
    assert text[c + 4..c + 4] == [];
    TitleRun(text, at, c, c + 4, c + 4, t);
  }

  /** The pattern's match at the start of a line laid out group by group. */
  lemma LineFootnoteAt(text: string, at: nat, c: nat, t: nat, u: nat, lineEnd: nat)
    requires at + 2 <= c && c + 4 <= t && t + 2 <= u < lineEnd <= |text|
    requires StartsAt(text, "[^", at) && ']' !in text[at + 2..c] && NoLineTerminator(text[at + 2..c])
    requires StartsAt(text, "]:", c) && text[c + 2] == ' ' && text[c + 3] == '['
    requires ']' !in text[c + 4..t] && NoLineTerminator(text[c + 4..t]) && StartsAt(text, "](", t)
    requires ')' !in text[t + 2..u] && NoLineTerminator(text[t + 2..u]) && text[u] == ')'
    requires BlockquoteEnd(text, u + 1) == lineEnd
    ensures FootnoteAt(text, at) == Some(FootnoteMatch(at, c, c + 4, t, u, lineEnd))
  {
    assert text[at + 2..at + 2] == [];
    IdRun(text, at, at + 2, c);
    TitleFromOpen(text, at, c, t, u, lineEnd);
    IdCloses(text, at, c);
    assert FootnoteAt(text, at) == LazyFootnoteId(text, at, at + 2);
  }

  /** A match right at `from`: it is the one `exec` finds. */
  lemma MatchAtIsNext(text: string, from: nat, m: FootnoteMatch)
    requires from <= |text| && FootnoteAt(text, from) == Some(m)
    ensures NextFootnoteMatch(text, from) == Some(m)
  {
  }

  /** A line feed cannot start a match: the scan passes over it. */
  lemma LineFeedSkip(api: UrlApi, text: string, a: nat, b: nat)
    requires a < |text| && text[a] == '\n' && b == a + 1
    ensures FootnotesFrom(api, text, a) == FootnotesFrom(api, text, b)
  {
    assert !StartsAt(text, "[^", a) by {
      assert a + 2 <= |text| ==> text[a..a + 2][0] == text[a];
    }
    FootnotesFromSkip(api, text, a);
  }

  /** A match at `at` that yields `f` and ends at a line feed: the scan reports `f` and goes on after the line feed. */
  lemma ScanLine(api: UrlApi, text: string, at: nat, m: FootnoteMatch, f: Footnote, next: nat)
    requires at <= |text| && FootnoteAt(text, at) == Some(m) && AcceptFootnote(api, text, m) == Some(f)
    requires m.end < |text| && text[m.end] == '\n' && next == m.end + 1
    ensures FootnotesFrom(api, text, at) == [f] + FootnotesFrom(api, text, next)
  {
    MatchAtIsNext(text, at, m);
    FootnotesFromStep(api, text, at, m);
    LineFeedSkip(api, text, m.end, next);
    assert OptionToSeq(AcceptFootnote(api, text, m)) == [f];
  }

  /** The groups of a match hold the label, title and URL of a rereadable footnote: the match yields it. */
  lemma AcceptLine(api: UrlApi, text: string, m: FootnoteMatch, f: Footnote)
    requires IsFootnoteMatch(text, m) && Rereadable(api, f)
    requires text[m.start + 2..m.idEnd] == Label(f.id)
    requires text[m.titleStart..m.titleEnd] == f.title && text[m.titleEnd + 2..m.urlEnd] == f.url
    ensures AcceptFootnote(api, text, m) == Some(f)
  {
  }

  /** A rendered line found group by group in the text: the scan reports its footnote and goes on at `next`. */
  lemma LineScan(api: UrlApi, text: string, at: nat, f: Footnote, c: nat, t: nat, u: nat, lineEnd: nat, next: nat)
    requires Rereadable(api, f)
    requires c == at + 2 + |Label(f.id)| && t == c + 4 + |f.title| && u == t + 2 + |f.url| && u < lineEnd < |text|
    requires StartsAt(text, "[^", at) && text[at + 2..c] == Label(f.id)
    requires StartsAt(text, "]:", c) && text[c + 2] == ' ' && text[c + 3] == '['
    requires text[c + 4..t] == f.title && StartsAt(text, "](", t) && text[t + 2..u] == f.url && text[u] == ')'
    requires BlockquoteEnd(text, u + 1) == lineEnd && text[lineEnd] == '\n' && next == lineEnd + 1
    ensures FootnotesFrom(api, text, at) == [f] + FootnotesFrom(api, text, next)
  {
    LineFootnoteAt(text, at, c, t, u, lineEnd);
    var m := FootnoteMatch(at, c, c + 4, t, u, lineEnd);
    AcceptLine(api, text, m, f);
    ScanLine(api, text, at, m, f, next);
  }

  /** The length of a rendered line, group by group. */
  lemma LineLength(api: UrlApi, f: Footnote)
    requires |f.id| >= 3 && f.id == "[^" + Label(f.id) + "]"
    ensures |FootnoteLine(api, f)| == 2 + |Label(f.id)| + 4 + |f.title| + 2 + |f.url| + 1 + |QuoteTail(api, f)|
  {
  }

  /** Where the groups of a rendered line followed by a line feed sit in the text. */
  lemma LineFacts(api: UrlApi, text: string, at: nat, f: Footnote, rest: string)
      returns (c: nat, t: nat, u: nat, lineEnd: nat)
    requires Rereadable(api, f)
    requires at <= |text| && text[at..] == FootnoteLine(api, f) + "\n" + rest
    requires |rest| >= 2 && (rest[0] == '[' || (rest[0] == '<' && rest[1] == '!'))
    ensures c == at + 2 + |Label(f.id)| && t == c + 4 + |f.title| && u == t + 2 + |f.url| && u < lineEnd < |text|
    ensures lineEnd == at + |FootnoteLine(api, f)| && text[lineEnd + 1..] == rest
    ensures StartsAt(text, "[^", at) && text[at + 2..c] == Label(f.id)
    ensures StartsAt(text, "]:", c) && text[c + 2] == ' ' && text[c + 3] == '['
    ensures text[c + 4..t] == f.title && StartsAt(text, "](", t) && text[t + 2..u] == f.url && text[u] == ')'
    ensures BlockquoteEnd(text, u + 1) == lineEnd && text[lineEnd] == '\n'
  {
    LineGroups(api, f, rest);
    LineLength(api, f);
    c := at + 2 + |Label(f.id)|;
    t := c + 4 + |f.title|;
    u := t + 2 + |f.url|;
    lineEnd := u + 1 + |QuoteTail(api, f)|;
    LinePieces(text, at, Label(f.id), f.title, f.url, QuoteTail(api, f) + ("\n" + rest), c, t, u);
    IdSeparator(text, c);
    TailEnd(api, text, u, f, rest, lineEnd);
  }

  /**
   * One rendered line, a line feed, and then the start of the next line or
   * of the end marker: the scan from the start of the line reports the
   * line's footnote and goes on after the line feed.
   */
  lemma LineMatch(api: UrlApi, text: string, at: nat, f: Footnote, rest: string) returns (next: nat)
    requires Rereadable(api, f)
    requires at <= |text| && text[at..] == FootnoteLine(api, f) + "\n" + rest
    requires |rest| >= 2 && (rest[0] == '[' || (rest[0] == '<' && rest[1] == '!'))
    ensures next == at + |FootnoteLine(api, f)| + 1 <= |text| && text[next..] == rest
    ensures FootnotesFrom(api, text, at) == [f] + FootnotesFrom(api, text, next)
  {
    var c, t, u, lineEnd := LineFacts(api, text, at, f, rest);
    next := lineEnd + 1;
    LineScan(api, text, at, f, c, t, u, lineEnd, next);
  }

  // ---------------------------------------------------------------------------
  // A rendered block, read back
  // ---------------------------------------------------------------------------

  lemma NoBracketIn(text: string, a: nat, s: string)
    requires a + |s| <= |text| && text[a..a + |s|] == s && '[' !in s
    ensures forall k :: a <= k < a + |s| ==> text[k] != '['
  {
    forall k | a <= k < a + |s|
      ensures text[k] != '['
    {
      assert text[k] == text[a..a + |s|][k - a];
    }
  }

  /** A stretch of the text equal to a string without `[` is passed over. */
  lemma FootnotesFromSkipString(api: UrlApi, text: string, a: nat, s: string, b: nat)
    requires a + |s| <= |text| && text[a..a + |s|] == s && '[' !in s && b == a + |s|
    ensures FootnotesFrom(api, text, a) == FootnotesFrom(api, text, b)
  {
    NoBracketIn(text, a, s);
    FootnotesFromSkipTo(api, text, a, b);
  }

  /** Nothing is reported from an end marker that closes the text. */
  lemma ScanEndMarker(api: UrlApi, text: string, n: nat)
    requires n <= |text| && text[n..] == EndMarker
    ensures FootnotesFrom(api, text, n) == []
  {
    assert text[n..n + |EndMarker|] == EndMarker;
    FootnotesFromSkipString(api, text, n, EndMarker, |text|);
    FootnotesFromEnd(api, text);
  }

  lemma FootnoteLinesTail(api: UrlApi, fs: seq<Footnote>)
    requires |fs| > 0
    ensures FootnoteLines(api, fs)[1..] == FootnoteLines(api, fs[1..])
  {
  }

  /** The joined lines of two or more footnotes: the first line, a line feed, the joined rest. */
  lemma JoinLinesSplit(api: UrlApi, fs: seq<Footnote>, tail: string)
    requires |fs| > 1
    ensures Join(FootnoteLines(api, fs), "\n") + "\n" + tail
      == FootnoteLine(api, fs[0]) + "\n" + (Join(FootnoteLines(api, fs[1..]), "\n") + "\n" + tail)
  {
    FootnoteLinesTail(api, fs);
  }

  /**
   * The lines of rendered footnotes, joined by line feeds and followed by a
   * line feed and the end marker, are read back as those footnotes.
   */
  lemma {:induction false} LinesRoundTrip(api: UrlApi, text: string, at: nat, fs: seq<Footnote>)
    requires |fs| > 0 && forall f <- fs :: Rereadable(api, f)
    requires at <= |text| && text[at..] == Join(FootnoteLines(api, fs), "\n") + "\n" + EndMarker
    ensures FootnotesFrom(api, text, at) == fs
    decreases |fs|, 1
  {
    if |fs| == 1 {
      assert fs[0] in fs && fs == [fs[0]];
      LastLineRoundTrip(api, text, at, fs[0]);
    } else {
      LinesRoundTripStep(api, text, at, fs);
    }
  }

  lemma {:induction false} LinesRoundTripStep(api: UrlApi, text: string, at: nat, fs: seq<Footnote>)
    requires |fs| > 1 && forall f <- fs :: Rereadable(api, f)
    requires at <= |text| && text[at..] == Join(FootnoteLines(api, fs), "\n") + "\n" + EndMarker
    ensures FootnotesFrom(api, text, at) == fs
    decreases |fs|, 0
  {
    var next := FirstLine(api, text, at, fs);
    LinesRoundTrip(api, text, next, fs[1..]);
    assert fs == [fs[0]] + fs[1..];
  }

  lemma RereadableTail(api: UrlApi, fs: seq<Footnote>)
    requires |fs| > 0 && forall f <- fs :: Rereadable(api, f)
    ensures forall f <- fs[1..] :: Rereadable(api, f)
  {
    forall f <- fs[1..]
      ensures Rereadable(api, f)
    {
      assert f in fs;
    }
  }

  /** With two or more footnotes, the first line is read and the scan goes on at the second. */
  lemma FirstLine(api: UrlApi, text: string, at: nat, fs: seq<Footnote>) returns (next: nat)
    requires |fs| > 1 && forall f <- fs :: Rereadable(api, f)
    requires at <= |text| && text[at..] == Join(FootnoteLines(api, fs), "\n") + "\n" + EndMarker
    ensures next <= |text| && text[next..] == Join(FootnoteLines(api, fs[1..]), "\n") + "\n" + EndMarker
    ensures forall f <- fs[1..] :: Rereadable(api, f)
    ensures FootnotesFrom(api, text, at) == [fs[0]] + FootnotesFrom(api, text, next)
  {
    assert fs[0] in fs && fs[1] in fs;
    RereadableTail(api, fs);
    var rest := Join(FootnoteLines(api, fs[1..]), "\n") + "\n" + EndMarker;
    JoinLinesSplit(api, fs, EndMarker);
    RestStartsWithBracket(api, fs[1..], EndMarker);
    next := LineMatch(api, text, at, fs[0], rest);
  }

  lemma LastLineRoundTrip(api: UrlApi, text: string, at: nat, f: Footnote)
    requires Rereadable(api, f)
    requires at <= |text| && text[at..] == Join(FootnoteLines(api, [f]), "\n") + "\n" + EndMarker
    ensures FootnotesFrom(api, text, at) == [f]
  {
    assert FootnoteLines(api, [f]) == [FootnoteLine(api, f)];
    var next := LineMatch(api, text, at, f, EndMarker);
    ScanEndMarker(api, text, next);
  }

  /** Joined rendered lines start with the first footnote's `[`. */
  lemma RestStartsWithBracket(api: UrlApi, fs: seq<Footnote>, tail: string)
    requires |fs| > 0 && Rereadable(api, fs[0])
    ensures var r := Join(FootnoteLines(api, fs), "\n") + "\n" + tail; |r| >= 2 && r[0] == '['
  {
    var lines := FootnoteLines(api, fs);
    var line := FootnoteLine(api, fs[0]);
    assert line[0] == '[' && |line| >= 2;
    if |fs| > 1 {
      assert Join(lines, "\n") == line + "\n" + Join(lines[1..], "\n");
    }
  }

  /**
   * `createFootnotesSection` and `findExistingFootnotes` are inverse: the
   * block rendered from rereadable footnotes is read back as exactly those
   * footnotes, in order.
   */
  lemma CreateFootnotesSectionRoundTrip(api: UrlApi, fs: seq<Footnote>)
    requires forall f <- fs :: Rereadable(api, f)
    ensures ExistingFootnotes(api, CreateFootnotesSection(api, fs)) == fs
  {
    var text := CreateFootnotesSection(api, fs);
    var head := BeginMarker + "\n";
    SectionLayout(api, fs, text, head);
    FootnotesFromSkipString(api, text, 0, head, |head|);
    if |fs| == 0 {
      EmptyBlockScan(api, text, |head|);
    } else {
      LinesRoundTrip(api, text, |head|, fs);
    }
  }

  /** The rendered block: the begin marker's line, then the joined lines and the end marker's line. */
  lemma SectionLayout(api: UrlApi, fs: seq<Footnote>, text: string, head: string)
    requires text == CreateFootnotesSection(api, fs) && head == BeginMarker + "\n"
    ensures |head| <= |text| && text[..|head|] == head
    ensures text[|head|..] == Join(FootnoteLines(api, fs), "\n") + "\n" + EndMarker
    ensures |fs| == 0 ==> text[|head|..] == "\n" + EndMarker
  {
    var body := Join(FootnoteLines(api, fs), "\n") + "\n" + EndMarker;
    AppendAssoc(BeginMarker, "\n", Join(FootnoteLines(api, fs), "\n"));
    AppendAssoc(head, Join(FootnoteLines(api, fs), "\n"), "\n");
    AppendAssoc(head + Join(FootnoteLines(api, fs), "\n"), "\n", EndMarker);
    AppendAssoc(head, Join(FootnoteLines(api, fs), "\n") + "\n", EndMarker);
    assert text == head + body;
    if |fs| == 0 {
      assert FootnoteLines(api, fs) == [];
    }
  }

  /** A block without lines: its line feed and end marker report nothing. */
  lemma EmptyBlockScan(api: UrlApi, text: string, n: nat)
    requires n <= |text| && text[n..] == "\n" + EndMarker
    ensures FootnotesFrom(api, text, n) == []
  {
    assert text[n..n + 1] == "\n";
    FootnotesFromSkipString(api, text, n, "\n", n + 1);
    assert text[n + 1..] == text[n..][1..];
    ScanEndMarker(api, text, n + 1);
  }

}
