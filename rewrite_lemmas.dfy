/**
 * What the later loops of `convertToFootnotes` compute: the first citation
 * of every URL, the new footnotes and replacements, the order the sort puts
 * the replacements in, the text after splicing them in, and the merged list
 * of footnotes.
 */
module RewriteLemmas {
  import opened Wrappers
  import opened Strings
  import opened Parser
  import opened Converter

  // ---------------------------------------------------------------------------
  // First citations and new footnotes
  // ---------------------------------------------------------------------------

  /** The URLs cited in `cs`. */
  ghost function UrlsOf(cs: seq<Citation>): set<string> {
    set c | c in cs :: c.url
  }

  /** The citations of `cs` whose URL no earlier citation has, in text order: an independent reading of "first of every URL". */
  ghost function FirstOccurrences(cs: seq<Citation>): (fo: seq<Citation>)
    ensures forall c <- fo :: c in cs
  {
    if |cs| == 0 then []
    else
      var init := cs[..|cs| - 1];
      var c := cs[|cs| - 1];
      FirstOccurrences(init) + (if c.url in UrlsOf(init) then [] else [c])
  }

  lemma UrlsOfSnoc(cs: seq<Citation>)
    requires |cs| > 0
    ensures UrlsOf(cs) == UrlsOf(cs[..|cs| - 1]) + {cs[|cs| - 1].url}
  {
    assert cs == cs[..|cs| - 1] + [cs[|cs| - 1]];
  }

  /**
   * The first occurrences list every cited URL exactly once, each time with
   * a citation of `cs` that carries no URL cited before it.
   */
  lemma {:induction false} FirstOccurrencesSpec(cs: seq<Citation>)
    ensures var fo := FirstOccurrences(cs);
      && UrlsOf(fo) == UrlsOf(cs)
      && (forall k, l :: 0 <= k < l < |fo| ==> fo[k].url != fo[l].url)
    decreases |cs|
  {
    if |cs| > 0 {
      var init := cs[..|cs| - 1];
      var c := cs[|cs| - 1];
      FirstOccurrencesSpec(init);
      UrlsOfSnoc(cs);
      var fo := FirstOccurrences(cs);
      var before := FirstOccurrences(init);
      if c.url !in UrlsOf(init) {
        assert fo == before + [c];
        UrlsOfSnoc(fo);
        assert fo[..|fo| - 1] == before;
        forall k | 0 <= k < |before|
          ensures before[k].url != c.url
        {
          assert before[k] in before;
          assert before[k].url in UrlsOf(before);
        }
      }
    }
  }

  /**
   * `urlToFirstCitation` holds exactly the cited URLs, and for each the
   * citation the first occurrences list for it.
   */
  lemma {:induction false} FirstCitationsSpec(cs: seq<Citation>)
    ensures forall url :: url in FirstCitations(cs) <==> url in UrlsOf(cs)
    ensures forall c <- FirstOccurrences(cs) :: c.url in FirstCitations(cs) && FirstCitations(cs)[c.url] == c
    decreases |cs|
  {
    if |cs| > 0 {
      var init := cs[..|cs| - 1];
      FirstCitationsSpec(init);
      UrlsOfSnoc(cs);
      FirstOccurrencesSpec(init);
      forall c <- FirstOccurrences(init)
        ensures c.url in UrlsOf(init)
      {
        assert c.url in UrlsOf(FirstOccurrences(init));
      }
    }
  }

  /** `urlToFootnote[url]`, with the empty string for a missing key. */
  function IdOf(urlIds: map<string, string>, url: string): string {
    if url in urlIds then urlIds[url] else ""
  }

  /** The replacement the collection loop writes for citation `c`. */
  function ReplacementOf(urlIds: map<string, string>, c: Citation): Replacement {
    Replacement(c.start, c.end, IdOf(urlIds, c.url))
  }

  /** The new footnote the collection loop writes for the first citation `c` of its URL. */
  function NewFootnote(urlIds: map<string, string>, c: Citation): Footnote {
    Footnote(IdOf(urlIds, c.url), c.title, c.url)
  }

  /**
   * The collection loop over citations whose URLs all have an identifier,
   * with the first-citation table of those citations: one replacement per
   * citation, in order, with its span and its URL's identifier; one new
   * footnote per cited URL, in order of first occurrence, carrying the
   * URL's identifier and the title of its first citation.
   */
  lemma CollectSpec(urlIds: map<string, string>, cs: seq<Citation>)
    requires forall c <- cs :: !Unassigned(urlIds, c.url)
    ensures var r := Collect(urlIds, FirstCitations(cs), cs);
      && |r.reps| == |cs|
      && (forall k :: 0 <= k < |cs| ==> r.reps[k] == ReplacementOf(urlIds, cs[k]))
      && |r.news| == |FirstOccurrences(cs)|
      && (forall k :: 0 <= k < |r.news| ==> r.news[k] == NewFootnote(urlIds, FirstOccurrences(cs)[k]))
  {
    FirstCitationsSpec(cs);
    CollectPrefix(urlIds, FirstCitations(cs), cs, |cs|);
    assert cs[..|cs|] == cs;
  }

  /** What the collection loop holds after the first `i` citations. */
  ghost predicate CollectedPrefix(urlIds: map<string, string>, r: Collected, pre: seq<Citation>) {
    && r.processed == UrlsOf(pre)
    && |r.reps| == |pre|
    && (forall k :: 0 <= k < |pre| ==> r.reps[k] == ReplacementOf(urlIds, pre[k]))
    && |r.news| == |FirstOccurrences(pre)|
    && (forall k :: 0 <= k < |r.news| ==> r.news[k] == NewFootnote(urlIds, FirstOccurrences(pre)[k]))
  }

  lemma {:induction false} CollectPrefix(urlIds: map<string, string>, firsts: map<string, Citation>, cs: seq<Citation>, i: nat)
    requires i <= |cs| && forall c <- cs :: !Unassigned(urlIds, c.url)
    requires forall url :: url in firsts <==> url in UrlsOf(cs)
    requires forall c <- FirstOccurrences(cs) :: c.url in firsts && firsts[c.url] == c
    ensures CollectedPrefix(urlIds, Collect(urlIds, firsts, cs[..i]), cs[..i])
    decreases i
  {
    if i > 0 {
      var init := cs[..i - 1];
      var c := cs[i - 1];
      assert cs[..i] == init + [c];
      CollectPrefix(urlIds, firsts, cs, i - 1);
      FirstEntry(urlIds, firsts, cs, i - 1);
      CollectSnoc(urlIds, firsts, cs[..i], init, c);
      CollectStepPrefix(urlIds, firsts, Collect(urlIds, firsts, init), init, c, cs[..i]);
    }
  }

  /** The collection loop over `init + [c]` is one more pass after the loop over `init`. */
  lemma CollectSnoc(urlIds: map<string, string>, firsts: map<string, Citation>, pre: seq<Citation>, init: seq<Citation>, c: Citation)
    requires pre == init + [c]
    ensures Collect(urlIds, firsts, pre) == CollectStep(urlIds, firsts, Collect(urlIds, firsts, init), c)
  {
    assert pre[..|pre| - 1] == init && pre[|pre| - 1] == c;
  }

  /** The table entry the collection loop reads for the citation at `i`. */
  lemma FirstEntry(urlIds: map<string, string>, firsts: map<string, Citation>, cs: seq<Citation>, i: nat)
    requires i < |cs| && forall c <- cs :: !Unassigned(urlIds, c.url)
    requires forall url :: url in firsts <==> url in UrlsOf(cs)
    requires forall c <- FirstOccurrences(cs) :: c.url in firsts && firsts[c.url] == c
    ensures !Unassigned(urlIds, cs[i].url) && cs[i].url in firsts
    ensures cs[i].url !in UrlsOf(cs[..i]) ==> firsts[cs[i].url] == cs[i]
  {
    assert cs[i] in cs;
    assert cs[i].url in UrlsOf(cs);
    if cs[i].url !in UrlsOf(cs[..i]) {
      FirstIsFirstOccurrence(cs, i);
    }
  }

  /** One pass of the collection loop extends what it holds by the next citation. */
  lemma CollectStepPrefix(urlIds: map<string, string>, firsts: map<string, Citation>, before: Collected, init: seq<Citation>, c: Citation, pre: seq<Citation>)
    requires pre == init + [c] && CollectedPrefix(urlIds, before, init)
    requires !Unassigned(urlIds, c.url) && c.url in firsts
    requires c.url !in UrlsOf(init) ==> firsts[c.url] == c
    ensures CollectedPrefix(urlIds, CollectStep(urlIds, firsts, before, c), pre)
  {
    assert pre[..|pre| - 1] == init && pre[|pre| - 1] == c;
    UrlsOfSnoc(pre);
    var r := CollectStep(urlIds, firsts, before, c);
    forall k | 0 <= k < |pre|
      ensures r.reps[k] == ReplacementOf(urlIds, pre[k])
    {
      if k < |init| {
        assert pre[k] == init[k];
      }
    }
  }

  /** A citation whose URL no earlier citation has is listed among the first occurrences. */
  lemma FirstIsFirstOccurrence(cs: seq<Citation>, i: nat)
    requires i < |cs| && cs[i].url !in UrlsOf(cs[..i])
    ensures cs[i] in FirstOccurrences(cs)
  {
    PrefixOccurrences(cs, i + 1);
    var pre := cs[..i + 1];
    assert pre[..i] == cs[..i] && pre[i] == cs[i];
    assert FirstOccurrences(pre) == FirstOccurrences(cs[..i]) + [cs[i]];
  }

  /** The first occurrences of a prefix are a prefix of the first occurrences. */
  lemma {:induction false} PrefixOccurrences(cs: seq<Citation>, i: nat)
    requires i <= |cs|
    ensures forall c <- FirstOccurrences(cs[..i]) :: c in FirstOccurrences(cs)
    decreases |cs| - i
  {
    if i < |cs| {
      PrefixOccurrences(cs, i + 1);
      var pre := cs[..i + 1];
      assert pre[..i] == cs[..i];
      assert FirstOccurrences(cs[..i]) <= FirstOccurrences(pre);
    } else {
      assert cs[..i] == cs;
    }
  }

  // ---------------------------------------------------------------------------
  // Sorting the replacements
  // ---------------------------------------------------------------------------

  /** Ordered by descending start. */
  predicate Descending(rs: seq<Replacement>) {
    forall k, l :: 0 <= k < l < |rs| ==> rs[k].start >= rs[l].start
  }

  lemma {:induction false} InsertDescendingSorted(s: seq<Replacement>, x: Replacement)
    requires Descending(s)
    ensures Descending(InsertDescending(s, x))
    ensures |s| > 0 ==> InsertDescending(s, x)[0] == (if s[0].start >= x.start then s[0] else x)
    decreases |s|
  {
    if |s| > 0 && s[0].start >= x.start {
      InsertDescendingSorted(s[1..], x);
      var r := InsertDescending(s, x);
      forall k, l | 0 <= k < l < |r|
        ensures r[k].start >= r[l].start
      {
        if k > 0 {
          assert r[k] == InsertDescending(s[1..], x)[k - 1];
        } else if |s| > 1 {
          assert r[l] in multiset(s[1..]) + multiset{x};
          assert r[l] in s[1..] || r[l] == x;
        }
      }
    }
  }

  /** `replacements.sort(...)`: ordered by descending start, and a permutation of its input. */
  lemma SortDescendingSpec(s: seq<Replacement>)
    ensures Descending(SortDescending(s)) && multiset(SortDescending(s)) == multiset(s)
  {
    SortDescendingSorted(s);
    SortDescendingPermutes(s);
  }

  /** Each insertion keeps the prefix sorted. */
  lemma {:induction false} SortDescendingSorted(s: seq<Replacement>)
    ensures Descending(SortDescending(s))
    decreases |s|
  {
    if |s| > 0 {
      SortDescendingSorted(s[..|s| - 1]);
      InsertDescendingSorted(SortDescending(s[..|s| - 1]), s[|s| - 1]);
    }
  }

  /** Each insertion adds exactly the next element. */
  lemma {:induction false} SortDescendingPermutes(s: seq<Replacement>)
    ensures multiset(SortDescending(s)) == multiset(s)
    decreases |s|
  {
    if |s| > 0 {
      SortDescendingPermutes(s[..|s| - 1]);
      MultisetSnoc(s);
    }
  }

  /** The elements of a non-empty sequence: those of all but the last, and the last. */
  lemma MultisetSnoc<T>(s: seq<T>)
    requires |s| > 0
    ensures multiset(s) == multiset(s[..|s| - 1]) + multiset{s[|s| - 1]}
  {
    assert s == s[..|s| - 1] + [s[|s| - 1]];
  }

  function Reverse<T>(s: seq<T>): (r: seq<T>)
    ensures |r| == |s|
  {
    if |s| == 0 then [] else Reverse(s[1..]) + [s[0]]
  }

  /** Strictly ascending starts, as the spans of the citations are. */
  predicate Ascending(rs: seq<Replacement>) {
    forall k, l :: 0 <= k < l < |rs| ==> rs[k].start < rs[l].start
  }

  /** Sorting replacements with strictly ascending starts reverses them. */
  lemma {:induction false} SortAscendingReversed(s: seq<Replacement>)
    requires Ascending(s)
    ensures SortDescending(s) == Reverse(s)
    decreases |s|
  {
    if |s| > 0 {
      var init := s[..|s| - 1];
      var x := s[|s| - 1];
      assert Ascending(init) by {
        forall k, l | 0 <= k < l < |init|
          ensures init[k].start < init[l].start
        {
          assert init[k] == s[k] && init[l] == s[l];
        }
      }
      SortAscendingReversed(init);
      if |init| > 0 {
        ReverseSnoc(init);
      }
      InsertFirst(Reverse(init), x);
      ReverseSnoc(s);
    }
  }

  /** An entry starting after the first (greatest) start goes to the front. */
  lemma InsertFirst(s: seq<Replacement>, x: Replacement)
    requires |s| == 0 || s[0].start < x.start
    ensures InsertDescending(s, x) == [x] + s
  {
  }

  /** The last element comes first. */
  lemma {:induction false} ReverseSnoc<T>(s: seq<T>)
    requires |s| > 0
    ensures Reverse(s) == [s[|s| - 1]] + Reverse(s[..|s| - 1])
    decreases |s|
  {
    if |s| > 1 {
      var init := s[..|s| - 1];
      ReverseSnoc(s[1..]);
      assert s[1..][..|s| - 2] == init[1..] && s[1..][|s| - 2] == s[|s| - 1];
      assert init[0] == s[0];
    }
  }

  // ---------------------------------------------------------------------------
  // Splicing the replacements into the text
  // ---------------------------------------------------------------------------

  /** Spans inside `[from, size]`, in order, not overlapping. */
  predicate Spans(rs: seq<Replacement>, from: nat, size: nat) {
    && (forall k :: 0 <= k < |rs| ==> from <= rs[k].start <= rs[k].end <= size)
    && (forall k, l :: 0 <= k < l < |rs| ==> rs[k].end <= rs[l].start)
  }

  /** The text from `from` on, left to right, with every span replaced by its identifier. */
  function Rewritten(text: string, rs: seq<Replacement>, from: nat): string
    requires from <= |text| && Spans(rs, from, |text|)
    decreases |rs|
  {
    if |rs| == 0 then text[from..]
    else text[from..rs[0].start] + rs[0].id + Rewritten(text, rs[1..], rs[0].end)
  }

  /**
   * Splicing in-order, disjoint spans from the last to the first replaces
   * each span of the original text by its identifier: the earlier splices
   * never move the offsets the later ones use.
   */
  lemma {:induction false} ApplyReversedIsRewritten(text: string, rs: seq<Replacement>, from: nat)
    requires from <= |text| && Spans(rs, from, |text|)
    ensures ApplyReplacements(text, Reverse(rs)) == text[..from] + Rewritten(text, rs, from)
    decreases |rs|
  {
    if |rs| == 0 {
      assert text == text[..from] + text[from..];
    } else {
      var r := rs[0];
      var rest := rs[1..];
      ApplyReversedIsRewritten(text, rest, r.end);
      var tail := Rewritten(text, rest, r.end);
      assert Reverse(rs) == Reverse(rest) + [r];
      assert Reverse(rs)[..|rs| - 1] == Reverse(rest);
      assert ApplyReplacements(text, Reverse(rs)) == Splice(ApplyReplacements(text, Reverse(rest)), r);
      SpliceOver(ApplyReplacements(text, Reverse(rest)), text[..r.end], tail, r);
      PrefixSplit(text, from, r.start, r.end, r.id, tail);
    }
  }

  lemma PrefixSplit(text: string, from: nat, a: nat, b: nat, id: string, tail: string)
    requires from <= a <= b <= |text|
    ensures text[..b][..a] + id + tail == text[..from] + (text[from..a] + id + tail)
  {
    assert text[..b][..a] == text[..from] + text[from..a];
  }

  /** Splicing a span of the unchanged prefix. */
  lemma SpliceOver(x: string, prefix: string, tail: string, r: Replacement)
    requires x == prefix + tail && r.start <= r.end == |prefix|
    ensures Splice(x, r) == prefix[..r.start] + r.id + tail
  {
    assert x[r.end..] == tail;
  }

  /**
   * Lines 131-134 on the citations' spans: sorting by descending start and
   * splicing one after the other rewrites the text left to right.
   */
  lemma SortedApplyIsRewritten(text: string, rs: seq<Replacement>)
    requires Spans(rs, 0, |text|) && forall k :: 0 <= k < |rs| ==> rs[k].start < rs[k].end
    ensures ApplyReplacements(text, SortDescending(rs)) == Rewritten(text, rs, 0)
  {
    assert Ascending(rs) by {
      forall k, l | 0 <= k < l < |rs|
        ensures rs[k].start < rs[l].start
      {
        assert rs[k].start < rs[k].end <= rs[l].start;
      }
    }
    SortAscendingReversed(rs);
    ApplyReversedIsRewritten(text, rs, 0);
  }

  // ---------------------------------------------------------------------------
  // Merging the footnotes
  // ---------------------------------------------------------------------------

  /**
   * `allFootnotes`: the existing footnotes first, unchanged; every new
   * footnote's URL is listed; what follows them are new footnotes whose
   * URL the existing ones do not list, each URL once.
   */
  lemma {:induction false} MergedSpec(existing: seq<Footnote>, news: seq<Footnote>)
    ensures var all := Merged(existing, news);
      && |existing| <= |all| && all[..|existing|] == existing
      && (forall f <- news :: HasUrl(all, f.url))
      && (forall k :: |existing| <= k < |all| ==> all[k] in news && !HasUrl(existing, all[k].url))
      && (forall k, l :: |existing| <= k < l < |all| ==> all[k].url != all[l].url)
    decreases |news|
  {
    if |news| > 0 {
      var init := news[..|news| - 1];
      var f := news[|news| - 1];
      MergedSpec(existing, init);
      var before := Merged(existing, init);
      var all := Merged(existing, news);
      assert forall g <- init :: g in news;
      forall g <- news
        ensures HasUrl(all, g.url)
      {
        if g == f && !HasUrl(before, f.url) {
          assert all[|before|] == f;
        } else if g != f {
          assert g in init;
          var k :| 0 <= k < |before| && before[k].url == g.url;
          assert all[k] == before[k];
        }
      }
      if !HasUrl(before, f.url) {
        forall k | 0 <= k < |existing|
          ensures existing[k].url != f.url
        {
          assert before[k] == existing[k];
        }
        forall k | |existing| <= k < |before|
          ensures before[k].url != f.url
        {
        }
      }
    }
  }

  /** The new footnotes whose URL the existing ones do not list, in order. */
  ghost function Unlisted(existing: seq<Footnote>, news: seq<Footnote>): (r: seq<Footnote>)
    ensures forall f <- r :: f in news
  {
    if |news| == 0 then []
    else
      var init := news[..|news| - 1];
      var f := news[|news| - 1];
      Unlisted(existing, init) + (if HasUrl(existing, f.url) then [] else [f])
  }

  /** With distinct URLs among the new footnotes, merging appends exactly the unlisted ones, in order. */
  lemma {:induction false} MergedAppendsUnlisted(existing: seq<Footnote>, news: seq<Footnote>)
    requires forall k, l :: 0 <= k < l < |news| ==> news[k].url != news[l].url
    ensures Merged(existing, news) == existing + Unlisted(existing, news)
    decreases |news|
  {
    if |news| > 0 {
      var init := news[..|news| - 1];
      var f := news[|news| - 1];
      MergedAppendsUnlisted(existing, init);
      var before := existing + Unlisted(existing, init);
      forall k | |existing| <= k < |before|
        ensures before[k].url != f.url
      {
        var g := before[k];
        assert g in Unlisted(existing, init) && g in init;
        var j :| 0 <= j < |init| && init[j] == g;
        assert news[j] == g;
      }
      if HasUrl(before, f.url) {
        var k :| 0 <= k < |before| && before[k].url == f.url;
        assert existing[k] == before[k];
        assert HasUrl(existing, f.url);
      } else {
        forall k | 0 <= k < |existing|
          ensures existing[k].url != f.url
        {
          assert before[k] == existing[k];
        }
      }
    }
  }
}
