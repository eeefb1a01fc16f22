/**
 * What the identifier tables of src/converter.ts hold: the counter an
 * identifier written by `generateFootnoteId` carries, the tables seeded from
 * the existing footnotes, and the identifiers the assignment loop adds.
 */
module IdLemmas {
  import opened Wrappers
  import opened Strings
  import opened Utils
  import opened Parser
  import opened Converter

  // ---------------------------------------------------------------------------
  // The counter suffix of a generated identifier
  // ---------------------------------------------------------------------------

  /** A run of digits up to a non-digit at `e`: the greedy `\d+` stops at `e`. */
  lemma {:induction false} DigitRunTo(s: string, p: nat, e: nat)
    requires p <= e < |s| && AllDigits(s[p..e]) && !IsDigit(s[e])
    ensures DigitRunEnd(s, p) == e
    decreases e - p
  {
    if p < e {
      assert IsDigit(s[p..e][0]) && s[p..e][0] == s[p];
      assert s[p + 1..e] == s[p..e][1..];
      DigitRunTo(s, p + 1, e);
    }
  }

  /**
   * `[^` `d` `-` digits `]` with no `]` and no line terminator in `d`: the
   * lazy group passes over all of `d`, because a `-` inside `d` is followed by
   * the separator `-` before the only `]`.
   */
  lemma {:induction false} LazyCounterSkips(s: string, d: string, p: nat)
    requires |s| >= |d| + 4 && s[2..2 + |d|] == d && s[2 + |d|] == '-'
    requires forall k :: 2 <= k < |s| - 1 ==> s[k] != ']'
    requires ']' !in d && NoLineTerminator(d)
    requires 2 <= p <= 2 + |d|
    ensures LazyCounter(s, p) == LazyCounter(s, 2 + |d|)
    decreases 2 + |d| - p
  {
    if p < 2 + |d| {
      assert s[p] == d[p - 2];
      if s[p] == '-' {
        var e := DigitRunEnd(s, p + 1);
        if p + 1 < e < |s| && s[e] == ']' {
          assert e == |s| - 1;
          assert IsDigit(s[p + 1..e][2 + |d| - (p + 1)]);
        }
      }
      LazyCounterSkips(s, d, p + 1);
    }
  }

  /**
   * The identifier `generateFootnoteId` writes for a host without `]` and
   * without line terminator carries its counter: the seeding loop reads back
   * the counter it was made with.
   */
  lemma CounterSuffixOfGenerated(d: string, n: nat)
    requires ']' !in d && NoLineTerminator(d)
    ensures CounterSuffix(GenerateFootnoteId(d, n)) == Some(n)
  {
    var digits := NatToDecimal(n);
    var s := GenerateFootnoteId(d, n);
    assert s == "[^" + d + "-" + digits + "]";
    var sep := 2 + |d|;
    assert s[2..sep] == d && s[sep] == '-';
    assert s[sep + 1..|s| - 1] == digits;
    forall k | 2 <= k < |s| - 1
      ensures s[k] != ']'
    {
      if k < sep {
        assert s[k] == d[k - 2];
      } else if k > sep {
        assert s[k] == digits[k - sep - 1];
        assert IsDigit(digits[k - sep - 1]);
      }
    }
    DigitRunTo(s, sep + 1, |s| - 1);
    LazyCounterSkips(s, d, 2);
    ParseDecimalOfNatToDecimal(n);
    assert LazyCounter(s, sep) == Some(n);
    assert StartsAt(s, "[^", 0);
  }

  // ---------------------------------------------------------------------------
  // Seeding from the existing footnotes
  // ---------------------------------------------------------------------------

  /**
   * After seeding, a host's counter is the largest counter carried by an
   * existing footnote of that host, and a host has a counter only when one
   * of its footnotes carries one.
   */
  lemma {:induction false} SeededCounters(api: UrlApi, fs: seq<Footnote>)
    ensures var counters := Seeded(api, fs).counters;
      && (forall k :: 0 <= k < |fs| && Host(api, fs[k].url).Some? && CounterSuffix(fs[k].id).Some? ==>
            CounterSuffix(fs[k].id).value <= Get(counters, Host(api, fs[k].url).value))
      && (forall d :: d in counters ==>
            exists k :: 0 <= k < |fs| && Host(api, fs[k].url) == Some(d) && CounterSuffix(fs[k].id) == Some(counters[d]))
    decreases |fs|
  {
    if |fs| > 0 {
      var init := fs[..|fs| - 1];
      var f := fs[|fs| - 1];
      SeededCounters(api, init);
      var before := Seeded(api, init).counters;
      var counters := Seeded(api, fs).counters;
      forall k | 0 <= k < |fs| && Host(api, fs[k].url).Some? && CounterSuffix(fs[k].id).Some?
        ensures CounterSuffix(fs[k].id).value <= Get(counters, Host(api, fs[k].url).value)
      {
        if k < |fs| - 1 {
          assert fs[k] == init[k];
        }
      }
      forall d | d in counters
        ensures exists k :: 0 <= k < |fs| && Host(api, fs[k].url) == Some(d) && CounterSuffix(fs[k].id) == Some(counters[d])
      {
        if Host(api, f.url) == Some(d) && CounterSuffix(f.id).Some? && counters[d] == CounterSuffix(f.id).value {
          assert fs[|fs| - 1] == f;
        } else {
          assert d in before && counters[d] == before[d];
          var k :| 0 <= k < |init| && Host(api, init[k].url) == Some(d) && CounterSuffix(init[k].id) == Some(before[d]);
          assert fs[k] == init[k];
        }
      }
    }
  }

  /** The URLs seeding records: exactly those of existing footnotes whose URL yields a host. */
  lemma {:induction false} SeededUrls(api: UrlApi, fs: seq<Footnote>)
    ensures forall url :: url in Seeded(api, fs).urlIds <==>
      Host(api, url).Some? && exists k :: 0 <= k < |fs| && fs[k].url == url
    decreases |fs|
  {
    if |fs| > 0 {
      var init := fs[..|fs| - 1];
      SeededUrls(api, init);
      forall url | Host(api, url).Some? && exists k :: 0 <= k < |init| && init[k].url == url
        ensures exists k :: 0 <= k < |fs| && fs[k].url == url
      {
        var k :| 0 <= k < |init| && init[k].url == url;
        assert fs[k] == init[k];
      }
      forall k | 0 <= k < |fs| - 1
        ensures exists j :: 0 <= j < |init| && init[j].url == fs[k].url
      {
        assert init[k] == fs[k];
      }
    }
  }

  /** The identifier seeding records for a URL is that of its last footnote. */
  lemma {:induction false} SeededLastWins(api: UrlApi, fs: seq<Footnote>, k: nat)
    requires k < |fs| && Host(api, fs[k].url).Some?
    requires forall j :: k < j < |fs| ==> fs[j].url != fs[k].url
    ensures fs[k].url in Seeded(api, fs).urlIds && Seeded(api, fs).urlIds[fs[k].url] == fs[k].id
    decreases |fs|
  {
    if k < |fs| - 1 {
      var init := fs[..|fs| - 1];
      assert init[k] == fs[k];
      SeededLastWins(api, init, k);
    }
  }

  // ---------------------------------------------------------------------------
  // Assigning identifiers to the cited URLs
  // ---------------------------------------------------------------------------

  /** A URL the assignment loop gave an identifier: none before, one now. */
  predicate Fresh(seed: IdState, st: IdState, url: string) {
    Unassigned(seed.urlIds, url) && !Unassigned(st.urlIds, url)
  }

  /** A fresh URL's identifier is its host's name with a counter drawn after the seeded one. */
  ghost predicate GeneratedAfterSeed(api: UrlApi, seed: IdState, st: IdState, url: string)
    requires url in st.urlIds
  {
    && Host(api, url).Some?
    && (exists n: nat :: Get(seed.counters, Host(api, url).value) < n <= Get(st.counters, Host(api, url).value)
          && st.urlIds[url] == GenerateFootnoteId(Host(api, url).value, n))
  }

  /**
   * What the assignment loop keeps: counters never decrease, every URL that
   * had an identifier keeps it, every fresh identifier is generated from the
   * URL's host with a counter the seeded one did not reach, and no two fresh
   * URLs share an identifier.
   */
  ghost predicate Extends(api: UrlApi, seed: IdState, st: IdState) {
    && (forall h :: Get(seed.counters, h) <= Get(st.counters, h))
    && (forall url :: !Unassigned(seed.urlIds, url) ==> url in st.urlIds && st.urlIds[url] == seed.urlIds[url])
    && (forall url :: Fresh(seed, st, url) ==> GeneratedAfterSeed(api, seed, st, url))
    && (forall u, v :: Fresh(seed, st, u) && Fresh(seed, st, v) && u != v ==> st.urlIds[u] != st.urlIds[v])
  }

  /** One pass of the assignment loop keeps `Extends`, and assigns the citation's URL unless it throws. */
  lemma AssignStepExtends(api: UrlApi, seed: IdState, st: IdState, c: Citation)
    requires Extends(api, seed, st)
    ensures match AssignStep(api, st, c)
      case Ok(next) => Extends(api, seed, next) && !Unassigned(next.urlIds, c.url)
        && (forall url :: Fresh(seed, next, url) ==> Fresh(seed, st, url) || url == c.url)
      case Err(e) => e == InvalidUrl(c.url) && Host(api, c.url).None?
  {
    if Unassigned(st.urlIds, c.url) && Host(api, c.url).Some? {
      var h := Host(api, c.url).value;
      var n := Get(st.counters, h) + 1;
      var next := IdState(st.counters[h := n], st.urlIds[c.url := GenerateFootnoteId(h, n)]);
      assert AssignStep(api, st, c) == Ok(next);
      NewIdExtends(api, seed, st, c.url, h, n, next);
    }
  }

  /** Giving an unassigned URL of host `h` the next counter of `h` keeps `Extends`. */
  lemma NewIdExtends(api: UrlApi, seed: IdState, st: IdState, url: string, h: string, n: nat, next: IdState)
    requires Extends(api, seed, st) && Unassigned(st.urlIds, url) && Host(api, url) == Some(h)
    requires n == Get(st.counters, h) + 1
    requires next == IdState(st.counters[h := n], st.urlIds[url := GenerateFootnoteId(h, n)])
    ensures Extends(api, seed, next)
    ensures forall u :: Fresh(seed, next, u) ==> Fresh(seed, st, u) || u == url
  {
    forall x
      ensures Get(seed.counters, x) <= Get(next.counters, x)
    {
      assert Get(st.counters, x) <= Get(next.counters, x);
    }
    forall u | Fresh(seed, next, u)
      ensures GeneratedAfterSeed(api, seed, next, u)
    {
      if u == url {
        assert Get(seed.counters, h) < n <= Get(next.counters, h);
      } else {
        OldIdStillGenerated(api, seed, st, u, h, n, next);
      }
    }
    forall u, v | Fresh(seed, next, u) && Fresh(seed, next, v) && u != v
      ensures next.urlIds[u] != next.urlIds[v]
    {
      if u == url {
        NewIdDiffers(api, seed, st, v, h, n);
      } else if v == url {
        NewIdDiffers(api, seed, st, u, h, n);
      } else {
        assert Fresh(seed, st, u) && Fresh(seed, st, v);
      }
    }
  }

  lemma OldIdStillGenerated(api: UrlApi, seed: IdState, st: IdState, u: string, h: string, n: nat, next: IdState)
    requires Extends(api, seed, st) && Fresh(seed, st, u) && n == Get(st.counters, h) + 1
    requires next.counters == st.counters[h := n] && u in next.urlIds && next.urlIds[u] == st.urlIds[u]
    ensures GeneratedAfterSeed(api, seed, next, u)
  {
    var hu := Host(api, u).value;
    var m: nat :| Get(seed.counters, hu) < m <= Get(st.counters, hu) && st.urlIds[u] == GenerateFootnoteId(hu, m);
    assert Get(st.counters, hu) <= Get(next.counters, hu);
  }

  /** A fresh identifier already given differs from the one made with the next counter of `h`. */
  lemma NewIdDiffers(api: UrlApi, seed: IdState, st: IdState, u: string, h: string, n: nat)
    requires Extends(api, seed, st) && Fresh(seed, st, u) && n == Get(st.counters, h) + 1
    ensures st.urlIds[u] != GenerateFootnoteId(h, n)
  {
    var hu := Host(api, u).value;
    var m: nat :| Get(seed.counters, hu) < m <= Get(st.counters, hu) && st.urlIds[u] == GenerateFootnoteId(hu, m);
    if GenerateFootnoteId(hu, m) == GenerateFootnoteId(h, n) {
      GenerateFootnoteIdInjective(hu, m, h, n);
    }
  }

  /**
   * The assignment loop over `cs` from the seeded tables: it throws exactly
   * when a cited URL without identifier yields no host, the error naming
   * such a URL; otherwise every cited URL has an identifier, the tables
   * extend the seed, and only cited URLs are fresh.
   */
  lemma {:induction false} AssignedSpec(api: UrlApi, seed: IdState, cs: seq<Citation>)
    ensures match Assigned(api, seed, cs)
      case Ok(st) =>
        && Extends(api, seed, st)
        && (forall c <- cs :: !Unassigned(st.urlIds, c.url))
        && (forall url :: Fresh(seed, st, url) ==> exists c <- cs :: c.url == url)
      case Err(e) => exists c <- cs :: e == InvalidUrl(c.url) && Host(api, c.url).None?
    decreases |cs|
  {
    if |cs| == 0 {
      assert Extends(api, seed, seed);
    } else {
      var init := cs[..|cs| - 1];
      var c := cs[|cs| - 1];
      assert c in cs;
      AssignedSpec(api, seed, init);
      match Assigned(api, seed, init)
      case Err(e) =>
        var d :| d in init && e == InvalidUrl(d.url) && Host(api, d.url).None?;
        assert d in cs;
      case Ok(st) =>
        AssignStepExtends(api, seed, st, c);
        if AssignStep(api, st, c).Ok? {
          var next := AssignStep(api, st, c).value;
          forall d <- cs
            ensures !Unassigned(next.urlIds, d.url)
          {
            if d != c {
              assert d in init;
              assert !Unassigned(st.urlIds, d.url);
            }
          }
          forall url | Fresh(seed, next, url)
            ensures exists d <- cs :: d.url == url
          {
            if url != c.url {
              var d :| d in init && d.url == url;
              assert d in cs;
            }
          }
        }
    }
  }

  /** When the assignment loop succeeds, every cited URL has an identifier. */
  lemma AssignedCovers(api: UrlApi, seed: IdState, cs: seq<Citation>, st: IdState)
    requires Assigned(api, seed, cs) == Ok(st)
    ensures forall c <- cs :: !Unassigned(st.urlIds, c.url)
  {
    AssignedSpec(api, seed, cs);
  }

  /** With hosts never empty, the assignment loop throws only for a cited URL the URL parser rejects. */
  lemma AssignedNeverFails(api: UrlApi, seed: IdState, cs: seq<Citation>)
    requires HostsNonEmpty(api) && forall c <- cs :: IsValidUrl(api, c.url)
    ensures Assigned(api, seed, cs).Ok?
  {
    AssignedSpec(api, seed, cs);
  }
}
