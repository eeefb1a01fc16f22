/**
 * The numbers the assignment loop of src/converter.ts gives out. The cited
 * URLs without identifier, taken in order of first citation, draw the
 * counters of their host one after another, starting just above the seeded
 * counter (at 1 for a host without one), with no number skipped; a URL that
 * already has an identifier draws nothing.
 */
module NumberingLemmas {
  import opened Wrappers
  import opened Strings
  import opened Utils
  import opened Parser
  import opened Converter
  import opened IdLemmas
  import opened RewriteLemmas

  /** The URLs of the citations `fs` that have no identifier in `urlIds`, in order. */
  function Pending(urlIds: map<string, string>, fs: seq<Citation>): seq<string> {
    if |fs| == 0 then []
    else
      var us := Pending(urlIds, fs[..|fs| - 1]);
      var url := fs[|fs| - 1].url;
      if Unassigned(urlIds, url) then us + [url] else us
  }

  /** The URLs the assignment loop over `cs` has to number: those the seed leaves without identifier, in order of first citation. */
  ghost function NewUrls(seed: IdState, cs: seq<Citation>): seq<string> {
    Pending(seed.urlIds, FirstOccurrences(cs))
  }

  /** How many of the URLs `us` have host `h`. */
  function CountHost(api: UrlApi, us: seq<string>, h: string): nat {
    if |us| == 0 then 0
    else CountHost(api, us[..|us| - 1], h) + (if Host(api, us[|us| - 1]) == Some(h) then 1 else 0)
  }

  /** The identifier of the `k`-th URL to number: its host, with the seeded counter plus its rank among the URLs of that host. */
  ghost predicate NumberedAt(api: UrlApi, seed: IdState, us: seq<string>, st: IdState, k: nat)
    requires k < |us|
  {
    && Host(api, us[k]).Some?
    && us[k] in st.urlIds
    && var h := Host(api, us[k]).value;
       st.urlIds[us[k]] == GenerateFootnoteId(h, Get(seed.counters, h) + CountHost(api, us[..k + 1], h))
  }

  /** Each host's counter went up by the number of its URLs in `us`. */
  ghost predicate CountsRaised(api: UrlApi, seed: IdState, us: seq<string>, st: IdState) {
    forall h :: Get(st.counters, h) == Get(seed.counters, h) + CountHost(api, us, h)
  }

  /** Each URL of `us` has its host's next number after the URLs of that host before it. */
  ghost predicate IdsGiven(api: UrlApi, seed: IdState, us: seq<string>, st: IdState) {
    forall k :: 0 <= k < |us| ==> NumberedAt(api, seed, us, st, k)
  }

  /** Every URL outside `us` has what the seed gave it, identifier or none. */
  ghost predicate OthersKept(seed: IdState, us: seq<string>, st: IdState) {
    && (forall url :: url !in us ==> (url in st.urlIds <==> url in seed.urlIds))
    && (forall url :: url !in us && url in seed.urlIds ==> url in st.urlIds && st.urlIds[url] == seed.urlIds[url])
  }

  /** The tables after numbering the URLs `us`, in order, from the tables `seed`. */
  ghost predicate Numbered(api: UrlApi, seed: IdState, us: seq<string>, st: IdState) {
    CountsRaised(api, seed, us, st) && IdsGiven(api, seed, us, st) && OthersKept(seed, us, st)
  }

  /**
   * When the assignment loop over `cs` succeeds, the tables it returns are
   * the seed with exactly the URLs of `NewUrls(seed, cs)` numbered, in that
   * order, per host.
   */
  lemma {:induction false} AssignedNumbers(api: UrlApi, seed: IdState, cs: seq<Citation>, st: IdState)
    requires Assigned(api, seed, cs) == Ok(st)
    ensures Numbered(api, seed, NewUrls(seed, cs), st)
    decreases |cs|
  {
    if |cs| == 0 {
      assert NewUrls(seed, cs) == [];
    } else {
      var init := cs[..|cs| - 1];
      var c := cs[|cs| - 1];
      var s := Assigned(api, seed, init).value;
      AssignedNumbers(api, seed, init, s);
      AssignedCovers(api, seed, init, s);
      NumberStep(api, seed, cs, init, c, s, st);
    }
  }

  /**
   * The URLs to number are the cited URLs the seed leaves without
   * identifier, each once.
   */
  lemma NewUrlsSpec(seed: IdState, cs: seq<Citation>)
    ensures forall url :: url in NewUrls(seed, cs) <==> url in UrlsOf(cs) && Unassigned(seed.urlIds, url)
    ensures var us := NewUrls(seed, cs);
      forall k, l :: 0 <= k < l < |us| ==> us[k] != us[l]
  {
    var fo := FirstOccurrences(cs);
    FirstOccurrencesSpec(cs);
    PendingSpec(seed.urlIds, fo);
    PendingDistinct(seed.urlIds, fo);
    assert NewUrls(seed, cs) == Pending(seed.urlIds, fo);
    forall url
      ensures url in NewUrls(seed, cs) <==> url in UrlsOf(cs) && Unassigned(seed.urlIds, url)
    {
      UrlsOfMember(fo, url);
    }
  }

  /** A URL is among those of `fs` exactly when some citation of `fs` has it. */
  lemma UrlsOfMember(fs: seq<Citation>, url: string)
    ensures url in UrlsOf(fs) <==> exists f <- fs :: f.url == url
  {
    if url in UrlsOf(fs) {
      var f :| f in fs && f.url == url;
    }
  }

  /**
   * No number is skipped: every number between a host's seeded counter and
   * its final counter is the identifier of one of the URLs numbered.
   */
  lemma AssignedNoGaps(api: UrlApi, seed: IdState, cs: seq<Citation>, st: IdState, h: string, n: nat)
    requires Assigned(api, seed, cs) == Ok(st)
    requires Get(seed.counters, h) < n <= Get(st.counters, h)
    ensures exists url :: url in NewUrls(seed, cs) && url in st.urlIds && st.urlIds[url] == GenerateFootnoteId(h, n)
  {
    var us := NewUrls(seed, cs);
    AssignedNumbers(api, seed, cs, st);
    var k := CountHostReaches(api, us, h, n - Get(seed.counters, h));
    assert NumberedAt(api, seed, us, st, k);
    assert us[k] in us;
  }

  /** Counting the URLs of host `h` goes through every value: the `j`-th of them is at some `k`. */
  lemma {:induction false} CountHostReaches(api: UrlApi, us: seq<string>, h: string, j: nat) returns (k: nat)
    requires 1 <= j <= CountHost(api, us, h)
    ensures k < |us| && Host(api, us[k]) == Some(h) && CountHost(api, us[..k + 1], h) == j
    decreases |us|
  {
    var init := us[..|us| - 1];
    if j <= CountHost(api, init, h) {
      k := CountHostReaches(api, init, h, j);
      assert us[..k + 1] == init[..k + 1];
    } else {
      k := |us| - 1;
      assert us[..k + 1] == us;
    }
  }

  /**
   * With an existing footnote `[^d-5]` for a URL `x` of host `d`, citing
   * `x`, then twice a URL `u1`, then a URL `u2`, both of host `d`, keeps the
   * identifier of `x` and numbers `u1` and `u2` as `[^d-6]` and `[^d-7]`.
   */
  lemma NumberingExample(api: UrlApi, x: string, u1: string, u2: string, cs: seq<Citation>)
    requires Host(api, x) == Some("d") && Host(api, u1) == Some("d") && Host(api, u2) == Some("d")
    requires x != u1 && x != u2 && u1 != u2
    requires |cs| == 4 && cs[0].url == x && cs[1].url == u1 && cs[2].url == u1 && cs[3].url == u2
    ensures Assigned(api, Seeded(api, [Footnote("[^d-5]", "X", x)]), cs)
      == Ok(IdState(map["d" := 7], map[x := "[^d-5]", u1 := "[^d-6]", u2 := "[^d-7]"]))
  {
    var seed := Seeded(api, [Footnote("[^d-5]", "X", x)]);
    SeedExample(api, x);
    var s1 := IdState(map["d" := 6], map[x := "[^d-5]", u1 := "[^d-6]"]);
    var s2 := IdState(map["d" := 7], map[x := "[^d-5]", u1 := "[^d-6]", u2 := "[^d-7]"]);
    assert cs[..0] == [];
    AssignedPrefix(api, seed, cs, 1);
    assert AssignStep(api, seed, cs[0]) == Ok(seed);
    AssignedPrefix(api, seed, cs, 2);
    ExampleIds();
    assert seed.counters["d" := 6] == s1.counters && seed.urlIds[u1 := "[^d-6]"] == s1.urlIds;
    ExampleStep(api, seed, cs[1], u1, 6, "[^d-6]", s1);
    AssignedPrefix(api, seed, cs, 3);
    assert AssignStep(api, s1, cs[2]) == Ok(s1);
    AssignedPrefix(api, seed, cs, 4);
    assert s1.counters["d" := 7] == s2.counters && s1.urlIds[u2 := "[^d-7]"] == s2.urlIds;
    ExampleStep(api, s1, cs[3], u2, 7, "[^d-7]", s2);
    assert cs[..4] == cs;
  }

  /** A URL of host `d` without identifier, with `d` at `n - 1`, gets `[^d-n]`. */
  lemma ExampleStep(api: UrlApi, s: IdState, c: Citation, url: string, n: nat, id: string, next: IdState)
    requires c.url == url && Host(api, url) == Some("d") && url !in s.urlIds && Get(s.counters, "d") + 1 == n
    requires id == GenerateFootnoteId("d", n)
    requires next.counters == s.counters["d" := n] && next.urlIds == s.urlIds[url := id]
    ensures AssignStep(api, s, c) == Ok(next)
  {
  }

  /** The identifiers of host `d` numbered 5, 6 and 7. */
  lemma ExampleIds()
    ensures GenerateFootnoteId("d", 5) == "[^d-5]"
    ensures GenerateFootnoteId("d", 6) == "[^d-6]"
    ensures GenerateFootnoteId("d", 7) == "[^d-7]"
  {
  }

  /** Seeding from the footnote `[^d-5]` of a URL of host `d` sets the counter of `d` to 5. */
  lemma SeedExample(api: UrlApi, x: string)
    requires Host(api, x) == Some("d")
    ensures Seeded(api, [Footnote("[^d-5]", "X", x)]) == IdState(map["d" := 5], map[x := "[^d-5]"])
  {
    ExampleIds();
    CounterSuffixOfGenerated("d", 5);
    var fs := [Footnote("[^d-5]", "X", x)];
    assert fs[..0] == [];
    assert Seeded(api, fs[..0]) == IdState(map[], map[]);
  }

  /** The assignment loop over the first `k` citations is one more pass after the loop over the first `k - 1`. */
  lemma AssignedPrefix(api: UrlApi, seed: IdState, cs: seq<Citation>, k: nat)
    requires 0 < k <= |cs|
    ensures Assigned(api, seed, cs[..k]) == match Assigned(api, seed, cs[..k - 1])
      case Err(e) => Err(e)
      case Ok(s) => AssignStep(api, s, cs[k - 1])
  {
    assert cs[..k][..k - 1] == cs[..k - 1];
  }

  /** One pass of the assignment loop numbers the citation's URL when it is the first citation of a URL the seed leaves without identifier. */
  lemma NumberStep(api: UrlApi, seed: IdState, cs: seq<Citation>, init: seq<Citation>, c: Citation, s: IdState, st: IdState)
    requires |cs| > 0 && init == cs[..|cs| - 1] && c == cs[|cs| - 1]
    requires Numbered(api, seed, NewUrls(seed, init), s)
    requires forall d <- init :: !Unassigned(s.urlIds, d.url)
    requires AssignStep(api, s, c) == Ok(st)
    ensures Numbered(api, seed, NewUrls(seed, cs), st)
  {
    var us := NewUrls(seed, init);
    IdsGivenAssigned(api, seed, us, s);
    NewUrlsSnoc(seed, cs, init, c, s);
    if Unassigned(s.urlIds, c.url) {
      NumberNew(api, seed, us, s, c.url, Host(api, c.url).value, st);
    }
  }

  /** The URLs numbered have an identifier. */
  lemma IdsGivenAssigned(api: UrlApi, seed: IdState, us: seq<string>, s: IdState)
    requires IdsGiven(api, seed, us, s)
    ensures forall u <- us :: !Unassigned(s.urlIds, u)
  {
    forall u <- us
      ensures !Unassigned(s.urlIds, u)
    {
      var k :| 0 <= k < |us| && us[k] == u;
      assert NumberedAt(api, seed, us, s, k);
    }
  }

  /**
   * One more citation adds its URL to the URLs to number exactly when the
   * tables so far give that URL no identifier.
   */
  lemma NewUrlsSnoc(seed: IdState, cs: seq<Citation>, init: seq<Citation>, c: Citation, s: IdState)
    requires |cs| > 0 && init == cs[..|cs| - 1] && c == cs[|cs| - 1]
    requires forall d <- init :: !Unassigned(s.urlIds, d.url)
    requires forall u <- NewUrls(seed, init) :: !Unassigned(s.urlIds, u)
    requires OthersKept(seed, NewUrls(seed, init), s)
    ensures Unassigned(s.urlIds, c.url) ==> c.url !in NewUrls(seed, init) && NewUrls(seed, cs) == NewUrls(seed, init) + [c.url]
    ensures !Unassigned(s.urlIds, c.url) ==> NewUrls(seed, cs) == NewUrls(seed, init)
  {
    var fo := FirstOccurrences(init);
    var us := Pending(seed.urlIds, fo);
    PendingSnoc(seed.urlIds, fo, c);
    PendingCited(seed.urlIds, fo, init);
    if c.url in UrlsOf(init) {
      var d :| d in init && d.url == c.url;
      assert FirstOccurrences(cs) == fo;
    } else {
      assert c.url !in us;
      assert FirstOccurrences(cs) == fo + [c];
      assert Unassigned(seed.urlIds, c.url) <==> Unassigned(s.urlIds, c.url);
    }
  }

  /** Numbering one more URL `url` of host `h` with the host's next counter keeps `Numbered`. */
  lemma NumberNew(api: UrlApi, seed: IdState, us: seq<string>, s: IdState, url: string, h: string, st: IdState)
    requires Numbered(api, seed, us, s) && url !in us && Host(api, url) == Some(h)
    requires st == IdState(s.counters[h := Get(s.counters, h) + 1], s.urlIds[url := GenerateFootnoteId(h, Get(s.counters, h) + 1)])
    ensures Numbered(api, seed, us + [url], st)
  {
    CountsRaisedNew(api, seed, us, s, url, h, st);
    IdsGivenNew(api, seed, us, s, url, h, st);
    OthersKeptNew(seed, us, s, url, st);
  }

  lemma CountsRaisedNew(api: UrlApi, seed: IdState, us: seq<string>, s: IdState, url: string, h: string, st: IdState)
    requires CountsRaised(api, seed, us, s) && Host(api, url) == Some(h)
    requires st.counters == s.counters[h := Get(s.counters, h) + 1]
    ensures CountsRaised(api, seed, us + [url], st)
  {
    forall x
      ensures Get(st.counters, x) == Get(seed.counters, x) + CountHost(api, us + [url], x)
    {
      CountHostSnoc(api, us, url, x);
      assert Get(st.counters, x) == Get(s.counters, x) + (if x == h then 1 else 0);
    }
  }

  /** Counting one more URL. */
  lemma CountHostSnoc(api: UrlApi, us: seq<string>, url: string, h: string)
    ensures CountHost(api, us + [url], h) == CountHost(api, us, h) + (if Host(api, url) == Some(h) then 1 else 0)
  {
    var vs := us + [url];
    assert vs[..|vs| - 1] == us && vs[|vs| - 1] == url;
  }

  lemma IdsGivenNew(api: UrlApi, seed: IdState, us: seq<string>, s: IdState, url: string, h: string, st: IdState)
    requires IdsGiven(api, seed, us, s) && url !in us && Host(api, url) == Some(h)
    requires Get(s.counters, h) == Get(seed.counters, h) + CountHost(api, us, h)
    requires st.urlIds == s.urlIds[url := GenerateFootnoteId(h, Get(s.counters, h) + 1)]
    ensures IdsGiven(api, seed, us + [url], st)
  {
    forall k | 0 <= k < |us| + 1
      ensures NumberedAt(api, seed, us + [url], st, k)
    {
      if k < |us| {
        NumberedAtKept(api, seed, us, s, url, st, k);
      } else {
        NumberedAtLast(api, seed, us, s, url, h, st);
      }
    }
  }

  /** A URL numbered before keeps its identifier when another URL is numbered. */
  lemma NumberedAtKept(api: UrlApi, seed: IdState, us: seq<string>, s: IdState, url: string, st: IdState, k: nat)
    requires k < |us| && NumberedAt(api, seed, us, s, k) && url !in us
    requires url in st.urlIds && st.urlIds == s.urlIds[url := st.urlIds[url]]
    ensures NumberedAt(api, seed, us + [url], st, k)
  {
    var vs := us + [url];
    assert vs[..k + 1] == us[..k + 1] && vs[k] == us[k];
  }

  /** The URL numbered last gets its host's next number. */
  lemma NumberedAtLast(api: UrlApi, seed: IdState, us: seq<string>, s: IdState, url: string, h: string, st: IdState)
    requires Host(api, url) == Some(h)
    requires Get(s.counters, h) == Get(seed.counters, h) + CountHost(api, us, h)
    requires st.urlIds == s.urlIds[url := GenerateFootnoteId(h, Get(s.counters, h) + 1)]
    ensures NumberedAt(api, seed, us + [url], st, |us|)
  {
    var vs := us + [url];
    assert vs[..|us| + 1] == vs && vs[|us|] == url;
    CountHostSnoc(api, us, url, h);
    var n := Get(s.counters, h) + 1;
    assert n == Get(seed.counters, h) + CountHost(api, vs[..|us| + 1], h);
    assert st.urlIds[url] == GenerateFootnoteId(h, n);
  }

  lemma OthersKeptNew(seed: IdState, us: seq<string>, s: IdState, url: string, st: IdState)
    requires OthersKept(seed, us, s) && url in st.urlIds && st.urlIds == s.urlIds[url := st.urlIds[url]]
    ensures OthersKept(seed, us + [url], st)
  {
  }

  /** The pending URLs of one more first occurrence. */
  lemma PendingSnoc(urlIds: map<string, string>, fs: seq<Citation>, c: Citation)
    ensures Pending(urlIds, fs + [c]) == Pending(urlIds, fs) + (if Unassigned(urlIds, c.url) then [c.url] else [])
  {
    var gs := fs + [c];
    assert gs[..|gs| - 1] == fs && gs[|gs| - 1] == c;
  }

  /** The pending URLs of the first occurrences of `cs` are cited in `cs`. */
  lemma PendingCited(urlIds: map<string, string>, fo: seq<Citation>, cs: seq<Citation>)
    requires fo == FirstOccurrences(cs)
    ensures forall u <- Pending(urlIds, fo) :: u in UrlsOf(cs)
  {
    PendingFrom(urlIds, fo);
    forall u <- Pending(urlIds, fo)
      ensures u in UrlsOf(cs)
    {
      var f :| f in fo && f.url == u;
      assert f in cs;
    }
  }

  /** Every pending URL is the URL of one of the citations it was taken from. */
  lemma {:induction false} PendingFrom(urlIds: map<string, string>, fs: seq<Citation>)
    ensures forall u <- Pending(urlIds, fs) :: exists f <- fs :: f.url == u
    decreases |fs|
  {
    if |fs| > 0 {
      var init := fs[..|fs| - 1];
      PendingFrom(urlIds, init);
      forall u <- Pending(urlIds, fs)
        ensures exists f <- fs :: f.url == u
      {
        if u in Pending(urlIds, init) {
          var f :| f in init && f.url == u;
          assert f in fs;
        } else {
          assert fs[|fs| - 1] in fs;
        }
      }
    }
  }

  /** A URL is pending exactly when some citation has it and it has no identifier. */
  lemma {:induction false} PendingSpec(urlIds: map<string, string>, fs: seq<Citation>)
    ensures forall url :: url in Pending(urlIds, fs) <==> (exists f <- fs :: f.url == url) && Unassigned(urlIds, url)
    decreases |fs|
  {
    if |fs| > 0 {
      var init := fs[..|fs| - 1];
      var f := fs[|fs| - 1];
      PendingSpec(urlIds, init);
      forall url
        ensures url in Pending(urlIds, fs) <==> (exists g <- fs :: g.url == url) && Unassigned(urlIds, url)
      {
        if exists g <- fs :: g.url == url {
          var g :| g in fs && g.url == url;
          if g != f {
            assert g in init;
          }
        }
        if exists g <- init :: g.url == url {
          var g :| g in init && g.url == url;
          assert g in fs;
        }
      }
    }
  }

  /** Citations with distinct URLs give distinct pending URLs. */
  lemma {:induction false} PendingDistinct(urlIds: map<string, string>, fs: seq<Citation>)
    requires forall k, l :: 0 <= k < l < |fs| ==> fs[k].url != fs[l].url
    ensures var us := Pending(urlIds, fs);
      forall k, l :: 0 <= k < l < |us| ==> us[k] != us[l]
    decreases |fs|
  {
    if |fs| > 0 {
      var init := fs[..|fs| - 1];
      var f := fs[|fs| - 1];
      var before := Pending(urlIds, init);
      PendingDistinct(urlIds, init);
      PendingSpec(urlIds, init);
      forall g <- init
        ensures g.url != f.url
      {
        var k :| 0 <= k < |init| && init[k] == g;
        assert fs[k] == g;
      }
      var us := Pending(urlIds, fs);
      assert fs == init + [f];
      PendingSnoc(urlIds, init, f);
      assert f.url !in before;
      forall k, l | 0 <= k < l < |us|
        ensures us[k] != us[l]
      {
        assert us[k] == before[k];
        if l < |before| {
          assert us[l] == before[l];
        } else {
          assert before[k] in before;
        }
      }
    }
  }
}
