/** What a crawl promises: no URL fetched twice, every fetched URL within
    the depth budget of the seed, the word set exactly the words of the
    fetched pages, and cancellation only ever cutting the result short. */
module CrawlProperties {
  import opened Wrappers
  import opened Tokenizer
  import opened Links
  import opened Order
  import opened Crawler

  // ---------------------------------------------------------------------
  // One step of a crawl

  /** One unfolding of `Crawl` on an accepted page. */
  lemma CrawlAcceptedPage(env: Env, url: string, depth: int, st: State, page: Page)
    requires !ReturnsAtEntry(env, url, depth, st)
    requires env.fetch(url) == Some(page) && Accepted(page)
    ensures Crawl(env, url, depth, st)
            == CrawlHrefs(env, url, page.hrefs, depth, AddWords(Mark(st, url), PageWords(page.text, env.minLen)))
    ensures LinksOf(env, url) == FollowedLinks(env.join, url, page.hrefs)
    ensures WordsAt(env, url) == PageWords(page.text, env.minLen)
  {
  }

  /** One unfolding of `Crawl` on a failed fetch or a rejected page: the URL
      is marked visited and fetched, and that is all. */
  lemma CrawlSkippedPage(env: Env, url: string, depth: int, st: State)
    requires !ReturnsAtEntry(env, url, depth, st)
    requires env.fetch(url).None? || !Accepted(env.fetch(url).value)
    ensures Crawl(env, url, depth, st) == Mark(st, url)
    ensures LinksOf(env, url) == []
    ensures WordsAt(env, url) == {}
  {
  }

  /** A call that passes its entry checks hands `url` to `fetch` before
      anything else, and marks it visited. */
  lemma CrawlFetchesUrlFirst(env: Env, url: string, depth: int, st: State)
    requires !ReturnsAtEntry(env, url, depth, st)
    ensures var r := Crawl(env, url, depth, st);
            && url in r.visited
            && |st.fetched| < |r.fetched|
            && r.fetched[|st.fetched|] == url
  {
    var k := |st.fetched|;
    if env.fetch(url).Some? && Accepted(env.fetch(url).value) {
      var page := env.fetch(url).value;
      var scanned := AddWords(Mark(st, url), PageWords(page.text, env.minLen));
      CrawlAcceptedPage(env, url, depth, st, page);
      var r := CrawlHrefs(env, url, page.hrefs, depth, scanned);
      assert Below(scanned, r);
      assert r.fetched[k] == r.fetched[..k + 1][k] == scanned.fetched[k];
    } else {
      CrawlSkippedPage(env, url, depth, st);
    }
  }

  // ---------------------------------------------------------------------
  // Each URL is fetched at most once

  lemma MarkConsistent(st: State, url: string)
    requires Consistent(st) && url !in st.visited
    ensures Consistent(Mark(st, url))
  {
    var m := Mark(st, url);
    forall i, j | 0 <= i < j < |m.fetched| ensures m.fetched[i] != m.fetched[j] {
      if j == |st.fetched| {
        assert m.fetched[i] == st.fetched[i];
        assert st.fetched[i] in st.visited;
      } else {
        assert m.fetched[i] == st.fetched[i] && m.fetched[j] == st.fetched[j];
      }
    }
    forall u | u in m.visited ensures u in m.fetched {
      if u != url {
        assert u in st.fetched;
        var i :| 0 <= i < |st.fetched| && st.fetched[i] == u;
        assert m.fetched[i] == u;
      } else {
        assert m.fetched[|st.fetched|] == url;
      }
    }
    forall i | 0 <= i < |m.fetched| ensures m.fetched[i] in m.visited {
      if i < |st.fetched| {
        assert m.fetched[i] == st.fetched[i];
      }
    }
  }

  /** A call keeps the visited set equal to the set of fetched URLs and the
      fetch log free of repeats: the visited check runs before every fetch. */
  lemma {:induction false} CrawlConsistent(env: Env, url: string, depth: int, st: State)
    requires Consistent(st)
    ensures Consistent(Crawl(env, url, depth, st))
    decreases Measure(depth), 1
  {
    if !ReturnsAtEntry(env, url, depth, st) {
      MarkConsistent(st, url);
      if env.fetch(url).Some? && Accepted(env.fetch(url).value) {
        var page := env.fetch(url).value;
        var scanned := AddWords(Mark(st, url), PageWords(page.text, env.minLen));
        CrawlAcceptedPage(env, url, depth, st, page);
        assert Consistent(scanned);
        HrefsConsistent(env, url, page.hrefs, depth, scanned);
      } else {
        CrawlSkippedPage(env, url, depth, st);
      }
    }
  }

  lemma {:induction false} HrefsConsistent(env: Env, base: string, hrefs: seq<string>, depth: int, st: State)
    requires depth >= 0
    requires Consistent(st)
    ensures Consistent(CrawlHrefs(env, base, hrefs, depth, st))
    decreases Measure(depth), 0, |hrefs|
  {
    if hrefs != [] {
      match ResolveOne(env.join, base, hrefs[0])
      case Some(next) =>
        var mid := Crawl(env, next, depth - 1, st);
        CrawlConsistent(env, next, depth - 1, st);
        HrefsConsistent(env, base, hrefs[1..], depth, mid);
        assert CrawlHrefs(env, base, hrefs, depth, st) == CrawlHrefs(env, base, hrefs[1..], depth, mid);
      case None =>
        HrefsConsistent(env, base, hrefs[1..], depth, st);
    }
  }

  // ---------------------------------------------------------------------
  // Whole-crawl corollaries

  /** No URL is fetched twice in one crawl, and the visited set is exactly
      the set of fetched URLs. */
  lemma RunFetchesEachUrlOnce(env: Env, seed: string, maxDepth: int)
    ensures var r := Run(env, seed, maxDepth);
            && NoDuplicates(r.fetched)
            && (forall u :: u in r.visited <==> u in r.fetched)
  {
    var r := Run(env, seed, maxDepth);
    assert r == Crawl(env, seed, maxDepth, Start);
    CrawlConsistent(env, seed, maxDepth, Start);
    forall u | u in r.fetched ensures u in r.visited {
      var i :| 0 <= i < |r.fetched| && r.fetched[i] == u;
    }
  }

  /** Every collected word is lower-case letters and digits and at least
      `minLen` long. */
  lemma RunWordsWellFormed(env: Env, seed: string, maxDepth: int)
    ensures forall w :: w in Run(env, seed, maxDepth).words ==> IsWord(w, env.minLen)
  {
    assert WordsWellFormed(Start.words, env.minLen);
    assert Run(env, seed, maxDepth) == Crawl(env, seed, maxDepth, Start);
  }

  /** A flag set before the crawl starts, or a negative maximum depth,
      yields nothing at all. */
  lemma RunReturnsAtOnce(env: Env, seed: string, maxDepth: int)
    requires Stopped(env.stop, 0) || maxDepth < 0
    ensures var r := Run(env, seed, maxDepth);
            r.visited == {} && r.words == {} && r.fetched == []
  {
    assert Run(env, seed, maxDepth) == Crawl(env, seed, maxDepth, Start);
  }

  /** A seed whose fetch fails or whose response the gate rejects yields
      no words and no further fetches. */
  lemma RunRejectedSeed(env: Env, seed: string, maxDepth: int)
    requires !Stopped(env.stop, 0) && maxDepth >= 0
    requires env.fetch(seed).None? || !Accepted(env.fetch(seed).value)
    ensures var r := Run(env, seed, maxDepth);
            r.words == {} && r.fetched == [seed] && r.visited == {seed}
  {
    assert Run(env, seed, maxDepth) == Crawl(env, seed, maxDepth, Start);
    CrawlSkippedPage(env, seed, maxDepth, Start);
  }

  /** Otherwise the seed is the first URL fetched. */
  lemma RunFetchesSeedFirst(env: Env, seed: string, maxDepth: int)
    requires !Stopped(env.stop, 0) && maxDepth >= 0
    ensures var r := Run(env, seed, maxDepth);
            |r.fetched| > 0 && r.fetched[0] == seed
  {
    assert Run(env, seed, maxDepth) == Crawl(env, seed, maxDepth, Start);
    CrawlFetchesUrlFirst(env, seed, maxDepth, Start);
  }

  // ---------------------------------------------------------------------
  // Depth bound
  lemma ReachUnfold(env: Env, from: string, n: int)
    ensures n < 0 ==> Reach(env, from, n) == {}
    ensures n == 0 ==> Reach(env, from, n) == {from}
    ensures n > 0 ==> Reach(env, from, n) == {from} + ReachAll(env, LinksOf(env, from), n - 1)
  {
  }

  lemma ReachAllCons(env: Env, x: string, xs: seq<string>, n: int)
    ensures ReachAll(env, [x] + xs, n) == Reach(env, x, n) + ReachAll(env, xs, n)
  {
    assert ([x] + xs)[1..] == xs;
  }

  /** Nothing is within a negative number of links. */
  lemma {:induction false} ReachAllNonNegative(env: Env, links: seq<string>, u: string, n: int)
    requires u in ReachAll(env, links, n)
    ensures n >= 0
    decreases |links|
  {
    if n < 0 {
      assert links != [];
      assert ReachAll(env, links, n) == Reach(env, links[0], n) + ReachAll(env, links[1..], n);
      ReachUnfold(env, links[0], n);
      ReachAllNonNegative(env, links[1..], u, n);
    }
  }

  lemma ReachAllNegative(env: Env, links: seq<string>, n: int)
    requires n < 0
    ensures ReachAll(env, links, n) == {}
  {
    forall u | u in ReachAll(env, links, n) ensures false {
      ReachAllNonNegative(env, links, u, n);
    }
  }

  /** `ReachAll` is the union of `Reach` over the links. */
  lemma {:induction false} ReachAllMembership(env: Env, links: seq<string>, u: string, n: int)
    ensures u in ReachAll(env, links, n) <==> exists l :: l in links && u in Reach(env, l, n)
    decreases |links|
  {
    if links != [] {
      assert ReachAll(env, links, n) == Reach(env, links[0], n) + ReachAll(env, links[1..], n);
      ReachAllMembership(env, links[1..], u, n);
      if u in ReachAll(env, links[1..], n) {
        var l :| l in links[1..] && u in Reach(env, l, n);
        assert l in links;
      }
      if exists l :: l in links && u in Reach(env, l, n) {
        var l :| l in links && u in Reach(env, l, n);
        if l != links[0] {
          assert l in links[1..];
        }
      }
    }
  }

  /** `u` is within `m + 1` links of `from` exactly when it is `from`
      itself or within `m` links of a link `from` leads to. */
  lemma ReachStep(env: Env, from: string, u: string, m: nat)
    ensures u in Reach(env, from, m + 1) <==>
              u == from || exists l :: l in LinksOf(env, from) && u in Reach(env, l, m)
  {
    ReachUnfold(env, from, m + 1);
    ReachAllMembership(env, LinksOf(env, from), u, m);
  }

  /** The URLs `b` fetched beyond `a` all lie in `s`. */
  predicate FetchedWithin(a: State, b: State, s: set<string>)
  {
    forall i :: |a.fetched| <= i < |b.fetched| ==> b.fetched[i] in s
  }

  lemma JoinSegments(a: State, b: State, c: State, s: set<string>, t: set<string>)
    requires Below(a, b) && Below(b, c)
    requires FetchedWithin(a, b, s) && FetchedWithin(b, c, t)
    ensures FetchedWithin(a, c, s + t)
  {
    forall i | |a.fetched| <= i < |c.fetched| ensures c.fetched[i] in s + t {
      if i < |b.fetched| {
        assert c.fetched[i] == c.fetched[..|b.fetched|][i] == b.fetched[i];
      }
    }
  }

  lemma MarkSegment(a: State, url: string, c: State, t: set<string>)
    requires Below(Mark(a, url), c) && FetchedWithin(Mark(a, url), c, t)
    ensures FetchedWithin(a, c, {url} + t)
  {
    var b := Mark(a, url);
    forall i | |a.fetched| <= i < |c.fetched| ensures c.fetched[i] in {url} + t {
      if i == |a.fetched| {
        assert c.fetched[i] == c.fetched[..|b.fetched|][i] == b.fetched[i];
      }
    }
  }

  /** Every URL a call fetches is within `depth` followed links of the URL
      it was called on. */
  lemma {:induction false} CrawlWithin(env: Env, url: string, depth: int, st: State)
    ensures FetchedWithin(st, Crawl(env, url, depth, st), Reach(env, url, depth))
    decreases Measure(depth), 1
  {
    if !ReturnsAtEntry(env, url, depth, st) {
      ReachUnfold(env, url, depth);
      if env.fetch(url).Some? && Accepted(env.fetch(url).value) {
        var page := env.fetch(url).value;
        var marked := Mark(st, url);
        var scanned := AddWords(marked, PageWords(page.text, env.minLen));
        CrawlAcceptedPage(env, url, depth, st, page);
        var hr := CrawlHrefs(env, url, page.hrefs, depth, scanned);
        HrefsWithin(env, url, page.hrefs, depth, scanned);
        var t := ReachAll(env, LinksOf(env, url), depth - 1);
        assert FetchedWithin(marked, hr, t);
        MarkSegment(st, url, hr, t);
        if depth == 0 {
          ReachAllNegative(env, LinksOf(env, url), depth - 1);
        }
        assert {url} + t == Reach(env, url, depth);
      } else {
        CrawlSkippedPage(env, url, depth, st);
        MarkSegment(st, url, Mark(st, url), {});
      }
    }
  }

  /** The anchor loop of a page fetched at `depth` only fetches URLs within
      `depth - 1` links of the links it follows. */
  lemma {:induction false} HrefsWithin(env: Env, base: string, hrefs: seq<string>, depth: int, st: State)
    requires depth >= 0
    ensures FetchedWithin(st, CrawlHrefs(env, base, hrefs, depth, st),
                          ReachAll(env, FollowedLinks(env.join, base, hrefs), depth - 1))
    decreases Measure(depth), 0, |hrefs|
  {
    if hrefs != [] {
      var rest := FollowedLinks(env.join, base, hrefs[1..]);
      match ResolveOne(env.join, base, hrefs[0])
      case Some(next) =>
        var mid := Crawl(env, next, depth - 1, st);
        var r1 := CrawlHrefs(env, base, hrefs[1..], depth, mid);
        assert CrawlHrefs(env, base, hrefs, depth, st) == r1;
        assert FollowedLinks(env.join, base, hrefs) == [next] + rest;
        ReachAllCons(env, next, rest, depth - 1);
        CrawlWithin(env, next, depth - 1, st);
        HrefsWithin(env, base, hrefs[1..], depth, mid);
        JoinSegments(st, mid, r1, Reach(env, next, depth - 1), ReachAll(env, rest, depth - 1));
      case None =>
        assert CrawlHrefs(env, base, hrefs, depth, st) == CrawlHrefs(env, base, hrefs[1..], depth, st);
        assert FollowedLinks(env.join, base, hrefs) == rest;
        HrefsWithin(env, base, hrefs[1..], depth, st);
    }
  }

  /** Every URL a crawl fetches is at most `maxDepth` followed links from
      the seed. */
  lemma RunWithinDepth(env: Env, seed: string, maxDepth: int)
    ensures var r := Run(env, seed, maxDepth);
            forall i :: 0 <= i < |r.fetched| ==> r.fetched[i] in Reach(env, seed, maxDepth)
  {
    var r := Run(env, seed, maxDepth);
    assert r == Crawl(env, seed, maxDepth, Start);
    CrawlWithin(env, seed, maxDepth, Start);
    assert FetchedWithin(Start, r, Reach(env, seed, maxDepth));
  }

  /** The anchor loop of a page fetched at depth 0 fetches nothing: every
      link is crawled at depth -1 and returns at once. */
  lemma {:induction false} HrefsAtDepthZero(env: Env, base: string, hrefs: seq<string>, st: State)
    ensures Untouched(st, CrawlHrefs(env, base, hrefs, 0, st))
    decreases |hrefs|
  {
    if hrefs != [] {
      match ResolveOne(env.join, base, hrefs[0])
      case Some(next) =>
        var mid := Crawl(env, next, -1, st);
        HrefsAtDepthZero(env, base, hrefs[1..], mid);
      case None =>
        HrefsAtDepthZero(env, base, hrefs[1..], st);
    }
  }

  /** With `maxDepth = 0` only the seed is fetched and only its words are
      collected (unless the flag was set before the start, when nothing
      is). */
  lemma RunDepthZero(env: Env, seed: string)
    ensures Run(env, seed, 0).fetched == if Stopped(env.stop, 0) then [] else [seed]
    ensures Run(env, seed, 0).words == if Stopped(env.stop, 0) then {} else WordsAt(env, seed)
  {
    assert Run(env, seed, 0) == Crawl(env, seed, 0, Start);
    if !Stopped(env.stop, 0) {
      if env.fetch(seed).Some? && Accepted(env.fetch(seed).value) {
        var page := env.fetch(seed).value;
        var scanned := AddWords(Mark(Start, seed), PageWords(page.text, env.minLen));
        CrawlAcceptedPage(env, seed, 0, Start, page);
        HrefsAtDepthZero(env, seed, page.hrefs, scanned);
      } else {
        CrawlSkippedPage(env, seed, 0, Start);
      }
    }
  }

  // ---------------------------------------------------------------------
  // The word set is exactly the words of the fetched pages
  lemma {:induction false} TraceWordsAppend(env: Env, a: seq<string>, b: seq<string>)
    ensures TraceWords(env, a + b) == TraceWords(env, a) + TraceWords(env, b)
    decreases |a|
  {
    if a != [] {
      assert (a + b)[1..] == a[1..] + b;
      TraceWordsAppend(env, a[1..], b);
    } else {
      assert a + b == b;
    }
  }

  lemma TraceWordsCons(env: Env, trace: seq<string>, k: nat)
    requires k < |trace|
    ensures TraceWords(env, trace[k..]) == WordsAt(env, trace[k]) + TraceWords(env, trace[k + 1..])
  {
    assert trace[k..][1..] == trace[k + 1..];
  }

  /** `b` holds the words of `a` plus those of the pages fetched since. */
  predicate WordsFrom(env: Env, a: State, b: State)
    requires |a.fetched| <= |b.fetched|
  {
    b.words == a.words + TraceWords(env, b.fetched[|a.fetched|..])
  }

  lemma JoinWords(env: Env, a: State, b: State, c: State)
    requires Below(a, b) && Below(b, c)
    requires WordsFrom(env, a, b) && WordsFrom(env, b, c)
    ensures WordsFrom(env, a, c)
  {
    var k, m := |a.fetched|, |b.fetched|;
    SplitTail(c.fetched, b.fetched, k);
    TraceWordsAppend(env, b.fetched[k..], c.fetched[m..]);
  }

  /** The part of `x` from `k` on, where `x` extends `y`, is `y`'s part
      from `k` on followed by what `x` adds. */
  lemma SplitTail(x: seq<string>, y: seq<string>, k: nat)
    requires k <= |y| <= |x| && x[..|y|] == y
    ensures x[k..] == y[k..] + x[|y|..]
  {
    assert x == y + x[|y|..];
  }

  lemma MarkWords(env: Env, a: State, url: string, c: State)
    requires Below(Mark(a, url), c)
    requires c.words == a.words + WordsAt(env, url) + TraceWords(env, c.fetched[|a.fetched| + 1..])
    ensures WordsFrom(env, a, c)
  {
    MarkedAt(a, url, c);
    TraceWordsCons(env, c.fetched, |a.fetched|);
  }

  /** A state grown from `Mark(a, url)` has `url` where the log of `a`
      ends. */
  lemma MarkedAt(a: State, url: string, c: State)
    requires Below(Mark(a, url), c)
    ensures |a.fetched| < |c.fetched| && c.fetched[|a.fetched|] == url
  {
    var k := |a.fetched|;
    assert c.fetched[k] == c.fetched[..k + 1][k] == url;
  }

  /** A call adds exactly the words of the pages it fetches. */
  lemma {:induction false} CrawlWords(env: Env, url: string, depth: int, st: State)
    ensures WordsFrom(env, st, Crawl(env, url, depth, st))
    decreases Measure(depth), 1
  {
    var r := Crawl(env, url, depth, st);
    if ReturnsAtEntry(env, url, depth, st) {
      assert r.fetched[|st.fetched|..] == [];
    } else if env.fetch(url).Some? && Accepted(env.fetch(url).value) {
      var page := env.fetch(url).value;
      var scanned := AddWords(Mark(st, url), PageWords(page.text, env.minLen));
      CrawlAcceptedPage(env, url, depth, st, page);
      HrefsWords(env, url, page.hrefs, depth, scanned);
      MarkWords(env, st, url, r);
    } else {
      CrawlSkippedPage(env, url, depth, st);
      assert r.fetched[|st.fetched| + 1..] == [];
      MarkWords(env, st, url, r);
    }
  }

  lemma {:induction false} HrefsWords(env: Env, base: string, hrefs: seq<string>, depth: int, st: State)
    requires depth >= 0
    ensures WordsFrom(env, st, CrawlHrefs(env, base, hrefs, depth, st))
    decreases Measure(depth), 0, |hrefs|
  {
    var r := CrawlHrefs(env, base, hrefs, depth, st);
    if hrefs == [] {
      assert r.fetched[|st.fetched|..] == [];
    } else {
      match ResolveOne(env.join, base, hrefs[0])
      case Some(next) =>
        var mid := Crawl(env, next, depth - 1, st);
        var r1 := CrawlHrefs(env, base, hrefs[1..], depth, mid);
        assert r == r1;
        CrawlWords(env, next, depth - 1, st);
        HrefsWords(env, base, hrefs[1..], depth, mid);
        JoinWords(env, st, mid, r1);
      case None =>
        assert r == CrawlHrefs(env, base, hrefs[1..], depth, st);
        HrefsWords(env, base, hrefs[1..], depth, st);
    }
  }

  /** The words of a crawl are exactly the words of the pages it fetched. */
  lemma RunWordsExact(env: Env, seed: string, maxDepth: int)
    ensures var r := Run(env, seed, maxDepth);
            r.words == TraceWords(env, r.fetched)
  {
    var r := Run(env, seed, maxDepth);
    assert r == Crawl(env, seed, maxDepth, Start);
    CrawlWords(env, seed, maxDepth, Start);
    assert WordsFrom(env, Start, r);
    assert r.fetched[0..] == r.fetched;
  }

  // ---------------------------------------------------------------------
  // Cancellation

  /** The cancellable run from `a` and the uncancelled run from `b` have
      either done the same thing so far, or the cancellable one has stopped
      and is behind. */
  predicate Related(flag: StopFlag, a: State, b: State)
  {
    a == b || (Stopped(flag, a.calls) && Below(a, b))
  }

  lemma BelowTransitive(a: State, b: State, c: State)
    requires Below(a, b) && Below(b, c)
    ensures Below(a, c)
  {
    assert c.fetched[..|a.fetched|] == c.fetched[..|b.fetched|][..|a.fetched|];
  }

  lemma {:induction false} CancelSimulates(env: Env, url: string, depth: int, a: State, b: State)
    requires Related(env.stop, a, b)
    ensures Related(env.stop, Crawl(env, url, depth, a), Crawl(env.(stop := NeverSet), url, depth, b))
    decreases Measure(depth), 1
  {
    var never := env.(stop := NeverSet);
    var ra := Crawl(env, url, depth, a);
    var rb := Crawl(never, url, depth, b);
    if Stopped(env.stop, a.calls) {
      assert Untouched(a, ra) && a.calls < ra.calls;
      assert Below(a, b) && Below(b, rb);
      BelowTransitive(ra, b, rb);
    } else if !ReturnsAtEntry(env, url, depth, a) {
      assert a == b && !ReturnsAtEntry(never, url, depth, a);
      if env.fetch(url).Some? && Accepted(env.fetch(url).value) {
        var page := env.fetch(url).value;
        var scanned := AddWords(Mark(a, url), PageWords(page.text, env.minLen));
        CrawlAcceptedPage(env, url, depth, a, page);
        CrawlAcceptedPage(never, url, depth, a, page);
        CancelHrefsSimulates(env, url, page.hrefs, depth, scanned, scanned);
      } else {
        CrawlSkippedPage(env, url, depth, a);
        CrawlSkippedPage(never, url, depth, a);
      }
    } else {
      assert a == b && ReturnsAtEntry(never, url, depth, a);
    }
  }

  lemma {:induction false} CancelHrefsSimulates(env: Env, base: string, hrefs: seq<string>, depth: int, a: State, b: State)
    requires depth >= 0
    requires Related(env.stop, a, b)
    ensures Related(env.stop, CrawlHrefs(env, base, hrefs, depth, a),
                    CrawlHrefs(env.(stop := NeverSet), base, hrefs, depth, b))
    decreases Measure(depth), 0, |hrefs|
  {
    var never := env.(stop := NeverSet);
    if hrefs != [] {
      match ResolveOne(env.join, base, hrefs[0])
      case Some(next) =>
        CancelSimulates(env, next, depth - 1, a, b);
        CancelHrefsSimulates(env, base, hrefs[1..], depth,
                             Crawl(env, next, depth - 1, a), Crawl(never, next, depth - 1, b));
      case None =>
        CancelHrefsSimulates(env, base, hrefs[1..], depth, a, b);
    }
  }

  /** Setting the stop flag at any point only cuts the crawl short: what a
      cancelled crawl visited, fetched and collected is part of what the
      same crawl collects without cancellation. */
  lemma RunCancelledIsPrefix(env: Env, seed: string, maxDepth: int)
    ensures Below(Run(env, seed, maxDepth), Run(env.(stop := NeverSet), seed, maxDepth))
  {
    CancelSimulates(env, seed, maxDepth, Start, Start);
  }

}
