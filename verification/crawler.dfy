/** `crawl_website` (cewl.py:17-55): a depth-bounded, depth-first traversal
    threading a visited set and a word set. The network and the HTML parser
    are the oracle `fetch`, `urljoin` is the oracle `join`, and the shared
    stop flag is `StopFlag`. */
module Crawler {
  import opened Wrappers
  import opened Text
  import opened Tokenizer
  import opened Links
  import opened Order

  /** What one GET yields once parsed: the status code, the Content-Type
      header ("" when absent), the visible text with element boundaries as
      spaces, and the `href` of every anchor in document order. */
  datatype Page = Page(status: int, contentType: string, text: string, hrefs: seq<string>)

  /** The response gate: status 200 and a lower-cased Content-Type that
      mentions "text" or "html". */
  function Accepted(p: Page): (r: bool)
    ensures r <==> p.status == 200 && (Occurs(Lower(p.contentType), "text") || Occurs(Lower(p.contentType), "html"))
  {
    var ct := Lower(p.contentType);
    ContainsOccurs(ct, "text");
    ContainsOccurs(ct, "html");
    assert Contains(ct, "text") <==> Occurs(ct, "text");
    assert Contains(ct, "html") <==> Occurs(ct, "html");
    p.status == 200 && (Contains(ct, "text") || Contains(ct, "html"))
  }

  /** The stop flag as the crawl observes it. It is read only on entry to
      each crawl call and, once set, stays set; so all that matters is the
      first call entry that sees it set. */
  datatype StopFlag = NeverSet | SetBeforeCall(call: nat)

  predicate Stopped(flag: StopFlag, calls: nat)
  {
    flag.SetBeforeCall? && flag.call <= calls
  }

  /** The world and the parameters of one crawl. `fetch` returns `None`
      where `requests.get` or the parser raises (timeout, network error). */
  datatype Env = Env(fetch: string -> Option<Page>, join: Join, minLen: int, stop: StopFlag)

  /** The accumulators of one crawl: the visited set, the word set, the
      URLs handed to `fetch` in order, and the number of crawl calls
      entered so far (the clock the stop flag is read against). */
  datatype State = State(visited: set<string>, words: set<string>, fetched: seq<string>, calls: nat)

  const Start := State({}, {}, [], 0)

  function Measure(depth: int): nat
  {
    if depth < 0 then 0 else depth + 1
  }

  /** `b` extends `a`: nothing is ever removed and the fetch log only grows
      at its end. */
  predicate Below(a: State, b: State)
  {
    && a.visited <= b.visited
    && a.words <= b.words
    && |a.fetched| <= |b.fetched|
    && b.fetched[..|a.fetched|] == a.fetched
  }

  predicate Grows(a: State, b: State)
  {
    Below(a, b) && a.calls <= b.calls
  }

  predicate Untouched(a: State, b: State)
  {
    a.visited == b.visited && a.words == b.words && a.fetched == b.fetched
  }

  /** The visited set is exactly the set of fetched URLs and no URL was
      fetched twice. */
  predicate Consistent(st: State)
  {
    && NoDuplicates(st.fetched)
    && (forall u :: u in st.visited ==> u in st.fetched)
    && (forall i :: 0 <= i < |st.fetched| ==> st.fetched[i] in st.visited)
  }

  predicate WordsWellFormed(words: set<string>, minLen: int)
  {
    forall w :: w in words ==> IsWord(w, minLen)
  }

  /** Entering a call advances the call clock. */
  function Tick(st: State): State
  {
    st.(calls := st.calls + 1)
  }

  /** `visited.add(url)` just before `url` is fetched. */
  function Mark(st: State, url: string): State
  {
    State(st.visited + {url}, st.words, st.fetched + [url], st.calls + 1)
  }

  function AddWords(st: State, ws: set<string>): State
  {
    st.(words := st.words + ws)
  }

  /** Whether a call returns at its entry checks, before touching anything. */
  predicate ReturnsAtEntry(env: Env, url: string, depth: int, st: State)
  {
    Stopped(env.stop, st.calls) || depth < 0 || url in st.visited
  }

  /** The inner `crawl(url, depth)`. A call that passes the entry checks
      marks `url` visited before fetching it; a page the gate rejects adds
      nothing more; an accepted page adds its words and then crawls each
      followed link, in document order, at `depth - 1`. */
  function Crawl(env: Env, url: string, depth: int, st: State): (r: State)
    ensures Grows(st, r) && st.calls < r.calls
    ensures WordsWellFormed(st.words, env.minLen) ==> WordsWellFormed(r.words, env.minLen)
    ensures ReturnsAtEntry(env, url, depth, st) ==> Untouched(st, r)
    decreases Measure(depth), 1
  {
    if ReturnsAtEntry(env, url, depth, st) then Tick(st)
    else
      match env.fetch(url)
      case None => Mark(st, url)
      case Some(page) =>
        if !Accepted(page) then Mark(st, url)
        else
          var scanned := AddWords(Mark(st, url), PageWords(page.text, env.minLen));
          var r := CrawlHrefs(env, url, page.hrefs, depth, scanned);
          assert r.fetched[..|st.fetched|] == r.fetched[..|scanned.fetched|][..|st.fetched|];
          r
  }

  /** The loop over the anchors of the page at `base`, fetched at `depth`. */
  function CrawlHrefs(env: Env, base: string, hrefs: seq<string>, depth: int, st: State): (r: State)
    requires depth >= 0
    ensures Grows(st, r)
    ensures WordsWellFormed(st.words, env.minLen) ==> WordsWellFormed(r.words, env.minLen)
    decreases Measure(depth), 0, |hrefs|
  {
    if hrefs == [] then st
    else
      match ResolveOne(env.join, base, hrefs[0])
      case Some(next) =>
        var mid := Crawl(env, next, depth - 1, st);
        var r := CrawlHrefs(env, base, hrefs[1..], depth, mid);
        assert r.fetched[..|st.fetched|] == r.fetched[..|mid.fetched|][..|st.fetched|];
        r
      case None => CrawlHrefs(env, base, hrefs[1..], depth, st)
  }

  /** `crawl(start_url, max_depth)` on fresh accumulators. Every word it
      collects has the shape `IsWord`; a flag set before the start or a
      negative maximum depth leaves everything empty. */
  function Run(env: Env, seed: string, maxDepth: int): (r: State)
    ensures WordsWellFormed(r.words, env.minLen)
    ensures Stopped(env.stop, 0) || maxDepth < 0 ==> r.visited == {} && r.words == {} && r.fetched == []
  {
    Crawl(env, seed, maxDepth, Start)
  }

  /** `crawl_website`: the crawl's words, strictly sorted. */
  method CrawlWebsite(env: Env, seed: string, maxDepth: int) returns (words: seq<string>)
    ensures StrictlySorted(words)
    ensures NoDuplicates(words)
    ensures forall w :: w in words <==> w in Run(env, seed, maxDepth).words
    ensures forall w :: w in words ==> IsWord(w, env.minLen)
    ensures Stopped(env.stop, 0) || maxDepth < 0 ==> words == []
  {
    var st := Run(env, seed, maxDepth);
    words := SortSet(st.words);
    SortedHasNoDuplicates(words);
    if words != [] {
      assert words[0] in st.words;
    }
  }

  /** The links the crawler follows out of `u`: none unless the page is
      fetched and accepted. */
  function LinksOf(env: Env, u: string): seq<string>
  {
    match env.fetch(u)
    case Some(p) => if Accepted(p) then FollowedLinks(env.join, u, p.hrefs) else []
    case None => []
  }

  /** The words the page at `u` contributes when it is fetched. */
  function WordsAt(env: Env, u: string): set<string>
  {
    match env.fetch(u)
    case Some(p) => if Accepted(p) then PageWords(p.text, env.minLen) else {}
    case None => {}
  }

  /** The words of every page in a fetch log. */
  function TraceWords(env: Env, trace: seq<string>): set<string>
  {
    if trace == [] then {} else WordsAt(env, trace[0]) + TraceWords(env, trace[1..])
  }

  /** The URLs at most `n` followed links away from `from` (none when `n`
      is negative). */
  function Reach(env: Env, from: string, n: int): set<string>
    decreases Measure(n), 1
  {
    if n < 0 then {}
    else if n == 0 then {from}
    else {from} + ReachAll(env, LinksOf(env, from), n - 1)
  }

  /** The URLs at most `n` links away from one of `links`. */
  function ReachAll(env: Env, links: seq<string>, n: int): set<string>
    decreases Measure(n), 2, |links|
  {
    if links == [] then {} else Reach(env, links[0], n) + ReachAll(env, links[1..], n)
  }

}
