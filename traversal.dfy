/** The whole traversal of the crawlers of src/main_v6.rs, src/main.rs and
    src/main_v5.rs as a reference definition on values: `crawl` enters a URL
    under its key, fetches it, and, for a page that is neither missing nor a
    404, scans it and then crawls the queue FIFO, each link to the end of its
    own subtree before the next, the first abort ending everything. The
    crawler classes are proved to compute exactly this; the lemmas here say
    which pages it can reach. */
module Traversal {
  import opened Options
  import opened Text
  import opened UrlDepth
  import opened Web
  import opened LinkFilter

  /** What a crawl changes: the `visited` keys, the pattern counters, and the
      log of every URL handed to `reqwest::get`, in order. */
  datatype CrawlState = CrawlState(visited: set<string>, limit: map<string, nat>, fetched: seq<string>)

  /** The state a call leaves behind and how it ended. */
  datatype Step = Step(state: CrawlState, outcome: Outcome)

  /** The start of a run: nothing visited, no counters, nothing fetched. */
  function Initial(): CrawlState {
    CrawlState({}, map[], [])
  }

  /** The keys of all pages the web holds; `visited` grows towards it. */
  ghost function Universe(policy: FilterPolicy, web: WebMap): set<string> {
    set u | u in web :: policy.key(u)
  }

  /** `crawl(url)` from state `s`: the fragment-free URL is the page, its key
      the `visited` entry; a known key returns at once, otherwise the key is
      entered and the page fetched; a missing page aborts, a 404 ends the
      branch, and any other page is expanded. */
  ghost function CrawlSpec(policy: FilterPolicy, web: WebMap, s: CrawlState, url: string): (res: Step)
    decreases Universe(policy, web) - s.visited, 0, 0
    ensures s.visited <= res.state.visited && s.fetched <= res.state.fetched
  {
    var page := StripFragment(url);
    var key := policy.key(page);
    if key in s.visited then Step(s, Done)
    else
      var entered := CrawlState(s.visited + {key}, s.limit, s.fetched + [page]);
      if page !in web then Step(entered, Abort)
      else if web[page].status == NotFound then Step(entered, Done)
      else
        assert key in Universe(policy, web);
        ExpandSpec(policy, web, entered, page, web[page].hrefs)
  }

  /** A fetched page: its `href`s are scanned into a queue and counters, and
      the queue is drained. */
  ghost function ExpandSpec(policy: FilterPolicy, web: WebMap, s: CrawlState, pageUrl: string, hrefs: seq<string>): (res: Step)
    decreases Universe(policy, web) - s.visited, 2, 0
    ensures s.visited <= res.state.visited && s.fetched <= res.state.fetched
  {
    var scanned := Scan(policy, s.visited, pageUrl, s.limit, hrefs);
    DrainSpec(policy, web, CrawlState(s.visited, scanned.limit, s.fetched), scanned.queue)
  }

  /** `while let Some(next) = queue.pop_front()`: the head is crawled to the
      end of its subtree before the rest of the queue, and an abort ends
      the loop. */
  ghost function DrainSpec(policy: FilterPolicy, web: WebMap, s: CrawlState, queue: seq<string>): (res: Step)
    decreases Universe(policy, web) - s.visited, 1, |queue|
    ensures s.visited <= res.state.visited && s.fetched <= res.state.fetched
  {
    if queue == [] then Step(s, Done)
    else
      var first := CrawlSpec(policy, web, s, queue[0]);
      if first.outcome == Abort then first
      else DrainSpec(policy, web, first.state, queue[1..])
  }

  /** `link` is where an `href` of a page scanned before entry `n` of `log`
      leads: not `tel:`/`mailto:`, joined to that page, fragment dropped, on
      the base domain, and within the depth limit. */
  ghost predicate LinkedFrom(policy: FilterPolicy, web: WebMap, log: seq<string>, n: nat, link: string) {
    exists j, h :: 0 <= j < n && j < |log| && Scanned(web, log[j]) && h in web[log[j]].hrefs
      && Resolve(policy, log[j], h) == Some(link)
      && policy.lib.domain(link) == policy.baseDomain
      && WithinDepth(policy.key(link), policy.maxDepth)
  }

  /** Every entry of `log` from `from` on is the fragment-free form of a link
      found on a page fetched before it. */
  ghost predicate AllFound(policy: FilterPolicy, web: WebMap, log: seq<string>, from: nat) {
    forall i :: from <= i < |log| ==>
      exists link :: log[i] == StripFragment(link) && LinkedFrom(policy, web, log, i, link)
  }

  lemma LinkedFromGrows(policy: FilterPolicy, web: WebMap, log: seq<string>, log': seq<string>, n: nat, n': nat, link: string)
    requires log <= log' && n <= n' && LinkedFrom(policy, web, log, n, link)
    ensures LinkedFrom(policy, web, log', n', link)
  {
    var j, h :| 0 <= j < n && j < |log| && Scanned(web, log[j]) && h in web[log[j]].hrefs
      && Resolve(policy, log[j], h) == Some(link)
      && policy.lib.domain(link) == policy.baseDomain
      && WithinDepth(policy.key(link), policy.maxDepth);
    assert log'[j] == log[j];
  }

  /** Appending an entry found on an earlier page keeps every entry found. */
  lemma AllFoundSnoc(policy: FilterPolicy, web: WebMap, log: seq<string>, link: string, from: nat)
    requires AllFound(policy, web, log, from)
    requires from <= |log| ==> LinkedFrom(policy, web, log, |log|, link)
    ensures AllFound(policy, web, log + [StripFragment(link)], from)
  {
    var log' := log + [StripFragment(link)];
    forall i | from <= i < |log'|
      ensures exists l :: log'[i] == StripFragment(l) && LinkedFrom(policy, web, log', i, l)
    {
      if i < |log| {
        var l :| log[i] == StripFragment(l) && LinkedFrom(policy, web, log, i, l);
        LinkedFromGrows(policy, web, log, log', i, i, l);
        assert log'[i] == log[i];
      } else {
        LinkedFromGrows(policy, web, log, log', |log|, i, link);
        assert log'[i] == StripFragment(link);
      }
    }
  }

  /** A crawl whose URL, if it is not the seed, was found on a fetched page
      keeps every fetch found. */
  lemma {:induction false} CrawlFound(policy: FilterPolicy, web: WebMap, s: CrawlState, url: string, from: nat)
    requires AllFound(policy, web, s.fetched, from) && from <= |s.fetched| + 1
    requires from <= |s.fetched| ==> LinkedFrom(policy, web, s.fetched, |s.fetched|, url)
    ensures AllFound(policy, web, CrawlSpec(policy, web, s, url).state.fetched, from)
    decreases Universe(policy, web) - s.visited, 0, 0
  {
    var page := StripFragment(url);
    var key := policy.key(page);
    if key !in s.visited {
      var entered := CrawlState(s.visited + {key}, s.limit, s.fetched + [page]);
      AllFoundSnoc(policy, web, s.fetched, url, from);
      if Scanned(web, page) {
        assert key in Universe(policy, web);
        assert entered.fetched[|s.fetched|] == page;
        ExpandFound(policy, web, entered, page, from);
      }
    }
  }

  /** Expanding a fetched page keeps every fetch found: each queued link is
      where one of the page's `href`s leads. */
  lemma {:induction false} ExpandFound(policy: FilterPolicy, web: WebMap, s: CrawlState, pageUrl: string, from: nat)
    requires AllFound(policy, web, s.fetched, from) && from <= |s.fetched|
    requires Scanned(web, pageUrl) && pageUrl in s.fetched
    ensures AllFound(policy, web, ExpandSpec(policy, web, s, pageUrl, web[pageUrl].hrefs).state.fetched, from)
    decreases Universe(policy, web) - s.visited, 2, 0
  {
    var hrefs := web[pageUrl].hrefs;
    var scanned := Scan(policy, s.visited, pageUrl, s.limit, hrefs);
    var j :| 0 <= j < |s.fetched| && s.fetched[j] == pageUrl;
    ScanQueuesOnlyFilteredLinks(policy, s.visited, pageUrl, s.limit, hrefs);
    forall link | link in scanned.queue
      ensures LinkedFrom(policy, web, s.fetched, |s.fetched|, link)
    {
      var i :| 0 <= i < |scanned.queue| && scanned.queue[i] == link;
      var k :| 0 <= k < |hrefs| && Navigable(hrefs[k]) && Resolve(policy, pageUrl, hrefs[k]) == Some(link);
      assert Resolve(policy, s.fetched[j], hrefs[k]) == Some(link);
    }
    DrainFound(policy, web, CrawlState(s.visited, scanned.limit, s.fetched), scanned.queue, from);
  }

  /** Draining a queue of found links keeps every fetch found. */
  lemma {:induction false} DrainFound(policy: FilterPolicy, web: WebMap, s: CrawlState, queue: seq<string>, from: nat)
    requires AllFound(policy, web, s.fetched, from) && from <= |s.fetched|
    requires forall link :: link in queue ==> LinkedFrom(policy, web, s.fetched, |s.fetched|, link)
    ensures AllFound(policy, web, DrainSpec(policy, web, s, queue).state.fetched, from)
    decreases Universe(policy, web) - s.visited, 1, |queue|
  {
    if queue != [] {
      var first := CrawlSpec(policy, web, s, queue[0]);
      CrawlFound(policy, web, s, queue[0], from);
      if first.outcome != Abort {
        forall link | link in queue[1..]
          ensures LinkedFrom(policy, web, first.state.fetched, |first.state.fetched|, link)
        {
          LinkedFromGrows(policy, web, s.fetched, first.state.fetched, |s.fetched|, |first.state.fetched|, link);
        }
        DrainFound(policy, web, first.state, queue[1..], from);
      }
    }
  }

  /** A run from the start URL fetches the seed first and afterwards only
      fragment-free links found on pages it fetched earlier, each on the
      base domain and within the depth limit. */
  lemma CrawlFollowsLinks(policy: FilterPolicy, web: WebMap, url: string)
    ensures var log := CrawlSpec(policy, web, Initial(), url).state.fetched;
      && |log| >= 1 && log[0] == StripFragment(url)
      && AllFound(policy, web, log, 1)
  {
    CrawlFound(policy, web, Initial(), url, 1);
  }

  /** FIFO, depth-first: while the queue is not empty, the next page fetched
      is its head, unless the head's key is already visited. */
  lemma DrainFetchesHeadFirst(policy: FilterPolicy, web: WebMap, s: CrawlState, queue: seq<string>)
    requires queue != [] && policy.key(StripFragment(queue[0])) !in s.visited
    ensures var log := DrainSpec(policy, web, s, queue).state.fetched;
      |log| > |s.fetched| && log[|s.fetched|] == StripFragment(queue[0])
  {
    var first := CrawlSpec(policy, web, s, queue[0]);
    assert first.state.fetched[|s.fetched|] == StripFragment(queue[0]);
  }
}
