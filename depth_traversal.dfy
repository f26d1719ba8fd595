/** The whole traversal of the crawlers that carry a depth counter
    (src/main_v4.rs, src/main_v2.rs) as a reference definition on values:
    `crawl(url, current_depth)` enters and fetches the URL, and for a page
    that is neither missing nor a 404 discovers its links one level deeper
    and crawls them FIFO, skipping those beyond the depth limit, each to the
    end of its own subtree before the next, the first abort ending
    everything. The variants differ only in the discovery filter, which
    may depend on `visited` at the time the page is scanned. */
module DepthTraversal {
  import opened Options
  import opened CommandLine
  import opened Web
  import opened DepthQueue

  /** The constants of a run: the web, the URL library, the `-d=` limit and
      the discovery filter as a function of `visited`. */
  datatype DepthConfig = DepthConfig(web: WebMap, lib: UrlLib, maxDepth: u32, keepFor: set<string> -> string -> bool)

  /** What a crawl changes: `visited` and the log of every fetch with the
      depth it was made at. */
  datatype DepthState = DepthState(visited: set<string>, fetched: seq<Queued>)

  /** The state a call leaves behind and how it ended. */
  datatype DepthStep = DepthStep(state: DepthState, outcome: Outcome)

  /** `crawl(url, ..., current_depth)` from state `s`. */
  ghost function CrawlAt(cfg: DepthConfig, s: DepthState, url: string, depth: u32): (res: DepthStep)
    decreases cfg.web.Keys - s.visited, 0, 0
    ensures s.visited <= res.state.visited && s.fetched <= res.state.fetched
  {
    if url in s.visited then DepthStep(s, Done)
    else
      var entered := DepthState(s.visited + {url}, s.fetched + [Queued(url, depth)]);
      if url !in cfg.web then DepthStep(entered, Abort)
      else if cfg.web[url].status == NotFound then DepthStep(entered, Done)
      else ExpandAt(cfg, entered, url, cfg.web[url].hrefs, depth)
  }

  /** A fetched page at `depth`: its links are discovered one level deeper
      under the filter for the current `visited`, and the queue drained. */
  ghost function ExpandAt(cfg: DepthConfig, s: DepthState, pageUrl: string, hrefs: seq<string>, depth: u32): (res: DepthStep)
    decreases cfg.web.Keys - s.visited, 2, 0
    ensures s.visited <= res.state.visited && s.fetched <= res.state.fetched
  {
    DrainAt(cfg, s, Discover(cfg.keepFor(s.visited), cfg.lib, pageUrl, hrefs, U32Succ(depth)))
  }

  /** `while let Some((next, d)) = queue.pop_front()`: an entry beyond the
      limit is skipped, any other is crawled before the rest of the queue,
      and an abort ends the loop. */
  ghost function DrainAt(cfg: DepthConfig, s: DepthState, queue: seq<Queued>): (res: DepthStep)
    decreases cfg.web.Keys - s.visited, 1, |queue|
    ensures s.visited <= res.state.visited && s.fetched <= res.state.fetched
  {
    if queue == [] then DepthStep(s, Done)
    else if queue[0].depth > cfg.maxDepth then DrainAt(cfg, s, queue[1..])
    else
      var first := CrawlAt(cfg, s, queue[0].url, queue[0].depth);
      if first.outcome == Abort then first
      else DrainAt(cfg, first.state, queue[1..])
  }

  /** One turn of the drain loop on an entry within the limit: the drain is
      the head's crawl when that aborts, and otherwise the drain of the rest
      from the state the crawl left. */
  lemma DrainAtPop(cfg: DepthConfig, s: DepthState, next: Queued, rest: seq<Queued>, after: DepthStep)
    requires next.depth <= cfg.maxDepth && after == CrawlAt(cfg, s, next.url, next.depth)
    ensures DrainAt(cfg, s, [next] + rest)
      == if after.outcome == Abort then after else DrainAt(cfg, after.state, rest)
  {
    assert ([next] + rest)[1..] == rest;
  }

  /** An entry beyond the limit is dropped without a fetch. */
  lemma DrainAtSkip(cfg: DepthConfig, s: DepthState, next: Queued, rest: seq<Queued>)
    requires next.depth > cfg.maxDepth
    ensures DrainAt(cfg, s, [next] + rest) == DrainAt(cfg, s, rest)
  {
    assert ([next] + rest)[1..] == rest;
  }

  /** What a call from state `s` appends to the log from `from` on: only
      URLs not visited before, each within the limit and, while the counter
      cannot wrap, deeper than `above`. */
  ghost predicate AddsWithin(cfg: DepthConfig, s: DepthState, log: seq<Queued>, from: nat, above: u32) {
    && (forall i :: |s.fetched| <= i < |log| ==> log[i].url !in s.visited)
    && DepthsWithin(log, from, cfg.maxDepth)
    && (above < U32Limit - 1 && cfg.maxDepth < U32Limit - 1 ==> DepthsAbove(log, from, above))
  }

  /** A crawl enters its URL; if the URL is new it is fetched first, at the
      depth given, and every later fetch below it is new, within the limit
      and deeper. */
  lemma {:induction false} CrawlAtAdds(cfg: DepthConfig, s: DepthState, url: string, depth: u32)
    ensures var res := CrawlAt(cfg, s, url, depth);
      && url in res.state.visited
      && (url !in s.visited ==> |res.state.fetched| > |s.fetched| && res.state.fetched[|s.fetched|] == Queued(url, depth))
      && (url in s.visited ==> res == DepthStep(s, Done))
      && AddsWithin(cfg, s, res.state.fetched, |s.fetched| + 1, depth)
    decreases cfg.web.Keys - s.visited, 0, 0
  {
    if url !in s.visited {
      var entered := DepthState(s.visited + {url}, s.fetched + [Queued(url, depth)]);
      if Scanned(cfg.web, url) {
        ExpandAtAdds(cfg, entered, url, cfg.web[url].hrefs, depth);
        var res := ExpandAt(cfg, entered, url, cfg.web[url].hrefs, depth);
        assert res.state.fetched[|s.fetched|] == entered.fetched[|s.fetched|];
      }
    }
  }

  /** Expanding a page at `depth`: every fetch is new, within the limit and
      deeper than the page, and a completed expansion has entered every
      discovered link within the limit. */
  lemma {:induction false} ExpandAtAdds(cfg: DepthConfig, s: DepthState, pageUrl: string, hrefs: seq<string>, depth: u32)
    ensures var res := ExpandAt(cfg, s, pageUrl, hrefs, depth);
      && AddsWithin(cfg, s, res.state.fetched, |s.fetched|, depth)
      && (res.outcome == Done ==>
            forall q :: q in Discover(cfg.keepFor(s.visited), cfg.lib, pageUrl, hrefs, U32Succ(depth)) && q.depth <= cfg.maxDepth ==>
              q.url in res.state.visited)
    decreases cfg.web.Keys - s.visited, 2, 0
  {
    var queue := Discover(cfg.keepFor(s.visited), cfg.lib, pageUrl, hrefs, U32Succ(depth));
    forall q | q in queue ensures q.depth == U32Succ(depth) {
      DiscoverMembers(cfg.keepFor(s.visited), cfg.lib, pageUrl, hrefs, U32Succ(depth), q);
    }
    DrainAtAdds(cfg, s, queue, depth);
  }

  /** Draining a queue one level below `depth`: every fetch is new, within
      the limit and deeper than `depth`, and a completed drain has entered
      every entry within the limit. */
  lemma {:induction false} DrainAtAdds(cfg: DepthConfig, s: DepthState, queue: seq<Queued>, depth: u32)
    requires forall q :: q in queue ==> q.depth == U32Succ(depth)
    ensures var res := DrainAt(cfg, s, queue);
      && AddsWithin(cfg, s, res.state.fetched, |s.fetched|, depth)
      && (res.outcome == Done ==> forall q :: q in queue && q.depth <= cfg.maxDepth ==> q.url in res.state.visited)
    decreases cfg.web.Keys - s.visited, 1, |queue|
  {
    if queue != [] {
      var next := queue[0];
      if next.depth > cfg.maxDepth {
        DrainAtAdds(cfg, s, queue[1..], depth);
      } else {
        var first := CrawlAt(cfg, s, next.url, next.depth);
        CrawlAtAdds(cfg, s, next.url, next.depth);
        var log := first.state.fetched;
        WithinHead(log, |s.fetched|, next, cfg.maxDepth);
        if depth < U32Limit - 1 && cfg.maxDepth < U32Limit - 1 {
          AboveHead(log, |s.fetched|, next, depth);
        }
        if first.outcome != Abort {
          DrainAtAdds(cfg, first.state, queue[1..], depth);
          var res := DrainAt(cfg, first.state, queue[1..]);
          WithinJoin(log, res.state.fetched, |s.fetched|, cfg.maxDepth);
          if depth < U32Limit - 1 && cfg.maxDepth < U32Limit - 1 {
            AboveJoin(log, res.state.fetched, |s.fetched|, depth);
          }
        }
      }
    }
  }

  /** `q` is a link of a page scanned before entry `n` of `log`: not
      `tel:`/`mailto:`, joined to that page, satisfying `inv`, one level
      below the page, and within the limit. */
  ghost predicate LinkedAt(cfg: DepthConfig, inv: string -> bool, log: seq<Queued>, n: nat, q: Queued) {
    exists j, h :: 0 <= j < n && j < |log| && Scanned(cfg.web, log[j].url) && h in cfg.web[log[j].url].hrefs
      && Target(cfg.lib, log[j].url, h) == Some(q.url) && inv(q.url)
      && q.depth == U32Succ(log[j].depth) && q.depth <= cfg.maxDepth
  }

  /** Every entry of `log` from `from` on is a link of a page fetched before
      it. */
  ghost predicate AllFoundAt(cfg: DepthConfig, inv: string -> bool, log: seq<Queued>, from: nat) {
    forall i :: from <= i < |log| ==> LinkedAt(cfg, inv, log, i, log[i])
  }

  /** Whatever the filter keeps satisfies `inv`. */
  ghost predicate KeepImplies(cfg: DepthConfig, inv: string -> bool) {
    forall v, u :: cfg.keepFor(v)(u) ==> inv(u)
  }

  lemma LinkedAtGrows(cfg: DepthConfig, inv: string -> bool, log: seq<Queued>, log': seq<Queued>, n: nat, n': nat, q: Queued)
    requires log <= log' && n <= n' && LinkedAt(cfg, inv, log, n, q)
    ensures LinkedAt(cfg, inv, log', n', q)
  {
    var j, h :| 0 <= j < n && j < |log| && Scanned(cfg.web, log[j].url) && h in cfg.web[log[j].url].hrefs
      && Target(cfg.lib, log[j].url, h) == Some(q.url) && inv(q.url)
      && q.depth == U32Succ(log[j].depth) && q.depth <= cfg.maxDepth;
    assert log'[j] == log[j];
  }

  lemma AllFoundAtSnoc(cfg: DepthConfig, inv: string -> bool, log: seq<Queued>, q: Queued, from: nat)
    requires AllFoundAt(cfg, inv, log, from)
    requires from <= |log| ==> LinkedAt(cfg, inv, log, |log|, q)
    ensures AllFoundAt(cfg, inv, log + [q], from)
  {
    var log' := log + [q];
    forall i | from <= i < |log'|
      ensures LinkedAt(cfg, inv, log', i, log'[i])
    {
      if i < |log| {
        LinkedAtGrows(cfg, inv, log, log', i, i, log[i]);
      } else {
        LinkedAtGrows(cfg, inv, log, log', |log|, i, q);
      }
    }
  }

  /** A crawl of a link found on a fetched page (or of the seed, when
      `from` is past the log) keeps every fetch found. */
  lemma {:induction false} CrawlAtFound(cfg: DepthConfig, inv: string -> bool, s: DepthState, url: string, depth: u32, from: nat)
    requires KeepImplies(cfg, inv)
    requires AllFoundAt(cfg, inv, s.fetched, from) && from <= |s.fetched| + 1
    requires from <= |s.fetched| ==> LinkedAt(cfg, inv, s.fetched, |s.fetched|, Queued(url, depth))
    ensures AllFoundAt(cfg, inv, CrawlAt(cfg, s, url, depth).state.fetched, from)
    decreases cfg.web.Keys - s.visited, 0, 0
  {
    if url !in s.visited {
      var entered := DepthState(s.visited + {url}, s.fetched + [Queued(url, depth)]);
      AllFoundAtSnoc(cfg, inv, s.fetched, Queued(url, depth), from);
      if Scanned(cfg.web, url) {
        ExpandAtFound(cfg, inv, entered, |s.fetched|, from);
      }
    }
  }

  /** Expanding the page fetched at entry `at` keeps every fetch found. */
  lemma {:induction false} ExpandAtFound(cfg: DepthConfig, inv: string -> bool, s: DepthState, at: nat, from: nat)
    requires KeepImplies(cfg, inv)
    requires AllFoundAt(cfg, inv, s.fetched, from) && from <= |s.fetched|
    requires at < |s.fetched| && Scanned(cfg.web, s.fetched[at].url)
    ensures var page := s.fetched[at];
      AllFoundAt(cfg, inv, ExpandAt(cfg, s, page.url, cfg.web[page.url].hrefs, page.depth).state.fetched, from)
    decreases cfg.web.Keys - s.visited, 2, 0
  {
    var page := s.fetched[at];
    var hrefs := cfg.web[page.url].hrefs;
    var keep := cfg.keepFor(s.visited);
    var queue := Discover(keep, cfg.lib, page.url, hrefs, U32Succ(page.depth));
    forall q | q in queue && q.depth <= cfg.maxDepth
      ensures LinkedAt(cfg, inv, s.fetched, |s.fetched|, q)
    {
      DiscoverMembers(keep, cfg.lib, page.url, hrefs, U32Succ(page.depth), q);
      var i :| 0 <= i < |hrefs| && Admits(keep, cfg.lib, page.url, hrefs[i]) && Target(cfg.lib, page.url, hrefs[i]).value == q.url;
      assert inv(q.url);
      assert hrefs[i] in cfg.web[s.fetched[at].url].hrefs;
    }
    DrainAtFound(cfg, inv, s, queue, from);
  }

  /** Draining a queue whose entries within the limit were all found keeps
      every fetch found. */
  lemma {:induction false} DrainAtFound(cfg: DepthConfig, inv: string -> bool, s: DepthState, queue: seq<Queued>, from: nat)
    requires KeepImplies(cfg, inv)
    requires AllFoundAt(cfg, inv, s.fetched, from) && from <= |s.fetched|
    requires forall q :: q in queue && q.depth <= cfg.maxDepth ==> LinkedAt(cfg, inv, s.fetched, |s.fetched|, q)
    ensures AllFoundAt(cfg, inv, DrainAt(cfg, s, queue).state.fetched, from)
    decreases cfg.web.Keys - s.visited, 1, |queue|
  {
    if queue != [] {
      if queue[0].depth > cfg.maxDepth {
        DrainAtFound(cfg, inv, s, queue[1..], from);
      } else {
        var first := CrawlAt(cfg, s, queue[0].url, queue[0].depth);
        CrawlAtFound(cfg, inv, s, queue[0].url, queue[0].depth, from);
        if first.outcome != Abort {
          forall q | q in queue[1..] && q.depth <= cfg.maxDepth
            ensures LinkedAt(cfg, inv, first.state.fetched, |first.state.fetched|, q)
          {
            LinkedAtGrows(cfg, inv, s.fetched, first.state.fetched, |s.fetched|, |first.state.fetched|, q);
          }
          DrainAtFound(cfg, inv, first.state, queue[1..], from);
        }
      }
    }
  }

  /** A run from the seed at `depth` fetches the seed first and afterwards
      only links found on pages fetched earlier, each satisfying whatever
      the filter guarantees, one level below its page and within the limit. */
  lemma DepthCrawlFollowsLinks(cfg: DepthConfig, inv: string -> bool, url: string, depth: u32)
    requires KeepImplies(cfg, inv)
    ensures var log := CrawlAt(cfg, DepthState({}, []), url, depth).state.fetched;
      && |log| >= 1 && log[0] == Queued(url, depth)
      && AllFoundAt(cfg, inv, log, 1)
  {
    CrawlAtFound(cfg, inv, DepthState({}, []), url, depth, 1);
  }

  /** FIFO, depth-first: the next page fetched is the head of the queue when
      it is within the limit and not yet visited. */
  lemma DrainAtFetchesHeadFirst(cfg: DepthConfig, s: DepthState, queue: seq<Queued>)
    requires queue != [] && queue[0].depth <= cfg.maxDepth && queue[0].url !in s.visited
    ensures var log := DrainAt(cfg, s, queue).state.fetched;
      |log| > |s.fetched| && log[|s.fetched|] == queue[0]
  {
    var first := CrawlAt(cfg, s, queue[0].url, queue[0].depth);
    assert first.state.fetched[|s.fetched|] == queue[0];
  }
}
