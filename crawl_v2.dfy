/** `crawl` of src/main_v2.rs:8-48: `visited` holds URLs as given, and the
    depth is a counter carried with each queued link. Every resolvable link
    that is not `tel:`/`mailto:` is queued, with no domain and no `visited`
    filter at discovery; the `visited` check on entry is the only guard.
    Each call is proved to do exactly what the reference traversal
    `DepthTraversal` says. */
module CrawlV2 {
  import opened Options
  import opened Text
  import opened SeqFacts
  import opened CommandLine
  import opened Web
  import opened DepthQueue
  import opened DepthTraversal

  /** src/main_v2.rs keeps every resolved link. */
  function KeepAll(): string -> bool {
    u => true
  }

  /** A link is queued exactly when some `href` of the page is not
      `tel:`/`mailto:` and resolves to it, visited or not, on any domain. */
  lemma QueuedIffResolves(lib: UrlLib, pageUrl: string, hrefs: seq<string>, depth: u32, q: Queued)
    ensures q in Discover(KeepAll(), lib, pageUrl, hrefs, depth) <==>
      && q.depth == depth
      && exists i :: 0 <= i < |hrefs| && Navigable(hrefs[i]) && lib.join(pageUrl, hrefs[i]) == Some(q.url)
  {
    DiscoverMembers(KeepAll(), lib, pageUrl, hrefs, depth, q);
  }

  class Crawler {
    const web: WebMap
    const lib: UrlLib
    const maxDepth: u32

    var visited: set<string>
    /** Every `crawl` call that fetched, with its URL and `current_depth`. */
    ghost var fetched: seq<Queued>

    /** The constants of the run, for the reference traversal. */
    function Config(): DepthConfig {
      DepthConfig(web, lib, maxDepth, v => KeepAll())
    }

    /** The fields a crawl changes, as a value of the reference traversal. */
    ghost function St(): DepthState
      reads this
    {
      DepthState(visited, fetched)
    }

    /** Every fetched URL is in `visited` and was fetched once. */
    ghost predicate Valid()
      reads this
    {
      && (forall i :: 0 <= i < |fetched| ==> fetched[i].url in visited)
      && (forall i, j :: 0 <= i < j < |fetched| ==> fetched[i].url != fetched[j].url)
    }

    constructor (web: WebMap, lib: UrlLib, maxDepth: u32)
      ensures this.web == web && this.lib == lib && this.maxDepth == maxDepth
      ensures visited == {} && fetched == []
      ensures Valid()
    {
      this.web, this.lib, this.maxDepth := web, lib, maxDepth;
      visited, fetched := {}, [];
    }

    /** `crawl(url, visited, depth, current_depth)`. A visited URL
        is a no-op; otherwise it is added and fetched at `currentDepth`, a
        missing page aborts, a 404 ends the branch, and each queued link
        whose depth is within `maxDepth` is crawled in queue order. Hence
        every fetch below this one is within `maxDepth`, and, while the
        counter cannot wrap, deeper than this one. */
    method Crawl(url: string, currentDepth: u32) returns (r: Outcome)
      requires Valid()
      modifies this
      decreases web.Keys - visited, 0
      ensures Valid()
      ensures old(visited) <= visited && url in visited
      ensures old(fetched) <= fetched
      ensures forall i :: |old(fetched)| <= i < |fetched| ==> fetched[i].url !in old(visited)
      ensures DepthsWithin(fetched, |old(fetched)| + 1, maxDepth)
      ensures currentDepth < U32Limit - 1 && maxDepth < U32Limit - 1 ==>
        DepthsAbove(fetched, |old(fetched)| + 1, currentDepth)
      ensures |fetched| > |old(fetched)| ==> fetched[|old(fetched)|] == Queued(url, currentDepth)
      ensures url in old(visited) ==> r == Done && visited == old(visited) && fetched == old(fetched)
      ensures url !in old(visited) ==> |fetched| > |old(fetched)| && fetched[|old(fetched)|] == Queued(url, currentDepth)
      ensures url !in old(visited) && url !in web ==>
        r == Abort && visited == old(visited) + {url} && fetched == old(fetched) + [Queued(url, currentDepth)]
      ensures url !in old(visited) && url in web && web[url].status == NotFound ==>
        r == Done && visited == old(visited) + {url} && fetched == old(fetched) + [Queued(url, currentDepth)]
      ensures url !in old(visited) && url in web && web[url].status != NotFound && r == Done ==>
        forall q :: q in Discover(KeepAll(), lib, url, web[url].hrefs, U32Succ(currentDepth)) && q.depth <= maxDepth ==> q.url in visited
      ensures DepthStep(St(), r) == CrawlAt(Config(), old(St()), url, currentDepth)
    {
      if url in visited {
        return Done;
      }
      visited := visited + {url};

      fetched := fetched + [Queued(url, currentDepth)];
      if url !in web {
        return Abort;
      }
      var page := web[url];
      if page.status == NotFound {
        return Done;
      }

      r := Expand(url, page.hrefs, currentDepth);
    }

    /** The rest of `crawl` once a page has been fetched and is not a 404
        (src/main_v2.rs:24-47): the links are discovered one level below the
        page and the queue is drained, exactly as `ExpandAt` of the
        reference traversal says.
        Every fetch it makes is within `maxDepth` and, while the counter
        cannot wrap, deeper than `currentDepth`. */
    method Expand(pageUrl: string, hrefs: seq<string>, currentDepth: u32) returns (r: Outcome)
      requires Valid()
      modifies this
      decreases web.Keys - visited, 2
      ensures Valid()
      ensures old(visited) <= visited
      ensures old(fetched) <= fetched
      ensures forall i :: |old(fetched)| <= i < |fetched| ==> fetched[i].url !in old(visited)
      ensures DepthsWithin(fetched, |old(fetched)|, maxDepth)
      ensures currentDepth < U32Limit - 1 && maxDepth < U32Limit - 1 ==>
        DepthsAbove(fetched, |old(fetched)|, currentDepth)
      ensures r == Done ==>
        forall q :: q in Discover(KeepAll(), lib, pageUrl, hrefs, U32Succ(currentDepth)) && q.depth <= maxDepth ==> q.url in visited
      ensures DepthStep(St(), r) == ExpandAt(Config(), old(St()), pageUrl, hrefs, currentDepth)
    {
      var queue := ScanLinks(pageUrl, hrefs, currentDepth);
      forall q | q in queue ensures q.depth == U32Succ(currentDepth) {
        DiscoverMembers(KeepAll(), lib, pageUrl, hrefs, U32Succ(currentDepth), q);
      }
      r := Drain(queue, currentDepth);
    }

    /** The `while let` loop of src/main_v2.rs:40-45: the queue is popped from
        the front, an entry deeper than `maxDepth` is skipped, any other is
        crawled to the end of its subtree before the next, and the first
        abort ends the loop. Every entry is one level below the page. */
    method Drain(queue: seq<Queued>, currentDepth: u32) returns (r: Outcome)
      requires Valid()
      requires forall q :: q in queue ==> q.depth == U32Succ(currentDepth)
      modifies this
      decreases web.Keys - visited, 1
      ensures Valid()
      ensures old(visited) <= visited
      ensures old(fetched) <= fetched
      ensures forall i :: |old(fetched)| <= i < |fetched| ==> fetched[i].url !in old(visited)
      ensures DepthsWithin(fetched, |old(fetched)|, maxDepth)
      ensures currentDepth < U32Limit - 1 && maxDepth < U32Limit - 1 ==>
        DepthsAbove(fetched, |old(fetched)|, currentDepth)
      ensures r == Done ==> forall q :: q in queue && q.depth <= maxDepth ==> q.url in visited
      ensures DepthStep(St(), r) == DrainAt(Config(), old(St()), queue)
    {
      var pending := queue;

      while pending != []
        invariant Valid()
        invariant old(visited) <= visited
        invariant DrainAt(Config(), St(), pending) == DrainAt(Config(), old(St()), queue)
        decreases |pending|
      {
        var next := pending[0];
        ghost var state, rest := St(), pending[1..];
        assert pending == [next] + rest;
        pending := pending[1..];
        if next.depth <= maxDepth {
          r := Crawl(next.url, next.depth);
          DrainAtPop(Config(), state, next, rest, DepthStep(St(), r));
          if r == Abort {
            DrainAtAdds(Config(), old(St()), queue, currentDepth);
            return;
          }
        } else {
          DrainAtSkip(Config(), state, next, rest);
        }
      }
      r := Done;
      DrainAtAdds(Config(), old(St()), queue, currentDepth);
    }

    /** The link loop of src/main_v2.rs:28-38: the queue is the `Discover`
        of the page's `href`s with no filter beyond the scheme and
        resolution, every entry one level below the page. */
    method ScanLinks(pageUrl: string, hrefs: seq<string>, currentDepth: u32) returns (queue: seq<Queued>)
      ensures queue == Discover(KeepAll(), lib, pageUrl, hrefs, U32Succ(currentDepth))
    {
      var keep := KeepAll();
      queue := [];
      var i := 0;
      while i < |hrefs|
        invariant 0 <= i <= |hrefs|
        invariant queue == Discover(keep, lib, pageUrl, hrefs[..i], U32Succ(currentDepth))
      {
        var href := hrefs[i];
        if !StartsWith(href, "tel:") && !StartsWith(href, "mailto:") {
          var joined := lib.join(pageUrl, href);
          if joined.Some? {
            queue := queue + [Queued(joined.value, U32Succ(currentDepth))];
          }
        }
        TakeSnoc(hrefs, i);
        i := i + 1;
      }
      TakeAll(hrefs);
    }
  }

  /** `main` of src/main_v2.rs: the start URL and the positional depth from
      the arguments, and the seed crawled at depth 1. */
  method Run(args: seq<string>, web: WebMap, lib: UrlLib) returns (crawler: Crawler, r: Outcome)
    ensures fresh(crawler) && crawler.Valid()
    ensures crawler.maxDepth == PositionalDepth(args)
    ensures |crawler.fetched| >= 1 && crawler.fetched[0] == Queued(StartUrl(args), 1)
    ensures DepthsWithin(crawler.fetched, 1, crawler.maxDepth)
    ensures crawler.maxDepth < U32Limit - 1 ==> DepthsAbove(crawler.fetched, 1, 1)
    ensures DepthStep(crawler.St(), r) == CrawlAt(crawler.Config(), DepthState({}, []), StartUrl(args), 1)
    ensures AllFoundAt(crawler.Config(), KeepAll(), crawler.fetched, 1)
  {
    var startUrl := StartUrl(args);
    var depth := PositionalDepth(args);
    crawler := new Crawler(web, lib, depth);
    r := crawler.Crawl(startUrl, 1);
    DepthCrawlFollowsLinks(crawler.Config(), KeepAll(), startUrl, 1);
  }
}
