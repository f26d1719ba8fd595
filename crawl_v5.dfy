/** `crawl` of src/main_v5.rs:9-58: the same traversal as src/main_v6.rs, but
    `visited` holds the fragment-stripped URL as it is, without normalization,
    the depth is counted on the serialized link, and links are bucketed by
    the `/\d+` -> `/{number}` rewrite. Each call is proved to do exactly
    what the reference traversal `Traversal` says under the raw policy. */
module CrawlV5 {
  import opened Options
  import opened Text
  import opened SeqFacts
  import opened Patterns
  import opened CommandLine
  import opened UrlDepth
  import opened Web
  import opened LinkFilter
  import opened Traversal

  class Crawler {
    const web: WebMap
    const lib: UrlLib
    const baseDomain: Option<string>
    const maxDepth: u32

    var visited: set<string>
    var patternLimit: map<string, nat>
    /** Every URL handed to `reqwest::get`, in order. */
    ghost var fetched: seq<string>

    function Policy(): FilterPolicy {
      RawPolicy(lib, baseDomain, maxDepth)
    }

    /** The fields a crawl changes, as a value of the reference traversal. */
    ghost function St(): CrawlState
      reads this
    {
      CrawlState(visited, patternLimit, fetched)
    }

    /** No counter exceeds the cap, and every fetched URL is in `visited`
        and was fetched once. */
    ghost predicate Valid()
      reads this
    {
      && CapRespected(patternLimit)
      && (forall i :: 0 <= i < |fetched| ==> fetched[i] in visited)
      && (forall i, j :: 0 <= i < j < |fetched| ==> fetched[i] != fetched[j])
    }

    constructor (web: WebMap, lib: UrlLib, baseDomain: Option<string>, maxDepth: u32)
      ensures this.web == web && this.lib == lib && this.baseDomain == baseDomain && this.maxDepth == maxDepth
      ensures visited == {} && patternLimit == map[] && fetched == []
      ensures Valid()
    {
      this.web, this.lib, this.baseDomain, this.maxDepth := web, lib, baseDomain, maxDepth;
      visited, patternLimit, fetched := {}, map[], [];
    }

    /** `crawl(url, ...)`: the fragment-stripped URL is the key; a visited
        key is a no-op, otherwise it is added and fetched, a missing page
        aborts, a 404 ends the branch, and the admitted links are crawled in
        queue order. */
    method Crawl(url: string) returns (r: Outcome)
      requires Valid()
      modifies this
      decreases web.Keys - visited, 0
      ensures Valid()
      ensures old(visited) <= visited && StripFragment(url) in visited
      ensures Grows(old(patternLimit), patternLimit)
      ensures old(fetched) <= fetched
      ensures forall i :: |old(fetched)| <= i < |fetched| ==> fetched[i] !in old(visited)
      ensures StripFragment(url) in old(visited) ==>
        r == Done && visited == old(visited) && patternLimit == old(patternLimit) && fetched == old(fetched)
      ensures StripFragment(url) !in old(visited) ==>
        |fetched| > |old(fetched)| && fetched[|old(fetched)|] == StripFragment(url)
      ensures StripFragment(url) !in old(visited) && StripFragment(url) !in web ==>
        && r == Abort && visited == old(visited) + {StripFragment(url)}
        && patternLimit == old(patternLimit) && fetched == old(fetched) + [StripFragment(url)]
      ensures StripFragment(url) !in old(visited) && StripFragment(url) in web && web[StripFragment(url)].status == NotFound ==>
        && r == Done && visited == old(visited) + {StripFragment(url)}
        && patternLimit == old(patternLimit) && fetched == old(fetched) + [StripFragment(url)]
      ensures StripFragment(url) !in old(visited) && StripFragment(url) in web && web[StripFragment(url)].status != NotFound && r == Done ==>
        var page := web[StripFragment(url)];
        var queued := Scan(Policy(), old(visited) + {StripFragment(url)}, StripFragment(url), old(patternLimit), page.hrefs).queue;
        forall link :: link in queued ==> StripFragment(link) in visited
      ensures Step(St(), r) == CrawlSpec(Policy(), web, old(St()), url)
    {
      var urlWithoutHash := StripFragment(url);
      if urlWithoutHash in visited {
        return Done;
      }
      visited := visited + {urlWithoutHash};

      fetched := fetched + [urlWithoutHash];
      if urlWithoutHash !in web {
        return Abort;
      }
      var page := web[urlWithoutHash];
      if page.status == NotFound {
        return Done;
      }

      r := Expand(urlWithoutHash, page.hrefs);
    }

    /** The rest of `crawl` once a page has been fetched and is not a 404
        (src/main_v5.rs:24-57): the admitted links are crawled one after
        another in queue order, each to the end of its own subtree, and the
        first abort ends the loop. */
    method Expand(pageUrl: string, hrefs: seq<string>) returns (r: Outcome)
      requires Valid()
      modifies this
      decreases web.Keys - visited, 1
      ensures Valid()
      ensures old(visited) <= visited
      ensures Grows(old(patternLimit), patternLimit)
      ensures old(fetched) <= fetched
      ensures forall i :: |old(fetched)| <= i < |fetched| ==> fetched[i] !in old(visited)
      ensures r == Done ==>
        forall link :: link in Scan(Policy(), old(visited), pageUrl, old(patternLimit), hrefs).queue ==> StripFragment(link) in visited
      ensures Step(St(), r) == ExpandSpec(Policy(), web, old(St()), pageUrl, hrefs)
    {
      var queue := ScanLinks(pageUrl, hrefs);
      ghost var crawled: seq<string> := [];

      while queue != []
        invariant Valid()
        invariant old(visited) <= visited
        invariant Grows(old(patternLimit), patternLimit)
        invariant old(fetched) <= fetched
        invariant forall i :: |old(fetched)| <= i < |fetched| ==> fetched[i] !in old(visited)
        invariant crawled + queue == Scan(Policy(), old(visited), pageUrl, old(patternLimit), hrefs).queue
        invariant forall link :: link in crawled ==> StripFragment(link) in visited
        invariant DrainSpec(Policy(), web, St(), queue) == ExpandSpec(Policy(), web, old(St()), pageUrl, hrefs)
        decreases |queue|
      {
        var nextUrl := queue[0];
        PopFront(crawled, queue);
        ghost var before, rest := St(), queue[1..];
        crawled, queue := crawled + [nextUrl], queue[1..];
        r := Crawl(nextUrl);
        assert DrainSpec(Policy(), web, before, [nextUrl] + rest)
          == if r == Abort then Step(St(), r) else DrainSpec(Policy(), web, St(), rest);
        if r == Abort {
          return;
        }
      }
      r := Done;
    }

    /** The link loop of src/main_v5.rs:28-50: exactly the `Scan` of the link
        filter under the raw policy. */
    method ScanLinks(pageUrl: string, hrefs: seq<string>) returns (queue: seq<string>)
      requires Valid()
      modifies this
      ensures Valid()
      ensures visited == old(visited) && fetched == old(fetched)
      ensures Grows(old(patternLimit), patternLimit)
      ensures ScanState(queue, patternLimit) == Scan(Policy(), visited, pageUrl, old(patternLimit), hrefs)
    {
      queue := [];
      var i := 0;
      while i < |hrefs|
        invariant 0 <= i <= |hrefs|
        invariant visited == old(visited) && fetched == old(fetched)
        invariant ScanState(queue, patternLimit) == Scan(Policy(), visited, pageUrl, old(patternLimit), hrefs[..i])
      {
        queue, patternLimit := ConsiderLink(pageUrl, hrefs[i], queue, patternLimit);
        ScanSnoc(Policy(), visited, pageUrl, old(patternLimit), hrefs[..i], hrefs[i]);
        TakeSnoc(hrefs, i);
        i := i + 1;
      }
      TakeAll(hrefs);
      ScanKeepsCap(Policy(), visited, pageUrl, old(patternLimit), hrefs);
    }

    /** The body of that loop for one `href`: exactly one `ScanStep`. The
        filters come first, then the cap check and the increment. */
    method ConsiderLink(pageUrl: string, href: string, queue: seq<string>, limit: map<string, nat>)
      returns (queue': seq<string>, limit': map<string, nat>)
      ensures ScanState(queue', limit') == ScanStep(Policy(), visited, pageUrl, ScanState(queue, limit), href)
    {
      queue', limit' := queue, limit;
      var link := FilterLink(pageUrl, href);
      if link.Some? {
        var urlStr := link.value;
        RawPolicyFacts(lib, baseDomain, maxDepth, urlStr);
        var pattern := RewriteNumbers(urlStr);
        var count := Count(limit', pattern);
        if count < PatternCap {
          limit' := limit'[pattern := count + 1];
          queue' := queue' + [urlStr];
          StepAdmits(Policy(), visited, pageUrl, ScanState(queue, limit), href, urlStr, pattern);
        } else {
          StepRejects(Policy(), visited, pageUrl, ScanState(queue, limit), href);
        }
      } else {
        StepRejects(Policy(), visited, pageUrl, ScanState(queue, limit), href);
      }
    }

    /** The filters of the loop body: `tel:`/`mailto:`, the join, the
        fragment, the domain, the depth and `visited`. */
    method FilterLink(pageUrl: string, href: string) returns (link: Option<string>)
      ensures link == Admitted(Policy(), visited, pageUrl, href)
    {
      link := None;
      if !StartsWith(href, "tel:") && !StartsWith(href, "mailto:") {
        var joined := lib.join(pageUrl, href);
        if joined.Some? {
          var urlStr := lib.clearFragment(joined.value);
          if lib.domain(urlStr) == baseDomain {
            RawPolicyFacts(lib, baseDomain, maxDepth, urlStr);
            var depth := SlashDepth(urlStr);
            if depth <= maxDepth && urlStr !in visited {
              link := Some(urlStr);
            }
          }
        }
      }
    }
  }

  /** `main` of src/main_v5.rs:66-99. The help flag alone prints the usage
      and stops before anything is fetched. Otherwise the start URL and the
      `-d=` depth come from the arguments, the base domain from the start
      URL, and the crawl starts from empty state. */
  method Run(args: seq<string>, web: WebMap, lib: UrlLib) returns (crawler: Crawler?, r: Outcome)
    ensures ParseCommandLine(args) == Help <==> crawler == null
    ensures crawler == null ==> r == Done
    ensures crawler != null ==>
      && fresh(crawler) && crawler.Valid()
      && crawler.maxDepth == DepthFromArgs(args) && crawler.baseDomain == lib.domain(StartUrl(args))
      && StripFragment(StartUrl(args)) in crawler.visited
      && |crawler.fetched| >= 1 && crawler.fetched[0] == StripFragment(StartUrl(args))
    ensures crawler != null ==>
      && Step(crawler.St(), r) == CrawlSpec(crawler.Policy(), web, Initial(), StartUrl(args))
      && AllFound(crawler.Policy(), web, crawler.fetched, 1)
  {
    if ParseCommandLine(args) == Help {
      return null, Done;
    }
    var startUrl := StartUrl(args);
    var depth := DepthFromArgs(args);
    crawler := new Crawler(web, lib, lib.domain(startUrl), depth);
    r := crawler.Crawl(startUrl);
    CrawlFollowsLinks(crawler.Policy(), web, startUrl);
  }
}
