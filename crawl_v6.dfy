/** `crawl` of src/main_v6.rs:11-63. The `visited` set and the `pattern_limit`
    map that the Rust code passes by `&mut` are fields of a `Crawler`; the
    other arguments are constants of it. A ghost log records every fetch, in
    order, so that "no page is fetched twice" can be stated and each call
    is proved to do exactly what the reference traversal `Traversal` says. */
module CrawlV6 {
  import opened Options
  import opened Text
  import opened SeqFacts
  import opened Normalize
  import opened Patterns
  import opened CommandLine
  import opened UrlDepth
  import opened Web
  import opened LinkFilter
  import opened Traversal

  class Crawler {
    const web: WebMap
    const lib: UrlLib
    const baseDomain: Option<string>
    const maxDepth: u32
    const patterns: seq<string>
    const userRegex: (string, string) -> bool

    var visited: set<string>
    var patternLimit: map<string, nat>
    /** Every URL handed to `reqwest::get`, in order. */
    ghost var fetched: seq<string>

    function Policy(): FilterPolicy {
      NormalizedPolicy(lib, baseDomain, maxDepth, patterns, userRegex)
    }

    /** The fields a crawl changes, as a value of the reference traversal. */
    ghost function St(): CrawlState
      reads this
    {
      CrawlState(visited, patternLimit, fetched)
    }

    /** No counter exceeds the cap, and no page was fetched twice under the
        same key, each fetched key being in `visited`. */
    ghost predicate Valid()
      reads this
    {
      && CapRespected(patternLimit)
      && (forall i :: 0 <= i < |fetched| ==> NormalizeUrl(fetched[i]) in visited)
      && (forall i, j :: 0 <= i < j < |fetched| ==> NormalizeUrl(fetched[i]) != NormalizeUrl(fetched[j]))
    }

    constructor (web: WebMap, lib: UrlLib, baseDomain: Option<string>, maxDepth: u32,
                 patterns: seq<string>, userRegex: (string, string) -> bool)
      ensures this.web == web && this.lib == lib && this.baseDomain == baseDomain
      ensures this.maxDepth == maxDepth && this.patterns == patterns && this.userRegex == userRegex
      ensures visited == {} && patternLimit == map[] && fetched == []
      ensures Valid()
    {
      this.web, this.lib, this.baseDomain := web, lib, baseDomain;
      this.maxDepth, this.patterns, this.userRegex := maxDepth, patterns, userRegex;
      visited, patternLimit, fetched := {}, map[], [];
    }

    /** `crawl(url, ...)`: a URL whose key is already visited is a no-op;
        otherwise its key is added, the page is fetched (a URL missing from
        the web is a transport error that aborts), a 404 page ends the branch,
        and the links the filter admits are crawled one after another, in
        queue order, each to the end of its own subtree. */
    method Crawl(url: string) returns (r: Outcome)
      requires Valid()
      modifies this
      decreases Universe(Policy(), web) - visited, 0
      ensures Valid()
      ensures old(visited) <= visited && EntryKey(url) in visited
      ensures Grows(old(patternLimit), patternLimit)
      ensures old(fetched) <= fetched
      ensures forall i :: |old(fetched)| <= i < |fetched| ==> NormalizeUrl(fetched[i]) !in old(visited)
      ensures EntryKey(url) in old(visited) ==>
        r == Done && visited == old(visited) && patternLimit == old(patternLimit) && fetched == old(fetched)
      ensures EntryKey(url) !in old(visited) ==>
        |fetched| > |old(fetched)| && fetched[|old(fetched)|] == StripFragment(url)
      ensures EntryKey(url) !in old(visited) && StripFragment(url) !in web ==>
        && r == Abort && visited == old(visited) + {EntryKey(url)}
        && patternLimit == old(patternLimit) && fetched == old(fetched) + [StripFragment(url)]
      ensures EntryKey(url) !in old(visited) && StripFragment(url) in web && web[StripFragment(url)].status == NotFound ==>
        && r == Done && visited == old(visited) + {EntryKey(url)}
        && patternLimit == old(patternLimit) && fetched == old(fetched) + [StripFragment(url)]
      ensures EntryKey(url) !in old(visited) && StripFragment(url) in web && web[StripFragment(url)].status != NotFound && r == Done ==>
        var page := web[StripFragment(url)];
        var queued := Scan(Policy(), old(visited) + {EntryKey(url)}, StripFragment(url), old(patternLimit), page.hrefs).queue;
        forall link :: link in queued ==> EntryKey(link) in visited
      ensures Step(St(), r) == CrawlSpec(Policy(), web, old(St()), url)
    {
      var urlWithoutHash := StripFragment(url);
      var normalizedUrl := NormalizeUrl(urlWithoutHash);
      if normalizedUrl in visited {
        return Done;
      }
      visited := visited + {normalizedUrl};

      fetched := fetched + [urlWithoutHash];
      if urlWithoutHash !in web {
        return Abort;
      }
      var page := web[urlWithoutHash];
      if page.status == NotFound {
        return Done;
      }
      assert normalizedUrl in Universe(Policy(), web);
      r := Expand(urlWithoutHash, page.hrefs);
    }

    /** The rest of `crawl` once a page has been fetched and is not a 404
        (src/main_v6.rs:28-62): the admitted links are crawled one after
        another in queue order, each to the end of its own subtree, and the
        first abort ends the loop. */
    method Expand(pageUrl: string, hrefs: seq<string>) returns (r: Outcome)
      requires Valid()
      modifies this
      decreases Universe(Policy(), web) - visited, 1
      ensures Valid()
      ensures old(visited) <= visited
      ensures Grows(old(patternLimit), patternLimit)
      ensures old(fetched) <= fetched
      ensures forall i :: |old(fetched)| <= i < |fetched| ==> NormalizeUrl(fetched[i]) !in old(visited)
      ensures r == Done ==>
        forall link :: link in Scan(Policy(), old(visited), pageUrl, old(patternLimit), hrefs).queue ==> EntryKey(link) in visited
      ensures Step(St(), r) == ExpandSpec(Policy(), web, old(St()), pageUrl, hrefs)
    {
      var queue := ScanLinks(pageUrl, hrefs);
      ghost var crawled: seq<string> := [];

      while queue != []
        invariant Valid()
        invariant old(visited) <= visited
        invariant Grows(old(patternLimit), patternLimit)
        invariant old(fetched) <= fetched
        invariant forall i :: |old(fetched)| <= i < |fetched| ==> NormalizeUrl(fetched[i]) !in old(visited)
        invariant crawled + queue == Scan(Policy(), old(visited), pageUrl, old(patternLimit), hrefs).queue
        invariant forall link :: link in crawled ==> EntryKey(link) in visited
        invariant DrainSpec(Policy(), web, St(), queue) == ExpandSpec(Policy(), web, old(St()), pageUrl, hrefs)
        decreases |queue|
      {
        var nextUrl := queue[0];
        PopFront(crawled, queue);
        ghost var before, rest := St(), queue[1..];
        crawled, queue := crawled + [nextUrl], queue[1..];
        r := Crawl(nextUrl);
        assert DrainSpec(Policy(), web, before, [nextUrl] + rest)
          == if r == Abort then Step(St(), r) else DrainSpec(Policy(), web, St(), rest);
        if r == Abort {
          return;
        }
      }
      r := Done;
    }

    /** The loop over the page's `href`s that fills the local queue and bumps
        the counters: exactly the `Scan` of the link filter. */
    method ScanLinks(pageUrl: string, hrefs: seq<string>) returns (queue: seq<string>)
      requires Valid()
      modifies this
      ensures Valid()
      ensures visited == old(visited) && fetched == old(fetched)
      ensures Grows(old(patternLimit), patternLimit)
      ensures ScanState(queue, patternLimit) == Scan(Policy(), visited, pageUrl, old(patternLimit), hrefs)
    {
      queue := [];
      var i := 0;
      while i < |hrefs|
        invariant 0 <= i <= |hrefs|
        invariant visited == old(visited) && fetched == old(fetched)
        invariant ScanState(queue, patternLimit) == Scan(Policy(), visited, pageUrl, old(patternLimit), hrefs[..i])
      {
        queue, patternLimit := ConsiderLink(pageUrl, hrefs[i], queue, patternLimit);
        ScanSnoc(Policy(), visited, pageUrl, old(patternLimit), hrefs[..i], hrefs[i]);
        TakeSnoc(hrefs, i);
        i := i + 1;
      }
      TakeAll(hrefs);
      ScanKeepsCap(Policy(), visited, pageUrl, old(patternLimit), hrefs);
    }

    /** The body of that loop for one `href`: exactly one `ScanStep`. The
        filters come first, then the cap check and the increment. */
    method ConsiderLink(pageUrl: string, href: string, queue: seq<string>, limit: map<string, nat>)
      returns (queue': seq<string>, limit': map<string, nat>)
      ensures ScanState(queue', limit') == ScanStep(Policy(), visited, pageUrl, ScanState(queue, limit), href)
    {
      queue', limit' := queue, limit;
      var link := FilterLink(pageUrl, href);
      if link.Some? {
        var urlStr := link.value;
        NormalizedPolicyFacts(lib, baseDomain, maxDepth, patterns, userRegex, urlStr);
        var pattern := UrlPattern(NormalizeUrl(urlStr), patterns, userRegex);
        var count := Count(limit', pattern);
        if count < PatternCap {
          limit' := limit'[pattern := count + 1];
          queue' := queue' + [urlStr];
          StepAdmits(Policy(), visited, pageUrl, ScanState(queue, limit), href, urlStr, pattern);
        } else {
          StepRejects(Policy(), visited, pageUrl, ScanState(queue, limit), href);
        }
      } else {
        StepRejects(Policy(), visited, pageUrl, ScanState(queue, limit), href);
      }
    }

    /** The filters of the loop body: `tel:`/`mailto:`, the join, the
        fragment, the domain, the depth and `visited`. */
    method FilterLink(pageUrl: string, href: string) returns (link: Option<string>)
      ensures link == Admitted(Policy(), visited, pageUrl, href)
    {
      link := None;
      if !StartsWith(href, "tel:") && !StartsWith(href, "mailto:") {
        var joined := lib.join(pageUrl, href);
        if joined.Some? {
          var urlStr := lib.clearFragment(joined.value);
          if lib.domain(urlStr) == baseDomain {
            NormalizedPolicyFacts(lib, baseDomain, maxDepth, patterns, userRegex, urlStr);
            var normalizedUrlStr := NormalizeUrl(urlStr);
            var depth := SlashDepth(normalizedUrlStr);
            if depth <= maxDepth && normalizedUrlStr !in visited {
              link := Some(urlStr);
            }
          }
        }
      }
    }
  }

  /** `main` of src/main_v6.rs:100-144 up to the crawl. The help flag alone
      prints the usage and stops. Otherwise the patterns come from the `-x=`
      file when one is named (`files` holds the lines of each readable file;
      `compiles` says which sources `Regex::new` accepts) and are the default
      `/\d+` otherwise; a file that cannot be read or holds a pattern that
      does not compile ends `main` with an error before anything is fetched.
      The crawl then starts from empty state at the start URL. */
  method Run(args: seq<string>, web: WebMap, lib: UrlLib, files: map<string, seq<string>>,
             compiles: string -> bool, userRegex: (string, string) -> bool) returns (crawler: Crawler?, r: Outcome)
    ensures ParseCommandLine(args) == Help ==> crawler == null && r == Done
    ensures ParseCommandLine(args).Run? && PatternFileFromArgs(args) == None ==>
      crawler != null && crawler.patterns == [DefaultPattern]
    ensures ParseCommandLine(args).Run? && crawler == null ==>
      && r == Abort && PatternFileFromArgs(args).Some?
      && var path := PatternFileFromArgs(args).value;
         path !in files || exists p :: p in UniqueLines(files[path]) && !compiles(p)
    ensures crawler != null && PatternFileFromArgs(args).Some? ==>
      && PatternFileFromArgs(args).value in files
      && forall p :: p in crawler.patterns <==> p in UniqueLines(files[PatternFileFromArgs(args).value])
    ensures crawler != null ==>
      && fresh(crawler) && crawler.Valid()
      && crawler.maxDepth == DepthFromArgs(args) && crawler.baseDomain == lib.domain(StartUrl(args))
      && EntryKey(StartUrl(args)) in crawler.visited
      && |crawler.fetched| >= 1 && crawler.fetched[0] == StripFragment(StartUrl(args))
    ensures crawler != null ==>
      && Step(crawler.St(), r) == CrawlSpec(crawler.Policy(), web, Initial(), StartUrl(args))
      && AllFound(crawler.Policy(), web, crawler.fetched, 1)
  {
    if ParseCommandLine(args) == Help {
      return null, Done;
    }
    var startUrl := StartUrl(args);
    var depth := DepthFromArgs(args);
    var patternFile := PatternFileFromArgs(args);
    var patterns: seq<string>;
    if patternFile.Some? {
      if patternFile.value !in files {
        return null, Abort;
      }
      var loaded := LoadUniquePatterns(files[patternFile.value], compiles);
      if loaded.Err? {
        return null, Abort;
      }
      patterns := loaded.value;
    } else {
      patterns := [DefaultPattern];
    }
    crawler := new Crawler(web, lib, lib.domain(startUrl), depth, patterns, userRegex);
    r := crawler.Crawl(startUrl);
    CrawlFollowsLinks(crawler.Policy(), web, startUrl);
  }
}
