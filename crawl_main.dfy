/** `crawl` and `main` of src/main.rs: the v6 traversal plus one database row
    per fetched page. The SQLite table is the ghost log `records`; a row holds
    the fetched URL, the base URL's domain (empty when it has none) and the
    status, and is written before the 404 check. A second ghost log holds
    every URL requested, so that the crawl can be compared with the
    reference traversal `Traversal` and the rows with the requests. */
module CrawlMain {
  import opened Options
  import opened Text
  import opened SeqFacts
  import opened Normalize
  import opened Patterns
  import opened CommandLine
  import opened UrlDepth
  import opened Web
  import opened LinkFilter
  import opened Traversal

  /** A row of the `pages` table, without its id and timestamp. */
  datatype Record = Record(checkUrl: string, domain: string, status: nat)

  /** The rows a sequence of fetches writes: one per URL the web answers,
      none for a URL whose request fails. */
  function Rows(web: WebMap, domain: string, log: seq<string>): seq<Record> {
    if log == [] then []
    else
      var last := log[|log| - 1];
      Rows(web, domain, log[..|log| - 1]) + if last in web then [Record(last, domain, web[last].status)] else []
  }

  /** A fetch the web answers writes one row; a failed request writes none. */
  lemma RowsSnoc(web: WebMap, domain: string, log: seq<string>, url: string)
    ensures url in web ==> Rows(web, domain, log + [url]) == Rows(web, domain, log) + [Record(url, domain, web[url].status)]
    ensures url !in web ==> Rows(web, domain, log + [url]) == Rows(web, domain, log)
  {
    assert (log + [url])[..|log|] == log;
  }

  class Crawler {
    const web: WebMap
    const lib: UrlLib
    const baseDomain: Option<string>
    const maxDepth: u32
    const patterns: seq<string>
    const userRegex: (string, string) -> bool

    var visited: set<string>
    var patternLimit: map<string, nat>
    /** The rows inserted into `pages`, in order. */
    ghost var records: seq<Record>
    /** Every URL handed to `reqwest::get`, in order. */
    ghost var fetched: seq<string>

    function Policy(): FilterPolicy {
      NormalizedPolicy(lib, baseDomain, maxDepth, patterns, userRegex)
    }

    /** The fields a crawl changes, as a value of the reference traversal. */
    ghost function St(): CrawlState
      reads this
    {
      CrawlState(visited, patternLimit, fetched)
    }

    /** The counters respect the cap; each row is the web's answer for its
        URL, under the base domain, with its key in `visited`; no key has two
        rows; and the rows are those the fetches wrote. */
    ghost predicate Valid()
      reads this
    {
      && CapRespected(patternLimit)
      && (forall i :: 0 <= i < |records| ==>
            && records[i].checkUrl in web
            && records[i].status == web[records[i].checkUrl].status
            && records[i].domain == baseDomain.GetOr("")
            && NormalizeUrl(records[i].checkUrl) in visited)
      && (forall i, j :: 0 <= i < j < |records| ==>
            NormalizeUrl(records[i].checkUrl) != NormalizeUrl(records[j].checkUrl))
      && records == Rows(web, baseDomain.GetOr(""), fetched)
    }

    constructor (web: WebMap, lib: UrlLib, baseDomain: Option<string>, maxDepth: u32,
                 patterns: seq<string>, userRegex: (string, string) -> bool)
      ensures this.web == web && this.lib == lib && this.baseDomain == baseDomain
      ensures this.maxDepth == maxDepth && this.patterns == patterns && this.userRegex == userRegex
      ensures visited == {} && patternLimit == map[] && records == [] && fetched == []
      ensures Valid()
    {
      this.web, this.lib, this.baseDomain := web, lib, baseDomain;
      this.maxDepth, this.patterns, this.userRegex := maxDepth, patterns, userRegex;
      visited, patternLimit, records, fetched := {}, map[], [], [];
    }

    /** `crawl(url, ...)`. Every key it adds to `visited` is followed by one
        fetch, and every fetch that answers by one row, so a completed crawl
        adds as many rows as keys, and an aborted one a key more than rows:
        the key of the page whose fetch failed. */
    method Crawl(url: string) returns (r: Outcome)
      requires Valid()
      modifies this
      decreases Universe(Policy(), web) - visited, 0
      ensures Valid()
      ensures old(visited) <= visited && EntryKey(url) in visited
      ensures Grows(old(patternLimit), patternLimit)
      ensures old(records) <= records
      ensures forall i :: |old(records)| <= i < |records| ==> NormalizeUrl(records[i].checkUrl) !in old(visited)
      ensures r == Done ==> |visited| - |old(visited)| == |records| - |old(records)|
      ensures r == Abort ==> |visited| - |old(visited)| == |records| - |old(records)| + 1
      ensures EntryKey(url) in old(visited) ==>
        r == Done && visited == old(visited) && patternLimit == old(patternLimit) && records == old(records)
      ensures EntryKey(url) !in old(visited) && StripFragment(url) !in web ==>
        && r == Abort && visited == old(visited) + {EntryKey(url)}
        && patternLimit == old(patternLimit) && records == old(records)
      ensures EntryKey(url) !in old(visited) && StripFragment(url) in web ==>
        && |records| > |old(records)|
        && records[|old(records)|]
           == Record(StripFragment(url), baseDomain.GetOr(""), web[StripFragment(url)].status)
      ensures EntryKey(url) !in old(visited) && StripFragment(url) in web && web[StripFragment(url)].status == NotFound ==>
        && r == Done && visited == old(visited) + {EntryKey(url)}
        && patternLimit == old(patternLimit)
        && records == old(records) + [Record(StripFragment(url), baseDomain.GetOr(""), NotFound)]
      ensures EntryKey(url) !in old(visited) && StripFragment(url) in web && web[StripFragment(url)].status != NotFound && r == Done ==>
        var page := web[StripFragment(url)];
        var queued := Scan(Policy(), old(visited) + {EntryKey(url)}, StripFragment(url), old(patternLimit), page.hrefs).queue;
        forall link :: link in queued ==> EntryKey(link) in visited
      ensures Step(St(), r) == CrawlSpec(Policy(), web, old(St()), url)
    {
      var urlWithoutHash := StripFragment(url);
      var normalizedUrl := NormalizeUrl(urlWithoutHash);
      if normalizedUrl in visited {
        return Done;
      }
      var response := Visit(urlWithoutHash);
      if response.None? {
        return Abort;
      }
      var page := response.value;
      if page.status == NotFound {
        return Done;
      }
      assert normalizedUrl in Universe(Policy(), web);
      r := Expand(urlWithoutHash, page.hrefs);
    }

    /** src/main.rs:20-33 for a URL whose key is not yet visited: the key is
        entered, the request is logged; a URL the web does not answer is a
        transport error (`None`), and an answered one writes its row, status
        included, before anything else happens. */
    method Visit(url: string) returns (response: Option<Page>)
      requires Valid() && NormalizeUrl(url) !in visited
      modifies this
      ensures Valid()
      ensures visited == old(visited) + {NormalizeUrl(url)} && |visited| == |old(visited)| + 1
      ensures patternLimit == old(patternLimit)
      ensures fetched == old(fetched) + [url]
      ensures response == if url in web then Some(web[url]) else None
      ensures records == old(records) + if url in web then [Record(url, baseDomain.GetOr(""), web[url].status)] else []
    {
      visited := visited + {NormalizeUrl(url)};
      RowsSnoc(web, baseDomain.GetOr(""), fetched, url);
      fetched := fetched + [url];
      if url !in web {
        return None;
      }
      var page := web[url];
      var domain := baseDomain.GetOr("");
      records := records + [Record(url, domain, page.status)];
      response := Some(page);
    }

    /** The rest of `crawl` once a page has been fetched and is not a 404
        (src/main.rs:39-73): the admitted links are crawled one after another
        in queue order, each to the end of its own subtree, and the first
        abort ends the loop. */
    method Expand(pageUrl: string, hrefs: seq<string>) returns (r: Outcome)
      requires Valid()
      modifies this
      decreases Universe(Policy(), web) - visited, 1
      ensures Valid()
      ensures old(visited) <= visited
      ensures Grows(old(patternLimit), patternLimit)
      ensures old(records) <= records
      ensures forall i :: |old(records)| <= i < |records| ==> NormalizeUrl(records[i].checkUrl) !in old(visited)
      ensures r == Done ==> |visited| - |old(visited)| == |records| - |old(records)|
      ensures r == Abort ==> |visited| - |old(visited)| == |records| - |old(records)| + 1
      ensures r == Done ==>
        forall link :: link in Scan(Policy(), old(visited), pageUrl, old(patternLimit), hrefs).queue ==> EntryKey(link) in visited
      ensures Step(St(), r) == ExpandSpec(Policy(), web, old(St()), pageUrl, hrefs)
    {
      var queue := ScanLinks(pageUrl, hrefs);
      ghost var crawled: seq<string> := [];

      while queue != []
        invariant Valid()
        invariant old(visited) <= visited
        invariant Grows(old(patternLimit), patternLimit)
        invariant old(records) <= records
        invariant forall i :: |old(records)| <= i < |records| ==> NormalizeUrl(records[i].checkUrl) !in old(visited)
        invariant |visited| - |old(visited)| == |records| - |old(records)|
        invariant crawled + queue == Scan(Policy(), old(visited), pageUrl, old(patternLimit), hrefs).queue
        invariant forall link :: link in crawled ==> EntryKey(link) in visited
        invariant DrainSpec(Policy(), web, St(), queue) == ExpandSpec(Policy(), web, old(St()), pageUrl, hrefs)
        decreases |queue|
      {
        var nextUrl := queue[0];
        PopFront(crawled, queue);
        ghost var before, rest := St(), queue[1..];
        crawled, queue := crawled + [nextUrl], queue[1..];
        r := Crawl(nextUrl);
        assert DrainSpec(Policy(), web, before, [nextUrl] + rest)
          == if r == Abort then Step(St(), r) else DrainSpec(Policy(), web, St(), rest);
        if r == Abort {
          return;
        }
      }
      r := Done;
    }

    /** The link loop of src/main.rs:43-66: exactly the `Scan` of the link
        filter. */
    method ScanLinks(pageUrl: string, hrefs: seq<string>) returns (queue: seq<string>)
      requires Valid()
      modifies this
      ensures Valid()
      ensures visited == old(visited) && records == old(records) && fetched == old(fetched)
      ensures Grows(old(patternLimit), patternLimit)
      ensures ScanState(queue, patternLimit) == Scan(Policy(), visited, pageUrl, old(patternLimit), hrefs)
    {
      queue := [];
      var i := 0;
      while i < |hrefs|
        invariant 0 <= i <= |hrefs|
        invariant visited == old(visited) && records == old(records) && fetched == old(fetched)
        invariant ScanState(queue, patternLimit) == Scan(Policy(), visited, pageUrl, old(patternLimit), hrefs[..i])
      {
        queue, patternLimit := ConsiderLink(pageUrl, hrefs[i], queue, patternLimit);
        ScanSnoc(Policy(), visited, pageUrl, old(patternLimit), hrefs[..i], hrefs[i]);
        TakeSnoc(hrefs, i);
        i := i + 1;
      }
      TakeAll(hrefs);
      ScanKeepsCap(Policy(), visited, pageUrl, old(patternLimit), hrefs);
    }

    /** The body of that loop for one `href`: exactly one `ScanStep`. The
        filters come first, then the cap check and the increment. */
    method ConsiderLink(pageUrl: string, href: string, queue: seq<string>, limit: map<string, nat>)
      returns (queue': seq<string>, limit': map<string, nat>)
      ensures ScanState(queue', limit') == ScanStep(Policy(), visited, pageUrl, ScanState(queue, limit), href)
    {
      queue', limit' := queue, limit;
      var link := FilterLink(pageUrl, href);
      if link.Some? {
        var urlStr := link.value;
        NormalizedPolicyFacts(lib, baseDomain, maxDepth, patterns, userRegex, urlStr);
        var pattern := UrlPattern(NormalizeUrl(urlStr), patterns, userRegex);
        var count := Count(limit', pattern);
        if count < PatternCap {
          limit' := limit'[pattern := count + 1];
          queue' := queue' + [urlStr];
          StepAdmits(Policy(), visited, pageUrl, ScanState(queue, limit), href, urlStr, pattern);
        } else {
          StepRejects(Policy(), visited, pageUrl, ScanState(queue, limit), href);
        }
      } else {
        StepRejects(Policy(), visited, pageUrl, ScanState(queue, limit), href);
      }
    }

    /** The filters of the loop body: `tel:`/`mailto:`, the join, the
        fragment, the domain, the depth and `visited`. */
    method FilterLink(pageUrl: string, href: string) returns (link: Option<string>)
      ensures link == Admitted(Policy(), visited, pageUrl, href)
    {
      link := None;
      if !StartsWith(href, "tel:") && !StartsWith(href, "mailto:") {
        var joined := lib.join(pageUrl, href);
        if joined.Some? {
          var urlStr := lib.clearFragment(joined.value);
          if lib.domain(urlStr) == baseDomain {
            NormalizedPolicyFacts(lib, baseDomain, maxDepth, patterns, userRegex, urlStr);
            var normalizedUrlStr := NormalizeUrl(urlStr);
            var depth := SlashDepth(normalizedUrlStr);
            if depth <= maxDepth && normalizedUrlStr !in visited {
              link := Some(urlStr);
            }
          }
        }
      }
    }
  }

  /** `main` of src/main.rs:79-124 up to the crawl, with the help text it
      keeps from src/main_v6.rs. The patterns come from the `-x=` file when
      one is named (`files` holds the lines of each readable file; `compiles`
      says which sources `Regex::new` accepts) and are the default `/\d+`
      otherwise; an unreadable file or a pattern that does not compile ends
      `main` with an error before anything is fetched. The crawl starts
      from empty state, and when it completes the number of URLs it reports
      crawled equals the number of rows written. */
  method Run(args: seq<string>, web: WebMap, lib: UrlLib, files: map<string, seq<string>>,
             compiles: string -> bool, userRegex: (string, string) -> bool) returns (crawler: Crawler?, r: Outcome)
    ensures ParseCommandLine(args) == Help ==> crawler == null && r == Done
    ensures ParseCommandLine(args).Run? && PatternFileFromArgs(args) == None ==>
      crawler != null && crawler.patterns == [DefaultPattern]
    ensures ParseCommandLine(args).Run? && crawler == null ==>
      && r == Abort && PatternFileFromArgs(args).Some?
      && var path := PatternFileFromArgs(args).value;
         path !in files || exists p :: p in UniqueLines(files[path]) && !compiles(p)
    ensures crawler != null && PatternFileFromArgs(args).Some? ==>
      && PatternFileFromArgs(args).value in files
      && forall p :: p in crawler.patterns <==> p in UniqueLines(files[PatternFileFromArgs(args).value])
    ensures crawler != null ==>
      && fresh(crawler) && crawler.Valid()
      && crawler.maxDepth == DepthFromArgs(args) && crawler.baseDomain == lib.domain(StartUrl(args))
      && EntryKey(StartUrl(args)) in crawler.visited
      && (r == Done ==> |crawler.records| == |crawler.visited|)
      && (r == Abort ==> |crawler.records| + 1 == |crawler.visited|)
    ensures crawler != null ==>
      && Step(crawler.St(), r) == CrawlSpec(crawler.Policy(), web, Initial(), StartUrl(args))
      && AllFound(crawler.Policy(), web, crawler.fetched, 1)
      && crawler.records == Rows(web, crawler.baseDomain.GetOr(""), crawler.fetched)
  {
    if ParseCommandLine(args) == Help {
      return null, Done;
    }
    var startUrl := StartUrl(args);
    var depth := DepthFromArgs(args);
    var patternFile := PatternFileFromArgs(args);
    var patterns: seq<string>;
    if patternFile.Some? {
      if patternFile.value !in files {
        return null, Abort;
      }
      var loaded := LoadUniquePatterns(files[patternFile.value], compiles);
      if loaded.Err? {
        return null, Abort;
      }
      patterns := loaded.value;
    } else {
      patterns := [DefaultPattern];
    }
    crawler := new Crawler(web, lib, lib.domain(startUrl), depth, patterns, userRegex);
    r := crawler.Crawl(startUrl);
    CrawlFollowsLinks(crawler.Policy(), web, startUrl);
  }
}
