/** The per-page link filter that the crawlers of src/main_v6.rs, src/main.rs
    and src/main_v5.rs run over a fetched page's `href`s before recursing: skip
    `tel:`/`mailto:`, resolve against the page, drop the fragment, keep the
    base domain only, then check depth and `visited` on the link's key and
    admit it only while its pattern bucket has been used fewer than 3 times.
    The variants differ in the key (the normalized URL, or the URL itself)
    and in how a key is bucketed; a `FilterPolicy` names both. */
module LinkFilter {
  import opened Options
  import opened Text
  import opened SeqFacts
  import opened Normalize
  import opened Patterns
  import opened CommandLine
  import opened UrlDepth
  import opened Web

  /** The per-pattern admission cap. */
  const PatternCap: nat := 3

  datatype FilterPolicy = FilterPolicy(
    lib: UrlLib,
    baseDomain: Option<string>,
    maxDepth: u32,
    key: string -> string,
    pattern: string -> string)

  /** src/main_v6.rs and src/main.rs: the key is the normalized URL, bucketed
      by the first matching pattern. */
  function NormalizedPolicy(lib: UrlLib, baseDomain: Option<string>, maxDepth: u32,
                            patterns: seq<string>, userRegex: (string, string) -> bool): FilterPolicy
  {
    FilterPolicy(lib, baseDomain, maxDepth, NormalizeUrl, k => UrlPattern(k, patterns, userRegex))
  }

  /** The key src/main_v6.rs and src/main.rs enter a URL under on arrival:
      the part before the first `#`, normalized. */
  function EntryKey(url: string): string {
    NormalizeUrl(StripFragment(url))
  }

  predicate NoHash(url: string) {
    forall i :: 0 <= i < |url| ==> url[i] != '#'
  }

  /** A fragment leaves the key alone. */
  lemma EntryKeyIgnoresFragment(url: string, fragment: string)
    requires NoHash(url)
    ensures EntryKey(url + "#" + fragment) == EntryKey(url)
  {
    StripBeforeHash(url, "#" + fragment);
    StripNoHash(url);
    ConcatAssoc(url, "#", fragment);
  }

  /** So does a trailing slash. */
  lemma EntryKeyIgnoresTrailingSlash(url: string)
    requires NoHash(url)
    ensures EntryKey(url + "/") == EntryKey(url)
  {
    assert NoHash(url + "/");
    StripNoHash(url + "/");
    StripNoHash(url);
    NormalizeUrlIgnoresTrailingSlash(url);
  }

  /** And so does a change of case. */
  lemma EntryKeyIgnoresCase(url: string)
    requires NoHash(url)
    ensures EntryKey(ToLower(url)) == EntryKey(url)
  {
    assert NoHash(ToLower(url));
    StripNoHash(ToLower(url));
    StripNoHash(url);
    NormalizeUrlIgnoresCase(url);
  }

  lemma StripNoHash(url: string)
    requires NoHash(url)
    ensures StripFragment(url) == url
  {
    StripFragmentAt(url, |url|);
  }

  lemma StripBeforeHash(url: string, tail: string)
    requires NoHash(url) && tail != [] && tail[0] == '#'
    ensures StripFragment(url + tail) == url
  {
    StripFragmentAt(url + tail, |url|);
    TakeAppend(url, tail);
  }

  /** src/main_v5.rs: the key is the URL as serialized, bucketed by the
      `/\d+` -> `/{number}` rewrite. */
  function RawPolicy(lib: UrlLib, baseDomain: Option<string>, maxDepth: u32): FilterPolicy {
    FilterPolicy(lib, baseDomain, maxDepth, u => u, RewriteNumbers)
  }

  /** How the normalized policy keys and buckets a link. */
  lemma NormalizedPolicyFacts(lib: UrlLib, baseDomain: Option<string>, maxDepth: u32,
                              patterns: seq<string>, userRegex: (string, string) -> bool, link: string)
    ensures var policy := NormalizedPolicy(lib, baseDomain, maxDepth, patterns, userRegex);
      && policy.lib == lib && policy.baseDomain == baseDomain && policy.maxDepth == maxDepth
      && policy.key(link) == NormalizeUrl(link)
      && Bucket(policy, link) == UrlPattern(NormalizeUrl(link), patterns, userRegex)
  {
  }

  /** How the raw policy keys and buckets a link. */
  lemma RawPolicyFacts(lib: UrlLib, baseDomain: Option<string>, maxDepth: u32, link: string)
    ensures var policy := RawPolicy(lib, baseDomain, maxDepth);
      && policy.lib == lib && policy.baseDomain == baseDomain && policy.maxDepth == maxDepth
      && policy.key(link) == link && Bucket(policy, link) == RewriteNumbers(link)
  {
  }

  /** The link an `href` of the page at `pageUrl` leads to, if it is not
      `tel:`/`mailto:`, resolves, and is on the base domain once its fragment
      is dropped. */
  function Resolve(policy: FilterPolicy, pageUrl: string, href: string): Option<string> {
    if !Navigable(href) then None
    else match policy.lib.join(pageUrl, href)
      case None => None
      case Some(absolute) =>
        var link := policy.lib.clearFragment(absolute);
        if policy.lib.domain(link) == policy.baseDomain then Some(link) else None
  }

  /** The link also passes the depth and `visited` checks on its key. */
  predicate Fresh(policy: FilterPolicy, visited: set<string>, link: string) {
    WithinDepth(policy.key(link), policy.maxDepth) && policy.key(link) !in visited
  }

  function Bucket(policy: FilterPolicy, link: string): string {
    policy.pattern(policy.key(link))
  }

  /** `*pattern_limit.entry(p).or_insert(0)` read without the insertion. */
  function Count(limit: map<string, nat>, p: string): nat {
    if p in limit then limit[p] else 0
  }

  /** The local queue and the counter map while the page is scanned. */
  datatype ScanState = ScanState(queue: seq<string>, limit: map<string, nat>)

  /** One `href` of the loop: all filters, then the cap check and increment. */
  function ScanStep(policy: FilterPolicy, visited: set<string>, pageUrl: string, st: ScanState, href: string): ScanState {
    match Resolve(policy, pageUrl, href)
    case None => st
    case Some(link) =>
      if !Fresh(policy, visited, link) then st
      else
        var p := Bucket(policy, link);
        if Count(st.limit, p) < PatternCap then ScanState(st.queue + [link], st.limit[p := Count(st.limit, p) + 1])
        else st
  }

  /** The link of an `href` that passes every filter before the cap. */
  function Admitted(policy: FilterPolicy, visited: set<string>, pageUrl: string, href: string): Option<string> {
    match Resolve(policy, pageUrl, href)
    case None => None
    case Some(link) => if Fresh(policy, visited, link) then Some(link) else None
  }

  /** A step whose `href` is filtered out, or whose bucket is full, leaves
      the state as it was. */
  lemma StepRejects(policy: FilterPolicy, visited: set<string>, pageUrl: string, st: ScanState, href: string)
    requires match Admitted(policy, visited, pageUrl, href)
      case None => true
      case Some(link) => Count(st.limit, Bucket(policy, link)) >= PatternCap
    ensures ScanStep(policy, visited, pageUrl, st, href) == st
  {
  }

  /** A step whose link passes every filter and finds room in its bucket
      queues the link and bumps that bucket. */
  lemma StepAdmits(policy: FilterPolicy, visited: set<string>, pageUrl: string, st: ScanState, href: string,
                   link: string, p: string)
    requires Admitted(policy, visited, pageUrl, href) == Some(link)
    requires p == Bucket(policy, link) && Count(st.limit, p) < PatternCap
    ensures ScanStep(policy, visited, pageUrl, st, href) == ScanState(st.queue + [link], st.limit[p := Count(st.limit, p) + 1])
  {
  }

  /** The whole loop over the page's `href`s in document order, from the
      counters `limit`; `visited` does not change while a page is scanned. */
  function Scan(policy: FilterPolicy, visited: set<string>, pageUrl: string, limit: map<string, nat>, hrefs: seq<string>): ScanState
    decreases |hrefs|
  {
    if hrefs == [] then ScanState([], limit)
    else ScanStep(policy, visited, pageUrl, Scan(policy, visited, pageUrl, limit, hrefs[..|hrefs| - 1]), hrefs[|hrefs| - 1])
  }

  /** Scanning one more `href` is one more step. */
  lemma ScanSnoc(policy: FilterPolicy, visited: set<string>, pageUrl: string, limit: map<string, nat>,
                 hrefs: seq<string>, href: string)
    ensures Scan(policy, visited, pageUrl, limit, hrefs + [href])
         == ScanStep(policy, visited, pageUrl, Scan(policy, visited, pageUrl, limit, hrefs), href)
  {
    TakeAppend(hrefs, [href]);
  }

  /** No counter is above the cap. */
  predicate CapRespected(limit: map<string, nat>) {
    forall p :: p in limit ==> limit[p] <= PatternCap
  }

  /** Counters are never removed and never decrease. */
  predicate Grows(before: map<string, nat>, after: map<string, nat>) {
    forall p :: p in before ==> p in after && before[p] <= after[p]
  }

  /** How many links of `queue` fall in bucket `p`. */
  function InBucket(policy: FilterPolicy, queue: seq<string>, p: string): nat {
    if queue == [] then 0
    else InBucket(policy, queue[..|queue| - 1], p) + (if Bucket(policy, queue[|queue| - 1]) == p then 1 else 0)
  }

  lemma InBucketSnoc(policy: FilterPolicy, queue: seq<string>, link: string, p: string)
    ensures InBucket(policy, queue + [link], p) == InBucket(policy, queue, p) + (if Bucket(policy, link) == p then 1 else 0)
  {
    assert (queue + [link])[..|queue|] == queue;
  }

  /** Every queued link came from an `href` of the page and passed every
      filter: not `tel:`/`mailto:`, resolved, on the base domain, within the
      depth limit and not yet visited. */
  lemma {:induction false} ScanQueuesOnlyFilteredLinks(policy: FilterPolicy, visited: set<string>, pageUrl: string,
                                                       limit: map<string, nat>, hrefs: seq<string>)
    ensures forall i :: 0 <= i < |Scan(policy, visited, pageUrl, limit, hrefs).queue| ==>
      var link := Scan(policy, visited, pageUrl, limit, hrefs).queue[i];
      && Fresh(policy, visited, link)
      && policy.lib.domain(link) == policy.baseDomain
      && exists j :: 0 <= j < |hrefs| && Navigable(hrefs[j]) && Resolve(policy, pageUrl, hrefs[j]) == Some(link)
    decreases |hrefs|
  {
    if hrefs != [] {
      var init := hrefs[..|hrefs| - 1];
      ScanQueuesOnlyFilteredLinks(policy, visited, pageUrl, limit, init);
      var before := Scan(policy, visited, pageUrl, limit, init).queue;
      var after := Scan(policy, visited, pageUrl, limit, hrefs).queue;
      forall i | 0 <= i < |after|
        ensures Fresh(policy, visited, after[i]) && policy.lib.domain(after[i]) == policy.baseDomain
        ensures exists j :: 0 <= j < |hrefs| && Navigable(hrefs[j]) && Resolve(policy, pageUrl, hrefs[j]) == Some(after[i])
      {
        if i < |before| {
          assert after[i] == before[i];
          var j :| 0 <= j < |init| && Navigable(init[j]) && Resolve(policy, pageUrl, init[j]) == Some(before[i]);
          assert hrefs[j] == init[j];
        } else {
          assert Resolve(policy, pageUrl, hrefs[|hrefs| - 1]) == Some(after[i]);
        }
      }
    }
  }

  /** The counter of a bucket rises by exactly the number of links queued in
      that bucket: a counter moves by one exactly when a link is pushed, and
      buckets with nothing queued are untouched. */
  lemma {:induction false} ScanCountsAdmissions(policy: FilterPolicy, visited: set<string>, pageUrl: string,
                                                limit: map<string, nat>, hrefs: seq<string>, p: string)
    ensures var st := Scan(policy, visited, pageUrl, limit, hrefs);
      Count(st.limit, p) == Count(limit, p) + InBucket(policy, st.queue, p)
    decreases |hrefs|
  {
    if hrefs != [] {
      var init := hrefs[..|hrefs| - 1];
      ScanCountsAdmissions(policy, visited, pageUrl, limit, init, p);
      LastSplit(hrefs);
      ScanSnoc(policy, visited, pageUrl, limit, init, hrefs[|hrefs| - 1]);
      StepCounts(policy, visited, pageUrl, Scan(policy, visited, pageUrl, limit, init), hrefs[|hrefs| - 1], p);
    }
  }

  /** One step moves a counter by the number of links it queues in that
      bucket, zero or one. */
  lemma StepCounts(policy: FilterPolicy, visited: set<string>, pageUrl: string, st: ScanState, href: string, p: string)
    ensures var st' := ScanStep(policy, visited, pageUrl, st, href);
      Count(st'.limit, p) + InBucket(policy, st.queue, p) == Count(st.limit, p) + InBucket(policy, st'.queue, p)
  {
    var st' := ScanStep(policy, visited, pageUrl, st, href);
    if st'.queue != st.queue {
      var link := Resolve(policy, pageUrl, href).value;
      assert st'.queue == st.queue + [link];
      InBucketSnoc(policy, st.queue, link, p);
    }
  }

  /** Scanning never lifts a counter above the cap, and never lowers or
      drops one. */
  lemma {:induction false} ScanKeepsCap(policy: FilterPolicy, visited: set<string>, pageUrl: string,
                                        limit: map<string, nat>, hrefs: seq<string>)
    ensures CapRespected(limit) ==> CapRespected(Scan(policy, visited, pageUrl, limit, hrefs).limit)
    ensures Grows(limit, Scan(policy, visited, pageUrl, limit, hrefs).limit)
    decreases |hrefs|
  {
    if hrefs != [] {
      ScanKeepsCap(policy, visited, pageUrl, limit, hrefs[..|hrefs| - 1]);
    }
  }

  /** Document order: scanning more `href`s only appends to the queue. */
  lemma {:induction false} ScanKeepsDocumentOrder(policy: FilterPolicy, visited: set<string>, pageUrl: string,
                                                  limit: map<string, nat>, hrefs: seq<string>, n: nat)
    requires n <= |hrefs|
    ensures Scan(policy, visited, pageUrl, limit, hrefs[..n]).queue <= Scan(policy, visited, pageUrl, limit, hrefs).queue
    decreases |hrefs| - n
  {
    if n < |hrefs| {
      var longer := hrefs[..n + 1];
      assert longer[..n] == hrefs[..n];
      assert longer[..|longer| - 1] == hrefs[..n];
      ScanKeepsDocumentOrder(policy, visited, pageUrl, limit, hrefs, n + 1);
    } else {
      assert hrefs[..n] == hrefs;
    }
  }

  /** An `href` repeated on one page passes the `visited` check both times,
      since `visited` changes only when a page is entered: it is queued twice
      and uses two units of its bucket. */
  lemma RepeatedHrefQueuedTwice(policy: FilterPolicy, visited: set<string>, pageUrl: string,
                                limit: map<string, nat>, href: string, link: string)
    requires Resolve(policy, pageUrl, href) == Some(link) && Fresh(policy, visited, link)
    requires Count(limit, Bucket(policy, link)) + 2 <= PatternCap
    ensures Scan(policy, visited, pageUrl, limit, [href, href]).queue == [link, link]
    ensures Count(Scan(policy, visited, pageUrl, limit, [href, href]).limit, Bucket(policy, link)) == Count(limit, Bucket(policy, link)) + 2
  {
    var p := Bucket(policy, link);
    var c := Count(limit, p);
    assert [href, href][..1] == [href];
    assert [href][..0] == [];
    var one := Scan(policy, visited, pageUrl, limit, [href]);
    assert Scan(policy, visited, pageUrl, limit, []) == ScanState([], limit);
    assert one == ScanStep(policy, visited, pageUrl, ScanState([], limit), href);
    assert [] + [link] == [link];
    assert one == ScanState([link], limit[p := c + 1]);
    assert Count(one.limit, p) == c + 1;
    assert Scan(policy, visited, pageUrl, limit, [href, href]) == ScanStep(policy, visited, pageUrl, one, href);
  }

  function Min(a: nat, b: nat): nat {
    if a <= b then a else b
  }

  /** Links that all pass the filters and share one bucket, starting from no
      counters: the first three are queued and the rest are skipped. */
  lemma {:induction false} CapAdmitsFirstThree(policy: FilterPolicy, visited: set<string>, pageUrl: string,
                                               hrefs: seq<string>, links: seq<string>, p: string)
    requires |links| == |hrefs|
    requires forall i :: 0 <= i < |hrefs| ==>
      Resolve(policy, pageUrl, hrefs[i]) == Some(links[i]) && Fresh(policy, visited, links[i]) && Bucket(policy, links[i]) == p
    ensures Scan(policy, visited, pageUrl, map[], hrefs).queue == links[..Min(|links|, PatternCap)]
    ensures Count(Scan(policy, visited, pageUrl, map[], hrefs).limit, p) == Min(|links|, PatternCap)
    decreases |hrefs|
  {
    if hrefs != [] {
      var n := |hrefs| - 1;
      CapAdmitsFirstThree(policy, visited, pageUrl, hrefs[..n], links[..n], p);
      LastSplit(hrefs);
      ScanSnoc(policy, visited, pageUrl, map[], hrefs[..n], hrefs[n]);
      assert links[..n][..Min(n, PatternCap)] == links[..Min(n, PatternCap)];
      assert Resolve(policy, pageUrl, hrefs[n]) == Some(links[n]);
      if n < PatternCap {
        TakeSnoc(links, n);
      }
    }
  }
}
