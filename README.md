# A verified model of a same-domain web crawler's traversal core

The crawler exists in six near-duplicate variants: `src/main_v6.rs`,
`src/main.rs`, `src/main_v5.rs`, `src/main_v4.rs` and `src/main_v2.rs`, plus the
test helpers of `src/main_test.rs`. Each variant starts at a URL and crawls
depth-first. On entry to a page it checks its `visited` set, fetches the page,
stops at a 404, and collects the page's links into a FIFO queue. It then crawls
the queue one link at a time, each to the end of its own subtree. The variants
differ in four ways:

- what `visited` is keyed on: the normalized URL, or the raw one;
- how depth is measured: slashes minus two, a carried counter, or path
  segments in the test helper;
- which filters a link must pass before it is queued;
- whether a per-pattern admission cap of 3 applies, with the pattern found by
  first match over a regex list or by the `/\d+` -> `/{number}` rewrite.

The model is a Dafny project of one module per concern:

- `Text`: character and string helpers, with lower-casing and digits on
  ASCII and trimming on the Unicode White_Space set. These are
  `to_lowercase`, `trim_end_matches('/')`, `split('#')`, `trim` and
  `matches('/').count()`.
- `Normalize`: `normalize_url`.
- `Patterns`: `get_url_pattern` in both forms, the built-in `/\d+` pattern,
  and `load_unique_patterns`.
- `CommandLine`: the `-d=`, `-x=` and positional argument parsing, the help
  test and the hours/minutes/seconds split.
- `UrlDepth`: the slash depth, with `usize` wrap-around, and the
  `calculate_url_depth` path-segment count.
- `Web`: the web as a map from URL to page, plus the `url` crate functions
  `join`, `domain()` and `set_fragment(None)`, kept uninterpreted.
- `LinkFilter`: the per-page link loop shared by v6, main.rs and v5. It is
  parameterized by a policy: the `visited` key and the bucket function.
- `DepthQueue`: the `(url, depth)` queue of v4 and v2.
- `Traversal` and `DepthTraversal`: the whole recursive crawl, as reference
  functions on values. `Traversal` covers v6, main.rs and v5, and
  `DepthTraversal` covers v4 and v2. Each takes a state made of `visited`,
  the counters and an ordered log of fetches, and gives the final state and
  outcome. Lemmas over them say which pages a run can fetch and in what
  order.
- `CrawlV6`, `CrawlMain`, `CrawlV5`, `CrawlV4` and `CrawlV2`: one class per
  variant. The `&mut` state (`visited`, `pattern_limit`) becomes fields that
  the methods update in place. A ghost log records every fetch, and main.rs
  also keeps the database rows. Each `crawl`, each expansion and each drain
  of the queue is proved to leave exactly the state that the reference
  traversal gives. In main.rs the first half of `crawl` (insert the key,
  fetch, write the row) is the method `Visit`. In v4 and v2 the queue
  loop is the method `Drain`.

The web is a `map<string, Page>`. A URL missing from the map is a transport
error, which the `?` operator propagates as `Abort`. Recursion terminates
because `visited` strictly grows towards the finite set of keys of the web's
URLs. `src/main.rs:76` elides its helpers, so `normalize_url`,
`get_url_pattern` and `load_unique_patterns` are taken from `src/main_v6.rs`
for it and for `src/main_test.rs`.

The code differs in places from what a reader might expect, and the model
follows the code:

- `normalize_url` trims every trailing `/`, not just one.
- `normalize_url` does not remove the fragment; `crawl` does that before
  normalizing.
- Depth is the total slash count minus 2, computed with `usize` arithmetic.

## Model

| member | source | states |
|---|---|---|
| Text.StripFragment | src/main_v6.rs:12 | `split('#').next().unwrap_or(url)`: the text before the first `#`; its meaning is stated by StripFragmentSpec |
| Text.StripFragmentSpec | src/main_v6.rs:12 | `split('#').next()` is the longest prefix without `#`; what follows it, if anything, starts with `#` |
| Text.TrimUntouched | src/main_v6.rs:85 | a line with no whitespace at either end is unchanged by `trim` |
| Text.Trim | src/main_v6.rs:85 | `str::trim`: White_Space removed from both ends; its meaning is stated by TrimSpec |
| Text.TrimStartSpec | src/main_v6.rs:85 | the front part dropped is all whitespace, and what is kept is a suffix that does not start with whitespace |
| Text.TrimEndSpec | src/main_v6.rs:85 | the back part dropped is all whitespace, and what is kept is a prefix that does not end with whitespace |
| Text.TrimSpec | src/main_v6.rs:85 | for every line, `trim` keeps a middle slice `s[i..j]` that neither starts nor ends with whitespace, with only whitespace before `i` and from `j` on |
| Normalize.NormalizeUrl | src/main_v6.rs:65-67 | the `visited` key: trailing slashes trimmed, then lower-cased; its meaning is stated by NormalizeUrlSpec |
| Normalize.NormalizeUrlSpec | src/main_v6.rs:65-67 | the result never ends in `/`; it is the lower-cased prefix of the input; everything dropped is `/` |
| Normalize.NormalizeUrlIdempotent | src/main_v6.rs:65-67 | normalizing twice is normalizing once |
| Normalize.NormalizeUrlIgnoresTrailingSlash | src/main_v6.rs:65-67 | an extra trailing `/` does not change the result |
| Normalize.NormalizeUrlIgnoresCase | src/main_v6.rs:65-67 | lower-casing first does not change the result |
| Normalize.NormalizedAlready | src/main_v6.rs:65-67 | a URL with no upper case and no trailing slash is its own normal form, with or without one added slash |
| Normalize.NormalizeUrlExamples | src/main_test.rs:104-111 | the five asserted `normalize_url` examples |
| Patterns.UrlPattern | src/main_v6.rs:69-76 | the bucket of a normalized URL under a regex list; its meaning is stated by UrlPatternIsFirstMatch |
| Patterns.UrlPatternIsFirstMatch | src/main_v6.rs:69-76 | the bucket is the first pattern in list order that matches, or the URL itself when none does |
| Patterns.DefaultPatternBuckets | src/main_v6.rs:132-136 | with no pattern file, a URL is in the `/\d+` bucket iff it holds `/` followed by a digit, and is its own bucket otherwise |
| Patterns.RewriteNumbers | src/main_v5.rs:60-63 | `replace_all(r"/\d+", "/{number}")`, leftmost and greedy; its meaning is stated by the Rewrite lemmas below |
| Patterns.RewriteLeavesNoSlashDigit | src/main_v5.rs:60-63 | the rewritten URL has no `/` directly followed by a digit |
| Patterns.RewriteIdentity | src/main_v5.rs:60-63 | a URL with no `/digit` passes through unchanged |
| Patterns.RewriteChangesIff | src/main_v5.rs:60-63 | the rewrite changes a URL iff it holds `/digit` |
| Patterns.RewriteIdempotent | src/main_v5.rs:60-63 | rewriting twice is rewriting once |
| Patterns.NumbersShareBucket | src/main_v5.rs:60-63 | a `/` and a maximal digit run become `/{number}`; the text around it is rewritten independently |
| Patterns.LoadUniquePatterns | src/main_v6.rs:78-97 | on success, the patterns are exactly the distinct trimmed non-empty lines, each once; otherwise the error is a line that does not compile |
| Patterns.LoadExample | src/main_test.rs:85-102 | four lines with one duplicate give exactly the three distinct lines |
| CommandLine.ParseU32 | src/main_v6.rs:123 | `str::parse::<u32>`: an optional `+` then decimal digits whose value is below 2^32; its meaning is stated by ParseU32RoundTrip and ParseU32Rejects |
| CommandLine.DecimalValueOfToDecimal | src/main_v6.rs:123 | reading back the decimal digits of a number gives the number |
| CommandLine.ParseU32RoundTrip | src/main_v6.rs:123 | `parse::<u32>` accepts every `u32` in decimal, with or without `+` |
| CommandLine.ParseU32Rejects | src/main_v6.rs:123 | `parse::<u32>` rejects a leading `-` and values of 2^32 or more |
| CommandLine.FindPrefixed | src/main_test.rs:8-20 | `iter().find(starts_with(prefix))` followed by `strip_prefix`; its meaning is stated by FindPrefixedIsFirst |
| CommandLine.FindPrefixedIsFirst | src/main_test.rs:8-20 | `find(starts_with(prefix))` yields the suffix of the first argument with the prefix, and None iff there is none |
| CommandLine.FindPrefixedIgnoresLater | src/main_test.rs:8-20 | once an argument matches, arguments appended later do not change the result |
| CommandLine.DepthFromArgs | src/main_test.rs:8-14 | `get_depth_from_args`, also inlined at src/main_v6.rs:122-126; its meaning is stated by DepthFromArgsSpec |
| CommandLine.DepthFromArgsSpec | src/main_test.rs:8-14 | depth is the first `-d=` value parsed as `u32`, 3 when it is absent or does not parse; a later `-d=` is ignored |
| CommandLine.DepthFromArgsExamples | src/main_test.rs:27-38 | the asserted depths 5, 2, 3 (invalid), 4 (first wins) and 3 (negative), plus 3 with no flag |
| CommandLine.PatternFileFromArgs | src/main_test.rs:16-20 | `get_pattern_file_from_args`, also inlined at src/main_v6.rs:128-130; its meaning is stated by PatternFileFromArgsSpec |
| CommandLine.PatternFileFromArgsSpec | src/main_test.rs:16-20 | the suffix of the first `-x=` argument, and None iff there is none |
| CommandLine.PatternFileFromArgsExamples | src/main_test.rs:41-57 | the three asserted pattern-file results |
| CommandLine.PositionalDepth | src/main_v2.rs:58-62 | `args[2]` parsed as `u32`, and 3 when it is absent or does not parse |
| CommandLine.StartUrl | src/main_v6.rs:116-120 | `args[1]` when there is one, `http://localhost/` otherwise |
| CommandLine.ParseCommandLine | src/main_v6.rs:103-136 | help, or a run with the start URL, the `-d=` depth and the `-x=` file; which one is stated by HelpOnlyAlone |
| CommandLine.HelpOnlyAlone | src/main_v6.rs:103-120 | help is shown only when `-h`/`--help` is the sole argument; otherwise it is taken for the start URL |
| CommandLine.SplitElapsed | src/main.rs:129-132 | `hours*3600 + minutes*60 + seconds` is the elapsed time, with minutes and seconds below 60 |
| CommandLine.SplitElapsedUnique | src/main.rs:129-132 | the split is the only one with minutes and seconds below 60 |
| UrlDepth.SlashDepth | src/main_v6.rs:42 | `matches('/').count() - 2` in `usize` arithmetic; its meaning is stated by WithinDepthIff |
| UrlDepth.WithinDepthIff | src/main_v6.rs:42-43 | a link passes the depth test iff it has between 2 and `max_depth + 2` slashes; fewer than 2 wraps the `usize` subtraction |
| UrlDepth.TrailingSlashCountsRaw | src/main_v5.rs:37-38 | on the raw URL, a trailing slash adds one level |
| UrlDepth.TrailingSlashIgnoredNormalized | src/main_v6.rs:41-43 | on the normalized URL, a trailing slash adds nothing |
| UrlDepth.PathDepth | src/main_test.rs:116 | the number of non-empty pieces of `trim_end_matches('/').split('/')`; its meaning is stated by the PathDepth lemmas below |
| UrlDepth.SplitSlashRoundTrip | src/main_test.rs:116 | joining the pieces of `split('/')` with `/` gives back the string |
| UrlDepth.SplitSlashPiecesHaveNoSlash | src/main_test.rs:116 | no piece of `split('/')` holds a `/` |
| UrlDepth.CalculateUrlDepth | src/main_test.rs:113-120 | a URL on another domain has depth 0 |
| UrlDepth.TrimDoesNotChangeCount | src/main_test.rs:116 | trimming trailing slashes does not change the count of non-empty pieces |
| UrlDepth.PathDepthTrailingSlash | src/main_test.rs:116 | a trailing slash adds nothing to the path depth |
| UrlDepth.PathDepthAppendSegment | src/main_test.rs:116 | each further non-empty segment adds exactly one level |
| UrlDepth.PathDepthExamples | src/main_test.rs:59-83 | the asserted depths 0, 1, 2, 3 and 1 (trailing slash) of the parsed paths |
| LinkFilter.EntryKey | src/main_v6.rs:12-13 | the key a URL is entered under in `visited`: fragment dropped, then normalized; its meaning is stated by the three EntryKey lemmas |
| LinkFilter.EntryKeyIgnoresFragment | src/main_v6.rs:12-13 | a fragment does not change the `visited` key of a URL |
| LinkFilter.EntryKeyIgnoresTrailingSlash | src/main_v6.rs:12-13 | a trailing slash does not change the key |
| LinkFilter.EntryKeyIgnoresCase | src/main_v6.rs:12-13 | a change of case does not change the key |
| LinkFilter.ScanStep | src/main_v6.rs:35-53 | one `href` of the link loop: the filters, then the cap check and increment; its meaning is stated by StepRejects, StepAdmits and StepCounts |
| LinkFilter.Scan | src/main_v6.rs:34-55 | the whole link loop over a page's `href`s; its meaning is stated by the Scan lemmas below |
| LinkFilter.StepRejects | src/main_v6.rs:36-49 | an `href` that fails a filter, or whose bucket is full, changes neither the queue nor a counter |
| LinkFilter.StepAdmits | src/main_v6.rs:36-49 | an `href` that passes every filter, with room in its bucket, appends its link and raises that bucket by one |
| LinkFilter.StepCounts | src/main_v6.rs:45-49 | one step moves a counter by exactly the number of links it queues in that bucket |
| LinkFilter.ScanQueuesOnlyFilteredLinks | src/main_v6.rs:34-55 | every queued link comes from an `href` that is not `tel:`/`mailto:`, resolves to it, is on the base domain, within depth and unvisited |
| LinkFilter.ScanCountsAdmissions | src/main_v6.rs:44-49 | each counter rises by exactly the number of links queued in its bucket; other counters are untouched |
| LinkFilter.ScanKeepsCap | src/main_v6.rs:44-49 | no counter goes above 3, and counters never drop or decrease |
| LinkFilter.ScanKeepsDocumentOrder | src/main_v6.rs:34-55 | the queue of a prefix of the `href`s is a prefix of the queue |
| LinkFilter.RepeatedHrefQueuedTwice | src/main_v6.rs:43-48 | an `href` repeated on one page is queued twice and uses two units of its bucket |
| LinkFilter.CapAdmitsFirstThree | src/main_v6.rs:44-49 | of admissible links sharing a bucket, exactly the first three are queued |
| Traversal.CrawlSpec | src/main_v6.rs:11-63 | `crawl` as a reference definition: a visited key changes nothing; otherwise the key is entered and the fragment-free URL appended to the fetch log; a missing page aborts, a 404 ends the branch, any other page is expanded; `visited` and the log only grow |
| Traversal.ExpandSpec | src/main_v6.rs:32-60 | a fetched page: the link loop's `Scan` queue and counters, then that queue drained; `visited` and the log only grow |
| Traversal.DrainSpec | src/main_v6.rs:57-60 | `pop_front` until empty: the head crawled to completion before the rest, the first abort ending the loop; `visited` and the log only grow |
| Traversal.CrawlFound | src/main_v6.rs:11-63 | a crawl of a URL found on a fetched page adds to the log only URLs found on pages fetched before them |
| Traversal.ExpandFound | src/main_v6.rs:32-60 | every link the page queues comes from one of its `href`s, so draining the queue adds only found URLs |
| Traversal.DrainFound | src/main_v6.rs:57-60 | draining a queue of found links adds only found URLs |
| Traversal.CrawlFollowsLinks | src/main_v6.rs:11-63 | a run fetches the fragment-free seed first; every later fetch is the fragment-free form of a link that an `href` of an earlier, non-404 fetched page resolves to, on the base domain and within the depth limit |
| Traversal.DrainFetchesHeadFirst | src/main_v6.rs:57-59 | FIFO: when the head of the queue has an unvisited key, it is the next page fetched |
| Traversal.LinkedFromGrows | src/main_v6.rs:11-63 | a link found before entry `n` of the log stays found in a longer log, at any later entry |
| Traversal.AllFoundSnoc | src/main_v6.rs:11-63 | appending the fragment-free form of a found link keeps every entry of the log found |
| CrawlV6.Crawler.Crawl | src/main_v6.rs:11-63 | the new state and outcome are exactly `CrawlSpec` of the old state: same `visited` keys, counters and ordered fetch log, hence the same pages in the same order; also, a visited key is a no-op, a missing page aborts, a 404 ends the branch, and a completed crawl has entered the key of every queued link; the cap holds and no key is fetched twice |
| CrawlV6.Crawler.Expand | src/main_v6.rs:32-62 | exactly `ExpandSpec`: the page's `Scan` queue, in document order, is drained FIFO, each link crawled to completion before the next, and the first abort stops the loop; on `Done` every queued key is in `visited` |
| CrawlV6.Crawler.ScanLinks | src/main_v6.rs:32-55 | the link loop yields exactly the `Scan` of the page's `href`s |
| CrawlV6.Crawler.ConsiderLink | src/main_v6.rs:35-53 | one `href` of the loop is exactly one `ScanStep` |
| CrawlV6.Crawler.FilterLink | src/main_v6.rs:36-43 | the filters before the cap give the admitted link, or none |
| CrawlV6.Run | src/main_v6.rs:100-144 | help alone does nothing; patterns come from the `-x=` file or default to `/\d+`; a load failure fetches nothing; otherwise the run is exactly `CrawlSpec` from empty state at the start URL, fetching the seed first and afterwards only links found on fetched pages, on the base domain and within the `-d=` depth |
| CrawlMain.Rows | src/main.rs:27-32 | the rows a sequence of fetches writes: one row per URL the web answers, with its URL, the base domain and the status; meaning stated by RowsSnoc |
| CrawlMain.RowsSnoc | src/main.rs:23-32 | a fetch that gets a response adds exactly its row at the end; a failed request adds none |
| CrawlMain.Crawler.Visit | src/main.rs:20-32 | for a key not yet visited: the key is inserted, so `visited` grows by one; the URL is logged as fetched; a failed request returns nothing and writes no row; otherwise the page is returned and one row with URL, base domain and status is appended |
| CrawlMain.Crawler.Crawl | src/main.rs:13-74 | exactly `CrawlSpec` under the normalized key, as v6; the rows are those the fetch log writes, written before the 404 check; new keys and rows match one for one, with one key more on abort |
| CrawlMain.Crawler.Expand | src/main.rs:43-73 | exactly `ExpandSpec`: the `Scan` queue drained FIFO, each link to completion, the first abort stopping the loop; on `Done` every queued key is in `visited`; the row/key correspondence is kept |
| CrawlMain.Crawler.ScanLinks | src/main.rs:43-66 | the link loop yields exactly the `Scan` of the page's `href`s |
| CrawlMain.Crawler.ConsiderLink | src/main.rs:46-64 | one `href` of the loop is exactly one `ScanStep` |
| CrawlMain.Crawler.FilterLink | src/main.rs:47-54 | the filters before the cap give the admitted link, or none |
| CrawlMain.Run | src/main.rs:79-127 | the run is exactly `CrawlSpec` from empty state, fetching only the seed and links found on fetched pages; the table holds one row per answered fetch, in fetch order; after a completed crawl the number of rows equals `visited.len()`, after an abort there is one key more than rows |
| CrawlV5.Crawler.Crawl | src/main_v5.rs:9-58 | exactly `CrawlSpec` under the raw fragment-stripped key and the `/{number}` buckets: each such string is fetched at most once, a 404 ends the branch, and a completed crawl has entered every link it queued |
| CrawlV5.Crawler.Expand | src/main_v5.rs:28-57 | exactly `ExpandSpec`: the `Scan` queue drained FIFO, each link to completion, the first abort stopping the loop; on `Done` every queued raw key is in `visited` |
| CrawlV5.Crawler.ScanLinks | src/main_v5.rs:28-50 | the link loop is the `Scan` under the raw key and the `/{number}` rewrite |
| CrawlV5.Crawler.ConsiderLink | src/main_v5.rs:31-48 | one `href` of the loop is exactly one `ScanStep` |
| CrawlV5.Crawler.FilterLink | src/main_v5.rs:32-38 | the filters before the cap give the admitted link, or none |
| CrawlV5.Run | src/main_v5.rs:66-99 | help alone fetches nothing; otherwise the start URL and `-d=` depth come from the arguments, and the run is exactly `CrawlSpec` from empty state: the seed first, then only links found on fetched pages, on the base domain and within the depth |
| DepthQueue.U32Succ | src/main_v4.rs:35 | `current_depth + 1` is the successor below 2^32 - 1 and wraps to 0 there |
| DepthQueue.Discover | src/main_v4.rs:28-41 | the `(url, depth)` queue of a page's `href`s in document order; its meaning is stated by DiscoverMembers and DiscoverKeepsOrder |
| DepthQueue.DiscoverMembers | src/main_v4.rs:28-41 | an entry is queued iff some admitted `href` leads to its URL, and it carries the given depth |
| DepthQueue.DiscoverKeepsOrder | src/main_v4.rs:28-41 | more `href`s only append to the queue |
| DepthTraversal.CrawlAt | src/main_v4.rs:8-51 | `crawl(url, current_depth)` as a reference definition: a visited URL changes nothing; otherwise it is entered and logged with its depth; a missing page aborts, a 404 ends the branch, any other page is expanded; `visited` and the log only grow |
| DepthTraversal.ExpandAt | src/main_v4.rs:26-48 | a fetched page: its links discovered at `current_depth + 1` under the filter for the current `visited`, then that queue drained; `visited` and the log only grow |
| DepthTraversal.DrainAt | src/main_v4.rs:43-48 | `pop_front` until empty: an entry deeper than the limit is skipped, any other crawled to completion before the rest, the first abort ending the loop |
| DepthTraversal.DrainAtPop | src/main_v4.rs:43-47 | one loop turn on an entry within the limit: the drain is that entry's crawl if it aborts, else the drain of the rest from the state it left |
| DepthTraversal.DrainAtSkip | src/main_v4.rs:44 | an entry beyond the limit is dropped without a fetch |
| DepthTraversal.CrawlAtAdds | src/main_v4.rs:8-51 | a crawl enters its URL; a new URL is the first fetch, at the depth given; every later fetch is of a URL not visited before, within the limit, and deeper than the page while the `u32` counter cannot wrap |
| DepthTraversal.ExpandAtAdds | src/main_v4.rs:26-48 | expanding a page fetches only new URLs within the limit and deeper than the page; a completed expansion has entered every discovered link within the limit |
| DepthTraversal.DrainAtAdds | src/main_v4.rs:43-48 | draining a queue one level down fetches only new URLs within the limit; when it completes, every entry within the limit is in `visited` |
| DepthTraversal.CrawlAtFound | src/main_v4.rs:8-51 | a crawl of a found link adds to the log only links found on pages fetched before them |
| DepthTraversal.ExpandAtFound | src/main_v4.rs:26-48 | every link the page queues comes from one of its `href`s and passes the filter, so draining adds only found links |
| DepthTraversal.DrainAtFound | src/main_v4.rs:43-48 | draining a queue of found links adds only found links |
| DepthTraversal.DepthCrawlFollowsLinks | src/main_v4.rs:8-51 | a run fetches the seed first at its depth; every later fetch is `Target` of an `href` of an earlier non-404 fetched page, passes what the filter guarantees, sits one level below that page and is within the limit |
| DepthTraversal.DrainAtFetchesHeadFirst | src/main_v4.rs:43-46 | FIFO: when the head is within the limit and unvisited, it is the next page fetched, at its queued depth |
| DepthTraversal.AllFoundAtSnoc | src/main_v4.rs:8-51 | appending a found link keeps every entry of the log found |
| DepthTraversal.LinkedAtGrows | src/main_v4.rs:8-51 | a link found before entry `n` of the log stays found in a longer log, at any later entry |
| CrawlV4.QueuedIffAdmitted | src/main_v4.rs:30-36 | a link is queued iff it is not `tel:`/`mailto:`, resolves, is on the base domain and is unvisited |
| CrawlV4.Crawler.Crawl | src/main_v4.rs:8-51 | exactly `CrawlAt` of the old state; a visited URL is a no-op; otherwise it is fetched once at `current_depth`; every fetch below it is within `max_depth` and, while neither depth is 2^32 - 1, deeper than it; on a completed crawl, every queued link within `max_depth` is in `visited` |
| CrawlV4.Crawler.Expand | src/main_v4.rs:26-50 | exactly `ExpandAt`: the page's same-domain unvisited links are queued one level down and the queue drained; every fetch is within `max_depth`, and on `Done` every queued link within it is in `visited` |
| CrawlV4.Crawler.Drain | src/main_v4.rs:43-48 | exactly `DrainAt`: entries beyond `max_depth` are skipped, the others crawled FIFO, each to completion, and the first abort stops the loop; on `Done` every entry within `max_depth` is in `visited` |
| CrawlV4.Crawler.ScanLinks | src/main_v4.rs:28-41 | the loop builds exactly the `Discover` queue, each entry at `current_depth + 1` |
| CrawlV4.Run | src/main_v4.rs:54-86 | help alone fetches nothing; otherwise the run is exactly `CrawlAt` from empty state at depth 1: the seed is fetched first, and every later fetch is a link of an earlier fetched page, on the base domain, one level below that page and within the `-d=` depth; when the `-d=` depth is below 2^32 - 1, every later fetch is also deeper than 1 |
| CrawlV2.QueuedIffResolves | src/main_v2.rs:30-37 | a link is queued iff it is not `tel:`/`mailto:` and resolves; there is no domain or `visited` filter |
| CrawlV2.Crawler.Crawl | src/main_v2.rs:8-48 | exactly `CrawlAt` of the old state; a visited URL is a no-op; otherwise it is fetched once; every fetch below it is within `max_depth` and, while neither depth is 2^32 - 1, deeper than it; on a completed crawl, every queued link within `max_depth` is in `visited` |
| CrawlV2.Crawler.Expand | src/main_v2.rs:26-47 | exactly `ExpandAt` with no filter: every resolving link is queued one level down and the queue drained; every fetch is within `max_depth`, and on `Done` every queued link within it is in `visited` |
| CrawlV2.Crawler.Drain | src/main_v2.rs:40-45 | exactly `DrainAt`: entries beyond `max_depth` are skipped, the others crawled FIFO, each to completion, and the first abort stops the loop; on `Done` every entry within `max_depth` is in `visited` |
| CrawlV2.Crawler.ScanLinks | src/main_v2.rs:28-38 | the loop builds exactly the `Discover` queue with no filter |
| CrawlV2.Run | src/main_v2.rs:51-64 | the depth comes from `args[2]`; the run is exactly `CrawlAt` from empty state at depth 1: the seed first, then only links of earlier fetched pages, one level below them and within the depth; when the depth is below 2^32 - 1, every later fetch is also deeper than 1 |

## Left out

- HTTP (`reqwest::get`, `response.text()`) is a lookup in the web map. A
  missing URL is a transport error, which aborts the whole crawl. Retries,
  redirects and body-read errors are not modelled.
- HTML parsing (`scraper`) is not modelled: a page is given as its `href`
  values in document order.
- The `url` crate's `join`, `domain()` and fragment removal are uninterpreted
  functions. So is the serialized form of the joined URL.
- The `?` on `Url::parse(url_without_hash)` inside the link loop is not
  modelled: a page that was fetched is taken to parse.
- The panic of `Url::parse(start_url).unwrap()` is not modelled either.
- Regex compilation and matching of user patterns are uninterpreted
  predicates. The built-in `/\d+` is modelled concretely.
- The iteration order of the `HashSet` in `load_unique_patterns` is an
  arbitrary choice.
- Reading the pattern file is a given map from path to lines.
- SQLite (`Connection::open`, `CREATE TABLE`, `INSERT`) is reduced to the
  ghost row log. Database errors and the `chrono` timestamp are not modelled.
- `Instant` timing is I/O: the elapsed seconds are an input to
  `SplitElapsed`.
- `println!` output and the `has_404` flag, which only affects output, are
  not modelled.
- `tokio` async and `Box::pin` are not modelled. Each `await` completes
  before the next step, so the crawl is sequential.
- `to_lowercase`, `\d` and digit parsing are modelled on ASCII only.
- UrlDepth.SlashDepth, UrlDepth.WithinDepthIff and DepthQueue.U32Succ model a
  release build, where the `usize` subtraction `count - 2`
  (src/main_v6.rs:42, src/main.rs:53, src/main_v5.rs:37) and the `u32`
  increment `current_depth + 1` (src/main_v4.rs:35, src/main_v2.rs:34) wrap.
  In a debug build the subtraction or increment panics instead and ends the
  run. A link with fewer than two slashes, such as one that resolves from
  `javascript:void(0)` on a seed without a domain name, is skipped by the
  model where a debug build would stop.
- The assertion at src/main_test.rs:25 expects a default depth of 5. The code
  gives 3, and the model follows the code.
- CrawlV4.Crawler.Crawl and CrawlV4.Run: "deeper than the caller" is stated only when
  neither `current_depth` nor `max_depth` is 2^32 - 1. At that value the
  `u32` increment wraps (release build) and the property does not hold.
- CrawlV2.Crawler.Crawl and CrawlV2.Run: the same restriction on the depth
  ordering, for the same reason.
- CrawlV6.Crawler.ConsiderLink, CrawlMain.Crawler.ConsiderLink and
  CrawlV5.Crawler.ConsiderLink take the counter map and return the updated
  one. Their `ScanLinks` callers write it back to the `patternLimit` field
  after each `href`, where the Rust code updates the entry in place.
