/** The depth rules of the crawler. The variants in src/main_v6.rs, src/main.rs
    and src/main_v5.rs take the number of slashes in the URL minus two (the two
    of `scheme://`) as a `usize`; the test helper `calculate_url_depth` of
    src/main_test.rs:113-120 counts the non-empty segments of the URL's path.
    (The third rule, a carried counter, lives in the v4 and v2 crawlers.) */
module UrlDepth {
  import opened Options
  import opened Text
  import opened SeqFacts
  import opened Normalize
  import opened CommandLine

  const UsizeLimit: int := 0x1_0000_0000_0000_0000

  /** `usize` subtraction as a release build performs it: wrapping modulo 2^64. */
  function UsizeSub(a: nat, b: nat): nat {
    (a - b) % UsizeLimit
  }

  /** `url.matches('/').count() - 2`. */
  function SlashDepth(url: string): nat {
    UsizeSub(CountChar(url, '/'), 2)
  }

  /** `depth <= max_depth as usize`. */
  predicate WithinDepth(url: string, maxDepth: u32) {
    SlashDepth(url) <= maxDepth
  }

  /** A URL is within the depth limit exactly when it holds at least the two
      slashes of `scheme://` and at most `maxDepth` more; with fewer than two
      the subtraction wraps to a value above any `u32`. */
  lemma WithinDepthIff(url: string, maxDepth: u32)
    requires |url| < UsizeLimit
    ensures WithinDepth(url, maxDepth) <==> 2 <= CountChar(url, '/') <= maxDepth + 2
  {
    CountCharBound(url, '/');
  }

  lemma {:induction false} CountCharBound(s: string, c: char)
    ensures CountChar(s, c) <= |s|
  {
    if s != [] {
      CountCharBound(s[..|s| - 1], c);
    }
  }

  lemma CountCharSnoc(s: string, c: char, d: char)
    ensures CountChar(s + [d], c) == CountChar(s, c) + (if d == c then 1 else 0)
  {
    assert (s + [d])[..|s|] == s;
  }

  /** On a raw URL (src/main_v5.rs) a trailing slash adds one level. */
  lemma TrailingSlashCountsRaw(url: string)
    requires 2 <= CountChar(url, '/') && |url| + 1 < UsizeLimit
    ensures SlashDepth(url + "/") == SlashDepth(url) + 1
  {
    CountCharSnoc(url, '/', '/');
    CountCharBound(url, '/');
    var c := CountChar(url, '/');
    UsizeSubInRange(c, 2);
    UsizeSubInRange(c + 1, 2);
  }

  lemma UsizeSubInRange(a: nat, b: nat)
    requires b <= a < UsizeLimit
    ensures UsizeSub(a, b) == a - b
  {
  }

  /** On a normalized URL (src/main_v6.rs, src/main.rs) it adds nothing. */
  lemma TrailingSlashIgnoredNormalized(url: string)
    ensures SlashDepth(NormalizeUrl(url + "/")) == SlashDepth(NormalizeUrl(url))
  {
    NormalizeUrlIgnoresTrailingSlash(url);
  }

  /** `split('/')` of a Rust string: the pieces between slashes, empty ones
      included; the empty string gives one empty piece. */
  function SplitSlash(s: string): (parts: seq<string>)
    ensures |parts| >= 1
  {
    if s == [] then [[]]
    else if s[|s| - 1] == '/' then SplitSlash(s[..|s| - 1]) + [[]]
    else
      var init := SplitSlash(s[..|s| - 1]);
      init[..|init| - 1] + [init[|init| - 1] + [s[|s| - 1]]]
  }

  /** The pieces joined back with slashes. */
  function JoinSlash(parts: seq<string>): string
    requires |parts| >= 1
  {
    if |parts| == 1 then parts[0] else JoinSlash(parts[..|parts| - 1]) + "/" + parts[|parts| - 1]
  }

  predicate NoSlash(p: string) {
    forall i :: 0 <= i < |p| ==> p[i] != '/'
  }

  /** Splitting is undone by joining. */
  lemma {:induction false} SplitSlashRoundTrip(s: string)
    ensures JoinSlash(SplitSlash(s)) == s
  {
    if s != [] {
      var front := s[..|s| - 1];
      var init := SplitSlash(front);
      SplitSlashRoundTrip(front);
      if s[|s| - 1] == '/' {
        JoinSlashSnocEmpty(init);
      } else {
        JoinSlashExtendLast(init, s[|s| - 1]);
      }
      LastSplit(s);
    }
  }

  /** No piece of a split holds a slash. */
  lemma {:induction false} SplitSlashPiecesHaveNoSlash(s: string)
    ensures forall k :: 0 <= k < |SplitSlash(s)| ==> NoSlash(SplitSlash(s)[k])
  {
    if s != [] {
      var init := SplitSlash(s[..|s| - 1]);
      SplitSlashPiecesHaveNoSlash(s[..|s| - 1]);
      var parts := SplitSlash(s);
      if s[|s| - 1] == '/' {
        SnocIndex(init, []);
      } else {
        var last := init[|init| - 1];
        ReplaceLastIndex(init, last + [s[|s| - 1]]);
        assert NoSlash(last + [s[|s| - 1]]) by {
          SnocIndex(last, s[|s| - 1]);
        }
      }
    }
  }

  lemma JoinSlashSnocEmpty(parts: seq<string>)
    requires |parts| >= 1
    ensures JoinSlash(parts + [[]]) == JoinSlash(parts) + "/"
  {
    SnocIndex(parts, []);
  }

  /** Extending the last piece extends the joined string. */
  lemma JoinSlashExtendLast(parts: seq<string>, c: char)
    requires |parts| >= 1
    ensures JoinSlash(parts[..|parts| - 1] + [parts[|parts| - 1] + [c]]) == JoinSlash(parts) + [c]
  {
    var last := parts[|parts| - 1];
    ReplaceLastIndex(parts, last + [c]);
    if |parts| > 1 {
      var front := JoinSlash(parts[..|parts| - 1]);
      ConcatAssoc(front + "/", last, [c]);
    }
  }

  /** `filter(|s| !s.is_empty()).count()`. */
  function CountNonEmpty(parts: seq<string>): nat {
    if parts == [] then 0
    else CountNonEmpty(parts[..|parts| - 1]) + (if parts[|parts| - 1] != [] then 1 else 0)
  }

  /** The path depth of `calculate_url_depth`: the non-empty pieces of the
      path once its trailing slashes are trimmed. */
  function PathDepth(path: string): nat {
    CountNonEmpty(SplitSlash(TrimEndSlashes(path)))
  }

  /** `calculate_url_depth` (src/main_test.rs:113-120), with the URL's host and
      path as the `url` crate parses them: 0 for another domain. */
  function CalculateUrlDepth(path: string, domain: Option<string>, baseDomain: Option<string>): (d: nat)
    ensures domain != baseDomain ==> d == 0
  {
    if domain == baseDomain then PathDepth(path) else 0
  }

  lemma CountNonEmptySnoc(parts: seq<string>, p: string)
    ensures CountNonEmpty(parts + [p]) == CountNonEmpty(parts) + (if p != [] then 1 else 0)
  {
    assert (parts + [p])[..|parts|] == parts;
  }

  /** Trimming the trailing slashes does not change the count of non-empty
      pieces: a trailing slash only adds an empty piece. */
  lemma {:induction false} TrimDoesNotChangeCount(s: string)
    ensures PathDepth(s) == CountNonEmpty(SplitSlash(s))
  {
    if EndsWithSlash(s) {
      TrimDoesNotChangeCount(s[..|s| - 1]);
      CountNonEmptySnoc(SplitSlash(s[..|s| - 1]), []);
    }
  }

  /** A trailing slash adds nothing to the path depth. */
  lemma PathDepthTrailingSlash(path: string)
    ensures PathDepth(path + "/") == PathDepth(path)
  {
    assert (path + "/")[..|path|] == path;
  }

  lemma {:induction false} SplitAppendSegment(path: string, segment: string)
    requires NoSlash(segment)
    ensures SplitSlash(path + "/" + segment) == SplitSlash(path) + [segment]
    decreases |segment|
  {
    var s := path + "/" + segment;
    if segment == [] {
      assert s[..|s| - 1] == path;
    } else {
      var front := segment[..|segment| - 1];
      assert s[..|s| - 1] == path + "/" + front;
      SplitAppendSegment(path, front);
      assert front + [segment[|segment| - 1]] == segment;
    }
  }

  /** Each further non-empty segment adds exactly one level. */
  lemma PathDepthAppendSegment(path: string, segment: string)
    requires segment != [] && NoSlash(segment)
    ensures PathDepth(path + "/" + segment) == PathDepth(path) + 1
  {
    var s := path + "/" + segment;
    assert !EndsWithSlash(s);
    TrimDoesNotChangeCount(s);
    TrimDoesNotChangeCount(path);
    SplitAppendSegment(path, segment);
    CountNonEmptySnoc(SplitSlash(path), segment);
  }

  /** The paths of the URLs in the crate's `test_url_depth_calculation`; the
      `url` crate parses `http://example.com` to the path `/`, and leaves the
      query and the fragment out of the path. */
  lemma PathDepthExamples()
    ensures PathDepth("/") == 0
    ensures PathDepth("/page") == 1
    ensures PathDepth("/category/page") == 2
    ensures PathDepth("/category/subcategory/page") == 3
    ensures PathDepth("/category/") == 1
  {
    RootDepth();
    PageDepth();
    CategoryPageDepth();
    DeepPageDepth();
    CategoryDirDepth();
  }

  lemma PageDepth()
    ensures PathDepth("/page") == 1
  {
    OneLevel("page");
    assert "/" + "page" == "/page";
  }

  lemma CategoryPageDepth()
    ensures PathDepth("/category/page") == 2
  {
    TwoLevels("category", "page");
    assert "/" + "category" + "/" + "page" == "/category/page";
  }

  lemma DeepPageDepth()
    ensures PathDepth("/category/subcategory/page") == 3
  {
    ThreeLevels("category", "subcategory", "page");
    DeepPath();
  }

  lemma DeepPath()
    ensures "/" + "category" + "/" + "subcategory" + "/" + "page" == "/category/subcategory/page"
  {
  }

  lemma CategoryDirDepth()
    ensures PathDepth("/category/") == 1
  {
    OneLevel("category");
    PathDepthTrailingSlash("/category");
    CategoryDirPath();
  }

  lemma CategoryDirPath()
    ensures "/" + "category" == "/category" && "/category" + "/" == "/category/"
  {
  }

  lemma RootDepth()
    ensures PathDepth("/") == 0
  {
    PathDepthTrailingSlash("");
    assert "" + "/" == "/";
  }

  predicate IsSegment(s: string) {
    s != [] && NoSlash(s)
  }

  lemma OneLevel(a: string)
    requires IsSegment(a)
    ensures PathDepth("/" + a) == 1
  {
    PathDepthAppendSegment("", a);
    assert "" + "/" + a == "/" + a;
  }

  lemma TwoLevels(a: string, b: string)
    requires IsSegment(a) && IsSegment(b)
    ensures PathDepth("/" + a + "/" + b) == 2
  {
    OneLevel(a);
    PathDepthAppendSegment("/" + a, b);
  }

  lemma ThreeLevels(a: string, b: string, c: string)
    requires IsSegment(a) && IsSegment(b) && IsSegment(c)
    ensures PathDepth("/" + a + "/" + b + "/" + c) == 3
  {
    TwoLevels(a, b);
    PathDepthAppendSegment("/" + a + "/" + b, c);
  }
}
