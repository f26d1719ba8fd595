/** Pattern classification: `get_url_pattern` of src/main_v6.rs (first match
    over an ordered list of regular expressions, falling back to the URL), the
    built-in default pattern `/\d+`, the `/\d+` -> `/{number}` rewrite of
    src/main_v5.rs, and the de-duplicating pattern loader. */
module Patterns {
  import opened Options
  import opened Text
  import opened SeqFacts

  /** The source text of the built-in pattern, `r"/\d+"`. */
  const DefaultPattern: string := "/\\d+"

  /** Where the default pattern `/\d+` matches: a slash followed by a digit. */
  predicate ContainsSlashDigit(s: string) {
    exists i :: 0 <= i < |s| - 1 && s[i] == '/' && IsDigit(s[i + 1])
  }

  /** `Regex::is_match`. User-supplied expressions are decided by `userRegex`,
      about which nothing is assumed; the default pattern is decided concretely. */
  predicate Matches(userRegex: (string, string) -> bool, pattern: string, url: string) {
    if pattern == DefaultPattern then ContainsSlashDigit(url) else userRegex(pattern, url)
  }

  /** `get_url_pattern` of src/main_v6.rs: the source text of the first pattern
      that matches the URL, or the URL itself when none does. */
  function UrlPattern(url: string, patterns: seq<string>, userRegex: (string, string) -> bool): string {
    if patterns == [] then url
    else if Matches(userRegex, patterns[0], url) then patterns[0]
    else UrlPattern(url, patterns[1..], userRegex)
  }

  /** Pattern `i` matches the URL and no earlier one does. */
  predicate FirstMatchAt(url: string, patterns: seq<string>, userRegex: (string, string) -> bool, i: int) {
    && 0 <= i < |patterns|
    && Matches(userRegex, patterns[i], url)
    && forall j :: 0 <= j < i ==> !Matches(userRegex, patterns[j], url)
  }

  /** The bucket is the first pattern, in list order, that matches; the URL
      itself is its own bucket when no pattern matches. */
  lemma {:induction false} UrlPatternIsFirstMatch(url: string, patterns: seq<string>, userRegex: (string, string) -> bool)
    ensures (forall i :: 0 <= i < |patterns| ==> !Matches(userRegex, patterns[i], url))
      ==> UrlPattern(url, patterns, userRegex) == url
    ensures forall i :: FirstMatchAt(url, patterns, userRegex, i) ==> UrlPattern(url, patterns, userRegex) == patterns[i]
  {
    if patterns != [] {
      UrlPatternIsFirstMatch(url, patterns[1..], userRegex);
      if !Matches(userRegex, patterns[0], url) {
        forall i | FirstMatchAt(url, patterns, userRegex, i)
          ensures UrlPattern(url, patterns, userRegex) == patterns[i]
        {
          assert i > 0;
          assert patterns[i] == patterns[1..][i - 1];
          assert FirstMatchAt(url, patterns[1..], userRegex, i - 1) by {
            forall j | 0 <= j < i - 1 ensures !Matches(userRegex, patterns[1..][j], url) {
              assert patterns[1..][j] == patterns[j + 1];
            }
          }
        }
      }
    }
  }

  /** With no pattern file, a URL falls in the `/\d+` bucket exactly when it
      holds a slash followed by a digit, and is its own bucket otherwise. */
  lemma DefaultPatternBuckets(url: string, userRegex: (string, string) -> bool)
    ensures ContainsSlashDigit(url) ==> UrlPattern(url, [DefaultPattern], userRegex) == DefaultPattern
    ensures !ContainsSlashDigit(url) ==> UrlPattern(url, [DefaultPattern], userRegex) == url
  {
  }

  /** Length of the run of digits that starts the string. */
  function DigitRun(s: string): (n: nat)
    ensures n <= |s|
    ensures n < |s| ==> !IsDigit(s[n])
  {
    if s != [] && IsDigit(s[0]) then 1 + DigitRun(s[1..]) else 0
  }

  /** `get_url_pattern` of src/main_v5.rs: `Regex::new(r"/\d+").replace_all(url, "/{number}")`.
      Matches are found left to right and do not overlap, and `\d+` is greedy,
      so every slash followed by a maximal run of digits is replaced. */
  function RewriteNumbers(s: string): string
    decreases |s|
  {
    if s == [] then [] else HeadImage(s) + RewriteNumbers(s[HeadLength(s)..])
  }

  /** The replacement text. */
  const NumberToken: string := "/{number}"

  /** A match of `/\d+` starts here. */
  predicate StartsMatch(s: string) {
    |s| > 1 && s[0] == '/' && IsDigit(s[1])
  }

  /** How much of the string the rewrite consumes in one step: a whole match,
      or one character. */
  function HeadLength(s: string): (n: nat)
    requires s != []
    ensures 1 <= n <= |s|
  {
    if StartsMatch(s) then 1 + DigitRun(s[1..]) else 1
  }

  /** What that step writes. */
  function HeadImage(s: string): string
    requires s != []
  {
    if StartsMatch(s) then NumberToken else [s[0]]
  }

  lemma RewriteKeepsFirst(s: string)
    requires s != []
    ensures RewriteNumbers(s) != [] && RewriteNumbers(s)[0] == s[0]
  {
  }

  lemma ConcatNoSlashDigit(a: string, b: string)
    requires !ContainsSlashDigit(a) && !ContainsSlashDigit(b)
    requires a == [] || b == [] || a[|a| - 1] != '/' || !IsDigit(b[0])
    ensures !ContainsSlashDigit(a + b)
  {
    var ab := a + b;
    forall i | 0 <= i < |ab| - 1 && ab[i] == '/' ensures !IsDigit(ab[i + 1]) {
      if i + 1 < |a| {
        assert a[i] == '/';
      } else if i >= |a| {
        assert b[i - |a|] == '/' && ab[i + 1] == b[i - |a| + 1];
      }
    }
  }

  /** After the rewrite no slash is followed by a digit. */
  lemma {:induction false} RewriteLeavesNoSlashDigit(s: string)
    ensures !ContainsSlashDigit(RewriteNumbers(s))
    decreases |s|
  {
    if s == [] {
    } else if StartsMatch(s) {
      var rest := s[HeadLength(s)..];
      RewriteLeavesNoSlashDigit(rest);
      assert !ContainsSlashDigit(NumberToken) by {
        var t := NumberToken;
        forall i | 0 <= i < |t| - 1 ensures !(t[i] == '/' && IsDigit(t[i + 1])) {
        }
      }
      ConcatNoSlashDigit(NumberToken, RewriteNumbers(rest));
    } else {
      RewriteLeavesNoSlashDigit(s[1..]);
      if s[1..] != [] {
        RewriteKeepsFirst(s[1..]);
      }
      ConcatNoSlashDigit([s[0]], RewriteNumbers(s[1..]));
    }
  }

  /** A string without a slash followed by a digit passes through unchanged. */
  lemma {:induction false} RewriteIdentity(s: string)
    requires !ContainsSlashDigit(s)
    ensures RewriteNumbers(s) == s
    decreases |s|
  {
    if s != [] {
      assert !ContainsSlashDigit(s[1..]) by {
        forall i | 0 <= i < |s[1..]| - 1 && s[1..][i] == '/' ensures !IsDigit(s[1..][i + 1]) {
          assert s[i + 1] == '/';
        }
      }
      RewriteIdentity(s[1..]);
    }
  }

  /** The rewrite changes a string exactly when it holds a slash followed by
      a digit. */
  lemma RewriteChangesIff(s: string)
    ensures RewriteNumbers(s) == s <==> !ContainsSlashDigit(s)
  {
    RewriteLeavesNoSlashDigit(s);
    if !ContainsSlashDigit(s) {
      RewriteIdentity(s);
    }
  }

  /** Rewriting twice is rewriting once. */
  lemma RewriteIdempotent(s: string)
    ensures RewriteNumbers(RewriteNumbers(s)) == RewriteNumbers(s)
  {
    RewriteLeavesNoSlashDigit(s);
    RewriteIdentity(RewriteNumbers(s));
  }

  lemma {:induction false} DigitRunAppend(a: string, t: string)
    requires t == [] || !IsDigit(t[0])
    ensures DigitRun(a + t) == DigitRun(a)
  {
    if a != [] && IsDigit(a[0]) {
      assert (a + t)[1..] == a[1..] + t;
      DigitRunAppend(a[1..], t);
    } else if a == [] {
      assert a + t == t;
    }
  }

  /** The rewrite works piecewise when the second piece does not start with
      a digit, since no match can straddle the seam. */
  lemma {:induction false} RewriteAppend(s: string, t: string)
    requires t == [] || !IsDigit(t[0])
    ensures RewriteNumbers(s + t) == RewriteNumbers(s) + RewriteNumbers(t)
    decreases |s|
  {
    if s == [] {
      assert s + t == t;
    } else {
      HeadOfAppend(s, t);
      var n := HeadLength(s);
      DropAppend(s, t, n);
      RewriteAppend(s[n..], t);
      assert RewriteNumbers(s + t) == HeadImage(s) + (RewriteNumbers(s[n..]) + RewriteNumbers(t));
    }
  }

  /** Appending a piece that does not start with a digit does not change the
      first step of the rewrite. */
  lemma HeadOfAppend(s: string, t: string)
    requires s != []
    requires t == [] || !IsDigit(t[0])
    ensures StartsMatch(s + t) == StartsMatch(s)
    ensures HeadLength(s + t) == HeadLength(s) && HeadImage(s + t) == HeadImage(s)
  {
    var st := s + t;
    if |s| > 1 {
      assert st[1] == s[1];
    } else if t != [] {
      assert st[1] == t[0];
    }
    if StartsMatch(s) {
      assert st[1..] == s[1..] + t;
      DigitRunAppend(s[1..], t);
    }
  }

  /** URLs that differ only in the digits after one slash fall in the same
      bucket: `/article/123` and `/article/45` both become `/article/{number}`. */
  lemma {:induction false} NumbersShareBucket(prefix: string, digits: string, tail: string)
    requires digits != [] && forall i :: 0 <= i < |digits| ==> IsDigit(digits[i])
    requires tail == [] || !IsDigit(tail[0])
    ensures RewriteNumbers(prefix + "/" + digits + tail)
         == RewriteNumbers(prefix) + NumberToken + RewriteNumbers(tail)
  {
    var rest := "/" + digits + tail;
    RewriteNumberRun(digits, tail);
    RewriteAppend(prefix, rest);
    ConcatAssoc(prefix, "/", digits);
    ConcatAssoc(prefix, "/" + digits, tail);
    ConcatAssoc(RewriteNumbers(prefix), NumberToken, RewriteNumbers(tail));
  }

  lemma {:induction false} RewriteNumberRun(digits: string, tail: string)
    requires digits != [] && forall i :: 0 <= i < |digits| ==> IsDigit(digits[i])
    requires tail == [] || !IsDigit(tail[0])
    ensures ("/" + digits + tail)[0] == '/'
    ensures RewriteNumbers("/" + digits + tail) == NumberToken + RewriteNumbers(tail)
  {
    var rest := "/" + digits + tail;
    assert rest[0] == '/' && rest[1] == digits[0];
    assert rest[1..] == digits + tail;
    DigitRunAllDigits(digits, tail);
    assert HeadLength(rest) == 1 + |digits|;
    assert rest[1 + |digits|..] == tail;
  }

  lemma {:induction false} DigitRunAllDigits(digits: string, tail: string)
    requires forall i :: 0 <= i < |digits| ==> IsDigit(digits[i])
    requires tail == [] || !IsDigit(tail[0])
    ensures DigitRun(digits + tail) == |digits|
  {
    DigitRunAppend(digits, tail);
  }

  /** The distinct non-empty trimmed lines of a pattern file. */
  function UniqueLines(lines: seq<string>): set<string> {
    set i | 0 <= i < |lines| && Trim(lines[i]) != [] :: Trim(lines[i])
  }

  lemma UniqueLinesSnoc(lines: seq<string>, line: string)
    ensures UniqueLines(lines + [line])
         == UniqueLines(lines) + (if Trim(line) != [] then {Trim(line)} else {})
  {
    var ls := lines + [line];
    forall p | p in UniqueLines(lines) ensures p in UniqueLines(ls) {
      var i :| 0 <= i < |lines| && Trim(lines[i]) != [] && p == Trim(lines[i]);
      assert ls[i] == lines[i];
    }
    if Trim(line) != [] {
      assert ls[|lines|] == line;
    }
  }

  /** `load_unique_patterns` (src/main_v6.rs:78-97) after the file has been read
      into `lines`: every line is trimmed and kept if non-empty, duplicates
      collapse in a set, and the set is compiled in its own iteration order,
      modelled here by an arbitrary choice. `compiles` says which sources
      `Regex::new` accepts; the first rejected source is the error. */
  method LoadUniquePatterns(lines: seq<string>, compiles: string -> bool) returns (r: Result<seq<string>, string>)
    ensures r.Ok? <==> forall p :: p in UniqueLines(lines) ==> compiles(p)
    ensures r.Ok? ==> forall p :: p in r.value <==> p in UniqueLines(lines)
    ensures r.Ok? ==> forall i, j :: 0 <= i < j < |r.value| ==> r.value[i] != r.value[j]
    ensures r.Ok? ==> |r.value| == |UniqueLines(lines)|
    ensures r.Err? ==> r.error in UniqueLines(lines) && !compiles(r.error)
  {
    var unique: set<string> := {};
    var i := 0;
    while i < |lines|
      invariant 0 <= i <= |lines|
      invariant unique == UniqueLines(lines[..i])
    {
      var pattern := Trim(lines[i]);
      if pattern != [] {
        unique := unique + {pattern};
      }
      assert lines[..i + 1] == lines[..i] + [lines[i]];
      UniqueLinesSnoc(lines[..i], lines[i]);
      i := i + 1;
    }
    assert lines[..i] == lines;

    var rest := unique;
    var compiled: seq<string> := [];
    while rest != {}
      invariant rest <= unique
      invariant forall p :: p in compiled <==> p in unique && p !in rest
      invariant forall a, b :: 0 <= a < b < |compiled| ==> compiled[a] != compiled[b]
      invariant forall p :: p in compiled ==> compiles(p)
      invariant |compiled| + |rest| == |unique|
      decreases rest
    {
      var p :| p in rest;
      if !compiles(p) {
        return Err(p);
      }
      compiled := compiled + [p];
      rest := rest - {p};
    }
    return Ok(compiled);
  }

  /** The crate's `test_load_unique_patterns`: four lines, one repeated, give
      exactly three patterns, one per distinct line. */
  lemma LoadExample()
    ensures var lines := ["/news/\\d+", "/article/\\d+", "/blog/\\d{4}/\\d{2}/\\d{2}/.*", "/news/\\d+"];
      UniqueLines(lines) == {"/news/\\d+", "/article/\\d+", "/blog/\\d{4}/\\d{2}/\\d{2}/.*"}
      && |UniqueLines(lines)| == 3
  {
    var news, article, blog := "/news/\\d+", "/article/\\d+", "/blog/\\d{4}/\\d{2}/\\d{2}/.*";
    var lines := [news, article, blog, news];
    TrimUntouched(news);
    TrimUntouched(article);
    TrimUntouched(blog);
    assert lines[0] == news && lines[1] == article && lines[2] == blog && lines[3] == news;
    var u := UniqueLines(lines);
    assert news in u && article in u && blog in u;
    assert u == {news, article, blog};
    assert news[1] != article[1] && news[1] != blog[1] && article[1] != blog[1];
  }
}
