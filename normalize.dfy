/** `normalize_url` (src/main_v6.rs:65-67): every trailing slash trimmed, then
    lower-cased. The crawler strips the fragment before calling it. */
module Normalize {
  import opened Text

  function NormalizeUrl(url: string): string {
    ToLower(TrimEndSlashes(url))
  }

  /** Trimming removes a tail made only of slashes and leaves a string that
      does not end in one. */
  lemma {:induction false} TrimEndSlashesSpec(s: string)
    ensures var t := TrimEndSlashes(s);
      && |t| <= |s| && t == s[..|t|]
      && !EndsWithSlash(t)
      && (forall i :: |t| <= i < |s| ==> s[i] == '/')
  {
    if EndsWithSlash(s) {
      TrimEndSlashesSpec(s[..|s| - 1]);
    }
  }

  /** What `normalize_url` returns: the lower-cased prefix of the URL that is
      left after removing its tail of slashes, which no longer ends in one. */
  lemma NormalizeUrlSpec(url: string)
    ensures var r := NormalizeUrl(url);
      && !EndsWithSlash(r)
      && |r| <= |url|
      && (forall i :: 0 <= i < |r| ==> r[i] == LowerChar(url[i]))
      && (forall i :: |r| <= i < |url| ==> url[i] == '/')
  {
    var t := TrimEndSlashes(url);
    TrimEndSlashesSpec(url);
    if |t| > 0 {
      LowerCharIdempotent(t[|t| - 1]);
    }
  }

  lemma {:induction false} TrimLeavesNonSlash(s: string)
    requires !EndsWithSlash(s)
    ensures TrimEndSlashes(s) == s
  {
  }

  lemma {:induction false} ToLowerIdempotent(s: string)
    ensures ToLower(ToLower(s)) == ToLower(s)
  {
    forall i | 0 <= i < |s| ensures ToLower(ToLower(s))[i] == ToLower(s)[i] {
      LowerCharIdempotent(s[i]);
    }
  }

  /** Normalizing twice is normalizing once. */
  lemma {:induction false} NormalizeUrlIdempotent(url: string)
    ensures NormalizeUrl(NormalizeUrl(url)) == NormalizeUrl(url)
  {
    var r := NormalizeUrl(url);
    NormalizeUrlSpec(url);
    TrimLeavesNonSlash(r);
    ToLowerIdempotent(TrimEndSlashes(url));
  }

  /** An extra trailing slash does not change the normalized form. */
  lemma {:induction false} NormalizeUrlIgnoresTrailingSlash(url: string)
    ensures NormalizeUrl(url + "/") == NormalizeUrl(url)
  {
    assert (url + "/")[..|url|] == url;
  }

  lemma {:induction false} TrimEndSlashesOfLower(s: string)
    ensures TrimEndSlashes(ToLower(s)) == ToLower(TrimEndSlashes(s))
  {
    if EndsWithSlash(s) {
      LowerCharIdempotent(s[|s| - 1]);
      assert ToLower(s)[..|s| - 1] == ToLower(s[..|s| - 1]);
      TrimEndSlashesOfLower(s[..|s| - 1]);
    } else if |s| > 0 {
      LowerCharIdempotent(s[|s| - 1]);
    }
  }

  /** Letter case does not change the normalized form. */
  lemma {:induction false} NormalizeUrlIgnoresCase(url: string)
    ensures NormalizeUrl(ToLower(url)) == NormalizeUrl(url)
  {
    TrimEndSlashesOfLower(url);
    ToLowerIdempotent(TrimEndSlashes(url));
  }

  /** The examples asserted in the crate's `test_normalize_url`. */
  lemma NormalizeUrlExamples()
    ensures NormalizeUrl("http://example.com") == "http://example.com"
    ensures NormalizeUrl("http://example.com/") == "http://example.com"
    ensures NormalizeUrl("http://example.com/page/") == "http://example.com/page"
    ensures NormalizeUrl("http://example.com/PAGE/") == "http://example.com/page"
    ensures NormalizeUrl("HTTP://EXAMPLE.COM/PAGE") == "http://example.com/page"
  {
    NormalizedAlready("http://example.com");
    NormalizedAlready("http://example.com/page");
    MixedCasePage();
    UpperCaseUrl();
  }

  predicate HasNoUpper(s: string) {
    forall i :: 0 <= i < |s| ==> !('A' <= s[i] <= 'Z')
  }

  /** A lower-case URL that does not end in a slash is its own normal form,
      with or without one trailing slash. */
  lemma NormalizedAlready(url: string)
    requires url != [] && url[|url| - 1] != '/' && HasNoUpper(url)
    ensures NormalizeUrl(url) == url && NormalizeUrl(url + "/") == url
  {
    TrimLeavesNonSlash(url);
    NormalizeUrlIgnoresTrailingSlash(url);
  }

  lemma MixedCasePage()
    ensures NormalizeUrl("http://example.com/PAGE/") == "http://example.com/page"
  {
    var url := "http://example.com/PAGE";
    NormalizeUrlIgnoresTrailingSlash(url);
    assert url + "/" == "http://example.com/PAGE/";
    TrimLeavesNonSlash(url);
    assert ToLower(url) == "http://example.com/page" by {
      forall i | 0 <= i < |url| ensures ToLower(url)[i] == "http://example.com/page"[i] {
      }
    }
  }

  lemma UpperCaseUrl()
    ensures NormalizeUrl("HTTP://EXAMPLE.COM/PAGE") == "http://example.com/page"
  {
    var url := "HTTP://EXAMPLE.COM/PAGE";
    TrimLeavesNonSlash(url);
    assert ToLower(url) == "http://example.com/page" by {
      forall i | 0 <= i < |url| ensures ToLower(url)[i] == "http://example.com/page"[i] {
      }
    }
  }
}
