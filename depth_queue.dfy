/** The link queue of the two crawlers that carry a depth counter
    (src/main_v4.rs:26-41, src/main_v2.rs:28-38): every `href` that is not
    `tel:`/`mailto:` and resolves against the page, and that a
    variant-specific filter keeps, is queued as the serialized absolute URL
    with `current_depth + 1`. */
module DepthQueue {
  import opened Options
  import opened Text
  import opened CommandLine
  import opened Web

  /** A queue entry `(url, depth)`. */
  datatype Queued = Queued(url: string, depth: u32)

  /** `current_depth + 1` on a `u32` as a release build computes it. */
  function U32Succ(n: u32): (m: u32)
    ensures n < U32Limit - 1 ==> m == n + 1
    ensures n == U32Limit - 1 ==> m == 0
  {
    (n + 1) % U32Limit
  }

  /** Every entry of `log` from index `from` on is at depth at most `hi`. */
  predicate DepthsWithin(log: seq<Queued>, from: nat, hi: int) {
    forall i :: from <= i < |log| ==> log[i].depth <= hi
  }

  /** Every entry of `log` from index `from` on is deeper than `lo`. */
  predicate DepthsAbove(log: seq<Queued>, from: nat, lo: int) {
    forall i :: from <= i < |log| ==> lo < log[i].depth
  }

  lemma WithinJoin(before: seq<Queued>, after: seq<Queued>, from: nat, hi: int)
    requires before <= after && DepthsWithin(before, from, hi) && DepthsWithin(after, |before|, hi)
    ensures DepthsWithin(after, from, hi)
  {
  }

  lemma AboveJoin(before: seq<Queued>, after: seq<Queued>, from: nat, lo: int)
    requires before <= after && DepthsAbove(before, from, lo) && DepthsAbove(after, |before|, lo)
    ensures DepthsAbove(after, from, lo)
  {
  }

  lemma WithinHead(log: seq<Queued>, at: nat, q: Queued, hi: int)
    requires (at < |log| ==> log[at] == q) && q.depth <= hi && DepthsWithin(log, at + 1, hi)
    ensures DepthsWithin(log, at, hi)
  {
  }

  lemma AboveHead(log: seq<Queued>, at: nat, q: Queued, lo: int)
    requires (at < |log| ==> log[at] == q) && lo < q.depth && DepthsAbove(log, at + 1, q.depth)
    ensures DepthsAbove(log, at, lo)
  {
  }

  /** The absolute URL an `href` of the page at `pageUrl` leads to, unless
      it is a `tel:`/`mailto:` link or does not resolve. */
  function Target(lib: UrlLib, pageUrl: string, href: string): Option<string> {
    if Navigable(href) then lib.join(pageUrl, href) else None
  }

  /** Whether the `href` is queued under the filter `keep`. */
  predicate Admits(keep: string -> bool, lib: UrlLib, pageUrl: string, href: string) {
    Target(lib, pageUrl, href).Some? && keep(Target(lib, pageUrl, href).value)
  }

  /** The queue built from `hrefs`, in document order. */
  function Discover(keep: string -> bool, lib: UrlLib, pageUrl: string, hrefs: seq<string>, depth: u32): seq<Queued> {
    if hrefs == [] then []
    else
      var href := hrefs[|hrefs| - 1];
      Discover(keep, lib, pageUrl, hrefs[..|hrefs| - 1], depth)
      + (if Admits(keep, lib, pageUrl, href) then [Queued(Target(lib, pageUrl, href).value, depth)] else [])
  }

  /** An entry is queued exactly when some `href` of the page is admitted and
      leads to its URL, and every entry carries the given depth. */
  lemma {:induction false} DiscoverMembers(keep: string -> bool, lib: UrlLib, pageUrl: string, hrefs: seq<string>,
                                           depth: u32, q: Queued)
    ensures q in Discover(keep, lib, pageUrl, hrefs, depth) <==>
      && q.depth == depth
      && exists i :: 0 <= i < |hrefs| && Admits(keep, lib, pageUrl, hrefs[i]) && Target(lib, pageUrl, hrefs[i]).value == q.url
  {
    if hrefs != [] {
      var front := hrefs[..|hrefs| - 1];
      var href := hrefs[|hrefs| - 1];
      DiscoverMembers(keep, lib, pageUrl, front, depth, q);
      if q in Discover(keep, lib, pageUrl, hrefs, depth) {
        if q !in Discover(keep, lib, pageUrl, front, depth) {
          assert Admits(keep, lib, pageUrl, hrefs[|hrefs| - 1]);
        } else {
          var i :| 0 <= i < |front| && Admits(keep, lib, pageUrl, front[i]) && Target(lib, pageUrl, front[i]).value == q.url;
          assert hrefs[i] == front[i];
        }
      } else if q.depth == depth {
        forall i | 0 <= i < |hrefs| && Admits(keep, lib, pageUrl, hrefs[i])
          ensures Target(lib, pageUrl, hrefs[i]).value != q.url
        {
          if i < |front| {
            assert hrefs[i] == front[i];
          }
        }
      }
    }
  }

  /** The queue of a longer page begins with the queue of its first part. */
  lemma {:induction false} DiscoverKeepsOrder(keep: string -> bool, lib: UrlLib, pageUrl: string,
                                              hrefs: seq<string>, more: seq<string>, depth: u32)
    ensures Discover(keep, lib, pageUrl, hrefs, depth) <= Discover(keep, lib, pageUrl, hrefs + more, depth)
    decreases |more|
  {
    if more == [] {
      assert hrefs + more == hrefs;
    } else {
      var all := hrefs + more;
      assert all[..|all| - 1] == hrefs + more[..|more| - 1];
      DiscoverKeepsOrder(keep, lib, pageUrl, hrefs, more[..|more| - 1], depth);
    }
  }
}
