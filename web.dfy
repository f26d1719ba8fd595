/** What the crawler sees of the outside world. The web is a map from a URL,
    as `reqwest::get` is given it, to the page it serves: the HTTP status and
    the `href` values of its `<a>` elements in document order; a URL that is
    not in the map is a transport error. The `url` crate's parsing, joining,
    host extraction and fragment removal are uninterpreted functions. */
module Web {
  import opened Options
  import opened Text

  datatype Page = Page(status: nat, hrefs: seq<string>)

  type WebMap = map<string, Page>

  const NotFound: nat := 404

  /** The pieces of the `url` crate the crawlers use, on serialized URLs:
      `join(base, href)` is `Url::parse(base)?.join(href)` serialized, `None`
      when the reference does not resolve; `domain(u)` is `Url::domain`;
      `clearFragment(u)` is `set_fragment(None)` followed by `to_string()`. */
  datatype UrlLib = UrlLib(
    join: (string, string) -> Option<string>,
    domain: string -> Option<string>,
    clearFragment: string -> string)

  /** A page that the crawler scans once fetched: present, and not a 404. */
  predicate Scanned(web: WebMap, url: string) {
    url in web && web[url].status != NotFound
  }

  /** How a `crawl` call ends: `Ok(())`, or an error that `?` propagates to
      the caller and that ends the whole run. */
  datatype Outcome = Done | Abort

  /** The scheme filter: `tel:` and `mailto:` links are never followed. */
  predicate Navigable(href: string) {
    !StartsWith(href, "tel:") && !StartsWith(href, "mailto:")
  }
}
