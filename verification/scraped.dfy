/**
 * What the scrapers read from a parsed HTML tree and what they emit.
 *
 * A record is a Python dict from field name to text. The HTML tree itself is
 * not modelled: where the scripts ask BeautifulSoup for a tag, the model is
 * given what that query returns.
 */
module Scraped {
  import opened Wrappers

  /** A dict of text fields, as the scrapers build and emit them. */
  type Record = map<string, string>

  /** An `<a>` tag: its text and its `href` attribute, when it has one. */
  datatype Anchor = Anchor(text: string, href: Option<string>)

  /**
   * `d.update(u)`: every key of `u` is added to `d` or overrides the value
   * `d` had for it; the other keys of `d` keep their values.
   */
  function Update(d: Record, u: Record): (r: Record)
    ensures r.Keys == d.Keys + u.Keys
    ensures forall k :: k in u ==> r[k] == u[k]
    ensures forall k :: k in d && k !in u ==> r[k] == d[k]
  {
    map k | k in d.Keys + u.Keys :: if k in u then u[k] else d[k]
  }
}
