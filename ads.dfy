/**
 * An ad record as the scrapers build it: a Python dictionary from field
 * names ("title", "href", "price", ...) to strings. A field a source does not
 * fill is simply absent from the dictionary.
 */
module Ads {

  type Ad = map<string, string>

  /** Python's `ad.get(key, default)`. */
  function Get(ad: Ad, key: string, default: string): string {
    if key in ad then ad[key] else default
  }
}
