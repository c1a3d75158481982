/**
 * The URL helpers the browser borrows from Python and from its own utility
 * module. They are not modelled: each one is a function handed in by the
 * caller, so nothing is assumed about them beyond being functions.
 */
module Url {

  /** `urlparse(u).scheme`, `urlparse(u).netloc`, `urlparse(u).path` and `remove_www(netloc)`. */
  datatype UrlHelpers = UrlHelpers(
    scheme: string -> string,
    netloc: string -> string,
    path: string -> string,
    removeWww: string -> string)

  /** `re.search(pattern, text)` found a match. */
  type RegexSearch = (string, string) -> bool
}
