/** The optional value used wherever the scraper either has something or has nothing:
    a page number that did not parse, a missing <h1>, a regular-expression match
    that did not start at a position. */
module Wrappers {

  datatype Option<+T> = None | Some(value: T)
}
