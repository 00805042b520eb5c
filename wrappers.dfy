/** The optional value used wherever the scraper holds "a value or None". */
module Wrappers {

  datatype Option<+T> = None | Some(value: T)
}
