/** Optional values: Python's `None` (a missing dictionary entry) and a
    regular-expression search that found nothing. */
module Wrappers {

  datatype Option<+T> = None | Some(value: T)

}
