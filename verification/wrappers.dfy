/** Optional values, standing in for the fields of a registry record that may
    be absent (`undefined`/`null` in the listing). */
module Wrappers {

  datatype Option<+T> = None | Some(value: T)
}
