/** Optional values, used for the results of the decoders and parsers. */
module Wrappers {

  datatype Option<+T> = None | Some(value: T)
}
