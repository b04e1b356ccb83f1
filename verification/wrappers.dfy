/** Optional values: `None` stands for "no value", used where the source
    signals absence with an exception, a NaN or a sentinel. */
module Wrappers {

  datatype Option<+T> = None | Some(value: T)
}
