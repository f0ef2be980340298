/** Optional values, for results the firmware may not produce. */
module Wrappers {

  datatype Option<+T> = None | Some(value: T)
}
