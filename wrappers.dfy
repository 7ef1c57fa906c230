/** Optional values: `None` stands for a JavaScript `undefined`/`null` field or a missing row. */
module Wrappers {

  datatype Option<+T> = None | Some(value: T)
}
