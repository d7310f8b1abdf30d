/** Optional values: `None` stands for a JavaScript result the model does not
    carry further (`NaN`, an Invalid Date). */
module Wrappers {

  datatype Option<+T> = None | Some(value: T)
}
