/** The optional-value type used throughout the model for PHP's `false`/`[]` sentinels. */
module Wrappers {

  datatype Option<+T> = None | Some(value: T)
}
