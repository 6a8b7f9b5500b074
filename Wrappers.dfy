/** PHP's nullable values: a missing value (NULL, FALSE from a failed lookup) or a present one. */
module Wrappers {

  datatype Option<+T> = None | Some(value: T)

}
