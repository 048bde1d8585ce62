/** An optional value: a nullable column, or a lookup that may find nothing. */
module Basics {
  datatype Option<+T> = None | Some(value: T)

  function Get<T>(o: Option<T>, default: T): T {
    match o case Some(v) => v case None => default
  }
}
