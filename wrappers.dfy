/** Optional values, for attributes and page metadata that may be absent. */
module Wrappers {

  datatype Option<+T> = None | Some(value: T)

  function Min(a: int, b: int): int
  {
    if a <= b then a else b
  }
}
