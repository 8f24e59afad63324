/** Small definitions that several modules share. */
module Basics {

  datatype Option<T> = None | Some(value: T)

  function Min(a: int, b: int): (m: int)
    ensures m <= a && m <= b && (m == a || m == b)
  {
    if a < b then a else b
  }

  function Max(a: int, b: int): (m: int)
    ensures a <= m && b <= m && (m == a || m == b)
  {
    if a < b then b else a
  }
}
