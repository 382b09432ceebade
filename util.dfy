/** Small helpers shared by the other modules. */
module Util {

  datatype Option<T> = None | Some(value: T)

  function Abs(x: int): nat {
    if x < 0 then -x else x
  }

  function Max(a: int, b: int): int {
    if a < b then b else a
  }

  function Min(a: int, b: int): int {
    if a < b then a else b
  }

  /** `Math.sign` on integers. */
  function Sign(x: int): int {
    if x > 0 then 1 else if x < 0 then -1 else 0
  }
}
