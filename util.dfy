/** Small shared helpers: the optional value used where the source returns
    None, and integer/real maxima and absolute values. */
module Util {

  datatype Option<T> = None | Some(value: T)

  function Max(a: int, b: int): int {
    if a < b then b else a
  }

  function Abs(r: real): real {
    if r < 0.0 then -r else r
  }

  /** Integer absolute value. */
  function IAbs(i: int): nat {
    if i < 0 then -i else i
  }
}
