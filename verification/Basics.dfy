/** Small definitions that the models share. */
module Basics {

  datatype Option<+T> = None | Some(value: T)

  function Max(a: int, b: int): int {
    if a >= b then a else b
  }

  /** `int(x)`: truncation toward zero. */
  function Truncate(x: real): int {
    if x >= 0.0 then x.Floor else -((-x).Floor)
  }

  /** Truncation is rounding down above zero and rounding up below it. */
  lemma TruncateTowardZero(x: real, n: int)
    ensures x >= 0.0 ==> (n <= Truncate(x) <==> n as real <= x)
    ensures x <= 0.0 ==> (n >= Truncate(x) <==> n as real >= x)
  {
  }

  /** `list.remove`: the first occurrence goes. */
  function RemoveFirst<T(==)>(items: seq<T>, item: T): seq<T> {
    if items == [] then []
    else if items[0] == item then items[1..]
    else [items[0]] + RemoveFirst(items[1..], item)
  }
}
