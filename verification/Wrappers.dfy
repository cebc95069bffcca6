/** The failure-carrying datatypes shared by every module. */
module Wrappers {

  datatype Option<+T> = None | Some(value: T)

  datatype Result<+T, +E> = Ok(value: T) | Err(error: E)

  /** The value of a success that has nothing to say. */
  datatype Unit = Unit

  function Min(a: int, b: int): int { if a < b then a else b }

  function Max(a: int, b: int): int { if a < b then b else a }

  /** The map that holds v at lo, ..., hi - 1. */
  function Filled<V>(lo: nat, hi: nat, v: V): (m: map<nat, V>)
    ensures forall i :: i in m <==> lo <= i < hi
    ensures forall i | i in m :: m[i] == v
    decreases hi
  {
    if hi <= lo then map[] else Filled(lo, hi - 1, v)[hi - 1 := v]
  }
}
