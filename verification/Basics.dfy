/** Types shared by several components. */
module Basics {

  datatype Option<T> = None | Some(value: T)

  predicate Rising(s: seq<nat>) { forall i, j :: 0 <= i < j < |s| ==> s[i] < s[j] }

  /** A running transaction: its number and the time it started at. */
  datatype Tx = Tx(id: nat, start: int)

  const NO_TX: nat := 0

  /** The time of a mark that is not committed. */
  const NO_TIME: int := -1
}
