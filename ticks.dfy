/** Time as integer ticks, read from a scripted clock. */
module Ticks {
  /** A clock whose successive readings strictly increase: the `k`-th reading is `clock(k)`. */
  ghost predicate IsTicking(clock: nat -> int) {
    forall j: nat, k: nat :: j < k ==> clock(j) < clock(k)
  }
}
