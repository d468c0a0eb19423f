/** Sequence and integer helpers shared by the planners. */
module Sequences {
  /** The parts one after the other. */
  ghost function Concat<T>(parts: seq<seq<T>>): seq<T> {
    if parts == [] then [] else Concat(parts[..|parts| - 1]) + parts[|parts| - 1]
  }

  /** `n / d`, rounded up. */
  function CeilDiv(n: nat, d: nat): nat
    requires d > 0
  {
    (n + d - 1) / d
  }

  lemma CeilDivBounds(n: nat, d: nat)
    requires d > 0
    ensures n <= d * CeilDiv(n, d) < n + d
  {
    assert n + d - 1 == d * ((n + d - 1) / d) + (n + d - 1) % d;
  }
}
