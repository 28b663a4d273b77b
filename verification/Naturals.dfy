/** Finite sets of natural numbers. */
module Naturals {

  /** The numbers below n. */
  ghost function Below(n: nat): (r: set<nat>)
    ensures |r| == n
    ensures forall p :: p in r <==> 0 <= p < n
  {
    if n == 0 then {} else Below(n - 1) + {n - 1}
  }

  lemma Contained(a: set<nat>, b: set<nat>)
    requires a <= b
    ensures |a| <= |b|
  {
    assert b == a + (b - a);
  }

  /** The next position on a ring of n. */
  lemma RingStep(p: nat, n: nat)
    requires p < n
    ensures (p + 1) % n == if p + 1 == n then 0 else p + 1
  {}
}
