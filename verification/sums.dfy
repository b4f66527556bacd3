/** Finite sums Σ_{i < n} f(i) over exact rationals, and the two facts about
    them the least-squares proofs rely on: a sum of pointwise combinations is
    the combination of the sums, and pointwise domination carries over to the
    sums. */
module Sums {

  /** Σ_{i < n} f(i) */
  function Sum(n: nat, f: nat -> real): real
  {
    if n == 0 then 0.0 else Sum(n - 1, f) + f(n - 1)
  }

  /** Σ 1 = n */
  lemma {:induction false} SumOfOnes(n: nat, one: nat -> real)
    requires forall i :: 0 <= i < n ==> one(i) == 1.0
    ensures Sum(n, one) == n as real
  {
    if n > 0 {
      SumOfOnes(n - 1, one);
    }
  }

  /** The combination f + c·g + d·u; the sum lemmas below are stated with it so
      that callers match them term for term. */
  function Combine(f: real, c: real, g: real, d: real, u: real): real
  {
    f + c * g + d * u
  }

  /** Σ (f + c·g + d·u) = Σ f + c·Σ g + d·Σ u */
  lemma {:induction false} SumCombination(n: nat, h: nat -> real, f: nat -> real, g: nat -> real,
                                          u: nat -> real, c: real, d: real)
    requires forall i :: 0 <= i < n ==> h(i) == Combine(f(i), c, g(i), d, u(i))
    ensures Sum(n, h) == Combine(Sum(n, f), c, Sum(n, g), d, Sum(n, u))
  {
    if n > 0 {
      SumCombination(n - 1, h, f, g, u, c, d);
      CombinationStep(Sum(n - 1, h), Sum(n - 1, f), Sum(n - 1, g), Sum(n - 1, u),
                      h(n - 1), f(n - 1), g(n - 1), u(n - 1), c, d);
    }
  }

  /** h ≥ f + c·g + d·u pointwise gives Σ h ≥ Σ f + c·Σ g + d·Σ u */
  lemma {:induction false} SumDominates(n: nat, h: nat -> real, f: nat -> real, g: nat -> real,
                                        u: nat -> real, c: real, d: real)
    requires forall i :: 0 <= i < n ==> h(i) >= Combine(f(i), c, g(i), d, u(i))
    ensures Sum(n, h) >= Combine(Sum(n, f), c, Sum(n, g), d, Sum(n, u))
  {
    if n > 0 {
      SumDominates(n - 1, h, f, g, u, c, d);
      DominationStep(Sum(n - 1, h), Sum(n - 1, f), Sum(n - 1, g), Sum(n - 1, u),
                     h(n - 1), f(n - 1), g(n - 1), u(n - 1), c, d);
    }
  }

  lemma CombinationStep(sh: real, sf: real, sg: real, su: real,
                        h: real, f: real, g: real, u: real, c: real, d: real)
    requires sh == Combine(sf, c, sg, d, su)
    requires h == Combine(f, c, g, d, u)
    ensures sh + h == Combine(sf + f, c, sg + g, d, su + u)
  {
  }

  lemma DominationStep(sh: real, sf: real, sg: real, su: real,
                       h: real, f: real, g: real, u: real, c: real, d: real)
    requires sh >= Combine(sf, c, sg, d, su)
    requires h >= Combine(f, c, g, d, u)
    ensures sh + h >= Combine(sf + f, c, sg + g, d, su + u)
  {
  }
}
