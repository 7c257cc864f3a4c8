/** What the page asks of a randomizer (`() => number`): the value of its
    k-th call. Both `Math.random` and the closure built by `createRandom`
    are modelled as such an oracle, so selection and heart building are
    the same code whichever source feeds them. */
module Randomness {

  /** `rand(k)` is the value the randomizer returns on its k-th call (from 0). */
  type Randomizer = nat -> real

  /** The contract of `Math.random` and of the seeded generator: every call
      gives a value in [0, 1). */
  ghost predicate InUnitInterval(rand: Randomizer) {
    forall k: nat :: 0.0 <= rand(k) < 1.0
  }

  /** `Math.floor(r * n)`, computed over exact reals. */
  function ScaledIndex(r: real, n: nat): (i: int)
    ensures 0.0 <= r < 1.0 && n > 0 ==> 0 <= i < n
    ensures 0.0 <= r < 1.0 && n == 0 ==> i == 0
  {
    ScaledBelow(r, n);
    (r * n as real).Floor
  }

  /** For r in [0, 1) the scaled value r * n lies in [0, n). */
  lemma ScaledBelow(r: real, n: nat)
    ensures 0.0 <= r < 1.0 ==> 0.0 <= r * n as real && (n > 0 ==> r * n as real < n as real)
  {
    if 0.0 <= r < 1.0 && n > 0 {
      assert r * n as real < 1.0 * n as real;
    }
  }

  /** The value j / n in [0, 1) selects index j among n entries. */
  lemma ScaledIndexHits(j: nat, n: nat)
    requires j < n
    ensures 0.0 <= j as real / n as real < 1.0
    ensures ScaledIndex(j as real / n as real, n) == j
  {
    QuotientBelowOne(j as real, n as real);
    assert (j as real / n as real) * n as real == j as real;
  }

  /** For 0 <= a < b the quotient a / b lies in [0, 1). */
  lemma QuotientBelowOne(a: real, b: real)
    requires 0.0 <= a < b
    ensures 0.0 <= a / b < 1.0
  {
    assert a / b + (b - a) / b == 1.0;
    assert (b - a) / b > 0.0;
  }
}
