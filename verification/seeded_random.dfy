/** The seeded generator `createRandom`: a seed is folded into an initial
    state, and every call of the returned closure takes one Lehmer
    (Park–Miller) step and answers the new state over the modulus.
    JavaScript computes every value here exactly (each is below 2^53), so
    unbounded integers are faithful. */
module SeededRandom {
  import opened Randomness

  /** 2^31 - 1, the modulus of the fold and of every step. */
  const MODULUS: int := 2147483647
  /** The multiplier of each generator step. */
  const MULTIPLIER: int := 48271
  /** The state that replaces a seed folding to zero. */
  const ZERO_FALLBACK: int := 137
  /** The inverse of MULTIPLIER modulo MODULUS:
      MULTIPLIER * INVERSE == INVERSE_QUOTIENT * MODULUS + 1. */
  const INVERSE: int := 1899818559
  const INVERSE_QUOTIENT: int := 42704

  /** One UTF-16 code unit, as `String.prototype.charCodeAt` returns it. */
  type CodeUnit = c: int | 0 <= c < 0x1_0000

  /** JavaScript's `%` operator: the remainder takes the sign of the
      dividend, so it agrees with Dafny's `%` only for a non-negative one. */
  function JsRem(a: int, b: int): (r: int)
    requires b > 0
    ensures a >= 0 ==> 0 <= r < b && r == a % b
    ensures a < 0 ==> -b < r <= 0 && r == -((-a) % b)
  {
    if a >= 0 then a % b else -((-a) % b)
  }

  /** `x & 0x7fffffff` on a JavaScript number: ToInt32 takes x modulo 2^32
      as a two's-complement word and the mask keeps its low 31 bits, which
      is x modulo 2^31 for every integer x. */
  function Mask31(x: int): (r: int)
    ensures 0 <= r < 0x8000_0000
    ensures 0 <= x < 0x8000_0000 ==> r == x
  {
    x % 0x8000_0000
  }

  /** The state of the seed fold after the first n code units. */
  function FoldPrefix(seed: seq<CodeUnit>, n: nat): (s: int)
    requires n <= |seed|
    ensures 0 <= s < MODULUS
  {
    if n == 0 then 0
    else JsRem(FoldPrefix(seed, n - 1) + seed[n - 1] * (n - 1 + 3), MODULUS)
  }

  /** The generator state once the seed is folded and a zero state replaced. */
  function SeedState(seed: seq<CodeUnit>): (s: int)
    ensures 1 <= s < MODULUS
    ensures FoldPrefix(seed, |seed|) != 0 ==> s == FoldPrefix(seed, |seed|)
  {
    var folded := FoldPrefix(seed, |seed|);
    if folded == 0 then ZERO_FALLBACK else folded
  }

  /** One generator step. */
  function Step(s: int): (t: int)
    ensures 0 <= s ==> 0 <= t < MODULUS
  {
    JsRem(s * MULTIPLIER, MODULUS)
  }

  /** The state after k steps from s. */
  function Iterate(s: int, k: nat): (t: int)
    ensures 0 <= s ==> 0 <= t
    ensures 0 <= s < MODULUS ==> t < MODULUS
  {
    if k == 0 then s else Step(Iterate(s, k - 1))
  }

  /** The value a call returns once it has moved the state to s: on a
      reachable state the mask changes nothing, so it is s over the modulus. */
  function Output(s: int): (r: real)
    ensures 0 <= s < MODULUS ==> r * MODULUS as real == s as real
  {
    Mask31(s) as real / MODULUS as real
  }

  /** The randomizer `createRandom(seed)` returns: its k-th call answers the
      state after k + 1 steps over the modulus. */
  function Draws(seed: seq<CodeUnit>): (rand: Randomizer)
    ensures forall k: nat :: rand(k) * MODULUS as real == Iterate(SeedState(seed), k + 1) as real
  {
    (k: nat) => Output(Iterate(SeedState(seed), k + 1))
  }

  /** The closure returned by `createRandom`, with the state it captures.
      The ghost fields record the seed and how many calls were made, so that
      the invariant states that the generator is a function of the seed:
      after the same number of calls the same seed gives the same state. */
  class Generator {
    var state: int
    ghost const seed: seq<CodeUnit>
    ghost var calls: nat

    ghost predicate Valid()
      reads this
    {
      state == Iterate(SeedState(seed), calls)
    }

    /** `createRandom(seed)`: fold the code units, then replace zero by 137. */
    constructor (seed: seq<CodeUnit>)
      ensures Valid() && this.seed == seed && calls == 0
      ensures 1 <= state < MODULUS
    {
      var s := 0;
      var i := 0;
      while i < |seed|
        invariant 0 <= i <= |seed|
        invariant s == FoldPrefix(seed, i)
      {
        s := JsRem(s + seed[i] * (i + 3), MODULUS);
        i := i + 1;
      }
      if s == 0 {
        s := ZERO_FALLBACK;
      }
      state := s;
      this.seed := seed;
      calls := 0;
    }

    /** One call of the closure: step the captured state and answer it
        over the modulus. */
    method Next() returns (r: real)
      requires Valid()
      modifies this
      ensures Valid() && calls == old(calls) + 1
      ensures 1 <= state < MODULUS
      ensures r == Draws(seed)(old(calls))
      ensures 0.0 <= r < 1.0
    {
      IterateInRange(SeedState(seed), calls + 1);
      state := Step(state);
      OutputInjective(state, 0);
      r := Output(state);
      calls := calls + 1;
    }
  }

  /** The inverse of the multiplier: if d * MULTIPLIER is a multiple of the
      modulus and |d| is below it, then d is zero. This is what 2^31 - 1
      being prime gives, obtained here from an explicit inverse. */
  lemma MultipleOfModulus(d: int)
    requires -MODULUS < d < MODULUS
    requires (d * MULTIPLIER) % MODULUS == 0
    ensures d == 0
  {
    var q := (d * MULTIPLIER) / MODULUS;
    assert d * MULTIPLIER == q * MODULUS;
    assert MULTIPLIER * INVERSE == INVERSE_QUOTIENT * MODULUS + 1;
    calc {
      d;
      d * (MULTIPLIER * INVERSE) - d * (INVERSE_QUOTIENT * MODULUS);
      (d * MULTIPLIER) * INVERSE - (d * INVERSE_QUOTIENT) * MODULUS;
      (q * MODULUS) * INVERSE - (d * INVERSE_QUOTIENT) * MODULUS;
      (q * INVERSE - d * INVERSE_QUOTIENT) * MODULUS;
    }
  }

  /** Two states in [0, 2^31 - 1) that step to the same state are equal. */
  lemma StepInjective(a: int, b: int)
    requires 0 <= a < MODULUS && 0 <= b < MODULUS
    requires Step(a) == Step(b)
    ensures a == b
  {
    var ra, rb := (a * MULTIPLIER) % MODULUS, (b * MULTIPLIER) % MODULUS;
    assert a * MULTIPLIER == (a * MULTIPLIER) / MODULUS * MODULUS + ra;
    assert b * MULTIPLIER == (b * MULTIPLIER) / MODULUS * MODULUS + rb;
    assert (a - b) * MULTIPLIER == ((a * MULTIPLIER) / MODULUS - (b * MULTIPLIER) / MODULUS) * MODULUS;
    MultipleOfModulus(a - b);
  }

  /** A non-zero state never steps to zero. */
  lemma StepNonZero(s: int)
    requires 1 <= s < MODULUS
    ensures 1 <= Step(s) < MODULUS
  {
    assert Step(0) == 0;
    if Step(s) == 0 {
      StepInjective(s, 0);
    }
  }

  /** Every state reached from a seeded state stays in [1, 2^31 - 2]. */
  lemma {:induction false} IterateInRange(s: int, k: nat)
    requires 1 <= s < MODULUS
    ensures 1 <= Iterate(s, k) < MODULUS
  {
    if k > 0 {
      IterateInRange(s, k - 1);
      StepNonZero(Iterate(s, k - 1));
    }
  }

  /** Distinct starting states stay distinct at every step. */
  lemma {:induction false} IterateInjective(a: int, b: int, k: nat)
    requires 0 <= a < MODULUS && 0 <= b < MODULUS && a != b
    ensures Iterate(a, k) != Iterate(b, k)
  {
    if k > 0 {
      IterateInjective(a, b, k - 1);
      if Iterate(a, k) == Iterate(b, k) {
        StepInjective(Iterate(a, k - 1), Iterate(b, k - 1));
      }
    }
  }

  /** Within the range of reachable states the mask changes nothing, so
      distinct states give distinct outputs, each in [0, 1). */
  lemma OutputInjective(a: int, b: int)
    requires 0 <= a < MODULUS && 0 <= b < MODULUS
    ensures 0.0 <= Output(a) < 1.0
    ensures Output(a) == Output(b) <==> a == b
  {
  }

  /** Every call of a seeded randomizer gives a value in [0, 1). */
  lemma DrawsInUnitInterval(seed: seq<CodeUnit>)
    ensures InUnitInterval(Draws(seed))
  {
    forall k: nat
      ensures 0.0 <= Draws(seed)(k) < 1.0
    {
      IterateInRange(SeedState(seed), k + 1);
      OutputInjective(Iterate(SeedState(seed), k + 1), 0);
    }
  }

  /** Seeds whose initial states differ give sequences that differ at every call. */
  lemma DistinctStatesDistinctDraws(seed1: seq<CodeUnit>, seed2: seq<CodeUnit>, k: nat)
    requires SeedState(seed1) != SeedState(seed2)
    ensures Draws(seed1)(k) != Draws(seed2)(k)
  {
    var s1, s2 := SeedState(seed1), SeedState(seed2);
    IterateInjective(s1, s2, k + 1);
    IterateInRange(s1, k + 1);
    IterateInRange(s2, k + 1);
    OutputInjective(Iterate(s1, k + 1), Iterate(s2, k + 1));
  }

  /** The seeds "a" and "b" give different first values. */
  lemma SeedsAAndBDiffer()
    ensures Draws(['a' as int])(0) != Draws(['b' as int])(0)
  {
    assert FoldPrefix(['a' as int], 1) == 291;
    assert FoldPrefix(['b' as int], 1) == 294;
    DistinctStatesDistinctDraws(['a' as int], ['b' as int], 0);
  }

  /** The empty seed folds to zero and starts from 137, and its first ten
      values are pairwise distinct, so the sequence is not degenerate. */
  lemma EmptySeedNotDegenerate()
    ensures SeedState([]) == ZERO_FALLBACK
    ensures forall i, j :: 0 <= i < j < 10 ==> Draws([])(i) != Draws([])(j)
  {
    var states := [6613127, 1394673661, 827440328, 323722335, 1309817213,
                   2120637396, 1184740767, 1132044247, 38965375, 1849425500];
    assert Iterate(137, 1) == states[0];
    assert Iterate(137, 2) == states[1];
    assert Iterate(137, 3) == states[2];
    assert Iterate(137, 4) == states[3];
    assert Iterate(137, 5) == states[4];
    assert Iterate(137, 6) == states[5];
    assert Iterate(137, 7) == states[6];
    assert Iterate(137, 8) == states[7];
    assert Iterate(137, 9) == states[8];
    assert Iterate(137, 10) == states[9];
    assert SeedState([]) == 137;
    forall k | 0 <= k < 10
      ensures Draws([])(k) == Output(states[k])
    {
      assert k == 0 || k == 1 || k == 2 || k == 3 || k == 4 || k == 5 || k == 6 || k == 7 || k == 8 || k == 9;
    }
    forall i, j | 0 <= i < j < 10
      ensures Draws([])(i) != Draws([])(j)
    {
      OutputInjective(states[i], states[j]);
    }
  }
}
