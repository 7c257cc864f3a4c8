/** The affirmation pool, the accent gradients, and the non-repeating
    selection `pickRandomAffirmation`. */
module Selection {
  import opened Wrappers
  import opened Randomness

  /** The pool of affirmations, in source order. */
  const AFFIRMATIONS: seq<string> := [
    "You radiate kindness, and the world mirrors it back to you.",
    "Your light makes every room softer and every heart warmer.",
    "You are resilient, brilliant, and beautifully unstoppable.",
    "Your dreams are valid, gorgeous, and entirely within reach.",
    "You carry grace in your smile and courage in your heart.",
    "You are more than enough exactly as you are today.",
    "Your softness is your strength and your sparkle is endless.",
    "You are the main character and the plot always favors you.",
    "You bloom in your own season, and it is breathtaking to watch.",
    "You deserve every good thing finding its way to you."
  ]

  /** The background gradient classes, in source order. */
  const ACCENT_GRADIENTS: seq<string> := [
    "from-rose-200 via-pink-100 to-amber-100",
    "from-pink-100 via-rose-50 to-fuchsia-100",
    "from-amber-100 via-rose-50 to-pink-100"
  ]

  /** No entry of the sequence occurs twice. */
  predicate Distinct(xs: seq<string>) {
    forall i, j :: 0 <= i < j < |xs| ==> xs[i] != xs[j]
  }

  /** `pool.filter((item) => item !== current)`: the entries that differ from
      `current`, in order; with no current message (`null`) nothing is dropped. */
  function Without(pool: seq<string>, current: Option<string>): (rest: seq<string>)
    ensures forall x {:trigger x in rest} :: x in rest <==> x in pool && Some(x) != current
    ensures current == None ==> rest == pool
    ensures |rest| <= |pool|
  {
    if pool == [] then []
    else (if Some(pool[0]) != current then [pool[0]] else []) + Without(pool[1..], current)
  }

  /** `pickRandomAffirmation(current, randomizer)` where the randomizer call
      returned r: index the filtered pool with `Math.floor(r * length)`; an
      index that reads `undefined` falls back to the first affirmation. */
  function PickRandomAffirmation(current: Option<string>, r: real): (message: string)
    ensures message in AFFIRMATIONS
  {
    var pool := Without(AFFIRMATIONS, current);
    var i := ScaledIndex(r, |pool|);
    if 0 <= i < |pool| then assert pool[i] in pool; pool[i] else AFFIRMATIONS[0]
  }

  /** `accentGradients[Math.floor(r * accentGradients.length)]`; an index
      outside the list reads `undefined`, modelled as None. */
  function Accent(r: real): (accent: Option<string>)
    ensures 0.0 <= r < 1.0 ==> accent.Some? && accent.value in ACCENT_GRADIENTS
    ensures accent.Some? ==> accent.value in ACCENT_GRADIENTS
  {
    var i := ScaledIndex(r, |ACCENT_GRADIENTS|);
    if 0 <= i < |ACCENT_GRADIENTS| then Some(ACCENT_GRADIENTS[i]) else None
  }

  /** The ten affirmations are pairwise distinct. */
  lemma AffirmationsDistinct()
    ensures |AFFIRMATIONS| == 10 && Distinct(AFFIRMATIONS)
  {
    assert |AFFIRMATIONS[0]| == 59 && AFFIRMATIONS[0][57] == 'u';
    assert |AFFIRMATIONS[1]| == 58 && AFFIRMATIONS[1][56] == 'r';
    assert |AFFIRMATIONS[2]| == 58 && AFFIRMATIONS[2][56] == 'e';
    assert |AFFIRMATIONS[3]| == 59 && AFFIRMATIONS[3][57] == 'h';
    assert |AFFIRMATIONS[4]| == 56 && AFFIRMATIONS[4][54] == 't';
    assert |AFFIRMATIONS[5]| == 50 && AFFIRMATIONS[5][48] == 'y';
    assert |AFFIRMATIONS[6]| == 59 && AFFIRMATIONS[6][57] == 's';
    assert |AFFIRMATIONS[7]| == 58 && AFFIRMATIONS[7][56] == 'u';
    assert |AFFIRMATIONS[8]| == 62 && AFFIRMATIONS[8][60] == 'h';
    assert |AFFIRMATIONS[9]| == 52 && AFFIRMATIONS[9][50] == 'u';
    forall i, j | 0 <= i < j < |AFFIRMATIONS|
      ensures AFFIRMATIONS[i] != AFFIRMATIONS[j]
    {
      assert i == 0 || i == 1 || i == 2 || i == 3 || i == 4 || i == 5 || i == 6 || i == 7 || i == 8;
      assert j == 1 || j == 2 || j == 3 || j == 4 || j == 5 || j == 6 || j == 7 || j == 8 || j == 9;
      assert |AFFIRMATIONS[i]| != |AFFIRMATIONS[j]|
          || AFFIRMATIONS[i][|AFFIRMATIONS[i]| - 2] != AFFIRMATIONS[j][|AFFIRMATIONS[j]| - 2];
    }
  }

  /** Dropping a value that occurs once in a pool of distinct entries
      shortens the pool by exactly one; dropping an absent one keeps it. */
  lemma {:induction false} WithoutLength(pool: seq<string>, c: string)
    requires Distinct(pool)
    ensures c in pool ==> |Without(pool, Some(c))| == |pool| - 1
    ensures c !in pool ==> Without(pool, Some(c)) == pool
  {
    if pool != [] {
      assert Distinct(pool[1..]);
      WithoutLength(pool[1..], c);
      if pool[0] == c {
        assert c !in pool[1..];
      }
    }
  }

  /** The filter distributes over concatenation: it keeps the order of the
      entries it does not drop. */
  lemma {:induction false} WithoutConcat(front: seq<string>, back: seq<string>, current: Option<string>)
    ensures Without(front + back, current) == Without(front, current) + Without(back, current)
  {
    if front == [] {
      assert front + back == back;
    } else {
      assert (front + back)[1..] == front[1..] + back;
      WithoutConcat(front[1..], back, current);
    }
  }

  /** In a pool of distinct entries, filtering out the entry at position p
      leaves the entries before it followed by the entries after it. */
  lemma WithoutAt(pool: seq<string>, p: nat)
    requires Distinct(pool) && p < |pool|
    ensures Without(pool, Some(pool[p])) == pool[..p] + pool[p + 1..]
  {
    WithoutSplit(pool, p);
    assert pool[0..p] == pool[..p];
    WithoutOutsideSlice(pool, 0, p, p);
    assert pool[p + 1..|pool|] == pool[p + 1..];
    WithoutOutsideSlice(pool, p + 1, |pool|, p);
  }

  /** Filtering out the entry at position p filters the entries before it
      and the entries after it, and drops the entry itself. */
  lemma WithoutSplit(pool: seq<string>, p: nat)
    requires p < |pool|
    ensures Without(pool, Some(pool[p]))
         == Without(pool[..p], Some(pool[p])) + Without(pool[p + 1..], Some(pool[p]))
  {
    SplitAt(pool, p);
    WithoutAround(pool[..p], pool[p], pool[p + 1..]);
  }

  /** A sequence is the part before position p, its entry at p, and the
      part after p. */
  lemma SplitAt(xs: seq<string>, p: nat)
    requires p < |xs|
    ensures xs == xs[..p] + [xs[p]] + xs[p + 1..]
  {
  }

  /** Filtering out c drops an occurrence of c between two parts and
      filters the parts on either side of it. */
  lemma WithoutAround(front: seq<string>, c: string, back: seq<string>)
    ensures Without(front + [c] + back, Some(c)) == Without(front, Some(c)) + Without(back, Some(c))
  {
    assert Without([c] + back, Some(c)) == Without(back, Some(c)) by {
      assert ([c] + back)[1..] == back;
    }
    assert front + [c] + back == front + ([c] + back);
    WithoutConcat(front, [c] + back, Some(c));
  }

  /** Filtering a slice of a distinct pool by an entry from outside the
      slice leaves the slice as it is. */
  lemma WithoutOutsideSlice(pool: seq<string>, lo: nat, hi: nat, p: nat)
    requires Distinct(pool) && lo <= hi <= |pool| && p < |pool| && !(lo <= p < hi)
    ensures Without(pool[lo..hi], Some(pool[p])) == pool[lo..hi]
  {
    DistinctPart(pool, lo, hi);
    WithoutLength(pool[lo..hi], pool[p]);
  }

  /** A slice of a pool of distinct entries is itself distinct, and holds
      no entry from outside the slice. */
  lemma DistinctPart(pool: seq<string>, lo: nat, hi: nat)
    requires Distinct(pool) && lo <= hi <= |pool|
    ensures Distinct(pool[lo..hi])
    ensures forall q :: 0 <= q < |pool| && !(lo <= q < hi) ==> pool[q] !in pool[lo..hi]
  {
    forall q, i | 0 <= q < |pool| && !(lo <= q < hi) && 0 <= i < hi - lo
      ensures pool[lo..hi][i] != pool[q]
    {
      assert pool[lo..hi][i] == pool[lo + i];
    }
  }

  /** The filtered pool of the page is never empty: it holds nine entries
      when the current message is one of the ten, and all ten otherwise. */
  lemma FilteredPoolSize(current: Option<string>)
    ensures current.Some? && current.value in AFFIRMATIONS ==> |Without(AFFIRMATIONS, current)| == 9
    ensures !(current.Some? && current.value in AFFIRMATIONS) ==> Without(AFFIRMATIONS, current) == AFFIRMATIONS
  {
    AffirmationsDistinct();
    if current.Some? {
      WithoutLength(AFFIRMATIONS, current.value);
    }
  }

  /** In any pool the filter leaves non-empty, r in [0, 1) indexes an entry
      of the filtered pool, and that entry differs from the current one. */
  lemma IndexedEntryDiffers(pool: seq<string>, current: Option<string>, r: real)
    requires 0.0 <= r < 1.0 && Without(pool, current) != []
    ensures 0 <= ScaledIndex(r, |Without(pool, current)|) < |Without(pool, current)|
    ensures current.Some? ==>
      Without(pool, current)[ScaledIndex(r, |Without(pool, current)|)] != current.value
  {
    var rest := Without(pool, current);
    var i := ScaledIndex(r, |rest|);
    assert rest[i] in rest;
  }

  /** For r in [0, 1) the index lands inside the filtered pool, so the
      fallback to the first affirmation never fires. */
  lemma FallbackNeverFires(current: Option<string>, r: real)
    requires 0.0 <= r < 1.0
    ensures 0 <= ScaledIndex(r, |Without(AFFIRMATIONS, current)|) < |Without(AFFIRMATIONS, current)|
  {
    FilteredPoolSize(current);
    IndexedEntryDiffers(AFFIRMATIONS, current, r);
  }

  /** For r in [0, 1) the chosen message differs from the current one. */
  lemma PickNeverRepeats(current: Option<string>, r: real)
    requires 0.0 <= r < 1.0
    ensures current.Some? ==> PickRandomAffirmation(current, r) != current.value
  {
    FilteredPoolSize(current);
    assert Without(AFFIRMATIONS, current) != [];
    IndexedEntryDiffers(AFFIRMATIONS, current, r);
  }

  /** With no current message the whole pool is indexed by `Math.floor(r * 10)`. */
  lemma PickWithoutCurrent(r: real)
    requires 0.0 <= r < 1.0
    ensures PickRandomAffirmation(None, r) == AFFIRMATIONS[ScaledIndex(r, 10)]
  {
    FilteredPoolSize(None);
  }

  /** In any pool, an entry other than the current one sits at the index
      that some r in [0, 1) selects in the filtered pool. */
  lemma {:induction false} SelectorFor(pool: seq<string>, current: Option<string>, m: string) returns (r: real)
    requires m in pool && Some(m) != current
    ensures 0.0 <= r < 1.0
    ensures 0 <= ScaledIndex(r, |Without(pool, current)|) < |Without(pool, current)|
    ensures Without(pool, current)[ScaledIndex(r, |Without(pool, current)|)] == m
  {
    var rest := Without(pool, current);
    assert m in rest;
    var j :| 0 <= j < |rest| && rest[j] == m;
    ScaledIndexHits(j, |rest|);
    r := j as real / |rest| as real;
  }

  /** Every affirmation other than the current one is chosen for some value
      in [0, 1): the filter starves no message. */
  lemma PickReachesEveryOther(current: Option<string>, m: string)
    requires m in AFFIRMATIONS && Some(m) != current
    ensures exists r: real :: 0.0 <= r < 1.0 && PickRandomAffirmation(current, r) == m
  {
    var r := SelectorFor(AFFIRMATIONS, current, m);
    assert PickRandomAffirmation(current, r) == m;
  }
}
