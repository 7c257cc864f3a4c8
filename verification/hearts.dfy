/** `createHearts`: the floating hearts, each built from six consecutive
    calls of one randomizer. */
module Hearts {
  import opened Randomness

  /** The number of hearts on the page. */
  const HEART_COUNT: nat := 32
  /** The randomizer calls each heart consumes. */
  const DRAWS_PER_HEART: nat := 6

  /** One floating heart. `left` and `start` are the percentages the page
      writes into its `"<value>%"` strings; `size` is in pixels, `duration`
      and `delay` in seconds, `hue` in degrees. */
  datatype Heart = Heart(id: nat, left: real, start: real, size: real,
                         duration: real, delay: real, hue: real)

  /** The ranges a heart's fields take when every draw is in [0, 1). */
  predicate InRanges(h: Heart) {
    && 18.0 <= h.size < 46.0
    && 0.0 <= h.left < 100.0
    && 35.0 <= h.start < 115.0
    && 9.0 <= h.duration < 15.0
    && 0.0 <= h.delay < 5.0
    && -10.0 <= h.hue < 40.0
  }

  /** The heart `id`, built from the six calls starting at call `pos`, in the
      order the page makes them: size, left, start, duration, delay, hue. */
  function MakeHeart(id: nat, rand: Randomizer, pos: nat): (h: Heart)
    ensures h.id == id
    ensures (forall k: nat :: pos <= k < pos + DRAWS_PER_HEART ==> 0.0 <= rand(k) < 1.0) ==> InRanges(h)
  {
    var size := 18.0 + rand(pos) * 28.0;
    Heart(id := id,
          left := rand(pos + 1) * 100.0,
          start := 35.0 + rand(pos + 2) * 80.0,
          size := size,
          duration := 9.0 + rand(pos + 3) * 6.0,
          delay := rand(pos + 4) * 5.0,
          hue := rand(pos + 5) * 50.0 - 10.0)
  }

  /** `count` hearts with ids from `first`, the randomizer threaded from call
      `pos`; answers the hearts and the next unused call. */
  function BuildHearts(first: nat, count: nat, rand: Randomizer, pos: nat): (built: (seq<Heart>, nat))
    ensures |built.0| == count
    ensures built.1 == pos + DRAWS_PER_HEART * count
    ensures forall k :: 0 <= k < count ==> built.0[k].id == first + k
    decreases count
  {
    if count == 0 then ([], pos)
    else
      var h := MakeHeart(first, rand, pos);
      var (rest, next) := BuildHearts(first + 1, count - 1, rand, pos + DRAWS_PER_HEART);
      ([h] + rest, next)
  }

  /** `createHearts(randomizer)` when the randomizer's next call is `pos`:
      HEART_COUNT hearts whose ids are their indexes, after which the
      randomizer has been called 6 * HEART_COUNT times more. */
  function CreateHearts(rand: Randomizer, pos: nat): (created: (seq<Heart>, nat))
    ensures |created.0| == HEART_COUNT
    ensures forall k :: 0 <= k < |created.0| ==> created.0[k].id == k
    ensures created.1 == pos + DRAWS_PER_HEART * HEART_COUNT
  {
    BuildHearts(0, HEART_COUNT, rand, pos)
  }

  /** The k-th built heart is made from calls pos + 6k to pos + 6k + 5:
      no call is skipped or shared between hearts. */
  lemma {:induction false} BuildHeartsDrawOrder(first: nat, count: nat, rand: Randomizer, pos: nat, k: nat)
    requires k < count
    ensures BuildHearts(first, count, rand, pos).0[k] == MakeHeart(first + k, rand, pos + DRAWS_PER_HEART * k)
    decreases k
  {
    if k > 0 {
      BuildHeartsDrawOrder(first + 1, count - 1, rand, pos + DRAWS_PER_HEART, k - 1);
    }
  }

  /** Heart k of `createHearts` uses calls pos + 6k to pos + 6k + 5, and for
      draws in [0, 1) every field lies in its range. */
  lemma CreateHeartsDrawOrder(rand: Randomizer, pos: nat, k: nat)
    requires k < HEART_COUNT
    ensures CreateHearts(rand, pos).0[k] == MakeHeart(k, rand, pos + DRAWS_PER_HEART * k)
    ensures InUnitInterval(rand) ==> InRanges(CreateHearts(rand, pos).0[k])
  {
    BuildHeartsDrawOrder(0, HEART_COUNT, rand, pos, k);
  }

  /** With a randomizer answering in [0, 1), every heart is in range. */
  lemma CreateHeartsInRanges(rand: Randomizer, pos: nat)
    requires InUnitInterval(rand)
    ensures forall h :: h in CreateHearts(rand, pos).0 ==> InRanges(h)
  {
    forall h | h in CreateHearts(rand, pos).0
      ensures InRanges(h)
    {
      var k :| 0 <= k < HEART_COUNT && CreateHearts(rand, pos).0[k] == h;
      CreateHeartsDrawOrder(rand, pos, k);
    }
  }
}
