/** The page component `Home`: the initial scene computed from the
    instance's seed, and the state that `shuffle` replaces. */
module Home {
  import opened Wrappers
  import opened Randomness
  import opened SeededRandom
  import opened Selection
  import opened Hearts

  /** What the page shows: the accent gradient, the affirmation, the hearts. */
  datatype Scene = Scene(accent: Option<string>, message: string, hearts: seq<Heart>)

  /** The number of calls the initial scene makes of its randomizer. */
  const INITIAL_DRAWS: nat := 2 + DRAWS_PER_HEART * HEART_COUNT

  /** The scene `useMemo` computes from the seed: one seeded randomizer
      answers the accent (call 0), the message (call 1) and the hearts
      (calls 2 onwards), in that order. */
  function InitialScene(seed: seq<CodeUnit>): (scene: Scene)
    ensures |scene.hearts| == HEART_COUNT
  {
    var rand := Draws(seed);
    Scene(Accent(rand(0)), PickRandomAffirmation(None, rand(1)), CreateHearts(rand, 2).0)
  }

  /** The initial accent: the first seeded call always finds a gradient. */
  lemma InitialAccent(seed: seq<CodeUnit>)
    ensures InitialScene(seed).accent.Some?
  {
    assert 0.0 <= Draws(seed)(0) < 1.0 by { DrawsInUnitInterval(seed); }
  }

  /** The initial message: nothing is excluded, so it is the whole pool
      indexed by the second seeded call. */
  lemma InitialMessage(seed: seq<CodeUnit>)
    ensures 0.0 <= Draws(seed)(1) < 1.0
    ensures InitialScene(seed).message == AFFIRMATIONS[ScaledIndex(Draws(seed)(1), |AFFIRMATIONS|)]
  {
    var r := Draws(seed)(1);
    assert 0.0 <= r < 1.0 by { DrawsInUnitInterval(seed); }
    assert PickRandomAffirmation(None, r) == AFFIRMATIONS[ScaledIndex(r, 10)] by { PickWithoutCurrent(r); }
  }

  /** The initial hearts: HEART_COUNT of them with ids 0, 1, ..., heart k
      built from seeded calls 2 + 6k to 2 + 6k + 5, every field in range,
      and the initial scene makes INITIAL_DRAWS calls in all. */
  lemma InitialHearts(seed: seq<CodeUnit>, k: nat)
    requires k < HEART_COUNT
    ensures InitialScene(seed).hearts[k].id == k
    ensures InitialScene(seed).hearts[k] == MakeHeart(k, Draws(seed), 2 + DRAWS_PER_HEART * k)
    ensures InRanges(InitialScene(seed).hearts[k])
    ensures CreateHearts(Draws(seed), 2).1 == INITIAL_DRAWS
  {
    DrawsInUnitInterval(seed);
    CreateHeartsDrawOrder(Draws(seed), 2, k);
  }

  /** What holds of every scene the page shows: a message from the pool,
      HEART_COUNT hearts whose ids are their indexes, and an accent that,
      when found, is one of the gradients. */
  ghost predicate WellFormed(scene: Scene) {
    && scene.message in AFFIRMATIONS
    && |scene.hearts| == HEART_COUNT
    && (forall k :: 0 <= k < |scene.hearts| ==> scene.hearts[k].id == k)
    && (scene.accent.Some? ==> scene.accent.value in ACCENT_GRADIENTS)
  }

  /** The seeded initial scene is well formed and has an accent. */
  lemma InitialSceneWellFormed(seed: seq<CodeUnit>)
    ensures WellFormed(InitialScene(seed))
    ensures InitialScene(seed).accent.Some?
  {
    InitialAccent(seed);
    var hearts := CreateHearts(Draws(seed), 2).0;
    assert forall k :: 0 <= k < |hearts| ==> hearts[k].id == k;
  }

  /** The scene `shuffle` moves to from `scene`, given the value
      `Math.random` gave for the message, its answers for the hearts, and its
      value for the accent. */
  function Reshuffle(scene: Scene, messageDraw: real, heartDraws: Randomizer, accentDraw: real): (next: Scene)
    ensures next.message in AFFIRMATIONS && |next.hearts| == HEART_COUNT
  {
    Scene(Accent(accentDraw),
          PickRandomAffirmation(Some(scene.message), messageDraw),
          CreateHearts(heartDraws, 0).0)
  }

  /** Whatever `Math.random` gives, a reshuffled scene is well formed, and for
      a message value in [0, 1) its message differs from the one before. */
  lemma ReshuffleKeepsInvariant(scene: Scene, messageDraw: real, heartDraws: Randomizer, accentDraw: real)
    ensures WellFormed(Reshuffle(scene, messageDraw, heartDraws, accentDraw))
    ensures 0.0 <= messageDraw < 1.0 ==>
      Reshuffle(scene, messageDraw, heartDraws, accentDraw).message != scene.message
  {
    var hearts := CreateHearts(heartDraws, 0).0;
    assert forall k :: 0 <= k < |hearts| ==> hearts[k].id == k;
    if 0.0 <= messageDraw < 1.0 {
      PickNeverRepeats(Some(scene.message), messageDraw);
    }
  }

  /** The state the page keeps with its three `useState` hooks (message,
      hearts, accent), held as one scene since `shuffle` sets all three in
      one event; and the `shuffle` handler. */
  class Page {
    var scene: Scene

    /** The first render: the state starts as the seeded initial scene. */
    constructor (seed: seq<CodeUnit>)
      ensures scene == InitialScene(seed)
      ensures WellFormed(scene) && scene.accent.Some?
    {
      scene := InitialScene(seed);
      InitialSceneWellFormed(seed);
    }

    /** `shuffle`, with the values `Math.random` gave: a message chosen to
        differ from the current one, fresh hearts, and a fresh accent. */
    method Shuffle(messageDraw: real, heartDraws: Randomizer, accentDraw: real)
      requires WellFormed(scene)
      modifies this
      ensures scene == Reshuffle(old(scene), messageDraw, heartDraws, accentDraw)
      ensures WellFormed(scene)
      ensures 0.0 <= messageDraw < 1.0 ==> scene.message != old(scene.message)
    {
      ReshuffleKeepsInvariant(scene, messageDraw, heartDraws, accentDraw);
      scene := Reshuffle(scene, messageDraw, heartDraws, accentDraw);
    }
  }
}
