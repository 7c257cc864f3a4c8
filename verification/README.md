# Necklace affirmation page: the randomness and selection engine

The page shows an affirmation over a background of floating hearts. A button
reshuffles the message, the hearts and the background gradient. Everything it
does beyond layout comes from the small engine at the top of `app/page.tsx`,
which this project models and proves properties of:

- **`createRandom(seed)`** folds the seed's UTF-16 code units into a state
  modulo 2^31 − 1 and replaces a zero state by 137. It returns a closure.
  Each call of the closure takes one Lehmer (Park–Miller) step, with
  multiplier 48271 and modulus 2^31 − 1, and answers the state over the
  modulus. Module `SeededRandom` models the closure and its captured state as
  class `Generator`. The loop is in the constructor and the step is in `Next`.
  The functions `FoldPrefix`, `SeedState`, `Step`, `Iterate` and `Draws`
  specify them.
- **`pickRandomAffirmation(current, randomizer)`** filters the ten
  affirmations to drop `current`. It indexes what remains with
  `Math.floor(r * length)` and falls back to the first affirmation when that
  read is `undefined`. Module `Selection` models it, together with the pool
  constants and the accent pick `accentGradients[Math.floor(r * 3)]`.
- **`createHearts(randomizer)`** builds 32 hearts. Each heart takes six calls,
  in this order: size, left, start, duration, delay, hue. Module `Hearts`
  models it by passing the randomizer's call position from heart to heart.
- **`Home`** computes the first scene from one seeded randomizer: call 0 for
  the accent, call 1 for the message, then calls 2 to 193 for the hearts.
  Later, `shuffle` replaces message, hearts and accent using `Math.random`.
  Module `Home` models these: `InitialScene` for the first scene, and class
  `Page` for the page state and `Shuffle`.

A randomizer is modelled as an oracle `nat -> real` (module `Randomness`):
`rand(k)` is the value its k-th call returns. So `Math.random` and the seeded
closure feed the same selection and heart code, as they do on the page.
`Generator.Next` proves that the k-th call of the closure returns
`Draws(seed)(k)`. That links the class to the oracle the pure functions use.

JavaScript computes the generator's arithmetic exactly: every state is below
2^31 and every product below 2^53. So the state is a Dafny `int`.
JavaScript's `%` is modelled with its sign rule (`JsRem`). `& 0x7fffffff`
after ToInt32 is modelled as reduction modulo 2^31 (`Mask31`). The fold and
the step only ever take `%` of a non-negative value, and there `JsRem` agrees
with Euclidean remainder, so JavaScript's sign rule never comes into play.
`Mask31` is the identity on every reachable state, so each call answers the
state divided by 2^31 − 1.

The proof that a non-zero state never steps to zero does not assume that
2^31 − 1 is prime. It uses an explicit inverse of the multiplier:
48271 · 1899818559 = 42704 · (2^31 − 1) + 1 (`MultipleOfModulus`).

Each heart draws its size first (app/page.tsx:60), then left, start,
duration, delay and hue (app/page.tsx:61-68).

## Model

| member | source | states |
|---|---|---|
| `SeededRandom.JsRem` | app/page.tsx:76 | JavaScript's `%` keeps the dividend's sign; for a non-negative dividend it lies in [0, b) and agrees with Euclidean remainder, for a negative one it lies in (−b, 0] |
| `SeededRandom.Mask31` | app/page.tsx:82 | `x & 0x7fffffff` lies in [0, 2^31) and is the identity on [0, 2^31), so on every generator state |
| `SeededRandom.FoldPrefix` | app/page.tsx:74-77 | the seed fold stays in [0, 2^31 − 1) after every code unit (needs the previous state to be non-negative, so that JavaScript's `%` is not negative) |
| `SeededRandom.SeedState` | app/page.tsx:73-78 | the state after seeding lies in [1, 2^31 − 2], and equals the fold whenever the fold is not zero |
| `SeededRandom.Step` | app/page.tsx:81 | a step from a non-negative state lands in [0, 2^31 − 1) |
| `SeededRandom.Iterate` | app/page.tsx:80-83 | any number of steps from a state in [0, 2^31 − 1) stays there |
| `SeededRandom.Generator.constructor` | app/page.tsx:73-79 | the fold loop leaves exactly `SeedState(seed)`, in [1, 2^31 − 2], with no call made yet |
| `SeededRandom.Generator.Next` | app/page.tsx:80-83 | the k-th call returns `Draws(seed)(k)`, a value in [0, 1). The state stays in [1, 2^31 − 2] and is the seed's state after k + 1 steps, so the same seed gives the same sequence, call for call |
| `SeededRandom.MultipleOfModulus` | app/page.tsx:81 | if d · 48271 is a multiple of 2^31 − 1 and abs(d) < 2^31 − 1, then d = 0 (the multiplier is invertible) |
| `SeededRandom.StepInjective` | app/page.tsx:81 | two states in [0, 2^31 − 1) that step to the same state are equal |
| `SeededRandom.StepNonZero` | app/page.tsx:78-81 | a state in [1, 2^31 − 2] steps to a state in [1, 2^31 − 2]: the generator never reaches zero |
| `SeededRandom.IterateInRange` | app/page.tsx:78-83 | every state reached from a seeded state stays in [1, 2^31 − 2] |
| `SeededRandom.IterateInjective` | app/page.tsx:80-83 | two distinct starting states stay distinct after any number of steps |
| `SeededRandom.OutputInjective` | app/page.tsx:82 | every output `state / (2^31 − 1)` lies in [0, 1), and distinct states give distinct outputs |
| `SeededRandom.Output` | app/page.tsx:82 | on a reachable state the value `(state & 0x7fffffff) / 2147483647` is the state over 2^31 − 1; `OutputInjective` puts it in [0, 1) and shows distinct states give distinct values |
| `SeededRandom.Draws` | app/page.tsx:73-83 | the randomizer `createRandom(seed)` returns, as an oracle: call k answers the state after k + 1 steps over 2^31 − 1. `Generator.Next` shows the closure returns exactly these values, and `DrawsInUnitInterval` puts each in [0, 1) |
| `SeededRandom.DrawsInUnitInterval` | app/page.tsx:80-83 | every call of a seeded randomizer returns a value in [0, 1) |
| `SeededRandom.DistinctStatesDistinctDraws` | app/page.tsx:73-83 | seeds with different initial states return different values on every call |
| `SeededRandom.SeedsAAndBDiffer` | app/page.tsx:73-83 | the seeds "a" and "b" differ on their first value |
| `SeededRandom.EmptySeedNotDegenerate` | app/page.tsx:73-83 | the empty seed starts from 137, and its first ten values are pairwise distinct |
| `Randomness.ScaledIndex` | app/page.tsx:54 | `Math.floor(r * n)` for r in [0, 1) is an index in [0, n) (0 when n = 0) |
| `Randomness.ScaledIndexHits` | app/page.tsx:54 | the value j / n in [0, 1) selects index j among n entries |
| `Selection.Without` | app/page.tsx:53 | the filter keeps exactly the pool entries that differ from `current`. With `null` it keeps the whole pool, and it never grows the pool |
| `Selection.WithoutConcat` | app/page.tsx:53 | the filter distributes over concatenation, so it keeps the entries it does not drop in their original order |
| `Selection.WithoutAt` | app/page.tsx:53 | in a pool of distinct entries, filtering out the entry at position p leaves exactly the entries before p followed by the entries after p |
| `Selection.PickRandomAffirmation` | app/page.tsx:49-56 | the chosen message is always one of the ten affirmations, fallback included |
| `Selection.Accent` | app/page.tsx:92 | for r in [0, 1) a gradient is found and it is one of the three; anything found is one of the three |
| `Selection.AffirmationsDistinct` | app/page.tsx:18-29 | the pool holds ten pairwise-distinct affirmations |
| `Selection.WithoutLength` | app/page.tsx:53 | in a pool of distinct entries, filtering out a present value removes exactly one entry, and filtering out an absent value changes nothing |
| `Selection.FilteredPoolSize` | app/page.tsx:53 | the filtered pool holds 9 affirmations when `current` is one of them, and all 10 otherwise (also for `null`) |
| `Selection.IndexedEntryDiffers` | app/page.tsx:53-54 | in any pool the filter leaves non-empty, r in [0, 1) reads an entry of the filtered pool, and that entry differs from `current` |
| `Selection.FallbackNeverFires` | app/page.tsx:54 | for r in [0, 1) the index lies inside the filtered pool, so the `affirmations[0]` fallback never fires |
| `Selection.PickNeverRepeats` | app/page.tsx:53-54 | for r in [0, 1) the chosen message differs from `current` |
| `Selection.PickWithoutCurrent` | app/page.tsx:53-54 | with `current = null` the message is `affirmations[Math.floor(r * 10)]` |
| `Selection.SelectorFor` | app/page.tsx:53-54 | any pool entry other than `current` is selected by some r in [0, 1) |
| `Selection.PickReachesEveryOther` | app/page.tsx:53-54 | each affirmation other than the current one is chosen for some r in [0, 1), so the filter starves no message |
| `Hearts.MakeHeart` | app/page.tsx:59-69 | the heart carries its id. If its six calls return values in [0, 1), then size is in [18, 46), left in [0, 100), start in [35, 115), duration in [9, 15), delay in [0, 5) and hue in [−10, 40) |
| `Hearts.BuildHearts` | app/page.tsx:58-70 | building `count` hearts yields exactly `count` hearts with consecutive ids, using exactly 6 calls per heart |
| `Hearts.CreateHearts` | app/page.tsx:58-70 | `createHearts` returns exactly 32 hearts, each with `id` equal to its index, and makes exactly 192 calls |
| `Hearts.BuildHeartsDrawOrder` | app/page.tsx:59-68 | built heart k comes from calls pos + 6k to pos + 6k + 5, in the order size, left, start, duration, delay, hue |
| `Hearts.CreateHeartsDrawOrder` | app/page.tsx:58-70 | heart k of `createHearts` comes from calls pos + 6k to pos + 6k + 5; if every call returns a value in [0, 1), each of its fields is in range |
| `Hearts.CreateHeartsInRanges` | app/page.tsx:60-68 | if every call returns a value in [0, 1), every heart's fields are in range |
| `Home.InitialScene` | app/page.tsx:88-95 | the seeded initial scene has 32 hearts |
| `Home.InitialAccent` | app/page.tsx:91-92 | the first seeded call always finds an accent gradient |
| `Home.InitialMessage` | app/page.tsx:93 | the initial message is `affirmations[Math.floor(r * 10)]`, where r in [0, 1) is the second seeded call |
| `Home.InitialHearts` | app/page.tsx:94 | initial heart k has id k, comes from seeded calls 2 + 6k to 2 + 6k + 5 and has every field in range. The first scene makes 194 calls in all |
| `Home.InitialSceneWellFormed` | app/page.tsx:88-95 | the initial scene has an accent and a message from the pool, and 32 hearts whose ids are their indexes |
| `Home.Reshuffle` | app/page.tsx:102-108 | the scene `shuffle` moves to: a message from the pool and 32 hearts; `ReshuffleKeepsInvariant` gives the full invariant and the no-repeat guarantee |
| `Home.ReshuffleKeepsInvariant` | app/page.tsx:102-108 | whatever `Math.random` gives, the reshuffled scene keeps that invariant. For a message value in [0, 1), the new message differs from the previous one |
| `Home.Page.constructor` | app/page.tsx:86-100 | the page state starts as the seeded initial scene, which keeps the invariant and has an accent |
| `Home.Page.Shuffle` | app/page.tsx:102-108 | `shuffle` moves the state to the reshuffled scene and keeps the invariant. For a message value in [0, 1), the new message differs from the previous one |

## Left out

- React plumbing is not modelled: `useId`, `useMemo`, `useState` and the JSX rendering (app/page.tsx:86-165). The seed is taken as a parameter. `Page` stands for the component's state, and the rendering layer is not part of this model.
- `Page` keeps the three `useState` values (message, hearts, accent) as one `scene` field, not three. `shuffle` sets all three in one event. The model also does not capture when React calls the message updater relative to the other two draws.
- Google font loading (app/page.tsx:3-16) and all styling are not modelled: these are foreign library calls and presentation.
- `Math.random` is not modelled. It is a parameter of `Shuffle`: a value for the message, an oracle for the hearts and a value for the accent.
- `ScaledIndex`: `Math.floor(r * n)` is computed over exact reals. IEEE-754 rounding of `state / 2147483647` and of `r * n` is not modelled.
- `Hearts.MakeHeart`: the six field formulas (`18 + r * 28`, `r * 100`, `35 + r * 80`, `9 + r * 6`, `r * 5`, `r * 50 - 10`) are computed over exact reals, and their half-open upper bounds are proved over reals, not for every double below 1. In IEEE-754 arithmetic a value just below 1 can round `18 + r * 28` up to 46 and `9 + r * 6` up to 15; seeded values stay at most (2^31 − 2)/(2^31 − 1) and do not get there. The decimal formatting of the `"<value>%"` template strings (app/page.tsx:63-64) is not modelled either.
- `SeededRandom.FoldPrefix`: the fold is exact over integers. JavaScript would lose precision on a seed long enough for `state + code * (i + 3)` to pass 2^53. Seeds from `useId` are far shorter.
- `SeededRandom.CodeUnit`: the seed is a sequence of UTF-16 code units (what `charCodeAt` returns). Turning a JavaScript string into code units is not modelled.
