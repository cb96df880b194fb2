# Shuffled, timed slideshow: the state machine

A model, in Dafny, of the core of a small React page (`src/App.jsx`) that
shows uploaded pictures as a shuffled slideshow. Each picture has its own
timer. When a picture's countdown runs out, the show moves on to the next
one. The viewer can step forward or back, stop the countdown, or restart
the show.

The core is two pieces of code:

- `shuffleArray`, a Fisher–Yates shuffle. It copies its argument into a new
  array and swaps `a[i]` with a randomly drawn `a[j]`, `j` in `0..i`, for
  `i` from the last index down to 1. In `shuffle.dfy`, `Shuffle.ShuffleArray`
  is that loop over a Dafny `array`. It is proved equal to the function
  `Shuffled`, and its result is proved to be a permutation of its input.
  The random draws are an input, `picks`, with `picks[i] <= i`.
- `reducer`, the pure transition function behind `useReducer`. In
  `slideshow.dfy`, `Slideshow.Reduce` is a function from a `State` (the six
  fields `images`, `timers`, `started`, `currentIdx`, `timeLeft`,
  `timerActive`) and an `Action` (one constructor per action type, plus
  `Unknown` for the default case) to the next `State`. `START` zips images
  with timers, shuffles the pairs and unzips them, as the source does.
  Every timer lookup `timers[k] || 0` is `TimerAt`.

The timer effect runs again whenever `started`, `timerActive` or `timeLeft`
changes. When it runs and `started && timerActive` holds, it schedules one
`TICK` a second later. Its condition is the predicate `CountdownActive`, its
dependencies are `EffectDeps`, and `Countdown.Ticks` is the state after `n`
ticks. `Countdown.TicksLeft` counts the ticks the countdown still takes, and
`Countdown.CountdownEndsAtLastSlide` proves that it always stops, after
exactly that many ticks, on the last slide. The ticks do keep coming on the
page: every timer the page supplies is positive, so every active tick
changes one of the effect's dependencies
(`Countdown.PageCountdownKeepsTicking`).

Files:

- `shuffle.dfy` (module `Shuffle`): the shuffle.
- `slideshow.dfy` (module `Slideshow`): the data model and the reducer.
- `invariants.dfy` (module `Invariants`): the invariants over all actions
  and over the actions the page dispatches.
- `transitions.dfy` (module `Transitions`): one lemma per action type.
- `countdown.dfy` (module `Countdown`): repeated ticks.
- `scenarios.dfy` (module `Scenarios`): four worked runs.

Quirks of the code that the model keeps:

- `SET_TIMER` has no `started` guard. The page only hides the selects once
  the show has started.
- `NEXT`, `PREV` and `RESTART_TIMER` switch the countdown on even before the
  show has started (`Invariants.ActivationBeforeStart`). So "`timerActive`
  implies `started`" is proved only over the actions the page dispatches
  (`Invariants.Dispatchable`). Next, Prev and Stop appear only in the running
  show's view, and `RESTART_TIMER` is never dispatched.
- The Restart button dispatches `START` with `restart: true`. The reducer
  ignores the flag, so a restart reshuffles.
- `START` with no images leaves the countdown on at 0 seconds; the first
  tick switches it off.
- A tick at `timeLeft == 0` is the one that advances or stops. So a slide
  of 30 seconds needs 31 ticks, not 30, before the show moves on or ends
  (`Scenarios.TwoSlides`, `Scenarios.OneSlide`).
- Timers are `nat`. The reducer accepts 0 as well as the positive values
  the page supplies (60 on upload; 30, 60, 120, 300 and 600 from the
  selects). A 0 timer would stall the page: the tick that moves to such a
  slide leaves `timeLeft` at 0, so the effect never runs again. The page
  invariant proves that the page never produces one.

## Model

| member | source | states |
|---|---|---|
| Shuffle.ShuffleArray | src/App.jsx:125-132 | returns a new array of the argument's length whose contents are `Shuffled(arr, picks)`, a permutation (as a multiset) of the argument |
| Shuffle.SwapAt | src/App.jsx:129 | the destructuring swap exchanges the two entries and leaves every other entry alone |
| Shuffle.ShuffleDownPermutes | src/App.jsx:127-130 | whatever part of the descending loop is still to run keeps the length and the multiset of elements |
| Shuffle.ShuffledIsPermutation | src/App.jsx:125-132 | the whole shuffle keeps the length and the multiset of elements, for every admissible draw |
| Shuffle.ShuffleDownIdentity | src/App.jsx:127-130 | draws `picks[i] == i` keep the order |
| Shuffle.ShortInputUnchanged | src/App.jsx:127 | an array of zero or one element comes back unchanged |
| Slideshow.Upload | src/App.jsx:241 | the upload action pairs every file with a timer of 60 |
| Invariants.InitialSatisfiesInv | src/App.jsx:134-141 | the initial state satisfies both invariants |
| Invariants.ReducePreservesInv | src/App.jsx:143-228 | every admissible action keeps images and timers the same length, `timeLeft >= 0`, and the index valid whenever there are images |
| Invariants.RunPreservesInv | src/App.jsx:143-228 | the same after any admissible sequence of actions |
| Invariants.DispatchPreservesPageInv | src/App.jsx:143-228 | every action the page dispatches (its timers all positive) keeps `timerActive ==> started`, `started ==> images non-empty` and every timer positive, so a running show's index is valid |
| Invariants.TickRearmsEffect | src/App.jsx:263-267 | in a page state every active tick changes `started`, `timerActive` or `timeLeft`, so the effect runs again |
| Invariants.PageRunPreservesPageInv | src/App.jsx:230-318 | the same after any sequence of actions the page dispatches |
| Invariants.ActivationBeforeStart | src/App.jsx:195-224 | `NEXT` before the start and `RESTART_TIMER` on the initial state switch the countdown on without starting the show |
| Transitions.UploadResets | src/App.jsx:145-155 | `UPLOAD_IMAGES` installs images and timers and resets to not started, index 0, 0 seconds, countdown off |
| Transitions.UploadGivesDefaultTimers | src/App.jsx:235-242 | after the page's upload every timer is 60 and the page invariant holds |
| Transitions.SetTimerChangesOneTimer | src/App.jsx:156-160 | `SET_TIMER` changes `timers[idx]` and nothing else, started or not |
| Transitions.ZipOfUnzip | src/App.jsx:163-166 | zipping the two unzipped arrays gives back the shuffled pairs |
| Transitions.StartShufflesPairs | src/App.jsx:161-176 | `START` sets started, index 0, countdown on, `timeLeft` to the first shuffled timer or 0; the multiset of (image, timer) pairs is unchanged; the `restart` flag has no effect |
| Transitions.StartKeepsEachTimer | src/App.jsx:161-166 | after `START` each image sits with the timer it had before the shuffle |
| Transitions.TickIdleIff | src/App.jsx:177-178 | `TICK` leaves the state unchanged if and only if the countdown is not active |
| Transitions.TickCountsDown | src/App.jsx:179-180 | an active `TICK` with time left lowers `timeLeft` by exactly 1 and changes nothing else |
| Transitions.TickAdvances | src/App.jsx:181-189 | an active `TICK` at 0 before the last slide moves the index up by 1 and sets that slide's timer, countdown still on |
| Transitions.TickStopsAtLastSlide | src/App.jsx:190-193 | an active `TICK` at 0 on the last slide only switches the countdown off, and the next `TICK` is a no-op |
| Transitions.NextMovesForward | src/App.jsx:195-205 | `NEXT` moves forward by 1 with the new slide's timer and the countdown on, and is a no-op at the last slide |
| Transitions.PrevMovesBack | src/App.jsx:206-216 | `PREV` moves back by 1 with the new slide's timer and the countdown on, and is a no-op at index 0 |
| Transitions.StopTimerIdempotent | src/App.jsx:217-218 | `STOP_TIMER` only switches the countdown off and is idempotent |
| Transitions.RestartTimerResets | src/App.jsx:219-224 | `RESTART_TIMER` resets `timeLeft` to the current slide's timer (0 with no images) and switches the countdown on, changing nothing else |
| Transitions.UnknownIsNoop | src/App.jsx:225-226 | any other action type returns the state unchanged |
| Countdown.TickConsumesOne | src/App.jsx:177-194 | each active tick keeps the invariant and uses up exactly one of the ticks left |
| Countdown.TicksSplit | src/App.jsx:263-267 | `m + n` ticks are `m` ticks followed by `n` |
| Countdown.IdleTicksChangeNothing | src/App.jsx:178 | once the countdown is off, any number of late or repeated ticks changes nothing |
| Countdown.TicksCountDown | src/App.jsx:179-180 | while time is left, `n` ticks take exactly `n` seconds off and change nothing else |
| Countdown.PageCountdownKeepsTicking | src/App.jsx:263-267 | from a page state, the state before each of the `TicksLeft(s)` ticks keeps the page invariant and each tick changes a dependency of the effect, so the next tick is scheduled |
| Countdown.CountdownEndsAtLastSlide | src/App.jsx:263-267 | the countdown is on before each of the `TicksLeft(s)` ticks and off after them; it ends on the last slide at 0 seconds, with images and timers unchanged |
| Scenarios.TwoSlides | src/App.jsx:161-193 | slides of 30 and 60 seconds: 30 ticks reach 0 on the first slide, the 31st moves to the second slide with 60 seconds |
| Scenarios.OneSlide | src/App.jsx:177-193 | one slide of 30 seconds: the 31st tick switches the countdown off, and later ticks change nothing |
| Scenarios.StopThenRestart | src/App.jsx:217-224 | after a stop, ticks change nothing; `RESTART_TIMER` then gives back the slide's full timer with the countdown on |
| Scenarios.NoImages | src/App.jsx:161-175 | `START` with no images: index 0, 0 seconds, countdown on; `NEXT` and `PREV` are no-ops; one tick switches the countdown off |

## Left out

- Rendering (`SlideshowView`, `AnalogClock`, styles, the arrow-hiding hover timeout at src/App.jsx:12-18): presentation, not state-machine logic. The clock-hand angle is floating point.
- The `m:ss` countdown label and the duration labels: presentation only.
- `handleImageUpload`: reading files and `URL.createObjectURL` are foreign I/O. Images are opaque `Image` values; only the default timer of 60 is kept (`Slideshow.Upload`).
- The `useEffect` timer itself (`setTimeout`, `clearTimeout`): event-loop and real-time scheduling. Only its condition `started && timerActive`, its dependency list and the discrete `TICK` step are modelled.
- Countdown.TicksLeft: counts ticks as if they keep coming. From a state with a 0 timer ahead they would not, because the effect does not run again. This is proved not to happen on the page (`Countdown.PageCountdownKeepsTicking`) but is not excluded for arbitrary states.
- `Math.random`: the draws are an input, so the uniformity of the shuffle is not stated.
- Slideshow.Reduce: `SET_TIMER` requires `idx < |timers|`. The source would grow the array with holes past its end, which the page never does.
- Slideshow.Zip: a missing timer (`undefined` in the source) is 0 here. Every later read goes through `|| 0`, so the reducer cannot tell the two apart. The selects' `|| 60` display fallback is presentation.
- The `Number(...)` conversion of the select's value: the model takes the value as a `nat`.
