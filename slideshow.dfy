/** The slideshow state machine of src/App.jsx: its state, the actions the
    page dispatches, and `reducer`, the pure transition function that
    `useReducer` drives. */
module Slideshow {
  import opened Shuffle

  /** An uploaded picture: the object URL made for the file and the file's
      name.  Both are opaque to the state machine. */
  datatype Image = Image(url: string, name: string)

  /** One element of the zipped array that `START` shuffles: an image with
      its own timer. */
  datatype Slide = Slide(image: Image, timer: nat)

  /** The reducer's state.  `images` and `timers` are parallel arrays;
      `currentIdx` and `timeLeft` are plain numbers in the source and are
      kept as `int` here so that their bounds are proved, not assumed. */
  datatype State = State(
    images: seq<Image>,
    timers: seq<nat>,
    started: bool,
    currentIdx: int,
    timeLeft: int,
    timerActive: bool)

  /** The action objects `{ type: ... }`.  `Start` carries the random draws
      of its shuffle and the `restart` flag the Restart button sets;
      `Unknown` stands for any other `type`. */
  datatype Action =
    | UploadImages(newImages: seq<Image>, newTimers: seq<nat>)
    | SetTimer(idx: nat, value: nat)
    | Start(picks: seq<nat>, restart: bool)
    | Tick
    | Next
    | Prev
    | StopTimer
    | RestartTimer
    | Unknown(kind: string)

  /** `initialState`: no images, configuration phase, countdown idle. */
  const Initial: State := State([], [], false, 0, 0, false)

  /** The timer every uploaded file gets (`files.map(() => 60)`). */
  const DefaultTimer: nat := 60

  /** `timers[k] || 0`: an index past either end reads `undefined`, which
      the fallback turns into 0; an in-range 0 stays 0. */
  function TimerAt(timers: seq<nat>, k: int): nat {
    if 0 <= k < |timers| then timers[k] else 0
  }

  /** `images.map((img, i) => ({ img, timer: timers[i] }))`.  A missing
      timer is `undefined` in the source; it is 0 here, which no later read
      can tell apart because every read goes through `|| 0`. */
  function Zip(images: seq<Image>, timers: seq<nat>): seq<Slide> {
    seq(|images|, i requires 0 <= i < |images| => Slide(images[i], TimerAt(timers, i)))
  }

  /** `shuffled.map(z => z.img)` */
  function ImagesOf(slides: seq<Slide>): seq<Image> {
    seq(|slides|, i requires 0 <= i < |slides| => slides[i].image)
  }

  /** `shuffled.map(z => z.timer)` */
  function TimersOf(slides: seq<Slide>): seq<nat> {
    seq(|slides|, i requires 0 <= i < |slides| => slides[i].timer)
  }

  /** What the reducer needs of an action to be meaningful: `SET_TIMER`
      writes an existing entry, and the draws of `START` fit the number of
      images. */
  predicate Defined(s: State, a: Action) {
    match a
    case SetTimer(idx, _) => idx < |s.timers|
    case Start(picks, _) => ValidPicks(picks, |s.images|)
    case _ => true
  }

  /** The condition of the timer effect: when the effect runs and this
      holds, it schedules one `TICK` a second later; when it fails, it
      schedules none. */
  predicate CountdownActive(s: State) {
    s.started && s.timerActive
  }

  /** The dependencies of the timer effect: it runs again, and may schedule
      a `TICK`, only when one of these changes. */
  function EffectDeps(s: State): (bool, bool, int) {
    (s.started, s.timerActive, s.timeLeft)
  }

  /** `reducer(state, action)` */
  function Reduce(s: State, a: Action): State
    requires Defined(s, a)
  {
    match a
    case UploadImages(newImages, newTimers) =>
      s.(images := newImages, timers := newTimers, started := false,
         currentIdx := 0, timeLeft := 0, timerActive := false)
    case SetTimer(idx, value) =>
      s.(timers := s.timers[idx := value])
    case Start(picks, _) =>
      var shuffled := Shuffled(Zip(s.images, s.timers), picks);
      var timers := TimersOf(shuffled);
      s.(images := ImagesOf(shuffled), timers := timers, started := true,
         currentIdx := 0, timeLeft := TimerAt(timers, 0), timerActive := true)
    case Tick =>
      if !s.timerActive || !s.started then s
      else if s.timeLeft > 0 then s.(timeLeft := s.timeLeft - 1)
      else if s.currentIdx < |s.images| - 1 then
        s.(currentIdx := s.currentIdx + 1,
           timeLeft := TimerAt(s.timers, s.currentIdx + 1), timerActive := true)
      else s.(timerActive := false)
    case Next =>
      if s.currentIdx < |s.images| - 1 then
        s.(currentIdx := s.currentIdx + 1,
           timeLeft := TimerAt(s.timers, s.currentIdx + 1), timerActive := true)
      else s
    case Prev =>
      if s.currentIdx > 0 then
        s.(currentIdx := s.currentIdx - 1,
           timeLeft := TimerAt(s.timers, s.currentIdx - 1), timerActive := true)
      else s
    case StopTimer =>
      s.(timerActive := false)
    case RestartTimer =>
      s.(timeLeft := TimerAt(s.timers, s.currentIdx), timerActive := true)
    case Unknown(_) =>
      s
  }

  /** The action `handleImageUpload` dispatches for a list of files: every
      file gets the default timer. */
  function Upload(images: seq<Image>): (a: Action)
    ensures a.UploadImages? && a.newImages == images
    ensures |a.newTimers| == |images|
    ensures forall k :: 0 <= k < |a.newTimers| ==> a.newTimers[k] == DefaultTimer
  {
    UploadImages(images, seq(|images|, _ => DefaultTimer))
  }
}
