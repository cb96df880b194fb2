/** What stays true of the slideshow state from one action to the next:
    the index stays in bounds, the countdown is never negative, and the two
    parallel arrays keep the same length.  The stronger "the countdown only
    runs once the show has started" holds only for the actions the page
    actually dispatches, which is said here too. */
module Invariants {
  import opened Shuffle
  import opened Slideshow

  /** The state invariant over every action: images and timers are parallel,
      the index is 0 or a valid index, and `timeLeft` is not negative. */
  predicate Inv(s: State) {
    |s.images| == |s.timers| &&
    0 <= s.currentIdx && (s.currentIdx == 0 || s.currentIdx < |s.images|) &&
    s.timeLeft >= 0
  }

  /** The actions the invariant is stated over: those the reducer is defined
      on, with an upload pairing every image with one timer, as
      `handleImageUpload` does. */
  predicate Admissible(s: State, a: Action) {
    Defined(s, a) && (a.UploadImages? ==> |a.newImages| == |a.newTimers|)
  }

  /** The state after each action of `acts` in turn. */
  function Run(s: State, acts: seq<Action>): State
    requires AdmissibleTrace(s, acts)
    decreases |acts|
  {
    if acts == [] then s else Run(Reduce(s, acts[0]), acts[1..])
  }

  /** Every action of `acts` is admissible in the state it meets. */
  predicate AdmissibleTrace(s: State, acts: seq<Action>)
    decreases |acts|
  {
    acts == [] ||
    (Admissible(s, acts[0]) && AdmissibleTrace(Reduce(s, acts[0]), acts[1..]))
  }

  /** The page starts from a state that satisfies both invariants. */
  lemma InitialSatisfiesInv()
    ensures Inv(Initial) && PageInv(Initial)
  {
  }

  /** Every admissible action keeps the invariant; in particular the index
      is a valid one whenever there are images, and `timeLeft` never goes
      negative. */
  lemma ReducePreservesInv(s: State, a: Action)
    requires Inv(s) && Admissible(s, a)
    ensures Inv(Reduce(s, a))
    ensures |Reduce(s, a).images| > 0 ==> 0 <= Reduce(s, a).currentIdx < |Reduce(s, a).images|
  {
  }

  /** The invariant holds after any admissible sequence of actions. */
  lemma {:induction false} RunPreservesInv(s: State, acts: seq<Action>)
    requires Inv(s) && AdmissibleTrace(s, acts)
    ensures Inv(Run(s, acts))
    decreases |acts|
  {
    if acts != [] {
      ReducePreservesInv(s, acts[0]);
      RunPreservesInv(Reduce(s, acts[0]), acts[1..]);
    }
  }

  /** The actions the page can dispatch in state `s`: the file input and the
      timer selects are rendered only before the show starts; Start needs
      images (the button is disabled without them) and Restart is shown only
      with the running show; Next, Prev and Stop come from the running show's
      view, which is rendered only once started with images; `RESTART_TIMER`
      and unknown types are never dispatched; `TICK` may arrive in any
      state, late or duplicated.  Every timer the page supplies is positive:
      60 on upload, and one of 30, 60, 120, 300 or 600 from a select. */
  predicate Dispatchable(s: State, a: Action) {
    Admissible(s, a) &&
    match a
    case UploadImages(_, newTimers) =>
      !s.started && forall k :: 0 <= k < |newTimers| ==> newTimers[k] > 0
    case SetTimer(_, value) => !s.started && value > 0
    case Start(_, _) => |s.images| > 0
    case Tick => true
    case Next => s.started && |s.images| > 0
    case Prev => s.started && |s.images| > 0
    case StopTimer => s.started && |s.images| > 0
    case RestartTimer => false
    case Unknown(_) => false
  }

  /** The invariant of the page: on top of `Inv`, the countdown runs only
      once started, a started show has at least one image, and every timer
      is positive. */
  predicate PageInv(s: State) {
    Inv(s) && (s.timerActive ==> s.started) && (s.started ==> |s.images| > 0) &&
    forall k :: 0 <= k < |s.timers| ==> s.timers[k] > 0
  }

  /** Every action the page dispatches keeps the page invariant, so the
      shown image `images[currentIdx]` always exists while the show runs. */
  lemma DispatchPreservesPageInv(s: State, a: Action)
    requires PageInv(s) && Dispatchable(s, a)
    ensures PageInv(Reduce(s, a))
    ensures Reduce(s, a).started ==> 0 <= Reduce(s, a).currentIdx < |Reduce(s, a).images|
  {
    ReducePreservesInv(s, a);
    if a.Start? {
      var zipped := Zip(s.images, s.timers);
      var shuffled := Shuffled(zipped, a.picks);
      ShuffledIsPermutation(zipped, a.picks);
      forall k | 0 <= k < |shuffled|
        ensures shuffled[k].timer > 0
      {
        assert shuffled[k] in multiset(zipped);
        var m :| 0 <= m < |zipped| && zipped[m] == shuffled[k];
      }
    }
  }

  /** In a page state every active tick changes one of the timer effect's
      dependencies, so the effect runs again and schedules the next tick.
      (A slide with a 0 timer would break this: the tick that moves to it
      leaves `timeLeft` at 0, and the page would wait for good.) */
  lemma TickRearmsEffect(s: State)
    requires PageInv(s) && CountdownActive(s)
    ensures EffectDeps(Reduce(s, Tick)) != EffectDeps(s)
  {
  }

  /** Every action of `acts` is one the page dispatches in the state it
      meets. */
  predicate PageTrace(s: State, acts: seq<Action>)
    decreases |acts|
  {
    acts == [] ||
    (Dispatchable(s, acts[0]) && PageTrace(Reduce(s, acts[0]), acts[1..]))
  }

  /** Whatever sequence of actions the page dispatches, starting from a
      state with the page invariant (the initial state is one), the
      countdown never runs before the show starts and the index stays on
      an image. */
  lemma {:induction false} PageRunPreservesPageInv(s: State, acts: seq<Action>)
    requires PageInv(s) && PageTrace(s, acts)
    ensures AdmissibleTrace(s, acts)
    ensures PageInv(Run(s, acts))
    decreases |acts|
  {
    if acts != [] {
      DispatchPreservesPageInv(s, acts[0]);
      PageRunPreservesPageInv(Reduce(s, acts[0]), acts[1..]);
    }
  }

  /** Why the page invariant needs the page's own restraint: `NEXT` before
      the show starts, and `RESTART_TIMER` at any time, switch the countdown
      on in the configuration phase. */
  lemma ActivationBeforeStart(x: Image, y: Image)
    ensures var s := State([x, y], [60, 60], false, 0, 0, false);
      PageInv(s) && !Dispatchable(s, Next) &&
      Reduce(s, Next).timerActive && !Reduce(s, Next).started
    ensures PageInv(Initial) && Reduce(Initial, RestartTimer).timerActive &&
      !Reduce(Initial, RestartTimer).started
  {
  }
}
