/** The countdown as the page's timer effect drives it.  The effect runs
    whenever `started`, `timerActive` or `timeLeft` changes, and then, if
    `started && timerActive`, schedules one `TICK` a second later.  The
    results here say how many ticks the countdown takes from any state if
    they keep coming, that they do keep coming on the page (every tick
    changes one of the effect's dependencies), that the countdown is over
    at the last slide, and that ticks arriving after it are harmless. */
module Countdown {
  import opened Slideshow
  import opened Invariants

  /** The state after `n` ticks. */
  function Ticks(s: State, n: nat): State
    decreases n
  {
    if n == 0 then s else Ticks(Reduce(s, Tick), n - 1)
  }

  /** The total of a list of timers. */
  function Sum(xs: seq<nat>): nat
    decreases |xs|
  {
    if xs == [] then 0 else xs[0] + Sum(xs[1..])
  }

  /** The timers of the slides after the current one. */
  function TimersAfter(s: State): seq<nat>
    requires Inv(s)
  {
    if s.currentIdx < |s.timers| then s.timers[s.currentIdx + 1..] else []
  }

  /** How many ticks the countdown still takes: the seconds left on this
      slide, then for each later slide one tick to move to it and its full
      timer, then one tick to switch the countdown off.  Nothing when the
      countdown is off. */
  function TicksLeft(s: State): nat
    requires Inv(s)
  {
    if !CountdownActive(s) then 0
    else s.timeLeft + Sum(TimersAfter(s)) + |TimersAfter(s)| + 1
  }

  /** Every tick of an active countdown uses up exactly one of them. */
  lemma TickConsumesOne(s: State)
    requires Inv(s) && CountdownActive(s)
    ensures Inv(Reduce(s, Tick))
    ensures TicksLeft(Reduce(s, Tick)) == TicksLeft(s) - 1
  {
  }

  /** `m + n` ticks are `m` ticks followed by `n`. */
  lemma {:induction false} TicksSplit(s: State, m: nat, n: nat)
    ensures Ticks(s, m + n) == Ticks(Ticks(s, m), n)
    decreases m
  {
    if m > 0 {
      TicksSplit(Reduce(s, Tick), m - 1, n);
    }
  }

  /** Once the countdown is off, any number of ticks changes nothing: a late
      or repeated tick cannot disturb the state. */
  lemma {:induction false} IdleTicksChangeNothing(s: State, n: nat)
    requires !CountdownActive(s)
    ensures Ticks(s, n) == s
    decreases n
  {
    if n > 0 {
      IdleTicksChangeNothing(Reduce(s, Tick), n - 1);
    }
  }

  /** While time is left on the current slide, `n` ticks take exactly `n`
      seconds off it and change nothing else. */
  lemma {:induction false} TicksCountDown(s: State, n: nat)
    requires CountdownActive(s) && n <= s.timeLeft
    ensures Ticks(s, n) == s.(timeLeft := s.timeLeft - n)
    decreases n
  {
    if n > 0 {
      TicksCountDown(Reduce(s, Tick), n - 1);
    }
  }

  /** The countdown always ends, after exactly `TicksLeft(s)` ticks: it is
      on before each of them and off after the last.  It ends on the last
      slide with no time left, images and timers as they were. */
  lemma {:induction false} CountdownEndsAtLastSlide(s: State)
    requires Inv(s)
    ensures forall k :: 0 <= k < TicksLeft(s) ==> CountdownActive(Ticks(s, k))
    ensures Inv(Ticks(s, TicksLeft(s)))
    ensures !CountdownActive(Ticks(s, TicksLeft(s)))
    ensures Ticks(s, TicksLeft(s)).images == s.images
    ensures Ticks(s, TicksLeft(s)).timers == s.timers
    ensures CountdownActive(s) && |s.images| > 0 ==>
      Ticks(s, TicksLeft(s)).currentIdx == |s.images| - 1 &&
      Ticks(s, TicksLeft(s)).timeLeft == 0
    decreases TicksLeft(s)
  {
    if CountdownActive(s) {
      var r := Reduce(s, Tick);
      TickConsumesOne(s);
      CountdownEndsAtLastSlide(r);
      forall k | 0 <= k < TicksLeft(s)
        ensures CountdownActive(Ticks(s, k))
      {
        if k > 0 {
          assert Ticks(s, k) == Ticks(r, k - 1);
        }
      }
    }
  }

  /** On the page the ticks keep coming until the countdown is over: every
      state before each of the `TicksLeft(s)` ticks satisfies the page
      invariant, and each of those ticks changes a dependency of the timer
      effect, which therefore schedules the next one. */
  lemma {:induction false} PageCountdownKeepsTicking(s: State)
    requires PageInv(s)
    ensures forall k :: 0 <= k < TicksLeft(s) ==>
      PageInv(Ticks(s, k)) && EffectDeps(Ticks(s, k + 1)) != EffectDeps(Ticks(s, k))
    decreases TicksLeft(s)
  {
    if CountdownActive(s) {
      var r := Reduce(s, Tick);
      DispatchPreservesPageInv(s, Tick);
      TickRearmsEffect(s);
      TickConsumesOne(s);
      PageCountdownKeepsTicking(r);
      forall k | 0 <= k < TicksLeft(s)
        ensures PageInv(Ticks(s, k)) && EffectDeps(Ticks(s, k + 1)) != EffectDeps(Ticks(s, k))
      {
        if k > 0 {
          assert Ticks(s, k) == Ticks(r, k - 1);
          assert Ticks(s, k + 1) == Ticks(r, k);
        }
      }
    }
  }
}
