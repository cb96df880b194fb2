/** Four runs of the state machine worked through to their end.  The
    shuffle's draws are chosen so that it keeps the order (`picks[i] == i`
    swaps every element with itself). */
module Scenarios {
  import opened Shuffle
  import opened Slideshow
  import opened Countdown

  /** Two slides of 30 and 60 seconds: the first 30 ticks count the first
      slide down to 0, the 31st moves to the second slide with its 60
      seconds, still counting. */
  lemma TwoSlides(x: Image, y: Image)
    ensures var s := Reduce(State([x, y], [30, 60], false, 0, 0, false), Start([0, 1], false));
      s == State([x, y], [30, 60], true, 0, 30, true) &&
      Ticks(s, 30) == s.(timeLeft := 0) &&
      Ticks(s, 31) == s.(currentIdx := 1, timeLeft := 60)
  {
    var s0 := State([x, y], [30, 60], false, 0, 0, false);
    ShuffleDownIdentity(Zip(s0.images, s0.timers), [0, 1], 2);
    var s := Reduce(s0, Start([0, 1], false));
    assert s.images == [x, y] && s.timers == [30, 60];
    TicksCountDown(s, 30);
    assert Ticks(s, 31) == Ticks(Ticks(s, 30), 1) by { TicksSplit(s, 30, 1); }
  }

  /** One slide of 30 seconds: after 30 ticks it shows 0 with the countdown
      still on; the 31st switches it off, and later ticks change nothing. */
  lemma OneSlide(x: Image, n: nat)
    ensures var s := Reduce(State([x], [30], false, 0, 0, false), Start([0], false));
      s == State([x], [30], true, 0, 30, true) &&
      Ticks(s, 30) == s.(timeLeft := 0) &&
      Ticks(s, 31 + n) == s.(timeLeft := 0, timerActive := false)
  {
    var s := Reduce(State([x], [30], false, 0, 0, false), Start([0], false));
    assert s == State([x], [30], true, 0, 30, true);
    TicksCountDown(s, 30);
    var done := s.(timeLeft := 0, timerActive := false);
    TicksSplit(s, 30, 1 + n);
    TicksSplit(s.(timeLeft := 0), 1, n);
    IdleTicksChangeNothing(done, n);
  }

  /** Stop, then ticks: nothing moves.  Restart then puts the current
      slide's full timer back and switches the countdown on. */
  lemma StopThenRestart(x: Image, y: Image, n: nat)
    ensures var s := Reduce(State([x, y], [30, 60], false, 0, 0, false), Start([0, 1], false));
      var stopped := Reduce(Ticks(s, 3), StopTimer);
      stopped == s.(timeLeft := 27, timerActive := false) &&
      Ticks(stopped, n) == stopped &&
      Reduce(Ticks(stopped, n), RestartTimer) == s
  {
  }

  /** No images: `START` still switches the countdown on, at 0 seconds;
      `NEXT` and `PREV` change nothing, and the first tick switches the
      countdown off. */
  lemma NoImages()
    ensures var s := Reduce(Initial, Start([], false));
      s == State([], [], true, 0, 0, true) &&
      Reduce(s, Next) == s && Reduce(s, Prev) == s &&
      TicksLeft(s) == 1 && Reduce(s, Tick) == s.(timerActive := false)
  {
  }
}
