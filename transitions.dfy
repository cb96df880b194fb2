/** What each case of `reducer` does, one lemma per action type, stated
    as the effect on the state and what it leaves alone. */
module Transitions {
  import opened Shuffle
  import opened Slideshow
  import opened Invariants

  /** `UPLOAD_IMAGES` installs the new images and timers and goes back to
      the configuration phase with the countdown reset. */
  lemma UploadResets(s: State, images: seq<Image>, timers: seq<nat>)
    ensures var r := Reduce(s, UploadImages(images, timers));
      r.images == images && r.timers == timers && !r.started &&
      r.currentIdx == 0 && r.timeLeft == 0 && !r.timerActive
  {
  }

  /** The upload the page dispatches leaves every image with the default
      timer of 60 seconds, in the configuration phase. */
  lemma UploadGivesDefaultTimers(s: State, images: seq<Image>)
    ensures var r := Reduce(s, Upload(images));
      r.images == images && |r.timers| == |images| &&
      (forall k :: 0 <= k < |r.timers| ==> r.timers[k] == 60) &&
      PageInv(r)
  {
  }

  /** `SET_TIMER` writes one timer and changes nothing else, whether or not
      the show has started (the reducer has no guard for that). */
  lemma SetTimerChangesOneTimer(s: State, idx: nat, value: nat)
    requires idx < |s.timers|
    ensures var r := Reduce(s, SetTimer(idx, value));
      |r.timers| == |s.timers| && r.timers[idx] == value &&
      (forall k :: 0 <= k < |s.timers| && k != idx ==> r.timers[k] == s.timers[k]) &&
      r.images == s.images && r.started == s.started &&
      r.currentIdx == s.currentIdx && r.timeLeft == s.timeLeft &&
      r.timerActive == s.timerActive
  {
  }

  /** `Zip` and the two maps of `START` undo each other. */
  lemma ZipOfUnzip(slides: seq<Slide>)
    ensures Zip(ImagesOf(slides), TimersOf(slides)) == slides
  {
  }

  /** `START` starts the show at the first shuffled slide with the countdown
      running, set to that slide's timer, or to 0 when there are no images.
      Images and timers are shuffled as pairs: the multiset of (image,
      timer) pairs is what it was, so every image keeps its own timer.  The
      `restart` flag makes no difference. */
  lemma StartShufflesPairs(s: State, picks: seq<nat>, restart: bool)
    requires ValidPicks(picks, |s.images|)
    ensures var r := Reduce(s, Start(picks, restart));
      r.started && r.currentIdx == 0 && r.timerActive &&
      |r.images| == |r.timers| == |s.images| &&
      r.timeLeft == (if |s.images| == 0 then 0 else r.timers[0]) &&
      multiset(Zip(r.images, r.timers)) == multiset(Zip(s.images, s.timers)) &&
      r == Reduce(s, Start(picks, !restart))
  {
    var shuffled := Shuffled(Zip(s.images, s.timers), picks);
    ShuffledIsPermutation(Zip(s.images, s.timers), picks);
    ZipOfUnzip(shuffled);
  }

  /** Pairs, position by position: after `START` the image at position `k`
      sits with the timer it had before the shuffle. */
  lemma StartKeepsEachTimer(s: State, picks: seq<nat>, k: nat)
    requires ValidPicks(picks, |s.images|) && |s.images| == |s.timers|
    requires k < |s.images|
    ensures var r := Reduce(s, Start(picks, false));
      k < |r.images| && k < |r.timers| &&
      exists m :: 0 <= m < |s.images| &&
        s.images[m] == r.images[k] && s.timers[m] == r.timers[k]
  {
    var r := Reduce(s, Start(picks, false));
    StartShufflesPairs(s, picks, false);
    var z := Zip(r.images, r.timers);
    assert z[k] in multiset(z);
    assert z[k] in multiset(Zip(s.images, s.timers));
    var m :| 0 <= m < |s.images| && Zip(s.images, s.timers)[m] == z[k];
    assert s.images[m] == r.images[k] && s.timers[m] == r.timers[k];
  }

  /** `TICK` changes the state exactly when the countdown is active. */
  lemma TickIdleIff(s: State)
    ensures Reduce(s, Tick) == s <==> !CountdownActive(s)
  {
  }

  /** An active `TICK` with time left takes exactly one second off and
      changes nothing else. */
  lemma TickCountsDown(s: State)
    requires CountdownActive(s) && s.timeLeft > 0
    ensures Reduce(s, Tick) == s.(timeLeft := s.timeLeft - 1)
    ensures Reduce(s, Tick).timeLeft >= 0
  {
  }

  /** An active `TICK` with no time left before the last slide moves to the
      next slide, with that slide's timer, and keeps the countdown on. */
  lemma TickAdvances(s: State)
    requires Inv(s) && CountdownActive(s) && s.timeLeft == 0
    requires s.currentIdx < |s.images| - 1
    ensures var r := Reduce(s, Tick);
      r.currentIdx == s.currentIdx + 1 && r.currentIdx < |r.images| &&
      r.timeLeft == s.timers[s.currentIdx + 1] && r.timerActive &&
      r.images == s.images && r.timers == s.timers && r.started
  {
  }

  /** At the last slide, an active `TICK` with no time left only switches
      the countdown off, and every later `TICK` changes nothing. */
  lemma TickStopsAtLastSlide(s: State)
    requires Inv(s) && CountdownActive(s) && s.timeLeft == 0
    requires s.currentIdx >= |s.images| - 1
    ensures Reduce(s, Tick) == s.(timerActive := false)
    ensures Reduce(Reduce(s, Tick), Tick) == Reduce(s, Tick)
  {
  }

  /** `NEXT` moves one slide forward and restarts the countdown with that
      slide's timer; at the last slide it does nothing.  It neither needs
      nor checks that the show has started. */
  lemma NextMovesForward(s: State)
    requires Inv(s)
    ensures var r := Reduce(s, Next);
      if s.currentIdx < |s.images| - 1 then
        r == s.(currentIdx := s.currentIdx + 1,
                timeLeft := s.timers[s.currentIdx + 1], timerActive := true)
      else r == s
  {
  }

  /** `PREV` moves one slide back and restarts the countdown with that
      slide's timer; at the first slide it does nothing. */
  lemma PrevMovesBack(s: State)
    requires Inv(s)
    ensures var r := Reduce(s, Prev);
      if s.currentIdx > 0 then
        r == s.(currentIdx := s.currentIdx - 1,
                timeLeft := s.timers[s.currentIdx - 1], timerActive := true) &&
        0 <= r.currentIdx < |r.images|
      else r == s
  {
  }

  /** `STOP_TIMER` only switches the countdown off, and doing it twice is
      doing it once. */
  lemma StopTimerIdempotent(s: State)
    ensures Reduce(s, StopTimer) == s.(timerActive := false)
    ensures Reduce(Reduce(s, StopTimer), StopTimer) == Reduce(s, StopTimer)
    ensures !CountdownActive(Reduce(s, StopTimer))
  {
  }

  /** `RESTART_TIMER` restarts the countdown of the current slide from its
      full timer, without moving or reordering anything; with no images it
      restarts from 0. */
  lemma RestartTimerResets(s: State)
    requires Inv(s)
    ensures var r := Reduce(s, RestartTimer);
      r == s.(timeLeft := r.timeLeft, timerActive := true) &&
      r.timeLeft == (if |s.images| == 0 then 0 else s.timers[s.currentIdx])
  {
  }

  /** An action of any other type returns the state it was given. */
  lemma UnknownIsNoop(s: State, kind: string)
    ensures Reduce(s, Unknown(kind)) == s
  {
  }
}
