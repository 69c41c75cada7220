/**
  The countdown controller of `TimerApp` (main.py:92-340): the total and
  remaining seconds, the running and paused flags, which page of the button
  stack is shown, and the state of the circular widget it drives.

  Each transition is a pure function of the state, with the same branches as
  the handler it models. Which handler can be invoked in which state is a
  matter of the user interface and lives in the `Session` module.
 */
module Countdown {
  import Display
  import TimeLabel

  /** The two pages of the button stack: index 0 (spin boxes and START), index 1 (PAUSE and RESET). */
  datatype Page = InputPage | RunningPage

  datatype TimerState = TimerState(
    total: nat,
    remaining: int,
    running: bool,
    paused: bool,
    page: Page,
    display: Display.DisplayState)

  /** The spin-box ranges (main.py:201, main.py:209, main.py:217). */
  const MaxHours: nat := 99
  const MaxMinutes: nat := 59
  const MaxSecondsField: nat := 59

  predicate InSpinRange(hours: int, minutes: int, seconds: int) {
    0 <= hours <= MaxHours && 0 <= minutes <= MaxMinutes && 0 <= seconds <= MaxSecondsField
  }

  /** The five-minute default the spin boxes start with (main.py:111, main.py:202, main.py:210, main.py:218). */
  const DefaultHours: nat := 0
  const DefaultMinutes: nat := 5
  const DefaultSeconds: nat := 0

  /**
    The total the spin boxes stand for, raised to one second when they are all
    zero (main.py:290-291).
   */
  function DurationSeconds(hours: int, minutes: int, seconds: int): (total: int)
    requires InSpinRange(hours, minutes, seconds)
    ensures 1 <= total <= TimeLabel.MaxSeconds
    ensures total >= hours * 3600 + minutes * 60 + seconds
    ensures total == 1 <==> hours * 3600 + minutes * 60 + seconds <= 1
  {
    var entered := hours * 3600 + minutes * 60 + seconds;
    if entered < 1 then 1 else entered
  }

  /**
    A non-zero entry is shown back on the label exactly as it was typed; an
    all-zero entry is shown as one second.
   */
  lemma DurationShownAsEntered(hours: int, minutes: int, seconds: int)
    requires InSpinRange(hours, minutes, seconds)
    ensures var shown := TimeLabel.Decompose(DurationSeconds(hours, minutes, seconds));
            if hours == 0 && minutes == 0 && seconds == 0
            then shown == TimeLabel.Hms(0, 0, 1)
            else shown == TimeLabel.Hms(hours, minutes, seconds)
  {
    var t := TimeLabel.Hms(hours, minutes, seconds);
    TimeLabel.DecomposeToSeconds(t);
    if hours == 0 && minutes == 0 && seconds == 0 {
      TimeLabel.DecomposeToSeconds(TimeLabel.Hms(0, 0, 1));
    }
  }

  /**
    `_on_time_changed` (main.py:289-293): the new total, the remaining time
    reset to it, and the widget reset to a full ring showing it. Flags and page
    are left alone.
   */
  function OnTimeChanged(s: TimerState, hours: int, minutes: int, seconds: int): (r: TimerState)
    requires InSpinRange(hours, minutes, seconds)
    ensures r.total == DurationSeconds(hours, minutes, seconds)
    ensures r.remaining == r.total
    ensures r.display.progress == 1.0
    ensures r.display.remaining == r.remaining && r.display.total == r.total
    ensures r.running == s.running && r.paused == s.paused && r.page == s.page
  {
    var total := DurationSeconds(hours, minutes, seconds);
    s.(total := total, remaining := total, display := Display.SetTotal(s.display, total))
  }

  /**
    `_start` (main.py:295-303): does nothing when the total is not positive; otherwise
    restarts the countdown from the full total on the running page. The widget
    is not updated.
   */
  function Start(s: TimerState): (r: TimerState)
    ensures s.total == 0 ==> r == s
    ensures s.total > 0 ==>
      && r.remaining == s.total
      && r.running && !r.paused
      && r.page == RunningPage
    ensures r.total == s.total && r.display == s.display
  {
    if s.total <= 0 then s
    else s.(remaining := s.total, running := true, paused := false, page := RunningPage)
  }

  /** `_toggle_pause` (main.py:305-315): flips the paused flag and nothing else. */
  function TogglePause(s: TimerState): (r: TimerState)
    ensures r.paused != s.paused
    ensures r.(paused := s.paused) == s
  {
    s.(paused := !s.paused)
  }

  /** Pausing and resuming (or resuming and pausing) is no change at all. */
  lemma TogglePauseInvolution(s: TimerState)
    ensures TogglePause(TogglePause(s)) == s
  {
  }

  /**
    `_reset` (main.py:317-323): back to the idle input page with the full total
    remaining and the widget at a full ring, whatever state it started from.
   */
  function Reset(s: TimerState): (r: TimerState)
    ensures !r.running && !r.paused && r.page == InputPage
    ensures r.total == s.total && r.remaining == s.total
    ensures r.display.progress == 1.0
    ensures r.display.remaining == s.total && r.display.total == s.total
  {
    s.(running := false, paused := false, remaining := s.total,
       display := Display.SetTotal(s.display, s.total), page := InputPage)
  }

  /** The outcome of a reset depends on nothing but the total. */
  lemma ResetDependsOnlyOnTotal(s1: TimerState, s2: TimerState)
    ensures Reset(s1) == Reset(s2) <==> s1.total == s2.total
  {
  }

  /** Resetting twice is the same as resetting once. */
  lemma ResetIdempotent(s: TimerState)
    ensures Reset(Reset(s)) == Reset(s)
  {
  }

  /** The branch of `_tick` taken: the decremented time has reached zero (main.py:326-327). */
  predicate Expires(s: TimerState) {
    s.remaining - 1 <= 0
  }

  /**
    `_tick` (main.py:325-340). The Qt timer only delivers it while started,
    that is while running and not paused; the division at main.py:339 needs a
    non-zero total. An expiring tick clamps the time to zero, stops, returns
    to the input page and empties the ring; any other tick takes one second
    off and shows the new fraction.
   */
  function Tick(s: TimerState): (r: TimerState)
    requires s.running && !s.paused && s.total >= 1
    ensures r.total == s.total && !r.paused
    ensures Expires(s) ==>
      && r.remaining == 0 && !r.running && r.page == InputPage
      && r.display.progress == 0.0 && r.display.remaining == 0
    ensures !Expires(s) ==>
      && r.remaining == s.remaining - 1 && r.running && r.page == s.page
      && r.display.remaining == r.remaining
    ensures !Expires(s) && s.remaining <= s.total ==>
      && r.display.progress == r.remaining as real / r.total as real
      && 0.0 < r.display.progress < 1.0
    ensures r.display.total == s.display.total
  {
    var remaining := s.remaining - 1;
    if remaining <= 0 then
      s.(remaining := 0, running := false, page := InputPage,
         display := Display.SetProgress(s.display, 0.0, 0))
    else
      var progress := remaining as real / s.total as real;
      s.(remaining := remaining, display := Display.SetProgress(s.display, progress, remaining))
  }
}
