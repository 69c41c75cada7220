/**
  The timer as the user drives it. The handlers of `Countdown` are reachable
  only through the widgets the current page shows, and the one-second tick
  only while the Qt timer is started (it is started at main.py:303 and
  main.py:307 and stopped at main.py:312, main.py:318 and main.py:329).
  Under that gating every reachable state satisfies `Valid`.
 */
module Session {
  import Display
  import TimeLabel
  import opened Countdown

  /** One thing that can happen to the window. */
  datatype Event =
    | DurationEdited(hours: int, minutes: int, seconds: int)  // a spin box changed
    | StartClicked
    | PauseClicked                                            // the PAUSE / RESUME button
    | ResetClicked
    | TimerFired                                              // the one-second QTimer timeout

  /**
    Whether the event can happen: spin boxes and START live on the input page,
    PAUSE/RESUME and RESET on the running page, and the timer fires only
    while started.
   */
  predicate Enabled(s: TimerState, e: Event) {
    match e
    case DurationEdited(h, m, sec) => s.page == InputPage && InSpinRange(h, m, sec)
    case StartClicked => s.page == InputPage
    case PauseClicked => s.page == RunningPage
    case ResetClicked => s.page == RunningPage
    case TimerFired => s.running && !s.paused
  }

  /** The widget shows exactly the controller's time and fraction. */
  predicate InSync(s: TimerState) {
    && s.total >= 1
    && s.display.remaining == s.remaining
    && s.display.progress == s.remaining as real / s.total as real
  }

  /**
    The one state in which the widget lags behind: START pressed after an
    expiry, before the first tick, still shows the empty ring and `00:00:00`.
   */
  predicate StaleAfterExpiry(s: TimerState) {
    && s.running
    && s.remaining == s.total
    && s.display.remaining == 0
    && s.display.progress == 0.0
  }

  /** The invariant of every reachable state. */
  predicate Valid(s: TimerState) {
    && 1 <= s.total <= TimeLabel.MaxSeconds
    && 0 <= s.remaining <= s.total
    && (s.paused ==> s.running)
    && (s.page == InputPage <==> !s.running)
    && (s.running ==> s.remaining >= 1)
    && (!s.running ==> s.remaining == s.total || s.remaining == 0)
    && s.display.total == s.total
    && (InSync(s) || StaleAfterExpiry(s))
  }

  /**
    The window as it first appears: the controller's five-minute defaults
    (main.py:109-112), a fresh widget, the input page, and then the
    `_on_time_changed` call that ends `_build_ui` (main.py:265).
   */
  function Initial(): (s: TimerState)
    ensures Valid(s)
    ensures s.total == 300 && s.remaining == 300
    ensures !s.running && !s.paused && s.page == InputPage
    ensures s.display.progress == 1.0 && s.display.remaining == 300
  {
    var opening := TimerState(300, 300, false, false, InputPage, Display.Initial());
    OnTimeChanged(opening, DefaultHours, DefaultMinutes, DefaultSeconds)
  }

  /** Dispatches an enabled event to its handler; the invariant is kept. */
  function Step(s: TimerState, e: Event): (r: TimerState)
    requires Valid(s) && Enabled(s, e)
    ensures Valid(r)
  {
    match e
    case DurationEdited(h, m, sec) => OnTimeChangedKeepsValid(s, h, m, sec); OnTimeChanged(s, h, m, sec)
    case StartClicked => StartKeepsValid(s); Start(s)
    case PauseClicked => TogglePause(s)
    case ResetClicked => ResetKeepsValid(s); Reset(s)
    case TimerFired => TickKeepsValid(s); Tick(s)
  }

  /** A remaining count between zero and the total is a fraction in [0, 1]. */
  lemma FractionInUnit(remaining: int, total: int)
    requires 0 <= remaining <= total && total >= 1
    ensures 0.0 <= remaining as real / total as real <= 1.0
    ensures remaining as real / total as real == 0.0 <==> remaining == 0
  {
    var q := remaining as real / total as real;
    assert q * total as real == remaining as real;
  }

  /** A whole total over itself is the full fraction. */
  lemma FullFraction(total: int)
    requires total >= 1
    ensures total as real / total as real == 1.0
  {
  }

  lemma OnTimeChangedKeepsValid(s: TimerState, hours: int, minutes: int, seconds: int)
    requires Valid(s) && s.page == InputPage && InSpinRange(hours, minutes, seconds)
    ensures Valid(OnTimeChanged(s, hours, minutes, seconds))
  {
    var r := OnTimeChanged(s, hours, minutes, seconds);
    FullFraction(r.total);
  }

  lemma StartKeepsValid(s: TimerState)
    requires Valid(s) && s.page == InputPage
    ensures Valid(Start(s))
  {
  }

  lemma ResetKeepsValid(s: TimerState)
    requires Valid(s)
    ensures Valid(Reset(s))
  {
    FullFraction(s.total);
  }

  lemma TickKeepsValid(s: TimerState)
    requires Valid(s) && s.running && !s.paused
    ensures Valid(Tick(s))
  {
    var r := Tick(s);
    if Expires(s) {
      assert r.remaining as real / r.total as real == 0.0;
    }
  }

  /** A sequence of events, each ignored when nothing on screen can produce it. */
  function Run(s: TimerState, events: seq<Event>): (r: TimerState)
    requires Valid(s)
    ensures Valid(r)
    decreases |events|
  {
    if |events| == 0 then s
    else
      var next := if Enabled(s, events[0]) then Step(s, events[0]) else s;
      Run(next, events[1..])
  }

  /** Every state reached from the opening window satisfies the invariant. */
  lemma ReachableStatesValid(events: seq<Event>)
    ensures Valid(Run(Initial(), events))
  {
  }

  /** The total cannot change while the countdown is running or paused. */
  lemma TotalFrozenWhileCounting(s: TimerState, e: Event)
    requires Valid(s) && Enabled(s, e) && s.running
    ensures Step(s, e).total == s.total
  {
  }

  /** The early return of `_start` (main.py:296-297) is never taken. */
  lemma StartGuardUnreachable(s: TimerState)
    requires Valid(s)
    ensures Start(s).running && Start(s).remaining == s.total
  {
  }

  /**
    What the widget shows is always in range: a progress in [0, 1], at most the
    total, and a label of the form `HH:MM:SS` that reads back to the time shown.
   */
  lemma DisplayWellFormed(s: TimerState)
    requires Valid(s)
    ensures 0.0 <= s.display.progress <= 1.0
    ensures s.display.remaining <= s.total
    ensures |Display.CentreLabel(s.display)| == 8
    ensures TimeLabel.ParseLabel(Display.CentreLabel(s.display)) == TimeLabel.Some(s.display.remaining)
  {
    FractionInUnit(s.remaining, s.total);
  }

  /** The arc is drawn exactly when the label shows time left. */
  lemma ArcDrawnIffTimeShown(s: TimerState)
    requires Valid(s)
    ensures Display.ArcDrawn(s.display) <==> s.display.remaining > 0
  {
    FractionInUnit(s.remaining, s.total);
  }

  /** Outside the stale window after a restart, the widget shows the controller's time. */
  lemma DisplayMatchesController(s: TimerState)
    requires Valid(s) && !StaleAfterExpiry(s)
    ensures s.display.remaining == s.remaining
    ensures s.display.progress == s.remaining as real / s.total as real
  {
  }

  /** PAUSE then RESUME gives back the very same state: no time is lost or gained. */
  lemma PauseResumeIdentity(s: TimerState)
    requires Valid(s) && s.running && !s.paused
    ensures Enabled(s, PauseClicked)
    ensures var p := Step(s, PauseClicked);
            p.paused && p.remaining == s.remaining && !Enabled(p, TimerFired)
            && Enabled(p, PauseClicked) && Step(p, PauseClicked) == s
  {
  }

  /** RESET from the running page returns to the input page with the full time, paused or not. */
  lemma ResetRestoresInput(s: TimerState)
    requires Valid(s) && s.page == RunningPage
    ensures var r := Step(s, ResetClicked);
            !r.running && !r.paused && r.page == InputPage && r.remaining == r.total == s.total
            && InSync(r) && r.display.progress == 1.0
  {
  }

  /**
    The state after `n` uninterrupted timer firings from a running, unpaused
    state with at least `n` seconds left.
   */
  function Ticks(s: TimerState, n: nat): (r: TimerState)
    requires Valid(s) && s.running && !s.paused && n <= s.remaining
    ensures Valid(r) && r.total == s.total && !r.paused
    ensures r.remaining == s.remaining - n
    ensures r.running <==> n < s.remaining
    ensures n > 0 ==> InSync(r)
    ensures n == s.remaining ==> r.page == InputPage && r.display.progress == 0.0
    decreases n
  {
    if n == 0 then s else Step(Ticks(s, n - 1), TimerFired)
  }

  /**
    How many of those `n` firings take the expiry branch and so call
    `_notify_timer_end` (main.py:336): one if the `n`-th brings the time to
    zero, none otherwise.
   */
  function Notifications(s: TimerState, n: nat): (count: nat)
    requires Valid(s) && s.running && !s.paused && n <= s.remaining
    ensures count == if n == s.remaining then 1 else 0
    decreases n
  {
    if n == 0 then 0
    else Notifications(s, n - 1) + (if Expires(Ticks(s, n - 1)) then 1 else 0)
  }

  /**
    After START the countdown runs for exactly `total` ticks: it is still
    running after every earlier one, and the `total`-th expires it, once.
   */
  lemma ExpiresOnTotalTick(s: TimerState)
    requires Valid(s) && s.page == InputPage
    ensures var t := Step(s, StartClicked);
            && t.running && !t.paused && t.remaining == s.total
            && (forall k :: 0 <= k < s.total ==> Ticks(t, k).running)
            && !Ticks(t, s.total).running
            && Ticks(t, s.total).remaining == 0
            && Ticks(t, s.total).display.progress == 0.0
            && Notifications(t, s.total) == 1
  {
  }

  /**
    START after an expiry restarts the count but leaves the widget as the
    expiry left it (main.py:295-303 never touches it): an empty ring and
    `00:00:00` until the first tick brings it back in step.
   */
  lemma RestartAfterExpiryShowsStaleDisplay(s: TimerState)
    requires Valid(s) && s.page == InputPage && s.remaining == 0
    ensures var t := Step(s, StartClicked);
            && StaleAfterExpiry(t) && !InSync(t)
            && t.remaining == t.total >= 1
            && !Display.ArcDrawn(t.display)
            && Display.CentreLabel(t.display) == "00:00:00"
            && InSync(Step(t, TimerFired))
  {
    var t := Step(s, StartClicked);
    assert TimeLabel.Decompose(0) == TimeLabel.Hms(0, 0, 0);
    assert TimeLabel.TwoDigits(0) == "00";
  }

  /** A five-second countdown entered on the input page: five ticks after START it has expired, once, back on the input page. */
  lemma FiveSecondScenario(s0: TimerState)
    requires Valid(s0) && s0.page == InputPage
    ensures var s := Step(s0, DurationEdited(0, 0, 5));
            var t := Step(s, StartClicked);
            var u := Ticks(t, 5);
            && t.remaining == 5
            && u.remaining == 0 && !u.running && u.page == InputPage
            && u.display.progress == 0.0 && u.display.remaining == 0
            && Notifications(t, 5) == 1
  {
    var s := Step(s0, DurationEdited(0, 0, 5));
    assert s.total == 5 && s.page == InputPage;
    ExpiresOnTotalTick(s);
  }

  /** Ten seconds, paused at seven and resumed: still seven, and the next tick gives six. */
  lemma PauseAtSevenScenario(s0: TimerState)
    requires Valid(s0) && s0.page == InputPage
    ensures var s := Step(s0, DurationEdited(0, 0, 10));
            var t := Step(s, StartClicked);
            var u := Ticks(t, 3);
            var paused := Step(u, PauseClicked);
            var resumed := Step(paused, PauseClicked);
            && u.remaining == 7
            && !Enabled(paused, TimerFired)
            && resumed.remaining == 7
            && Step(resumed, TimerFired).remaining == 6
  {
    var s := Step(s0, DurationEdited(0, 0, 10));
    assert s.total == 10 && s.page == InputPage;
    var t := Step(s, StartClicked);
    assert t.running && !t.paused && t.remaining == 10;
    var u := Ticks(t, 3);
    assert u.remaining == 7 && u.running;
    PauseResumeIdentity(u);
  }

  /** A duration of 0:00:00 is raised to one second, which expires on the first tick. */
  lemma ZeroDurationScenario(s0: TimerState)
    requires Valid(s0) && s0.page == InputPage
    ensures var s := Step(s0, DurationEdited(0, 0, 0));
            var t := Step(s, StartClicked);
            && s.total == 1
            && t.running
            && !Ticks(t, 1).running && Ticks(t, 1).remaining == 0
            && Notifications(t, 1) == 1
  {
  }
}
