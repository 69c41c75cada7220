# Countdown timer: a Dafny model

A model of the logic inside a small always-on-top desktop countdown timer
(`main.py`, a PySide6 program). The user enters hours, minutes and seconds in
three spin boxes, presses START, can PAUSE/RESUME or RESET, and the timer ticks
once a second until it expires. A circular widget shows the fraction of time
left as a ring and the remaining time as an `HH:MM:SS` label.

The project has four modules:

- `TimeLabel` (`label.dfy`) splits seconds into hours, minutes and seconds and
  prints each field with the `02d` format. It also has a reader for the label,
  used to prove that the printed label stands for exactly the time it shows.
- `Display` (`display.dfy`) models the widget state of `CircleTimerWidget`:
  the progress (a `real` in [0, 1]), the seconds shown, and the recorded total.
  It holds `set_progress`, `set_total` and the centre label.
- `Countdown` (`countdown.dfy`) models the controller state of `TimerApp`:
  total, remaining, running, paused, the page of the button stack shown
  (index 0 is the input page, index 1 the running page), and the widget.
  Each handler is a pure function with the branches of the handler in main.py.
- `Session` (`session.dfy`) says which handler can fire in which state. A
  button is only clickable on the page that shows it. The Qt timer only
  delivers ticks between `start()` and `stop()`, that is while running and not
  paused. Under that gating, `Valid` holds in every reachable state, and the
  module proves the expiry count and the scenarios.

The handlers themselves are left ungated, as in the source: `Start` does not
check the page and `TogglePause` does not check `running`. The gating lives in
`Session.Enabled`.

`_start` (main.py:295-303) never updates the widget. So after an expiry,
pressing START leaves the ring empty and the label at `00:00:00` until the
first tick. `Session.StaleAfterExpiry` names this state, and
`Session.RestartAfterExpiryShowsStaleDisplay` proves both that it happens and
that the next tick repairs it.

## Model

| member | source | states |
|---|---|---|
| `TimeLabel.Decompose` | main.py:79-81 | the hours, minutes and seconds shown recombine to the remaining seconds; minutes and seconds are below 60 |
| `TimeLabel.DecomposeToSeconds` | main.py:79-81 | the split is unique: any split with minutes and seconds below 60 is exactly what the widget computes for its total |
| `TimeLabel.HoursFitTwoDigits` | main.py:201 | for any duration the spin boxes can enter (at most 99:59:59), the hours field is at most 99 |
| `TimeLabel.ParseDecimalOfDecimal` | main.py:82 | the decimal digits printed for a number read back as that number |
| `TimeLabel.TwoDigits` | main.py:82 | a field printed with `02d` is all digits, at least two wide, and exactly two wide below 100 |
| `TimeLabel.ParseTwoDigits` | main.py:82 | zero padding never changes the value a field reads back as |
| `TimeLabel.Format` | main.py:79-82 | for any duration up to 99:59:59 the label is 8 characters with colons at positions 2 and 5 |
| `TimeLabel.ParseFormat` | main.py:79-82 | the label of every duration up to 99:59:59 reads back to exactly that duration |
| `TimeLabel.FormatInjective` | main.py:79-82 | two different durations in range never show the same label |
| `Display.Initial` | main.py:21-23 | a new widget shows a full ring and zero seconds, with zero recorded as total |
| `Display.Clamp01` | main.py:26 | the stored progress lies in [0, 1]; it equals the input inside that range, 0 below it and 1 above it |
| `Display.SetProgress` | main.py:25-28 | the stored progress is the input clamped into [0, 1]; the seconds shown are the ones passed; the total is untouched |
| `Display.SetProgressIdempotent` | main.py:26 | storing an already stored progress and time again changes nothing |
| `Display.SetTotal` | main.py:30-34 | after `set_total(t)` the ring is full and both the shown seconds and the recorded total are `t` |
| `Display.SetTotalForgetsHistory` | main.py:30-34 | the widget after `set_total` does not depend on what it showed before |
| `Display.SetTotalIsFullProgress` | main.py:30-34 | `set_total(t)` is the same as recording the fraction `t/t` for `t` seconds |
| `Display.CentreLabel` | main.py:78-87 | the centre text for any time up to 99:59:59 reads back to the seconds the widget holds |
| `Countdown.DurationSeconds` | main.py:290-291 | the total is at least 1 and at most 99:59:59; it is never less than the entered seconds, and it is 1 exactly when the entry is 0 or 1 second |
| `Countdown.DurationShownAsEntered` | main.py:290-291 | a non-zero entry is shown on the label with the same hours, minutes and seconds; an all-zero entry is shown as 00:00:01 |
| `Countdown.OnTimeChanged` | main.py:289-293 | the total becomes the clamped duration, remaining equals it, and the widget shows a full ring with that total; flags and page are unchanged |
| `Countdown.Start` | main.py:295-303 | with a zero total nothing changes; otherwise remaining is reset to the total, the timer runs unpaused on the running page; total and widget are unchanged |
| `Countdown.TogglePause` | main.py:305-315 | the paused flag flips and every other field is unchanged |
| `Countdown.TogglePauseInvolution` | main.py:305-315 | pausing then resuming is the identity |
| `Countdown.Reset` | main.py:317-323 | from any state: not running, not paused, input page, remaining equals total, widget full and showing the total |
| `Countdown.ResetDependsOnlyOnTotal` | main.py:317-323 | two states reset to the same state exactly when their totals are equal |
| `Countdown.ResetIdempotent` | main.py:317-323 | resetting twice is the same as resetting once |
| `Countdown.Tick` | main.py:325-340 | an expiring tick sets remaining to 0, stops, returns to the input page and shows 0.0 and 0 seconds; any other tick takes exactly one second off and shows the new time; from a state with remaining at most the total, its progress is `remaining/total`, strictly between 0 and 1 |
| `Session.Initial` | main.py:108-119 | the opening window is valid: five minutes, idle, input page, full ring showing 300 seconds |
| `Session.OnTimeChangedKeepsValid` | main.py:289-293 | editing the duration on the input page keeps the invariant |
| `Session.StartKeepsValid` | main.py:295-303 | START on the input page keeps the invariant |
| `Session.ResetKeepsValid` | main.py:317-323 | RESET keeps the invariant from any valid state |
| `Session.TickKeepsValid` | main.py:325-340 | every tick keeps `1 <= total`, `0 <= remaining <= total` and the display invariant |
| `Session.Step` | main.py:289-340 | every handler the user interface can trigger maps a valid state to a valid state |
| `Session.Run` | main.py:289-340 | any sequence of events keeps the invariant, with events that nothing on screen can produce ignored |
| `Session.ReachableStatesValid` | main.py:289-340 | every state reachable from the opening window is valid |
| `Session.TotalFrozenWhileCounting` | main.py:289-293 | while running or paused, no event changes the total |
| `Session.StartGuardUnreachable` | main.py:296-297 | in a valid state the early return of `_start` is never taken |
| `Session.DisplayWellFormed` | main.py:25-34 | in a reachable state the progress lies in [0, 1], the time shown is at most the total, and the label is 8 characters that read back to it |
| `Session.ArcDrawnIffTimeShown` | main.py:53 | the arc is drawn exactly when the label shows time left |
| `Session.DisplayMatchesController` | main.py:339-340 | outside the stale state after a restart, the widget shows the controller's remaining time and the fraction `remaining/total` |
| `Session.PauseResumeIdentity` | main.py:305-315 | PAUSE stops the ticks without losing time, and RESUME returns the very same state |
| `Session.ResetRestoresInput` | main.py:317-323 | RESET from the running page, paused or not, returns to the input page with the full total and a full ring |
| `Session.Ticks` | main.py:325-340 | after `n` ticks, remaining has dropped by exactly `n`; the timer still runs exactly when `n` is below the starting remaining time, and the widget is back in step |
| `Session.Notifications` | main.py:325-337 | among `n` ticks the expiry branch is taken once if the `n`-th brings the time to zero, otherwise never |
| `Session.ExpiresOnTotalTick` | main.py:295-337 | after START, the timer is still running after each of the first `total - 1` ticks and expires on the `total`-th, with one notification |
| `Session.RestartAfterExpiryShowsStaleDisplay` | main.py:295-303 | START after an expiry restarts the count but the widget keeps showing an empty ring and `00:00:00` until the next tick brings it back in step |
| `Session.FiveSecondScenario` | main.py:325-337 | a five-second countdown has expired after five ticks, once, back on the input page with progress 0.0 |
| `Session.PauseAtSevenScenario` | main.py:305-326 | ten seconds, paused at seven and resumed, is still at seven, and the next tick gives six |
| `Session.ZeroDurationScenario` | main.py:290-291 | an entry of 0:00:00 becomes one second, which expires on the first tick |

## Left out

- Window setup, layouts, style sheets, button texts and colours, and the page switching calls are left out. They are calls into PySide6. The page index is kept as the `Page` field.
- Painting is left out: the track ring, the gradients, the arc span `int(-progress*360*16)` and the glow position. These are floating-point and trigonometric drawing. Only the arc-drawn condition (main.py:53) and the centre label are modelled.
- `_notify_timer_end` is left out: the beep, window activation and the opacity flashes are fire-and-forget platform calls. The model only counts how often the expiry branch that calls it is taken (`Session.Notifications`).
- `QTimer` scheduling is not modelled as time. It appears only as the condition `running && !paused` under which a tick can be delivered.
- Drag-to-move (main.py:358-367) and `closeEvent` (main.py:369-373) are left out. They are event-loop and window-manager plumbing with no timer state.
- Floating-point rounding is not modelled. Progress is an exact `real`, so `remaining/total` is exact, where Python computes a double.
- The widget's remaining seconds and total are `nat`. The controller only ever passes non-negative values, so the label is never asked to print a negative time.
- Countdown.Tick: requires a total of at least 1, which rules out the `ZeroDivisionError` main.py:339 would raise for a zero total. That case cannot happen: the total starts at 300 (main.py:111), `_on_time_changed` clamps it with `max(total, 1)` (main.py:291), and `Session.Valid` keeps `1 <= total` in every reachable state.
