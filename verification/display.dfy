/**
  The state of the circular timer widget (`CircleTimerWidget`, main.py:15-89):
  the fraction of the ring still drawn and the seconds shown at its centre.
  Progress is a Python float in the source; here it is an exact `real`.
 */
module Display {
  import TimeLabel

  /**
    `progress` is 1.0 for a full ring and 0.0 for an empty one; `remaining` is
    what the centre label shows; `total` is recorded but never drawn.
   */
  datatype DisplayState = DisplayState(progress: real, remaining: nat, total: nat)

  /** A freshly constructed widget: full ring, zero seconds (main.py:21-23). */
  function Initial(): (d: DisplayState)
    ensures d.progress == 1.0 && d.remaining == 0 && d.total == 0
  {
    DisplayState(1.0, 0, 0)
  }

  /** `max(0.0, min(1.0, p))`: the nearest point of [0, 1] to `p`. */
  function Clamp01(p: real): (c: real)
    ensures 0.0 <= c <= 1.0
    ensures 0.0 <= p <= 1.0 ==> c == p
    ensures p < 0.0 ==> c == 0.0
    ensures p > 1.0 ==> c == 1.0
  {
    if 1.0 < p then 1.0 else if p < 0.0 then 0.0 else p
  }

  /**
    Records a new progress value, clamped into [0, 1], and the seconds to show
    (main.py:25-28). The recorded total is not touched.
   */
  function SetProgress(d: DisplayState, progress: real, remaining: nat): (r: DisplayState)
    ensures 0.0 <= r.progress <= 1.0
    ensures 0.0 <= progress <= 1.0 ==> r.progress == progress
    ensures progress < 0.0 ==> r.progress == 0.0
    ensures progress > 1.0 ==> r.progress == 1.0
    ensures r.remaining == remaining
    ensures r.total == d.total
  {
    d.(progress := Clamp01(progress), remaining := remaining)
  }

  /** Shows a new duration at full progress (main.py:30-34). */
  function SetTotal(d: DisplayState, total: nat): (r: DisplayState)
    ensures r.progress == 1.0
    ensures r.remaining == total && r.total == total
  {
    DisplayState(1.0, total, total)
  }

  /** Re-recording a displayed state changes nothing: the clamp is idempotent. */
  lemma SetProgressIdempotent(d: DisplayState, progress: real, remaining: nat)
    ensures var r := SetProgress(d, progress, remaining);
            SetProgress(r, r.progress, r.remaining) == r
  {
  }

  /** What the widget showed before `set_total` leaves no trace afterwards. */
  lemma SetTotalForgetsHistory(d1: DisplayState, d2: DisplayState, total: nat)
    ensures SetTotal(d1, total) == SetTotal(d2, total)
  {
  }

  /**
    `set_total(t)` is the same as recording the full fraction `t / t` for
    `t` seconds once the total is `t`.
   */
  lemma SetTotalIsFullProgress(d: DisplayState, total: nat)
    requires total >= 1
    ensures SetTotal(d, total) == SetProgress(d.(total := total), total as real / total as real, total)
  {
    assert total as real / total as real == 1.0;
  }

  /** The coloured arc is drawn only for a positive progress (main.py:53). */
  predicate ArcDrawn(d: DisplayState) {
    d.progress > 0.0
  }

  /** The `HH:MM:SS` text at the centre of the ring (main.py:79-82). */
  function CentreLabel(d: DisplayState): (text: string)
    ensures d.remaining <= TimeLabel.MaxSeconds ==>
      TimeLabel.ParseLabel(text) == TimeLabel.Some(d.remaining)
  {
    var text := TimeLabel.Format(d.remaining);
    assert d.remaining <= TimeLabel.MaxSeconds ==> TimeLabel.ParseLabel(text) == TimeLabel.Some(d.remaining) by {
      if d.remaining <= TimeLabel.MaxSeconds {
        TimeLabel.ParseFormat(d.remaining);
      }
    }
    text
  }
}
