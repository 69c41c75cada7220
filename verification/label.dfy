/**
  The centre label of the circular timer: a count of remaining seconds shown as
  `HH:MM:SS`, each field printed in decimal and zero-padded to two digits
  (main.py:79-82).
 */
module TimeLabel {

  const SecondsPerMinute: nat := 60
  const SecondsPerHour: nat := 3600

  /** The largest duration the three spin boxes can enter: 99 h 59 min 59 s. */
  const MaxSeconds: nat := 99 * 3600 + 59 * 60 + 59

  /** A duration split into the three fields of the label. */
  datatype Hms = Hms(hours: nat, minutes: nat, seconds: nat)

  /** Minutes and seconds are proper clock fields; hours are unbounded. */
  predicate WellFormed(t: Hms) {
    t.minutes < 60 && t.seconds < 60
  }

  /** The number of seconds a split duration stands for. */
  function ToSeconds(t: Hms): nat {
    t.hours * SecondsPerHour + t.minutes * SecondsPerMinute + t.seconds
  }

  /**
    The split the widget performs before printing: whole hours, the whole
    minutes of what is left, and the leftover seconds.
   */
  function Decompose(r: nat): (t: Hms)
    ensures WellFormed(t)
    ensures ToSeconds(t) == r
  {
    var t := Hms(r / 3600, (r % 3600) / 60, r % 60);
    DivModIdentity(r);
    t
  }

  /** The recombination identity behind `Decompose`, stated on its own. */
  lemma DivModIdentity(r: nat)
    ensures (r / 3600) * 3600 + ((r % 3600) / 60) * 60 + r % 60 == r
  {
  }

  /** Euclidean division is the only way to write `n` as `q * k + m` with `m < k`. */
  lemma DivModUnique(n: nat, k: nat, q: nat, m: nat)
    requires k > 0 && m < k && n == q * k + m
    ensures n / k == q && n % k == m
  {
    var q', m' := n / k, n % k;
    assert n == q' * k + m';
    if q' < q {
      assert q' * k + k <= q * k by { MulMonotone(q' + 1, q, k); }
      assert false;
    } else if q < q' {
      assert q * k + k <= q' * k by { MulMonotone(q + 1, q', k); }
      assert false;
    }
  }

  lemma MulMonotone(a: nat, b: nat, k: nat)
    requires a <= b
    ensures a * k <= b * k
  {
  }

  /** A well-formed split is exactly what `Decompose` returns for its total: the split is unique. */
  lemma DecomposeToSeconds(t: Hms)
    requires WellFormed(t)
    ensures Decompose(ToSeconds(t)) == t
  {
    var r := ToSeconds(t);
    var q := t.minutes * 60 + t.seconds;
    assert q < 3600;
    assert r == t.hours * 3600 + q;
    DivModUnique(r, 3600, t.hours, q);
    DivModUnique(q, 60, t.minutes, t.seconds);
  }

  /** Every duration the spin boxes can produce has at most 99 hours. */
  lemma HoursFitTwoDigits(r: nat)
    requires r <= MaxSeconds
    ensures Decompose(r).hours <= 99
  {
    assert r / 3600 <= MaxSeconds / 3600;
  }

  // ---------------------------------------------------------------------
  // Decimal printing and zero padding (the `:02d` format)
  // ---------------------------------------------------------------------

  predicate IsDigit(c: char) {
    '0' <= c <= '9'
  }

  predicate AllDigits(s: string) {
    forall i :: 0 <= i < |s| ==> IsDigit(s[i])
  }

  function DigitChar(d: nat): (c: char)
    requires d < 10
    ensures IsDigit(c)
  {
    ('0' as int + d) as char
  }

  function DigitValue(c: char): (d: nat)
    requires IsDigit(c)
    ensures d < 10
  {
    (c as int - '0' as int) as nat
  }

  /** The shortest decimal representation of `n`, most significant digit first. */
  function Decimal(n: nat): (s: string)
    ensures 1 <= |s|
    ensures AllDigits(s)
    ensures |s| == 1 <==> n < 10
    ensures n < 100 ==> |s| <= 2
    decreases n
  {
    if n < 10 then [DigitChar(n)] else Decimal(n / 10) + [DigitChar(n % 10)]
  }

  /** Pads `s` on the left with '0' up to `width` characters; longer strings are kept whole. */
  function PadLeft(s: string, width: nat): (p: string)
    ensures |p| == if |s| < width then width else |s|
    ensures p[|p| - |s|..] == s
    ensures forall i :: 0 <= i < |p| - |s| ==> p[i] == '0'
  {
    if |s| < width then seq(width - |s|, _ => '0') + s else s
  }

  /** One field of the label: `n` printed with the `02d` format. */
  function TwoDigits(n: nat): (s: string)
    ensures AllDigits(s)
    ensures |s| >= 2
    ensures n < 100 ==> |s| == 2
  {
    PadLeft(Decimal(n), 2)
  }

  /** Reads a string of decimal digits back as a number (leading zeros allowed). */
  function ParseDecimal(s: string): nat
    requires AllDigits(s)
  {
    if |s| == 0 then 0 else ParseDecimal(s[..|s| - 1]) * 10 + DigitValue(s[|s| - 1])
  }

  lemma {:induction false} ParseDecimalOfDecimal(n: nat)
    ensures ParseDecimal(Decimal(n)) == n
    decreases n
  {
    if n >= 10 {
      var s := Decimal(n);
      assert s[..|s| - 1] == Decimal(n / 10);
      ParseDecimalOfDecimal(n / 10);
    }
  }

  lemma {:induction false} ParseDecimalLeadingZero(s: string)
    requires AllDigits(s)
    ensures ParseDecimal(['0'] + s) == ParseDecimal(s)
    decreases |s|
  {
    if |s| > 0 {
      var t := ['0'] + s;
      assert t[..|t| - 1] == ['0'] + s[..|s| - 1];
      ParseDecimalLeadingZero(s[..|s| - 1]);
    } else {
      assert ['0'] + s == ['0'];
    }
  }

  /** Zero padding never changes the value a field is read back as. */
  lemma ParseTwoDigits(n: nat)
    ensures ParseDecimal(TwoDigits(n)) == n
  {
    ParseDecimalOfDecimal(n);
    var d := Decimal(n);
    if |d| < 2 {
      assert TwoDigits(n) == ['0'] + d;
      ParseDecimalLeadingZero(d);
    }
  }

  // ---------------------------------------------------------------------
  // The whole label
  // ---------------------------------------------------------------------

  /** The text drawn at the centre of the ring for `r` remaining seconds. */
  function Format(r: nat): (text: string)
    ensures r <= MaxSeconds ==> |text| == 8 && text[2] == ':' && text[5] == ':'
  {
    var t := Decompose(r);
    Join(TwoDigits(t.hours), TwoDigits(t.minutes), TwoDigits(t.seconds))
  }

  /** Three fields separated by colons; in range, every field is two characters wide. */
  function Join(h: string, m: string, s: string): (text: string)
    ensures |h| == 2 && |m| == 2 && |s| == 2 ==>
      |text| == 8 && text[2] == ':' && text[5] == ':'
      && text[0..2] == h && text[3..5] == m && text[6..8] == s
  {
    h + ":" + m + ":" + s
  }

  datatype Option<T> = None | Some(value: T)

  /**
    Reads an eight-character `HH:MM:SS` label back as a number of seconds;
    anything else, or a field out of clock range, is rejected.
   */
  function ParseLabel(text: string): (r: Option<nat>)
    ensures r.Some? ==> r.value <= MaxSeconds
  {
    if |text| == 8 && text[2] == ':' && text[5] == ':'
       && AllDigits(text[0..2]) && AllDigits(text[3..5]) && AllDigits(text[6..8])
    then
      var t := Hms(ParseDecimal(text[0..2]), ParseDecimal(text[3..5]), ParseDecimal(text[6..8]));
      if WellFormed(t) && t.hours <= 99 then Some(ToSeconds(t)) else None
    else
      None
  }

  /** Every duration up to the spin-box maximum is shown as a label that reads back to itself. */
  lemma ParseFormat(r: nat)
    requires r <= MaxSeconds
    ensures ParseLabel(Format(r)) == Some(r)
  {
    var t := Decompose(r);
    HoursFitTwoDigits(r);
    var h, m, s := TwoDigits(t.hours), TwoDigits(t.minutes), TwoDigits(t.seconds);
    assert Format(r) == Join(h, m, s);
    ParseTwoDigits(t.hours);
    ParseTwoDigits(t.minutes);
    ParseTwoDigits(t.seconds);
  }

  /** Two different durations in range never show the same label. */
  lemma FormatInjective(r1: nat, r2: nat)
    requires r1 <= MaxSeconds && r2 <= MaxSeconds
    requires Format(r1) == Format(r2)
    ensures r1 == r2
  {
    ParseFormat(r1);
    ParseFormat(r2);
  }
}
