/** The timer and the progress bar of the program's utilities. The clock
    (`time.perf_counter()`) is a parameter `now` of every operation that reads it. */
module Utilities {
  import opened Numeric
  import opened Text

  /** Elapsed time split into hours, minutes and seconds, as Python floats hold them. */
  datatype PassedTime = PassedTime(hours: int, minutes: int, seconds: real)

  /** Splits a duration in seconds with Python's float `//` and `%`. */
  function SplitDuration(duration: real): (t: PassedTime)
    ensures t.hours as real * 3600.0 + t.minutes as real * 60.0 + t.seconds == duration
    ensures 0 <= t.minutes < 60 && 0.0 <= t.seconds < 60.0
    ensures duration >= 0.0 ==> t.hours >= 0
  {
    var hours := FloorDiv(duration, 3600.0);
    var rest := Mod(duration, 3600.0);
    var minutes := FloorDiv(rest, 60.0);
    var seconds := Mod(duration, 60.0);
    MinutesAgree(duration, hours, rest, minutes);
    PassedTime(hours, minutes, seconds)
  }

  /** `duration % 60` is what is left of the duration after whole hours and whole minutes. */
  lemma MinutesAgree(duration: real, hours: int, rest: real, minutes: int)
    requires hours == FloorDiv(duration, 3600.0) && rest == Mod(duration, 3600.0)
    requires minutes == FloorDiv(rest, 60.0)
    ensures FloorDiv(duration, 60.0) == hours * 60 + minutes
    ensures 0 <= minutes < 60
  {
    var q := hours * 60 + minutes;
    assert q as real * 60.0 == hours as real * 3600.0 + minutes as real * 60.0;
    FloorDivUnique(duration, 60.0, q);
  }

  lemma FloorDivUnique(a: real, b: real, q: int)
    requires b > 0.0 && q as real * b <= a < q as real * b + b
    ensures FloorDiv(a, b) == q
  {
    var r := FloorDiv(a, b);
    if r < q {
      Below(a, b, r as real, q as real);
    } else if r > q {
      Below(a, b, q as real, r as real);
    }
  }

  /** Two intervals [x*b, x*b + b) and [y*b, y*b + b) with x + 1 <= y do not overlap. */
  lemma Below(a: real, b: real, x: real, y: real)
    requires b > 0.0 && x + 1.0 <= y
    ensures !(x * b <= a < x * b + b && y * b <= a < y * b + b)
  {
    MulMonotone(x + 1.0, y, b);
    assert (x + 1.0) * b == x * b + b;
  }

  /** Models the `Timer` class: `start` is the clock reading taken at creation or reset. */
  class Timer {
    var start: real

    constructor (now: real)
      ensures start == now
    {
      start := now;
    }

    /** `reset`: restarts the timer at the current clock reading. */
    method Reset(now: real)
      modifies this
      ensures start == now
    {
      start := now;
    }

    /** `time_passed`: seconds since the last start. */
    function TimePassed(now: real): (d: real)
      reads this
      ensures d + start == now
    {
      now - start
    }

    /** `get_time`: the elapsed time as hours, minutes and seconds. */
    function GetTime(now: real): (t: PassedTime)
      reads this
      ensures t.hours as real * 3600.0 + t.minutes as real * 60.0 + t.seconds == now - start
      ensures 0 <= t.minutes < 60 && 0.0 <= t.seconds < 60.0
    {
      SplitDuration(TimePassed(now))
    }

    /** `get_duration`: '%d h %d min %d sec'. */
    function GetDuration(now: real): string
      reads this
    {
      DurationText(GetTime(now))
    }

    /** `get_hhmmss`: '[hh:mm:ss]', each field `{:02d}` of the truncated value. */
    function GetHhmmss(now: real): string
      reads this
    {
      HhmmssText(GetTime(now))
    }
  }

  function DurationText(t: PassedTime): string
  {
    IntToString(t.hours) + " h " + IntToString(t.minutes) + " min " + IntToString(Trunc(t.seconds)) + " sec"
  }

  function HhmmssText(t: PassedTime): string
  {
    "[" + Pad2(t.hours) + ":" + Pad2(t.minutes) + ":" + Pad2(Trunc(t.seconds)) + "]"
  }

  /** After a reset at clock `t`, the timer reports `t' - t` at clock `t'`, whenever it was
      started. */
  method ResetThenTimePassed(timer: Timer, t: real, t': real)
    modifies timer
    ensures timer.TimePassed(t') == t' - t
  {
    timer.Reset(t);
  }

  /** For a non-negative duration, '%d h %d min %d sec' shows the whole hours, the minutes
      below 60 and the whole seconds below 60 that make up the whole seconds elapsed. */
  lemma {:induction false} DurationTextDecomposes(duration: real)
    requires duration >= 0.0
    ensures exists h: nat, m: nat, s: nat ::
      && m < 60 && s < 60
      && h * 3600 + m * 60 + s == duration.Floor
      && DurationText(SplitDuration(duration)) == NatToString(h) + " h " + NatToString(m) + " min " + NatToString(s) + " sec"
  {
    var t := SplitDuration(duration);
    var s := Trunc(t.seconds);
    WholeSeconds(duration, t);
    assert DurationText(t) == NatToString(t.hours) + " h " + NatToString(t.minutes) + " min " + NatToString(s) + " sec";
  }

  /** The truncated seconds complete the whole hours and minutes to the whole seconds elapsed. */
  lemma WholeSeconds(duration: real, t: PassedTime)
    requires duration >= 0.0 && t == SplitDuration(duration)
    ensures 0 <= Trunc(t.seconds) < 60
    ensures t.hours * 3600 + t.minutes * 60 + Trunc(t.seconds) == duration.Floor
  {
    var whole := t.hours * 3600 + t.minutes * 60;
    assert duration == whole as real + t.seconds;
    var s := Trunc(t.seconds);
    assert s as real <= t.seconds < s as real + 1.0;
    assert (whole + s) as real <= duration < (whole + s) as real + 1.0;
  }

  /** For a non-negative duration, '[hh:mm:ss]' has two-digit minute and second fields and
      reads back as the whole seconds elapsed. */
  lemma {:induction false} HhmmssReadsBack(duration: real)
    requires duration >= 0.0
    ensures exists hh: string, mm: string, ss: string ::
      && HhmmssText(SplitDuration(duration)) == "[" + hh + ":" + mm + ":" + ss + "]"
      && IsDigits(hh) && IsDigits(mm) && IsDigits(ss)
      && |hh| >= 2 && |mm| == 2 && |ss| == 2
      && ParseNat(hh) * 3600 + ParseNat(mm) * 60 + ParseNat(ss) == duration.Floor
  {
    var t := SplitDuration(duration);
    WholeSeconds(duration, t);
    var s := Trunc(t.seconds);
    Pad2Nat(t.hours);
    Pad2Nat(t.minutes);
    Pad2Nat(s);
    var hh, mm, ss := Pad2(t.hours), Pad2(t.minutes), Pad2(s);
    assert HhmmssText(t) == "[" + hh + ":" + mm + ":" + ss + "]";
  }

  /** The bar of `display_progress`: int(size * completion) '#' then the rest '.'. */
  function ProgressBar(completion: real, size: int): string
  {
    var x := Trunc(size as real * completion);
    Repeat('#', x) + Repeat('.', size - x)
  }

  /** The whole line `display_progress` writes (before flushing it to standard output). */
  function ProgressLine(completion: real, size: int, text: string): string
  {
    text + "[" + ProgressBar(completion, size) + "] " + Pad2(Trunc(completion * 100.0)) + " %\r"
  }

  /** For a completion in [0, 1] the line is the text, the bar in brackets, then a percentage
      field of at least two digits (exactly two below completion 1) reading back as
      int(completion * 100), and " %" with a carriage return. */
  lemma ProgressLineReadsBack(completion: real, size: nat, text: string)
    requires 0.0 <= completion <= 1.0
    ensures exists pct: string ::
      && ProgressLine(completion, size, text) == text + "[" + ProgressBar(completion, size) + "] " + pct + " %\r"
      && |ProgressLine(completion, size, text)| == |text| + size + |pct| + 6
      && IsDigits(pct) && |pct| >= 2
      && (completion < 1.0 ==> |pct| == 2)
      && ParseNat(pct) == Trunc(completion * 100.0)
  {
    var n := Trunc(completion * 100.0);
    assert 0 <= n <= 100;
    assert completion < 1.0 ==> n < 100;
    Pad2Nat(n);
    ProgressBarLength(completion, size);
    var pct := Pad2(n);
    var line := ProgressLine(completion, size, text);
    assert line == text + "[" + ProgressBar(completion, size) + "] " + pct + " %\r";
    assert |line| == |text| + size + |pct| + 6;
    assert ParseNat(pct) == n;
  }

  lemma ProgressBarLength(completion: real, size: nat)
    requires 0.0 <= completion <= 1.0
    ensures |ProgressBar(completion, size)| == size
  {
    FilledWithinBar(completion, size);
  }

  /** For a completion in [0, 1] the bar is exactly `size` long: the first int(size * completion)
      characters are '#', the others '.'. */
  lemma ProgressBarShape(completion: real, size: nat)
    requires 0.0 <= completion <= 1.0
    ensures var bar := ProgressBar(completion, size);
      var x := Trunc(size as real * completion);
      && 0 <= x <= size
      && |bar| == size
      && (forall i :: 0 <= i < x ==> bar[i] == '#')
      && (forall i :: x <= i < size ==> bar[i] == '.')
  {
    var x := Trunc(size as real * completion);
    FilledWithinBar(completion, size);
    var filled, empty := Repeat('#', x), Repeat('.', size - x);
    var bar := ProgressBar(completion, size);
    assert bar == filled + empty;
    assert |filled| == x && |empty| == size - x;
    forall i | x <= i < size
      ensures bar[i] == '.'
    {
      assert bar[i] == empty[i - x];
    }
  }

  lemma FilledWithinBar(completion: real, size: nat)
    requires 0.0 <= completion <= 1.0
    ensures 0 <= Trunc(size as real * completion) <= size
  {
    var y := size as real * completion;
    if size > 0 {
      MulMonotone(0.0, completion, size as real);
      MulMonotone(completion, 1.0, size as real);
    }
    assert 0.0 <= y <= size as real;
    assert Trunc(y) as real <= y;
  }
}
