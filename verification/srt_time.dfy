/** The SubRip timestamp `HH:MM:SS,mmm` that the video handler's `formatTime` helper renders
    from integer milliseconds, with JavaScript's arithmetic written out. */
module SrtTime {
  import opened Wrappers
  import opened JsStrings
  import opened Decimal

  const MsPerHour: int := 3600000
  const MsPerMinute: int := 60000
  const MsPerSecond: int := 1000

  /** `Math.floor(a / b)` for a positive divisor. */
  function FloorDiv(a: int, b: int): int
    requires b > 0
  {
    a / b
  }

  /** JavaScript's `a % b` for a positive divisor: the remainder takes the sign of the dividend. */
  function JsRem(a: int, b: int): (r: int)
    requires b > 0
    ensures a >= 0 ==> r == a % b
    ensures a < 0 ==> -b < r <= 0
    ensures (a - r) % b == 0
  {
    if a >= 0 then
      RemLeavesMultiple(a, b);
      a % b
    else
      RemLeavesMultiple(-a, b);
      -((-a) % b)
  }

  /** Taking the remainder away from a natural number, or from its negation, leaves a multiple
      of the divisor. */
  lemma RemLeavesMultiple(n: nat, b: int)
    requires b > 0
    ensures (n - n % b) % b == 0 && (n % b - n) % b == 0
  {
    var q, m := n / b, n % b;
    assert n - m == q * b + 0;
    assert m - n == (-q) * b + 0;
    ModShift(q, b, 0);
    ModShift(-q, b, 0);
  }

  /** The four numbers `formatTime` prints. */
  datatype Clock = Clock(hours: int, minutes: int, seconds: int, millis: int)

  function Fields(ms: int): Clock {
    Clock(FloorDiv(ms, MsPerHour),
          FloorDiv(JsRem(ms, MsPerHour), MsPerMinute),
          FloorDiv(JsRem(ms, MsPerMinute), MsPerSecond),
          JsRem(ms, MsPerSecond))
  }

  /** `(q * k + y) % k == y % k`. */
  lemma ModShift(q: int, k: int, y: int)
    requires k > 0
    ensures (q * k + y) % k == y % k
  {
    var r, d := y % k, y / k;
    var l, e := (q * k + y) % k, (q * k + y) / k;
    assert (e - q - d) * k == r - l;
    SmallMultipleIsZero(e - q - d, k);
  }

  /** The only multiple of `k` strictly between `-k` and `k` is 0. */
  lemma SmallMultipleIsZero(x: int, k: int)
    requires k > 0 && -k < x * k < k
    ensures x == 0
  {
  }

  /** For a non-negative time the fields are in range and recompose to the input. */
  lemma FieldsRecompose(ms: int)
    requires ms >= 0
    ensures var c := Fields(ms);
      && c.hours >= 0 && 0 <= c.minutes < 60 && 0 <= c.seconds < 60 && 0 <= c.millis < 1000
      && c.hours * MsPerHour + c.minutes * MsPerMinute + c.seconds * MsPerSecond + c.millis == ms
  {
    var h := ms / 3600000;
    var r1 := ms % 3600000;
    var m := r1 / 60000;
    var r2 := r1 % 60000;
    var s := r2 / 1000;
    assert ms == h * 3600000 + r1;
    assert r1 == m * 60000 + r2;
    assert ms == (h * 60) * 60000 + r1;
    ModShift(h * 60, 60000, r1);
    assert ms % 60000 == r2;
    assert r2 == s * 1000 + r2 % 1000;
    assert ms == ((h * 60 + m) * 60) * 1000 + r2;
    ModShift((h * 60 + m) * 60, 1000, r2);
    assert ms % 1000 == r2 % 1000;
  }

  /** `String(n).padStart(width, '0')`. */
  function Padded(n: int, width: nat): string {
    PadStart(JsString(n), width, '0')
  }

  /** The separators of a timestamp: `hh:mm:ss,fff`. */
  function Layout(hh: string, mm: string, ss: string, fff: string): string {
    hh + ":" + mm + ":" + ss + "," + fff
  }

  /** `formatTime(ms)`: each field is printed with `String` and left-padded with zeros, hours to
      at least two digits, minutes and seconds to two, milliseconds to three. */
  function FormatTime(ms: int): string {
    var c := Fields(ms);
    Layout(Padded(c.hours, 2), Padded(c.minutes, 2), Padded(c.seconds, 2), Padded(c.millis, 3))
  }

  /** Where each part of a layout sits, counted from the end. */
  lemma LayoutSlices(hh: string, mm: string, ss: string, fff: string)
    requires |mm| == 2 && |ss| == 2 && |fff| == 3
    ensures var t := Layout(hh, mm, ss, fff); var n := |t|;
      && n == |hh| + 10 && t[n - 10] == ':' && t[n - 7] == ':' && t[n - 4] == ','
      && t[..n - 10] == hh && t[n - 9..n - 7] == mm && t[n - 6..n - 4] == ss && t[n - 3..] == fff
  {
    var t := Layout(hh, mm, ss, fff);
    var n := |t|;
    assert t == hh + ([':'] + mm + [':'] + ss + [','] + fff);
    assert t[n - 9..n - 7] == mm;
  }

  /** Reads `H..H:MM:SS,mmm` (two or more hour digits) back into milliseconds. */
  function ParseTimestamp(t: string): (r: Option<int>)
    ensures r.Some? ==> r.value >= 0
  {
    var n := |t|;
    if n < 12 || t[n - 10] != ':' || t[n - 7] != ':' || t[n - 4] != ',' then None
    else
      var hh, mm, ss, fff := t[..n - 10], t[n - 9..n - 7], t[n - 6..n - 4], t[n - 3..];
      if !(IsDigits(hh) && IsDigits(mm) && IsDigits(ss) && IsDigits(fff)) then None
      else if DecimalValue(mm) >= 60 || DecimalValue(ss) >= 60 then None
      else Some(DecimalValue(hh) * MsPerHour + DecimalValue(mm) * MsPerMinute
                + DecimalValue(ss) * MsPerSecond + DecimalValue(fff))
  }

  /** A zero-padded rendering of `n` is all digits and still reads as `n`. */
  lemma PaddedValue(n: nat, width: nat)
    ensures IsDigits(Padded(n, width))
    ensures DecimalValue(Padded(n, width)) == n
  {
    var s := NatToDecimal(n);
    DecimalRoundTrip(n);
    LeadingZerosKeepValue(Repeat('0', if |s| >= width then 0 else width - |s|), s);
  }

  /** A field below 10^w padded to width w is exactly w characters long. */
  lemma PaddedWidth(n: nat, width: nat)
    requires width >= 1 && n < Pow10(width)
    ensures |Padded(n, width)| == width
  {
    DecimalLength(n, width);
  }

  /** The four padded fields of a non-negative time: digit strings of the right widths that read
      back as the fields. */
  lemma PaddedFields(ms: int)
    requires ms >= 0
    ensures var c := Fields(ms);
      && c.hours >= 0 && 0 <= c.minutes < 60 && 0 <= c.seconds < 60 && 0 <= c.millis < 1000
      && |Padded(c.minutes, 2)| == 2 && |Padded(c.seconds, 2)| == 2 && |Padded(c.millis, 3)| == 3
      && |Padded(c.hours, 2)| == (if |NatToDecimal(c.hours)| >= 2 then |NatToDecimal(c.hours)| else 2)
      && IsDigits(Padded(c.hours, 2)) && DecimalValue(Padded(c.hours, 2)) == c.hours
      && IsDigits(Padded(c.minutes, 2)) && DecimalValue(Padded(c.minutes, 2)) == c.minutes
      && IsDigits(Padded(c.seconds, 2)) && DecimalValue(Padded(c.seconds, 2)) == c.seconds
      && IsDigits(Padded(c.millis, 3)) && DecimalValue(Padded(c.millis, 3)) == c.millis
  {
    var c := Fields(ms);
    FieldsRecompose(ms);
    assert Pow10(2) == 100 && Pow10(3) == 1000 by {
      assert Pow10(1) == 10;
    }
    PaddedWidth(c.minutes, 2);
    PaddedWidth(c.seconds, 2);
    PaddedWidth(c.millis, 3);
    PaddedValue(c.hours, 2);
    PaddedValue(c.minutes, 2);
    PaddedValue(c.seconds, 2);
    PaddedValue(c.millis, 3);
  }

  /** For a non-negative time: the separators sit at fixed distances from the end, minutes and
      seconds are exactly two digits, milliseconds exactly three, and the hours take whatever
      is left, at least two digits and never capped. */
  lemma FormatTimeShape(ms: int)
    requires ms >= 0
    ensures var t := FormatTime(ms); var n := |t|; var h := ms / MsPerHour;
      && n >= 12 && t[n - 10] == ':' && t[n - 7] == ':' && t[n - 4] == ','
      && n - 10 == (if |NatToDecimal(h)| >= 2 then |NatToDecimal(h)| else 2)
      && IsDigits(t[..n - 10]) && IsDigits(t[n - 9..n - 7]) && IsDigits(t[n - 6..n - 4]) && IsDigits(t[n - 3..])
  {
    var c := Fields(ms);
    PaddedFields(ms);
    LayoutSlices(Padded(c.hours, 2), Padded(c.minutes, 2), Padded(c.seconds, 2), Padded(c.millis, 3));
  }

  /** Reading a rendered timestamp gives back the milliseconds it was rendered from. */
  lemma ParseFormatTime(ms: int)
    requires ms >= 0
    ensures ParseTimestamp(FormatTime(ms)) == Some(ms)
  {
    var c := Fields(ms);
    FieldsRecompose(ms);
    PaddedFields(ms);
    var hh, mm, ss, fff := Padded(c.hours, 2), Padded(c.minutes, 2), Padded(c.seconds, 2), Padded(c.millis, 3);
    ParseLayout(hh, mm, ss, fff);
  }

  /** A layout of digit strings with in-range minutes and seconds reads back as the sum of its
      fields. */
  lemma ParseLayout(hh: string, mm: string, ss: string, fff: string)
    requires |hh| >= 2 && |mm| == 2 && |ss| == 2 && |fff| == 3
    requires IsDigits(hh) && IsDigits(mm) && IsDigits(ss) && IsDigits(fff)
    requires DecimalValue(mm) < 60 && DecimalValue(ss) < 60
    ensures ParseTimestamp(Layout(hh, mm, ss, fff)) == Some(DecimalValue(hh) * MsPerHour
      + DecimalValue(mm) * MsPerMinute + DecimalValue(ss) * MsPerSecond + DecimalValue(fff))
  {
    LayoutSlices(hh, mm, ss, fff);
  }

  /** Two distinct non-negative times never render alike. */
  lemma FormatTimeInjective(a: int, b: int)
    requires a >= 0 && b >= 0 && FormatTime(a) == FormatTime(b)
    ensures a == b
  {
    ParseFormatTime(a);
    ParseFormatTime(b);
  }

  /** A layout of digit strings holds only digits and its three separators. */
  lemma LayoutChars(hh: string, mm: string, ss: string, fff: string)
    requires IsDigits(hh) && IsDigits(mm) && IsDigits(ss) && IsDigits(fff)
    ensures forall i :: 0 <= i < |Layout(hh, mm, ss, fff)| ==>
      var ch := Layout(hh, mm, ss, fff)[i]; IsDigit(ch) || ch == ':' || ch == ','
  {
  }

  /** A rendered non-negative timestamp holds no space and no line break, so it can sit inside
      the `start --> end` line of a cue. */
  lemma FormatTimeHasNoSeparators(ms: int)
    requires ms >= 0
    ensures ' ' !in FormatTime(ms) && '\n' !in FormatTime(ms)
  {
    var c := Fields(ms);
    PaddedFields(ms);
    LayoutChars(Padded(c.hours, 2), Padded(c.minutes, 2), Padded(c.seconds, 2), Padded(c.millis, 3));
  }

  lemma PaddedExamples()
    ensures Padded(0, 2) == "00" && Padded(1, 2) == "01" && Padded(0, 3) == "000"
    ensures Padded(500, 3) == "500" && Padded(100, 2) == "100"
  {
    assert NatToDecimal(0) == "0";
    assert NatToDecimal(1) == "1";
    assert NatToDecimal(5) == "5";
    assert NatToDecimal(50) == "50";
    assert NatToDecimal(500) == "500";
    assert NatToDecimal(10) == "10";
    assert NatToDecimal(100) == "100";
    assert Repeat('0', 1) == "0";
    assert Repeat('0', 2) == "00";
  }

  /** Midnight renders as all zeros. */
  lemma FormatTimeZero()
    ensures FormatTime(0) == "00:00:00,000"
  {
    PaddedExamples();
    assert Fields(0) == Clock(0, 0, 0, 0);
  }

  /** One second. */
  lemma FormatTimeOneSecond()
    ensures FormatTime(1000) == "00:00:01,000"
  {
    PaddedExamples();
    assert Fields(1000) == Clock(0, 0, 1, 0);
    assert Layout("00", "00", "01", "000") == "00:00:01,000";
  }

  /** One hour, one minute and one second. */
  lemma FormatTimeOneHourOneMinuteOneSecond()
    ensures FormatTime(3661000) == "01:01:01,000"
  {
    PaddedExamples();
    assert Fields(3661000) == Clock(1, 1, 1, 0);
    assert Layout("01", "01", "01", "000") == "01:01:01,000";
  }

  /** One and a half seconds. */
  lemma FormatTimeOneAndAHalfSeconds()
    ensures FormatTime(1500) == "00:00:01,500"
  {
    PaddedExamples();
    assert Fields(1500) == Clock(0, 0, 1, 500);
    assert Layout("00", "00", "01", "500") == "00:00:01,500";
  }

  /** Hours are not capped: one hundred hours print as three digits. */
  lemma FormatTimeHundredHours()
    ensures FormatTime(360000000) == "100:00:00,000"
  {
    PaddedExamples();
    assert Fields(360000000) == Clock(100, 0, 0, 0);
  }

  /** A negative time is not clamped: every field keeps the dividend's sign, so one millisecond
      before zero prints minus signs inside all four fields. */
  lemma FormatTimeMinusOne()
    ensures FormatTime(-1) == "-1:-1:-1,0-1"
  {
    assert NatToDecimal(1) == "1";
    assert Fields(-1) == Clock(-1, -1, -1, -1);
    assert Padded(-1, 2) == "-1";
    assert Padded(-1, 3) == "0-1" by {
      assert Repeat('0', 1) == "0";
    }
    assert Layout("-1", "-1", "-1", "0-1") == "-1:-1:-1,0-1";
  }
}
