/** SubRip timestamps `HH:MM:SS,mmm`, as `VideoPipeline._format_srt_time`
    writes them. Times are exact reals here (the source works on floats). */
module SrtTime {
  import opened Wrappers
  import opened Strings

  /** Python's `int(x)` on a number: truncation toward zero. */
  function Trunc(x: real): (n: int)
    ensures x >= 0.0 ==> n == x.Floor
    ensures x >= 0.0 ==> n as real <= x < n as real + 1.0
    ensures x < 0.0 ==> n as real - 1.0 < x <= n as real
  {
    if x >= 0.0 then x.Floor else -((-x).Floor)
  }

  /** The four fields the formatter prints. */
  datatype SrtClock = SrtClock(hours: int, minutes: int, seconds: int, millis: int)

  /** The integer part of the work: truncate, then `//` and `%` by 60.
      Python's `//` and `%` by a positive divisor agree with Dafny's. */
  function Decompose(t: real): (c: SrtClock)
    ensures 0 <= c.minutes < 60 && 0 <= c.seconds < 60
  {
    var whole := Trunc(t);
    var millis := Trunc((t - whole as real) * 1000.0);
    var minutes := whole / 60;
    SrtClock(minutes / 60, minutes % 60, whole % 60, millis)
  }

  /** `f"{n:0w}"`: at least `w` characters, zeros between the sign and the digits. */
  function PadInt(n: int, width: nat): string
  {
    if n >= 0 then ZeroPad(Decimal(n), width) else "-" + ZeroPad(Decimal(-n), width - 1)
  }

  /** `_format_srt_time(seconds)`. */
  function FormatSrtTime(t: real): string
  {
    var c := Decompose(t);
    PadInt(c.hours, 2) + ":" + PadInt(c.minutes, 2) + ":" + PadInt(c.seconds, 2) + "," + PadInt(c.millis, 3)
  }

  /** Reading a timestamp back: hours of any width (at least two digits),
      then exactly two, two and three digits. */
  function ParseSrtTime(s: string): Option<SrtClock>
  {
    if |s| < 12 then None
    else
      var n := |s|;
      var h, m, sec, ms := s[..n - 10], s[n - 9..n - 7], s[n - 6..n - 4], s[n - 3..];
      if s[n - 10] == ':' && s[n - 7] == ':' && s[n - 4] == ','
         && AllDigits(h) && AllDigits(m) && AllDigits(sec) && AllDigits(ms)
      then Some(SrtClock(DigitsValue(h), DigitsValue(m), DigitsValue(sec), DigitsValue(ms)))
      else None
  }

  /** The whole timestamp in milliseconds. */
  function TotalMillis(c: SrtClock): int
  {
    ((c.hours * 60 + c.minutes) * 60 + c.seconds) * 1000 + c.millis
  }

  // ---------------------------------------------------------------------
  // Properties

  lemma WholeSeconds(w: int)
    ensures var c := SrtClock((w / 60) / 60, (w / 60) % 60, w % 60, 0);
      c.hours * 3600 + c.minutes * 60 + c.seconds == w && c.hours == w / 3600
  {
    var q := w / 60;
    assert w == q * 60 + w % 60;
    assert q == (q / 60) * 60 + q % 60;
    var h := q / 60;
    assert w == h * 3600 + (q % 60) * 60 + w % 60;
    assert 0 <= (q % 60) * 60 + w % 60 < 3600;
  }

  /** For a non-negative time: hours are the whole seconds divided by 3600
      (not wrapped), minutes and seconds are below 60 and add back up to the
      whole seconds, and the milliseconds are the fraction truncated. */
  lemma DecomposeFields(t: real)
    requires t >= 0.0
    ensures var c := Decompose(t);
      c.hours == t.Floor / 3600 && c.hours >= 0
      && c.hours * 3600 + c.minutes * 60 + c.seconds == t.Floor
      && 0 <= c.millis <= 999
      && c.millis as real <= (t - t.Floor as real) * 1000.0 < c.millis as real + 1.0
  {
    WholeSeconds(t.Floor);
  }

  /** The timestamp is the time truncated to whole milliseconds. */
  lemma DecomposeMillis(t: real)
    requires t >= 0.0
    ensures TotalMillis(Decompose(t)) == (t * 1000.0).Floor
  {
    var c := Decompose(t);
    DecomposeFields(t);
    var w := t.Floor;
    assert TotalMillis(c) == w * 1000 + c.millis;
    var y := w as real * 1000.0 + c.millis as real;
    assert y <= t * 1000.0 < y + 1.0;
  }

  /** Later times never get earlier timestamps. */
  lemma DecomposeMonotone(t: real, u: real)
    requires 0.0 <= t <= u
    ensures TotalMillis(Decompose(t)) <= TotalMillis(Decompose(u))
  {
    DecomposeMillis(t);
    DecomposeMillis(u);
  }

  /** A non-negative number padded to a width reads back as itself. */
  lemma PadIntValue(n: int, width: nat)
    requires n >= 0
    ensures AllDigits(PadInt(n, width)) && DigitsValue(PadInt(n, width)) == n
    ensures |PadInt(n, width)| == if |Decimal(n)| < width then width else |Decimal(n)|
  {
    DigitsValueZeros(width - |Decimal(n)|, Decimal(n));
  }

  /** Minutes and seconds fill two characters and milliseconds three. */
  lemma PadIntShort(n: int)
    requires 0 <= n
    ensures n < 100 ==> |PadInt(n, 2)| == 2
    ensures n < 1000 ==> |PadInt(n, 3)| == 3
  {
    DecimalShort(n);
  }

  /** Where the separators of a timestamp sit. */
  lemma ClockText(h: string, m: string, s: string, ms: string)
    requires |h| >= 2 && |m| == 2 && |s| == 2 && |ms| == 3
    ensures var t := h + ":" + m + ":" + s + "," + ms; var n := |t|;
      n >= 12 && t[..n - 10] == h && t[n - 10] == ':' && t[n - 9..n - 7] == m
      && t[n - 7] == ':' && t[n - 6..n - 4] == s && t[n - 4] == ',' && t[n - 3..] == ms
  {
  }

  /** Round trip: a non-negative time's timestamp parses back to its fields. */
  lemma FormatParses(t: real)
    requires t >= 0.0
    ensures ParseSrtTime(FormatSrtTime(t)) == Some(Decompose(t))
  {
    var c := Decompose(t);
    DecomposeFields(t);
    var h, m, s, ms := PadInt(c.hours, 2), PadInt(c.minutes, 2), PadInt(c.seconds, 2), PadInt(c.millis, 3);
    PadIntValue(c.hours, 2);
    PadIntValue(c.minutes, 2);
    PadIntValue(c.seconds, 2);
    PadIntValue(c.millis, 3);
    PadIntShort(c.minutes);
    PadIntShort(c.seconds);
    PadIntShort(c.millis);
    ClockText(h, m, s, ms);
  }

  lemma ClockTextOneLine(h: string, m: string, s: string, ms: string)
    requires '\n' !in h && '\n' !in m && '\n' !in s && '\n' !in ms
    ensures '\n' !in h + ":" + m + ":" + s + "," + ms
  {
  }

  /** A padded field is digits, behind a minus sign when it is negative. */
  lemma PadIntNoNewline(n: int, width: nat)
    ensures '\n' !in PadInt(n, width)
  {
    if n >= 0 {
      AllDigitsNoNewline(ZeroPad(Decimal(n), width));
    } else {
      var d := ZeroPad(Decimal(-n), width - 1);
      AllDigitsNoNewline(d);
      assert PadInt(n, width) == "-" + d;
    }
  }

  /** A timestamp holds only digits, minus signs and the separators, so it
      is one line, whatever the time. */
  lemma FormatOneLine(t: real)
    ensures '\n' !in FormatSrtTime(t)
  {
    var c := Decompose(t);
    PadIntNoNewline(c.hours, 2);
    PadIntNoNewline(c.minutes, 2);
    PadIntNoNewline(c.seconds, 2);
    PadIntNoNewline(c.millis, 3);
    ClockTextOneLine(PadInt(c.hours, 2), PadInt(c.minutes, 2), PadInt(c.seconds, 2), PadInt(c.millis, 3));
  }

  lemma FormatZero()
    ensures FormatSrtTime(0.0) == "00:00:00,000"
  {
    var c := Decompose(0.0);
    assert c == SrtClock(0, 0, 0, 0);
    assert Decimal(0) == "0";
    assert Zeros(1) == "0" && Zeros(2) == "00";
  }

  /** Rendering fields the decomposition produced. */
  lemma FormatOfClock(t: real, c: SrtClock, h: string, m: string, s: string, ms: string)
    requires Decompose(t) == c
    requires PadInt(c.hours, 2) == h && PadInt(c.minutes, 2) == m
    requires PadInt(c.seconds, 2) == s && PadInt(c.millis, 3) == ms
    ensures FormatSrtTime(t) == h + ":" + m + ":" + s + "," + ms
  {
  }

  lemma DecimalTwoDigits(n: nat)
    requires 10 <= n < 100
    ensures Decimal(n) == [DigitChar(n / 10), DigitChar(n % 10)]
  {
    assert Decimal(n / 10) == [DigitChar(n / 10)];
  }

  lemma DecimalThreeDigits(n: nat)
    requires 100 <= n < 1000
    ensures Decimal(n) == [DigitChar(n / 100), DigitChar(n / 10 % 10), DigitChar(n % 10)]
  {
    DecimalTwoDigits(n / 10);
  }

  lemma PadTwoDigits(n: nat)
    requires 10 <= n < 100
    ensures PadInt(n, 2) == [DigitChar(n / 10), DigitChar(n % 10)]
  {
    DecimalTwoDigits(n);
  }

  lemma PaddedSmall()
    ensures PadInt(1, 2) == "01" && PadInt(-1, 2) == "-1"
  {
    assert Zeros(1) == "0" && Zeros(0) == "";
  }

  lemma PaddedMinutes()
    ensures PadInt(25, 2) == "25" && PadInt(59, 2) == "59"
  {
    PadTwoDigits(25);
    PadTwoDigits(59);
  }

  lemma PaddedMillis()
    ensures PadInt(500, 3) == "500" && PadInt(-500, 3) == "-500"
  {
    DecimalThreeDigits(500);
  }

  lemma DecomposeExamples()
    ensures Decompose(90061.5) == SrtClock(25, 1, 1, 500)
    ensures Decompose(-1.5) == SrtClock(-1, 59, 59, -500)
  {
    assert Trunc(90061.5) == 90061 && Trunc(500.0) == 500;
    assert Trunc(-1.5) == -1 && Trunc(-500.0) == -500;
  }

  /** Hours are not wrapped at 24. */
  lemma FormatLongRun()
    ensures FormatSrtTime(90061.5) == "25:01:01,500"
  {
    DecomposeExamples();
    PaddedSmall();
    PaddedMinutes();
    PaddedMillis();
    FormatOfClock(90061.5, SrtClock(25, 1, 1, 500), "25", "01", "01", "500");
  }

  /** A negative time is formatted with Python's signs: `int()` truncates,
      `//` and `%` floor. */
  lemma FormatNegative()
    ensures FormatSrtTime(-1.5) == "-1:59:59,-500"
  {
    DecomposeExamples();
    PaddedSmall();
    PaddedMinutes();
    PaddedMillis();
    FormatOfClock(-1.5, SrtClock(-1, 59, 59, -500), "-1", "59", "59", "-500");
  }
}
