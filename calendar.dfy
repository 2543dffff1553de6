/**
 * Calendar rules. An instant is a whole number of minutes since the start of
 * the DateTime epoch (1 January 0001, which was a Monday); a date is a whole
 * number of days since the same epoch.
 */
module Calendar {
  import opened Wrappers

  const MinutesPerDay: int := 1440
  /** 10:00, the first bookable minute of a day. */
  const OpeningTime: int := 600
  /** 22:00, closing time. */
  const ClosingTime: int := 1320
  /** Slot grid step. */
  const SlotMinutes: int := 15
  /** .NET numbers the weekdays Sunday = 0 .. Saturday = 6. */
  const Sunday: int := 0

  /** `t.Date`, as a day number. */
  function DateOf(t: int): int { t / MinutesPerDay }

  /** `t.TimeOfDay`, in minutes. */
  function TimeOfDay(t: int): (m: int)
    ensures 0 <= m < MinutesPerDay
  {
    t % MinutesPerDay
  }

  /** Midnight of day `d` (`d.Date.Add(TimeSpan.Zero)`). */
  function Midnight(d: int): int { d * MinutesPerDay }

  /** `DayOfWeek` of day `d`: day 0 is a Monday. */
  function DayOfWeek(d: int): (w: int)
    ensures 0 <= w < 7
  {
    (d + 1) % 7
  }

  predicate IsSunday(d: int) { DayOfWeek(d) == Sunday }

  lemma InstantSplit(t: int)
    ensures t == Midnight(DateOf(t)) + TimeOfDay(t)
  {
  }

  lemma DateOfMidnightPlus(d: int, m: int)
    requires 0 <= m < MinutesPerDay
    ensures DateOf(Midnight(d) + m) == d && TimeOfDay(Midnight(d) + m) == m
  {
  }

  /** One decimal digit as a character. */
  function Digit(n: int): (c: char)
    requires 0 <= n < 10
    ensures '0' <= c <= '9'
  {
    (48 + n) as char
  }

  /** The value of a decimal digit character. */
  function DigitValue(c: char): int { c as int - 48 }

  predicate IsDigit(c: char) { '0' <= c <= '9' }

  /** `ToString("HH:mm")` of a time of day given in minutes. */
  function FormatTime(m: int): (s: string)
    requires 0 <= m < MinutesPerDay
    ensures |s| == 5 && s[2] == ':'
  {
    var h := m / 60;
    var mm := m % 60;
    [Digit(h / 10), Digit(h % 10), ':', Digit(mm / 10), Digit(mm % 10)]
  }

  /** Reads an "HH:mm" label back into minutes after midnight. */
  function ParseTime(s: string): (r: Option<int>)
    ensures r.Some? ==> 0 <= r.value < MinutesPerDay
  {
    if |s| == 5 && s[2] == ':' && IsDigit(s[0]) && IsDigit(s[1]) && IsDigit(s[3]) && IsDigit(s[4])
    then
      var h := DigitValue(s[0]) * 10 + DigitValue(s[1]);
      var mm := DigitValue(s[3]) * 10 + DigitValue(s[4]);
      if h < 24 && mm < 60 then Some(h * 60 + mm) else None
    else None
  }

  /** Reading a formatted label gives back the minute it was made from. */
  lemma ParseFormat(m: int)
    requires 0 <= m < MinutesPerDay
    ensures ParseTime(FormatTime(m)) == Some(m)
  {
    var h := m / 60;
    var mm := m % 60;
    var s := FormatTime(m);
    assert DigitValue(s[0]) == h / 10 && DigitValue(s[1]) == h % 10;
    assert DigitValue(s[3]) == mm / 10 && DigitValue(s[4]) == mm % 10;
    assert (h / 10) * 10 + h % 10 == h;
    assert (mm / 10) * 10 + mm % 10 == mm;
    assert h * 60 + mm == m;
  }

  /** Every label that reads as a time is the formatting of that time. */
  lemma FormatParse(s: string)
    requires ParseTime(s).Some?
    ensures FormatTime(ParseTime(s).value) == s
  {
    var h := DigitValue(s[0]) * 10 + DigitValue(s[1]);
    var mm := DigitValue(s[3]) * 10 + DigitValue(s[4]);
    var m := h * 60 + mm;
    assert m / 60 == h && m % 60 == mm;
    assert h / 10 == DigitValue(s[0]) && h % 10 == DigitValue(s[1]);
    assert mm / 10 == DigitValue(s[3]) && mm % 10 == DigitValue(s[4]);
    assert Digit(DigitValue(s[0])) == s[0] && Digit(DigitValue(s[1])) == s[1];
    assert Digit(DigitValue(s[3])) == s[3] && Digit(DigitValue(s[4])) == s[4];
  }

  /** Distinct minutes get distinct labels. */
  lemma FormatInjective(m1: int, m2: int)
    requires 0 <= m1 < MinutesPerDay && 0 <= m2 < MinutesPerDay
    requires FormatTime(m1) == FormatTime(m2)
    ensures m1 == m2
  {
    ParseFormat(m1);
    ParseFormat(m2);
  }
}
