/** CPython's `datetime.strptime(s, '%d %b %Y, %H:%M')` under the C
    locale. CPython turns the format into the regular expression
    `%d\s+%b\s+%Y,\s+%H:%M` (each space of the format becomes `\s+`),
    compiled case-insensitively, with the directives
      %d  3[01]|[12]\d|0[1-9]|[1-9]| [1-9]
      %b  jan|feb|mar|apr|may|jun|jul|aug|sep|oct|nov|dec
      %Y  \d\d\d\d
      %H  2[0-3]|[0-1]\d|\d
      %M  [0-5]\d|\d
    It matches that expression at the start of `s`, raises `ValueError`
    when it does not match or when text is left over after the match,
    and raises `ValueError` again when `date(year, month, day)` does not
    exist (year 0, or a day past the end of its month).

    Each directive below takes the first alternative that matches and
    does not backtrack. The regular expression engine would backtrack,
    but never to any effect here: what follows %d is `\s+` and what
    follows %H is `:`, and in both lists no alternative that matches is
    followed by that character when an earlier alternative also matches;
    %M ends the pattern, so its first matching alternative is the match. */
module Strptime {
  import opened Results
  import opened PyText

  datatype DateTime = DateTime(year: int, month: int, day: int, hour: int, minute: int)

  /** Gregorian leap years, as `calendar.isleap`. */
  predicate IsLeapYear(year: int) {
    year % 4 == 0 && (year % 100 != 0 || year % 400 == 0)
  }

  function DaysInMonth(year: int, month: int): (n: int)
    requires 1 <= month <= 12
    ensures 28 <= n <= 31
  {
    if month == 2 then (if IsLeapYear(year) then 29 else 28)
    else if month == 4 || month == 6 || month == 9 || month == 11 then 30
    else 31
  }

  /** Each field within what its directive can read: the day 1 to 31
      whatever the month, the year 0 to 9999. */
  predicate InRange(dt: DateTime) {
    && 0 <= dt.year <= 9999
    && 1 <= dt.month <= 12
    && 1 <= dt.day <= 31
    && 0 <= dt.hour <= 23
    && 0 <= dt.minute <= 59
  }

  /** A minute that `datetime` can represent (seconds are always 0 here). */
  predicate Valid(dt: DateTime) {
    InRange(dt) && 1 <= dt.year && dt.day <= DaysInMonth(dt.year, dt.month)
  }

  function LowerAscii(c: char): char {
    if 'A' <= c <= 'Z' then (c as int + 32) as char else c
  }

  predicate IsNonZeroDigit(c: char) { '1' <= c <= '9' }

  // ---------------------------------------------------------------------
  // One function per element of the pattern: the value it reads and the
  // text after it, or `None` when the element does not match.
  // ---------------------------------------------------------------------

  /** %d */
  function Day(s: string): (r: Option<(int, string)>)
    ensures r.Some? ==> && 1 <= r.value.0 <= 31
                        && |s| - 2 <= |r.value.1| < |s|
                        && r.value.1 == s[|s| - |r.value.1|..]
  {
    if |s| >= 2 && s[0] == '3' && (s[1] == '0' || s[1] == '1') then
      Some((30 + DigitValue(s[1]), s[2..]))
    else if |s| >= 2 && (s[0] == '1' || s[0] == '2') && IsDigit(s[1]) then
      Some((10 * DigitValue(s[0]) + DigitValue(s[1]), s[2..]))
    else if |s| >= 2 && s[0] == '0' && IsNonZeroDigit(s[1]) then
      Some((DigitValue(s[1]), s[2..]))
    else if |s| >= 1 && IsNonZeroDigit(s[0]) then
      Some((DigitValue(s[0]), s[1..]))
    else if |s| >= 2 && s[0] == ' ' && IsNonZeroDigit(s[1]) then
      Some((DigitValue(s[1]), s[2..]))
    else None
  }

  /** `\s+`, greedy: it matches exactly when `s` starts with whitespace,
      and consumes the whole run of whitespace. */
  function Spaces(s: string): (r: Option<string>)
    ensures r.Some? <==> |s| > 0 && IsWhitespace(s[0])
    ensures r.Some? ==> && |r.value| < |s|
                        && r.value == s[|s| - |r.value|..]
                        && AllWhitespace(s[..|s| - |r.value|])
                        && (r.value == [] || !IsWhitespace(r.value[0]))
  {
    var n := LeadingWhitespace(s);
    if n == 0 then None
    else
      assert s[..n][0] == s[0];
      Some(s[n..])
  }

  /** The number of the month abbreviated `t`, ignoring case. */
  function MonthNumber(t: string): (r: Option<int>)
    requires |t| == 3
    ensures r.Some? ==> 1 <= r.value <= 12
  {
    var l := [LowerAscii(t[0]), LowerAscii(t[1]), LowerAscii(t[2])];
    if l == "jan" then Some(1) else if l == "feb" then Some(2) else if l == "mar" then Some(3)
    else if l == "apr" then Some(4) else if l == "may" then Some(5) else if l == "jun" then Some(6)
    else if l == "jul" then Some(7) else if l == "aug" then Some(8) else if l == "sep" then Some(9)
    else if l == "oct" then Some(10) else if l == "nov" then Some(11) else if l == "dec" then Some(12)
    else None
  }

  /** %b */
  function Month(s: string): (r: Option<(int, string)>)
    ensures r.Some? ==> 1 <= r.value.0 <= 12 && |s| >= 3 && r.value.1 == s[3..]
  {
    if |s| < 3 then None
    else
      var m :- MonthNumber(s[..3]);
      Some((m, s[3..]))
  }

  /** %Y */
  function Year(s: string): (r: Option<(int, string)>)
    ensures r.Some? ==> 0 <= r.value.0 <= 9999 && |s| >= 4 && r.value.1 == s[4..]
  {
    if |s| >= 4 && IsDigit(s[0]) && IsDigit(s[1]) && IsDigit(s[2]) && IsDigit(s[3]) then
      Some((1000 * DigitValue(s[0]) + 100 * DigitValue(s[1]) + 10 * DigitValue(s[2]) + DigitValue(s[3]), s[4..]))
    else None
  }

  /** %H */
  function Hour(s: string): (r: Option<(int, string)>)
    ensures r.Some? ==> && 0 <= r.value.0 <= 23
                        && |s| - 2 <= |r.value.1| < |s|
                        && r.value.1 == s[|s| - |r.value.1|..]
  {
    if |s| >= 2 && s[0] == '2' && '0' <= s[1] <= '3' then
      Some((20 + DigitValue(s[1]), s[2..]))
    else if |s| >= 2 && (s[0] == '0' || s[0] == '1') && IsDigit(s[1]) then
      Some((10 * DigitValue(s[0]) + DigitValue(s[1]), s[2..]))
    else if |s| >= 1 && IsDigit(s[0]) then
      Some((DigitValue(s[0]), s[1..]))
    else None
  }

  /** %M */
  function Minute(s: string): (r: Option<(int, string)>)
    ensures r.Some? ==> && 0 <= r.value.0 <= 59
                        && |s| - 2 <= |r.value.1| < |s|
                        && r.value.1 == s[|s| - |r.value.1|..]
  {
    if |s| >= 2 && '0' <= s[0] <= '5' && IsDigit(s[1]) then
      Some((10 * DigitValue(s[0]) + DigitValue(s[1]), s[2..]))
    else if |s| >= 1 && IsDigit(s[0]) then
      Some((DigitValue(s[0]), s[1..]))
    else None
  }

  /** A literal character of the format. */
  function Literal(s: string, c: char): (r: Option<string>)
    ensures r.Some? ==> |s| > 0 && s[0] == c && r.value == s[1..]
  {
    if |s| > 0 && s[0] == c then Some(s[1..]) else None
  }

  /** `datetime.strptime(s, '%d %b %Y, %H:%M')`; `None` stands for the
      `ValueError`. Whatever it accepts is a valid date and time. */
  function Parse(s: string): (r: Option<DateTime>)
    ensures r.Some? ==> Valid(r.value)
  {
    var date :- Date(s);
    AfterDate(date.0, date.1, date.2, date.3)
  }

  /** The rest of `strptime` once `%d %b %Y` has read `day`, `month` and
      `year`: `,\s+%H:%M` on the text left over, then the calendar checks
      of the `datetime` constructor. */
  function AfterDate(day: int, month: int, year: int, rest: string): (r: Option<DateTime>)
    requires 1 <= day <= 31 && 1 <= month <= 12 && 0 <= year <= 9999
    ensures r.Some? ==> Valid(r.value)
  {
    var s3 :- Literal(rest, ',');
    var s4 :- Spaces(s3);
    var clock :- Clock(s4);
    if year == 0 then None                       // date(0, ...) is out of range
    else if day > DaysInMonth(year, month) then None  // "day is out of range for month"
    else Some(DateTime(year, month, day, clock.0, clock.1))
  }

  /** `%d %b %Y`: day, month, year and the text after them. */
  function Date(s: string): (r: Option<(int, int, int, string)>)
    ensures r.Some? ==> 1 <= r.value.0 <= 31 && 1 <= r.value.1 <= 12 && 0 <= r.value.2 <= 9999
  {
    var day :- Day(s);
    var s1 :- Spaces(day.1);
    var month :- Month(s1);
    var s2 :- Spaces(month.1);
    var year :- Year(s2);
    Some((day.0, month.0, year.0, year.1))
  }

  /** `%H:%M` up to the end of the text: hour and minute. The match
      must take the whole text, so it is three to five characters long. */
  function Clock(s: string): (r: Option<(int, int)>)
    ensures r.Some? ==> 0 <= r.value.0 <= 23 && 0 <= r.value.1 <= 59
    ensures r.Some? ==> 3 <= |s| <= 5
  {
    var hour :- Hour(s);
    var s5 :- Literal(hour.1, ':');
    var minute :- Minute(s5);
    if minute.1 != [] then None                  // "unconverted data remains"
    else Some((hour.0, minute.0))
  }

  // ---------------------------------------------------------------------
  // The canonical text of a date and time, as `strftime` with the same
  // format writes it for years 1000 to 9999, and zero-padded below.
  // ---------------------------------------------------------------------

  function TwoDigits(n: nat): (t: string)
    requires n < 100
    ensures |t| == 2 && AllDigits(t)
  {
    [DigitChar(n / 10), DigitChar(n % 10)]
  }

  function FourDigits(n: nat): (t: string)
    requires n < 10000
    ensures |t| == 4 && AllDigits(t)
  {
    TwoDigits(n / 100) + TwoDigits(n % 100)
  }

  /** The English abbreviation of month `m`, as `%b` writes it. */
  function MonthName(m: int): (t: string)
    requires 1 <= m <= 12
    ensures |t| == 3 && 'A' <= t[0] <= 'Z' && 'a' <= t[1] <= 'z' && 'a' <= t[2] <= 'z'
    ensures t[0] == 'S' ==> t[2] == 'p'
  {
    if m == 1 then "Jan" else if m == 2 then "Feb" else if m == 3 then "Mar"
    else if m == 4 then "Apr" else if m == 5 then "May" else if m == 6 then "Jun"
    else if m == 7 then "Jul" else if m == 8 then "Aug" else if m == 9 then "Sep"
    else if m == 10 then "Oct" else if m == 11 then "Nov" else "Dec"
  }

  /** The `%d %b %Y` part of the canonical text. */
  function DateText(dt: DateTime): (t: string)
    requires InRange(dt)
    ensures |t| == 11
  {
    TwoDigits(dt.day) + " " + MonthName(dt.month) + " " + FourDigits(dt.year)
  }

  /** The `%H:%M` part of the canonical text. */
  function ClockText(dt: DateTime): (t: string)
    requires InRange(dt)
    ensures |t| == 5
  {
    TwoDigits(dt.hour) + ":" + TwoDigits(dt.minute)
  }

  function Format(dt: DateTime): (s: string)
    requires InRange(dt)
    ensures |s| == 18
  {
    DateText(dt) + ", " + ClockText(dt)
  }

  /** The canonical text starts and ends with a digit. */
  lemma FormatTrimmed(dt: DateTime)
    requires InRange(dt)
    ensures Trimmed(Format(dt))
  {
    var f := Format(dt);
    assert f[0] == DateText(dt)[0] == TwoDigits(dt.day)[0];
    assert f[17] == ClockText(dt)[4] == TwoDigits(dt.minute)[1];
  }

  lemma DayOfTwoDigits(d: nat, rest: string)
    requires 1 <= d <= 31
    ensures Day(TwoDigits(d) + rest) == Some((d, rest))
  {
    var s := TwoDigits(d) + rest;
    assert s[2..] == rest;
  }

  lemma HourOfTwoDigits(h: nat, rest: string)
    requires h <= 23
    ensures Hour(TwoDigits(h) + rest) == Some((h, rest))
  {
    var s := TwoDigits(h) + rest;
    assert s[2..] == rest;
  }

  lemma YearOfFourDigits(y: nat, rest: string)
    requires y <= 9999
    ensures Year(FourDigits(y) + rest) == Some((y, rest))
  {
    var s := FourDigits(y) + rest;
    assert s[4..] == rest;
    assert s[0] == DigitChar(y / 100 / 10) && s[1] == DigitChar(y / 100 % 10);
    assert s[2] == DigitChar(y % 100 / 10) && s[3] == DigitChar(y % 100 % 10);
  }

  lemma MonthOfName(m: int)
    requires 1 <= m <= 12
    ensures MonthNumber(MonthName(m)) == Some(m)
  {
  }

  // ---------------------------------------------------------------------
  // The texts the pattern reads back. Besides the canonical text it
  // accepts a day, hour or minute without its leading zero, a day written
  // as a space and one digit, any run of whitespace where the format has
  // a space, and a month name in any case.
  // ---------------------------------------------------------------------

  /** A number below 100 written with its leading zero, or as `str(n)`. */
  predicate IsNumberText(t: string, n: nat)
    requires n < 100
  {
    t == TwoDigits(n) || t == Decimal(n)
  }

  /** A day as `%d` reads it: two digits, `str(d)`, or a space and one digit. */
  predicate IsDayText(t: string, d: nat)
    requires 1 <= d <= 31
  {
    IsNumberText(t, d) || (d < 10 && t == " " + Decimal(d))
  }

  /** A run of whitespace, as `\s+` reads it. */
  predicate IsSpaceRun(w: string) {
    |w| > 0 && AllWhitespace(w)
  }

  /** Text that does not continue a number written before it. */
  predicate NoLeadingDigit(s: string) {
    s == [] || !IsDigit(s[0])
  }

  lemma DecimalBelowHundred(n: nat)
    requires n < 100
    ensures n < 10 ==> Decimal(n) == [DigitChar(n)]
    ensures 10 <= n ==> Decimal(n) == TwoDigits(n)
  {
    if 10 <= n {
      assert Decimal(n / 10) == [DigitChar(n / 10)];
    }
  }

  /** `%d` reads back day `d` however it is written, when no digit follows. */
  lemma DayOfText(t: string, d: nat, rest: string)
    requires 1 <= d <= 31 && IsDayText(t, d) && NoLeadingDigit(rest)
    ensures Day(t + rest) == Some((d, rest))
  {
    DecimalBelowHundred(d);
    var s := t + rest;
    if t == TwoDigits(d) || 10 <= d {
      DayOfTwoDigits(d, rest);
    } else if t == [DigitChar(d)] {
      assert s[0] == DigitChar(d) && s[1..] == rest;
      assert |s| >= 2 ==> s[1] == rest[0];
    } else {
      assert s[0] == ' ' && s[1] == DigitChar(d) && s[2..] == rest;
    }
  }

  /** `%H` reads back hour `h` with or without its leading zero, when no
      digit follows. */
  lemma HourOfText(t: string, h: nat, rest: string)
    requires h <= 23 && IsNumberText(t, h) && NoLeadingDigit(rest)
    ensures Hour(t + rest) == Some((h, rest))
  {
    DecimalBelowHundred(h);
    if t == TwoDigits(h) || 10 <= h {
      HourOfTwoDigits(h, rest);
    } else {
      var s := t + rest;
      assert s[0] == DigitChar(h) && s[1..] == rest;
      assert |s| >= 2 ==> s[1] == rest[0];
    }
  }

  /** `%M` reads back minute `m` with or without its leading zero, when
      no digit follows. */
  lemma MinuteOfText(t: string, m: nat, rest: string)
    requires m <= 59 && IsNumberText(t, m) && NoLeadingDigit(rest)
    ensures Minute(t + rest) == Some((m, rest))
  {
    DecimalBelowHundred(m);
    var s := t + rest;
    if t == TwoDigits(m) || 10 <= m {
      assert s[0] == DigitChar(m / 10) && s[1] == DigitChar(m % 10) && s[2..] == rest;
    } else {
      assert s[0] == DigitChar(m) && s[1..] == rest;
      assert |s| >= 2 ==> s[1] == rest[0];
    }
  }

  /** `%H:%M` reads back an hour and a minute however they are written. */
  lemma ClockOfText(h: nat, m: nat, hourText: string, minuteText: string)
    requires h <= 23 && m <= 59 && IsNumberText(hourText, h) && IsNumberText(minuteText, m)
    ensures Clock(hourText + ":" + minuteText) == Some((h, m))
  {
    assert hourText + ":" + minuteText == hourText + (":" + minuteText);
    HourOfText(hourText, h, ":" + minuteText);
    assert (":" + minuteText)[1..] == minuteText;
    MinuteOfText(minuteText, m, []);
    assert minuteText + [] == minuteText;
  }

  /** `\s+` consumes a whole run of whitespace and nothing after it. */
  lemma SpacesOfRun(w: string, rest: string)
    requires IsSpaceRun(w) && (rest == [] || !IsWhitespace(rest[0]))
    ensures Spaces(w + rest) == Some(rest)
  {
    LeadingWhitespaceOfRun(w, rest);
    assert (w + rest)[|w|..] == rest;
  }

  /** A month name starts with a letter. */
  lemma MonthNameStart(t: string)
    requires |t| == 3 && MonthNumber(t).Some?
    ensures !IsWhitespace(t[0]) && !IsDigit(t[0])
  {
    var l := [LowerAscii(t[0]), LowerAscii(t[1]), LowerAscii(t[2])];
    assert 'a' <= l[0] <= 'z';
  }

  /** `%d %b %Y` reads back a day written any way `%d` accepts, a month
      name in any case and a four-digit year, across any runs of
      whitespace. */
  lemma DateOfText(d: nat, m: int, y: nat, dayText: string, w1: string, mt: string,
                   w2: string, rest: string)
    requires 1 <= d <= 31 && 1 <= m <= 12 && y <= 9999
    requires IsDayText(dayText, d) && IsSpaceRun(w1) && IsSpaceRun(w2)
    requires |mt| == 3 && MonthNumber(mt) == Some(m)
    ensures Date(dayText + w1 + mt + w2 + FourDigits(y) + rest) == Some((d, m, y, rest))
  {
    var sY := FourDigits(y) + rest;
    assert dayText + w1 + mt + w2 + FourDigits(y) + rest == dayText + (w1 + (mt + (w2 + sY)));
    DayOfText(dayText, d, w1 + (mt + (w2 + sY)));
    MonthOfText(m, w1, mt, w2, sY);
    YearOfFourDigits(y, rest);
  }

  /** `\s+%b\s+` after the day, up to a text `sY` that starts with a digit. */
  lemma MonthOfText(m: int, w1: string, mt: string, w2: string, sY: string)
    requires 1 <= m <= 12 && IsSpaceRun(w1) && IsSpaceRun(w2)
    requires |mt| == 3 && MonthNumber(mt) == Some(m) && |sY| > 0 && IsDigit(sY[0])
    ensures (w1 + (mt + (w2 + sY)))[0] == w1[0]
    ensures Spaces(w1 + (mt + (w2 + sY))) == Some(mt + (w2 + sY))
    ensures Month(mt + (w2 + sY)) == Some((m, w2 + sY))
    ensures Spaces(w2 + sY) == Some(sY)
  {
    var s1 := mt + (w2 + sY);
    MonthNameStart(mt);
    assert s1[0] == mt[0];
    SpacesOfRun(w1, s1);
    assert s1[..3] == mt && s1[3..] == w2 + sY;
    SpacesOfRun(w2, sY);
  }

  /** `strptime` once `%d %b %Y` has read day, month and year from
      `date` and `%H:%M` hour and minute from `clock`: the calendar check
      alone decides. */
  lemma ParseOfDateAndClock(dt: DateTime, date: string, w: string, clock: string)
    requires InRange(dt) && IsSpaceRun(w)
    requires Date(date + ("," + w + clock)) == Some((dt.day, dt.month, dt.year, "," + w + clock))
    requires Clock(clock) == Some((dt.hour, dt.minute)) && |clock| > 0 && IsDigit(clock[0])
    ensures Parse(date + ("," + w + clock)) == if Valid(dt) then Some(dt) else None
  {
    AfterDateOfClock(dt, w, clock);
  }

  lemma AfterDateOfClock(dt: DateTime, w: string, clock: string)
    requires InRange(dt) && IsSpaceRun(w)
    requires Clock(clock) == Some((dt.hour, dt.minute)) && |clock| > 0 && IsDigit(clock[0])
    ensures AfterDate(dt.day, dt.month, dt.year, "," + w + clock) == if Valid(dt) then Some(dt) else None
  {
    var rest := "," + w + clock;
    assert rest[1..] == w + clock;
    assert Literal(rest, ',') == Some(w + clock);
    SpacesOfRun(w, clock);
  }

  /** The text after the date, grouped as `ParseOfDateAndClock` reads it. */
  lemma AfterDateGrouping(date: string, w: string, hourText: string, minuteText: string)
    ensures date + "," + w + hourText + ":" + minuteText
            == date + ("," + w + (hourText + ":" + minuteText))
  {
  }

  /** `strptime` reads back every text its pattern matches, however the
      fields are written and however much whitespace separates them: the
      result is the date and time when it exists, and `ValueError`
      otherwise. */
  lemma ParseOfText(dt: DateTime, dayText: string, w1: string, mt: string, w2: string,
                    w3: string, hourText: string, minuteText: string)
    requires InRange(dt)
    requires IsDayText(dayText, dt.day) && |mt| == 3 && MonthNumber(mt) == Some(dt.month)
    requires IsNumberText(hourText, dt.hour) && IsNumberText(minuteText, dt.minute)
    requires IsSpaceRun(w1) && IsSpaceRun(w2) && IsSpaceRun(w3)
    ensures Parse(dayText + w1 + mt + w2 + FourDigits(dt.year) + "," + w3 + hourText + ":" + minuteText)
            == if Valid(dt) then Some(dt) else None
  {
    var date := dayText + w1 + mt + w2 + FourDigits(dt.year);
    var clock := hourText + ":" + minuteText;
    var rest := "," + w3 + clock;
    AfterDateGrouping(date, w3, hourText, minuteText);
    DateOfText(dt.day, dt.month, dt.year, dayText, w1, mt, w2, rest);
    ClockOfText(dt.hour, dt.minute, hourText, minuteText);
    assert clock[0] == hourText[0];
    ParseOfDateAndClock(dt, date, w3, clock);
  }

  /** `strptime` reads back the canonical text of every valid date and
      time, and rejects the text of every other one its directives can
      read: year 0 and a day past the end of its month ("30 Feb 2024,
      10:00", "29 Feb 2023, 10:00"). */
  lemma ParseFormat(dt: DateTime)
    requires InRange(dt)
    ensures Parse(Format(dt)) == if Valid(dt) then Some(dt) else None
  {
    var dayText, mt := TwoDigits(dt.day), MonthName(dt.month);
    var hourText, minuteText := TwoDigits(dt.hour), TwoDigits(dt.minute);
    MonthOfName(dt.month);
    ParseOfText(dt, dayText, " ", mt, " ", " ", hourText, minuteText);
    assert Format(dt) == dayText + " " + mt + " " + FourDigits(dt.year) + "," + " " + hourText + ":" + minuteText;
  }

  /** `%M` reads at most two digits: text after a two-digit minute is
      left over. */
  lemma ClockWithTrailingText(h: nat, m: nat, x: string)
    requires h <= 23 && m <= 59 && x != []
    ensures Clock(TwoDigits(h) + ":" + TwoDigits(m) + x) == None
  {
    var sM := TwoDigits(m);
    assert TwoDigits(h) + ":" + sM + x == TwoDigits(h) + (":" + (sM + x));
    HourOfTwoDigits(h, ":" + (sM + x));
    assert (":" + (sM + x))[1..] == sM + x;
    assert (sM + x)[2..] == x;
    assert Minute(sM + x) == Some((m, x));
  }

  /** `strptime` fails when `%H:%M` does not read the clock text. */
  lemma ParseOfBadClock(date: string, clock: string, d: int, m: int, y: int)
    requires Date(date + ", " + clock) == Some((d, m, y, ", " + clock))
    requires Clock(clock) == None && (clock == [] || !IsWhitespace(clock[0]))
    ensures Parse(date + ", " + clock) == None
  {
    AfterDateOfBadClock(d, m, y, clock);
  }

  lemma AfterDateOfBadClock(d: int, m: int, y: int, clock: string)
    requires 1 <= d <= 31 && 1 <= m <= 12 && 0 <= y <= 9999
    requires Clock(clock) == None && (clock == [] || !IsWhitespace(clock[0]))
    ensures AfterDate(d, m, y, ", " + clock) == None
  {
    var rest := ", " + clock;
    assert rest[1..] == " " + clock;
    assert Literal(rest, ',') == Some(" " + clock);
    SpacesOfRun(" ", clock);
  }

  /** Text after the canonical minute is left over, and `strptime`
      rejects it ("unconverted data remains"). */
  lemma ParseTrailingText(dt: DateTime, x: string)
    requires InRange(dt) && x != []
    ensures Parse(Format(dt) + x) == None
  {
    MonthOfName(dt.month);
    var date := DateText(dt);
    var clock := ClockText(dt) + x;
    assert Format(dt) + x == date + ", " + clock;
    assert date + ", " + clock == date + (", " + clock);
    DateOfText(dt.day, dt.month, dt.year, TwoDigits(dt.day), " ", MonthName(dt.month), " ", ", " + clock);
    ClockWithTrailingText(dt.hour, dt.minute, x);
    ParseOfBadClock(date, clock, dt.day, dt.month, dt.year);
  }

  lemma ExampleFormat()
    ensures Format(DateTime(2024, 1, 5, 14, 30)) == "05 Jan 2024, 14:30"
  {
  }

  /** The canonical text of a day past the end of February 2024. */
  lemma ExampleFormatPastMonthEnd()
    ensures Format(DateTime(2024, 2, 30, 10, 0)) == "30 Feb 2024, 10:00"
    ensures !Valid(DateTime(2024, 2, 30, 10, 0))
  {
  }

  /** The 29th of February reads back in a leap year and is refused in
      any other. */
  lemma ExampleLeapDay()
    ensures Parse(Format(DateTime(2023, 2, 29, 10, 0))) == None
    ensures Parse(Format(DateTime(2024, 2, 29, 10, 0))) == Some(DateTime(2024, 2, 29, 10, 0))
  {
    ParseFormat(DateTime(2023, 2, 29, 10, 0));
    ParseFormat(DateTime(2024, 2, 29, 10, 0));
  }

  /** A text far from the canonical one that `strptime` still reads: a
      space before a one-digit day, a tab, a month in mixed case, a line
      break after the comma, and a one-digit hour and minute. */
  lemma ExampleLenientText()
    ensures Parse(" 5" + "\t" + "jAN" + "  " + "2024" + "," + "\n" + "9" + ":" + "7")
            == Some(DateTime(2024, 1, 5, 9, 7))
  {
    LenientPieces();
    ParseOfText(DateTime(2024, 1, 5, 9, 7), " 5", "\t", "jAN", "  ", "\n", "9", "7");
  }

  lemma LenientPieces()
    ensures IsDayText(" 5", 5) && MonthNumber("jAN") == Some(1) && FourDigits(2024) == "2024"
    ensures IsNumberText("9", 9) && IsNumberText("7", 7)
    ensures IsSpaceRun("\t") && IsSpaceRun("  ") && IsSpaceRun("\n")
  {
    assert Decimal(5) == "5" && Decimal(9) == "9" && Decimal(7) == "7";
  }

  /** Text that is not a date at all. */
  lemma ExampleNotADate()
    ensures Parse("tomorrow") == None
  {
    var t := "tomorrow";
    assert t[0] == 't' && t[1] == 'o';
    assert Day(t) == None;
  }
}
