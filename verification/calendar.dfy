/** The date and time validators of the appointment wizard (src/components/appointmentProfessor.js):
    the two regular expressions, the length and range checks, and the "strictly after today" test.
    Dates are calendar days; "today" is a parameter (the UTC date of the server clock). */
module Calendar {
  import opened Wrappers
  import opened Strings

  datatype Date = Date(year: int, month: int, day: int)

  predicate IsLeapYear(y: int) {
    y % 4 == 0 && (y % 100 != 0 || y % 400 == 0)
  }

  function DaysInMonth(y: int, m: int): nat
    requires 1 <= m <= 12
  {
    if m == 2 then (if IsLeapYear(y) then 29 else 28)
    else if m == 4 || m == 6 || m == 9 || m == 11 then 30
    else 31
  }

  predicate IsValidDate(d: Date) {
    1 <= d.month <= 12 && 1 <= d.day <= DaysInMonth(d.year, d.month)
  }

  /** `a` is a strictly earlier calendar day than `b`. */
  predicate Before(a: Date, b: Date) {
    || a.year < b.year
    || (a.year == b.year && a.month < b.month)
    || (a.year == b.year && a.month == b.month && a.day < b.day)
  }

  /** The date `new Date("YYYY-MM-DD")` denotes for a month 1-12 and a day 1-31: the JavaScript
      engine the bot runs on (V8) accepts any day up to 31 and lets a day past the month's end roll
      over into the next month ("31.02" becomes the 2nd or 3rd of March). */
  function MakeDate(y: int, m: int, d: int): (r: Date)
    requires 1 <= m <= 12 && 1 <= d <= 31
    ensures IsValidDate(r) && r.year == y
    ensures !Before(r, Date(y, m, d))
    ensures d > DaysInMonth(y, m) ==> r == Date(y, m + 1, d - DaysInMonth(y, m))
  {
    if d <= DaysInMonth(y, m) then Date(y, m, d) else Date(y, m + 1, d - DaysInMonth(y, m))
  }

  /** A date that exists is taken as it is. */
  lemma MakeDateValid(d: Date)
    requires IsValidDate(d)
    ensures d.day <= 31 && MakeDate(d.year, d.month, d.day) == d
  {
  }

  // ----- the date pattern: a day 1-31 (optional leading zero), a separator, a month 1-12

  predicate IsSeparator(c: char) {
    c == '/' || c == '-' || c == '.'
  }

  /** The day group `0?[1-9]|[12][0-9]|3[01]`. */
  predicate DayToken(t: string) {
    || (|t| == 1 && '1' <= t[0] <= '9')
    || (|t| == 2 && t[0] == '0' && '1' <= t[1] <= '9')
    || (|t| == 2 && (t[0] == '1' || t[0] == '2') && IsDigit(t[1]))
    || (|t| == 2 && t[0] == '3' && (t[1] == '0' || t[1] == '1'))
  }

  /** The month group `0?[1-9]|1[012]`. */
  predicate MonthToken(t: string) {
    || (|t| == 1 && '1' <= t[0] <= '9')
    || (|t| == 2 && t[0] == '0' && '1' <= t[1] <= '9')
    || (|t| == 2 && t[0] == '1' && '0' <= t[1] <= '2')
  }

  /** `dateRegex.exec(s)`: the captured day and month, or `None` when the text does not match.
      The separator is the only non-digit, so the split is unique. */
  function MatchDate(s: string): (r: Option<(string, string)>)
    ensures r.Some? ==> DayToken(r.value.0) && MonthToken(r.value.1)
    ensures r.Some? ==> |r.value.0| + 1 + |r.value.1| == |s| && IsSeparator(s[|r.value.0|])
    ensures r.Some? ==> s == r.value.0 + [s[|r.value.0|]] + r.value.1
  {
    if |s| >= 3 && DayToken(s[..1]) && IsSeparator(s[1]) && MonthToken(s[2..]) then Some((s[..1], s[2..]))
    else if |s| >= 4 && DayToken(s[..2]) && IsSeparator(s[2]) && MonthToken(s[3..]) then Some((s[..2], s[3..]))
    else None
  }

  /** Every text of the regular expression's language is matched, with the intended captures. */
  lemma MatchDateComplete(d: string, c: char, m: string)
    requires DayToken(d) && IsSeparator(c) && MonthToken(m)
    ensures MatchDate(d + [c] + m) == Some((d, m))
  {
    var s := d + [c] + m;
    assert s[..|d|] == d && s[|d| + 1..] == m;
  }

  lemma TwoDigitValue(t: string)
    requires |t| == 2 && AllDigits(t)
    ensures DecimalValue(t) == 10 * DigitValue(t[0]) + DigitValue(t[1])
  {
    var u := t[..1];
    assert u[..0] == [] && u[0] == t[0];
    assert DecimalValue(u) == DigitValue(t[0]);
    assert t[..|t| - 1] == u;
  }

  /** A two-character day group is exactly a two-digit number from 1 to 31. */
  lemma DayTokenValue(t: string)
    requires |t| == 2
    ensures DayToken(t) <==> AllDigits(t) && 1 <= DecimalValue(t) <= 31
  {
    if AllDigits(t) {
      TwoDigitValue(t);
    }
  }

  /** A two-character month group is exactly a two-digit number from 1 to 12. */
  lemma MonthTokenValue(t: string)
    requires |t| == 2
    ensures MonthToken(t) <==> AllDigits(t) && 1 <= DecimalValue(t) <= 12
  {
    if AllDigits(t) {
      TwoDigitValue(t);
    }
  }

  lemma OneDigitValue(t: string)
    requires |t| == 1 && AllDigits(t)
    ensures DecimalValue(t) == DigitValue(t[0])
  {
    assert t[..0] == [];
  }

  /** Token values, as JavaScript's numeric coercion reads them. */
  lemma TokenRanges(d: string, m: string)
    requires DayToken(d) && MonthToken(m)
    ensures AllDigits(d) && 1 <= DecimalValue(d) <= 31
    ensures AllDigits(m) && 1 <= DecimalValue(m) <= 12
  {
    if |d| == 1 { OneDigitValue(d); } else { DayTokenValue(d); }
    if |m| == 1 { OneDigitValue(m); } else { MonthTokenValue(m); }
  }

  datatype DateVerdict = BadDateFormat | NotInFuture | DateOk(date: Date)

  /** The date step's checks in order: the length, the regular expression, the digit count of the two
      groups, then "strictly after today", with the year taken from today. */
  function CheckDate(s: string, today: Date): (v: DateVerdict)
    ensures v.DateOk? ==> IsValidDate(v.date) && Before(today, v.date) && v.date.year == today.year
  {
    var m := MatchDate(s);
    if |s| != 5 || m.None? || |m.value.0| + |m.value.1| != |s| - 1 then BadDateFormat
    else
      TokenRanges(m.value.0, m.value.1);
      var date := MakeDate(today.year, DecimalValue(m.value.1), DecimalValue(m.value.0));
      if !Before(today, date) then NotInFuture else DateOk(date)
  }

  /** The digit-count test of the date step can never fail once the length is 5 and the regular
      expression matched. */
  lemma DigitCountImplied(s: string)
    requires |s| == 5 && MatchDate(s).Some?
    ensures |MatchDate(s).value.0| + |MatchDate(s).value.1| == |s| - 1
  {
  }

  /** Reference shape of an accepted date text: `DD?MM` with `?` one of `/ - .`, the day a two-digit
      number 1-31 and the month a two-digit number 1-12. */
  predicate IsDateText(s: string) {
    && |s| == 5
    && AllDigits(s[..2]) && IsSeparator(s[2]) && AllDigits(s[3..])
    && 1 <= DecimalValue(s[..2]) <= 31
    && 1 <= DecimalValue(s[3..]) <= 12
  }

  /** The format checks pass exactly on the reference shape. */
  lemma DateFormatIff(s: string, today: Date)
    ensures CheckDate(s, today) != BadDateFormat <==> IsDateText(s)
  {
    if |s| == 5 {
      DayTokenValue(s[..2]);
      MonthTokenValue(s[3..]);
      if IsDateText(s) {
        MatchDateComplete(s[..2], s[2], s[3..]);
        assert s[..2] + [s[2]] + s[3..] == s;
      }
    }
  }

  /** A date is accepted iff it has the reference shape and, read in today's year, lies strictly
      after today; it is stored as exactly that day. */
  lemma DateAcceptance(s: string, today: Date)
    ensures CheckDate(s, today).DateOk? <==>
      IsDateText(s) && Before(today, MakeDate(today.year, DecimalValue(s[3..]), DecimalValue(s[..2])))
    ensures CheckDate(s, today).DateOk? ==>
      CheckDate(s, today).date == MakeDate(today.year, DecimalValue(s[3..]), DecimalValue(s[..2]))
  {
    DateFormatIff(s, today);
    if |s| == 5 && MatchDate(s).Some? {
      var m := MatchDate(s).value;
      assert m.0 == s[..2] && m.1 == s[3..];
    }
  }

  // ----- the time pattern: an hour 00-23, an optional colon, a minute 00-59

  /** The hour group `[01]\d|2[0-3]`. */
  predicate HourToken(t: string) {
    && |t| == 2
    && (((t[0] == '0' || t[0] == '1') && IsDigit(t[1])) || (t[0] == '2' && '0' <= t[1] <= '3'))
  }

  /** The minute group `[0-5]\d`. */
  predicate MinuteToken(t: string) {
    |t| == 2 && '0' <= t[0] <= '5' && IsDigit(t[1])
  }

  /** `timeRegex.exec(s)`: the captured hour and minute, with or without the colon. */
  function MatchTime(s: string): (r: Option<(string, string)>)
    ensures r.Some? ==> HourToken(r.value.0) && MinuteToken(r.value.1)
    ensures r.Some? ==> s == r.value.0 + r.value.1 || s == r.value.0 + ":" + r.value.1
  {
    if |s| == 4 && HourToken(s[..2]) && MinuteToken(s[2..]) then
      assert s == s[..2] + s[2..];
      Some((s[..2], s[2..]))
    else if |s| == 5 && HourToken(s[..2]) && s[2] == ':' && MinuteToken(s[3..]) then
      assert s == s[..2] + ":" + s[3..];
      Some((s[..2], s[3..]))
    else None
  }

  /** Every text of the regular expression's language is matched, with the intended captures. */
  lemma MatchTimeComplete(h: string, m: string)
    requires HourToken(h) && MinuteToken(m)
    ensures MatchTime(h + m) == Some((h, m))
    ensures MatchTime(h + ":" + m) == Some((h, m))
  {
    var s, t := h + m, h + ":" + m;
    assert s[..2] == h && s[2..] == m;
    assert t[..2] == h && t[3..] == m;
  }

  lemma HourTokenValue(t: string)
    requires |t| == 2
    ensures HourToken(t) <==> AllDigits(t) && DecimalValue(t) <= 23
  {
    if AllDigits(t) {
      TwoDigitValue(t);
    }
  }

  lemma MinuteTokenValue(t: string)
    requires |t| == 2
    ensures MinuteToken(t) <==> AllDigits(t) && DecimalValue(t) <= 59
  {
    if AllDigits(t) {
      TwoDigitValue(t);
    }
  }

  datatype TimeVerdict = BadTimeFormat | TooLate | TooEarly | TimeOk(hour: nat, minute: nat)

  /** The time step's checks in order: the regular expression, then "hour >= 18" (too late), then
      "hour < 8" (too early). */
  function CheckTime(s: string): (v: TimeVerdict)
    ensures v.TimeOk? ==> 8 <= v.hour < 18 && v.minute <= 59
  {
    match MatchTime(s)
    case None => BadTimeFormat
    case Some((hh, mm)) =>
      HourTokenValue(hh);
      MinuteTokenValue(mm);
      var h := DecimalValue(hh);
      if h >= 18 then TooLate
      else if h < 8 then TooEarly
      else TimeOk(h, DecimalValue(mm))
  }

  /** Reference shape of a time text: `HHMM` or `HH:MM` with HH 00-23 and MM 00-59. */
  predicate IsTimeText(s: string) {
    && (|s| == 4 || (|s| == 5 && s[2] == ':'))
    && AllDigits(s[..2]) && AllDigits(s[|s| - 2..])
    && DecimalValue(s[..2]) <= 23 && DecimalValue(s[|s| - 2..]) <= 59
  }

  function HourOf(s: string): nat
    requires IsTimeText(s)
  {
    DecimalValue(s[..2])
  }

  function MinuteOf(s: string): nat
    requires IsTimeText(s)
  {
    DecimalValue(s[|s| - 2..])
  }

  /** The verdict of the time step on every text: a format error outside the reference shape;
      otherwise "too late" from 18:00, "too early" before 08:00, and acceptance of exactly the hours
      8 to 17, with the hour and minute read from the text. */
  lemma TimeClassification(s: string)
    ensures CheckTime(s) == BadTimeFormat <==> !IsTimeText(s)
    ensures CheckTime(s) == TooLate <==> IsTimeText(s) && HourOf(s) >= 18
    ensures CheckTime(s) == TooEarly <==> IsTimeText(s) && HourOf(s) < 8
    ensures CheckTime(s).TimeOk? <==> IsTimeText(s) && 8 <= HourOf(s) <= 17
    ensures CheckTime(s).TimeOk? ==> CheckTime(s) == TimeOk(HourOf(s), MinuteOf(s))
  {
    if |s| == 4 || |s| == 5 {
      HourTokenValue(s[..2]);
      MinuteTokenValue(s[|s| - 2..]);
      if IsTimeText(s) {
        MatchTimeComplete(s[..2], s[|s| - 2..]);
        if |s| == 4 {
          assert s == s[..2] + s[2..];
        } else {
          assert s == s[..2] + ":" + s[3..];
        }
      }
      if MatchTime(s).Some? {
        var m := MatchTime(s).value;
        assert m.0 == s[..2] && m.1 == s[|s| - 2..];
      }
    }
  }
}
