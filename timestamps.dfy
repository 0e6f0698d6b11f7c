/**
  The last_active column. A Python datetime is stored by the sqlite3 adapter
  as datetime.isoformat(" "), i.e. "YYYY-MM-DD HH:MM:SS" followed by
  ".ffffff" when the microsecond is not zero. The presence listing reads it
  back by trying three parsers in a fixed order: fromisoformat, then
  strptime "%Y-%m-%d %H:%M:%S.%f", then strptime "%Y-%m-%d %H:%M:%S".
  An instant is the number of microseconds since 0001-01-01 00:00:00,
  computed from the civil date as Python's datetime.toordinal does.
 */
module Timestamps {
  import opened Wrappers
  import opened Decimal

  datatype DateTime = DateTime(year: int, month: int, day: int,
                               hour: int, minute: int, second: int, micro: int)

  /** The ValueError a parser raises; it carries the text that failed. */
  datatype TimestampError = Malformed(text: string)

  predicate IsLeap(y: int) {
    y % 4 == 0 && (y % 100 != 0 || y % 400 == 0)
  }

  function DaysInMonth(y: int, m: int): (n: int)
    requires 1 <= m <= 12
    ensures 28 <= n <= 31
    ensures n == 29 <==> m == 2 && IsLeap(y)
  {
    if m == 2 then (if IsLeap(y) then 29 else 28)
    else if m == 4 || m == 6 || m == 9 || m == 11 then 30
    else 31
  }

  function DaysInYear(y: int): int {
    if IsLeap(y) then 366 else 365
  }

  /** The fields a datetime constructor accepts (MINYEAR 1, MAXYEAR 9999). */
  predicate ValidDateTime(dt: DateTime) {
    && 1 <= dt.year <= 9999
    && 1 <= dt.month <= 12
    && 1 <= dt.day <= DaysInMonth(dt.year, dt.month)
    && 0 <= dt.hour < 24
    && 0 <= dt.minute < 60
    && 0 <= dt.second < 60
    && 0 <= dt.micro < 1_000_000
  }

  // ---------------------------------------------------------------------------
  // Days from civil and the instant
  // ---------------------------------------------------------------------------

  /** Days from 0001-01-01 to January 1st of year y (proleptic Gregorian). */
  function DaysBeforeYear(y: int): int
    requires y >= 1
  {
    var k := y - 1;
    k * 365 + k / 4 - k / 100 + k / 400
  }

  function DaysBeforeMonth(y: int, m: int): int
    requires 1 <= m <= 12
  {
    [0, 31, 59, 90, 120, 151, 181, 212, 243, 273, 304, 334][m - 1]
      + (if m > 2 && IsLeap(y) then 1 else 0)
  }

  /** Days from 0001-01-01 to the given date (its ordinal minus one). */
  function DaysFromCivil(y: int, m: int, d: int): int
    requires y >= 1 && 1 <= m <= 12
  {
    DaysBeforeYear(y) + DaysBeforeMonth(y, m) + d - 1
  }

  const MicrosPerDay: int := 86_400_000_000

  function TimeOfDay(dt: DateTime): int {
    ((dt.hour * 60 + dt.minute) * 60 + dt.second) * 1_000_000 + dt.micro
  }

  lemma TimeOfDayBounds(dt: DateTime)
    requires ValidDateTime(dt)
    ensures 0 <= TimeOfDay(dt) < MicrosPerDay
  {
    var minutes := dt.hour * 60 + dt.minute;
    assert 0 <= minutes < 1440;
    var seconds := minutes * 60 + dt.second;
    assert 0 <= seconds < 86_400;
  }

  lemma DaySplit(days: int, t: int)
    requires 0 <= t < MicrosPerDay
    ensures (days * MicrosPerDay + t) / MicrosPerDay == days
    ensures (days * MicrosPerDay + t) % MicrosPerDay == t
  {
  }

  /** Microseconds since 0001-01-01 00:00:00: the day number is the instant divided
      by the length of a day, and the time of day is the remainder. */
  function ToInstant(dt: DateTime): (r: int)
    requires ValidDateTime(dt)
    ensures r >= 0
    ensures r / MicrosPerDay == DaysFromCivil(dt.year, dt.month, dt.day)
    ensures r % MicrosPerDay == TimeOfDay(dt)
  {
    TimeOfDayBounds(dt);
    DaySplit(DaysFromCivil(dt.year, dt.month, dt.day), TimeOfDay(dt));
    DaysFromCivil(dt.year, dt.month, dt.day) * MicrosPerDay + TimeOfDay(dt)
  }

  /** Chronological order on datetimes: lexicographic on the fields. */
  predicate Before(a: DateTime, b: DateTime) {
    || a.year < b.year
    || (a.year == b.year && a.month < b.month)
    || (a.year == b.year && a.month == b.month && a.day < b.day)
    || (a.year == b.year && a.month == b.month && a.day == b.day && TimeOfDay(a) < TimeOfDay(b))
  }

  lemma Div4Step(k: nat)
    ensures (k + 1) / 4 == k / 4 + (if (k + 1) % 4 == 0 then 1 else 0)
  {
    var q, r := k / 4, k % 4;
    assert k == 4 * q + r;
    if r == 3 {
      assert k + 1 == 4 * (q + 1);
    } else {
      assert k + 1 == 4 * q + (r + 1);
    }
  }

  lemma Div100Step(k: nat)
    ensures (k + 1) / 100 == k / 100 + (if (k + 1) % 100 == 0 then 1 else 0)
  {
    var q, r := k / 100, k % 100;
    assert k == 100 * q + r;
    if r == 99 {
      assert k + 1 == 100 * (q + 1);
    } else {
      assert k + 1 == 100 * q + (r + 1);
    }
  }

  lemma Div400Step(k: nat)
    ensures (k + 1) / 400 == k / 400 + (if (k + 1) % 400 == 0 then 1 else 0)
  {
    var q, r := k / 400, k % 400;
    assert k == 400 * q + r;
    if r == 399 {
      assert k + 1 == 400 * (q + 1);
    } else {
      assert k + 1 == 400 * q + (r + 1);
    }
  }

  /** Consecutive years are one year length apart: the closed form counts the leap days. */
  lemma DaysBeforeYearStep(y: int)
    requires y >= 1
    ensures DaysBeforeYear(y + 1) == DaysBeforeYear(y) + DaysInYear(y)
  {
    var k := y - 1;
    Div4Step(k);
    Div100Step(k);
    Div400Step(k);
    var d4, d100, d400 := y / 4 - k / 4, y / 100 - k / 100, y / 400 - k / 400;
    assert DaysBeforeYear(y + 1) == DaysBeforeYear(y) + 365 + d4 - d100 + d400;
    if y % 400 == 0 {
      DivisibleBy400(y);
    } else if y % 100 == 0 {
      DivisibleBy100(y);
    }
  }

  lemma DivisibleBy400(y: int)
    requires y % 400 == 0
    ensures y % 100 == 0 && y % 4 == 0
  {
    var q := y / 400;
    assert y == 100 * (4 * q);
    assert y == 4 * (100 * q);
  }

  lemma DivisibleBy100(y: int)
    requires y % 100 == 0
    ensures y % 4 == 0
  {
    var q := y / 100;
    assert y == 4 * (25 * q);
  }

  lemma {:induction false} DaysBeforeYearMonotone(y: int, z: int)
    requires 1 <= y <= z
    ensures DaysBeforeYear(y) + (if y < z then DaysInYear(y) else 0) <= DaysBeforeYear(z)
    decreases z - y
  {
    if y < z {
      DaysBeforeYearStep(y);
      if y + 1 < z {
        DaysBeforeYearMonotone(y + 1, z);
      }
    }
  }

  lemma DaysBeforeMonthStep(y: int, m: int)
    requires 1 <= m < 12
    ensures DaysBeforeMonth(y, m) + DaysInMonth(y, m) == DaysBeforeMonth(y, m + 1)
  {
  }

  lemma DaysBeforeMonthMonotone(y: int, m: int, n: int)
    requires 1 <= m < n <= 12
    ensures DaysBeforeMonth(y, m) + DaysInMonth(y, m) <= DaysBeforeMonth(y, n)
  {
  }

  lemma DaysInYearCoversMonths(y: int, m: int)
    requires 1 <= m <= 12
    ensures DaysBeforeMonth(y, m) + DaysInMonth(y, m) <= DaysInYear(y)
  {
  }

  lemma {:induction false} DaysFromCivilMonotone(a: DateTime, b: DateTime)
    requires ValidDateTime(a) && ValidDateTime(b)
    requires a.year < b.year || (a.year == b.year && a.month < b.month)
             || (a.year == b.year && a.month == b.month && a.day < b.day)
    ensures DaysFromCivil(a.year, a.month, a.day) < DaysFromCivil(b.year, b.month, b.day)
  {
    if a.year < b.year {
      DaysInYearCoversMonths(a.year, a.month);
      DaysBeforeYearMonotone(a.year, b.year);
    } else if a.month < b.month {
      DaysBeforeMonthMonotone(a.year, a.month, b.month);
    }
  }

  /** Later datetimes have larger instants, so instants compare as the datetimes do. */
  lemma {:induction false} ToInstantMonotone(a: DateTime, b: DateTime)
    requires ValidDateTime(a) && ValidDateTime(b)
    requires Before(a, b)
    ensures ToInstant(a) < ToInstant(b)
  {
    assert 0 <= TimeOfDay(a) < MicrosPerDay && 0 <= TimeOfDay(b) < MicrosPerDay;
    if a.year == b.year && a.month == b.month && a.day == b.day {
    } else {
      DaysFromCivilMonotone(a, b);
    }
  }

  lemma TimeOfDayInjective(a: DateTime, b: DateTime)
    requires ValidDateTime(a) && ValidDateTime(b)
    requires TimeOfDay(a) == TimeOfDay(b)
    ensures a.hour == b.hour && a.minute == b.minute && a.second == b.second && a.micro == b.micro
  {
    var sa, sb := (a.hour * 60 + a.minute) * 60 + a.second, (b.hour * 60 + b.minute) * 60 + b.second;
    assert sa == sb;
    var ma, mb := a.hour * 60 + a.minute, b.hour * 60 + b.minute;
    assert ma == mb;
  }

  /** No two valid datetimes share an instant. */
  lemma ToInstantInjective(a: DateTime, b: DateTime)
    requires ValidDateTime(a) && ValidDateTime(b)
    requires ToInstant(a) == ToInstant(b)
    ensures a == b
  {
    if Before(a, b) {
      ToInstantMonotone(a, b);
    } else if Before(b, a) {
      ToInstantMonotone(b, a);
    } else {
      TimeOfDayInjective(a, b);
    }
  }

  // ---------------------------------------------------------------------------
  // Writing: the text the sqlite3 adapter stores for a datetime
  // ---------------------------------------------------------------------------

  function FormatDate(dt: DateTime): (s: string)
    requires ValidDateTime(dt)
    ensures |s| == 10
  {
    PadDigits(dt.year, 4) + "-" + PadDigits(dt.month, 2) + "-" + PadDigits(dt.day, 2)
  }

  function FormatTime(dt: DateTime): (s: string)
    requires ValidDateTime(dt)
    ensures |s| == 8
  {
    PadDigits(dt.hour, 2) + ":" + PadDigits(dt.minute, 2) + ":" + PadDigits(dt.second, 2)
  }

  /** datetime.isoformat(" "): the fraction is written only when the microsecond is not zero. */
  function FormatDateTime(dt: DateTime): (s: string)
    requires ValidDateTime(dt)
    ensures |s| == if dt.micro == 0 then 19 else 26
  {
    FormatDate(dt) + " " + FormatTime(dt)
      + (if dt.micro == 0 then "" else "." + PadDigits(dt.micro, 6))
  }

  // ---------------------------------------------------------------------------
  // Reading: the three parsers and the fallback chain
  // ---------------------------------------------------------------------------

  /** The fields of "YYYY-MM-DD": digits separated by '-'. */
  function ParseDate(d: string): Option<(int, int, int)>
    requires |d| == 10
  {
    if d[4] == '-' && d[7] == '-' && AllDigits(d[0..4]) && AllDigits(d[5..7]) && AllDigits(d[8..10])
    then Some((DigitsValue(d[0..4]), DigitsValue(d[5..7]), DigitsValue(d[8..10])))
    else None
  }

  /** The fields of "HH:MM:SS": digits separated by ':'. */
  function ParseTime(t: string): Option<(int, int, int)>
    requires |t| == 8
  {
    if t[2] == ':' && t[5] == ':' && AllDigits(t[0..2]) && AllDigits(t[3..5]) && AllDigits(t[6..8])
    then Some((DigitsValue(t[0..2]), DigitsValue(t[3..5]), DigitsValue(t[6..8])))
    else None
  }

  /** The datetime whose date is at s[0..10] and time at s[11..19] (the character
      at index 10 is the separator, checked by the caller), with the given
      microsecond; None when a field is not digits or the datetime is invalid. */
  function ParseFields(s: string, micro: int): (r: Option<DateTime>)
    requires |s| >= 19
    ensures r.Some? ==> ValidDateTime(r.value) && r.value.micro == micro
  {
    var date, time := ParseDate(s[0..10]), ParseTime(s[11..19]);
    if date.None? || time.None? then None
    else
      var dt := DateTime(date.value.0, date.value.1, date.value.2,
                         time.value.0, time.value.1, time.value.2, micro);
      if ValidDateTime(dt) then Some(dt) else None
  }

  /** datetime.fromisoformat: any single separator character, then a fraction
      of exactly 3 or 6 digits or none. */
  function ParseIso(s: string): (r: Option<DateTime>)
    ensures r.Some? ==> ValidDateTime(r.value) && (|s| == 19 || |s| == 23 || |s| == 26)
    ensures r.Some? && |s| == 19 ==> r.value.micro == 0
    ensures r.Some? && |s| == 23 ==> s[19] == '.' && r.value.micro % 1000 == 0
    ensures r.Some? && |s| == 26 ==> s[19] == '.'
  {
    if |s| < 19 then None
    else
      var frac := s[19..];
      if frac == [] then ParseFields(s, 0)
      else if frac[0] == '.' && (|frac| == 4 || |frac| == 7) && AllDigits(frac[1..]) then
        ParseFields(s, if |frac| == 4 then DigitsValue(frac[1..]) * 1000 else DigitsValue(frac[1..]))
      else None
  }

  /** strptime(s, "%Y-%m-%d %H:%M:%S.%f"): a space, then 1 to 6 fraction
      digits, padded with zeros on the right to microseconds. */
  function ParseWithFraction(s: string): (r: Option<DateTime>)
    ensures r.Some? ==> ValidDateTime(r.value) && 21 <= |s| <= 26 && s[10] == ' ' && s[19] == '.'
  {
    if 21 <= |s| <= 26 && s[10] == ' ' && s[19] == '.' && AllDigits(s[20..]) then
      ParseFields(s, DigitsValue(s[20..]) * Pow10(26 - |s|))
    else None
  }

  /** strptime(s, "%Y-%m-%d %H:%M:%S"). */
  function ParsePlain(s: string): (r: Option<DateTime>)
    ensures r.Some? ==> ValidDateTime(r.value) && |s| == 19 && s[10] == ' ' && r.value.micro == 0
  {
    if |s| == 19 && s[10] == ' ' then ParseFields(s, 0) else None
  }

  /** The fallback chain of the presence listing: the first parser that accepts wins;
      when the last one fails too, its error propagates. */
  function ParseLastActive(s: string): (r: Result<DateTime, TimestampError>)
    ensures r.Ok? ==> ValidDateTime(r.value)
    ensures r.Err? ==> r.error == Malformed(s)
  {
    match ParseIso(s)
    case Some(dt) => Ok(dt)
    case None =>
      match ParseWithFraction(s)
      case Some(dt) => Ok(dt)
      case None =>
        match ParsePlain(s)
        case Some(dt) => Ok(dt)
        case None => Err(Malformed(s))
  }

  lemma SliceLeft(a: string, b: string, i: nat, j: nat)
    requires i <= j <= |a|
    ensures (a + b)[i..j] == a[i..j]
  {
  }

  lemma SliceRight(a: string, b: string, i: nat, j: nat)
    requires |a| <= i <= j <= |a| + |b|
    ensures (a + b)[i..j] == b[i - |a|..j - |a|]
  {
  }

  /** Where the three fields of "a?b?c" sit, for fields of widths 4 or 2, 2 and 2. */
  lemma {:induction false} JoinedFields(a: string, b: string, c: string, x: string, y: string)
    requires |b| == 2 && |c| == 2 && |x| == 1 && |y| == 1
    ensures var d := a + x + b + y + c;
            && d[0..|a|] == a && d[|a|] == x[0]
            && d[|a| + 1..|a| + 3] == b && d[|a| + 3] == y[0]
            && d[|a| + 4..|a| + 6] == c
  {
    var p1 := a + x;
    var p2 := p1 + b;
    var p3 := p2 + y;
    var n := |a|;
    SliceLeft(p3, c, 0, n);
    SliceLeft(p2, y, 0, n);
    SliceLeft(p1, b, 0, n);
    SliceLeft(a, x, 0, n);
    assert a[0..n] == a;
    SliceLeft(p3, c, n + 1, n + 3);
    SliceLeft(p2, y, n + 1, n + 3);
    SliceRight(p1, b, n + 1, n + 3);
    assert b[0..2] == b;
    SliceRight(p3, c, n + 4, n + 6);
    assert c[0..2] == c;
  }

  lemma {:induction false} ParseDateOfFields(a: string, b: string, c: string)
    requires |a| == 4 && |b| == 2 && |c| == 2 && AllDigits(a) && AllDigits(b) && AllDigits(c)
    ensures ParseDate(a + "-" + b + "-" + c) == Some((DigitsValue(a), DigitsValue(b), DigitsValue(c)))
  {
    JoinedFields(a, b, c, "-", "-");
  }

  lemma {:induction false} ParseTimeOfFields(a: string, b: string, c: string)
    requires |a| == 2 && |b| == 2 && |c| == 2 && AllDigits(a) && AllDigits(b) && AllDigits(c)
    ensures ParseTime(a + ":" + b + ":" + c) == Some((DigitsValue(a), DigitsValue(b), DigitsValue(c)))
  {
    JoinedFields(a, b, c, ":", ":");
  }

  /** Every field of a valid date-time fits the width it is printed in. */
  lemma FieldsFitWidths(dt: DateTime)
    requires ValidDateTime(dt)
    ensures dt.year < Pow10(4) && dt.micro < Pow10(6)
    ensures dt.month < Pow10(2) && dt.day < Pow10(2)
    ensures dt.hour < Pow10(2) && dt.minute < Pow10(2) && dt.second < Pow10(2)
  {
    assert Pow10(2) == 100;
    assert Pow10(4) == 10_000;
    assert Pow10(6) == 1_000_000;
  }

  lemma ParseDateOfFormat(dt: DateTime)
    requires ValidDateTime(dt)
    ensures ParseDate(FormatDate(dt)) == Some((dt.year, dt.month, dt.day))
  {
    FieldsFitWidths(dt);
    var y, m, d := PadDigits(dt.year, 4), PadDigits(dt.month, 2), PadDigits(dt.day, 2);
    assert FormatDate(dt) == y + "-" + m + "-" + d;
    ParseDateOfFields(y, m, d);
  }

  lemma ParseTimeOfFormat(dt: DateTime)
    requires ValidDateTime(dt)
    ensures ParseTime(FormatTime(dt)) == Some((dt.hour, dt.minute, dt.second))
  {
    FieldsFitWidths(dt);
    var h, m, sec := PadDigits(dt.hour, 2), PadDigits(dt.minute, 2), PadDigits(dt.second, 2);
    assert FormatTime(dt) == h + ":" + m + ":" + sec;
    ParseTimeOfFields(h, m, sec);
  }

  lemma {:induction false} ParseFieldsOfFormat(dt: DateTime, tail: string)
    requires ValidDateTime(dt)
    ensures ParseFields(FormatDate(dt) + " " + FormatTime(dt) + tail, dt.micro) == Some(dt)
  {
    var d, t := FormatDate(dt), FormatTime(dt);
    var head := d + " " + t;
    var s := head + tail;
    SliceLeft(head, tail, 0, 10);
    SliceLeft(d + " ", t, 0, 10);
    SliceLeft(d, " ", 0, 10);
    assert d[0..10] == d;
    SliceLeft(head, tail, 11, 19);
    SliceRight(d + " ", t, 11, 19);
    assert t[0..8] == t;
    ParseDateOfFormat(dt);
    ParseTimeOfFormat(dt);
  }

  lemma DropPrefix(a: string, b: string)
    ensures (a + b)[|a|..] == b
  {
  }

  lemma {:induction false} IsoReadsWholeSeconds(dt: DateTime)
    requires ValidDateTime(dt) && dt.micro == 0
    ensures ParseIso(FormatDateTime(dt)) == Some(dt)
  {
    var head := FormatDate(dt) + " " + FormatTime(dt);
    assert FormatDateTime(dt) == head + "";
    DropPrefix(head, "");
    ParseFieldsOfFormat(dt, "");
  }

  lemma {:induction false} IsoReadsMicroseconds(dt: DateTime)
    requires ValidDateTime(dt) && dt.micro != 0
    ensures ParseIso(FormatDateTime(dt)) == Some(dt)
  {
    var head := FormatDate(dt) + " " + FormatTime(dt);
    var digits := PadDigits(dt.micro, 6);
    var tail := "." + digits;
    assert FormatDateTime(dt) == head + tail;
    DropPrefix(head, tail);
    DropPrefix(".", digits);
    assert |tail| == 7 && tail[0] == '.';
    ParseFieldsOfFormat(dt, tail);
  }

  /** What is written to last_active is accepted by the first parser of the chain. */
  lemma IsoReadsFormat(dt: DateTime)
    requires ValidDateTime(dt)
    ensures ParseIso(FormatDateTime(dt)) == Some(dt)
  {
    if dt.micro == 0 {
      IsoReadsWholeSeconds(dt);
    } else {
      IsoReadsMicroseconds(dt);
    }
  }

  /** What is written to last_active reads back through the chain as the same datetime. */
  lemma FormatParseRoundTrip(dt: DateTime)
    requires ValidDateTime(dt)
    ensures ParseLastActive(FormatDateTime(dt)) == Ok(dt)
  {
    IsoReadsFormat(dt);
  }

  /** On the fixed-width text modelled here, the strict parser accepts everything the
      fraction-less strptime accepts, with the same result, so the third parser only
      decides the error that is raised. (The real strptime also takes one-digit fields
      such as "12:00:5", which neither earlier parser accepts; those are not modelled.) */
  lemma PlainSubsumedByIso(s: string)
    requires ParsePlain(s).Some?
    ensures ParseIso(s) == ParsePlain(s)
  {
  }

  /** Where two parsers both accept, they agree, so the order of the chain never
      changes a parsed value, only which texts are accepted. */
  lemma {:induction false} IsoAndFractionAgree(s: string)
    requires ParseIso(s).Some? && ParseWithFraction(s).Some?
    ensures ParseIso(s) == ParseWithFraction(s)
  {
    assert Pow10(3) == 1000;
  }

  /** The chain fails exactly when neither the strict parser nor the fraction parser accepts. */
  lemma {:induction false} ParseFailsIff(s: string)
    ensures ParseLastActive(s).Err? <==> ParseIso(s).None? && ParseWithFraction(s).None?
  {
    if ParsePlain(s).Some? {
      PlainSubsumedByIso(s);
    }
  }

  /** A fraction of 1, 2, 4 or 5 digits is never ISO here: such a text is decided
      by strptime with %f alone. */
  lemma ShortFractionsFallToStrptime(s: string)
    requires |s| == 21 || |s| == 22 || |s| == 24 || |s| == 25
    ensures ParseIso(s).None?
    ensures ParseLastActive(s) == if ParseWithFraction(s).Some? then Ok(ParseWithFraction(s).value) else Err(Malformed(s))
  {
  }

  /** A 'T' with a one-digit fraction matches none of the three formats, and the listing raises. */
  lemma NoParserExample()
    ensures ParseLastActive("2024-05-01T12:00:05.5") == Err(Malformed("2024-05-01T12:00:05.5"))
  {
    var s := "2024-05-01T12:00:05.5";
    assert s[19..] == ".5" && s[10] == 'T';
  }
}
