/** Go's `time.Parse` for the one layout the query service uses,
    "2006-01-02 15:04:05", which carries no zone and so reads as UTC, and
    `Time.Unix()` of the result: whole seconds since 1970-01-01 00:00:00 UTC
    in the proleptic Gregorian calendar. */
module TimeLayout {
  import opened Errors
  import opened GoStrings

  /** A calendar date and a time of day, as the layout spells them out. */
  datatype DateTime = DateTime(year: int, month: int, day: int, hour: int, minute: int, second: int)

  predicate IsLeap(year: int)
  {
    year % 4 == 0 && (year % 100 != 0 || year % 400 == 0)
  }

  function YearLength(year: int): int
  {
    if IsLeap(year) then 366 else 365
  }

  /** Go's `daysIn(month, year)`. */
  function DaysIn(month: int, year: int): int
  {
    if month == 2 then (if IsLeap(year) then 29 else 28)
    else if month == 4 || month == 6 || month == 9 || month == 11 then 30
    else 31
  }

  /** The values the layout can produce: a four-digit year, a real day of
      its month, and a time of day. */
  predicate Valid(d: DateTime)
  {
    0 <= d.year <= 9999 && 1 <= d.month <= 12 && 1 <= d.day <= DaysIn(d.month, d.year)
    && 0 <= d.hour < 24 && 0 <= d.minute < 60 && 0 <= d.second < 60
  }

  // ---------------------------------------------------------------------------
  // The calendar: days and seconds since the Unix epoch

  /** Days from 0000-01-01 to the first day of `year`: 365 per year plus
      one per leap year before it. */
  function DaysBeforeYear(year: nat): int
  {
    365 * year + (year + 3) / 4 - (year + 99) / 100 + (year + 399) / 400
  }

  /** Days from the first of January to the first day of `month`. */
  function DaysBeforeMonth(month: int, year: int): int
    requires 1 <= month <= 12
  {
    [0, 31, 59, 90, 120, 151, 181, 212, 243, 273, 304, 334][month - 1]
    + (if month > 2 && IsLeap(year) then 1 else 0)
  }

  /** Days from 0000-01-01 to 1970-01-01. */
  const EpochDays := 719528

  const SecondsPerDay := 86400

  /** Days from 0000-01-01 to the date of `d`. */
  function DayNumber(d: DateTime): int
    requires Valid(d)
  {
    DaysBeforeYear(d.year) + DaysBeforeMonth(d.month, d.year) + d.day - 1
  }

  /** Seconds into the day of `d`. */
  function SecondOfDay(d: DateTime): int
  {
    d.hour * 3600 + d.minute * 60 + d.second
  }

  /** `Time.Unix()` of the UTC time `d`. */
  function UnixSeconds(d: DateTime): int
    requires Valid(d)
  {
    (DayNumber(d) - EpochDays) * SecondsPerDay + SecondOfDay(d)
  }

  /** The Unix epoch, 1970-01-01 00:00:00, is second zero. */
  lemma EpochIsZero()
    ensures UnixSeconds(DateTime(1970, 1, 1, 0, 0, 0)) == 0
  {
    EpochDaysAgree();
    assert DaysBeforeMonth(1, 1970) == 0;
  }

  lemma EpochDaysAgree()
    ensures DaysBeforeYear(1970) == EpochDays
  {
  }

  /** A year adds its own length to the day count. */
  lemma YearStep(year: nat)
    ensures DaysBeforeYear(year + 1) == DaysBeforeYear(year) + YearLength(year)
  {
    LeapCount(year);
  }

  /** Between `year` and `year + 1` the count of leap years grows by one
      exactly when `year` is a leap year. */
  lemma LeapCount(year: nat)
    ensures ((year + 4) / 4 - (year + 3) / 4) - ((year + 100) / 100 - (year + 99) / 100)
            + ((year + 400) / 400 - (year + 399) / 400) == if IsLeap(year) then 1 else 0
  {
    CountStep4(year);
    CountStep100(year);
    CountStep400(year);
    if year % 400 == 0 {
      Divides400(year);
      Divides100(year);
    } else if year % 100 == 0 {
      Divides100(year);
    }
  }

  /** A century year is a multiple of four. */
  lemma Divides100(year: nat)
    requires year % 100 == 0
    ensures year % 4 == 0
  {
    var r := year % 4;
    assert year == 100 * (year / 100);
    assert year == 4 * (year / 4) + r;
    assert r == 4 * (25 * (year / 100) - year / 4);
  }

  /** A multiple of 400 is a century year. */
  lemma Divides400(year: nat)
    requires year % 400 == 0
    ensures year % 100 == 0
  {
    var r := year % 100;
    assert year == 400 * (year / 400);
    assert year == 100 * (year / 100) + r;
    assert r == 100 * (4 * (year / 400) - year / 100);
  }

  /** The multiples of 4, 100 and 400 counted by `DaysBeforeYear` grow by
      one exactly at a multiple. */
  lemma CountStep4(year: nat)
    ensures (year + 4) / 4 == (year + 3) / 4 + (if year % 4 == 0 then 1 else 0)
  {
  }

  lemma CountStep100(year: nat)
    ensures (year + 100) / 100 == (year + 99) / 100 + (if year % 100 == 0 then 1 else 0)
  {
  }

  lemma CountStep400(year: nat)
    ensures (year + 400) / 400 == (year + 399) / 400 + (if year % 400 == 0 then 1 else 0)
  {
  }

  /** A month adds its own length to the day count, and December ends the year. */
  lemma MonthStep(month: int, year: int)
    requires 1 <= month <= 12
    ensures month < 12 ==> DaysBeforeMonth(month + 1, year) == DaysBeforeMonth(month, year) + DaysIn(month, year)
    ensures month == 12 ==> DaysBeforeMonth(month, year) + DaysIn(month, year) == YearLength(year)
  {
  }

  lemma {:induction false} YearsAdvance(y1: nat, y2: nat)
    requires y1 < y2
    ensures DaysBeforeYear(y1) + YearLength(y1) <= DaysBeforeYear(y2)
    decreases y2 - y1
  {
    YearStep(y1);
    if y1 + 1 < y2 {
      YearsAdvance(y1 + 1, y2);
    }
  }

  lemma {:induction false} MonthsAdvance(m1: int, m2: int, year: int)
    requires 1 <= m1 < m2 <= 12
    ensures DaysBeforeMonth(m1, year) + DaysIn(m1, year) <= DaysBeforeMonth(m2, year)
    decreases m2 - m1
  {
    MonthStep(m1, year);
    if m1 + 1 < m2 {
      MonthsAdvance(m1 + 1, m2, year);
    }
  }

  /** Every date lies within its year. */
  lemma DayWithinYear(d: DateTime)
    requires Valid(d)
    ensures DaysBeforeYear(d.year) <= DayNumber(d) < DaysBeforeYear(d.year) + YearLength(d.year)
  {
    if d.month < 12 {
      MonthsAdvance(d.month, 12, d.year);
    }
    MonthStep(12, d.year);
  }

  /** Calendar order of dates: year, then month, then day. */
  predicate DateBefore(a: DateTime, b: DateTime)
  {
    a.year < b.year
    || (a.year == b.year && (a.month < b.month || (a.month == b.month && a.day < b.day)))
  }

  /** Calendar order of instants: the date, then the time of day. */
  predicate Before(a: DateTime, b: DateTime)
  {
    DateBefore(a, b)
    || ((a.year, a.month, a.day) == (b.year, b.month, b.day)
        && (a.hour < b.hour || (a.hour == b.hour && (a.minute < b.minute
            || (a.minute == b.minute && a.second < b.second)))))
  }

  /** Later dates have larger day numbers. */
  lemma DayNumberMonotone(a: DateTime, b: DateTime)
    requires Valid(a) && Valid(b) && DateBefore(a, b)
    ensures DayNumber(a) < DayNumber(b)
  {
    if a.year < b.year {
      DayWithinYear(a);
      DayWithinYear(b);
      YearsAdvance(a.year, b.year);
    } else if a.month < b.month {
      MonthsAdvance(a.month, b.month, a.year);
    }
  }

  /** `Unix()` is strictly increasing in calendar order. */
  lemma UnixMonotone(a: DateTime, b: DateTime)
    requires Valid(a) && Valid(b) && Before(a, b)
    ensures UnixSeconds(a) < UnixSeconds(b)
  {
    if DateBefore(a, b) {
      DayNumberMonotone(a, b);
      assert DayNumber(a) - EpochDays + 1 <= DayNumber(b) - EpochDays;
      assert SecondOfDay(a) < SecondsPerDay;
      assert (DayNumber(a) - EpochDays) * SecondsPerDay + SecondsPerDay
          <= (DayNumber(b) - EpochDays) * SecondsPerDay;
    }
  }

  /** Distinct instants have distinct Unix times. */
  lemma UnixInjective(a: DateTime, b: DateTime)
    requires Valid(a) && Valid(b) && UnixSeconds(a) == UnixSeconds(b)
    ensures a == b
  {
    if Before(a, b) {
      UnixMonotone(a, b);
    } else if Before(b, a) {
      UnixMonotone(b, a);
    }
  }

  // ---------------------------------------------------------------------------
  // Parsing the layout

  predicate IsDigit(c: char)
  {
    '0' <= c <= '9'
  }

  function DigitValue(c: char): int
  {
    c as int - '0' as int
  }

  /** A number read off the front of the text, and the text after it. */
  datatype Num = Num(n: int, rest: string)

  /** The `2006` element: exactly four digits. */
  function LongYear(s: string): (r: Option<Num>)
    ensures r.Some? ==> 0 <= r.value.n <= 9999
  {
    if |s| < 4 || !(IsDigit(s[0]) && IsDigit(s[1]) && IsDigit(s[2]) && IsDigit(s[3])) then None
    else Some(Num(1000 * DigitValue(s[0]) + 100 * DigitValue(s[1]) + 10 * DigitValue(s[2])
                  + DigitValue(s[3]), s[4..]))
  }

  /** Go's `getnum(s, fixed)`: one or two leading digits, exactly two when
      `fixed` (the `01`, `02`, `04` and `05` elements); `15` is not fixed. */
  function GetNum(s: string, fixed: bool): (r: Option<Num>)
    ensures r.Some? ==> 0 <= r.value.n <= 99
  {
    if |s| == 0 || !IsDigit(s[0]) then None
    else if |s| == 1 || !IsDigit(s[1]) then
      if fixed then None else Some(Num(DigitValue(s[0]), s[1..]))
    else Some(Num(10 * DigitValue(s[0]) + DigitValue(s[1]), s[2..]))
  }

  /** A literal layout character other than a space matches itself. */
  function Literal(s: string, c: char): Option<string>
  {
    if |s| > 0 && s[0] == c then Some(s[1..]) else None
  }

  /** Go's `skip` for the space in the layout: it matches a run of spaces,
      and also the end of the text. */
  function Space(s: string): Option<string>
  {
    if |s| > 0 && s[0] != ' ' then None else Some(TrimLeft(s))
  }

  /** The number of leading digits. */
  function DigitRun(s: string): (n: nat)
    ensures n <= |s|
  {
    if |s| > 0 && IsDigit(s[0]) then 1 + DigitRun(s[1..]) else 0
  }

  /** After the `05` element Go also consumes a fractional second that the
      layout does not ask for: '.' or ',' and one or more digits. It only sets
      the nanoseconds, which `Unix()` drops. */
  function FractionalSecond(s: string): string
  {
    if |s| >= 2 && (s[0] == '.' || s[0] == ',') && IsDigit(s[1]) then s[1 + DigitRun(s[1..])..]
    else s
  }

  /** `time.Parse("2006-01-02 15:04:05", value)`: None for any parse error,
      range error, impossible day or trailing text. */
  function Parse(value: string): (r: Option<DateTime>)
    ensures r.Some? ==> Valid(r.value)
  {
    var year :- LongYear(value);
    var afterYear :- Literal(year.rest, '-');
    var month :- GetNum(afterYear, true);
    var afterMonth :- Literal(month.rest, '-');
    var day :- GetNum(afterMonth, true);
    var afterDay :- Space(day.rest);
    var hour :- GetNum(afterDay, false);
    var afterHour :- Literal(hour.rest, ':');
    var minute :- GetNum(afterHour, true);
    var afterMinute :- Literal(minute.rest, ':');
    var second :- GetNum(afterMinute, true);
    var d := DateTime(year.n, month.n, day.n, hour.n, minute.n, second.n);
    if FractionalSecond(second.rest) != [] || !Valid(d) then None else Some(d)
  }

  /** The Unix seconds of a query operand, or None when it does not parse. */
  function ParseUnix(value: string): Option<int>
  {
    match Parse(value)
    case None => None
    case Some(d) => Some(UnixSeconds(d))
  }

  // ---------------------------------------------------------------------------
  // Formatting, the inverse of parsing

  function DigitChar(n: int): (c: char)
    requires 0 <= n <= 9
    ensures IsDigit(c) && DigitValue(c) == n
  {
    ('0' as int + n) as char
  }

  function Pad2(n: int): string
    requires 0 <= n <= 99
  {
    [DigitChar(n / 10), DigitChar(n % 10)]
  }

  function Pad4(n: int): string
    requires 0 <= n <= 9999
  {
    [DigitChar(n / 1000), DigitChar(n / 100 % 10), DigitChar(n / 10 % 10), DigitChar(n % 10)]
  }

  /** `t.Format("2006-01-02 15:04:05")` */
  function Format(d: DateTime): string
    requires Valid(d)
  {
    Pad4(d.year) + ("-" + (Pad2(d.month) + ("-" + (Pad2(d.day) + (" " + (Pad2(d.hour)
    + (":" + (Pad2(d.minute) + (":" + Pad2(d.second))))))))))
  }

  lemma LongYearPad4(n: int, rest: string)
    requires 0 <= n <= 9999
    ensures LongYear(Pad4(n) + rest) == Some(Num(n, rest))
  {
    var s := Pad4(n) + rest;
    assert s[4..] == rest;
    assert n / 10 == 10 * (n / 100) + n / 10 % 10;
    assert n / 100 == 10 * (n / 1000) + n / 100 % 10;
    assert n == 10 * (n / 10) + n % 10;
  }

  lemma GetNumPad2(n: int, rest: string, fixed: bool)
    requires 0 <= n <= 99
    ensures GetNum(Pad2(n) + rest, fixed) == Some(Num(n, rest))
  {
    var s := Pad2(n) + rest;
    assert s[2..] == rest;
  }

  lemma LiteralPrefix(c: char, rest: string)
    ensures Literal([c] + rest, c) == Some(rest)
  {
    assert ([c] + rest)[1..] == rest;
  }

  lemma SpaceBeforeDigit(rest: string)
    requires |rest| > 0 && IsDigit(rest[0])
    ensures Space(" " + rest) == Some(rest)
  {
    TrimLeftPadded(" ", rest);
  }

  /** Parsing a formatted instant gives it back. */
  lemma ParseFormat(d: DateTime)
    requires Valid(d)
    ensures Parse(Format(d)) == Some(d)
  {
    var sec := Pad2(d.second);
    var t5 := ":" + sec;
    var t4 := Pad2(d.minute) + t5;
    var t3 := ":" + t4;
    var t2 := Pad2(d.hour) + t3;
    var t1 := " " + t2;
    var t0 := Pad2(d.day) + t1;
    var u1 := "-" + t0;
    var u0 := Pad2(d.month) + u1;
    var v := "-" + u0;
    assert Format(d) == Pad4(d.year) + v;
    LongYearPad4(d.year, v);
    LiteralPrefix('-', u0);
    GetNumPad2(d.month, u1, true);
    LiteralPrefix('-', t0);
    GetNumPad2(d.day, t1, true);
    SpaceBeforeDigit(t2);
    GetNumPad2(d.hour, t3, false);
    LiteralPrefix(':', t4);
    GetNumPad2(d.minute, t5, true);
    LiteralPrefix(':', sec);
    assert sec == Pad2(d.second) + [];
    GetNumPad2(d.second, [], true);
  }

  /** Any valid instant, written in the layout, is read back as its own
      Unix seconds. */
  lemma ParseUnixFormat(d: DateTime)
    requires Valid(d)
    ensures ParseUnix(Format(d)) == Some(UnixSeconds(d))
  {
    ParseFormat(d);
  }

  /** Two operands that parse compare as Unix seconds exactly as the
      instants they name compare in calendar order, and give the same
      seconds exactly when they name the same instant. */
  lemma ParseUnixOrder(a: string, b: string)
    requires ParseUnix(a).Some? && ParseUnix(b).Some?
    ensures ParseUnix(a).value < ParseUnix(b).value <==> Before(Parse(a).value, Parse(b).value)
    ensures ParseUnix(a) == ParseUnix(b) <==> Parse(a) == Parse(b)
  {
    UnixOrder(Parse(a).value, Parse(b).value);
  }

  /** Unix seconds order valid instants exactly as the calendar does. */
  lemma UnixOrder(x: DateTime, y: DateTime)
    requires Valid(x) && Valid(y)
    ensures UnixSeconds(x) < UnixSeconds(y) <==> Before(x, y)
    ensures UnixSeconds(x) == UnixSeconds(y) <==> x == y
  {
    if Before(x, y) {
      UnixMonotone(x, y);
    } else if Before(y, x) {
      UnixMonotone(y, x);
    } else {
      assert x == y;
    }
  }

  /** What every formatted instant looks like: nineteen characters, starting
      and ending with a digit, with no letter in it. */
  lemma FormatShape(d: DateTime)
    requires Valid(d)
    ensures |Format(d)| == 19
    ensures IsDigit(Format(d)[0]) && IsDigit(Format(d)[18])
    ensures forall k :: 0 <= k < 19 ==> IsDigit(Format(d)[k]) || Format(d)[k] in "-: "
  {
  }
}
