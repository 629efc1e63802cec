/** The camera clock record: year (2 bytes), month, day, hour, minute, second, weekday. */
module RcpClock {
  import opened Wrappers
  import opened Bytes

  datatype DateTime = DateTime(year: nat, month: nat, day: nat, hour: nat, minute: nat, second: nat)

  predicate IsLeap(y: nat) { y % 4 == 0 && (y % 100 != 0 || y % 400 == 0) }

  function DaysInMonth(y: nat, m: nat): (n: nat)
    ensures 28 <= n <= 31
  {
    if m == 2 then (if IsLeap(y) then 29 else 28)
    else if m == 4 || m == 6 || m == 9 || m == 11 then 30
    else 31
  }

  /** The proleptic Gregorian dates and times `datetime` accepts. */
  predicate IsReal(t: DateTime) {
    && 1 <= t.year <= 9999 && 1 <= t.month <= 12 && 1 <= t.day <= DaysInMonth(t.year, t.month)
    && t.hour < 24 && t.minute < 60 && t.second < 60
  }

  // ---- Seconds, counted month by month and year by year ----

  function DaysBeforeYear(y: nat): nat {
    if y <= 1 then 0 else DaysBeforeYear(y - 1) + if IsLeap(y - 1) then 366 else 365
  }

  function DaysBeforeMonth(y: nat, m: nat): nat {
    if m <= 1 then 0 else DaysBeforeMonth(y, m - 1) + DaysInMonth(y, m - 1)
  }

  function Days(t: DateTime): nat {
    DaysBeforeYear(t.year) + DaysBeforeMonth(t.year, t.month) + t.day
  }

  /** Seconds since the start of year 1; offsets from a server time are differences of these. */
  function Seconds(t: DateTime): nat {
    ((Days(t) * 24 + t.hour) * 60 + t.minute) * 60 + t.second
  }

  // ---- The decoder ----

  function Fields(raw: seq<byte>): DateTime
    requires |raw| >= 7
  {
    DateTime(Word16(raw[..2]), raw[2], raw[3], raw[4], raw[5], raw[6])
  }

  /** The clock branch on a payload of at least 8 bytes: field ranges first, then `datetime`. */
  function DecodeClock(raw: seq<byte>): Option<DateTime>
    requires |raw| >= 8
  {
    var t := Fields(raw);
    if 1970 <= t.year <= 2100 && 1 <= t.month <= 12 && 1 <= t.day <= 31
       && 0 <= t.hour <= 23 && 0 <= t.minute <= 59 && 0 <= t.second <= 59 then
      if IsReal(t) then Some(t) else None
    else None
  }

  /** Strict lexicographic order of byte strings of one length. */
  predicate LexLess(a: seq<byte>, b: seq<byte>)
    requires |a| == |b|
  {
    |a| > 0 && (a[0] < b[0] || (a[0] == b[0] && LexLess(a[1..], b[1..])))
  }

  predicate Before(a: DateTime, b: DateTime) {
    || a.year < b.year
    || (a.year == b.year && (
          || a.month < b.month
          || (a.month == b.month && (
                || a.day < b.day
                || (a.day == b.day && (
                      || a.hour < b.hour
                      || (a.hour == b.hour && (
                            || a.minute < b.minute
                            || (a.minute == b.minute && a.second < b.second)))))))))
  }

  lemma {:induction false} YearsGrow(a: nat, b: nat)
    requires 1 <= a < b
    ensures DaysBeforeYear(a) + (if IsLeap(a) then 366 else 365) <= DaysBeforeYear(b)
  {
    if a < b - 1 { YearsGrow(a, b - 1); }
  }

  lemma {:induction false} MonthsGrow(y: nat, a: nat, b: nat)
    requires 1 <= a < b
    ensures DaysBeforeMonth(y, a) + DaysInMonth(y, a) <= DaysBeforeMonth(y, b)
  {
    if a < b - 1 { MonthsGrow(y, a, b - 1); }
  }

  lemma YearLength(y: nat)
    ensures DaysBeforeMonth(y, 13) == if IsLeap(y) then 366 else 365
  {
    assert DaysBeforeMonth(y, 2) == 31;
    assert DaysBeforeMonth(y, 3) == 31 + DaysInMonth(y, 2);
    assert DaysBeforeMonth(y, 5) == DaysBeforeMonth(y, 3) + 61;
    assert DaysBeforeMonth(y, 7) == DaysBeforeMonth(y, 5) + 61;
    assert DaysBeforeMonth(y, 9) == DaysBeforeMonth(y, 7) + 62;
    assert DaysBeforeMonth(y, 11) == DaysBeforeMonth(y, 9) + 61;
  }

  lemma DayOfYearFits(t: DateTime)
    requires IsReal(t)
    ensures 1 <= DaysBeforeMonth(t.year, t.month) + t.day <= if IsLeap(t.year) then 366 else 365
  {
    MonthsGrow(t.year, t.month, 13);
    YearLength(t.year);
  }

  lemma DaysFollowDates(a: DateTime, b: DateTime)
    requires IsReal(a) && IsReal(b)
    requires a.year < b.year || (a.year == b.year && (a.month < b.month || (a.month == b.month && a.day < b.day)))
    ensures Days(a) < Days(b)
  {
    DayOfYearFits(a);
    DayOfYearFits(b);
    if a.year < b.year {
      YearsGrow(a.year, b.year);
    } else if a.month < b.month {
      MonthsGrow(a.year, a.month, b.month);
    }
  }

  lemma SecondsFollowOrder(a: DateTime, b: DateTime)
    requires IsReal(a) && IsReal(b) && Before(a, b)
    ensures Seconds(a) < Seconds(b)
  {
    if a.year != b.year || a.month != b.month || a.day != b.day {
      DaysFollowDates(a, b);
    }
  }

  lemma BytesOrderIsFieldOrder(a: seq<byte>, b: seq<byte>)
    requires |a| >= 7 && |b| >= 7
    ensures LexLess(a[..7], b[..7]) <==> Before(Fields(a), Fields(b))
  {
    var x, y := a[..7], b[..7];
    assert LexLess(x[6..], y[6..]) <==> a[6] < b[6];
    LexUnfold(x[5..], y[5..]);
    LexUnfold(x[4..], y[4..]);
    LexUnfold(x[3..], y[3..]);
    LexUnfold(x[2..], y[2..]);
    LexUnfold(x[1..], y[1..]);
    LexUnfold(x, y);
    assert x[5..][1..] == x[6..] && x[4..][1..] == x[5..] && x[3..][1..] == x[4..]
      && x[2..][1..] == x[3..] && x[1..][1..] == x[2..];
    assert y[5..][1..] == y[6..] && y[4..][1..] == y[5..] && y[3..][1..] == y[4..]
      && y[2..][1..] == y[3..] && y[1..][1..] == y[2..];
  }

  lemma LexUnfold(a: seq<byte>, b: seq<byte>)
    requires |a| == |b| > 0
    ensures LexLess(a, b) <==> a[0] < b[0] || (a[0] == b[0] && LexLess(a[1..], b[1..]))
  {
  }

  /**
   The clock branch accepts exactly the payloads whose first seven bytes are a real date
   and time of the years 1970 to 2100.
   */
  lemma ClockAcceptsRealDates(raw: seq<byte>)
    requires |raw| >= 8
    ensures DecodeClock(raw).Some? <==> IsReal(Fields(raw)) && 1970 <= Fields(raw).year <= 2100
    ensures DecodeClock(raw).Some? ==> DecodeClock(raw).value == Fields(raw)
  {
    assert DaysInMonth(Fields(raw).year, Fields(raw).month) <= 31;
  }

  /**
   For two accepted payloads the byte order of the first seven bytes is the strict order
   of the offsets at any one server time, whatever the weekday and trailing bytes.
   */
  lemma ClockOrder(a: seq<byte>, b: seq<byte>, server: real)
    requires |a| >= 8 && |b| >= 8 && DecodeClock(a).Some? && DecodeClock(b).Some?
    ensures LexLess(a[..7], b[..7]) <==>
            Seconds(DecodeClock(a).value) as real - server < Seconds(DecodeClock(b).value) as real - server
  {
    var x, y := Fields(a), Fields(b);
    BytesOrderIsFieldOrder(a, b);
    if Before(x, y) {
      SecondsFollowOrder(x, y);
    } else if Before(y, x) {
      SecondsFollowOrder(y, x);
    } else {
      assert x == y;
    }
  }
}
