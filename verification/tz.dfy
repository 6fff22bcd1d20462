/**
 * The time layer of `src/lib/tz.ts`.
 *
 * Instants are whole minutes since 1970-01-01T00:00Z. The store's zone
 * (Europe/Lisbon) is an abstract offset function `off`: `off(t)` is the number
 * of minutes local wall-clock time is ahead of UTC at instant `t`, which is
 * what `tzOffsetMinutes` derives from `Intl.DateTimeFormat`.
 */
module Tz {
  import opened Results
  import opened JsText

  const MinutesPerDay := 1440

  /** A half-open span of instants `[start, end)`. */
  datatype Range = Range(start: int, end: int)

  /** Civil fields as `split(...).map(Number)` yields them (month is 1-based). */
  datatype CivilDate = CivilDate(year: int, month: int, day: int)

  /** `Date.UTC` reads a year in 0..99 as 1900..1999. */
  function FullYear(y: int): int {
    if 0 <= y <= 99 then 1900 + y else y
  }

  /** Days from 1970-01-01 to the given proleptic-Gregorian date (month 1..12, any day). */
  function DaysFromCivil(y: int, m: int, d: int): int
    requires 1 <= m <= 12
  {
    var yy := if m <= 2 then y - 1 else y;
    var mp := if m > 2 then m - 3 else m + 9;
    var doy := (153 * mp + 2) / 5 + d - 1;
    MarchFirst(yy) + doy
  }

  /**
   * Day number of 1 March of year `yy`: the algorithm counts years from March so
   * that the leap day falls at the end; `era` is the 400-year cycle, `yoe` the year in it.
   */
  function MarchFirst(yy: int): int {
    CycleDays(yy / 400, yy % 400)
  }

  function CycleDays(era: int, yoe: int): int {
    era * 146097 + yoe * 365 + yoe / 4 - yoe / 100 - 719468
  }

  predicate IsLeapYear(y: int) {
    y % 4 == 0 && (y % 100 != 0 || y % 400 == 0)
  }

  /** The Gregorian month lengths: an independent description of the calendar. */
  function DaysInMonth(y: int, m: int): int
    requires 1 <= m <= 12
  {
    if m == 2 then (if IsLeapYear(y) then 29 else 28)
    else if m == 4 || m == 6 || m == 9 || m == 11 then 30
    else 31
  }

  /**
   * ECMAScript MakeDay: a month index outside 0..11 carries into the year
   * (floor division), and the day of month is added as an offset, so
   * out-of-range months and days roll over instead of failing.
   */
  function MakeDay(year: int, monthIndex: int, date: int): int {
    var ym := year + monthIndex / 12;
    var mn := monthIndex % 12;
    DaysFromCivil(ym, mn + 1, 1) + date - 1
  }

  /** The day number `Date.UTC` assigns to the civil fields. */
  function DayNumber(c: CivilDate): int {
    MakeDay(FullYear(c.year), c.month - 1, c.day)
  }

  /** `Date.UTC(y, m - 1, d, hh, mm, 0)` in minutes. */
  function DateUtc(c: CivilDate, hh: int, mm: int): int {
    DayNumber(c) * MinutesPerDay + hh * 60 + mm
  }

  /** `dateISO.split("-").map(Number)` destructured into `[y, m, d]`; None when a field is NaN or missing. */
  function ParseDate(dateISO: string): Option<CivilDate> {
    DateFields(Split(dateISO, '-'))
  }

  function DateFields(f: seq<string>): Option<CivilDate> {
    if |f| < 3 then None
    else
      match (JsNumber(f[0]), JsNumber(f[1]), JsNumber(f[2]))
      case (Some(y), Some(m), Some(d)) => Some(CivilDate(y, m, d))
      case _ => None
  }

  /** `hhmm.split(":").map(Number)` destructured into `[hh, mm]`, as minutes past midnight. */
  function ParseClock(hhmm: string): Option<int> {
    ClockFields(Split(hhmm, ':'))
  }

  function ClockFields(f: seq<string>): Option<int> {
    if |f| < 2 then None
    else
      match (JsNumber(f[0]), JsNumber(f[1]))
      case (Some(hh), Some(mm)) => Some(hh * 60 + mm)
      case _ => None
  }

  /** The initial guess of `lisbonLocalToUtc`: the civil date and time read as if they were UTC. */
  function LocalAsUtc(dateISO: string, hhmm: string): Option<int> {
    Guess(ParseDate(dateISO), ParseClock(hhmm))
  }

  function Guess(date: Option<CivilDate>, clock: Option<int>): Option<int> {
    match (date, clock)
    case (Some(c), Some(t)) => Some(DateUtc(c, 0, t))
    case _ => None
  }

  /** The message of the RangeError that formatting an Invalid Date throws; the routes answer it with a 500. */
  const InvalidTimeValue := "Invalid time value"

  /**
   * `lisbonLocalToUtc`: two passes of "utc = local - offset", the second taking
   * the offset at the instant the first pass produced. None stands for the
   * RangeError that formatting an Invalid Date throws when a field is NaN.
   */
  function LocalToUtc(off: int -> int, dateISO: string, hhmm: string): (r: Option<int>)
    ensures r.Some? <==> LocalAsUtc(dateISO, hhmm).Some?
  {
    match LocalAsUtc(dateISO, hhmm)
    case None => None
    case Some(guess) => Some(TwoPass(off, guess))
  }

  /** The two passes applied to the naive guess. */
  function TwoPass(off: int -> int, guess: int): int {
    var offset := off(guess);
    var utc := guess - offset;
    var offset2 := off(utc);
    guess - offset2
  }

  /** `lisbonDayRangeUtc`: from local 00:00 to local 23:59 of the date (not to the next midnight). */
  function DayRangeUtc(off: int -> int, dateISO: string): (r: Option<Range>)
    ensures r.Some? <==> ParseDate(dateISO).Some?
  {
    MidnightClock();
    LastMinuteClock();
    match (LocalToUtc(off, dateISO, "00:00"), LocalToUtc(off, dateISO, "23:59"))
    case (Some(s), Some(e)) => Some(Range(s, e))
    case _ => None
  }

  /** `addMinutes`. */
  function AddMinutes(d: int, mins: int): (r: int)
    ensures r - d == mins
    ensures mins > 0 ==> r > d
    ensures mins == 0 ==> r == d
  {
    d + mins
  }

  lemma AddMinutesComposes(d: int, x: int, y: int)
    ensures AddMinutes(AddMinutes(d, x), y) == AddMinutes(d, x + y)
  {
  }

  lemma AddMinutesMonotone(d: int, e: int, mins: int)
    ensures d < e <==> AddMinutes(d, mins) < AddMinutes(e, mins)
  {
  }

  /** Minute `t` lies in the half-open span `[start, end)`. */
  predicate InSpan(t: int, start: int, end: int) {
    start <= t < end
  }

  /**
   * `overlaps`: strict comparisons, so spans that only touch do not overlap.
   * For non-empty spans it is exactly "some minute lies in both".
   */
  function Overlaps(aStart: int, aEnd: int, bStart: int, bEnd: int): (r: bool)
    ensures aEnd == bStart || bEnd == aStart ==> !r
    ensures aStart <= bStart < bEnd <= aEnd ==> r
    ensures aStart < aEnd && bStart < bEnd ==>
      (r <==> exists t :: InSpan(t, aStart, aEnd) && InSpan(t, bStart, bEnd))
  {
    CommonMinute(aStart, aEnd, bStart, bEnd);
    aStart < bEnd && aEnd > bStart
  }

  /** The later start is a witness minute common to two overlapping non-empty spans. */
  lemma CommonMinute(aStart: int, aEnd: int, bStart: int, bEnd: int)
    ensures aStart < aEnd && bStart < bEnd && aStart < bEnd && aEnd > bStart ==>
      exists t :: InSpan(t, aStart, aEnd) && InSpan(t, bStart, bEnd)
  {
    var t := if aStart < bStart then bStart else aStart;
    if aStart < aEnd && bStart < bEnd && aStart < bEnd && aEnd > bStart {
      assert InSpan(t, aStart, aEnd) && InSpan(t, bStart, bEnd);
    }
  }

  lemma OverlapsSymmetric(aStart: int, aEnd: int, bStart: int, bEnd: int)
    ensures Overlaps(aStart, aEnd, bStart, bEnd) == Overlaps(bStart, bEnd, aStart, aEnd)
  {
  }

  /** `Date.prototype.getUTCDay`: 0 is Sunday; 1970-01-01 was a Thursday. */
  function UtcWeekday(t: int): (w: int)
    ensures 0 <= w < 7
  {
    (t / MinutesPerDay + 4) % 7
  }

  /** The weekday of a civil date, computed from its day number. */
  function CivilWeekday(c: CivilDate): (w: int)
    ensures 0 <= w < 7
  {
    (DayNumber(c) + 4) % 7
  }

  /** Zero-padded `HH:MM` of an hour and a minute. */
  function FormatClock(h: int, mi: int): (r: string)
    requires 0 <= h < 24 && 0 <= mi < 60
    ensures |r| == 5 && r[2] == ':'
    ensures ParseClock(r) == Some(h * 60 + mi)
  {
    PaddedClockReadsBack(h, mi);
    Pad2(h) + [':'] + Pad2(mi)
  }

  /** Zero-padded `HH:MM` of a minute of the day. */
  function FormatHHMM(minuteOfDay: int): (r: string)
    requires 0 <= minuteOfDay < MinutesPerDay
    ensures |r| == 5 && r[2] == ':'
    ensures ParseClock(r) == Some(minuteOfDay)
  {
    FormatMinute(minuteOfDay / 60, minuteOfDay % 60, minuteOfDay)
  }

  /** `FormatClock` of the hour and minute that make up `minuteOfDay`. */
  function FormatMinute(h: int, mi: int, minuteOfDay: int): (r: string)
    requires 0 <= h < 24 && 0 <= mi < 60 && minuteOfDay == h * 60 + mi
    ensures |r| == 5 && r[2] == ':'
    ensures ParseClock(r) == Some(minuteOfDay)
  {
    FormatClock(h, mi)
  }

  lemma PaddedClockReadsBack(a: int, b: int)
    requires 0 <= a < 24 && 0 <= b < 60
    ensures ParseClock(Pad2(a) + [':'] + Pad2(b)) == Some(a * 60 + b)
  {
    ParseClockOfDigits(Pad2(a), Pad2(b));
  }

  /** Reading back `HH:MM` built from two digit strings. */
  lemma ParseClockOfDigits(hh: string, mm: string)
    requires hh != "" && AllDigits(hh) && mm != "" && AllDigits(mm)
    ensures ParseClock(hh + [':'] + mm) == Some(DigitsValue(hh) * 60 + DigitsValue(mm))
  {
    SplitAtColon(hh, mm);
    ClockFieldsOfDigits(hh, mm);
  }

  lemma SplitAtColon(hh: string, mm: string)
    requires AllDigits(hh) && AllDigits(mm)
    ensures Split(hh + [':'] + mm, ':') == [hh, mm]
  {
    assert Join([hh, mm], ':') == hh + [':'] + mm;
    SplitJoin([hh, mm], ':');
  }

  lemma ClockFieldsOfDigits(hh: string, mm: string)
    requires hh != "" && AllDigits(hh) && mm != "" && AllDigits(mm)
    ensures ClockFields([hh, mm]) == Some(DigitsValue(hh) * 60 + DigitsValue(mm))
  {
    JsNumberOfDigits(hh);
    JsNumberOfDigits(mm);
  }

  /** The local `HH:MM` `Intl.DateTimeFormat` renders for instant `t` in the store's zone. */
  function LocalHHMM(off: int -> int, t: int): (r: string)
    ensures ParseClock(r) == Some((t + off(t)) % MinutesPerDay)
  {
    FormatHHMM((t + off(t)) % MinutesPerDay)
  }

  /** The local rendering of an instant whose local minute of the day is known. */
  lemma LocalHHMMAt(off: int -> int, t: int, m: int)
    requires (t + off(t)) % MinutesPerDay == m
    ensures 0 <= m < MinutesPerDay && LocalHHMM(off, t) == FormatHHMM(m)
  {
  }

  lemma MidnightClock()
    ensures ParseClock("00:00") == Some(0)
  {
    ClockLiteral("00:00", 0, 0);
  }

  lemma NoonClock()
    ensures ParseClock("12:00") == Some(720)
  {
    ClockLiteral("12:00", 12, 0);
  }

  lemma LastMinuteClock()
    ensures ParseClock("23:59") == Some(1439)
  {
    ClockLiteral("23:59", 23, 59);
  }

  lemma ClockLiteral(s: string, h: int, mi: int)
    requires 0 <= h < 24 && 0 <= mi < 60
    requires s == [DigitChar(h / 10), DigitChar(h % 10), ':', DigitChar(mi / 10), DigitChar(mi % 10)]
    ensures ParseClock(s) == Some(h * 60 + mi)
  {
    assert s == FormatClock(h, mi);
  }

  /** A zone whose offset never changes. */
  ghost predicate ConstantOffset(off: int -> int, k: int) {
    forall t :: off(t) == k
  }

  /** A zone with one offset change at instant `change`: `before` until then, `after` from then on. */
  ghost predicate SingleTransition(off: int -> int, change: int, before: int, after: int) {
    forall t :: off(t) == (if t < change then before else after)
  }

  /** With a fixed offset both passes agree: the result is the naive guess moved back by the offset. */
  lemma TwoPassConstant(off: int -> int, k: int, guess: int)
    requires ConstantOffset(off, k)
    ensures TwoPass(off, guess) == guess - k
  {
  }

  /**
   * "local = utc + offset": when the offset at the returned instant is the one
   * the second pass used, the returned instant shows the requested wall time.
   */
  lemma TwoPassRoundTrip(off: int -> int, guess: int)
    requires off(TwoPass(off, guess)) == off(guess - off(guess))
    ensures TwoPass(off, guess) + off(TwoPass(off, guess)) == guess
  {
  }

  /**
   * Across one offset change, in either direction and of any size, the two
   * passes find an instant showing the requested wall time whenever some
   * instant `u` shows it (a wall time skipped by a forward change has none).
   */
  lemma TwoPassFindsWallTime(off: int -> int, change: int, before: int, after: int, u: int)
    requires SingleTransition(off, change, before, after)
    ensures var r := TwoPass(off, u + off(u)); r + off(r) == u + off(u)
  {
    var g := u + off(u);
    var first := g - off(g);
    var r := g - off(first);
    assert TwoPass(off, g) == r;
    assert off(u) == (if u < change then before else after);
    assert off(g) == (if g < change then before else after);
    assert off(first) == (if first < change then before else after);
    assert off(r) == (if r < change then before else after);
  }

  /** Once the date and the clock have been read, the conversion is the two passes from their naive guess. */
  lemma LocalToUtcAt(off: int -> int, dateISO: string, hhmm: string, c: CivilDate, m: int)
    requires ParseDate(dateISO) == Some(c) && ParseClock(hhmm) == Some(m)
    ensures LocalToUtc(off, dateISO, hhmm) == Some(TwoPass(off, DateUtc(c, 0, m)))
  {
  }

  /** The day window of a readable date: the two passes from its 00:00 and from its 23:59. */
  lemma DayRangeAt(off: int -> int, dateISO: string, c: CivilDate)
    requires ParseDate(dateISO) == Some(c)
    ensures DayRangeUtc(off, dateISO) ==
      Some(Range(TwoPass(off, DateUtc(c, 0, 0)), TwoPass(off, DateUtc(c, 0, 1439))))
  {
    MidnightClock();
    LocalToUtcAt(off, dateISO, "00:00", c, 0);
    LastMinuteClock();
    LocalToUtcAt(off, dateISO, "23:59", c, 1439);
  }

  /**
   * With a fixed offset the day window runs from the date's local midnight to
   * its local 23:59, 1439 minutes later: one minute short of the next midnight.
   */
  lemma DayWindowConstant(off: int -> int, k: int, c: CivilDate)
    requires ConstantOffset(off, k)
    ensures TwoPass(off, DateUtc(c, 0, 0)) == DayNumber(c) * MinutesPerDay - k
    ensures TwoPass(off, DateUtc(c, 0, 1439)) - TwoPass(off, DateUtc(c, 0, 0)) == 1439
  {
    TwoPassConstant(off, k, DateUtc(c, 0, 0));
    TwoPassConstant(off, k, DateUtc(c, 0, 1439));
  }

  /** 1970-01-01 is day 0. */
  lemma CivilEpoch()
    ensures DaysFromCivil(1970, 1, 1) == 0
  {
  }

  /** The day number counts each month with its Gregorian length. */
  lemma CivilNextMonth(y: int, m: int)
    requires 1 <= m < 12
    ensures DaysFromCivil(y, m + 1, 1) == DaysFromCivil(y, m, 1) + DaysInMonth(y, m)
  {
    if m == 2 {
      FebruaryLength(y);
    }
  }

  /** From 1 February to 1 March: the only step where the algorithm's shifted year changes. */
  lemma FebruaryLength(y: int)
    ensures DaysFromCivil(y, 3, 1) - DaysFromCivil(y, 2, 1) == if IsLeapYear(y) then 29 else 28
  {
    assert DaysFromCivil(y, 3, 1) == MarchFirst(y);
    assert DaysFromCivil(y, 2, 1) == MarchFirst(y - 1) + 337;
    MarchYearLength(y);
  }

  /** The March-to-March year ending in year `y`'s February has 366 days exactly when `y` is a leap year. */
  lemma MarchYearLength(y: int)
    ensures MarchFirst(y) - MarchFirst(y - 1) == if IsLeapYear(y) then 366 else 365
  {
    Div400Step(y);
    Residues(y);
    if y % 400 == 0 {
      CycleWrap(y / 400);
    } else {
      CycleStep(y / 400, y % 400);
    }
  }

  lemma Div400Step(y: int)
    ensures y % 400 != 0 ==> (y - 1) / 400 == y / 400 && (y - 1) % 400 == y % 400 - 1
    ensures y % 400 == 0 ==> (y - 1) / 400 == y / 400 - 1 && (y - 1) % 400 == 399
  {
  }

  /** A year and its place in the 400-year cycle agree on divisibility by 4 and by 100. */
  lemma Residues(y: int)
    ensures y % 4 == (y % 400) % 4
    ensures y % 100 == (y % 400) % 100
  {
    var a := y / 400;
    var b := y % 400;
    assert y == 400 * a + b;
    Residue4(y, 100 * a, b);
    Residue100(y, 4 * a, b);
  }

  lemma Residue4(y: int, a: int, b: int)
    requires 0 <= b && y == 4 * a + b
    ensures y % 4 == b % 4
  {
    var c := b / 4;
    assert b == 4 * c + b % 4;
    assert y == 4 * (a + c) + b % 4;
  }

  lemma Residue100(y: int, a: int, b: int)
    requires 0 <= b && y == 100 * a + b
    ensures y % 100 == b % 100
  {
    var c := b / 100;
    assert b == 100 * c + b % 100;
    assert y == 100 * (a + c) + b % 100;
  }

  /** The last March-to-March year of a 400-year cycle is a leap year (it ends in a year divisible by 400). */
  lemma CycleWrap(era: int)
    ensures CycleDays(era, 0) - CycleDays(era - 1, 399) == 366
  {
  }

  lemma CycleStep(era: int, yoe: int)
    requires 1 <= yoe < 400
    ensures CycleDays(era, yoe) - CycleDays(era, yoe - 1) ==
      365 + (if yoe % 4 == 0 then 1 else 0) - (if yoe % 100 == 0 then 1 else 0)
  {
    YearOfEraStep(yoe);
  }

  lemma YearOfEraStep(a: int)
    requires 1 <= a < 400
    ensures a / 4 - (a - 1) / 4 == if a % 4 == 0 then 1 else 0
    ensures a / 100 - (a - 1) / 100 == if a % 100 == 0 then 1 else 0
  {
  }

  lemma CivilNextYear(y: int)
    ensures DaysFromCivil(y + 1, 1, 1) == DaysFromCivil(y, 12, 1) + 31
  {
  }

  /** The day of the month is a plain offset, so day 0 or day 32 roll into the neighbouring month. */
  lemma CivilDayOffset(y: int, m: int, d: int)
    requires 1 <= m <= 12
    ensures DaysFromCivil(y, m, d) == DaysFromCivil(y, m, 1) + d - 1
  {
  }

  /** MakeDay carries whole years out of the month index. */
  lemma MakeDayCarriesYears(year: int, monthIndex: int, date: int)
    ensures MakeDay(year, monthIndex + 12, date) == MakeDay(year + 1, monthIndex, date)
  {
  }

  /**
   * The availability route's weekday: the UTC weekday of local noon is the
   * civil weekday of the date as long as the offset stays within 12 hours.
   */
  lemma NoonWeekdayIsCivil(off: int -> int, k: int, c: CivilDate)
    requires ConstantOffset(off, k) && -720 < k <= 720
    ensures UtcWeekday(TwoPass(off, DateUtc(c, 0, 720))) == CivilWeekday(c)
  {
    TwoPassConstant(off, k, DateUtc(c, 0, 720));
    WholeDays(DayNumber(c), 720 - k);
  }

  /** A date at a minute of the day falls on that minute. */
  lemma DateUtcMinute(c: CivilDate, m: int)
    requires 0 <= m < MinutesPerDay
    ensures DateUtc(c, 0, m) % MinutesPerDay == m
  {
    WholeDays(DayNumber(c), m);
  }

  lemma WholeDays(day: int, minute: int)
    requires 0 <= minute < MinutesPerDay
    ensures (day * MinutesPerDay + minute) / MinutesPerDay == day
  {
  }
}
