/**
 Calendar arithmetic of the wall clock (kernel/rtc.c) and of the audit log's file
 names (format_log_filename in kernel/audit.c).

 The source turns a date into seconds with a year-by-year loop, and seconds into a
 date with closed-form divisions over 400-year eras.  Both are compared here with
 a third definition that neither uses: the day after a given day (NextDay).
 */
module Calendar {
  import opened Numerals

  datatype Date = Date(year: int, month: int, day: int)

  // ---------------------------------------------------------------------------
  // Reference calendar
  // ---------------------------------------------------------------------------

  predicate IsLeap(y: int) { y % 4 == 0 && (y % 100 != 0 || y % 400 == 0) }

  function DaysInMonth(y: int, m: int): int
    requires 1 <= m <= 12
  {
    if m == 2 then (if IsLeap(y) then 29 else 28)
    else if m in {4, 6, 9, 11} then 30 else 31
  }

  predicate ValidDate(d: Date) {
    1 <= d.month <= 12 && 1 <= d.day <= DaysInMonth(d.year, d.month)
  }

  function NextDay(d: Date): Date
    requires ValidDate(d)
  {
    if d.day < DaysInMonth(d.year, d.month) then d.(day := d.day + 1)
    else if d.month < 12 then Date(d.year, d.month + 1, 1)
    else Date(d.year + 1, 1, 1)
  }

  // The date n days after 1 January 1970, one day at a time.
  function DateAfter(n: nat): (d: Date)
    ensures ValidDate(d) && d.year >= 1970
  {
    if n == 0 then Date(1970, 1, 1) else NextDay(DateAfter(n - 1))
  }

  // ---------------------------------------------------------------------------
  // kernel/rtc.c: date to seconds
  // ---------------------------------------------------------------------------

  const DAYS_BEFORE_MONTH := [0, 31, 59, 90, 120, 151, 181, 212, 243, 273, 304, 334]

  // Days from 1 January 1970 to 1 January of year y.
  function DaysBeforeYear(y: int): nat
    decreases y
  {
    if y <= 1970 then 0 else DaysBeforeYear(y - 1) + if IsLeap(y - 1) then 366 else 365
  }

  function DayNumber(d: Date): int
    requires 1 <= d.month <= 12
  {
    DaysBeforeYear(d.year) + DAYS_BEFORE_MONTH[d.month - 1]
    + (if d.month > 2 && IsLeap(d.year) then 1 else 0) + (d.day - 1)
  }

  method CalendarToUnix(year: int, mon: int, day: int, hour: int, min: int, sec: int) returns (r: int)
    requires 1 <= mon <= 12
    ensures r == DayNumber(Date(year, mon, day)) * 86400 + hour * 3600 + min * 60 + sec
  {
    var days := 0;
    var y := 1970;
    while y < year
      invariant year <= 1970 ==> y == 1970
      invariant year > 1970 ==> y <= year
      invariant days == DaysBeforeYear(y)
    {
      days := days + if IsLeap(y) then 366 else 365;
      y := y + 1;
    }
    assert DaysBeforeYear(y) == DaysBeforeYear(year);
    days := days + DAYS_BEFORE_MONTH[mon - 1];
    if mon > 2 && IsLeap(year) {
      days := days + 1;
    }
    days := days + (day - 1);
    r := days * 86400 + hour * 3600 + min * 60 + sec;
  }

  // The loop numbers consecutive days consecutively.
  lemma {:induction false} DayNumberOfNextDay(d: Date)
    requires ValidDate(d) && d.year >= 1970
    ensures DayNumber(NextDay(d)) == DayNumber(d) + 1
  {
    var n := NextDay(d);
    if n.year != d.year {
      assert DaysBeforeYear(n.year) == DaysBeforeYear(d.year) + if IsLeap(d.year) then 366 else 365;
    }
  }

  lemma {:induction false} DaysBeforeYearMonotone(a: int, b: int)
    requires 1970 <= a < b
    ensures DaysBeforeYear(a) + (if IsLeap(a) then 366 else 365) <= DaysBeforeYear(b)
    decreases b
  {
    if a < b - 1 { DaysBeforeYearMonotone(a, b - 1); }
  }

  lemma DayOfYearRange(d: Date)
    requires ValidDate(d) && d.year >= 1970
    ensures 0 <= DayNumber(d) - DaysBeforeYear(d.year) < if IsLeap(d.year) then 366 else 365
  {
  }

  // Different valid dates have different numbers.
  lemma {:induction false} DayNumberInjective(a: Date, b: Date)
    requires ValidDate(a) && ValidDate(b) && a.year >= 1970 && b.year >= 1970
    requires DayNumber(a) == DayNumber(b)
    ensures a == b
  {
    DayOfYearRange(a);
    DayOfYearRange(b);
    if a.year < b.year { DaysBeforeYearMonotone(a.year, b.year); }
    if b.year < a.year { DaysBeforeYearMonotone(b.year, a.year); }
  }

  // ---------------------------------------------------------------------------
  // kernel/audit.c: days to date, by eras of 400 years starting in March
  // ---------------------------------------------------------------------------

  // C division: truncates toward zero.
  function TruncDiv(a: int, b: int): int
    requires b > 0
  {
    if a >= 0 then a / b else -((-a) / b)
  }

  function TruncRem(a: int, b: int): int
    requires b > 0
  {
    a - b * TruncDiv(a, b)
  }

  function YearOfEra(doe: int): int { (doe - doe / 1460 + doe / 36524 - doe / 146096) / 365 }

  function YearStart(yoe: int): int { 365 * yoe + yoe / 4 - yoe / 100 }

  function MonthIndex(doy: int): int { (5 * doy + 2) / 153 }

  function CivilFromDays(days: int): Date {
    var z := days + 719468;
    var era := TruncDiv(if z >= 0 then z else z - 146096, 146097);
    var doe := z - era * 146097;
    var yoe := YearOfEra(doe);
    var y := yoe + era * 400;
    var doy := doe - YearStart(yoe);
    var mp := MonthIndex(doy);
    var d := doy - (153 * mp + 2) / 5 + 1;
    var m := if mp < 10 then mp + 3 else mp - 9;
    Date(if m <= 2 then y + 1 else y, m, d)
  }

  lemma CenturyOf(c: int, r: int)
    requires 0 <= c <= 3 && 0 <= r <= 36524 && (r == 36524 ==> c == 3)
    ensures (36524 * c + r) / 36524 - (36524 * c + r) / 146096 == c
  {
  }

  lemma QuadOf(k: int, t: int)
    requires 0 <= t < 2920
    ensures (1460 * k + t) / 1460 == k + t / 1460
  {
  }

  lemma YearParts(c: int, q: int, s: int)
    requires 0 <= c && 0 <= q <= 24 && 0 <= s <= 3
    ensures (100 * c + 4 * q + s) / 4 == 25 * c + q && (100 * c + 4 * q + s) / 100 == c
  {
  }

  // The days of a 400-year era split into centuries (c), 4-year groups (q), years (s) and days.
  lemma {:induction false} YearOfEraOfParts(c: int, q: int, s: int, doy: int)
    requires 0 <= c <= 3 && 0 <= q <= 24 && 0 <= s <= 3 && 0 <= doy <= 365
    requires doy == 365 ==> s == 3 && (q < 24 || c == 3)
    ensures YearStart(100 * c + 4 * q + s) == 36524 * c + 1461 * q + 365 * s
    ensures YearOfEra(36524 * c + 1461 * q + 365 * s + doy) == 100 * c + 4 * q + s
  {
    var yoe := 100 * c + 4 * q + s;
    var r := 1461 * q + 365 * s + doy;
    var doe := 36524 * c + r;
    var t := 24 * c + q + 365 * s + doy;
    YearParts(c, q, s);
    CenturyOf(c, r);
    QuadOf(25 * c + q, t);
    assert doe == 1460 * (25 * c + q) + t;
    var over := t / 1460;
    assert doe - doe / 1460 + doe / 36524 - doe / 146096 == 365 * yoe + (doy - over);
    YearFrom(yoe, doy - over);
  }

  lemma YearFrom(y: int, day: int)
    requires 0 <= day <= 364
    ensures (365 * y + day) / 365 == y
  {
  }

  lemma {:induction false} YearOfEraBrackets(doe: int)
    requires 0 <= doe < 146097
    ensures 0 <= YearOfEra(doe) <= 399
    ensures YearStart(YearOfEra(doe)) <= doe
    ensures doe < if YearOfEra(doe) == 399 then 146097 else YearStart(YearOfEra(doe) + 1)
  {
    hide YearOfEra, YearStart;
    var c := if doe == 146096 then 3 else doe / 36524;
    var r := doe - 36524 * c;
    var q := r / 1461;
    var u := r - 1461 * q;
    var s := if u == 1460 then 3 else u / 365;
    YearOfEraOfParts(c, q, s, u - 365 * s);
    if YearOfEra(doe) < 399 {
      var y := YearOfEra(doe) + 1;
      if s < 3 { YearOfEraOfParts(c, q, s + 1, 0); }
      else if q < 24 { YearOfEraOfParts(c, q + 1, 0, 0); }
      else { YearOfEraOfParts(c + 1, 0, 0, 0); }
    }
  }

  // Days in the March-based year number yoe of an era.
  function YearLength(yoe: int): int { (if yoe == 399 then 146097 else YearStart(yoe + 1)) - YearStart(yoe) }

  // The March-based year y ends in February of calendar year y + 1.
  lemma YearLengthIsLeap(era: int, yoe: int)
    requires 0 <= yoe <= 399
    ensures YearLength(yoe) == if IsLeap(yoe + era * 400 + 1) then 366 else 365
  {
    LeapShift(yoe + 1, era);
    assert (yoe + 1) / 4 - yoe / 4 == if (yoe + 1) % 4 == 0 then 1 else 0;
    assert (yoe + 1) / 100 - yoe / 100 == if (yoe + 1) % 100 == 0 then 1 else 0;
  }

  lemma LeapShift(y: int, era: int)
    ensures IsLeap(y + era * 400) == IsLeap(y)
  {
    Mod4Shift(y, 100 * era);
    Mod100Shift(y, 4 * era);
    Mod400Shift(y, era);
  }

  lemma Mod4Shift(y: int, k: int) ensures (y + 4 * k) % 4 == y % 4 {}
  lemma Mod100Shift(y: int, k: int) ensures (y + 100 * k) % 100 == y % 100 {}
  lemma Mod400Shift(y: int, k: int) ensures (y + 400 * k) % 400 == y % 400 {}

  function MarchDate(y: int, doy: int): Date {
    var mp := MonthIndex(doy);
    var d := doy - (153 * mp + 2) / 5 + 1;
    var m := if mp < 10 then mp + 3 else mp - 9;
    Date(if m <= 2 then y + 1 else y, m, d)
  }

  lemma MarchDateValid(y: int, doy: int)
    requires 0 <= doy <= if IsLeap(y + 1) then 365 else 364
    ensures ValidDate(MarchDate(y, doy))
  {
    hide IsLeap;
    var mp := MonthIndex(doy);
    assert 0 <= mp <= 11;
  }

  lemma MarchDateSuccessor(y: int, doy: int)
    requires 0 <= doy <= if IsLeap(y + 1) then 365 else 364
    ensures ValidDate(MarchDate(y, doy))
    ensures doy < (if IsLeap(y + 1) then 365 else 364) ==> MarchDate(y, doy + 1) == NextDay(MarchDate(y, doy))
    ensures doy == (if IsLeap(y + 1) then 365 else 364) ==> MarchDate(y + 1, 0) == NextDay(MarchDate(y, doy))
  {
    hide IsLeap, ValidDate;
    MarchDateValid(y, doy);
    var mp := MonthIndex(doy);
    assert 0 <= mp <= 11;
  }

  lemma YearOfEraUnique(doe: int, yoe: int)
    requires 0 <= doe < 146097 && 0 <= yoe <= 399
    requires YearStart(yoe) <= doe < YearStart(yoe) + YearLength(yoe)
    ensures YearOfEra(doe) == yoe
  {
    YearOfEraBrackets(doe);
  }

  function EraDate(era: int, doe: int): Date {
    MarchDate(YearOfEra(doe) + era * 400, doe - YearStart(YearOfEra(doe)))
  }

  lemma EraIsFloor(z: int, era: int, doe: int)
    requires z == era * 146097 + doe && 0 <= doe < 146097
    ensures TruncDiv(if z >= 0 then z else z - 146096, 146097) == era
  {
  }

  lemma CivilParts(days: int, era: int, doe: int)
    requires days + 719468 == era * 146097 + doe && 0 <= doe < 146097
    ensures CivilFromDays(days) == EraDate(era, doe)
  {
    hide YearOfEra, YearStart, MonthIndex, TruncDiv;
    EraIsFloor(days + 719468, era, doe);
  }

  // Within an era the reference successor step follows the closed form.
  lemma EraSuccessor(era: int, doe: int)
    requires 0 <= doe < 146097
    ensures ValidDate(EraDate(era, doe))
    ensures doe < 146096 ==> EraDate(era, doe + 1) == NextDay(EraDate(era, doe))
    ensures doe == 146096 ==> EraDate(era + 1, 0) == NextDay(EraDate(era, doe))
  {
    hide YearOfEra, IsLeap, MarchDate, NextDay, ValidDate, YearStart;
    YearOfEraBrackets(doe);
    var yoe := YearOfEra(doe);
    var doy := doe - YearStart(yoe);
    YearLengthIsLeap(era, yoe);
    MarchDateSuccessor(yoe + era * 400, doy);
    if doe == 146096 {
      YearOfEraOfParts(0, 0, 0, 0);
      YearOfEraOfParts(3, 24, 3, 365);
    } else if doy + 1 == YearLength(yoe) {
      YearLengthIsLeap(era, yoe + 1);
      YearOfEraUnique(doe + 1, yoe + 1);
    } else {
      YearOfEraUnique(doe + 1, yoe);
    }
  }

  lemma {:induction false} CivilSuccessor(days: int)
    ensures ValidDate(CivilFromDays(days))
    ensures CivilFromDays(days + 1) == NextDay(CivilFromDays(days))
  {
    hide *;
    var era, doe := (days + 719468) / 146097, (days + 719468) % 146097;
    CivilParts(days, era, doe);
    EraSuccessor(era, doe);
    if doe == 146096 {
      CivilParts(days + 1, era + 1, 0);
    } else {
      CivilParts(days + 1, era, doe + 1);
    }
  }

  // ---------------------------------------------------------------------------
  // The two directions agree with the reference and with each other
  // ---------------------------------------------------------------------------

  lemma EpochDate()
    ensures CivilFromDays(0) == Date(1970, 1, 1)
  {
    hide YearOfEra;
    YearOfEraOfParts(3, 17, 1, 306);
    CivilParts(0, 4, 135080);
  }

  lemma {:induction false} CivilIsDateAfter(n: nat)
    ensures CivilFromDays(n) == DateAfter(n)
    ensures DayNumber(CivilFromDays(n)) == n
  {
    hide CivilFromDays;
    if n == 0 {
      EpochDate();
    } else {
      CivilIsDateAfter(n - 1);
      CivilSuccessor(n - 1);
      DayNumberOfNextDay(DateAfter(n - 1));
    }
  }

  lemma {:induction false} CivilRoundTrip(d: Date)
    requires ValidDate(d) && d.year >= 1970
    ensures DayNumber(d) >= 0 && CivilFromDays(DayNumber(d)) == d
  {
    hide CivilFromDays;
    DayOfYearRange(d);
    CivilIsDateAfter(DayNumber(d));
    DayNumberInjective(d, CivilFromDays(DayNumber(d)));
  }

  // ---------------------------------------------------------------------------
  // Instants and file names
  // ---------------------------------------------------------------------------

  // The day an instant falls in, computed as the source does for either sign.
  function DayOfInstant(wall: int): int {
    var days := TruncDiv(wall, 86400);
    if wall < 0 && TruncRem(wall, 86400) != 0 then days - 1 else days
  }

  lemma DayOfInstantIsFloor(wall: int)
    ensures DayOfInstant(wall) == wall / 86400
  {
  }

  function DateOfInstant(wall: int): Date { CivilFromDays(DayOfInstant(wall)) }

  // What rtc_init accepts from the clock chip before it converts the reading.
  predicate AcceptedReading(year: int, mon: int, day: int, hour: int, min: int, sec: int) {
    && 1970 <= year && 1 <= mon <= 12 && 1 <= day <= 31
    && 0 <= hour <= 23 && 0 <= min <= 59 && 0 <= sec <= 60
  }

  // A reading comes back as its own date exactly when the date exists and the reading
  // is not the leap second that ends the day.
  lemma {:induction false} ReadingKeepsItsDate(year: int, mon: int, day: int, hour: int, min: int, sec: int)
    requires AcceptedReading(year, mon, day, hour, min, sec)
    ensures
      var wall := DayNumber(Date(year, mon, day)) * 86400 + hour * 3600 + min * 60 + sec;
      DateOfInstant(wall) == Date(year, mon, day)
      <==> ValidDate(Date(year, mon, day)) && !(hour == 23 && min == 59 && sec == 60)
  {
    hide CivilFromDays, DayOfInstant;
    var d := Date(year, mon, day);
    var n := DayNumber(d);
    var tod := hour * 3600 + min * 60 + sec;
    DayOfInstantIsFloor(n * 86400 + tod);
    CivilSuccessor(DayOfInstant(n * 86400 + tod));
    if ValidDate(d) {
      CivilRoundTrip(d);
      CivilSuccessor(n);
      assert DayOfInstant(n * 86400 + tod) == if tod == 86400 then n + 1 else n;
    }
  }

  // The clock chip's 30 February passes the checks and is filed under another day.
  lemma FebruaryThirtieth()
    ensures AcceptedReading(2026, 2, 30, 0, 0, 0) && DateOfInstant(DayNumber(Date(2026, 2, 30)) * 86400) != Date(2026, 2, 30)
  {
    hide DateOfInstant, DayNumber;
    ReadingKeepsItsDate(2026, 2, 30, 0, 0, 0);
  }

  function DigitText(k: int): char
    requires -9 <= k <= 9
  {
    ('0' as int + k) as char
  }

  // The four characters the source writes for the year, low digit first, with C's / and %.
  function YearText(y: int): (s: string)
    ensures |s| == 4
  {
    var y1 := TruncDiv(y, 10);
    var y2 := TruncDiv(y1, 10);
    var y3 := TruncDiv(y2, 10);
    [DigitText(TruncRem(y3, 10)), DigitText(TruncRem(y2, 10)), DigitText(TruncRem(y1, 10)), DigitText(TruncRem(y, 10))]
  }

  function TwoDigits(n: int): (s: string)
    requires 0 <= n <= 99
    ensures |s| == 2
  {
    [DigitText(n / 10), DigitText(n % 10)]
  }

  function LogPath(d: Date): (s: string)
    requires ValidDate(d)
    ensures |s| == 25
  {
    "/var/audit/" + YearText(d.year) + "-" + TwoDigits(d.month) + "-" + TwoDigits(d.day) + ".log"
  }

  function LogPathAt(wall: int): string { CivilSuccessor(DayOfInstant(wall)); LogPath(DateOfInstant(wall)) }

  lemma DigitTextIsChar(k: nat)
    requires k <= 9
    ensures DigitText(k) == DigitChar(k)
  {
  }

  lemma TwoDigitsArePadded(n: nat)
    requires n <= 99
    ensures TwoDigits(n) == Padded(n, 10, 2)
  {
    hide Padded, DigitChar, DigitText;
    PaddedStep(n, 10, 2);
    PaddedDigit(n / 10, 10);
    DigitTextIsChar(n / 10);
    DigitTextIsChar(n % 10);
  }

  lemma YearTextIsPadded(y: nat)
    requires y <= 9999
    ensures YearText(y) == Padded(y, 10, 4)
  {
    hide Padded, DigitChar, DigitText;
    var y1 := y / 10;
    var y2 := y1 / 10;
    var y3 := y2 / 10;
    PaddedStep(y, 10, 4);
    PaddedStep(y1, 10, 3);
    PaddedStep(y2, 10, 2);
    PaddedDigit(y3, 10);
    DigitTextIsChar(y % 10);
    DigitTextIsChar(y1 % 10);
    DigitTextIsChar(y2 % 10);
    DigitTextIsChar(y3);
  }

  // For four-digit years the path spells the date in zero-padded decimal.
  lemma LogPathSpellsDate(d: Date)
    requires ValidDate(d) && 0 <= d.year <= 9999
    ensures LogPath(d) ==
            "/var/audit/" + Padded(d.year, 10, 4) + "-" + Padded(d.month, 10, 2) + "-" + Padded(d.day, 10, 2) + ".log"
  {
    YearTextIsPadded(d.year);
    TwoDigitsArePadded(d.month);
    TwoDigitsArePadded(d.day);
  }

  lemma {:induction false} LogPathInjective(a: Date, b: Date)
    requires ValidDate(a) && ValidDate(b) && 0 <= a.year <= 9999 && 0 <= b.year <= 9999
    requires LogPath(a) == LogPath(b)
    ensures a == b
  {
    forall d | d == a || d == b
      ensures Value(LogPath(d)[11..15], 10) == d.year
      ensures Value(LogPath(d)[16..18], 10) == d.month && Value(LogPath(d)[19..21], 10) == d.day
    {
      YearTextIsPadded(d.year);
      TwoDigitsArePadded(d.month);
      TwoDigitsArePadded(d.day);
      assert LogPath(d)[11..15] == YearText(d.year);
      assert LogPath(d)[16..18] == TwoDigits(d.month) && LogPath(d)[19..21] == TwoDigits(d.day);
      PaddedReadsBack(d.year, 10, 4);
      PaddedReadsBack(d.month, 10, 2);
      PaddedReadsBack(d.day, 10, 2);
    }
  }

  // Two instants share a log file exactly when they fall in the same UTC day.
  lemma {:induction false} SameFileSameDay(w1: int, w2: int)
    requires 0 <= w1 && 0 <= w2
    requires DateOfInstant(w1).year <= 9999 && DateOfInstant(w2).year <= 9999
    ensures LogPathAt(w1) == LogPathAt(w2) <==> w1 / 86400 == w2 / 86400
  {
    hide CivilFromDays, LogPath, DayOfInstant;
    DayOfInstantIsFloor(w1);
    DayOfInstantIsFloor(w2);
    CivilIsDateAfter(w1 / 86400);
    CivilIsDateAfter(w2 / 86400);
    if LogPathAt(w1) == LogPathAt(w2) {
      LogPathInjective(DateOfInstant(w1), DateOfInstant(w2));
    }
  }

  // The file named at a valid date-time is the file of that date.
  lemma {:induction false} FileOfDateTime(d: Date, hour: int, min: int, sec: int)
    requires ValidDate(d) && 1970 <= d.year <= 9999
    requires 0 <= hour <= 23 && 0 <= min <= 59 && 0 <= sec <= 59
    ensures LogPathAt(DayNumber(d) * 86400 + hour * 3600 + min * 60 + sec) ==
            "/var/audit/" + Padded(d.year, 10, 4) + "-" + Padded(d.month, 10, 2) + "-" + Padded(d.day, 10, 2) + ".log"
  {
    hide CivilFromDays, LogPath, DayOfInstant;
    ReadingKeepsItsDate(d.year, d.month, d.day, hour, min, sec);
    LogPathSpellsDate(d);
  }

  // The start of the day, as the rotation test and the file header compute it.
  function DayStart(wall: int): int { TruncDiv(wall, 86400) * 86400 }

  // Rotation: with a clock that does not run backwards, a new day starts exactly when the name changes.
  lemma {:induction false} RotationIffNewName(start: int, now: int)
    requires 0 <= start <= now && DateOfInstant(now).year <= 9999 && DateOfInstant(start).year <= 9999
    ensures DayStart(now) > DayStart(start) <==> LogPathAt(now) != LogPathAt(start)
  {
    hide CivilFromDays, LogPath, DayOfInstant;
    SameFileSameDay(start, now);
  }

  // ---------------------------------------------------------------------------
  // format_log_filename
  // ---------------------------------------------------------------------------

  method PutString(out: array<char>, at: nat, s: string) returns (next: nat)
    requires at + |s| <= out.Length
    modifies out
    ensures next == at + |s|
    ensures out[..next] == old(out[..at]) + s && out[next..] == old(out[next..])
  {
    var j := 0;
    while j < |s|
      invariant 0 <= j <= |s|
      invariant out[..at + j] == old(out[..at]) + s[..j] && out[at + j..] == old(out[at + j..])
    {
      out[at + j] := s[j];
      j := j + 1;
    }
    next := at + |s|;
  }

  method PutYear(out: array<char>, at: nat, year: int) returns (next: nat)
    requires at + 4 <= out.Length
    modifies out
    ensures next == at + 4
    ensures out[..next] == old(out[..at]) + YearText(year) && out[next..] == old(out[next..])
  {
    var y := year;
    out[at + 3] := DigitText(TruncRem(y, 10)); y := TruncDiv(y, 10);
    out[at + 2] := DigitText(TruncRem(y, 10)); y := TruncDiv(y, 10);
    out[at + 1] := DigitText(TruncRem(y, 10)); y := TruncDiv(y, 10);
    out[at + 0] := DigitText(TruncRem(y, 10));
    next := at + 4;
  }

  method PutField(out: array<char>, at: nat, n: nat) returns (next: nat)
    requires at + 3 <= out.Length && n <= 99
    modifies out
    ensures next == at + 3
    ensures out[..next] == old(out[..at]) + "-" + TwoDigits(n) && out[next..] == old(out[next..])
  {
    out[at] := '-';
    out[at + 1] := DigitText(n / 10);
    out[at + 2] := DigitText(n % 10);
    next := at + 3;
  }

  // The guard tests for 25 bytes while 26 are written, terminator included; a caller that
  // passes 25 must own 26.
  method FormatLogFilename(out: array<char>, buflen: int, wall: int)
    requires buflen <= out.Length && (buflen >= 25 ==> out.Length >= 26)
    requires -0x8000_0000 <= DateOfInstant(wall).year < 0x8000_0000  // the year is an int
    modifies out
    ensures buflen <= 0 ==> out[..] == old(out[..])
    ensures 0 < buflen < 25 ==> out[..] == old(out[..])[0 := '\0']
    ensures buflen >= 25 ==> out[..26] == LogPathAt(wall) + "\0" && out[26..] == old(out[26..])
  {
    hide CivilFromDays, TwoDigits, YearText, DayOfInstant;
    CivilSuccessor(DayOfInstant(wall));
    var date := DateOfInstant(wall);
    if buflen < 25 {
      if buflen > 0 { out[0] := '\0'; }
      return;
    }
    ghost var rest := out[26..];
    var i := PutString(out, 0, "/var/audit/");
    assert out[26..] == rest && out[..11] == "/var/audit/";
    i := PutYear(out, i, date.year);
    assert out[26..] == rest;
    i := PutField(out, i, date.month);
    assert out[26..] == rest;
    i := PutField(out, i, date.day);
    assert out[26..] == rest;
    i := PutString(out, i, ".log");
    assert out[..25] == LogPath(date) && out[26..] == rest;
    out[i] := '\0';
    assert out[..26] == out[..25] + "\0";
  }
}
