/**
 The proleptic Gregorian calendar by plain counting, and the era arithmetic of `time.rs` that
 must agree with it. Years, days and seconds are unbounded here; `FitsTheMachine` and
 `CivilFitsTheMachine` say where the source's integers hold every intermediate value of the two
 conversions.
 */
module Calendar {
  import opened Bytes

  datatype Date = Date(year: int, month: int, day: int)

  // ----- the calendar, by counting -----

  predicate IsLeap(year: int) {
    year % 4 == 0 && (year % 100 != 0 || year % 400 == 0)
  }

  function MonthDays(year: int, month: int): int {
    if month == 2 then (if IsLeap(year) then 29 else 28)
    else if month == 4 || month == 6 || month == 9 || month == 11 then 30
    else 31
  }

  predicate IsDate(date: Date) {
    1 <= date.month <= 12 && 1 <= date.day <= MonthDays(date.year, date.month)
  }

  /** The day after `date`. */
  function NextDay(date: Date): Date {
    if date.day < MonthDays(date.year, date.month) then date.(day := date.day + 1)
    else if date.month < 12 then Date(date.year, date.month + 1, 1)
    else Date(date.year + 1, 1, 1)
  }

  function YearDays(year: int): int {
    if IsLeap(year) then 366 else 365
  }

  /** The day number of January 1 of `year`, adding or taking off one whole year at a time. */
  function DaysToYear(year: int): int
    decreases if year < 1970 then 1970 - year else year - 1970
  {
    if year == 1970 then 0
    else if year > 1970 then DaysToYear(year - 1) + YearDays(year - 1)
    else DaysToYear(year + 1) - YearDays(year)
  }

  /** Days in `year` before `month`, one month after another. */
  function DaysToMonth(year: int, month: nat): int
    requires 1 <= month
  {
    if month == 1 then 0 else DaysToMonth(year, month - 1) + MonthDays(year, month - 1)
  }

  function Count(date: Date): int
    requires IsDate(date)
  {
    DaysToYear(date.year) + DaysToMonth(date.year, date.month) + date.day - 1
  }

  /** Counting numbers the days one by one, and numbers 1970-01-01 zero. */
  lemma CountIsDayByDay(date: Date)
    requires IsDate(date)
    ensures IsDate(NextDay(date)) && Count(NextDay(date)) == Count(date) + 1
    ensures Count(Date(1970, 1, 1)) == 0
  {
    if date.month == 12 {
      YearIsItsMonths(date.year);
      if date.year < 1970 {
        assert DaysToYear(date.year) == DaysToYear(date.year + 1) - YearDays(date.year);
      }
    }
  }

  lemma YearIsItsMonths(year: int)
    ensures DaysToMonth(year, 12) + 31 == YearDays(year)
  {
    MonthStartCounts(year, 12);
  }

  // ----- days_from_civil -----

  /** Days of the `era` before the first of March of its year `yoe`. */
  function EraDays(yoe: int): int {
    yoe * 365 + yoe / 4 - yoe / 100
  }

  /** Days from the first of March to the first of the month `mp` months later. */
  function MonthStart(mp: int): int {
    (153 * mp + 2) / 5
  }

  function DaysFromCivil(y: int, m: int, d: int): Option<int> {
    if !(1 <= m <= 12) || !(1 <= d <= MonthDays(y, m)) then None
    else
      var yAdj := if m <= 2 then y - 1 else y;
      var era := yAdj / 400;
      var yoe := yAdj % 400;
      var mp := if m > 2 then m - 3 else m + 9;
      var doy := MonthStart(mp) + d - 1;
      var doe := EraDays(yoe) + doy;
      Some(era * 146_097 + doe - 719_468)
  }

  /** Whole eras fold into one formula over the year. */
  lemma EraFolds(y: int)
    ensures (y / 400) * 146_097 + EraDays(y % 400) == 365 * y + y / 4 - y / 100 + y / 400
  {
    var era, yoe := y / 400, y % 400;
    assert y == 400 * era + yoe;
    assert y / 4 == 100 * era + yoe / 4;
    assert y / 100 == 4 * era + yoe / 100;
  }

  lemma LeapStep(y: int)
    ensures (y / 4 - y / 100 + y / 400) - ((y - 1) / 4 - (y - 1) / 100 + (y - 1) / 400)
            == if IsLeap(y) then 1 else 0
  {
    CarryAt4(y);
    CarryAt100(y);
    CarryAt400(y);
    assert y % 100 == 0 ==> y % 4 == 0 by { assert y % 100 == 0 ==> y == 4 * (25 * (y / 100)); }
    assert y % 400 == 0 ==> y % 100 == 0 by { assert y % 400 == 0 ==> y == 100 * (4 * (y / 400)); }
  }

  lemma CarryAt4(y: int)
    ensures y / 4 - (y - 1) / 4 == if y % 4 == 0 then 1 else 0
  {
  }

  lemma CarryAt100(y: int)
    ensures y / 100 - (y - 1) / 100 == if y % 100 == 0 then 1 else 0
  {
  }

  lemma CarryAt400(y: int)
    ensures y / 400 - (y - 1) / 400 == if y % 400 == 0 then 1 else 0
  {
  }

  function NewYear(year: int): int {
    var y := year - 1;
    365 * y + y / 4 - y / 100 + y / 400 + 306 - 719_468
  }

  lemma {:induction false} NewYearCounts(year: int)
    ensures NewYear(year) == DaysToYear(year)
    decreases if year < 1970 then 1970 - year else year - 1970
  {
    if year > 1970 {
      NewYearCounts(year - 1);
      LeapStep(year - 1);
    } else if year < 1970 {
      NewYearCounts(year + 1);
      LeapStep(year);
    }
  }

  /** The era formulas number a valid date as counting does, and refuse every other date. */
  lemma DaysFromCivilCounts(y: int, m: int, d: int)
    ensures DaysFromCivil(y, m, d)
            == if IsDate(Date(y, m, d)) then Some(Count(Date(y, m, d))) else None
  {
    hide EraDays, MonthStart, DaysToYear, DaysToMonth, IsLeap;
    if IsDate(Date(y, m, d)) {
      NewYearCounts(y);
      EraFolds(if m <= 2 then y - 1 else y);
      LeapStep(y);
      MonthStartCounts(y, m);
    }
  }

  /** The month formula against the calendar's own months. */
  lemma MonthStartCounts(y: int, m: nat)
    requires 1 <= m <= 12
    ensures DaysToMonth(y, m)
            == if m <= 2 then MonthStart(m + 9) - 306
               else MonthStart(m - 3) + 59 + (if IsLeap(y) then 1 else 0)
  {
    if m > 3 { MonthStartCounts(y, m - 1); }
  }

  // ----- civil_from_days -----

  function YearOfEra(doe: int): int {
    (doe - doe / 1460 + doe / 36_524 - doe / 146_096) / 365
  }

  function CivilFromDays(days: int): Date {
    var z := days + 719_468;
    var era := z / 146_097;
    var doe := z % 146_097;
    var yoe := YearOfEra(doe);
    var doy := doe - EraDays(yoe);
    var mp := (5 * doy + 2) / 153;
    var day := doy - MonthStart(mp) + 1;
    var month := if mp < 10 then mp + 3 else mp - 9;
    Date(era * 400 + yoe + (if month <= 2 then 1 else 0), month, day)
  }

  /** The year-of-era division, in centuries, four-year spans and days. */
  lemma YearOfEraBySpans(a: int, b: int, s: int)
    requires 0 <= a <= 3 && 0 <= b <= 24 && 0 <= s <= 1460 && (b == 24 ==> s < 1460)
    ensures var k := if s == 1460 then 3 else s / 365;
            && YearOfEra(36_524 * a + 1461 * b + s) == 100 * a + 4 * b + k
            && EraDays(100 * a + 4 * b + k) == 36_524 * a + 1461 * b + 365 * k
  {
    var doe := 36_524 * a + 1461 * b + s;
    var e := if 24 * a + b + s >= 1460 then 1 else 0;
    assert doe / 1460 == 25 * a + b + e by {
      assert doe == 1460 * (25 * a + b + e) + (24 * a + b + s - 1460 * e);
    }
    assert doe / 36_524 == a by {
      assert doe == 36_524 * a + (1461 * b + s) && 1461 * b + s < 36_524;
    }
    assert doe / 146_096 == 0;
    var k := if s == 1460 then 3 else s / 365;
    assert doe - doe / 1460 + doe / 36_524 == 365 * (100 * a + 4 * b + k) + (s - e - 365 * k);
    SpanStart(a, b, k);
  }

  lemma SpanStart(a: int, b: int, k: int)
    requires 0 <= a <= 3 && 0 <= b <= 24 && 0 <= k <= 3
    ensures EraDays(100 * a + 4 * b + k) == 36_524 * a + 1461 * b + 365 * k
  {
    var yoe := 100 * a + 4 * b + k;
    assert yoe / 4 == 25 * a + b;
    assert yoe / 100 == a;
  }

  lemma LeapSpan(a: int, b: int)
    requires 0 <= a <= 3 && 0 <= b <= 23
    ensures IsLeap(100 * a + 4 * b + 3 + 1)
  {
    var y := 100 * a + 4 * b + 4;
    assert y % 4 == 0 by { assert y == 4 * (25 * a + b + 1); }
    assert y % 100 == 4 * b + 4 by { assert y == 100 * a + (4 * b + 4); }
  }

  /** A day of an era falls in the year that `YearOfEra` names. */
  lemma YearOfEraIsRight(doe: int)
    requires 0 <= doe < 146_097
    ensures var yoe := YearOfEra(doe);
            && 0 <= yoe < 400
            && 0 <= doe - EraDays(yoe) <= 365
            && (doe - EraDays(yoe) == 365 ==> IsLeap(yoe + 1))
  {
    if doe < 146_096 {
      hide YearOfEra, EraDays, IsLeap;
      var (a, b, s) := Spans(doe);
      YearOfEraBySpans(a, b, s);
      if s == 1460 { LeapSpan(a, b); }
    }
  }

  /** The centuries, four-year spans and days of a day number; only an era's last century has a full last span. */
  function Spans(doe: int): (spans: (int, int, int))
    requires 0 <= doe < 146_096
    ensures var (a, b, s) := spans;
            && 0 <= a <= 3 && 0 <= b <= 24 && 0 <= s <= 1460 && (b == 24 ==> s < 1460)
            && doe == 36_524 * a + 1461 * b + s
  {
    var r := doe % 36_524;
    (doe / 36_524, r / 1461, r % 1461)
  }

  lemma LeapRepeats(era: int, k: int)
    ensures IsLeap(400 * era + k) == IsLeap(k)
  {
    Remainder4(100 * era, k);
    Remainder100(4 * era, k);
    Remainder400(era, k);
  }

  lemma Remainder4(q: int, k: int)
    ensures (4 * q + k) % 4 == k % 4
  {
  }

  lemma Remainder100(q: int, k: int)
    ensures (100 * q + k) % 100 == k % 100
  {
  }

  lemma Remainder400(q: int, k: int)
    ensures (400 * q + k) % 400 == k % 400
  {
  }

  /** A day of a March-based year, as month and day of the calendar year the month falls in. */
  lemma MonthAndDay(doy: int, year: int)
    requires 0 <= doy <= 365 && (doy == 365 ==> IsLeap(year))
    ensures var mp := (5 * doy + 2) / 153;
            var month := if mp < 10 then mp + 3 else mp - 9;
            && 0 <= mp <= 11
            && (month <= 2 <==> mp >= 10)
            && 1 <= month <= 12
            && 1 <= doy - MonthStart(mp) + 1 <= MonthDays(year, month)
  {
    var mp := (5 * doy + 2) / 153;
    assert 153 * mp <= 5 * doy + 2 < 153 * mp + 153;
    assert MonthStart(mp) <= doy < MonthStart(mp + 1);
    MonthLength(mp);
  }

  lemma MonthLength(mp: int)
    requires 0 <= mp <= 11
    ensures var month := if mp < 10 then mp + 3 else mp - 9;
            if mp == 11 then MonthStart(mp) == 337
            else forall year :: month != 2 && MonthStart(mp + 1) - MonthStart(mp) == MonthDays(year, month)
  {
  }

  /** Every day number is that of the date `CivilFromDays` gives it, and that date is valid. */
  lemma CivilInverts(days: int)
    ensures var date := CivilFromDays(days);
            IsDate(date) && DaysFromCivil(date.year, date.month, date.day) == Some(days)
  {
    hide YearOfEra, EraDays, MonthStart, IsLeap, MonthDays;
    var z := days + 719_468;
    var era, doe := z / 146_097, z % 146_097;
    var yoe := YearOfEra(doe);
    YearOfEraIsRight(doe);
    LeapRepeats(era, yoe + 1);
    var date := CivilFromDays(days);
    var doy := doe - EraDays(yoe);
    MonthAndDay(doy, if doy == 365 then 400 * era + yoe + 1 else date.year);
    if doy == 365 { LastDayIsFebruary(); }
    var march := if date.month <= 2 then date.year - 1 else date.year;
    assert march == 400 * era + yoe;
    assert march / 400 == era && march % 400 == yoe;
  }

  lemma LastDayIsFebruary()
    ensures (5 * 365 + 2) / 153 == 11
  {
  }

  // ----- order -----

  predicate Before(a: Date, b: Date) {
    || a.year < b.year
    || (a.year == b.year && a.month < b.month)
    || (a.year == b.year && a.month == b.month && a.day < b.day)
  }

  lemma {:induction false} MonthsGrow(year: int, m: nat, n: nat)
    requires 1 <= m < n <= 12
    ensures DaysToMonth(year, m) + MonthDays(year, m) <= DaysToMonth(year, n)
    decreases n
  {
    if m < n - 1 { MonthsGrow(year, m, n - 1); }
  }

  lemma {:induction false} YearsGrow(y: int, z: int)
    requires y < z
    ensures DaysToYear(y) + YearDays(y) <= DaysToYear(z)
    decreases z - y
  {
    assert z <= 1970 ==> DaysToYear(z) == DaysToYear(z - 1) + YearDays(z - 1);
    if y < z - 1 { YearsGrow(y, z - 1); }
  }

  /** A later date has a larger day number. */
  lemma CountGrows(a: Date, b: Date)
    requires IsDate(a) && IsDate(b) && Before(a, b)
    ensures Count(a) < Count(b)
  {
    if a.year < b.year {
      YearsGrow(a.year, b.year);
      YearIsItsMonths(a.year);
      if a.month < 12 { MonthsGrow(a.year, a.month, 12); }
      if b.month > 1 { MonthsGrow(b.year, 1, b.month); }
    } else if a.month < b.month {
      MonthsGrow(a.year, a.month, b.month);
    }
  }

  /** The other way round: a valid date comes back from its day number. */
  lemma CivilIsInverted(date: Date)
    requires IsDate(date)
    ensures DaysFromCivil(date.year, date.month, date.day).Some?
    ensures CivilFromDays(DaysFromCivil(date.year, date.month, date.day).value) == date
  {
    DaysFromCivilCounts(date.year, date.month, date.day);
    var days := Count(date);
    CivilInverts(days);
    var other := CivilFromDays(days);
    DaysFromCivilCounts(other.year, other.month, other.day);
    if Before(date, other) { CountGrows(date, other); }
    if Before(other, date) { CountGrows(other, date); }
  }

  // ----- machine integers -----

  predicate IsI32(x: int) { -0x8000_0000 <= x < 0x8000_0000 }
  predicate IsU32(x: int) { 0 <= x < 0x1_0000_0000 }
  predicate IsI64(x: int) { -0x8000_0000_0000_0000 <= x < 0x8000_0000_0000_0000 }

  /**
   The source computes with an `i32` year and `u32` fields. The one value that leaves its type is
   the year before `i32::MIN`, for that year's January and February.
   */
  lemma FitsTheMachine(y: int, m: int, d: int)
    requires IsI32(y) && IsDate(Date(y, m, d))
    ensures var yAdj := if m <= 2 then y - 1 else y;
            var mp := if m > 2 then m - 3 else m + 9;
            var doe := EraDays(yAdj % 400) + MonthStart(mp) + d - 1;
            && (IsI32(yAdj) <==> !(y == -0x8000_0000 && m <= 2))
            && IsI32(yAdj / 400) && IsU32(yAdj % 400) && IsU32(153 * mp + 2)
            && 0 <= doe <= 146_097
            && IsI64(yAdj / 400 * 146_097) && IsI64(DaysFromCivil(y, m, d).value)
  {
  }

  /**
   For every `i64` instant the way back to a date stays in `i64` too, and day and month are in range,
   so neither conversion to `u32` takes its fallback of 1.
   */
  lemma CivilFitsTheMachine(unix: int)
    requires IsI64(unix)
    ensures var days := unix / 86_400;
            var z := days + 719_468;
            var era, doe := z / 146_097, z % 146_097;
            var yoe := YearOfEra(doe);
            var date := CivilFromDays(days);
            && IsI64(days) && IsI64(z) && IsI64(era * 400 + yoe + 1) && IsI64(date.year)
            && 0 <= doe < 146_097 && 0 <= yoe < 400 && 0 <= doe - EraDays(yoe) <= 365
            && 0 <= (5 * (doe - EraDays(yoe)) + 2) / 153 <= 11
            && 1 <= date.month <= 12 && 1 <= date.day <= 31
  {
    hide YearOfEra, EraDays, IsLeap;
    var z := unix / 86_400 + 719_468;
    YearOfEraIsRight(z % 146_097);
    CivilInverts(unix / 86_400);
  }

  // ----- ISO 8601 -----

  datatype Iso = Iso(date: Date, hour: int, minute: int, second: int)

  function IsoUtc(unix: int): Iso {
    var days, secs := unix / 86_400, unix % 86_400;
    Iso(CivilFromDays(days), secs / 3600, secs % 3600 / 60, secs % 60)
  }

  predicate IsIso(iso: Iso) {
    IsDate(iso.date) && 0 <= iso.hour < 24 && 0 <= iso.minute < 60 && 0 <= iso.second < 60
  }

  function UnixOf(iso: Iso): int
    requires IsIso(iso)
  {
    Count(iso.date) * 86_400 + iso.hour * 3600 + iso.minute * 60 + iso.second
  }

  /**
   The fields printed for an instant are a valid date and time of day whose count of seconds is
   that instant, and no other fields are: negative instants included.
   */
  lemma IsoRecombines(unix: int)
    ensures IsIso(IsoUtc(unix)) && UnixOf(IsoUtc(unix)) == unix
  {
    hide CivilFromDays, Count, DaysFromCivil;
    var days := unix / 86_400;
    CivilInverts(days);
    var date := CivilFromDays(days);
    DaysFromCivilCounts(date.year, date.month, date.day);
    SecondsRecombine(unix % 86_400);
  }

  lemma SecondsRecombine(secs: int)
    requires 0 <= secs < 86_400
    ensures 0 <= secs / 3600 < 24 && 0 <= secs % 3600 / 60 < 60 && 0 <= secs % 60 < 60
    ensures secs / 3600 * 3600 + secs % 3600 / 60 * 60 + secs % 60 == secs
  {
    assert secs == 60 * (60 * (secs / 3600)) + secs % 3600;
  }

  lemma IsoIsUnique(iso: Iso)
    requires IsIso(iso)
    ensures IsoUtc(UnixOf(iso)) == iso
  {
    hide CivilFromDays, Count, DaysFromCivil;
    var secs := iso.hour * 3600 + iso.minute * 60 + iso.second;
    var days := Count(iso.date);
    assert UnixOf(iso) / 86_400 == days && UnixOf(iso) % 86_400 == secs;
    CivilIsInverted(iso.date);
    DaysFromCivilCounts(iso.date.year, iso.date.month, iso.date.day);
    TimeOfDay(iso.hour, iso.minute, iso.second);
  }

  lemma TimeOfDay(hour: int, minute: int, second: int)
    requires 0 <= hour < 24 && 0 <= minute < 60 && 0 <= second < 60
    ensures var secs := hour * 3600 + minute * 60 + second;
            secs / 3600 == hour && secs % 3600 / 60 == minute && secs % 60 == second
  {
    var secs := hour * 3600 + minute * 60 + second;
    assert secs == 60 * (60 * hour + minute) + second;
  }

  // ----- MS-DOS stamps -----

  const U16: int := 0x1_0000

  function DosDatetimeToUnix(date: int, time: int): Option<int>
    requires 0 <= date < U16 && 0 <= time < U16
  {
    var year := date / 0x200 + 1980;
    var month := date / 0x20 % 0x10;
    var day := date % 0x20;
    var hour := time / 0x800;
    var minute := time / 0x20 % 0x40;
    var second := time % 0x20 * 2;
    if hour > 23 || minute > 59 || second > 59 then None
    else
      match DaysFromCivil(year, month, day)
      case None => None
      case Some(days) => Some(days * 86_400 + hour * 3600 + minute * 60 + second)
  }

  /** The stamp that packs `iso`, whose second is even. */
  function DosStamp(iso: Iso): (stamp: (int, int)) {
    ((iso.date.year - 1980) * 0x200 + iso.date.month * 0x20 + iso.date.day,
     iso.hour * 0x800 + iso.minute * 0x20 + iso.second / 2)
  }

  predicate IsDosInstant(unix: int) {
    var iso := IsoUtc(unix);
    1980 <= iso.date.year < 2108 && iso.second % 2 == 0
  }

  /** A stamp is accepted exactly when it packs a valid date and time, and gives its instant. */
  lemma DosIsItsFields(date: int, time: int)
    requires 0 <= date < U16 && 0 <= time < U16
    ensures var iso := Iso(Date(date / 0x200 + 1980, date / 0x20 % 0x10, date % 0x20),
                           time / 0x800, time / 0x20 % 0x40, time % 0x20 * 2);
            DosDatetimeToUnix(date, time) == if IsIso(iso) then Some(UnixOf(iso)) else None
  {
    hide DaysFromCivil, Count;
    DaysFromCivilCounts(date / 0x200 + 1980, date / 0x20 % 0x10, date % 0x20);
  }

  lemma UnpackDate(y: int, m: int, d: int)
    requires 0 <= y < 0x80 && 0 <= m < 0x10 && 0 <= d < 0x20
    ensures var date := y * 0x200 + m * 0x20 + d;
            0 <= date < U16 && date / 0x200 == y && date / 0x20 % 0x10 == m && date % 0x20 == d
  {
    assert (y * 0x200 + m * 0x20 + d) / 0x20 == y * 0x10 + m;
  }

  lemma UnpackTime(h: int, m: int, s: int)
    requires 0 <= h < 0x20 && 0 <= m < 0x40 && 0 <= s < 0x20
    ensures var time := h * 0x800 + m * 0x20 + s;
            0 <= time < U16 && time / 0x800 == h && time / 0x20 % 0x40 == m && time % 0x20 == s
  {
    assert (h * 0x800 + m * 0x20 + s) / 0x20 == h * 0x40 + m;
  }

  /** Every even second from 1980 to 2107 has a stamp, and that stamp reads as it. */
  lemma DosStampReads(unix: int)
    requires IsDosInstant(unix)
    ensures var (date, time) := DosStamp(IsoUtc(unix));
            0 <= date < U16 && 0 <= time < U16 && DosDatetimeToUnix(date, time) == Some(unix)
  {
    hide IsoUtc, UnixOf, DosDatetimeToUnix;
    IsoRecombines(unix);
    var iso := IsoUtc(unix);
    UnpackDate(iso.date.year - 1980, iso.date.month, iso.date.day);
    UnpackTime(iso.hour, iso.minute, iso.second / 2);
    var (date, time) := DosStamp(iso);
    DosIsItsFields(date, time);
  }

  /** Of two accepted stamps the one with the larger packed value is the later. */
  lemma DosIsIncreasing(date: int, time: int, date': int, time': int)
    requires 0 <= date < U16 && 0 <= time < U16 && 0 <= date' < U16 && 0 <= time' < U16
    requires DosDatetimeToUnix(date, time).Some? && DosDatetimeToUnix(date', time').Some?
    requires date * U16 + time < date' * U16 + time'
    ensures DosDatetimeToUnix(date, time).value < DosDatetimeToUnix(date', time').value
  {
    hide DosDatetimeToUnix, Count;
    DosIsItsFields(date, time);
    DosIsItsFields(date', time');
    if date < date' {
      PackedDateOrder(date, date');
      CountGrows(Date(date / 0x200 + 1980, date / 0x20 % 0x10, date % 0x20),
                 Date(date' / 0x200 + 1980, date' / 0x20 % 0x10, date' % 0x20));
    } else {
      PackedTimeOrder(time, time');
    }
  }

  lemma PackedDateOrder(x: int, y: int)
    requires 0 <= x < y
    ensures Before(Date(x / 0x200 + 1980, x / 0x20 % 0x10, x % 0x20), Date(y / 0x200 + 1980, y / 0x20 % 0x10, y % 0x20))
  {
    assert x / 0x20 == 0x10 * (x / 0x200) + x / 0x20 % 0x10;
    assert y / 0x20 == 0x10 * (y / 0x200) + y / 0x20 % 0x10;
  }

  lemma PackedTimeOrder(x: int, y: int)
    requires 0 <= x < y && x / 0x20 % 0x40 <= 59 && x % 0x20 * 2 <= 59
    requires y / 0x20 % 0x40 <= 59 && y % 0x20 * 2 <= 59
    ensures x / 0x800 * 3600 + x / 0x20 % 0x40 * 60 + x % 0x20 * 2
            < y / 0x800 * 3600 + y / 0x20 % 0x40 * 60 + y % 0x20 * 2
  {
    Unpacked(x);
    Unpacked(y);
    TimeOrder(x / 0x800, x / 0x20 % 0x40, x % 0x20, y / 0x800, y / 0x20 % 0x40, y % 0x20);
  }

  lemma Unpacked(x: int)
    requires 0 <= x
    ensures x == 0x800 * (x / 0x800) + 0x20 * (x / 0x20 % 0x40) + x % 0x20
  {
    assert x / 0x20 == 0x40 * (x / 0x800) + x / 0x20 % 0x40;
  }

  lemma TimeOrder(h: int, m: int, s: int, h': int, m': int, s': int)
    requires 0 <= m <= 59 && 0 <= s <= 29 && 0 <= m' <= 59 && 0 <= s' <= 29
    requires 0x800 * h + 0x20 * m + s < 0x800 * h' + 0x20 * m' + s'
    ensures h * 3600 + m * 60 + s * 2 < h' * 3600 + m' * 60 + s' * 2
  {
    assert h < h' || (h == h' && (m < m' || (m == m' && s < s')));
  }
}
