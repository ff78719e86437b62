/** Calendar arithmetic of the HTTP-date parser: days since 1970-01-01, proleptic Gregorian. */
module CivilDate {

  /** Integer division as the source's language does it: toward zero. */
  function Div(a: int, b: int): int
    requires b > 0
  {
    if a >= 0 then a / b else -((-a) / b)
  }

  /** The remainder that goes with it. */
  function Rem(a: int, b: int): int
    requires b > 0
  {
    a - Div(a, b) * b
  }

  datatype Date = Date(year: int, month: nat, day: nat)

  predicate IsLeap(y: int) {
    (y % 4 == 0 && y % 100 != 0) || y % 400 == 0
  }

  function DaysInMonth(y: int, m: nat): nat
    requires 1 <= m <= 12
  {
    if m == 2 then (if IsLeap(y) then 29 else 28)
    else if m == 4 || m == 6 || m == 9 || m == 11 then 30 else 31
  }

  predicate Valid(t: Date) {
    1 <= t.month <= 12 && 1 <= t.day <= DaysInMonth(t.year, t.month)
  }

  // ---- the era of 400 years, which start in March ------------------------------------------

  function Era(y: int): int {
    Div(if y >= 0 then y else y - 399, 400)
  }

  /** Day of the March year. */
  function DayOfYear(m: nat, d: nat): int
    requires 1 <= m <= 12
  {
    (153 * (m + if m > 2 then -3 else 9) + 2) / 5 + d - 1
  }

  function DayOfEra(yoe: int, doy: int): int {
    yoe * 365 + yoe / 4 - yoe / 100 + doy
  }

  function DaysFromCivil(y: int, m: nat, d: nat): int
    requires 1 <= m <= 12
  {
    var my := if m <= 2 then y - 1 else y;
    var era := Era(my);
    era * 146097 + DayOfEra(my - era * 400, DayOfYear(m, d)) - 719468
  }

  function Days(t: Date): int
    requires Valid(t)
  {
    DaysFromCivil(t.year, t.month, t.day)
  }

  function YearOfEra(doe: int): int {
    (doe - doe / 1460 + doe / 36524 - doe / 146096) / 365
  }

  function YearFromDays(days: int): int {
    var n := days + 719468;
    var era := Div(if n >= 0 then n else n - 146096, 146097);
    YearOfDayInEra(era, n - era * 146097)
  }

  function YearOfDayInEra(era: int, doe: int): int {
    var yoe := YearOfEra(doe);
    var doy := doe - (365 * yoe + yoe / 4 - yoe / 100);
    var mp := (5 * doy + 2) / 153;
    var month := if mp < 10 then mp + 3 else mp - 9;
    yoe + era * 400 + if month <= 2 then 1 else 0
  }

  lemma DivMod(n: int, k: int, q: int, r: int)
    requires k > 0 && n == q * k + r && 0 <= r < k
    ensures n / k == q && n % k == r
  {
    var d := n / k - q;
    assert n == (n / k) * k + n % k;
    assert d * k == r - n % k;
    assert d > 0 ==> d * k >= k;
    assert d < 0 ==> d * k <= -k;
  }

  lemma EraIsFloor(y: int)
    ensures Era(y) == y / 400 && 0 <= y - Era(y) * 400 < 400
  {}

  lemma DayEraIsFloor(n: int)
    ensures Div(if n >= 0 then n else n - 146096, 146097) == n / 146097
  {}

  /** The March year that ends with a leap day. */
  predicate LongYear(yoe: int) {
    yoe % 4 == 3 && (yoe % 100 != 99 || yoe == 399)
  }

  lemma DayOfYearRange(y: int, m: nat, d: nat)
    requires Valid(Date(y, m, d))
    ensures var doy := DayOfYear(m, d);
            0 <= doy <= 365 && (m <= 2 <==> doy >= 306) && (doy == 365 ==> m == 2 && d == 29)
  {}

  /** The year of an era can be read off its day. */
  lemma YearOfDay(yoe: int, doy: int)
    requires 0 <= yoe < 400 && 0 <= doy <= 365 && (doy == 365 ==> LongYear(yoe))
    ensures var doe := DayOfEra(yoe, doy); 0 <= doe < 146097 && YearOfEra(doe) == yoe
  {
    var c, a, r := yoe / 100, yoe / 4, yoe % 4;
    var doe := DayOfEra(yoe, doy);
    var t := a - c + 365 * r + doy;
    assert doe == 1460 * a + t;
    assert 0 <= a - c;
    assert doe / 1460 == a + t / 1460;
    assert doe / 36524 - doe / 146096 == c by { Century(yoe, doy); }
  }

  lemma Century(yoe: int, doy: int)
    requires 0 <= yoe < 400 && 0 <= doy <= 365 && (doy == 365 ==> LongYear(yoe))
    ensures var doe := DayOfEra(yoe, doy); doe / 36524 - doe / 146096 == yoe / 100
  {
    var c := yoe / 100;
    var y := yoe % 100;
    var doe := DayOfEra(yoe, doy);
    assert yoe / 4 == 25 * c + y / 4;
    var rest := 365 * y + y / 4 + doy;
    assert doe == 36524 * c + rest;
    if rest < 36524 {
      DivMod(doe, 36524, c, rest);
      DivMod(doe, 146096, 0, doe);
    } else {
      assert y == 99 && doy == 365 && c == 3;
      assert doe == 146096;
    }
  }

  /** The year is recovered from the day count, for every valid date of any year. */
  lemma YearRoundTrip(t: Date)
    requires Valid(t)
    ensures YearFromDays(Days(t)) == t.year
  {
    hide YearFromDays, Era, DayOfYear, DayOfEra;
    var my := if t.month <= 2 then t.year - 1 else t.year;
    var era := Era(my);
    var yoe, doy := my - era * 400, DayOfYear(t.month, t.day);
    EraIsFloor(my);
    DayOfYearRange(t.year, t.month, t.day);
    assert doy == 365 ==> LongYear(yoe) by { if doy == 365 { LeapEnds(t.year, era, yoe); } }
    YearOfParts(era, yoe, doy);
  }

  /** The year from era, March year and day of that year. */
  lemma YearOfParts(era: int, yoe: int, doy: int)
    requires 0 <= yoe < 400 && 0 <= doy <= 365 && (doy == 365 ==> LongYear(yoe))
    ensures YearFromDays(era * 146097 + DayOfEra(yoe, doy) - 719468)
         == yoe + era * 400 + if doy >= 306 then 1 else 0
  {
    hide YearOfDayInEra, YearOfEra, LongYear, Div, DayOfEra;
    YearOfDay(yoe, doy);
    var doe := DayOfEra(yoe, doy);
    EraOfDay(era, doe);
    DayInEraIsOf(era, yoe, doy);
    var n := (era * 146097 + doe - 719468) + 719468;
    assert n == era * 146097 + doe;
    assert n - Div(if n >= 0 then n else n - 146096, 146097) * 146097 == doe;
  }

  lemma DayInEraIsOf(era: int, yoe: int, doy: int)
    requires 0 <= doy <= 365 && YearOfEra(DayOfEra(yoe, doy)) == yoe
    ensures YearOfDayInEra(era, DayOfEra(yoe, doy)) == yoe + era * 400 + if doy >= 306 then 1 else 0
  {
    hide YearOfEra;
    assert (5 * doy + 2) / 153 < 10 <==> doy < 306;
  }

  lemma EraOfDay(era: int, doe: int)
    requires 0 <= doe < 146097
    ensures var n := era * 146097 + doe; Div(if n >= 0 then n else n - 146096, 146097) == era
  {
    hide Div;
    var n := era * 146097 + doe;
    DayEraIsFloor(n);
    DivMod(n, 146097, era, doe);
  }

  /** A year with a leap day ends a long March year. */
  lemma LeapEnds(y: int, era: int, yoe: int)
    requires yoe == y - 1 - era * 400 && 0 <= yoe < 400
    ensures LongYear(yoe) <==> IsLeap(y)
  {
    var n := yoe + 1;
    DivMod(y, 4, n / 4 + 100 * era, n % 4);
    DivMod(y, 100, n / 100 + 4 * era, n % 100);
    DivMod(y, 400, n / 400 + era, n % 400);
  }

  // ---- one day after the other ----------------------------------------------------------------

  function NextDay(t: Date): (r: Date)
    requires Valid(t)
    ensures Valid(r)
  {
    if t.day < DaysInMonth(t.year, t.month) then t.(day := t.day + 1)
    else if t.month < 12 then Date(t.year, t.month + 1, 1)
    else Date(t.year + 1, 1, 1)
  }

  /** Within a March year, months follow one another without gap. */
  lemma NextMonth(y: int, m: nat)
    requires 1 <= m <= 12 && m != 2
    ensures DayOfYear(if m == 12 then 1 else m + 1, 1) == DayOfYear(m, DaysInMonth(y, m)) + 1
  {}

  /** March years follow one another without gap, also across eras. */
  lemma NextYear(my: int)
    ensures var era := Era(my);
            var last := if IsLeap(my + 1) then 365 else 364;
            Era(my + 1) * 146097 + DayOfEra(my + 1 - Era(my + 1) * 400, 0)
            == era * 146097 + DayOfEra(my - era * 400, last) + 1
  {
    hide Era;
    var era := Era(my);
    var yoe := my - era * 400;
    EraIsFloor(my);
    EraIsFloor(my + 1);
    LeapEnds(my + 1, era, yoe);
    if yoe == 399 {
      DivMod(my + 1, 400, era + 1, 0);
    } else {
      DivMod(my + 1, 400, era, yoe + 1);
      YearGrows(yoe);
    }
  }

  lemma YearGrows(yoe: int)
    requires 0 <= yoe < 399
    ensures DayOfEra(yoe + 1, 0) == DayOfEra(yoe, if LongYear(yoe) then 365 else 364) + 1
  {
    assert (yoe + 1) / 4 == yoe / 4 + if yoe % 4 == 3 then 1 else 0;
    assert (yoe + 1) / 100 == yoe / 100 + if yoe % 100 == 99 then 1 else 0;
    assert yoe % 100 == 99 ==> yoe % 4 == 3;
  }

  /** Every calendar day is one more than the day before it. */
  lemma DaysGrowByOne(t: Date)
    requires Valid(t)
    ensures Days(NextDay(t)) == Days(t) + 1
  {
    hide Era, DayOfEra, IsLeap;
    if t.day == DaysInMonth(t.year, t.month) {
      if t.month == 2 {
        NextYear(t.year - 1);
        assert DayOfYear(3, 1) == 0;
        assert DayOfYear(2, t.day) == if IsLeap(t.year) then 365 else 364;
        OneDayLater(t.year - 1, DayOfYear(2, t.day));
      } else {
        NextMonth(t.year, t.month);
        var my := if t.month <= 2 then t.year - 1 else t.year;
        OneDayLater(my, DayOfYear(t.month, t.day));
      }
    } else {
      var my := if t.month <= 2 then t.year - 1 else t.year;
      OneDayLater(my, DayOfYear(t.month, t.day));
    }
  }

  lemma OneDayLater(my: int, doy: int)
    ensures DayOfEra(my - Era(my) * 400, doy + 1) == DayOfEra(my - Era(my) * 400, doy) + 1
  {}

  const EPOCH := Date(1970, 1, 1)

  lemma EpochIsZero()
    ensures Valid(EPOCH) && Days(EPOCH) == 0
  {}

  /** Zero at the epoch, and one more with every calendar day. */
  ghost predicate CountsDays(count: Date -> int) {
    count(EPOCH) == 0 && forall t | Valid(t) :: count(NextDay(t)) == count(t) + 1
  }

  function PreviousDay(t: Date): (r: Date)
    requires Valid(t)
    ensures Valid(r) && NextDay(r) == t
  {
    if t.day > 1 then t.(day := t.day - 1)
    else if t.month > 1 then Date(t.year, t.month - 1, DaysInMonth(t.year, t.month - 1))
    else Date(t.year - 1, 12, 31)
  }

  /** How far the date is from the epoch, in a calendar whose months all have 31 days. */
  function Distance(t: Date): nat {
    var n := (12 * (t.year - 1970) + t.month) * 31 + t.day - 32;
    if n < 0 then -n else n
  }

  lemma Nearer(t: Date)
    requires Valid(t)
    ensures t.year < 1970 ==> Distance(NextDay(t)) < Distance(t)
    ensures t.year >= 1970 && t != EPOCH ==> Distance(PreviousDay(t)) < Distance(t)
  {
    hide IsLeap;
  }

  /** The day count is the only one that counts calendar days from the epoch. */
  lemma {:induction false} DaysIsTheCount(count: Date -> int, t: Date)
    requires CountsDays(count) && Valid(t)
    ensures Days(t) == count(t)
    decreases Distance(t)
  {
    hide Days, Valid, NextDay, PreviousDay, Distance;
    Nearer(t);
    if t == EPOCH {
      EpochIsZero();
    } else if t.year < 1970 {
      DaysIsTheCount(count, NextDay(t));
      DaysGrowByOne(t);
    } else {
      var before := PreviousDay(t);
      DaysIsTheCount(count, before);
      DaysGrowByOne(before);
    }
  }

  // ---- two-digit years -----------------------------------------------------------------------

  function ResolveTwoDigitYear(yy: nat, now: nat): int
    requires yy < 100
  {
    var nowYear := YearFromDays(now / 86400);
    var year := nowYear - Rem(nowYear, 100) + yy;
    if year > nowYear + 50 then year - 100
    else if year + 100 <= nowYear + 50 then year + 100
    else year
  }

  lemma YearIsPositive(days: int)
    requires days >= 0
    ensures YearFromDays(days) >= 1600
    ensures days < 146097 ==> YearFromDays(days) <= 3000
  {
    var n := days + 719468;
    DayEraIsFloor(n);
    var doe := n - n / 146097 * 146097;
    assert 0 <= doe < 146097 && n / 146097 >= 4;
    assert YearOfEra(doe) >= 0;
  }

  /** It is the one year with those digits in the window (now - 50, now + 50]. */
  lemma TwoDigitYearIsUnique(yy: nat, now: nat, y: int)
    requires yy < 100
    ensures var n := YearFromDays(now / 86400);
            y == ResolveTwoDigitYear(yy, now) <==> y % 100 == yy && n - 50 < y <= n + 50
  {
    hide YearFromDays;
    var n := YearFromDays(now / 86400);
    var r := ResolveTwoDigitYear(yy, now);
    YearIsPositive(now / 86400);
    assert r % 100 == yy && n - 50 < r <= n + 50 by {
      DivMod(r, 100, (r - yy) / 100, yy);
    }
    if y % 100 == yy && n - 50 < y <= n + 50 {
      assert y - r == 100 * (y / 100 - r / 100);
    }
  }
}
