/** The proleptic Gregorian calendar, day numbers and the closed form between them. */
module Calendar {

  datatype Date = Date(year: int, month: int, day: int)

  // ----- the calendar itself ---------------------------------------------------------------------

  predicate Leap(y: int)
  {
    y % 4 == 0 && (y % 100 != 0 || y % 400 == 0)
  }

  function DaysInMonth(y: int, m: int): (n: int)
    requires 1 <= m <= 12
    ensures 28 <= n <= 31
  {
    if m == 2 then (if Leap(y) then 29 else 28)
    else if m == 4 || m == 6 || m == 9 || m == 11 then 30
    else 31
  }

  predicate Valid(d: Date)
  {
    1 <= d.month <= 12 && 1 <= d.day <= DaysInMonth(d.year, d.month)
  }

  /** Tomorrow's date. */
  function NextDay(d: Date): (r: Date)
    requires Valid(d)
    ensures Valid(r)
  {
    if d.day < DaysInMonth(d.year, d.month) then d.(day := d.day + 1)
    else if d.month < 12 then Date(d.year, d.month + 1, 1)
    else Date(d.year + 1, 1, 1)
  }

  predicate Before(a: Date, b: Date)
  {
    || a.year < b.year
    || (a.year == b.year && (a.month < b.month || (a.month == b.month && a.day < b.day)))
  }

  const EPOCH := Date(1970, 1, 1)

  // ----- the closed form -------------------------------------------------------------------------

  /** Day 0 is the first of January 1970; day numbers go both ways. */
  function CivilFromDays(z0: int): Date
  {
    var z := z0 + 719468;
    var era := z / 146097;
    var doe := z % 146097;
    var yoe := (doe - doe / 1460 + doe / 36524 - doe / 146096) / 365;
    var y := yoe + era * 400;
    var doy := doe - (365 * yoe + yoe / 4 - yoe / 100);
    var mp := (5 * doy + 2) / 153;
    var d := doy - (153 * mp + 2) / 5 + 1;
    var m := if mp < 10 then mp + 3 else mp - 9;
    Date(if m <= 2 then y + 1 else y, m, d)
  }

  /** The other way: years run from March, in eras of four hundred. */
  function DaysFromCivil(d: Date): int
  {
    var y := if d.month <= 2 then d.year - 1 else d.year;
    var mp := if d.month > 2 then d.month - 3 else d.month + 9;
    DayNumber(y, (153 * mp + 2) / 5 + d.day - 1)
  }

  // ----- years that start in March ---------------------------------------------------------------

  function YearOfEraStart(yoe: int): int
  {
    365 * yoe + yoe / 4 - yoe / 100
  }

  /** The number of day `doy` of the year that starts in March of year `y`. */
  function DayNumber(y: int, doy: int): int
  {
    y / 400 * 146097 + YearOfEraStart(y % 400) + doy - 719468
  }

  function YearLength(y: int): int
  {
    if Leap(y + 1) then 366 else 365
  }

  lemma YearParts(yoe: int)
    requires 0 <= yoe < 400
    ensures var c, q, k := yoe / 100, yoe % 100 / 4, yoe % 4;
            && 0 <= c < 4 && 0 <= q < 25 && 0 <= k < 4 && yoe == 100 * c + 4 * q + k
            && YearOfEraStart(yoe) == 36524 * c + 1461 * q + 365 * k
            && (Leap(yoe + 1) <==> k == 3 && (q < 24 || c == 3))
  {
  }

  lemma YearsFollowInEra(yoe: int)
    requires 0 <= yoe < 400
    ensures YearOfEraStart(0) == 0
    ensures YearOfEraStart(yoe) + YearLength(yoe) == if yoe == 399 then 146097 else YearOfEraStart(yoe + 1)
  {
    YearParts(yoe);
  }

  /** Each March-year starts when the one before is over. */
  lemma YearsFollow(y: int)
    ensures DayNumber(y + 1, 0) == DayNumber(y, YearLength(y))
  {
    hide *;
    var era, yoe := y / 400, y % 400;
    assert y == yoe + era * 400;
    LengthInEra(era, yoe);
    YearsFollowInEra(yoe);
    DayNumberIs(y, YearLength(y));
    DayNumberIs(y + 1, 0);
    assert yoe == 399 ==> (y + 1) / 400 == era + 1 && (y + 1) % 400 == 0;
    assert yoe < 399 ==> (y + 1) / 400 == era && (y + 1) % 400 == yoe + 1;
  }

  lemma LeapInEra(era: int, y: int)
    ensures Leap(400 * era + y) == Leap(y)
  {
    assert (400 * era + y) / 4 == 100 * era + y / 4;
    assert (400 * era + y) / 100 == 4 * era + y / 100;
    assert (400 * era + y) / 400 == era + y / 400;
  }

  function YearOfEra(doe: int): int
  {
    (doe - doe / 1460 + doe / 36524 - doe / 146096) / 365
  }

  /** The division formula finds the year of the era: centuries, then leap cycles, then years. */
  lemma YearOfEraParts(c: int, q: int, k: int, doy: int)
    requires 0 <= c < 4 && 0 <= q < 25 && 0 <= k < 4 && 0 <= doy <= 365
    requires doy == 365 ==> k == 3 && (q < 24 || c == 3)
    ensures YearOfEra(36524 * c + 1461 * q + 365 * k + doy) == 100 * c + 4 * q + k
  {
    var s := 1461 * q + 365 * k + doy;
    var doe := 36524 * c + s;
    assert doe / 36524 - doe / 146096 == c;
    var u := (24 * c + q + 365 * k + doy) / 1460;
    assert doe / 1460 == 25 * c + q + u;
    assert 0 <= doy - u < 365;
    assert doe - doe / 1460 + c == 365 * (100 * c + 4 * q + k) + (doy - u);
  }

  lemma YearOfEraIs(yoe: int, doy: int)
    requires 0 <= yoe < 400 && 0 <= doy < YearLength(yoe)
    ensures 0 <= YearOfEraStart(yoe) + doy < 146097
    ensures YearOfEra(YearOfEraStart(yoe) + doy) == yoe
  {
    YearParts(yoe);
    YearOfEraParts(yoe / 100, yoe % 100 / 4, yoe % 4, doy);
  }

  /** Every day of the era lies in some year of it. */
  lemma EraDay(doe: int) returns (yoe: int, doy: int)
    requires 0 <= doe < 146097
    ensures 0 <= yoe < 400 && 0 <= doy < YearLength(yoe) && doe == YearOfEraStart(yoe) + doy
  {
    var c := if doe / 36524 > 3 then 3 else doe / 36524;
    var s := doe - 36524 * c;
    var q := s / 1461;
    var r := s - 1461 * q;
    var k := if r / 365 > 3 then 3 else r / 365;
    doy := r - 365 * k;
    yoe := 100 * c + 4 * q + k;
    YearParts(yoe);
    assert yoe / 100 == c && yoe % 100 / 4 == q && yoe % 4 == k;
  }

  /** ... and so does every day. */
  lemma SomeDay(z: int) returns (y: int, doy: int)
    ensures 0 <= doy < YearLength(y) && z == DayNumber(y, doy)
  {
    var n := z + 719468;
    var yoe;
    yoe, doy := EraDay(n % 146097);
    y := 400 * (n / 146097) + yoe;
    LeapInEra(n / 146097, yoe + 1);
    assert y / 400 == n / 146097 && y % 400 == yoe;
  }

  // ----- months, counted from March --------------------------------------------------------------

  function MonthStart(mp: int): int
  {
    (153 * mp + 2) / 5
  }

  function MonthOf(doy: int): int
  {
    (5 * doy + 2) / 153
  }

  /** Month `mp` of the March-year `y`. */
  function MarchDate(y: int, doy: int): Date
  {
    var mp := MonthOf(doy);
    var m := if mp < 10 then mp + 3 else mp - 9;
    Date(if m <= 2 then y + 1 else y, m, doy - MonthStart(mp) + 1)
  }

  lemma MonthIs(mp: int, day: int)
    requires 0 <= mp < 12 && 0 <= day < (if mp == 11 then 29 else MonthStart(mp + 1) - MonthStart(mp))
    ensures MonthOf(MonthStart(mp) + day) == mp
  {
  }

  lemma MonthLength(y: int, mp: int)
    requires 0 <= mp < 12
    ensures var m := if mp < 10 then mp + 3 else mp - 9;
            mp < 11 ==> DaysInMonth(y, m) == MonthStart(mp + 1) - MonthStart(mp)
    ensures mp == 11 ==> MonthStart(mp) == 337
  {
  }

  lemma MonthExists(doy: int)
    requires 0 <= doy <= 365
    ensures 0 <= MonthOf(doy) < 12 && MonthStart(MonthOf(doy)) <= doy
    ensures MonthOf(doy) < 11 ==> doy < MonthStart(MonthOf(doy) + 1)
  {
  }

  /** Dates and days of March-years are the same thing. */
  lemma MarchDateValid(y: int, doy: int)
    requires 0 <= doy < YearLength(y)
    ensures Valid(MarchDate(y, doy))
    ensures DaysFromCivil(MarchDate(y, doy)) == DayNumber(y, doy)
  {
    MonthExists(doy);
    MonthLength(y, MonthOf(doy));
  }

  lemma MarchDateOf(d: Date) returns (y: int, doy: int)
    requires Valid(d)
    ensures 0 <= doy < YearLength(y) && MarchDate(y, doy) == d && DayNumber(y, doy) == DaysFromCivil(d)
  {
    hide DayNumber;
    y := if d.month <= 2 then d.year - 1 else d.year;
    var mp := if d.month > 2 then d.month - 3 else d.month + 9;
    doy := MonthStart(mp) + d.day - 1;
    MonthLength(d.year, mp);
    MonthIs(mp, d.day - 1);
  }

  // ----- the closed form is the calendar ---------------------------------------------------------

  lemma LengthInEra(era: int, yoe: int)
    ensures YearLength(yoe + era * 400) == YearLength(yoe)
  {
    hide Leap;
    LeapInEra(era, yoe + 1);
    assert 400 * era + (yoe + 1) == yoe + era * 400 + 1;
  }

  lemma CivilInEra(era: int, doe: int)
    requires 0 <= doe < 146097
    ensures CivilFromDays(era * 146097 + doe - 719468)
         == MarchDate(YearOfEra(doe) + era * 400, doe - YearOfEraStart(YearOfEra(doe)))
  {
    var n := era * 146097 + doe;
    assert n / 146097 == era && n % 146097 == doe;
  }

  lemma CivilInYear(era: int, yoe: int, doy: int)
    requires 0 <= yoe < 400 && 0 <= doy < YearLength(yoe)
    ensures CivilFromDays(era * 146097 + YearOfEraStart(yoe) + doy - 719468) == MarchDate(yoe + era * 400, doy)
  {
    hide *;
    var doe := YearOfEraStart(yoe) + doy;
    YearOfEraIs(yoe, doy);
    CivilInEra(era, doe);
    assert doe - YearOfEraStart(YearOfEra(doe)) == doy;
  }

  lemma DayNumberIs(y: int, doy: int)
    ensures DayNumber(y, doy) == y / 400 * 146097 + YearOfEraStart(y % 400) + doy - 719468
  {
  }

  lemma CivilIsMarchDate(y: int, doy: int)
    requires 0 <= doy < YearLength(y)
    ensures CivilFromDays(DayNumber(y, doy)) == MarchDate(y, doy)
  {
    hide *;
    var era, yoe := y / 400, y % 400;
    assert y == yoe + era * 400;
    LengthInEra(era, yoe);
    CivilInYear(era, yoe, doy);
    DayNumberIs(y, doy);
  }

  lemma CivilAndBack(z: int)
    ensures Valid(CivilFromDays(z)) && DaysFromCivil(CivilFromDays(z)) == z
  {
    hide *;
    var y, doy := SomeDay(z);
    CivilIsMarchDate(y, doy);
    MarchDateValid(y, doy);
  }

  lemma DaysAndBack(d: Date)
    requires Valid(d)
    ensures CivilFromDays(DaysFromCivil(d)) == d
  {
    hide *;
    var y, doy := MarchDateOf(d);
    CivilIsMarchDate(y, doy);
  }

  lemma DayNumberStep(d: Date)
    ensures forall y, a, b :: DayNumber(y, a) - DayNumber(y, b) == a - b
  {
  }

  lemma FebruaryEnds(y: int)
    ensures MonthStart(11) + DaysInMonth(y, 2) == YearLength(y - 1)
  {
  }

  lemma NextDayNumber(d: Date)
    requires Valid(d)
    ensures DaysFromCivil(NextDay(d)) == DaysFromCivil(d) + 1
  {
    hide DayNumber, YearOfEraStart, Leap;
    DayNumberStep(d);
    var mp := if d.month > 2 then d.month - 3 else d.month + 9;
    MonthLength(d.year, mp);
    if d.day == DaysInMonth(d.year, d.month) && d.month == 2 {
      YearsFollow(d.year - 1);
      FebruaryEnds(d.year);
    }
  }

  /** For every day, the date of the next day is the calendar's next date. */
  lemma CivilSteps(z: int)
    ensures Valid(CivilFromDays(z)) && CivilFromDays(z + 1) == NextDay(CivilFromDays(z))
  {
    hide *;
    CivilAndBack(z);
    NextDayNumber(CivilFromDays(z));
    DaysAndBack(NextDay(CivilFromDays(z)));
  }

  lemma CivilOfEpoch()
    ensures CivilFromDays(0) == EPOCH
  {
  }

  function StepDays(d: Date, n: nat): (r: Date)
    requires Valid(d)
    ensures Valid(r)
  {
    if n == 0 then d else NextDay(StepDays(d, n - 1))
  }

  /** The closed form is stepping a calendar, from any starting day. */
  lemma {:induction false} CivilIsStepping(z: int, n: nat)
    ensures Valid(CivilFromDays(z)) && CivilFromDays(z + n) == StepDays(CivilFromDays(z), n)
  {
    hide CivilFromDays, NextDay, Valid;
    CivilSteps(z);
    if n > 0 {
      CivilIsStepping(z, n - 1);
      CivilSteps(z + n - 1);
    }
  }

  lemma NextIsLater(d: Date)
    requires Valid(d)
    ensures Before(d, NextDay(d))
  {
  }

  lemma {:induction false} LaterAfter(d: Date, n: nat)
    requires Valid(d) && n > 0
    ensures Before(d, StepDays(d, n))
  {
    hide NextDay, Valid;
    NextIsLater(StepDays(d, n - 1));
    if n > 1 {
      LaterAfter(d, n - 1);
    }
  }

  /** Day numbers and dates are in the same order; in particular no two days share a date. */
  lemma CivilOrder(a: int, b: int)
    ensures a < b <==> Before(CivilFromDays(a), CivilFromDays(b))
    ensures a == b <==> CivilFromDays(a) == CivilFromDays(b)
  {
    hide CivilFromDays, StepDays, Valid;
    if a < b {
      CivilIsStepping(a, b - a);
      LaterAfter(CivilFromDays(a), b - a);
    } else if b < a {
      CivilIsStepping(b, a - b);
      LaterAfter(CivilFromDays(b), a - b);
    }
  }
}
