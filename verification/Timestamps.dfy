/** Timestamps as text: seconds precision, UTC, in the shape of section 5.6 of RFC 3339. */
module Timestamps {
  import opened Wrappers
  import opened Calendar
  import StoreText

  // ----- numbers of a fixed width ----------------------------------------------------------------

  function Zeros(n: nat): (r: string)
    ensures |r| == n
  {
    if n == 0 then "" else "0" + Zeros(n - 1)
  }

  /** A number padded with zeros to at least `width` characters, the sign included. */
  function Padded(n: int, width: nat): string
  {
    if n < 0 then
      var t := StoreText.Natural(-n);
      "-" + (if |t| + 1 < width then Zeros(width - 1 - |t|) else "") + t
    else
      var t := StoreText.Natural(n);
      (if |t| < width then Zeros(width - |t|) else "") + t
  }

  function Power(width: nat): (p: nat)
    ensures p > 0
  {
    if width == 0 then 1 else 10 * Power(width - 1)
  }

  /** The lowest `width` decimal digits. */
  function Digits(n: nat, width: nat): (r: string)
    ensures |r| == width
    ensures forall i | 0 <= i < |r| :: StoreText.IsDigit(r[i])
  {
    if width == 0 then "" else Digits(n / 10, width - 1) + [StoreText.Digit(n % 10)]
  }

  lemma {:induction false} ZeroDigits(width: nat)
    ensures Digits(0, width) == seq(width, _ => '0')
  {
    if width > 0 {
      ZeroDigits(width - 1);
    }
  }

  lemma {:induction false} ZerosAre(width: nat)
    ensures Zeros(width) == seq(width, _ => '0')
  {
    if width > 0 {
      ZerosAre(width - 1);
    }
  }

  lemma {:induction false} ParseZeros(k: nat, t: string)
    requires StoreText.ParseDigits(t).Some?
    ensures StoreText.ParseDigits(Zeros(k) + t) == StoreText.ParseDigits(t)
    decreases |t| + k, |t|
  {
    var s := Zeros(k) + t;
    if |t| > 0 {
      assert s[..|s| - 1] == Zeros(k) + t[..|t| - 1];
      ParseZeros(k, t[..|t| - 1]);
    } else if k > 0 {
      ZerosAre(k);
      ZerosAre(k - 1);
      assert s[..|s| - 1] == Zeros(k - 1) + t;
      ParseZeros(k - 1, t);
    }
  }

  /** A padded number is as long as asked for, or as its digits and sign need, and reads back as the number. */
  lemma PaddedIs(n: int, width: nat)
    ensures StoreText.Parse(Padded(n, width)) == Some(n)
    ensures |Padded(n, width)| == if |StoreText.Decimal(n)| < width then width else |StoreText.Decimal(n)|
  {
    hide StoreText.Natural, StoreText.ParseDigits, Zeros;
    var m: nat := if n < 0 then -n else n;
    var t := StoreText.Natural(m);
    var room: int := if n < 0 then width - 1 else width;
    var zeros: nat := if |t| < room then room - |t| else 0;
    StoreText.ParseNatural(m);
    ParseZeros(zeros, t);
    var digits := Zeros(zeros) + t;
    assert Padded(n, width) == if n < 0 then "-" + digits else digits;
    if n < 0 {
      assert Padded(n, width)[1..] == digits;
    } else {
      ZerosAre(zeros);
      assert StoreText.IsDigit(digits[0]);
    }
  }

  lemma {:induction false} ZerosThenDigits(n: nat, width: nat)
    requires n < Power(width) && width > 0
    ensures |StoreText.Natural(n)| <= width
    ensures Zeros(width - |StoreText.Natural(n)|) + StoreText.Natural(n) == Digits(n, width)
  {
    if n < 10 {
      if width > 1 {
        ZeroDigits(width - 1);
        ZerosAre(width - 1);
      }
    } else {
      ZerosThenDigits(n / 10, width - 1);
    }
  }

  lemma PaddedIsDigits(n: nat, width: nat)
    requires n < Power(width) && width > 0
    ensures Padded(n, width) == Digits(n, width)
  {
    ZerosThenDigits(n, width);
  }

  lemma {:induction false} ParseBack(n: nat, width: nat)
    requires n < Power(width)
    ensures StoreText.ParseDigits(Digits(n, width)) == Some(n)
  {
    if width > 0 {
      ParseBack(n / 10, width - 1);
      assert Digits(n, width)[..width - 1] == Digits(n / 10, width - 1);
    }
  }

  // ----- the order of strings --------------------------------------------------------------------

  predicate TextLess(a: string, b: string)
  {
    |b| > 0 && (|a| == 0 || a[0] < b[0] || (a[0] == b[0] && TextLess(a[1..], b[1..])))
  }

  lemma {:induction false} TextLessThen(a: string, b: string, x: string, y: string)
    requires |a| == |b|
    ensures TextLess(a + x, b + y) <==> TextLess(a, b) || (a == b && TextLess(x, y))
  {
    if |a| == 0 {
      assert a + x == x && b + y == y;
    } else {
      assert (a + x)[1..] == a[1..] + x && (b + y)[1..] == b[1..] + y;
      TextLessThen(a[1..], b[1..], x, y);
      assert a == [a[0]] + a[1..] && b == [b[0]] + b[1..];
    }
  }

  lemma OneLess(c: char, d: char)
    ensures TextLess([c], [d]) <==> c < d
  {
  }

  lemma {:induction false} DigitsLess(m: nat, n: nat, width: nat)
    requires m < Power(width) && n < Power(width)
    ensures TextLess(Digits(m, width), Digits(n, width)) <==> m < n
    ensures Digits(m, width) == Digits(n, width) <==> m == n
  {
    ParseBack(m, width);
    ParseBack(n, width);
    if width > 0 {
      DigitsLess(m / 10, n / 10, width - 1);
      var c, d := [StoreText.Digit(m % 10)], [StoreText.Digit(n % 10)];
      TextLessThen(Digits(m / 10, width - 1), Digits(n / 10, width - 1), c, d);
      OneLess(c[0], d[0]);
    }
  }

  // ----- the format ------------------------------------------------------------------------------

  const DAY := 86400

  /** A timestamp in full. */
  function Iso8601(secs: int): string
  {
    var days := secs / DAY;
    var rem := secs % DAY;
    var date := CivilFromDays(days);
    Padded(date.year, 4) + "-" + Padded(date.month, 2) + "-" + Padded(date.day, 2)
    + "T" + Padded(rem / 3600, 2) + ":" + Padded(rem % 3600 / 60, 2) + ":" + Padded(rem % 60, 2) + "Z"
  }

  /** The six numbers of a timestamp: year, month, day, hour, minute, second. */
  function Fields(secs: int): (f: seq<int>)
    ensures |f| == 6
  {
    var date, rem := CivilFromDays(secs / DAY), secs % DAY;
    [date.year, date.month, date.day, rem / 3600, rem % 3600 / 60, rem % 60]
  }

  const WIDTHS: seq<nat> := [4, 2, 2, 2, 2, 2]
  const MARKS: string := "--T::Z"

  /** Fixed-width numbers, each followed by its mark. */
  function Row(f: seq<nat>, widths: seq<nat>, marks: string): (r: string)
    requires |f| == |widths| == |marks|
  {
    if |f| == 0 then "" else Digits(f[0], widths[0]) + [marks[0]] + Row(f[1..], widths[1..], marks[1..])
  }

  predicate Fit(f: seq<nat>, widths: seq<nat>)
    requires |f| == |widths|
  {
    forall i | 0 <= i < |f| :: f[i] < Power(widths[i])
  }

  /** Read such a row back, refusing anything else. */
  function ReadRow(s: string, widths: seq<nat>, marks: string): Option<seq<nat>>
    requires |widths| == |marks|
  {
    if |widths| == 0 then (if s == "" then Some([]) else None)
    else if |s| <= widths[0] || s[widths[0]] != marks[0] then None
    else
      match (StoreText.ParseDigits(s[..widths[0]]), ReadRow(s[widths[0] + 1..], widths[1..], marks[1..]))
      case (Some(n), Some(rest)) => Some([n] + rest)
      case _ => None
  }

  lemma {:induction false} ReadsRow(f: seq<nat>, widths: seq<nat>, marks: string)
    requires |f| == |widths| == |marks| && Fit(f, widths)
    ensures ReadRow(Row(f, widths, marks), widths, marks) == Some(f)
  {
    hide Digits, Power, StoreText.ParseDigits;
    if |f| > 0 {
      var first, rest := Digits(f[0], widths[0]), Row(f[1..], widths[1..], marks[1..]);
      var s := Row(f, widths, marks);
      assert s == first + [marks[0]] + rest;
      assert s[..widths[0]] == first && s[widths[0] + 1..] == rest && s[widths[0]] == marks[0];
      ParseBack(f[0], widths[0]);
      ReadsRow(f[1..], widths[1..], marks[1..]);
      assert f == [f[0]] + f[1..];
    }
  }

  predicate FieldsLess(f: seq<int>, g: seq<int>)
  {
    |g| > 0 && (|f| == 0 || f[0] < g[0] || (f[0] == g[0] && FieldsLess(f[1..], g[1..])))
  }

  lemma {:induction false} RowOrder(f: seq<nat>, g: seq<nat>, widths: seq<nat>, marks: string)
    requires |f| == |g| == |widths| == |marks| && Fit(f, widths) && Fit(g, widths)
    ensures TextLess(Row(f, widths, marks), Row(g, widths, marks)) <==> FieldsLess(f, g)
  {
    if |f| > 0 {
      var a, b := Digits(f[0], widths[0]), Digits(g[0], widths[0]);
      var x, y := Row(f[1..], widths[1..], marks[1..]), Row(g[1..], widths[1..], marks[1..]);
      DigitsLess(f[0], g[0], widths[0]);
      RowOrder(f[1..], g[1..], widths[1..], marks[1..]);
      assert a + [marks[0]] + x == a + ([marks[0]] + x) && b + [marks[0]] + y == b + ([marks[0]] + y);
      TextLessThen(a, b, [marks[0]] + x, [marks[0]] + y);
      TextLessThen([marks[0]], [marks[0]], x, y);
      OneLess(marks[0], marks[0]);
    }
  }

  // ----- four-digit years ------------------------------------------------------------------------

  predicate FourDigitYear(secs: int)
  {
    0 <= CivilFromDays(secs / DAY).year < 10000
  }

  lemma Powers()
    ensures Power(2) == 100 && Power(4) == 10000
  {
    assert Power(1) == 10 && Power(3) == 1000;
  }

  lemma FieldsFit(secs: int)
    requires FourDigitYear(secs)
    ensures forall i | 0 <= i < 6 :: Fields(secs)[i] >= 0
    ensures Fit(Fields(secs), WIDTHS)
  {
    hide CivilFromDays;
    CivilAndBack(secs / DAY);
    Powers();
  }

  lemma RowStep(f: seq<nat>, widths: seq<nat>, marks: string, w: seq<nat>, m: string)
    requires |f| == |widths| == |marks| > 0 && w == [widths[0]] && m == [marks[0]]
    ensures Row(f, widths, marks) == Digits(f[0], w[0]) + m + Row(f[1..], widths[1..], marks[1..])
    ensures |f| == 1 ==> Row(f[1..], widths[1..], marks[1..]) == ""
    ensures f[1..] == [] || f[1..][1..] == f[2..]
  {
  }

  lemma RowOfThree(f: seq<nat>)
    requires |f| == 3
    ensures Row(f, [2, 2, 2], "::Z") == Digits(f[0], 2) + ":" + Digits(f[1], 2) + ":" + Digits(f[2], 2) + "Z"
  {
    hide Digits, Row;
    RowStep(f, [2, 2, 2], "::Z", [2], ":");
    RowStep(f[1..], [2, 2], ":Z", [2], ":");
    RowStep(f[2..], [2], "Z", [2], "Z");
  }

  lemma RowOfSix(f: seq<nat>)
    requires |f| == 6
    ensures Row(f, WIDTHS, MARKS)
         == Digits(f[0], 4) + "-" + Digits(f[1], 2) + "-" + Digits(f[2], 2)
            + "T" + Digits(f[3], 2) + ":" + Digits(f[4], 2) + ":" + Digits(f[5], 2) + "Z"
  {
    hide Digits, Row;
    RowStep(f, WIDTHS, MARKS, [4], "-");
    RowStep(f[1..], [2, 2, 2, 2, 2], "-T::Z", [2], "-");
    RowStep(f[2..], [2, 2, 2, 2], "T::Z", [2], "T");
    var r3 := Row(f[3..], [2, 2, 2], "::Z");
    assert Row(f, WIDTHS, MARKS) == Digits(f[0], 4) + "-" + Digits(f[1], 2) + "-" + Digits(f[2], 2) + "T" + r3;
    RowOfThree(f[3..]);
  }

  lemma IsoIsRow(secs: int)
    requires FourDigitYear(secs)
    ensures forall i | 0 <= i < 6 :: Fields(secs)[i] >= 0
    ensures Iso8601(secs) == Row(Fields(secs), WIDTHS, MARKS)
  {
    hide CivilFromDays, Padded, Digits, Row, Power;
    FieldsFit(secs);
    Powers();
    var f: seq<nat> := Fields(secs);
    assert f[0] < Power(WIDTHS[0]) && f[1] < Power(WIDTHS[1]) && f[2] < Power(WIDTHS[2]);
    assert f[3] < Power(WIDTHS[3]) && f[4] < Power(WIDTHS[4]) && f[5] < Power(WIDTHS[5]);
    PaddedIsDigits(f[0], 4);
    PaddedIsDigits(f[1], 2);
    PaddedIsDigits(f[2], 2);
    PaddedIsDigits(f[3], 2);
    PaddedIsDigits(f[4], 2);
    PaddedIsDigits(f[5], 2);
    RowOfSix(f);
  }

  /** Read a timestamp. */
  function ParseIso(s: string): Option<int>
  {
    match ReadRow(s, WIDTHS, MARKS)
    case None => None
    case Some(f) =>
      if |f| != 6 then None
      else
        var date := Date(f[0], f[1], f[2]);
        if Valid(date) && f[3] < 24 && f[4] < 60 && f[5] < 60
        then Some(DaysFromCivil(date) * DAY + f[3] * 3600 + f[4] * 60 + f[5])
        else None
  }

  lemma ClockParts(rem: int)
    requires 0 <= rem < DAY
    ensures 0 <= rem / 3600 < 24 && 0 <= rem % 3600 / 60 < 60 && 0 <= rem % 60 < 60
    ensures rem / 3600 * 3600 + rem % 3600 / 60 * 60 + rem % 60 == rem
  {
  }

  /** With a four-digit year the text is twenty characters and reads back as the same instant. */
  lemma IsoRoundTrip(secs: int)
    requires FourDigitYear(secs)
    ensures ParseIso(Iso8601(secs)) == Some(secs)
  {
    hide CivilFromDays, DaysFromCivil, Iso8601, Row, ReadRow, Calendar.Valid;
    FieldsFit(secs);
    IsoIsRow(secs);
    var f: seq<nat> := Fields(secs);
    ReadsRow(f, WIDTHS, MARKS);
    CivilAndBack(secs / DAY);
    var date := CivilFromDays(secs / DAY);
    assert Date(f[0], f[1], f[2]) == date;
    ClockParts(secs % DAY);
  }

  lemma {:induction false} FirstDifference(f: seq<int>, g: seq<int>, i: nat)
    requires i < |f| && i < |g| && f[i] < g[i] && f[..i] == g[..i]
    ensures FieldsLess(f, g)
  {
    if i > 0 {
      assert f[0] == f[..i][0] && g[0] == g[..i][0];
      assert f[1..][..i - 1] == f[..i][1..] && g[1..][..i - 1] == g[..i][1..];
      FirstDifference(f[1..], g[1..], i - 1);
    }
  }

  lemma {:induction false} FieldsNotBoth(f: seq<int>, g: seq<int>)
    requires FieldsLess(f, g)
    ensures f != g && !FieldsLess(g, f)
  {
    if |f| > 0 && f[0] == g[0] {
      FieldsNotBoth(f[1..], g[1..]);
    }
  }

  lemma EarlierFields(a: int, b: int)
    requires a < b
    ensures FieldsLess(Fields(a), Fields(b))
  {
    hide CivilFromDays, FieldsLess, Calendar.Valid;
    var f, g := Fields(a), Fields(b);
    CivilOrder(a / DAY, b / DAY);
    ClockParts(a % DAY);
    ClockParts(b % DAY);
    var i := if f[0] < g[0] then 0 else if f[1] < g[1] then 1 else if f[2] < g[2] then 2
             else if f[3] < g[3] then 3 else if f[4] < g[4] then 4 else 5;
    assert f[..i] == g[..i] && f[i] < g[i];
    FirstDifference(f, g, i);
  }

  /** With four-digit years, text order is time order. */
  lemma IsoOrder(a: int, b: int)
    requires FourDigitYear(a) && FourDigitYear(b)
    ensures a < b <==> TextLess(Iso8601(a), Iso8601(b))
    ensures a == b <==> Iso8601(a) == Iso8601(b)
  {
    hide Fields, FieldsLess, Iso8601, Row, TextLess;
    IsoIsRow(a);
    IsoIsRow(b);
    FieldsFit(a);
    FieldsFit(b);
    RowOrder(Fields(a), Fields(b), WIDTHS, MARKS);
    IsoRoundTrip(a);
    IsoRoundTrip(b);
    if a < b {
      EarlierFields(a, b);
    } else if b < a {
      EarlierFields(b, a);
      FieldsNotBoth(Fields(b), Fields(a));
    } else {
      if FieldsLess(Fields(a), Fields(b)) {
        FieldsNotBoth(Fields(a), Fields(b));
        assert false;
      }
    }
  }

  // ----- other years -----------------------------------------------------------------------------

  lemma {:induction false} SignIsNoDigit(s: string)
    requires |s| > 0 && s[0] == '-'
    ensures StoreText.ParseDigits(s).None?
  {
    if |s| > 1 {
      SignIsNoDigit(s[..|s| - 1]);
    }
  }

  lemma {:induction false} LongNatural(n: nat, width: nat)
    requires n >= Power(width)
    ensures |StoreText.Natural(n)| > width
  {
    if width > 0 && n >= 10 {
      LongNatural(n / 10, width - 1);
    }
  }

  lemma IsoStart(secs: int)
    ensures |Iso8601(secs)| >= |Padded(CivilFromDays(secs / DAY).year, 4)|
    ensures Padded(CivilFromDays(secs / DAY).year, 4) <= Iso8601(secs)
  {
    hide Padded, CivilFromDays;
    var date, rem := CivilFromDays(secs / DAY), secs % DAY;
    var a, b, c := Padded(date.year, 4), Padded(date.month, 2), Padded(date.day, 2);
    var d, e, f := Padded(rem / 3600, 2), Padded(rem % 3600 / 60, 2), Padded(rem % 60, 2);
    assert Iso8601(secs) == a + ("-" + b + "-" + c + "T" + d + ":" + e + ":" + f + "Z");
  }

  lemma ParseDigitsOf(n: nat)
    ensures forall i | 0 <= i < |StoreText.Natural(n)| :: StoreText.IsDigit(StoreText.Natural(n)[i])
  {
    StoreText.ParseNatural(n);
  }

  /** The text reads back exactly for years of four digits: a longer year pushes the marks aside and a
      year before 0 brings a sign. */
  lemma IsoReadsBackIff(secs: int)
    ensures ParseIso(Iso8601(secs)) == Some(secs) <==> FourDigitYear(secs)
  {
    var s, year := Iso8601(secs), CivilFromDays(secs / DAY).year;
    if FourDigitYear(secs) {
      IsoRoundTrip(secs);
    } else {
      hide Iso8601, CivilFromDays, Power;
      IsoStart(secs);
      var y := Padded(year, 4);
      assert y == s[..|y|];
      Powers();
      if year >= 10000 {
        LongNatural(year, 4);
        ParseDigitsOf(year);
        assert StoreText.IsDigit(y[4]) && s[4] == y[4];
      } else if |s| > 4 {
        assert s[..4][0] == y[0] == '-';
        SignIsNoDigit(s[..4]);
      }
      assert ReadRow(s, WIDTHS, MARKS).None?;
    }
  }

  /** The first second of the year 10000. */
  function FirstOfLongYear(): int
  {
    DaysFromCivil(Date(10000, 1, 1)) * DAY
  }

  lemma LongYearStarts()
    ensures forall secs :: CivilFromDays(secs / DAY).year >= 10000 <==> secs >= FirstOfLongYear()
    ensures CivilFromDays((FirstOfLongYear() - 1) / DAY).year == 9999
    ensures CivilFromDays(FirstOfLongYear() / DAY).year == 10000
  {
    hide CivilFromDays, DaysFromCivil;
    var dec31, jan1 := Date(9999, 12, 31), Date(10000, 1, 1);
    var d := DaysFromCivil(jan1);
    assert Calendar.Valid(dec31) && NextDay(dec31) == jan1;
    DaysAndBack(dec31);
    DaysAndBack(jan1);
    NextDayNumber(dec31);
    assert d * DAY / DAY == d && (d * DAY - 1) / DAY == d - 1;
    forall secs
      ensures CivilFromDays(secs / DAY).year >= 10000 <==> secs >= FirstOfLongYear()
    {
      CivilOrder(d - 1, secs / DAY);
      CivilOrder(d, secs / DAY);
      CivilAndBack(secs / DAY);
      assert secs >= d * DAY <==> secs / DAY >= d;
    }
  }

  lemma NaturalStep(n: nat)
    requires n > 0
    ensures StoreText.Natural(10 * n)[0] == StoreText.Natural(n)[0]
  {
  }

  lemma NineAndTen()
    ensures |Padded(10000, 4)| > 0 && Padded(10000, 4)[0] == '1'
    ensures |Padded(9999, 4)| > 0 && Padded(9999, 4)[0] == '9'
  {
    NaturalStep(1000);
    NaturalStep(100);
    NaturalStep(10);
    NaturalStep(1);
    assert StoreText.Natural(10000)[0] == StoreText.Natural(1)[0];
    assert StoreText.Natural(999)[0] == StoreText.Natural(9)[0] by {
      assert StoreText.Natural(99)[0] == StoreText.Natural(9)[0];
    }
    assert StoreText.Natural(9999)[0] == StoreText.Natural(999)[0];
    LongNatural(9999, 3);
    assert Power(3) == 1000 by { assert Power(1) == 10; }
    LongNatural(10000, 4);
    Powers();
  }

  /** The last second of the year 9999 sorts after the first of the year 10000. */
  lemma OrderBreaks()
    ensures TextLess(Iso8601(FirstOfLongYear()), Iso8601(FirstOfLongYear() - 1))
  {
    hide CivilFromDays, FirstOfLongYear, Iso8601, Power;
    LongYearStarts();
    IsoStart(FirstOfLongYear());
    IsoStart(FirstOfLongYear() - 1);
    NineAndTen();
    var a, b := Iso8601(FirstOfLongYear()), Iso8601(FirstOfLongYear() - 1);
    assert a[0] == Padded(10000, 4)[0] == '1' && b[0] == Padded(9999, 4)[0] == '9';
  }

  /** Text order is time order from `lo` to `hi`. */
  ghost predicate OrderKept(lo: int, hi: int)
  {
    forall a, b | lo <= a <= hi && lo <= b <= hi :: a < b <==> TextLess(Iso8601(a), Iso8601(b))
  }

  lemma FourDigitsBetween(lo: int, secs: int)
    requires FourDigitYear(lo) && lo <= secs
    ensures FourDigitYear(secs) <==> secs < FirstOfLongYear()
  {
    hide CivilFromDays, FirstOfLongYear;
    LongYearStarts();
    CivilOrder(lo / DAY, secs / DAY);
    assert lo / DAY <= secs / DAY;
    CivilAndBack(lo / DAY);
  }

  /** From an instant with a four-digit year on, text order is time order for all instants up to `hi` if
      and only if `hi` has a four-digit year too. */
  lemma OrderKeptIff(lo: int, hi: int)
    requires FourDigitYear(lo) && lo <= hi
    ensures OrderKept(lo, hi) <==> FourDigitYear(hi)
  {
    hide FourDigitYear, FirstOfLongYear, Iso8601, TextLess;
    var first := FirstOfLongYear();
    FourDigitsBetween(lo, lo);
    FourDigitsBetween(lo, hi);
    if FourDigitYear(hi) {
      forall a, b | lo <= a <= hi && lo <= b <= hi
        ensures a < b <==> TextLess(Iso8601(a), Iso8601(b))
      {
        FourDigitsBetween(lo, a);
        FourDigitsBetween(lo, b);
        IsoOrder(a, b);
      }
    } else {
      OrderBreaks();
      assert lo <= first - 1 <= hi && lo <= first <= hi;
      assert TextLess(Iso8601(first), Iso8601(first - 1)) && !(first < first - 1);
    }
  }
}
