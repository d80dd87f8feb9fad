/** How long the current run of successful days is, counted from an unsorted list of dates. */
module Streak {
  import opened Wrappers
  import Sorting

  /** A calendar day as a day number, or a text that is no date. */
  type Day = Option<int>

  function Dates(days: seq<Day>): (r: seq<int>)
    ensures forall d :: d in r <==> Some(d) in days
  {
    if |days| == 0 then []
    else
      assert days == days[..|days| - 1] + [days[|days| - 1]];
      match days[|days| - 1]
      case None => Dates(days[..|days| - 1])
      case Some(d) => Dates(days[..|days| - 1]) + [d]
  }

  predicate UpTo(a: int, b: int)
  {
    a <= b
  }

  /** Of equal neighbours only the first stays. */
  function Deduped(s: seq<int>): (r: seq<int>)
    ensures forall d :: d in r <==> d in s
    ensures |s| > 0 ==> |r| > 0 && r[|r| - 1] == s[|s| - 1]
  {
    if |s| == 0 then []
    else
      var init, x := s[..|s| - 1], s[|s| - 1];
      assert s == init + [x];
      if |init| > 0 && init[|init| - 1] == x then Deduped(init) else Deduped(init) + [x]
  }

  ghost predicate Rising(s: seq<int>)
  {
    forall i, j | 0 <= i < j < |s| :: s[i] < s[j]
  }

  lemma {:induction false} DedupedRises(s: seq<int>)
    requires Sorting.Sorted(s, UpTo)
    ensures Rising(Deduped(s))
  {
    if |s| > 0 {
      var init, x := s[..|s| - 1], s[|s| - 1];
      DedupedRises(init);
      if |init| > 0 && init[|init| - 1] < x {
        var r := Deduped(init);
        forall i | 0 <= i < |r|
          ensures r[i] < x
        {
          assert r[i] <= r[|r| - 1];
        }
      }
    }
  }

  function Reversed(s: seq<int>): (r: seq<int>)
    ensures |r| == |s| && forall i | 0 <= i < |s| :: r[i] == s[|s| - 1 - i]
  {
    if |s| == 0 then [] else [s[|s| - 1]] + Reversed(s[..|s| - 1])
  }

  ghost predicate Latest(dates: seq<int>, first: int)
  {
    first in dates && forall d | d in dates :: d <= first
  }

  /** `n` consecutive days up to `first` are there and the one before them is not. */
  ghost predicate RunsBack(dates: seq<int>, first: int, n: int)
  {
    && n >= 1 && first - n !in dates
    && forall d: int | first - n < d <= first :: d in dates
  }

  /** What the streak is, for any list of days in any order. */
  ghost predicate IsStreak(days: seq<Day>, today: Day, n: int)
  {
    if today.None? || Dates(days) == [] then n == 0
    else
      forall first | Latest(Dates(days), first) ::
        if 0 <= today.value - first <= 1 then RunsBack(Dates(days), first, n) else n == 0
  }

  /** The dates as the loop sees them: each once, the latest first. */
  ghost predicate Falling(days: seq<Day>, dates: seq<int>)
  {
    && (forall d :: d in dates <==> d in Dates(days))
    && (forall i, j | 0 <= i < j < |dates| :: dates[i] > dates[j])
  }

  lemma NoStreak(days: seq<Day>, today: Day)
    ensures today.None? || Falling(days, []) ==> IsStreak(days, today, 0)
  {
    hide Dates;
    if Falling(days, []) && |Dates(days)| > 0 {
      assert Dates(days)[0] in Dates(days);
    }
  }

  lemma ReversedHas(s: seq<int>)
    ensures forall d :: d in Reversed(s) <==> d in s
  {
    hide Reversed;
    forall i | 0 <= i < |s|
      ensures s[i] in Reversed(s)
    {
      assert Reversed(s)[|s| - 1 - i] == s[i];
    }
  }

  lemma LatestFirst(days: seq<Day>)
    ensures Falling(days, Reversed(Deduped(Sorting.Sort(Dates(days), UpTo))))
  {
    hide Sorting.Sort, Reversed, Dates, Deduped;
    var sorted := Sorting.Sort(Dates(days), UpTo);
    Sorting.SortKeeps(Dates(days), UpTo);
    Sorting.SortSorted(Dates(days), UpTo);
    DedupedRises(sorted);
    ReversedHas(Deduped(sorted));
  }

  lemma FirstIsLatest(days: seq<Day>, dates: seq<int>)
    requires Falling(days, dates) && |dates| > 0
    ensures forall d | Latest(Dates(days), d) :: d == dates[0]
    ensures Dates(days) != []
  {
    hide Dates;
    assert dates[0] in dates;
    forall d | Latest(Dates(days), d)
      ensures d == dates[0]
    {
      assert d in dates;
    }
  }

  lemma StaleStreak(days: seq<Day>, today: Day, dates: seq<int>)
    requires Falling(days, dates) && |dates| > 0 && today.Some? && !(0 <= today.value - dates[0] <= 1)
    ensures IsStreak(days, today, 0)
  {
    hide Dates;
    FirstIsLatest(days, dates);
  }

  /** Falling dates that step by one as far as `n`, and by more (or not at all) there. */
  lemma StreakEnds(dates: seq<int>, n: nat)
    requires 1 <= n <= |dates| && (forall i, j | 0 <= i < j < |dates| :: dates[i] > dates[j])
    requires (forall k | 0 <= k < n :: dates[k] == dates[0] - k) && (n < |dates| ==> dates[n] != dates[n - 1] - 1)
    ensures RunsBack(dates, dates[0], n)
  {
    var first := dates[0];
    forall d: int | first - n < d <= first
      ensures d in dates
    {
      assert dates[first - d] == d;
    }
    forall k | 0 <= k < |dates|
      ensures dates[k] != first - n
    {
      assert n < |dates| ==> dates[n] < dates[n - 1];
      assert n < k ==> dates[k] < dates[n];
    }
  }

  lemma StreakIs(days: seq<Day>, today: Day, dates: seq<int>, n: int)
    requires Falling(days, dates) && |dates| > 0 && today.Some? && 0 <= today.value - dates[0] <= 1
    requires RunsBack(dates, dates[0], n)
    ensures IsStreak(days, today, n)
  {
    hide Dates;
    FirstIsLatest(days, dates);
    assert RunsBack(Dates(days), dates[0], n);
  }

  method StreakFromDays(days: seq<Day>, today: Day) returns (streak: int)
    ensures IsStreak(days, today, streak)
  {
    hide Sorting.Sort, Reversed, Dates, Deduped, IsStreak, Sorting.Total, Sorting.Sorted, Rising;
    if today.None? {
      NoStreak(days, today);
      return 0;
    }
    var sorted := Sorting.Sort(Dates(days), UpTo);
    var deduped := Deduped(sorted);
    var dates := Reversed(deduped);
    LatestFirst(days);
    if |dates| == 0 {
      NoStreak(days, today);
      return 0;
    }
    var first := dates[0];
    var gap := today.value - first;
    if !(0 <= gap <= 1) {
      StaleStreak(days, today, dates);
      return 0;
    }
    streak := 1;
    var prev := first;
    var i := 1;
    while i < |dates|
      invariant 1 <= i <= |dates| && streak == i && prev == dates[i - 1] == first - (i - 1)
      invariant forall k | 0 <= k < i :: dates[k] == first - k
    {
      if prev - dates[i] != 1 {
        break;
      }
      streak := streak + 1;
      prev := dates[i];
      i := i + 1;
    }
    StreakEnds(dates, i);
    StreakIs(days, today, dates, i);
  }

  lemma {:induction false} LatestOf(dates: seq<int>) returns (first: int)
    requires dates != []
    ensures Latest(dates, first)
  {
    var init, x := dates[..|dates| - 1], dates[|dates| - 1];
    assert dates == init + [x];
    if init == [] {
      first := x;
    } else {
      var y := LatestOf(init);
      first := if x < y then y else x;
    }
  }

  lemma NotShorter(dates: seq<int>, first: int, m: int, n: int)
    requires RunsBack(dates, first, m) && RunsBack(dates, first, n)
    ensures n <= m
  {
    assert m < n ==> first - m in dates;
  }

  /** There is only one such number. */
  lemma StreakUnique(days: seq<Day>, today: Day, m: int, n: int)
    requires IsStreak(days, today, m) && IsStreak(days, today, n)
    ensures m == n
  {
    if today.Some? && Dates(days) != [] {
      var first := LatestOf(Dates(days));
      if 0 <= today.value - first <= 1 {
        NotShorter(Dates(days), first, m, n);
        NotShorter(Dates(days), first, n, m);
      }
    }
  }
}
