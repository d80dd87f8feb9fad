/** A stable sort by a comparison, as the standard library's sorts behave. */
module Sorting {

  function Insert<T>(xs: seq<T>, x: T, le: (T, T) -> bool): (r: seq<T>)
    ensures multiset(r) == multiset(xs) + multiset{x}
  {
    if |xs| == 0 || le(xs[|xs| - 1], x) then xs + [x]
    else
      assert xs == xs[..|xs| - 1] + [xs[|xs| - 1]];
      Insert(xs[..|xs| - 1], x, le) + [xs[|xs| - 1]]
  }

  function Sort<T>(xs: seq<T>, le: (T, T) -> bool): (r: seq<T>)
    ensures multiset(r) == multiset(xs)
  {
    if |xs| == 0 then []
    else
      assert xs == xs[..|xs| - 1] + [xs[|xs| - 1]];
      Insert(Sort(xs[..|xs| - 1], le), xs[|xs| - 1], le)
  }

  ghost predicate Total<T(!new)>(le: (T, T) -> bool)
  {
    && (forall a, b :: le(a, b) || le(b, a))
    && (forall a, b, c :: le(a, b) && le(b, c) ==> le(a, c))
  }

  ghost predicate Sorted<T>(xs: seq<T>, le: (T, T) -> bool)
  {
    forall i, j | 0 <= i < j < |xs| :: le(xs[i], xs[j])
  }

  lemma {:induction false} InsertSorted<T(!new)>(xs: seq<T>, x: T, le: (T, T) -> bool)
    requires Total(le) && Sorted(xs, le)
    ensures Sorted(Insert(xs, x, le), le)
  {
    if |xs| > 0 && !le(xs[|xs| - 1], x) {
      var init, last := xs[..|xs| - 1], xs[|xs| - 1];
      InsertSorted(init, x, le);
      var r := Insert(init, x, le);
      forall i | 0 <= i < |r|
        ensures le(r[i], last)
      {
        assert r[i] in multiset(r);
        if r[i] != x {
          assert r[i] in init;
        }
      }
    }
  }

  lemma {:induction false} SortSorted<T(!new)>(xs: seq<T>, le: (T, T) -> bool)
    requires Total(le)
    ensures Sorted(Sort(xs, le), le)
  {
    if |xs| > 0 {
      SortSorted(xs[..|xs| - 1], le);
      InsertSorted(Sort(xs[..|xs| - 1], le), xs[|xs| - 1], le);
    }
  }

  lemma SortKeeps<T>(xs: seq<T>, le: (T, T) -> bool)
    ensures |Sort(xs, le)| == |xs|
    ensures forall x :: x in Sort(xs, le) <==> x in xs
  {
    var r := Sort(xs, le);
    assert |multiset(r)| == |r| && |multiset(xs)| == |xs|;
    assert forall x :: x in r <==> x in multiset(r);
  }

  ghost predicate Distinct<T>(xs: seq<T>)
  {
    forall i, j | 0 <= i < j < |xs| :: xs[i] != xs[j]
  }

  lemma {:induction false} DistinctOnce<T>(xs: seq<T>)
    requires Distinct(xs)
    ensures forall x :: multiset(xs)[x] <= 1
  {
    if |xs| > 0 {
      var init, last := xs[..|xs| - 1], xs[|xs| - 1];
      assert xs == init + [last];
      DistinctOnce(init);
      assert last !in multiset(init);
    }
  }

  lemma OnceDistinct<T>(xs: seq<T>)
    requires forall x :: multiset(xs)[x] <= 1
    ensures Distinct(xs)
  {
    forall i, j | 0 <= i < j < |xs|
      ensures xs[i] != xs[j]
    {
      var front, back := xs[..j], xs[j..];
      assert xs == front + back;
      assert front[i] == xs[i] && back[0] == xs[j];
      assert multiset(xs)[xs[i]] == multiset(front)[xs[i]] + multiset(back)[xs[i]];
      assert xs[i] in multiset(front) && xs[j] in multiset(back);
    }
  }

  /** What held no element twice still does. */
  lemma SortDistinct<T>(xs: seq<T>, le: (T, T) -> bool)
    requires Distinct(xs)
    ensures Distinct(Sort(xs, le))
  {
    DistinctOnce(xs);
    OnceDistinct(Sort(xs, le));
  }
}
