/** One key's verdict, and the smallest prefix that is already impossible. */
module LinCheck {
  import opened Wrappers
  import opened LinHistory
  import opened LinPrefix
  import opened LinRegister
  import LinCost
  import LinSearch
  import Sorting

  datatype Violation = Violation(
    key: string,
    entries: seq<Entry>,
    culprit: Entry,
    bestAttempt: seq<nat>,
    bestState: State,
    states: nat)

  datatype Verdict =
    | Fine
    | Broken(violation: Violation)
    | Undecided(key: string, states: nat)

  // ----- the return instants ---------------------------------------------------------------------

  type Return = (nat, nat)

  predicate Earlier(a: Return, b: Return)
  {
    a.0 < b.0 || (a.0 == b.0 && a.1 <= b.1)
  }

  /** Every answered operation below `n`, with the instant of its answer. */
  function Answers(es: seq<Entry>, n: nat): seq<Return>
    requires n <= |es|
  {
    if n == 0 then []
    else if es[n - 1].Answered() then Answers(es, n - 1) + [(es[n - 1].ret, n - 1)]
    else Answers(es, n - 1)
  }

  lemma {:induction false} AnswersAre(es: seq<Entry>, n: nat)
    requires n <= |es|
    ensures forall r :: r in Answers(es, n) <==> r.1 < n && es[r.1].Answered() && r.0 == es[r.1].ret
  {
    if n > 0 {
      AnswersAre(es, n - 1);
    }
  }

  lemma {:induction false} AnswersDistinct(es: seq<Entry>, n: nat)
    requires n <= |es|
    ensures Sorting.Distinct(Answers(es, n))
  {
    if n > 0 {
      AnswersDistinct(es, n - 1);
      AnswersAre(es, n - 1);
      assert forall r | r in Answers(es, n - 1) :: r.1 < n - 1;
    }
  }

  function Returns(es: seq<Entry>): seq<Return>
  {
    Sorting.Sort(Answers(es, |es|), Earlier)
  }

  /** The answered operations, each once with its instant, the earliest answer first. */
  ghost predicate InOrder(es: seq<Entry>, rs: seq<Return>)
  {
    && (forall k | 0 <= k < |rs| :: rs[k].1 < |es| && es[rs[k].1].Answered() && rs[k].0 == es[rs[k].1].ret)
    && (forall p: nat | p < |es| && es[p].Answered() :: (es[p].ret, p) in rs)
    && Sorting.Distinct(rs) && (forall k, l | 0 <= k < l < |rs| :: rs[k].0 <= rs[l].0)
  }

  lemma ReturnsInOrder(es: seq<Entry>)
    ensures InOrder(es, Returns(es))
  {
    hide Sorting.Sort, Answers;
    var rs := Returns(es);
    AnswersAre(es, |es|);
    AnswersDistinct(es, |es|);
    Sorting.SortDistinct(Answers(es, |es|), Earlier);
    Sorting.SortKeeps(Answers(es, |es|), Earlier);
    Sorting.SortSorted(Answers(es, |es|), Earlier);
    forall k | 0 <= k < |rs|
      ensures rs[k].1 < |es| && es[rs[k].1].Answered() && rs[k].0 == es[rs[k].1].ret
    {
      assert rs[k] in Answers(es, |es|);
    }
    forall p: nat | p < |es| && es[p].Answered()
      ensures (es[p].ret, p) in rs
    {
      assert (es[p].ret, p) in Answers(es, |es|);
    }
  }

  // ----- what a report has to be -----------------------------------------------------------------

  /** The report shows the history at the culprit's answer, and that much is already impossible. */
  ghost predicate ShowsPrefix(es: seq<Entry>, v: Violation, c: nat)
  {
    && c < |es| && es[c].Answered() && v.culprit == es[c]
    && v.entries == Shown(es, es[c].ret) && Impossible(es, es[c].ret)
    && (v.bestAttempt == [] || LinSearch.Attempt(Searched(es, es[c].ret), v.bestAttempt, v.bestState))
  }

  /** ... and at no earlier instant was it. */
  ghost predicate Earliest(es: seq<Entry>, c: nat)
    requires c < |es|
  {
    forall t: nat | t < es[c].ret :: !Impossible(es, t)
  }

  /** The report of the case where no prefix could be decided. */
  ghost predicate ShowsAll(es: seq<Entry>, v: Violation)
  {
    && multiset(v.entries) == multiset(es)
    && |v.entries| > 0 && v.culprit == v.entries[|v.entries| - 1]
    && forall e | e in es :: e.ret <= v.culprit.ret
  }

  predicate ByReturn(a: Entry, b: Entry)
  {
    || a.ret < b.ret
    || (a.ret == b.ret && (a.call < b.call || (a.call == b.call && a.id <= b.id)))
  }

  lemma ByReturnLast(es: seq<Entry>)
    requires |es| > 0
    ensures |Sorting.Sort(es, ByReturn)| == |es|
    ensures forall e | e in es :: e.ret <= Sorting.Sort(es, ByReturn)[|es| - 1].ret
  {
    Sorting.SortKeeps(es, ByReturn);
    Sorting.SortSorted(es, ByReturn);
    var r := Sorting.Sort(es, ByReturn);
    forall e | e in es
      ensures e.ret <= r[|es| - 1].ret
    {
      assert e in r;
      var i :| 0 <= i < |r| && r[i] == e;
    }
  }

  // ----- one key ---------------------------------------------------------------------------------

  lemma {:induction false} KeptShorter(es: seq<Entry>, t: nat, n: nat)
    requires n <= |es|
    ensures |KeptAt(es, t, n)| <= n
  {
    if n > 0 {
      KeptShorter(es, t, n - 1);
    }
  }

  /** A prefix needs no larger a budget than the whole. */
  lemma SearchedCheaper(es: seq<Entry>, t: nat)
    ensures LinCost.Enough(Searched(es, t)) <= LinCost.Enough(es)
  {
    hide LinCost.Enough, LinCost.Holdable, LinCost.Cost;
    KeptShorter(es, t, |es|);
    var fs := Searched(es, t);
    forall k | 0 <= k < |fs|
      ensures exists p :: 0 <= p < |es| && es[p].op == fs[k].op
    {
      assert es[KeptAt(es, t, |es|)[k]].op == fs[k].op;
    }
    LinCost.HoldableFrom(fs, |fs|, es);
    LinCost.EnoughGrows(fs, es);
  }

  /** Search what was visible at instant `t`. */
  method SearchAt(es: seq<Entry>, t: nat, budget: nat)
    returns (impossible: bool, attempt: seq<nat>, held: State, ghost decided: bool)
    requires WellRecorded(es)
    ensures impossible ==> Impossible(es, t)
    ensures impossible ==> attempt == [] || LinSearch.Attempt(Searched(es, t), attempt, held)
    ensures decided ==> (impossible <==> Impossible(es, t))
    ensures !decided ==> !impossible && budget < LinCost.Enough(Searched(es, t))
  {
    hide LinCost.Enough, Linearizable, Explained, LinSearch.Attempt, LinSearch.Shaped, LinSearch.Waiting,
         LinSearch.KnownIn, LinSearch.Clean, LinSearch.SeenBounded, Searched;
    SearchedRecorded(es, t);
    var s := new LinSearch.Search(Searched(es, t), budget);
    var ok := s.Run();
    impossible := !ok && !s.exhausted;
    decided := ok || !s.exhausted;
    attempt, held := [], None;
    if impossible {
      attempt := s.bestAttempt;
      held := if s.bestState.Some? then s.bestState.value else None;
    }
  }

  lemma StaysPossible(es: seq<Entry>, rs: seq<Return>, mid: nat)
    requires WellRecorded(es) && InOrder(es, rs) && mid < |rs| && !Impossible(es, rs[mid].0)
    ensures forall k | 0 <= k <= mid :: !Impossible(es, rs[k].0)
  {
    forall k | 0 <= k <= mid
      ensures !Impossible(es, rs[k].0)
    {
      if Impossible(es, rs[k].0) {
        ImpossibleStays(es, rs[k].0, rs[mid].0);
      }
    }
  }

  lemma NothingAnswered(es: seq<Entry>)
    requires forall p: nat | p < |es| :: !es[p].Answered()
    ensures Linearizable(es)
  {
    PlacesAll(es, []);
  }

  lemma LastIsImpossible(es: seq<Entry>, rs: seq<Return>)
    requires WellRecorded(es) && InOrder(es, rs) && !Linearizable(es)
    ensures |rs| > 0 && Impossible(es, rs[|rs| - 1].0)
  {
    hide Linearizable, Impossible;
    var t := if |rs| == 0 then 0 else rs[|rs| - 1].0;
    forall p: nat | p < |es| && es[p].Answered()
      ensures |rs| > 0 && es[p].ret <= t
    {
      assert (es[p].ret, p) in rs;
    }
    ImpossibleAtLast(es, t);
    if |rs| == 0 {
      NothingAnswered(es);
    }
  }

  /** How many returns there were by instant `t`. */
  lemma LastBy(es: seq<Entry>, rs: seq<Return>, t: nat, hi: nat) returns (n: nat)
    requires InOrder(es, rs) && hi < |rs| && t < rs[hi].0
    ensures n <= hi && (n > 0 ==> rs[n - 1].0 <= t) && forall k | n <= k < |rs| :: t < rs[k].0
  {
    n := hi;
    while n > 0 && rs[n - 1].0 > t
      invariant n <= hi && t < rs[n].0
    {
      n := n - 1;
    }
  }

  lemma NothingReturned(es: seq<Entry>, rs: seq<Return>, t: nat)
    requires WellRecorded(es) && InOrder(es, rs) && forall k | 0 <= k < |rs| :: t < rs[k].0
    ensures !Impossible(es, t)
  {
    var kept, fs := KeptAt(es, t, |es|), Searched(es, t);
    forall k: nat | k < |fs|
      ensures !fs[k].Answered()
    {
      if es[kept[k]].Answered() {
        assert (es[kept[k]].ret, kept[k]) in rs;
      }
    }
    NothingAnswered(fs);
  }

  /** An instant before the culprit's that is impossible has a return, no later, that is so too. */
  lemma ImpossibleReturn(es: seq<Entry>, rs: seq<Return>, hi: nat, t: nat) returns (n: nat)
    requires WellRecorded(es) && InOrder(es, rs) && hi < |rs| && t < rs[hi].0 && Impossible(es, t)
    ensures n < hi && Impossible(es, rs[n].0)
  {
    hide Impossible;
    var m := LastBy(es, rs, t, hi);
    n := 0;
    if m == 0 {
      NothingReturned(es, rs, t);
    } else {
      n := m - 1;
      forall p: nat | p < |es| && es[p].Answered()
        ensures es[p].ret <= rs[n].0 || es[p].ret > t
      {
        assert (es[p].ret, p) in rs;
      }
      OnlyReturnsMatter(es, rs[n].0, t);
    }
  }

  /** Instants of answers whose search ran out: the budget is below what each of them can cost. */
  ghost predicate OutOfBudget(es: seq<Entry>, budget: nat, spent: set<nat>)
  {
    forall t | t in spent ::
      (exists p: nat :: p < |es| && es[p].Answered() && es[p].ret == t) && budget < LinCost.Enough(Searched(es, t))
  }

  lemma SpentMeans(es: seq<Entry>, budget: nat, spent: set<nat>)
    requires OutOfBudget(es, budget, spent)
    ensures LinCost.Enough(es) <= budget ==> spent == {}
  {
    hide LinCost.Enough;
    if spent != {} {
      var t :| t in spent;
      SearchedCheaper(es, t);
    }
  }

  /** None of the instants that ran out of budget was an impossible one. */
  ghost predicate MissedNothing(es: seq<Entry>, spent: set<nat>)
  {
    forall t | t in spent :: !Impossible(es, t)
  }

  /** The returns below `lo` are possible, unless one that ran out of budget is not. */
  ghost predicate Passed(es: seq<Entry>, rs: seq<Return>, lo: nat, spent: set<nat>)
  {
    MissedNothing(es, spent) ==> forall k | 0 <= k < lo <= |rs| :: !Impossible(es, rs[k].0)
  }

  lemma PassedMore(es: seq<Entry>, rs: seq<Return>, mid: nat, spent: set<nat>)
    requires WellRecorded(es) && InOrder(es, rs) && mid < |rs|
    requires rs[mid].0 in spent || !Impossible(es, rs[mid].0)
    ensures Passed(es, rs, mid + 1, spent)
  {
    hide Impossible;
    if !Impossible(es, rs[mid].0) {
      StaysPossible(es, rs, mid);
    }
  }

  /** Bisect for the earliest impossible instant. `spent` are the instants whose search ran out of budget. */
  method Bisect(key: string, es: seq<Entry>, budget: nat, states: nat)
    returns (best: Option<Violation>, ghost spent: set<nat>, ghost culprit: nat)
    requires WellRecorded(es) && !Linearizable(es)
    ensures best.Some? ==> best.value.key == key && ShowsPrefix(es, best.value, culprit)
    ensures OutOfBudget(es, budget, spent)
    ensures MissedNothing(es, spent) ==> best.Some? && Earliest(es, culprit)
  {
    hide LinCost.Enough, Linearizable, Explained, Impossible, LinSearch.Attempt, Shown, Searched, Returns,
         MissedNothing;
    ReturnsInOrder(es);
    var answers := Returns(es);
    var lo, hi := 0, |answers|;
    best, spent, culprit := None, {}, 0;
    while lo < hi
      invariant 0 <= lo <= hi <= |answers|
      invariant best.Some? ==> best.value.key == key && ShowsPrefix(es, best.value, culprit)
      invariant best.Some? <==> hi < |answers|
      invariant best.Some? ==> culprit == answers[hi].1
      invariant OutOfBudget(es, budget, spent)
      invariant Passed(es, answers, lo, spent)
    {
      var mid := lo + (hi - lo) / 2;
      var (t, c) := answers[mid];
      var impossible, attempt, held, decided := SearchAt(es, t, budget);
      if impossible {
        culprit := c;
        best := Some(Violation(key, Shown(es, t), es[c], attempt, held, states));
        hi := mid;
      } else {
        spent := if decided then spent else spent + {t};
        PassedMore(es, answers, mid, spent);
        lo := mid + 1;
      }
    }
    if MissedNothing(es, spent) {
      if best.None? {
        LastIsImpossible(es, answers);
      } else {
        forall t: nat | t < es[culprit].ret
          ensures !Impossible(es, t)
        {
          if Impossible(es, t) {
            var n := ImpossibleReturn(es, answers, hi, t);
          }
        }
      }
    }
  }

  /** The verdict on one key: never wrong, and undecided only when the budget was not enough. */
  method CheckOneKey(key: string, es: seq<Entry>, budget: nat)
    returns (v: Verdict, ghost spent: set<nat>, ghost culprit: nat)
    requires WellRecorded(es)
    ensures v.Fine? ==> Linearizable(es) && Explained(es)
    ensures v.Broken? ==> !Linearizable(es) && !Explained(es) && v.violation.key == key
    ensures v.Broken? ==>
              ShowsPrefix(es, v.violation, culprit) || (!MissedNothing(es, spent) && ShowsAll(es, v.violation))
    ensures v.Broken? && MissedNothing(es, spent) ==> Earliest(es, culprit)
    ensures OutOfBudget(es, budget, spent)
    ensures v.Undecided? ==> v.key == key && v.states == budget < LinCost.Enough(es)
  {
    hide LinCost.Enough, Linearizable, Explained, Impossible, LinSearch.Attempt, LinSearch.Shaped, LinSearch.Waiting,
         LinSearch.KnownIn, LinSearch.Clean, LinSearch.SeenBounded, ShowsPrefix, Earliest, WellRecorded, Sorting.Sort,
         MissedNothing;
    spent, culprit := {}, 0;
    var search := new LinSearch.Search(es, budget);
    var ok := search.Run();
    if ok {
      return Fine, spent, culprit;
    }
    if search.exhausted {
      return Undecided(key, search.states), spent, culprit;
    }
    var best;
    best, spent, culprit := Bisect(key, es, budget, search.states);
    if best.Some? {
      return Broken(best.value), spent, culprit;
    }
    if |es| == 0 {
      NothingAnswered(es);
    }
    var byReturn := Sorting.Sort(es, ByReturn);
    ByReturnLast(es);
    var held := if search.bestState.Some? then search.bestState.value else None;
    v := Broken(Violation(key, byReturn, byReturn[|byReturn| - 1], search.bestAttempt, held, search.states));
  }
}
