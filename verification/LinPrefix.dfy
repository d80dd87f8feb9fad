/** Cutting a history off at an instant, and when what is left becomes impossible. */
module LinPrefix {
  import opened Wrappers
  import opened LinHistory

  // ----- renaming the operations of an order -----------------------------------------------------

  /** `f` is `e`, or `e` with its answer forgotten. */
  predicate Relaxes(e: Entry, f: Entry)
  {
    f == e || f == e.(outcome := Unknown, ret := NEVER)
  }

  lemma StepRelaxed(s: State, e: Entry, f: Entry)
    requires Relaxes(e, f) && Step(s, e).Some?
    ensures Step(s, f) == Step(s, e)
  {
  }

  ghost predicate Renames(es: seq<Entry>, order: seq<nat>, fs: seq<Entry>, names: seq<nat>)
  {
    && |order| == |names|
    && (forall j | 0 <= j < |order| :: order[j] < |es| && names[j] < |fs|)
    && (forall j | 0 <= j < |order| :: Relaxes(es[order[j]], fs[names[j]]))
  }

  lemma {:induction false} RenamedExec(es: seq<Entry>, order: seq<nat>, fs: seq<Entry>, names: seq<nat>, s: State)
    requires Renames(es, order, fs, names) && Exec(es, s, order).Some?
    ensures Exec(fs, s, names) == Exec(es, s, order)
    decreases |order|
  {
    hide Step, Relaxes;
    if |order| > 0 {
      StepRelaxed(s, es[order[0]], fs[names[0]]);
      RenamedExec(es, order[1..], fs, names[1..], Step(s, es[order[0]]).value);
    }
  }

  lemma RenamedRealTime(es: seq<Entry>, order: seq<nat>, fs: seq<Entry>, names: seq<nat>)
    requires WellRecorded(es) && Renames(es, order, fs, names) && RealTime(es, order)
    ensures RealTime(fs, names)
  {
    forall i, j | 0 <= i < j < |names|
      ensures fs[names[i]].call <= fs[names[j]].ret
    {
      assert es[order[i]].call <= es[order[j]].ret && es[order[i]].Recorded();
    }
  }

  // ----- positions that pass a filter ------------------------------------------------------------

  ghost predicate Increasing(kept: seq<nat>, n: nat)
  {
    && (forall k | 0 <= k < |kept| :: kept[k] < n)
    && (forall k, l | 0 <= k < l < |kept| :: kept[k] < kept[l])
  }

  /** Where `p` stands among the kept positions. */
  ghost function Index(kept: seq<nat>, p: nat): (k: nat)
    requires p in kept
    ensures k < |kept| && kept[k] == p
  {
    var k :| 0 <= k < |kept| && kept[k] == p; k
  }

  /** An order over the whole history, all of whose operations were kept, told in kept positions. */
  ghost function Inside(kept: seq<nat>, order: seq<nat>): (names: seq<nat>)
    requires forall j | 0 <= j < |order| :: order[j] in kept
    ensures |names| == |order|
    ensures forall j | 0 <= j < |order| :: names[j] < |kept| && kept[names[j]] == order[j]
  {
    seq(|order|, j requires 0 <= j < |order| => Index(kept, order[j]))
  }

  /** The other way around. */
  ghost function Outside(kept: seq<nat>, names: seq<nat>): (order: seq<nat>)
    requires forall j | 0 <= j < |names| :: names[j] < |kept|
    ensures |order| == |names|
    ensures forall j | 0 <= j < |names| :: order[j] == kept[names[j]]
  {
    seq(|names|, j requires 0 <= j < |names| => kept[names[j]])
  }

  lemma InsideDistinct(kept: seq<nat>, order: seq<nat>)
    requires Distinct(order) && forall j | 0 <= j < |order| :: order[j] in kept
    ensures Distinct(Inside(kept, order))
  {
    var names := Inside(kept, order);
    forall i, j | 0 <= i < j < |names|
      ensures names[i] != names[j]
    {
      assert kept[names[i]] == order[i] && kept[names[j]] == order[j];
    }
  }

  lemma OutsideDistinct(kept: seq<nat>, names: seq<nat>, n: nat)
    requires Increasing(kept, n) && Distinct(names) && forall j | 0 <= j < |names| :: names[j] < |kept|
    ensures Distinct(Outside(kept, names))
  {
    var order := Outside(kept, names);
    forall i, j | 0 <= i < j < |order|
      ensures order[i] != order[j]
    {
      assert names[i] < names[j] || names[j] < names[i];
    }
  }

  // ----- the prefix at an instant ----------------------------------------------------------------

  function Cut(e: Entry, t: nat): Entry
  {
    if e.ret > t then e.(outcome := Unknown, ret := NEVER) else e
  }

  /** The positions, below `n`, of the operations called by instant `t`. */
  function KeptAt(es: seq<Entry>, t: nat, n: nat): (kept: seq<nat>)
    requires n <= |es|
    ensures forall k | 0 <= k < |kept| :: kept[k] < n && es[kept[k]].call <= t
  {
    if n == 0 then []
    else if es[n - 1].call <= t then KeptAt(es, t, n - 1) + [n - 1]
    else KeptAt(es, t, n - 1)
  }

  lemma {:induction false} KeptIs(es: seq<Entry>, t: nat, n: nat)
    requires n <= |es|
    ensures Increasing(KeptAt(es, t, n), n)
    ensures forall p: nat | p < n :: p in KeptAt(es, t, n) <==> es[p].call <= t
  {
    if n > 0 {
      KeptIs(es, t, n - 1);
    }
  }

  /** What the report shows. */
  function Shown(es: seq<Entry>, t: nat): (r: seq<Entry>)
    ensures |r| == |KeptAt(es, t, |es|)|
  {
    var kept := KeptAt(es, t, |es|);
    seq(|kept|, k requires 0 <= k < |kept| => es[kept[k]])
  }

  /** What is searched: operations in flight at `t` lose their answer. */
  function Searched(es: seq<Entry>, t: nat): (r: seq<Entry>)
    ensures |r| == |KeptAt(es, t, |es|)|
    ensures forall k | 0 <= k < |r| :: r[k] == Cut(es[KeptAt(es, t, |es|)[k]], t)
  {
    var shown := Shown(es, t);
    seq(|shown|, k requires 0 <= k < |shown| => Cut(shown[k], t))
  }

  /** The prefix searched, operation by operation: the answer is kept when it came by instant `t`. */
  lemma SearchedIs(es: seq<Entry>, t: nat, k: nat)
    requires k < |KeptAt(es, t, |es|)|
    ensures
      var e := es[KeptAt(es, t, |es|)[k]];
      && Shown(es, t)[k] == e
      && (e.ret <= t ==> Searched(es, t)[k] == e)
      && (e.ret > t ==> Searched(es, t)[k] == Entry(e.id, e.key, e.op, Unknown, e.call, NEVER))
  {
  }

  lemma SearchedRecorded(es: seq<Entry>, t: nat)
    requires WellRecorded(es)
    ensures WellRecorded(Searched(es, t))
  {
    var kept, fs := KeptAt(es, t, |es|), Searched(es, t);
    forall k | 0 <= k < |fs|
      ensures fs[k].Recorded()
    {
      assert es[kept[k]].Recorded();
    }
  }

  // ----- once impossible, always impossible ------------------------------------------------------

  /** How much of an order is needed to place everything that had returned by `t`. */
  ghost function Needed(es: seq<Entry>, t: nat, order: seq<nat>): (n: nat)
    requires forall i | 0 <= i < |order| :: order[i] < |es|
    ensures n <= |order|
    ensures n > 0 ==> es[order[n - 1]].ret <= t
    ensures forall i | n <= i < |order| :: es[order[i]].ret > t
  {
    if |order| == 0 then 0
    else if es[order[|order| - 1]].ret <= t then |order|
    else
      assert forall i | 0 <= i < |order| - 1 :: order[..|order| - 1][i] == order[i];
      Needed(es, t, order[..|order| - 1])
  }

  lemma {:induction false} ExecPrefix(es: seq<Entry>, s: State, order: seq<nat>, n: nat)
    requires forall i | 0 <= i < |order| :: order[i] < |es|
    requires n <= |order| && Exec(es, s, order).Some?
    ensures Exec(es, s, order[..n]).Some?
    decreases |order|
  {
    hide Step;
    if n > 0 {
      assert order[..n][1..] == order[1..][..n - 1];
      ExecPrefix(es, Step(s, es[order[0]]).value, order[1..], n - 1);
    }
  }

  lemma FirstPlaced(es: seq<Entry>, order: seq<nat>, n: nat)
    requires Places(es, All(es), None, order) && n <= |order|
    ensures forall i | 0 <= i < |order| :: order[i] < |es|
    ensures Distinct(order[..n]) && RealTime(es, order[..n]) && Exec(es, None, order[..n]).Some?
  {
    hide Exec;
    ExecPrefix(es, None, order, n);
  }

  lemma FirstCalled(es: seq<Entry>, t: nat, order: seq<nat>, n: nat)
    requires WellRecorded(es) && Places(es, All(es), None, order) && n == Needed(es, t, order)
    ensures forall i | 0 <= i < n :: order[i] in KeptAt(es, t, |es|)
  {
    KeptIs(es, t, |es|);
    forall i | 0 <= i < n
      ensures order[i] in KeptAt(es, t, |es|)
    {
      assert es[order[i]].Recorded();
      assert i < n - 1 ==> es[order[i]].call <= es[order[n - 1]].ret;
    }
  }

  lemma FirstRenames(es: seq<Entry>, t: nat, first: seq<nat>)
    requires forall i | 0 <= i < |first| :: first[i] in KeptAt(es, t, |es|)
    ensures Renames(es, first, Searched(es, t), Inside(KeptAt(es, t, |es|), first))
  {
    hide Inside, KeptAt, Searched;
  }

  lemma AnsweredPlaced(es: seq<Entry>, order: seq<nat>, p: nat)
    requires Places(es, All(es), None, order) && p < |es| && es[p].Answered()
    ensures p in order
  {
    assert p in All(es);
  }

  lemma PrefixComplete(es: seq<Entry>, t: nat, order: seq<nat>, n: nat)
    requires WellRecorded(es) && Places(es, All(es), None, order) && n == Needed(es, t, order)
    requires forall i | 0 <= i < n :: order[i] in KeptAt(es, t, |es|)
    ensures forall k: nat | k < |Searched(es, t)| && Searched(es, t)[k].Answered() ::
              k in Inside(KeptAt(es, t, |es|), order[..n])
  {
    hide KeptAt, Searched, Inside, Places, Needed, WellRecorded;
    var kept, fs := KeptAt(es, t, |es|), Searched(es, t);
    var names := Inside(kept, order[..n]);
    forall k: nat | k < |fs| && fs[k].Answered()
      ensures k in names
    {
      var p := kept[k];
      FirstPlaced(es, order, n);
      AnsweredPlaced(es, order, p);
      var j :| 0 <= j < |order| && order[j] == p;
      assert order[..n][j] == p;
      KeptIs(es, t, |es|);
      assert kept[names[j]] == kept[k];
    }
  }

  lemma PlacesAll(es: seq<Entry>, order: seq<nat>)
    requires forall i | 0 <= i < |order| :: order[i] < |es|
    requires Distinct(order) && RealTime(es, order) && Exec(es, None, order).Some?
    requires forall p: nat | p < |es| && es[p].Answered() :: p in order
    ensures Linearizable(es)
  {
    assert Places(es, All(es), None, order);
  }

  /** A linearizable history was linearizable at every earlier instant. */
  lemma PrefixLinearizable(es: seq<Entry>, t: nat)
    requires WellRecorded(es) && Linearizable(es)
    ensures Linearizable(Searched(es, t))
  {
    hide Inside, KeptAt, Searched, Exec, Renames, Needed, Places;
    var order :| Places(es, All(es), None, order);
    FirstPlaced(es, order, 0);
    var n := Needed(es, t, order);
    var first := order[..n];
    FirstPlaced(es, order, n);
    FirstCalled(es, t, order, n);
    var kept, fs := KeptAt(es, t, |es|), Searched(es, t);
    var names := Inside(kept, first);
    FirstRenames(es, t, first);
    RenamedExec(es, first, fs, names, None);
    RenamedRealTime(es, first, fs, names);
    InsideDistinct(kept, first);
    PrefixComplete(es, t, order, n);
    PlacesAll(fs, names);
  }

  /** When every answer had arrived by `t`, the instant `t` tells the whole story. */
  lemma PrefixIsEnough(es: seq<Entry>, t: nat)
    requires WellRecorded(es) && Linearizable(Searched(es, t))
    requires forall p | 0 <= p < |es| && es[p].Answered() :: es[p].ret <= t
    ensures Linearizable(es)
  {
    hide KeptAt, Searched, Exec;
    var kept, fs := KeptAt(es, t, |es|), Searched(es, t);
    KeptIs(es, t, |es|);
    SearchedRecorded(es, t);
    var names :| Places(fs, All(fs), None, names);
    var order := Outside(kept, names);
    forall j | 0 <= j < |order|
      ensures Relaxes(fs[names[j]], es[order[j]])
    {
      assert es[kept[names[j]]].Recorded();
    }
    assert Renames(fs, names, es, order);
    RenamedExec(fs, names, es, order, None);
    RenamedRealTime(fs, names, es, order);
    OutsideDistinct(kept, names, |es|);
    forall p: nat | p < |es| && es[p].Answered()
      ensures p in order
    {
      assert es[p].Recorded() && p in kept;
      var k := Index(kept, p);
      assert fs[k] == es[p] && k in All(fs);
      var j :| 0 <= j < |names| && names[j] == k;
      assert order[j] == p;
    }
    PlacesAll(es, order);
  }

  // ----- the prefix of a prefix ------------------------------------------------------------------

  lemma CutCut(e: Entry, t: nat, u: nat)
    requires t <= u && e.ret <= NEVER
    ensures Cut(Cut(e, u), t) == Cut(e, t)
  {
  }

  lemma {:induction false} KeptGrows(es: seq<Entry>, t: nat, n: nat)
    requires n <= |es|
    ensures KeptAt(es, t, n) <= KeptAt(es, t, |es|)
    decreases |es| - n
  {
    if n < |es| {
      KeptGrows(es, t, n + 1);
    }
  }

  lemma KeptNone(es: seq<Entry>, t: nat)
    ensures KeptAt(es, t, 0) == []
  {
  }

  lemma KeptOne(es: seq<Entry>, t: nat, n: nat)
    requires 0 < n <= |es|
    ensures KeptAt(es, t, n) == KeptAt(es, t, n - 1) + if es[n - 1].call <= t then [n - 1] else []
  {
  }

  lemma CutCall(e: Entry, t: nat)
    ensures Cut(e, t).call == e.call
  {
  }

  lemma OutsideAppend(kept: seq<nat>, names: seq<nat>, m: nat)
    requires m < |kept| && forall j | 0 <= j < |names| :: names[j] < |kept|
    ensures Outside(kept, names + [m]) == Outside(kept, names) + [kept[m]]
  {
  }

  /** One more entry is kept at `t` in the history and in its prefix alike. */
  lemma KeptMore(es: seq<Entry>, t: nat, fs: seq<Entry>, n: nat, m: nat, ku: seq<nat>)
    requires 0 < n <= |es| && m < |fs| == |ku| && ku[m] == n - 1 && fs[m].call == es[n - 1].call
    requires KeptAt(es, t, n - 1) == Outside(ku, KeptAt(fs, t, m))
    ensures KeptAt(es, t, n) == Outside(ku, KeptAt(fs, t, m + 1))
  {
    hide Outside, KeptAt;
    KeptOne(es, t, n);
    KeptOne(fs, t, m + 1);
    OutsideAppend(ku, KeptAt(fs, t, m), m);
  }

  lemma {:induction false} KeptKept(es: seq<Entry>, t: nat, u: nat, n: nat)
    requires t <= u && n <= |es|
    ensures |KeptAt(es, u, n)| <= |Searched(es, u)|
    ensures KeptAt(es, t, n) == Outside(KeptAt(es, u, |es|), KeptAt(Searched(es, u), t, |KeptAt(es, u, n)|))
  {
    hide Outside, Searched, KeptAt, Cut;
    var ku, fs := KeptAt(es, u, |es|), Searched(es, u);
    KeptGrows(es, u, n);
    if n == 0 {
      KeptNone(es, t);
      KeptNone(es, u);
      KeptNone(fs, t);
      assert Outside(ku, []) == [];
    } else {
      KeptKept(es, t, u, n - 1);
      KeptOne(es, t, n);
      KeptOne(es, u, n);
      if es[n - 1].call <= u {
        var m := |KeptAt(es, u, n - 1)|;
        assert ku[m] == KeptAt(es, u, n)[m] == n - 1;
        CutCall(es[n - 1], u);
        KeptMore(es, t, fs, n, m, ku);
      }
    }
  }

  /** Looking at `t` from `u` or from the end shows the same. */
  lemma SearchedTwice(es: seq<Entry>, t: nat, u: nat)
    requires WellRecorded(es) && t <= u
    ensures Searched(Searched(es, u), t) == Searched(es, t)
  {
    var fs := Searched(es, u);
    KeptKept(es, t, u, |es|);
    var kt, ku, kk := KeptAt(es, t, |es|), KeptAt(es, u, |es|), KeptAt(fs, t, |fs|);
    assert kt == Outside(ku, kk);
    forall k | 0 <= k < |kk|
      ensures Searched(fs, t)[k] == Searched(es, t)[k]
    {
      assert es[kt[k]].Recorded();
      CutCut(es[kt[k]], t, u);
    }
  }

  ghost predicate Impossible(es: seq<Entry>, t: nat)
  {
    !Linearizable(Searched(es, t))
  }

  /** A history that is beyond repair stays so, whatever is seen later. */
  lemma ImpossibleStays(es: seq<Entry>, t: nat, u: nat)
    requires WellRecorded(es) && t <= u && Impossible(es, t)
    ensures Impossible(es, u)
  {
    if !Impossible(es, u) {
      SearchedRecorded(es, u);
      PrefixLinearizable(Searched(es, u), t);
      SearchedTwice(es, t, u);
    }
  }

  /** Two instants with no answer between them are impossible together or not at all. */
  lemma OnlyReturnsMatter(es: seq<Entry>, t: nat, u: nat)
    requires WellRecorded(es) && t <= u
    requires forall p | 0 <= p < |es| && es[p].Answered() :: es[p].ret <= t || es[p].ret > u
    ensures Impossible(es, t) <==> Impossible(es, u)
  {
    if Impossible(es, t) {
      ImpossibleStays(es, t, u);
    } else {
      var fs := Searched(es, u);
      SearchedRecorded(es, u);
      SearchedTwice(es, t, u);
      PrefixIsEnough(fs, t);
    }
  }

  /** The whole history is impossible exactly when it already was at its last return. */
  lemma ImpossibleAtLast(es: seq<Entry>, t: nat)
    requires WellRecorded(es)
    requires forall p | 0 <= p < |es| && es[p].Answered() :: es[p].ret <= t
    ensures Impossible(es, t) <==> !Linearizable(es)
  {
    if Linearizable(es) {
      PrefixLinearizable(es, t);
    }
    if !Impossible(es, t) {
      PrefixIsEnough(es, t);
    }
  }
}
