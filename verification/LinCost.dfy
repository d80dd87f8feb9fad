/** How many states the search can visit: with its memo, and even without it. */
module LinCost {
  import opened Wrappers
  import opened LinHistory

  // ----- the bounds -------------------------------------------------------------------------------

  /** A bound on the states visited with `k` of `n` operations waiting, memo or not. */
  function Cost(n: nat, k: nat): (c: nat)
    ensures c >= 1
  {
    if k == 0 then 1 else 1 + n * Cost(n, k - 1)
  }

  function Power2(n: nat): (p: nat)
    ensures p > 0
  {
    if n == 0 then 1 else 2 * Power2(n - 1)
  }

  /** The bound that the memo gives: `n` tries for every set of operations and every state. */
  function MemoCost(n: nat, states: nat): nat
  {
    1 + n * (Power2(n) * states)
  }

  /** What an operation can leave a key holding, beside what it held before. */
  ghost function Written(e: Entry): set<State>
  {
    match e.op
    case Write(v) => {Some(v)}
    case Cas(_, v) => {Some(v)}
    case _ => {}
  }

  /** Every state that a key can be in after some of the first `n` operations. */
  ghost function Holdable(es: seq<Entry>, n: nat): set<State>
    requires n <= |es|
  {
    if n == 0 then {None} else Holdable(es, n - 1) + Written(es[n - 1])
  }

  /** A budget that is enough to decide a history. */
  ghost function Enough(es: seq<Entry>): nat
  {
    var plain, memo := Cost(|es|, |es|), MemoCost(|es|, |Holdable(es, |es|)|);
    if plain < memo then plain else memo
  }

  lemma Product(a: nat, b: nat, c: nat, d: nat)
    requires a <= b && c <= d
    ensures a * c <= b * d
  {
  }

  lemma {:induction false} CostGrows(m: nat, n: nat, k: nat, l: nat)
    requires m <= n && k <= l
    ensures Cost(m, k) <= Cost(n, l)
  {
    if k > 0 {
      CostGrows(m, n, k - 1, l - 1);
      assert m * Cost(m, k - 1) <= n * Cost(n, l - 1) by {
        Product(m, n, Cost(m, k - 1), Cost(n, l - 1));
      }
    }
  }

  lemma {:induction false} PowerGrows(m: nat, n: nat)
    requires m <= n
    ensures Power2(m) <= Power2(n)
  {
    if m < n {
      PowerGrows(m, n - 1);
    }
  }

  lemma MemoCostGrows(m: nat, n: nat, s: nat, t: nat)
    requires m <= n && s <= t
    ensures MemoCost(m, s) <= MemoCost(n, t)
  {
    hide Power2;
    PowerGrows(m, n);
    Product(Power2(m), Power2(n), s, t);
    Product(m, n, Power2(m) * s, Power2(n) * t);
  }

  // ----- states -----------------------------------------------------------------------------------

  lemma {:induction false} NoneHoldable(es: seq<Entry>, n: nat)
    requires n <= |es|
    ensures None in Holdable(es, n)
  {
    if n > 0 {
      NoneHoldable(es, n - 1);
    }
  }

  lemma {:induction false} HoldableHas(es: seq<Entry>, n: nat, i: nat)
    requires i < n <= |es|
    ensures None in Holdable(es, n) && Written(es[i]) <= Holdable(es, n)
  {
    hide Written;
    NoneHoldable(es, n);
    if i < n - 1 {
      HoldableHas(es, n - 1, i);
    }
  }

  /** A step leads from a holdable state to another. */
  lemma StepHoldable(es: seq<Entry>, s: State, i: nat)
    requires i < |es| && s in Holdable(es, |es|) && Step(s, es[i]).Some?
    ensures Step(s, es[i]).value in Holdable(es, |es|)
  {
    HoldableHas(es, |es|, i);
  }

  lemma {:induction false} SubsetSize(a: set<State>, b: set<State>)
    requires a <= b
    ensures |a| <= |b|
  {
    if a != {} {
      var x :| x in a;
      SubsetSize(a - {x}, b - {x});
    }
  }

  lemma UnionSize(a: set<State>, b: set<State>)
    ensures |a| <= |a + b| <= |a| + |b|
  {
    SubsetSize(a, a + b);
    assert a + b == a + (b - a) && a !! (b - a);
    SubsetSize(b - a, b);
  }

  /** There is at most one more state than there are operations. */
  lemma {:induction false} HoldableSize(es: seq<Entry>, n: nat)
    requires n <= |es|
    ensures 1 <= |Holdable(es, n)| <= n + 1
  {
    if n > 0 {
      HoldableSize(es, n - 1);
      var before, more := Holdable(es, n - 1), Written(es[n - 1]);
      assert |more| <= 1;
      UnionSize(before, more);
    }
  }

  /** Fewer operations with the same requests need no larger a budget. */
  lemma EnoughGrows(fs: seq<Entry>, es: seq<Entry>)
    requires |fs| <= |es| && Holdable(fs, |fs|) <= Holdable(es, |es|)
    ensures Enough(fs) <= Enough(es) <= Cost(|es|, |es|)
  {
    hide Cost, MemoCost, Holdable;
    CostGrows(|fs|, |es|, |fs|, |es|);
    SubsetSize(Holdable(fs, |fs|), Holdable(es, |es|));
    MemoCostGrows(|fs|, |es|, |Holdable(fs, |fs|)|, |Holdable(es, |es|)|);
  }

  /** Operations that all ask what some operation of `es` asks leave nothing else behind. */
  lemma {:induction false} HoldableFrom(fs: seq<Entry>, n: nat, es: seq<Entry>)
    requires n <= |fs| && forall k | 0 <= k < n :: exists p :: 0 <= p < |es| && es[p].op == fs[k].op
    ensures Holdable(fs, n) <= Holdable(es, |es|)
  {
    NoneHoldable(es, |es|);
    if n > 0 {
      HoldableFrom(fs, n - 1, es);
      var p :| 0 <= p < |es| && es[p].op == fs[n - 1].op;
      HoldableHas(es, |es|, p);
    }
  }

  /** The budget of a check that names none. */
  const DEFAULT_BUDGET: nat := 400_000

  /** It decides every key of at most eleven operations; the bound that leaves the memo out stops at six. */
  lemma DefaultIsEnough(es: seq<Entry>)
    requires |es| <= 11
    ensures Enough(es) <= DEFAULT_BUDGET
    ensures Cost(6, 6) <= DEFAULT_BUDGET < Cost(7, 7)
  {
    assert Power2(4) == 16 && Power2(8) == 256 && Power2(11) == 2048;
    assert Cost(6, 3) == 259 && Cost(6, 6) == 55987 && Cost(7, 3) == 400 && Cost(7, 7) == 960800;
    assert MemoCost(11, 12) == 270337;
    hide Power2, Cost, MemoCost, Holdable;
    HoldableSize(es, |es|);
    MemoCostGrows(|es|, 11, |Holdable(es, |es|)|, 12);
  }

  // ----- counting pairs ---------------------------------------------------------------------------

  /** A set that maps one to one into another is no larger. */
  lemma {:induction false} OneToOne<A, B>(xs: set<A>, ys: set<B>, f: A -> B)
    requires (forall x | x in xs :: f(x) in ys) && (forall x, y | x in xs && y in xs && f(x) == f(y) :: x == y)
    ensures |xs| <= |ys|
  {
    if xs != {} {
      var x :| x in xs;
      OneToOne(xs - {x}, ys - {f(x)}, f);
    }
  }

  type Pairs = set<(set<nat>, State)>

  lemma PairsOfNone(pairs: Pairs, states: set<State>)
    requires forall m | m in pairs :: m.0 <= Below(0) && m.1 in states
    ensures |pairs| <= Power2(0) * |states|
  {
    forall m, l | m in pairs && l in pairs && m.1 == l.1
      ensures m == l
    {
      assert m.0 == {} == l.0;
    }
    OneToOne(pairs, states, (m: (set<nat>, State)) => m.1);
  }

  lemma BelowLess(m: set<nat>, n: nat)
    requires n > 0 && m <= Below(n)
    ensures m - {n - 1} <= Below(n - 1) && (n - 1 !in m ==> m <= Below(n - 1))
  {
  }

  lemma PowerTwice(n: nat, s: nat)
    requires n > 0
    ensures Power2(n) * s == Power2(n - 1) * s + Power2(n - 1) * s
  {
    var p := Power2(n - 1);
    assert Power2(n) == p + p;
    hide Power2;
    assert (p + p) * s == p * s + p * s;
  }

  lemma {:induction false} PairsWith(with: Pairs, n: nat, states: set<State>)
    requires n > 0 && forall m | m in with :: m.0 <= Below(n) && n - 1 in m.0 && m.1 in states
    ensures |with| <= Power2(n - 1) * |states|
    decreases n, 0
  {
    hide Below, Power2;
    var f := (m: (set<nat>, State)) => (m.0 - {n - 1}, m.1);
    var less := set m | m in with :: f(m);
    forall m, l | m in with && l in with && f(m) == f(l)
      ensures m == l
    {
      assert m.0 == m.0 - {n - 1} + {n - 1} && l.0 == l.0 - {n - 1} + {n - 1};
    }
    forall m | m in less
      ensures m.0 <= Below(n - 1) && m.1 in states
    {
      var l :| l in with && f(l) == m;
      BelowLess(l.0, n);
    }
    OneToOne(with, less, f);
    PairsBounded(less, n - 1, states);
  }

  /** There are at most `2^n` sets of numbers below `n`, each with every state. */
  lemma {:induction false} PairsBounded(pairs: Pairs, n: nat, states: set<State>)
    requires forall m | m in pairs :: m.0 <= Below(n) && m.1 in states
    ensures |pairs| <= Power2(n) * |states|
    decreases n, 1
  {
    if n == 0 {
      PairsOfNone(pairs, states);
    } else {
      hide Below, Power2;
      var with, without := (set m | m in pairs && n - 1 in m.0), (set m | m in pairs && n - 1 !in m.0);
      assert pairs == with + without;
      assert |pairs| <= |with| + |without|;
      forall m | m in without
        ensures m.0 <= Below(n - 1)
      {
        BelowLess(m.0, n);
      }
      PairsBounded(without, n - 1, states);
      PairsWith(with, n, states);
      PowerTwice(n, |states|);
    }
  }

  // ----- the account of one search ----------------------------------------------------------------

  /** From `from` states visited and `seen0` pairs remembered to `to` and `seen1`, with `k` of `n` operations
      waiting: within both bounds, and out of budget only when both are larger than what was left. */
  ghost predicate Spent(n: nat, k: nat, budget: nat, from: nat, seen0: nat, to: nat, seen1: nat, exhausted: bool)
  {
    && seen0 <= seen1
    && to <= from + Cost(n, k) && to <= from + 1 + n * (seen1 - seen0)
    && (exhausted ==> budget < from + Cost(n, k) && budget < from + 1 + n * (seen1 - seen0))
  }

  /** The same inside the loop, `i` operations tried so far and the pair itself remembered. */
  ghost predicate SpentSoFar(n: nat, k: nat, i: nat, from: nat, seen0: nat, to: nat, seen1: nat)
  {
    && k > 0 && seen0 < seen1
    && to <= from + 1 + i * Cost(n, k - 1) && to <= from + 1 + i + n * (seen1 - seen0 - 1)
  }

  lemma SpentAtOnce(n: nat, k: nat, budget: nat, from: nat, seen: nat)
    ensures Spent(n, k, budget, from, seen, from, seen, false)
    ensures Spent(n, k, budget, from, seen, from + 1, seen, false)
    ensures budget <= from ==> Spent(n, k, budget, from, seen, from, seen, true)
  {
    assert n * (seen - seen) == 0;
  }

  lemma SoFarStarts(n: nat, k: nat, from: nat, seen: nat)
    requires k > 0
    ensures SpentSoFar(n, k, 0, from, seen, from + 1, seen + 1)
  {
    hide Cost;
    assert n * (seen + 1 - seen - 1) == 0;
  }

  lemma SoFarNext(n: nat, k: nat, i: nat, from: nat, seen0: nat, to: nat, seen1: nat)
    requires SpentSoFar(n, k, i, from, seen0, to, seen1)
    ensures SpentSoFar(n, k, i + 1, from, seen0, to, seen1)
  {
    hide Cost;
    assert (i + 1) * Cost(n, k - 1) == i * Cost(n, k - 1) + Cost(n, k - 1);
  }

  lemma Factor(n: int, a: int, b: int)
    ensures n * (a + b) == n * a + n * b
  {
  }

  /** Trying one more operation stays within the account. */
  lemma SoFarDescends(n: nat, k: nat, i: nat, budget: nat, from: nat, seen0: nat, to: nat, seen1: nat,
                      after: nat, seen2: nat, exhausted: bool)
    requires i < n && SpentSoFar(n, k, i, from, seen0, to, seen1)
    requires Spent(n, k - 1, budget, to, seen1, after, seen2, exhausted)
    ensures SpentSoFar(n, k, i + 1, from, seen0, after, seen2)
    ensures Spent(n, k, budget, from, seen0, after, seen2, exhausted)
  {
    var c := Cost(n, k - 1);
    assert Cost(n, k) == 1 + n * c;
    hide Cost;
    assert (i + 1) * c == i * c + c;
    Product(i + 1, n, c, c);
    Factor(n, seen1 - seen0 - 1, seen2 - seen1);
    Factor(n, 1, seen2 - seen0 - 1);
  }

  lemma SoFarEnds(n: nat, k: nat, budget: nat, from: nat, seen0: nat, to: nat, seen1: nat)
    requires SpentSoFar(n, k, n, from, seen0, to, seen1)
    ensures Spent(n, k, budget, from, seen0, to, seen1, false)
  {
    assert Cost(n, k) == 1 + n * Cost(n, k - 1);
    hide Cost;
    Factor(n, 1, seen1 - seen0 - 1);
  }

  /** A whole search that remembered at most one pair for every set and every state. */
  lemma SpentIsEnough(es: seq<Entry>, budget: nat, from: nat, to: nat, seen: nat, exhausted: bool)
    requires Spent(|es|, |es|, budget, from, 0, to, seen, exhausted)
    requires seen <= Power2(|es|) * |Holdable(es, |es|)|
    ensures to <= from + Enough(es) && (exhausted ==> budget < from + Enough(es))
  {
    hide Cost, Holdable, Power2;
    Product(|es|, |es|, seen, Power2(|es|) * |Holdable(es, |es|)|);
  }
}
