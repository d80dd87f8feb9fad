/** The memoised depth-first search for a linearization of one key's history. */
module LinSearch {
  import opened Wrappers
  import opened LinHistory
  import opened LinCost
  import opened LinRegister

  // ----- what the search decides --------------------------------------------------------------

  ghost function KnownIn(es: seq<Entry>, pending: set<nat>): set<nat>
  {
    set p | p in pending && p < |es| && es[p].Answered()
  }

  /** The candidate rule: `p` may be placed unless something that still waits was over before `p` began. */
  ghost predicate Candidate(es: seq<Entry>, pending: set<nat>, p: nat)
    requires p < |es|
  {
    forall q | q in pending && q < |es| :: es[p].call <= es[q].ret
  }

  /** The plain, exhaustive search. */
  ghost predicate CanFinish(es: seq<Entry>, pending: set<nat>, s: State)
    decreases pending
  {
    || KnownIn(es, pending) == {}
    || exists p :: p in pending && p < |es| && Candidate(es, pending, p) && Step(s, es[p]).Some?
                   && CanFinish(es, pending - {p}, Step(s, es[p]).value)
  }

  lemma PlacesNothing(es: seq<Entry>, pending: set<nat>, s: State)
    requires KnownIn(es, pending) == {}
    ensures Places(es, pending, s, [])
  {
    assert forall p | p in pending && p < |es| && es[p].Answered() :: p in KnownIn(es, pending);
  }

  lemma PlacesFirst(es: seq<Entry>, pending: set<nat>, s: State, p: nat, rest: seq<nat>)
    requires p in pending && p < |es| && Candidate(es, pending, p) && Step(s, es[p]).Some?
    requires Places(es, pending - {p}, Step(s, es[p]).value, rest)
    ensures Places(es, pending, s, [p] + rest)
  {
    var order := [p] + rest;
    assert order[1..] == rest;
    assert forall i | 1 <= i < |order| :: order[i] == rest[i - 1];
    forall q | q in pending && q < |es| && es[q].Answered()
      ensures q in order
    {
      if q != p {
        assert q in rest;
      }
    }
  }

  lemma {:induction false} FinishGivesOrder(es: seq<Entry>, pending: set<nat>, s: State) returns (order: seq<nat>)
    requires CanFinish(es, pending, s)
    ensures Places(es, pending, s, order)
    decreases pending
  {
    hide Candidate, Step, Places;
    if KnownIn(es, pending) == {} {
      order := [];
      PlacesNothing(es, pending, s);
    } else {
      var p :| p in pending && p < |es| && Candidate(es, pending, p) && Step(s, es[p]).Some?
               && CanFinish(es, pending - {p}, Step(s, es[p]).value);
      var rest := FinishGivesOrder(es, pending - {p}, Step(s, es[p]).value);
      order := [p] + rest;
      PlacesFirst(es, pending, s, p, rest);
    }
  }

  lemma PlacesRest(es: seq<Entry>, pending: set<nat>, s: State, order: seq<nat>)
    requires WellRecorded(es) && Places(es, pending, s, order) && |order| > 0
    ensures order[0] in pending && order[0] < |es| && Step(s, es[order[0]]).Some?
    ensures Candidate(es, pending, order[0])
    ensures Places(es, pending - {order[0]}, Step(s, es[order[0]]).value, order[1..])
  {
    var p, rest := order[0], order[1..];
    assert forall i | 0 <= i < |rest| :: rest[i] == order[i + 1];
    forall q | q in pending && q < |es|
      ensures es[p].call <= es[q].ret
    {
      assert es[p].Recorded() && es[q].Recorded();
      if q in order && q != p {
        var j :| 0 <= j < |order| && order[j] == q;
      }
    }
    forall q | q in pending - {p} && q < |es| && es[q].Answered()
      ensures q in rest
    {
      assert q in order;
      var j :| 0 <= j < |order| && order[j] == q;
      assert rest[j - 1] == q;
    }
  }

  lemma {:induction false} OrderGivesFinish(es: seq<Entry>, pending: set<nat>, s: State, order: seq<nat>)
    requires WellRecorded(es) && Places(es, pending, s, order)
    ensures CanFinish(es, pending, s)
    decreases |order|
  {
    if KnownIn(es, pending) != {} {
      var k :| k in KnownIn(es, pending);
      assert k in order;
      var p, rest := order[0], order[1..];
      var next := Step(s, es[p]).value;
      PlacesRest(es, pending, s, order);
      OrderGivesFinish(es, pending - {p}, next, rest);
    }
  }

  /** The exhaustive search is right: it succeeds exactly on linearizable histories. */
  lemma FinishIffLinearizable(es: seq<Entry>)
    requires WellRecorded(es)
    ensures CanFinish(es, All(es), None) <==> Linearizable(es)
    ensures CanFinish(es, All(es), None) <==> Explained(es)
  {
    LinearizableIff(es);
    hide Explained;
    if CanFinish(es, All(es), None) {
      var order := FinishGivesOrder(es, All(es), None);
    }
    if Linearizable(es) {
      var order :| Places(es, All(es), None, order);
      OrderGivesFinish(es, All(es), None, order);
    }
  }

  // ----- the search as a program ----------------------------------------------------------------

  /** A bitmap: one bit per operation, in 64-bit words. */
  type Mask = seq<seq<bool>>

  function WordCount(n: nat): nat
  {
    if n == 0 then 1 else (n + 63) / 64
  }

  predicate Shaped(mask: Mask, n: nat)
  {
    |mask| == WordCount(n) && forall w | 0 <= w < |mask| :: |mask[w]| == 64
  }

  lemma BitInRange(n: nat, i: nat)
    requires i < n
    ensures i / 64 < WordCount(n) && i % 64 < 64
  {
  }

  predicate Bit(mask: Mask, n: nat, i: nat)
    requires Shaped(mask, n) && i < n
  {
    BitInRange(n, i);
    mask[i / 64][i % 64]
  }

  /** The mask with bit `i` set or cleared. */
  function WithBit(mask: Mask, n: nat, i: nat, b: bool): (r: Mask)
    requires Shaped(mask, n) && i < n
    ensures Shaped(r, n)
  {
    BitInRange(n, i);
    mask[i / 64 := mask[i / 64][i % 64 := b]]
  }

  lemma WithBitChanges(mask: Mask, n: nat, i: nat, b: bool)
    requires Shaped(mask, n) && i < n
    ensures forall j | 0 <= j < n :: Bit(WithBit(mask, n, i, b), n, j) == if j == i then b else Bit(mask, n, j)
    ensures b == Bit(mask, n, i) ==> WithBit(mask, n, i, b) == mask
    ensures WithBit(WithBit(mask, n, i, b), n, i, Bit(mask, n, i)) == mask
  {
    BitInRange(n, i);
    forall j | 0 <= j < n
      ensures Bit(WithBit(mask, n, i, b), n, j) == if j == i then b else Bit(mask, n, j)
    {
      BitInRange(n, j);
      assert i == 64 * (i / 64) + i % 64 && j == 64 * (j / 64) + j % 64;
    }
    var w, k := i / 64, i % 64;
    assert mask[w][k := mask[w][k]] == mask[w];
    assert mask[w][k := b][k := mask[w][k]] == mask[w];
    assert mask[w := mask[w]] == mask;
  }

  /** The operations a mask says are still waiting. */
  ghost function PendingIn(mask: Mask, n: nat): (r: set<nat>)
    requires Shaped(mask, n)
    ensures forall p: nat :: p in r <==> p < n && !Bit(mask, n, p)
  {
    set p | p in Below(n) && !Bit(mask, n, p)
  }

  /** The unused bits of the last word stay clear, so a mask is told by the operations it leaves waiting. */
  predicate Clean(mask: Mask, n: nat)
    requires Shaped(mask, n)
  {
    forall w, k | 0 <= w < |mask| && 0 <= k < 64 && 64 * w + k >= n :: !mask[w][k]
  }

  lemma CleanStays(mask: Mask, n: nat, i: nat, b: bool)
    requires Shaped(mask, n) && Clean(mask, n) && i < n
    ensures Clean(WithBit(mask, n, i, b), n)
  {
    BitInRange(n, i);
    assert i == 64 * (i / 64) + i % 64;
  }

  lemma SameBit(a: Mask, b: Mask, n: nat, w: nat, k: nat)
    requires Shaped(a, n) && Shaped(b, n) && Clean(a, n) && Clean(b, n)
    requires PendingIn(a, n) == PendingIn(b, n) && w < |a| && k < 64
    ensures a[w][k] == b[w][k]
  {
    var i := 64 * w + k;
    assert i / 64 == w && i % 64 == k;
    if i < n {
      assert i in PendingIn(a, n) <==> i in PendingIn(b, n);
      assert Bit(a, n, i) == a[w][k] && Bit(b, n, i) == b[w][k];
    }
  }

  lemma MaskByPending(a: Mask, b: Mask, n: nat)
    requires Shaped(a, n) && Shaped(b, n) && Clean(a, n) && Clean(b, n)
    requires PendingIn(a, n) == PendingIn(b, n)
    ensures a == b
  {
    forall w | 0 <= w < |a|
      ensures a[w] == b[w]
    {
      forall k | 0 <= k < 64
        ensures a[w][k] == b[w][k]
      {
        SameBit(a, b, n, w, k);
      }
    }
  }

  type Seen = set<(Mask, State)>

  /** What is remembered are masks of this history with states that a key can hold. */
  ghost predicate SeenBounded(es: seq<Entry>, seen: Seen)
  {
    forall m | m in seen :: Shaped(m.0, |es|) && Clean(m.0, |es|) && m.1 in Holdable(es, |es|)
  }

  lemma PendingBelow(mask: Mask, n: nat)
    requires Shaped(mask, n)
    ensures PendingIn(mask, n) <= Below(n)
  {
  }

  /** So there are no more of them than sets of operations times states. */
  lemma SeenSize(es: seq<Entry>, seen: Seen)
    requires SeenBounded(es, seen)
    ensures |seen| <= Power2(|es|) * |Holdable(es, |es|)|
  {
    hide Clean, Shaped, PendingIn, Holdable, Power2, Bit;
    var n := |es|;
    var f := (m: (Mask, State)) => (if Shaped(m.0, n) then PendingIn(m.0, n) else {}, m.1);
    var pairs := set m | m in seen :: f(m);
    forall m, l | m in seen && l in seen && f(m) == f(l)
      ensures m == l
    {
      MaskByPending(m.0, l.0, n);
    }
    OneToOne(seen, pairs, f);
    forall m | m in seen
      ensures f(m).0 <= Below(n)
    {
      PendingBelow(m.0, n);
    }
    PairsBounded(pairs, n, Holdable(es, n));
  }

  /** A remembered pair is either being explored further up, or leads nowhere. */
  ghost predicate SeenFine(es: seq<Entry>, seen: Seen, path: Seen)
  {
    forall m | m in seen ::
      Shaped(m.0, |es|) && (m in path || !CanFinish(es, PendingIn(m.0, |es|), m.1))
  }

  /** Everything further up had strictly more operations waiting. */
  ghost predicate PathAbove(es: seq<Entry>, path: Seen, pending: set<nat>)
  {
    forall m | m in path :: Shaped(m.0, |es|) && pending < PendingIn(m.0, |es|)
  }

  lemma SeenBefore(es: seq<Entry>, seen: Seen, path: Seen, mask: Mask, s: State)
    requires Shaped(mask, |es|) && (mask, s) in seen
    requires SeenFine(es, seen, path) && PathAbove(es, path, PendingIn(mask, |es|))
    ensures !CanFinish(es, PendingIn(mask, |es|), s)
  {
    hide CanFinish, PendingIn, Shaped;
    assert (mask, s) !in path;
  }

  lemma SeenMore(es: seq<Entry>, seen: Seen, path: Seen, mask: Mask, s: State)
    requires Shaped(mask, |es|)
    requires SeenFine(es, seen, path) && PathAbove(es, path, PendingIn(mask, |es|))
    ensures SeenFine(es, seen + {(mask, s)}, path + {(mask, s)})
    ensures forall p | p in PendingIn(mask, |es|) ::
              PathAbove(es, path + {(mask, s)}, PendingIn(mask, |es|) - {p})
  {
    hide CanFinish, PendingIn, Shaped;
  }

  lemma SeenGrows(es: seq<Entry>, seen: Seen, mask: Mask, s: State)
    requires SeenBounded(es, seen) && (mask, s) !in seen
    requires Shaped(mask, |es|) && Clean(mask, |es|) && s in Holdable(es, |es|)
    ensures SeenBounded(es, seen + {(mask, s)}) && |seen + {(mask, s)}| == |seen| + 1
  {
    hide Clean, Shaped, Holdable;
  }

  lemma SeenDone(es: seq<Entry>, seen: Seen, path: Seen, mask: Mask, s: State)
    requires Shaped(mask, |es|) && SeenFine(es, seen, path + {(mask, s)})
    requires !CanFinish(es, PendingIn(mask, |es|), s)
    ensures SeenFine(es, seen, path)
  {
    hide CanFinish, PendingIn, Shaped;
  }

  /** The operations the vector says are still waiting. */
  ghost function Waiting(remaining: seq<bool>): set<nat>
  {
    set p | p in Below(|remaining|) && remaining[p]
  }

  lemma WaitingAt(remaining: seq<bool>, i: nat)
    requires i < |remaining|
    ensures i in Waiting(remaining) <==> remaining[i]
  {
  }

  /** The smallest return instant among the waiting operations. */
  function MinRet(es: seq<Entry>, remaining: seq<bool>, n: nat): nat
    requires n <= |es| == |remaining|
  {
    if n == 0 then NEVER
    else if remaining[n - 1] && es[n - 1].ret < MinRet(es, remaining, n - 1) then es[n - 1].ret
    else MinRet(es, remaining, n - 1)
  }

  lemma {:induction false} MinRetIs(es: seq<Entry>, remaining: seq<bool>, n: nat, call: nat)
    requires n <= |es| == |remaining| && call <= NEVER
    ensures call <= MinRet(es, remaining, n) <==> forall q | 0 <= q < n && remaining[q] :: call <= es[q].ret
  {
    if n > 0 {
      MinRetIs(es, remaining, n - 1, call);
    }
  }

  function AnsweredIn(es: seq<Entry>, n: nat): nat
    requires n <= |es|
  {
    if n == 0 then 0 else AnsweredIn(es, n - 1) + if es[n - 1].Answered() then 1 else 0
  }

  lemma {:induction false} AnsweredIs(es: seq<Entry>, n: nat)
    requires n <= |es|
    ensures AnsweredIn(es, n) == |KnownIn(es, Below(n))|
  {
    if n > 0 {
      AnsweredIs(es, n - 1);
      assert KnownIn(es, Below(n)) == KnownIn(es, Below(n - 1)) + if es[n - 1].Answered() then {n - 1} else {};
    }
  }

  /** Placing `placed` one after the other is allowed, gives state `s` and leaves `pending`. */
  ghost predicate Reached(es: seq<Entry>, placed: seq<nat>, pending: set<nat>, s: State)
  {
    && (forall i | 0 <= i < |placed| :: placed[i] < |es| && placed[i] !in pending)
    && Distinct(placed) && RealTime(es, placed)
    && (forall i, q | 0 <= i < |placed| && q in pending && q < |es| :: es[placed[i]].call <= es[q].ret)
    && Exec(es, None, placed) == Some(s)
  }

  lemma ReachedNext(es: seq<Entry>, placed: seq<nat>, pending: set<nat>, s: State, p: nat)
    requires Reached(es, placed, pending, s)
    requires p in pending && p < |es| && Candidate(es, pending, p) && Step(s, es[p]).Some?
    ensures Reached(es, placed + [p], pending - {p}, Step(s, es[p]).value)
  {
    ExecThen(es, None, placed, p);
    hide Exec, Step;
  }

  ghost predicate NamedBy(es: seq<Entry>, placed: seq<nat>, ids: seq<nat>)
  {
    |ids| == |placed| && forall i | 0 <= i < |ids| :: placed[i] < |es| && ids[i] == es[placed[i]].id
  }

  lemma NamedNext(es: seq<Entry>, placed: seq<nat>, ids: seq<nat>, i: nat)
    requires NamedBy(es, placed, ids) && i < |es|
    ensures NamedBy(es, placed + [i], ids + [es[i].id])
  {
  }

  /** `ids` names operations that can be placed in that order and leave the key holding `s`. */
  ghost predicate Attempt(es: seq<Entry>, ids: seq<nat>, s: State)
  {
    exists placed, pending :: NamedBy(es, placed, ids) && Reached(es, placed, pending, s)
  }

  /** Placing operation `p` first leads nowhere, or is not allowed. */
  ghost predicate DeadEnd(es: seq<Entry>, pending: set<nat>, s: State, p: nat)
    requires p < |es|
  {
    Candidate(es, pending, p) && Step(s, es[p]).Some? ==> !CanFinish(es, pending - {p}, Step(s, es[p]).value)
  }

  lemma DeadEndIs(es: seq<Entry>, pending: set<nat>, s: State, p: nat)
    requires p < |es| && Step(s, es[p]).Some?
    ensures !CanFinish(es, pending - {p}, Step(s, es[p]).value) ==> DeadEnd(es, pending, s, p)
  {
    hide CanFinish, Candidate, Step;
  }

  lemma NotTried(es: seq<Entry>, pending: set<nat>, s: State, p: nat)
    requires p < |es| && !(Candidate(es, pending, p) && Step(s, es[p]).Some?)
    ensures DeadEnd(es, pending, s, p)
  {
    hide CanFinish, Candidate, Step;
  }

  lemma NoWayOut(es: seq<Entry>, pending: set<nat>, s: State)
    requires KnownIn(es, pending) != {}
    requires forall p: nat | p < |es| && p in pending :: DeadEnd(es, pending, s, p)
    ensures !CanFinish(es, pending, s)
  {
    hide Candidate, Step;
  }

  lemma FinishByStep(es: seq<Entry>, pending: set<nat>, s: State, p: nat)
    requires p in pending && p < |es| && Candidate(es, pending, p) && Step(s, es[p]).Some?
    requires CanFinish(es, pending - {p}, Step(s, es[p]).value)
    ensures CanFinish(es, pending, s)
  {
    hide Candidate, Step;
  }

  lemma FinishedWhenNoneLeft(es: seq<Entry>, pending: set<nat>, s: State)
    requires KnownIn(es, pending) == {}
    ensures CanFinish(es, pending, s)
  {
  }

  lemma KnownWithout(es: seq<Entry>, pending: set<nat>, p: nat)
    requires p in pending && p < |es|
    ensures |KnownIn(es, pending)| == |KnownIn(es, pending - {p})| + if es[p].Answered() then 1 else 0
  {
    assert KnownIn(es, pending) == KnownIn(es, pending - {p}) + if es[p].Answered() then {p} else {};
  }

  lemma CandidateByMinRet(es: seq<Entry>, remaining: seq<bool>, p: nat)
    requires WellRecorded(es) && |remaining| == |es| && p < |es|
    ensures es[p].call <= MinRet(es, remaining, |es|)
       <==> Candidate(es, Waiting(remaining), p)
  {
    assert es[p].Recorded();
    MinRetIs(es, remaining, |es|, es[p].call);
  }

  lemma {:induction false} BelowSize(n: nat)
    ensures |Below(n)| == n
  {
    if n > 0 {
      BelowSize(n - 1);
    }
  }

  lemma EmptyIsLinearizable(es: seq<Entry>)
    requires es == []
    ensures Linearizable(es)
  {
    assert Places(es, All(es), None, []);
  }

  lemma SomeWaiting(es: seq<Entry>, pending: set<nat>)
    requires |KnownIn(es, pending)| > 0
    ensures |pending| > 0
  {
    var p :| p in KnownIn(es, pending);
    assert p in pending;
  }

  class Search {
    const entries: seq<Entry>
    const budget: nat
    var remaining: seq<bool>
    var mask: Mask
    var order: seq<nat>
    var seen: Seen
    var states: nat
    var exhausted: bool
    var bestAttempt: seq<nat>
    var bestState: Option<State>
    var knownLeft: nat

    ghost function Pending(): set<nat>
      reads this
    {
      Waiting(remaining)
    }

    /** The vector, the bitmap and the counter say the same. */
    ghost predicate Valid()
      reads this
    {
      && WellRecorded(entries)
      && |remaining| == |entries| && Shaped(mask, |entries|)
      && (forall i | 0 <= i < |entries| :: remaining[i] == !Bit(mask, |entries|, i))
      && knownLeft == |KnownIn(entries, Pending())|
      && Clean(mask, |entries|) && SeenBounded(entries, seen)
      && states <= budget && (exhausted ==> states == budget)
      && (if bestState.None? then bestAttempt == [] else Attempt(entries, bestAttempt, bestState.value))
    }

    constructor (es: seq<Entry>, limit: nat)
      requires WellRecorded(es)
      ensures Valid() && entries == es && budget == limit
      ensures Pending() == All(es) && seen == {} && states == 0 && !exhausted && order == []
    {
      entries := es;
      budget := limit;
      remaining := seq(|es|, _ => true);
      mask := seq(WordCount(|es|), _ => seq(64, _ => false));
      order := [];
      seen := {};
      states := 0;
      exhausted := false;
      bestAttempt := [];
      bestState := None;
      knownLeft := AnsweredIn(es, |es|);
      new;
      forall i | 0 <= i < |es|
        ensures !Bit(mask, |es|, i)
      {
        BitInRange(|es|, i);
      }
      AnsweredIs(es, |es|);
      assert Pending() == All(es);
      assert Clean(mask, |es|);
    }

    /** Place operation `i` or take it out again; the two records of what waits stay in agreement. */
    method SetLinearized(i: nat, linearized: bool)
      requires i < |entries| == |remaining| && Shaped(mask, |entries|)
      requires forall j | 0 <= j < |entries| :: remaining[j] == !Bit(mask, |entries|, j)
      requires Clean(mask, |entries|)
      modifies `remaining, `mask
      ensures Shaped(mask, |entries|) && Clean(mask, |entries|)
      ensures remaining == old(remaining)[i := !linearized]
      ensures mask == WithBit(old(mask), |entries|, i, linearized)
      ensures forall j | 0 <= j < |entries| :: remaining[j] == !Bit(mask, |entries|, j)
    {
      WithBitChanges(mask, |entries|, i, linearized);
      CleanStays(mask, |entries|, i, linearized);
      BitInRange(|entries|, i);
      remaining := remaining[i := !linearized];
      var word, bit := i / 64, i % 64;
      mask := mask[word := mask[word][bit := linearized]];
    }

    /** Linearize operation `i` next, search on from there, and put it back if that fails. */
    method Descend(state: State, i: nat, ghost placed: seq<nat>, ghost below: Seen) returns (ok: bool)
      requires Valid() && !exhausted && i < |entries| && remaining[i]
      requires Candidate(entries, Pending(), i) && Step(state, entries[i]).Some?
      requires NamedBy(entries, placed, order) && Reached(entries, placed, Pending(), state)
      requires SeenFine(entries, seen, below) && PathAbove(entries, below, Pending() - {i})
      requires state in Holdable(entries, |entries|)
      modifies this
      ensures ok ==> CanFinish(entries, old(Pending()), state)
      ensures !ok ==> Valid() && remaining == old(remaining) && mask == old(mask)
      ensures !ok ==> order == old(order) && knownLeft == old(knownLeft)
      ensures !ok && !exhausted ==> SeenFine(entries, seen, below) && DeadEnd(entries, old(Pending()), state, i)
      ensures ok ==> !exhausted
      ensures |old(Pending())| > 0
      ensures Spent(|entries|, |old(Pending())| - 1, budget, old(states), |old(seen)|, states, |seen|, exhausted)
      decreases Pending(), 0
    {
      hide Spent, Clean, SeenBounded, Holdable, CanFinish, Candidate, Step, Shaped, PendingIn, WordCount, SeenFine,
           PathAbove, Bit, WithBit, Entry.Answered, Reached, Attempt, WellRecorded, NamedBy, DeadEnd;
      NamedNext(entries, placed, order, i);
      StepHoldable(entries, state, i);
      ReachedNext(entries, placed, Pending(), state, i);
      ghost var pending := Pending();
      var next := Step(state, entries[i]).value;
      var known := entries[i].Answered();
      WithBitChanges(mask, |entries|, i, true);
      KnownWithout(entries, pending, i);
      SetLinearized(i, true);
      order := order + [entries[i].id];
      if known {
        knownLeft := knownLeft - 1;
      }
      assert Pending() == pending - {i};
      ok := Recurse(next, placed + [i], below);
      if ok {
        FinishByStep(entries, pending, state, i);
        return true;
      }
      if known {
        knownLeft := knownLeft + 1;
      }
      order := order[..|order| - 1];
      SetLinearized(i, false);
      DeadEndIs(entries, pending, state, i);
      assert remaining == old(remaining) && mask == old(mask) && order == old(order);
      assert Pending() == pending;
    }

    /** Is there a way to finish from here? `path` names what is being explored further up. */
    method Recurse(state: State, ghost placed: seq<nat>, ghost path: Seen) returns (ok: bool)
      requires Valid() && !exhausted
      requires NamedBy(entries, placed, order) && Reached(entries, placed, Pending(), state)
      requires SeenFine(entries, seen, path) && PathAbove(entries, path, Pending())
      requires state in Holdable(entries, |entries|)
      modifies this
      ensures ok ==> CanFinish(entries, old(Pending()), state)
      ensures !ok ==> Valid() && remaining == old(remaining) && mask == old(mask)
      ensures !ok ==> order == old(order) && knownLeft == old(knownLeft)
      ensures !ok && !exhausted ==> SeenFine(entries, seen, path) && !CanFinish(entries, old(Pending()), state)
      ensures ok ==> !exhausted
      ensures Spent(|entries|, |old(Pending())|, budget, old(states), |old(seen)|, states, |seen|, exhausted)
      decreases Pending(), 1
    {
      hide Spent, SpentSoFar, Clean, SeenBounded, Holdable, CanFinish, Candidate, Step, Shaped, WithBit, Bit,
           WordCount, MinRet, Reached, NamedBy, KnownIn, SeenFine, PathAbove, DeadEnd, Below,
           Waiting;
      ghost var pending := Pending();
      PendingAgrees();
      SpentAtOnce(|entries|, |pending|, budget, states, |seen|);
      if knownLeft == 0 {
        FinishedWhenNoneLeft(entries, pending, state);
        return true;
      }
      if states >= budget {
        exhausted := true;
        return false;
      }
      states := states + 1;
      if (mask, state) in seen {
        SeenBefore(entries, seen, path, mask, state);
        return false;
      }
      SeenMore(entries, seen, path, mask, state);
      SeenGrows(entries, seen, mask, state);
      seen := seen + {(mask, state)};
      ghost var below := path + {(mask, state)};
      if |order| > |bestAttempt| {
        bestAttempt, bestState := order, Some(state);
      }
      var minRet := MinRet(entries, remaining, |entries|);
      SomeWaiting(entries, pending);
      SoFarStarts(|entries|, |pending|, old(states), |old(seen)|);
      var i := 0;
      while i < |entries|
        invariant 0 <= i <= |entries| && Valid() && !exhausted
        invariant remaining == old(remaining) && mask == old(mask) && order == old(order)
        invariant knownLeft == old(knownLeft)
        invariant SeenFine(entries, seen, below)
        invariant SpentSoFar(|entries|, |pending|, i, old(states), |old(seen)|, states, |seen|)
        invariant forall p: nat | p < i && p in pending :: DeadEnd(entries, pending, state, p)
      {
        WaitingAt(remaining, i);
        CandidateByMinRet(entries, remaining, i);
        SoFarNext(|entries|, |pending|, i, old(states), |old(seen)|, states, |seen|);
        if remaining[i] && entries[i].call <= minRet && Step(state, entries[i]).Some? {
          ghost var from, seen1 := states, |seen|;
          ok := Descend(state, i, placed, below);
          SoFarDescends(|entries|, |pending|, i, budget, old(states), |old(seen)|, from, seen1, states, |seen|,
                        exhausted);
          if ok || exhausted {
            return ok;
          }
        } else if remaining[i] {
          NotTried(entries, pending, state, i);
        }
        i := i + 1;
      }
      NoWayOut(entries, pending, state);
      SeenDone(entries, seen, path, mask, state);
      SoFarEnds(|entries|, |pending|, budget, old(states), |old(seen)|, states, |seen|);
      return false;
    }

    lemma PendingAgrees()
      requires Valid()
      ensures Pending() == PendingIn(mask, |entries|)
    {
    }

    /** The whole search: decided within the budget, its answer is whether the history is linearizable. */
    method Run() returns (ok: bool)
      requires Valid() && !exhausted && seen == {} && order == [] && Pending() == All(entries)
      modifies this
      ensures ok ==> Linearizable(entries) && Explained(entries)
      ensures !ok && !exhausted ==> !Linearizable(entries) && !Explained(entries)
      ensures !ok ==> Valid()
      ensures ok ==> !exhausted
      ensures !ok ==> states <= old(states) + Enough(entries)
      ensures exhausted ==> budget < old(states) + Enough(entries)
    {
      BelowSize(|entries|);
      FinishIffLinearizable(entries);
      LinearizableIff(entries);
      NoneHoldable(entries, |entries|);
      hide Spent, Enough, Holdable, Clean, SeenBounded, CanFinish, Linearizable, Explained,
           Below, Attempt, KnownIn, Shaped;
      if |entries| == 0 {
        EmptyIsLinearizable(entries);
        return true;
      }
      ok := Recurse(None, [], {});
      if !ok {
        SeenSize(entries, seen);
        SpentIsEnough(entries, budget, old(states), states, |seen|, exhausted);
      }
    }
  }
}
