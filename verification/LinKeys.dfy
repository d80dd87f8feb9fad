/** Many keys: a whole history is linearizable exactly when each key's part of it is. */
module LinKeys {
  import opened Wrappers
  import opened LinHistory
  import opened LinPrefix
  import opened LinRegister
  import opened LinCheck
  import LinCost

  // ----- the whole store -------------------------------------------------------------------------

  type Store = map<string, Val>

  function Held(m: Store, key: string): State
  {
    if key in m then Some(m[key]) else None
  }

  function Holding(m: Store, key: string, s: State): Store
  {
    match s
    case Some(v) => m[key := v]
    case None => m - {key}
  }

  /** The state of all keys after the operations at the given positions. */
  function ExecStore(es: seq<Entry>, m: Store, order: seq<nat>): Option<Store>
    requires forall i | 0 <= i < |order| :: order[i] < |es|
    decreases |order|
  {
    if |order| == 0 then Some(m)
    else
      match Step(Held(m, es[order[0]].key), es[order[0]])
      case None => None
      case Some(next) => ExecStore(es, Holding(m, es[order[0]].key, next), order[1..])
  }

  /** One order for the operations of every key, inside everyone's window. */
  ghost predicate PlacesStore(es: seq<Entry>, order: seq<nat>)
  {
    && (forall i | 0 <= i < |order| :: order[i] < |es|)
    && Distinct(order) && RealTime(es, order)
    && (forall p: nat | p < |es| && es[p].Answered() :: p in order)
    && ExecStore(es, map[], order).Some?
  }

  ghost predicate StoreLinearizable(es: seq<Entry>)
  {
    exists order :: PlacesStore(es, order)
  }

  lemma HeldAfter(m: Store, key: string, s: State, other: string)
    ensures Held(Holding(m, key, s), other) == if other == key then s else Held(m, other)
  {
  }

  lemma {:induction false} ExecStoreThen(es: seq<Entry>, m: Store, order: seq<nat>, p: nat)
    requires InRange(es, order) && p < |es|
    ensures InRange(es, order + [p])
    ensures ExecStore(es, m, order + [p]) ==
      match ExecStore(es, m, order)
      case None => None
      case Some(held) =>
        match Step(Held(held, es[p].key), es[p])
        case None => None
        case Some(next) => Some(Holding(held, es[p].key, next))
    decreases |order|
  {
    hide Step, Held, Holding;
    if |order| == 0 {
      assert order + [p] == [p];
    } else {
      assert (order + [p])[1..] == order[1..] + [p];
      var next := Step(Held(m, es[order[0]].key), es[order[0]]);
      if next.Some? {
        ExecStoreThen(es, Holding(m, es[order[0]].key, next.value), order[1..], p);
      }
    }
  }

  /** The store `m` holds what the last changes before the end of `order` left under each key. */
  ghost predicate HoldsLast(es: seq<Entry>, order: seq<nat>, m: Store)
    requires InRange(es, order)
  {
    forall key :: HeldBefore(es, order, Some(key), |order|, Held(m, key))
  }

  lemma HoldsLastNext(es: seq<Entry>, init: seq<nat>, p: nat, m: Store, next: State)
    requires InRange(es, init) && p < |es| && InRange(es, init + [p]) && HoldsLast(es, init, m)
    requires HeldBefore(es, init + [p], Some(es[p].key), |init| + 1, next)
    ensures HoldsLast(es, init + [p], Holding(m, es[p].key, next))
  {
    hide HeldBefore, Held, Holding;
    var order, m' := init + [p], Holding(m, es[p].key, next);
    forall key
      ensures HeldBefore(es, order, Some(key), |order|, Held(m', key))
    {
      HeldAfter(m, es[p].key, next, key);
      if key != es[p].key {
        HeldEarlier(es, init, [p], Some(key), |init|, Held(m, key));
        HeldNext(es, order, Some(key), |init|, Held(m, key));
      }
    }
  }

  lemma StoreStarts(es: seq<Entry>)
    ensures HoldsLast(es, [], map[])
  {
  }

  lemma LastOfKey(es: seq<Entry>, order: seq<nat>, m: Store, key: string)
    requires InRange(es, order) && HoldsLast(es, order, m)
    ensures HeldBefore(es, order, Some(key), |order|, Held(m, key))
  {
  }

  /** A store that starts empty accepts an order of operations if and only if each of them may answer as it did,
      given what the last change to its own key left. */
  lemma {:induction false} ExecStoreAnswers(es: seq<Entry>, order: seq<nat>)
    requires InRange(es, order)
    ensures ExecStore(es, map[], order).Some? <==>
            forall j | 0 <= j < |order| :: Truthful(es, order, Some(es[order[j]].key), j)
    ensures ExecStore(es, map[], order).Some? ==> HoldsLast(es, order, ExecStore(es, map[], order).value)
  {
    hide Step, Truthful, HoldsLast, HeldBefore, Holding;
    if |order| == 0 {
      StoreStarts(es);
    } else {
      var n, init, p := |order| - 1, order[..|order| - 1], order[|order| - 1];
      var key := Some(es[p].key);
      assert order == init + [p];
      ExecStoreAnswers(es, init);
      ExecStoreThen(es, map[], init, p);
      forall j | 0 <= j < n
        ensures Truthful(es, order, Some(es[order[j]].key), j) <==> Truthful(es, init, Some(es[init[j]].key), j)
      {
        AnswersEarlier(es, init, [p], Some(es[init[j]].key), j);
      }
      if ExecStore(es, map[], init).Some? {
        var m := ExecStore(es, map[], init).value;
        assert HeldBefore(es, init, key, n, Held(m, es[p].key)) by {
          LastOfKey(es, init, m, es[p].key);
        }
        HeldEarlier(es, init, [p], key, n, Held(m, es[p].key));
        StepAnswers(es, order, key, n, Held(m, es[p].key));
        if Step(Held(m, es[p].key), es[p]).Some? {
          HoldsLastNext(es, init, p, m, Step(Held(m, es[p].key), es[p]).value);
        }
      }
    }
  }

  /** The history of a store of many registers has an explanation. */
  ghost predicate StoreExplained(es: seq<Entry>)
  {
    exists order, instants :: Explains(es, order, instants)
                              && forall j | 0 <= j < |order| :: Truthful(es, order, Some(es[order[j]].key), j)
  }

  lemma StoreLinearizableIff(es: seq<Entry>)
    requires WellRecorded(es)
    ensures StoreLinearizable(es) <==> StoreExplained(es)
  {
    hide ExecStore, Truthful, HeldBefore;
    if StoreLinearizable(es) {
      var order :| PlacesStore(es, order);
      WindowsIff(es, order);
      var instants :| InWindows(es, order, instants);
      ExecStoreAnswers(es, order);
      assert Explains(es, order, instants);
    }
    if StoreExplained(es) {
      var order, instants :| Explains(es, order, instants)
                             && forall j | 0 <= j < |order| :: Truthful(es, order, Some(es[order[j]].key), j);
      WindowsIff(es, order);
      ExecStoreAnswers(es, order);
      assert PlacesStore(es, order);
    }
  }

  // ----- the operations of one key ---------------------------------------------------------------

  /** The positions below `n` that hold operations of `key`. */
  function KeyAt(es: seq<Entry>, key: string, n: nat): (kept: seq<nat>)
    requires n <= |es|
    ensures forall k | 0 <= k < |kept| :: kept[k] < n && es[kept[k]].key == key
  {
    if n == 0 then []
    else if es[n - 1].key == key then KeyAt(es, key, n - 1) + [n - 1]
    else KeyAt(es, key, n - 1)
  }

  lemma {:induction false} KeyAtIs(es: seq<Entry>, key: string, n: nat)
    requires n <= |es|
    ensures Increasing(KeyAt(es, key, n), n)
    ensures forall p: nat | p < n :: p in KeyAt(es, key, n) <==> es[p].key == key
  {
    if n > 0 {
      KeyAtIs(es, key, n - 1);
    }
  }

  function ForKey(es: seq<Entry>, key: string): (r: seq<Entry>)
    ensures |r| == |KeyAt(es, key, |es|)|
    ensures forall k | 0 <= k < |r| :: r[k] == es[KeyAt(es, key, |es|)[k]]
  {
    var kept := KeyAt(es, key, |es|);
    seq(|kept|, k requires 0 <= k < |kept| => es[kept[k]])
  }

  /** The part of an order that concerns one key. */
  ghost function Only(es: seq<Entry>, order: seq<nat>, key: string): (r: seq<nat>)
    requires forall i | 0 <= i < |order| :: order[i] < |es|
    ensures forall i | 0 <= i < |r| :: r[i] in order && r[i] < |es| && es[r[i]].key == key
    ensures forall p | p in order && es[p].key == key :: p in r
  {
    if |order| == 0 then []
    else if es[order[0]].key == key then [order[0]] + Only(es, order[1..], key)
    else Only(es, order[1..], key)
  }

  lemma {:induction false} OnlyDistinct(es: seq<Entry>, order: seq<nat>, key: string)
    requires (forall i | 0 <= i < |order| :: order[i] < |es|) && Distinct(order)
    ensures Distinct(Only(es, order, key))
  {
    if |order| > 0 {
      var rest := order[1..];
      assert forall i | 0 <= i < |rest| :: rest[i] == order[i + 1];
      assert order[0] !in rest;
      OnlyDistinct(es, rest, key);
    }
  }

  lemma HeadRealTime(es: seq<Entry>, head: nat, rest: seq<nat>)
    requires head < |es| && forall i | 0 <= i < |rest| :: rest[i] < |es|
    requires RealTime(es, rest) && forall i | 0 <= i < |rest| :: es[head].call <= es[rest[i]].ret
    ensures RealTime(es, [head] + rest)
  {
  }

  lemma {:induction false} OnlyRealTime(es: seq<Entry>, order: seq<nat>, key: string)
    requires (forall i | 0 <= i < |order| :: order[i] < |es|) && RealTime(es, order)
    ensures RealTime(es, Only(es, order, key))
  {
    if |order| > 0 {
      var rest := order[1..];
      assert forall i | 0 <= i < |rest| :: rest[i] == order[i + 1];
      OnlyRealTime(es, rest, key);
      HeadRealTime(es, order[0], Only(es, rest, key));
    }
  }

  /** The store accepts an order exactly when every key accepts its part. */
  lemma {:induction false} StoreByKeys(es: seq<Entry>, m: Store, order: seq<nat>)
    requires forall i | 0 <= i < |order| :: order[i] < |es|
    ensures ExecStore(es, m, order).Some?
       <==> forall key :: Exec(es, Held(m, key), Only(es, order, key)).Some?
    decreases |order|
  {
    hide Step;
    if |order| > 0 {
      var e, rest := es[order[0]], order[1..];
      var next := Step(Held(m, e.key), e);
      assert Only(es, order, e.key) == [order[0]] + Only(es, rest, e.key);
      assert Only(es, order, e.key)[1..] == Only(es, rest, e.key);
      if next.None? {
        assert Exec(es, Held(m, e.key), Only(es, order, e.key)).None?;
      } else {
        var m' := Holding(m, e.key, next.value);
        StoreByKeys(es, m', rest);
        forall key
          ensures Exec(es, Held(m', key), Only(es, rest, key)) == Exec(es, Held(m, key), Only(es, order, key))
        {
          HeldAfter(m, e.key, next.value, key);
        }
      }
    }
  }

  // ----- from the whole to each key --------------------------------------------------------------

  lemma KeyOfWhole(es: seq<Entry>, key: string)
    requires WellRecorded(es) && StoreLinearizable(es)
    ensures Linearizable(ForKey(es, key))
  {
    hide KeyAt, ForKey, Exec, ExecStore, Inside, Only;
    var whole :| PlacesStore(es, whole);
    var kept, fs, order := KeyAt(es, key, |es|), ForKey(es, key), Only(es, whole, key);
    KeyAtIs(es, key, |es|);
    OnlyDistinct(es, whole, key);
    OnlyRealTime(es, whole, key);
    StoreByKeys(es, map[], whole);
    assert Held(map[], key) == None;
    var names := Inside(kept, order);
    assert Renames(es, order, fs, names);
    RenamedExec(es, order, fs, names, None);
    RenamedRealTime(es, order, fs, names);
    InsideDistinct(kept, order);
    forall k: nat | k < |fs| && fs[k].Answered()
      ensures k in names
    {
      var p := kept[k];
      assert p in whole && p in order;
      var j :| 0 <= j < |order| && order[j] == p;
      assert kept[names[j]] == kept[k];
    }
    PlacesAll(fs, names);
  }

  // ----- from each key to the whole --------------------------------------------------------------

  /** An order over one key's operations, in positions of the whole history. */
  ghost predicate PlacesKey(es: seq<Entry>, key: string, order: seq<nat>)
  {
    && (forall i | 0 <= i < |order| :: order[i] < |es| && es[order[i]].key == key)
    && Distinct(order) && RealTime(es, order)
    && (forall p: nat | p < |es| && es[p].Answered() && es[p].key == key :: p in order)
    && Exec(es, None, order).Some?
  }

  lemma OutsideRenames(es: seq<Entry>, key: string, names: seq<nat>)
    requires forall i | 0 <= i < |names| :: names[i] < |ForKey(es, key)|
    ensures Renames(ForKey(es, key), names, es, Outside(KeyAt(es, key, |es|), names))
  {
    hide KeyAt, ForKey, Outside;
  }

  lemma OutsideComplete(es: seq<Entry>, key: string, names: seq<nat>)
    requires Places(ForKey(es, key), All(ForKey(es, key)), None, names)
    ensures forall p: nat | p < |es| && es[p].Answered() && es[p].key == key ::
              p in Outside(KeyAt(es, key, |es|), names)
  {
    hide KeyAt, ForKey, Outside, Places;
    var kept, fs := KeyAt(es, key, |es|), ForKey(es, key);
    FirstPlaced(fs, names, 0);
    forall p: nat | p < |es| && es[p].Answered() && es[p].key == key
      ensures p in Outside(kept, names)
    {
      KeyAtIs(es, key, |es|);
      var k := Index(kept, p);
      AnsweredPlaced(fs, names, k);
      var j :| 0 <= j < |names| && names[j] == k;
      assert Outside(kept, names)[j] == p;
    }
  }

  lemma KeyOrder(es: seq<Entry>, key: string) returns (order: seq<nat>)
    requires WellRecorded(es) && Linearizable(ForKey(es, key))
    ensures PlacesKey(es, key, order)
  {
    hide KeyAt, ForKey, Exec, Distinct, RealTime, Renames;
    var kept, fs := KeyAt(es, key, |es|), ForKey(es, key);
    KeyAtIs(es, key, |es|);
    KeyRecorded(es, key);
    var names :| Places(fs, All(fs), None, names);
    order := Outside(kept, names);
    OutsideRenames(es, key, names);
    RenamedExec(fs, names, es, order, None);
    RenamedRealTime(fs, names, es, order);
    OutsideDistinct(kept, names, |es|);
    OutsideComplete(es, key, names);
  }

  /** Nothing in `order` returned before `p` was called. */
  ghost predicate MayLead(es: seq<Entry>, p: nat, order: seq<nat>)
    requires p < |es| && forall i | 0 <= i < |order| :: order[i] < |es|
  {
    forall i | 0 <= i < |order| :: es[p].call <= es[order[i]].ret
  }

  /** Of two heads, one may lead: otherwise each was called after something behind the other had
      returned, which goes round in a circle. */
  lemma OneMayLead(es: seq<Entry>, a: seq<nat>, b: seq<nat>)
    requires WellRecorded(es) && |a| > 0 && |b| > 0
    requires (forall i | 0 <= i < |a| :: a[i] < |es|) && (forall i | 0 <= i < |b| :: b[i] < |es|)
    requires RealTime(es, a) && RealTime(es, b)
    ensures MayLead(es, a[0], b) || MayLead(es, b[0], a)
  {
    if !MayLead(es, a[0], b) {
      var i :| 0 <= i < |b| && es[a[0]].call > es[b[i]].ret;
      assert es[a[0]].Recorded() && es[b[0]].Recorded();
      forall j | 0 <= j < |a|
        ensures es[b[0]].call <= es[a[j]].ret
      {
        assert es[b[0]].call <= es[b[i]].ret;
        assert es[a[0]].call <= es[a[j]].ret;
      }
    }
  }

  /** Two orders, for different keys, interleaved. */
  ghost predicate Merges(es: seq<Entry>, a: seq<nat>, b: seq<nat>, r: seq<nat>)
    requires (forall i | 0 <= i < |a| :: a[i] < |es|) && (forall i | 0 <= i < |b| :: b[i] < |es|)
  {
    && (forall i | 0 <= i < |r| :: r[i] < |es| && (r[i] in a || r[i] in b))
    && (forall p | p in a || p in b :: p in r)
    && Distinct(r) && RealTime(es, r)
    && forall key :: Only(es, r, key) == Only(es, a, key) + Only(es, b, key)
  }

  ghost predicate Apart(es: seq<Entry>, a: seq<nat>, b: seq<nat>)
    requires (forall i | 0 <= i < |a| :: a[i] < |es|) && (forall i | 0 <= i < |b| :: b[i] < |es|)
  {
    forall i, j | 0 <= i < |a| && 0 <= j < |b| :: es[a[i]].key != es[b[j]].key
  }

  lemma MergeNone(es: seq<Entry>, a: seq<nat>, b: seq<nat>)
    requires |a| == 0 && forall i | 0 <= i < |b| :: b[i] < |es|
    requires RealTime(es, b) && Distinct(b)
    ensures Merges(es, a, b, b)
  {
  }

  lemma Tails(es: seq<Entry>, a: seq<nat>, b: seq<nat>)
    requires (forall i | 0 <= i < |a| :: a[i] < |es|) && (forall i | 0 <= i < |b| :: b[i] < |es|)
    requires |a| > 0 && RealTime(es, a) && Distinct(a) && Apart(es, a, b)
    ensures RealTime(es, a[1..]) && Distinct(a[1..]) && Apart(es, a[1..], b) && Apart(es, b, a[1..]) && Apart(es, b, a)
  {
  }

  lemma HeadInTime(es: seq<Entry>, a: seq<nat>, b: seq<nat>, rest: seq<nat>)
    requires (forall i | 0 <= i < |a| :: a[i] < |es|) && (forall i | 0 <= i < |b| :: b[i] < |es|)
    requires |a| > 0 && RealTime(es, a) && MayLead(es, a[0], b) && Merges(es, a[1..], b, rest)
    ensures RealTime(es, [a[0]] + rest)
  {
    hide Only, Distinct;
    var r := [a[0]] + rest;
    forall j | 0 < j < |r|
      ensures es[r[0]].call <= es[r[j]].ret
    {
      var p := rest[j - 1];
      if p in a[1..] {
        var k :| 0 <= k < |a| - 1 && a[1..][k] == p;
        assert a[k + 1] == p;
      } else {
        var k :| 0 <= k < |b| && b[k] == p;
      }
    }
  }

  lemma HeadDistinct(es: seq<Entry>, a: seq<nat>, b: seq<nat>, rest: seq<nat>)
    requires (forall i | 0 <= i < |a| :: a[i] < |es|) && (forall i | 0 <= i < |b| :: b[i] < |es|)
    requires |a| > 0 && Distinct(a) && Apart(es, a, b) && Merges(es, a[1..], b, rest)
    ensures Distinct([a[0]] + rest)
  {
    hide Only, RealTime;
    assert a[0] !in a[1..];
    assert a[0] !in b;
    assert a[0] !in rest;
  }

  lemma MergeHead(es: seq<Entry>, a: seq<nat>, b: seq<nat>, rest: seq<nat>)
    requires (forall i | 0 <= i < |a| :: a[i] < |es|) && (forall i | 0 <= i < |b| :: b[i] < |es|)
    requires |a| > 0 && RealTime(es, a) && Distinct(a) && Apart(es, a, b)
    requires MayLead(es, a[0], b) && Merges(es, a[1..], b, rest)
    ensures Merges(es, a, b, [a[0]] + rest)
  {
    var r := [a[0]] + rest;
    assert r[1..] == rest;
    HeadInTime(es, a, b, rest);
    HeadDistinct(es, a, b, rest);
    hide RealTime, Distinct, MayLead;
    forall key
      ensures Only(es, r, key) == Only(es, a, key) + Only(es, b, key)
    {
    }
  }

  lemma NoneOf(es: seq<Entry>, order: seq<nat>, key: string)
    requires forall i | 0 <= i < |order| :: order[i] < |es| && es[order[i]].key != key
    ensures Only(es, order, key) == []
  {
  }

  lemma MergesEitherWay(es: seq<Entry>, a: seq<nat>, b: seq<nat>, r: seq<nat>)
    requires (forall i | 0 <= i < |a| :: a[i] < |es|) && (forall i | 0 <= i < |b| :: b[i] < |es|)
    requires Apart(es, a, b) && Merges(es, b, a, r)
    ensures Merges(es, a, b, r)
  {
    hide RealTime, Distinct, Only;
    forall key
      ensures Only(es, r, key) == Only(es, a, key) + Only(es, b, key)
    {
      var x, y := Only(es, a, key), Only(es, b, key);
      if |x| > 0 {
        assert x[0] in a;
        NoneOf(es, b, key);
      }
    }
  }

  lemma {:induction false} Merge(es: seq<Entry>, a: seq<nat>, b: seq<nat>) returns (r: seq<nat>)
    requires WellRecorded(es)
    requires (forall i | 0 <= i < |a| :: a[i] < |es|) && (forall i | 0 <= i < |b| :: b[i] < |es|)
    requires RealTime(es, a) && RealTime(es, b) && Distinct(a) && Distinct(b) && Apart(es, a, b)
    ensures Merges(es, a, b, r)
    decreases |a| + |b|
  {
    hide WellRecorded, Only, RealTime, Distinct, Apart, MayLead;
    if |a| == 0 {
      r := b;
      MergeNone(es, a, b);
    } else if |b| == 0 {
      r := a;
      MergeNone(es, b, a);
      forall key
        ensures Only(es, a, key) == Only(es, a, key) + Only(es, b, key)
      {
        assert Only(es, a, key) == Only(es, b, key) + Only(es, a, key);
      }
    } else {
      OneMayLead(es, a, b);
      Tails(es, a, b);
      Tails(es, b, a);
      if MayLead(es, a[0], b) {
        var rest := Merge(es, a[1..], b);
        r := [a[0]] + rest;
        MergeHead(es, a, b, rest);
      } else {
        var rest := Merge(es, b[1..], a);
        r := [b[0]] + rest;
        MergeHead(es, b, a, rest);
        MergesEitherWay(es, a, b, r);
      }
    }
  }

  lemma EmptyOrder(es: seq<Entry>)
    ensures Distinct([]) && RealTime(es, [])
  {
  }

  lemma {:induction false} OnlyAll(es: seq<Entry>, order: seq<nat>, key: string)
    requires forall i | 0 <= i < |order| :: order[i] < |es| && es[order[i]].key == key
    ensures Only(es, order, key) == order
  {
    if |order| > 0 {
      OnlyAll(es, order[1..], key);
    }
  }

  lemma KeyOrderParts(es: seq<Entry>, key: string, b: seq<nat>)
    requires PlacesKey(es, key, b)
    ensures forall i | 0 <= i < |b| :: b[i] < |es| && es[b[i]].key == key
    ensures Distinct(b) && RealTime(es, b) && Only(es, b, key) == b
  {
    OnlyAll(es, b, key);
  }

  /** Orders for the keys of a list, merged one key after the other. */
  lemma {:induction false} MergeKeys(es: seq<Entry>, keys: seq<string>) returns (order: seq<nat>)
    requires WellRecorded(es) && (forall k | 0 <= k < |keys| :: Linearizable(ForKey(es, keys[k])))
    requires forall k, l | 0 <= k < l < |keys| :: keys[k] != keys[l]
    ensures forall i | 0 <= i < |order| :: order[i] < |es| && es[order[i]].key in keys
    ensures Distinct(order) && RealTime(es, order)
    ensures forall key | key in keys :: PlacesKey(es, key, Only(es, order, key))
  {
    hide Linearizable, Distinct, RealTime, PlacesKey, Only;
    if |keys| == 0 {
      order := [];
      EmptyOrder(es);
    } else {
      var n, key := |keys| - 1, keys[|keys| - 1];
      var init := keys[..n];
      assert keys == init + [key] && key !in init;
      var a := MergeKeys(es, init);
      var b := KeyOrder(es, key);
      KeyOrderParts(es, key, b);
      assert Apart(es, a, b);
      order := Merge(es, a, b);
      forall k | k in keys
        ensures PlacesKey(es, k, Only(es, order, k))
      {
        if k == key {
          NoneOf(es, a, k);
          assert Only(es, order, k) == Only(es, b, k) == b;
        } else {
          NoneOf(es, b, k);
          assert Only(es, order, k) == Only(es, a, k);
        }
      }
    }
  }

  // ----- the list of keys ------------------------------------------------------------------------

  /** The keys, in first-seen order. */
  function KeyList(es: seq<Entry>): (keys: seq<string>)
    ensures forall e | e in es :: e.key in keys
    ensures forall k | 0 <= k < |keys| :: exists e :: e in es && e.key == keys[k]
    ensures forall k, l | 0 <= k < l < |keys| :: keys[k] != keys[l]
  {
    if |es| == 0 then []
    else
      var init, e := es[..|es| - 1], es[|es| - 1];
      assert es == init + [e];
      assert e in es;
      if e.key in KeyList(init) then KeyList(init) else KeyList(init) + [e.key]
  }

  ghost predicate Mentions(es: seq<Entry>, key: string)
  {
    exists j :: 0 <= j < |es| && es[j].key == key
  }

  /** Every occurrence of the key at `l` has one of the key at `k` before it. */
  ghost predicate SeenFirst(es: seq<Entry>, keys: seq<string>, k: nat, l: nat)
    requires k < |keys| && l < |keys|
  {
    forall j | 0 <= j < |es| && es[j].key == keys[l] :: exists i :: 0 <= i < j && es[i].key == keys[k]
  }

  lemma KeysMore(init: seq<Entry>, e: Entry, before: seq<string>, keys: seq<string>, k: nat, l: nat)
    requires k < l < |keys| && (keys == before || (keys == before + [e.key] && e.key !in before))
    requires forall key :: key in before <==> Mentions(init, key)
    requires l < |before| ==> SeenFirst(init, before, k, l)
    ensures SeenFirst(init + [e], keys, k, l)
  {
    var es := init + [e];
    assert keys[k] in before;
    var first: nat :| first < |init| && init[first].key == keys[k];
    forall j | 0 <= j < |es| && es[j].key == keys[l]
      ensures exists i :: 0 <= i < j && es[i].key == keys[k]
    {
      if j == |init| {
        assert es[first].key == keys[k];
      } else {
        assert init[j].key == keys[l] && Mentions(init, keys[l]);
        var i :| 0 <= i < j && init[i].key == before[k];
        assert es[i].key == keys[k];
      }
    }
  }

  /** Each key once, in the order in which the history first mentions them. */
  lemma {:induction false} KeysInOrder(es: seq<Entry>)
    ensures forall key :: key in KeyList(es) <==> Mentions(es, key)
    ensures forall k, l | 0 <= k < l < |KeyList(es)| :: KeyList(es)[k] != KeyList(es)[l]
    ensures forall k, l | 0 <= k < l < |KeyList(es)| :: SeenFirst(es, KeyList(es), k, l)
  {
    if |es| > 0 {
      var n, init := |es| - 1, es[..|es| - 1];
      var keys, before := KeyList(es), KeyList(init);
      KeysInOrder(init);
      forall key
        ensures key in keys <==> Mentions(es, key)
      {
        if key in before {
          var j :| 0 <= j < |init| && init[j].key == key;
          assert es[j].key == key;
        } else if key in keys {
          assert es[n].key == key;
        }
      }
      forall k, l | 0 <= k < l < |keys|
        ensures SeenFirst(es, keys, k, l)
      {
        assert es == init + [es[n]];
        KeysMore(init, es[n], before, keys, k, l);
      }
    }
  }

  method Keys(es: seq<Entry>) returns (out: seq<string>)
    ensures out == KeyList(es)
  {
    var seen: set<string> := {};
    out := [];
    for i := 0 to |es|
      invariant out == KeyList(es[..i])
      invariant forall k :: k in seen <==> k in out
    {
      assert es[..i + 1][..i] == es[..i];
      if es[i].key !in seen {
        seen := seen + {es[i].key};
        out := out + [es[i].key];
      }
    }
    assert es[..|es|] == es;
  }

  lemma WholeOfKeys(es: seq<Entry>)
    requires WellRecorded(es) && forall key | key in KeyList(es) :: Linearizable(ForKey(es, key))
    ensures StoreLinearizable(es)
  {
    hide ForKey, Linearizable, KeyList, Only;
    var keys := KeyList(es);
    var order := MergeKeys(es, keys);
    forall p: nat | p < |es| && es[p].Answered()
      ensures p in order
    {
      assert es[p] in es && es[p].key in keys;
      assert p in Only(es, order, es[p].key);
    }
    forall key
      ensures Exec(es, Held(map[], key), Only(es, order, key)).Some?
    {
      if key !in keys {
        NoneOf(es, order, key);
      }
    }
    StoreByKeys(es, map[], order);
    assert PlacesStore(es, order);
  }

  /** Checking the keys one at a time is enough. */
  lemma WholeIffEveryKey(es: seq<Entry>)
    requires WellRecorded(es)
    ensures StoreLinearizable(es) <==> forall key | key in KeyList(es) :: Linearizable(ForKey(es, key))
  {
    hide ForKey, Linearizable;
    if StoreLinearizable(es) {
      forall key | key in KeyList(es)
        ensures Linearizable(ForKey(es, key))
      {
        KeyOfWhole(es, key);
      }
    }
    if forall key | key in KeyList(es) :: Linearizable(ForKey(es, key)) {
      WholeOfKeys(es);
    }
  }

  // ----- the checker -----------------------------------------------------------------------------

  lemma {:induction false} KeyAtShorter(es: seq<Entry>, key: string, n: nat)
    requires n <= |es|
    ensures |KeyAt(es, key, n)| <= n
  {
    if n > 0 {
      KeyAtShorter(es, key, n - 1);
    }
  }

  lemma KeyRecorded(es: seq<Entry>, key: string)
    requires WellRecorded(es)
    ensures WellRecorded(ForKey(es, key))
  {
    hide ForKey;
  }

  /** One key needs no larger a budget than the whole. */
  lemma ForKeyCheaper(es: seq<Entry>, key: string)
    ensures LinCost.Enough(ForKey(es, key)) <= LinCost.Enough(es) <= LinCost.Cost(|es|, |es|)
  {
    hide LinCost.Enough, LinCost.Holdable, LinCost.Cost;
    KeyAtShorter(es, key, |es|);
    var fs := ForKey(es, key);
    forall k | 0 <= k < |fs|
      ensures exists p :: 0 <= p < |es| && es[p].op == fs[k].op
    {
      assert es[KeyAt(es, key, |es|)[k]].op == fs[k].op;
    }
    LinCost.HoldableFrom(fs, |fs|, es);
    LinCost.EnoughGrows(fs, es);
  }

  /** The verdict on a whole history: an undecided key is remembered, and the keys after it are still searched. */
  method CheckWithBudget(es: seq<Entry>, budget: nat)
    returns (v: Verdict, ghost spent: set<nat>, ghost culprit: nat)
    requires WellRecorded(es)
    ensures v.Fine? ==> StoreLinearizable(es) && StoreExplained(es)
    ensures v.Broken? ==> !StoreLinearizable(es) && !StoreExplained(es) && v.violation.key in KeyList(es)
    ensures v.Broken? ==>
              var fs := ForKey(es, v.violation.key);
              && (ShowsPrefix(fs, v.violation, culprit) || (!MissedNothing(fs, spent) && ShowsAll(fs, v.violation)))
              && (MissedNothing(fs, spent) ==> Earliest(fs, culprit))
              && OutOfBudget(fs, budget, spent)
    ensures v.Undecided? ==> v.key in KeyList(es) && v.states == budget < LinCost.Enough(ForKey(es, v.key))
    ensures v.Undecided? ==>
              forall key | key in KeyList(es) && LinCost.Enough(ForKey(es, key)) <= budget ::
                Linearizable(ForKey(es, key))
    ensures LinCost.Enough(es) <= budget ==> !v.Undecided? && spent == {}
    ensures LinCost.Enough(es) <= LinCost.Cost(|es|, |es|)
  {
    hide ForKey, Linearizable, Explained, StoreLinearizable, StoreExplained, LinCost.Enough, ShowsPrefix, ShowsAll,
         Earliest, KeyList, WellRecorded, KeyAt, MissedNothing, OutOfBudget;
    var undecided: Option<Verdict> := None;
    var keys := Keys(es);
    WholeIffEveryKey(es);
    StoreLinearizableIff(es);
    ForKeyCheaper(es, "");
    spent, culprit := {}, 0;
    for k := 0 to |keys|
      invariant spent == {}
      invariant undecided.None? ==> forall l | 0 <= l < k :: Linearizable(ForKey(es, keys[l]))
      invariant forall l | 0 <= l < k ::
          Linearizable(ForKey(es, keys[l])) || budget < LinCost.Enough(ForKey(es, keys[l]))
      invariant undecided.Some? ==> undecided.value.Undecided? && undecided.value.key in keys
                                    && undecided.value.states == budget
                                    && budget < LinCost.Enough(ForKey(es, undecided.value.key))
    {
      var entries := ForKey(es, keys[k]);
      ForKeyCheaper(es, keys[k]);
      KeyRecorded(es, keys[k]);
      assert keys[k] in keys;
      var w, s, c := CheckOneKey(keys[k], entries, budget);
      match w
      case Fine =>
      case Undecided(_, _) =>
        if undecided.None? {
          undecided := Some(w);
        }
      case Broken(_) =>
        SpentMeans(entries, budget, s);
        return w, s, c;
    }
    if undecided.Some? {
      ForKeyCheaper(es, undecided.value.key);
    }
    v := if undecided.Some? then undecided.value else Fine;
  }
}
