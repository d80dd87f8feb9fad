/** What it means for an order of operations to give the recorded answers, read off the order alone. */
module LinRegister {
  import opened Wrappers
  import opened LinHistory

  // ----- what a key holds, by the last operation that changed it ----------------------------------

  ghost predicate InRange(es: seq<Entry>, order: seq<nat>)
  {
    forall k | 0 <= k < |order| :: order[k] < |es|
  }

  /** The operation acts on the register in question; without a key there is only one. */
  predicate Concerns(e: Entry, key: Option<string>)
  {
    key.None? || e.key == key.value
  }

  /** What a change leaves behind. */
  function Left(op: Op): State
  {
    match op
    case Write(v) => Some(v)
    case Cas(_, v) => Some(v)
    case _ => None
  }

  /** Before position `j` the register holds `v`: the last change before `j` left it, or there was none and the
      register is empty. */
  ghost predicate HeldBefore(es: seq<Entry>, order: seq<nat>, key: Option<string>, j: nat, v: State)
    requires j <= |order| && InRange(es, order)
    decreases j, 0
  {
    || (v.None? && forall i | 0 <= i < j :: !Changes(es, order, key, i))
    || exists i :: 0 <= i < j && Changes(es, order, key, i) && v == Left(es[order[i]].op)
                   && forall k | i < k < j :: !Changes(es, order, key, k)
  }

  /** The operation at position `i` changed the register: a write or a deletion does, a swap when it says so;
      one without an answer does when the register held what it wanted. */
  ghost predicate Changes(es: seq<Entry>, order: seq<nat>, key: Option<string>, i: nat)
    requires i < |order| && InRange(es, order)
    decreases i, 1
  {
    && Concerns(es[order[i]], key)
    && match (es[order[i]].op, es[order[i]].outcome)
       case (Write(_), _) => true
       case (Delete, _) => true
       case (Cas(_, _), Swapped(held)) => held
       case (Cas(wanted, _), Unknown) => HeldBefore(es, order, key, i, wanted)
       case _ => false
  }

  /** Answers that can belong to a request. */
  predicate WellShaped(e: Entry)
  {
    match e.op
    case Read => e.outcome.Value? || e.outcome.Unknown?
    case Write(_) => e.outcome.Done? || e.outcome.Unknown?
    case Delete => e.outcome.Done? || e.outcome.Unknown?
    case Cas(_, _) => e.outcome.Swapped? || e.outcome.Unknown?
  }

  /** The operation at position `j` may answer as it did: a read saw what was held, a swap happened exactly when
      what it wanted was held. */
  ghost predicate Truthful(es: seq<Entry>, order: seq<nat>, key: Option<string>, j: nat)
    requires j < |order| && InRange(es, order)
  {
    var e := es[order[j]];
    && WellShaped(e)
    && (e.op.Read? && e.outcome.Value? ==> HeldBefore(es, order, key, j, e.outcome.seen))
    && (e.op.Cas? && e.outcome.Swapped? ==> (e.outcome.held <==> HeldBefore(es, order, key, j, e.op.wanted)))
  }

  // ----- one more operation -----------------------------------------------------------------------

  lemma HeldNext(es: seq<Entry>, order: seq<nat>, key: Option<string>, j: nat, v: State)
    requires j < |order| && InRange(es, order)
    ensures HeldBefore(es, order, key, j + 1, v) <==>
            if Changes(es, order, key, j) then v == Left(es[order[j]].op) else HeldBefore(es, order, key, j, v)
  {
    hide Left, Changes;
    if !Changes(es, order, key, j) {
      if HeldBefore(es, order, key, j, v) && exists i :: 0 <= i < j && Changes(es, order, key, i) {
        assert HeldBefore(es, order, key, j + 1, v);
      }
    }
  }

  /** A register holds one value. */
  lemma {:induction false} HeldOnce(es: seq<Entry>, order: seq<nat>, key: Option<string>, j: nat, v: State, w: State)
    requires j <= |order| && InRange(es, order)
    requires HeldBefore(es, order, key, j, v) && HeldBefore(es, order, key, j, w)
    ensures v == w
  {
    hide Changes, Left;
    if j > 0 {
      HeldNext(es, order, key, j - 1, v);
      HeldNext(es, order, key, j - 1, w);
      hide HeldBefore;
      if !Changes(es, order, key, j - 1) {
        HeldOnce(es, order, key, j - 1, v, w);
      }
    }
  }

  lemma {:induction false} ChangesEarlier(es: seq<Entry>, order: seq<nat>, more: seq<nat>, key: Option<string>, j: nat)
    requires j < |order| && InRange(es, order) && InRange(es, order + more)
    ensures Changes(es, order + more, key, j) <==> Changes(es, order, key, j)
    decreases j, 1
  {
    hide HeldBefore;
    var e := es[order[j]];
    assert (order + more)[j] == order[j];
    if e.op.Cas? {
      HeldEarlier(es, order, more, key, j, e.op.wanted);
    }
  }

  /** What comes later does not matter. */
  lemma {:induction false} HeldEarlier(es: seq<Entry>, order: seq<nat>, more: seq<nat>, key: Option<string>,
                                       j: nat, v: State)
    requires j <= |order| && InRange(es, order) && InRange(es, order + more)
    ensures HeldBefore(es, order + more, key, j, v) <==> HeldBefore(es, order, key, j, v)
    decreases j, 0
  {
    if j > 0 {
      HeldNext(es, order, key, j - 1, v);
      HeldNext(es, order + more, key, j - 1, v);
      HeldEarlier(es, order, more, key, j - 1, v);
      ChangesEarlier(es, order, more, key, j - 1);
    }
  }

  lemma AnswersEarlier(es: seq<Entry>, order: seq<nat>, more: seq<nat>, key: Option<string>, j: nat)
    requires j < |order| && InRange(es, order) && InRange(es, order + more)
    ensures Truthful(es, order + more, key, j) <==> Truthful(es, order, key, j)
  {
    hide HeldBefore, WellShaped;
    var e := es[order[j]];
    assert (order + more)[j] == order[j];
    if e.op.Read? && e.outcome.Value? {
      HeldEarlier(es, order, more, key, j, e.outcome.seen);
    }
    if e.op.Cas? {
      HeldEarlier(es, order, more, key, j, e.op.wanted);
    }
  }

  /** The register's step is what the next answer and the next change say. */
  lemma StepAnswers(es: seq<Entry>, order: seq<nat>, key: Option<string>, j: nat, s: State)
    requires j < |order| && InRange(es, order) && Concerns(es[order[j]], key) && HeldBefore(es, order, key, j, s)
    ensures Step(s, es[order[j]]).Some? <==> Truthful(es, order, key, j)
    ensures Step(s, es[order[j]]).Some? ==> HeldBefore(es, order, key, j + 1, Step(s, es[order[j]]).value)
  {
    var e := es[order[j]];
    if e.op.Read? && e.outcome.Value? && HeldBefore(es, order, key, j, e.outcome.seen) {
      HeldOnce(es, order, key, j, s, e.outcome.seen);
    }
    if e.op.Cas? && HeldBefore(es, order, key, j, e.op.wanted) {
      HeldOnce(es, order, key, j, s, e.op.wanted);
    }
    hide HeldBefore;
    if Step(s, e).Some? {
      HeldNext(es, order, key, j, Step(s, e).value);
    }
  }

  lemma {:induction false} ExecThen(es: seq<Entry>, s: State, order: seq<nat>, p: nat)
    requires InRange(es, order) && p < |es|
    ensures InRange(es, order + [p])
    ensures Exec(es, s, order + [p]) ==
      match Exec(es, s, order)
      case None => None
      case Some(held) => Step(held, es[p])
    decreases |order|
  {
    hide Step;
    if |order| == 0 {
      assert order + [p] == [p];
    } else {
      assert (order + [p])[1..] == order[1..] + [p];
      if Step(s, es[order[0]]).Some? {
        ExecThen(es, Step(s, es[order[0]]).value, order[1..], p);
      }
    }
  }

  lemma NothingHeld(es: seq<Entry>, key: Option<string>)
    ensures HeldBefore(es, [], key, 0, None)
  {
  }

  /** A register that starts empty accepts an order of operations if and only if each of them may answer as it
      did, and then holds what the last change left. */
  lemma {:induction false} ExecAnswers(es: seq<Entry>, order: seq<nat>)
    requires InRange(es, order)
    ensures Exec(es, None, order).Some? <==> forall j | 0 <= j < |order| :: Truthful(es, order, None, j)
    ensures Exec(es, None, order).Some? ==> HeldBefore(es, order, None, |order|, Exec(es, None, order).value)
  {
    hide Step, Truthful, HeldBefore;
    if |order| == 0 {
      NothingHeld(es, None);
    } else {
      var n, init, p := |order| - 1, order[..|order| - 1], order[|order| - 1];
      assert order == init + [p];
      ExecAnswers(es, init);
      ExecThen(es, None, init, p);
      forall j | 0 <= j < n
        ensures Truthful(es, order, None, j) <==> Truthful(es, init, None, j)
      {
        AnswersEarlier(es, init, [p], None, j);
      }
      if Exec(es, None, init).Some? {
        HeldEarlier(es, init, [p], None, n, Exec(es, None, init).value);
        StepAnswers(es, order, None, n, Exec(es, None, init).value);
      }
    }
  }

  // ----- an order inside everyone's window --------------------------------------------------------

  /** Instants, one for each operation of an order, inside their windows and never going back. */
  ghost predicate InWindows(es: seq<Entry>, order: seq<nat>, instants: seq<nat>)
    requires InRange(es, order)
  {
    && |instants| == |order|
    && (forall i | 0 <= i < |order| :: es[order[i]].call <= instants[i] <= es[order[i]].ret)
    && (forall i, j | 0 <= i < j < |order| :: instants[i] <= instants[j])
  }

  lemma WindowsMore(es: seq<Entry>, order: seq<nat>, instants: seq<nat>, p: nat, t: nat)
    requires InRange(es, order) && InWindows(es, order, instants)
    requires p < |es| && es[p].call <= t <= es[p].ret && (|order| > 0 ==> instants[|order| - 1] <= t)
    ensures InRange(es, order + [p]) && InWindows(es, order + [p], instants + [t])
  {
  }

  lemma NoWindows(es: seq<Entry>)
    ensures InWindows(es, [], [])
  {
  }

  lemma RealTimeInit(es: seq<Entry>, init: seq<nat>, p: nat)
    requires InRange(es, init + [p]) && RealTime(es, init + [p])
    ensures InRange(es, init) && p < |es| && RealTime(es, init)
    ensures forall i | 0 <= i < |init| :: es[init[i]].call <= es[p].ret
  {
    var order := init + [p];
    assert order[|init|] == p;
    assert forall i | 0 <= i < |init| :: init[i] == order[i];
  }

  /** Every operation as early as the ones before it allow; the last one when some operation `at` begins. */
  lemma {:induction false} WindowsOf(es: seq<Entry>, order: seq<nat>) returns (instants: seq<nat>, at: nat)
    requires WellRecorded(es) && InRange(es, order) && RealTime(es, order)
    ensures InWindows(es, order, instants)
    ensures |order| > 0 ==> at < |order| == |instants| && instants[|order| - 1] == es[order[at]].call
  {
    hide InWindows, RealTime;
    if |order| == 0 {
      instants, at := [], 0;
      NoWindows(es);
    } else {
      var n, init, p := |order| - 1, order[..|order| - 1], order[|order| - 1];
      assert order == init + [p] && es[p].Recorded();
      RealTimeInit(es, init, p);
      var before;
      before, at := WindowsOf(es, init);
      if n == 0 || before[n - 1] <= es[p].call {
        at := n;
      }
      var t := es[order[at]].call;
      WindowsMore(es, init, before, p, t);
      instants := before + [t];
    }
  }

  /** Real-time order is the same as an instant for everyone. */
  lemma WindowsIff(es: seq<Entry>, order: seq<nat>)
    requires WellRecorded(es) && InRange(es, order)
    ensures RealTime(es, order) <==> exists instants :: InWindows(es, order, instants)
  {
    if RealTime(es, order) {
      var instants, at := WindowsOf(es, order);
    }
  }

  /** An order and instants that explain a history: every answered operation takes place, each operation once, at
      an instant inside its own window, and answers as the register of the key (or the only one) makes it. */
  ghost predicate Explains(es: seq<Entry>, order: seq<nat>, instants: seq<nat>)
  {
    && InRange(es, order)
    && (forall i, j | 0 <= i < j < |order| :: order[i] != order[j])
    && (forall p: nat | p < |es| && es[p].outcome != Unknown :: p in order)
    && InWindows(es, order, instants)
  }

  /** The history of one register has an explanation. */
  ghost predicate Explained(es: seq<Entry>)
  {
    exists order, instants :: Explains(es, order, instants)
                              && forall j | 0 <= j < |order| :: Truthful(es, order, None, j)
  }

  lemma LinearizableIff(es: seq<Entry>)
    requires WellRecorded(es)
    ensures Linearizable(es) <==> Explained(es)
  {
    hide Exec, Truthful, HeldBefore;
    if Linearizable(es) {
      var order :| Places(es, All(es), None, order);
      WindowsIff(es, order);
      var instants :| InWindows(es, order, instants);
      ExecAnswers(es, order);
      assert Explains(es, order, instants);
    }
    if Explained(es) {
      var order, instants :| Explains(es, order, instants)
                             && forall j | 0 <= j < |order| :: Truthful(es, order, None, j);
      WindowsIff(es, order);
      ExecAnswers(es, order);
      assert Places(es, All(es), None, order);
    }
  }
}
