/** What holds over every run of the node in which requests do not overlap. */
module KvRuns {
  import opened Wrappers
  import opened Bytes
  import opened StoreText
  import opened KvNode

  datatype Event =
    | Serve(request: Request)
    | Transact(txn: Txn)
    | FlushNow(written: bool)
    | CrashAndRestart

  function Step(s: State, e: Event): State
  {
    match e
    case Serve(r) => AfterRequest(s, r)
    case Transact(t) => AfterTxn(s, t)
    case FlushNow(written) => AfterAttempt(s, written)
    case CrashAndRestart => AfterRestart(s)
  }

  /** A node started on an empty data directory. */
  const START := State(map[], false, 1, None)

  function RunOf(es: seq<Event>): State
  {
    if |es| == 0 then START else Step(RunOf(es[..|es| - 1]), es[|es| - 1])
  }

  /** The pairs on disk; a missing file counts as an empty store. */
  function Saved(s: State): KV
  {
    match s.disk case None => map[] case Some(text) => LoadText(text, map[]).kv
  }

  /** Does an event write the store, in the state it finds? Only a flush that finds something to write
      does, and only when its write goes through. */
  predicate Writes(s: State, e: Event)
  {
    e == FlushNow(true) && s.dirty
  }

  /** The pairs held in memory at the last write of the history that went through. */
  function LastWritten(es: seq<Event>): KV
  {
    if |es| == 0 then map[]
    else
      var before := RunOf(es[..|es| - 1]);
      if Writes(before, es[|es| - 1]) then before.kv else LastWritten(es[..|es| - 1])
  }

  /** Did the last flush that found something to write fail, with no restart since? */
  function Missed(es: seq<Event>): bool
  {
    if |es| == 0 then false
    else
      var before := es[..|es| - 1];
      match es[|es| - 1]
      case FlushNow(written) => if RunOf(before).dirty then !written else Missed(before)
      case CrashAndRestart => false
      case _ => Missed(before)
  }

  // ----- revisions ----------------------------------------------------------------------------

  ghost predicate PairFine(p: Pair, revision: int)
  {
    && 1 < p.create <= p.mod <= revision
    && 1 <= p.version <= p.mod - p.create + 1
  }

  /** Every pair was created no later than it was modified, was modified no later than now, and
      cannot have more versions than revisions in between; no two pairs share a modification. */
  ghost predicate RevisionsFine(kv: KV, revision: int)
  {
    && revision >= 1
    && (forall k | k in kv :: PairFine(kv[k], revision))
    && (forall k, k' | k in kv && k' in kv && kv[k].mod == kv[k'].mod :: k == k')
  }

  // ----- durability ---------------------------------------------------------------------------

  /** The file was printed from the pairs it parses to. */
  ghost predicate Printed(s: State)
  {
    s.disk.Some? ==> s.disk.value == PrintStore(Saved(s))
  }

  /** ... and a clean node holds just those. */
  ghost predicate Durable(s: State)
  {
    Printed(s) && (!s.dirty ==> Saved(s) == s.kv)
  }

  ghost predicate Inv(s: State)
  {
    && Printed(s)
    && RevisionsFine(s.kv, s.revision)
    && (exists r :: RevisionsFine(Saved(s), r))
  }

  lemma PutKeeps(s: State, key: Key, value: seq<byte>)
    requires Inv(s)
    ensures Inv(AfterPut(s, key, value))
  {
    hide LoadText, PrintStore;
    var s' := AfterPut(s, key, value);
    assert Saved(s') == Saved(s);
    assert RevisionsFine(s'.kv, s'.revision) by {
      assert forall k | k in s'.kv && k != key :: k in s.kv && s'.kv[k] == s.kv[k] && PairFine(s.kv[k], s.revision);
      assert key in s.kv ==> PairFine(s.kv[key], s.revision);
    }
  }

  lemma DeleteKeeps(s: State, key: Key, end: Option<Key>)
    requires Inv(s)
    ensures Inv(AfterDelete(s, key, end))
  {
    hide LoadText, PrintStore, DeleteHit;
    var s' := AfterDelete(s, key, end);
    assert Saved(s') == Saved(s);
    assert RevisionsFine(s'.kv, s'.revision) by {
      assert forall k | k in s'.kv :: k in s.kv && s'.kv[k] == s.kv[k] && PairFine(s.kv[k], s.revision);
    }
  }

  lemma RequestKeeps(s: State, r: Request)
    requires Inv(s)
    ensures Inv(AfterRequest(s, r)) && AfterRequest(s, r).disk == s.disk
  {
    hide Inv, KeyOf, DeleteHit;
    match r
    case Put(k, v, _) =>
      if KeyOf(k).Some? && KeyOf(v).Some? {
        PutKeeps(s, KeyOf(k).value, KeyOf(v).value);
      }
    case Range(_, _) =>
    case DeleteRange(k, e) =>
      if KeyOf(k).Some? {
        DeleteKeeps(s, KeyOf(k).value, KeyOf(e));
      }
  }

  lemma {:induction false} OpsKeep(s: State, ops: seq<Op>)
    requires Inv(s)
    ensures Inv(AfterOps(s, ops)) && AfterOps(s, ops).disk == s.disk
  {
    hide Inv, AfterRequest;
    if |ops| > 0 {
      OpsKeep(s, ops[..|ops| - 1]);
      if ops[|ops| - 1].Some? {
        RequestKeeps(AfterOps(s, ops[..|ops| - 1]), ops[|ops| - 1].value);
      }
    }
  }

  lemma FlushKeeps(s: State, written: bool)
    requires Inv(s)
    ensures Inv(AfterAttempt(s, written))
    ensures Saved(AfterAttempt(s, written)) == if written && s.dirty then s.kv else Saved(s)
  {
    hide LoadText, PrintStore, RevisionsFine;
    StoreRoundTrip(s.kv);
    assert RevisionsFine(s.kv, s.revision);
    assert Saved(AfterAttempt(s, written)) == if written && s.dirty then s.kv else Saved(s);
  }

  /** Restarting restores exactly what is on disk, and the highest revision seen there. */
  lemma RestartRestores(s: State)
    requires Printed(s)
    ensures AfterRestart(s).kv == Saved(s) == Saved(AfterRestart(s))
    ensures Durable(AfterRestart(s))
    ensures exists h :: IsHighest(h, Saved(s)) && AfterRestart(s).revision == Max(h, 1)
  {
    hide LoadText, PrintStore;
    StoreRoundTrip(Saved(s));
    if s.disk.None? {
      assert IsHighest(0, Saved(s));
    }
  }

  lemma RestartKeeps(s: State)
    requires Inv(s)
    ensures Inv(AfterRestart(s)) && Saved(AfterRestart(s)) == Saved(s)
  {
    RestartRestores(s);
    hide LoadText, PrintStore, AfterRestart, Saved;
    var s', kv := AfterRestart(s), Saved(s);
    var h :| IsHighest(h, kv) && s'.revision == Max(h, 1);
    var r :| RevisionsFine(kv, r);
    forall k | k in kv
      ensures PairFine(kv[k], s'.revision)
    {
      assert PairFine(kv[k], r) && kv[k].mod <= h;
    }
    assert RevisionsFine(kv, s'.revision);
  }

  lemma StepKeeps(s: State, e: Event)
    requires Inv(s)
    ensures Inv(Step(s, e))
    ensures Saved(Step(s, e)) == if Writes(s, e) then s.kv else Saved(s)
  {
    hide Inv, LoadText, AfterRequest, AfterOps, BranchOf;
    match e
    case Serve(r) => RequestKeeps(s, r);
    case Transact(t) =>
      if BranchOf(s, t).Some? {
        OpsKeep(s, BranchOf(s, t).value);
      }
    case FlushNow(written) => FlushKeeps(s, written);
    case CrashAndRestart => RestartKeeps(s);
  }

  lemma StartFine()
    ensures Inv(START) && Saved(START) == map[]
  {
    assert RevisionsFine(Saved(START), 1);
  }

  /** Over every run, whatever writes go through, the disk holds exactly the pairs of the last write that
      did, in the format they are read back from, and revisions stay consistent. */
  lemma {:induction false} EveryRun(es: seq<Event>)
    ensures Inv(RunOf(es))
    ensures Saved(RunOf(es)) == LastWritten(es)
  {
    hide Inv, Step, Saved;
    if |es| == 0 {
      StartFine();
    } else {
      EveryRun(es[..|es| - 1]);
      StepKeeps(RunOf(es[..|es| - 1]), es[|es| - 1]);
    }
  }

  lemma RequestDirties(s: State, r: Request)
    ensures AfterRequest(s, r).dirty || AfterRequest(s, r) == s
  {
    hide DeleteHit, NextPair;
  }

  lemma {:induction false} OpsDirty(s: State, ops: seq<Op>)
    ensures AfterOps(s, ops).dirty || AfterOps(s, ops) == s
  {
    hide AfterRequest;
    if |ops| > 0 {
      OpsDirty(s, ops[..|ops| - 1]);
      if ops[|ops| - 1].Some? {
        RequestDirties(AfterOps(s, ops[..|ops| - 1]), ops[|ops| - 1].value);
      }
    }
  }

  /** What one event makes of a node that has missed no write. */
  lemma StepIsDurable(s: State, e: Event, missed: bool)
    requires Inv(s) && (!missed ==> Durable(s))
    ensures match e
            case FlushNow(written) => (if s.dirty then written else !missed) ==> Durable(Step(s, e))
            case CrashAndRestart => Durable(Step(s, e))
            case _ => !missed ==> Durable(Step(s, e))
  {
    StepKeeps(s, e);
    hide LoadText, PrintStore, AfterRequest, AfterOps, BranchOf, RevisionsFine, AfterRestart, Saved;
    match e
    case Serve(r) => RequestDirties(s, r);
    case Transact(t) =>
      if BranchOf(s, t).Some? {
        OpsDirty(s, BranchOf(s, t).value);
      }
    case FlushNow(written) =>
    case CrashAndRestart => RestartRestores(s);
  }

  lemma StartDurable()
    ensures Durable(RunOf([]))
  {
  }

  lemma RunLast(es: seq<Event>)
    requires |es| > 0
    ensures RunOf(es) == Step(RunOf(es[..|es| - 1]), es[|es| - 1])
  {
    hide Step;
  }

  /** Over every run that has missed no write, the file reads back as exactly the pairs in memory whenever
      the node is clean. */
  lemma {:induction false} CleanIsDurable(es: seq<Event>)
    ensures !Missed(es) ==> Durable(RunOf(es))
  {
    hide Step, Durable, Inv, RunOf;
    if |es| == 0 {
      StartDurable();
    } else {
      var before, e := es[..|es| - 1], es[|es| - 1];
      CleanIsDurable(before);
      EveryRun(before);
      StepIsDurable(RunOf(before), e, Missed(before));
      RunLast(es);
    }
  }

  /** In particular when every flush of the run is written. */
  lemma {:induction false} NothingMissed(es: seq<Event>)
    requires FlushNow(false) !in es
    ensures !Missed(es) && Durable(RunOf(es))
  {
    hide RunOf, Durable;
    if |es| > 0 {
      NothingMissed(es[..|es| - 1]);
    }
    CleanIsDurable(es);
  }

  /** Over every run, a clean node is saved if and only if the last flush that found something to write was
      written, or the disk had it all anyway. */
  lemma SavedIff(es: seq<Event>)
    requires !RunOf(es).dirty
    ensures Saved(RunOf(es)) == RunOf(es).kv <==> !Missed(es) || LastWritten(es) == RunOf(es).kv
  {
    hide RunOf, Missed, Saved, LastWritten, Inv;
    EveryRun(es);
    CleanIsDurable(es);
  }

  /** A crash at any point of any run brings back exactly the pairs held at the last write that went
      through, with the counter at the highest of their revisions (at least 1); so nothing at all is
      lost exactly when memory held just those. What becomes of one put is `WriteSurvivesIff`. */
  lemma CrashRestoresLastFlush(es: seq<Event>)
    ensures
      var before, after := RunOf(es), RunOf(es + [CrashAndRestart]);
      && after.kv == LastWritten(es)
      && (exists h :: IsHighest(h, LastWritten(es)) && after.revision == Max(h, 1))
      && (after.kv == before.kv <==> before.kv == LastWritten(es))
      && (!before.dirty && !Missed(es) ==> after.kv == before.kv)
  {
    EveryRun(es);
    CleanIsDurable(es);
    RestartRestores(RunOf(es));
    assert (es + [CrashAndRestart])[..|es|] == es;
  }

  /** The lie: a put that was answered is gone after a crash that comes before the flush. */
  lemma AcknowledgedWriteLost(key: string, value: string)
    requires KeyOf(Some(key)).Some? && KeyOf(Some(value)).Some?
    ensures
      var put := Put(Some(key), Some(value), false);
      && AnswerTo(START, put).PutAnswer?
      && KeyOf(Some(key)).value in RunOf([Serve(put)]).kv
      && RunOf([Serve(put), CrashAndRestart]).kv == map[]
      && RunOf([Serve(put), FlushNow(true), CrashAndRestart]).kv == RunOf([Serve(put)]).kv
  {
    var put := Put(Some(key), Some(value), false);
    var one := [Serve(put)];
    assert one[..0] == [] && RunOf(one) == Step(START, Serve(put));
    CrashRestoresLastFlush(one);
    assert one + [CrashAndRestart] == [Serve(put), CrashAndRestart];
    assert LastWritten(one) == LastWritten(one[..0]) == map[];
    CrashRestoresLastFlush(one + [FlushNow(true)]);
    assert (one + [FlushNow(true)])[..1] == one;
    assert one + [FlushNow(true)] + [CrashAndRestart] == [Serve(put), FlushNow(true), CrashAndRestart];
  }

  /** A failed flush is not made good by the next one: the node counts as clean, so there is nothing to
      write until something changes, and the put is lost. */
  lemma FailedFlushIsNotRetried(key: string, value: string)
    requires KeyOf(Some(key)).Some? && KeyOf(Some(value)).Some?
    ensures
      var put := Put(Some(key), Some(value), false);
      RunOf([Serve(put), FlushNow(false), FlushNow(true), CrashAndRestart]).kv == map[]
  {
    var put := Put(Some(key), Some(value), false);
    var es := [Serve(put), FlushNow(false), FlushNow(true)];
    assert es[..2] == [Serve(put), FlushNow(false)] && es[..2][..1] == [Serve(put)] && es[..2][..1][..0] == [];
    assert RunOf(es[..2][..1]) == Step(START, Serve(put));
    assert RunOf(es[..2]) == AfterAttempt(RunOf(es[..2][..1]), false);
    assert !RunOf(es[..2]).dirty;
    assert LastWritten(es) == LastWritten(es[..2]) == LastWritten(es[..2][..1]) == map[];
    CrashRestoresLastFlush(es);
    assert es + [CrashAndRestart] == [Serve(put), FlushNow(false), FlushNow(true), CrashAndRestart];
  }

  // ----- which acknowledged writes survive ----------------------------------------------------

  /** Does a request change what is stored under `key`? */
  predicate RequestTouches(r: Request, key: Key)
  {
    match r
    case Put(k, v, _) => KeyOf(k) == Some(key) && KeyOf(v).Some?
    case Range(_, _) => false
    case DeleteRange(k, e) => KeyOf(k).Some? && DeleteHit(key, KeyOf(k).value, KeyOf(e))
  }

  /** A request touches a key exactly when there is a state in which it changes what is stored there. */
  lemma TouchesIff(r: Request, key: Key)
    ensures RequestTouches(r, key) <==> exists s: State :: Lookup(AfterRequest(s, r).kv, key) != Lookup(s.kv, key)
  {
    hide KeyOf, DeleteHit, NextPair;
    if RequestTouches(r, key) {
      var empty, full := State(map[], false, 1, None), State(map[key := DEFAULT_PAIR], false, 1, None);
      match r {
      case Put(_, _, _) =>
        assert Lookup(AfterRequest(empty, r).kv, key) != Lookup(empty.kv, key);
      case DeleteRange(k, e) =>
        assert key in Doomed(full.kv, KeyOf(k).value, KeyOf(e));
        assert Lookup(AfterRequest(full, r).kv, key) != Lookup(full.kv, key);
      }
    } else {
      forall s: State
        ensures Lookup(AfterRequest(s, r).kv, key) == Lookup(s.kv, key)
      {
        if r.DeleteRange? && KeyOf(r.key).Some? {
          assert key !in Doomed(s.kv, KeyOf(r.key).value, KeyOf(r.rangeEnd));
        }
      }
    }
  }

  ghost predicate OpsTouch(ops: seq<Op>, key: Key)
  {
    exists i :: 0 <= i < |ops| && ops[i].Some? && RequestTouches(ops[i].value, key)
  }

  /** Does an event, in the state it finds, change what memory holds under `key`? For a transaction
      only the branch it takes matters. */
  ghost predicate Touches(s: State, e: Event, key: Key)
  {
    match e
    case Serve(r) => RequestTouches(r, key)
    case Transact(t) => BranchOf(s, t).Some? && OpsTouch(BranchOf(s, t).value, key)
    case FlushNow(_) => false
    case CrashAndRestart => false
  }

  /** None of the later events touches `key`. */
  ghost predicate LeftAlone(es: seq<Event>, more: seq<Event>, key: Key)
  {
    forall i | 0 <= i < |more| :: !Touches(RunOf(es + more[..i]), more[i], key)
  }

  /** Where a pair is after some events: in memory only, on disk as well, or nowhere. */
  datatype Fate = InMemory | OnDisk | Lost

  function FateOf(es: seq<Event>, more: seq<Event>): Fate
  {
    if |more| == 0 then InMemory
    else
      var init, e := more[..|more| - 1], more[|more| - 1];
      if FateOf(es, init) != InMemory then FateOf(es, init)
      else if Writes(RunOf(es + init), e) then OnDisk
      else if e.CrashAndRestart? then Lost
      else InMemory
  }

  /** The store was written, and no crash came before that. */
  ghost predicate WrittenInTime(es: seq<Event>, more: seq<Event>)
  {
    exists i :: 0 <= i < |more| && Writes(RunOf(es + more[..i]), more[i])
                && forall j | 0 <= j < i :: !more[j].CrashAndRestart?
  }

  lemma {:induction false} FateByWrite(es: seq<Event>, more: seq<Event>)
    ensures FateOf(es, more) == OnDisk <==> WrittenInTime(es, more)
    ensures FateOf(es, more) == InMemory <==>
              forall i | 0 <= i < |more| :: !Writes(RunOf(es + more[..i]), more[i]) && !more[i].CrashAndRestart?
  {
    hide Writes, RunOf;
    if |more| > 0 {
      var init, n := more[..|more| - 1], |more| - 1;
      FateByWrite(es, init);
      assert forall i | 0 <= i < n :: init[i] == more[i] && init[..i] == more[..i];
      if WrittenInTime(es, init) {
        var i :| 0 <= i < |init| && Writes(RunOf(es + init[..i]), init[i])
                 && forall j | 0 <= j < i :: !init[j].CrashAndRestart?;
        assert Writes(RunOf(es + more[..i]), more[i]);
      }
      if WrittenInTime(es, more) {
        var i :| 0 <= i < |more| && Writes(RunOf(es + more[..i]), more[i])
                 && forall j | 0 <= j < i :: !more[j].CrashAndRestart?;
        assert i < n ==> Writes(RunOf(es + init[..i]), init[i]);
      }
    }
  }

  /** A flush came, and no crash came before it. */
  ghost predicate FlushedInTime(more: seq<Event>)
  {
    exists i :: 0 <= i < |more| && more[i].FlushNow? && forall j | 0 <= j < i :: !more[j].CrashAndRestart?
  }

  lemma StepStaysDirty(s: State, e: Event)
    requires s.dirty && !e.FlushNow? && !e.CrashAndRestart?
    ensures Step(s, e).dirty
  {
    hide AfterRequest, AfterOps, BranchOf;
    match e
    case Serve(r) => RequestDirties(s, r);
    case Transact(t) =>
      if BranchOf(s, t).Some? {
        OpsDirty(s, BranchOf(s, t).value);
      }
  }

  lemma RunFurther(es: seq<Event>, init: seq<Event>, e: Event)
    ensures RunOf(es + (init + [e])) == Step(RunOf(es + init), e)
  {
    hide Step;
    assert (es + (init + [e]))[..|es| + |init|] == es + init;
  }

  lemma {:induction false} StaysDirty(es: seq<Event>, more: seq<Event>)
    requires RunOf(es).dirty && forall i | 0 <= i < |more| :: !more[i].FlushNow? && !more[i].CrashAndRestart?
    ensures RunOf(es + more).dirty
  {
    hide Step, RunOf;
    if |more| == 0 {
      assert es + more == es;
    } else {
      var init, e := more[..|more| - 1], more[|more| - 1];
      assert more == init + [e];
      assert forall i | 0 <= i < |init| :: init[i] == more[i];
      StaysDirty(es, init);
      StepStaysDirty(RunOf(es + init), e);
      RunFurther(es, init, e);
    }
  }

  lemma FirstFlush(more: seq<Event>, i: nat) returns (m: nat)
    requires i < |more| && more[i].FlushNow?
    ensures m <= i && more[m].FlushNow? && forall j | 0 <= j < m :: !more[j].FlushNow?
  {
    m := 0;
    while !more[m].FlushNow?
      invariant m <= i && forall j | 0 <= j < m :: !more[j].FlushNow?
      decreases i - m
    {
      m := m + 1;
    }
  }

  /** When no write fails, the store of a node with something to write is written in time exactly when a
      flush came in time. */
  lemma WrittenIffFlushed(es: seq<Event>, more: seq<Event>)
    requires RunOf(es).dirty && FlushNow(false) !in more
    ensures WrittenInTime(es, more) <==> FlushedInTime(more)
  {
    hide RunOf;
    if FlushedInTime(more) {
      var i :| 0 <= i < |more| && more[i].FlushNow? && forall j | 0 <= j < i :: !more[j].CrashAndRestart?;
      var m := FirstFlush(more, i);
      StaysDirty(es, more[..m]);
      assert more[m] in more && Writes(RunOf(es + more[..m]), more[m]);
    }
  }

  /** Memory and disk agree with the fate of pair `p` under `key`. */
  ghost predicate FateShows(s: State, key: Key, p: Pair, fate: Fate)
  {
    && (Lookup(s.kv, key) == Some(p) <==> fate != Lost)
    && (Lookup(Saved(s), key) == Some(p) <==> fate == OnDisk)
  }

  lemma RequestLeaves(s: State, r: Request, key: Key)
    requires !RequestTouches(r, key)
    ensures Lookup(AfterRequest(s, r).kv, key) == Lookup(s.kv, key)
  {
    hide DeleteHit, NextPair;
    match r
    case Put(k, v, _) =>
    case Range(_, _) =>
    case DeleteRange(k, e) =>
      if KeyOf(k).Some? {
        assert key !in Doomed(s.kv, KeyOf(k).value, KeyOf(e));
      }
  }

  lemma {:induction false} OpsLeave(s: State, ops: seq<Op>, key: Key)
    requires !OpsTouch(ops, key)
    ensures Lookup(AfterOps(s, ops).kv, key) == Lookup(s.kv, key)
  {
    hide RequestTouches, AfterRequest, Lookup;
    if |ops| > 0 {
      var init, last := ops[..|ops| - 1], ops[|ops| - 1];
      assert forall i | 0 <= i < |init| :: init[i] == ops[i];
      OpsLeave(s, init, key);
      if last.Some? {
        RequestLeaves(AfterOps(s, init), last.value, key);
      }
    }
  }

  lemma CrashReads(s: State)
    requires Inv(s)
    ensures Step(s, CrashAndRestart).kv == Saved(s)
  {
    RestartRestores(s);
  }

  /** What an event that leaves `key` alone makes of it in memory. */
  lemma StepLooks(s: State, e: Event, key: Key)
    requires Inv(s) && !Touches(s, e, key)
    ensures Lookup(Step(s, e).kv, key) == Lookup(if e.CrashAndRestart? then Saved(s) else s.kv, key)
  {
    hide Inv, Saved, LoadText, PrintStore, RequestTouches, AfterRequest, AfterOps, BranchOf, OpsTouch, AfterRestart,
         Lookup;
    match e
    case Serve(r) => RequestLeaves(s, r, key);
    case Transact(t) =>
      if BranchOf(s, t).Some? {
        OpsLeave(s, BranchOf(s, t).value, key);
      }
    case FlushNow(_) =>
    case CrashAndRestart => CrashReads(s);
  }

  lemma CrashIsNoWrite(s: State, e: Event)
    ensures Writes(s, e) ==> !e.CrashAndRestart?
  {
  }

  lemma StepShows(es: seq<Event>, more: seq<Event>, e: Event, key: Key, p: Pair)
    requires FateShows(RunOf(es + more), key, p, FateOf(es, more)) && !Touches(RunOf(es + more), e, key)
    ensures FateShows(Step(RunOf(es + more), e), key, p, FateOf(es, more + [e]))
  {
    hide Inv, Saved, Step, Touches, Lookup, Writes, RunOf;
    var s := RunOf(es + more);
    EveryRun(es + more);
    StepKeeps(s, e);
    StepLooks(s, e, key);
    assert (more + [e])[..|more|] == more;
    CrashIsNoWrite(s, e);
  }

  lemma CounterGrows(s: State, r: Request)
    ensures AfterRequest(s, r).revision >= s.revision
  {
    hide DeleteHit, NextPair;
  }

  lemma {:induction false} OpsGrow(s: State, ops: seq<Op>)
    ensures AfterOps(s, ops).revision >= s.revision
  {
    hide AfterRequest;
    if |ops| > 0 {
      OpsGrow(s, ops[..|ops| - 1]);
      if ops[|ops| - 1].Some? {
        CounterGrows(AfterOps(s, ops[..|ops| - 1]), ops[|ops| - 1].value);
      }
    }
  }

  lemma FineIsPast(s: State, written: bool)
    requires Inv(s)
    ensures forall k | k in s.kv :: s.kv[k].mod <= s.revision
    ensures AfterAttempt(s, written).revision == s.revision
  {
    hide LoadText, PrintStore;
    assert forall k | k in s.kv :: PairFine(s.kv[k], s.revision);
  }

  /** Nothing on disk was modified later than now. */
  lemma {:induction false} SavedIsPast(es: seq<Event>)
    ensures forall k | k in Saved(RunOf(es)) :: Saved(RunOf(es))[k].mod <= RunOf(es).revision
  {
    hide LoadText, PrintStore, AfterRequest, AfterOps, BranchOf, Saved, AfterRestart;
    if |es| == 0 {
      StartFine();
    } else {
      var init, e := es[..|es| - 1], es[|es| - 1];
      var s := RunOf(init);
      SavedIsPast(init);
      EveryRun(init);
      StepKeeps(s, e);
      match e
      case Serve(r) => CounterGrows(s, r);
      case Transact(t) =>
        if BranchOf(s, t).Some? {
          OpsGrow(s, BranchOf(s, t).value);
        }
      case FlushNow(written) =>
        FineIsPast(s, written);
      case CrashAndRestart =>
        RestartRestores(s);
    }
  }

  /** The pair an answered put leaves in memory; it is new, so the disk does not have it. */
  lemma PutIsOnlyInMemory(es: seq<Event>, key: Key, put: Request) returns (p: Pair)
    requires put.Put? && KeyOf(put.key) == Some(key) && KeyOf(put.value).Some?
    ensures p.value == KeyOf(put.value).value && p.mod == RunOf(es).revision + 1
    ensures RunOf(es + [Serve(put)]).dirty
    ensures FateShows(RunOf(es + [Serve(put)]), key, p, InMemory)
  {
    hide LoadText, PrintStore, KeyOf;
    var s := RunOf(es);
    assert (es + [Serve(put)])[..|es|] == es;
    p := NextPair(Lookup(s.kv, key), KeyOf(put.value).value, s.revision + 1);
    SavedIsPast(es);
    EveryRun(es);
    StepKeeps(s, Serve(put));
    hide Saved, Inv;
    assert AfterRequest(s, put) == AfterPut(s, key, KeyOf(put.value).value);
  }

  lemma NothingYet(es: seq<Event>)
    ensures FateOf(es, []) == InMemory
  {
  }

  lemma AloneBefore(es: seq<Event>, init: seq<Event>, e: Event, key: Key)
    requires LeftAlone(es, init + [e], key)
    ensures LeftAlone(es, init, key) && !Touches(RunOf(es + init), e, key)
  {
    hide Touches, RunOf;
    var more := init + [e];
    assert more[|init|] == e && more[..|init|] == init;
    forall i | 0 <= i < |init|
      ensures !Touches(RunOf(es + init[..i]), init[i], key)
    {
      assert more[i] == init[i] && more[..i] == init[..i];
    }
  }

  lemma {:induction false} FateFollows(es: seq<Event>, more: seq<Event>, key: Key, p: Pair)
    requires FateShows(RunOf(es), key, p, InMemory) && LeftAlone(es, more, key)
    ensures FateShows(RunOf(es + more), key, p, FateOf(es, more))
  {
    hide FateShows, LeftAlone, FateOf, RunOf;
    if |more| == 0 {
      assert es + more == es;
      NothingYet(es);
    } else {
      var init, e := more[..|more| - 1], more[|more| - 1];
      assert more == init + [e];
      AloneBefore(es, init, e, key);
      FateFollows(es, init, key, p);
      StepShows(es, init, e, key, p);
      RunFurther(es, init, e);
    }
  }

  /** Which acknowledged writes survive. After any run, a put is answered; later events, among them
      flushes and crashes, leave its key alone; then the node crashes. The restarted node holds the pair
      of that put if and only if the store was written before the first crash: when no write fails, if and
      only if a flush came before it. */
  lemma WriteSurvivesIff(es: seq<Event>, put: Request, key: Key, more: seq<Event>) returns (p: Pair)
    requires put.Put? && KeyOf(put.key) == Some(key) && KeyOf(put.value).Some?
    requires LeftAlone(es + [Serve(put)], more, key)
    ensures AnswerTo(RunOf(es), put).PutAnswer? && AnswerTo(RunOf(es), put).revision == p.mod
    ensures p.value == KeyOf(put.value).value && Lookup(RunOf(es + [Serve(put)]).kv, key) == Some(p)
    ensures Lookup(RunOf(es + [Serve(put)] + more + [CrashAndRestart]).kv, key) == Some(p)
       <==> WrittenInTime(es + [Serve(put)], more)
    ensures FlushNow(false) !in more ==> (WrittenInTime(es + [Serve(put)], more) <==> FlushedInTime(more))
  {
    hide LeftAlone, WrittenInTime, FlushedInTime, Touches, Step, FateOf, KeyOf;
    var served := es + [Serve(put)];
    p := PutIsOnlyInMemory(es, key, put);
    FateFollows(served, more, key, p);
    FateByWrite(served, more);
    if FlushNow(false) !in more {
      WrittenIffFlushed(served, more);
    }
    var all := served + more;
    EveryRun(all);
    CrashReads(RunOf(all));
    assert (all + [CrashAndRestart])[..|all|] == all;
  }

  /** Clean means on disk after a flush attempt if and only if there was something to write and the write
      went through, or the disk had it all already. On a node that has missed no write, that is: if the
      write went through, or there was nothing to write, or the disk had it all. */
  lemma CleanIsSavedIff(s: State, written: bool)
    requires Inv(s)
    ensures !AfterAttempt(s, written).dirty
    ensures Saved(AfterAttempt(s, written)) == AfterAttempt(s, written).kv
       <==> (written && s.dirty) || Saved(s) == s.kv
    ensures Durable(s) ==>
              (Saved(AfterAttempt(s, written)) == AfterAttempt(s, written).kv
               <==> written || !s.dirty || Saved(s) == s.kv)
  {
    hide LoadText, PrintStore;
    StoreRoundTrip(s.kv);
  }
}
