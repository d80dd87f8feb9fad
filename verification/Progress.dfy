/** Stage progress: one row per track and stage, and what it says about everything that happened. */
module Progress {
  import opened Wrappers

  datatype Status = Todo | InProgress | Failed | Finished

  datatype Row = Row(
    state: Status,
    doneAt: Option<string>,
    lastRun: Option<nat>,
    note: Option<string>,
    updatedAt: string)

  /** A track and a stage number. */
  type Key = (string, nat)

  type Table = map<Key, Row>

  /** What can happen to a stage: a run that reported it, a mark by hand, a note. */
  datatype Event =
    | Ran(key: Key, passed: int, failed: int, run: nat, at: string)
    | Marked(key: Key, done: bool, at: string)
    | Noted(key: Key, text: Option<string>, at: string)

  /** What a run says of a stage; nothing when it ran none of its tests. */
  function StatusOf(passed: int, failed: int): Option<Status>
  {
    if passed + failed == 0 then None
    else if failed == 0 then Some(Finished)
    else if passed > 0 then Some(InProgress)
    else Some(Failed)
  }

  // ----- the three upserts -----------------------------------------------------------------------

  /** `done_at` after the stage is found or marked done, or not: the first instant is kept. */
  function DoneAt(before: Option<string>, done: bool, at: string): Option<string>
  {
    if !done then None else if before.Some? then before else Some(at)
  }

  function AfterRan(t: Table, k: Key, passed: int, failed: int, run: nat, at: string): Table
  {
    match StatusOf(passed, failed)
    case None => t
    case Some(s) =>
      if k in t then
        t[k := t[k].(state := s, doneAt := DoneAt(t[k].doneAt, s == Finished, at), lastRun := Some(run),
                      updatedAt := at)]
      else t[k := Row(s, DoneAt(None, s == Finished, at), Some(run), None, at)]
  }

  function AfterMarked(t: Table, k: Key, done: bool, at: string): Table
  {
    var s := if done then Finished else Todo;
    if k in t then t[k := t[k].(state := s, doneAt := DoneAt(t[k].doneAt, done, at), updatedAt := at)]
    else t[k := Row(s, DoneAt(None, done, at), None, None, at)]
  }

  function AfterNoted(t: Table, k: Key, text: Option<string>, at: string): Table
  {
    if k in t then t[k := t[k].(note := text, updatedAt := at)]
    else t[k := Row(Todo, None, None, text, at)]
  }

  function After(t: Table, e: Event): Table
  {
    match e
    case Ran(k, passed, failed, run, at) => AfterRan(t, k, passed, failed, run, at)
    case Marked(k, done, at) => AfterMarked(t, k, done, at)
    case Noted(k, text, at) => AfterNoted(t, k, text, at)
  }

  /** Everything that happened, oldest first. */
  function Replay(t: Table, h: seq<Event>): Table
  {
    if |h| == 0 then t else After(Replay(t, h[..|h| - 1]), h[|h| - 1])
  }

  lemma {:induction false} ReplayThen(t: Table, g: seq<Event>, h: seq<Event>)
    ensures Replay(t, g + h) == Replay(Replay(t, g), h)
  {
    hide After;
    if |h| == 0 {
      assert g + h == g;
    } else {
      assert (g + h)[..|g + h| - 1] == g + h[..|h| - 1];
      ReplayThen(t, g, h[..|h| - 1]);
    }
  }

  // ----- what the history says -------------------------------------------------------------------

  /** The parts of a history that matter to a row. */
  datatype Kind = Touching | Setting | Running | Noting

  predicate Is(e: Event, k: Key, kind: Kind)
  {
    && e.key == k
    && (e.Ran? ==> e.passed + e.failed != 0)
    && match kind
       case Touching => true
       case Setting => !e.Noted?
       case Running => e.Ran?
       case Noting => e.Noted?
  }

  /** The state an event gives its stage. A run that ran some of its tests gives it by what passed and failed. */
  function Gives(e: Event): Status
    requires Is(e, e.key, Setting)
  {
    match e
    case Marked(_, true, _) => Finished
    case Marked(_, false, _) => Todo
    case Ran(_, passed, failed, _, _) => if failed != 0 then (if passed > 0 then InProgress else Failed) else Finished
  }

  ghost predicate IsLast(h: seq<Event>, k: Key, kind: Kind, i: nat)
  {
    i < |h| && Is(h[i], k, kind) && forall j | i < j < |h| :: !Is(h[j], k, kind)
  }

  ghost predicate Never(h: seq<Event>, k: Key, kind: Kind)
  {
    forall i | 0 <= i < |h| :: !Is(h[i], k, kind)
  }

  ghost predicate GivesFinished(h: seq<Event>, k: Key, i: nat)
  {
    i < |h| && Is(h[i], k, Setting) && Gives(h[i]) == Finished
  }

  ghost predicate Breaks(h: seq<Event>, k: Key, i: nat)
  {
    i < |h| && Is(h[i], k, Setting) && Gives(h[i]) != Finished
  }

  /** Event `i` begins the current unbroken run of events that found the stage done. */
  ghost predicate BeginsRun(h: seq<Event>, k: Key, i: nat)
  {
    && GivesFinished(h, k, i)
    && (forall j: nat | i < j < |h| :: !Breaks(h, k, j))
    && (forall j: nat | j < i && GivesFinished(h, k, j) :: exists l: nat :: j < l < i && Breaks(h, k, l))
  }

  ghost predicate StateTold(h: seq<Event>, k: Key, row: Row)
  {
    if Never(h, k, Setting) then row.state == Todo
    else exists i: nat :: IsLast(h, k, Setting, i) && row.state == Gives(h[i])
  }

  ghost predicate DoneTold(h: seq<Event>, k: Key, row: Row)
  {
    && (row.doneAt.Some? <==> row.state == Finished)
    && (row.doneAt.Some? ==> exists i: nat :: BeginsRun(h, k, i) && row.doneAt == Some(h[i].at))
  }

  ghost predicate RunTold(h: seq<Event>, k: Key, row: Row)
  {
    if Never(h, k, Running) then row.lastRun == None
    else exists i: nat :: IsLast(h, k, Running, i) && row.lastRun == Some(h[i].run)
  }

  ghost predicate NoteTold(h: seq<Event>, k: Key, row: Row)
  {
    if Never(h, k, Noting) then row.note == None
    else exists i: nat :: IsLast(h, k, Noting, i) && row.note == h[i].text
  }

  ghost predicate TimeTold(h: seq<Event>, k: Key, row: Row)
  {
    exists i: nat :: IsLast(h, k, Touching, i) && row.updatedAt == h[i].at
  }

  // ----- a row is a function of the history ------------------------------------------------------

  lemma LastAppend(h: seq<Event>, e: Event, k: Key, kind: Kind)
    ensures Is(e, k, kind) ==> IsLast(h + [e], k, kind, |h|) && !Never(h + [e], k, kind)
    ensures !Is(e, k, kind) ==> (Never(h + [e], k, kind) <==> Never(h, k, kind))
    ensures !Is(e, k, kind) ==> forall i: nat | IsLast(h, k, kind, i) :: IsLast(h + [e], k, kind, i)
  {
    hide Is;
    var g := h + [e];
    assert forall j | 0 <= j < |h| :: g[j] == h[j];
    assert g[|h|] == e;
  }

  /** What one more event does to a row that is there or not. */
  lemma StateAppend(h: seq<Event>, t: Table, e: Event, k: Key)
    requires if k in t then StateTold(h, k, t[k]) else Never(h, k, Touching)
    ensures k in After(t, e) ==> StateTold(h + [e], k, After(t, e)[k])
  {
    LastAppend(h, e, k, Setting);
    assert forall i | 0 <= i < |h| :: (h + [e])[i] == h[i];
    if k !in t {
      assert Never(h, k, Setting);
    }
    hide IsLast, Never;
  }

  lemma RunAppend(h: seq<Event>, t: Table, e: Event, k: Key)
    requires if k in t then RunTold(h, k, t[k]) else Never(h, k, Touching)
    ensures k in After(t, e) ==> RunTold(h + [e], k, After(t, e)[k])
  {
    LastAppend(h, e, k, Running);
    assert forall i | 0 <= i < |h| :: (h + [e])[i] == h[i];
    if k !in t {
      assert Never(h, k, Running);
    }
    hide IsLast, Never;
  }

  lemma NoteAppend(h: seq<Event>, t: Table, e: Event, k: Key)
    requires if k in t then NoteTold(h, k, t[k]) else Never(h, k, Touching)
    ensures k in After(t, e) ==> NoteTold(h + [e], k, After(t, e)[k])
  {
    LastAppend(h, e, k, Noting);
    assert forall i | 0 <= i < |h| :: (h + [e])[i] == h[i];
    if k !in t {
      assert Never(h, k, Noting);
    }
    hide IsLast, Never;
  }

  lemma TimeAppend(h: seq<Event>, t: Table, e: Event, k: Key)
    requires if k in t then TimeTold(h, k, t[k]) else Never(h, k, Touching)
    ensures if k in After(t, e) then TimeTold(h + [e], k, After(t, e)[k]) else Never(h + [e], k, Touching)
  {
    LastAppend(h, e, k, Touching);
    assert forall i | 0 <= i < |h| :: (h + [e])[i] == h[i];
    hide IsLast, Never;
  }

  /** What an event does to `done_at`. */
  lemma DoneFollows(t: Table, e: Event, k: Key)
    requires k in After(t, e) && (k in t ==> (t[k].doneAt.Some? <==> t[k].state == Finished))
    ensures var row := After(t, e)[k];
            && (row.doneAt.Some? <==> row.state == Finished)
            && (row.doneAt.Some? && k in t && t[k].doneAt.Some? ==>
                  row.doneAt == t[k].doneAt && (Is(e, k, Setting) ==> Gives(e) == Finished))
            && (row.doneAt.Some? && !(k in t && t[k].doneAt.Some?) ==>
                  Is(e, k, Setting) && Gives(e) == Finished && row.doneAt == Some(e.at))
  {
  }

  lemma SameBefore(h: seq<Event>, e: Event, k: Key)
    ensures forall j: nat | j < |h| :: GivesFinished(h + [e], k, j) <==> GivesFinished(h, k, j)
    ensures forall j: nat | j < |h| :: Breaks(h + [e], k, j) <==> Breaks(h, k, j)
  {
    assert forall j: nat | j < |h| :: (h + [e])[j] == h[j];
  }

  lemma InHistory(h: seq<Event>, k: Key, i: nat)
    requires GivesFinished(h, k, i)
    ensures i < |h|
  {
  }

  lemma RunGoesOn(h: seq<Event>, e: Event, k: Key, i: nat)
    requires BeginsRun(h, k, i)
    requires Is(e, k, Setting) ==> Gives(e) == Finished
    ensures BeginsRun(h + [e], k, i)
  {
    SameBefore(h, e, k);
    assert !Breaks(h + [e], k, |h|);
    hide GivesFinished, Breaks;
    forall j: nat | j < i && GivesFinished(h + [e], k, j)
      ensures exists l: nat :: j < l < i && Breaks(h + [e], k, l)
    {
      assert GivesFinished(h, k, j);
      var l: nat :| j < l < i && Breaks(h, k, l);
      assert Breaks(h + [e], k, l);
    }
    assert i < |h| by { assert GivesFinished(h, k, i); InHistory(h, k, i); }
  }

  lemma SameAt(h: seq<Event>, e: Event, i: nat)
    requires i < |h|
    ensures (h + [e])[i] == h[i]
  {
  }

  lemma NewRun(h: seq<Event>, e: Event, k: Key, before: Status)
    requires Is(e, k, Setting) && Gives(e) == Finished && before != Finished
    requires Never(h, k, Setting) || exists i: nat :: IsLast(h, k, Setting, i) && before == Gives(h[i])
    ensures BeginsRun(h + [e], k, |h|)
  {
    SameBefore(h, e, k);
    assert GivesFinished(h + [e], k, |h|);
    if !Never(h, k, Setting) {
      var i: nat :| IsLast(h, k, Setting, i) && before == Gives(h[i]);
      assert Breaks(h, k, i) && Breaks(h + [e], k, i);
    }
  }

  lemma DoneAppend(h: seq<Event>, t: Table, e: Event, k: Key)
    requires if k in t then DoneTold(h, k, t[k]) && StateTold(h, k, t[k]) else Never(h, k, Touching)
    ensures k in After(t, e) ==> DoneTold(h + [e], k, After(t, e)[k])
  {
    if k in After(t, e) {
      var row := After(t, e)[k];
      DoneFollows(t, e, k);
      hide After;
      if row.doneAt.Some? {
        if k in t && t[k].doneAt.Some? {
          var i: nat :| BeginsRun(h, k, i) && t[k].doneAt == Some(h[i].at);
          RunGoesOn(h, e, k, i);
          SameAt(h, e, i);
        } else {
          NewRun(h, e, k, if k in t then t[k].state else Todo);
          assert BeginsRun(h + [e], k, |h|) && (h + [e])[|h|] == e;
        }
      }
    }
  }

  ghost predicate RowTold(h: seq<Event>, k: Key, row: Row)
  {
    && StateTold(h, k, row) && DoneTold(h, k, row)
    && RunTold(h, k, row) && NoteTold(h, k, row) && TimeTold(h, k, row)
  }

  lemma NothingYet(k: Key)
    ensures Never([], k, Touching)
  {
  }

  lemma TouchedAppend(h: seq<Event>, t: Table, e: Event, k: Key)
    ensures k in After(t, e) <==> k in t || Is(e, k, Touching)
    ensures Never(h + [e], k, Touching) <==> Never(h, k, Touching) && !Is(e, k, Touching)
  {
    LastAppend(h, e, k, Touching);
  }

  /** A stage has a row exactly when something touched it, and the row says exactly this of the past:
      the state last given, the start of the current unbroken run of being done, the last run that ran
      one of its tests, the last note, and the time of the last event. */
  lemma {:induction false} ProgressByHistory(h: seq<Event>, k: Key)
    ensures k in Replay(map[], h) <==> !Never(h, k, Touching)
    ensures k in Replay(map[], h) ==> RowTold(h, k, Replay(map[], h)[k])
  {
    hide StateTold, DoneTold, RunTold, NoteTold, TimeTold, After, Never;
    if |h| == 0 {
      NothingYet(k);
    } else {
      var g, e := h[..|h| - 1], h[|h| - 1];
      assert h == g + [e];
      var t := Replay(map[], g);
      ProgressByHistory(g, k);
      TouchedAppend(g, t, e, k);
      StateAppend(g, t, e, k);
      DoneAppend(g, t, e, k);
      RunAppend(g, t, e, k);
      NoteAppend(g, t, e, k);
      TimeAppend(g, t, e, k);
    }
  }

  /** A mark as done, or a run of some tests in which none failed. */
  predicate FoundDone(e: Event)
  {
    (e.Marked? && e.done) || (e.Ran? && e.passed != 0 && e.failed == 0)
  }

  /** A stage is done if and only if what last set it is a mark as done or a run of some of its tests in which none
      failed; it is in progress if and only if that is a run with failures and passes, and failed if and only
      if it is a run with failures and no passes. */
  lemma StateIff(h: seq<Event>, k: Key)
    requires k in Replay(map[], h)
    ensures
      var row := Replay(map[], h)[k];
      && (row.state == Finished <==> exists i: nat :: IsLast(h, k, Setting, i) && FoundDone(h[i]))
      && (row.state == InProgress <==> exists i: nat :: IsLast(h, k, Setting, i) && h[i].Ran? && h[i].failed != 0
                                                        && h[i].passed > 0)
      && (row.state == Failed <==> exists i: nat :: IsLast(h, k, Setting, i) && h[i].Ran? && h[i].failed != 0
                                                    && h[i].passed <= 0)
  {
    ProgressByHistory(h, k);
    forall i: nat, j: nat | IsLast(h, k, Setting, i) && IsLast(h, k, Setting, j)
      ensures i == j
    {
    }
  }

  // ----- first green, or green since ---------------------------------------------------------------

  /** Event `i` is the first that found the stage done. */
  ghost predicate FirstFinished(h: seq<Event>, k: Key, i: nat)
  {
    GivesFinished(h, k, i) && forall j: nat | j < i :: !GivesFinished(h, k, j)
  }

  /** `done_at` is the time the stage first went green exactly when nothing has found it otherwise since. */
  lemma BeginsFirstIff(h: seq<Event>, k: Key, first: nat, i: nat)
    requires FirstFinished(h, k, first) && BeginsRun(h, k, i)
    ensures i == first <==> forall j: nat | first < j < |h| :: !Breaks(h, k, j)
  {
    hide GivesFinished;
    assert first <= i;
    if first < i {
      var l: nat :| first < l < i && Breaks(h, k, l);
    }
  }

  /** Marked done, not done, and done again: `done_at` is the second time. */
  lemma DoneAtMoves(k: Key, a: string, b: string, c: string)
    ensures
      var h := [Marked(k, true, a), Marked(k, false, b), Marked(k, true, c)];
      && FirstFinished(h, k, 0) && BeginsRun(h, k, 2)
      && k in Replay(map[], h) && Replay(map[], h)[k].doneAt == Some(c)
  {
    var h := [Marked(k, true, a), Marked(k, false, b), Marked(k, true, c)];
    assert h[..2][..1] == h[..1] && h[..1][..0] == [];
    assert Replay(map[], h[..1]) == After(map[], h[0]);
    assert Replay(map[], h[..2]) == After(Replay(map[], h[..1]), h[1]);
    assert Replay(map[], h) == After(Replay(map[], h[..2]), h[2]);
    assert Breaks(h, k, 1);
  }
}
