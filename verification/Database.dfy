/** The learner's database: runs, their test rows and the stage table, and the operations on them. */
module Database {
  import opened Wrappers
  import opened Reports
  import opened Progress

  /** One row of `runs`. */
  datatype RunRow = RunRow(
    track: string,
    target: string,
    startedAt: string,
    elapsedMs: int,
    passed: int,
    failed: int,
    skipped: int)

  function RunOf(track: string, report: Report, at: string): RunRow
  {
    RunRow(track, report.target, at, report.elapsedMs, report.passed, report.failed, report.skipped)
  }

  /** What the first `n` stages of a report say about progress. */
  function StageEvents(track: string, stages: seq<Stage>, n: nat, run: nat, at: string): seq<Event>
    requires n <= |stages|
  {
    if n == 0 then []
    else
      var st := stages[n - 1];
      StageEvents(track, stages, n - 1, run, at) + [Ran((track, st.stage), st.passed, st.failed, run, at)]
  }

  /** A self-check of the suite is recorded but moves nobody's map. */
  function ReportEvents(track: string, report: Report, run: nat, at: string): seq<Event>
  {
    if report.validate then [] else StageEvents(track, report.stages, |report.stages|, run, at)
  }

  lemma {:induction false} StageEventsAre(track: string, stages: seq<Stage>, n: nat, run: nat, at: string)
    requires n <= |stages|
    ensures |StageEvents(track, stages, n, run, at)| == n
    ensures forall i | 0 <= i < n ::
              StageEvents(track, stages, n, run, at)[i]
              == Ran((track, stages[i].stage), stages[i].passed, stages[i].failed, run, at)
  {
    if n > 0 {
      StageEventsAre(track, stages, n - 1, run, at);
    }
  }

  /** The events of a report: none for a self-check, otherwise one for each stage, in order, with its counts. */
  lemma ReportEventsAre(track: string, report: Report, run: nat, at: string)
    ensures report.validate ==> ReportEvents(track, report, run, at) == []
    ensures !report.validate ==> |ReportEvents(track, report, run, at)| == |report.stages|
    ensures !report.validate ==>
              forall i | 0 <= i < |report.stages| ::
                var st := report.stages[i];
                ReportEvents(track, report, run, at)[i] == Ran((track, st.stage), st.passed, st.failed, run, at)
  {
    StageEventsAre(track, report.stages, |report.stages|, run, at);
  }

  /** Every run a row mentions is there. */
  ghost predicate NoneDangling(progress: Table, runs: map<nat, RunRow>)
  {
    forall k | k in progress && progress[k].lastRun.Some? :: progress[k].lastRun.value in runs
  }

  lemma {:induction false} EventsDangleNot(t: Table, runs: map<nat, RunRow>,
                                           track: string, stages: seq<Stage>, n: nat, run: nat, at: string)
    requires NoneDangling(t, runs) && run in runs && n <= |stages|
    ensures NoneDangling(Replay(t, StageEvents(track, stages, n, run, at)), runs)
  {
    if n > 0 {
      EventsDangleNot(t, runs, track, stages, n - 1, run, at);
      var before := StageEvents(track, stages, n - 1, run, at);
      var events := StageEvents(track, stages, n, run, at);
      assert events[..|events| - 1] == before;
    }
  }

  lemma ReplayNone(t: Table)
    ensures Replay(t, []) == t
  {
  }

  lemma ReplayOne(t: Table, h: seq<Event>, e: Event)
    ensures Replay(t, h + [e]) == After(Replay(t, h), e)
    ensures Replay(t, [e]) == After(t, e)
  {
    assert (h + [e])[..|h|] == h;
    assert [e][..0] == [];
  }

  lemma DanglesNot(t: Table, runs: map<nat, RunRow>, track: string, report: Report, id: nat, at: string)
    requires NoneDangling(t, runs)
    ensures NoneDangling(Replay(t, ReportEvents(track, report, id, at)), runs[id := RunOf(track, report, at)])
  {
    var more := runs[id := RunOf(track, report, at)];
    assert NoneDangling(t, more);
    EventsDangleNot(t, more, track, report.stages, |report.stages|, id, at);
  }

  lemma FlattenNone(stages: seq<Stage>)
    ensures Flatten(stages[..0]) == []
  {
  }

  lemma FlattenOne(stages: seq<Stage>, i: nat)
    requires i < |stages|
    ensures Flatten(stages[..i + 1]) == Flatten(stages[..i]) + StageRows(stages[i], |stages[i].tests|)
  {
    assert stages[..i + 1][..i] == stages[..i];
  }

  class Store {
    var runs: map<nat, RunRow>
    var tests: map<nat, seq<TestRow>>
    var nextRun: nat
    var progress: Table
    /** Everything that happened to stages since the database was created or reset. */
    ghost var past: seq<Event>

    ghost predicate Valid()
      reads this
    {
      && tests.Keys <= runs.Keys
      && (forall id | id in runs :: id < nextRun)
      && NoneDangling(progress, runs)
      && progress == Replay(map[], past)
    }

    /** The report a run gives back. */
    function ReportOf(id: nat): Option<Report>
      reads this
    {
      if id in runs then
        var run := runs[id];
        var rows := if id in tests then tests[id] else [];
        Some(Report(run.target, false, Regroup(rows), run.passed, run.failed, run.skipped, run.elapsedMs))
      else None
    }

    constructor ()
      ensures Valid() && runs == map[] && progress == map[] && past == []
    {
      runs, tests, nextRun, progress, past := map[], map[], 1, map[], [];
    }

    /** Record one stage of a report: its test rows, and its progress unless this is a self-check. */
    method IngestStage(id: nat, track: string, st: Stage, validate: bool, at: string, seqNo: nat) returns (next: nat)
      requires id in tests && |tests[id]| == seqNo
      modifies `tests, `progress
      ensures tests == old(tests)[id := old(tests)[id] + StageRows(st, |st.tests|)]
      ensures next == seqNo + |st.tests|
      ensures progress == if validate then old(progress)
                          else After(old(progress), Ran((track, st.stage), st.passed, st.failed, id, at))
      ensures validate || st.passed + st.failed == 0 ==> progress == old(progress)
      ensures !validate && st.passed + st.failed != 0 ==>
                var k := (track, st.stage);
                && k in progress && progress == old(progress)[k := progress[k]]
                && progress[k].lastRun == Some(id) && progress[k].updatedAt == at
                && progress[k].note == (if k in old(progress) then old(progress)[k].note else None)
                && (progress[k].state == Finished <==> st.failed == 0)
                && (progress[k].state == InProgress <==> st.failed != 0 && st.passed > 0)
                && (progress[k].state == Failed <==> st.failed != 0 && st.passed <= 0)
                && (if st.failed != 0 then progress[k].doneAt == None
                    else if k in old(progress) && old(progress)[k].doneAt != None
                    then progress[k].doneAt == old(progress)[k].doneAt
                    else progress[k].doneAt == Some(at))
    {
      next := seqNo;
      assert tests[id] + StageRows(st, 0) == tests[id];
      for i := 0 to |st.tests|
        invariant next == seqNo + i && progress == old(progress)
        invariant tests == old(tests)[id := old(tests)[id] + StageRows(st, i)]
      {
        var row := TestRow(st.stage, st.name, st.file, st.tests[i]);
        assert |tests[id]| == next;
        assert tests[id] + [row] == old(tests)[id] + StageRows(st, i + 1);
        tests := tests[id := tests[id] + [row]];
        next := next + 1;
      }
      if validate {
        return;
      }
      var ran := st.passed + st.failed;
      var state := if ran == 0 then None
                   else if st.failed == 0 then Some(Finished)
                   else if st.passed > 0 then Some(InProgress)
                   else Some(Failed);
      if state.None? {
        return;
      }
      var k, done := (track, st.stage), state == Some(Finished);
      if k in progress {
        var row := progress[k];
        var doneAt := if done then (if row.doneAt.Some? then row.doneAt else Some(at)) else None;
        progress := progress[k := Row(state.value, doneAt, Some(id), row.note, at)];
      } else {
        progress := progress[k := Row(state.value, if done then Some(at) else None, Some(id), None, at)];
      }
    }

    /** Record a report as a new run. It gives back exactly the normalised report, earlier runs give back
        what they did, and the stages it ran move on. */
    method Ingest(track: string, report: Report, at: string) returns (id: nat)
      requires Valid()
      modifies this
      ensures Valid()
      ensures id == old(nextRun) && nextRun == id + 1 && id !in old(runs)
      ensures runs == old(runs)[id := RunRow(track, report.target, at, report.elapsedMs, report.passed, report.failed,
                                             report.skipped)]
      ensures tests == old(tests)[id := Flatten(report.stages)]
      ensures past == old(past) + ReportEvents(track, report, id, at)
      ensures progress == Replay(old(progress), ReportEvents(track, report, id, at))
      ensures ReportOf(id) == Some(Normalised(report))
      ensures report.validate ==> progress == old(progress) && past == old(past)
      ensures !report.validate ==>
                && |past| == |old(past)| + |report.stages| && old(past) <= past
                && forall i | 0 <= i < |report.stages| ::
                     var st := report.stages[i];
                     past[|old(past)| + i] == Ran((track, st.stage), st.passed, st.failed, id, at)
      ensures forall other | other != id :: ReportOf(other) == old(ReportOf(other))
    {
      hide After, Regroup, Normal, Flatten, NoneDangling, StageEvents, Replay;
      id := nextRun;
      nextRun := nextRun + 1;
      runs := runs[id := RunOf(track, report, at)];
      tests := tests[id := []];
      IngestStages(id, track, report, at);
      past := past + ReportEvents(track, report, id, at);
      ReplayThen(map[], old(past), ReportEvents(track, report, id, at));
      RegroupFlatten(report.stages);
      ReportEventsAre(track, report, id, at);
      if report.validate {
        ReplayNone(old(progress));
      }
      DanglesNot(old(progress), old(runs), track, report, id, at);
    }

    /** Record the stages of a report, numbering the test rows from 0. */
    method IngestStages(id: nat, track: string, report: Report, at: string)
      requires id in tests && tests[id] == []
      modifies `tests, `progress
      ensures tests == old(tests)[id := Flatten(report.stages)]
      ensures progress == Replay(old(progress), ReportEvents(track, report, id, at))
    {
      hide After, Regroup, Normal, Flatten;
      FlattenNone(report.stages);
      var seqNo := 0;
      for i := 0 to |report.stages|
        invariant tests == old(tests)[id := Flatten(report.stages[..i])]
        invariant seqNo == |Flatten(report.stages[..i])|
        invariant progress == Replay(old(progress),
                                     if report.validate then [] else StageEvents(track, report.stages, i, id, at))
      {
        var st := report.stages[i];
        FlattenOne(report.stages, i);
        ReplayOne(old(progress), StageEvents(track, report.stages, i, id, at),
                  Ran((track, st.stage), st.passed, st.failed, id, at));
        seqNo := IngestStage(id, track, st, report.validate, at, seqNo);
      }
      assert report.stages[..|report.stages|] == report.stages;
    }

    /** A mark by hand. */
    method SetState(track: string, stage: nat, done: bool, now: string) returns (row: Row)
      requires Valid()
      modifies `progress, `past
      ensures Valid() && past == old(past) + [Marked((track, stage), done, now)]
      ensures progress == AfterMarked(old(progress), (track, stage), done, now)
      ensures (track, stage) in progress && row == progress[(track, stage)]
    {
      ReplayOne(map[], past, Marked((track, stage), done, now));
      var k := (track, stage);
      if k in progress {
        var doneAt := if done then (if progress[k].doneAt.Some? then progress[k].doneAt else Some(now)) else None;
        progress := progress[k := progress[k].(state := if done then Finished else Todo, doneAt := doneAt,
                                               updatedAt := now)];
      } else {
        progress := progress[k := Row(if done then Finished else Todo, if done then Some(now) else None, None, None,
                                      now)];
      }
      past := past + [Marked(k, done, now)];
      row := progress[k];
    }

    /** The note of a stage is set, replaced or cleared. */
    method SetNote(track: string, stage: nat, note: Option<string>, now: string) returns (row: Row)
      requires Valid()
      modifies `progress, `past
      ensures Valid() && past == old(past) + [Noted((track, stage), note, now)]
      ensures progress == AfterNoted(old(progress), (track, stage), note, now)
      ensures (track, stage) in progress && row == progress[(track, stage)]
    {
      ReplayOne(map[], past, Noted((track, stage), note, now));
      var k := (track, stage);
      if k in progress {
        progress := progress[k := progress[k].(note := note, updatedAt := now)];
      } else {
        progress := progress[k := Row(Todo, None, None, note, now)];
      }
      past := past + [Noted(k, note, now)];
      row := progress[k];
    }

    /** The report that the stored rows of a run amount to. */
    method RunReport(id: nat) returns (r: Option<Report>)
      ensures r == ReportOf(id)
    {
      if id !in runs {
        return None;
      }
      var run := runs[id];
      var stages := Rebuild(if id in tests then tests[id] else []);
      r := Some(Report(run.target, false, stages, run.passed, run.failed, run.skipped, run.elapsedMs));
    }

    /** Drop every row. */
    method Reset()
      modifies this
      ensures Valid() && runs == map[] && progress == map[] && past == [] && nextRun == 1
    {
      runs, tests, nextRun, progress, past := map[], map[], 1, map[], [];
    }

    /** Whatever was done to the database, each of its rows tells its stage's past. */
    lemma RowsTellThePast(track: string, stage: nat)
      requires Valid()
      ensures (track, stage) in progress <==> !Never(past, (track, stage), Touching)
      ensures (track, stage) in progress ==> RowTold(past, (track, stage), progress[(track, stage)])
    {
      ProgressByHistory(past, (track, stage));
    }
  }
}
