/** Tester reports, the rows they are stored as, and the report those rows give back. */
module Reports {
  import opened Wrappers

  datatype Test = Test(
    name: string,
    status: string,
    ext: bool,
    durationMs: int,
    failures: seq<string>,
    skipReason: Option<string>,
    actual: seq<(string, string)>,
    failureKind: Option<string>)

  datatype Stage = Stage(
    stage: nat,
    name: string,
    file: string,
    passed: int,
    failed: int,
    skipped: int,
    tests: seq<Test>)

  datatype Report = Report(
    target: string,
    validate: bool,
    stages: seq<Stage>,
    passed: int,
    failed: int,
    skipped: int,
    elapsedMs: int)

  /** One row of `run_tests`; its position among the rows of its run is its `seq`. */
  datatype TestRow = TestRow(stage: nat, stageName: string, stageFile: string, test: Test)

  // ----- from a report to rows -------------------------------------------------------------------

  /** The rows of the first `n` tests of a stage. */
  function StageRows(st: Stage, n: nat): (rows: seq<TestRow>)
    requires n <= |st.tests|
    ensures |rows| == n
  {
    if n == 0 then [] else StageRows(st, n - 1) + [TestRow(st.stage, st.name, st.file, st.tests[n - 1])]
  }

  function Flatten(stages: seq<Stage>): seq<TestRow>
  {
    if |stages| == 0 then []
    else Flatten(stages[..|stages| - 1]) + StageRows(stages[|stages| - 1], |stages[|stages| - 1].tests|)
  }

  // ----- from rows to a report -------------------------------------------------------------------

  function Counted(st: Stage, t: Test): Stage
  {
    var s := if t.status == "pass" then st.(passed := st.passed + 1)
             else if t.status == "fail" then st.(failed := st.failed + 1)
             else st.(skipped := st.skipped + 1);
    s.(tests := st.tests + [t])
  }

  /** Put one more row at the end of the stages built so far. */
  function Push(stages: seq<Stage>, row: TestRow): (r: seq<Stage>)
    ensures |r| > 0
  {
    var grown := if |stages| == 0 || stages[|stages| - 1].stage != row.stage
                   then stages + [Stage(row.stage, row.stageName, row.stageFile, 0, 0, 0, [])]
                   else stages;
    grown[|grown| - 1 := Counted(grown[|grown| - 1], row.test)]
  }

  function Regroup(rows: seq<TestRow>): seq<Stage>
  {
    if |rows| == 0 then [] else Push(Regroup(rows[..|rows| - 1]), rows[|rows| - 1])
  }

  /** The stages of the rows, one row after the other. */
  method Rebuild(rows: seq<TestRow>) returns (stages: seq<Stage>)
    ensures stages == Regroup(rows)
  {
    stages := [];
    for i := 0 to |rows|
      invariant stages == Regroup(rows[..i])
    {
      assert rows[..i + 1][..i] == rows[..i];
      var row := rows[i];
      if |stages| == 0 || stages[|stages| - 1].stage != row.stage {
        stages := stages + [Stage(row.stage, row.stageName, row.stageFile, 0, 0, 0, [])];
      }
      var st := stages[|stages| - 1];
      if row.test.status == "pass" {
        st := st.(passed := st.passed + 1);
      } else if row.test.status == "fail" {
        st := st.(failed := st.failed + 1);
      } else {
        st := st.(skipped := st.skipped + 1);
      }
      st := st.(tests := st.tests + [row.test]);
      stages := stages[|stages| - 1 := st];
    }
    assert rows[..|rows|] == rows;
  }

  // ----- what comes back -------------------------------------------------------------------------

  function Tally(tests: seq<Test>, status: string): (n: nat)
    ensures n <= |tests|
  {
    if |tests| == 0 then 0
    else Tally(tests[..|tests| - 1], status) + if tests[|tests| - 1].status == status then 1 else 0
  }

  /** The stage with these tests, counts taken from the statuses. */
  function Build(stage: nat, name: string, file: string, tests: seq<Test>): (st: Stage)
    ensures st.stage == stage && st.name == name && st.file == file && st.tests == tests
  {
    var pass, fail := Tally(tests, "pass"), Tally(tests, "fail");
    Stage(stage, name, file, pass, fail, |tests| - pass - fail, tests)
  }

  /** The stage with its counts corrected, whatever the report claimed. */
  function Recount(st: Stage): Stage
  {
    Build(st.stage, st.name, st.file, st.tests)
  }

  /** A stage after those already kept: dropped when empty, merged when it repeats the last number. */
  function Join(kept: seq<Stage>, st: Stage): seq<Stage>
  {
    if |st.tests| == 0 then kept
    else if |kept| > 0 && kept[|kept| - 1].stage == st.stage then
      var last := kept[|kept| - 1];
      kept[|kept| - 1 := Build(last.stage, last.name, last.file, last.tests + st.tests)]
    else kept + [Recount(st)]
  }

  /** A report's stages without empty ones, adjacent equal numbers merged, counts recomputed. */
  function Normal(stages: seq<Stage>): seq<Stage>
  {
    if |stages| == 0 then [] else Join(Normal(stages[..|stages| - 1]), stages[|stages| - 1])
  }

  function Normalised(r: Report): Report
  {
    r.(validate := false, stages := Normal(r.stages))
  }

  /** What a report must be to come back unchanged. */
  ghost predicate Tidy(stages: seq<Stage>)
  {
    && (forall i | 0 <= i < |stages| :: |stages[i].tests| > 0 && stages[i] == Recount(stages[i]))
    && (forall i | 0 < i < |stages| :: stages[i - 1].stage != stages[i].stage)
  }

  lemma TallyOne(tests: seq<Test>, t: Test, status: string)
    ensures Tally(tests + [t], status) == Tally(tests, status) + if t.status == status then 1 else 0
  {
    assert (tests + [t])[..|tests|] == tests;
  }

  /** Counting one test at a time is counting them all. */
  lemma CountedIsBuild(stage: nat, name: string, file: string, tests: seq<Test>, t: Test)
    ensures Counted(Build(stage, name, file, tests), t) == Build(stage, name, file, tests + [t])
    ensures Build(stage, name, file, []) == Stage(stage, name, file, 0, 0, 0, [])
  {
    TallyOne(tests, t, "pass");
    TallyOne(tests, t, "fail");
  }

  ghost predicate AllCounted(stages: seq<Stage>)
  {
    forall i | 0 <= i < |stages| :: stages[i] == Recount(stages[i])
  }

  lemma JoinCounted(kept: seq<Stage>, st: Stage)
    requires AllCounted(kept)
    ensures AllCounted(Join(kept, st))
  {
  }

  lemma JoinNothing(kept: seq<Stage>, st: Stage)
    requires |st.tests| == 0
    ensures Join(kept, st) == kept
  {
  }

  lemma PushJoins(kept: seq<Stage>, st: Stage, tests: seq<Test>, t: Test)
    requires AllCounted(kept)
    ensures Push(Join(kept, st.(tests := tests)), TestRow(st.stage, st.name, st.file, t))
         == Join(kept, st.(tests := tests + [t]))
  {
    hide Build, Counted;
    if |kept| > 0 && kept[|kept| - 1].stage == st.stage {
      var last := kept[|kept| - 1];
      assert last == Recount(last);
      CountedIsBuild(last.stage, last.name, last.file, last.tests + tests, t);
      assert last.tests + tests + [t] == last.tests + (tests + [t]);
      assert |tests| == 0 ==> last.tests + tests == last.tests;
    } else {
      CountedIsBuild(st.stage, st.name, st.file, tests, t);
      assert |tests| == 0 ==> tests == [] && [] + [t] == tests + [t];
    }
  }

  /** Pushing the rows of a stage one by one joins the stage. */
  lemma {:induction false} PushRows(rows: seq<TestRow>, st: Stage, n: nat)
    requires AllCounted(Regroup(rows)) && n <= |st.tests|
    ensures Regroup(rows + StageRows(st, n)) == Join(Regroup(rows), st.(tests := st.tests[..n]))
  {
    hide AllCounted, Join, Push;
    var kept := Regroup(rows);
    if n == 0 {
      assert rows + StageRows(st, 0) == rows;
      JoinNothing(kept, st.(tests := st.tests[..0]));
    } else {
      PushRows(rows, st, n - 1);
      var before, row := rows + StageRows(st, n - 1), TestRow(st.stage, st.name, st.file, st.tests[n - 1]);
      assert rows + StageRows(st, n) == before + [row];
      assert (before + [row])[..|before|] == before;
      PushJoins(kept, st, st.tests[..n - 1], st.tests[n - 1]);
      assert st.tests[..n] == st.tests[..n - 1] + [st.tests[n - 1]];
    }
  }

  lemma {:induction false} NormalCounted(stages: seq<Stage>)
    ensures AllCounted(Normal(stages))
  {
    hide Recount, Join;
    if |stages| > 0 {
      NormalCounted(stages[..|stages| - 1]);
      JoinCounted(Normal(stages[..|stages| - 1]), stages[|stages| - 1]);
    }
  }

  /** Storing the rows and grouping them again normalises a report's stages. */
  lemma {:induction false} RegroupFlatten(stages: seq<Stage>)
    ensures Regroup(Flatten(stages)) == Normal(stages)
  {
    hide Join;
    if |stages| > 0 {
      var init, st := stages[..|stages| - 1], stages[|stages| - 1];
      RegroupFlatten(init);
      NormalCounted(init);
      PushRows(Flatten(init), st, |st.tests|);
      assert st.tests[..|st.tests|] == st.tests;
    }
  }

  lemma JoinTidy(kept: seq<Stage>, st: Stage)
    requires Tidy(kept)
    ensures Tidy(Join(kept, st))
  {
  }

  lemma {:induction false} NormalIsTidy(stages: seq<Stage>)
    ensures Tidy(Normal(stages))
  {
    if |stages| > 0 {
      var init, st := stages[..|stages| - 1], stages[|stages| - 1];
      NormalIsTidy(init);
      JoinTidy(Normal(init), st);
    }
  }

  lemma TidyLast(stages: seq<Stage>)
    requires |stages| > 0 && Tidy(stages)
    ensures Tidy(stages[..|stages| - 1])
    ensures Join(stages[..|stages| - 1], stages[|stages| - 1]) == stages
  {
    hide Build;
    var n := |stages| - 1;
    assert stages == stages[..n] + [stages[n]];
    assert n > 0 ==> stages[n - 1].stage != stages[n].stage;
  }

  lemma {:induction false} TidyIsNormal(stages: seq<Stage>)
    requires Tidy(stages)
    ensures Normal(stages) == stages
  {
    if |stages| > 0 {
      hide Tidy, Join;
      TidyLast(stages);
      TidyIsNormal(stages[..|stages| - 1]);
    }
  }

  /** A report survives storage exactly when it is tidy and not a self-check of the suite. */
  lemma SurvivesIffTidy(r: Report)
    ensures Normalised(r) == r <==> !r.validate && Tidy(r.stages)
  {
    NormalIsTidy(r.stages);
    if Tidy(r.stages) {
      TidyIsNormal(r.stages);
    }
  }

  /** Every test with the number of its stage, in order. */
  function Tagged(stages: seq<Stage>): seq<(nat, Test)>
  {
    if |stages| == 0 then []
    else
      var st := stages[|stages| - 1];
      Tagged(stages[..|stages| - 1]) + seq(|st.tests|, i requires 0 <= i < |st.tests| => (st.stage, st.tests[i]))
  }

  lemma TaggedJoin(kept: seq<Stage>, st: Stage)
    ensures Tagged(Join(kept, st)) == Tagged(kept + [st])
  {
    assert (kept + [st])[..|kept|] == kept;
    if |st.tests| > 0 {
      if |kept| > 0 && kept[|kept| - 1].stage == st.stage {
        assert Join(kept, st)[..|kept| - 1] == kept[..|kept| - 1];
      } else {
        assert Join(kept, st)[..|kept|] == kept;
      }
    }
  }

  /** No test is lost, invented or moved by the round trip. */
  lemma {:induction false} TestsConserved(stages: seq<Stage>)
    ensures Tagged(Normal(stages)) == Tagged(stages)
  {
    hide Join;
    if |stages| > 0 {
      var init, st := stages[..|stages| - 1], stages[|stages| - 1];
      TestsConserved(init);
      TaggedJoin(Normal(init), st);
      assert (Normal(init) + [st])[..|Normal(init)|] == Normal(init);
    }
  }
}
