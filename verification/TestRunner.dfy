/** The test runner: the node and the cluster it owns, and the scratch directories they live in. */
module TestRunner {
  import opened Wrappers

  datatype Ladder = Primitives | Algorithms | Node | ClusterLadder

  datatype Stage = Stage(number: nat, ladder: Ladder)

  datatype Test = Test(anew: bool, clusterSize: nat, spare: nat)

  /** A running cluster: the scratch directory it was started in, the members and spares it was started with, and
      whether a test left it unusable. */
  datatype Cluster = Cluster(dir: nat, size: nat, spare: nat, dirty: bool)

  type Shape = (nat, nat)

  /** How far starting a single node gets. */
  datatype NodeStart = NoNode | NoClient | Ready

  /** What the outside world does during one test. */
  datatype World = World(
    skipListed: bool,
    targetKnown: bool,
    serves: bool,
    installed: bool,
    hasProgram: bool,
    nodeStart: NodeStart,
    clusterStarts: bool,
    downBefore: bool,
    passes: bool,
    marksDirty: bool,
    downAfter: bool,
    nodeCrashed: bool)

  datatype Status = Pass | Fail | Skip

  /** What is remembered of a test that got a scratch directory. */
  datatype Record = Record(
    stage: Stage,
    test: Test,
    dir: nat,
    ready: bool,
    cluster: Option<nat>,
    made: bool,
    passed: bool,
    dirty: bool)

  function Wanted(test: Test): Shape
  {
    (if test.clusterSize == 0 then 3 else test.clusterSize, test.spare)
  }

  /** The cluster has the members and the spares the test asks for; three members unless it says how many. */
  predicate Asks(test: Test, c: Cluster)
  {
    (c.size == test.clusterSize || (c.size == 3 && test.clusterSize == 0)) && c.size > 0 && c.spare == test.spare
  }

  /** The two tests ask for the same members and spares. */
  predicate AskTheSame(a: Test, b: Test)
  {
    && a.spare == b.spare
    && (a.clusterSize == b.clusterSize || (a.clusterSize == 0 && b.clusterSize == 3)
        || (a.clusterSize == 3 && b.clusterSize == 0))
  }

  /** A cluster that is up, as the test asks for, and not spoilt, for a test that does not insist on its own. */
  predicate MayServe(c: Option<Cluster>, test: Test, w: World)
  {
    c.Some? && Asks(test, c.value) && !c.value.dirty && !w.downBefore && !test.anew
  }

  lemma WantedMeans(test: Test, c: Cluster, other: Test)
    ensures Wanted(test) == (c.size, c.spare) <==> Asks(test, c)
    ensures Wanted(test) == Wanted(other) <==> AskTheSame(test, other)
  {
  }

  // ----- what the log of a run has to satisfy ----------------------------------------------------

  /** Test `j` made cluster `c` and everyone who has used it since passed and left it clean. */
  ghost predicate MadeAndKept(log: seq<Record>, j: nat, c: nat, stage: Stage, shape: Shape)
  {
    && j < |log| && log[j].made && log[j].cluster == Some(c)
    && log[j].stage == stage && Wanted(log[j].test) == shape
    && forall k | j <= k < |log| && log[k].cluster == Some(c) :: log[k].passed && !log[k].dirty
  }

  ghost predicate Justified(before: seq<Record>, r: Record)
  {
    r.cluster.Some? && !r.made ==>
      !r.test.anew && exists j: nat :: MadeAndKept(before, j, r.cluster.value, r.stage, Wanted(r.test))
  }

  /** Every reuse of a cluster in the log was justified by what came before. */
  ghost predicate AllJustified(log: seq<Record>)
  {
    forall i | 0 <= i < |log| :: Justified(log[..i], log[i])
  }

  /** The directories of tests that never got to run. */
  ghost function Abandoned(log: seq<Record>): set<nat>
  {
    set i | 0 <= i < |log| && !log[i].ready :: log[i].dir
  }

  ghost function UpTo(n: nat): (r: set<nat>)
    ensures forall i: nat :: i in r <==> 1 <= i <= n
  {
    if n == 0 then {} else UpTo(n - 1) + {n}
  }

  lemma AbandonedMore(log: seq<Record>, r: Record)
    ensures Abandoned(log + [r]) == Abandoned(log) + if r.ready then {} else {r.dir}
  {
    var more := log + [r];
    assert forall i | 0 <= i < |log| :: more[i] == log[i];
    assert more[|log|] == r;
  }

  lemma JustifiedMore(log: seq<Record>, r: Record)
    requires AllJustified(log) && Justified(log, r)
    ensures AllJustified(log + [r])
  {
    var more := log + [r];
    assert more[..|log|] == log;
    forall i | 0 <= i < |log|
      ensures Justified(more[..i], more[i])
    {
      assert more[..i] == log[..i];
    }
  }

  /** A further test leaves a cluster good when it did not use it, or passed and left it clean. */
  lemma KeptMore(log: seq<Record>, r: Record, j: nat, c: nat, stage: Stage, shape: Shape)
    requires MadeAndKept(log, j, c, stage, shape)
    requires r.cluster == Some(c) ==> r.passed && !r.dirty
    ensures MadeAndKept(log + [r], j, c, stage, shape)
  {
    var more := log + [r];
    assert forall i | 0 <= i < |log| :: more[i] == log[i];
  }

  class Runner {
    const keepTmp: bool
    var instance: nat
    var node: Option<nat>
    var client: Option<nat>
    var cluster: Option<Cluster>
    var clusterShape: Option<Shape>
    var clusterTmp: Option<nat>
    var keep: seq<nat>
    var starts: nat
    /** The per-test scratch directories that exist, by their number. */
    var disk: set<nat>
    ghost var stage: Option<Stage>
    ghost var log: seq<Record>

    /** The cluster, its shape and its directory come and go together, and the directory of a live
        cluster exists. */
    ghost predicate Together()
      reads `cluster, `clusterShape, `clusterTmp, `disk
    {
      && (cluster.Some? <==> clusterShape.Some?) && (cluster.Some? <==> clusterTmp.Some?)
      && (cluster.Some? ==> clusterTmp == Some(cluster.value.dir) && cluster.value.dir in disk)
      && (cluster.Some? ==> clusterShape == Some((cluster.value.size, cluster.value.spare)))
    }

    ghost function Live(): set<nat>
      reads `clusterTmp
    {
      if clusterTmp.Some? then {clusterTmp.value} else {}
    }

    /** What is on disk: everything with `--keep-tmp`, otherwise the live cluster's directory and those of
        tests whose setup failed. */
    ghost predicate DiskIs(abandoned: set<nat>)
      reads `clusterTmp, `disk, `keep, `instance
    {
      if keepTmp then disk == UpTo(instance) && |keep| == instance && forall i | 0 <= i < instance :: keep[i] == i + 1
      else disk == abandoned + Live() && keep == []
    }

    /** The live cluster was made in this stage, in its present shape, and nobody failed on it. */
    ghost predicate ClusterGood()
      reads this
    {
      cluster.Some? ==>
        && stage.Some? && stage.value.ladder == ClusterLadder && clusterShape.Some? && !cluster.value.dirty
        && exists j: nat :: MadeAndKept(log, j, cluster.value.dir, stage.value, clusterShape.value)
    }

    /** What holds between tests. */
    ghost predicate Valid()
      reads this
    {
      && node == None && client == None
      && Together() && ClusterGood() && AllJustified(log)
      && DiskIs(Abandoned(log))
      && (forall d | d in disk :: 1 <= d <= instance)
      && (forall i | 0 <= i < |log| :: log[i].dir <= instance)
      && (!keepTmp ==> Abandoned(log) !! Live())
    }

    constructor (keepTmp: bool)
      ensures Valid() && this.keepTmp == keepTmp && log == [] && disk == {} && cluster == None && stage == None
    {
      this.keepTmp := keepTmp;
      instance, starts, keep, disk := 0, 0, [], {};
      node, client, cluster, clusterShape, clusterTmp := None, None, None, None, None;
      stage, log := None, [];
    }

    /** May the live cluster serve this test? */
    predicate Reusable(test: Test, w: World)
      reads `cluster, `clusterShape
    {
      && !test.anew && clusterShape == Some(Wanted(test))
      && cluster.Some? && !(cluster.value.dirty || w.downBefore)
    }

    /** Does the test get what its ladder needs? */
    predicate SetsUp(st: Stage, test: Test, w: World)
      reads `cluster, `clusterShape
    {
      && w.hasProgram
      && (st.ladder == Node ==> w.nodeStart == Ready)
      && (st.ladder == ClusterLadder ==> Reusable(test, w) || w.clusterStarts)
    }

    method NextTmp() returns (dir: nat)
      modifies `instance, `disk, `keep
      ensures dir == instance == old(instance) + 1 && disk == old(disk) + {dir}
      ensures keep == if keepTmp then old(keep) + [dir] else old(keep)
    {
      instance := instance + 1;
      dir := instance;
      disk := disk + {dir};
      if keepTmp {
        keep := keep + [dir];
      }
    }

    method ReleaseTmp(dir: nat)
      modifies `disk
      ensures disk == if keepTmp || clusterTmp == Some(dir) then old(disk) else old(disk) - {dir}
    {
      if keepTmp {
        return;
      }
      if clusterTmp == Some(dir) {
        return;
      }
      disk := disk - {dir};
    }

    method DropNode()
      modifies `node, `client
      ensures node == None && client == None
    {
      node := None;
      client := None;
    }

    method DropCluster()
      modifies `cluster, `clusterShape, `clusterTmp, `disk
      ensures cluster == None && clusterShape == None && clusterTmp == None
      ensures disk == if keepTmp then old(disk) else old(disk - Live())
    {
      cluster := None;
      clusterShape := None;
      if clusterTmp.Some? {
        if !keepTmp {
          disk := disk - {clusterTmp.value};
        }
        clusterTmp := None;
      }
    }

    /** Whatever the stage before left running is shut down. */
    method BeginStage(st: Stage)
      requires Valid()
      modifies this
      ensures Valid() && stage == Some(st) && cluster == None && log == old(log) && instance == old(instance)
    {
      DropNode();
      DropCluster();
      stage := Some(st);
    }

    method EndRun()
      requires Valid()
      modifies this
      ensures Valid() && cluster == None && log == old(log)
      ensures !keepTmp ==> disk == Abandoned(log)
    {
      DropNode();
      DropCluster();
    }

    method StartSingleNode(dir: nat, w: World) returns (ok: bool)
      modifies `node, `client, `starts
      ensures ok <==> w.nodeStart == Ready
      ensures if ok then node.Some? && client.Some? else node == None && client == None
    {
      DropNode();
      if w.nodeStart == NoNode {
        return false;
      }
      starts := starts + 1;
      if w.nodeStart == NoClient {
        return false;
      }
      node := Some(dir);
      client := Some(dir);
      ok := true;
    }

    /** A cluster of the wanted shape: the present one if it may be reused, else a new one. */
    method EnsureCluster(dir: nat, test: Test, w: World) returns (ok: bool, ghost made: bool)
      requires Together() && dir in disk && clusterTmp != Some(dir)
      modifies `cluster, `clusterShape, `clusterTmp, `disk, `starts
      ensures Together()
      ensures ok ==> cluster.Some? && clusterShape == Some(Wanted(test)) && !cluster.value.dirty
      ensures !ok ==> cluster == None
      ensures ok && !made ==> cluster == old(cluster) && clusterTmp == old(clusterTmp) && disk == old(disk)
      ensures ok && made ==> cluster.value.dir == dir
      ensures made || !ok ==> disk == if keepTmp then old(disk) else old(disk - Live())
      ensures ok <==> old(Reusable(test, w)) || w.clusterStarts
      ensures made <==> !old(Reusable(test, w)) && w.clusterStarts
      ensures ok ==> Asks(test, cluster.value)
      ensures ok && !made <==> MayServe(old(cluster), test, w)
      ensures ok && made <==> !MayServe(old(cluster), test, w) && w.clusterStarts
    {
      var want := Wanted(test);
      var reusable := !test.anew && clusterShape == Some(want)
                      && cluster.Some? && !(cluster.value.dirty || w.downBefore);
      if reusable {
        return true, false;
      }
      DropCluster();
      if !w.clusterStarts {
        return false, false;
      }
      starts := starts + want.0;
      cluster := Some(Cluster(dir, want.0, want.1, false));
      clusterShape := Some(want);
      clusterTmp := Some(dir);
      return true, true;
    }

    /** What one test leaves behind before a failure is cleaned up after. */
    ghost predicate Ran(before: set<nat>, dir: nat, ok: bool, r: Record)
      reads this
    {
      && Together() && node == None && client == None
      && r.dir == dir && r.passed == ok && (r.ready || !ok)
      && (r.cluster.Some? ==> r.ready)
      && (cluster.Some? && r.ready ==> r.cluster == Some(cluster.value.dir) && r.dirty == cluster.value.dirty == false)
      && DiskIs(if r.ready then before else before + {dir})
      && (forall d | d in disk :: 1 <= d <= instance)
      && (!keepTmp ==> (if r.ready then before else before + {dir}) !! Live())
    }

    /** Lend the test what it needs, run it, take everything back, and drop what cannot be used again. */
    method Conduct(st: Stage, dir: nat, w: World, ghost gone: set<nat>) returns (ok: bool, ghost dirty: bool)
      requires Together() && dir in disk
      requires cluster.Some? <==> st.ladder == ClusterLadder
      requires cluster.Some? ==> !cluster.value.dirty
      requires node.Some? ==> st.ladder == Node
      requires client.Some? ==> st.ladder == Node
      requires DiskIs(gone) && dir in gone && (!keepTmp ==> gone - {dir} !! Live())
      modifies `node, `client, `cluster, `clusterShape, `clusterTmp, `disk
      ensures Together() && node == None && client == None
      ensures cluster.Some? ==> cluster == old(cluster) && clusterShape == old(clusterShape)
      ensures dirty <==> st.ladder == ClusterLadder && cluster == None
      ensures dirty <==> st.ladder == ClusterLadder && (w.marksDirty || w.downAfter)
      ensures DiskIs(gone - {dir}) && disk <= old(disk) && (!keepTmp ==> gone - {dir} !! Live())
      ensures ok <==> w.passes && !(st.ladder == Node && old(node).Some? && w.nodeCrashed)
    {
      var lentNode, lentClient, lentCluster := node, client, cluster;
      ok := w.passes;
      node := lentNode;
      client := lentClient;
      if lentCluster.Some? {
        cluster := Some(lentCluster.value.(dirty := lentCluster.value.dirty || w.marksDirty));
      } else {
        cluster := None;
      }
      dirty := false;
      if st.ladder == Node {
        var crash := node.Some? && w.nodeCrashed;
        DropNode();
        if ok && crash {
          ok := false;
        }
      }
      if st.ladder == ClusterLadder {
        if cluster.value.dirty || w.downAfter {
          DropCluster();
          dirty := true;
        }
      }
      ReleaseTmp(dir);
    }

    /** What the ladder needs: nothing, a node of its own, or a cluster. */
    method SetUp(st: Stage, test: Test, dir: nat, w: World, ghost gone: set<nat>) returns (ok: bool, ghost made: bool)
      requires Together() && dir in disk && clusterTmp != Some(dir) && node == None && client == None
      requires st.ladder != ClusterLadder ==> cluster == None
      requires DiskIs(gone) && dir in gone && (!keepTmp ==> gone !! Live())
      modifies `node, `client, `cluster, `clusterShape, `clusterTmp, `disk, `starts
      ensures Together() && (!ok ==> cluster == None && node == None && client == None)
      ensures ok ==> (cluster.Some? <==> st.ladder == ClusterLadder) && (cluster.Some? ==> !cluster.value.dirty)
      ensures ok ==> (node.Some? <==> st.ladder == Node) && (client.Some? <==> st.ladder == Node)
      ensures ok && cluster.Some? ==> clusterShape == Some(Wanted(test))
      ensures ok && cluster.Some? && !made ==> cluster == old(cluster) && disk == old(disk)
      ensures ok && made ==> cluster.Some? && cluster.value.dir == dir
      ensures ok && cluster.Some? ==> Asks(test, cluster.value)
      ensures w.hasProgram ==> (ok <==> old(SetsUp(st, test, w)))
      ensures made <==> st.ladder == ClusterLadder && !old(Reusable(test, w)) && w.clusterStarts
      ensures DiskIs(gone) && disk <= old(disk) && dir in disk && (!keepTmp ==> gone - {dir} !! Live())
      ensures !keepTmp && !ok ==> gone !! Live()
    {
      made := false;
      ok := true;
      match st.ladder {
      case Primitives =>
      case Algorithms =>
      case Node =>
        ok := StartSingleNode(dir, w);
      case ClusterLadder =>
        ok, made := EnsureCluster(dir, test, w);
      }
    }

    lemma AbandonedBefore()
      requires Valid()
      ensures forall d | d in Abandoned(log) :: d <= instance
    {
    }

    lemma LadderOfCluster()
      requires Valid()
      ensures cluster.Some? ==> stage.Some? && stage.value.ladder == ClusterLadder
    {
    }

    /** What the log will say of a test that is about to get its directory. */
    ghost function Told(st: Stage, test: Test, w: World): Record
      reads `cluster, `clusterShape, `instance
    {
      ToldIn(st, test, w, instance + 1)
    }

    /** ... and of one that has got it. */
    ghost function ToldIn(st: Stage, test: Test, w: World, dir: nat): Record
      reads `cluster, `clusterShape
    {
      if !SetsUp(st, test, w) then Record(st, test, dir, false, None, false, false, false)
      else
        var passed := w.passes && !(st.ladder == Node && w.nodeCrashed);
        if st.ladder == ClusterLadder then
          Record(st, test, dir, true, Some(if Reusable(test, w) then cluster.value.dir else dir),
                 !Reusable(test, w), passed, w.marksDirty || w.downAfter)
        else Record(st, test, dir, true, None, false, passed, false)
    }

    /** Set up for a test that has its directory, run it, take back what it was lent. */
    method RunIn(st: Stage, test: Test, dir: nat, w: World, ghost abandoned: set<nat>)
      returns (ok: bool, ghost r: Record)
      requires Together() && node == None && client == None && dir == instance
      requires st.ladder != ClusterLadder ==> cluster == None
      requires DiskIs(abandoned + {dir}) && dir in disk && dir !in abandoned && clusterTmp != Some(dir)
      requires !keepTmp ==> abandoned + {dir} !! Live()
      requires forall d | d in disk :: 1 <= d <= instance
      modifies `node, `client, `cluster, `clusterShape, `clusterTmp, `starts, `disk
      ensures r == old(ToldIn(st, test, w, dir)) && ok == r.passed
      ensures Ran(abandoned, dir, ok, r)
      ensures r.ready ==> (cluster.Some? <==> st.ladder == ClusterLadder && !r.dirty)
      ensures r.ready && cluster.Some? ==> clusterShape == Some(Wanted(test))
    {
      hide UpTo, DiskIs;
      ghost var gone := abandoned + {dir};
      assert gone - {dir} == abandoned;
      if !w.hasProgram {
        return false, Record(st, test, dir, false, None, false, false, false);
      }
      var ready;
      ghost var made;
      ready, made := SetUp(st, test, dir, w, gone);
      if !ready {
        return false, Record(st, test, dir, false, None, false, false, false);
      }
      ghost var used := if cluster.Some? then Some(cluster.value.dir) else None;
      ghost var dirty;
      ok, dirty := Conduct(st, dir, w, gone);
      r := Record(st, test, dir, true, used, made, ok, dirty);
    }

    /** Set up for one test, run it, take back what it was lent and clean up. */
    method PrepareAndRun(st: Stage, test: Test, w: World) returns (ok: bool, ghost r: Option<Record>)
      requires Valid() && stage == Some(st)
      modifies `instance, `node, `client, `cluster, `clusterShape, `clusterTmp, `keep, `starts, `disk
      ensures r.Some? <==> w.installed
      ensures r.None? ==> !ok && Valid() && instance == old(instance)
      ensures r.Some? ==> instance == old(instance) + 1
      ensures r.Some? ==> r.value == old(Told(st, test, w))
      ensures r.Some? ==> Ran(Abandoned(log), instance, ok, r.value)
      ensures r.Some? && r.value.ready ==> (cluster.Some? <==> st.ladder == ClusterLadder && !r.value.dirty)
      ensures r.Some? && r.value.ready && cluster.Some? ==> clusterShape == Some(Wanted(test))
      ensures ok <==> w.installed && old(Told(st, test, w)).passed
    {
      hide AllJustified, Abandoned, MadeAndKept, Justified, UpTo, ClusterGood, ToldIn, Ran;
      LadderOfCluster();
      if !w.installed {
        return false, None;
      }
      AbandonedBefore();
      ghost var abandoned := Abandoned(log);
      var tmp := NextTmp();
      ghost var record;
      ok, record := RunIn(st, test, tmp, w, abandoned);
      r := Some(record);
    }

    /** A test gets its directory, runs, and the runner is left ready for the next. */
    method RunTest(st: Stage, test: Test, w: World) returns (status: Status)
      requires Valid() && stage == Some(st)
      modifies this
      ensures Valid() && stage == old(stage)
      ensures var begins := !w.skipListed && w.targetKnown && w.serves && w.installed;
              && log == old(log) + (if begins then [old(Told(st, test, w))] else [])
              && instance == old(instance) + (if begins then 1 else 0)
      ensures status == if w.skipListed then Skip
                        else if !w.targetKnown then Fail
                        else if !w.serves then Skip
                        else if w.installed && old(Told(st, test, w)).passed then Pass
                        else Fail
      ensures status == Skip <==> w.skipListed || (w.targetKnown && !w.serves)
      ensures status == Pass <==>
                && !w.skipListed && w.targetKnown && w.serves && w.installed && w.hasProgram && w.passes
                && (st.ladder == Node ==> w.nodeStart == Ready && !w.nodeCrashed)
                && (st.ladder == ClusterLadder ==> MayServe(old(cluster), test, w) || w.clusterStarts)
      ensures !w.skipListed && w.targetKnown && w.serves && w.installed && w.hasProgram
              && st.ladder == ClusterLadder ==>
                log[|old(log)|].cluster == if MayServe(old(cluster), test, w) then Some(old(cluster).value.dir)
                                           else if w.clusterStarts then Some(instance) else None
      ensures cluster.Some? && cluster != old(cluster) ==> Asks(test, cluster.value)
      ensures status == Fail && w.targetKnown ==> cluster == None
      ensures status == Pass && st.ladder == ClusterLadder && !w.marksDirty && !w.downAfter ==>
                cluster.Some? && Some(cluster.value.dir) == old(Told(st, test, w)).cluster
    {
      hide AllJustified, Abandoned, MadeAndKept, Justified, UpTo, SetsUp, Wanted, MayServe, Asks;
      ToldJustified(st, test, w);
      ToldMeans(st, test, w);
      if w.skipListed {
        return Skip;
      }
      if !w.targetKnown {
        return Fail;
      }
      if !w.serves {
        return Skip;
      }
      var ok;
      ghost var r;
      ok, r := PrepareAndRun(st, test, w);
      // The look for a crashed node that follows finds no node to look at: none outlives its own test.
      assert node == None;
      if !ok {
        DropNode();
        DropCluster();
      }
      status := if ok then Pass else Fail;
      if cluster.Some? {
        WantedMeans(test, cluster.value, test);
      }
      if r.Some? {
        Remember(r.value);
      }
    }

    ghost function AbandonedWith(r: Record): set<nat>
      reads this
    {
      Abandoned(log) + if r.ready then {} else {r.dir}
    }

    /** If a test is going to reuse the live cluster, it may. */
    lemma ToldJustified(st: Stage, test: Test, w: World)
      requires Valid() && stage == Some(st)
      ensures Justified(log, Told(st, test, w))
    {
      hide AllJustified, Abandoned, MadeAndKept;
    }

    /** What the log will say, in terms of the cluster that is up and of what the outside world does. */
    lemma ToldMeans(st: Stage, test: Test, w: World)
      requires Together()
      ensures Told(st, test, w).passed <==>
                && w.hasProgram && w.passes
                && (st.ladder == Node ==> w.nodeStart == Ready && !w.nodeCrashed)
                && (st.ladder == ClusterLadder ==> MayServe(cluster, test, w) || w.clusterStarts)
      ensures w.hasProgram && st.ladder == ClusterLadder ==>
                Told(st, test, w).cluster == if MayServe(cluster, test, w) then Some(cluster.value.dir)
                                             else if w.clusterStarts then Some(instance + 1) else None
    {
      if cluster.Some? {
        WantedMeans(test, cluster.value, test);
      }
    }

    /** Put a finished test into the log. */
    ghost method Remember(r: Record)
      requires node == None && client == None && Together() && AllJustified(log) && Justified(log, r)
      requires DiskIs(AbandonedWith(r)) && (!keepTmp ==> AbandonedWith(r) !! Live())
      requires forall d | d in disk :: 1 <= d <= instance
      requires r.dir <= instance && forall i | 0 <= i < |log| :: log[i].dir <= instance
      requires cluster.Some? ==>
                 && stage == Some(r.stage) && r.stage.ladder == ClusterLadder && !cluster.value.dirty
                 && r.passed && !r.dirty && r.cluster == Some(cluster.value.dir)
                 && clusterShape == Some(Wanted(r.test))
      modifies `log
      ensures Valid() && log == old(log) + [r]
    {
      hide AllJustified, Abandoned;
      AbandonedMore(log, r);
      var abandoned := AbandonedWith(r);
      JustifiedMore(log, r);
      var j: nat := |log|;
      if cluster.Some? {
        if r.made {
          OwnCluster(r, r.stage);
        } else {
          j :| MadeAndKept(log, j, cluster.value.dir, r.stage, clusterShape.value);
          KeptMore(log, r, j, cluster.value.dir, r.stage, clusterShape.value);
        }
      }
      var more := log + [r];
      assert Abandoned(more) == abandoned;
      log := more;
      assert cluster.Some? ==> MadeAndKept(log, j, cluster.value.dir, stage.value, clusterShape.value);
    }

    /** The test that made a cluster is the first to use it. */
    lemma OwnCluster(r: Record, st: Stage)
      requires r.made && r.cluster.Some? && r.passed && !r.dirty && r.stage == st
      ensures MadeAndKept(log + [r], |log|, r.cluster.value, st, Wanted(r.test))
    {
    }

    /** Every reuse in a whole run: the cluster was made in the same stage in the same shape, for a test
        that was not to have its own, and everyone who had used it passed and left it clean. */
    lemma ReusesAreSafe(i: nat)
      requires Valid() && i < |log| && log[i].cluster.Some? && !log[i].made
      ensures !log[i].test.anew
      ensures exists j: nat ::
                && j < i && log[j].made && log[j].cluster == log[i].cluster
                && log[j].stage == log[i].stage && AskTheSame(log[j].test, log[i].test)
                && forall k: nat | j <= k < i && log[k].cluster == log[i].cluster :: log[k].passed && !log[k].dirty
    {
      var c := log[i].cluster.value;
      assert Justified(log[..i], log[i]);
      var j: nat :| MadeAndKept(log[..i], j, c, log[i].stage, Wanted(log[i].test));
      assert log[..i][j] == log[j];
      forall k: nat | j <= k < i && log[k].cluster == Some(c)
        ensures log[k].passed && !log[k].dirty
      {
        assert log[..i][k] == log[k];
      }
    }
  }
}
