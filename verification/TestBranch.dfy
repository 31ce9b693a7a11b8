/**
  The test-generation job over whole histories, read off the effect log: every entry is a
  decision of some run, and a test file lands only on a branch that was created before.
 */
module TestBranch {
  import opened Common
  import opened Decisions
  import opened Gate
  import opened Chain
  import opened Drift
  import opened TestGen

  // ------------------------------------------------------------------
  // Where the entries come from
  // ------------------------------------------------------------------

  /** The entry is about the i-th decision of this chain, and sends it unless it was downgraded. */
  ghost predicate IsOf(keys: seq<Key>, ds: seq<Decision>, i: nat, e: Entry) {
    && i < |keys| == |ds| && e.key == Some(keys[i]) && e.original == ds[i]
    && (!e.downgraded ==> e.sent == ds[i])
    && (e.downgraded ==> e.sent.action == "comment")
  }

  ghost predicate FromChain(keys: seq<Key>, ds: seq<Decision>, e: Entry) {
    exists i :: IsOf(keys, ds, i, e)
  }

  ghost predicate FromPlan(keys: seq<Key>, plan: seq<Setting>, e: Entry) {
    exists k :: 0 <= k < |plan| && FromChain(keys, plan[k].ds, e)
  }

  /** A call logs at most one entry, about its own decision. */
  lemma CallLogs(env: Env, keys: seq<Key>, db: Db, ds: seq<Decision>, mode: WriteMode, turn: Turn, i: nat)
    requires |keys| == |ds| && i < |ds| && ds[i].action in env.thresholds
    requires KeyOf(env, ds[i], AGENT) == Success(keys[i])
    ensures var after := ExecuteDecision(env, db, ds[i], mode, ClientFor(mode, turn), true, AGENT, turn.rivals).0;
            && db.log <= after.log
            && forall q :: |db.log| <= q < |after.log| ==> IsOf(keys, ds, i, after.log[q])
  {
    hide ExecuteDecision, KeyOf;
    LoggedExactly(env, db, ds[i], mode, ClientFor(mode, turn), true, AGENT, turn.rivals);
  }

  lemma {:induction false} ChainLogs(env: Env, keys: seq<Key>, db: Db, c: Setting, turns: seq<Turn>, n: nat)
    requires ChainOf(env, keys, c) && |turns| == |c.ds| && n <= |c.ds|
    ensures var after := RunChain(env, db, c.ds[n..], c.mode, turns[n..]).0;
            && db.log <= after.log
            && forall q :: |db.log| <= q < |after.log| ==> FromChain(keys, c.ds, after.log[q])
    decreases |c.ds| - n
  {
    hide ExecuteDecision, IsOf;
    if n < |c.ds| {
      var ds, ts := c.ds[n..], turns[n..];
      assert ds[1..] == c.ds[n + 1..] && ts[1..] == turns[n + 1..] && KeyAt(env, c.ds, n) == keys[n];
      CallLogs(env, keys, db, c.ds, c.mode, turns[n], n);
      var db1 := ExecuteDecision(env, db, c.ds[n], c.mode, ClientFor(c.mode, turns[n]), true, AGENT, turns[n].rivals).0;
      ChainLogs(env, keys, db1, c, turns, n + 1);
      var after := RunChain(env, db, ds, c.mode, ts).0;
      assert after.log == db1.log || after == RunChain(env, db1, c.ds[n + 1..], c.mode, turns[n + 1..]).0;
      forall q | |db.log| <= q < |after.log| ensures FromChain(keys, c.ds, after.log[q]) {
        if q < |db1.log| {
          assert IsOf(keys, c.ds, n, db1.log[q]) && after.log[q] == db1.log[q];
        }
      }
    }
  }

  lemma {:induction false} PlanLogs(env: Env, keys: seq<Key>, db: Db, plan: seq<Setting>, turns: seq<seq<Turn>>)
    requires SameChain(env, keys, plan) && Worlds(keys, plan, turns) && db.log == []
    ensures forall e :: e in RunPlan(env, db, plan, turns).log ==> FromPlan(keys, plan, e)
  {
    hide RunChain, FromChain, ChainOf, LeavesAlone;
    if |plan| > 0 {
      var n := |plan| - 1;
      var mid, after := RunPlan(env, db, plan[..n], turns[..n]), RunPlan(env, db, plan, turns);
      PlanLogs(env, keys, db, plan[..n], turns[..n]);
      assert plan[n].ds[0..] == plan[n].ds && turns[n][0..] == turns[n];
      assert |turns[n]| == |plan[n].ds|;
      ChainLogs(env, keys, mid, plan[n], turns[n], 0);
      forall q | 0 <= q < |after.log| ensures FromPlan(keys, plan, after.log[q]) {
        if q < |mid.log| {
          assert mid.log[q] in mid.log;
          var k :| 0 <= k < n && FromChain(keys, plan[..n][k].ds, after.log[q]);
          assert FromChain(keys, plan[k].ds, after.log[q]);
        } else {
          assert FromChain(keys, plan[n].ds, after.log[q]);
        }
      }
    }
  }

  // ------------------------------------------------------------------
  // Declared effects, one after the other
  // ------------------------------------------------------------------

  lemma {:induction false} DeclaredAt(log: seq<Entry>, q: nat)
    requires q < |log| && IsDeclared(log[q])
    ensures |DeclaredKeys(log[..q])| < |DeclaredKeys(log)|
    ensures DeclaredKeys(log[..q]) <= DeclaredKeys(log)
    ensures DeclaredKeys(log)[|DeclaredKeys(log[..q])|] == log[q].key
  {
    DeclaredCount(log, q);
  }

  lemma {:induction false} LastDeclared(log: seq<Entry>) returns (p: nat)
    requires DeclaredKeys(log) != []
    ensures p < |log| && IsDeclared(log[p]) && log[p].key == DeclaredKeys(log)[|DeclaredKeys(log)| - 1]
  {
    p := |log| - 1;
    if !IsDeclared(log[p]) {
      p := LastDeclared(log[..p]);
    }
  }

  lemma {:induction false} FindDeclared(log: seq<Entry>, n: nat) returns (q: nat)
    requires n < |DeclaredKeys(log)|
    ensures q < |log| && IsDeclared(log[q]) && log[q].key == DeclaredKeys(log)[n]
  {
    q := |log| - 1;
    if n < |DeclaredKeys(log[..q])| {
      q := FindDeclared(log[..q], n);
    }
  }

  /** In an ordered log the declared effect before this one is that of the previous decision. */
  lemma {:induction false} PreviousIsDeclared(keys: seq<Key>, log: seq<Entry>, q: nat, i: nat) returns (p: nat)
    requires InOrder(keys, log) && Distinct(keys) && 0 < i < |keys|
    requires q < |log| && IsDeclared(log[q]) && log[q].key == Some(keys[i])
    ensures p < q && IsDeclared(log[p]) && log[p].key == Some(keys[i - 1])
  {
    hide DeclaredKeys;
    var n := |DeclaredKeys(log[..q])|;
    DeclaredAt(log, q);
    assert DeclaredKeys(log)[n] == Options(keys)[n] == Some(keys[n]);
    assert n == i;
    p := LastDeclared(log[..q]);
    assert DeclaredKeys(log[..q])[n - 1] == DeclaredKeys(log)[n - 1] == Options(keys)[n - 1];
  }

  // ------------------------------------------------------------------
  // The theorem
  // ------------------------------------------------------------------

  /** Every test file that landed lies on a branch that an earlier step created. */
  ghost predicate FilesHaveTheirBranch(log: seq<Entry>) {
    forall q :: 0 <= q < |log| && IsDeclared(log[q]) && log[q].sent.action == "update_file" ==>
      exists p :: 0 <= p < q && IsDeclared(log[p]) && log[p].sent.action == "create_branch"
                  && Field(log[p].sent.payload, "ref") == "refs/heads/" + Field(log[q].sent.payload, "branch")
  }

  /** Every pull request that was opened proposes a branch that holds its test file. */
  ghost predicate RequestsHaveTheirFile(log: seq<Entry>) {
    forall q :: 0 <= q < |log| && IsDeclared(log[q]) && log[q].sent.action == "open_pr" ==>
      exists p :: 0 <= p < q && IsDeclared(log[p]) && log[p].sent.action == "update_file"
                  && Field(log[p].sent.payload, "branch") == Field(log[q].sent.payload, "head")
  }

  ghost predicate RunsOf(a: Artifact, runs: set<TestRun>) {
    a.repo != "" && forall r :: r in runs ==> SameTest(a, r.artifact)
  }

  function MenuFor(runs: set<TestRun>): set<Setting> {
    set r | r in runs :: SettingOf(r)
  }

  /** The entry is the i-th step of some run. */
  ghost predicate IsStep(sha256: string -> string, a: Artifact, runs: set<TestRun>, e: Entry, r: TestRun, i: nat)
    requires a.repo != ""
  {
    r in runs && IsOf(KeysOfTest(sha256, a), BuildDecisions(r.artifact, r.evidence), i, e)
  }

  lemma EntryIsAStep(sha256: string -> string, a: Artifact, runs: set<TestRun>, plan: seq<Setting>, e: Entry)
    returns (r: TestRun, i: nat)
    requires RunsOf(a, runs) && DrawnFrom(MenuFor(runs), plan) && FromPlan(KeysOfTest(sha256, a), plan, e)
    ensures IsStep(sha256, a, runs, e, r, i)
  {
    hide BuildDecisions, KeysOfTest, IsOf;
    var k :| 0 <= k < |plan| && FromChain(KeysOfTest(sha256, a), plan[k].ds, e);
    assert plan[k] in MenuFor(runs);
    r :| r in runs && SettingOf(r) == plan[k];
    i :| IsOf(KeysOfTest(sha256, a), plan[k].ds, i, e);
  }

  /** Whose step an entry is can be told from what was sent. */
  lemma StepTells(sha256: string -> string, a: Artifact, runs: set<TestRun>, e: Entry, r: TestRun, i: nat)
    requires RunsOf(a, runs) && IsStep(sha256, a, runs, e, r, i)
    ensures i < 3 && e.key == Some(KeysOfTest(sha256, a)[i])
    ensures !e.downgraded ==> e.sent.action == ["create_branch", "update_file", "open_pr"][i]
    ensures e.downgraded ==> e.sent.action == "comment"
    ensures e.sent.action == "create_branch" ==> Field(e.sent.payload, "ref") == "refs/heads/" + a.branch
    ensures e.sent.action == "update_file" ==> Field(e.sent.payload, "branch") == a.branch
    ensures e.sent.action == "open_pr" ==> Field(e.sent.payload, "head") == a.branch
    ensures forall branch :: Writes(e.sent, branch) ==> branch == a.branch
  {
    hide BuildDecisions, KeysOfTest;
    ChainProposesTheTest(r.artifact, r.evidence);
  }

  lemma {:induction false} OrderedLogsAreSound(sha256: string -> string, a: Artifact, runs: set<TestRun>,
                                               plan: seq<Setting>, log: seq<Entry>)
    requires RunsOf(a, runs) && DrawnFrom(MenuFor(runs), plan)
    requires forall e :: e in log ==> FromPlan(KeysOfTest(sha256, a), plan, e)
    requires InOrder(KeysOfTest(sha256, a), log)
    ensures FilesHaveTheirBranch(log) && RequestsHaveTheirFile(log)
  {
    hide KeysOfTest, FromPlan, InOrder, MenuFor, IsStep;
    forall q | 0 <= q < |log| && IsDeclared(log[q]) && log[q].sent.action in ["update_file", "open_pr"]
      ensures exists p :: 0 <= p < q && IsDeclared(log[p]) && Precedes(log[p].sent, log[q].sent)
    {
      var p := StepBefore(sha256, a, runs, plan, log, q);
    }
  }

  /** What the step before has to be: the branch of a file, the file of a pull request. */
  predicate Precedes(d: Decision, d': Decision) {
    if d'.action == "update_file" then
      d.action == "create_branch" && Field(d.payload, "ref") == "refs/heads/" + Field(d'.payload, "branch")
    else d.action == "update_file" && Field(d.payload, "branch") == Field(d'.payload, "head")
  }

  lemma {:induction false} StepBefore(sha256: string -> string, a: Artifact, runs: set<TestRun>,
                                      plan: seq<Setting>, log: seq<Entry>, q: nat)
    returns (p: nat)
    requires RunsOf(a, runs) && DrawnFrom(MenuFor(runs), plan)
    requires forall e :: e in log ==> FromPlan(KeysOfTest(sha256, a), plan, e)
    requires InOrder(KeysOfTest(sha256, a), log)
    requires q < |log| && IsDeclared(log[q]) && log[q].sent.action in ["update_file", "open_pr"]
    ensures p < q && IsDeclared(log[p]) && Precedes(log[p].sent, log[q].sent)
  {
    hide KeysOfTest, FromPlan, InOrder, MenuFor, IsStep;
    var keys := KeysOfTest(sha256, a);
    KeysDiffer(sha256, a);
    KeyActions(sha256, a);
    assert log[q] in log;
    var r, i := EntryIsAStep(sha256, a, runs, plan, log[q]);
    StepTells(sha256, a, runs, log[q], r, i);
    p := PreviousIsDeclared(keys, log, q, i);
    assert log[p] in log;
    var r', i' := EntryIsAStep(sha256, a, runs, plan, log[p]);
    StepTells(sha256, a, runs, log[p], r', i');
    assert i' == i - 1;
  }

  /** A commenting run, and then one that takes the steps: the first step never takes effect. */
  lemma {:induction false} StepsWithoutTheFirst(sha256: string -> string, render: (Decision, Reason) -> string,
                                                a: Artifact, db: Db, r: TestRun, r': TestRun)
    returns (turns: seq<seq<Turn>>)
    requires a.repo != "" && SameTest(a, r.artifact) && SameTest(a, r'.artifact)
    requires OnlyComments(r) && TakesSteps(r')
    requires db.log == [] && Done(db, KeysOfTest(sha256, a), 0)
    ensures var env, keys := SignatureEnv(sha256, DEFAULT_THRESHOLDS, render), KeysOfTest(sha256, a);
            var plan := [SettingOf(r), SettingOf(r')];
            && SameChain(env, keys, plan) && Worlds(keys, plan, turns)
            && DeclaredKeys(RunPlan(env, db, plan, turns).log) == Options(keys)[1..]
  {
    hide BuildDecisions, KeysOfTest, DeclaredKeys, RunPlan, OnlyComments, TakesSteps, Runnable, Done, Comments,
         Declares;
    var env, keys := SignatureEnv(sha256, DEFAULT_THRESHOLDS, render), KeysOfTest(sha256, a);
    var c, c' := SettingOf(r), SettingOf(r');
    SameKeys(sha256, render, a, r);
    SameKeys(sha256, render, a, r');
    RunsRoute(sha256, render, r, 0);
    forall i: nat | i < 3 ensures |c'.ds| == 3 && c'.ds[i].action in env.thresholds && Declares(env, c', i) {
      RunsRoute(sha256, render, r', i);
    }
    FirstIsSkipped(env, keys, db, c, c');
    QuietTurns(keys, EasyTurns(3));
    turns := [EasyTurns(3), EasyTurns(3)];
  }

  /** If only the first step never took effect, the file lies on a branch that nobody created. */
  lemma {:induction false} NoBranchForTheFile(sha256: string -> string, a: Artifact, runs: set<TestRun>,
                                              plan: seq<Setting>, log: seq<Entry>)
    requires RunsOf(a, runs) && DrawnFrom(MenuFor(runs), plan)
    requires forall e :: e in log ==> FromPlan(KeysOfTest(sha256, a), plan, e)
    requires DeclaredKeys(log) == Options(KeysOfTest(sha256, a))[1..]
    ensures !FilesHaveTheirBranch(log)
  {
    hide KeysOfTest, DeclaredKeys, FromPlan, MenuFor, IsStep;
    var keys := KeysOfTest(sha256, a);
    KeysDiffer(sha256, a);
    var q := FindDeclared(log, 0);
    assert log[q] in log && Options(keys)[1..][0] == Options(keys)[1] == Some(keys[1]);
    var r, i := EntryIsAStep(sha256, a, runs, plan, log[q]);
    StepTells(sha256, a, runs, log[q], r, i);
    assert i == 1;
    forall p | 0 <= p < |log| && IsDeclared(log[p]) ensures log[p].sent.action != "create_branch" {
      assert log[p] in log;
      var r', i' := EntryIsAStep(sha256, a, runs, plan, log[p]);
      StepTells(sha256, a, runs, log[p], r', i');
      DeclaredAt(log, p);
      var n := |DeclaredKeys(log[..p])|;
      assert Options(keys)[1..][n] == Options(keys)[n + 1] == Some(keys[n + 1]);
    }
  }

  /**
    When does a test file only ever land on a branch the job created, and a pull request only
    ever propose a branch that holds its file? Over all histories drawn from a set of runs
    for one test, under all replies: exactly when the set does not hold both a run that only
    comments (COMMENT mode, or a confidence below 0.9) and a FULL run at or above 0.9.
   */
  lemma FilesHaveTheirBranchExactlyWhen(sha256: string -> string, render: (Decision, Reason) -> string, a: Artifact,
                                        db: Db, runs: set<TestRun>)
    requires RunsOf(a, runs) && db.log == [] && Done(db, KeysOfTest(sha256, a), 0)
    ensures var env, keys := SignatureEnv(sha256, DEFAULT_THRESHOLDS, render), KeysOfTest(sha256, a);
            (forall plan, turns :: DrawnFrom(MenuFor(runs), plan) && Worlds(keys, plan, turns) ==>
               var log := RunPlan(env, db, plan, turns).log; FilesHaveTheirBranch(log) && RequestsHaveTheirFile(log))
            <==> !(exists r, r' :: r in runs && r' in runs && OnlyComments(r) && TakesSteps(r'))
  {
    hide RunPlan, InOrder, ChainOf, BuildDecisions, KeysOfTest, OnlyComments, TakesSteps, LeavesAlone,
         FilesHaveTheirBranch, RequestsHaveTheirFile, DeclaredKeys, FromPlan;
    var env, keys := SignatureEnv(sha256, DEFAULT_THRESHOLDS, render), KeysOfTest(sha256, a);
    if r, r' :| r in runs && r' in runs && OnlyComments(r) && TakesSteps(r') {
      var plan := [SettingOf(r), SettingOf(r')];
      var turns := StepsWithoutTheFirst(sha256, render, a, db, r, r');
      PlanLogs(env, keys, db, plan, turns);
      NoBranchForTheFile(sha256, a, runs, plan, RunPlan(env, db, plan, turns).log);
    } else {
      StepsComeInOrderExactlyWhen(sha256, render, a, db, runs);
      forall plan, turns | DrawnFrom(MenuFor(runs), plan) && Worlds(keys, plan, turns)
        ensures var log := RunPlan(env, db, plan, turns).log; FilesHaveTheirBranch(log) && RequestsHaveTheirFile(log)
      {
        PlanIsChain(sha256, render, a, runs, plan);
        PlanLogs(env, keys, db, plan, turns);
        OrderedLogsAreSound(sha256, a, runs, plan, RunPlan(env, db, plan, turns).log);
      }
    }
  }

  lemma PlanIsChain(sha256: string -> string, render: (Decision, Reason) -> string, a: Artifact, runs: set<TestRun>,
                    plan: seq<Setting>)
    requires RunsOf(a, runs) && DrawnFrom(MenuFor(runs), plan)
    ensures SameChain(SignatureEnv(sha256, DEFAULT_THRESHOLDS, render), KeysOfTest(sha256, a), plan)
  {
    hide BuildDecisions, KeysOfTest, ChainOf;
    forall k | 0 <= k < |plan|
      ensures ChainOf(SignatureEnv(sha256, DEFAULT_THRESHOLDS, render), KeysOfTest(sha256, a), plan[k])
    {
      assert plan[k] in MenuFor(runs);
      var r :| r in runs && SettingOf(r) == plan[k];
      SameKeys(sha256, render, a, r);
    }
  }

  /** Whatever the settings and replies, only the test's own branch is ever created or written. */
  lemma OnlyItsBranchIsWritten(sha256: string -> string, render: (Decision, Reason) -> string, a: Artifact, db: Db,
                               runs: set<TestRun>, plan: seq<Setting>, turns: seq<seq<Turn>>)
    requires RunsOf(a, runs) && DrawnFrom(MenuFor(runs), plan) && db.log == []
    requires Worlds(KeysOfTest(sha256, a), plan, turns)
    ensures var log := RunPlan(SignatureEnv(sha256, DEFAULT_THRESHOLDS, render), db, plan, turns).log;
            forall e, branch :: e in log && Writes(e.sent, branch) ==> branch == a.branch
  {
    hide BuildDecisions, KeysOfTest, RunPlan, FromPlan, Writes, IsStep;
    var env, keys := SignatureEnv(sha256, DEFAULT_THRESHOLDS, render), KeysOfTest(sha256, a);
    PlanIsChain(sha256, render, a, runs, plan);
    PlanLogs(env, keys, db, plan, turns);
    forall e, branch | e in RunPlan(env, db, plan, turns).log && Writes(e.sent, branch) ensures branch == a.branch {
      var r, i := EntryIsAStep(sha256, a, runs, plan, e);
      StepTells(sha256, a, runs, e, r, i);
    }
  }
}
