/**
  `gita.agents.test_generator.bridge.build_test_generation_decisions`: the chain the
  test-generation job executes, and what the chain theorems say about it.
 */
module TestGen {
  import opened Common
  import opened Decisions
  import opened Gate
  import opened Chain
  import opened Drift
  import Signature

  /** `branch` is what `compute_branch_name` returns; messages, titles, bodies and evidence are rendered texts. */
  datatype Artifact = Artifact(repo: string, baseBranch: string, baseSha: string, branch: string, testPath: string,
                               testContent: string, existingSha: string, message: string, title: string, body: string,
                               fallbackIssue: Option<int>, confidence: real)

  datatype Evidence = Evidence(branch: seq<string>, file: seq<string>, pr: seq<string>)

  function BuildDecisions(a: Artifact, e: Evidence): seq<Decision> {
    var target := Target(Some(a.repo), None, a.fallbackIssue);
    var file := map["path" := a.testPath, "content" := a.testContent, "message" := a.message, "branch" := a.branch];
    [Decision("create_branch", target,
              Payload(map["ref" := "refs/heads/" + a.branch, "base_sha" := a.baseSha], [], []), e.branch, a.confidence),
     Decision("update_file", target,
              Payload(if a.existingSha == "" then file else file["sha" := a.existingSha], [], []),
              e.file, a.confidence),
     Decision("open_pr", target,
              Payload(map["title" := a.title, "body" := a.body, "head" := a.branch, "base" := a.baseBranch], [], []),
              e.pr, a.confidence)]
  }

  /** A commit on this branch, or the creation of it, by a decision of this kind. */
  predicate Writes(d: Decision, branch: string) {
    || (d.action == "update_file" && Field(d.payload, "branch") == branch)
    || (d.action == "create_branch" && Field(d.payload, "ref") == "refs/heads/" + branch)
  }

  /** Three decisions that put this test on its own branch and propose to merge it into the base. */
  ghost predicate ProposesTest(a: Artifact, create: Decision, update: Decision, open: Decision) {
    && create.action == "create_branch" && update.action == "update_file" && open.action == "open_pr"
    && (forall d :: d in [create, update, open] ==>
          d.target == Target(Some(a.repo), None, a.fallbackIssue) && d.confidence == a.confidence)
    && Writes(create, Field(update.payload, "branch"))
    && Field(create.payload, "base_sha") == a.baseSha
    && Field(update.payload, "branch") == a.branch == Field(open.payload, "head")
    && Field(update.payload, "path") == a.testPath && Field(update.payload, "content") == a.testContent
    && Field(update.payload, "message") == a.message
    && ("sha" in update.payload.fields <==> a.existingSha != "") && Field(update.payload, "sha") == a.existingSha
    && Field(open.payload, "base") == a.baseBranch
    && Field(open.payload, "title") == a.title && Field(open.payload, "body") == a.body
  }

  /** The chain puts the test on its branch, and touches no other. */
  lemma ChainProposesTheTest(a: Artifact, e: Evidence)
    ensures var ds := BuildDecisions(a, e);
            && |ds| == 3 && ProposesTest(a, ds[0], ds[1], ds[2])
            && forall i, branch :: 0 <= i < 3 && Writes(ds[i], branch) ==> branch == a.branch
  {
    var ds := BuildDecisions(a, e);
    forall i, branch | 0 <= i < 3 && Writes(ds[i], branch) ensures branch == a.branch {
      assert ("refs/heads/" + branch)[11..] == branch && ("refs/heads/" + a.branch)[11..] == a.branch;
    }
  }

  /** The three decisions have thresholds and three different keys. */
  lemma ChainIsRunnable(sha256: string -> string, render: (Decision, Reason) -> string, a: Artifact, e: Evidence)
    requires a.repo != ""
    ensures Runnable(SignatureEnv(sha256, DEFAULT_THRESHOLDS, render), BuildDecisions(a, e))
  {
    hide Signature.Material, Signature.Repo;
    assert Signature.Repo(BuildDecisions(a, e)[0]).Success? by { RepoIsThere(BuildDecisions(a, e)[0]); }
    assert Signature.Repo(BuildDecisions(a, e)[1]).Success? by { RepoIsThere(BuildDecisions(a, e)[1]); }
    assert Signature.Repo(BuildDecisions(a, e)[2]).Success? by { RepoIsThere(BuildDecisions(a, e)[2]); }
  }

  lemma RepoIsThere(d: Decision)
    requires d.target.repo.Some? && d.target.repo.value != ""
    ensures Signature.Repo(d).Success?
  {}

  // ------------------------------------------------------------------
  // Re-running the job
  // ------------------------------------------------------------------

  /** One run of the job for a test: wording, existing blob and confidence are its own. */
  datatype TestRun = TestRun(artifact: Artifact, evidence: Evidence, mode: WriteMode)

  /** The same test on the same branch. */
  ghost predicate SameTest(a: Artifact, b: Artifact) {
    && a.repo == b.repo && a.baseBranch == b.baseBranch && a.baseSha == b.baseSha && a.branch == b.branch
    && a.testPath == b.testPath && a.testContent == b.testContent
  }

  function SettingOf(r: TestRun): Setting { Setting(BuildDecisions(r.artifact, r.evidence), r.mode) }

  function KeysOfTest(sha256: string -> string, a: Artifact): (keys: seq<Key>)
    requires a.repo != ""
    ensures |keys| == 3
  {
    var ds := BuildDecisions(a, Evidence([], [], []));
    assert forall i :: 0 <= i < 3 ==> ds[i].target.repo == Some(a.repo) && Signature.HasShape(ds[i].action);
    seq(3, i requires 0 <= i < 3 => SignatureKey(sha256, ds[i], AGENT).value)
  }

  lemma SameKeys(sha256: string -> string, render: (Decision, Reason) -> string, a: Artifact, r: TestRun)
    requires a.repo != "" && SameTest(a, r.artifact)
    ensures ChainOf(SignatureEnv(sha256, DEFAULT_THRESHOLDS, render), KeysOfTest(sha256, a), SettingOf(r))
  {
    hide Signature.Repo;
    var env, keys := SignatureEnv(sha256, DEFAULT_THRESHOLDS, render), KeysOfTest(sha256, a);
    ChainIsRunnable(sha256, render, r.artifact, r.evidence);
    var ds, ds' := BuildDecisions(a, Evidence([], [], [])), BuildDecisions(r.artifact, r.evidence);
    forall i | 0 <= i < 3 ensures KeyAt(env, ds', i) == keys[i] {
      SameTail(sha256, a, r, i);
      SameRepo(ds[i], ds'[i]);
    }
  }

  lemma SameTail(sha256: string -> string, a: Artifact, r: TestRun, i: nat)
    requires i < 3 && SameTest(a, r.artifact)
    ensures var d, d' := BuildDecisions(a, Evidence([], [], []))[i], BuildDecisions(r.artifact, r.evidence)[i];
            d.action == d'.action && Signature.HasShape(d.action)
            && Signature.Tail(d, sha256) == Signature.Tail(d', sha256)
  {}

  lemma SameRepo(d: Decision, d': Decision)
    requires d.target.repo == d'.target.repo
    ensures Signature.Repo(d) == Signature.Repo(d')
  {}

  lemma KeysDiffer(sha256: string -> string, a: Artifact)
    requires a.repo != ""
    ensures Distinct(KeysOfTest(sha256, a))
  {
    KeyActions(sha256, a);
    hide KeysOfTest;
  }

  /** A run that turns every step into a comment. */
  predicate OnlyComments(r: TestRun) { r.mode == CommentOnly || r.artifact.confidence < 0.9 }

  /** A run that takes the steps themselves. */
  predicate TakesSteps(r: TestRun) { r.mode == Full && r.artifact.confidence >= 0.9 }

  lemma RunsRoute(sha256: string -> string, render: (Decision, Reason) -> string, r: TestRun, i: nat)
    requires i < 3
    ensures var env := SignatureEnv(sha256, DEFAULT_THRESHOLDS, render);
            && SettingOf(r).ds[i].action in env.thresholds
            && (Comments(env, SettingOf(r), i) <==> OnlyComments(r))
            && (Declares(env, SettingOf(r), i) <==> TakesSteps(r))
  {
    assert DEFAULT_THRESHOLDS[SettingOf(r).ds[i].action] == 0.9 && SettingOf(r).ds[i].action != "comment";
  }

  /**
    Is a test never written onto a branch, nor a pull request opened, before the step that
    makes it possible? Over all histories drawn from a set of runs for one test, under all
    replies, create_branch, update_file and open_pr take effect in that order, cut off
    somewhere, if and only if the set does not hold both a run that only comments (COMMENT
    mode, or a confidence below 0.9) and a FULL run at or above 0.9.
   */
  lemma StepsComeInOrderExactlyWhen(sha256: string -> string, render: (Decision, Reason) -> string, a: Artifact,
                                    db: Db, runs: set<TestRun>)
    requires a.repo != "" && forall r :: r in runs ==> SameTest(a, r.artifact)
    requires db.log == [] && Done(db, KeysOfTest(sha256, a), 0)
    ensures var env, keys := SignatureEnv(sha256, DEFAULT_THRESHOLDS, render), KeysOfTest(sha256, a);
            (forall k :: 0 <= k < |keys| ==> keys[k].action == ["create_branch", "update_file", "open_pr"][k]) &&
            var menu := set r | r in runs :: SettingOf(r);
            MenuOf(env, keys, menu) &&
            ((forall plan, turns :: DrawnFrom(menu, plan) && Worlds(keys, plan, turns) ==>
                InOrder(keys, RunPlan(env, db, plan, turns).log))
             <==> !(exists r, r' :: r in runs && r' in runs && OnlyComments(r) && TakesSteps(r')))
  {
    hide RunPlan, InOrder, ChainOf, BuildDecisions, OnlyComments, TakesSteps, Comments, Declares, Worlds;
    var env, keys := SignatureEnv(sha256, DEFAULT_THRESHOLDS, render), KeysOfTest(sha256, a);
    var menu := set r | r in runs :: SettingOf(r);
    forall r | r in runs ensures ChainOf(env, keys, SettingOf(r)) { SameKeys(sha256, render, a, r); }
    KeyActions(sha256, a);
    KeysDiffer(sha256, a);
    MenuStaysInOrderExactlyWhen(env, keys, db, menu);
    if r, r' :| r in runs && r' in runs && OnlyComments(r) && TakesSteps(r') {
      RunsRoute(sha256, render, r, 0);
      RunsRoute(sha256, render, r', 1);
      assert MaySkip(env, keys, menu, SettingOf(r), SettingOf(r'), 0);
    } else {
      forall c, c', i: nat ensures !MaySkip(env, keys, menu, c, c', i) {
        if MaySkip(env, keys, menu, c, c', i) {
          var r :| r in runs && SettingOf(r) == c;
          var r' :| r' in runs && SettingOf(r') == c';
          RunsRoute(sha256, render, r, i);
          RunsRoute(sha256, render, r', i + 1);
        }
      }
    }
  }

  lemma KeyActions(sha256: string -> string, a: Artifact)
    requires a.repo != ""
    ensures forall k :: 0 <= k < 3 ==> KeysOfTest(sha256, a)[k].action == ["create_branch", "update_file", "open_pr"][k]
  {
    hide Signature.Repo, Signature.Tail;
    var ds := BuildDecisions(a, Evidence([], [], []));
    forall i | 0 <= i < 3 ensures KeysOfTest(sha256, a)[i].action == ds[i].action {
      assert ds[i].target.repo == Some(a.repo) && Signature.HasShape(ds[i].action);
      RepoIsThere(ds[i]);
    }
  }
}
