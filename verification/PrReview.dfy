/**
  The PR-review job of `gita.jobs.runners`: the head-SHA skip, the review comment, and the
  evidence line that makes the next job skip.
 */
module PrReview {
  import opened Common
  import opened Decisions
  import opened Gate
  import opened Names
  import opened Text

  const AGENT := "pr_reviewer"

  /** One job; `headSha` is "" when unknown. The review itself is whatever the model wrote. */
  datatype Job = Job(repo: string, pr: int, headSha: string, body: string, evidence: seq<string>,
                     confidence: real, mode: WriteMode, reply: Reply)

  function ShaTag(sha: string): string { "head_sha:" + sha }

  /** `_check_sha_already_reviewed`. */
  predicate AlreadyReviewed(db: Db, repo: string, sha: string) {
    exists k :: k in db.committed && k.repo == Lower(Strip(repo)) && k.agent == AGENT
                && ShaTag(sha) in db.committed[k].evidence
  }

  function ReviewDecision(job: Job): Decision {
    Decision("comment", Target(Some(job.repo), Some(job.pr), None), Payload(map["body" := job.body], [], []),
             job.evidence + (if job.headSha != "" then [ShaTag(job.headSha)] else []), job.confidence)
  }

  predicate Skipped(db: Db, job: Job) {
    job.headSha != "" && AlreadyReviewed(db, job.repo, job.headSha)
  }

  /** `run_pr_review_job` from the skip check to the commit. */
  function RunJob(env: Env, db: Db, job: Job): Db {
    if Skipped(db, job) then db
    else
      var client := if job.mode == Shadow then None else Some(job.reply);
      var (after, r) := ExecuteDecision(env, db, ReviewDecision(job), job.mode, client, true, AGENT, map[]);
      if r.Success? then Commit(after) else Rollback(after)
  }

  function RunJobs(env: Env, db: Db, jobs: seq<Job>): Db {
    if |jobs| == 0 then db
    else RunJob(env, RunJobs(env, db, jobs[..|jobs| - 1]), jobs[|jobs| - 1])
  }

  /** The job's comment reached the client and the client accepted it. */
  predicate Posted(env: Env, db: Db, job: Job) {
    var after := RunJob(env, db, job);
    |after.log| > |db.log| && after.log[|after.log| - 1].kind == Landed
  }

  /** How many of the jobs posted a review of this repository, however its name is spelled, at this SHA. */
  ghost function Posts(env: Env, db: Db, jobs: seq<Job>, repo: string, sha: string): nat {
    if |jobs| == 0 then 0
    else
      var front, last := jobs[..|jobs| - 1], jobs[|jobs| - 1];
      Posts(env, db, front, repo, sha)
      + (if SameName(last.repo, repo) && last.headSha == sha && Posted(env, RunJobs(env, db, front), last)
         then 1 else 0)
  }

  /** Keys as the program computes them carry the normalised repo and the agent. */
  ghost predicate Scoped(env: Env) {
    && "comment" in env.thresholds
    && (forall d: Decision ::
          d.action == "comment" && d.target.repo.Some? && d.target.repo.value != "" ==>
            var k := env.keyOf(d, AGENT);
            k.Success? && k.value.repo == Lower(Strip(d.target.repo.value)) && k.value.agent == AGENT)
  }

  lemma SignatureEnvIsScoped(sha256: string -> string, thresholds: map<string, real>,
                             render: (Decision, Reason) -> string)
    requires "comment" in thresholds
    ensures Scoped(SignatureEnv(sha256, thresholds, render))
  {}

  /** The record a post leaves. */
  lemma PostedRow(env: Env, db: Db, job: Job)
    requires Scoped(env) && db.pending == map[] && job.repo != "" && !Skipped(db, job)
    ensures var d := ReviewDecision(job);
            var client := if job.mode == Shadow then None else Some(job.reply);
            && d.action in env.thresholds && KeyOf(env, d, AGENT).Success?
            && var key, after := KeyOf(env, d, AGENT).value, RunJob(env, db, job);
            && key.repo == Lower(Strip(job.repo)) && key.agent == AGENT
            && after.pending == map[]
            && (if !Visible(db, key) && (job.mode == Shadow || job.reply.Returns?) then
                  after.committed == db.committed[key := RowFor(d, Attempt(env, d, job.mode, client))]
                else after.committed == db.committed)
            && (Posted(env, db, job) ==> !Visible(db, key) && job.mode != Shadow && job.reply.Returns?)
  {
    hide ExecuteDecision, RowFor, ReviewDecision;
    var d := ReviewDecision(job);
    ReviewIsKeyed(env, job);
    var client := if job.mode == Shadow then None else Some(job.reply);
    OneCall(env, db, d, job.mode, client, AGENT);
    assert db.committed + db.pending == db.committed;
  }

  lemma ReviewIsKeyed(env: Env, job: Job)
    requires Scoped(env) && job.repo != ""
    ensures var d := ReviewDecision(job);
            && d.action in env.thresholds && KeyOf(env, d, AGENT).Success?
            && KeyOf(env, d, AGENT).value.repo == Lower(Strip(job.repo)) && KeyOf(env, d, AGENT).value.agent == AGENT
  {}

  lemma RowIsTagged(job: Job, r: DecisionResult)
    requires job.headSha != ""
    ensures ShaTag(job.headSha) in RowFor(ReviewDecision(job), r).evidence
  {
    var evidence := RowFor(ReviewDecision(job), r).evidence;
    assert evidence[|evidence| - 1] == ShaTag(job.headSha);
  }

  /** One job keeps every row, and a post leaves its SHA marked. */
  lemma JobStep(env: Env, db: Db, job: Job)
    requires Scoped(env) && db.pending == map[] && job.repo != ""
    ensures var after := RunJob(env, db, job);
            && after.pending == map[]
            && (forall k :: k in db.committed ==> k in after.committed && after.committed[k] == db.committed[k])
            && (Posted(env, db, job) && job.headSha != "" ==>
                  !AlreadyReviewed(db, job.repo, job.headSha) && AlreadyReviewed(after, job.repo, job.headSha))
            && (job.mode != Shadow && job.reply.Raises? ==> after.committed == db.committed)
  {
    hide ExecuteDecision, Attempt, RowFor, ReviewDecision, Scoped;
    if !Skipped(db, job) {
      PostedRow(env, db, job);
      var d, client := ReviewDecision(job), if job.mode == Shadow then None else Some(job.reply);
      var key, after := KeyOf(env, d, AGENT).value, RunJob(env, db, job);
      if job.headSha != "" && Posted(env, db, job) {
        RowIsTagged(job, Attempt(env, d, job.mode, client));
        assert key in after.committed && ShaTag(job.headSha) in after.committed[key].evidence;
      }
    }
  }

  /**
    Where a job's review goes: one comment at most is handed over, to the job's own pull
    request, in the words of the review unless the gate replaces them, and with the reviewed
    commit as last evidence.
   */
  lemma ReviewGoesToItsRequest(env: Env, db: Db, job: Job)
    requires Scoped(env) && db.pending == map[] && job.repo != ""
    ensures var after := RunJob(env, db, job);
            && (Skipped(db, job) ==> after == db)
            && |after.log| <= |db.log| + 1 && after.log[..|db.log|] == db.log
            && (|after.log| > |db.log| ==>
                  var e := after.log[|db.log|];
                  && e.sent.action == "comment" && e.sent.target.repo == Some(job.repo)
                  && e.sent.target.issue == Some(job.pr)
                  && (!e.downgraded ==>
                        Field(e.sent.payload, "body") == job.body && e.sent.confidence == job.confidence)
                  && (e.downgraded <==> job.confidence < env.thresholds["comment"])
                  && e.sent.evidence == job.evidence + (if job.headSha == "" then [] else ["head_sha:" + job.headSha])
                  && (e.kind == Logged <==> job.mode == Shadow)
                  && (e.kind == Landed <==> job.mode != Shadow && job.reply.Returns?))
  {
    hide ExecuteDecision, Skipped, KeyOf;
    if !Skipped(db, job) {
      var client := if job.mode == Shadow then None else Some(job.reply);
      LoggedExactly(env, db, ReviewDecision(job), job.mode, client, true, AGENT, map[]);
    }
  }

  /** A row of this agent, for this repository, that names this commit among its evidence. */
  ghost predicate Marks(key: Key, row: Row, repo: string, sha: string) {
    && key.agent == "pr_reviewer" && key.repo == repo
    && exists i :: 0 <= i < |row.evidence| && row.evidence[i] == "head_sha:" + sha
  }

  /**
    When a job posts: it is live, its client accepts, nothing equal was recorded before, and
    no row of the reviewer for that repository names its head SHA. Rows of other agents, for
    other repositories and for other commits do not keep it from posting.
   */
  lemma PostsExactlyWhen(env: Env, db: Db, job: Job)
    requires Scoped(env) && db.pending == map[] && job.repo != ""
    ensures KeyOf(env, ReviewDecision(job), AGENT).Success?
    ensures var key := KeyOf(env, ReviewDecision(job), AGENT).value;
            Posted(env, db, job)
            <==> && job.mode != Shadow && job.reply.Returns? && key !in db.committed
                 && (job.headSha != "" ==>
                       forall k :: k in db.committed ==> !Marks(k, db.committed[k], key.repo, job.headSha))
  {
    hide ExecuteDecision, Posted, ReviewDecision;
    ReviewIsKeyed(env, job);
    PostsUnlessSkipped(env, db, job);
    forall k | k in db.committed
      ensures Marks(k, db.committed[k], Lower(Strip(job.repo)), job.headSha)
         <==> k.repo == Lower(Strip(job.repo)) && k.agent == AGENT && ShaTag(job.headSha) in db.committed[k].evidence
    {}
  }

  lemma PostsUnlessSkipped(env: Env, db: Db, job: Job)
    requires Scoped(env) && db.pending == map[] && job.repo != ""
    ensures KeyOf(env, ReviewDecision(job), AGENT).Success?
    ensures var key := KeyOf(env, ReviewDecision(job), AGENT).value;
            Posted(env, db, job)
            <==> !Skipped(db, job) && job.mode != Shadow && job.reply.Returns? && key !in db.committed
  {
    hide ExecuteDecision, Skipped, ReviewDecision;
    ReviewIsKeyed(env, job);
    var client := if job.mode == Shadow then None else Some(job.reply);
    LoggedExactly(env, db, ReviewDecision(job), job.mode, client, true, AGENT, map[]);
  }

  lemma {:induction false} ScopedReviews(env: Env, db: Db, jobs: seq<Job>, repo: string, sha: string)
    requires Scoped(env) && db.pending == map[] && sha != ""
    requires forall i :: 0 <= i < |jobs| ==> jobs[i].repo != ""
    ensures RunJobs(env, db, jobs).pending == map[]
    ensures Posts(env, db, jobs, repo, sha) <= 1
    ensures Posts(env, db, jobs, repo, sha) == 1 ==> AlreadyReviewed(RunJobs(env, db, jobs), repo, sha)
  {
    hide RunJob, Scoped, Posted, SameName;
    if |jobs| > 0 {
      var front, last := jobs[..|jobs| - 1], jobs[|jobs| - 1];
      SameNameIsDecided(last.repo, repo);
      ScopedReviews(env, db, front, repo, sha);
      JobStep(env, RunJobs(env, db, front), last);
      if AlreadyReviewed(RunJobs(env, db, front), repo, sha) {
        var mid, after := RunJobs(env, db, front), RunJobs(env, db, jobs);
        var k :| k in mid.committed && k.repo == Lower(Strip(repo)) && k.agent == AGENT
                 && ShaTag(sha) in mid.committed[k].evidence;
        assert k in after.committed && after.committed[k] == mid.committed[k];
      }
    }
  }

  /**
    Whatever the reviews say, a repository (in any letter case) gets one posted review per
    head SHA at most, over any sequence of jobs run one at a time.
   */
  lemma OneReviewPerSha(sha256: string -> string, thresholds: map<string, real>,
                        render: (Decision, Reason) -> string, db: Db, jobs: seq<Job>, repo: string, sha: string)
    requires "comment" in thresholds && db.pending == map[] && sha != ""
    requires forall i :: 0 <= i < |jobs| ==> jobs[i].repo != ""
    ensures var env := SignatureEnv(sha256, thresholds, render);
            && Posts(env, db, jobs, repo, sha) <= 1
            && (Posts(env, db, jobs, repo, sha) == 1 ==> AlreadyReviewed(RunJobs(env, db, jobs), repo, sha))
  {
    hide Posts, RunJobs, Scoped;
    SignatureEnvIsScoped(sha256, thresholds, render);
    ScopedReviews(SignatureEnv(sha256, thresholds, render), db, jobs, repo, sha);
  }

  /** A post that fails leaves the SHA exactly as reviewable as before. */
  lemma FailedPostStaysReviewable(sha256: string -> string, thresholds: map<string, real>,
                                  render: (Decision, Reason) -> string, db: Db, job: Job)
    requires "comment" in thresholds && db.pending == map[] && job.repo != ""
    requires job.mode != Shadow && job.reply.Raises?
    ensures var after := RunJob(SignatureEnv(sha256, thresholds, render), db, job);
            AlreadyReviewed(after, job.repo, job.headSha) <==> AlreadyReviewed(db, job.repo, job.headSha)
  {
    hide RunJob, Scoped;
    SignatureEnvIsScoped(sha256, thresholds, render);
    JobStep(SignatureEnv(sha256, thresholds, render), db, job);
  }
}
