/**
  `gita.jobs.runners._maybe_enqueue_test_gen_jobs`: which newly added files get a
  test-generation job after an incremental reindex.
 */
module Trigger {
  import opened Common
  import opened Names
  import opened Text

  datatype Status = Skipped(reason: string) | NoCandidates | EnqueuedSome

  datatype Job = Job(targetFile: string, jobId: string, deduped: bool)

  datatype Summary = Summary(status: Status, afterStageA: seq<string>, afterStageB: seq<string>,
                             enqueued: seq<Job>, droppedOverCap: nat)

  /** The gates in front of the stages, and the checks of stages A and B as predicates. */
  datatype Settings = Settings(enabled: bool, repoOptIn: bool, cap: int,
                               lacksTests: string -> bool, feasible: string -> bool)

  /** What the ingest reported. */
  datatype Ingest = Ingest(mode: string, headSha: Option<string>, addedFiles: seq<string>)

  function Filter(keep: string -> bool, xs: seq<string>): seq<string> {
    if |xs| == 0 then []
    else
      var rest := Filter(keep, xs[..|xs| - 1]);
      if keep(xs[|xs| - 1]) then rest + [xs[|xs| - 1]] else rest
  }

  function Survivors(s: Settings, added: seq<string>): seq<string> {
    Filter(s.feasible, Filter(s.lacksTests, added))
  }

  function Cap(s: Settings): nat { if s.cap < 0 then 0 else s.cap }

  /** The alphabetically first survivors, up to the cap. */
  function Selected(s: Settings, added: seq<string>): seq<string> {
    var sorted := Sort(Survivors(s, added));
    if |sorted| <= Cap(s) then sorted else sorted[..Cap(s)]
  }

  function Sha7(head: Option<string>): string {
    var sha := if head.None? || head.value == "" then "unknown" else head.value;
    if |sha| <= 7 then sha else sha[..7]
  }

  function JobId(repo: string, path: string, head: Option<string>): string {
    "generate-tests:" + Lower(Strip(repo)) + ":" + path + ":" + Sha7(head)
  }

  function JobIds(repo: string, paths: seq<string>, head: Option<string>): seq<string> {
    seq(|paths|, i requires 0 <= i < |paths| => JobId(repo, paths[i], head))
  }

  /** The job ids of the enqueue calls the trigger makes, in order. */
  function Attempts(s: Settings, repo: string, ingest: Ingest): seq<string> {
    JobIds(repo, Selected(s, ingest.addedFiles), ingest.headSha)
  }

  /** Why the trigger does nothing, the first reason that applies. */
  function SkipReason(s: Settings, hasQueue: bool, ingest: Ingest): Option<string> {
    if !hasQueue then Some("no_redis_pool")
    else if !s.enabled then Some("global_kill_switch_off")
    else if !s.repoOptIn then Some("repo_opt_in_off")
    else if ingest.mode != "incremental" then Some("mode=" + ingest.mode)
    else if ingest.addedFiles == [] then Some("no_added_files")
    else None
  }

  /** The summary's entries: one per file whose enqueue call did not raise, marked if its job was live already. */
  function Enqueued(repo: string, paths: seq<string>, head: Option<string>, live: set<string>,
                    broken: string -> bool): seq<Job> {
    if |paths| == 0 then []
    else
      var n := |paths| - 1;
      var earlier, jobId := Enqueued(repo, paths[..n], head, live, broken), JobId(repo, paths[n], head);
      if broken(jobId) then earlier
      else earlier + [Job(paths[n], jobId, jobId in LiveAfter(repo, paths[..n], head, live, broken))]
  }

  function LiveAfter(repo: string, paths: seq<string>, head: Option<string>, live: set<string>,
                     broken: string -> bool): set<string> {
    live + set i | 0 <= i < |paths| && !broken(JobId(repo, paths[i], head)) :: JobId(repo, paths[i], head)
  }

  ghost predicate Lists(jobs: seq<Job>, path: string) {
    exists k :: 0 <= k < |jobs| && jobs[k].targetFile == path
  }

  /** Exactly the files whose enqueue call does not raise are listed. */
  lemma {:induction false} EnqueuedIsComplete(repo: string, paths: seq<string>, head: Option<string>, live: set<string>,
                                              broken: string -> bool, path: string)
    ensures Lists(Enqueued(repo, paths, head, live, broken), path)
       <==> path in paths && !broken(JobId(repo, path, head))
  {
    hide JobId, LiveAfter;
    if |paths| > 0 {
      var n := |paths| - 1;
      EnqueuedIsComplete(repo, paths[..n], head, live, broken, path);
      assert paths == paths[..n] + [paths[n]];
      var earlier, all := Enqueued(repo, paths[..n], head, live, broken), Enqueued(repo, paths, head, live, broken);
      if all != earlier {
        ListsOneMore(earlier, all[|earlier|], path);
      }
    }
  }

  lemma ListsOneMore(jobs: seq<Job>, job: Job, path: string)
    ensures Lists(jobs + [job], path) <==> Lists(jobs, path) || job.targetFile == path
  {
    var all := jobs + [job];
    assert all[|jobs|] == job && forall k :: 0 <= k < |jobs| ==> all[k] == jobs[k];
  }

  /** A listed job is marked as deduplicated exactly when ARQ held it already. */
  lemma {:induction false} MarkedWhenLive(repo: string, paths: seq<string>, head: Option<string>, live: set<string>,
                                          broken: string -> bool)
    requires forall i, j :: 0 <= i < j < |paths| ==> paths[i] != paths[j]
    ensures forall k :: 0 <= k < |Enqueued(repo, paths, head, live, broken)| ==>
              var job := Enqueued(repo, paths, head, live, broken)[k];
              job.jobId == JobId(repo, job.targetFile, head) && (job.deduped <==> job.jobId in live)
  {
    hide JobId;
    if |paths| > 0 {
      var n := |paths| - 1;
      MarkedWhenLive(repo, paths[..n], head, live, broken);
      forall i | 0 <= i < n ensures JobId(repo, paths[i], head) != JobId(repo, paths[n], head) {
        JobIdsDiffer(repo, paths[i], paths[n], head);
      }
    }
  }

  /** ARQ as a set of live job ids; `broken` says which enqueue calls raise. */
  class Queue {
    var live: set<string>
    var attempts: seq<string>
    const broken: string -> bool

    constructor (live: set<string>, broken: string -> bool)
      ensures this.live == live && this.broken == broken && attempts == []
    {
      this.live, this.broken, attempts := live, broken, [];
    }

    /** `redis.enqueue_job`: None on an exception, otherwise whether the job is new. */
    method Enqueue(jobId: string) returns (isNew: Option<bool>)
      modifies this
      ensures attempts == old(attempts) + [jobId]
      ensures isNew == if broken(jobId) then None else Some(jobId !in old(live))
      ensures live == if broken(jobId) then old(live) else old(live) + {jobId}
    {
      attempts := attempts + [jobId];
      if broken(jobId) {
        return None;
      }
      isNew := Some(jobId !in live);
      live := live + {jobId};
    }
  }

  lemma LiveGrows(repo: string, paths: seq<string>, head: Option<string>, live: set<string>, broken: string -> bool,
                  n: nat)
    requires n < |paths|
    ensures LiveAfter(repo, paths[..n + 1], head, live, broken)
         == LiveAfter(repo, paths[..n], head, live, broken)
              + (if broken(JobId(repo, paths[n], head)) then {} else {JobId(repo, paths[n], head)})
  {
    hide JobId;
    assert forall i :: 0 <= i < n ==> paths[..n + 1][i] == paths[..n][i];
  }

  method FilterFiles(keep: string -> bool, xs: seq<string>) returns (kept: seq<string>)
    ensures kept == Filter(keep, xs)
  {
    kept := [];
    for i := 0 to |xs|
      invariant kept == Filter(keep, xs[..i])
    {
      assert xs[..i + 1][..i] == xs[..i];
      if keep(xs[i]) {
        kept := kept + [xs[i]];
      }
    }
    assert xs[..|xs|] == xs;
  }

  /** The enqueue loop: a call that raises is logged and skipped. */
  method EnqueueAll(repo: string, selected: seq<string>, head: Option<string>,
                    redis: Queue) returns (enqueued: seq<Job>)
    modifies redis
    ensures redis.attempts == old(redis.attempts) + JobIds(repo, selected, head)
    ensures enqueued == Enqueued(repo, selected, head, old(redis.live), redis.broken)
    ensures redis.live == LiveAfter(repo, selected, head, old(redis.live), redis.broken)
  {
    hide JobId, LiveAfter;
    NothingLive(repo, head, redis.live, redis.broken);
    enqueued := [];
    for i := 0 to |selected|
      invariant redis.attempts == old(redis.attempts) + JobIds(repo, selected[..i], head)
      invariant enqueued == Enqueued(repo, selected[..i], head, old(redis.live), redis.broken)
      invariant redis.live == LiveAfter(repo, selected[..i], head, old(redis.live), redis.broken)
    {
      var jobId := JobId(repo, selected[i], head);
      assert JobIds(repo, selected[..i + 1], head) == JobIds(repo, selected[..i], head) + [jobId];
      assert selected[..i + 1][..i] == selected[..i];
      LiveGrows(repo, selected, head, old(redis.live), redis.broken, i);
      var isNew := redis.Enqueue(jobId);
      if isNew.Some? {
        enqueued := enqueued + [Job(selected[i], jobId, !isNew.value)];
      }
    }
    assert selected[..|selected|] == selected;
  }

  lemma NothingLive(repo: string, head: Option<string>, live: set<string>, broken: string -> bool)
    ensures LiveAfter(repo, [], head, live, broken) == live
  {}

  /** The trigger; `redis` is null when called from the CLI. */
  method MaybeEnqueue(s: Settings, repo: string, ingest: Ingest, redis: Queue?) returns (summary: Summary)
    modifies if redis == null then {} else {redis}
    ensures SkipReason(s, redis != null, ingest).Some? ==>
              summary == Summary(Skipped(SkipReason(s, redis != null, ingest).value), [], [], [], 0)
    ensures summary.status.Skipped? <==> SkipReason(s, redis != null, ingest).Some?
    ensures summary.status.Skipped? && redis != null ==>
              redis.attempts == old(redis.attempts) && redis.live == old(redis.live)
    ensures !summary.status.Skipped? ==>
              && summary.afterStageA == Filter(s.lacksTests, ingest.addedFiles)
              && summary.afterStageB == Sort(Survivors(s, ingest.addedFiles))
              && redis.attempts == old(redis.attempts) + Attempts(s, repo, ingest)
              && |Selected(s, ingest.addedFiles)| + summary.droppedOverCap == |Survivors(s, ingest.addedFiles)|
              && (summary.status == EnqueuedSome <==> summary.enqueued != [])
              && summary.enqueued
                   == Enqueued(repo, Selected(s, ingest.addedFiles), ingest.headSha, old(redis.live), redis.broken)
              && redis.live
                   == LiveAfter(repo, Selected(s, ingest.addedFiles), ingest.headSha, old(redis.live), redis.broken)
  {
    hide Sort, Filter, JobId;
    if redis == null {
      return Summary(Skipped("no_redis_pool"), [], [], [], 0);
    }
    if !s.enabled {
      return Summary(Skipped("global_kill_switch_off"), [], [], [], 0);
    }
    if !s.repoOptIn {
      return Summary(Skipped("repo_opt_in_off"), [], [], [], 0);
    }
    if ingest.mode != "incremental" {
      return Summary(Skipped("mode=" + ingest.mode), [], [], [], 0);
    }
    if ingest.addedFiles == [] {
      return Summary(Skipped("no_added_files"), [], [], [], 0);
    }
    var afterA := FilterFiles(s.lacksTests, ingest.addedFiles);
    var afterB := FilterFiles(s.feasible, afterA);
    SortSorts(afterB);
    if afterB == [] {
      assert Attempts(s, repo, ingest) == [];
      assert redis.attempts + [] == redis.attempts;
      return Summary(NoCandidates, afterA, [], [], 0);
    }
    afterB := Sort(afterB);
    var cap := if s.cap < 0 then 0 else s.cap;
    var selected := if |afterB| <= cap then afterB else afterB[..cap];
    assert selected == Selected(s, ingest.addedFiles);
    var enqueued := EnqueueAll(repo, selected, ingest.headSha, redis);
    return Summary(if enqueued != [] then EnqueuedSome else NoCandidates, afterA, afterB, enqueued,
                   if |afterB| > cap then |afterB| - cap else 0);
  }

  // ------------------------------------------------------------------
  // Properties of the selection
  // ------------------------------------------------------------------

  lemma {:induction false} FilterCounts(keep: string -> bool, xs: seq<string>, x: string)
    ensures multiset(Filter(keep, xs))[x] == if keep(x) then multiset(xs)[x] else 0
  {
    if |xs| > 0 {
      FilterCounts(keep, xs[..|xs| - 1], x);
      assert xs == xs[..|xs| - 1] + [xs[|xs| - 1]];
    }
  }

  /**
    The selection does not depend on the order in which the diff lists the added files: a
    retried push makes the same enqueue calls, with the same ids, in the same order.
   */
  lemma SelectionIgnoresOrder(s: Settings, repo: string, a: Ingest, b: Ingest)
    requires multiset(a.addedFiles) == multiset(b.addedFiles) && a.headSha == b.headSha
    ensures Selected(s, a.addedFiles) == Selected(s, b.addedFiles)
    ensures Attempts(s, repo, a) == Attempts(s, repo, b)
  {
    forall x ensures multiset(Survivors(s, a.addedFiles))[x] == multiset(Survivors(s, b.addedFiles))[x] {
      FilterCounts(s.lacksTests, a.addedFiles, x);
      FilterCounts(s.lacksTests, b.addedFiles, x);
      FilterCounts(s.feasible, Filter(s.lacksTests, a.addedFiles), x);
      FilterCounts(s.feasible, Filter(s.lacksTests, b.addedFiles), x);
    }
    SortCanonical(Survivors(s, a.addedFiles), Survivors(s, b.addedFiles));
  }

  /**
    Exactly min(cap, n) survivors are selected, in order; with the dropped ones they are all
    the survivors, and no dropped file comes before a selected one.
   */
  lemma SelectedAreTheSmallest(s: Settings, added: seq<string>) returns (dropped: seq<string>)
    ensures var selected := Selected(s, added);
            && |selected| == (if |Survivors(s, added)| <= Cap(s) then |Survivors(s, added)| else Cap(s))
            && multiset(selected) + multiset(dropped) == multiset(Survivors(s, added))
            && Sorted(selected)
            && forall i, j :: 0 <= i < |selected| && 0 <= j < |dropped| ==> LexLe(selected[i], dropped[j])
    ensures forall x :: x in Survivors(s, added) <==> x in added && s.lacksTests(x) && s.feasible(x)
  {
    hide Survivors, Sort, LexLe;
    var survivors := Survivors(s, added);
    SortSorts(survivors);
    var sorted := Sort(survivors);
    dropped := sorted[|Selected(s, added)|..];
    assert sorted == Selected(s, added) + dropped;
    SurvivorsAre(s, added);
  }

  lemma SurvivorsAre(s: Settings, added: seq<string>)
    ensures forall x :: x in Survivors(s, added) <==> x in added && s.lacksTests(x) && s.feasible(x)
  {
    hide Filter;
    forall x ensures x in Survivors(s, added) <==> x in added && s.lacksTests(x) && s.feasible(x) {
      FilterCounts(s.lacksTests, added, x);
      FilterCounts(s.feasible, Filter(s.lacksTests, added), x);
      assert x in Survivors(s, added) <==> x in multiset(Survivors(s, added));
      assert x in added <==> x in multiset(added);
    }
  }

  function HeadText(head: Option<string>): string {
    if head.None? || head.value == "" then "unknown" else head.value
  }

  /** Two commits that agree in their first seven characters. */
  predicate SameShortSha(a: Option<string>, b: Option<string>) {
    var x, y := HeadText(a), HeadText(b);
    x == y || (7 <= |x| && 7 <= |y| && x[..7] == y[..7])
  }

  lemma NameKeepsOutColons(repo: string)
    requires Without(repo, ':')
    ensures Without(Lower(Strip(repo)), ':')
  {
    hide Strip, Lower, SameLetter, Trim;
    StripIsTrimmed(repo, Strip(repo));
    var l, r :| repo == l + Strip(repo) + r;
    LowerDecides(Strip(repo), Strip(repo));
    forall i | 0 <= i < |Strip(repo)| ensures Lower(Strip(repo))[i] != ':' {
      assert repo[|l| + i] == Strip(repo)[i];
      ColonIsNoLetter(Strip(repo)[i], Lower(Strip(repo))[i]);
    }
  }

  lemma ColonIsNoLetter(a: char, b: char)
    requires SameLetter(a, b) && a != ':'
    ensures b != ':'
  {}

  /**
    A job id stands for one repository, in any letter case, one file and one commit up to
    seven characters of its SHA: two jobs have one id exactly when they agree in all three.
   */
  lemma JobIdsNameTheirJob(repo: string, p: string, head: Option<string>,
                           repo': string, q: string, head': Option<string>)
    requires Without(repo, ':') && Without(repo', ':')
    requires Without(HeadText(head), ':') && Without(HeadText(head'), ':')
    ensures JobId(repo, p, head) == JobId(repo', q, head')
       <==> SameName(repo, repo') && p == q && SameShortSha(head, head')
  {
    hide Lower, Strip, SameName;
    NameKeepsOutColons(repo);
    NameKeepsOutColons(repo');
    SameNameIsDecided(repo, repo');
    var r, r', s, s' := Lower(Strip(repo)), Lower(Strip(repo')), Sha7(head), Sha7(head');
    CutUnique(r, p + ":" + s, r', q + ":" + s', ':');
    LastCutUnique(p, s, q, s', ':');
    ShortShas(head, head');
    var front := "generate-tests:";
    JobIdParts(repo, p, head);
    JobIdParts(repo', q, head');
    assert (front + (r + ":" + (p + ":" + s)))[|front|..] == r + ":" + (p + ":" + s);
    assert (front + (r' + ":" + (q + ":" + s')))[|front|..] == r' + ":" + (q + ":" + s');
  }

  lemma JobIdParts(repo: string, p: string, head: Option<string>)
    ensures JobId(repo, p, head) == "generate-tests:" + (Lower(Strip(repo)) + ":" + (p + ":" + Sha7(head)))
  {
    hide Lower, Strip, Sha7;
  }

  lemma ShortShas(a: Option<string>, b: Option<string>)
    ensures Sha7(a) == Sha7(b) <==> SameShortSha(a, b)
    ensures Without(HeadText(a), ':') ==> Without(Sha7(a), ':')
    ensures Without(HeadText(b), ':') ==> Without(Sha7(b), ':')
  {
    var x, y := HeadText(a), HeadText(b);
    assert 7 == |x| ==> x[..7] == x;
    assert 7 == |y| ==> y[..7] == y;
  }

  /** Different files get different job ids, so ARQ deduplicates retries and nothing else. */
  lemma JobIdsDiffer(repo: string, p: string, q: string, head: Option<string>)
    ensures JobId(repo, p, head) == JobId(repo, q, head) <==> p == q
  {
    var front, back := "generate-tests:" + Lower(Strip(repo)) + ":", ":" + Sha7(head);
    assert JobId(repo, p, head) == front + p + back && JobId(repo, q, head) == front + q + back;
    if JobId(repo, p, head) == JobId(repo, q, head) {
      assert |p| == |q|;
      assert (front + p + back)[|front|..|front| + |p|] == p;
      assert (front + q + back)[|front|..|front| + |q|] == q;
    }
  }
}
