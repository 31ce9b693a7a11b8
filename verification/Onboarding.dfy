/**
  `gita.agents.onboarding.bridge.build_onboarding_issue_decisions` and the create-issues
  flow of the CLI: one create_issue decision per milestone, identified by its citations.
 */
module Onboarding {
  import opened Common
  import opened Decisions
  import opened Gate
  import opened Names
  import opened Text
  import Signature

  const AGENT := "onboarding"

  datatype Finding = Finding(
    file: string, line: int, severity: string, kind: string, description: string, fixSketch: string)

  datatype Milestone = Milestone(title: string, summary: string, findingIndices: seq<int>, confidence: real)

  datatype OnboardingResult = OnboardingResult(
    repoName: string, findings: seq<Finding>, milestones: seq<Milestone>, confidence: real)

  /** The rendered issue body and evidence lines, which are no part of the identity. */
  datatype Texts = Texts(
    body: (OnboardingResult, Milestone) -> string,
    evidence: (OnboardingResult, Milestone) -> seq<string>)

  function ValidIndices(indices: seq<int>, n: nat): (r: seq<int>)
    ensures forall i :: 0 <= i < |r| ==> 0 <= r[i] < n && r[i] in indices
  {
    if |indices| == 0 then []
    else (if 0 <= indices[0] < n then [indices[0]] else []) + ValidIndices(indices[1..], n)
  }

  /** The citations of a milestone: the (file, line) of each finding it validly cites. */
  function Citations(r: OnboardingResult, m: Milestone): seq<(string, int)> {
    var valid := ValidIndices(m.findingIndices, |r.findings|);
    seq(|valid|, k requires 0 <= k < |valid| => (r.findings[valid[k]].file, r.findings[valid[k]].line))
  }

  /** `f"{file}:{line}"`. */
  function CitationKey(c: (string, int)): string { c.0 + ":" + IntText(c.1) }

  function CitationKeys(cs: seq<(string, int)>): (keys: seq<string>)
    ensures |keys| == |cs| && forall i :: 0 <= i < |cs| ==> keys[i] == CitationKey(cs[i])
  {
    seq(|cs|, i requires 0 <= i < |cs| => CitationKey(cs[i]))
  }

  function IssueDecision(r: OnboardingResult, m: Milestone, repo: string, fallback: Option<int>,
                         defaultLabels: seq<string>, texts: Texts): Result<Decision, Exn>
  {
    Make("create_issue", Target(Some(repo), None, fallback),
         Payload(map["title" := m.title, "body" := texts.body(r, m)],
                 Sort(CitationKeys(Citations(r, m))), defaultLabels),
         texts.evidence(r, m), m.confidence)
  }

  predicate Cites(r: OnboardingResult, m: Milestone) { Citations(r, m) != [] }

  /** The decisions of the first n milestones, or the exception of the first one that cannot be built. */
  function DecisionsUpTo(r: OnboardingResult, n: nat, repo: string, fallback: Option<int>, defaultLabels: seq<string>,
                         texts: Texts):
    Result<seq<Decision>, Exn>
    requires n <= |r.milestones|
  {
    if n == 0 then Success([])
    else match DecisionsUpTo(r, n - 1, repo, fallback, defaultLabels, texts)
      case Failure(e) => Failure(e)
      case Success(ds) =>
        var m := r.milestones[n - 1];
        if !Cites(r, m) then Success(ds)
        else match IssueDecision(r, m, repo, fallback, defaultLabels, texts)
          case Failure(e) => Failure(e)
          case Success(d) => Success(ds + [d])
  }

  /** `build_onboarding_issue_decisions`, as the loop it is. */
  method BuildIssueDecisions(r: OnboardingResult, repo: string, fallback: Option<int>, defaultLabels: seq<string>,
                             texts: Texts)
    returns (result: Result<seq<Decision>, Exn>)
    ensures result == DecisionsUpTo(r, |r.milestones|, repo, fallback, defaultLabels, texts)
  {
    hide IssueDecision, Cites;
    var decisions: seq<Decision> := [];
    for n := 0 to |r.milestones|
      invariant DecisionsUpTo(r, n, repo, fallback, defaultLabels, texts) == Success(decisions)
    {
      var m := r.milestones[n];
      if Cites(r, m) {
        var d := IssueDecision(r, m, repo, fallback, defaultLabels, texts);
        if d.Failure? {
          DecisionsStayFailed(r, n + 1, |r.milestones|, repo, fallback, defaultLabels, texts);
          return Failure(d.error);
        }
        decisions := decisions + [d.value];
      }
    }
    return Success(decisions);
  }

  lemma {:induction false} DecisionsStayFailed(r: OnboardingResult, n: nat, k: nat, repo: string, fallback: Option<int>,
                                               defaultLabels: seq<string>, texts: Texts)
    requires n <= k <= |r.milestones|
    requires DecisionsUpTo(r, n, repo, fallback, defaultLabels, texts).Failure?
    ensures DecisionsUpTo(r, k, repo, fallback, defaultLabels, texts)
         == DecisionsUpTo(r, n, repo, fallback, defaultLabels, texts)
    decreases k
  {
    if n < k {
      DecisionsStayFailed(r, n, k - 1, repo, fallback, defaultLabels, texts);
    }
  }

  // ------------------------------------------------------------------
  // Which findings a milestone cites
  // ------------------------------------------------------------------

  /** r keeps the valid indices, each as often as it was given and in the given order. */
  ghost predicate KeepsValid(indices: seq<int>, n: nat, r: seq<int>, at: seq<int>) {
    && |at| == |r|
    && (forall i :: 0 <= i < |at| ==> 0 <= at[i] < |indices| && r[i] == indices[at[i]])
    && (forall i, j :: 0 <= i < j < |at| ==> at[i] < at[j])
    && forall p :: 0 <= p < |indices| ==> (p in at <==> 0 <= indices[p] < n)
  }

  lemma {:induction false} ValidIndicesAre(indices: seq<int>, n: nat)
    ensures exists at :: KeepsValid(indices, n, ValidIndices(indices, n), at)
  {
    hide ValidIndices, KeepsValid;
    if |indices| == 0 {
      NoIndices(n);
    } else {
      var front, last := indices[..|indices| - 1], indices[|indices| - 1];
      ValidIndicesAre(front, n);
      LastIndex(front, last, n);
      assert indices == front + [last];
      var at :| KeepsValid(front, n, ValidIndices(front, n), at);
      OneIndexMore(front, last, n, ValidIndices(front, n), at);
    }
  }

  lemma NoIndices(n: nat)
    ensures KeepsValid([], n, ValidIndices([], n), [])
  {}

  lemma {:induction false} LastIndex(front: seq<int>, last: int, n: nat)
    ensures ValidIndices(front + [last], n) == ValidIndices(front, n) + if 0 <= last < n then [last] else []
  {
    if |front| > 0 {
      LastIndex(front[1..], last, n);
      assert (front + [last])[1..] == front[1..] + [last];
    }
  }

  lemma OneIndexMore(front: seq<int>, last: int, n: nat, r: seq<int>, at: seq<int>)
    requires KeepsValid(front, n, r, at)
    ensures var all, kept := front + [last], r + if 0 <= last < n then [last] else [];
            exists at' :: KeepsValid(all, n, kept, at')
  {
    if 0 <= last < n {
      var at' := at + [|front|];
      forall p | 0 <= p <= |front| ensures p in at' <==> 0 <= (front + [last])[p] < n {
        assert p < |front| ==> (p in at <==> 0 <= front[p] < n);
      }
      assert KeepsValid(front + [last], n, r + [last], at');
    } else {
      assert r + [] == r;
      assert KeepsValid(front + [last], n, r, at);
    }
  }

  lemma SomeAreValid(indices: seq<int>, n: nat)
    ensures ValidIndices(indices, n) != [] <==> exists p :: 0 <= p < |indices| && 0 <= indices[p] < n
  {
    hide ValidIndices;
    ValidIndicesAre(indices, n);
    var at :| KeepsValid(indices, n, ValidIndices(indices, n), at);
    if p :| 0 <= p < |indices| && 0 <= indices[p] < n {
      assert p in at;
    }
    if ValidIndices(indices, n) != [] {
      assert at[0] in at;
    }
  }

  /** How often the given indices cite this file and line; indices outside the findings cite nothing. */
  ghost function CitedTimes(r: OnboardingResult, indices: seq<int>, c: (string, int)): nat {
    if |indices| == 0 then 0
    else
      var i := indices[0];
      (if 0 <= i < |r.findings| && (r.findings[i].file, r.findings[i].line) == c then 1 else 0)
      + CitedTimes(r, indices[1..], c)
  }

  ghost predicate SameCitations(r1: OnboardingResult, m1: Milestone, r2: OnboardingResult, m2: Milestone) {
    forall c :: CitedTimes(r1, m1.findingIndices, c) == CitedTimes(r2, m2.findingIndices, c)
  }

  lemma {:induction false} CitationsAreCounted(r: OnboardingResult, m: Milestone, c: (string, int))
    ensures multiset(Citations(r, m))[c] == CitedTimes(r, m.findingIndices, c)
    decreases |m.findingIndices|
  {
    hide Citations;
    FirstCitation(r, m);
    if |m.findingIndices| > 0 {
      CitationsAreCounted(r, m.(findingIndices := m.findingIndices[1..]), c);
    }
  }

  lemma FirstCitation(r: OnboardingResult, m: Milestone)
    ensures m.findingIndices == [] ==> Citations(r, m) == []
    ensures m.findingIndices != [] ==>
              var i, rest := m.findingIndices[0], m.(findingIndices := m.findingIndices[1..]);
              Citations(r, m) == (if 0 <= i < |r.findings| then [(r.findings[i].file, r.findings[i].line)] else [])
                                 + Citations(r, rest)
  {}

  lemma SameCitationsAreCounted(r1: OnboardingResult, m1: Milestone, r2: OnboardingResult, m2: Milestone)
    ensures multiset(Citations(r1, m1)) == multiset(Citations(r2, m2)) <==> SameCitations(r1, m1, r2, m2)
  {
    hide Citations, CitedTimes;
    forall c { CitationsAreCounted(r1, m1, c); }
    forall c { CitationsAreCounted(r2, m2, c); }
  }

  ghost predicate CitesAFinding(r: OnboardingResult, m: Milestone) {
    exists p :: 0 <= p < |m.findingIndices| && 0 <= m.findingIndices[p] < |r.findings|
  }

  /** A milestone cites something exactly when one of its indices is that of a finding. */
  lemma CitesExactlyWhen(r: OnboardingResult, m: Milestone)
    ensures Cites(r, m) <==> CitesAFinding(r, m)
  {
    hide ValidIndices;
    SomeAreValid(m.findingIndices, |r.findings|);
  }

  /** The issue a milestone asks for, identified by the file and line of each finding it cites. */
  ghost predicate IsIssueFor(r: OnboardingResult, m: Milestone, repo: string, fallback: Option<int>,
                             defaultLabels: seq<string>, texts: Texts, d: Decision)
  {
    && d.action == "create_issue" && d.target == Target(Some(repo), None, fallback)
    && d.confidence == m.confidence && d.evidence == texts.evidence(r, m)
    && d.payload.fields == map["title" := m.title, "body" := texts.body(r, m)] && d.payload.labels == defaultLabels
    && Sorted(d.payload.signatureKeys)
    && (forall k :: k in d.payload.signatureKeys ==> exists file, line :: k == file + ":" + IntText(line))
    && forall file, line ::
         multiset(d.payload.signatureKeys)[file + ":" + IntText(line)] == CitedTimes(r, m.findingIndices, (file, line))
  }

  lemma IssueIsForItsMilestone(r: OnboardingResult, m: Milestone, repo: string, fallback: Option<int>,
                               defaultLabels: seq<string>, texts: Texts)
    ensures var d := IssueDecision(r, m, repo, fallback, defaultLabels, texts);
            && (d.Success? <==> 0.0 <= m.confidence <= 1.0)
            && (d.Success? ==> IsIssueFor(r, m, repo, fallback, defaultLabels, texts, d.value))
  {
    hide Sort, Citations, CitedTimes, IntText, Sorted;
    var keys := CitationKeys(Citations(r, m));
    SortSorts(keys);
    forall file: string, line: int
      ensures multiset(Sort(keys))[file + ":" + IntText(line)] == CitedTimes(r, m.findingIndices, (file, line))
    {
      KeyCount(Citations(r, m), (file, line));
      CitationsAreCounted(r, m, (file, line));
      assert CitationKey((file, line)) == file + ":" + IntText(line);
    }
    forall k | k in Sort(keys) ensures exists file, line :: k == file + ":" + IntText(line) {
      assert k in multiset(Sort(keys));
      var i :| 0 <= i < |keys| && keys[i] == k;
      assert k == Citations(r, m)[i].0 + ":" + IntText(Citations(r, m)[i].1);
    }
  }

  /** ds are the issues of the first n milestones that cite a finding, in their order. */
  ghost predicate AreIssuesOf(r: OnboardingResult, n: nat, repo: string, fallback: Option<int>,
                              defaultLabels: seq<string>, texts: Texts, ds: seq<Decision>, at: seq<int>)
    requires n <= |r.milestones|
  {
    && |at| == |ds|
    && (forall i :: 0 <= i < |at| ==>
          0 <= at[i] < n && IsIssueFor(r, r.milestones[at[i]], repo, fallback, defaultLabels, texts, ds[i]))
    && (forall i, j :: 0 <= i < j < |at| ==> at[i] < at[j])
    && forall q :: 0 <= q < n ==> (q in at <==> CitesAFinding(r, r.milestones[q]))
  }

  /**
    Every milestone that cites a finding, and no other, gets its issue, in order; and the
    whole call fails exactly when one of them has a confidence outside [0, 1].
   */
  lemma {:induction false} IssuesFollowMilestones(r: OnboardingResult, n: nat, repo: string, fallback: Option<int>,
                                                  defaultLabels: seq<string>, texts: Texts)
    requires n <= |r.milestones|
    ensures var result := DecisionsUpTo(r, n, repo, fallback, defaultLabels, texts);
            && (result.Failure? <==> exists q :: 0 <= q < n && CitesAFinding(r, r.milestones[q])
                                                 && !(0.0 <= r.milestones[q].confidence <= 1.0))
            && (result.Success? ==>
                  exists at :: AreIssuesOf(r, n, repo, fallback, defaultLabels, texts, result.value, at))
  {
    hide Cites, IssueDecision, IsIssueFor, CitesAFinding;
    if n == 0 {
      assert AreIssuesOf(r, 0, repo, fallback, defaultLabels, texts, [], []);
    } else {
      IssuesFollowMilestones(r, n - 1, repo, fallback, defaultLabels, texts);
      var m := r.milestones[n - 1];
      CitesExactlyWhen(r, m);
      IssueIsForItsMilestone(r, m, repo, fallback, defaultLabels, texts);
      var before, after := DecisionsUpTo(r, n - 1, repo, fallback, defaultLabels, texts),
                           DecisionsUpTo(r, n, repo, fallback, defaultLabels, texts);
      if after.Success? {
        var at :| AreIssuesOf(r, n - 1, repo, fallback, defaultLabels, texts, before.value, at);
        if CitesAFinding(r, m) {
          OneIssueMore(r, n - 1, repo, fallback, defaultLabels, texts, before.value, after.value[|before.value|], at);
        } else {
          assert AreIssuesOf(r, n, repo, fallback, defaultLabels, texts, after.value, at);
        }
      }
    }
  }

  lemma OneIssueMore(r: OnboardingResult, n: nat, repo: string, fallback: Option<int>, defaultLabels: seq<string>,
                     texts: Texts, ds: seq<Decision>, d: Decision, at: seq<int>)
    requires n < |r.milestones| && AreIssuesOf(r, n, repo, fallback, defaultLabels, texts, ds, at)
    requires CitesAFinding(r, r.milestones[n])
    requires IsIssueFor(r, r.milestones[n], repo, fallback, defaultLabels, texts, d)
    ensures AreIssuesOf(r, n + 1, repo, fallback, defaultLabels, texts, ds + [d], at + [n])
  {
    hide CitesAFinding, IsIssueFor;
    forall q | 0 <= q <= n ensures q in at + [n] <==> CitesAFinding(r, r.milestones[q]) {
      assert q < n ==> (q in at <==> CitesAFinding(r, r.milestones[q]));
    }
  }

  // ------------------------------------------------------------------
  // Same citations, same key
  // ------------------------------------------------------------------

  lemma CitationKeyInjective(a: (string, int), b: (string, int))
    ensures CitationKey(a) == CitationKey(b) <==> a == b
  {
    IntTextWithout(a.1, ':');
    IntTextWithout(b.1, ':');
    LastCutUnique(a.0, IntText(a.1), b.0, IntText(b.1), ':');
    IntTextInjective(a.1, b.1);
  }

  lemma {:induction false} KeyCount(cs: seq<(string, int)>, c: (string, int))
    ensures multiset(CitationKeys(cs))[CitationKey(c)] == multiset(cs)[c]
  {
    hide CitationKey;
    if |cs| > 0 {
      var front, last := cs[..|cs| - 1], cs[|cs| - 1];
      KeyCount(front, c);
      CitationKeyInjective(last, c);
      assert cs == front + [last];
      assert CitationKeys(cs) == CitationKeys(front) + [CitationKey(last)];
    }
  }

  lemma KeyMultisets(a: seq<(string, int)>, b: seq<(string, int)>)
    ensures multiset(CitationKeys(a)) == multiset(CitationKeys(b)) <==> multiset(a) == multiset(b)
  {
    if multiset(CitationKeys(a)) == multiset(CitationKeys(b)) {
      forall c ensures multiset(a)[c] == multiset(b)[c] {
        KeyCount(a, c);
        KeyCount(b, c);
      }
    } else if multiset(a) == multiset(b) {
      forall k ensures multiset(CitationKeys(a))[k] == multiset(CitationKeys(b))[k] {
        KeyCountByName(a, b, k);
      }
    }
  }

  lemma KeyCountByName(a: seq<(string, int)>, b: seq<(string, int)>, k: string)
    requires multiset(a) == multiset(b)
    ensures multiset(CitationKeys(a))[k] == multiset(CitationKeys(b))[k]
  {
    if i :| 0 <= i < |a| && CitationKey(a[i]) == k {
      KeyCount(a, a[i]);
      KeyCount(b, a[i]);
    } else if j :| 0 <= j < |b| && CitationKey(b[j]) == k {
      KeyCount(a, b[j]);
      KeyCount(b, b[j]);
    } else {
      assert k !in CitationKeys(a) && k !in CitationKeys(b);
    }
  }

  /** No cited path, and no repository name, holds a line break. */
  ghost predicate LineClean(r: OnboardingResult, repo: string) {
    && Without(Lower(Strip(repo)), '\n')
    && forall i :: 0 <= i < |r.findings| ==> Without(r.findings[i].file, '\n')
  }

  lemma KeysAreClean(r: OnboardingResult, m: Milestone, repo: string)
    requires LineClean(r, repo)
    ensures forall i :: 0 <= i < |Sort(CitationKeys(Citations(r, m)))| ==>
              Without(Sort(CitationKeys(Citations(r, m)))[i], '\n')
  {
    hide Sort;
    var cs := Citations(r, m);
    var keys := CitationKeys(cs);
    forall i | 0 <= i < |keys| ensures Without(keys[i], '\n') {
      IntTextWithout(cs[i].1, '\n');
      assert Without(cs[i].0, '\n');
    }
    Signature.SortKeeps(keys, '\n');
  }

  lemma KeyedIssue(sha256: string -> string, d: Decision, repo: string)
    requires d.action == "create_issue" && d.target.repo == Some(repo) && repo != ""
    requires d.payload.signatureKeys != [] && Without(Lower(Strip(repo)), '\n')
    requires forall i :: 0 <= i < |d.payload.signatureKeys| ==> Without(d.payload.signatureKeys[i], '\n')
    ensures Signature.Compute(d, sha256).Success? && Signature.Keyed(d) && Signature.CleanInside(d)
  {
    hide Strip, Lower, Without, Signature.Tail;
  }

  lemma IssueSignature(sha256: string -> string, r: OnboardingResult, m: Milestone, repo: string,
                       fallback: Option<int>, defaultLabels: seq<string>, texts: Texts)
    requires repo != "" && Cites(r, m) && LineClean(r, repo)
    requires IssueDecision(r, m, repo, fallback, defaultLabels, texts).Success?
    ensures var d := IssueDecision(r, m, repo, fallback, defaultLabels, texts).value;
            && Signature.Compute(d, sha256).Success? && Signature.Keyed(d) && Signature.CleanInside(d)
            && d.action == "create_issue" && d.target.repo == Some(repo)
            && multiset(d.payload.signatureKeys) == multiset(CitationKeys(Citations(r, m)))
  {
    hide Sort, CitationKeys, Citations, Signature.Compute, Signature.CleanInside, Strip;
    KeysAreClean(r, m, repo);
    SortSorts(CitationKeys(Citations(r, m)));
    KeyedIssue(sha256, IssueDecision(r, m, repo, fallback, defaultLabels, texts).value, repo);
  }

  /**
    Titles, summaries, order of findings and indices do not matter: two milestones get the
    same agent_actions key exactly when they target the same repository (up to case and
    blanks) and cite the same multiset of file:line.
   */
  lemma SameKeyExactlyWhenSameCitations(sha256: string -> string,
      r1: OnboardingResult, m1: Milestone, repo1: string, f1: Option<int>, l1: seq<string>, t1: Texts,
      r2: OnboardingResult, m2: Milestone, repo2: string, f2: Option<int>, l2: seq<string>, t2: Texts)
    requires Signature.CollisionFree(sha256)
    requires repo1 != "" && Cites(r1, m1) && LineClean(r1, repo1)
    requires repo2 != "" && Cites(r2, m2) && LineClean(r2, repo2)
    requires IssueDecision(r1, m1, repo1, f1, l1, t1).Success? && IssueDecision(r2, m2, repo2, f2, l2, t2).Success?
    ensures SignatureKey(sha256, IssueDecision(r1, m1, repo1, f1, l1, t1).value, AGENT)
              == SignatureKey(sha256, IssueDecision(r2, m2, repo2, f2, l2, t2).value, AGENT)
       <==> SameName(repo1, repo2) && SameCitations(r1, m1, r2, m2)
  {
    hide SameName, SameCitations, Citations, Sort, CitationKeys, Lower, Strip, LineClean, IssueDecision,
         Signature.Compute, Signature.CleanInside;
    var d1, d2 := IssueDecision(r1, m1, repo1, f1, l1, t1).value, IssueDecision(r2, m2, repo2, f2, l2, t2).value;
    IssueSignature(sha256, r1, m1, repo1, f1, l1, t1);
    IssueSignature(sha256, r2, m2, repo2, f2, l2, t2);
    Signature.SignatureIsIdentity(d1, d2, sha256);
    SameNameIsDecided(repo1, repo2);
    KeyMultisets(Citations(r1, m1), Citations(r2, m2));
    SameCitationsAreCounted(r1, m1, r2, m2);
  }

  // ------------------------------------------------------------------
  // The create-issues flow
  // ------------------------------------------------------------------

  /** Every decision in turn, in one session, committed at the end; an exception drops the session. */
  function RunFlow(env: Env, db: Db, ds: seq<Decision>, mode: WriteMode, replies: seq<Reply>): (Db, seq<DecisionResult>)
    requires |replies| == |ds|
    decreases |ds|
  {
    if |ds| == 0 then (Commit(db), [])
    else
      var client := if mode == Shadow then None else Some(replies[0]);
      var (db1, r) := ExecuteDecision(env, db, ds[0], mode, client, true, AGENT, map[]);
      match r
      case Failure(_) => (Rollback(db1), [])
      case Success(result) =>
        var (db2, results) := RunFlow(env, db1, ds[1..], mode, replies[1..]);
        (db2, [result] + results)
  }

  lemma CallsCommitNothing(env: Env, db: Db, d: Decision, mode: WriteMode, client: Option<Reply>)
    ensures ExecuteDecision(env, db, d, mode, client, true, AGENT, map[]).0.committed == db.committed
  {
    hide Attempt, Effects;
    assert map[] + db.committed == db.committed;
  }

  /** A flow that an exception cuts short commits none of its rows, though its effects stay. */
  lemma {:induction false} FlowsCommitAllOrNothing(env: Env, db: Db, ds: seq<Decision>, mode: WriteMode,
                                                   replies: seq<Reply>)
    requires |replies| == |ds|
    ensures var (after, results) := RunFlow(env, db, ds, mode, replies);
            && |results| <= |ds| && after.pending == map[]
            && (|results| < |ds| ==> after.committed == db.committed)
    decreases |ds|
  {
    hide ExecuteDecision;
    if |ds| > 0 {
      CallsCommitNothing(env, db, ds[0], mode, if mode == Shadow then None else Some(replies[0]));
      var db1 := ExecuteDecision(env, db, ds[0], mode, if mode == Shadow then None else Some(replies[0]), true, AGENT,
                                 map[]).0;
      FlowsCommitAllOrNothing(env, db1, ds[1..], mode, replies[1..]);
    }
  }

  ghost predicate Recorded(env: Env, db: Db, d: Decision) {
    && d.action in env.thresholds && KeyOf(env, d, AGENT).Success?
    && Visible(db, KeyOf(env, d, AGENT).value)
  }

  /** A flow whose decisions are all recorded changes nothing and calls nobody. */
  lemma {:induction false} RecordedFlowIsSilent(env: Env, db: Db, ds: seq<Decision>, mode: WriteMode,
                                                replies: seq<Reply>)
    requires |replies| == |ds| && db.pending == map[]
    requires forall i :: 0 <= i < |ds| ==> Recorded(env, db, ds[i])
    ensures var (after, results) := RunFlow(env, db, ds, mode, replies);
            && after == db && |results| == |ds|
            && forall i :: 0 <= i < |results| ==> results[i].outcome == Deduped
    decreases |ds|
  {
    hide ExecuteDecision;
    if |ds| == 0 {
      assert db.committed + db.pending == db.committed;
    } else {
      OneCall(env, db, ds[0], mode, if mode == Shadow then None else Some(replies[0]), AGENT);
      RecordedFlowIsSilent(env, db, ds[1..], mode, replies[1..]);
    }
  }

  /**
    Re-running onboarding. The second run may word its titles differently, list its
    findings in another order and renumber them: if every milestone it proposes cites the
    same file:line multiset as one recorded before, every outcome is DEDUPED, nothing is
    sent, and the table and the log stay as they are.
   */
  lemma RerunOnlyDedupes(sha256: string -> string, env: Env, db: Db, mode: WriteMode, replies: seq<Reply>,
      r1: OnboardingResult, repo1: string, f1: Option<int>, l1: seq<string>, t1: Texts,
      r2: OnboardingResult, repo2: string, f2: Option<int>, l2: seq<string>, t2: Texts, ds2: seq<Decision>)
    requires Signature.CollisionFree(sha256) && env == SignatureEnv(sha256, env.thresholds, env.render)
    requires "create_issue" in env.thresholds && db.pending == map[]
    requires repo1 != "" && repo2 != "" && SameName(repo1, repo2)
    requires LineClean(r1, repo1) && LineClean(r2, repo2)
    requires forall m :: m in r1.milestones && Cites(r1, m) ==>
               var d := IssueDecision(r1, m, repo1, f1, l1, t1); d.Success? && Recorded(env, db, d.value)
    requires forall m2 :: m2 in r2.milestones && Cites(r2, m2) ==>
               exists m1 :: m1 in r1.milestones && Cites(r1, m1)
                            && SameCitations(r1, m1, r2, m2)
    requires DecisionsUpTo(r2, |r2.milestones|, repo2, f2, l2, t2) == Success(ds2)
    requires |replies| == |ds2|
    ensures var (after, results) := RunFlow(env, db, ds2, mode, replies);
            && after == db && |results| == |ds2|
            && forall i :: 0 <= i < |results| ==> results[i].outcome == Deduped
  {
    forall i | 0 <= i < |ds2| ensures Recorded(env, db, ds2[i]) {
      var m2 := MilestoneOf(r2, |r2.milestones|, repo2, f2, l2, t2, i);
      var m1 :| m1 in r1.milestones && Cites(r1, m1) && SameCitations(r1, m1, r2, m2);
      SameKeyExactlyWhenSameCitations(sha256, r1, m1, repo1, f1, l1, t1, r2, m2, repo2, f2, l2, t2);
      assert Recorded(env, db, IssueDecision(r1, m1, repo1, f1, l1, t1).value);
    }
    RecordedFlowIsSilent(env, db, ds2, mode, replies);
  }

  lemma {:induction false} MilestoneOf(r: OnboardingResult, n: nat, repo: string, fallback: Option<int>,
                                       defaultLabels: seq<string>, texts: Texts, i: nat) returns (m: Milestone)
    requires n <= |r.milestones|
    requires DecisionsUpTo(r, n, repo, fallback, defaultLabels, texts).Success?
    requires i < |DecisionsUpTo(r, n, repo, fallback, defaultLabels, texts).value|
    ensures m in r.milestones && Cites(r, m)
    ensures IssueDecision(r, m, repo, fallback, defaultLabels, texts)
         == Success(DecisionsUpTo(r, n, repo, fallback, defaultLabels, texts).value[i])
  {
    if i < |DecisionsUpTo(r, n - 1, repo, fallback, defaultLabels, texts).value| {
      m := MilestoneOf(r, n - 1, repo, fallback, defaultLabels, texts, i);
    } else {
      m := r.milestones[n - 1];
    }
  }

  // ------------------------------------------------------------------
  // Milestone by milestone
  // ------------------------------------------------------------------

  /** The milestones that cite something, in order: those that get a decision. */
  function CitingUpTo(r: OnboardingResult, n: nat): seq<Milestone>
    requires n <= |r.milestones|
  {
    if n == 0 then []
    else
      var rest, m := CitingUpTo(r, n - 1), r.milestones[n - 1];
      if Cites(r, m) then rest + [m] else rest
  }

  function Citing(r: OnboardingResult): seq<Milestone> { CitingUpTo(r, |r.milestones|) }

  lemma {:induction false} DecisionsOfCiting(r: OnboardingResult, n: nat, repo: string, fallback: Option<int>,
                                             defaultLabels: seq<string>, texts: Texts)
    requires n <= |r.milestones| && DecisionsUpTo(r, n, repo, fallback, defaultLabels, texts).Success?
    ensures var ds, ms := DecisionsUpTo(r, n, repo, fallback, defaultLabels, texts).value, CitingUpTo(r, n);
            && |ds| == |ms|
            && forall i :: 0 <= i < |ds| ==>
                 Cites(r, ms[i]) && IssueDecision(r, ms[i], repo, fallback, defaultLabels, texts) == Success(ds[i])
  {
    hide IssueDecision, Cites;
    if n > 0 {
      DecisionsOfCiting(r, n - 1, repo, fallback, defaultLabels, texts);
    }
  }

  ghost predicate AllKeyed(env: Env, ds: seq<Decision>) {
    forall i :: 0 <= i < |ds| ==> ds[i].action in env.thresholds && KeyOf(env, ds[i], AGENT).Success?
  }

  /** The decision took effect, was logged in shadow mode, or was recorded before. */
  predicate Settles(r: DecisionResult, mode: WriteMode) { r.executed || mode == Shadow || r.outcome == Deduped }

  /** No entry about this key has been added. */
  ghost predicate Silent(before: seq<Entry>, after: seq<Entry>, key: Key) {
    before <= after && forall n :: |before| <= n < |after| ==> after[n].key != Some(key)
  }

  /** A flow answers every decision, keeps every row, dedupes what has one, and records what settles. */
  lemma {:induction false} FlowStep(env: Env, db: Db, ds: seq<Decision>, mode: WriteMode, replies: seq<Reply>, key: Key)
    requires |replies| == |ds| && AllKeyed(env, ds)
    ensures var (after, results) := RunFlow(env, db, ds, mode, replies);
            && |results| == |ds| && after.pending == map[] && db.log <= after.log
            && (Visible(db, key) ==> key in after.committed && Silent(db.log, after.log, key))
            && forall i :: 0 <= i < |ds| && KeyOf(env, ds[i], AGENT) == Success(key) ==>
                 (Visible(db, key) ==> results[i].outcome == Deduped)
                 && (Settles(results[i], mode) ==> key in after.committed)
    decreases |ds|
  {
    hide ExecuteDecision, Effects, Attempt, RowFor;
    if |ds| > 0 {
      var d, client := ds[0], if mode == Shadow then None else Some(replies[0]);
      var own := KeyOf(env, d, AGENT).value;
      OneCall(env, db, d, mode, client, AGENT);
      EffectsAreAbout(env, d, own, mode, client);
      var (db1, r) := ExecuteDecision(env, db, d, mode, client, true, AGENT, map[]);
      NeverDeduped(env, d, mode, client);
      FlowStep(env, db1, ds[1..], mode, replies[1..], key);
      var (after, results) := RunFlow(env, db, ds, mode, replies);
      assert results == [r.value] + RunFlow(env, db1, ds[1..], mode, replies[1..]).1;
      forall i | 0 <= i < |ds| && KeyOf(env, ds[i], AGENT) == Success(key)
        ensures (Visible(db, key) ==> results[i].outcome == Deduped)
        ensures (Settles(results[i], mode) ==> key in after.committed)
      {
        if i > 0 {
          assert ds[1..][i - 1] == ds[i];
        }
      }
    }
  }

  lemma EffectsAreAbout(env: Env, d: Decision, key: Key, mode: WriteMode, client: Option<Reply>)
    requires d.action in env.thresholds
    ensures forall n :: 0 <= n < |Effects(env, d, Some(key), mode, client)| ==>
              Effects(env, d, Some(key), mode, client)[n].key == Some(key)
  {}

  lemma NeverDeduped(env: Env, d: Decision, mode: WriteMode, client: Option<Reply>)
    requires d.action in env.thresholds
    ensures Attempt(env, d, mode, client).outcome != Deduped
  {}

  lemma IssuesAreKeyed(sha256: string -> string, env: Env, r: OnboardingResult, repo: string, f: Option<int>,
                       l: seq<string>,
                       t: Texts, ds: seq<Decision>)
    requires env == SignatureEnv(sha256, env.thresholds, env.render) && "create_issue" in env.thresholds
    requires repo != "" && LineClean(r, repo) && DecisionsUpTo(r, |r.milestones|, repo, f, l, t) == Success(ds)
    ensures AllKeyed(env, ds) && |ds| == |Citing(r)|
  {
    hide LineClean;
    DecisionsOfCiting(r, |r.milestones|, repo, f, l, t);
    forall i | 0 <= i < |ds| ensures ds[i].action in env.thresholds && KeyOf(env, ds[i], AGENT).Success? {
      IssueSignature(sha256, r, Citing(r)[i], repo, f, l, t);
    }
  }

  /**
    Onboarding twice. Whatever the client did in the first run: a milestone of the second
    run that cites the same file:line multiset as one that settled in the first run (it was
    created, downgraded to a comment, logged in shadow mode, or known before) is DEDUPED
    and nothing is sent for it, however titles, numbering and the other milestones changed.
   */
  lemma RerunDedupesWhatSettled(sha256: string -> string, env: Env, db: Db,
      r1: OnboardingResult, repo1: string, f1: Option<int>, l1: seq<string>, t1: Texts, ds1: seq<Decision>,
      mode1: WriteMode, replies1: seq<Reply>,
      r2: OnboardingResult, repo2: string, f2: Option<int>, l2: seq<string>, t2: Texts, ds2: seq<Decision>,
      mode2: WriteMode, replies2: seq<Reply>, i: nat, j: nat)
    requires Signature.CollisionFree(sha256) && env == SignatureEnv(sha256, env.thresholds, env.render)
    requires "create_issue" in env.thresholds
    requires repo1 != "" && repo2 != "" && SameName(repo1, repo2)
    requires LineClean(r1, repo1) && LineClean(r2, repo2)
    requires DecisionsUpTo(r1, |r1.milestones|, repo1, f1, l1, t1) == Success(ds1) && |replies1| == |ds1|
    requires DecisionsUpTo(r2, |r2.milestones|, repo2, f2, l2, t2) == Success(ds2) && |replies2| == |ds2|
    requires i < |Citing(r1)| && j < |Citing(r2)|
    requires SameCitations(r1, Citing(r1)[i], r2, Citing(r2)[j])
    ensures |RunFlow(env, db, ds1, mode1, replies1).1| == |Citing(r1)| && |ds2| == |Citing(r2)|
    ensures var (db1, results1) := RunFlow(env, db, ds1, mode1, replies1);
            var (db2, results2) := RunFlow(env, db1, ds2, mode2, replies2);
            Settles(results1[i], mode1) ==>
              && |results2| == |ds2| && results2[j].outcome == Deduped
              && KeyOf(env, ds2[j], AGENT).Success? && Silent(db1.log, db2.log, KeyOf(env, ds2[j], AGENT).value)
  {
    hide RunFlow, Citing, LineClean, Silent, Settles, IssueDecision;
    IssuesAreKeyed(sha256, env, r1, repo1, f1, l1, t1, ds1);
    IssuesAreKeyed(sha256, env, r2, repo2, f2, l2, t2, ds2);
    SameKeyAt(sha256, env, r1, repo1, f1, l1, t1, ds1, r2, repo2, f2, l2, t2, ds2, i, j);
    var key := KeyOf(env, ds2[j], AGENT).value;
    FlowStep(env, db, ds1, mode1, replies1, key);
    FlowStep(env, RunFlow(env, db, ds1, mode1, replies1).0, ds2, mode2, replies2, key);
  }

  lemma SameKeyAt(sha256: string -> string, env: Env,
      r1: OnboardingResult, repo1: string, f1: Option<int>, l1: seq<string>, t1: Texts, ds1: seq<Decision>,
      r2: OnboardingResult, repo2: string, f2: Option<int>, l2: seq<string>, t2: Texts, ds2: seq<Decision>,
      i: nat, j: nat)
    requires Signature.CollisionFree(sha256) && env == SignatureEnv(sha256, env.thresholds, env.render)
    requires repo1 != "" && repo2 != "" && SameName(repo1, repo2)
    requires LineClean(r1, repo1) && LineClean(r2, repo2)
    requires DecisionsUpTo(r1, |r1.milestones|, repo1, f1, l1, t1) == Success(ds1)
    requires DecisionsUpTo(r2, |r2.milestones|, repo2, f2, l2, t2) == Success(ds2)
    requires i < |Citing(r1)| && j < |Citing(r2)|
    requires SameCitations(r1, Citing(r1)[i], r2, Citing(r2)[j])
    ensures |ds1| == |Citing(r1)| && |ds2| == |Citing(r2)|
    ensures KeyOf(env, ds1[i], AGENT) == KeyOf(env, ds2[j], AGENT)
  {
    hide LineClean, IssueDecision, Cites;
    DecisionsOfCiting(r1, |r1.milestones|, repo1, f1, l1, t1);
    DecisionsOfCiting(r2, |r2.milestones|, repo2, f2, l2, t2);
    SameKeyExactlyWhenSameCitations(sha256, r1, Citing(r1)[i], repo1, f1, l1, t1, r2, Citing(r2)[j], repo2, f2, l2, t2);
  }
}
