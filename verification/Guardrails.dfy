/**
  `gita.agents.guardrails.verify_findings` and the confidence pipeline of the onboarding
  recipe, from whatever the model answers to the confidence of a Decision.
 */
module Guardrails {
  import opened Common
  import opened Decisions
  import opened Hunks
  import Onboarding

  type Finding = Onboarding.Finding
  type Milestone = Onboarding.Milestone

  datatype Indexed = Indexed(lineCount: nat, content: string, language: string)

  /** The regular expressions and `ast.parse`, as predicates. */
  datatype Checks = Checks(
    claimsSyntaxError: Finding -> bool,
    parsesCleanly: (string, string) -> bool,
    bannedPhrase: Finding -> bool)

  datatype Reason = FileNotFound | LineOutOfRange | SyntaxClaimOnValidFile | BannedPhrase

  /** The first guardrail a finding fails, if any. */
  function Verdict(f: Finding, index: map<string, Indexed>, diff: Option<seq<DiffHunk>>,
                   checks: Checks): Option<Reason> {
    if f.file !in index then Some(FileNotFound)
    else
      var row := index[f.file];
      if f.line > row.lineCount && (diff.None? || !LineInDiffRanges(f.file, f.line, diff.value)) then
        Some(LineOutOfRange)
      else if checks.claimsSyntaxError(f) && checks.parsesCleanly(row.content, row.language) then
        Some(SyntaxClaimOnValidFile)
      else if checks.bannedPhrase(f) then Some(BannedPhrase)
      else None
  }

  function Verified(fs: seq<Finding>, index: map<string, Indexed>, diff: Option<seq<DiffHunk>>,
                    checks: Checks): seq<Finding> {
    if |fs| == 0 then []
    else
      var rest, f := Verified(fs[..|fs| - 1], index, diff, checks), fs[|fs| - 1];
      if Verdict(f, index, diff, checks).None? then rest + [f] else rest
  }

  function Dropped(fs: seq<Finding>, index: map<string, Indexed>, diff: Option<seq<DiffHunk>>,
                   checks: Checks): seq<(Finding, Reason)> {
    if |fs| == 0 then []
    else
      var rest, f := Dropped(fs[..|fs| - 1], index, diff, checks), fs[|fs| - 1];
      match Verdict(f, index, diff, checks)
      case None => rest
      case Some(reason) => rest + [(f, reason)]
  }

  /** `verify_findings`, guardrail by guardrail. */
  method VerifyFindings(fs: seq<Finding>, index: map<string, Indexed>, diff: Option<seq<DiffHunk>>, checks: Checks)
    returns (verified: seq<Finding>, dropped: seq<(Finding, Reason)>)
    ensures verified == Verified(fs, index, diff, checks)
    ensures dropped == Dropped(fs, index, diff, checks)
  {
    verified, dropped := [], [];
    for n := 0 to |fs|
      invariant verified == Verified(fs[..n], index, diff, checks)
      invariant dropped == Dropped(fs[..n], index, diff, checks)
    {
      assert fs[..n + 1][..n] == fs[..n];
      var f := fs[n];
      if f.file !in index {
        dropped := dropped + [(f, FileNotFound)];
        continue;
      }
      var row := index[f.file];
      if f.line > row.lineCount {
        var inDiff := false;
        if diff.Some? {
          inDiff := FindLine(f.file, f.line, diff.value);
        }
        if !inDiff {
          dropped := dropped + [(f, LineOutOfRange)];
          continue;
        }
      }
      if checks.claimsSyntaxError(f) {
        if checks.parsesCleanly(row.content, row.language) {
          dropped := dropped + [(f, SyntaxClaimOnValidFile)];
          continue;
        }
      }
      if checks.bannedPhrase(f) {
        dropped := dropped + [(f, BannedPhrase)];
        continue;
      }
      verified := verified + [f];
    }
    assert fs[..|fs|] == fs;
  }

  /** One guardrail on its own; those about the file's contents pass when there is no file. */
  ghost predicate Passes(f: Finding, guardrail: Reason, index: map<string, Indexed>, diff: Option<seq<DiffHunk>>,
                         checks: Checks) {
    match guardrail
    case FileNotFound => f.file in index
    case LineOutOfRange =>
      f.file in index ==>
        f.line <= index[f.file].lineCount || (diff.Some? && LineInDiffRanges(f.file, f.line, diff.value))
    case SyntaxClaimOnValidFile =>
      f.file in index && checks.claimsSyntaxError(f) ==>
        !checks.parsesCleanly(index[f.file].content, index[f.file].language)
    case BannedPhrase => !checks.bannedPhrase(f)
  }

  const GUARDRAILS: seq<Reason> := [FileNotFound, LineOutOfRange, SyntaxClaimOnValidFile, BannedPhrase]

  /** A finding survives exactly if it passes every guardrail, and is dropped for the first it fails. */
  lemma VerdictIsTheFirstFailure(f: Finding, index: map<string, Indexed>, diff: Option<seq<DiffHunk>>, checks: Checks,
                                 k: nat)
    requires k < |GUARDRAILS|
    ensures Verdict(f, index, diff, checks) == None <==> forall g :: Passes(f, g, index, diff, checks)
    ensures Verdict(f, index, diff, checks) == Some(GUARDRAILS[k])
       <==> !Passes(f, GUARDRAILS[k], index, diff, checks)
            && forall j :: 0 <= j < k ==> Passes(f, GUARDRAILS[j], index, diff, checks)
  {
    hide LineInDiffRanges;
    var verdict := Verdict(f, index, diff, checks);
    assert GUARDRAILS[0] == FileNotFound && GUARDRAILS[1] == LineOutOfRange
           && GUARDRAILS[2] == SyntaxClaimOnValidFile && GUARDRAILS[3] == BannedPhrase;
    if verdict == None {
      forall g ensures Passes(f, g, index, diff, checks) {}
    } else {
      assert !Passes(f, verdict.value, index, diff, checks);
    }
  }

  // ------------------------------------------------------------------
  // The partition
  // ------------------------------------------------------------------

  /** `part` and `others` interleave to the whole, each in its own order. */
  ghost predicate Interleaves(whole: seq<Finding>, part: seq<Finding>, others: seq<Finding>)
    decreases |whole|
  {
    if |whole| == 0 then part == [] && others == []
    else
      var front, last := whole[..|whole| - 1], whole[|whole| - 1];
      || (|part| > 0 && part[|part| - 1] == last && Interleaves(front, part[..|part| - 1], others))
      || (|others| > 0 && others[|others| - 1] == last && Interleaves(front, part, others[..|others| - 1]))
  }

  function FindingsOf(dropped: seq<(Finding, Reason)>): seq<Finding> {
    seq(|dropped|, i requires 0 <= i < |dropped| => dropped[i].0)
  }

  lemma InterleaveMore(whole: seq<Finding>, part: seq<Finding>, others: seq<Finding>, f: Finding)
    requires Interleaves(whole, part, others)
    ensures Interleaves(whole + [f], part + [f], others) && Interleaves(whole + [f], part, others + [f])
  {
    assert (whole + [f])[..|whole|] == whole && (part + [f])[..|part|] == part && (others + [f])[..|others|] == others;
  }

  lemma {:induction false} TheyInterleave(fs: seq<Finding>, index: map<string, Indexed>, diff: Option<seq<DiffHunk>>,
                                          checks: Checks)
    ensures Interleaves(fs, Verified(fs, index, diff, checks), FindingsOf(Dropped(fs, index, diff, checks)))
    ensures |Verified(fs, index, diff, checks)| + |Dropped(fs, index, diff, checks)| == |fs|
  {
    hide Verdict, Interleaves;
    if |fs| == 0 {
      NothingInterleaves();
      assert FindingsOf([]) == [];
    } else {
      var front, last := fs[..|fs| - 1], fs[|fs| - 1];
      TheyInterleave(front, index, diff, checks);
      assert fs == front + [last];
      var v, d := Verified(front, index, diff, checks), Dropped(front, index, diff, checks);
      InterleaveMore(front, v, FindingsOf(d), last);
      if Verdict(last, index, diff, checks).Some? {
        var reason := Verdict(last, index, diff, checks).value;
        assert FindingsOf(d + [(last, reason)]) == FindingsOf(d) + [last];
      }
    }
  }

  lemma NothingInterleaves()
    ensures Interleaves([], [], [])
  {}

  lemma {:induction false} VerifiedPass(fs: seq<Finding>, index: map<string, Indexed>, diff: Option<seq<DiffHunk>>,
                                        checks: Checks)
    ensures forall i :: 0 <= i < |Verified(fs, index, diff, checks)| ==>
              Verdict(Verified(fs, index, diff, checks)[i], index, diff, checks) == None
  {
    hide Verdict;
    if |fs| > 0 {
      VerifiedPass(fs[..|fs| - 1], index, diff, checks);
    }
  }

  lemma {:induction false} DroppedFail(fs: seq<Finding>, index: map<string, Indexed>, diff: Option<seq<DiffHunk>>,
                                       checks: Checks)
    ensures forall i :: 0 <= i < |Dropped(fs, index, diff, checks)| ==>
              var (f, reason) := Dropped(fs, index, diff, checks)[i];
              Verdict(f, index, diff, checks) == Some(reason)
  {
    hide Verdict;
    if |fs| > 0 {
      DroppedFail(fs[..|fs| - 1], index, diff, checks);
    }
  }

  /**
    Verified and dropped findings split the input, each keeping its order; what is verified
    passes all four guardrails, and every dropped finding carries the first one it fails.
   */
  lemma GuardrailsPartition(fs: seq<Finding>, index: map<string, Indexed>, diff: Option<seq<DiffHunk>>, checks: Checks)
    ensures Interleaves(fs, Verified(fs, index, diff, checks), FindingsOf(Dropped(fs, index, diff, checks)))
    ensures |Verified(fs, index, diff, checks)| + |Dropped(fs, index, diff, checks)| == |fs|
    ensures forall i :: 0 <= i < |Verified(fs, index, diff, checks)| ==>
              Verdict(Verified(fs, index, diff, checks)[i], index, diff, checks) == None
    ensures forall i :: 0 <= i < |Dropped(fs, index, diff, checks)| ==>
              var (f, reason) := Dropped(fs, index, diff, checks)[i];
              Verdict(f, index, diff, checks) == Some(reason)
  {
    hide Verdict, Verified, Dropped, FindingsOf, Interleaves;
    TheyInterleave(fs, index, diff, checks);
    VerifiedPass(fs, index, diff, checks);
    DroppedFail(fs, index, diff, checks);
  }

  // ------------------------------------------------------------------
  // Confidence
  // ------------------------------------------------------------------

  function Min(a: real, b: real): real { if b < a then b else a }

  function Max(a: real, b: real): real { if b > a then b else a }

  /** `max(0.0, min(1.0, x))`. */
  function Clamp(x: real): real { Max(0.0, Min(1.0, x)) }

  /** `structural_confidence`. */
  function StructuralConfidence(original: nat, verified: nat, llm: real): real {
    if original == 0 then llm
    else Max(0.1, Min(1.0, llm * (verified as real / original as real)))
  }

  function SumConfidence(ms: seq<Milestone>): real {
    if |ms| == 0 then 0.0 else SumConfidence(ms[..|ms| - 1]) + ms[|ms| - 1].confidence
  }

  /** `_overall_confidence`. */
  function OverallConfidence(hasFindings: bool, ms: seq<Milestone>): real {
    if |ms| == 0 then (if hasFindings then 0.5 else 0.3)
    else Clamp(SumConfidence(ms) / |ms| as real)
  }

  /** A milestone as the model proposes it: any indices, any real as confidence. */
  datatype Proposal = Proposal(title: string, summary: string, findingIndices: seq<int>, confidence: real)

  function Converted(ps: seq<Proposal>, n: nat): seq<Milestone> {
    if |ps| == 0 then []
    else
      var rest, p := Converted(ps[..|ps| - 1], n), ps[|ps| - 1];
      var valid := Onboarding.ValidIndices(p.findingIndices, n);
      if |valid| == 0 then rest
      else rest + [Onboarding.Milestone(p.title, p.summary, valid, Clamp(p.confidence))]
  }

  /** `_convert_milestones`. */
  method ConvertMilestones(ps: seq<Proposal>, n: nat) returns (ms: seq<Milestone>)
    ensures ms == Converted(ps, n)
  {
    ms := [];
    for k := 0 to |ps|
      invariant ms == Converted(ps[..k], n)
    {
      assert ps[..k + 1][..k] == ps[..k];
      var valid := Onboarding.ValidIndices(ps[k].findingIndices, n);
      if |valid| == 0 {
        continue;
      }
      ms := ms + [Onboarding.Milestone(ps[k].title, ps[k].summary, valid, Clamp(ps[k].confidence))];
    }
    assert ps[..|ps|] == ps;
  }

  /** The confidence of an onboarding result, from the findings and the model's milestones. */
  function FinalConfidence(fs: seq<Finding>, verified: seq<Finding>, ps: seq<Proposal>): real {
    var ms := if |verified| == 0 then [] else Converted(ps, |verified|);
    StructuralConfidence(|fs|, |verified|, OverallConfidence(|verified| > 0, ms))
  }

  lemma {:induction false} ConvertedIsSafe(ps: seq<Proposal>, n: nat)
    ensures forall i :: 0 <= i < |Converted(ps, n)| ==>
              0.0 <= Converted(ps, n)[i].confidence <= 1.0 && Converted(ps, n)[i].findingIndices != []
    ensures forall i, k :: 0 <= i < |Converted(ps, n)| && 0 <= k < |Converted(ps, n)[i].findingIndices| ==>
              0 <= Converted(ps, n)[i].findingIndices[k] < n
  {
    if |ps| > 0 {
      ConvertedIsSafe(ps[..|ps| - 1], n);
    }
  }

  ghost predicate HasValidIndex(p: Proposal, n: nat) {
    exists i :: 0 <= i < |p.findingIndices| && 0 <= p.findingIndices[i] < n
  }

  /** The proposal in the model's words, with its valid indices only and its confidence moved into [0, 1]. */
  ghost predicate IsMilestoneFor(p: Proposal, n: nat, m: Milestone) {
    && m.title == p.title && m.summary == p.summary
    && (exists at :: Onboarding.KeepsValid(p.findingIndices, n, m.findingIndices, at))
    && (p.confidence < 0.0 ==> m.confidence == 0.0)
    && (0.0 <= p.confidence <= 1.0 ==> m.confidence == p.confidence)
    && (p.confidence > 1.0 ==> m.confidence == 1.0)
  }

  /** ms are the milestones of the proposals with a valid index, in their order. */
  ghost predicate AreMilestonesOf(ps: seq<Proposal>, n: nat, ms: seq<Milestone>, at: seq<int>) {
    && |at| == |ms|
    && (forall i :: 0 <= i < |at| ==> 0 <= at[i] < |ps| && IsMilestoneFor(ps[at[i]], n, ms[i]))
    && (forall i, j :: 0 <= i < j < |at| ==> at[i] < at[j])
    && forall q :: 0 <= q < |ps| ==> (q in at <==> HasValidIndex(ps[q], n))
  }

  lemma {:induction false} MilestonesFollowProposals(ps: seq<Proposal>, n: nat)
    ensures exists at :: AreMilestonesOf(ps, n, Converted(ps, n), at)
  {
    hide Converted, AreMilestonesOf, HasValidIndex, IsMilestoneFor;
    if |ps| == 0 {
      NoMilestones(n);
    } else {
      var front, p := ps[..|ps| - 1], ps[|ps| - 1];
      MilestonesFollowProposals(front, n);
      LastMilestone(ps, n);
      var at :| AreMilestonesOf(front, n, Converted(front, n), at);
      assert ps == front + [p];
      if HasValidIndex(p, n) {
        var m := Converted(ps, n)[|Converted(front, n)|];
        OneMilestoneMore(front, p, n, Converted(front, n), m, at);
      } else {
        NoMilestoneMore(front, p, n, Converted(front, n), at);
      }
    }
  }

  lemma NoMilestones(n: nat)
    ensures AreMilestonesOf([], n, Converted([], n), [])
  {}

  lemma LastMilestone(ps: seq<Proposal>, n: nat)
    requires |ps| > 0
    ensures var rest, p, all := Converted(ps[..|ps| - 1], n), ps[|ps| - 1], Converted(ps, n);
            if HasValidIndex(p, n) then |all| == |rest| + 1 && all == rest + [all[|rest|]]
                                        && IsMilestoneFor(p, n, all[|rest|])
            else all == rest
  {
    hide Onboarding.ValidIndices, Onboarding.KeepsValid;
    var p := ps[|ps| - 1];
    Onboarding.SomeAreValid(p.findingIndices, n);
    Onboarding.ValidIndicesAre(p.findingIndices, n);
  }

  lemma NoMilestoneMore(ps: seq<Proposal>, p: Proposal, n: nat, ms: seq<Milestone>, at: seq<int>)
    requires AreMilestonesOf(ps, n, ms, at) && !HasValidIndex(p, n)
    ensures AreMilestonesOf(ps + [p], n, ms, at)
  {
    hide IsMilestoneFor, HasValidIndex;
    forall q | 0 <= q <= |ps| ensures q in at <==> HasValidIndex((ps + [p])[q], n) {
      assert q < |ps| ==> (q in at <==> HasValidIndex(ps[q], n));
    }
  }

  lemma OneMilestoneMore(ps: seq<Proposal>, p: Proposal, n: nat, ms: seq<Milestone>, m: Milestone, at: seq<int>)
    requires AreMilestonesOf(ps, n, ms, at) && HasValidIndex(p, n) && IsMilestoneFor(p, n, m)
    ensures AreMilestonesOf(ps + [p], n, ms + [m], at + [|ps|])
  {
    hide IsMilestoneFor, HasValidIndex;
    forall q | 0 <= q <= |ps| ensures q in at + [|ps|] <==> HasValidIndex((ps + [p])[q], n) {
      assert q < |ps| ==> (q in at <==> HasValidIndex(ps[q], n));
    }
  }

  lemma ProductBound(a: real, b: real)
    requires 0.0 <= a <= 1.0 && 0.0 <= b <= 1.0
    ensures 0.0 <= a * b <= 1.0
  {
    var c := 1.0 - a;
    assert a * b >= 0.0 && c * b >= 0.0;
    assert a * b + c * b == (a + c) * b == b;
  }

  lemma StructuralBounds(original: nat, verified: nat, llm: real)
    requires 0.0 <= llm <= 1.0
    ensures 0.0 <= StructuralConfidence(original, verified, llm) <= 1.0
  {}

  /** More verified findings never lower the confidence. */
  lemma StructuralMonotone(original: nat, few: nat, many: nat, llm: real)
    requires few <= many && llm >= 0.0
    ensures StructuralConfidence(original, few, llm) <= StructuralConfidence(original, many, llm)
  {
    if original > 0 {
      var o, a, b := original as real, few as real, many as real;
      assert a / o <= b / o by { QuotientMonotone(a, b, o); }
      ProductMonotone(llm, a / o, b / o);
    }
  }

  lemma QuotientMonotone(a: real, b: real, o: real)
    requires a <= b && o > 0.0
    ensures a / o <= b / o
  {}

  lemma ProductMonotone(x: real, a: real, b: real)
    requires a <= b && x >= 0.0
    ensures x * a <= x * b
  {}

  /**
    The confidence is the model's times the pass rate, but at least 0.1; without findings
    there is nothing to verify and the model's stands.
   */
  lemma StructuralIsPassRate(original: nat, verified: nat, llm: real)
    requires verified <= original && 0.0 <= llm <= 1.0
    ensures var c, o, v := StructuralConfidence(original, verified, llm), original as real, verified as real;
            && (original == 0 ==> c == llm)
            && (original > 0 && llm * v >= 0.1 * o ==> c * o == llm * v)
            && (original > 0 && llm * v < 0.1 * o ==> c == 0.1)
  {
    if original > 0 {
      var o, v := original as real, verified as real;
      var blend := llm * (v / o);
      assert v / o <= 1.0 by { QuotientMonotone(v, o, o); }
      ProductBound(llm, v / o);
      assert blend * o == llm * v by {
        assert (v / o) * o == v;
      }
      Cancel(blend, 0.1, o);
    }
  }

  lemma Cancel(a: real, b: real, o: real)
    requires o > 0.0
    ensures a * o >= b * o <==> a >= b
  {}

  /** Changing one milestone's confidence moves the overall confidence by its share. */
  lemma OverallIsTheMean(hasFindings: bool, ms: seq<Milestone>, i: nat, c: real)
    requires i < |ms| && 0.0 <= c <= 1.0 && forall k :: 0 <= k < |ms| ==> 0.0 <= ms[k].confidence <= 1.0
    ensures var moved := OverallConfidence(hasFindings, ms[i := ms[i].(confidence := c)]);
            (moved - OverallConfidence(hasFindings, ms)) * |ms| as real == c - ms[i].confidence
    ensures (forall k :: 0 <= k < |ms| ==> ms[k].confidence == c) ==> OverallConfidence(hasFindings, ms) == c
  {
    hide OverallConfidence, SumConfidence;
    var ms' := ms[i := ms[i].(confidence := c)];
    OverallTimesCount(hasFindings, ms);
    OverallTimesCount(hasFindings, ms');
    SumMoves(ms, i, c);
    if forall k :: 0 <= k < |ms| ==> ms[k].confidence == c {
      SumOfEqual(ms, c);
      Same(OverallConfidence(hasFindings, ms), c, |ms| as real);
    }
  }

  lemma Same(a: real, b: real, n: real)
    requires n > 0.0 && a * n == b * n
    ensures a == b
  {}

  lemma OverallTimesCount(hasFindings: bool, ms: seq<Milestone>)
    requires |ms| > 0 && forall k :: 0 <= k < |ms| ==> 0.0 <= ms[k].confidence <= 1.0
    ensures OverallConfidence(hasFindings, ms) * |ms| as real == SumConfidence(ms)
  {
    hide SumConfidence;
    SumBounds(ms);
    MeanOf(SumConfidence(ms), |ms| as real);
  }

  lemma MeanOf(sum: real, n: real)
    requires n > 0.0 && 0.0 <= sum <= n
    ensures 0.0 <= sum / n <= 1.0 && sum / n * n == sum
  {}

  lemma {:induction false} SumBounds(ms: seq<Milestone>)
    requires forall k :: 0 <= k < |ms| ==> 0.0 <= ms[k].confidence <= 1.0
    ensures 0.0 <= SumConfidence(ms) <= |ms| as real
  {
    if |ms| > 0 {
      SumBounds(ms[..|ms| - 1]);
    }
  }

  lemma {:induction false} SumMoves(ms: seq<Milestone>, i: nat, c: real)
    requires i < |ms|
    ensures SumConfidence(ms[i := ms[i].(confidence := c)]) == SumConfidence(ms) + c - ms[i].confidence
  {
    var n := |ms| - 1;
    var ms' := ms[i := ms[i].(confidence := c)];
    if i == n {
      assert ms'[..n] == ms[..n];
    } else {
      SumMoves(ms[..n], i, c);
      assert ms'[..n] == ms[..n][i := ms[i].(confidence := c)];
    }
  }

  lemma {:induction false} SumOfEqual(ms: seq<Milestone>, c: real)
    requires forall k :: 0 <= k < |ms| ==> ms[k].confidence == c
    ensures SumConfidence(ms) == c * |ms| as real
  {
    if |ms| > 0 {
      SumOfEqual(ms[..|ms| - 1], c);
    }
  }

  /** The confidence of a result that has no milestones. */
  lemma WithoutMilestones(fs: seq<Finding>, verified: seq<Finding>, ps: seq<Proposal>)
    requires |verified| <= |fs|
    requires verified == [] || forall i :: 0 <= i < |ps| ==> !HasValidIndex(ps[i], |verified|)
    ensures var c, o, v := FinalConfidence(fs, verified, ps), |fs| as real, |verified| as real;
            && (fs == [] ==> c == 0.3)
            && (fs != [] && verified == [] ==> c == 0.1)
            && (v >= 0.2 * o && verified != [] ==> c * o == 0.5 * v)
            && (v < 0.2 * o && verified != [] ==> c == 0.1)
  {
    hide StructuralConfidence, HasValidIndex, Converted;
    if verified != [] {
      NothingConverted(ps, |verified|);
      StructuralIsPassRate(|fs|, |verified|, 0.5);
    } else {
      StructuralIsPassRate(|fs|, 0, 0.3);
    }
  }

  lemma {:induction false} NothingConverted(ps: seq<Proposal>, n: nat)
    requires forall i :: 0 <= i < |ps| ==> !HasValidIndex(ps[i], n)
    ensures Converted(ps, n) == []
  {
    hide HasValidIndex, IsMilestoneFor;
    if |ps| > 0 {
      LastMilestone(ps, n);
      NothingConverted(ps[..|ps| - 1], n);
    }
  }

  /**
    Whatever reals and indices the model supplies, building the onboarding comment and the
    issue decisions never raises: every confidence on the way lies in [0, 1].
   */
  lemma DecisionsNeverRaise(fs: seq<Finding>, verified: seq<Finding>, ps: seq<Proposal>,
                            target: Target, payload: Payload, evidence: seq<string>)
    ensures Make("comment", target, payload, evidence, FinalConfidence(fs, verified, ps)).Success?
    ensures forall i :: 0 <= i < |Converted(ps, |verified|)| ==>
              Make("create_issue", target, payload, evidence, Converted(ps, |verified|)[i].confidence).Success?
  {
    ConvertedIsSafe(ps, |verified|);
    var ms := if |verified| == 0 then [] else Converted(ps, |verified|);
    StructuralBounds(|fs|, |verified|, OverallConfidence(|verified| > 0, ms));
  }

  // ------------------------------------------------------------------
  // Picking files
  // ------------------------------------------------------------------

  /** The valid picks among the first n, each once, in the order of first mention. */
  function DistinctPicks(picks: seq<int>, n: nat, files: nat): seq<int>
    requires n <= |picks|
  {
    if n == 0 then []
    else
      var rest, idx := DistinctPicks(picks, n - 1, files), picks[n - 1];
      if idx in rest || !(0 <= idx < files) then rest else rest + [idx]
  }

  /** They are distinct, valid, and all the valid ones. */
  lemma {:induction false} PicksAreDistinct(picks: seq<int>, n: nat, files: nat, x: int)
    requires n <= |picks|
    ensures x in DistinctPicks(picks, n, files) <==> x in picks[..n] && 0 <= x < files
    ensures var r := DistinctPicks(picks, n, files); forall i, j :: 0 <= i < j < |r| ==> r[i] != r[j]
  {
    if n > 0 {
      PicksAreDistinct(picks, n - 1, files, x);
      assert picks[..n] == picks[..n - 1] + [picks[n - 1]];
    }
  }

  lemma {:induction false} PicksGrow(picks: seq<int>, n: nat, files: nat)
    requires n <= |picks|
    ensures DistinctPicks(picks, n, files) <= DistinctPicks(picks, |picks|, files)
    decreases |picks| - n
  {
    if n < |picks| {
      PickStep(picks, n, files);
      PicksGrow(picks, n + 1, files);
    }
  }

  lemma PickStep(picks: seq<int>, n: nat, files: nat)
    requires n < |picks|
    ensures var rest, idx := DistinctPicks(picks, n, files), picks[n];
            DistinctPicks(picks, n + 1, files) == rest + (if idx in rest || !(0 <= idx < files) then [] else [idx])
  {}

  lemma NoPicks(picks: seq<int>, files: nat)
    ensures DistinctPicks(picks, 0, files) == []
  {}

  /**
    The pick-validation loop: the first `limit` distinct valid picks, or the first three
    files. A limit of zero or less still looks at the first pick.
   */
  method ValidatePicks(picks: seq<int>, files: nat, limit: int) returns (valid: seq<int>)
    ensures var all := DistinctPicks(picks, if limit > 0 || picks == [] then |picks| else 1, files);
            if all == [] then valid == seq(if files < 3 then files else 3, i => i)
            else valid == if limit <= 0 || |all| <= limit then all else all[..limit]
  {
    hide DistinctPicks;
    NoPicks(picks, files);
    valid := [];
    var seen: set<int> := {};
    var n := 0;
    while n < |picks|
      invariant n <= |picks|
      invariant valid == DistinctPicks(picks, n, files)
      invariant |valid| < limit || (limit <= 0 && n == 0)
      invariant forall x :: x in seen <==> x in valid
    {
      var idx := picks[n];
      PickStep(picks, n, files);
      n := n + 1;
      if idx in seen {
        continue;
      }
      if 0 <= idx < files {
        valid := valid + [idx];
        seen := seen + {idx};
      }
      if |valid| >= limit {
        break;
      }
    }
    PicksGrow(picks, n, files);
    if valid == [] {
      valid := seq(if files < 3 then files else 3, i => i);
    }
  }
}
