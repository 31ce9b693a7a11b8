/**
  No session of an interleaving is ever stuck: it waits for the commit of another session
  that holds its key, and for nothing else, and every interleaving can be brought to an end.
 */
module Progress {
  import opened Common
  import opened Gate
  import opened Interleave
  import opened GateSteps

  /** The insert of this session is blocked by one that has not committed yet. */
  ghost predicate Waits(env: Env, sys: System, i: nat)
    requires Inv(env, sys) && i < |sys.sessions|
  {
    assert forall j :: 0 <= j < |sys.sessions| ==>
             WellFormed(env, sys.sessions[j]) && KeyOf(env, sys.sessions[j].decision, sys.sessions[j].agent).Success?;
    var s := sys.sessions[i];
    && s.phase == Called && s.attempt.Some? && ShouldRecord(s.attempt.value, s.mode, true)
    && !InTable(sys.table, KeyOfSession(env, s)) && HeldByAnother(env, sys, i)
  }

  /** A session whose client has answered ends with its next step or its commit, unless it has to wait. */
  lemma EndsUnlessItWaits(env: Env, sys: System, i: nat)
    requires Inv(env, sys) && i < |sys.sessions| && sys.sessions[i].phase == Called
    ensures Ending(env, sys, i).Some? <==> !Waits(env, sys, i)
  {
    hide HeldByAnother, ShouldRecord;
    assert SessionOk(env, sys.table, i, sys.sessions[i]);
  }

  /** How many steps a session has before it at most. */
  function StepsLeft(phase: Phase): nat {
    match phase
    case Start => 4
    case Gated => 3
    case Called => 2
    case Holding => 1
    case _ => 0
  }

  function AllStepsLeft(sessions: seq<Session>): nat {
    if |sessions| == 0 then 0
    else AllStepsLeft(sessions[..|sessions| - 1]) + StepsLeft(sessions[|sessions| - 1].phase)
  }

  lemma {:induction false} FewerLeft(sessions: seq<Session>, i: nat, s: Session)
    requires i < |sessions| && StepsLeft(s.phase) < StepsLeft(sessions[i].phase)
    ensures AllStepsLeft(sessions[i := s]) < AllStepsLeft(sessions)
  {
    var n := |sessions| - 1;
    if i == n {
      assert sessions[i := s][..n] == sessions[..n];
    } else {
      FewerLeft(sessions[..n], i, s);
      assert sessions[i := s][..n] == sessions[..n][i := s];
    }
  }

  /** The step a session takes next, when its client gives this reply. */
  function Next(s: Session, i: nat, reply: Reply): Action
    requires !Over(s)
  {
    match s.phase
    case Start => Lookup(i)
    case Gated => Call(i, reply)
    case Called => Record(i)
    case Holding => CommitRow(i)
  }

  /** A session that is not over and does not wait can take its next step, and then has fewer left. */
  lemma NextIsEnabled(env: Env, sys: System, i: nat, reply: Reply)
    requires Inv(env, sys) && i < |sys.sessions| && !Over(sys.sessions[i]) && !Waits(env, sys, i)
    ensures var after := Apply(env, sys, Next(sys.sessions[i], i, reply));
            && after.Some? && |after.value.sessions| == |sys.sessions|
            && after.value.sessions == sys.sessions[i := after.value.sessions[i]]
            && StepsLeft(after.value.sessions[i].phase) < StepsLeft(sys.sessions[i].phase)
  {
    hide HeldByAnother, ShouldRecord, Attempt, RowFor, RowIn;
    assert SessionOk(env, sys.table, i, sys.sessions[i]);
  }

  /** A session waits only for one that holds its key and can commit at once. */
  lemma SomeoneCanMove(env: Env, sys: System, i: nat) returns (j: nat)
    requires Inv(env, sys) && i < |sys.sessions| && !Over(sys.sessions[i])
    ensures j < |sys.sessions| && !Over(sys.sessions[j]) && !Waits(env, sys, j)
    ensures !Waits(env, sys, i) ==> j == i
    ensures Waits(env, sys, i) ==>
              && sys.sessions[j].phase == Holding
              && KeyOfSession(env, sys.sessions[j]) == KeyOfSession(env, sys.sessions[i])
  {
    hide SessionOk, InTable, ShouldRecord;
    j := i;
    if Waits(env, sys, i) {
      j :| 0 <= j < |sys.sessions| && j != i && sys.sessions[j].phase == Holding
           && KeyOfSession(env, sys.sessions[j]) == KeyOfSession(env, sys.sessions[i]);
    }
  }

  lemma AreWellFormed(env: Env, sys: System)
    requires Inv(env, sys)
    ensures forall k :: 0 <= k < |sys.sessions| ==> WellFormed(env, sys.sessions[k])
  {}

  /** Steps of living sessions whose clients reply as given. */
  ghost predicate LivingSteps(steps: seq<Action>, replies: seq<Reply>) {
    forall k :: 0 <= k < |steps| ==>
      !steps[k].Die? && (steps[k].Call? ==> steps[k].i < |replies| && steps[k].reply == replies[steps[k].i])
  }

  ghost predicate AllOver(sys: System) {
    forall i :: 0 <= i < |sys.sessions| ==> Over(sys.sessions[i])
  }

  lemma {:induction false} CanFinish(env: Env, sys: System, steps: seq<Action>, replies: seq<Reply>)
    returns (more: seq<Action>)
    requires Initial(env, sys) && Exec(env, sys, steps).Some? && |replies| == |sys.sessions|
    ensures LivingSteps(more, replies) && Exec(env, sys, steps + more).Some?
    ensures AllOver(Exec(env, sys, steps + more).value)
    decreases AllStepsLeft(Exec(env, sys, steps).value.sessions)
  {
    hide Inv, Initial, Apply, Waits, WellFormed, Exec;
    StartsWellFormed(env, sys);
    var now := Exec(env, sys, steps).value;
    EveryInterleavingKeepsInv(env, sys, steps);
    AreWellFormed(env, now);
    if AllOver(now) {
      more := [];
      assert steps + [] == steps;
    } else {
      var i: nat :| i < |now.sessions| && !Over(now.sessions[i]);
      var j := SomeoneCanMove(env, now, i);
      var a := Next(now.sessions[j], j, replies[j]);
      NextIsEnabled(env, now, j, replies[j]);
      var after := Apply(env, now, a).value;
      FewerLeft(now.sessions, j, after.sessions[j]);
      OneStepMore(env, sys, steps, a);
      var rest := CanFinish(env, sys, steps + [a], replies);
      more := [a] + rest;
      assert steps + more == steps + [a] + rest;
    }
  }

  lemma OneStepMore(env: Env, sys: System, steps: seq<Action>, a: Action)
    requires forall j :: 0 <= j < |sys.sessions| ==> WellFormed(env, sys.sessions[j])
    requires Exec(env, sys, steps).Some?
    ensures Exec(env, sys, steps + [a]) == Apply(env, Exec(env, sys, steps).value, a)
  {
    hide Apply, WellFormed;
    assert (steps + [a])[..|steps|] == steps;
  }

  lemma StartsWellFormed(env: Env, sys: System)
    requires Initial(env, sys)
    ensures forall j :: 0 <= j < |sys.sessions| ==> WellFormed(env, sys.sessions[j])
  {}

  /**
    Whatever has happened, and whatever the clients will reply: every interleaving goes on,
    without another death, to one in which all sessions are over.
   */
  lemma EveryInterleavingCanFinish(env: Env, sys: System, steps: seq<Action>, replies: seq<Reply>)
    requires Initial(env, sys) && Exec(env, sys, steps).Some? && |replies| == |sys.sessions|
    ensures exists more :: LivingSteps(more, replies) && Exec(env, sys, steps + more).Some?
                           && AllOver(Exec(env, sys, steps + more).value)
  {
    var more := CanFinish(env, sys, steps, replies);
  }
}
