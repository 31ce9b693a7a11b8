/**
  Which schedules keep an effect from happening twice? A schedule says in which order the
  sessions take their steps; what the client replies is open. A step that is not enabled
  when its turn comes (a blocked insert, a commit without an insert) is not taken.
 */
module Schedules {
  import opened Common
  import opened Decisions
  import opened Gate
  import opened Interleave

  function WithReply(a: Action, replies: seq<Reply>): Action {
    if a.Call? then Call(a.i, if a.i < |replies| then replies[a.i] else Raises("")) else a
  }

  /** The system after the schedule, when session i's client call gets the i-th reply. */
  function Perform(env: Env, sys: System, schedule: seq<Action>, replies: seq<Reply>): (after: System)
    requires forall j :: 0 <= j < |sys.sessions| ==> WellFormed(env, sys.sessions[j])
    ensures SameSessions(sys, after) && forall j :: 0 <= j < |after.sessions| ==> WellFormed(env, after.sessions[j])
    decreases |schedule|
  {
    if |schedule| == 0 then sys
    else
      var mid := Perform(env, sys, schedule[..|schedule| - 1], replies);
      var step := WithReply(schedule[|schedule| - 1], replies);
      ApplyKeepsSessions(env, mid, step);
      match Apply(env, mid, step)
      case None => mid
      case Some(next) => next
  }

  /** Every performance is an interleaving: leave out the steps that were not taken. */
  lemma {:induction false} PerformIsAnInterleaving(env: Env, sys: System, schedule: seq<Action>, replies: seq<Reply>)
    returns (steps: seq<Action>)
    requires Initial(env, sys)
    ensures Exec(env, sys, steps) == Some(Perform(env, sys, schedule, replies))
    decreases |schedule|
  {
    if |schedule| == 0 {
      steps := [];
    } else {
      var n := |schedule| - 1;
      steps := PerformIsAnInterleaving(env, sys, schedule[..n], replies);
      var mid, a := Perform(env, sys, schedule[..n], replies), WithReply(schedule[n], replies);
      if Apply(env, mid, a).Some? {
        OneMore(env, sys, steps, mid, a, Apply(env, mid, a).value);
        steps := steps + [a];
      }
    }
  }

  // ------------------------------------------------------------------
  // What the schedule alone says
  // ------------------------------------------------------------------

  datatype Stage = NotStarted | LookedUp | Acted | Inserting | Committed | Died

  /** How far the schedule takes session i, if nothing gets in its way. */
  function StageOf(schedule: seq<Action>, i: nat): Stage {
    if |schedule| == 0 then NotStarted
    else
      var stage, a := StageOf(schedule[..|schedule| - 1], i), schedule[|schedule| - 1];
      if a.i != i then stage
      else match a
        case Lookup(_) => if stage == NotStarted then LookedUp else stage
        case Call(_, _) => if stage == LookedUp then Acted else stage
        case Record(_) => if stage == Acted then Inserting else stage
        case CommitRow(_) => if stage == Inserting then Committed else stage
        case Die(_) => if stage == Committed then stage else Died
  }

  /** Between its own lookup and its own commit, or dead: a window that has opened and not closed. */
  predicate InWindow(stage: Stage) { stage != NotStarted && stage != Committed }

  /** The schedule lets session i call the client. */
  predicate Calls(schedule: seq<Action>, i: nat) {
    |schedule| > 0 &&
    var front, a := schedule[..|schedule| - 1], schedule[|schedule| - 1];
    Calls(front, i) || (a.Call? && a.i == i && StageOf(front, i) == LookedUp)
  }

  /** Session j looks up while session i is in its window. */
  predicate Overlaps(schedule: seq<Action>, i: nat, j: nat) {
    |schedule| > 0 &&
    var front, a := schedule[..|schedule| - 1], schedule[|schedule| - 1];
    Overlaps(front, i, j) || (a == Lookup(j) && StageOf(front, j) == NotStarted && InWindow(StageOf(front, i)))
  }

  /** A session that may have something to record: in shadow mode, or with a client. */
  predicate Contends(s: Session) { s.mode == Shadow || s.hasClient }

  ghost predicate About(env: Env, sys: System, key: Key, i: nat)
    requires forall j :: 0 <= j < |sys.sessions| ==> WellFormed(env, sys.sessions[j])
  {
    i < |sys.sessions| && WellFormed(env, sys.sessions[i]) && KeyOfSession(env, sys.sessions[i]) == key
  }

  /** Two sessions of one key that call, the second looking up inside the window of the first. */
  ghost predicate Clash(env: Env, sys: System, schedule: seq<Action>, key: Key, i: nat, j: nat)
    requires forall j :: 0 <= j < |sys.sessions| ==> WellFormed(env, sys.sessions[j])
  {
    && i != j && About(env, sys, key, i) && About(env, sys, key, j)
    && Contends(sys.sessions[i]) && Contends(sys.sessions[j])
    && Calls(schedule, i) && Calls(schedule, j) && Overlaps(schedule, i, j)
  }

  ghost predicate LandsOnce(env: Env, sys: System, key: Key)
    requires forall j :: 0 <= j < |sys.sessions| ==> WellFormed(env, sys.sessions[j])
  {
    forall i: nat, j: nat :: i < j && About(env, sys, key, i) && About(env, sys, key, j) ==>
      !(sys.sessions[i].landed && sys.sessions[j].landed)
  }

  // ------------------------------------------------------------------
  // Without a clash every effect happens once
  // ------------------------------------------------------------------

  ghost predicate Recordable(s: Session) {
    s.attempt.Some? && ShouldRecord(s.attempt.value, s.mode, true)
  }

  /** How a session stands, against what the schedule says about it. */
  ghost predicate Tracks(schedule: seq<Action>, table: seq<TableRow>, key: Key, i: nat, s: Session) {
    var stage := StageOf(schedule, i);
    && (s.phase == Start <==> stage == NotStarted)
    && (s.phase == Gated ==> stage == LookedUp)
    && (Recordable(s) ==>
          && Calls(schedule, i) && Contends(s)
          && stage !in {NotStarted, LookedUp}
          && (stage == Acted ==> s.phase == Called)
          && (stage == Inserting ==> s.phase == Holding || InTable(table, key))
          && (stage == Committed ==> InTable(table, key)))
  }

  /** A session that will call, or has something to record. */
  ghost predicate Counts(s: Session) { s.phase == Gated || Recordable(s) }

  ghost predicate BothCount(env: Env, sys: System, key: Key, i: nat, j: nat)
    requires forall j :: 0 <= j < |sys.sessions| ==> WellFormed(env, sys.sessions[j])
  {
    i != j && About(env, sys, key, i) && About(env, sys, key, j) && Counts(sys.sessions[i]) && Counts(sys.sessions[j])
  }

  ghost predicate Tracked(env: Env, sys: System, schedule: seq<Action>, key: Key)
    requires forall j :: 0 <= j < |sys.sessions| ==> WellFormed(env, sys.sessions[j])
  {
    && (forall i: nat :: About(env, sys, key, i) ==> Tracks(schedule, sys.table, key, i, sys.sessions[i]))
    && (forall i: nat, j: nat :: BothCount(env, sys, key, i, j) ==>
          Overlaps(schedule, i, j) || Overlaps(schedule, j, i))
  }

  lemma PerformKeepsInv(env: Env, sys: System, schedule: seq<Action>, replies: seq<Reply>)
    requires Initial(env, sys)
    ensures Inv(env, Perform(env, sys, schedule, replies))
  {
    hide Inv, Perform;
    var steps := PerformIsAnInterleaving(env, sys, schedule, replies);
    EveryInterleavingKeepsInv(env, sys, steps);
  }

  /** The system after one step of the schedule, taken if it is enabled. */
  function Next(env: Env, sys: System, a: Action): System
    requires forall j :: 0 <= j < |sys.sessions| ==> WellFormed(env, sys.sessions[j])
  {
    match Apply(env, sys, a)
    case None => sys
    case Some(next) => next
  }

  ghost predicate NoClash(env: Env, sys: System, schedule: seq<Action>, key: Key)
    requires forall j :: 0 <= j < |sys.sessions| ==> WellFormed(env, sys.sessions[j])
  {
    forall i: nat, j: nat :: !Clash(env, sys, schedule, key, i, j)
  }

  /** The schedule grows by one step, whatever that step's reply. */
  lemma Grow(schedule: seq<Action>, a: Action, i: nat, j: nat)
    ensures var all := schedule + [a];
            && (a.i != i ==> StageOf(all, i) == StageOf(schedule, i) && (Calls(all, i) <==> Calls(schedule, i)))
            && (Calls(schedule, i) ==> Calls(all, i)) && (Overlaps(schedule, i, j) ==> Overlaps(all, i, j))
            && (a.Call? && a.i == i && StageOf(schedule, i) == LookedUp ==> Calls(all, i))
            && (a == Lookup(j) && StageOf(schedule, j) == NotStarted && InWindow(StageOf(schedule, i)) ==>
                  Overlaps(all, i, j))
  {
    assert (schedule + [a])[..|schedule|] == schedule;
  }

  lemma StageStep(schedule: seq<Action>, a: Action)
    ensures var stage := StageOf(schedule, a.i);
            StageOf(schedule + [a], a.i) == match a
              case Lookup(_) => if stage == NotStarted then LookedUp else stage
              case Call(_, _) => if stage == LookedUp then Acted else stage
              case Record(_) => if stage == Acted then Inserting else stage
              case CommitRow(_) => if stage == Inserting then Committed else stage
              case Die(_) => if stage == Committed then stage else Died
  {
    assert (schedule + [a])[..|schedule|] == schedule;
  }

  /** A step keeps rows, and leaves the other sessions alone. */
  lemma OthersStay(env: Env, sys: System, a: Action, key: Key, i: nat)
    requires forall j :: 0 <= j < |sys.sessions| ==> WellFormed(env, sys.sessions[j])
    ensures |Next(env, sys, a).sessions| == |sys.sessions|
    ensures i < |sys.sessions| && i != a.i ==> Next(env, sys, a).sessions[i] == sys.sessions[i]
    ensures InTable(sys.table, key) ==> InTable(Next(env, sys, a).table, key)
  {
    hide Attempt;
    if InTable(sys.table, key) {
      var r :| r in sys.table && r.key == key;
      assert r in Next(env, sys, a).table;
    }
  }

  /** A call that will be recorded was in shadow mode, or had a client. */
  lemma RecordableContends(env: Env, s: Session, reply: Reply)
    requires s.decision.action in env.thresholds
    ensures ShouldRecord(Attempt(env, s.decision, s.mode, ClientOf(s, reply)), s.mode, true) ==> Contends(s)
  {}

  /** An insert is blocked only by a session of the same key that called too. */
  lemma BlockedMeansClash(env: Env, sys: System, schedule: seq<Action>, key: Key, i: nat)
    requires Inv(env, sys) && Tracked(env, sys, schedule, key)
    requires About(env, sys, key, i) && Recordable(sys.sessions[i]) && HeldByAnother(env, sys, i)
    ensures !NoClash(env, sys, schedule, key)
  {
    hide StageOf, Calls, Overlaps;
    var j :| 0 <= j < |sys.sessions| && j != i && sys.sessions[j].phase == Holding
             && KeyOfSession(env, sys.sessions[j]) == KeyOfSession(env, sys.sessions[i]);
    assert SessionOk(env, sys.table, j, sys.sessions[j]);
    assert About(env, sys, key, j) && Recordable(sys.sessions[j]) && BothCount(env, sys, key, i, j);
    assert Clash(env, sys, schedule, key, i, j) || Clash(env, sys, schedule, key, j, i);
  }

  lemma OwnStep(env: Env, sys: System, schedule: seq<Action>, key: Key, a: Action)
    requires Inv(env, sys) && Tracked(env, sys, schedule, key) && NoClash(env, sys, schedule, key)
    requires About(env, sys, key, a.i)
    ensures About(env, Next(env, sys, a), key, a.i)
    ensures Tracks(schedule + [a], Next(env, sys, a).table, key, a.i, Next(env, sys, a).sessions[a.i])
    ensures Counts(Next(env, sys, a).sessions[a.i]) ==> Counts(sys.sessions[a.i]) || a.Lookup?
  {
    hide SessionOk, Tracks, NoClash, Next;
    if Recordable(sys.sessions[a.i]) && HeldByAnother(env, sys, a.i) {
      BlockedMeansClash(env, sys, schedule, key, a.i);
    }
    StepOfItsOwn(env, sys, schedule, key, a);
  }

  lemma StepOfItsOwn(env: Env, sys: System, schedule: seq<Action>, key: Key, a: Action)
    requires forall j :: 0 <= j < |sys.sessions| ==> WellFormed(env, sys.sessions[j])
    requires About(env, sys, key, a.i) && SessionOk(env, sys.table, a.i, sys.sessions[a.i])
    requires Tracks(schedule, sys.table, key, a.i, sys.sessions[a.i])
    requires Recordable(sys.sessions[a.i]) ==> !HeldByAnother(env, sys, a.i)
    ensures About(env, Next(env, sys, a), key, a.i)
    ensures Tracks(schedule + [a], Next(env, sys, a).table, key, a.i, Next(env, sys, a).sessions[a.i])
    ensures Counts(Next(env, sys, a).sessions[a.i]) ==> Counts(sys.sessions[a.i]) || a.Lookup?
  {
    hide Attempt, StageOf, Calls, RowFor, HeldByAnother;
    var s := sys.sessions[a.i];
    StageStep(schedule, a);
    Grow(schedule, a, a.i, a.i);
    OthersStay(env, sys, a, key, a.i);
    match a {
      case Call(_, reply) => RecordableContends(env, s, reply);
      case CommitRow(i) =>
        if s.phase == Holding {
          var next := Next(env, sys, a).table;
          assert next[|sys.table|].key == key && next[|sys.table|] in next;
        }
      case _ =>
    }
  }

  lemma OtherStep(env: Env, sys: System, schedule: seq<Action>, key: Key, a: Action, i: nat)
    requires forall j :: 0 <= j < |sys.sessions| ==> WellFormed(env, sys.sessions[j])
    requires Tracked(env, sys, schedule, key) && i != a.i
    requires forall j :: 0 <= j < |sys.sessions| ==> WellFormed(env, Next(env, sys, a).sessions[j])
    ensures About(env, Next(env, sys, a), key, i) <==> About(env, sys, key, i)
    ensures About(env, sys, key, i) ==>
              Tracks(schedule + [a], Next(env, sys, a).table, key, i, Next(env, sys, a).sessions[i])
  {
    hide Apply, StageOf, Calls;
    OthersStay(env, sys, a, key, i);
    Grow(schedule, a, i, i);
  }

  lemma NextIsWellFormed(env: Env, sys: System, a: Action)
    requires forall j :: 0 <= j < |sys.sessions| ==> WellFormed(env, sys.sessions[j])
    ensures SameSessions(sys, Next(env, sys, a))
    ensures forall j :: 0 <= j < |sys.sessions| ==> WellFormed(env, Next(env, sys, a).sessions[j])
  {
    ApplyKeepsSessions(env, sys, a);
  }

  /** A lookup that passes meets every other open window of its key. */
  lemma LookupOverlaps(env: Env, sys: System, schedule: seq<Action>, key: Key, i: nat, j: nat)
    requires Inv(env, sys) && Tracked(env, sys, schedule, key)
    requires About(env, sys, key, i) && About(env, sys, key, j) && i != j && Counts(sys.sessions[i])
    requires sys.sessions[j].phase == Start && Next(env, sys, Lookup(j)).sessions[j].phase == Gated
    ensures Overlaps(schedule + [Lookup(j)], i, j)
  {
    hide StageOf, Calls, Overlaps;
    assert Tracks(schedule, sys.table, key, i, sys.sessions[i]) && Tracks(schedule, sys.table, key, j, sys.sessions[j]);
    assert !InTable(sys.table, key);
    Grow(schedule, Lookup(j), i, j);
  }

  lemma PairStep(env: Env, sys: System, schedule: seq<Action>, key: Key, a: Action, i: nat, j: nat)
    requires Inv(env, sys) && Tracked(env, sys, schedule, key) && NoClash(env, sys, schedule, key)
    requires forall j :: 0 <= j < |sys.sessions| ==> WellFormed(env, Next(env, sys, a).sessions[j])
    requires i != j && a.i != i && BothCount(env, Next(env, sys, a), key, i, j)
    ensures Overlaps(schedule + [a], i, j) || Overlaps(schedule + [a], j, i)
  {
    hide StageOf, Calls, Overlaps, NoClash, SessionOk, Attempt;
    OtherStep(env, sys, schedule, key, a, i);
    OthersStay(env, sys, a, key, i);
    OthersStay(env, sys, a, key, j);
    Grow(schedule, a, i, j);
    Grow(schedule, a, j, i);
    if a.i == j {
      NextIsWellFormed(env, sys, a);
      assert About(env, sys, key, j);
      OwnStep(env, sys, schedule, key, a);
    }
    if Counts(sys.sessions[j]) {
      assert BothCount(env, sys, key, i, j);
    } else {
      LookupOverlaps(env, sys, schedule, key, i, j);
    }
  }

  lemma TrackStep(env: Env, sys: System, schedule: seq<Action>, key: Key, a: Action)
    requires Inv(env, sys) && Tracked(env, sys, schedule, key) && NoClash(env, sys, schedule, key)
    ensures forall j :: 0 <= j < |sys.sessions| ==> WellFormed(env, Next(env, sys, a).sessions[j])
    ensures Tracked(env, Next(env, sys, a), schedule + [a], key)
  {
    hide Tracks, Overlaps, NoClash, Next;
    NextIsWellFormed(env, sys, a);
    var next := Next(env, sys, a);
    forall i: nat | About(env, next, key, i) ensures Tracks(schedule + [a], next.table, key, i, next.sessions[i]) {
      if i == a.i {
        assert About(env, sys, key, i);
        OwnStep(env, sys, schedule, key, a);
      } else {
        OtherStep(env, sys, schedule, key, a, i);
      }
    }
    forall i: nat, j: nat | BothCount(env, next, key, i, j)
      ensures Overlaps(schedule + [a], i, j) || Overlaps(schedule + [a], j, i)
    {
      if i != a.i {
        PairStep(env, sys, schedule, key, a, i, j);
      } else {
        assert BothCount(env, next, key, j, i);
        PairStep(env, sys, schedule, key, a, j, i);
      }
    }
  }

  /** A reply does not change what the schedule says. */
  lemma {:induction false} RepliesDoNotMatter(schedule: seq<Action>, other: seq<Action>, i: nat, j: nat)
    requires |schedule| == |other|
    requires forall n :: 0 <= n < |schedule| ==>
               schedule[n] == other[n] || (schedule[n].Call? && other[n].Call? && schedule[n].i == other[n].i)
    ensures StageOf(schedule, i) == StageOf(other, i) && Calls(schedule, i) == Calls(other, i)
    ensures Overlaps(schedule, i, j) == Overlaps(other, i, j)
    decreases |schedule|
  {
    if |schedule| > 0 {
      var n := |schedule| - 1;
      RepliesDoNotMatter(schedule[..n], other[..n], i, j);
      RepliesDoNotMatter(schedule[..n], other[..n], j, j);
    }
  }

  lemma {:induction false} ClashGrows(env: Env, sys: System, mid: System, schedule: seq<Action>, n: nat, key: Key)
    requires SameSessions(sys, mid) && n <= |schedule|
    requires forall j :: 0 <= j < |sys.sessions| ==> WellFormed(env, sys.sessions[j])
    requires forall j :: 0 <= j < |mid.sessions| ==> WellFormed(env, mid.sessions[j])
    ensures NoClash(env, sys, schedule, key) ==> NoClash(env, mid, schedule[..n], key)
    decreases |schedule| - n
  {
    if NoClash(env, sys, schedule, key) {
      forall i: nat, j: nat ensures !Clash(env, mid, schedule[..n], key, i, j) {
        CallsAndOverlapsLast(schedule, n, i, j);
        CallsAndOverlapsLast(schedule, n, j, i);
        assert !Clash(env, sys, schedule, key, i, j);
      }
    }
  }

  lemma {:induction false} CallsAndOverlapsLast(schedule: seq<Action>, n: nat, i: nat, j: nat)
    requires n <= |schedule|
    ensures Calls(schedule[..n], i) ==> Calls(schedule, i)
    ensures Overlaps(schedule[..n], i, j) ==> Overlaps(schedule, i, j)
    decreases |schedule| - n
  {
    if n == |schedule| {
      assert schedule[..n] == schedule;
    } else {
      assert schedule[..n + 1] == schedule[..n] + [schedule[n]];
      Grow(schedule[..n], schedule[n], i, j);
      CallsAndOverlapsLast(schedule, n + 1, i, j);
    }
  }

  lemma {:induction false} TrackAll(env: Env, sys: System, schedule: seq<Action>, replies: seq<Reply>, key: Key)
    requires Initial(env, sys) && NoClash(env, sys, schedule, key)
    ensures Tracked(env, Perform(env, sys, schedule, replies), schedule, key)
    decreases |schedule|
  {
    hide Tracks, Overlaps, Calls, Inv;
    if |schedule| == 0 {
      StartIsTracked(env, sys, key);
    } else {
      var n := |schedule| - 1;
      var mid, a := Perform(env, sys, schedule[..n], replies), WithReply(schedule[n], replies);
      assert schedule == schedule[..n] + [schedule[n]];
      ClashGrows(env, sys, sys, schedule, n, key);
      TrackAll(env, sys, schedule[..n], replies, key);
      PerformKeepsInv(env, sys, schedule[..n], replies);
      ClashGrows(env, sys, mid, schedule, n, key);
      TrackStep(env, mid, schedule[..n], key, a);
      SameWithReply(env, Perform(env, sys, schedule, replies), schedule[..n], schedule[n], replies, key);
    }
  }

  lemma StartIsTracked(env: Env, sys: System, key: Key)
    requires Initial(env, sys)
    ensures Tracked(env, sys, [], key)
  {}

  lemma SameWithReply(env: Env, sys: System, schedule: seq<Action>, a: Action, replies: seq<Reply>, key: Key)
    requires forall j :: 0 <= j < |sys.sessions| ==> WellFormed(env, sys.sessions[j])
    requires Tracked(env, sys, schedule + [WithReply(a, replies)], key)
    ensures Tracked(env, sys, schedule + [a], key)
  {
    hide StageOf, Calls, Overlaps;
    var mine, filled := schedule + [a], schedule + [WithReply(a, replies)];
    forall i: nat | About(env, sys, key, i) ensures Tracks(mine, sys.table, key, i, sys.sessions[i]) {
      RepliesDoNotMatter(mine, filled, i, i);
    }
    forall i: nat, j: nat | BothCount(env, sys, key, i, j) ensures Overlaps(mine, i, j) || Overlaps(mine, j, i) {
      RepliesDoNotMatter(mine, filled, i, j);
      RepliesDoNotMatter(mine, filled, j, i);
    }
  }

  /**
    Every schedule, every reply, any sessions, shadow mode and deaths included: if no
    session of a key looks up inside the window of another one of that key, where both go
    on to call, the key's effect happens at most once. A session that dies in its window
    never closes it.
   */
  lemma NoClashLandsOnce(env: Env, sys: System, schedule: seq<Action>, replies: seq<Reply>, key: Key)
    requires Initial(env, sys) && NoClash(env, sys, schedule, key)
    ensures LandsOnce(env, Perform(env, sys, schedule, replies), key)
  {
    hide Calls, Overlaps, StageOf, Perform;
    var after := Perform(env, sys, schedule, replies);
    TrackAll(env, sys, schedule, replies, key);
    PerformKeepsInv(env, sys, schedule, replies);
    forall i: nat, j: nat | i < j && About(env, after, key, i) && About(env, after, key, j)
      ensures !(after.sessions[i].landed && after.sessions[j].landed)
    {
      if after.sessions[i].landed && after.sessions[j].landed {
        assert SessionOk(env, after.table, i, after.sessions[i]) && SessionOk(env, after.table, j, after.sessions[j]);
        assert Tracks(schedule, after.table, key, i, after.sessions[i]);
        assert Tracks(schedule, after.table, key, j, after.sessions[j]);
        assert BothCount(env, after, key, i, j);
        assert About(env, sys, key, i) && About(env, sys, key, j);
        ClashIs(env, sys, schedule, key, i, j);
      }
    }
  }

  lemma ClashIs(env: Env, sys: System, schedule: seq<Action>, key: Key, i: nat, j: nat)
    requires forall j :: 0 <= j < |sys.sessions| ==> WellFormed(env, sys.sessions[j])
    requires i != j && About(env, sys, key, i) && About(env, sys, key, j)
    requires Contends(sys.sessions[i]) && Contends(sys.sessions[j]) && Calls(schedule, i) && Calls(schedule, j)
    requires Overlaps(schedule, i, j) || Overlaps(schedule, j, i)
    ensures !NoClash(env, sys, schedule, key)
  {
    assert Clash(env, sys, schedule, key, i, j) || Clash(env, sys, schedule, key, j, i);
  }

  // ------------------------------------------------------------------
  // A clash repeats the effect, for some replies
  // ------------------------------------------------------------------

  /** The client answers sessions i and j, and fails everybody else. */
  function OnlyFor(n: nat, i: nat, j: nat): (replies: seq<Reply>)
    ensures |replies| == n
  {
    seq(n, k requires 0 <= k < n => if k == i || k == j then Returns(map[]) else Raises("down"))
  }

  /** The session stands where the schedule says. */
  ghost predicate Matches(schedule: seq<Action>, table: seq<TableRow>, key: Key, i: nat, s: Session) {
    match StageOf(schedule, i)
    case NotStarted => s.phase == Start
    case LookedUp => s.phase == Gated
    case Acted => s.phase == Called && s.landed
    case Inserting => s.phase == Holding && s.landed
    case Committed => s.phase.Finished? && s.landed
    case Died => s.phase == Dead
  }

  /** A client call that is due will be made, and one that was made has landed. */
  ghost predicate Willing(schedule: seq<Action>, i: nat, s: Session) {
    (StageOf(schedule, i) == LookedUp ==> s.phase == Gated) && (Calls(schedule, i) ==> s.landed)
  }

  /** Until j looks up, session i is alone with its key; from a lookup in i's window on, both go on to call. */
  ghost predicate Alone(env: Env, sys: System, schedule: seq<Action>, key: Key, i: nat, j: nat)
    requires forall j :: 0 <= j < |sys.sessions| ==> WellFormed(env, sys.sessions[j])
    requires i < |sys.sessions| && j < |sys.sessions|
  {
    && (forall k: nat :: About(env, sys, key, k) && k != i && k != j ==> !Recordable(sys.sessions[k]))
    && (StageOf(schedule, j) == NotStarted ==>
          && sys.sessions[j].phase == Start && !Calls(schedule, j)
          && Matches(schedule, sys.table, key, i, sys.sessions[i]) && Willing(schedule, i, sys.sessions[i])
          && (InTable(sys.table, key) ==> StageOf(schedule, i) == Committed))
    && (Overlaps(schedule, i, j) ==>
          && Willing(schedule, i, sys.sessions[i]) && StageOf(schedule, i) != NotStarted
          && Willing(schedule, j, sys.sessions[j]) && StageOf(schedule, j) != NotStarted)
  }

  ghost predicate Rivals(env: Env, sys: System, key: Key, i: nat, j: nat)
    requires forall j :: 0 <= j < |sys.sessions| ==> WellFormed(env, sys.sessions[j])
  {
    && i != j && About(env, sys, key, i) && About(env, sys, key, j)
    && sys.sessions[i].hasClient && sys.sessions[j].hasClient
    && forall k: nat :: About(env, sys, key, k) ==> sys.sessions[k].mode != Shadow
  }

  lemma LiveCall(env: Env, s: Session, reply: Reply)
    requires s.decision.action in env.thresholds && s.mode != Shadow
    ensures var r := Attempt(env, s.decision, s.mode, ClientOf(s, reply));
            && (reply.Raises? ==> !ShouldRecord(r, s.mode, true))
            && (reply.Returns? && s.hasClient ==> r.executed)
  {}

  lemma NobodyHolds(env: Env, sys: System, schedule: seq<Action>, key: Key, i: nat, j: nat)
    requires Inv(env, sys) && Rivals(env, sys, key, i, j) && Alone(env, sys, schedule, key, i, j)
    requires StageOf(schedule, j) == NotStarted
    ensures !HeldByAnother(env, sys, i)
  {
    forall k | 0 <= k < |sys.sessions| && sys.sessions[k].phase == Holding ensures Recordable(sys.sessions[k]) {
      assert SessionOk(env, sys.table, k, sys.sessions[k]);
    }
    assert forall k :: 0 <= k < |sys.sessions| && KeyOfSession(env, sys.sessions[k]) == key ==> About(env, sys, key, k);
  }

  /** While i is alone, none of its steps is refused. */
  lemma AloneStep(env: Env, sys: System, schedule: seq<Action>, key: Key, i: nat, j: nat, a: Action)
    requires Inv(env, sys) && Rivals(env, sys, key, i, j) && Alone(env, sys, schedule, key, i, j)
    requires a.i == i && (a.Call? ==> a.reply.Returns?) && StageOf(schedule, j) == NotStarted
    ensures var next := Next(env, sys, a);
            && i < |next.sessions| && Matches(schedule + [a], next.table, key, i, next.sessions[i])
            && Willing(schedule + [a], i, next.sessions[i])
            && (InTable(next.table, key) ==> StageOf(schedule + [a], i) == Committed)
  {
    hide StageOf, Calls, Attempt, RowFor, Overlaps;
    var s := sys.sessions[i];
    StageStep(schedule, a);
    CallStep(schedule, a);
    assert SessionOk(env, sys.table, i, s);
    match a {
      case Call(_, reply) => LiveCall(env, s, reply);
      case Record(_) => NobodyHolds(env, sys, schedule, key, i, j);
      case _ =>
    }
  }

  lemma CallStep(schedule: seq<Action>, a: Action)
    ensures Calls(schedule + [a], a.i) <==> Calls(schedule, a.i) || (a.Call? && StageOf(schedule, a.i) == LookedUp)
  {
    assert (schedule + [a])[..|schedule|] == schedule;
  }

  /** A session that called stays landed, and one that is due to call lands. */
  lemma WillingStep(env: Env, sys: System, schedule: seq<Action>, x: nat, a: Action)
    requires forall j :: 0 <= j < |sys.sessions| ==> WellFormed(env, sys.sessions[j])
    requires x < |sys.sessions| && Willing(schedule, x, sys.sessions[x]) && StageOf(schedule, x) != NotStarted
    requires sys.sessions[x].mode != Shadow && sys.sessions[x].hasClient
    requires a.i == x && a.Call? ==> a.reply.Returns?
    ensures x < |Next(env, sys, a).sessions| && Willing(schedule + [a], x, Next(env, sys, a).sessions[x])
    ensures StageOf(schedule + [a], x) != NotStarted
  {
    hide StageOf, Calls, Attempt, RowFor;
    var s := sys.sessions[x];
    Grow(schedule, a, x, x);
    if a.i == x {
      StageStep(schedule, a);
      CallStep(schedule, a);
      if a.Call? {
        LiveCall(env, s, a.reply);
      }
    }
  }

  /** Nobody but i and j ever has something to record. */
  lemma OthersFail(env: Env, sys: System, key: Key, i: nat, j: nat, a: Action, k: nat)
    requires Inv(env, sys) && Rivals(env, sys, key, i, j) && About(env, sys, key, k) && k != i && k != j
    requires !Recordable(sys.sessions[k])
    requires a.i == k && a.Call? ==> a.reply.Raises?
    ensures k < |Next(env, sys, a).sessions| && !Recordable(Next(env, sys, a).sessions[k])
  {
    hide Attempt, RowFor, ShouldRecord;
    if a.i == k && a.Call? {
      LiveCall(env, sys.sessions[k], a.reply);
    }
  }

  /** A row for the key comes from i or j. */
  lemma NoNewRow(env: Env, sys: System, schedule: seq<Action>, key: Key, i: nat, j: nat, a: Action)
    requires Inv(env, sys) && Rivals(env, sys, key, i, j) && Alone(env, sys, schedule, key, i, j)
    requires a.i != i && sys.sessions[j].phase == Start
    ensures InTable(Next(env, sys, a).table, key) ==> InTable(sys.table, key)
  {
    hide Attempt, RowFor, StageOf, Calls, Overlaps;
    if a.CommitRow? && a.i < |sys.sessions| && sys.sessions[a.i].phase == Holding {
      assert SessionOk(env, sys.table, a.i, sys.sessions[a.i]) && Recordable(sys.sessions[a.i]);
      assert !About(env, sys, key, a.i);
      assert forall r :: r in Next(env, sys, a).table ==>
        r in sys.table || r.key == KeyOfSession(env, sys.sessions[a.i]);
    }
  }

  ghost predicate Replies(a: Action, i: nat, j: nat) {
    a.Call? ==> if a.i == i || a.i == j then a.reply.Returns? else a.reply.Raises?
  }

  lemma RivalStep(env: Env, sys: System, schedule: seq<Action>, key: Key, i: nat, j: nat, a: Action)
    requires Inv(env, sys) && Rivals(env, sys, key, i, j) && Alone(env, sys, schedule, key, i, j) && Replies(a, i, j)
    ensures SameSessions(sys, Next(env, sys, a))
    ensures forall k :: 0 <= k < |sys.sessions| ==> WellFormed(env, Next(env, sys, a).sessions[k])
    ensures Alone(env, Next(env, sys, a), schedule + [a], key, i, j)
  {
    hide StageOf, Calls, Overlaps, Matches, Willing, Recordable, Next, SessionOk;
    NextIsWellFormed(env, sys, a);
    var next, all := Next(env, sys, a), schedule + [a];
    forall k: nat | About(env, next, key, k) && k != i && k != j ensures !Recordable(next.sessions[k]) {
      assert About(env, sys, key, k);
      if a.i == k {
        OthersFail(env, sys, key, i, j, a, k);
      } else {
        OthersStay(env, sys, a, key, k);
      }
    }
    if StageOf(all, j) == NotStarted {
      StillAlone(env, sys, schedule, key, i, j, a);
    }
    if Overlaps(all, i, j) {
      FromTheOverlap(env, sys, schedule, key, i, j, a);
    }
  }

  lemma StillAlone(env: Env, sys: System, schedule: seq<Action>, key: Key, i: nat, j: nat, a: Action)
    requires Inv(env, sys) && Rivals(env, sys, key, i, j) && Alone(env, sys, schedule, key, i, j) && Replies(a, i, j)
    requires StageOf(schedule + [a], j) == NotStarted
    ensures var next := Next(env, sys, a);
            && |next.sessions| == |sys.sessions| && next.sessions[j].phase == Start && !Calls(schedule + [a], j)
            && Matches(schedule + [a], next.table, key, i, next.sessions[i])
            && Willing(schedule + [a], i, next.sessions[i])
            && (InTable(next.table, key) ==> StageOf(schedule + [a], i) == Committed)
  {
    hide StageOf, Calls, Overlaps, Recordable, SessionOk, Attempt, RowFor;
    Grow(schedule, a, j, j);
    Grow(schedule, a, i, i);
    StageStep(schedule, a);
    CallStep(schedule, a);
    OthersStay(env, sys, a, key, i);
    OthersStay(env, sys, a, key, j);
    if a.i == i {
      AloneStep(env, sys, schedule, key, i, j, a);
    } else {
      NoNewRow(env, sys, schedule, key, i, j, a);
    }
  }

  lemma FromTheOverlap(env: Env, sys: System, schedule: seq<Action>, key: Key, i: nat, j: nat, a: Action)
    requires Inv(env, sys) && Rivals(env, sys, key, i, j) && Alone(env, sys, schedule, key, i, j) && Replies(a, i, j)
    requires Overlaps(schedule + [a], i, j)
    ensures var next := Next(env, sys, a);
            && |next.sessions| == |sys.sessions|
            && Willing(schedule + [a], i, next.sessions[i]) && StageOf(schedule + [a], i) != NotStarted
            && Willing(schedule + [a], j, next.sessions[j]) && StageOf(schedule + [a], j) != NotStarted
  {
    hide StageOf, Calls, Overlaps, Recordable, SessionOk, Attempt, RowFor, Matches;
    OverlapStep(schedule, a, i, j);
    OthersStay(env, sys, a, key, i);
    if Overlaps(schedule, i, j) {
      WillingStep(env, sys, schedule, i, a);
      WillingStep(env, sys, schedule, j, a);
    } else {
      WillingStep(env, sys, schedule, i, a);
      StageStep(schedule, a);
      CallStep(schedule, a);
    }
  }

  lemma OverlapStep(schedule: seq<Action>, a: Action, i: nat, j: nat)
    ensures Overlaps(schedule + [a], i, j)
       <==> Overlaps(schedule, i, j)
            || (a == Lookup(j) && StageOf(schedule, j) == NotStarted && InWindow(StageOf(schedule, i)))
  {
    assert (schedule + [a])[..|schedule|] == schedule;
  }

  lemma {:induction false} RivalsBothLand(env: Env, sys: System, schedule: seq<Action>, key: Key, i: nat, j: nat)
    requires Initial(env, sys) && Rivals(env, sys, key, i, j)
    ensures Alone(env, Perform(env, sys, schedule, OnlyFor(|sys.sessions|, i, j)), schedule, key, i, j)
    decreases |schedule|
  {
    hide Inv, Alone, Apply;
    var replies := OnlyFor(|sys.sessions|, i, j);
    if |schedule| == 0 {
      RivalsAtTheStart(env, sys, key, i, j);
    } else {
      var n := |schedule| - 1;
      var mid, a := Perform(env, sys, schedule[..n], replies), WithReply(schedule[n], replies);
      RivalsBothLand(env, sys, schedule[..n], key, i, j);
      PerformKeepsInv(env, sys, schedule[..n], replies);
      RivalsRemain(env, sys, mid, key, i, j);
      RivalStep(env, mid, schedule[..n], key, i, j, a);
      AloneAnyReply(env, Next(env, mid, a), schedule[..n], schedule[n], a, key, i, j);
      assert schedule == schedule[..n] + [schedule[n]];
    }
  }

  lemma RivalsRemain(env: Env, sys: System, mid: System, key: Key, i: nat, j: nat)
    requires forall k :: 0 <= k < |sys.sessions| ==> WellFormed(env, sys.sessions[k])
    requires forall k :: 0 <= k < |mid.sessions| ==> WellFormed(env, mid.sessions[k])
    requires Rivals(env, sys, key, i, j) && SameSessions(sys, mid)
    ensures Rivals(env, mid, key, i, j)
  {
    assert forall k: nat :: About(env, mid, key, k) ==> About(env, sys, key, k);
  }

  lemma RivalsAtTheStart(env: Env, sys: System, key: Key, i: nat, j: nat)
    requires Initial(env, sys) && Rivals(env, sys, key, i, j)
    ensures Alone(env, sys, [], key, i, j)
  {}

  lemma AloneAnyReply(env: Env, sys: System, schedule: seq<Action>, mine: Action, a: Action, key: Key, i: nat, j: nat)
    requires forall j :: 0 <= j < |sys.sessions| ==> WellFormed(env, sys.sessions[j])
    requires i < |sys.sessions| && j < |sys.sessions| && Alone(env, sys, schedule + [a], key, i, j)
    requires mine == a || (mine.Call? && a.Call? && mine.i == a.i)
    ensures Alone(env, sys, schedule + [mine], key, i, j)
  {
    hide StageOf, Calls, Overlaps;
    RepliesDoNotMatter(schedule + [mine], schedule + [a], i, j);
    RepliesDoNotMatter(schedule + [mine], schedule + [a], j, i);
  }

  /**
    The exact condition on a schedule. For a key that no shadow session is about: whatever
    the client replies, its effect happens at most once if and only if no session of the
    key that calls looks up while another one that calls is between its own lookup and its
    own commit, or died there.
   */
  lemma LandsOnceExactlyWhen(env: Env, sys: System, schedule: seq<Action>, key: Key)
    requires Initial(env, sys)
    requires forall k: nat :: About(env, sys, key, k) ==> sys.sessions[k].mode != Shadow
    ensures (forall replies: seq<Reply> :: LandsOnce(env, Perform(env, sys, schedule, replies), key))
       <==> NoClash(env, sys, schedule, key)
  {
    hide Perform, Calls, Overlaps, LandsOnce;
    if NoClash(env, sys, schedule, key) {
      forall replies: seq<Reply> ensures LandsOnce(env, Perform(env, sys, schedule, replies), key) {
        NoClashLandsOnce(env, sys, schedule, replies, key);
      }
    } else {
      var i: nat, j: nat :| Clash(env, sys, schedule, key, i, j);
      ClashRepeats(env, sys, schedule, key, i, j);
    }
  }

  lemma ClashRepeats(env: Env, sys: System, schedule: seq<Action>, key: Key, i: nat, j: nat)
    requires Initial(env, sys) && Clash(env, sys, schedule, key, i, j)
    requires forall k: nat :: About(env, sys, key, k) ==> sys.sessions[k].mode != Shadow
    ensures !LandsOnce(env, Perform(env, sys, schedule, OnlyFor(|sys.sessions|, i, j)), key)
  {
    hide Perform, Calls, Overlaps, StageOf;
    RivalsBothLand(env, sys, schedule, key, i, j);
    var after := Perform(env, sys, schedule, OnlyFor(|sys.sessions|, i, j));
    assert About(env, after, key, i) && About(env, after, key, j);
    assert after.sessions[i].landed && after.sessions[j].landed;
  }

  // ------------------------------------------------------------------
  // The simple discipline, and what a crash does
  // ------------------------------------------------------------------

  /** Windows of one key never overlap, and nobody dies inside one. */
  ghost predicate OneAtATime(env: Env, sys: System, schedule: seq<Action>, key: Key)
    requires forall j :: 0 <= j < |sys.sessions| ==> WellFormed(env, sys.sessions[j])
  {
    forall i: nat, j: nat, n: nat ::
      n < |schedule| && i != j && About(env, sys, key, i) && About(env, sys, key, j) && schedule[n] == Lookup(j)
      ==> !InWindow(StageOf(schedule[..n], i))
  }

  lemma OneAtATimeLandsOnce(env: Env, sys: System, schedule: seq<Action>, replies: seq<Reply>, key: Key)
    requires Initial(env, sys) && OneAtATime(env, sys, schedule, key)
    ensures LandsOnce(env, Perform(env, sys, schedule, replies), key)
  {
    hide Perform, Calls, InWindow, StageOf;
    forall i: nat, j: nat ensures !Clash(env, sys, schedule, key, i, j) {
      if i != j && About(env, sys, key, i) && About(env, sys, key, j) {
        SeparateNeverOverlap(schedule, |schedule|, i, j);
        assert schedule[..|schedule|] == schedule;
      }
    }
    NoClashLandsOnce(env, sys, schedule, replies, key);
  }

  lemma {:induction false} SeparateNeverOverlap(schedule: seq<Action>, n: nat, i: nat, j: nat)
    requires n <= |schedule|
    requires forall k :: 0 <= k < |schedule| && schedule[k] == Lookup(j) ==> !InWindow(StageOf(schedule[..k], i))
    ensures !Overlaps(schedule[..n], i, j)
  {
    hide StageOf, InWindow;
    if n > 0 {
      SeparateNeverOverlap(schedule, n - 1, i, j);
      assert schedule[..n] == schedule[..n - 1] + [schedule[n - 1]];
      OverlapStep(schedule[..n - 1], schedule[n - 1], i, j);
    }
  }

  /**
    No race is needed. A worker calls, dies before its commit, and a second worker later
    does the same work alone: both calls land, nobody loses an insert, and the table shows
    one row.
   */
  lemma CrashRepeatsTheEffect(env: Env, d: Decision, agent: string)
    requires agent != "" && d.action in env.thresholds && KeyOf(env, d, agent).Success?
    ensures var sys := System([], [Fresh(d, agent), Fresh(d, agent)]);
            var r := Returns(map[]);
            var crash := [Lookup(0), Call(0, r), Die(0)] + [Lookup(1), Call(1, r), Record(1), CommitRow(1)];
            && Initial(env, sys) && Exec(env, sys, crash).Some?
            && var after := Exec(env, sys, crash).value;
               |after.sessions| == 2 && |after.table| == 1 && SameKey(env, after, 0, 1)
               && after.sessions[0].landed && after.sessions[1].landed
               && !LostInsert(env, after, 0) && !LostInsert(env, after, 1)
  {
    hide Attempt, RowFor, Apply, Exec;
    var dead := HasCalled(env, d, agent).(phase := Dead);
    CrashedWorker(env, d, agent);
    SecondWorker(env, d, agent, dead);
    var sys, r := System([], [Fresh(d, agent), Fresh(d, agent)]), Returns(map[]);
    ExecJoins(env, sys, [Lookup(0), Call(0, r), Die(0)], System([], [dead, Fresh(d, agent)]),
              [Lookup(1), Call(1, r), Record(1), CommitRow(1)]);
  }

  lemma CrashedWorker(env: Env, d: Decision, agent: string)
    requires WellFormed(env, Fresh(d, agent))
    ensures Exec(env, System([], [Fresh(d, agent), Fresh(d, agent)]), [Lookup(0), Call(0, Returns(map[])), Die(0)])
         == Some(System([], [HasCalled(env, d, agent).(phase := Dead), Fresh(d, agent)]))
  {
    hide Attempt;
    FullCallLands(env, d, map[]);
    var s, c, r := Fresh(d, agent), HasCalled(env, d, agent), Returns(map[]);
    var g, dead, sys := s.(phase := Gated), c.(phase := Dead), System([], [s, s]);
    assert [s, s][0 := g] == [g, s] && [g, s][0 := c] == [c, s] && [c, s][0 := dead] == [dead, s];
    OneMore(env, sys, [], sys, Lookup(0), System([], [g, s]));
    OneMore(env, sys, [] + [Lookup(0)], System([], [g, s]), Call(0, r), System([], [c, s]));
    OneMore(env, sys, [] + [Lookup(0)] + [Call(0, r)], System([], [c, s]), Die(0), System([], [dead, s]));
    assert [] + [Lookup(0)] + [Call(0, r)] + [Die(0)] == [Lookup(0), Call(0, r), Die(0)];
  }

  /** With no row in the table, a worker that runs alone lands its call and commits its row. */
  lemma SecondWorker(env: Env, d: Decision, agent: string, dead: Session)
    requires WellFormed(env, Fresh(d, agent)) && WellFormed(env, dead) && dead.phase == Dead
    ensures var c := HasCalled(env, d, agent);
            var row := TableRow(KeyOf(env, d, agent).value, 1, RowFor(d, c.attempt.value));
            var steps := [Lookup(1), Call(1, Returns(map[])), Record(1), CommitRow(1)];
            Exec(env, System([], [dead, Fresh(d, agent)]), steps)
              == Some(System([row], [dead, c.(phase := Finished(c.attempt.value))]))
  {
    hide Attempt, RowFor, Exec;
    FullCallLands(env, d, map[]);
    var s, c, r := Fresh(d, agent), HasCalled(env, d, agent), Returns(map[]);
    var g, h, done := s.(phase := Gated), c.(phase := Holding), c.(phase := Finished(c.attempt.value));
    var row := TableRow(KeyOf(env, d, agent).value, 1, RowFor(d, c.attempt.value));
    assert [dead, s][1 := g] == [dead, g] && [dead, g][1 := c] == [dead, c];
    assert [dead, c][1 := h] == [dead, h] && [dead, h][1 := done] == [dead, done] && [] + [row] == [row];
    FourSteps(env, System([], [dead, s]), Lookup(1), System([], [dead, g]), Call(1, r), System([], [dead, c]),
              Record(1), System([], [dead, h]), CommitRow(1), System([row], [dead, done]));
  }
}
