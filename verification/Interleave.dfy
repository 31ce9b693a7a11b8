/**
  Any number of sessions run `execute_decision` at the same time against one
  `agent_actions` table. Each step of a session is atomic: the pre-gate lookup, the client
  call, the insert under the unique key, the commit. A row that is inserted and not yet
  committed blocks other inserts of its key. A session may die at any point.
 */
module Interleave {
  import opened Common
  import opened Decisions
  import opened Gate

  datatype Phase = Start | Gated | Called | Holding | Finished(result: DecisionResult) | Dead

  /** `attempt` is the result computed before recording; `landed` says that a client call succeeded. */
  datatype Session = Session(decision: Decision, mode: WriteMode, hasClient: bool, agent: string,
                             phase: Phase, attempt: Option<DecisionResult>, landed: bool)

  datatype TableRow = TableRow(key: Key, owner: nat, row: Row)

  datatype System = System(table: seq<TableRow>, sessions: seq<Session>)

  datatype Action = Lookup(i: nat) | Call(i: nat, reply: Reply) | Record(i: nat) | CommitRow(i: nat) | Die(i: nat)

  ghost predicate WellFormed(env: Env, s: Session) {
    s.agent != "" && s.decision.action in env.thresholds && KeyOf(env, s.decision, s.agent).Success?
  }

  function KeyOfSession(env: Env, s: Session): Key
    requires KeyOf(env, s.decision, s.agent).Success?
  {
    KeyOf(env, s.decision, s.agent).value
  }

  predicate InTable(table: seq<TableRow>, key: Key) {
    exists r :: r in table && r.key == key
  }

  function RowIn(table: seq<TableRow>, key: Key): (row: Row)
    requires InTable(table, key)
    ensures exists r :: r in table && r.key == key && r.row == row
  {
    if table[0].key == key then table[0].row else RowIn(table[1..], key)
  }

  predicate HeldByAnother(env: Env, sys: System, i: nat)
    requires i < |sys.sessions|
    requires forall j :: 0 <= j < |sys.sessions| ==>
               KeyOf(env, sys.sessions[j].decision, sys.sessions[j].agent).Success?
  {
    exists j :: 0 <= j < |sys.sessions| && j != i && sys.sessions[j].phase == Holding
                && KeyOfSession(env, sys.sessions[j]) == KeyOfSession(env, sys.sessions[i])
  }

  function ClientOf(s: Session, reply: Reply): Option<Reply> {
    if s.hasClient then Some(reply) else None
  }

  predicate Over(s: Session) { s.phase.Finished? || s.phase.Dead? }

  /** One step of session i; None when the step is not enabled. */
  function Apply(env: Env, sys: System, a: Action): Option<System>
    requires forall j :: 0 <= j < |sys.sessions| ==> WellFormed(env, sys.sessions[j])
  {
    if a.i >= |sys.sessions| then None
    else
      var s := sys.sessions[a.i];
      assert WellFormed(env, s);
      assert forall j :: 0 <= j < |sys.sessions| ==>
               WellFormed(env, sys.sessions[j]) && KeyOf(env, sys.sessions[j].decision, sys.sessions[j].agent).Success?;
      var key := KeyOfSession(env, s);
      match a
      case Lookup(i) =>
        if s.phase != Start then None
        else if InTable(sys.table, key) then
          Some(Put(sys, i, s.(phase := Finished(DedupedResult(RowIn(sys.table, key), key.signature)))))
        else Some(Put(sys, i, s.(phase := Gated)))
      case Call(i, reply) =>
        if s.phase != Gated then None
        else
          var r := Attempt(env, s.decision, s.mode, ClientOf(s, reply));
          Some(Put(sys, i, s.(phase := Called, attempt := Some(r), landed := r.executed)))
      case Record(i) =>
        if s.phase != Called || s.attempt.None? then None
        else if !ShouldRecord(s.attempt.value, s.mode, true) then
          Some(Put(sys, i, s.(phase := Finished(s.attempt.value))))
        else if InTable(sys.table, key) then Some(Put(sys, i, s.(phase := Finished(RACE_RESULT))))
        else if HeldByAnother(env, sys, i) then None
        else Some(Put(sys, i, s.(phase := Holding)))
      case CommitRow(i) =>
        if s.phase != Holding || s.attempt.None? then None
        else
          var r := TableRow(key, i, RowFor(s.decision, s.attempt.value));
          Some(Put(sys, i, s.(phase := Finished(s.attempt.value))).(table := sys.table + [r]))
      case Die(i) =>
        if Over(s) then None else Some(Put(sys, i, s.(phase := Dead)))
  }

  function Put(sys: System, i: nat, s: Session): System
    requires i < |sys.sessions|
  {
    sys.(sessions := sys.sessions[i := s])
  }

  /** Only what a session is doing changes, not what it is about. */
  ghost predicate SameSessions(a: System, b: System) {
    && |a.sessions| == |b.sessions|
    && forall i :: 0 <= i < |a.sessions| ==>
         && a.sessions[i].decision == b.sessions[i].decision && a.sessions[i].agent == b.sessions[i].agent
         && a.sessions[i].mode == b.sessions[i].mode && a.sessions[i].hasClient == b.sessions[i].hasClient
  }

  lemma ApplyKeepsSessions(env: Env, sys: System, a: Action)
    requires forall j :: 0 <= j < |sys.sessions| ==> WellFormed(env, sys.sessions[j])
    ensures Apply(env, sys, a).Some? ==>
              && SameSessions(sys, Apply(env, sys, a).value)
              && (forall j :: 0 <= j < |sys.sessions| ==> WellFormed(env, Apply(env, sys, a).value.sessions[j]))
  {
    hide Attempt;
    if Apply(env, sys, a).Some? {
      var next := Apply(env, sys, a).value;
      assert next.sessions == sys.sessions[a.i := next.sessions[a.i]];
    }
  }

  /** An interleaving: a list of steps, each enabled where it happens. */
  function Exec(env: Env, sys: System, steps: seq<Action>): Option<System>
    requires forall j :: 0 <= j < |sys.sessions| ==> WellFormed(env, sys.sessions[j])
    ensures Exec(env, sys, steps).Some? ==>
              var after := Exec(env, sys, steps).value;
              && |after.sessions| == |sys.sessions|
              && (forall j :: 0 <= j < |sys.sessions| ==> WellFormed(env, after.sessions[j]))
    decreases |steps|
  {
    if |steps| == 0 then Some(sys)
    else match Exec(env, sys, steps[..|steps| - 1])
      case None => None
      case Some(mid) =>
        ApplyKeepsSessions(env, mid, steps[|steps| - 1]);
        Apply(env, mid, steps[|steps| - 1])
  }

  ghost predicate Initial(env: Env, sys: System) {
    && sys.table == []
    && forall j :: 0 <= j < |sys.sessions| ==>
         WellFormed(env, sys.sessions[j]) && sys.sessions[j].phase == Start
         && sys.sessions[j].attempt == None && !sys.sessions[j].landed
  }

  // ------------------------------------------------------------------
  // Invariant
  // ------------------------------------------------------------------

  ghost predicate HasRowBy(table: seq<TableRow>, key: Key, owner: nat) {
    exists r :: r in table && r.key == key && r.owner == owner
  }

  /** What the phase of session i says about it and about the table. */
  ghost predicate SessionOk(env: Env, table: seq<TableRow>, i: nat, s: Session)
    requires WellFormed(env, s)
  {
    var key := KeyOfSession(env, s);
    && (s.phase in {Start, Gated} ==> s.attempt == None && !s.landed)
    && (s.phase in {Called, Holding} ==> s.attempt.Some?)
    && (s.attempt.None? ==> !s.landed)
    && (s.attempt.Some? ==>
          s.attempt.value.executed == s.landed && s.attempt.value.outcome != Deduped
          && (s.landed ==> ShouldRecord(s.attempt.value, s.mode, true)))
    && (s.phase == Holding ==> ShouldRecord(s.attempt.value, s.mode, true) && !InTable(table, key))
    && (s.phase.Finished? ==>
          if s.attempt.None? || !ShouldRecord(s.attempt.value, s.mode, true) then
            !s.phase.result.executed && (s.attempt.None? ==> s.phase.result.outcome == Deduped && InTable(table, key))
          else if HasRowBy(table, key, i) then s.phase.result == s.attempt.value
          else s.phase.result == RACE_RESULT && InTable(table, key))
  }

  ghost predicate Inv(env: Env, sys: System) {
    && (forall i :: 0 <= i < |sys.sessions| ==> WellFormed(env, sys.sessions[i]))
    && (forall i, j :: 0 <= i < j < |sys.table| ==> sys.table[i].key != sys.table[j].key)
    && (forall r :: r in sys.table ==>
          && r.owner < |sys.sessions|
          && var s := sys.sessions[r.owner];
             s.phase.Finished? && s.attempt.Some? && r.key == KeyOfSession(env, s)
             && r.row == RowFor(s.decision, s.attempt.value) && ShouldRecord(s.attempt.value, s.mode, true))
    && (forall i :: 0 <= i < |sys.sessions| ==> SessionOk(env, sys.table, i, sys.sessions[i]))
    && (forall i, j ::
          0 <= i < j < |sys.sessions| && sys.sessions[i].phase == Holding && sys.sessions[j].phase == Holding ==>
          KeyOfSession(env, sys.sessions[i]) != KeyOfSession(env, sys.sessions[j]))
  }

  /** A landed call is always to be recorded. */
  lemma LandedIsRecorded(env: Env, d: Decision, mode: WriteMode, client: Option<Reply>)
    requires d.action in env.thresholds
    ensures var r := Attempt(env, d, mode, client);
            r.outcome != Deduped && (r.executed ==> ShouldRecord(r, mode, true))
  {}

  lemma QuietStepKeepsInv(env: Env, sys: System, i: nat, s': Session)
    requires Inv(env, sys) && i < |sys.sessions|
    requires WellFormed(env, s') && SessionOk(env, sys.table, i, s')
    requires KeyOfSession(env, s') == KeyOfSession(env, sys.sessions[i])
    requires !sys.sessions[i].phase.Finished?
    requires s'.phase == Holding ==> !HeldByAnother(env, sys, i)
    ensures Inv(env, Put(sys, i, s'))
  {
    var after := Put(sys, i, s');
    forall r | r in after.table
      ensures r.owner < |after.sessions| && after.sessions[r.owner] == sys.sessions[r.owner]
    {}
  }

  lemma CommitKeepsInv(env: Env, sys: System, i: nat)
    requires Inv(env, sys) && i < |sys.sessions| && sys.sessions[i].phase == Holding
    ensures Inv(env, Apply(env, sys, CommitRow(i)).value)
  {
    hide ShouldRecord, HeldByAnother, RowFor, Attempt;
    var s := sys.sessions[i];
    var key := KeyOfSession(env, s);
    var after := Apply(env, sys, CommitRow(i)).value;
    var row := after.table[|sys.table|];
    assert after.table == sys.table + [row] && row in after.table;
    forall j | 0 <= j < |after.sessions| ensures SessionOk(env, after.table, j, after.sessions[j]) {
      var k := KeyOfSession(env, after.sessions[j]);
      assert forall r :: r in after.table <==> r in sys.table || r == row;
      if j == i {
        assert HasRowBy(after.table, key, i);
      } else {
        assert InTable(after.table, k) <==> InTable(sys.table, k) || k == key;
        assert HasRowBy(after.table, k, j) <==> HasRowBy(sys.table, k, j);
        if sys.sessions[j].phase == Holding {
          assert k != key;
        }
      }
    }
    forall r | r in sys.table ensures r.owner != i && r.key != key {
      assert InTable(sys.table, r.key);
    }
  }

  /** The step changes session a.i only, and leaves it in order. */
  ghost predicate Quiet(env: Env, sys: System, a: Action)
    requires Inv(env, sys) && Apply(env, sys, a).Some?
  {
    && a.i < |sys.sessions| && |Apply(env, sys, a).value.sessions| == |sys.sessions|
    && var s, s' := sys.sessions[a.i], Apply(env, sys, a).value.sessions[a.i];
       && Apply(env, sys, a).value == Put(sys, a.i, s') && !s.phase.Finished?
       && WellFormed(env, s') && SessionOk(env, sys.table, a.i, s')
       && KeyOfSession(env, s') == KeyOfSession(env, s)
       && (s'.phase == Holding ==> !HeldByAnother(env, sys, a.i))
  }

  lemma QuietLookup(env: Env, sys: System, a: Action)
    requires Inv(env, sys) && Apply(env, sys, a).Some? && (a.Lookup? || a.Die?)
    ensures Quiet(env, sys, a)
  {
    hide Attempt, RowFor, ShouldRecord, HeldByAnother, HasRowBy;
  }

  lemma QuietCall(env: Env, sys: System, a: Action)
    requires Inv(env, sys) && Apply(env, sys, a).Some? && a.Call?
    ensures Quiet(env, sys, a)
  {
    hide Attempt, RowFor, ShouldRecord, HeldByAnother, HasRowBy, InTable;
    var s := sys.sessions[a.i];
    LandedIsRecorded(env, s.decision, s.mode, ClientOf(s, a.reply));
  }

  lemma QuietRecord(env: Env, sys: System, a: Action)
    requires Inv(env, sys) && Apply(env, sys, a).Some? && a.Record?
    ensures Quiet(env, sys, a)
  {
    hide Attempt, RowFor, ShouldRecord, HeldByAnother;
    NotYetRecorded(env, sys, a.i);
  }

  lemma NotYetRecorded(env: Env, sys: System, i: nat)
    requires Inv(env, sys) && i < |sys.sessions| && !sys.sessions[i].phase.Finished?
    ensures !HasRowBy(sys.table, KeyOfSession(env, sys.sessions[i]), i)
  {
    hide SessionOk;
  }

  lemma StepKeepsInv(env: Env, sys: System, a: Action)
    requires Inv(env, sys) && Apply(env, sys, a).Some?
    ensures Inv(env, Apply(env, sys, a).value)
  {
    if a.CommitRow? {
      CommitKeepsInv(env, sys, a.i);
    } else {
      match a {
        case Call(_, _) => QuietCall(env, sys, a);
        case Record(_) => QuietRecord(env, sys, a);
        case _ => QuietLookup(env, sys, a);
      }
      QuietStepKeepsInv(env, sys, a.i, Apply(env, sys, a).value.sessions[a.i]);
    }
  }

  lemma {:induction false} EveryInterleavingKeepsInv(env: Env, sys: System, steps: seq<Action>)
    requires Initial(env, sys) && Exec(env, sys, steps).Some?
    ensures Inv(env, Exec(env, sys, steps).value)
    decreases |steps|
  {
    if |steps| > 0 {
      EveryInterleavingKeepsInv(env, sys, steps[..|steps| - 1]);
      StepKeepsInv(env, Exec(env, sys, steps[..|steps| - 1]).value, steps[|steps| - 1]);
    }
  }

  // ------------------------------------------------------------------
  // Safety of every interleaving
  // ------------------------------------------------------------------

  ghost predicate SameKey(env: Env, sys: System, i: nat, j: nat)
    requires i < |sys.sessions| && j < |sys.sessions|
    requires WellFormed(env, sys.sessions[i]) && WellFormed(env, sys.sessions[j])
  {
    KeyOfSession(env, sys.sessions[i]) == KeyOfSession(env, sys.sessions[j])
  }

  ghost predicate ReturnedExecuted(s: Session) { s.phase.Finished? && s.phase.result.executed }

  /** Session i finished, had something to record, and its row is not there: it lost the insert. */
  ghost predicate LostInsert(env: Env, sys: System, i: nat)
    requires i < |sys.sessions| && WellFormed(env, sys.sessions[i])
  {
    var s := sys.sessions[i];
    s.phase.Finished? && s.attempt.Some? && ShouldRecord(s.attempt.value, s.mode, true)
    && !HasRowBy(sys.table, KeyOfSession(env, s), i)
  }

  /**
    In every interleaving: the table never holds two rows with one key; at most one session
    per key returns executed; a session that loses the insert returns DEDUPED, and the row
    that beat it is another session's.
   */
  lemma InterleavingSafety(env: Env, sys: System, steps: seq<Action>)
    requires Initial(env, sys) && Exec(env, sys, steps).Some?
    ensures var after := Exec(env, sys, steps).value;
            && (forall i, j :: 0 <= i < j < |after.table| ==> after.table[i].key != after.table[j].key)
            && (forall i, j :: 0 <= i < j < |after.sessions| && SameKey(env, after, i, j) ==>
                  !(ReturnedExecuted(after.sessions[i]) && ReturnedExecuted(after.sessions[j])))
            && (forall i :: 0 <= i < |after.sessions| && LostInsert(env, after, i) ==>
                  && after.sessions[i].phase.result == RACE_RESULT
                  && exists r :: r in after.table && r.key == KeyOfSession(env, after.sessions[i]) && r.owner != i)
  {
    EveryInterleavingKeepsInv(env, sys, steps);
    var after := Exec(env, sys, steps).value;
    forall i, j | 0 <= i < j < |after.sessions| && SameKey(env, after, i, j)
      ensures !(ReturnedExecuted(after.sessions[i]) && ReturnedExecuted(after.sessions[j]))
    {
      if ReturnedExecuted(after.sessions[i]) && ReturnedExecuted(after.sessions[j]) {
        OneRowPerKey(env, after, i, j);
      }
    }
  }

  lemma OneRowPerKey(env: Env, sys: System, i: nat, j: nat)
    requires Inv(env, sys) && i < |sys.sessions| && j < |sys.sessions| && SameKey(env, sys, i, j)
    requires HasRowBy(sys.table, KeyOfSession(env, sys.sessions[i]), i)
    requires HasRowBy(sys.table, KeyOfSession(env, sys.sessions[j]), j)
    ensures i == j
  {
    var key := KeyOfSession(env, sys.sessions[i]);
    var r :| r in sys.table && r.key == key && r.owner == i;
    var q :| q in sys.table && q.key == key && q.owner == j;
    var m :| 0 <= m < |sys.table| && sys.table[m] == r;
    var n :| 0 <= n < |sys.table| && sys.table[n] == q;
    assert m == n;
  }

  /** All sessions finished, outside shadow mode. */
  ghost predicate AllLive(sys: System) {
    forall i :: 0 <= i < |sys.sessions| ==> sys.sessions[i].phase.Finished? && sys.sessions[i].mode != Shadow
  }

  /**
    The unique key bounds rows, not effects: two sessions that both passed the lookup both
    call the client. Once every session has finished outside shadow mode, no key's effect
    happened twice exactly when no session that had landed its call lost its insert.
   */
  lemma EffectOnceExactlyWhenNoInsertWasLost(env: Env, sys: System, steps: seq<Action>)
    requires Initial(env, sys) && Exec(env, sys, steps).Some? && AllLive(Exec(env, sys, steps).value)
    ensures var after := Exec(env, sys, steps).value;
            (forall i, j :: 0 <= i < j < |after.sessions| && SameKey(env, after, i, j) ==>
               !(after.sessions[i].landed && after.sessions[j].landed))
            <==> (forall i :: 0 <= i < |after.sessions| ==> !(after.sessions[i].landed && LostInsert(env, after, i)))
  {
    EveryInterleavingKeepsInv(env, sys, steps);
    var after := Exec(env, sys, steps).value;
    if i :| 0 <= i < |after.sessions| && after.sessions[i].landed && LostInsert(env, after, i) {
      var r :| r in after.table && r.key == KeyOfSession(env, after.sessions[i]);
      assert r.owner != i && after.sessions[r.owner].landed;
      var lo, hi := if i < r.owner then i else r.owner, if i < r.owner then r.owner else i;
      assert SameKey(env, after, lo, hi) && after.sessions[lo].landed && after.sessions[hi].landed;
    } else {
      forall i, j | 0 <= i < j < |after.sessions| && SameKey(env, after, i, j)
        ensures !(after.sessions[i].landed && after.sessions[j].landed)
      {
        if after.sessions[i].landed && after.sessions[j].landed {
          OneRowPerKey(env, after, i, j);
        }
      }
    }
  }

  lemma FullCallLands(env: Env, d: Decision, sideEffect: SideEffect)
    requires d.action in env.thresholds
    ensures var a := Attempt(env, d, Full, Some(Returns(sideEffect)));
            a.executed && ShouldRecord(a, Full, true)
  {}

  lemma OneMore(env: Env, sys: System, steps: seq<Action>, mid: System, a: Action, after: System)
    requires Initial(env, sys) && Exec(env, sys, steps) == Some(mid) && Apply(env, mid, a) == Some(after)
    ensures Exec(env, sys, steps + [a]) == Some(after)
  {
    assert (steps + [a])[..|steps|] == steps;
  }

  /** A session about to run the decision, and the same session after its client call. */
  function Fresh(d: Decision, agent: string): Session { Session(d, Full, true, agent, Start, None, false) }

  function HasCalled(env: Env, d: Decision, agent: string): Session
    requires d.action in env.thresholds
  {
    Session(d, Full, true, agent, Called, Some(Attempt(env, d, Full, Some(Returns(map[])))), true)
  }

  /** Both look up before either inserts, so both call. */
  lemma BothCall(env: Env, d: Decision, agent: string) returns (steps: seq<Action>)
    requires WellFormed(env, Fresh(d, agent))
    ensures Initial(env, System([], [Fresh(d, agent), Fresh(d, agent)]))
    ensures Exec(env, System([], [Fresh(d, agent), Fresh(d, agent)]), steps)
         == Some(System([], [HasCalled(env, d, agent), HasCalled(env, d, agent)]))
  {
    hide Attempt;
    FullCallLands(env, d, map[]);
    var s, c, r := Fresh(d, agent), HasCalled(env, d, agent), Returns(map[]);
    var g := s.(phase := Gated);
    var sys := System([], [s, s]);
    assert [s, s][0 := g] == [g, s] && [g, s][1 := g] == [g, g];
    assert [g, g][0 := c] == [c, g] && [c, g][1 := c] == [c, c];
    steps := [];
    OneMore(env, sys, [], sys, Lookup(0), System([], [g, s]));
    OneMore(env, sys, [] + [Lookup(0)], System([], [g, s]), Lookup(1), System([], [g, g]));
    OneMore(env, sys, [] + [Lookup(0)] + [Lookup(1)], System([], [g, g]), Call(0, r), System([], [c, g]));
    steps := [] + [Lookup(0)] + [Lookup(1)] + [Call(0, r)];
    OneMore(env, sys, steps, System([], [c, g]), Call(1, r), System([], [c, c]));
    steps := steps + [Call(1, r)];
  }

  /** Whoever records first commits its row; the other call has landed all the same. */
  lemma OneCommits(env: Env, d: Decision, agent: string)
    requires WellFormed(env, Fresh(d, agent))
    ensures var c := HasCalled(env, d, agent);
            var row := TableRow(KeyOf(env, d, agent).value, 0, RowFor(d, c.attempt.value));
            Exec(env, System([], [c, c]), [Record(0), CommitRow(0), Record(1)])
              == Some(System([row], [c.(phase := Finished(c.attempt.value)), c.(phase := Finished(RACE_RESULT))]))
  {
    hide Attempt, RowFor, Exec;
    FullCallLands(env, d, map[]);
    var c := HasCalled(env, d, agent);
    var h, f0, f1 := c.(phase := Holding), c.(phase := Finished(c.attempt.value)), c.(phase := Finished(RACE_RESULT));
    var row := TableRow(KeyOf(env, d, agent).value, 0, RowFor(d, c.attempt.value));
    assert [c, c][0 := h] == [h, c] && [h, c][0 := f0] == [f0, c] && [f0, c][1 := f1] == [f0, f1];
    assert [] + [row] == [row] && row in [row];
    ThreeSteps(env, System([], [c, c]), Record(0), System([], [h, c]), CommitRow(0), System([row], [f0, c]),
               Record(1), System([row], [f0, f1]));
  }

  lemma ThreeSteps(env: Env, s0: System, a1: Action, s1: System, a2: Action, s2: System, a3: Action, s3: System)
    requires forall k :: 0 <= k < |s0.sessions| ==> WellFormed(env, s0.sessions[k])
    requires Apply(env, s0, a1) == Some(s1) && forall k :: 0 <= k < |s1.sessions| ==> WellFormed(env, s1.sessions[k])
    requires Apply(env, s1, a2) == Some(s2) && forall k :: 0 <= k < |s2.sessions| ==> WellFormed(env, s2.sessions[k])
    requires Apply(env, s2, a3) == Some(s3)
    ensures Exec(env, s0, [a1, a2, a3]) == Some(s3)
  {
    hide Apply, WellFormed;
    assert [a1, a2, a3][..2] == [a1, a2] && [a1, a2][..1] == [a1] && [a1][..0] == [];
    assert Exec(env, s0, []) == Some(s0);
    assert Exec(env, s0, [a1]) == Some(s1);
    assert Exec(env, s0, [a1, a2]) == Some(s2);
  }

  lemma FourSteps(env: Env, s0: System, a1: Action, s1: System, a2: Action, s2: System,
                  a3: Action, s3: System, a4: Action, s4: System)
    requires forall k :: 0 <= k < |s0.sessions| ==> WellFormed(env, s0.sessions[k])
    requires Apply(env, s0, a1) == Some(s1) && forall k :: 0 <= k < |s1.sessions| ==> WellFormed(env, s1.sessions[k])
    requires Apply(env, s1, a2) == Some(s2) && forall k :: 0 <= k < |s2.sessions| ==> WellFormed(env, s2.sessions[k])
    requires Apply(env, s2, a3) == Some(s3) && forall k :: 0 <= k < |s3.sessions| ==> WellFormed(env, s3.sessions[k])
    requires Apply(env, s3, a4) == Some(s4)
    ensures Exec(env, s0, [a1, a2, a3, a4]) == Some(s4)
  {
    hide Apply, WellFormed;
    ThreeSteps(env, s0, a1, s1, a2, s2, a3, s3);
    assert [a1, a2, a3, a4][..3] == [a1, a2, a3];
  }

  lemma {:induction false} ExecJoins(env: Env, sys: System, first: seq<Action>, mid: System, more: seq<Action>)
    requires forall k :: 0 <= k < |sys.sessions| ==> WellFormed(env, sys.sessions[k])
    requires Exec(env, sys, first) == Some(mid)
    ensures forall k :: 0 <= k < |mid.sessions| ==> WellFormed(env, mid.sessions[k])
    ensures Exec(env, sys, first + more) == Exec(env, mid, more)
    decreases |more|
  {
    hide Apply, WellFormed;
    if |more| == 0 {
      assert first + more == first;
    } else {
      var n := |more| - 1;
      ExecJoins(env, sys, first, mid, more[..n]);
      assert (first + more)[..|first + more| - 1] == first + more[..n];
    }
  }

  /** The interleaving in which one decision, run twice, takes effect twice. */
  lemma RaceRepeatsTheEffect(env: Env, d: Decision, agent: string) returns (sys: System, steps: seq<Action>)
    requires agent != "" && d.action in env.thresholds && KeyOf(env, d, agent).Success?
    ensures Initial(env, sys) && Exec(env, sys, steps).Some?
    ensures var after := Exec(env, sys, steps).value;
            |after.sessions| == 2 && SameKey(env, after, 0, 1)
            && after.sessions[0].landed && after.sessions[1].landed && |after.table| == 1
  {
    hide Attempt, RowFor, Apply, Exec;
    var c := HasCalled(env, d, agent);
    sys := System([], [Fresh(d, agent), Fresh(d, agent)]);
    steps := BothCall(env, d, agent);
    OneCommits(env, d, agent);
    ExecJoins(env, sys, steps, System([], [c, c]), [Record(0), CommitRow(0), Record(1)]);
    steps := steps + [Record(0), CommitRow(0), Record(1)];
  }
}
