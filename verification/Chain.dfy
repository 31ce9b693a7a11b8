/**
  `gita.jobs.runners._execute_decision_chain`: decisions executed in order in one session,
  stopping at the first one that makes no progress, and re-run any number of times.
 */
module Chain {
  import opened Common
  import opened Decisions
  import opened Gate

  const AGENT := "test_generator"

  /** What the world does during one decision: the client's reply and the rivals' commits. */
  datatype Turn = Turn(reply: Reply, rivals: map<Key, Row>)

  /** One run of the chain: its write mode and one turn per decision. */
  datatype Run = Run(mode: WriteMode, turns: seq<Turn>)

  /** `_PROGRESS_OUTCOMES`. */
  predicate IsProgress(o: Outcome) { o in {Executed, ShadowLogged, Deduped} }

  function ClientFor(mode: WriteMode, turn: Turn): Option<Reply> {
    if mode == Shadow then None else Some(turn.reply)
  }

  /** The whole run: final table, one result per executed decision, the exception if one escaped. */
  function RunChain(env: Env, db: Db, ds: seq<Decision>, mode: WriteMode, turns: seq<Turn>):
    (Db, seq<DecisionResult>, Option<Exn>)
    requires |turns| == |ds|
    decreases |ds|
  {
    if |ds| == 0 then (Commit(db), [], None)
    else
      var (db1, r) := ExecuteDecision(env, db, ds[0], mode, ClientFor(mode, turns[0]), true, AGENT, turns[0].rivals);
      match r
      case Failure(e) => (Rollback(db1), [], Some(e))
      case Success(result) =>
        if IsProgress(result.outcome) then
          var (db2, results, x) := RunChain(env, db1, ds[1..], mode, turns[1..]);
          (db2, [result] + results, x)
        else (Commit(db1), [result], None)
  }

  function RunHistory(env: Env, db: Db, ds: seq<Decision>, runs: seq<Run>): Db
    requires forall i :: 0 <= i < |runs| ==> |runs[i].turns| == |ds|
  {
    if |runs| == 0 then db
    else
      var earlier := RunHistory(env, db, ds, runs[..|runs| - 1]);
      var last := runs[|runs| - 1];
      RunChain(env, earlier, ds, last.mode, last.turns).0
  }

  // ------------------------------------------------------------------
  // Vocabulary
  // ------------------------------------------------------------------

  /** Every decision has a threshold and a signature, and no two share a key. */
  ghost predicate Runnable(env: Env, ds: seq<Decision>) {
    && (forall i :: 0 <= i < |ds| ==> ds[i].action in env.thresholds && KeyOf(env, ds[i], AGENT).Success?)
    && (forall i, j :: 0 <= i < j < |ds| ==> KeyOf(env, ds[i], AGENT) != KeyOf(env, ds[j], AGENT))
  }

  function KeyAt(env: Env, ds: seq<Decision>, i: nat): Key
    requires i < |ds| && KeyOf(env, ds[i], AGENT).Success?
  {
    KeyOf(env, ds[i], AGENT).value
  }

  /** Exactly the first m decisions of the chain have a row. */
  ghost predicate DoneUpTo(env: Env, db: Db, ds: seq<Decision>, m: nat)
    requires Runnable(env, ds)
  {
    forall i :: 0 <= i < |ds| ==> (Visible(db, KeyAt(env, ds, i)) <==> i < m)
  }

  /** Rivals may commit whatever they like, but no key of this chain. */
  ghost predicate Quiet(env: Env, ds: seq<Decision>, turns: seq<Turn>)
    requires Runnable(env, ds)
  {
    |turns| == |ds|
    && forall i, p :: 0 <= i < |turns| && 0 <= p < |ds| ==> KeyAt(env, ds, p) !in turns[i].rivals
  }

  ghost predicate FailureFree(turns: seq<Turn>) {
    forall i :: 0 <= i < |turns| ==> turns[i].reply.Returns?
  }

  /** The client succeeds for the decisions before t, and for no other. */
  ghost predicate SucceedsUpTo(turns: seq<Turn>, t: nat) {
    forall i :: 0 <= i < |turns| ==> (turns[i].reply.Returns? <==> i < t)
  }

  ghost predicate AllClear(env: Env, ds: seq<Decision>)
    requires Runnable(env, ds)
  {
    forall i :: 0 <= i < |ds| ==> Clears(env, ds[i])
  }

  ghost predicate QuietRuns(env: Env, ds: seq<Decision>, runs: seq<Run>)
    requires Runnable(env, ds)
  {
    forall i :: 0 <= i < |runs| ==> Quiet(env, ds, runs[i].turns)
  }

  ghost predicate FullRuns(env: Env, ds: seq<Decision>, runs: seq<Run>)
    requires Runnable(env, ds)
  {
    QuietRuns(env, ds, runs) && forall i :: 0 <= i < |runs| ==> runs[i].mode == Full
  }

  /**
    Where a run that starts at decision m and meets no failure stops: behind the first
    decision it turns into a comment.
   */
  function Stop(env: Env, ds: seq<Decision>, mode: WriteMode, m: nat): (stop: nat)
    requires m <= |ds| && forall i :: 0 <= i < |ds| ==> ds[i].action in env.thresholds
    ensures m <= stop <= |ds| && (m < |ds| ==> m < stop)
    ensures forall i :: m <= i && i + 1 < stop ==> RouteOf(env, ds[i], mode) == AsIs
    ensures stop < |ds| ==> RouteOf(env, ds[stop - 1], mode).AsComment?
    decreases |ds| - m
  {
    if m == |ds| then m
    else if RouteOf(env, ds[m], mode).AsComment? then m + 1
    else Stop(env, ds, mode, m + 1)
  }

  /** The log without failed client calls: what took effect, or was logged in shadow mode. */
  function Settled(log: seq<Entry>): seq<Entry> {
    if |log| == 0 then []
    else Settled(log[..|log| - 1]) + (if log[|log| - 1].kind == Failed then [] else [log[|log| - 1]])
  }

  lemma {:induction false} SettledAppend(log: seq<Entry>, e: Entry)
    ensures Settled(log + [e]) == Settled(log) + (if e.kind == Failed then [] else [e])
  {
    assert (log + [e])[..|log|] == log;
  }

  function Originals(log: seq<Entry>): seq<Decision> {
    seq(|log|, i requires 0 <= i < |log| => log[i].original)
  }

  function SentTo(log: seq<Entry>): seq<Decision> {
    seq(|log|, i requires 0 <= i < |log| => log[i].sent)
  }

  /** The entry a decision leaves when it settles. */
  function EntryFor(env: Env, d: Decision, mode: WriteMode): Entry
    requires d.action in env.thresholds
  {
    Entry(KeyOption(env, d, AGENT), d, Sent(env, d, mode), RouteOf(env, d, mode).AsComment?,
          if mode == Shadow then Logged else Landed)
  }

  function EntriesFor(env: Env, ds: seq<Decision>, mode: WriteMode, lo: nat, hi: nat): seq<Entry>
    requires lo <= hi <= |ds|
    requires forall i :: 0 <= i < |ds| ==> ds[i].action in env.thresholds
  {
    seq(hi - lo, i requires 0 <= i < hi - lo => EntryFor(env, ds[lo + i], mode))
  }

  function Calls(log: seq<Entry>): nat {
    if |log| == 0 then 0
    else Calls(log[..|log| - 1]) + (if log[|log| - 1].kind == Logged then 0 else 1)
  }

  function Races(results: seq<DecisionResult>): nat {
    if |results| == 0 then 0
    else (if results[0] == RACE_RESULT then 1 else 0) + Races(results[1..])
  }

  lemma OriginalsOfEntries(env: Env, ds: seq<Decision>, mode: WriteMode, lo: nat, hi: nat)
    requires lo <= hi <= |ds|
    requires forall i :: 0 <= i < |ds| ==> ds[i].action in env.thresholds
    ensures Originals(EntriesFor(env, ds, mode, lo, hi)) == ds[lo..hi]
  {
    var entries := EntriesFor(env, ds, mode, lo, hi);
    assert |entries| == hi - lo;
    forall i | 0 <= i < hi - lo ensures entries[i].original == ds[lo..hi][i] {
      assert entries[i] == EntryFor(env, ds[lo + i], mode);
    }
  }

  /** From `db` to `after` the decisions m..m' settled, in order, and nothing else did. */
  ghost predicate Advanced(env: Env, db: Db, after: Db, ds: seq<Decision>, mode: WriteMode, m: nat, m': nat)
    requires Runnable(env, ds)
  {
    && m <= m' <= |ds|
    && DoneUpTo(env, after, ds, m')
    && Settled(after.log) == Settled(db.log) + EntriesFor(env, ds, mode, m, m')
    && (m == |ds| ==> after.log == db.log)
  }

  // ------------------------------------------------------------------
  // One run, from position i on
  // ------------------------------------------------------------------

  /** The turn of the first decision without a row: it settles, or the table stays as it was. */
  lemma OneTurn(env: Env, db: Db, ds: seq<Decision>, mode: WriteMode, turn: Turn, m: nat)
    requires Runnable(env, ds) && m < |ds| && DoneUpTo(env, db, ds, m)
    requires forall p :: 0 <= p < |ds| ==> KeyAt(env, ds, p) !in turn.rivals
    ensures var (db1, r) := ExecuteDecision(env, db, ds[m], mode, ClientFor(mode, turn), true, AGENT, turn.rivals);
            var next := if mode == Shadow || turn.reply.Returns? then m + 1 else m;
            && r.Success? && Advanced(env, db, db1, ds, mode, m, next)
            && (IsProgress(r.value.outcome) <==> RouteOf(env, ds[m], mode) == AsIs && next == m + 1)
  {
    hide ExecuteDecision, Attempt, Effects, EntryFor, RouteOf, Settled, RowFor, EntriesFor, ClientFor;
    var d := ds[m];
    assert !Visible(db, KeyAt(env, ds, m));
    assert KeyAt(env, ds, m) !in turn.rivals;
    OneCallAmong(env, db, d, mode, ClientFor(mode, turn), AGENT, turn.rivals);
    AttemptLogs(env, db, d, mode, turn);
    AttemptProgress(env, d, mode, turn);
    var db1 := ExecuteDecision(env, db, d, mode, ClientFor(mode, turn), true, AGENT, turn.rivals).0;
    StepAdvances(env, db, db1, ds, m, mode == Shadow || turn.reply.Returns?);
    ChunksJoin(env, ds, mode, m, if mode == Shadow || turn.reply.Returns? then m + 1 else m, |ds|);
    assert Settled(db.log) + [] == Settled(db.log);
  }

  /** Which attempts execute, and which let the chain go on. */
  lemma AttemptProgress(env: Env, d: Decision, mode: WriteMode, turn: Turn)
    requires d.action in env.thresholds
    ensures Attempt(env, d, mode, ClientFor(mode, turn)).executed <==> mode != Shadow && turn.reply.Returns?
    ensures IsProgress(Attempt(env, d, mode, ClientFor(mode, turn)).outcome)
       <==> RouteOf(env, d, mode) == AsIs && (mode == Shadow || turn.reply.Returns?)
  {
    var (executed, _, _) := SideEffectOf(mode, ClientFor(mode, turn));
    assert executed <==> mode != Shadow && turn.reply.Returns?;
  }

  lemma CommitKeeps(env: Env, db: Db, ds: seq<Decision>, m: nat)
    requires Runnable(env, ds) && DoneUpTo(env, db, ds, m)
    ensures DoneUpTo(env, Commit(db), ds, m)
  {}

  /** The next stretch of a run picks up where this one stopped. */
  lemma AdvancedJoin(env: Env, db: Db, mid: Db, after: Db, ds: seq<Decision>, mode: WriteMode, m: nat, k: nat, m': nat)
    requires Runnable(env, ds)
    requires Advanced(env, db, mid, ds, mode, m, k) && Advanced(env, mid, after, ds, mode, k, m')
    ensures Advanced(env, db, after, ds, mode, m, m')
  {
    hide Settled, EntriesFor, DoneUpTo;
    ChunksJoin(env, ds, mode, m, k, m');
    var first, second := EntriesFor(env, ds, mode, m, k), EntriesFor(env, ds, mode, k, m');
    assert Settled(db.log) + first + second == Settled(db.log) + (first + second);
  }

  /** How far a run that starts at decision m gets, under these replies. */
  ghost predicate EndsAt(env: Env, ds: seq<Decision>, mode: WriteMode, turns: seq<Turn>, m: nat, m': nat)
    requires m <= |ds| && Runnable(env, ds)
  {
    var stop := Stop(env, ds, mode, m);
    && m' <= stop && (mode == Shadow ==> m' == stop)
    && (mode != Shadow ==> forall t :: m <= t && SucceedsUpTo(turns, t) ==> m' == if t <= stop then t else stop)
  }

  lemma EndsFurther(env: Env, ds: seq<Decision>, mode: WriteMode, turns: seq<Turn>, m: nat, m': nat)
    requires m < |ds| == |turns| && Runnable(env, ds) && RouteOf(env, ds[m], mode) == AsIs
    requires (mode == Shadow || turns[m].reply.Returns?) && EndsAt(env, ds, mode, turns, m + 1, m')
    ensures EndsAt(env, ds, mode, turns, m, m')
  {}

  lemma EndsHere(env: Env, ds: seq<Decision>, mode: WriteMode, turns: seq<Turn>, m: nat)
    requires m <= |ds| == |turns| && Runnable(env, ds)
    ensures m == |ds| ==> EndsAt(env, ds, mode, turns, m, m)
    ensures m < |ds| && mode != Shadow && turns[m].reply.Raises? ==> EndsAt(env, ds, mode, turns, m, m)
    ensures m < |ds| && (mode == Shadow || turns[m].reply.Returns?) && RouteOf(env, ds[m], mode).AsComment? ==>
              EndsAt(env, ds, mode, turns, m, m + 1)
  {}

  /**
    The rest of a run: with rows for exactly the first m decisions, a run settles the
    decisions m..m' for some m' and no others, in order.
   */
  lemma {:induction false} RestOfRun(env: Env, db: Db, ds: seq<Decision>, mode: WriteMode, turns: seq<Turn>,
                                     i: nat, m: nat) returns (m': nat)
    requires |turns| == |ds| && i <= m <= |ds|
    requires Runnable(env, ds) && Quiet(env, ds, turns) && DoneUpTo(env, db, ds, m)
    ensures var (after, _, x) := RunChain(env, db, ds[i..], mode, turns[i..]);
            x.None? && after.pending == map[] && Advanced(env, db, after, ds, mode, m, m')
    ensures EndsAt(env, ds, mode, turns, m, m')
    decreases |ds| - i
  {
    hide ExecuteDecision, RunChain, Settled, EntriesFor, EndsAt;
    ChainStep(env, db, ds, mode, turns, i);
    EndsHere(env, ds, mode, turns, m);
    if i == |ds| {
      m' := m;
      CommitKeeps(env, db, ds, m);
      ChunksJoin(env, ds, mode, m, m, m);
    } else {
      var d, turn := ds[i], turns[i];
      var (db1, r) := ExecuteDecision(env, db, d, mode, ClientFor(mode, turn), true, AGENT, turn.rivals);
      if i < m {
        assert Visible(db, KeyAt(env, ds, i)) && KeyAt(env, ds, i) !in turn.rivals;
        OneCallAmong(env, db, d, mode, ClientFor(mode, turn), AGENT, turn.rivals);
        m' := RestOfRun(env, db, ds, mode, turns, i + 1, m);
      } else {
        OneTurn(env, db, ds, mode, turn, m);
        var next := if mode == Shadow || turn.reply.Returns? then m + 1 else m;
        if IsProgress(r.value.outcome) {
          m' := RestOfRun(env, db1, ds, mode, turns, i + 1, next);
          EndsFurther(env, ds, mode, turns, m, m');
          var after := RunChain(env, db1, ds[i + 1..], mode, turns[i + 1..]).0;
          AdvancedJoin(env, db, db1, after, ds, mode, m, next, m');
        } else {
          m' := next;
          CommitKeeps(env, db1, ds, next);
        }
      }
    }
  }

  /** What the decision at position i does to the rest of the run. */
  lemma ChainStep(env: Env, db: Db, ds: seq<Decision>, mode: WriteMode, turns: seq<Turn>, i: nat)
    requires |turns| == |ds| && i <= |ds|
    ensures i == |ds| ==> RunChain(env, db, ds[i..], mode, turns[i..]) == (Commit(db), [], None)
    ensures i < |ds| ==>
              var (db1, r) :=
                ExecuteDecision(env, db, ds[i], mode, ClientFor(mode, turns[i]), true, AGENT, turns[i].rivals);
              var (after, _, x) := RunChain(env, db, ds[i..], mode, turns[i..]);
              var (after', _, x') := RunChain(env, db1, ds[i + 1..], mode, turns[i + 1..]);
              r.Success? ==> (after, x) == if IsProgress(r.value.outcome) then (after', x') else (Commit(db1), None)
  {
    hide ExecuteDecision;
    if i < |ds| {
      assert ds[i..][0] == ds[i] && ds[i..][1..] == ds[i + 1..];
      assert turns[i..][0] == turns[i] && turns[i..][1..] == turns[i + 1..];
    }
  }

  /** One attempt settles its own entry, or none. */
  lemma AttemptLogs(env: Env, db: Db, d: Decision, mode: WriteMode, turn: Turn)
    requires d.action in env.thresholds && KeyOf(env, d, AGENT).Success?
    ensures var effects := Effects(env, d, KeyOption(env, d, AGENT), mode, ClientFor(mode, turn));
            Settled(db.log + effects)
              == Settled(db.log) + (if mode == Shadow || turn.reply.Returns? then [EntryFor(env, d, mode)] else [])
  {
    var effects := Effects(env, d, KeyOption(env, d, AGENT), mode, ClientFor(mode, turn));
    SettledAppend(db.log, effects[0]);
    assert effects == [effects[0]];
  }

  lemma StepAdvances(env: Env, db: Db, db1: Db, ds: seq<Decision>, i: nat, settled: bool)
    requires Runnable(env, ds) && i < |ds| && DoneUpTo(env, db, ds, i)
    requires forall j :: 0 <= j < |ds| ==> (KeyAt(env, ds, j) in db1.committed <==> KeyAt(env, ds, j) in db.committed)
    requires db1.pending.Keys == db.pending.Keys + (if settled then {KeyAt(env, ds, i)} else {})
    ensures DoneUpTo(env, db1, ds, if settled then i + 1 else i)
  {
    forall j | 0 <= j < |ds|
      ensures Visible(db1, KeyAt(env, ds, j)) <==> j < if settled then i + 1 else i
    {
      if j != i {
        assert KeyAt(env, ds, j) != KeyAt(env, ds, i);
      }
    }
  }

  lemma ChunksJoin(env: Env, ds: seq<Decision>, mode: WriteMode, lo: nat, mid: nat, hi: nat)
    requires lo <= mid <= hi <= |ds|
    requires forall i :: 0 <= i < |ds| ==> ds[i].action in env.thresholds
    ensures EntriesFor(env, ds, mode, lo, mid) + EntriesFor(env, ds, mode, mid, hi) == EntriesFor(env, ds, mode, lo, hi)
    ensures mid == lo ==> EntriesFor(env, ds, mode, lo, mid) == []
    ensures mid == lo + 1 ==> EntriesFor(env, ds, mode, lo, mid) == [EntryFor(env, ds[lo], mode)]
  {}

  lemma OneRun(env: Env, db: Db, ds: seq<Decision>, mode: WriteMode, turns: seq<Turn>, m: nat) returns (m': nat)
    requires |turns| == |ds| && m <= |ds|
    requires Runnable(env, ds) && Quiet(env, ds, turns) && DoneUpTo(env, db, ds, m)
    ensures var (after, _, x) := RunChain(env, db, ds, mode, turns);
            x.None? && after.pending == map[] && Advanced(env, db, after, ds, mode, m, m')
    ensures EndsAt(env, ds, mode, turns, m, m')
  {
    m' := RestOfRun(env, db, ds, mode, turns, 0, m);
    assert ds[0..] == ds && turns[0..] == turns;
  }

  // ------------------------------------------------------------------
  // Any number of runs
  // ------------------------------------------------------------------

  /**
    Runs in any mixture of modes, under any client failures: what settled is, decision by
    decision, a prefix of the chain, and the table has a row for exactly that prefix.
   */
  lemma {:induction false} AnyHistorySettlesAPrefix(env: Env, db: Db, ds: seq<Decision>,
                                                    runs: seq<Run>) returns (m: nat)
    requires Runnable(env, ds) && QuietRuns(env, ds, runs)
    requires db.log == [] && DoneUpTo(env, db, ds, 0)
    ensures m <= |ds|
    ensures var after := RunHistory(env, db, ds, runs);
            && DoneUpTo(env, after, ds, m)
            && Originals(Settled(after.log)) == ds[..m]
    ensures (forall i :: 0 <= i < |runs| ==> runs[i].mode == Full) ==>
              Settled(RunHistory(env, db, ds, runs).log) == EntriesFor(env, ds, Full, 0, m)
  {
    hide RunChain, EntryFor, Stop;
    if |runs| == 0 {
      m := 0;
    } else {
      var before, last := runs[..|runs| - 1], runs[|runs| - 1];
      var k := AnyHistorySettlesAPrefix(env, db, ds, before);
      var mid := RunHistory(env, db, ds, before);
      m := OneRun(env, mid, ds, last.mode, last.turns, k);
      ChunksJoin(env, ds, last.mode, 0, k, m);
      OriginalsJoin(env, ds, last.mode, Settled(mid.log), k, m);
    }
  }

  lemma OriginalsJoin(env: Env, ds: seq<Decision>, mode: WriteMode, settled: seq<Entry>, k: nat, m: nat)
    requires k <= m <= |ds| && forall i :: 0 <= i < |ds| ==> ds[i].action in env.thresholds
    requires Originals(settled) == ds[..k]
    ensures Originals(settled + EntriesFor(env, ds, mode, k, m)) == ds[..m]
  {
    var more := EntriesFor(env, ds, mode, k, m);
    OriginalsOfEntries(env, ds, mode, k, m);
    assert Originals(settled + more) == Originals(settled) + Originals(more);
    assert ds[..k] + ds[k..m] == ds[..m];
  }

  /** A clearing chain is sent as declared, and a FULL run of it has nothing to stop at. */
  lemma SentAsDeclared(env: Env, ds: seq<Decision>, m: nat)
    requires Runnable(env, ds) && AllClear(env, ds) && m <= |ds|
    ensures SentTo(EntriesFor(env, ds, Full, 0, m)) == ds[..m] <= ds
    ensures m == |ds| ==> ds[..m] == ds
  {
    hide KeyOption;
    var entries := EntriesFor(env, ds, Full, 0, m);
    assert |entries| == m && |SentTo(entries)| == m;
    forall i | 0 <= i < m ensures SentTo(entries)[i] == ds[..m][i] {
      assert entries[i] == EntryFor(env, ds[0 + i], Full) && Clears(env, ds[i]);
    }
  }

  lemma NoStop(env: Env, ds: seq<Decision>, m: nat)
    requires Runnable(env, ds) && AllClear(env, ds) && m <= |ds|
    ensures Stop(env, ds, Full, m) == |ds|
  {}

  /**
    The chain contract. In FULL mode, with every decision at or above its threshold and the
    client failing at will, the client calls that succeeded are the first m decisions of
    the chain, as declared, in order, once each. A further failure-free run completes the
    chain, and no run after that calls the client. Rivals do not matter as long as they
    hold no key of the chain.
   */
  lemma ChainPrefix(env: Env, db: Db, ds: seq<Decision>, runs: seq<Run>, last: seq<Turn>, later: Run)
    requires Runnable(env, ds) && AllClear(env, ds) && FullRuns(env, ds, runs)
    requires Quiet(env, ds, last) && FailureFree(last) && Quiet(env, ds, later.turns)
    requires db.log == [] && DoneUpTo(env, db, ds, 0)
    ensures SentTo(Settled(RunHistory(env, db, ds, runs).log)) <= ds
    ensures var done := RunChain(env, RunHistory(env, db, ds, runs), ds, Full, last).0;
            && SentTo(Settled(done.log)) == ds
            && RunChain(env, done, ds, later.mode, later.turns).0.log == done.log
  {
    hide RunChain, RunHistory, Settled, SentTo, EntriesFor, Stop, DoneUpTo;
    var m := AnyHistorySettlesAPrefix(env, db, ds, runs);
    var mid := RunHistory(env, db, ds, runs);
    SentAsDeclared(env, ds, m);
    var n := OneRun(env, mid, ds, Full, last, m);
    NoStop(env, ds, m);
    assert SucceedsUpTo(last, |ds|) && n == |ds|;
    ChunksJoin(env, ds, Full, 0, m, n);
    SentAsDeclared(env, ds, n);
    var done := RunChain(env, mid, ds, Full, last).0;
    var _ := OneRun(env, done, ds, later.mode, later.turns, n);
  }

  /** The reply and the quiet world of a failure-free run. */
  function EasyTurns(n: nat): (turns: seq<Turn>)
    ensures |turns| == n && FailureFree(turns) && forall i :: 0 <= i < n ==> turns[i] == Turn(Returns(map[]), map[])
  {
    seq(n, _ => Turn(Returns(map[]), map[]))
  }

  // ------------------------------------------------------------------
  // What a mode allows, whatever the table holds and whoever interferes
  // ------------------------------------------------------------------

  lemma {:induction false} CallsAppend(a: seq<Entry>, b: seq<Entry>)
    ensures Calls(a + b) == Calls(a) + Calls(b)
  {
    if |b| == 0 {
      assert a + b == a;
    } else {
      assert (a + b)[..|a + b| - 1] == a + b[..|b| - 1];
      CallsAppend(a, b[..|b| - 1]);
    }
  }

  ghost predicate NoComments(ds: seq<Decision>) {
    forall i :: 0 <= i < |ds| ==> ds[i].action != "comment"
  }

  /** No rival commits the key of a decision while that decision is attempted. */
  ghost predicate Unrivalled(env: Env, ds: seq<Decision>, turns: seq<Turn>)
    requires |turns| == |ds|
  {
    forall i :: 0 <= i < |ds| && KeyOf(env, ds[i], AGENT).Success? ==>
      KeyOf(env, ds[i], AGENT).value !in turns[i].rivals
  }

  /** A log entry that respects its write mode. */
  ghost predicate Allowed(env: Env, e: Entry, mode: WriteMode) {
    && (mode == Shadow <==> e.kind == Logged)
    && (mode == CommentOnly ==> e.sent.action == "comment")
    && (e.sent.action != "comment" ==>
          e.sent == e.original && e.original.action in env.thresholds && Clears(env, e.original))
  }

  /**
    A SHADOW run calls no client. A COMMENT run sends comments only; without comment
    decisions in the chain it makes one call at most, plus one for each insert it loses to
    a rival. A call that is not a comment is the declared decision at or above its
    threshold. Without a rival on its own keys a run loses no insert.
   */
  lemma {:induction false} ModeBounds(env: Env, db: Db, ds: seq<Decision>, mode: WriteMode, turns: seq<Turn>)
    requires |turns| == |ds|
    ensures var (after, results, _) := RunChain(env, db, ds, mode, turns);
            && db.log <= after.log
            && (forall i :: |db.log| <= i < |after.log| ==> Allowed(env, after.log[i], mode))
            && (mode == Shadow ==> Calls(after.log) == Calls(db.log))
            && (mode == CommentOnly && NoComments(ds) ==> Calls(after.log) <= Calls(db.log) + 1 + Races(results))
            && (Unrivalled(env, ds, turns) ==> Races(results) == 0)
    decreases |ds|
  {
    hide ExecuteDecision;
    if |ds| > 0 {
      var d, turn := ds[0], turns[0];
      var (db1, r) := ExecuteDecision(env, db, d, mode, ClientFor(mode, turn), true, AGENT, turn.rivals);
      OneDecisionBounds(env, db, d, mode, turn);
      if r.Success? && IsProgress(r.value.outcome) {
        ModeBounds(env, db1, ds[1..], mode, turns[1..]);
        var (after, results, _) := RunChain(env, db, ds, mode, turns);
        assert results[1..] == RunChain(env, db1, ds[1..], mode, turns[1..]).1;
      } else if r.Success? {
        assert [r.value][1..] == [];
        assert Races([r.value]) == if r.value == RACE_RESULT then 1 else 0;
      }
    }
  }

  lemma OneDecisionBounds(env: Env, db: Db, d: Decision, mode: WriteMode, turn: Turn)
    ensures var (after, r) := ExecuteDecision(env, db, d, mode, ClientFor(mode, turn), true, AGENT, turn.rivals);
            && db.log <= after.log
            && (forall i :: |db.log| <= i < |after.log| ==> Allowed(env, after.log[i], mode))
            && (mode == Shadow ==> Calls(after.log) == Calls(db.log))
            && Calls(after.log) <= Calls(db.log) + 1
            && (d.action != "comment" && mode == CommentOnly && r.Success? && IsProgress(r.value.outcome) ==>
                  r.value == RACE_RESULT || Calls(after.log) == Calls(db.log))
            && (r.Success? && r.value == RACE_RESULT ==>
                  KeyOf(env, d, AGENT).Success? && KeyOf(env, d, AGENT).value in turn.rivals)
  {
    hide Calls, Attempt, Effects, RowFor, Allowed, OutcomeText;
    assert "via" in RACE_RESULT.sideEffect.value;
    if d.action in env.thresholds && Pregate(env, db, d, true, AGENT).None? {
      assert map[] + db.committed == db.committed;
      EffectsAllowed(env, db.log, d, mode, turn);
      AttemptProgress(env, d, mode, turn);
      OutcomesTell(env, d, mode, ClientFor(mode, turn));
    }
  }

  lemma EffectsAllowed(env: Env, log: seq<Entry>, d: Decision, mode: WriteMode, turn: Turn)
    requires d.action in env.thresholds
    ensures var effects := Effects(env, d, KeyOption(env, d, AGENT), mode, ClientFor(mode, turn));
            && |effects| == 1 && Allowed(env, effects[0], mode)
            && Calls(log + effects) == Calls(log) + (if mode == Shadow then 0 else 1)
  {
    var effects := Effects(env, d, KeyOption(env, d, AGENT), mode, ClientFor(mode, turn));
    CallsAppend(log, effects);
    assert effects[..0] == [];
    SentIsSafe(env, d, mode);
  }
}
