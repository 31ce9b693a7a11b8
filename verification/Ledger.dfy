/**
  Sequential use of the gate: any list of `execute_decision` calls, each in a session that
  is committed when the call returns and dropped when it raises. Modes, confidences,
  agents and client failures are mixed freely.
 */
module Ledger {
  import opened Common
  import opened Decisions
  import opened Gate

  /** One call; `client` is None when no client is passed. */
  datatype Op = Op(decision: Decision, mode: WriteMode, client: Option<Reply>, agent: string)

  function RunOp(env: Env, db: Db, op: Op): Db {
    var (after, r) := ExecuteDecision(env, db, op.decision, op.mode, op.client, true, op.agent, map[]);
    if r.Success? then Commit(after) else Rollback(after)
  }

  function RunOps(env: Env, db: Db, ops: seq<Op>): Db {
    if |ops| == 0 then db
    else RunOp(env, RunOps(env, db, ops[..|ops| - 1]), ops[|ops| - 1])
  }

  /** The keys of the log lines of one kind, in order; a decision without a signature has none. */
  function KeysOf(log: seq<Entry>, kind: Kind): seq<Key> {
    if |log| == 0 then []
    else
      var e, rest := log[|log| - 1], KeysOf(log[..|log| - 1], kind);
      if e.kind == kind && e.key.Some? then rest + [e.key.value] else rest
  }

  lemma KeysOfAppend(log: seq<Entry>, e: Entry, kind: Kind)
    ensures KeysOf(log + [e], kind)
         == if e.kind == kind && e.key.Some? then KeysOf(log, kind) + [e.key.value] else KeysOf(log, kind)
  {
    assert (log + [e])[..|log|] == log;
  }

  ghost predicate Distinct(keys: seq<Key>) {
    forall i, j :: 0 <= i < j < |keys| ==> keys[i] != keys[j]
  }

  function Elements(keys: seq<Key>): set<Key> { set k | k in keys }

  lemma {:induction false} DistinctCount(keys: seq<Key>)
    requires Distinct(keys)
    ensures |Elements(keys)| == |keys|
  {
    if |keys| > 0 {
      var front, last := keys[..|keys| - 1], keys[|keys| - 1];
      DistinctCount(front);
      assert Elements(keys) == Elements(front) + {last};
    }
  }

  /** The table is the log: successful calls and shadow lines, each key once, nothing else. */
  ghost predicate Balanced(db: Db) {
    var landed, logged := KeysOf(db.log, Landed), KeysOf(db.log, Logged);
    && db.pending == map[]
    && Distinct(landed) && Distinct(logged)
    && Elements(landed) !! Elements(logged)
    && db.committed.Keys == Elements(landed) + Elements(logged)
  }

  /** A call leaves the database alone, or adds one log line and the row that goes with it. */
  lemma OpAddsOneLine(env: Env, db: Db, op: Op)
    requires db.pending == map[]
    ensures var after := RunOp(env, db, op);
            || after == db
            || (exists e: Entry, row: Row ::
                  && after == AddLine(db, e, row)
                  && (e.key.Some? ==> e.key.value !in db.committed))
  {
    var d, agent := op.decision, op.agent;
    assert map[] + db.committed == db.committed == db.committed + db.pending;
    if agent != "" && d.action in env.thresholds && Pregate(env, db, d, true, agent).None? {
      var effects := Effects(env, d, KeyOption(env, d, agent), op.mode, op.client);
      var row := RowFor(d, Attempt(env, d, op.mode, op.client));
      assert RunOp(env, db, op) == if |effects| == 0 then db else AddLine(db, effects[0], row);
    }
  }

  function AddLine(db: Db, e: Entry, row: Row): Db {
    Db(if e.kind != Failed && e.key.Some? then db.committed[e.key.value := row] else db.committed, map[], db.log + [e])
  }

  lemma ElementsAppend(keys: seq<Key>, key: Key)
    ensures Elements(keys + [key]) == Elements(keys) + {key}
    ensures Distinct(keys) && key !in Elements(keys) ==> Distinct(keys + [key])
  {}

  lemma LineKeepsBalance(db: Db, e: Entry, row: Row)
    requires Balanced(db) && (e.key.Some? ==> e.key.value !in db.committed)
    ensures Balanced(AddLine(db, e, row))
  {
    KeysOfAppend(db.log, e, Landed);
    KeysOfAppend(db.log, e, Logged);
    if e.kind != Failed && e.key.Some? {
      assert e.key.value !in db.committed.Keys;
      ElementsAppend(KeysOf(db.log, e.kind), e.key.value);
    }
  }

  lemma OpKeepsBalance(env: Env, db: Db, op: Op)
    requires Balanced(db)
    ensures Balanced(RunOp(env, db, op))
  {
    hide RunOp, AddLine;
    OpAddsOneLine(env, db, op);
    if RunOp(env, db, op) != db {
      var e: Entry, row: Row :| RunOp(env, db, op) == AddLine(db, e, row)
                                && (e.key.Some? ==> e.key.value !in db.committed);
      LineKeepsBalance(db, e, row);
    }
  }

  lemma {:induction false} OpsKeepBalance(env: Env, db: Db, ops: seq<Op>)
    requires Balanced(db)
    ensures Balanced(RunOps(env, db, ops))
  {
    if |ops| > 0 {
      OpsKeepBalance(env, db, ops[..|ops| - 1]);
      OpKeepsBalance(env, RunOps(env, db, ops[..|ops| - 1]), ops[|ops| - 1]);
    }
  }

  /**
    Conservation over any sequential history from an empty table: no key has two successful
    client calls, and there are as many rows as successful calls plus shadow-recorded ones.
   */
  lemma RowsAreEffects(env: Env, ops: seq<Op>)
    ensures var db := RunOps(env, Db(map[], map[], []), ops);
            && Distinct(KeysOf(db.log, Landed))
            && |db.committed| == |KeysOf(db.log, Landed)| + |KeysOf(db.log, Logged)|
            && forall k :: k in db.committed <==> k in KeysOf(db.log, Landed) || k in KeysOf(db.log, Logged)
  {
    var empty := Db(map[], map[], []);
    assert Elements(KeysOf(empty.log, Landed)) == {} == Elements(KeysOf(empty.log, Logged));
    OpsKeepBalance(env, empty, ops);
    var db := RunOps(env, empty, ops);
    DistinctCount(KeysOf(db.log, Landed));
    DistinctCount(KeysOf(db.log, Logged));
    assert |db.committed| == |db.committed.Keys|;
    forall k ensures k in db.committed <==> k in KeysOf(db.log, Landed) || k in KeysOf(db.log, Logged) {
      assert k in db.committed.Keys <==> k in Elements(KeysOf(db.log, Landed)) + Elements(KeysOf(db.log, Logged));
    }
  }

  /** Once a key has a row, no later call about it changes the table or reaches the client. */
  lemma {:induction false} RowSilencesItsKey(env: Env, db: Db, ops: seq<Op>, key: Key)
    requires db.pending == map[] && key in db.committed
    requires forall i :: 0 <= i < |ops| ==> ops[i].agent != "" && ops[i].decision.action in env.thresholds
    requires forall i :: 0 <= i < |ops| ==> KeyOf(env, ops[i].decision, ops[i].agent) == Success(key)
    ensures RunOps(env, db, ops) == db
  {
    if |ops| > 0 {
      var last := ops[|ops| - 1];
      RowSilencesItsKey(env, db, ops[..|ops| - 1], key);
      OneCall(env, db, last.decision, last.mode, last.client, last.agent);
      assert db.committed + db.pending == db.committed;
    }
  }
}
