/**
  The atomic steps of an interleaved session add up to `execute_decision`, with the rows
  that other sessions commit in between as its rivals.
 */
module GateSteps {
  import opened Common
  import opened Decisions
  import opened Gate
  import opened Interleave

  function TableMap(table: seq<TableRow>): map<Key, Row> {
    if |table| == 0 then map[]
    else TableMap(table[..|table| - 1])[table[|table| - 1].key := table[|table| - 1].row]
  }

  lemma {:induction false} TableMapKeys(table: seq<TableRow>, key: Key)
    ensures key in TableMap(table) <==> InTable(table, key)
  {
    if |table| > 0 {
      TableMapKeys(table[..|table| - 1], key);
      assert table == table[..|table| - 1] + [table[|table| - 1]];
    }
  }

  /** The lookup step is the pre-gate. */
  lemma LookupIsPregate(env: Env, sys: System, i: nat)
    requires Inv(env, sys) && i < |sys.sessions| && sys.sessions[i].phase == Start
    ensures var s := sys.sessions[i];
            var phase := Apply(env, sys, Lookup(i)).value.sessions[i].phase;
            phase == match Pregate(env, Db(TableMap(sys.table), map[], []), s.decision, true, s.agent)
                     case None => Gated
                     case Some(r) => Finished(r)
  {
    var key := KeyOfSession(env, sys.sessions[i]);
    TableMapKeys(sys.table, key);
    if InTable(sys.table, key) {
      TableMapRow(sys.table, key);
    }
  }

  /** How the session ends once its insert is decided: at once, or at its commit. */
  function Ending(env: Env, sys: System, i: nat): Option<DecisionResult>
    requires i < |sys.sessions| && forall j :: 0 <= j < |sys.sessions| ==> WellFormed(env, sys.sessions[j])
  {
    match Apply(env, sys, Record(i))
    case None => None
    case Some(after) =>
      match after.sessions[i].phase
      case Finished(r) => Some(r)
      case Holding => after.sessions[i].attempt
      case _ => None
  }

  /** The record step, with the commit after it, is `_record_and_finalize`. */
  lemma RecordIsFinalize(env: Env, sys: System, i: nat, db: Db)
    requires Inv(env, sys) && i < |sys.sessions| && sys.sessions[i].phase == Called
    requires db.pending == map[]
    requires forall key :: key in db.committed <==> InTable(sys.table, key)
    ensures var s := sys.sessions[i];
            Ending(env, sys, i).Some? ==>
              Finalize(env, db, s.decision, s.attempt.value, s.mode, true, s.agent).1
                == Success(Ending(env, sys, i).value)
  {}

  /**
    The steps are the gate. Session i looks up in `before` and inserts in `later`; it ends
    as `execute_decision` does when the client gives that reply and the rows committed in
    between are its rivals.
   */
  lemma StepsAreTheGate(env: Env, before: System, later: System, i: nat, reply: Reply)
    requires Inv(env, before) && Inv(env, later) && before.table <= later.table
    requires i < |before.sessions| == |later.sessions| && before.sessions[i].phase == Start
    requires var s := before.sessions[i];
             var r := Attempt(env, s.decision, s.mode, if s.hasClient then Some(reply) else None);
             later.sessions[i] == s.(phase := Called, attempt := Some(r), landed := r.executed)
    ensures var s := before.sessions[i];
            var db := Db(TableMap(before.table), map[], []);
            var client := if s.hasClient then Some(reply) else None;
            var (_, gate) :=
              ExecuteDecision(env, db, s.decision, s.mode, client, true, s.agent, TableMap(later.table));
            var atLookup := Apply(env, before, Lookup(i)).value.sessions[i].phase;
            && (atLookup.Finished? ==> gate == Success(atLookup.result))
            && (!atLookup.Finished? && Ending(env, later, i).Some? ==> gate == Success(Ending(env, later, i).value))
  {
    var s := before.sessions[i];
    assert WellFormed(env, s);
    LookupIsPregate(env, before, i);
    var db := Db(TableMap(before.table), map[], []);
    var effects := Effects(env, s.decision, KeyOption(env, s.decision, s.agent), s.mode, ClientOf(s, reply));
    AwaitedTable(before.table, later.table, effects);
    RecordIsFinalize(env, later, i, AwaitClient(db, effects, TableMap(later.table)));
  }

  /** While the client is awaited the committed rows grow to those of the later table. */
  lemma AwaitedTable(before: seq<TableRow>, later: seq<TableRow>, effects: seq<Entry>)
    requires before <= later
    ensures var awaited := AwaitClient(Db(TableMap(before), map[], []), effects, TableMap(later));
            awaited.pending == map[] && forall key :: key in awaited.committed <==> InTable(later, key)
  {
    var awaited := AwaitClient(Db(TableMap(before), map[], []), effects, TableMap(later));
    forall key ensures key in awaited.committed <==> InTable(later, key) {
      TableMapKeys(before, key);
      TableMapKeys(later, key);
    }
  }

  lemma {:induction false} TableMapRow(table: seq<TableRow>, key: Key)
    requires InTable(table, key)
    requires forall i, j :: 0 <= i < j < |table| ==> table[i].key != table[j].key
    ensures key in TableMap(table) && TableMap(table)[key] == RowIn(table, key)
  {
    var front, last := table[..|table| - 1], table[|table| - 1];
    TableMapKeys(table, key);
    var r :| r in table && r.key == key && r.row == RowIn(table, key);
    var m :| 0 <= m < |table| && table[m] == r;
    if m < |table| - 1 {
      assert front[m] == r;
      assert InTable(front, key);
      TableMapRow(front, key);
      var q :| q in front && q.key == key && q.row == RowIn(front, key);
      var n :| 0 <= n < |front| && front[n] == q;
      assert table[n] == q && n == m;
    }
  }
}
