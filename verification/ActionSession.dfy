/**
  The gate as the program runs it: an object that updates the session's view of
  `agent_actions` and the effect log step by step, each method tied to Gate and Chain.
 */
module ActionSession {
  import opened Common
  import opened Decisions
  import opened Gate
  import Chain

  datatype Insert = Inserted | IntegrityError | Raised(error: Exn)

  class Session {
    const env: Env
    var committed: map<Key, Row>
    var pending: map<Key, Row>
    var log: seq<Entry>

    constructor (env: Env, table: map<Key, Row>)
      ensures this.env == env && State() == Db(table, map[], [])
    {
      this.env := env;
      committed, pending, log := table, map[], [];
    }

    /** The abstract value the specifications talk about. */
    function State(): Db
      reads this
    {
      Db(committed, pending, log)
    }

    /** `check_signature` behind `_dedupe_pregate`: reads the table only. */
    method DedupePregate(d: Decision, session: bool, agent: string) returns (r: Option<DecisionResult>)
      ensures r == Pregate(env, State(), d, session, agent)
    {
      if !session {
        return None;
      }
      var key := KeyOf(env, d, agent);
      if key.Failure? {
        return None;
      }
      if key.value in pending {
        return Some(DedupedResult(pending[key.value], key.value.signature));
      }
      if key.value in committed {
        return Some(DedupedResult(committed[key.value], key.value.signature));
      }
      return None;
    }

    /** `_execute_side_effect`; `rivals` are committed by other sessions during the await. */
    method ExecuteSideEffect(original: Decision, key: Option<Key>, sent: Decision, downgraded: bool,
                             mode: WriteMode, client: Option<Reply>, rivals: map<Key, Row>)
      returns (executed: bool, sideEffect: Option<SideEffect>, error: Option<string>)
      modifies this
      ensures (executed, sideEffect, error) == SideEffectOf(mode, client)
      ensures State() == AwaitClient(old(State()),
                if mode == Shadow then [Entry(key, original, sent, downgraded, Logged)]
                else if client.None? then []
                else [Entry(key, original, sent, downgraded, KindOf(mode, client.value))], rivals)
    {
      committed := rivals + committed;
      if mode == Shadow {
        log := log + [Entry(key, original, sent, downgraded, Logged)];
        return false, None, None;
      }
      match client
      case None =>
        assert log + [] == log;
        return false, None, Some(NO_CLIENT);
      case Some(Raises(message)) =>
        log := log + [Entry(key, original, sent, downgraded, Failed)];
        return false, None, Some(message);
      case Some(Returns(effect)) =>
        log := log + [Entry(key, original, sent, downgraded, Landed)];
        return true, Some(effect), None;
    }

    /** `record_action`: add the row and flush; the unique constraint may refuse it. */
    method RecordAction(d: Decision, r: DecisionResult, agent: string) returns (insert: Insert)
      modifies this`pending
      ensures match KeyOf(env, d, agent)
              case Failure(e) => insert == Raised(e) && pending == old(pending)
              case Success(key) =>
                if Visible(old(State()), key) then insert == IntegrityError && pending == old(pending)
                else insert == Inserted && pending == old(pending)[key := RowFor(d, r)]
    {
      var key := KeyOf(env, d, agent);
      if key.Failure? {
        return Raised(key.error);
      }
      if key.value in pending || key.value in committed {
        return IntegrityError;
      }
      pending := pending[key.value := RowFor(d, r)];
      return Inserted;
    }

    method RollbackAll()
      modifies this`pending
      ensures State() == Rollback(old(State()))
    {
      pending := map[];
    }

    method CommitAll()
      modifies this
      ensures State() == Commit(old(State()))
    {
      committed, pending := committed + pending, map[];
    }

    /** `_record_and_finalize`. */
    method RecordAndFinalize(d: Decision, r: DecisionResult, mode: WriteMode, session: bool, agent: string)
      returns (result: Result<DecisionResult, Exn>)
      modifies this
      ensures (State(), result) == Finalize(env, old(State()), d, r, mode, session, agent)
    {
      if !session || NeverRecorded(r.outcome) {
        return Success(r);
      }
      if !(mode == Shadow || r.executed) {
        return Success(r);
      }
      var insert := RecordAction(d, r, agent);
      match insert
      case Raised(e) =>
        return Failure(e);
      case IntegrityError =>
        RollbackAll();
        return Success(RACE_RESULT);
      case Inserted =>
        return Success(r);
    }

    /** `execute_decision`. */
    method Execute(d: Decision, mode: WriteMode, client: Option<Reply>, session: bool, agent: string, rivals: map<Key,
                   Row>)
      returns (result: Result<DecisionResult, Exn>)
      modifies this
      ensures (State(), result) == ExecuteDecision(env, old(State()), d, mode, client, session, agent, rivals)
    {
      hide Finalize, Pregate, DowngradeToComment, KeyOption;
      if session && agent == "" {
        return Failure(MissingAgent);
      }
      if d.action !in env.thresholds {
        return Failure(UnknownAction(d.action));
      }
      var threshold := env.thresholds[d.action];
      var deduped := DedupePregate(d, session, agent);
      if deduped.Some? {
        return Success(deduped.value);
      }
      var key := KeyOption(env, d, agent);
      var r: DecisionResult;
      if d.confidence < threshold {
        var downgraded := DowngradeToComment(env, d, BelowThreshold(d.confidence, threshold));
        var executed, sideEffect, error := ExecuteSideEffect(d, key, downgraded, true, mode, client, rivals);
        r := DecisionResult(DowngradedLowConfidence, executed, sideEffect, error);
      } else if mode == CommentOnly && d.action != "comment" {
        var downgraded := DowngradeToComment(env, d, ModeDisallows(d.action));
        var executed, sideEffect, error := ExecuteSideEffect(d, key, downgraded, true, mode, client, rivals);
        r := DecisionResult(DowngradedWriteMode, executed, sideEffect, error);
      } else {
        var executed, sideEffect, error := ExecuteSideEffect(d, key, d, false, mode, client, rivals);
        var outcome :=
          if executed then Executed
          else if mode == Shadow then ShadowLogged
          else if error == Some(NO_CLIENT) then RejectedNoClient
          else ErrorOutcome;
        r := DecisionResult(outcome, executed, sideEffect, error);
      }
      result := RecordAndFinalize(d, r, mode, session, agent);
    }

    /** `_execute_decision_chain`: stop at the first outcome that is no progress, then commit. */
    method ExecuteChain(ds: seq<Decision>, mode: WriteMode, turns: seq<Chain.Turn>)
      returns (results: seq<DecisionResult>, escaped: Option<Exn>)
      requires |turns| == |ds|
      modifies this
      ensures (State(), results, escaped) == Chain.RunChain(env, old(State()), ds, mode, turns)
    {
      hide ExecuteDecision;
      results := [];
      ghost var whole := Chain.RunChain(env, State(), ds, mode, turns);
      assert ds[0..] == ds && turns[0..] == turns && [] + whole.1 == whole.1;
      var i := 0;
      while i < |ds|
        invariant 0 <= i <= |ds|
        invariant var (after, rest, x) := Chain.RunChain(env, State(), ds[i..], mode, turns[i..]);
                  whole == (after, results + rest, x)
      {
        assert ds[i..][0] == ds[i] && ds[i..][1..] == ds[i + 1..];
        assert turns[i..][0] == turns[i] && turns[i..][1..] == turns[i + 1..];
        var result := Execute(ds[i], mode, Chain.ClientFor(mode, turns[i]), true, Chain.AGENT, turns[i].rivals);
        if result.Failure? {
          assert results + [] == results;
          RollbackAll();
          return results, Some(result.error);
        }
        ghost var rest := Chain.RunChain(env, State(), ds[i + 1..], mode, turns[i + 1..]).1;
        assert results + ([result.value] + rest) == (results + [result.value]) + rest;
        results := results + [result.value];
        if !Chain.IsProgress(result.value.outcome) {
          break;
        }
        i := i + 1;
      }
      assert results + [] == results;
      CommitAll();
      escaped := None;
    }
  }
}
