/**
  `gita.agents.decisions.execute_decision`: threshold, write mode, client call and the
  `agent_actions` row, as one function of the database a session sees and of what the
  client and the other sessions do meanwhile.
 */
module Gate {
  import opened Common
  import opened Decisions
  import Names
  import Signature

  datatype WriteMode = Shadow | CommentOnly | Full

  datatype Outcome =
    | Executed | ShadowLogged | DowngradedLowConfidence | DowngradedWriteMode
    | RejectedNoClient | ErrorOutcome | Deduped

  /** Why a decision became a comment; the rendered texts are `Env.render`. */
  datatype Reason = BelowThreshold(confidence: real, threshold: real) | ModeDisallows(action: string)

  datatype Key = Key(repo: string, agent: string, action: string, signature: string)

  /**
    What the gate is configured with. What it guarantees does not depend on how a decision
    is given its key, so `keyOf` is any function; `SignatureEnv` is the program's own.
   */
  datatype Env = Env(
    keyOf: (Decision, string) -> Result<Key, Exn>,
    thresholds: map<string, real>,
    render: (Decision, Reason) -> string)

  /** The unique key of `agent_actions`: (repo_name, agent, action, signature). */
  function SignatureKey(sha256: string -> string, d: Decision, agent: string): Result<Key, Exn> {
    match Signature.Compute(d, sha256)
    case Failure(e) => Failure(e)
    case Success(signature) => Success(Key(Signature.Repo(d).value, agent, d.action, signature))
  }

  function SignatureEnv(sha256: string -> string, thresholds: map<string, real>,
                        render: (Decision, Reason) -> string): Env {
    Env((d: Decision, agent: string) => SignatureKey(sha256, d, agent), thresholds, render)
  }

  /** The actions that may be recorded: those with a default threshold but `label`, and the two about one label. */
  lemma SignableExactlyWhen(sha256: string -> string, d: Decision, agent: string)
    ensures var key, repo := SignatureKey(sha256, d, agent), d.target.repo.GetOr("");
            var known := d.action in DEFAULT_THRESHOLDS && d.action != "label";
            && (key.Success? <==> repo != "" && (known || d.action in {"add_label", "remove_label"}))
            && (key.Failure? ==> key.error == if repo == "" then MissingRepo else NoSignatureShape(d.action))
            && (key.Success? ==> key.value.agent == agent && key.value.action == d.action
                                 && Names.SameName(key.value.repo, repo))
  {
    hide Signature.Material;
    if d.target.repo.Some? {
      Names.NormalisedIsTheSameName(d.target.repo.value);
    }
  }

  /** DEFAULT_THRESHOLDS. */
  const DEFAULT_THRESHOLDS: map<string, real> := map[
    "comment" := 0.3, "label" := 0.5, "edit_issue" := 0.75, "create_issue" := 0.7, "close_issue" := 0.8,
    "create_branch" := 0.9, "update_file" := 0.9, "open_pr" := 0.9]

  const NO_CLIENT := "no ActionClient provided"

  datatype Row = Row(outcome: Outcome, externalId: Option<string>, confidence: real, evidence: seq<string>)

  type SideEffect = map<string, string>

  /** What `client.execute` will do when awaited. */
  datatype Reply = Returns(sideEffect: SideEffect) | Raises(error: string)

  datatype Kind = Logged | Failed | Landed

  /** One line of the effect log: a shadow-mode log line, or a client call that failed or landed. */
  datatype Entry = Entry(key: Option<Key>, original: Decision, sent: Decision, downgraded: bool, kind: Kind)

  /** The table as one session sees it, its own uncommitted rows, and every effect so far. */
  datatype Db = Db(committed: map<Key, Row>, pending: map<Key, Row>, log: seq<Entry>)

  datatype DecisionResult = DecisionResult(
    outcome: Outcome, executed: bool, sideEffect: Option<SideEffect>, error: Option<string>)

  // ------------------------------------------------------------------
  // Routing
  // ------------------------------------------------------------------

  datatype Route = AsIs | AsComment(reason: Reason)

  function RouteOf(env: Env, d: Decision, mode: WriteMode): Route
    requires d.action in env.thresholds
  {
    var threshold := env.thresholds[d.action];
    if d.confidence < threshold then AsComment(BelowThreshold(d.confidence, threshold))
    else if mode == CommentOnly && d.action != "comment" then AsComment(ModeDisallows(d.action))
    else AsIs
  }

  /** `_downgrade_to_comment`. */
  function DowngradeToComment(env: Env, d: Decision, reason: Reason): Decision {
    var issue := if d.target.issue.None? then d.target.fallbackIssue else d.target.issue;
    Decision("comment", Target(d.target.repo, issue, None),
             Payload(map["body" := env.render(d, reason)], [], []), d.evidence, 1.0)
  }

  /** The decision the client is handed. */
  function Sent(env: Env, d: Decision, mode: WriteMode): Decision
    requires d.action in env.thresholds
  {
    match RouteOf(env, d, mode)
    case AsIs => d
    case AsComment(reason) => DowngradeToComment(env, d, reason)
  }

  predicate Clears(env: Env, d: Decision)
    requires d.action in env.thresholds
  {
    d.confidence >= env.thresholds[d.action]
  }

  // ------------------------------------------------------------------
  // Side effect
  // ------------------------------------------------------------------

  /** `_execute_side_effect`: (executed, side_effect, error). */
  function SideEffectOf(mode: WriteMode, client: Option<Reply>): (bool, Option<SideEffect>, Option<string>) {
    if mode == Shadow then (false, None, None)
    else match client
      case None => (false, None, Some(NO_CLIENT))
      case Some(Raises(error)) => (false, None, Some(error))
      case Some(Returns(sideEffect)) => (true, Some(sideEffect), None)
  }

  function KindOf(mode: WriteMode, reply: Reply): Kind {
    if mode == Shadow then Logged else if reply.Returns? then Landed else Failed
  }

  /** What the attempt leaves in the effect log: nothing when there is no client to call. */
  function Effects(env: Env, d: Decision, key: Option<Key>, mode: WriteMode, client: Option<Reply>): seq<Entry>
    requires d.action in env.thresholds
  {
    var sent, downgraded := Sent(env, d, mode), RouteOf(env, d, mode).AsComment?;
    if mode == Shadow then [Entry(key, d, sent, downgraded, Logged)]
    else match client
      case None => []
      case Some(reply) => [Entry(key, d, sent, downgraded, KindOf(mode, reply))]
  }

  /** The result before anything is recorded. */
  function Attempt(env: Env, d: Decision, mode: WriteMode, client: Option<Reply>): DecisionResult
    requires d.action in env.thresholds
  {
    var (executed, sideEffect, error) := SideEffectOf(mode, client);
    var outcome :=
      match RouteOf(env, d, mode)
      case AsComment(BelowThreshold(_, _)) => DowngradedLowConfidence
      case AsComment(ModeDisallows(_)) => DowngradedWriteMode
      case AsIs =>
        if executed then Executed
        else if mode == Shadow then ShadowLogged
        else if error == Some(NO_CLIENT) then RejectedNoClient
        else ErrorOutcome;
    DecisionResult(outcome, executed, sideEffect, error)
  }

  // ------------------------------------------------------------------
  // Dedupe and recording
  // ------------------------------------------------------------------

  function KeyOf(env: Env, d: Decision, agent: string): Result<Key, Exn> {
    env.keyOf(d, agent)
  }

  function KeyOption(env: Env, d: Decision, agent: string): Option<Key> {
    match KeyOf(env, d, agent)
    case Failure(_) => None
    case Success(key) => Some(key)
  }

  predicate Visible(db: Db, key: Key) { key in db.pending || key in db.committed }

  function Lookup(db: Db, key: Key): Row
    requires Visible(db, key)
  {
    if key in db.pending then db.pending[key] else db.committed[key]
  }

  function OutcomeText(o: Outcome): string {
    match o
    case Executed => "executed"
    case ShadowLogged => "shadow_logged"
    case DowngradedLowConfidence => "downgraded_low_confidence"
    case DowngradedWriteMode => "downgraded_write_mode"
    case RejectedNoClient => "rejected_no_client"
    case ErrorOutcome => "error"
    case Deduped => "deduped"
  }

  /** The DEDUPED result of the pre-gate; row ids are not modelled. */
  function DedupedResult(row: Row, signature: string): DecisionResult {
    DecisionResult(Deduped, false,
      Some(map["deduped" := "True", "external_id" := row.externalId.GetOr("None"),
               "previous_outcome" := OutcomeText(row.outcome), "signature" := signature]), None)
  }

  const RACE_RESULT := DecisionResult(Deduped, false, Some(map["deduped" := "True", "via" := "integrity_race"]), None)

  /** `_dedupe_pregate`. */
  function Pregate(env: Env, db: Db, d: Decision, session: bool, agent: string): Option<DecisionResult> {
    if !session then None
    else match KeyOf(env, d, agent)
      case Failure(_) => None
      case Success(key) => if Visible(db, key) then Some(DedupedResult(Lookup(db, key), key.signature)) else None
  }

  predicate NeverRecorded(o: Outcome) { o in {ErrorOutcome, RejectedNoClient, Deduped} }

  predicate ShouldRecord(r: DecisionResult, mode: WriteMode, session: bool) {
    session && !NeverRecorded(r.outcome) && (mode == Shadow || r.executed)
  }

  /** `_external_id_from_side_effect`. */
  function ExternalId(sideEffect: Option<SideEffect>): Option<string> {
    if sideEffect.None? then None
    else
      var s := sideEffect.value;
      if "id" in s then Some(s["id"])
      else if "external_id" in s then Some(s["external_id"])
      else if "issue_number" in s then Some(s["issue_number"])
      else if "comment_id" in s then Some(s["comment_id"])
      else None
  }

  function RowFor(d: Decision, r: DecisionResult): Row {
    Row(r.outcome, ExternalId(r.sideEffect), d.confidence, d.evidence)
  }

  /** `_record_and_finalize`; a unique-key violation rolls the whole session back. */
  function Finalize(env: Env, db: Db, d: Decision, r: DecisionResult, mode: WriteMode, session: bool, agent: string):
    (Db, Result<DecisionResult, Exn>)
  {
    if !ShouldRecord(r, mode, session) then (db, Success(r))
    else match KeyOf(env, d, agent)
      case Failure(e) => (db, Failure(e))
      case Success(key) =>
        if Visible(db, key) then (db.(pending := map[]), Success(RACE_RESULT))
        else (db.(pending := db.pending[key := RowFor(d, r)]), Success(r))
  }

  /** The client call is awaited: its effects are logged, and rows of other sessions may be committed. */
  function AwaitClient(db: Db, effects: seq<Entry>, rivals: map<Key, Row>): Db {
    db.(log := db.log + effects, committed := rivals + db.committed)
  }

  /**
    `execute_decision`. `client` is None when no client was passed, otherwise the reply it
    will give; `rivals` are the rows other sessions commit while the client is awaited.
   */
  function ExecuteDecision(env: Env, db: Db, d: Decision, mode: WriteMode, client: Option<Reply>,
                           session: bool, agent: string, rivals: map<Key, Row>): (Db, Result<DecisionResult, Exn>)
  {
    if session && agent == "" then (db, Failure(MissingAgent))
    else if d.action !in env.thresholds then (db, Failure(UnknownAction(d.action)))
    else match Pregate(env, db, d, session, agent)
      case Some(deduped) => (db, Success(deduped))
      case None =>
        var effects := Effects(env, d, KeyOption(env, d, agent), mode, client);
        Finalize(env, AwaitClient(db, effects, rivals), d, Attempt(env, d, mode, client), mode, session, agent)
  }

  function Commit(db: Db): Db {
    db.(committed := db.committed + db.pending, pending := map[])
  }

  function Rollback(db: Db): Db {
    db.(pending := map[])
  }

  // ------------------------------------------------------------------
  // Single-call properties
  // ------------------------------------------------------------------

  /**
    When the call raises: no agent for a session, an action without a threshold, or a
    decision without a signature whose effect would have to be recorded. In the last case
    the effect has already happened.
   */
  lemma RaisesExactlyWhen(env: Env, db: Db, d: Decision, mode: WriteMode, client: Option<Reply>,
                          session: bool, agent: string, rivals: map<Key, Row>)
    ensures ExecuteDecision(env, db, d, mode, client, session, agent, rivals).1.Failure?
       <==> || (session && agent == "")
            || d.action !in env.thresholds
            || (session && KeyOf(env, d, agent).Failure? && (mode == Shadow || (client.Some? && client.value.Returns?)))
  {
    if !(session && agent == "") && d.action in env.thresholds {
      var r := Attempt(env, d, mode, client);
      assert ShouldRecord(r, mode, session) <==> session && (mode == Shadow || (client.Some? && client.value.Returns?));
    }
  }

  /** "label" has a threshold but no signature: a live label decision lands and then raises. */
  lemma LabelLandsThenRaises(sha256: string -> string, env: Env, db: Db, d: Decision, sideEffect: SideEffect,
                             agent: string)
    requires env == SignatureEnv(sha256, env.thresholds, env.render)
    requires d.action == "label" && "label" in env.thresholds && Clears(env, d) && agent != ""
    requires Signature.Repo(d).Success?
    ensures var (after, r) := ExecuteDecision(env, db, d, Full, Some(Returns(sideEffect)), true, agent, map[]);
            && r == Failure(NoSignatureShape("label"))
            && after.log == db.log + [Entry(None, d, d, false, Landed)]
            && after.pending == db.pending
  {}

  /** The client is handed a comment, or the original decision at or above its threshold. */
  lemma SentIsSafe(env: Env, d: Decision, mode: WriteMode)
    requires d.action in env.thresholds
    ensures Sent(env, d, mode).action != "comment" ==> Sent(env, d, mode) == d && Clears(env, d) && mode != CommentOnly
    ensures !RouteOf(env, d, mode).AsComment? ==> Sent(env, d, mode) == d && Clears(env, d)
    ensures RouteOf(env, d, mode).AsComment? <==> !Clears(env, d) || (mode == CommentOnly && d.action != "comment")
    ensures Sent(env, d, mode).evidence == d.evidence && Sent(env, d, mode).target.repo == d.target.repo
  {}

  /** The comment that stands in for a decision: on its issue, or else on its landing issue. */
  ghost predicate IsCommentFor(env: Env, d: Decision, reason: Reason, c: Decision) {
    && c.action == "comment" && c.confidence == 1.0 && c.evidence == d.evidence
    && c.target.repo == d.target.repo && c.target.fallbackIssue.None?
    && (d.target.issue.Some? ==> c.target.issue == d.target.issue)
    && (d.target.issue.None? ==> c.target.issue == d.target.fallbackIssue)
    && c.payload.fields.Keys == {"body"} && c.payload.fields["body"] == env.render(d, reason)
    && c.payload.signatureKeys == [] && c.payload.labels == []
  }

  /**
    What a call adds to the effect log: nothing if it raises before the attempt, is deduped
    or has no client, otherwise one entry. A decision below its threshold, or other than a
    comment in COMMENT mode, is handed over as a comment that says why; any other as it is.
   */
  lemma LoggedExactly(env: Env, db: Db, d: Decision, mode: WriteMode, client: Option<Reply>,
                      session: bool, agent: string, rivals: map<Key, Row>)
    ensures var after := ExecuteDecision(env, db, d, mode, client, session, agent, rivals).0;
            var stays := || (session && agent == "") || d.action !in env.thresholds
                         || (session && KeyOf(env, d, agent).Success? && Visible(db, KeyOf(env, d, agent).value))
                         || (mode != Shadow && client.None?);
            && (stays ==> after.log == db.log)
            && (!stays ==>
                  && |after.log| == |db.log| + 1 && after.log[..|db.log|] == db.log
                  && var e, threshold := after.log[|db.log|], env.thresholds[d.action];
                  && e.original == d
                  && e.key == (match KeyOf(env, d, agent) case Success(key) => Some(key) case Failure(_) => None)
                  && (e.kind == Logged <==> mode == Shadow)
                  && (e.kind == Landed <==> mode != Shadow && client.value.Returns?)
                  && (e.downgraded <==> d.confidence < threshold || (mode == CommentOnly && d.action != "comment"))
                  && (!e.downgraded ==> e.sent == d)
                  && (d.confidence < threshold ==>
                        IsCommentFor(env, d, BelowThreshold(d.confidence, threshold), e.sent))
                  && (e.downgraded && d.confidence >= threshold ==>
                        IsCommentFor(env, d, ModeDisallows(d.action), e.sent)))
  {
    hide Finalize, Attempt, Effects, IsCommentFor, Sent, Pregate, ExecuteDecision;
    LogOf(env, db, d, mode, client, session, agent, rivals);
    if d.action in env.thresholds {
      EffectsTell(env, d, KeyOption(env, d, agent), mode, client);
    }
  }

  lemma LogOf(env: Env, db: Db, d: Decision, mode: WriteMode, client: Option<Reply>,
              session: bool, agent: string, rivals: map<Key, Row>)
    ensures var after := ExecuteDecision(env, db, d, mode, client, session, agent, rivals).0;
            if (session && agent == "") || d.action !in env.thresholds
               || (session && KeyOf(env, d, agent).Success? && Visible(db, KeyOf(env, d, agent).value))
            then after.log == db.log
            else after.log == db.log + Effects(env, d, KeyOption(env, d, agent), mode, client)
  {
    hide Effects, Attempt;
  }

  lemma EffectsTell(env: Env, d: Decision, key: Option<Key>, mode: WriteMode, client: Option<Reply>)
    requires d.action in env.thresholds
    ensures var effects, threshold := Effects(env, d, key, mode, client), env.thresholds[d.action];
            && |effects| == (if mode != Shadow && client.None? then 0 else 1)
            && forall e :: e in effects ==>
                 && e.original == d && e.key == key
                 && (e.kind == Logged <==> mode == Shadow)
                 && (e.kind == Landed <==> mode != Shadow && client.value.Returns?)
                 && (e.downgraded <==> d.confidence < threshold || (mode == CommentOnly && d.action != "comment"))
                 && (!e.downgraded ==> e.sent == d)
                 && (d.confidence < threshold ==> IsCommentFor(env, d, BelowThreshold(d.confidence, threshold), e.sent))
                 && (e.downgraded && d.confidence >= threshold ==>
                       IsCommentFor(env, d, ModeDisallows(d.action), e.sent))
  {}

  /** What one call under an agent does, when no rival holds its key. */
  lemma OneCallAmong(env: Env, db: Db, d: Decision, mode: WriteMode, client: Option<Reply>, agent: string,
                     rivals: map<Key, Row>)
    requires agent != "" && d.action in env.thresholds && KeyOf(env, d, agent).Success?
    requires KeyOf(env, d, agent).value !in rivals
    ensures var key := KeyOf(env, d, agent).value;
            var (after, r) := ExecuteDecision(env, db, d, mode, client, true, agent, rivals);
            && r.Success?
            && (Visible(db, key) ==> after == db && r.value.outcome == Deduped)
            && (!Visible(db, key) ==>
                  && after.committed == rivals + db.committed
                  && after.log == db.log + Effects(env, d, Some(key), mode, client)
                  && r.value == Attempt(env, d, mode, client)
                  && after.pending == if mode == Shadow || r.value.executed
                                      then db.pending[key := RowFor(d, r.value)] else db.pending)
  {}

  /** What one call under an agent, without rivals, does to the table and the log. */
  lemma OneCall(env: Env, db: Db, d: Decision, mode: WriteMode, client: Option<Reply>, agent: string)
    requires agent != "" && d.action in env.thresholds && KeyOf(env, d, agent).Success?
    ensures var key := KeyOf(env, d, agent).value;
            var (after, r) := ExecuteDecision(env, db, d, mode, client, true, agent, map[]);
            && r.Success?
            && after.committed == db.committed
            && (Visible(db, key) ==> after == db && r.value.outcome == Deduped)
            && (!Visible(db, key) ==>
                  && after.log == db.log + Effects(env, d, Some(key), mode, client)
                  && r.value == Attempt(env, d, mode, client)
                  && after.pending == if mode == Shadow || r.value.executed
                                      then db.pending[key := RowFor(d, r.value)] else db.pending)
  {
    hide ExecuteDecision, Effects, Attempt;
    assert map[] + db.committed == db.committed;
    OneCallAmong(env, db, d, mode, client, agent, map[]);
  }

  const ID_NAMES: seq<string> := ["id", "external_id", "issue_number", "comment_id"]

  /** The first name under which the client returned an identifier. */
  ghost predicate IsIdOf(reply: SideEffect, id: Option<string>) {
    || (id == None && forall k :: 0 <= k < |ID_NAMES| ==> ID_NAMES[k] !in reply)
    || exists k :: 0 <= k < |ID_NAMES| && ID_NAMES[k] in reply && id == Some(reply[ID_NAMES[k]])
                   && forall j :: 0 <= j < k ==> ID_NAMES[j] !in reply
  }

  /**
    The row a call leaves tells that call: its result's outcome, the confidence and evidence
    of the decision as it was made, and the client's identifier for what it did.
   */
  lemma RowTellsTheCall(env: Env, db: Db, d: Decision, mode: WriteMode, client: Option<Reply>, agent: string)
    requires agent != "" && d.action in env.thresholds && KeyOf(env, d, agent).Success?
    requires !Visible(db, KeyOf(env, d, agent).value)
    ensures var key := KeyOf(env, d, agent).value;
            var (after, r) := ExecuteDecision(env, db, d, mode, client, true, agent, map[]);
            && (key in after.pending <==> mode == Shadow || (client.Some? && client.value.Returns?))
            && (forall other :: other != key ==>
                  (other in after.pending <==> other in db.pending)
                  && (other in db.pending ==> after.pending[other] == db.pending[other]))
            && (key in after.pending ==>
                  var row := after.pending[key];
                  && r.Success? && row.outcome == r.value.outcome
                  && row.confidence == d.confidence && row.evidence == d.evidence
                  && (mode == Shadow ==> row.externalId == None)
                  && (mode != Shadow ==> IsIdOf(client.value.sideEffect, row.externalId)))
  {
    hide ExecuteDecision, Effects, Attempt;
    OneCall(env, db, d, mode, client, agent);
    OutcomesTell(env, d, mode, client);
    if mode != Shadow && client.Some? && client.value.Returns? {
      IdIsTheFirst(client.value.sideEffect);
    }
  }

  lemma IdIsTheFirst(reply: SideEffect)
    ensures IsIdOf(reply, ExternalId(Some(reply)))
  {
    assert ID_NAMES[0] == "id" && ID_NAMES[1] == "external_id" && ID_NAMES[2] == "issue_number"
           && ID_NAMES[3] == "comment_id";
  }

  /** What each outcome of an attempt says about what happened. */
  lemma OutcomesTell(env: Env, d: Decision, mode: WriteMode, client: Option<Reply>)
    requires d.action in env.thresholds
    ensures var r := Attempt(env, d, mode, client);
            var landed := mode != Shadow && client.Some? && client.value.Returns?;
            var allowed := Clears(env, d) && (mode == CommentOnly ==> d.action == "comment");
            var refusal := if client.None? then NO_CLIENT else if client.value.Raises? then client.value.error else "";
            && (r.executed <==> landed)
            && (r.sideEffect.Some? <==> landed) && (landed ==> r.sideEffect == Some(client.value.sideEffect))
            && (r.error.Some? <==> mode != Shadow && !landed) && (r.error.Some? ==> r.error.value == refusal)
            && (r.outcome == DowngradedLowConfidence <==> !Clears(env, d))
            && (r.outcome == DowngradedWriteMode <==> Clears(env, d) && !allowed)
            && (r.outcome == Executed <==> allowed && landed)
            && (r.outcome == ShadowLogged <==> allowed && mode == Shadow)
            && (r.outcome == RejectedNoClient <==> allowed && mode != Shadow && !landed && refusal == NO_CLIENT)
            && (r.outcome == ErrorOutcome <==> allowed && mode != Shadow && !landed && refusal != NO_CLIENT)
            && r.outcome != Deduped
  {}

  /**
    A replay gives the first call's answer: once a call has landed and committed, any later
    call with the same key, in any mode, returns DEDUPED with the id the client gave the
    first one and the first outcome, and changes nothing.
   */
  lemma ReplayTellsTheFirstResult(env: Env, db: Db, d: Decision, mode: WriteMode, sideEffect: SideEffect, agent: string,
                                  again: Decision, laterMode: WriteMode, laterClient: Option<Reply>)
    requires agent != "" && d.action in env.thresholds && again.action in env.thresholds && mode != Shadow
    requires KeyOf(env, d, agent).Success? && KeyOf(env, again, agent) == KeyOf(env, d, agent)
    requires !Visible(db, KeyOf(env, d, agent).value)
    ensures var (db1, first) := ExecuteDecision(env, db, d, mode, Some(Returns(sideEffect)), true, agent, map[]);
            var (db2, second) := ExecuteDecision(env, Commit(db1), again, laterMode, laterClient, true, agent, map[]);
            && first.Success? && first.value.executed && db2 == Commit(db1)
            && second == Success(DecisionResult(Deduped, false,
                 Some(map["deduped" := "True", "external_id" := ExternalId(Some(sideEffect)).GetOr("None"),
                          "previous_outcome" := OutcomeText(first.value.outcome),
                          "signature" := KeyOf(env, d, agent).value.signature]), None))
  {
    hide Attempt, Effects, ExternalId, OutcomeText, Finalize;
    var key, client := KeyOf(env, d, agent).value, Some(Returns(sideEffect));
    OneCall(env, db, d, mode, client, agent);
    OutcomesTell(env, d, mode, client);
    var db1 := ExecuteDecision(env, db, d, mode, client, true, agent, map[]).0;
    var db2 := Commit(db1);
    assert db1.pending[key] == RowFor(d, Attempt(env, d, mode, client));
    assert key !in db2.pending && db2.committed[key] == db1.pending[key];
  }
}
