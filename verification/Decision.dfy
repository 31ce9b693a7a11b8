/** `gita.agents.decisions.Decision`: what an agent wants to do, and the exceptions it can meet. */
module Decisions {
  import opened Common

  datatype Target = Target(repo: Option<string>, issue: Option<int>, fallbackIssue: Option<int>)

  /** `fields` holds the textual payload entries; a key that is not set is absent. */
  datatype Payload = Payload(fields: map<string, string>, signatureKeys: seq<string>, labels: seq<string>)

  datatype Decision = Decision(
    action: string, target: Target, payload: Payload, evidence: seq<string>, confidence: real)

  /** The exceptions that leave this part of the program. */
  datatype Exn =
    | EmptyAction                      // ValueError in Decision.__post_init__
    | BadConfidence(confidence: real)  // ValueError in Decision.__post_init__
    | MissingAgent                     // ValueError in execute_decision
    | UnknownAction(action: string)    // KeyError in get_threshold
    | MissingRepo                      // ValueError in _repo_for_signature
    | NoSignatureShape(action: string) // ValueError in compute_signature

  /** `Decision(...)` with its `__post_init__` checks. */
  function Make(action: string, target: Target, payload: Payload, evidence: seq<string>, confidence: real):
    (r: Result<Decision, Exn>)
    ensures r.Success? <==> action != "" && 0.0 <= confidence <= 1.0
    ensures r.Failure? ==> r.error == if action == "" then EmptyAction else BadConfidence(confidence)
  {
    if action == "" then Failure(EmptyAction)
    else if !(0.0 <= confidence <= 1.0) then Failure(BadConfidence(confidence))
    else Success(Decision(action, target, payload, evidence, confidence))
  }

  /** `payload.get(name, "")`. */
  function Field(p: Payload, name: string): string {
    if name in p.fields then p.fields[name] else ""
  }
}
