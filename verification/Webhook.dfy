/**
  `gita.web.webhooks.receive_webhook` and `gita.web.cooldown`: the gates in front of the
  job queue, and the spacing they guarantee between jobs of one repository.
 */
module Webhook {
  import opened Common
  import opened Names
  import opened Text

  const DEFAULT_COOLDOWN_SECONDS: nat := 60

  datatype JobRequest = JobRequest(jobId: string, repo: string)

  /**
    The payload: no JSON, JSON that is no object, an object whose sender or repository is
    neither absent nor an object, or a proper one.
   */
  datatype Body = NotJson | NotAnObject | OddMembers | Proper

  /** What `enqueue_job` does: it raises, finds the id live already, or takes the job. */
  datatype Reception = Fails | AlreadyLive | Taken

  /** One delivery; `job` is what `dispatch_event` returns. */
  datatype Delivery = Delivery(
    secretConfigured: bool, signed: bool, signatureValid: bool, body: Body, event: Option<string>,
    senderType: Option<string>,
    job: Option<JobRequest>, poolAvailable: bool, reception: Reception)

  /** `Raised`: an exception escapes the handler. */
  datatype Response = Raised | ServerError | Unauthorized | BadRequest | Pong | IgnoredBot | NoHandler
                    | CoolingDown | Unavailable | AlreadyQueued | Dispatched

  /** A delivery with the two clock readings: in `check_cooldown` and in `record_enqueue`. */
  datatype Arrival = Arrival(delivery: Delivery, checkedAt: real, recordedAt: real)

  type Cooldowns = map<string, real>

  /** `check_cooldown`. */
  predicate InCooldown(last: Cooldowns, repo: string, now: real, window: nat) {
    Lower(repo) in last && now - last[Lower(repo)] < window as real
  }

  /** The response to a delivery. */
  function Answer(last: Cooldowns, a: Arrival, window: nat): Response {
    var d := a.delivery;
    if !d.secretConfigured then ServerError
    else if !d.signed || !d.signatureValid then Unauthorized
    else if d.body == NotJson then Raised
    else if d.event.None? || d.event.value == "" then BadRequest
    else if d.body == NotAnObject then Raised
    else if d.event.value == "ping" then Pong
    else if d.body == OddMembers then Raised
    else if d.senderType == Some("Bot") then IgnoredBot
    else if d.job.None? then NoHandler
    else if InCooldown(last, d.job.value.repo, a.checkedAt, window) then CoolingDown
    else if !d.poolAvailable then Unavailable
    else if d.reception == Fails then Raised
    else if d.reception == AlreadyLive then AlreadyQueued
    else Dispatched
  }

  function After(last: Cooldowns, a: Arrival, window: nat): Cooldowns {
    if Answer(last, a, window) == Dispatched then last[Lower(a.delivery.job.value.repo) := a.recordedAt] else last
  }

  function AfterAll(arrivals: seq<Arrival>, window: nat): Cooldowns {
    if |arrivals| == 0 then map[]
    else After(AfterAll(arrivals[..|arrivals| - 1], window), arrivals[|arrivals| - 1], window)
  }

  /** The times at which jobs of one repository were dispatched, in whatever case its name was spelled. */
  function DispatchTimes(arrivals: seq<Arrival>, repo: string, window: nat): seq<real> {
    if |arrivals| == 0 then []
    else
      var front, a := arrivals[..|arrivals| - 1], arrivals[|arrivals| - 1];
      var rest := DispatchTimes(front, repo, window);
      if Answer(AfterAll(front, window), a, window) == Dispatched && SameButCase(a.delivery.job.value.repo, repo)
      then rest + [a.recordedAt] else rest
  }

  /** Deliveries are handled one after the other, and the clock never goes back. */
  ghost predicate Sequential(arrivals: seq<Arrival>) {
    && (forall i :: 0 <= i < |arrivals| ==> arrivals[i].checkedAt <= arrivals[i].recordedAt)
    && (forall i, j :: 0 <= i < j < |arrivals| ==> arrivals[i].recordedAt <= arrivals[j].checkedAt)
  }

  // ------------------------------------------------------------------
  // The receiver as an object
  // ------------------------------------------------------------------

  class Receiver {
    var lastEnqueue: Cooldowns
    const window: nat

    constructor ()
      ensures lastEnqueue == map[] && window == DEFAULT_COOLDOWN_SECONDS
    {
      lastEnqueue, window := map[], DEFAULT_COOLDOWN_SECONDS;
    }

    method CheckCooldown(repo: string, now: real) returns (cooling: bool)
      ensures cooling == InCooldown(lastEnqueue, repo, now, window)
    {
      var key := Lower(repo);
      if key in lastEnqueue {
        return now - lastEnqueue[key] < window as real;
      }
      return false;
    }

    method RecordEnqueue(repo: string, now: real)
      modifies this
      ensures lastEnqueue == old(lastEnqueue)[Lower(repo) := now]
    {
      lastEnqueue := lastEnqueue[Lower(repo) := now];
    }

    /** `receive_webhook`. */
    method Receive(a: Arrival) returns (response: Response)
      modifies this
      ensures response == Answer(old(lastEnqueue), a, window)
      ensures lastEnqueue == After(old(lastEnqueue), a, window)
    {
      var d := a.delivery;
      if !d.secretConfigured {
        return ServerError;
      }
      if !d.signed || !d.signatureValid {
        return Unauthorized;
      }
      if d.body == NotJson {
        return Raised;
      }
      if d.event.None? || d.event.value == "" {
        return BadRequest;
      }
      if d.body == NotAnObject {
        return Raised;
      }
      if d.event.value == "ping" {
        return Pong;
      }
      if d.body == OddMembers {
        return Raised;
      }
      if d.senderType == Some("Bot") {
        return IgnoredBot;
      }
      if d.job.None? {
        return NoHandler;
      }
      var cooling := CheckCooldown(d.job.value.repo, a.checkedAt);
      if cooling {
        return CoolingDown;
      }
      if !d.poolAvailable {
        return Unavailable;
      }
      match d.reception {
        case Fails => return Raised;
        case AlreadyLive => return AlreadyQueued;
        case Taken =>
      }
      RecordEnqueue(d.job.value.repo, a.recordedAt);
      return Dispatched;
    }
  }

  // ------------------------------------------------------------------
  // Spacing
  // ------------------------------------------------------------------

  /** The cooldown table remembers the latest dispatch of each repository, and no other delivery. */
  lemma {:induction false} TableIsLatestDispatch(arrivals: seq<Arrival>, repo: string, window: nat)
    ensures var times, last := DispatchTimes(arrivals, repo, window), AfterAll(arrivals, window);
            && (times == [] <==> Lower(repo) !in last)
            && (times != [] ==> last[Lower(repo)] == times[|times| - 1])
  {
    hide Answer, Lower, SameButCase;
    if |arrivals| > 0 {
      var front, a := arrivals[..|arrivals| - 1], arrivals[|arrivals| - 1];
      TableIsLatestDispatch(front, repo, window);
      if Answer(AfterAll(front, window), a, window) == Dispatched {
        DispatchedMeansCool(AfterAll(front, window), a, window);
        LowerDecides(a.delivery.job.value.repo, repo);
      }
    }
  }

  /** Two dispatches of one repository that are n apart in the list are at least n windows apart in time. */
  lemma {:induction false} DispatchesAreSpaced(arrivals: seq<Arrival>, repo: string, window: nat, i: nat, j: nat)
    requires Sequential(arrivals)
    requires i <= j < |DispatchTimes(arrivals, repo, window)|
    ensures var times := DispatchTimes(arrivals, repo, window);
            times[j] - times[i] >= (j - i) as real * window as real
  {
    hide DispatchTimes, Answer, AfterAll;
    if i < j {
      NextDispatch(arrivals, repo, window);
      var front := arrivals[..|arrivals| - 1];
      var rest := DispatchTimes(front, repo, window);
      if j < |rest| {
        DispatchesAreSpaced(front, repo, window, i, j);
      } else {
        DispatchesAreSpaced(front, repo, window, i, j - 1);
        OneWindowMore((j - 1 - i) as real, window as real);
        assert (j - i) as real == (j - 1 - i) as real + 1.0;
      }
    }
  }

  lemma OneWindowMore(n: real, w: real)
    ensures (n + 1.0) * w == n * w + w
  {}

  lemma DispatchStep(arrivals: seq<Arrival>, repo: string, window: nat)
    ensures DispatchTimes([], repo, window) == []
    ensures |arrivals| > 0 ==>
              var front, a := arrivals[..|arrivals| - 1], arrivals[|arrivals| - 1];
              DispatchTimes(arrivals, repo, window) == DispatchTimes(front, repo, window)
                + (if Answer(AfterAll(front, window), a, window) == Dispatched
                      && SameButCase(a.delivery.job.value.repo, repo) then [a.recordedAt] else [])
  {
    hide Answer, AfterAll;
  }

  lemma DispatchedMeansCool(last: Cooldowns, a: Arrival, window: nat)
    requires Answer(last, a, window) == Dispatched
    ensures a.delivery.job.Some? && !InCooldown(last, a.delivery.job.value.repo, a.checkedAt, window)
  {}

  /** One more delivery adds no dispatch, or one that is a window after the latest. */
  lemma NextDispatch(arrivals: seq<Arrival>, repo: string, window: nat)
    requires Sequential(arrivals) && DispatchTimes(arrivals, repo, window) != []
    ensures |arrivals| > 0 && Sequential(arrivals[..|arrivals| - 1])
    ensures var times := DispatchTimes(arrivals, repo, window);
            var rest := DispatchTimes(arrivals[..|arrivals| - 1], repo, window);
            && rest <= times && |times| <= |rest| + 1
            && (|times| > |rest| > 0 ==> times[|rest|] - rest[|rest| - 1] >= window as real)
  {
    hide DispatchTimes, Answer, AfterAll, Lower, SameButCase;
    DispatchStep(arrivals, repo, window);
    var front, a := arrivals[..|arrivals| - 1], arrivals[|arrivals| - 1];
    TableIsLatestDispatch(front, repo, window);
    if Answer(AfterAll(front, window), a, window) == Dispatched {
      DispatchedMeansCool(AfterAll(front, window), a, window);
      LowerDecides(a.delivery.job.value.repo, repo);
    }
  }

  /**
    The rate limit: within any span of time of length `span`, at most
    floor(span / window) + 1 jobs of one repository (in any letter case) are dispatched.
   */
  lemma RateLimit(arrivals: seq<Arrival>, repo: string, window: nat, i: nat, j: nat, span: real)
    requires Sequential(arrivals) && window > 0
    requires i <= j < |DispatchTimes(arrivals, repo, window)|
    requires DispatchTimes(arrivals, repo, window)[j] - DispatchTimes(arrivals, repo, window)[i] <= span
    ensures j - i + 1 <= (span / window as real).Floor + 1
  {
    hide DispatchTimes, Sequential;
    DispatchesAreSpaced(arrivals, repo, window, i, j);
    var n, w := (j - i) as real, window as real;
    DivideBy(n, w, span);
  }

  lemma DivideBy(n: real, w: real, span: real)
    requires w > 0.0 && n * w <= span
    ensures n <= span / w
  {}
}
