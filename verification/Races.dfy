/**
  A chain under races. A session that loses an insert rolls back: the rows of its earlier
  decisions go with it, although their effects landed. When does an effect repeat?
 */
module Races {
  import opened Common
  import opened Decisions
  import opened Gate
  import opened Chain

  /** A live chain: every decision has a key of its own and clears its threshold. */
  ghost predicate LiveChain(env: Env, ds: seq<Decision>) { Runnable(env, ds) && AllClear(env, ds) }

  /** The session's database when the q-th decision is due, if the run gets there. */
  function Before(env: Env, db: Db, ds: seq<Decision>, turns: seq<Turn>, q: nat): Option<Db>
    requires |turns| == |ds| && q <= |ds|
    decreases q
  {
    if q == 0 then Some(db)
    else
      var (db1, r) := ExecuteDecision(env, db, ds[0], Full, Some(turns[0].reply), true, AGENT, turns[0].rivals);
      if r.Success? && IsProgress(r.value.outcome) then Before(env, db1, ds[1..], turns[1..], q - 1) else None
  }

  /** The p-th decision's own call lands in this run. */
  ghost predicate LandsAt(env: Env, db: Db, ds: seq<Decision>, turns: seq<Turn>, p: nat)
    requires |turns| == |ds| && Runnable(env, ds) && p < |ds|
  {
    var s := Before(env, db, ds, turns, p);
    s.Some? && !Visible(s.value, KeyAt(env, ds, p)) && turns[p].reply.Returns?
  }

  /** The q-th decision's call lands, and a rival has committed its key meanwhile. */
  ghost predicate LosesAt(env: Env, db: Db, ds: seq<Decision>, turns: seq<Turn>, q: nat)
    requires |turns| == |ds| && Runnable(env, ds) && q < |ds|
  {
    LandsAt(env, db, ds, turns, q) && KeyAt(env, ds, q) in turns[q].rivals
  }

  /** No rival commits this key. */
  ghost predicate Spared(key: Key, turns: seq<Turn>) {
    forall i :: 0 <= i < |turns| ==> key !in turns[i].rivals
  }

  /** How often a key's effect landed. */
  function Landings(log: seq<Entry>, key: Key): nat {
    if |log| == 0 then 0
    else
      var e := log[|log| - 1];
      Landings(log[..|log| - 1], key) + (if e.kind == Landed && e.key == Some(key) then 1 else 0)
  }

  lemma LandingsAppend(log: seq<Entry>, e: Entry, key: Key)
    ensures Landings(log + [e], key) == Landings(log, key) + (if e.kind == Landed && e.key == Some(key) then 1 else 0)
  {
    assert (log + [e])[..|log|] == log;
  }

  // ------------------------------------------------------------------
  // One decision of a live chain
  // ------------------------------------------------------------------

  /** The four ways a turn can go, as seen by one key. */
  lemma OneTurnFor(env: Env, db: Db, d: Decision, turn: Turn, key: Key)
    requires d.action in env.thresholds && Clears(env, d) && KeyOf(env, d, AGENT).Success? && key !in turn.rivals
    ensures var own := KeyOf(env, d, AGENT).value;
            var (after, r) := ExecuteDecision(env, db, d, Full, Some(turn.reply), true, AGENT, turn.rivals);
            var lands := !Visible(db, own) && turn.reply.Returns?;
            var loses := lands && own in turn.rivals;
            && r.Success? && (IsProgress(r.value.outcome) <==> Visible(db, own) || lands)
            && (key in after.committed <==> key in db.committed)
            && (key in after.pending <==> !loses && (key in db.pending || (lands && own == key)))
            && Landings(after.log, key) == Landings(db.log, key) + (if lands && own == key then 1 else 0)
  {
    hide Landings;
    var own := KeyOf(env, d, AGENT).value;
    if !Visible(db, own) {
      var effects := Effects(env, d, Some(own), Full, Some(turn.reply));
      assert effects == [effects[0]];
      LandingsAppend(db.log, effects[0], key);
      AttemptProgress(env, d, Full, turn);
    }
  }

  ghost predicate NextKeys(env: Env, ds: seq<Decision>)
    requires LiveChain(env, ds) && |ds| > 0
  {
    var rest := ds[1..];
    LiveChain(env, rest)
    && forall i :: 0 <= i < |rest| ==>
         KeyAt(env, rest, i) == KeyAt(env, ds, i + 1) && KeyAt(env, rest, i) != KeyAt(env, ds, 0)
  }

  /** The rest of a live chain is live, and its keys are the later ones. */
  lemma Shorter(env: Env, ds: seq<Decision>)
    requires LiveChain(env, ds) && |ds| > 0
    ensures NextKeys(env, ds)
  {
    hide KeyOf, Clears;
    var rest := ds[1..];
    assert |rest| == |ds| - 1;
    forall i | 0 <= i < |rest|
      ensures rest[i] == ds[i + 1]
    {}
    forall i, j | 0 <= i < j < |rest| ensures KeyOf(env, rest[i], AGENT) != KeyOf(env, rest[j], AGENT) {
      assert rest[i] == ds[i + 1] && rest[j] == ds[j + 1];
    }
    forall i | 0 <= i < |rest|
      ensures KeyAt(env, rest, i) == KeyAt(env, ds, i + 1) && KeyAt(env, rest, i) != KeyAt(env, ds, 0)
    {
      assert rest[i] == ds[i + 1] && KeyOf(env, ds[0], AGENT) != KeyOf(env, ds[i + 1], AGENT);
    }
  }

  /** What comes after the first decision, seen from there. */
  lemma AfterTheFirst(env: Env, db: Db, ds: seq<Decision>, turns: seq<Turn>, q: nat)
    requires LiveChain(env, ds) && |turns| == |ds| && 0 < q < |ds|
    ensures var (db1, r) := ExecuteDecision(env, db, ds[0], Full, Some(turns[0].reply), true, AGENT, turns[0].rivals);
            var on := r.Success? && IsProgress(r.value.outcome);
            && (LandsAt(env, db, ds, turns, q) <==> on && LandsAt(env, db1, ds[1..], turns[1..], q - 1))
            && (LosesAt(env, db, ds, turns, q) <==> on && LosesAt(env, db1, ds[1..], turns[1..], q - 1))
  {
    hide ExecuteDecision;
    Shorter(env, ds);
  }

  // ------------------------------------------------------------------
  // One run
  // ------------------------------------------------------------------

  ghost predicate LosesLater(env: Env, db: Db, ds: seq<Decision>, turns: seq<Turn>, p: int)
    requires |turns| == |ds| && Runnable(env, ds)
  {
    exists q :: p < q < |ds| && 0 <= q && LosesAt(env, db, ds, turns, q)
  }

  lemma LosesShift(env: Env, db: Db, ds: seq<Decision>, turns: seq<Turn>, p: int)
    requires LiveChain(env, ds) && |turns| == |ds| && |ds| > 0 && p >= 0
    ensures var (db1, r) := ExecuteDecision(env, db, ds[0], Full, Some(turns[0].reply), true, AGENT, turns[0].rivals);
            LosesLater(env, db, ds, turns, p)
            <==> r.Success? && IsProgress(r.value.outcome) && LosesLater(env, db1, ds[1..], turns[1..], p - 1)
  {
    hide ExecuteDecision, LosesAt;
    Shorter(env, ds);
    var (db1, r) := ExecuteDecision(env, db, ds[0], Full, Some(turns[0].reply), true, AGENT, turns[0].rivals);
    if LosesLater(env, db, ds, turns, p) {
      var q :| p < q < |ds| && LosesAt(env, db, ds, turns, q);
      AfterTheFirst(env, db, ds, turns, q);
      assert LosesAt(env, db1, ds[1..], turns[1..], q - 1);
    }
    if r.Success? && IsProgress(r.value.outcome) && LosesLater(env, db1, ds[1..], turns[1..], p - 1) {
      var q :| p - 1 < q < |ds| - 1 && LosesAt(env, db1, ds[1..], turns[1..], q);
      AfterTheFirst(env, db, ds, turns, q + 1);
      assert LosesAt(env, db, ds, turns, q + 1);
    }
  }

  /** A key that is none of the decisions still to come: its pending row is committed unless an insert is lost. */
  lemma {:induction false} Bystander(env: Env, db: Db, ds: seq<Decision>, turns: seq<Turn>, key: Key)
    requires LiveChain(env, ds) && |turns| == |ds| && Spared(key, turns)
    requires forall i :: 0 <= i < |ds| ==> KeyAt(env, ds, i) != key
    ensures var after := RunChain(env, db, ds, Full, turns).0;
            && Landings(after.log, key) == Landings(db.log, key)
            && (key in after.committed <==>
                  key in db.committed || (key in db.pending && !LosesLater(env, db, ds, turns, -1)))
    decreases |ds|
  {
    hide ExecuteDecision, LosesAt, Landings;
    if |ds| > 0 {
      var (db1, r) := ExecuteDecision(env, db, ds[0], Full, Some(turns[0].reply), true, AGENT, turns[0].rivals);
      assert KeyAt(env, ds, 0) != key && key !in turns[0].rivals;
      OneTurnFor(env, db, ds[0], turns[0], key);
      Shorter(env, ds);
      LosesShift(env, db, ds, turns, 0);
      FirstLoss(env, db, ds, turns);
      if IsProgress(r.value.outcome) {
        Bystander(env, db1, ds[1..], turns[1..], key);
      }
    }
  }

  lemma FirstLoss(env: Env, db: Db, ds: seq<Decision>, turns: seq<Turn>)
    requires LiveChain(env, ds) && |turns| == |ds| && |ds| > 0
    ensures var key := KeyAt(env, ds, 0);
            LosesAt(env, db, ds, turns, 0) <==> !Visible(db, key) && turns[0].reply.Returns? && key in turns[0].rivals
    ensures LosesLater(env, db, ds, turns, -1) <==> LosesAt(env, db, ds, turns, 0) || LosesLater(env, db, ds, turns, 0)
  {
    if q :| -1 < q < |ds| && LosesAt(env, db, ds, turns, q) {
      assert q == 0 || LosesLater(env, db, ds, turns, 0);
    }
  }

  /**
    What a run does for its p-th decision: it lands once or not at all, and leaves a row
    unless the session loses a later insert.
   */
  lemma {:induction false} RunFor(env: Env, db: Db, ds: seq<Decision>, turns: seq<Turn>, p: nat)
    requires LiveChain(env, ds) && |turns| == |ds| && p < |ds|
    requires Spared(KeyAt(env, ds, p), turns) && KeyAt(env, ds, p) !in db.pending
    ensures var key, after := KeyAt(env, ds, p), RunChain(env, db, ds, Full, turns).0;
            && Landings(after.log, key) == Landings(db.log, key) + (if LandsAt(env, db, ds, turns, p) then 1 else 0)
            && (key in after.committed <==>
                  key in db.committed || (LandsAt(env, db, ds, turns, p) && !LosesLater(env, db, ds, turns, p)))
    decreases p
  {
    hide ExecuteDecision, LosesAt, Landings;
    var key := KeyAt(env, ds, p);
    var (db1, r) := ExecuteDecision(env, db, ds[0], Full, Some(turns[0].reply), true, AGENT, turns[0].rivals);
    assert key !in turns[0].rivals;
    OneTurnFor(env, db, ds[0], turns[0], key);
    Shorter(env, ds);
    LosesShift(env, db, ds, turns, p);
    if p == 0 {
      assert forall i :: 0 <= i < |ds| - 1 ==> KeyAt(env, ds[1..], i) != key;
      if IsProgress(r.value.outcome) {
        Bystander(env, db1, ds[1..], turns[1..], key);
      }
    } else {
      AfterTheFirst(env, db, ds, turns, p);
      assert KeyAt(env, ds, 0) != key && KeyAt(env, ds[1..], p - 1) == key;
      if IsProgress(r.value.outcome) {
        RunFor(env, db1, ds[1..], turns[1..], p - 1);
      }
    }
  }

  /** An easy run gets to every decision, and lands one without a row. */
  lemma {:induction false} EasyLands(env: Env, db: Db, ds: seq<Decision>, p: nat)
    requires LiveChain(env, ds) && p < |ds| && !Visible(db, KeyAt(env, ds, p))
    ensures LandsAt(env, db, ds, EasyTurns(|ds|), p)
    decreases p
  {
    hide ExecuteDecision, Landings;
    if p > 0 {
      var turns, key := EasyTurns(|ds|), KeyAt(env, ds, p);
      OneTurnFor(env, db, ds[0], turns[0], key);
      Shorter(env, ds);
      var db1 := ExecuteDecision(env, db, ds[0], Full, Some(turns[0].reply), true, AGENT, turns[0].rivals).0;
      assert KeyAt(env, ds, 0) != key && KeyAt(env, ds[1..], p - 1) == key;
      EasyLands(env, db1, ds[1..], p - 1);
      assert turns[1..] == EasyTurns(|ds| - 1);
      AfterTheFirst(env, db, ds, turns, p);
    }
  }

  lemma {:induction false} NothingPends(env: Env, db: Db, ds: seq<Decision>, turns: seq<Turn>)
    requires |turns| == |ds|
    ensures RunChain(env, db, ds, Full, turns).0.pending == map[]
    decreases |ds|
  {
    hide ExecuteDecision;
    if |ds| > 0 {
      NothingPends(env, ExecuteDecision(env, db, ds[0], Full, Some(turns[0].reply), true, AGENT, turns[0].rivals).0,
                   ds[1..], turns[1..]);
    }
  }

  // ------------------------------------------------------------------
  // When an effect repeats
  // ------------------------------------------------------------------

  /** Counted from db, the p-th effect lands twice in some undisturbed run that starts from `after`. */
  ghost predicate RepeatsFrom(env: Env, db: Db, after: Db, ds: seq<Decision>, p: nat)
    requires LiveChain(env, ds) && p < |ds|
  {
    var key := KeyAt(env, ds, p);
    exists later :: Quiet(env, ds, later)
      && Landings(RunChain(env, after, ds, Full, later).0.log, key) >= Landings(db.log, key) + 2
  }

  /** In some later undisturbed run the p-th decision lands again. */
  ghost predicate Repeats(env: Env, db: Db, ds: seq<Decision>, turns: seq<Turn>, p: nat)
    requires LiveChain(env, ds) && |turns| == |ds| && p < |ds|
  {
    RepeatsFrom(env, db, RunChain(env, db, ds, Full, turns).0, ds, p)
  }

  /** A decision with no pending row can land once more exactly when it has no committed row either. */
  lemma RepeatsWhenForgotten(env: Env, db: Db, after: Db, ds: seq<Decision>, p: nat)
    requires LiveChain(env, ds) && p < |ds| && after.pending == map[]
    requires var key := KeyAt(env, ds, p);
             Landings(db.log, key) <= Landings(after.log, key) <= Landings(db.log, key) + 1
    ensures RepeatsFrom(env, db, after, ds, p)
       <==> Landings(after.log, KeyAt(env, ds, p)) > Landings(db.log, KeyAt(env, ds, p))
            && KeyAt(env, ds, p) !in after.committed
  {
    hide RunChain, LandsAt, LosesAt, Landings, LosesLater;
    var key := KeyAt(env, ds, p);
    if Landings(after.log, key) > Landings(db.log, key) && key !in after.committed {
      var easy := EasyTurns(|ds|);
      EasyLands(env, after, ds, p);
      RunFor(env, after, ds, easy, p);
      assert Quiet(env, ds, easy);
    }
    forall later | Quiet(env, ds, later)
      ensures Landings(RunChain(env, after, ds, Full, later).0.log, key) >= Landings(db.log, key) + 2 ==>
                Landings(after.log, key) > Landings(db.log, key) && key !in after.committed
    {
      RunFor(env, after, ds, later, p);
      LandsUnseen(env, after, ds, later, p);
    }
  }

  /**
    A live chain of any length, run with any replies among any rivals, none of which
    touches the p-th key: its effect can happen twice if and only if its call landed and
    the same run later lost the insert of another decision, that is, a rival committed that
    decision's key while its call was awaited.
   */
  lemma EffectRepeatsExactlyWhen(env: Env, db: Db, ds: seq<Decision>, turns: seq<Turn>, p: nat)
    requires LiveChain(env, ds) && |turns| == |ds| && p < |ds|
    requires db.pending == map[] && Spared(KeyAt(env, ds, p), turns)
    ensures Repeats(env, db, ds, turns, p)
       <==> LandsAt(env, db, ds, turns, p) && exists q :: p < q < |ds| && LosesAt(env, db, ds, turns, q)
  {
    hide RunChain, LandsAt, LosesAt, Landings, RepeatsFrom;
    RunFor(env, db, ds, turns, p);
    NothingPends(env, db, ds, turns);
    LandsUnseen(env, db, ds, turns, p);
    RepeatsWhenForgotten(env, db, RunChain(env, db, ds, Full, turns).0, ds, p);
    assert LosesLater(env, db, ds, turns, p) <==> exists q :: p < q < |ds| && LosesAt(env, db, ds, turns, q);
  }

  /** What lands had no row when the run started. */
  lemma {:induction false} LandsUnseen(env: Env, db: Db, ds: seq<Decision>, turns: seq<Turn>, p: nat)
    requires LiveChain(env, ds) && |turns| == |ds| && p < |ds| && Spared(KeyAt(env, ds, p), turns)
    ensures LandsAt(env, db, ds, turns, p) ==> KeyAt(env, ds, p) !in db.committed
    decreases p
  {
    hide ExecuteDecision, Landings;
    if p > 0 {
      var key := KeyAt(env, ds, p);
      assert key !in turns[0].rivals;
      OneTurnFor(env, db, ds[0], turns[0], key);
      Shorter(env, ds);
      AfterTheFirst(env, db, ds, turns, p);
      var db1 := ExecuteDecision(env, db, ds[0], Full, Some(turns[0].reply), true, AGENT, turns[0].rivals).0;
      assert KeyAt(env, ds[1..], p - 1) == key;
      LandsUnseen(env, db1, ds[1..], turns[1..], p - 1);
    }
  }

  // ------------------------------------------------------------------
  // A run that is cut off before its commit
  // ------------------------------------------------------------------

  /**
    The worker dies, or an exception escapes, before decision c, or (`inCall`) once its
    client call has been made: nothing the session added is committed.
   */
  function CutOff(env: Env, db: Db, ds: seq<Decision>, turns: seq<Turn>, c: nat, inCall: bool): Db
    requires |turns| == |ds| && LiveChain(env, ds) && c <= |ds| && Before(env, db, ds, turns, c).Some?
  {
    var s := Before(env, db, ds, turns, c).value;
    Rollback(if inCall && c < |ds| && !Visible(s, KeyAt(env, ds, c)) then
               AwaitClient(s, Effects(env, ds[c], Some(KeyAt(env, ds, c)), Full, Some(turns[c].reply)), turns[c].rivals)
             else s)
  }

  lemma {:induction false} BystanderBefore(env: Env, db: Db, ds: seq<Decision>, turns: seq<Turn>, c: nat, key: Key)
    requires LiveChain(env, ds) && |turns| == |ds| && Spared(key, turns) && c <= |ds|
    requires forall i :: 0 <= i < |ds| ==> KeyAt(env, ds, i) != key
    requires Before(env, db, ds, turns, c).Some?
    ensures var s := Before(env, db, ds, turns, c).value;
            Landings(s.log, key) == Landings(db.log, key) && (key in s.committed <==> key in db.committed)
    decreases c
  {
    hide ExecuteDecision, Landings;
    if c > 0 {
      var db1 := ExecuteDecision(env, db, ds[0], Full, Some(turns[0].reply), true, AGENT, turns[0].rivals).0;
      assert KeyAt(env, ds, 0) != key && key !in turns[0].rivals;
      OneTurnFor(env, db, ds[0], turns[0], key);
      Shorter(env, ds);
      BystanderBefore(env, db1, ds[1..], turns[1..], c - 1, key);
    }
  }

  /** When decision c is due, the p-th one has landed if it did so before, and has no committed row of this run. */
  lemma {:induction false} RunBefore(env: Env, db: Db, ds: seq<Decision>, turns: seq<Turn>, c: nat, p: nat)
    requires LiveChain(env, ds) && |turns| == |ds| && p < |ds| && c <= |ds|
    requires Spared(KeyAt(env, ds, p), turns) && Before(env, db, ds, turns, c).Some?
    ensures var s, key := Before(env, db, ds, turns, c).value, KeyAt(env, ds, p);
            && Landings(s.log, key) == Landings(db.log, key)
                 + (if p < c && LandsAt(env, db, ds, turns, p) then 1 else 0)
            && (key in s.committed <==> key in db.committed)
    decreases c
  {
    hide ExecuteDecision, Landings;
    if c > 0 {
      var key := KeyAt(env, ds, p);
      var db1 := ExecuteDecision(env, db, ds[0], Full, Some(turns[0].reply), true, AGENT, turns[0].rivals).0;
      assert key !in turns[0].rivals;
      OneTurnFor(env, db, ds[0], turns[0], key);
      Shorter(env, ds);
      if p == 0 {
        assert forall i :: 0 <= i < |ds| - 1 ==> KeyAt(env, ds[1..], i) != key;
        BystanderBefore(env, db1, ds[1..], turns[1..], c - 1, key);
      } else {
        assert KeyAt(env, ds, 0) != key && KeyAt(env, ds[1..], p - 1) == key;
        AfterTheFirst(env, db, ds, turns, p);
        RunBefore(env, db1, ds[1..], turns[1..], c - 1, p - 1);
      }
    }
  }

  /** What the cut leaves of the p-th decision. */
  lemma CutLeaves(env: Env, db: Db, ds: seq<Decision>, turns: seq<Turn>, c: nat, inCall: bool, p: nat)
    requires LiveChain(env, ds) && |turns| == |ds| && p < |ds| && c <= |ds|
    requires Spared(KeyAt(env, ds, p), turns) && Before(env, db, ds, turns, c).Some?
    ensures var after, key := CutOff(env, db, ds, turns, c, inCall), KeyAt(env, ds, p);
            && after.pending == map[] && (key in after.committed <==> key in db.committed)
            && Landings(after.log, key) == Landings(db.log, key)
                 + (if LandsAt(env, db, ds, turns, p) && (p < c || (inCall && p == c)) then 1 else 0)
  {
    hide Before, Landings, ExecuteDecision;
    RunBefore(env, db, ds, turns, c, p);
    var s, key := Before(env, db, ds, turns, c).value, KeyAt(env, ds, p);
    if inCall && c < |ds| && !Visible(s, KeyAt(env, ds, c)) {
      var effects := Effects(env, ds[c], Some(KeyAt(env, ds, c)), Full, Some(turns[c].reply));
      assert effects == [effects[0]] && key !in turns[c].rivals;
      LandingsAppend(s.log, effects[0], key);
      SameKeySamePlace(env, ds, c, p);
    }
  }

  lemma SameKeySamePlace(env: Env, ds: seq<Decision>, c: nat, p: nat)
    requires LiveChain(env, ds) && c < |ds| && p < |ds|
    ensures KeyAt(env, ds, c) == KeyAt(env, ds, p) <==> c == p
  {
    if c < p {
      assert KeyOf(env, ds[c], AGENT) != KeyOf(env, ds[p], AGENT);
    } else if p < c {
      assert KeyOf(env, ds[p], AGENT) != KeyOf(env, ds[c], AGENT);
    }
  }

  /**
    A run cut off before its commit, with any replies and rivals up to there, none on the
    p-th key: the p-th effect can happen twice if and only if it landed before the cut.
   */
  lemma CutOffRepeatsExactlyWhen(env: Env, db: Db, ds: seq<Decision>, turns: seq<Turn>, c: nat, inCall: bool, p: nat)
    requires LiveChain(env, ds) && |turns| == |ds| && p < |ds| && c <= |ds|
    requires Spared(KeyAt(env, ds, p), turns) && Before(env, db, ds, turns, c).Some?
    ensures RepeatsFrom(env, db, CutOff(env, db, ds, turns, c, inCall), ds, p)
       <==> LandsAt(env, db, ds, turns, p) && (p < c || (inCall && p == c))
  {
    hide CutOff, LandsAt, Landings, RepeatsFrom, Before;
    CutLeaves(env, db, ds, turns, c, inCall, p);
    LandsUnseen(env, db, ds, turns, p);
    RepeatsWhenForgotten(env, db, CutOff(env, db, ds, turns, c, inCall), ds, p);
  }

  // ------------------------------------------------------------------
  // The shortest such run
  // ------------------------------------------------------------------

  /**
    A rival that wins the insert of the second decision rolls the whole session back: the
    row of the first decision is gone although its effect landed, and a second run repeats
    that effect.
   */
  lemma RaceForgetsEarlierRows(env: Env, db: Db, ds: seq<Decision>, rival: Row)
    requires Runnable(env, ds) && AllClear(env, ds) && |ds| == 2
    requires db.log == [] && db.pending == map[] && DoneUpTo(env, db, ds, 0)
    ensures var key0, key1 := KeyAt(env, ds, 0), KeyAt(env, ds, 1);
            var turns := [Turn(Returns(map[]), map[]), Turn(Returns(map[]), map[key1 := rival])];
            var raced := RunChain(env, db, ds, Full, turns).0;
            && key0 !in raced.committed && key1 in raced.committed
            && SentTo(Settled(raced.log)) == ds
            && SentTo(Settled(RunChain(env, raced, ds, Full, EasyTurns(2)).0.log)) == ds + [ds[0]]
  {
    var rivals := map[KeyAt(env, ds, 1) := rival];
    RacedRun(env, db, ds, rival);
    var raced := RunChain(env, db, ds, Full, [Turn(Returns(map[]), map[]), Turn(Returns(map[]), rivals)]).0;
    RunAfterTheRace(env, raced, ds);
    SentToEntries(env, ds);
  }

  lemma RacedRun(env: Env, db: Db, ds: seq<Decision>, rival: Row)
    requires Runnable(env, ds) && AllClear(env, ds) && |ds| == 2
    requires db.log == [] && db.pending == map[] && DoneUpTo(env, db, ds, 0)
    ensures var key0, key1 := KeyAt(env, ds, 0), KeyAt(env, ds, 1);
            var turns := [Turn(Returns(map[]), map[]), Turn(Returns(map[]), map[key1 := rival])];
            var raced := RunChain(env, db, ds, Full, turns).0;
            && key0 !in raced.committed && key1 in raced.committed && raced.pending == map[]
            && raced.log == [EntryFor(env, ds[0], Full), EntryFor(env, ds[1], Full)]
  {
    var key0, key1, r := KeyAt(env, ds, 0), KeyAt(env, ds, 1), Returns(map[]);
    assert key0 != key1 && !Visible(db, key0) && !Visible(db, key1);
    var rivals := map[key1 := rival];
    var e0, e1 := EntryFor(env, ds[0], Full), EntryFor(env, ds[1], Full);
    var row := RowFor(ds[0], Attempt(env, ds[0], Full, Some(r)));
    FullCallLands(env, db, ds[0], map[]);
    assert map[] + db.committed == db.committed && [] + [e0] == [e0];
    var db1 := Db(db.committed, map[key0 := row], [e0]);
    FullCallLands(env, db1, ds[1], rivals);
    var db2 := Db(rivals + db.committed, map[], [e0, e1]);
    assert [e0] + [e1] == [e0, e1];
    TwoSteps(env, db, ds, [Turn(r, map[]), Turn(r, rivals)], db1, db2);
    assert db2.committed + map[] == db2.committed;
  }

  lemma RunAfterTheRace(env: Env, raced: Db, ds: seq<Decision>)
    requires Runnable(env, ds) && AllClear(env, ds) && |ds| == 2 && raced.pending == map[]
    requires KeyAt(env, ds, 0) !in raced.committed && KeyAt(env, ds, 1) in raced.committed
    ensures RunChain(env, raced, ds, Full, EasyTurns(2)).0.log == raced.log + [EntryFor(env, ds[0], Full)]
  {
    var key0, r := KeyAt(env, ds, 0), Returns(map[]);
    assert Clears(env, ds[0]) && KeyOf(env, ds[0], AGENT).Success? && KeyOf(env, ds[1], AGENT).Success?;
    FullCallLands(env, raced, ds[0], map[]);
    assert map[] + raced.committed == raced.committed;
    var row := RowFor(ds[0], Attempt(env, ds[0], Full, Some(r)));
    var db3 := Db(raced.committed, map[key0 := row], raced.log + [EntryFor(env, ds[0], Full)]);
    OneCall(env, db3, ds[1], Full, Some(r), AGENT);
    TwoSteps(env, raced, ds, EasyTurns(2), db3, db3);
  }

  lemma SentToEntries(env: Env, ds: seq<Decision>)
    requires Runnable(env, ds) && AllClear(env, ds) && |ds| == 2
    ensures var e0, e1 := EntryFor(env, ds[0], Full), EntryFor(env, ds[1], Full);
            SentTo(Settled([e0, e1])) == ds && SentTo(Settled([e0, e1] + [e0])) == ds + [ds[0]]
  {
    var e0, e1 := EntryFor(env, ds[0], Full), EntryFor(env, ds[1], Full);
    SettledAppend([], e0);
    SettledAppend([e0], e1);
    SettledAppend([e0, e1], e0);
    assert [] + [e0] == [e0] && [e0] + [e1] == [e0, e1];
    assert SentTo([e0, e1]) == ds && SentTo([e0, e1, e0]) == ds + [ds[0]];
    assert [e0, e1] + [e0] == [e0, e1, e0];
  }

  /** A live call of a decision without a row: it lands, and is recorded unless a rival was faster. */
  lemma FullCallLands(env: Env, db: Db, d: Decision, rivals: map<Key, Row>)
    requires d.action in env.thresholds && Clears(env, d) && KeyOf(env, d, AGENT).Success?
    requires !Visible(db, KeyOf(env, d, AGENT).value)
    ensures var key, r := KeyOf(env, d, AGENT).value, Attempt(env, d, Full, Some(Returns(map[])));
            var awaited := AwaitClient(db, [EntryFor(env, d, Full)], rivals);
            && r.outcome == Executed
            && ExecuteDecision(env, db, d, Full, Some(Returns(map[])), true, AGENT, rivals)
                 == if key in rivals then (awaited.(pending := map[]), Success(RACE_RESULT))
                    else (awaited.(pending := db.pending[key := RowFor(d, r)]), Success(r))
  {}

  lemma TwoSteps(env: Env, db: Db, ds: seq<Decision>, turns: seq<Turn>, db1: Db, db2: Db)
    requires |ds| == 2 == |turns|
    requires var (a, r) := ExecuteDecision(env, db, ds[0], Full, Some(turns[0].reply), true, AGENT, turns[0].rivals);
             a == db1 && r.Success? && IsProgress(r.value.outcome)
    requires var (b, r) := ExecuteDecision(env, db1, ds[1], Full, Some(turns[1].reply), true, AGENT, turns[1].rivals);
             b == db2 && r.Success? && IsProgress(r.value.outcome)
    ensures RunChain(env, db, ds, Full, turns).0 == Commit(db2)
  {
    hide ExecuteDecision, RunChain;
    ProgressStep(env, db, ds, turns);
    ProgressStep(env, db1, ds[1..], turns[1..]);
    assert ds[1..][1..] == [] && turns[1..][1..] == [];
    EndOfChain(env, db2);
  }

  lemma ProgressStep(env: Env, db: Db, ds: seq<Decision>, turns: seq<Turn>)
    requires |ds| == |turns| && |ds| > 0
    requires var (_, r) := ExecuteDecision(env, db, ds[0], Full, Some(turns[0].reply), true, AGENT, turns[0].rivals);
             r.Success? && IsProgress(r.value.outcome)
    ensures var (db1, _) := ExecuteDecision(env, db, ds[0], Full, Some(turns[0].reply), true, AGENT, turns[0].rivals);
            RunChain(env, db, ds, Full, turns).0 == RunChain(env, db1, ds[1..], Full, turns[1..]).0
  {
    hide ExecuteDecision;
  }

  lemma EndOfChain(env: Env, db: Db)
    ensures RunChain(env, db, [], Full, []).0 == Commit(db)
  {}
}
