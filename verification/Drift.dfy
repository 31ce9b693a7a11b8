/**
  Re-running a chain while its settings drift: each run has its own write mode and its own
  wording and confidence for every decision, over the same keys. When do the decisions that
  took effect as declared stay a prefix of the chain?
 */
module Drift {
  import opened Common
  import opened Decisions
  import opened Gate
  import opened Chain

  /** What one run is configured with. */
  datatype Setting = Setting(ds: seq<Decision>, mode: WriteMode)

  /** All runs are about one chain: the i-th decision of each has the i-th key. */
  ghost predicate SameChain(env: Env, keys: seq<Key>, plan: seq<Setting>) {
    forall k :: 0 <= k < |plan| ==> ChainOf(env, keys, plan[k])
  }

  ghost predicate ChainOf(env: Env, keys: seq<Key>, c: Setting) {
    && |c.ds| == |keys| && Runnable(env, c.ds)
    && forall i :: 0 <= i < |keys| ==> KeyAt(env, c.ds, i) == keys[i]
  }

  /** What the world does in each run: any replies, and rivals that leave the chain's keys alone. */
  ghost predicate Worlds(keys: seq<Key>, plan: seq<Setting>, turns: seq<seq<Turn>>) {
    && |turns| == |plan|
    && (forall k :: 0 <= k < |plan| ==> |turns[k]| == |plan[k].ds|)
    && forall k :: 0 <= k < |plan| ==> LeavesAlone(keys, turns[k])
  }

  ghost predicate LeavesAlone(keys: seq<Key>, turns: seq<Turn>) {
    forall i, p :: 0 <= i < |turns| && 0 <= p < |keys| ==> keys[p] !in turns[i].rivals
  }

  function RunPlan(env: Env, db: Db, plan: seq<Setting>, turns: seq<seq<Turn>>): Db
    requires |turns| == |plan| && forall k :: 0 <= k < |plan| ==> |turns[k]| == |plan[k].ds|
  {
    if |plan| == 0 then db
    else
      var n := |plan| - 1;
      RunChain(env, RunPlan(env, db, plan[..n], turns[..n]), plan[n].ds, plan[n].mode, turns[n]).0
  }

  /** The first m keys have a row, and no other key of the chain has. */
  ghost predicate Done(db: Db, keys: seq<Key>, m: nat) {
    forall i :: 0 <= i < |keys| ==> (Visible(db, keys[i]) <==> i < m)
  }

  // ------------------------------------------------------------------
  // The declared effects
  // ------------------------------------------------------------------

  /** A successful client call that was the declared decision, not a comment in its place. */
  predicate IsDeclared(e: Entry) { e.kind == Landed && !e.downgraded }

  /** The keys whose declared decision took effect, in order. */
  function DeclaredKeys(log: seq<Entry>): seq<Option<Key>> {
    if |log| == 0 then []
    else
      var e := log[|log| - 1];
      DeclaredKeys(log[..|log| - 1]) + (if IsDeclared(e) then [e.key] else [])
  }

  function Options(keys: seq<Key>): seq<Option<Key>> {
    seq(|keys|, i requires 0 <= i < |keys| => Some(keys[i]))
  }

  ghost predicate InOrder(keys: seq<Key>, log: seq<Entry>) { DeclaredKeys(log) <= Options(keys) }

  ghost predicate Distinct(keys: seq<Key>) { forall i, j :: 0 <= i < j < |keys| ==> keys[i] != keys[j] }

  /** A run turns this decision into a comment. */
  predicate Comments(env: Env, c: Setting, i: nat)
    requires i < |c.ds| && c.ds[i].action in env.thresholds
  {
    RouteOf(env, c.ds[i], c.mode).AsComment?
  }

  /** A run executes this decision as declared, if the client lets it. */
  predicate Declares(env: Env, c: Setting, i: nat)
    requires i < |c.ds| && c.ds[i].action in env.thresholds
  {
    c.mode != Shadow && RouteOf(env, c.ds[i], c.mode) == AsIs
  }

  // ------------------------------------------------------------------
  // From the log to flags
  // ------------------------------------------------------------------

  lemma DeclaredAppend(log: seq<Entry>, e: Entry)
    ensures DeclaredKeys(log + [e]) == DeclaredKeys(log) + (if IsDeclared(e) then [e.key] else [])
  {
    assert (log + [e])[..|log|] == log;
  }

  lemma {:induction false} DeclaredIsSettled(log: seq<Entry>)
    ensures DeclaredKeys(Settled(log)) == DeclaredKeys(log)
  {
    if |log| > 0 {
      var front, e := log[..|log| - 1], log[|log| - 1];
      DeclaredIsSettled(front);
      assert Settled(front) + [] == Settled(front);
      DeclaredAppend(Settled(front), e);
    }
  }

  /** The settled entries are those of the first keys, one each. */
  ghost predicate Keyed(keys: seq<Key>, settled: seq<Entry>) {
    |settled| <= |keys| && forall p :: 0 <= p < |settled| ==> settled[p].key == Some(keys[p])
  }

  /** Once a decision did not take effect as declared, no later one does. */
  ghost predicate Solid(settled: seq<Entry>) {
    forall p :: 0 <= p && p + 1 < |settled| && IsDeclared(settled[p + 1]) ==> IsDeclared(settled[p])
  }

  lemma {:induction false} SolidDown(settled: seq<Entry>, p: nat, q: nat)
    requires Solid(settled) && p <= q < |settled| && IsDeclared(settled[q])
    ensures IsDeclared(settled[p])
  {
    if p < q {
      assert q - 1 + 1 < |settled|;
      SolidDown(settled, p, q - 1);
    }
  }

  lemma {:induction false} SolidGivesPrefix(keys: seq<Key>, settled: seq<Entry>)
    requires Keyed(keys, settled) && Solid(settled)
    ensures DeclaredKeys(settled) <= Options(keys)
    ensures (forall p :: 0 <= p < |settled| ==> IsDeclared(settled[p])) ==>
              DeclaredKeys(settled) == Options(keys)[..|settled|]
  {
    if |settled| > 0 {
      var n := |settled| - 1;
      SolidGivesPrefix(keys, settled[..n]);
      if IsDeclared(settled[n]) {
        forall p | 0 <= p < n ensures IsDeclared(settled[..n][p]) {
          SolidDown(settled, p, n);
        }
      }
    }
  }

  lemma {:induction false} DeclaredCount(settled: seq<Entry>, n: nat)
    requires n <= |settled|
    ensures DeclaredKeys(settled[..n]) <= DeclaredKeys(settled) && |DeclaredKeys(settled[..n])| <= n
    ensures n < |settled| && IsDeclared(settled[n]) ==>
              |DeclaredKeys(settled)| > |DeclaredKeys(settled[..n])|
              && DeclaredKeys(settled)[|DeclaredKeys(settled[..n])|] == settled[n].key
    decreases |settled|
  {
    if n == |settled| {
      assert settled[..n] == settled;
      if n > 0 {
        DeclaredCount(settled[..n - 1], n - 1);
        assert settled[..n - 1][..n - 1] == settled[..n - 1];
      }
    } else {
      var m := |settled| - 1;
      DeclaredCount(settled[..m], n);
      assert settled[..m][..n] == settled[..n];
    }
  }

  /** A gap in front of a declared decision cannot be mended later. */
  lemma {:induction false} GapBreaksPrefix(keys: seq<Key>, settled: seq<Entry>, p: nat)
    requires Keyed(keys, settled) && Distinct(keys)
    requires p + 1 < |settled| && !IsDeclared(settled[p]) && IsDeclared(settled[p + 1])
    ensures !(DeclaredKeys(settled) <= Options(keys))
  {
    var all, q := DeclaredKeys(settled), |DeclaredKeys(settled[..p + 1])|;
    DeclaredCount(settled, p + 1);
    DeclaredCount(settled[..p + 1], p);
    assert settled[..p + 1][..p] == settled[..p] && settled[..p + 1][p] == settled[p];
    DeclaredAppend(settled[..p], settled[p]);
    assert settled[..p + 1] == settled[..p] + [settled[p]];
    DeclaredCount(settled[..p], p);
    assert settled[..p][..p] == settled[..p];
    assert q <= p && all[q] == Some(keys[p + 1]);
    assert Options(keys)[q] == Some(keys[q]) && keys[q] != keys[p + 1];
  }

  // ------------------------------------------------------------------
  // One run
  // ------------------------------------------------------------------

  /** Where a run stops when nothing fails, if it starts with rows for the first m decisions. */
  function StopOf(env: Env, c: Setting, m: nat): nat
    requires m <= |c.ds| && Runnable(env, c.ds)
  {
    Stop(env, c.ds, c.mode, m)
  }

  /** Some replies take a run from rows for the first m decisions to rows for the first m'. */
  ghost predicate Leads(env: Env, c: Setting, m: nat, m': nat)
    requires Runnable(env, c.ds)
  {
    m <= |c.ds| && if c.mode == Shadow then m' == StopOf(env, c, m) else m <= m' <= StopOf(env, c, m)
  }

  /** The first m keys have rows, and what settled is one entry for each of them. */
  ghost predicate At(db: Db, keys: seq<Key>, m: nat) {
    m <= |keys| && Done(db, keys, m) && |Settled(db.log)| == m && Keyed(keys, Settled(db.log))
  }

  /** One run leads from m to m'; the entries it adds are declared where it declares. */
  lemma OneSetting(env: Env, keys: seq<Key>, db: Db, c: Setting, turns: seq<Turn>, m: nat) returns (m': nat)
    requires ChainOf(env, keys, c) && |turns| == |c.ds| && LeavesAlone(keys, turns) && At(db, keys, m)
    ensures var after := RunChain(env, db, c.ds, c.mode, turns).0;
            && Leads(env, c, m, m') && At(after, keys, m')
            && Settled(after.log)[..m] == Settled(db.log)
            && forall p :: m <= p < m' ==> (IsDeclared(Settled(after.log)[p]) <==> Declares(env, c, p))
    ensures c.mode != Shadow ==> forall t :: m <= t && SucceedsUpTo(turns, t) ==>
              m' == if t <= StopOf(env, c, m) then t else StopOf(env, c, m)
  {
    hide RunChain, Settled;
    assert DoneUpTo(env, db, c.ds, m) by {
      forall i | 0 <= i < |c.ds| ensures Visible(db, KeyAt(env, c.ds, i)) <==> i < m {
        assert KeyAt(env, c.ds, i) == keys[i];
      }
    }
    assert Quiet(env, c.ds, turns) by {
      forall i, p | 0 <= i < |turns| && 0 <= p < |c.ds| ensures KeyAt(env, c.ds, p) !in turns[i].rivals {
        assert KeyAt(env, c.ds, p) == keys[p];
      }
    }
    m' := OneRun(env, db, c.ds, c.mode, turns, m);
    var after := RunChain(env, db, c.ds, c.mode, turns).0;
    forall i | 0 <= i < |keys| ensures Visible(after, keys[i]) <==> i < m' { assert KeyAt(env, c.ds, i) == keys[i]; }
    NewEntries(env, keys, c, Settled(db.log), m, m');
  }

  lemma NewEntries(env: Env, keys: seq<Key>, c: Setting, settled: seq<Entry>, m: nat, m': nat)
    requires ChainOf(env, keys, c) && m <= m' <= |keys| && |settled| == m && Keyed(keys, settled)
    ensures var all := settled + EntriesFor(env, c.ds, c.mode, m, m');
            && |all| == m' && Keyed(keys, all) && all[..m] == settled
            && forall p :: m <= p < m' ==> (IsDeclared(all[p]) <==> Declares(env, c, p))
  {
    var all := settled + EntriesFor(env, c.ds, c.mode, m, m');
    forall p | 0 <= p < m'
      ensures all[p].key == Some(keys[p])
      ensures m <= p ==> (IsDeclared(all[p]) <==> Declares(env, c, p))
    {
      if m <= p {
        assert all[p] == EntryFor(env, c.ds[p], c.mode) && KeyAt(env, c.ds, p) == keys[p];
      }
    }
  }

  // ------------------------------------------------------------------
  // When the declared effects stay in order
  // ------------------------------------------------------------------

  /** Some replies leave rows for exactly the first m decisions when run k starts. */
  ghost predicate Reachable(env: Env, keys: seq<Key>, plan: seq<Setting>, k: nat, m: nat)
    requires SameChain(env, keys, plan) && k <= |plan|
  {
    if k == 0 then m == 0
    else var j := k - 1; exists m0: nat :: Reachable(env, keys, plan, j, m0) && Leads(env, plan[j], m0, m)
  }

  /** Run k can get as far as decision i, and turns it into a comment, which ends the run. */
  ghost predicate CanEndInComment(env: Env, keys: seq<Key>, plan: seq<Setting>, k: nat, i: nat)
    requires SameChain(env, keys, plan) && k < |plan| && i < |keys|
  {
    Comments(env, plan[k], i)
    && exists m :: 0 <= m <= i && Reachable(env, keys, plan, k, m) && StopOf(env, plan[k], m) == i + 1
  }

  ghost predicate NoShadowBetween(plan: seq<Setting>, lo: nat, hi: nat)
    requires hi <= |plan|
  {
    forall l :: lo < l < hi ==> plan[l].mode != Shadow
  }

  /** Run k ends in a comment for decision i, and run k', the first to go on from there, declares the next one. */
  ghost predicate Skips(env: Env, keys: seq<Key>, plan: seq<Setting>, k: nat, k': nat, i: nat)
    requires SameChain(env, keys, plan)
  {
    && k < k' < |plan| && i + 1 < |keys|
    && CanEndInComment(env, keys, plan, k, i) && NoShadowBetween(plan, k, k') && Declares(env, plan[k'], i + 1)
  }

  /** What holds after k runs: no gap yet, and a comment at the end is one that `CanEndInComment` foresees. */
  ghost predicate Sound(env: Env, keys: seq<Key>, plan: seq<Setting>, k: nat, db: Db, m: nat)
    requires SameChain(env, keys, plan) && k <= |plan|
  {
    && At(db, keys, m) && Reachable(env, keys, plan, k, m) && Solid(Settled(db.log))
    && Foreseen(env, keys, plan, k, Settled(db.log))
  }

  lemma {:induction false} PlanIsSound(env: Env, keys: seq<Key>, db: Db, plan: seq<Setting>, turns: seq<seq<Turn>>,
                                       k: nat)
    returns (m: nat)
    requires SameChain(env, keys, plan) && Worlds(keys, plan, turns) && k <= |plan|
    requires db.log == [] && Done(db, keys, 0)
    requires forall k, k', i :: !Skips(env, keys, plan, k, k', i)
    ensures Sound(env, keys, plan, k, RunPlan(env, db, plan[..k], turns[..k]), m)
    decreases k
  {
    if k == 0 {
      m := 0;
    } else {
      var m0 := PlanIsSound(env, keys, db, plan, turns, k - 1);
      assert plan[..k][..k - 1] == plan[..k - 1] && turns[..k][..k - 1] == turns[..k - 1];
      var mid := RunPlan(env, db, plan[..k - 1], turns[..k - 1]);
      m := OneSetting(env, keys, mid, plan[k - 1], turns[k - 1], m0);
      StepIsSound(env, keys, plan, k - 1, mid, RunPlan(env, db, plan[..k], turns[..k]), m0, m);
    }
  }

  lemma {:induction false} StepIsSound(env: Env, keys: seq<Key>, plan: seq<Setting>, k: nat, mid: Db, after: Db,
                                       m: nat, m': nat)
    requires SameChain(env, keys, plan) && k < |plan| && Sound(env, keys, plan, k, mid, m)
    requires forall k', i :: !Skips(env, keys, plan, k', k, i)
    requires Leads(env, plan[k], m, m') && At(after, keys, m') && Settled(after.log)[..m] == Settled(mid.log)
    requires forall p :: m <= p < m' ==> (IsDeclared(Settled(after.log)[p]) <==> Declares(env, plan[k], p))
    ensures Sound(env, keys, plan, k + 1, after, m')
  {
    hide Settled, Keyed, Done, ChainOf;
    StaysSolid(env, keys, plan, k, Settled(mid.log), Settled(after.log), m, m');
    EndsForeseen(env, keys, plan, k, Settled(mid.log), Settled(after.log), m, m');
  }

  ghost predicate Foreseen(env: Env, keys: seq<Key>, plan: seq<Setting>, k: nat, settled: seq<Entry>)
    requires SameChain(env, keys, plan) && k <= |plan|
  {
    0 < |settled| < |keys| && !IsDeclared(settled[|settled| - 1]) ==>
      exists k0 :: 0 <= k0 < k && CanEndInComment(env, keys, plan, k0, |settled| - 1) && NoShadowBetween(plan, k0, k)
  }

  lemma {:induction false} StaysSolid(env: Env, keys: seq<Key>, plan: seq<Setting>, k: nat, before: seq<Entry>,
                                      after: seq<Entry>, m: nat, m': nat)
    requires SameChain(env, keys, plan) && k < |plan| && Leads(env, plan[k], m, m')
    requires |before| == m && |after| == m' <= |keys| && after[..m] == before
    requires Solid(before) && Foreseen(env, keys, plan, k, before)
    requires forall k', i :: !Skips(env, keys, plan, k', k, i)
    requires forall p :: m <= p < m' ==> (IsDeclared(after[p]) <==> Declares(env, plan[k], p))
    ensures Solid(after)
  {
    hide IsDeclared, CanEndInComment, Skips;
    assert forall p :: 0 <= p < m ==> after[p] == before[p];
    forall p | 0 <= p && p + 1 < m' && IsDeclared(after[p + 1]) ensures IsDeclared(after[p]) {
      if p + 1 < m {
        assert IsDeclared(before[p + 1]);
      } else if p + 1 == m && !IsDeclared(after[p]) {
        var k0 :| 0 <= k0 < k && CanEndInComment(env, keys, plan, k0, m - 1) && NoShadowBetween(plan, k0, k);
        GapSkips(env, keys, plan, k0, k, m - 1);
      }
    }
  }

  lemma GapSkips(env: Env, keys: seq<Key>, plan: seq<Setting>, k0: nat, k: nat, i: nat)
    requires SameChain(env, keys, plan) && k0 < k < |plan| && i + 1 < |keys|
    requires CanEndInComment(env, keys, plan, k0, i) && NoShadowBetween(plan, k0, k) && Declares(env, plan[k], i + 1)
    ensures Skips(env, keys, plan, k0, k, i)
  {}

  lemma {:induction false} EndsInComment(env: Env, keys: seq<Key>, plan: seq<Setting>, k: nat, m: nat, m': nat)
    requires SameChain(env, keys, plan) && k < |plan| && Leads(env, plan[k], m, m') && Reachable(env, keys, plan, k, m)
    requires m < m' < |keys| && !Declares(env, plan[k], m' - 1)
    ensures CanEndInComment(env, keys, plan, k, m' - 1)
  {
    hide Reachable;
    assert StopOf(env, plan[k], m) == m' && Comments(env, plan[k], m' - 1);
  }

  lemma {:induction false} EndsForeseen(env: Env, keys: seq<Key>, plan: seq<Setting>, k: nat, before: seq<Entry>,
                                        after: seq<Entry>, m: nat, m': nat)
    requires SameChain(env, keys, plan) && k < |plan| && Leads(env, plan[k], m, m') && Reachable(env, keys, plan, k, m)
    requires |before| == m && |after| == m' <= |keys| && after[..m] == before && Foreseen(env, keys, plan, k, before)
    requires forall p :: m <= p < m' ==> (IsDeclared(after[p]) <==> Declares(env, plan[k], p))
    ensures Foreseen(env, keys, plan, k + 1, after)
  {
    hide IsDeclared, Reachable, CanEndInComment, Declares;
    if 0 < m' < |keys| && !IsDeclared(after[m' - 1]) {
      if m' == m {
        var k0 :| 0 <= k0 < k && CanEndInComment(env, keys, plan, k0, m - 1) && NoShadowBetween(plan, k0, k);
        assert NoShadowBetween(plan, k0, k + 1);
      } else {
        EndsInComment(env, keys, plan, k, m, m');
        assert NoShadowBetween(plan, k, k + 1);
      }
    }
  }

  // ------------------------------------------------------------------
  // Replies that do what the settings allow
  // ------------------------------------------------------------------

  /** Success for the decisions before t, failure from there on, and no rivals. */
  function TurnsUpTo(n: nat, t: nat): (turns: seq<Turn>)
    ensures |turns| == n && SucceedsUpTo(turns, t)
    ensures forall i :: 0 <= i < n ==> turns[i].rivals == map[]
  {
    seq(n, i requires 0 <= i < n => Turn(if i < t then Returns(map[]) else Raises(""), map[]))
  }

  lemma QuietTurns(keys: seq<Key>, turns: seq<Turn>)
    requires forall i :: 0 <= i < |turns| ==> turns[i].rivals == map[]
    ensures LeavesAlone(keys, turns)
  {}

  /** One more run. */
  lemma PlanSnoc(env: Env, keys: seq<Key>, db: Db, plan: seq<Setting>, k: nat, turns: seq<seq<Turn>>, last: seq<Turn>)
    requires k < |plan| && Worlds(keys, plan[..k], turns)
    requires |last| == |plan[k].ds| && LeavesAlone(keys, last)
    ensures Worlds(keys, plan[..k + 1], turns + [last])
    ensures RunPlan(env, db, plan[..k + 1], turns + [last])
         == RunChain(env, RunPlan(env, db, plan[..k], turns), plan[k].ds, plan[k].mode, last).0
  {
    hide RunChain, LeavesAlone;
    var all := turns + [last];
    assert plan[..k + 1][..k] == plan[..k] && all[..k] == turns;
    assert forall l :: 0 <= l < k ==> all[l] == turns[l] && plan[..k + 1][l] == plan[..k][l];
  }

  /** Run k with success for the decisions before t. */
  lemma {:induction false} RunOn(env: Env, keys: seq<Key>, db: Db, plan: seq<Setting>, k: nat, turns: seq<seq<Turn>>,
                                 m: nat, t: nat)
    returns (all: seq<seq<Turn>>, m': nat)
    requires SameChain(env, keys, plan) && k < |plan| && Worlds(keys, plan[..k], turns)
    requires At(RunPlan(env, db, plan[..k], turns), keys, m) && m <= t
    ensures Worlds(keys, plan[..k + 1], all) && At(RunPlan(env, db, plan[..k + 1], all), keys, m')
    ensures var stop := StopOf(env, plan[k], m); m' == if plan[k].mode != Shadow && t < stop then t else stop
    ensures var before := Settled(RunPlan(env, db, plan[..k], turns).log);
            var after := Settled(RunPlan(env, db, plan[..k + 1], all).log);
            after[..m] == before && forall p :: m <= p < m' ==> (IsDeclared(after[p]) <==> Declares(env, plan[k], p))
  {
    hide RunChain, LeavesAlone, Settled, IsDeclared, Keyed, Done, Runnable;
    var last := TurnsUpTo(|keys|, t);
    QuietTurns(keys, last);
    m' := OneSetting(env, keys, RunPlan(env, db, plan[..k], turns), plan[k], last, m);
    PlanSnoc(env, keys, db, plan, k, turns, last);
    all := turns + [last];
  }

  /** Every reachable position is reached. */
  lemma {:induction false} ReachIt(env: Env, keys: seq<Key>, db: Db, plan: seq<Setting>, k: nat, m: nat)
    returns (turns: seq<seq<Turn>>)
    requires SameChain(env, keys, plan) && k <= |plan| && Reachable(env, keys, plan, k, m)
    requires db.log == [] && Done(db, keys, 0)
    ensures Worlds(keys, plan[..k], turns) && At(RunPlan(env, db, plan[..k], turns), keys, m)
  {
    hide RunChain, LeavesAlone, Runnable, IsDeclared;
    if k == 0 {
      turns := [];
    } else {
      var j := k - 1;
      var m0 :| Reachable(env, keys, plan, j, m0) && Leads(env, plan[j], m0, m);
      var earlier := ReachIt(env, keys, db, plan, j, m0);
      var m';
      turns, m' := RunOn(env, keys, db, plan, j, earlier, m0, m);
    }
  }

  /** Runs lo..hi all fail: nothing settles. */
  lemma {:induction false} Idle(env: Env, keys: seq<Key>, db: Db, plan: seq<Setting>, lo: nat, hi: nat,
                                turns: seq<seq<Turn>>, m: nat) returns (all: seq<seq<Turn>>)
    requires SameChain(env, keys, plan) && lo <= hi <= |plan| && Worlds(keys, plan[..lo], turns)
    requires forall l :: lo <= l < hi ==> plan[l].mode != Shadow
    requires At(RunPlan(env, db, plan[..lo], turns), keys, m)
    ensures Worlds(keys, plan[..hi], all) && At(RunPlan(env, db, plan[..hi], all), keys, m)
    ensures Settled(RunPlan(env, db, plan[..hi], all).log) == Settled(RunPlan(env, db, plan[..lo], turns).log)
    decreases hi
  {
    hide RunPlan, Settled, Keyed, Done, IsDeclared, Runnable;
    if lo == hi {
      all := turns;
    } else {
      var earlier := Idle(env, keys, db, plan, lo, hi - 1, turns, m);
      var m';
      all, m' := RunOn(env, keys, db, plan, hi - 1, earlier, m, m);
      var settled := Settled(RunPlan(env, db, plan[..hi], all).log);
      assert settled[..m] == settled;
    }
  }

  /** Later runs keep what settled. */
  lemma {:induction false} Finish(env: Env, keys: seq<Key>, db: Db, plan: seq<Setting>, lo: nat, turns: seq<seq<Turn>>,
                                  m: nat)
    returns (all: seq<seq<Turn>>)
    requires SameChain(env, keys, plan) && lo <= |plan| && Worlds(keys, plan[..lo], turns)
    requires At(RunPlan(env, db, plan[..lo], turns), keys, m)
    ensures Worlds(keys, plan, all) && Keyed(keys, Settled(RunPlan(env, db, plan, all).log))
    ensures Settled(RunPlan(env, db, plan[..lo], turns).log) <= Settled(RunPlan(env, db, plan, all).log)
    decreases |plan| - lo
  {
    hide RunPlan, Settled, Keyed, Done, IsDeclared, Runnable;
    if lo == |plan| {
      all := turns;
      assert plan[..lo] == plan;
    } else {
      var next, m' := RunOn(env, keys, db, plan, lo, turns, m, m);
      all := Finish(env, keys, db, plan, lo + 1, next, m');
    }
  }

  /** Run k ends in a comment for decision i, and nothing settles until run k' starts. */
  lemma {:induction false} CommentThenIdle(env: Env, keys: seq<Key>, db: Db, plan: seq<Setting>, k: nat, k': nat,
                                           i: nat)
    returns (turns: seq<seq<Turn>>)
    requires SameChain(env, keys, plan) && k < k' <= |plan| && i < |keys|
    requires CanEndInComment(env, keys, plan, k, i) && NoShadowBetween(plan, k, k')
    requires db.log == [] && Done(db, keys, 0)
    ensures Worlds(keys, plan[..k'], turns) && At(RunPlan(env, db, plan[..k'], turns), keys, i + 1)
    ensures !IsDeclared(Settled(RunPlan(env, db, plan[..k'], turns).log)[i])
  {
    hide RunPlan, Settled, IsDeclared, Keyed, Done, Reachable, StopOf;
    var m :| 0 <= m <= i && Reachable(env, keys, plan, k, m) && StopOf(env, plan[k], m) == i + 1;
    var before := ReachIt(env, keys, db, plan, k, m);
    var comment, stop := RunOn(env, keys, db, plan, k, before, m, |keys|);
    assert stop == i + 1 && !Declares(env, plan[k], i);
    turns := Idle(env, keys, db, plan, k + 1, k', comment, i + 1);
  }

  /** The next decision is then declared. */
  lemma {:induction false} GapOpens(env: Env, keys: seq<Key>, db: Db, plan: seq<Setting>, k': nat, i: nat,
                                    idle: seq<seq<Turn>>)
    returns (turns: seq<seq<Turn>>, m: nat)
    requires SameChain(env, keys, plan) && k' < |plan| && i + 1 < |keys| && Declares(env, plan[k'], i + 1)
    requires Worlds(keys, plan[..k'], idle) && At(RunPlan(env, db, plan[..k'], idle), keys, i + 1)
    ensures Worlds(keys, plan[..k' + 1], turns) && At(RunPlan(env, db, plan[..k' + 1], turns), keys, m) && i + 1 < m
    ensures var before, after := RunPlan(env, db, plan[..k'], idle), RunPlan(env, db, plan[..k' + 1], turns);
            Settled(after.log)[i] == Settled(before.log)[i] && IsDeclared(Settled(after.log)[i + 1])
  {
    hide RunPlan, Settled, IsDeclared, Keyed, Done, Runnable;
    turns, m := RunOn(env, keys, db, plan, k', idle, i + 1, |keys|);
    var settled := Settled(RunPlan(env, db, plan[..k' + 1], turns).log);
    assert settled[i] == settled[..i + 1][i];
  }

  /** If a later run skips a commented decision, some replies take the declared effects out of order. */
  lemma {:induction false} SkipHappens(env: Env, keys: seq<Key>, db: Db, plan: seq<Setting>, k: nat, k': nat, i: nat)
    returns (turns: seq<seq<Turn>>)
    requires SameChain(env, keys, plan) && Distinct(keys) && Skips(env, keys, plan, k, k', i)
    requires db.log == [] && Done(db, keys, 0)
    ensures Worlds(keys, plan, turns) && !InOrder(keys, RunPlan(env, db, plan, turns).log)
  {
    hide RunPlan, LeavesAlone, Settled, IsDeclared, DeclaredKeys, Done, ChainOf, CanEndInComment;
    var idle := CommentThenIdle(env, keys, db, plan, k, k', i);
    var past, m := GapOpens(env, keys, db, plan, k', i, idle);
    var mid := RunPlan(env, db, plan[..k' + 1], past);
    turns := Finish(env, keys, db, plan, k' + 1, past, m);
    var final := RunPlan(env, db, plan, turns);
    assert Settled(final.log)[i] == Settled(mid.log)[i] && Settled(final.log)[i + 1] == Settled(mid.log)[i + 1];
    GapBreaksPrefix(keys, Settled(final.log), i);
    DeclaredIsSettled(final.log);
  }

  // ------------------------------------------------------------------
  // The theorems
  // ------------------------------------------------------------------

  /**
    The exact condition, for a plan of runs that each have their own mode and confidences.
    Whatever the client replies, the decisions that took effect as declared stay a prefix of
    the chain if and only if no run that can end in a comment for decision i is followed,
    with no SHADOW run between them, by a run that executes decision i + 1 as declared.
   */
  lemma {:induction false} PlanStaysInOrderExactlyWhen(env: Env, keys: seq<Key>, db: Db, plan: seq<Setting>)
    requires SameChain(env, keys, plan) && Distinct(keys)
    requires db.log == [] && Done(db, keys, 0)
    ensures (forall turns :: Worlds(keys, plan, turns) ==> InOrder(keys, RunPlan(env, db, plan, turns).log))
       <==> (forall k, k', i :: !Skips(env, keys, plan, k, k', i))
  {
    hide RunChain, Settled, DeclaredKeys, Skips;
    if forall k, k', i :: !Skips(env, keys, plan, k, k', i) {
      forall turns | Worlds(keys, plan, turns) ensures InOrder(keys, RunPlan(env, db, plan, turns).log) {
        var m := PlanIsSound(env, keys, db, plan, turns, |plan|);
        assert plan[..|plan|] == plan && turns[..|plan|] == turns;
        var log := RunPlan(env, db, plan, turns).log;
        SolidGivesPrefix(keys, Settled(log));
        DeclaredIsSettled(log);
      }
    } else {
      var k, k', i :| Skips(env, keys, plan, k, k', i);
      var turns := SkipHappens(env, keys, db, plan, k, k', i);
    }
  }

  ghost predicate DrawnFrom(menu: set<Setting>, plan: seq<Setting>) {
    forall k :: 0 <= k < |plan| ==> plan[k] in menu
  }

  /** c alone, run often enough, can end in a comment for decision i in its last run. */
  lemma {:induction false} Repeat(env: Env, keys: seq<Key>, c: Setting, i: nat, plan: seq<Setting>, m: nat)
    returns (longer: seq<Setting>)
    requires ChainOf(env, keys, c) && i < |keys| && Comments(env, c, i) && m <= i
    requires DrawnFrom({c}, plan) && Reachable(env, keys, plan, |plan|, m)
    ensures DrawnFrom({c}, longer) && |longer| > 0 && CanEndInComment(env, keys, longer, |longer| - 1, i)
    decreases i - m
  {
    hide Reachable, StopOf, Runnable;
    var next, stop := plan + [c], StopOf(env, c, m);
    OnceMore(env, keys, c, i, plan, m);
    if stop == i + 1 {
      longer := next;
    } else {
      longer := Repeat(env, keys, c, i, next, stop);
    }
  }

  lemma {:induction false} OnceMore(env: Env, keys: seq<Key>, c: Setting, i: nat, plan: seq<Setting>, m: nat)
    requires ChainOf(env, keys, c) && i < |keys| && Comments(env, c, i) && m <= i
    requires DrawnFrom({c}, plan) && Reachable(env, keys, plan, |plan|, m)
    ensures m < StopOf(env, c, m) <= i + 1 && SameChain(env, keys, plan + [c])
    ensures Reachable(env, keys, plan + [c], |plan| + 1, StopOf(env, c, m))
    ensures StopOf(env, c, m) == i + 1 ==> CanEndInComment(env, keys, plan + [c], |plan|, i)
  {
    var next := plan + [c];
    assert forall k :: 0 <= k < |next| ==> next[k] == c;
    ReachableInFront(env, keys, plan, [c], |plan|, m);
    assert Leads(env, next[|plan|], m, StopOf(env, c, m));
  }

  lemma {:induction false} ReachableInFront(env: Env, keys: seq<Key>, plan: seq<Setting>, more: seq<Setting>, k: nat,
                                            m: nat)
    requires SameChain(env, keys, plan) && SameChain(env, keys, plan + more) && k <= |plan|
    ensures Reachable(env, keys, plan, k, m) <==> Reachable(env, keys, plan + more, k, m)
  {
    if k > 0 {
      var j := k - 1;
      assert plan[j] == (plan + more)[j];
      forall m0: nat ensures Reachable(env, keys, plan, j, m0) <==> Reachable(env, keys, plan + more, j, m0) {
        ReachableInFront(env, keys, plan, more, j, m0);
      }
    }
  }

  ghost predicate MenuOf(env: Env, keys: seq<Key>, menu: set<Setting>) {
    forall c :: c in menu ==> ChainOf(env, keys, c)
  }

  /** c turns decision i into a comment, and c' declares the next one. */
  ghost predicate MaySkip(env: Env, keys: seq<Key>, menu: set<Setting>, c: Setting, c': Setting, i: nat)
    requires MenuOf(env, keys, menu)
  {
    c in menu && c' in menu && i + 1 < |keys| && Comments(env, c, i) && Declares(env, c', i + 1)
  }

  /**
    The same over every history drawn from a menu of settings, in any order and number: the
    declared effects stay in order under all replies if and only if no setting turns a
    decision into a comment whose successor some setting of the menu declares.
   */
  lemma {:induction false} MenuStaysInOrderExactlyWhen(env: Env, keys: seq<Key>, db: Db, menu: set<Setting>)
    requires Distinct(keys) && MenuOf(env, keys, menu)
    requires db.log == [] && Done(db, keys, 0)
    ensures (forall plan, turns :: DrawnFrom(menu, plan) && Worlds(keys, plan, turns) ==>
               InOrder(keys, RunPlan(env, db, plan, turns).log))
       <==> (forall c, c', i: nat :: !MaySkip(env, keys, menu, c, c', i))
  {
    hide RunPlan, InOrder, Skips, ChainOf;
    if forall c, c', i: nat :: !MaySkip(env, keys, menu, c, c', i) {
      forall plan, turns | DrawnFrom(menu, plan) && Worlds(keys, plan, turns)
        ensures InOrder(keys, RunPlan(env, db, plan, turns).log)
      {
        forall k, k', i ensures !Skips(env, keys, plan, k, k', i) {
          SkipIsOnTheMenu(env, keys, menu, plan, k, k', i);
        }
        PlanStaysInOrderExactlyWhen(env, keys, db, plan);
      }
    } else {
      var c, c', i: nat :| MaySkip(env, keys, menu, c, c', i);
      var plan, turns := MenuSkips(env, keys, db, menu, c, c', i);
    }
  }

  lemma {:induction false} SkipIsOnTheMenu(env: Env, keys: seq<Key>, menu: set<Setting>, plan: seq<Setting>, k: nat,
                                           k': nat, i: nat)
    requires MenuOf(env, keys, menu) && DrawnFrom(menu, plan) && SameChain(env, keys, plan)
    ensures Skips(env, keys, plan, k, k', i) ==> MaySkip(env, keys, menu, plan[k], plan[k'], i)
  {
    hide Reachable, StopOf;
  }

  lemma {:induction false} MenuSkips(env: Env, keys: seq<Key>, db: Db, menu: set<Setting>, c: Setting, c': Setting,
                                     i: nat)
    returns (plan: seq<Setting>, turns: seq<seq<Turn>>)
    requires MenuOf(env, keys, menu) && Distinct(keys) && MaySkip(env, keys, menu, c, c', i)
    requires db.log == [] && Done(db, keys, 0)
    ensures DrawnFrom(menu, plan) && Worlds(keys, plan, turns) && !InOrder(keys, RunPlan(env, db, plan, turns).log)
  {
    hide RunChain, InOrder, Reachable, StopOf, Runnable;
    assert Reachable(env, keys, [], 0, 0) by { StartIsReachable(env, keys); }
    var often := Repeat(env, keys, c, i, [], 0);
    var n := |often|;
    plan := often + [c'];
    CanEndInFront(env, keys, often, [c'], n - 1, i);
    assert plan[n] == c';
    turns := SkipHappens(env, keys, db, plan, n - 1, n, i);
  }

  lemma StartIsReachable(env: Env, keys: seq<Key>)
    ensures Reachable(env, keys, [], 0, 0)
  {}

  lemma {:induction false} CanEndInFront(env: Env, keys: seq<Key>, plan: seq<Setting>, more: seq<Setting>, k: nat,
                                         i: nat)
    requires SameChain(env, keys, plan) && SameChain(env, keys, plan + more) && k < |plan| && i < |keys|
    requires CanEndInComment(env, keys, plan, k, i)
    ensures CanEndInComment(env, keys, plan + more, k, i)
  {
    hide Reachable;
    var m :| 0 <= m <= i && Reachable(env, keys, plan, k, m) && StopOf(env, plan[k], m) == i + 1;
    ReachableInFront(env, keys, plan, more, k, m);
    assert (plan + more)[k] == plan[k];
  }

  /** FULL runs of one chain: in order exactly when no clearing decision follows one below its threshold. */
  lemma {:induction false} FullRunsStayInOrderExactlyWhen(env: Env, keys: seq<Key>, db: Db, ds: seq<Decision>)
    requires Distinct(keys) && ChainOf(env, keys, Setting(ds, Full))
    requires db.log == [] && Done(db, keys, 0)
    ensures (forall plan, turns :: DrawnFrom({Setting(ds, Full)}, plan) && Worlds(keys, plan, turns) ==>
               InOrder(keys, RunPlan(env, db, plan, turns).log))
       <==> (forall i, j :: 0 <= i < j < |ds| && Clears(env, ds[j]) ==> Clears(env, ds[i]))
  {
    hide RunPlan, InOrder, Worlds;
    var c, menu := Setting(ds, Full), {Setting(ds, Full)};
    MenuStaysInOrderExactlyWhen(env, keys, db, menu);
    if forall i, j :: 0 <= i < j < |ds| && Clears(env, ds[j]) ==> Clears(env, ds[i]) {
      forall a, b, i: nat ensures !MaySkip(env, keys, menu, a, b, i) {
        assert i + 1 < |ds| ==> (Clears(env, ds[i + 1]) ==> Clears(env, ds[i]));
      }
    }
    if forall a, b, i: nat :: !MaySkip(env, keys, menu, a, b, i) {
      forall i, j | 0 <= i < j < |ds| && Clears(env, ds[j]) ensures Clears(env, ds[i]) {
        ClearsDown(env, keys, ds, i, j);
      }
    }
  }

  lemma {:induction false} ClearsDown(env: Env, keys: seq<Key>, ds: seq<Decision>, i: nat, j: nat)
    requires ChainOf(env, keys, Setting(ds, Full)) && i < j < |ds| && Clears(env, ds[j])
    requires forall a, b, n: nat :: !MaySkip(env, keys, {Setting(ds, Full)}, a, b, n)
    ensures Clears(env, ds[i])
    decreases j
  {
    var c := Setting(ds, Full);
    assert !MaySkip(env, keys, {c}, c, c, j - 1);
    if i < j - 1 {
      ClearsDown(env, keys, ds, i, j - 1);
    }
  }

  // ------------------------------------------------------------------
  // Two histories that skip the first decision
  // ------------------------------------------------------------------

  lemma {:induction false} AllButTheFirst(keys: seq<Key>, settled: seq<Entry>)
    requires |settled| > 0 && Keyed(keys, settled) && !IsDeclared(settled[0])
    requires forall p :: 0 < p < |settled| ==> IsDeclared(settled[p])
    ensures DeclaredKeys(settled) == Options(keys)[1..|settled|]
  {
    var n := |settled| - 1;
    if n == 0 {
      assert settled[..0] == [];
    } else {
      AllButTheFirst(keys, settled[..n]);
    }
  }

  /** Every call succeeds, yet everything but the first decision takes effect as declared. */
  lemma {:induction false} FirstIsSkipped(env: Env, keys: seq<Key>, db: Db, c: Setting, c': Setting)
    requires ChainOf(env, keys, c) && ChainOf(env, keys, c') && |keys| >= 2
    requires db.log == [] && Done(db, keys, 0)
    requires Comments(env, c, 0) && forall i :: 0 <= i < |keys| ==> Declares(env, c', i)
    ensures DeclaredKeys(RunPlan(env, db, [c, c'], [EasyTurns(|keys|), EasyTurns(|keys|)]).log) == Options(keys)[1..]
  {
    hide RunChain, Settled, IsDeclared, DeclaredKeys;
    var easy := EasyTurns(|keys|);
    QuietTurns(keys, easy);
    assert SucceedsUpTo(easy, |keys|);
    assert At(db, keys, 0) by { NothingSettled(); }
    var one := OneSetting(env, keys, db, c, easy, 0);
    var mid := RunChain(env, db, c.ds, c.mode, easy).0;
    assert one == 1 && !IsDeclared(Settled(mid.log)[0]);
    var two := OneSetting(env, keys, mid, c', easy, 1);
    var after := RunChain(env, mid, c'.ds, c'.mode, easy).0;
    assert StopOf(env, c', 1) == |keys| by { StopsAtTheEnd(env, keys, c', 1); }
    assert Settled(after.log)[0] == Settled(after.log)[..1][0] == Settled(mid.log)[0];
    AllButTheFirst(keys, Settled(after.log));
    DeclaredIsSettled(after.log);
    assert Options(keys)[1..|keys|] == Options(keys)[1..];
    TwoRuns(env, db, c, c', easy);
  }

  lemma NothingSettled()
    ensures Settled([]) == []
  {}

  lemma {:induction false} StopsAtTheEnd(env: Env, keys: seq<Key>, c: Setting, m: nat)
    requires ChainOf(env, keys, c) && m <= |keys| && forall i :: 0 <= i < |keys| ==> Declares(env, c, i)
    ensures StopOf(env, c, m) == |keys|
  {
    var stop := StopOf(env, c, m);
    assert stop > 0 ==> Declares(env, c, stop - 1);
  }

  lemma TwoRuns(env: Env, db: Db, c: Setting, c': Setting, turns: seq<Turn>)
    requires |c.ds| == |turns| == |c'.ds|
    ensures RunPlan(env, db, [c, c'], [turns, turns])
         == RunChain(env, RunChain(env, db, c.ds, c.mode, turns).0, c'.ds, c'.mode, turns).0
  {
    hide RunChain;
    assert [c, c'][..1] == [c] && [turns, turns][..1] == [turns] && [c][..0] == [] && [turns][..0] == [];
    assert RunPlan(env, db, [c], [turns]) == RunChain(env, db, c.ds, c.mode, turns).0;
  }

  /** The same chain in COMMENT mode and then in FULL mode. */
  lemma CommentThenFull(env: Env, keys: seq<Key>, db: Db, ds: seq<Decision>)
    requires ChainOf(env, keys, Setting(ds, Full)) && AllClear(env, ds) && |keys| >= 2 && ds[0].action != "comment"
    requires db.log == [] && Done(db, keys, 0)
    ensures DeclaredKeys(RunPlan(env, db, [Setting(ds, CommentOnly), Setting(ds, Full)],
                                 [EasyTurns(|keys|), EasyTurns(|keys|)]).log) == Options(keys)[1..]
  {
    FirstIsSkipped(env, keys, db, Setting(ds, CommentOnly), Setting(ds, Full));
  }

  /** Two FULL runs, the first with its first confidence below the threshold. */
  lemma LowThenHighConfidence(env: Env, keys: seq<Key>, db: Db, low: seq<Decision>, high: seq<Decision>)
    requires ChainOf(env, keys, Setting(low, Full)) && ChainOf(env, keys, Setting(high, Full)) && |keys| >= 2
    requires !Clears(env, low[0]) && AllClear(env, high)
    requires db.log == [] && Done(db, keys, 0)
    ensures DeclaredKeys(RunPlan(env, db, [Setting(low, Full), Setting(high, Full)],
                                 [EasyTurns(|keys|), EasyTurns(|keys|)]).log) == Options(keys)[1..]
  {
    FirstIsSkipped(env, keys, db, Setting(low, Full), Setting(high, Full));
  }
}
