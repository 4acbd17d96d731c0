/**
 Every account with something queued has a last sign of life, unless it is local and locals are
 kept: what keeps this so, and what eviction makes of it.
 */
module PoolHeard {
  import opened PoolAdds
  import opened PoolBeats
  import opened PoolLevels
  import opened PoolLists
  import opened PoolResets
  import opened PoolSteps
  import opened Transactions
  import opened TxLists
  import opened TxLookups
  import opened TxPricedLists

  ghost predicate AllHeard(q: Lists, exempt: set<Address>, b: Beats) {
    forall a :: ItemsOf(q, a) != map[] && a !in exempt ==> a in b
  }

  /** The accounts that eviction passes over. */
  ghost function Exempt(locals: set<Address>, keepLocals: bool): set<Address> {
    if keepLocals then locals else {}
  }

  ghost predicate HeardIn(v: PoolView, keepLocals: bool) {
    AllHeard(v.queue, Exempt(v.locals, keepLocals), v.beats)
  }

  // Adding and removing

  lemma RemovalHeard(v: PoolView, t: Tx, keepLocals: bool)
    requires HeardIn(v, keepLocals)
    ensures HeardIn(RemoveOne(v, t), keepLocals)
  {
    var w := RemoveOne(v, t);
    if HashOf(t) in v.txs {
      forall a | ItemsOf(w.queue, a) != map[] && a !in Exempt(v.locals, keepLocals) ensures a in w.beats {
        if ItemsOf(v.queue, a) == map[] {
          assert a == t.sender && HasNonce(v.pending, a, t.nonce);
          assert From(v.pending[a], t.nonce + 1) != map[];
        }
      }
    }
  }

  lemma {:induction false} RemovalsHeard(v: PoolView, drop: seq<Tx>, keepLocals: bool)
    requires HeardIn(v, keepLocals)
    ensures HeardIn(RemoveAll(v, drop), keepLocals)
  {
    hide RemoveOne, HeardIn;
    if drop != [] {
      RemovalsHeard(v, drop[..|drop| - 1], keepLocals);
      RemovalHeard(RemoveAll(v, drop[..|drop| - 1]), drop[|drop| - 1], keepLocals);
    }
  }

  lemma FilingHeard(isMagma: bool, v0: PoolView, v1: PoolView, tx: Tx, local: bool, out: Outcome, keepLocals: bool)
    requires Files(isMagma, v0, v1, tx, local, out) && HeardIn(v0, keepLocals)
    ensures HeardIn(v1, keepLocals)
  {
    hide MayEnter, Entered;
    forall a | ItemsOf(v1.queue, a) != map[] && a !in Exempt(v1.locals, keepLocals) ensures a in v1.beats {
      assert a != tx.sender ==> ItemsOf(v1.queue, a) == ItemsOf(v0.queue, a);
    }
  }

  lemma AddingHeard(cap: nat, isMagma: bool, v0: PoolView, v1: PoolView, tx: Tx, local: bool, valid: bool, out: Outcome,
                    keepLocals: bool)
    requires AddsOne(cap, isMagma, v0, v1, tx, local, valid, out) && HeardIn(v0, keepLocals)
    ensures HeardIn(v1, keepLocals)
  {
    hide Files, Drops, NotBetter, NumSlots, SlotSum, RemoveAll, RemoveOne, HeardIn, Highest;
    if HashOf(tx) !in v0.txs && valid {
      if Missing(cap, v0, tx) <= 0 {
        FilingHeard(isMagma, v0, v1, tx, local, out, keepLocals);
      } else if GapBelow(ItemsOf(v0.queue, tx.sender), tx.nonce) {
        var v := Relieved(v0, tx);
        RemovalHeard(v0, Highest(ItemsOf(v0.queue, tx.sender)), keepLocals);
        if (local || !NotBetter(v.txs, v.locals, tx)) && Missing(cap, v, tx) >= 0 {
          var drop :| Drops(v, drop, Missing(cap, v, tx)) && Files(isMagma, RemoveAll(v, drop), v1, tx, local, out);
          RemovalsHeard(v, drop, keepLocals);
          FilingHeard(isMagma, RemoveAll(v, drop), v1, tx, local, out, keepLocals);
        }
      }
    }
  }

  lemma {:induction false} BatchHeard(cap: nat, isMagma: bool, trace: seq<PoolView>, txs: seq<Tx>, local: bool,
                                      valid: nat -> bool, outs: seq<Outcome>, k: nat, keepLocals: bool)
    requires AddTrace(cap, isMagma, trace, txs, local, valid, outs) && k <= |outs| && HeardIn(trace[0], keepLocals)
    ensures HeardIn(trace[k], keepLocals)
  {
    hide AddsOne, HeardIn;
    if k > 0 {
      BatchHeard(cap, isMagma, trace, txs, local, valid, outs, k - 1, keepLocals);
      AddingHeard(cap, isMagma, trace[k - 1], trace[k], txs[k - 1], local, valid(k - 1), outs[k - 1], keepLocals);
    }
  }

  // Promotion, limits and revalidation

  lemma PromotionHeard(t: Terms, config: Config, s0: Snapshot, mid: Snapshot, s: Snapshot, who: set<Address>,
                       level: nat, b0: Beats, b: Beats, now: nat, exempt: set<Address>)
    requires PromotedExcept(t, s0, mid, who, {}) && Limited(t, config, mid, s, b, level)
    requires BeatsPromoted(s0.pending, mid.pending, b0, b, now) && AllHeard(s0.queue, exempt, b0)
    ensures AllHeard(s.queue, exempt, b)
  {
    hide PendingLimited, VirtualsCut, Total, Promoted, QueueLimited, VirtualNonce;
    forall a | ItemsOf(s.queue, a) != map[] && a !in exempt ensures a in b {
      LimitKeeps(mid.queue, s.queue, t.locals, b, config, a);
      assert PromotedOrNot(t, s0, mid, who, {}, a);
      if a in who && a in s0.queue { PromotionTakes(t, a, AccountOf(t.nonce, s0, a), AccountOf(t.nonce, mid, a)); }
      assert BeatPromoted(s0.pending, mid.pending, b0, b, now, a);
    }
  }

  lemma LimitKeeps(q0: Lists, q: Lists, locals: set<Address>, heard: Beats, config: Config, a: Address)
    requires QueueLimited(q0, q, locals, heard, config) && ItemsOf(q, a) != map[]
    ensures ItemsOf(q0, a) != map[]
  {
    hide Total, Kept;
    if a in q { assert forall n :: n in q[a] ==> n in q0[a]; }
  }

  lemma PromotionTakes(t: Terms, a: Address, x: Account, y: Account)
    requires Promoted(t, a, x, y) && y.queue != map[]
    ensures x.queue != map[]
  {
    hide ReadyBounds;
    var n :| n in y.queue;
    assert n in Live(t, a, x.queue);
  }

  lemma DemotionHeard(c: Checks, full: set<Address>, p0: Lists, q0: Lists, p: Lists, q: Lists, b0: Beats, b: Beats,
                      now: nat, exempt: set<Address>)
    requires DemotedExcept(c, full, p0, q0, p, q, {}) && BeatsDemoted(c, full, p0, b0, b, now, {})
    requires AllHeard(q0, exempt, b0)
    ensures AllHeard(q, exempt, b)
  {
    hide StillExecutable, From, Unless;
    forall a | ItemsOf(q, a) != map[] && a !in exempt ensures a in b {
      assert DemotedOrNot(c, full, p0, q0, p, q, {}, a) && BeatDemoted(c, full, p0, b0, b, now, {}, a);
      if a in p0 && ItemsOf(q0, a) == map[] {
        assert Back(c, full, a, p0[a]) != map[] by { var n :| n in ItemsOf(q, a); }
      }
    }
  }

  lemma ReinjectionHeard(steps: ResetSteps, reinject: seq<Tx>, valid: nat -> bool, isMagma: bool, t: Terms,
                         config: Config, keepLocals: bool)
    requires Prepared(steps, reinject, valid, isMagma, t, config) && HeardIn(steps.trace[0], keepLocals)
    ensures AllHeard(steps.added.queue, Exempt(steps.add.filed.locals, keepLocals), steps.addedBeats)
  {
    hide AddsOne, WellFiled, Total, PromotedExcept, Limited, BeatsPromoted, AllHeard;
    var cap := config.execSlotsAll + config.nonExecSlotsAll;
    var add, dirty := steps.add, Dirty(reinject, steps.outs);
    BatchHeard(cap, isMagma, steps.trace, reinject, false, valid, steps.outs, |steps.outs|, keepLocals);
    if dirty != {} {
      PromotionHeard(t, config, Snapshot(add.filed.pending, add.filed.queue, add.nonces), add.mid, steps.added, dirty,
                     add.level, add.filed.beats, add.heard, add.filed.now, Exempt(add.filed.locals, keepLocals));
    }
  }

  /** A reset keeps every account with something queued heard from. */
  lemma ResetHeard(steps: ResetSteps, reinject: seq<Tx>, valid: nat -> bool, c: Checks, t: Terms, config: Config,
                   s: Snapshot, keepLocals: bool)
    requires Prepared(steps, reinject, valid, c.isMagma, t, config) && Rebased(steps, c, t, config, s)
    requires HeardIn(steps.trace[0], keepLocals)
    ensures AllHeard(s.queue, Exempt(steps.add.filed.locals, keepLocals), steps.heard)
  {
    hide Prepared, Total, PromotedExcept, Limited, BeatsPromoted, AllHeard, DemotedExcept, BeatsDemoted, HeardIn,
      FullUpTo, AdoptedNonces;
    var exempt := Exempt(steps.add.filed.locals, keepLocals);
    ReinjectionHeard(steps, reinject, valid, c.isMagma, t, config, keepLocals);
    DemotionHeard(c, steps.full, steps.added.pending, steps.added.queue, steps.checked.pending, steps.checked.queue,
                  steps.addedBeats, steps.checkedBeats, steps.add.filed.now, exempt);
    PromotionHeard(t, config, steps.checked, steps.mid, s, steps.checked.queue.Keys, steps.level, steps.checkedBeats,
                   steps.heard, steps.add.filed.now, exempt);
  }

  // Eviction

  /** Eviction leaves every account with something queued heard from, if it passes over no others than before. */
  lemma EvictionHeard(e: Eviction, q0: Lists, q: Lists, heard: Beats, beats: Beats, keepLocals: bool)
    requires EvictedExcept(e, q0, q, heard, beats, {}) && (e.keepLocals ==> keepLocals)
    requires AllHeard(q0, Exempt(e.locals, keepLocals), heard)
    ensures AllHeard(q, Exempt(e.locals, keepLocals), beats)
  {
    forall a | ItemsOf(q, a) != map[] && a !in Exempt(e.locals, keepLocals) ensures a in beats {
      assert EvictedOrNot(e, q0, q, heard, beats, {}, a);
    }
  }

  /** What is queued for a kept local or an account heard from within the lifetime. */
  ghost function Unexpired(e: Eviction, q: Lists, heard: Beats, a: Address): Items {
    if e.Kept(a) || (a in heard && e.now - heard[a] <= e.lifetime) then ItemsOf(q, a) else map[]
  }

  /**
   If every account with something queued is heard from, eviction reaches every stale queue: exactly the kept
   locals and the accounts heard from within the lifetime keep theirs.
   */
  lemma EvictionReaches(e: Eviction, q0: Lists, q: Lists, heard: Beats, beats: Beats, a: Address)
    requires EvictedExcept(e, q0, q, heard, beats, {}) && AllHeard(q0, Exempt(e.locals, e.keepLocals), heard)
    ensures ItemsOf(q, a) == Unexpired(e, q0, heard, a)
  {
    assert EvictedOrNot(e, q0, q, heard, beats, {}, a);
  }
}
