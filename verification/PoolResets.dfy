/** Resets of the pool, on values: their steps, and a condition under which they open no gap. */
module PoolResets {
  import opened PoolAdds
  import opened PoolBeats
  import opened PoolLevels
  import opened PoolLists
  import opened PoolSteps
  import opened Transactions
  import opened TxLists
  import opened TxLookups
  import opened TxPricedLists

  /**
   The steps of a reset: the batch reinjected one by one and promoted, then the states once it
   is added, once the lists are revalidated, and before the limits are enforced again.
   */
  datatype ResetSteps =
    ResetSteps(trace: seq<PoolView>, outs: seq<Outcome>, add: AddSteps, added: Snapshot, full: set<Address>,
               checked: Snapshot, mid: Snapshot, heard: Beats, level: nat, addedBeats: Beats, checkedBeats: Beats)

  /**
   The batch is added one by one and what came in is promoted; no virtual nonce is above its state
   nonce before that.
   */
  ghost predicate Prepared(steps: ResetSteps, reinject: seq<Tx>, valid: nat -> bool, isMagma: bool, t: Terms,
                           config: Config) {
    var filed := steps.add.filed;
    && AddTrace(config.execSlotsAll + config.nonExecSlotsAll, isMagma, steps.trace, reinject, false, valid, steps.outs)
    && filed == steps.trace[|steps.outs|] && WellFiled(steps.add, t.nonce)
    && Reinjected(steps.add, steps.added, Dirty(reinject, steps.outs), t, config)
    && Total(steps.add.mid.pending) <= |filed.txs| && Total(steps.added.pending) <= |filed.txs|
    && steps.addedBeats == if Dirty(reinject, steps.outs) == {} then filed.beats else steps.add.heard
  }

  lemma StillPrepared(steps: ResetSteps, later: ResetSteps, reinject: seq<Tx>, valid: nat -> bool, isMagma: bool,
                      t: Terms, config: Config)
    requires Prepared(steps, reinject, valid, isMagma, t, config)
    requires later.trace == steps.trace && later.outs == steps.outs && later.add == steps.add
    requires later.added == steps.added && later.addedBeats == steps.addedBeats
    ensures Prepared(later, reinject, valid, isMagma, t, config)
  {
  }

  /** The pending lists are revalidated, all of them in full if they are not too many. */
  ghost predicate Revised(steps: ResetSteps, c: Checks) {
    && DemotedExcept(c, steps.full, steps.added.pending, steps.added.queue,
                     steps.checked.pending, steps.checked.queue, {})
    && FullUpTo(steps.added.pending, c.nonce, steps.full)
    && (Total(steps.added.pending) < FULL_VALIDATION_LIMIT ==> steps.full == steps.added.pending.Keys)
    && BeatsDemoted(c, steps.full, steps.added.pending, steps.addedBeats, steps.checkedBeats, steps.add.filed.now, {})
  }

  /** Then the virtual nonces are adopted, every account is promoted, and the limits are enforced. */
  ghost predicate Rebased(steps: ResetSteps, c: Checks, t: Terms, config: Config, s: Snapshot) {
    && Revised(steps, c)
    && AdoptedNonces(steps.checked.pending, steps.added.nonces, steps.checked.nonces)
    && PromotedExcept(t, steps.checked, steps.mid, steps.checked.queue.Keys, {})
    && Limited(t, config, steps.mid, s, steps.heard, steps.level) && Total(steps.mid.pending) <= |steps.add.filed.txs|
    && BeatsPromoted(steps.checked.pending, steps.mid.pending, steps.checkedBeats, steps.heard, steps.add.filed.now)
  }

  /** Once the batch is filed, the accounts that gained something new are promoted. */
  ghost predicate Reinjected(add: AddSteps, added: Snapshot, dirty: set<Address>, t: Terms, config: Config) {
    if dirty == {} then added == Snapshot(add.filed.pending, add.filed.queue, add.nonces)
    else PromotedAfter(add, t, config, dirty, added)
  }

  // Pending lists only shrink from the top while a batch is filed

  /** What is left of a list's nonces is its lowest ones. */
  ghost predicate Shrunk(m: Items, m': Items) {
    && (forall k :: k in m' ==> k in m)
    && (forall k, j :: k in m && j in m' && k < j ==> k in m')
  }

  ghost predicate AllShrunk(p: Lists, p': Lists) {
    forall a :: Shrunk(ItemsOf(p, a), ItemsOf(p', a))
  }

  lemma ShrunkTwice(p0: Lists, p1: Lists, p2: Lists)
    requires AllShrunk(p0, p1) && AllShrunk(p1, p2)
    ensures AllShrunk(p0, p2)
  {
    hide ItemsOf;
    forall a ensures Shrunk(ItemsOf(p0, a), ItemsOf(p2, a)) {
      assert Shrunk(ItemsOf(p0, a), ItemsOf(p1, a)) && Shrunk(ItemsOf(p1, a), ItemsOf(p2, a));
    }
  }

  lemma RemovalShrinks(p: Lists, t: Tx)
    ensures AllShrunk(p, PendingWithout(p, t))
  {
    forall a ensures Shrunk(ItemsOf(p, a), ItemsOf(PendingWithout(p, t), a)) {
      if HasNonce(p, t.sender, t.nonce) && a == t.sender {
        assert ItemsOf(PendingWithout(p, t), a) == Below(p[a], t.nonce);
      }
    }
  }

  lemma {:induction false} RemovalsShrink(v: PoolView, drop: seq<Tx>)
    ensures AllShrunk(v.pending, RemoveAll(v, drop).pending)
  {
    hide AllShrunk, PendingWithout, QueueWithout;
    NothingShrunk(v.pending);
    if drop != [] {
      var v1, last := RemoveAll(v, drop[..|drop| - 1]), drop[|drop| - 1];
      RemovalsShrink(v, drop[..|drop| - 1]);
      RemovalShrinks(v1.pending, last);
      ShrunkTwice(v.pending, v1.pending, PendingWithout(v1.pending, last));
    }
  }

  lemma NothingShrunk(p: Lists)
    ensures AllShrunk(p, p)
  {
  }

  lemma FilingShrinks(isMagma: bool, v0: PoolView, v1: PoolView, tx: Tx, local: bool, out: Outcome)
    requires Files(isMagma, v0, v1, tx, local, out)
    ensures AllShrunk(v0.pending, v1.pending) && (!local ==> v1.locals == v0.locals)
    ensures forall a :: ItemsOf(v1.pending, a).Keys == ItemsOf(v0.pending, a).Keys
  {
    hide MayEnter, Entered;
    forall a ensures ItemsOf(v1.pending, a).Keys == ItemsOf(v0.pending, a).Keys {
      if a == tx.sender && HasNonce(v0.pending, a, tx.nonce) {
        assert PutIn(v0.pending, tx)[a].Keys == v0.pending[a].Keys + {tx.nonce};
      }
    }
  }

  lemma AddingShrinks(cap: nat, isMagma: bool, v0: PoolView, v1: PoolView, tx: Tx, local: bool, valid: bool,
                      out: Outcome)
    requires AddsOne(cap, isMagma, v0, v1, tx, local, valid, out)
    ensures AllShrunk(v0.pending, v1.pending) && (!local ==> v1.locals == v0.locals)
  {
    hide Files, Drops, NotBetter, NumSlots, SlotSum, AllShrunk, PendingWithout, QueueWithout, RemoveAll;
    NothingShrunk(v0.pending);
    if HashOf(tx) !in v0.txs && valid {
      if Missing(cap, v0, tx) <= 0 {
        FilingShrinks(isMagma, v0, v1, tx, local, out);
      } else if GapBelow(ItemsOf(v0.queue, tx.sender), tx.nonce) {
        var v := Relieved(v0, tx);
        RemovalShrinks(v0.pending, Highest(ItemsOf(v0.queue, tx.sender)));
        assert AllShrunk(v0.pending, v.pending);
        if (local || !NotBetter(v.txs, v.locals, tx)) && Missing(cap, v, tx) >= 0 {
          var drop :| Drops(v, drop, Missing(cap, v, tx)) && Files(isMagma, RemoveAll(v, drop), v1, tx, local, out);
          RemovalsShrink(v, drop);
          RemoveAllTxs(v, drop);
          FilingShrinks(isMagma, RemoveAll(v, drop), v1, tx, local, out);
          ShrunkTwice(v0.pending, v.pending, RemoveAll(v, drop).pending);
          ShrunkTwice(v0.pending, RemoveAll(v, drop).pending, v1.pending);
        }
      }
    }
  }

  lemma {:induction false} BatchShrinks(cap: nat, isMagma: bool, trace: seq<PoolView>, txs: seq<Tx>, local: bool,
                                        valid: nat -> bool, outs: seq<Outcome>, k: nat)
    requires AddTrace(cap, isMagma, trace, txs, local, valid, outs) && k <= |outs|
    ensures AllShrunk(trace[0].pending, trace[k].pending) && (!local ==> trace[k].locals == trace[0].locals)
  {
    hide AddsOne, AllShrunk;
    NothingShrunk(trace[0].pending);
    if k > 0 {
      BatchShrinks(cap, isMagma, trace, txs, local, valid, outs, k - 1);
      AddingShrinks(cap, isMagma, trace[k - 1], trace[k], txs[k - 1], local, valid(k - 1), outs[k - 1]);
      ShrunkTwice(trace[0].pending, trace[k - 1].pending, trace[k].pending);
    }
  }

  lemma ShrunkFills(m: Items, m': Items, lo: nat, hi: nat) returns (x: nat)
    requires Fills(m, lo, hi) && Shrunk(m, m')
    ensures lo <= x && Fills(m', lo, x)
  {
    x := lo;
    if m' != map[] {
      var top := HighestKey(m');
      x := top + 1;
    }
  }

  /** Enforcing the pending limit keeps the lowest transactions of each list. */
  lemma LimitShrinks(p0: Lists, p: Lists, locals: set<Address>, config: Config, level: nat, a: Address)
    requires PendingLimited(p0, p, locals, config, level)
    ensures Shrunk(ItemsOf(p0, a), ItemsOf(p, a))
    ensures forall k :: k in ItemsOf(p, a) ==> ItemsOf(p, a)[k] == ItemsOf(p0, a)[k]
  {
    hide Total, Tight;
  }

  // When no gap opens

  ghost predicate Usable(t: Terms, tx: Tx) {
    !t.unpayable(tx) && tx.gasPrice >= t.floor
  }

  /**
   A list that revalidation will root at the state nonce `n`, with virtual nonce `v`: without gaps
   and not counted on yet, or without gaps from `n` and counted on no further than it goes.
   */
  ghost predicate Settled(t: Terms, n: nat, m: Items, v: nat) {
    (Contiguous(m) && v == n) || exists x: nat :: Steady(t, n, m, v, x)
  }

  ghost predicate Steady(t: Terms, n: nat, m: Items, v: nat, x: nat) {
    n <= v <= x && Fills(From(m, n), n, x) && (v > n ==> n in m && Usable(t, m[n]))
  }

  ghost predicate ReadyAt(t: Terms, live: Items, k: nat) {
    k in live && live[k].gasPrice >= t.floor
  }

  /** `hi` ends the run of ready nonces from the state nonce. */
  ghost predicate RunEndsAt(t: Terms, a: Address, live: Items, hi: nat) {
    t.nonce(a) <= hi && (forall k :: t.nonce(a) <= k < hi ==> ReadyAt(t, live, k)) && !ReadyAt(t, live, hi)
  }

  /** From a virtual nonce at the state nonce, promotion takes the run of ready nonces from there. */
  lemma RunFromState(t: Terms, a: Address, x: Account, y: Account) returns (hi: nat)
    requires Promoted(t, a, x, y) && x.virtual == t.nonce(a)
    ensures RunEndsAt(t, a, Live(t, a, x.queue), hi) && y.virtual == hi
    ensures y.pending == x.pending + Below(Live(t, a, x.queue), hi)
    ensures CappedTo(From(Live(t, a, x.queue), hi), y.queue, a in t.locals, t.limit)
  {
    hide CappedTo;
    var n, live := t.nonce(a), Live(t, a, x.queue);
    assert forall k :: k in live ==> k >= n;
    var lo: nat, last: nat :| RunPromoted(t, a, live, x, y, lo, last);
    RunBounds(t, a, live, n, lo, last);
    hi := if lo < last then last else n;
  }

  lemma RunBounds(t: Terms, a: Address, live: Items, n: nat, lo: nat, last: nat)
    requires n == t.nonce(a) && (forall k :: k in live ==> k >= n) && ReadyBounds(live, n, t.floor, lo, last)
    ensures var hi := if lo < last then last else n;
            RunEndsAt(t, a, live, hi) && Below(live, last) == Below(live, hi) && From(live, last) == From(live, hi)
  {
    if forall k :: k in live ==> k > n {
      assert n !in live;
    } else {
      assert lo == n;
    }
  }

  /** Promoting from the state nonce settles a list that has nothing above a missing state nonce. */
  lemma PromotionSettles(t: Terms, a: Address, x: Account, y: Account, lo: nat, hi: nat)
    requires Promoted(t, a, x, y) && x.virtual == t.nonce(a) && x.pending.Keys !! x.queue.Keys
    requires Fills(x.pending, lo, hi) && (lo <= t.nonce(a) || x.pending == map[])
    ensures Settled(t, t.nonce(a), y.pending, y.virtual)
  {
    hide Promoted, CappedTo;
    var n, live := t.nonce(a), Live(t, a, x.queue);
    var last := RunFromState(t, a, x, y);
    RunSettles(t, n, x.pending, live, lo, hi, last, y.pending);
  }

  lemma RunSettles(t: Terms, n: nat, m: Items, live: Items, lo: nat, hi: nat, last: nat, m': Items)
    requires Fills(m, lo, hi) && (lo <= n || m == map[]) && m.Keys !! live.Keys && n <= last
    requires m' == m + Below(live, last)
    requires forall k :: k in live ==> k >= n && !t.unpayable(live[k])
    requires forall k :: n <= k < last ==> ReadyAt(t, live, k)
    ensures Settled(t, n, m', last)
  {
    if n < last {
      assert ReadyAt(t, live, n);
      assert forall k :: k in m ==> k < n;
      forall k ensures k in From(m', n) <==> n <= k < last {
        assert n <= k < last ==> ReadyAt(t, live, k);
      }
      assert Steady(t, n, m', last, last);
    } else {
      assert m' == m;
    }
  }

  lemma ShrinkingSettles(t: Terms, n: nat, m: Items, v: nat, m': Items, v': nat)
    requires Settled(t, n, m, v) && Shrunk(m, m') && (forall k :: k in m' ==> m'[k] == m[k])
    requires n <= v' <= v && forall k :: k in m && k !in m' ==> v' <= k || v' == n
    ensures Settled(t, n, m', v')
  {
    if Contiguous(m) && v == n {
      var lo: nat, hi: nat :| Fills(m, lo, hi);
      var x := ShrunkFills(m, m', lo, hi);
    } else {
      var x: nat :| Steady(t, n, m, v, x);
      var x' := ShrunkFills(From(m, n), From(m', n), n, x);
      assert x' < v' ==> x' in From(m, n) && x' !in From(m', n);
      assert v' > n ==> n in From(m', n);
      assert Steady(t, n, m', v', x');
    }
  }

  /** Revalidation roots a settled list, and empties it only if it was not counted on. */
  lemma SettledRoots(t: Terms, n: nat, m: Items, v: nat, drop: Tx -> bool, isMagma: bool, gasPrice: nat)
    requires Settled(t, n, m, v) && (forall tx :: drop(tx) ==> t.unpayable(tx))
    requires t.floor == PriceFloor(isMagma, gasPrice)
    ensures var keep := StillExecutable(From(m, n), n, drop, isMagma, gasPrice);
            Rooted(keep, n) && (keep == map[] ==> v == n)
  {
    hide StillExecutable, Contiguous, Rooted;
    if Contiguous(m) && v == n {
      ExecutableRooted(m, n, drop, isMagma, gasPrice);
    } else {
      var x: nat :| Steady(t, n, m, v, x);
      assert From(From(m, n), n) == From(m, n);
      FillsContiguous(From(m, n), n, x);
      ExecutableRooted(From(m, n), n, drop, isMagma, gasPrice);
      if v > n { HeadStays(m, n, drop, isMagma, gasPrice); }
    }
  }

  lemma FillsContiguous(m: Items, lo: nat, hi: nat)
    requires Fills(m, lo, hi)
    ensures Contiguous(m)
  {
  }

  lemma HeadStays(m: Items, n: nat, drop: Tx -> bool, isMagma: bool, gasPrice: nat)
    requires n in m && !drop(m[n]) && m[n].gasPrice >= PriceFloor(isMagma, gasPrice)
    ensures n in StillExecutable(From(m, n), n, drop, isMagma, gasPrice)
  {
    var live := From(m, n);
    assert n in BelowDropped(live, drop);
  }

  /** Promotion and revalidation go by the same answers, and what is marked is unpayable. */
  ghost predicate Agree(c: Checks, t: Terms) {
    && c.nonce == t.nonce && c.unpayable == t.unpayable && t.floor == PriceFloor(c.isMagma, c.gasPrice)
    && MarkedIsUnpayable(c.marked, c.unpayable)
  }

  ghost predicate MarkedIsUnpayable(marked: Tx -> bool, unpayable: Tx -> bool) {
    forall tx :: marked(tx) ==> unpayable(tx)
  }

  /** What holds of the states of a reset besides its steps: the batch is filed soundly and counts nothing on yet. */
  ghost predicate WellFiled(add: AddSteps, nonce: Address -> nat) {
    Sound(add.filed) && StaysAtState(nonce, map[], add.nonces)
  }

  lemma StartsAtState(nonce: Address -> nat, pn: map<Address, nat>, a: Address)
    requires StaysAtState(nonce, map[], pn)
    ensures VirtualNonce(nonce, pn, a) == nonce(a)
  {
    assert VirtualNonce(nonce, map[], a) == nonce(a);
  }

  lemma QueuesApart(v: PoolView, a: Address)
    requires Sound(v)
    ensures ItemsOf(v.pending, a).Keys !! ItemsOf(v.queue, a).Keys
  {
    forall n | n in ItemsOf(v.pending, a) ensures n !in ItemsOf(v.queue, a) { assert HasNonce(v.pending, a, n); }
  }

  /**
   Reinjection settles the list of an account that gains nothing, has nothing pending, or starts at
   its state nonce or below.
   */
  lemma AccountSettles(t: Terms, config: Config, add: AddSteps, added: Snapshot, dirty: set<Address>, a: Address,
                       lo: nat, hi: nat)
    requires Reinjected(add, added, dirty, t, config) && WellFiled(add, t.nonce)
    requires Fills(ItemsOf(add.filed.pending, a), lo, hi)
    requires a in dirty && a in add.filed.queue ==> lo <= t.nonce(a) || ItemsOf(add.filed.pending, a) == map[]
    ensures Settled(t, t.nonce(a), ItemsOf(added.pending, a), VirtualNonce(t.nonce, added.nonces, a))
  {
    hide Promoted, PendingLimited, QueueLimited, StaysAtState, Sound, Total, Fills, Steady, Shrunk;
    StartsAtState(t.nonce, add.nonces, a);
    FillsContiguous(ItemsOf(add.filed.pending, a), lo, hi);
    if dirty != {} {
      var s0 := Snapshot(add.filed.pending, add.filed.queue, add.nonces);
      assert PromotedOrNot(t, s0, add.mid, dirty, {}, a);
      QueuesApart(add.filed, a);
      var x, y := AccountOf(t.nonce, s0, a), AccountOf(t.nonce, add.mid, a);
      if a in dirty && a in s0.queue { PromotionSettles(t, a, x, y, lo, hi); }
      LimitShrinks(add.mid.pending, added.pending, t.locals, config, add.level, a);
      assert VirtualCutAt(t.nonce, add.mid.nonces, added.nonces, add.mid.pending, added.pending, a);
      ShrinkingSettles(t, t.nonce(a), y.pending, y.virtual, ItemsOf(added.pending, a),
                       VirtualNonce(t.nonce, added.nonces, a));
    }
  }

  /** Revalidation roots a settled account. */
  lemma SettledRootedAt(c: Checks, t: Terms, full: set<Address>, p0: Lists, q0: Lists, pn: map<Address, nat>, p: Lists,
                        q: Lists, a: Address)
    requires Agree(c, t) && DemotedExcept(c, full, p0, q0, p, q, {})
    requires Settled(t, t.nonce(a), ItemsOf(p0, a), VirtualNonce(t.nonce, pn, a))
    ensures RootedAt(p, c.nonce, pn, a)
  {
    hide Settled, StillExecutable, Rooted, VirtualNonce;
    assert DemotedOrNot(c, full, p0, q0, p, q, {}, a);
    SettledRoots(t, t.nonce(a), ItemsOf(p0, a), VirtualNonce(t.nonce, pn, a), DropOf(c, full, a), c.isMagma,
                 c.gasPrice);
    NothingExecutable(t.nonce(a), DropOf(c, full, a), c.isMagma, c.gasPrice);
  }

  lemma NothingExecutable(n: nat, drop: Tx -> bool, isMagma: bool, gasPrice: nat)
    ensures StillExecutable(From(map[], n), n, drop, isMagma, gasPrice) == map[]
  {
    assert From(map[], n) == map[];
  }

  /** The batch holds something valid from `a`. */
  ghost predicate Brings(reinject: seq<Tx>, valid: nat -> bool, a: Address) {
    exists i :: 0 <= i < |reinject| && reinject[i].sender == a && valid(i)
  }

  /** Nothing valid is reinjected for an account with pending transactions whose state nonce falls. */
  ghost predicate Harmless(p: Lists, sn: Address -> nat, newNonce: Address -> nat, reinject: seq<Tx>,
                           valid: nat -> bool) {
    forall a :: ItemsOf(p, a) == map[] || sn(a) <= newNonce(a) || !Brings(reinject, valid, a)
  }

  lemma DirtyBrings(cap: nat, isMagma: bool, trace: seq<PoolView>, txs: seq<Tx>, valid: nat -> bool, outs: seq<Outcome>,
                    a: Address)
    requires AddTrace(cap, isMagma, trace, txs, false, valid, outs) && a in Dirty(txs, outs)
    ensures Brings(txs, valid, a)
  {
    TraceAddsNothingElse(cap, isMagma, trace, txs, false, valid, outs, |outs|);
  }

  /** No gap opens in such a reset, whatever is reinjected and however full the pool is. */
  lemma NoGapOpens(config: Config, steps: ResetSteps, reinject: seq<Tx>, valid: nat -> bool, c: Checks, t: Terms,
                   sn: Address -> nat, pn: map<Address, nat>)
    requires Agree(c, t) && Prepared(steps, reinject, valid, c.isMagma, t, config) && Revised(steps, c)
    requires Gapless(steps.trace[0].pending, sn, pn) && Harmless(steps.trace[0].pending, sn, c.nonce, reinject, valid)
    ensures forall a :: RootedAt(steps.checked.pending, c.nonce, steps.added.nonces, a)
  {
    hide AddsOne, DemotedExcept, Reinjected, WellFiled, Dirty, RootedAt, Settled, Brings, VirtualNonce, Fills, Shrunk,
      Sound, StaysAtState, Total;
    var cap := config.execSlotsAll + config.nonExecSlotsAll;
    var dirty, p0, p := Dirty(reinject, steps.outs), steps.trace[0].pending, steps.add.filed.pending;
    BatchShrinks(cap, c.isMagma, steps.trace, reinject, false, valid, steps.outs, |steps.outs|);
    forall a ensures RootedAt(steps.checked.pending, c.nonce, steps.added.nonces, a) {
      assert Fills(ItemsOf(p0, a), sn(a), VirtualNonce(sn, pn, a)) && Shrunk(ItemsOf(p0, a), ItemsOf(p, a));
      var x := ShrunkFills(ItemsOf(p0, a), ItemsOf(p, a), sn(a), VirtualNonce(sn, pn, a));
      if a in dirty {
        DirtyBrings(cap, c.isMagma, steps.trace, reinject, valid, steps.outs, a);
        ShrunkNothing(ItemsOf(p0, a), ItemsOf(p, a));
      }
      AccountSettles(t, config, steps.add, steps.added, dirty, a, sn(a), x);
      SettledRootedAt(c, t, steps.full, steps.added.pending, steps.added.queue, steps.added.nonces,
                      steps.checked.pending, steps.checked.queue, a);
    }
  }

  lemma ShrunkNothing(m: Items, m': Items)
    requires Shrunk(m, m')
    ensures m == map[] ==> m' == map[]
  {
  }
}
