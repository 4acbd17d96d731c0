/**
 Exactly when a reset opens a gap, for a pool with room for everything reinjected, and a pool
 in which it does.
 */
module PoolGaps {
  import opened PoolAdds
  import opened PoolBeats
  import opened PoolLevels
  import opened PoolLists
  import opened PoolResets
  import opened PoolSteps
  import opened Transactions
  import opened TxLists
  import opened TxLookups
  import opened TxPricedLists

  ghost predicate Enters(isMagma: bool, v: PoolView, tx: Tx, valid: bool) {
    HashOf(tx) !in v.txs && valid && MayEnter(v.pending, v.queue, tx, isMagma)
  }

  /** The pool once a batch is filed, when there is room for all of it. */
  ghost function FileAll(isMagma: bool, v: PoolView, txs: seq<Tx>, valid: nat -> bool): PoolView {
    if txs == [] then v
    else
      var k := |txs| - 1;
      var w := FileAll(isMagma, v, txs[..k], valid);
      if Enters(isMagma, w, txs[k], valid(k)) then Filed(w, txs[k], false) else w
  }

  /** The senders of what is filed where nothing was. */
  ghost function NewSenders(isMagma: bool, v: PoolView, txs: seq<Tx>, valid: nat -> bool): set<Address> {
    if txs == [] then {}
    else
      var k := |txs| - 1;
      var w, tx := FileAll(isMagma, v, txs[..k], valid), txs[k];
      NewSenders(isMagma, v, txs[..k], valid) +
      (if Enters(isMagma, w, tx, valid(k)) && IsNew(w, tx) then {tx.sender} else {})
  }

  ghost predicate IsNew(v: PoolView, tx: Tx) {
    !HasNonce(v.pending, tx.sender, tx.nonce) && !HasNonce(v.queue, tx.sender, tx.nonce)
  }

  /** The whole batch fits, and with it all pooled transactions could be pending. */
  ghost predicate Roomy(config: Config, v: PoolView, txs: seq<Tx>) {
    && SlotSum(v.txs) + SlotsOf(txs) <= config.execSlotsAll + config.nonExecSlotsAll
    && |v.txs| + |txs| <= config.execSlotsAll
  }

  lemma EnteredSize(v: PoolView, tx: Tx)
    requires HashOf(tx) !in v.txs
    ensures var txs := Entered(v.pending, v.queue, v.txs, tx);
            SlotSum(txs) <= SlotSum(v.txs) + NumSlots(tx) && |txs| <= |v.txs| + 1
  {
    hide SlotSum, NumSlots, DropPrev;
    var p := if HasNonce(v.pending, tx.sender, tx.nonce) then v.pending else v.queue;
    PrevSize(p, v.txs, tx);
    SlotSumWith(DropPrev(p, v.txs, tx), tx);
  }

  lemma PrevSize(p: Lists, txs: map<Hash, Tx>, tx: Tx)
    ensures var left := DropPrev(p, txs, tx);
            SlotSum(left) <= SlotSum(txs) && |left| <= |txs| && (HashOf(tx) !in txs ==> HashOf(tx) !in left)
  {
    hide SlotSum, NumSlots;
    var left := DropPrev(p, txs, tx);
    if HasNonce(p, tx.sender, tx.nonce) {
      var h := HashOf(p[tx.sender][tx.nonce]);
      assert left.Keys == txs.Keys - {h};
      if h in txs {
        SlotSumWithout(txs, h);
      } else {
        assert left == txs;
      }
    }
  }

  lemma RoomyStep(cap: nat, isMagma: bool, v0: PoolView, v1: PoolView, tx: Tx, valid: bool, out: Outcome)
    requires AddsOne(cap, isMagma, v0, v1, tx, false, valid, out) && Missing(cap, v0, tx) <= 0
    ensures v1 == (if Enters(isMagma, v0, tx, valid) then Filed(v0, tx, false) else v0) && out != Crashed
    ensures out == Accepted(false) <==> Enters(isMagma, v0, tx, valid) && IsNew(v0, tx)
    ensures SlotSum(v1.txs) <= SlotSum(v0.txs) + NumSlots(tx) && |v1.txs| <= |v0.txs| + 1
    ensures forall a :: ItemsOf(v1.pending, a).Keys == ItemsOf(v0.pending, a).Keys
  {
    hide SlotSum, NumSlots, MayEnter, Entered, AllShrunk;
    if Enters(isMagma, v0, tx, valid) {
      EnteredSize(v0, tx);
      FilingShrinks(isMagma, v0, v1, tx, false, out);
    }
  }

  /** With room, a batch is filed as `FileAll` says, and every pending list keeps its nonces. */
  ghost predicate FiledAll(isMagma: bool, v0: PoolView, v: PoolView, txs: seq<Tx>, valid: nat -> bool,
                           outs: seq<Outcome>)
    requires |outs| == |txs|
  {
    && v == FileAll(isMagma, v0, txs, valid) && Dirty(txs, outs) == NewSenders(isMagma, v0, txs, valid)
    && SlotSum(v.txs) <= SlotSum(v0.txs) + SlotsOf(txs) && |v.txs| <= |v0.txs| + |txs|
    && (forall i :: 0 <= i < |outs| ==> outs[i] != Crashed)
    && forall a :: ItemsOf(v.pending, a).Keys == ItemsOf(v0.pending, a).Keys
  }

  lemma {:induction false} FileAllNext(isMagma: bool, v: PoolView, txs: seq<Tx>, tx: Tx, valid: nat -> bool)
    ensures var w, k := FileAll(isMagma, v, txs, valid), |txs|;
            && FileAll(isMagma, v, txs + [tx], valid) ==
               (if Enters(isMagma, w, tx, valid(k)) then Filed(w, tx, false) else w)
            && NewSenders(isMagma, v, txs + [tx], valid) ==
               NewSenders(isMagma, v, txs, valid) +
               (if Enters(isMagma, w, tx, valid(k)) && IsNew(w, tx) then {tx.sender} else {})
  {
    hide Enters, IsNew, Filed;
    var all := txs + [tx];
    assert all[..|all| - 1] == txs && all[|all| - 1] == tx;
  }

  lemma {:induction false} FiledNext(cap: nat, isMagma: bool, v0: PoolView, v1: PoolView, v2: PoolView, txs: seq<Tx>,
                                     tx: Tx, valid: nat -> bool, outs: seq<Outcome>, out: Outcome)
    requires |outs| == |txs| && FiledAll(isMagma, v0, v1, txs, valid, outs)
    requires AddsOne(cap, isMagma, v1, v2, tx, false, valid(|txs|), out)
    requires SlotSum(v0.txs) + SlotsOf(txs) + NumSlots(tx) <= cap
    ensures FiledAll(isMagma, v0, v2, txs + [tx], valid, outs + [out])
  {
    hide AddsOne, SlotSum, NumSlots, Enters, IsNew, Filed, Dirty, FileAll, NewSenders, SlotsOf;
    RoomyStep(cap, isMagma, v1, v2, tx, valid(|txs|), out);
    SlotsOfNext(txs, tx);
    DirtyPrefix(txs, tx, outs);
    DirtyNext(txs + [tx], outs, out);
    FileAllNext(isMagma, v0, txs, tx, valid);
  }

  lemma DirtyPrefix(txs: seq<Tx>, tx: Tx, outs: seq<Outcome>)
    requires |outs| == |txs|
    ensures Dirty(txs + [tx], outs) == Dirty(txs, outs)
  {
    assert forall i :: 0 <= i < |outs| ==> (txs + [tx])[i] == txs[i];
  }

  lemma {:induction false} RoomyTrace(cap: nat, isMagma: bool, trace: seq<PoolView>, txs: seq<Tx>, valid: nat -> bool,
                                      outs: seq<Outcome>, k: nat)
    requires AddTrace(cap, isMagma, trace, txs, false, valid, outs) && k <= |outs|
    requires SlotSum(trace[0].txs) + SlotsOf(txs[..k]) <= cap
    ensures FiledAll(isMagma, trace[0], trace[k], txs[..k], valid, outs[..k])
  {
    hide AddsOne, SlotSum, NumSlots, FiledAll;
    if k == 0 {
      NothingFiled(isMagma, trace[0], valid);
    } else {
      assert txs[..k] == txs[..k - 1] + [txs[k - 1]] && outs[..k] == outs[..k - 1] + [outs[k - 1]];
      SlotsOfNext(txs[..k - 1], txs[k - 1]);
      RoomyTrace(cap, isMagma, trace, txs, valid, outs, k - 1);
      FiledNext(cap, isMagma, trace[0], trace[k - 1], trace[k], txs[..k - 1], txs[k - 1], valid, outs[..k - 1],
                outs[k - 1]);
    }
  }

  lemma NothingFiled(isMagma: bool, v: PoolView, valid: nat -> bool)
    ensures FiledAll(isMagma, v, v, [], valid, [])
  {
    NobodyDirty([]);
  }

  lemma {:induction false} PrefixSlots(txs: seq<Tx>, k: nat)
    requires k <= |txs|
    ensures SlotsOf(txs[..k]) <= SlotsOf(txs)
    decreases |txs| - k
  {
    if k == |txs| {
      assert txs[..k] == txs;
    } else {
      PrefixSlots(txs, k + 1);
      assert txs[..k + 1] == txs[..k] + [txs[k]];
      SlotsOfNext(txs[..k], txs[k]);
    }
  }

  /** With room, the whole batch is filed and nothing panics. */
  lemma RoomyBatch(config: Config, isMagma: bool, trace: seq<PoolView>, txs: seq<Tx>, valid: nat -> bool,
                   outs: seq<Outcome>)
    requires AddTrace(config.execSlotsAll + config.nonExecSlotsAll, isMagma, trace, txs, false, valid, outs)
    requires Roomy(config, trace[0], txs)
    ensures |outs| == |txs| && !EndsInCrash(outs) && FiledAll(isMagma, trace[0], trace[|outs|], txs, valid, outs)
  {
    hide AddsOne, SlotSum, FileAll, NewSenders, Dirty;
    var k := |outs|;
    PrefixSlots(txs, k);
    RoomyTrace(config.execSlotsAll + config.nonExecSlotsAll, isMagma, trace, txs, valid, outs, k);
    assert outs[..k] == outs;
    assert k == |txs| ==> txs[..k] == txs;
  }

  /**
   A gap opens at an account: its state nonce falls below its pending list, a run is promoted from
   the new state nonce but stops short of that list, and revalidation keeps the list's head.
   */
  ghost predicate OpensGap(t: Terms, a: Address, start: nat, drop: Tx -> bool, pending: Items, queued: Items) {
    var n, live := t.nonce(a), Live(t, a, queued);
    && n < start && start in pending && !drop(pending[start]) && pending[start].gasPrice >= t.floor
    && ReadyAt(t, live, n) && exists k :: n < k < start && !ReadyAt(t, live, k)
  }

  /** Between the run and the list there is a nonce that is neither pending nor ready. */
  lemma Opens(t: Terms, a: Address, start: nat, end: nat, drop: Tx -> bool, x: Account, y: Account, isMagma: bool,
              gasPrice: nat)
    returns (hi: nat)
    requires Promoted(t, a, x, y) && x.virtual == t.nonce(a) && x.pending.Keys !! x.queue.Keys
    requires Fills(x.pending, start, end)
    requires OpensGap(t, a, start, drop, x.pending, x.queue)
    requires (forall tx :: drop(tx) ==> t.unpayable(tx)) && t.floor == PriceFloor(isMagma, gasPrice)
    ensures t.nonce(a) <= hi < start && hi !in y.pending && (hi in y.queue ==> y.queue[hi].gasPrice < t.floor)
    ensures start in StillExecutable(From(y.pending, t.nonce(a)), t.nonce(a), drop, isMagma, gasPrice)
  {
    hide Promoted, StillExecutable, CappedTo;
    var n, live := t.nonce(a), Live(t, a, x.queue);
    hi := RunFromState(t, a, x, y);
    var k :| n < k < start && !ReadyAt(t, live, k);
    assert hi <= k;
    RunLeavesHole(t, start, end, hi, x.pending, live, y.queue, a in t.locals);
    StartStays(t, n, start, end, hi, drop, x.pending, live, isMagma, gasPrice);
  }

  lemma RunLeavesHole(t: Terms, start: nat, end: nat, hi: nat, m: Items, live: Items, kept: Items, isLocal: bool)
    requires hi < start && Fills(m, start, end) && !ReadyAt(t, live, hi)
    requires CappedTo(From(live, hi), kept, isLocal, t.limit)
    ensures hi !in m + Below(live, hi) && (hi in kept ==> kept[hi].gasPrice < t.floor)
  {
  }

  lemma StartStays(t: Terms, n: nat, start: nat, end: nat, hi: nat, drop: Tx -> bool, m: Items, live: Items,
                   isMagma: bool, gasPrice: nat)
    requires n < hi < start && Fills(m, start, end) && start in m && !drop(m[start]) && m[start].gasPrice >= t.floor
    requires forall k :: k in live ==> k >= n && !t.unpayable(live[k])
    requires forall k :: n <= k < hi ==> ReadyAt(t, live, k)
    requires (forall tx :: drop(tx) ==> t.unpayable(tx)) && t.floor == PriceFloor(isMagma, gasPrice)
    ensures start in StillExecutable(From(m + Below(live, hi), n), n, drop, isMagma, gasPrice)
  {
    var list := From(m + Below(live, hi), n);
    assert ReadyAt(t, live, n);
    forall k | k in list && k <= start ensures !drop(list[k]) && list[k].gasPrice >= t.floor {
      if k < start { assert k in Below(live, hi) && ReadyAt(t, live, k); }
    }
    assert start in BelowDropped(list, drop) && n in BelowDropped(list, drop);
  }

  /** Where no gap opens, revalidation roots the list, and empties it only if it was not counted on. */
  lemma StaysClosed(t: Terms, a: Address, start: nat, end: nat, drop: Tx -> bool, x: Account, y: Account, isMagma: bool,
                    gasPrice: nat)
    requires Promoted(t, a, x, y) && x.virtual == t.nonce(a) && x.pending.Keys !! x.queue.Keys
    requires Fills(x.pending, start, end)
    requires !OpensGap(t, a, start, drop, x.pending, x.queue)
    requires (forall tx :: drop(tx) ==> t.unpayable(tx)) && t.floor == PriceFloor(isMagma, gasPrice)
    ensures var n := t.nonce(a);
            var keep := StillExecutable(From(y.pending, n), n, drop, isMagma, gasPrice);
            Rooted(keep, n) && (keep == map[] ==> y.virtual == n)
  {
    hide Promoted, StillExecutable, Settled, Rooted, CappedTo;
    var n, live := t.nonce(a), Live(t, a, x.queue);
    var hi := RunFromState(t, a, x, y);
    if start <= n || x.pending == map[] || hi == n {
      if hi == n {
        assert y.pending == x.pending;
        FillsContiguous(x.pending, start, end);
        NotCountedOn(t, n, x.pending);
      } else {
        PromotionSettles(t, a, x, y, start, end);
      }
      SettledRoots(t, n, y.pending, y.virtual, drop, isMagma, gasPrice);
    } else {
      assert ReadyAt(t, live, n);
      StartListed(x.pending, start, end);
      assert !ReadyAt(t, live, start) && hi <= start;
      if hi == start {
        RunMeetsList(t, n, start, end, x.pending, live, y.pending);
        SettledRoots(t, n, y.pending, y.virtual, drop, isMagma, gasPrice);
      } else {
        RunAlone(t, n, start, end, hi, drop, x.pending, live, isMagma, gasPrice);
      }
    }
  }

  lemma NotCountedOn(t: Terms, n: nat, m: Items)
    requires Contiguous(m)
    ensures Settled(t, n, m, n)
  {
  }

  lemma StartListed(m: Items, start: nat, end: nat)
    requires Fills(m, start, end) && m != map[]
    ensures start in m
  {
    var k :| k in m;
  }

  /** A run that reaches the list joins it without a gap. */
  lemma RunMeetsList(t: Terms, n: nat, start: nat, end: nat, m: Items, live: Items, m': Items)
    requires n < start < end && Fills(m, start, end) && m' == m + Below(live, start)
    requires forall k :: k in live ==> k >= n && !t.unpayable(live[k])
    requires forall k :: n <= k < start ==> ReadyAt(t, live, k)
    ensures Settled(t, n, m', start)
  {
    assert ReadyAt(t, live, n);
    forall k ensures k in From(m', n) <==> n <= k < end {
      assert n <= k < start ==> ReadyAt(t, live, k);
    }
    assert Steady(t, n, m', start, end);
  }

  /** When the head of the list goes, nothing stays but the run. */
  lemma RunAlone(t: Terms, n: nat, start: nat, end: nat, hi: nat, drop: Tx -> bool, m: Items, live: Items,
                 isMagma: bool, gasPrice: nat)
    requires n < hi < start && Fills(m, start, end) && start in m && (drop(m[start]) || m[start].gasPrice < t.floor)
    requires forall k :: k in live ==> k >= n && !t.unpayable(live[k])
    requires forall k :: n <= k < hi ==> ReadyAt(t, live, k)
    requires (forall tx :: drop(tx) ==> t.unpayable(tx)) && t.floor == PriceFloor(isMagma, gasPrice)
    ensures var keep := StillExecutable(From(m + Below(live, hi), n), n, drop, isMagma, gasPrice);
            Rooted(keep, n) && keep != map[]
  {
    var list := From(m + Below(live, hi), n);
    var keep := StillExecutable(list, n, drop, isMagma, gasPrice);
    assert ReadyAt(t, live, n);
    forall k | k in list && k < hi ensures !drop(list[k]) && list[k].gasPrice >= t.floor {
      assert ReadyAt(t, live, k);
    }
    assert n in BelowDropped(list, drop);
    forall k | n <= k < hi ensures k in keep {
      assert ReadyAt(t, live, k);
      assert k in BelowDropped(list, drop);
    }
    forall k | k in keep ensures n <= k < hi {
      KeptIsUsable(m + Below(live, hi), n, drop, isMagma, gasPrice, k);
      NoneAbove(m + Below(live, hi), n, drop, isMagma, gasPrice, start, k);
    }
    assert Fills(keep, n, hi) && n in keep;
  }

  lemma KeptIsUsable(m: Items, n: nat, drop: Tx -> bool, isMagma: bool, gasPrice: nat, k: nat)
    requires k in StillExecutable(From(m, n), n, drop, isMagma, gasPrice)
    ensures n <= k && k in m && !drop(m[k]) && m[k].gasPrice >= PriceFloor(isMagma, gasPrice)
  {
    assert k in BelowDropped(From(m, n), drop);
  }

  lemma NoneAbove(m: Items, n: nat, drop: Tx -> bool, isMagma: bool, gasPrice: nat, start: nat, k: nat)
    requires n <= start && start in m && (drop(m[start]) || m[start].gasPrice < PriceFloor(isMagma, gasPrice))
    requires k in StillExecutable(From(m, n), n, drop, isMagma, gasPrice)
    ensures k < start
  {
    hide StillExecutable;
    if start in StillExecutable(From(m, n), n, drop, isMagma, gasPrice) {
      KeptIsUsable(m, n, drop, isMagma, gasPrice, start);
    } else if k > start {
      KeepsWhatIsBelow(m, n, drop, isMagma, gasPrice, start, k);
    }
  }

  /** At `a` a gap opens in a reset with room for the whole batch: a condition on the pool and the batch before it. */
  ghost predicate GapOpens(v: PoolView, isMagma: bool, reinject: seq<Tx>, valid: nat -> bool, sn: Address -> nat,
                           t: Terms, drop: Tx -> bool, a: Address) {
    var filed := FileAll(isMagma, v, reinject, valid);
    && a in NewSenders(isMagma, v, reinject, valid)
    && OpensGap(t, a, sn(a), drop, ItemsOf(filed.pending, a), ItemsOf(filed.queue, a))
  }

  lemma LimitsIdle(t: Terms, config: Config, mid: Snapshot, s: Snapshot, heard: map<Address, nat>, level: nat,
                   a: Address)
    requires Limited(t, config, mid, s, heard, level) && Total(mid.pending) <= config.execSlotsAll
    ensures s.pending == mid.pending && s.nonces == mid.nonces
    ensures forall k :: k in ItemsOf(s.queue, a) ==>
      k in ItemsOf(mid.queue, a) && ItemsOf(s.queue, a)[k] == ItemsOf(mid.queue, a)[k]
  {
    hide Total, VirtualsCut;
  }

  /** With room, an account that gains something is promoted and not cut. */
  lemma AccountPromoted(t: Terms, config: Config, add: AddSteps, added: Snapshot, dirty: set<Address>, a: Address)
    returns (x: Account, y: Account)
    requires Reinjected(add, added, dirty, t, config) && WellFiled(add, t.nonce) && a in dirty && a in add.filed.queue
    requires Total(add.mid.pending) <= config.execSlotsAll
    ensures x == Account(ItemsOf(add.filed.pending, a), ItemsOf(add.filed.queue, a), t.nonce(a))
    ensures Promoted(t, a, x, y) && x.pending.Keys !! x.queue.Keys
    ensures y.pending == ItemsOf(added.pending, a) && y.virtual == VirtualNonce(t.nonce, added.nonces, a)
    ensures forall k :: k in ItemsOf(added.queue, a) ==> k in y.queue && ItemsOf(added.queue, a)[k] == y.queue[k]
  {
    hide Promoted, Limited, StaysAtState, Sound, Total;
    var s0 := Snapshot(add.filed.pending, add.filed.queue, add.nonces);
    x, y := AccountOf(t.nonce, s0, a), AccountOf(t.nonce, add.mid, a);
    StartsAtState(t.nonce, add.nonces, a);
    assert PromotedOrNot(t, s0, add.mid, dirty, {}, a);
    QueuesApart(add.filed, a);
    LimitsIdle(t, config, add.mid, added, add.heard, add.level, a);
  }

  /** Where no gap opens, revalidation leaves none. */
  lemma AccountCloses(t: Terms, config: Config, add: AddSteps, added: Snapshot, dirty: set<Address>, c: Checks,
                      full: set<Address>, p: Lists, q: Lists, a: Address, start: nat, end: nat)
    requires Agree(c, t) && Reinjected(add, added, dirty, t, config) && WellFiled(add, t.nonce)
    requires Total(add.mid.pending) <= config.execSlotsAll
    requires DemotedExcept(c, full, added.pending, added.queue, p, q, {})
    requires Fills(ItemsOf(add.filed.pending, a), start, end)
    requires a in dirty ==>
               !OpensGap(t, a, start, DropOf(c, full, a), ItemsOf(add.filed.pending, a), ItemsOf(add.filed.queue, a))
    ensures RootedAt(p, c.nonce, added.nonces, a)
  {
    hide Reinjected, WellFiled, Promoted, OpensGap, StillExecutable, Rooted, VirtualNonce, Total, Settled, Fills;
    if a in dirty && a in add.filed.queue {
      var x, y := AccountPromoted(t, config, add, added, dirty, a);
      StaysClosed(t, a, start, end, DropOf(c, full, a), x, y, c.isMagma, c.gasPrice);
      assert DemotedOrNot(c, full, added.pending, added.queue, p, q, {}, a);
      NothingExecutable(t.nonce(a), DropOf(c, full, a), c.isMagma, c.gasPrice);
    } else {
      AccountSettles(t, config, add, added, dirty, a, start, end);
      SettledRootedAt(c, t, full, added.pending, added.queue, added.nonces, p, q, a);
    }
  }

  /** Revalidation keeps the hole: the list's head stays, and what is missing below it does not come back. */
  lemma HoleKept(c: Checks, t: Terms, full: set<Address>, p0: Lists, q0: Lists, p: Lists, q: Lists, a: Address, hi: nat,
                 start: nat)
    requires Agree(c, t) && DemotedExcept(c, full, p0, q0, p, q, {})
    requires hi !in ItemsOf(p0, a) && (hi in ItemsOf(q0, a) ==> ItemsOf(q0, a)[hi].gasPrice < t.floor)
    requires start in StillExecutable(From(ItemsOf(p0, a), c.nonce(a)), c.nonce(a), DropOf(c, full, a), c.isMagma,
                                      c.gasPrice)
    ensures start in ItemsOf(p, a) && hi !in ItemsOf(p, a)
    ensures hi in ItemsOf(q, a) ==> ItemsOf(q, a)[hi].gasPrice < t.floor
  {
    hide StillExecutable;
    assert DemotedOrNot(c, full, p0, q0, p, q, {}, a);
    KeptIsUsable(ItemsOf(p0, a), c.nonce(a), DropOf(c, full, a), c.isMagma, c.gasPrice, start);
    if hi in ItemsOf(p, a) {
      KeptIsUsable(ItemsOf(p0, a), c.nonce(a), DropOf(c, full, a), c.isMagma, c.gasPrice, hi);
    }
  }

  /** Promotion does not fill a hole with what is not ready. */
  lemma HoleStays(t: Terms, a: Address, x: Account, y: Account, hi: nat, start: nat)
    requires Promoted(t, a, x, y) && hi !in x.pending && start in x.pending
    requires hi in x.queue ==> x.queue[hi].gasPrice < t.floor
    ensures hi !in y.pending && start in y.pending
  {
    hide CappedTo;
    var live := Live(t, a, x.queue);
    var lo: nat, last: nat :| RunPromoted(t, a, live, x, y, lo, last);
  }

  /** What a reset with room does to an account at which a gap opens. */
  lemma GapShows(t: Terms, config: Config, steps: ResetSteps, dirty: set<Address>, c: Checks, a: Address, start: nat,
                 end: nat, s: Snapshot)
    requires Agree(c, t) && Reinjected(steps.add, steps.added, dirty, t, config) && WellFiled(steps.add, t.nonce)
    requires Total(steps.add.mid.pending) <= config.execSlotsAll && Total(steps.mid.pending) <= config.execSlotsAll
    requires DemotedExcept(c, steps.full, steps.added.pending, steps.added.queue, steps.checked.pending,
                           steps.checked.queue, {})
    requires PromotedExcept(t, steps.checked, steps.mid, steps.checked.queue.Keys, {})
    requires Limited(t, config, steps.mid, s, steps.heard, steps.level)
    requires Fills(ItemsOf(steps.add.filed.pending, a), start, end) && a in dirty
    requires OpensGap(t, a, start, DropOf(c, steps.full, a), ItemsOf(steps.add.filed.pending, a),
                      ItemsOf(steps.add.filed.queue, a))
    ensures !Gapless(s.pending, t.nonce, s.nonces)
  {
    hide Reinjected, WellFiled, Promoted, StillExecutable, VirtualNonce, Total, Limited, DemotedExcept;
    assert a in steps.add.filed.queue;
    var x, y := AccountPromoted(t, config, steps.add, steps.added, dirty, a);
    var hi := Opens(t, a, start, end, DropOf(c, steps.full, a), x, y, c.isMagma, c.gasPrice);
    HoleKept(c, t, steps.full, steps.added.pending, steps.added.queue, steps.checked.pending, steps.checked.queue, a,
             hi, start);
    assert PromotedOrNot(t, steps.checked, steps.mid, steps.checked.queue.Keys, {}, a);
    var z, w := AccountOf(t.nonce, steps.checked, a), AccountOf(t.nonce, steps.mid, a);
    if a in steps.checked.queue { HoleStays(t, a, z, w, hi, start); }
    LimitsIdle(t, config, steps.mid, s, steps.heard, steps.level, a);
    assert start in ItemsOf(s.pending, a) && hi !in ItemsOf(s.pending, a);
    assert !Fills(ItemsOf(s.pending, a), t.nonce(a), VirtualNonce(t.nonce, s.nonces, a));
  }

  /** With room, a reset opens no gap unless one opens at some account. */
  lemma NoneOpens(config: Config, steps: ResetSteps, reinject: seq<Tx>, valid: nat -> bool, c: Checks, t: Terms,
                  sn: Address -> nat, pn: map<Address, nat>)
    requires Agree(c, t) && Prepared(steps, reinject, valid, c.isMagma, t, config) && Revised(steps, c)
    requires Gapless(steps.trace[0].pending, sn, pn) && Roomy(config, steps.trace[0], reinject)
    requires forall a :: !GapOpens(steps.trace[0], c.isMagma, reinject, valid, sn, t, DropOf(c, steps.full, a), a)
    ensures forall a :: RootedAt(steps.checked.pending, c.nonce, steps.added.nonces, a)
  {
    hide AddsOne, DemotedExcept, Reinjected, WellFiled, Dirty, RootedAt, VirtualNonce, Fills, Sound, StaysAtState,
      Total, FileAll, NewSenders, OpensGap, SlotSum;
    var p0, p := steps.trace[0].pending, steps.add.filed.pending;
    RoomyBatch(config, c.isMagma, steps.trace, reinject, valid, steps.outs);
    forall a ensures RootedAt(steps.checked.pending, c.nonce, steps.added.nonces, a) {
      assert Fills(ItemsOf(p0, a), sn(a), VirtualNonce(sn, pn, a));
      SameFills(ItemsOf(p0, a), ItemsOf(p, a), sn(a), VirtualNonce(sn, pn, a));
      assert !GapOpens(steps.trace[0], c.isMagma, reinject, valid, sn, t, DropOf(c, steps.full, a), a);
      AccountCloses(t, config, steps.add, steps.added, Dirty(reinject, steps.outs), c, steps.full,
                    steps.checked.pending, steps.checked.queue, a, sn(a), VirtualNonce(sn, pn, a));
    }
  }

  lemma SameFills(m: Items, m': Items, lo: nat, hi: nat)
    requires m'.Keys == m.Keys && Fills(m, lo, hi)
    ensures Fills(m', lo, hi)
  {
    assert forall k :: k in m' <==> k in m;
  }

  /** With room, a gap that opens at an account is there when the reset ends. */
  lemma OneOpens(config: Config, steps: ResetSteps, reinject: seq<Tx>, valid: nat -> bool, c: Checks, t: Terms,
                 sn: Address -> nat, pn: map<Address, nat>, a: Address, s: Snapshot)
    requires Agree(c, t) && Prepared(steps, reinject, valid, c.isMagma, t, config) && Rebased(steps, c, t, config, s)
    requires Gapless(steps.trace[0].pending, sn, pn) && Roomy(config, steps.trace[0], reinject)
    requires GapOpens(steps.trace[0], c.isMagma, reinject, valid, sn, t, DropOf(c, steps.full, a), a)
    ensures !Gapless(s.pending, t.nonce, s.nonces)
  {
    hide AddsOne, DemotedExcept, Reinjected, WellFiled, Dirty, VirtualNonce, Fills, Sound, StaysAtState, Total, FileAll,
      NewSenders, OpensGap, SlotSum, PromotedExcept, Limited, AdoptedNonces;
    var p0, p := steps.trace[0].pending, steps.add.filed.pending;
    RoomyBatch(config, c.isMagma, steps.trace, reinject, valid, steps.outs);
    assert Fills(ItemsOf(p0, a), sn(a), VirtualNonce(sn, pn, a));
    SameFills(ItemsOf(p0, a), ItemsOf(p, a), sn(a), VirtualNonce(sn, pn, a));
    GapShows(t, config, steps, Dirty(reinject, steps.outs), c, a, sn(a), VirtualNonce(sn, pn, a), s);
  }

  /**
   What the pool and the batch before a reset say about gaps after it. Which lists are still
   validated in full once FULL_VALIDATION_LIMIT transactions are is up to the order of accounts;
   below the limit a gap is there exactly when one opens at some account.
   */
  ghost predicate GapsForeseen(v: PoolView, isMagma: bool, reinject: seq<Tx>, valid: nat -> bool, sn: Address -> nat,
                               t: Terms, marked: Tx -> bool, gapFree: bool) {
    && (|v.txs| + |reinject| < FULL_VALIDATION_LIMIT ==>
          (gapFree <==> forall a :: !GapOpens(v, isMagma, reinject, valid, sn, t, t.unpayable, a)))
    && (gapFree ==> forall a :: !GapOpens(v, isMagma, reinject, valid, sn, t, t.unpayable, a))
    && ((forall a :: !GapOpens(v, isMagma, reinject, valid, sn, t, marked, a)) ==> gapFree)
  }

  lemma OpensForLess(v: PoolView, isMagma: bool, reinject: seq<Tx>, valid: nat -> bool, sn: Address -> nat, t: Terms,
                     drop: Tx -> bool, drop': Tx -> bool, a: Address)
    requires GapOpens(v, isMagma, reinject, valid, sn, t, drop, a) && forall tx :: drop'(tx) ==> drop(tx)
    ensures GapOpens(v, isMagma, reinject, valid, sn, t, drop', a)
  {
    hide FileAll, NewSenders;
  }

  /** An account at which a gap opens is among those revalidated. */
  lemma StillListed(config: Config, steps: ResetSteps, reinject: seq<Tx>, valid: nat -> bool, c: Checks, t: Terms,
                    sn: Address -> nat, drop: Tx -> bool, a: Address)
    requires Agree(c, t) && Prepared(steps, reinject, valid, c.isMagma, t, config)
    requires Roomy(config, steps.trace[0], reinject)
    requires GapOpens(steps.trace[0], c.isMagma, reinject, valid, sn, t, drop, a)
    ensures a in steps.added.pending && |steps.add.filed.txs| <= |steps.trace[0].txs| + |reinject|
  {
    hide AddsOne, Reinjected, WellFiled, Dirty, Total, FileAll, NewSenders, SlotSum, Promoted, VirtualNonce, CappedTo;
    RoomyBatch(config, c.isMagma, steps.trace, reinject, valid, steps.outs);
    assert a in steps.add.filed.queue;
    var x, y := AccountPromoted(t, config, steps.add, steps.added, Dirty(reinject, steps.outs), a);
    var hi := RunFromState(t, a, x, y);
    assert sn(a) in y.pending;
  }

  /** With room, the gaps after a reset are the ones foreseen. */
  lemma Foreseen(config: Config, steps: ResetSteps, reinject: seq<Tx>, valid: nat -> bool, c: Checks, t: Terms,
                 sn: Address -> nat, pn: map<Address, nat>, s: Snapshot)
    requires Agree(c, t) && Prepared(steps, reinject, valid, c.isMagma, t, config) && Rebased(steps, c, t, config, s)
    requires Gapless(steps.trace[0].pending, sn, pn) && Roomy(config, steps.trace[0], reinject)
    requires (forall a :: RootedAt(steps.checked.pending, c.nonce, steps.added.nonces, a)) ==>
      Gapless(s.pending, t.nonce, s.nonces)
    ensures GapsForeseen(steps.trace[0], c.isMagma, reinject, valid, sn, t, c.marked,
                         Gapless(s.pending, t.nonce, s.nonces))
  {
    hide AddsOne, Reinjected, WellFiled, Dirty, DemotedExcept, PromotedExcept, Limited, AdoptedNonces, Gapless, Roomy,
      GapOpens, RootedAt, Total;
    var v := steps.trace[0];
    forall a | GapOpens(v, c.isMagma, reinject, valid, sn, t, t.unpayable, a)
      ensures !Gapless(s.pending, t.nonce, s.nonces)
    {
      OpensForLess(v, c.isMagma, reinject, valid, sn, t, t.unpayable, DropOf(c, steps.full, a), a);
      OneOpens(config, steps, reinject, valid, c, t, sn, pn, a, s);
    }
    forall a | GapOpens(v, c.isMagma, reinject, valid, sn, t, DropOf(c, steps.full, a), a)
      ensures GapOpens(v, c.isMagma, reinject, valid, sn, t, c.marked, a)
    {
      OpensForLess(v, c.isMagma, reinject, valid, sn, t, DropOf(c, steps.full, a), c.marked, a);
    }
    if |v.txs| + |reinject| < FULL_VALIDATION_LIMIT {
      forall a | GapOpens(v, c.isMagma, reinject, valid, sn, t, DropOf(c, steps.full, a), a)
        ensures GapOpens(v, c.isMagma, reinject, valid, sn, t, t.unpayable, a)
      {
        StillListed(config, steps, reinject, valid, c, t, sn, DropOf(c, steps.full, a), a);
      }
    }
    if forall a :: !GapOpens(v, c.isMagma, reinject, valid, sn, t, DropOf(c, steps.full, a), a) {
      NoneOpens(config, steps, reinject, valid, c, t, sn, pn);
    }
  }

  // A reset that opens a gap

  function Plain(nonce: nat): Tx {
    Tx(1, nonce, 10, 100, false, [], 0)
  }

  function Nonce(n: nat): Address -> nat {
    (a: Address) => n
  }

  function OnlyFirst(): nat -> bool {
    (i: nat) => i == 0
  }

  function Never(): Tx -> bool {
    (tx: Tx) => false
  }

  /** The terms of such a reset to a state nonce. */
  ghost function PlainTerms(n: nat, limit: nat): Terms {
    Terms(Nonce(n), 0, {}, limit, Never())
  }

  lemma Unpooled(v: PoolView, tx: Tx)
    requires Sound(v) && tx.nonce !in ItemsOf(v.pending, tx.sender) && tx.nonce !in ItemsOf(v.queue, tx.sender)
    ensures HashOf(tx) !in v.txs && IsNew(v, tx)
  {
    assert !InList(v.pending, tx) && !InList(v.queue, tx) && !InList(map[], tx);
  }

  /** A transaction at a free nonce is filed in the queue. */
  lemma FilesNew(v: PoolView, tx: Tx, valid: nat -> bool)
    requires Sound(v) && tx.nonce !in ItemsOf(v.pending, tx.sender) && tx.nonce !in ItemsOf(v.queue, tx.sender)
    requires valid(0)
    ensures FileAll(false, v, [tx], valid) == Filed(v, tx, false) && NewSenders(false, v, [tx], valid) == {tx.sender}
    ensures ItemsOf(Filed(v, tx, false).pending, tx.sender) == ItemsOf(v.pending, tx.sender)
    ensures ItemsOf(Filed(v, tx, false).queue, tx.sender) == ItemsOf(v.queue, tx.sender)[tx.nonce := tx]
  {
    Unpooled(v, tx);
    var none: seq<Tx> := [tx][..0];
    assert none == [];
    assert FileAll(false, v, none, valid) == v && NewSenders(false, v, none, valid) == {};
  }

  /**
   With nonce 5 pending at state nonce 5, a reset to state nonce 3 that reinjects nonces 3 and 4,
   of which 4 is not valid any more, opens a gap.
   */
  lemma ReinjectionLeavesGap(v: PoolView, limit: nat)
    requires Sound(v) && ItemsOf(v.pending, 1) == map[5 := Plain(5)] && ItemsOf(v.queue, 1) == map[]
    ensures GapOpens(v, false, [Plain(3), Plain(4)], OnlyFirst(), Nonce(5), PlainTerms(3, limit), Never(), 1)
  {
    var t, both := PlainTerms(3, limit), [Plain(3), Plain(4)];
    FilesNew(v, Plain(3), OnlyFirst());
    assert both[..1] == [Plain(3)];
    var live := Live(t, 1, map[3 := Plain(3)]);
    assert ReadyAt(t, live, 3) && !ReadyAt(t, live, 4);
  }

  lemma RoomForThree(txs: map<Hash, Tx>, locals: set<Address>, p: Lists, q: Lists, b: Beats, now: nat)
    requires txs.Keys <= {HashOf(Plain(5))} && forall h :: h in txs ==> HashOf(txs[h]) == h
    ensures Roomy(Config(4, 4, 4, 4), PoolView(p, q, txs, locals, b, now), [Plain(3), Plain(4)])
    ensures Roomy(Config(4, 4, 4, 4), PoolView(p, q, map[], locals, b, now), [Plain(5)])
  {
    hide SlotSum, HashOf;
    OneSlot(txs);
    NoSlots();
    SlotsOfNext([], Plain(5));
    SlotsOfNext([], Plain(3));
    SlotsOfNext([Plain(3)], Plain(4));
    assert [] + [Plain(5)] == [Plain(5)] && [] + [Plain(3)] == [Plain(3)];
    assert [Plain(3)] + [Plain(4)] == [Plain(3), Plain(4)];
  }

  lemma OneSlot(txs: map<Hash, Tx>)
    requires txs.Keys <= {HashOf(Plain(5))} && forall h :: h in txs ==> HashOf(txs[h]) == h
    ensures SlotSum(txs) <= 1 && |txs| <= 1
  {
    hide SlotSum;
    NoSlots();
    var h := HashOf(Plain(5));
    if h in txs {
      assert txs == map[h := Plain(5)];
      SlotSumWith(map[], Plain(5));
    } else {
      assert txs == map[];
    }
  }

  lemma NoSlots()
    ensures SlotSum(map[]) == 0
  {
    var none: map<Hash, Tx> := map[];
    assert SlotTable(none) == map[];
  }

  /** In an empty pool at state nonce 5, adding nonce 5 makes it pending. */
  lemma FivePending(add: AddSteps, added: Snapshot, dirty: set<Address>, t: Terms)
    requires t.nonce == Nonce(5) && t.floor == 0 && t.unpayable == Never()
    requires add.filed.pending == map[] && add.filed.queue == map[1 := map[5 := Plain(5)]] && 1 in dirty
    requires Reinjected(add, added, dirty, t, Config(4, 4, 4, 4)) && WellFiled(add, t.nonce)
    requires Total(add.mid.pending) <= 4
    ensures ItemsOf(added.pending, 1) == map[5 := Plain(5)] && ItemsOf(added.queue, 1) == map[]
  {
    hide Reinjected, WellFiled, Total, Promoted, CappedTo, RunEndsAt, Live, Below, From;
    var x, y := AccountPromoted(t, Config(4, 4, 4, 4), add, added, dirty, 1);
    var hi := RunFromState(t, 1, x, y);
    FiveRuns(t, Live(t, 1, x.queue), hi, y.queue, 1 in t.locals);
    assert forall k :: k !in ItemsOf(added.queue, 1);
  }

  lemma FiveRuns(t: Terms, live: Items, hi: nat, kept: Items, isLocal: bool)
    requires t.nonce == Nonce(5) && t.floor == 0 && t.unpayable == Never() && live == Live(t, 1, map[5 := Plain(5)])
    requires RunEndsAt(t, 1, live, hi) && CappedTo(From(live, hi), kept, isLocal, t.limit)
    ensures map[] + Below(live, hi) == map[5 := Plain(5)] && kept == map[]
  {
    assert live == map[5 := Plain(5)];
    assert ReadyAt(t, live, 5) && !ReadyAt(t, live, 6);
    assert hi == 6 && From(live, 6) == map[] && Below(live, 6) == live;
  }

  /** What adding nonce 5 to an empty pool files. */
  lemma FiveFiled(v0: PoolView, filed: PoolView, outs: seq<Outcome>)
    requires v0 == PoolView(map[], map[], map[], {}, map[], 0) && |outs| == 1
    requires FiledAll(false, v0, filed, [Plain(5)], OnlyFirst(), outs)
    ensures filed.pending == map[] && filed.queue == map[1 := map[5 := Plain(5)]] && filed.locals == {}
    ensures filed.txs.Keys == {HashOf(Plain(5))} && |filed.txs| == 1 && Dirty([Plain(5)], outs) == {1}
  {
    hide SlotSum, Dirty;
    assert Sound(v0) by { assert forall t :: !InList(map[], t); }
    FilesNew(v0, Plain(5), OnlyFirst());
    assert filed.txs == map[HashOf(Plain(5)) := Plain(5)];
  }
}
