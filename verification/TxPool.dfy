/**
 The transaction pool (blockchain/tx_pool.go), without external modules. Each account list
 is held by its contents; TxLists shows that the heap-indexed lists compute the same.
 */
module TxPools {
  import BinaryHeap
  import opened PoolAdds
  import opened PoolBeats
  import opened PoolGaps
  import opened PoolHeard
  import opened PoolLevels
  import opened PoolLists
  import opened PoolResets
  import opened PoolRoom
  import opened PoolSteps
  import opened Transactions
  import opened TxLists
  import opened TxLookups
  import opened TxPricedLists
  import opened Wrappers

  /** The pool's operations, with what the environment answers at the time of each. */
  datatype Op =
    | OpAdd(txs: seq<Tx>, local: bool, valid: nat -> bool, unpayable: Tx -> bool)
    | OpAddOne(tx: Tx, local: bool, isValid: bool, unpayable: Tx -> bool)
    | OpReset(newNonce: Address -> nat, reinject: seq<Tx>, valid: nat -> bool, unpayable: Tx -> bool,
              marked: Tx -> bool, magma: bool, price: nat)
    | OpEvict(lifetime: nat, keepLocals: bool)
    | OpRemove(hash: Hash)
    | OpSetGasPrice(price: nat)
    | OpClear
    | OpTick(time: nat)

  /** No reset lowers the state nonce of an account that it reinjects something valid for. */
  ghost predicate Forward(stateNonce: Address -> nat, op: Op) {
    op.OpReset? ==>
      && MarkedIsUnpayable(op.marked, op.unpayable)
      && forall a :: stateNonce(a) <= op.newNonce(a) || !Brings(op.reinject, op.valid, a)
  }

  ghost predicate AllForward(stateNonce: Address -> nat, ops: seq<Op>) {
    ops != [] ==> Forward(stateNonce, ops[0]) && AllForward(NonceAfter(stateNonce, ops[0]), ops[1..])
  }

  /** Eviction passes over locals only if those are kept. */
  ghost predicate Spares(op: Op, keepLocals: bool) {
    op.OpEvict? && op.keepLocals ==> keepLocals
  }

  function NonceAfter(stateNonce: Address -> nat, op: Op): Address -> nat {
    if op.OpReset? then op.newNonce else stateNonce
  }

  /** The pool at one moment, but for its price heap. */
  datatype PoolState = PoolState(view: PoolView, nonces: map<Address, nat>, stateNonce: Address -> nat, isMagma: bool,
                                 gasPrice: nat)

  ghost function TermsOf(config: Config, s: PoolState, unpayable: Tx -> bool): Terms {
    Terms(s.stateNonce, PriceFloor(s.isMagma, s.gasPrice), s.view.locals, config.nonExecSlotsAccount, unpayable)
  }

  function SnapshotOf(s: PoolState): Snapshot {
    Snapshot(s.view.pending, s.view.queue, s.nonces)
  }

  function CapacityOf(config: Config): nat {
    config.execSlotsAll + config.nonExecSlotsAll
  }

  /** A batch is added one by one, and unless it panics the senders of what is new are promoted. */
  ghost predicate AddsBatch(config: Config, op: Op, s0: PoolState, s1: PoolState, trace: seq<PoolView>,
                            outs: seq<Outcome>, steps: AddSteps)
    requires op.OpAdd?
  {
    && AddTrace(CapacityOf(config), s0.isMagma, trace, op.txs, op.local, op.valid, outs)
    && trace[0] == s0.view && trace[|outs|] == steps.filed && StaysAtState(s0.stateNonce, s0.nonces, steps.nonces)
    && s1 == s0.(view := s1.view, nonces := s1.nonces)
    && s1.view.locals == steps.filed.locals && s1.view.now == steps.filed.now
    && if EndsInCrash(outs) || Dirty(op.txs, outs) == {} then s1.view == steps.filed && s1.nonces == steps.nonces
       else
         && PromotedAfter(steps, TermsOf(config, s1, op.unpayable), config, Dirty(op.txs, outs), SnapshotOf(s1))
         && s1.view.beats == steps.heard
  }

  /** One transaction is added, and its sender is promoted if it is new. */
  ghost predicate AddsSingle(config: Config, op: Op, s0: PoolState, s1: PoolState, out: Outcome, steps: AddSteps)
    requires op.OpAddOne?
  {
    && AddsOne(CapacityOf(config), s0.isMagma, s0.view, steps.filed, op.tx, op.local, op.isValid, out)
    && s1 == s0.(view := s1.view, nonces := s1.nonces)
    && s1.view.locals == steps.filed.locals && s1.view.now == steps.filed.now
    && if out == Accepted(false) then
         && PromotedAfter(steps, TermsOf(config, s1, op.unpayable), config, {op.tx.sender}, SnapshotOf(s1))
         && s1.view.beats == steps.heard
       else s1.view == steps.filed && s1.nonces == steps.nonces
  }

  /** The pool is moved to a new state, up to a panic while reinjecting. */
  ghost predicate MovesTo(config: Config, op: Op, s0: PoolState, s1: PoolState, steps: ResetSteps)
    requires op.OpReset?
  {
    var t := TermsOf(config, s0, op.unpayable).(nonce := op.newNonce);
    var c := Checks(op.newNonce, op.unpayable, op.marked, s0.isMagma, s0.gasPrice);
    && AddTrace(CapacityOf(config), s0.isMagma, steps.trace, op.reinject, false, op.valid, steps.outs)
    && steps.trace[0] == s0.view && s1.stateNonce == op.newNonce
    && s1.view.locals == s0.view.locals && s1.view.now == s0.view.now
    && if EndsInCrash(steps.outs) then
         s1.view == steps.trace[|steps.outs|] && s1.isMagma == s0.isMagma && s1.gasPrice == s0.gasPrice
       else
         && Prepared(steps, op.reinject, op.valid, s0.isMagma, t, config)
         && Rebased(steps, c, t, config, SnapshotOf(s1)) && s1.view.beats == steps.heard
         && s1.isMagma == op.magma && s1.gasPrice == if op.magma then op.price else s0.gasPrice
  }

  /** What one operation does to the pool, and whether it panics. */
  ghost predicate Does(config: Config, op: Op, s0: PoolState, s1: PoolState, crashed: bool) {
    match op
    case OpAdd(_, _, _, _) =>
      exists trace, outs, steps :: AddsBatch(config, op, s0, s1, trace, outs, steps) && crashed == EndsInCrash(outs)
    case OpAddOne(_, _, _, _) =>
      exists out, steps :: AddsSingle(config, op, s0, s1, out, steps) && crashed == (out == Crashed)
    case OpReset(_, _, _, _, _, _, _) =>
      exists steps :: MovesTo(config, op, s0, s1, steps) && crashed == EndsInCrash(steps.outs)
    case OpEvict(lifetime, keepLocals) =>
      && !crashed
      && s1 == s0.(view := s0.view.(queue := s1.view.queue, beats := s1.view.beats, txs := s1.view.txs))
      && EvictedExcept(Eviction(s0.view.now, lifetime, keepLocals, s0.view.locals), s0.view.queue, s1.view.queue,
                       s0.view.beats, s1.view.beats, {})
    case OpRemove(hash) =>
      && !crashed && s1 == s0.(view := s1.view, nonces := s1.nonces)
      && if hash in s0.view.txs then
           var t := s0.view.txs[hash];
           && s1.view == RemoveOne(s0.view, t)
           && Lowered(s0.stateNonce, s0.nonces, s1.nonces, t, HasNonce(s0.view.pending, t.sender, t.nonce))
         else s1 == s0
    case OpSetGasPrice(price) =>
      && !crashed
      && s1 == if s0.isMagma || s0.gasPrice == price then s0
               else s0.(view := PoolView(map[], map[], map[], {}, map[], s0.view.now), nonces := map[],
                        gasPrice := price)
    case OpClear =>
      && !crashed
      && s1 == s0.(view := s0.view.(pending := map[], queue := map[], txs := map[]), nonces := map[])
    case OpTick(time) => !crashed && s1 == s0.(view := s0.view.(now := time))
  }

  /** The states follow the operations, all of them or up to a panic. */
  ghost predicate Follow(config: Config, ops: seq<Op>, states: seq<PoolState>, crashed: bool) {
    && 0 < |states| <= |ops| + 1 && (crashed ==> |states| > 1) && (!crashed ==> |states| == |ops| + 1)
    && forall i :: 0 <= i < |states| - 1 ==>
         Does(config, ops[i], states[i], states[i + 1], crashed && i == |states| - 2)
  }

  /** The first operations have been done without a panic. */
  ghost predicate Done(config: Config, ops: seq<Op>, states: seq<PoolState>) {
    && 0 < |states| <= |ops| + 1
    && forall i :: 0 <= i < |states| - 1 ==> Does(config, ops[i], states[i], states[i + 1], false)
  }

  lemma NothingDone(config: Config, ops: seq<Op>, s: PoolState)
    ensures Done(config, ops, [s])
  {
  }

  lemma AllDone(config: Config, ops: seq<Op>, states: seq<PoolState>)
    requires Done(config, ops, states) && |states| == |ops| + 1
    ensures Follow(config, ops, states, false)
  {
    hide Does;
  }

  lemma DoesNext(config: Config, ops: seq<Op>, states: seq<PoolState>, s: PoolState, crashed: bool)
    requires Done(config, ops, states) && |states| <= |ops|
    requires Does(config, ops[|states| - 1], states[|states| - 1], s, crashed)
    ensures !crashed ==> Done(config, ops, states + [s])
    ensures crashed ==> Follow(config, ops, states + [s], true)
  {
    hide Does;
    var grown := states + [s];
    forall i | 0 <= i < |states|
      ensures Does(config, ops[i], grown[i], grown[i + 1], crashed && i == |states| - 1)
    {
      assert i < |states| - 1 ==> grown[i] == states[i] && grown[i + 1] == states[i + 1];
    }
  }

  class TxPool {
    const config: Config
    var stateNonce: Address -> nat
    var pendingNonce: map<Address, nat>
    var locals: set<Address>
    var pending: Lists
    var queue: Lists
    var beats: map<Address, nat>
    var all: TxLookup
    var priced: TxPricedList
    var isMagma: bool
    var gasPrice: nat
    var now: nat

    /** Everything but the price index's coverage, with `limbo` in the middle of a move. */
    ghost predicate Holding(limbo: Lists)
      reads this`pending, this`queue, this`all, this`priced, all, priced
    {
      && priced.all == all && all.Valid() && priced.Valid()
      && Consistent(pending, queue, limbo, all.txs)
    }

    ghost predicate Valid()
      reads this`pending, this`queue, this`all, this`priced, all, priced
    {
      Holding(map[]) && priced.Covers()
    }

    lemma WellListed()
      requires Valid()
      ensures Consistent(pending, queue, map[], all.txs)
    {
    }

    function View(): PoolView
      reads this`pending, this`queue, this`locals, this`beats, this`now, this`all, all
    {
      PoolView(pending, queue, all.txs, locals, beats, now)
    }

    function Capacity(): nat {
      config.execSlotsAll + config.nonExecSlotsAll
    }

    function State(): PoolState
      reads this, all
    {
      PoolState(View(), pendingNonce, stateNonce, isMagma, gasPrice)
    }

    ghost predicate GapFree()
      reads this`pending, this`stateNonce, this`pendingNonce
    {
      Gapless(pending, stateNonce, pendingNonce)
    }

    /** Every account with something queued has a last sign of life, except locals if those are kept. */
    ghost predicate Heard(keepLocals: bool)
      reads this`queue, this`locals, this`beats
    {
      AllHeard(queue, Exempt(locals, keepLocals), beats)
    }

    constructor (config: Config, stateNonce: Address -> nat, gasPrice: nat)
      ensures Valid() && GapFree() && pending == map[] && queue == map[] && all.txs == map[] && priced.items == []
      ensures priced.stales == 0
      ensures this.config == config && this.stateNonce == stateNonce && this.gasPrice == gasPrice && !isMagma
      ensures pendingNonce == map[] && locals == {} && beats == map[] && now == 0 && fresh(all) && fresh(priced)
      ensures forall keep :: Heard(keep)
    {
      this.config, this.stateNonce, this.gasPrice := config, stateNonce, gasPrice;
      pendingNonce, locals, pending, queue, beats := map[], {}, map[], map[], map[];
      isMagma, now := false, 0;
      var lookup := new TxLookup();
      all := lookup;
      priced := new TxPricedList(lookup);
    }

    method GetPendingNonce(a: Address) returns (n: nat)
      modifies this`pendingNonce
      ensures n == VirtualNonce(stateNonce, old(pendingNonce), a)
      ensures forall b :: VirtualNonce(stateNonce, pendingNonce, b) == VirtualNonce(stateNonce, old(pendingNonce), b)
    {
      if a !in pendingNonce || pendingNonce[a] < stateNonce(a) {
        pendingNonce := pendingNonce[a := stateNonce(a)];
      }
      n := pendingNonce[a];
    }

    /** Lowers the virtual nonce of `a` to a dropped transaction's nonce. */
    method UpdatePendingNonce(a: Address, nonce: nat)
      modifies this`pendingNonce
      ensures forall b :: b != a ==>
        VirtualNonce(stateNonce, pendingNonce, b) == VirtualNonce(stateNonce, old(pendingNonce), b)
      ensures VirtualNonce(stateNonce, pendingNonce, a) ==
        var v := VirtualNonce(stateNonce, old(pendingNonce), a);
        if v <= nonce then v else if nonce < stateNonce(a) then stateNonce(a) else nonce
    {
      var v := GetPendingNonce(a);
      if v > nonce { pendingNonce := pendingNonce[a := nonce]; }
    }

    /** Takes a transaction out of the lookup and tells the price index. */
    method Retire(hash: Hash)
      requires priced.all == all && all.Valid() && priced.Valid()
      modifies all, priced
      ensures all.Valid() && priced.Valid() && all.txs == old(all.txs) - {hash}
      ensures old(priced.Covers()) ==> priced.Covers()
      ensures priced.items == old(priced.items) || Once(priced.items)
      ensures if old(priced.stales) + 1 <= |old(priced.items)| / 4
              then priced.items == old(priced.items) && priced.stales == old(priced.stales) + 1
              else priced.stales == 0
    {
      hide TxLookup.Valid, TxPricedList.Valid;
      all.Remove(hash);
      priced.Removed();
    }

    /** Puts an unknown transaction into the lookup and the price index. */
    method Register(tx: Tx)
      requires priced.all == all && all.Valid() && priced.Valid()
      modifies all, priced
      ensures all.Valid() && priced.Valid() && priced.stales == old(priced.stales)
      ensures all.txs == if HashOf(tx) in old(all.txs) then old(all.txs) else old(all.txs)[HashOf(tx) := tx]
      ensures old(priced.Covers()) ==> priced.Covers()
      ensures if HashOf(tx) in old(all.txs) then priced.items == old(priced.items)
              else multiset(priced.items) == multiset(old(priced.items)) + multiset{tx}
    {
      hide TxLookup.Valid, TxPricedList.Valid;
      if HashOf(tx) !in all.txs {
        all.Add(tx);
        priced.Put(tx);
      }
    }

    /** Drops one transaction in limbo from the lookup and tells the price index. */
    method Forget(tx: Tx, ghost limbo: Lists)
      requires Holding(limbo) && InList(limbo, tx)
      modifies all, priced
      ensures Holding(Without(limbo, tx))
      ensures old(priced.Covers()) ==> priced.Covers()
    {
      ForgetOne(pending, queue, limbo, all.txs, tx);
      Retire(HashOf(tx));
    }

    method ForgetAt(a: Address, left: Items, n: nat)
      requires Holding(Single(a, left)) && n in left && priced.Covers()
      modifies all, priced
      ensures Holding(Single(a, left - {n})) && priced.Covers() && |left - {n}| < |left|
    {
      LimboMember(pending, queue, a, left, n, all.txs);
      Forget(left[n], Single(a, left));
    }

    /** Drops everything in limbo, in any order. */
    method ForgetAll(a: Address, gone: Items)
      requires Holding(Single(a, gone)) && priced.Covers()
      modifies all, priced
      ensures Valid()
    {
      var left := gone;
      while left != map[]
        invariant Holding(Single(a, left)) && priced.Covers()
        decreases |left|
      {
        var n :| n in left;
        ForgetAt(a, left, n);
        left := left - {n};
      }
      Emptied(pending, queue, a, Single(a, left), all.txs);
    }

    /**
     Files `tx` in the queue unless a better transaction is at its nonce. A transaction that
     is already known is only filed; a new one enters the lookup and the price index.
     */
    method EnqueueTx(tx: Tx) returns (replaced: bool, ok: bool)
      requires priced.all == all && all.Valid() && priced.Valid()
      modifies this`queue, this`beats, all, priced
      ensures all.Valid() && priced.Valid()
      ensures ok <==> (HasNonce(old(queue), tx.sender, tx.nonce) ==>
                         Replaces(tx, old(queue)[tx.sender][tx.nonce], isMagma))
      ensures !ok ==>
        queue == old(queue) && all.txs == old(all.txs) && priced.items == old(priced.items) &&
        priced.stales == old(priced.stales)
      ensures ok ==> queue == PutIn(old(queue), tx)
      ensures ok ==> var kept := DropPrev(old(queue), old(all.txs), tx);
                     all.txs == if HashOf(tx) in kept then kept else kept[HashOf(tx) := tx]
      ensures ok && old(priced.Covers()) ==> priced.Covers()
      ensures ok && HashOf(tx) in old(all.txs) && !HasNonce(old(queue), tx.sender, tx.nonce) ==>
                priced.items == old(priced.items) && priced.stales == old(priced.stales)
      ensures replaced <==> ok && HasNonce(old(queue), tx.sender, tx.nonce)
      ensures ok ==>
        tx.sender in beats && beats[tx.sender] == if tx.sender in old(beats) then old(beats)[tx.sender] else now
      ensures beats == if ok then Beat(old(beats), tx.sender, now) else old(beats)
      ensures HashOf(tx) !in old(all.txs) && !HasNonce(old(queue), tx.sender, tx.nonce) ==>
        multiset(priced.items) == multiset(old(priced.items)) + multiset{tx} && priced.stales == old(priced.stales)
    {
      hide TxLookup.Valid, TxPricedList.Valid, TxPricedList.Covers, PutIn, Once;
      replaced := HasNonce(queue, tx.sender, tx.nonce);
      if replaced {
        var prev := queue[tx.sender][tx.nonce];
        if !Replaces(tx, prev, isMagma) { return false, false; }
        queue := PutIn(queue, tx);
        Retire(HashOf(prev));
      } else {
        queue := PutIn(queue, tx);
      }
      Register(tx);
      if tx.sender !in beats { beats := beats[tx.sender := now]; }
      ok := true;
    }

    method RequeueAt(a: Address, left: Items, n: nat)
      requires Holding(Single(a, left)) && n in left
      modifies this`queue, this`beats, all, priced
      ensures Holding(Single(a, left - {n})) && |left - {n}| < |left|
      ensures queue == PutIn(old(queue), left[n]) && left[n].sender == a && left[n].nonce == n
      ensures all.txs == old(all.txs) && priced.items == old(priced.items) && priced.stales == old(priced.stales)
      ensures beats == Beat(old(beats), a, now)
    {
      LimboMember(pending, queue, a, left, n, all.txs);
      RequeueStep(pending, queue, a, left, n, all.txs);
      var replaced, ok := EnqueueTx(left[n]);
    }

    /** Puts everything in limbo back into the queue; nothing is lost and the lookup does not change. */
    method RequeueAll(a: Address, back: Items)
      requires Holding(Single(a, back))
      modifies this`queue, this`beats, all, priced
      ensures Holding(map[])
      ensures queue == MergeIn(old(queue), a, back)
      ensures all.txs == old(all.txs) && priced.items == old(priced.items) && priced.stales == old(priced.stales)
      ensures beats == BeatFor(old(beats), a, now, back)
    {
      hide TxPool.Holding, MergedSoFar, PutIn, Single;
      var left := back;
      NothingMerged(queue, a, back);
      while left != map[]
        invariant Holding(Single(a, left)) && MergedSoFar(old(queue), queue, a, back, left)
        invariant all.txs == old(all.txs) && priced.items == old(priced.items) && priced.stales == old(priced.stales)
        invariant beats == if left == back then old(beats) else Beat(old(beats), a, now)
        decreases |left|
      {
        var n :| n in left;
        MergeStep(old(queue), queue, a, back, left, n);
        RequeueAt(a, left, n);
        left := left - {n};
      }
      AllMerged(old(queue), queue, a, back);
      LimboEmpty(a);
    }

    lemma LimboEmpty(a: Address)
      requires Holding(Single(a, map[]))
      ensures Holding(map[])
    {
      Emptied(pending, queue, a, Single(a, map[]), all.txs);
    }

    /**
     Removes one pooled transaction. A pending one takes everything above it in its
     account back to the queue and lowers the virtual nonce to its own.
     */
    method RemoveTx(hash: Hash, outofbound: bool)
      requires Holding(map[])
      modifies this`pending, this`queue, this`pendingNonce, this`beats, all, priced
      ensures Holding(map[]) && all.txs == old(all.txs) - {hash}
      ensures hash !in old(all.txs) ==>
        pending == old(pending) && queue == old(queue) && pendingNonce == old(pendingNonce) && beats == old(beats) &&
        priced.items == old(priced.items)
      ensures hash in old(all.txs) ==>
        pending == PendingWithout(old(pending), old(all.txs)[hash]) &&
        queue == QueueWithout(old(pending), old(queue), old(all.txs)[hash]) &&
        beats == BeatsWithout(old(pending), old(beats), old(all.txs)[hash], now)
      ensures hash in old(all.txs) && !HasNonce(old(pending), old(all.txs)[hash].sender, old(all.txs)[hash].nonce) ==>
        pendingNonce == old(pendingNonce)
      ensures old(GapFree()) ==> GapFree()
      ensures !outofbound ==> priced.items == old(priced.items) && priced.stales == old(priced.stales)
      ensures outofbound && old(priced.Covers()) ==> priced.Covers()
      ensures priced.items == old(priced.items) || Once(priced.items)
      ensures old(priced.stales) + 1 <= |old(priced.items)| / 4 ==> priced.items == old(priced.items)
      ensures outofbound && old(priced.stales) + 1 <= |old(priced.items)| / 4 && hash in old(all.txs) ==>
        priced.stales == old(priced.stales) + 1
      ensures outofbound && hash in old(all.txs) ==> priced.stales <= |priced.items| / 4
      ensures StaysAtState(stateNonce, old(pendingNonce), pendingNonce)
      ensures hash in old(all.txs) ==>
        var t := old(all.txs)[hash];
        Lowered(stateNonce, old(pendingNonce), pendingNonce, t, HasNonce(old(pending), t.sender, t.nonce))
    {
      if hash !in all.txs { return; }
      var tx := all.txs[hash];
      assert HashOf(tx) == hash;
      hide Consistent, Gapless, Lowered;
      ghost var before := all.txs;
      if outofbound { Retire(hash); } else { all.Remove(hash); }
      Unfile(tx, before);
    }

    /** Removes one pooled transaction from outside. */
    method Remove(hash: Hash)
      requires Valid()
      modifies this`pending, this`queue, this`pendingNonce, this`beats, all, priced
      ensures Valid() && (old(GapFree()) ==> GapFree())
      ensures hash in old(all.txs) ==> View() == RemoveOne(old(View()), old(all.txs)[hash])
      ensures hash !in old(all.txs) ==> View() == old(View()) && pendingNonce == old(pendingNonce)
      ensures hash in old(all.txs) ==>
        var t := old(all.txs)[hash];
        Lowered(stateNonce, old(pendingNonce), pendingNonce, t, HasNonce(old(pending), t.sender, t.nonce))
      ensures forall keep :: old(Heard(keep)) ==> Heard(keep)
      ensures old(priced.stales) + 1 <= |old(priced.items)| / 4 ==> priced.items == old(priced.items)
      ensures old(priced.stales) + 1 <= |old(priced.items)| / 4 && hash in old(all.txs) ==>
        priced.stales == old(priced.stales) + 1
      ensures hash in old(all.txs) ==> |priced.items| <= |all.txs| + |priced.items| / 4
    {
      hide PendingWithout, QueueWithout, BeatsWithout, Gapless, VirtualNonce, Consistent, TxLookup.Valid,
        TxPricedList.Valid, StaysAtState, Once, AllHeard, Lowered;
      WellFiledTxs();
      ghost var v := View();
      RemoveTx(hash, true);
      if hash in v.txs {
        forall keep | old(Heard(keep)) ensures Heard(keep) { RemovalHeard(v, v.txs[hash], keep); }
      }
    }

    /** Takes a transaction that has just left the lookup out of its list. */
    method Unfile(tx: Tx, ghost before: map<Hash, Tx>)
      requires priced.all == all && all.Valid() && priced.Valid()
      requires Consistent(pending, queue, map[], before) && HashOf(tx) in before && all.txs == before - {HashOf(tx)}
      modifies this`pending, this`queue, this`pendingNonce, this`beats, all, priced
      ensures Holding(map[]) && all.txs == old(all.txs) && priced.items == old(priced.items)
      ensures priced.stales == old(priced.stales)
      ensures pending == PendingWithout(old(pending), tx) && queue == QueueWithout(old(pending), old(queue), tx)
      ensures beats == BeatsWithout(old(pending), old(beats), tx, now)
      ensures !HasNonce(old(pending), tx.sender, tx.nonce) ==> pendingNonce == old(pendingNonce)
      ensures old(GapFree()) ==> GapFree()
      ensures StaysAtState(stateNonce, old(pendingNonce), pendingNonce)
      ensures Lowered(stateNonce, old(pendingNonce), pendingNonce, tx, HasNonce(old(pending), tx.sender, tx.nonce))
    {
      hide Consistent, TxLookup.Valid, TxPricedList.Valid, Gapless, MergeIn, TrimTo, From, Below, VirtualNonce;
      RemovalSplits(pending, queue, before, tx);
      ghost var q' := QueueWithout(pending, queue, tx);
      if HasNonce(pending, tx.sender, tx.nonce) {
        var back := From(pending[tx.sender], tx.nonce + 1);
        pending := PendingWithout(pending, tx);
        RequeueAll(tx.sender, back);
        assert queue == q';
        UpdatePendingNonce(tx.sender, tx.nonce);
        GaplessBelow(old(pending), stateNonce, old(pendingNonce), pendingNonce, tx);
      } else if tx.sender in queue {
        queue := TrimTo(queue, tx.sender, ItemsOf(queue, tx.sender) - {tx.nonce});
        assert queue == q';
      }
    }

    /**
     Files `tx` in the pending lists unless a better transaction is at its nonce, in which
     case it leaves the pool; moves the virtual nonce past it.
     */
    method PromoteTx(tx: Tx) returns (ok: bool)
      requires priced.all == all && all.Valid() && priced.Valid()
      modifies this`pending, this`beats, this`pendingNonce, all, priced
      ensures all.Valid() && priced.Valid()
      ensures ok <==> (HasNonce(old(pending), tx.sender, tx.nonce) ==>
                         Replaces(tx, old(pending)[tx.sender][tx.nonce], isMagma))
      ensures !ok ==>
        pending == old(pending) && pendingNonce == old(pendingNonce) && all.txs == old(all.txs) - {HashOf(tx)}
      ensures beats == if ok then old(beats)[tx.sender := now] else old(beats)
      ensures ok ==>
        pending == PutIn(old(pending), tx) && pendingNonce == SetNonce(old(pendingNonce), tx.sender, tx.nonce + 1)
      ensures ok ==> var kept := DropPrev(old(pending), old(all.txs), tx);
                     all.txs == if HashOf(tx) in kept then kept else kept[HashOf(tx) := tx]
      ensures old(priced.Covers()) ==> priced.Covers()
      ensures ok && HashOf(tx) in old(all.txs) && !HasNonce(old(pending), tx.sender, tx.nonce) ==>
                priced.items == old(priced.items) && priced.stales == old(priced.stales)
    {
      hide TxLookup.Valid, TxPricedList.Valid, TxPricedList.Covers, PutIn, SetNonce, Once;
      if HasNonce(pending, tx.sender, tx.nonce) {
        var prev := pending[tx.sender][tx.nonce];
        if !Replaces(tx, prev, isMagma) {
          Retire(HashOf(tx));
          return false;
        }
        pending := PutIn(pending, tx);
        Retire(HashOf(prev));
      } else {
        pending := PutIn(pending, tx);
      }
      Register(tx);
      beats := beats[tx.sender := now];
      pendingNonce := SetNonce(pendingNonce, tx.sender, tx.nonce + 1);
      ok := true;
    }

    method PromoteAt(a: Address, left: Items, n: nat)
      requires Holding(Single(a, left)) && n in left
      modifies this`pending, this`beats, this`pendingNonce, all, priced
      ensures Holding(Single(a, left - {n}))
      ensures pending == PutIn(old(pending), left[n]) && left[n].sender == a && left[n].nonce == n
      ensures pendingNonce == SetNonce(old(pendingNonce), a, n + 1) && beats == old(beats)[a := now]
      ensures all.txs == old(all.txs) && priced.items == old(priced.items) && priced.stales == old(priced.stales)
    {
      hide Consistent, TxLookup.Valid, TxPricedList.Valid, PutIn, SetNonce;
      LimboMember(pending, queue, a, left, n, all.txs);
      FileOne(pending, queue, Single(a, left), all.txs, left[n]);
      var ok := PromoteTx(left[n]);
    }

    /** Promotes a run of consecutive nonces in limbo; every one of them is accepted. */
    method PromoteAll(a: Address, run: Items, lo: nat, hi: nat)
      requires Holding(Single(a, run)) && lo <= hi && Fills(run, lo, hi)
      modifies this`pending, this`beats, this`pendingNonce, all, priced
      ensures Holding(map[])
      ensures pending == MergeIn(old(pending), a, run)
      ensures pendingNonce == if lo < hi then SetNonce(old(pendingNonce), a, hi) else old(pendingNonce)
      ensures beats == if lo < hi then old(beats)[a := now] else old(beats)
      ensures all.txs == old(all.txs) && priced.items == old(priced.items) && priced.stales == old(priced.stales)
    {
      hide Consistent, TxLookup.Valid, TxPricedList.Valid, MergeIn, PutIn, SetNonce, From, Below;
      var n := lo;
      RunEnds(pending, a, run, lo, hi);
      while n < hi
        invariant lo <= n <= hi
        invariant Holding(Single(a, From(run, n)))
        invariant pending == MergeIn(old(pending), a, Below(run, n))
        invariant pendingNonce == if lo < n then SetNonce(old(pendingNonce), a, n) else old(pendingNonce)
        invariant beats == if lo < n then old(beats)[a := now] else old(beats)
        invariant all.txs == old(all.txs) && priced.items == old(priced.items) && priced.stales == old(priced.stales)
      {
        RunStep(old(pending), a, run, lo, hi, n);
        PromoteAt(a, From(run, n), n);
        SetTwice(old(pendingNonce), a, n, n + 1);
        n := n + 1;
      }
      Emptied(pending, queue, a, Single(a, From(run, hi)), all.txs);
    }

    /** Cuts an account's queue down to `keep`, dropping the rest from the pool. */
    method KeepQueued(a: Address, keep: Items)
      requires Valid() && a in queue
      requires forall n :: n in keep ==> n in queue[a] && queue[a][n] == keep[n]
      modifies this`queue, all, priced
      ensures Valid() && queue == old(queue)[a := keep]
    {
      hide Consistent, TxLookup.Valid, TxPricedList.Valid;
      var gone := queue[a] - keep.Keys;
      assert keep + gone == queue[a];
      Swapped(pending, queue, map[], all.txs);
      SetAside(queue, pending, all.txs, a, keep, gone);
      queue := queue[a := keep];
      Swapped(pending, queue, Single(a, gone), all.txs);
      ForgetAll(a, gone);
    }

    /** Cuts an account's pending list down to `keep`, dropping the rest from the pool. */
    method KeepPending(a: Address, keep: Items)
      requires Valid() && a in pending
      requires forall n :: n in keep ==> n in pending[a] && pending[a][n] == keep[n]
      modifies this`pending, all, priced
      ensures Valid() && pending == old(pending)[a := keep]
    {
      hide Consistent, TxLookup.Valid, TxPricedList.Valid;
      var gone := pending[a] - keep.Keys;
      assert keep + gone == pending[a];
      SetAside(pending, queue, all.txs, a, keep, gone);
      pending := pending[a := keep];
      ForgetAll(a, gone);
    }

    /** Moves an account's ready run from its queue to its pending list. */
    method PromoteRun(a: Address) returns (ghost lo: nat, ghost hi: nat)
      requires Valid() && a in queue && forall n :: n in queue[a] ==> n >= stateNonce(a)
      modifies this`pending, this`queue, this`beats, this`pendingNonce, all, priced
      ensures Valid()
      ensures ReadyBounds(old(queue)[a], VirtualNonce(stateNonce, old(pendingNonce), a), PriceFloor(isMagma, gasPrice),
                          lo, hi)
      ensures pending == MergeIn(old(pending), a, Below(old(queue)[a], hi))
      ensures queue == old(queue)[a := From(old(queue)[a], hi)]
      ensures beats == if ItemsOf(pending, a) == ItemsOf(old(pending), a) then old(beats) else old(beats)[a := now]
      ensures VirtualMoved(stateNonce, old(pendingNonce), pendingNonce, a, lo, hi)
      ensures old(GapFree()) ==> GapFree()
    {
      hide Consistent, TxLookup.Valid, TxPricedList.Valid, Gapless, ReadyBounds, Fills, VirtualNonce, VirtualMoved,
        From, Below, MergeIn;
      var floor := PriceFloor(isMagma, gasPrice);
      var v := GetPendingNonce(a);
      var items := queue[a];
      var from, to := ReadyRange(items, v, floor);
      lo, hi := from, to;
      ReadyFills(items, v, floor, lo, hi);
      RunGrows(pending, queue, all.txs, a, lo, hi);
      Swapped(pending, queue, map[], all.txs);
      SetAside(queue, pending, all.txs, a, From(items, hi), Below(items, hi));
      ReadyStartsAtVirtual(pending, queue, all.txs, a, stateNonce, old(pendingNonce), v, lo, hi, floor);
      queue := queue[a := From(items, to)];
      Swapped(pending, queue, Single(a, Below(items, hi)), all.txs);
      ghost var pn := pendingNonce;
      SameVirtual(pending, stateNonce, old(pendingNonce), pn);
      PromoteAll(a, Below(items, to), from, to);
      ReadyMovesVirtual(stateNonce, old(pendingNonce), pn, a, items, v, floor, lo, hi);
      GaplessExtends(old(pending), stateNonce, pn, a, Below(items, hi), lo, hi);
    }

    /**
     Works one account's queue: drops what is below the state nonce or not payable, promotes
     the ready run, and caps what is left unless the account is local.
     */
    method PromoteAccount(a: Address, unpayable: Tx -> bool) returns (ghost lo: nat, ghost hi: nat)
      requires Valid() && a in queue
      modifies this`pending, this`queue, this`beats, this`pendingNonce, all, priced
      ensures Valid()
      ensures var live := Unless(From(old(queue)[a], stateNonce(a)), unpayable);
        && ReadyBounds(live, VirtualNonce(stateNonce, old(pendingNonce), a), PriceFloor(isMagma, gasPrice), lo, hi)
        && pending == MergeIn(old(pending), a, Below(live, hi))
        && queue == TrimTo(old(queue), a, ItemsOf(queue, a))
        && CappedTo(From(live, hi), ItemsOf(queue, a), a in locals, config.nonExecSlotsAccount)
      ensures beats == if ItemsOf(pending, a) == ItemsOf(old(pending), a) then old(beats) else old(beats)[a := now]
      ensures VirtualMoved(stateNonce, old(pendingNonce), pendingNonce, a, lo, hi)
      ensures old(GapFree()) ==> GapFree()
    {
      hide Consistent, TxLookup.Valid, TxPricedList.Valid, TxPricedList.Covers, Gapless, ReadyBounds, VirtualNonce,
        VirtualMoved, MergeIn, TrimTo, CappedTo, PriceFloor;
      DropUnusable(a, unpayable);
      ghost var live := queue[a];
      lo, hi := PromoteRun(a);
      CapQueue(a);
      TrimAgain(old(queue), live, From(live, hi), a, ItemsOf(queue, a));
    }

    /** Drops an account's queued transactions that are below its state nonce or not payable. */
    method DropUnusable(a: Address, unpayable: Tx -> bool)
      requires Valid() && a in queue
      modifies this`queue, all, priced
      ensures Valid()
      ensures queue == old(queue)[a := Unless(From(old(queue)[a], stateNonce(a)), unpayable)]
    {
      hide Consistent, TxLookup.Valid, TxPricedList.Valid, TxPricedList.Covers;
      KeepQueued(a, From(queue[a], stateNonce(a)));
      KeepQueued(a, Unless(queue[a], unpayable));
    }

    /** Caps the queue of an account that is not local, and deletes an empty queue. */
    method CapQueue(a: Address)
      requires Valid() && a in queue
      modifies this`queue, all, priced
      ensures Valid() && queue == TrimTo(old(queue), a, ItemsOf(queue, a))
      ensures CappedTo(old(queue)[a], ItemsOf(queue, a), a in locals, config.nonExecSlotsAccount)
    {
      hide Consistent, TxLookup.Valid, TxPricedList.Valid, TxPricedList.Covers, TrimTo;
      var keep := queue[a];
      if a !in locals {
        keep := LowestPart(queue[a], config.nonExecSlotsAccount);
        KeepQueued(a, keep);
      }
      assert queue == old(queue)[a := keep];
      TrimAgain(old(queue), keep, keep, a, keep);
      DropEmptyQueue(a);
    }

    /** Deletes an account's queue if it is empty. */
    method DropEmptyQueue(a: Address)
      requires Valid() && a in queue
      modifies this`queue
      ensures Valid() && queue == TrimTo(old(queue), a, old(queue)[a]) && ItemsOf(queue, a) == old(queue)[a]
    {
      hide Consistent, TxLookup.Valid, TxPricedList.Valid;
      if queue[a] == map[] {
        SameWithout(pending, queue, a, all.txs);
        queue := queue - {a};
      }
    }

    /** Drops the highest pending transaction of an account and lowers its virtual nonce. */
    method CapOne(a: Address)
      requires Valid() && a in pending && pending[a] != map[]
      modifies this`pending, this`pendingNonce, all, priced
      ensures Valid() && a in pending && pending == old(pending)[a := pending[a]]
      ensures LowestOf(old(pending)[a], pending[a]) && |pending[a]| == |old(pending)[a]| - 1
      ensures old(GapFree()) ==> GapFree()
      ensures VirtualsCut(stateNonce, old(pendingNonce), pendingNonce, old(pending), pending)
    {
      hide Consistent, TxLookup.Valid, TxPricedList.Valid, TxPricedList.Covers, Gapless, VirtualNonce, TrimTo, LowestOf,
        PendingWithout, VirtualsCut;
      var items := pending[a];
      var lo, hi := NonceRange(items);
      TopFacts(pending, queue, all.txs, a, hi);
      KeepPending(a, items - {hi});
      UpdatePendingNonce(a, hi);
      CutsTop(stateNonce, old(pendingNonce), pendingNonce, old(pending), a, hi);
      GaplessBelow(old(pending), stateNonce, old(pendingNonce), pendingNonce, items[hi]);
      TrimmedGapless(old(pending), a, items - {hi}, stateNonce, pendingNonce);
    }

    /** Drops the highest pending transaction of each victim in turn. */
    method Shave(victims: seq<Address>, ghost p0: Lists, ghost level: nat)
      requires Valid() && Distinct(victims) && CutTo(p0, pending, Members(victims), level) && level > 0
      modifies this`pending, this`pendingNonce, all, priced
      ensures Valid() && CutTo(p0, pending, Members(victims), level - 1)
      ensures Total(pending) == old(Total(pending)) - |victims|
      ensures old(GapFree()) ==> GapFree()
      ensures VirtualsCut(stateNonce, old(pendingNonce), pendingNonce, old(pending), pending)
    {
      hide TxPool.Valid, TxPool.GapFree, LowestOf, CutTo, Total, VirtualsCut;
      NothingCutVirtually(stateNonce, pendingNonce, pending);
      ShaveBegins(p0, pending, victims, level);
      for i := 0 to |victims|
        invariant Valid() && ShavedUpTo(p0, pending, victims, i, level)
        invariant Total(pending) == old(Total(pending)) - i
        invariant old(GapFree()) ==> GapFree()
        invariant VirtualsCut(stateNonce, old(pendingNonce), pendingNonce, old(pending), pending)
      {
        assert victims[i] in Members(victims);
        ghost var before, pn := pending, pendingNonce;
        CapOne(victims[i]);
        CutsCompose(stateNonce, old(pendingNonce), pn, pendingNonce, old(pending), before, pending);
        TotalReplaced(before, victims[i], pending[victims[i]]);
        ShaveStep(p0, before, victims, i, level, pending[victims[i]]);
      }
      ShaveEnds(p0, pending, victims, level);
    }

    /** Shaves the victims, all at one level, until the limit is met or the threshold is reached. */
    method LowerTo(victims: seq<Address>, threshold: nat, count: nat, ghost p0: Lists, ghost start: nat)
      returns (total: nat, ghost level: nat)
      requires Valid() && victims != [] && Distinct(victims) && CutTo(p0, pending, Members(victims), start)
      requires threshold <= start && count == Total(pending) && count > config.execSlotsAll
      modifies this`pending, this`pendingNonce, all, priced
      ensures Valid() && CutTo(p0, pending, Members(victims), level)
      ensures threshold <= level <= start && total == Total(pending)
      ensures total > config.execSlotsAll ==> level == threshold
      ensures total <= config.execSlotsAll ==> level < start && config.execSlotsAll < total + |victims|
      ensures old(GapFree()) ==> GapFree()
      ensures VirtualsCut(stateNonce, old(pendingNonce), pendingNonce, old(pending), pending)
    {
      hide TxPool.Valid, TxPool.GapFree, CutTo, Total, Distinct, VirtualsCut;
      NothingCutVirtually(stateNonce, pendingNonce, pending);
      var last := victims[|victims| - 1];
      CutLength(p0, pending, victims, start);
      total, level := count, start;
      while total > config.execSlotsAll && |pending[last]| > threshold
        invariant Valid() && CutTo(p0, pending, Members(victims), level)
        invariant threshold <= level <= start && total == Total(pending) && last in pending && |pending[last]| == level
        invariant total <= config.execSlotsAll ==> level < start && config.execSlotsAll < total + |victims|
        invariant old(GapFree()) ==> GapFree()
        invariant VirtualsCut(stateNonce, old(pendingNonce), pendingNonce, old(pending), pending)
        decreases level
      {
        ghost var before, pn := pending, pendingNonce;
        Shave(victims, p0, level);
        CutsCompose(stateNonce, old(pendingNonce), pn, pendingNonce, old(pending), before, pending);
        TotalNonNegative(pending);
        level := level - 1;
        total := total - |victims|;
        CutLength(p0, pending, victims, level);
      }
    }

    /**
     When more transactions are pending than the limit allows, lowers the longest non-local
     lists to a common level: the highest that fits, but not below the account allowance.
     */
    method EqualizePending() returns (ghost level: nat)
      requires Valid()
      modifies this`pending, this`pendingNonce, all, priced
      ensures Valid()
      ensures PendingLimited(old(pending), pending, locals, config, level)
      ensures old(GapFree()) ==> GapFree()
      ensures VirtualsCut(stateNonce, old(pendingNonce), pendingNonce, old(pending), pending)
      ensures old(Total(pending)) <= config.execSlotsAll ==> pendingNonce == old(pendingNonce)
    {
      hide TxPool.Valid, TxPool.GapFree, VirtualsCut, WaterFilled, Tight, Total;
      level := 0;
      NothingCutVirtually(stateNonce, pendingNonce, pending);
      var total := CountTxs(pending);
      if total > config.execSlotsAll {
        level := LowerOffenders(total);
      }
    }

    method LowerOffenders(count: nat) returns (ghost level: nat)
      requires Valid() && count == Total(pending) && count > config.execSlotsAll
      modifies this`pending, this`pendingNonce, all, priced
      ensures Valid()
      ensures level >= config.execSlotsAccount && WaterFilled(old(pending), pending, locals, level)
      ensures Total(pending) <= config.execSlotsAll ==> Tight(old(pending), pending, locals, level, config.execSlotsAll)
      ensures Total(pending) > config.execSlotsAll ==> level == config.execSlotsAccount
      ensures old(GapFree()) ==> GapFree()
      ensures VirtualsCut(stateNonce, old(pendingNonce), pendingNonce, old(pending), pending)
    {
      hide TxPool.Valid, TxPool.GapFree, LowestOf, CutTo, Total, WaterFilled, Above, VirtualsCut;
      NothingCutVirtually(stateNonce, pendingNonce, pending);
      ghost var p0 := pending;
      var total := count;
      var spammers := Offenders(pending, locals, config.execSlotsAccount);
      var offenders := [];
      level := count + config.execSlotsAccount + 1;
      LevelingBegins(p0, locals, config.execSlotsAccount, level);
      while total > config.execSlotsAll && spammers != {}
        invariant Valid() && total == Total(pending) && level >= config.execSlotsAccount
        invariant total > config.execSlotsAll ==>
          Leveling(p0, pending, locals, config.execSlotsAccount, offenders, spammers, level)
        invariant total <= config.execSlotsAll ==> Tight(p0, pending, locals, level, config.execSlotsAll)
        invariant old(GapFree()) ==> GapFree()
        invariant VirtualsCut(stateNonce, old(pendingNonce), pendingNonce, p0, pending)
        decreases |spammers|
      {
        ghost var before, pn := pending, pendingNonce;
        total, offenders, spammers, level := TakeOffender(total, offenders, spammers, p0, level);
        CutsCompose(stateNonce, old(pendingNonce), pn, pendingNonce, p0, before, pending);
      }
      if total > config.execSlotsAll {
        if |offenders| > 0 {
          ghost var q, pn, from := pending, pendingNonce, level;
          total, level := LowerTo(offenders, config.execSlotsAccount, total, p0, level);
          CutsCompose(stateNonce, old(pendingNonce), pn, pendingNonce, p0, q, pending);
          if total > config.execSlotsAll {
            LevelingBottoms(p0, q, pending, locals, config.execSlotsAccount, offenders, from);
          } else {
            LevelingStops(p0, q, pending, locals, config.execSlotsAccount, offenders, {}, from, level,
                          config.execSlotsAll);
          }
        } else {
          NobodyCut(p0, pending, level, config.execSlotsAccount);
          LevelingBottoms(p0, pending, pending, locals, config.execSlotsAccount, [], level);
          level := config.execSlotsAccount;
        }
      }
    }

    /** Takes the longest remaining candidate and lowers those taken before it to its length. */
    method TakeOffender(count: nat, taken: seq<Address>, left: set<Address>, ghost p0: Lists, ghost start: nat)
      returns (total: nat, offenders: seq<Address>, spammers: set<Address>, ghost level: nat)
      requires Valid() && count == Total(pending) && count > config.execSlotsAll && left != {}
      requires Leveling(p0, pending, locals, config.execSlotsAccount, taken, left, start)
      modifies this`pending, this`pendingNonce, all, priced
      ensures Valid() && total == Total(pending) && level >= config.execSlotsAccount && |spammers| < |left|
      ensures total > config.execSlotsAll ==>
        Leveling(p0, pending, locals, config.execSlotsAccount, offenders, spammers, level)
      ensures total <= config.execSlotsAll ==> Tight(p0, pending, locals, level, config.execSlotsAll)
      ensures old(GapFree()) ==> GapFree()
      ensures VirtualsCut(stateNonce, old(pendingNonce), pendingNonce, old(pending), pending)
    {
      hide TxPool.Valid, Gapless, CutTo, Tight, Total, VirtualsCut;
      NothingCutVirtually(stateNonce, pendingNonce, pending);
      CandidatesUntouched(p0, pending, locals, config.execSlotsAccount, taken, left, start);
      var offender := PickLongest(left, pending);
      offenders, spammers := taken + [offender], left - {offender};
      total, level := count, |p0[offender]|;
      ghost var q := pending;
      if |offenders| > 1 {
        total, level := LowerTo(taken, |pending[offender]|, count, p0, start);
      } else {
        NothingCut(p0, pending, taken, start, level);
      }
      if total > config.execSlotsAll {
        LevelingTakes(p0, q, pending, locals, config.execSlotsAccount, taken, left, start, offender);
      } else {
        LevelingStops(p0, q, pending, locals, config.execSlotsAccount, taken, left, start, level, config.execSlotsAll);
      }
    }

    /** Removes one queued transaction through RemoveTx. */
    method RemoveQueuedTx(a: Address, tx: Tx)
      requires Valid() && HasNonce(queue, a, tx.nonce) && queue[a][tx.nonce] == tx
      modifies this`pending, this`queue, this`pendingNonce, this`beats, all, priced
      ensures Valid() && pending == old(pending) && pendingNonce == old(pendingNonce) && beats == old(beats)
      ensures queue == TrimTo(old(queue), a, old(queue)[a] - {tx.nonce})
    {
      hide TxLookup.Valid, TxPricedList.Valid;
      QueuedIsPooled(pending, queue, all.txs, a, tx);
      hide Consistent;
      RemoveTx(HashOf(tx), true);
    }

    /** Removes some of an account's queued transactions, one by one. */
    method RemoveListed(a: Address, gone: seq<Tx>)
      requires Valid() && a in queue && WellKeyed(queue[a])
      requires forall t :: t in gone ==> t.nonce in queue[a] && queue[a][t.nonce] == t
      requires forall i, j :: 0 <= i < j < |gone| ==> gone[i].nonce != gone[j].nonce
      modifies this`pending, this`queue, this`pendingNonce, this`beats, all, priced
      ensures Valid() && pending == old(pending) && pendingNonce == old(pendingNonce) && beats == old(beats)
      ensures queue == TrimSome(old(queue), a, NoncesOf(gone))
    {
      hide Consistent, TxLookup.Valid, TxPricedList.Valid, TxPricedList.Covers, TrimTo, TrimSome;
      ghost var q0 := queue;
      TrimNothing(q0, a);
      assert NoncesOf(gone[..0]) == {};
      for i := 0 to |gone|
        invariant Valid() && pending == old(pending) && pendingNonce == old(pendingNonce) && beats == old(beats)
        invariant queue == TrimSome(q0, a, NoncesOf(gone[..i]))
      {
        TrimMore(q0, a, gone, i);
        RemoveQueuedTx(a, gone[i]);
      }
      assert gone[..|gone|] == gone;
    }

    /**
     When more transactions are queued than the limit allows, empties non-local queues, the
     most recently heard from first, and cuts the last one only as far as needed.
     */
    method TrimQueue()
      requires Valid()
      modifies this`pending, this`queue, this`pendingNonce, this`beats, all, priced
      ensures Valid() && pending == old(pending) && pendingNonce == old(pendingNonce) && beats == old(beats)
      ensures QueueLimited(old(queue), queue, locals, old(beats), config)
    {
      hide Consistent, TxLookup.Valid, TxPricedList.Valid, TxPricedList.Covers, Total, Drained;
      var queued := CountTxs(queue);
      if queued <= config.nonExecSlotsAll { return; }
      ghost var q0 := queue;
      var addresses := set a | a in queue && a !in locals;
      var drop: nat := queued - config.nonExecSlotsAll;
      var heard := beats;
      DrainingBegins(q0, locals, heard);
      while drop > 0 && addresses != {}
        invariant Valid() && pending == old(pending) && pendingNonce == old(pendingNonce) && beats == old(beats)
        invariant Total(queue) == config.nonExecSlotsAll + drop
        invariant drop > 0 ==> Draining(q0, queue, locals, heard, addresses)
        invariant drop == 0 ==> Drained(q0, queue, locals, heard)
        decreases |addresses|
      {
        drop, addresses := TrimLatest(drop, addresses, heard, q0);
      }
      if drop > 0 { DrainingEnds(q0, queue, locals, heard, addresses); }
    }

    /** Empties the queue of the most recently heard account, or cuts its highest nonces if that is enough. */
    method TrimLatest(overflow: nat, left: set<Address>, heard: map<Address, nat>, ghost q0: Lists)
      returns (drop: nat, addresses: set<Address>)
      requires Valid() && overflow > 0 && left != {} && Draining(q0, queue, locals, heard, left)
      modifies this`pending, this`queue, this`pendingNonce, this`beats, all, priced
      ensures Valid() && pending == old(pending) && pendingNonce == old(pendingNonce) && beats == old(beats)
      ensures |addresses| < |left|
      ensures Total(queue) == old(Total(queue)) - overflow + drop
      ensures drop > 0 ==> Draining(q0, queue, locals, heard, addresses)
      ensures drop == 0 ==> Drained(q0, queue, locals, heard)
    {
      hide Consistent, TxLookup.Valid, TxPricedList.Valid, TxPricedList.Covers, Total, Drained, TrimSome;
      var a := PickLatest(left, heard);
      addresses := left - {a};
      var list := queue[a];
      if |list| <= overflow {
        DrainingTakes(q0, queue, locals, heard, left, a);
        EmptyQueue(a);
        drop := overflow - |list|;
        if drop == 0 { DrainingEnds(q0, queue, locals, heard, addresses); }
      } else {
        CutQueue(a, overflow);
        DrainingEndsWith(q0, old(queue), locals, heard, left, a, queue[a]);
        TotalTrimmed(old(queue), a, queue[a]);
        drop := 0;
      }
    }

    /** Removes everything in an account's queue, lowest nonce first. */
    method EmptyQueue(a: Address)
      requires Valid() && a in queue
      modifies this`pending, this`queue, this`pendingNonce, this`beats, all, priced
      ensures Valid() && pending == old(pending) && pendingNonce == old(pendingNonce) && beats == old(beats)
      ensures queue == TrimSome(old(queue), a, old(queue)[a].Keys)
    {
      hide Consistent, TxLookup.Valid, TxPricedList.Valid, TxPricedList.Covers, TrimSome, NonceSorted, NoncesOf;
      QueuedKeyed(pending, queue, all.txs, a);
      var txs := Listing(queue[a]);
      AllListed(queue[a], txs);
      RemoveListed(a, txs);
    }

    /** Removes the `k` highest nonces in an account's queue, highest first. */
    method CutQueue(a: Address, k: nat)
      requires Valid() && a in queue && 0 < k < |queue[a]|
      modifies this`pending, this`queue, this`pendingNonce, this`beats, all, priced
      ensures Valid() && pending == old(pending) && pendingNonce == old(pendingNonce) && beats == old(beats)
      ensures a in queue && queue == TrimTo(old(queue), a, queue[a]) && queue[a] != map[]
      ensures LowestOf(old(queue)[a], queue[a]) && |queue[a]| == |old(queue)[a]| - k
    {
      hide Consistent, TxLookup.Valid, TxPricedList.Valid, TxPricedList.Covers, NonceSorted, NoncesOf, LowestOf,
        Reversed;
      QueuedKeyed(pending, queue, all.txs, a);
      var txs := Listing(queue[a]);
      var top := Reversed(txs[|txs| - k..]);
      TopListed(queue[a], txs, k, top);
      RemoveListed(a, top);
    }

    /** The conditions promotion works under. */
    ghost function PromotionTerms(unpayable: Tx -> bool): Terms
      reads this`stateNonce, this`isMagma, this`gasPrice, this`locals
    {
      Terms(stateNonce, PriceFloor(isMagma, gasPrice), locals, config.nonExecSlotsAccount, unpayable)
    }

    /** Works the queues of some accounts, in any order; each comes out as if it were worked alone. */
    method PromoteAccounts(accounts: set<Address>, unpayable: Tx -> bool)
      requires Valid()
      modifies this`pending, this`queue, this`pendingNonce, this`beats, all, priced
      ensures Valid() && (old(GapFree()) ==> GapFree())
      ensures PromotedExcept(PromotionTerms(unpayable), Snapshot(old(pending), old(queue), old(pendingNonce)),
                             Snapshot(pending, queue, pendingNonce), accounts, {})
      ensures BeatsPromoted(old(pending), pending, old(beats), beats, now)
    {
      hide TxPool.Valid, TxPool.GapFree, PromotedExcept, ReadyBounds, CappedTo, MergeIn, TrimTo, VirtualMoved, From,
        Unless, Below, BeatsPromoted;
      var todo := accounts;
      ghost var t, s0 := PromotionTerms(unpayable), Snapshot(pending, queue, pendingNonce);
      NobodyPromoted(t, s0, accounts);
      NoBeatPromoted(pending, beats, now);
      while todo != {}
        invariant Valid() && (old(GapFree()) ==> GapFree()) && todo <= accounts
        invariant PromotedExcept(t, s0, Snapshot(pending, queue, pendingNonce), accounts, todo)
        invariant BeatsPromoted(s0.pending, pending, old(beats), beats, now)
        decreases |todo|
      {
        var a :| a in todo;
        ghost var s1, b1 := Snapshot(pending, queue, pendingNonce), beats;
        if a in queue {
          ghost var lo, hi := PromoteAccount(a, unpayable);
          PromotesBeat(t, s0, s1, accounts, todo, a, Below(Live(t, a, s1.queue[a]), hi), old(beats), b1, beats, now);
          PromotesOne(t, s0, s1, Snapshot(pending, queue, pendingNonce), accounts, todo, a, lo, hi);
        } else {
          PromotesNone(t, s0, s1, accounts, todo, a);
        }
        todo := todo - {a};
      }
    }

    /**
     Promotes what has become executable, then enforces the pending and the queue limits.
     `mid` is the state between the two, `heard` the last signs of life at that point.
     */
    method PromoteExecutables(accounts: Option<seq<Address>>, unpayable: Tx -> bool)
      returns (ghost mid: Snapshot, ghost heard: map<Address, nat>, ghost level: nat)
      requires Valid()
      modifies this`pending, this`queue, this`pendingNonce, this`beats, all, priced
      ensures Valid() && WithinLimits(pending, queue, locals, config)
      ensures old(GapFree()) ==> GapFree()
      ensures PromotedExcept(PromotionTerms(unpayable), Snapshot(old(pending), old(queue), old(pendingNonce)), mid,
                             if accounts.Some? then SetOf(accounts.value) else old(queue).Keys, {})
      ensures Limited(PromotionTerms(unpayable), config, mid, Snapshot(pending, queue, pendingNonce), heard, level)
      ensures all.txs.Keys <= old(all.txs).Keys && Total(mid.pending) <= |old(all.txs)|
      ensures BeatsPromoted(old(pending), mid.pending, old(beats), heard, now) && beats == heard
    {
      hide BeatsPromoted, TxPool.Valid, Gapless, Total, Drained, PromotedExcept, WaterFilled, ListedWithin, VirtualsCut,
        PendingLimited, QueueLimited;
      ghost var s0, t := Snapshot(pending, queue, pendingNonce), PromotionTerms(unpayable);
      WellListed();
      PromoteAccounts(if accounts.Some? then SetOf(accounts.value) else queue.Keys, unpayable);
      mid := Snapshot(pending, queue, pendingNonce);
      WellListed();
      PromotedFit(t, s0, mid, if accounts.Some? then SetOf(accounts.value) else s0.queue.Keys, old(all.txs), all.txs);
      level, heard := EnforceLimits();
      WellListed();
      PromotionAddsNothing(t, s0, mid, Snapshot(pending, queue, pendingNonce),
                           if accounts.Some? then SetOf(accounts.value) else s0.queue.Keys, heard, config, level);
      LookupWithin(pending, queue, all.txs, s0.pending, s0.queue, old(all.txs));
    }

    /** Enforces the pending and then the queue limit. */
    method EnforceLimits() returns (ghost level: nat, ghost heard: map<Address, nat>)
      requires Valid()
      modifies this`pending, this`queue, this`pendingNonce, this`beats, all, priced
      ensures Valid() && WithinLimits(pending, queue, locals, config)
      ensures old(GapFree()) ==> GapFree()
      ensures PendingLimited(old(pending), pending, locals, config, level)
      ensures QueueLimited(old(queue), queue, locals, heard, config)
      ensures VirtualsCut(stateNonce, old(pendingNonce), pendingNonce, old(pending), pending)
      ensures old(Total(pending)) <= config.execSlotsAll ==> pendingNonce == old(pendingNonce)
      ensures heard == old(beats) && beats == old(beats)
    {
      hide TxPool.Valid, Gapless, Total, Tight, Drained, WaterFilled, VirtualsCut;
      level := EqualizePending();
      FilledWithin(old(pending), pending, locals, level, config);
      heard := beats;
      TrimQueue();
    }

    /** Moves everything of an account's pending list but `keep` back to the queue. */
    method RequeuePending(a: Address, keep: Items)
      requires Valid() && a in pending
      requires forall n :: n in keep ==> n in pending[a] && pending[a][n] == keep[n]
      modifies this`pending, this`queue, this`beats, all, priced
      ensures Valid() && pending == old(pending)[a := keep]
      ensures queue == MergeIn(old(queue), a, old(pending)[a] - keep.Keys) && all.txs == old(all.txs)
      ensures beats == BeatFor(old(beats), a, now, old(pending)[a] - keep.Keys)
    {
      hide Consistent, TxLookup.Valid, TxPricedList.Valid, MergeIn;
      var back := pending[a] - keep.Keys;
      assert keep + back == pending[a];
      SetAside(pending, queue, all.txs, a, keep, back);
      pending := pending[a := keep];
      RequeueAll(a, back);
    }

    /** Deletes an account's pending list if it is empty. */
    method DropEmptyPending(a: Address)
      requires Valid() && a in pending
      modifies this`pending
      ensures Valid() && pending == TrimTo(old(pending), a, old(pending)[a])
    {
      hide Consistent, TxLookup.Valid, TxPricedList.Valid;
      if pending[a] == map[] {
        Swapped(pending, queue, map[], all.txs);
        SameWithout(queue, pending, a, all.txs);
        Swapped(pending - {a}, queue, map[], all.txs);
        pending := pending - {a};
      }
    }

    /**
     Revalidates one account's pending list: drops what is below the state nonce or selected
     by `drop`; what sits above a dropped one, behind a gap at the front, or at or above the
     first transaction below the base fee goes back to the queue.
     */
    method DemoteAccount(a: Address, drop: Tx -> bool)
      requires Valid() && a in pending
      modifies this`pending, this`queue, this`beats, all, priced
      ensures Valid()
      ensures var live := From(old(pending)[a], stateNonce(a));
              var keep := StillExecutable(live, stateNonce(a), drop, isMagma, gasPrice);
              && pending == TrimTo(old(pending), a, keep)
              && Requeued(old(queue), queue, a, Unless(live, drop) - keep.Keys)
              && beats == BeatFor(old(beats), a, now, Unless(live, drop) - keep.Keys)
    {
      hide TxPool.Valid, MergeIn, TrimTo, BelowDropped, Requeued, From, Unless, BeatFor;
      var live, q0 := From(pending[a], stateNonce(a)), queue;
      LiveParts(pending[a], stateNonce(a), drop);
      DropStale(a, drop);
      RequeuePending(a, BelowDropped(live, drop));
      var whole := BelowDropped(live, drop);
      ghost var q1 := queue;
      var rooted := if stateNonce(a) in whole then whole else map[];
      RequeuePending(a, rooted);
      ghost var q2 := queue;
      var keep := if isMagma then BelowDropped(rooted, PricedBelow(gasPrice)) else rooted;
      BelowDroppedPart(rooted, PricedBelow(gasPrice));
      RequeuePending(a, keep);
      RequeuedInThree(q0, q1, q2, queue, a, Unless(live, drop), whole, rooted, keep);
      BeatInThree(old(beats), a, now, Unless(live, drop), whole, rooted, keep);
      DropEmptyPending(a);
      TrimOver(old(pending), a, Unless(live, drop), whole, rooted, keep);
    }

    /** Drops an account's pending transactions that are below its state nonce or selected by `drop`. */
    method DropStale(a: Address, drop: Tx -> bool)
      requires Valid() && a in pending
      modifies this`pending, all, priced
      ensures Valid() && pending == old(pending)[a := Unless(From(old(pending)[a], stateNonce(a)), drop)]
    {
      hide TxPool.Valid;
      KeepPending(a, From(pending[a], stateNonce(a)));
      KeepPending(a, Unless(pending[a], drop));
    }

    ghost function DemotionChecks(unpayable: Tx -> bool, marked: Tx -> bool): Checks
      reads this`stateNonce, this`isMagma, this`gasPrice
    {
      Checks(stateNonce, unpayable, marked, isMagma, gasPrice)
    }

    /** Revalidates one more account, in full or not. */
    method DemoteNext(a: Address, drop: Tx -> bool, ghost c: Checks, ghost full: set<Address>,
                      ghost full': set<Address>, ghost p0: Lists, ghost q0: Lists, ghost b0: Beats,
                      ghost todo: set<Address>)
      requires Valid() && c.nonce == stateNonce && c.isMagma == isMagma && c.gasPrice == gasPrice
      requires DemotedExcept(c, full, p0, q0, pending, queue, todo) && Waiting(p0, pending, todo) && a in todo
      requires BeatsDemoted(c, full, p0, b0, beats, now, todo)
      requires full <= full' <= full + {a} && drop == DropOf(c, full', a)
      modifies this`pending, this`queue, this`beats, all, priced
      ensures Valid() && DemotedExcept(c, full', p0, q0, pending, queue, todo - {a})
      ensures BeatsDemoted(c, full', p0, b0, beats, now, todo - {a})
      ensures Waiting(p0, pending, todo - {a})
    {
      hide TxPool.Valid, Requeued, StillExecutable, DemotedExcept, From, Unless, BeatsDemoted, BeatFor;
      ghost var p, q := pending, queue;
      DemotesBeat(c, full, full', p0, b0, beats, now, todo, a);
      DemoteAccount(a, drop);
      DemotesOne(c, full, p0, q0, p, q, queue, todo, a, full');
    }

    /** Revalidates all pending lists; after enough transactions only marked ones are still looked for. */
    method DemoteUnexecutables(unpayable: Tx -> bool, marked: Tx -> bool) returns (ghost full: set<Address>)
      requires Valid()
      modifies this`pending, this`queue, this`beats, all, priced
      ensures Valid()
      ensures DemotedExcept(DemotionChecks(unpayable, marked), full, old(pending), old(queue), pending, queue, {})
      ensures BeatsDemoted(DemotionChecks(unpayable, marked), full, old(pending), old(beats), beats, now, {})
      ensures FullUpTo(old(pending), stateNonce, full)
      ensures old(Total(pending)) < FULL_VALIDATION_LIMIT ==> full == old(pending).Keys
    {
      hide TxPool.Valid, Requeued, StillExecutable, TrimTo, DemotedExcept, From, Total, Counted, Unless, FullUpTo,
        BeatsDemoted, Waiting;
      var cnt: nat := 0;
      ghost var c, p0, q0 := DemotionChecks(unpayable, marked), pending, queue;
      var todo := pending.Keys;
      NobodyDemoted(c, p0, q0);
      NoBeatDemoted(c, p0, beats, now);
      EveryoneWaits(p0);
      ghost var left := p0;
      full := {};
      CountsNone(p0, stateNonce);
      while todo != {}
        invariant Valid() && left.Keys == todo && Waiting(p0, pending, todo)
        invariant BeatsDemoted(c, full, p0, old(beats), beats, now, todo)
        invariant DemotedExcept(c, full, p0, q0, pending, queue, todo) && Counted(p0, stateNonce, left, full, cnt)
        decreases |todo|
      {
        var a :| a in todo;
        ghost var was := full;
        var drop := if cnt < FULL_VALIDATION_LIMIT then unpayable else marked;
        WaitingAt(p0, pending, todo, a);
        CountsOne(p0, stateNonce, left, full, cnt, a);
        left := left - {a};
        if cnt < FULL_VALIDATION_LIMIT {
          cnt, full := cnt + |From(pending[a], stateNonce(a))|, full + {a};
        }
        assert Counted(p0, stateNonce, left, full, cnt);
        DemoteNext(a, drop, c, was, full, p0, q0, old(beats), todo);
        todo := todo - {a};
      }
      CountsAll(p0, stateNonce, left, full, cnt);
    }

    /** Sets every account's virtual nonce past its last pending transaction. */
    method AdoptPendingNonces()
      modifies this`pendingNonce
      ensures AdoptedNonces(pending, old(pendingNonce), pendingNonce)
    {
      hide Past;
      var todo := pending.Keys;
      ghost var pn := pendingNonce;
      while todo != {}
        invariant todo <= pending.Keys
        invariant forall a :: a in pending && a !in todo && pending[a] != map[] ==>
          a in pendingNonce && Past(pending[a], pendingNonce[a])
        invariant forall a :: a in todo || ItemsOf(pending, a) == map[] ==> SameEntry(pn, pendingNonce, a)
        decreases |todo|
      {
        var a :| a in todo;
        if pending[a] != map[] {
          var lo, hi := NonceRange(pending[a]);
          PastHighest(pending[a], hi);
          pendingNonce := pendingNonce[a := hi + 1];
        }
        todo := todo - {a};
      }
    }

    /** Removes one transaction that the price index has given up. */
    method RemoveTaken(tx: Tx)
      requires Holding(map[])
      modifies this`pending, this`queue, this`pendingNonce, this`beats, all, priced
      ensures Holding(map[]) && View() == RemoveOne(old(View()), tx)
      ensures priced.items == old(priced.items) && priced.stales == old(priced.stales)
      ensures old(GapFree()) ==> GapFree()
      ensures StaysAtState(stateNonce, old(pendingNonce), pendingNonce)
    {
      hide Consistent, TxPricedList.Valid, TxPricedList.Covers, Gapless, PendingWithout, QueueWithout, BeatsWithout,
        HasNonce, VirtualNonce, Lowered, Once;
      WellFiledTxs();
      RemoveTx(HashOf(tx), false);
    }

    /** Removes what the price index has given up, restoring its coverage. */
    method RemoveDropped(drop: seq<Tx>)
      requires Holding(map[])
      requires (forall t :: all.Has(t) ==> t in priced.items || t in drop)
      requires |priced.items| + |drop| <= |all.txs| + priced.stales
      modifies this`pending, this`queue, this`pendingNonce, this`beats, all, priced
      ensures Valid() && View() == RemoveAll(old(View()), drop)
      ensures priced.items == old(priced.items) && priced.stales == old(priced.stales)
      ensures old(GapFree()) ==> GapFree()
      ensures StaysAtState(stateNonce, old(pendingNonce), pendingNonce)
    {
      WellFiledTxs();
      hide TxPool.Holding, Gapless, RemoveOne, HashesOf, VirtualNonce, TxPricedList.Covers;
      ghost var v0 := View();
      for i := 0 to |drop|
        invariant Holding(map[]) && priced.items == old(priced.items) && priced.stales == old(priced.stales)
        invariant View() == RemoveAll(v0, drop[..i])
        invariant old(GapFree()) ==> GapFree()
        invariant StaysAtState(stateNonce, old(pendingNonce), pendingNonce)
      {
        assert drop[..i + 1][..i] == drop[..i];
        RemoveTaken(drop[i]);
      }
      assert drop[..|drop|] == drop;
      RemoveAllTxs(v0, drop);
      CoveredAfter(v0.txs, all.txs, priced.items, drop);
      CoversAgain();
    }

    lemma CoversAgain()
      requires Holding(map[]) && |priced.items| <= |all.txs| + priced.stales
      requires forall h :: h in all.txs ==> all.txs[h] in priced.items
      ensures Valid()
    {
    }

    lemma WellFiledTxs()
      requires Holding(map[])
      ensures forall h :: h in all.txs ==> HashOf(all.txs[h]) == h
    {
    }

    /**
     Drops the cheapest remote transactions until `slots` slots are free or only locals are left. A
     negative number of slots panics before anything is dropped.
     */
    method DropCheapest(slots: int) returns (ok: bool, ghost drop: seq<Tx>)
      requires Valid()
      modifies this`pending, this`queue, this`pendingNonce, this`beats, all, priced
      ensures Valid() && (old(GapFree()) ==> GapFree())
      ensures ok <==> slots >= 0
      ensures !ok ==> View() == old(View()) && pendingNonce == old(pendingNonce)
      ensures ok ==> Drops(old(View()), drop, slots) && View() == RemoveAll(old(View()), drop)
      ensures ok ==> Discarded(old(all.txs), old(priced.items), priced.items, drop, slots, locals)
      ensures ok && OneEntryEach(old(all.txs), locals, old(priced.items)) ==> Once(drop)
      ensures StaysAtState(stateNonce, old(pendingNonce), pendingNonce)
    {
      AllCovered();
      hide Consistent, TxPricedList.Valid, TxPricedList.Covers, Gapless, HashesOf, SlotsOf, Discarded, Drops,
        OneEntryEach, Once, RemoveAll, VirtualNonce;
      drop := [];
      ghost var v0, before := View(), priced.items;
      var r := priced.Discard(slots, locals);
      if r.None? { return false, []; }
      drop := r.value;
      DiscardedDrops(v0, before, priced.items, drop, slots);
      if OneEntryEach(v0.txs, locals, before) { DroppedOnce(v0, before, priced.items, drop, slots); }
      assert forall t :: all.Has(t) ==> v0.txs[HashOf(t)] == t;
      RemoveDropped(r.value);
      ok := true;
    }

    /**
     Makes room in a full pool for `tx`: gives up the sender's highest queued transaction if
     `tx` fills a lower nonce, then the cheapest remote transactions. `None` means that room
     was made. With at most one heap entry for each remote transaction there is then room
     enough, or only locals are left.
     */
    method MakeRoom(tx: Tx, local: bool) returns (end: Option<Outcome>, ghost drop: seq<Tx>)
      requires Valid()
      modifies this`pending, this`queue, this`pendingNonce, this`beats, all, priced
      ensures Valid() && (old(GapFree()) ==> GapFree())
      ensures if !GapBelow(ItemsOf(old(queue), tx.sender), tx.nonce) then end == Some(Refused) && View() == old(View())
              else
                var v := Relieved(old(View()), tx);
                if !local && NotBetter(v.txs, v.locals, tx) then end == Some(Refused) && View() == v
                else if Missing(Capacity(), v, tx) < 0 then end == Some(Crashed) && View() == v
                else end == None && Drops(v, drop, Missing(Capacity(), v, tx)) && View() == RemoveAll(v, drop)
      ensures end.None? && DoublesDearest(old(View()), old(priced.items)) ==>
        Missing(Capacity(), View(), tx) <= 0 || OnlyLocals(all.txs, locals)
      ensures end.None? && local && old(priced.stales) + 1 <= |old(priced.items)| / 4 ==>
        var v := Relieved(old(View()), tx);
        Discarded(v.txs, old(priced.items), priced.items, drop, Missing(Capacity(), v, tx), v.locals)
      ensures StaysAtState(stateNonce, old(pendingNonce), pendingNonce)
    {
      hide Consistent, TxLookup.Valid, TxPricedList.Valid, Gapless, NumSlots, Drops, RemoveAll, RemoveOne, NotBetter,
        DoublesDearest, OnlyLocals, SlotSum, VirtualNonce, Once, Highest, TxPricedList.Covers, Discarded;
      drop := [];
      var highest := HighestAbove(tx);
      if highest.None? { return Some(Refused), drop; }
      GiveUp(highest.value, tx);
      ghost var items := priced.items;
      if !local {
        var under := priced.Underpriced(tx, locals);
        if under { return Some(Refused), drop; }
      }
      StillDearest(old(View()), View(), old(priced.items), items, priced.items);
      end, drop := DropFor(tx);
    }

    /** Drops the cheapest for the slots still missing, which panics if giving one up has freed more than that. */
    method DropFor(tx: Tx) returns (end: Option<Outcome>, ghost drop: seq<Tx>)
      requires Valid()
      modifies this`pending, this`queue, this`pendingNonce, this`beats, all, priced
      ensures Valid() && (old(GapFree()) ==> GapFree())
      ensures var missing := Missing(Capacity(), old(View()), tx);
              if missing < 0 then end == Some(Crashed) && View() == old(View())
              else
                && end == None && Drops(old(View()), drop, missing) && View() == RemoveAll(old(View()), drop)
                && Discarded(old(all.txs), old(priced.items), priced.items, drop, missing, locals)
      ensures end.None? && DoublesDearest(old(View()), old(priced.items)) ==>
        Missing(Capacity(), View(), tx) <= 0 || OnlyLocals(all.txs, locals)
      ensures StaysAtState(stateNonce, old(pendingNonce), pendingNonce)
    {
      hide Consistent, TxLookup.Valid, TxPricedList.Valid, TxPricedList.Covers, Gapless, NumSlots, Drops, RemoveAll,
        DoublesDearest, OneEntryEach, OnlyLocals, SlotSum, VirtualNonce, Once, Discarded;
      SlotsCounted();
      AllCovered();
      ghost var v := View();
      var ok;
      ok, drop := DropCheapest(all.slots - (config.execSlotsAll + config.nonExecSlotsAll) + NumSlots(tx));
      if !ok { return Some(Crashed), drop; }
      if DoublesDearest(v, old(priced.items)) {
        DearestMakesRoom(v, old(priced.items), priced.items, drop, Missing(Capacity(), v, tx));
      }
      RemoveAllTxs(v, drop);
      end := None;
    }

    lemma AllCovered()
      requires Valid()
      ensures Sound(View()) && |priced.items| <= |all.txs| + priced.stales
      ensures forall h :: h in all.txs ==> HashOf(all.txs[h]) == h && all.txs[h] in priced.items
    {
    }

    lemma SlotsCounted()
      requires Valid()
      ensures all.slots == SlotSum(all.txs) && Sound(View())
    {
    }

    /** The sender's highest queued transaction, if `tx` is not queued itself and lies below it. */
    method HighestAbove(tx: Tx) returns (highest: Option<Tx>)
      ensures highest.Some? <==> GapBelow(ItemsOf(queue, tx.sender), tx.nonce)
      ensures highest.Some? ==> highest.value == Highest(ItemsOf(queue, tx.sender))
    {
      if tx.sender !in queue || tx.nonce in queue[tx.sender] || queue[tx.sender] == map[] { return None; }
      var lo, hi := NonceRange(queue[tx.sender]);
      if hi < tx.nonce { return None; }
      highest := Some(queue[tx.sender][hi]);
    }

    /** Removes the sender's highest queued transaction. */
    method GiveUp(highest: Tx, tx: Tx)
      requires Valid() && GapBelow(ItemsOf(queue, tx.sender), tx.nonce) && highest == Highest(ItemsOf(queue, tx.sender))
      modifies this`pending, this`queue, this`pendingNonce, this`beats, all, priced
      ensures Valid() && (old(GapFree()) ==> GapFree())
      ensures View() == Relieved(old(View()), tx) && all.txs == old(all.txs) - {HashOf(highest)}
      ensures pendingNonce == old(pendingNonce) && (priced.items == old(priced.items) || Once(priced.items))
      ensures old(priced.stales) + 1 <= |old(priced.items)| / 4 ==> priced.items == old(priced.items)
    {
      hide TxLookup.Valid, TxPricedList.Valid, Gapless, PendingWithout, QueueWithout, BeatsWithout, Highest;
      HighestPooled(View(), tx.sender);
      hide Consistent;
      RemoveTx(HashOf(highest), true);
    }

    /** Files a new transaction: over the pending one at its nonce, or in the queue. */
    method Insert(tx: Tx, local: bool) returns (out: Outcome)
      requires Valid() && HashOf(tx) !in all.txs
      modifies this`pending, this`queue, this`beats, this`locals, all, priced
      ensures Valid() && (old(GapFree()) ==> GapFree())
      ensures Files(isMagma, old(View()), View(), tx, local, out)
      ensures out == Accepted(false) ==>
        multiset(priced.items) == multiset(old(priced.items)) + multiset{tx} && priced.stales == old(priced.stales)
    {
      hide Consistent, TxLookup.Valid, TxPricedList.Valid, TxPricedList.Covers, Gapless, PutIn, Entered;
      if HasNonce(pending, tx.sender, tx.nonce) {
        if !Replaces(tx, pending[tx.sender][tx.nonce], isMagma) { return Refused; }
        ReplacePending(tx);
        return Accepted(true);
      }
      var replaced, ok := QueueNew(tx);
      if !ok { return Refused; }
      if local { locals := locals + {tx.sender}; }
      out := Accepted(replaced);
    }

    /** Puts a new transaction over the pending one at its nonce. */
    method ReplacePending(tx: Tx)
      requires Valid() && HashOf(tx) !in all.txs && HasNonce(pending, tx.sender, tx.nonce)
      modifies this`pending, all, priced
      ensures Valid() && (old(GapFree()) ==> GapFree())
      ensures all.txs == Entered(old(pending), queue, old(all.txs), tx) && pending == PutIn(old(pending), tx)
    {
      hide Consistent, TxLookup.Valid, TxPricedList.Valid, TxPricedList.Covers, Gapless, PutIn, Once;
      var prev := pending[tx.sender][tx.nonce];
      EntersPending(pending, queue, all.txs, stateNonce, pendingNonce, tx);
      pending := PutIn(pending, tx);
      Retire(HashOf(prev));
      Register(tx);
    }

    /** Queues a new transaction. */
    method QueueNew(tx: Tx) returns (replaced: bool, ok: bool)
      requires Valid() && HashOf(tx) !in all.txs && !HasNonce(pending, tx.sender, tx.nonce)
      modifies this`queue, this`beats, all, priced
      ensures Valid()
      ensures ok <==> MayEnter(pending, old(queue), tx, isMagma)
      ensures all.txs == if ok then Entered(pending, old(queue), old(all.txs), tx) else old(all.txs)
      ensures queue == if ok then PutIn(old(queue), tx) else old(queue)
      ensures beats == if ok then Beat(old(beats), tx.sender, now) else old(beats)
      ensures replaced <==> ok && HasNonce(old(queue), tx.sender, tx.nonce)
      ensures !HasNonce(old(queue), tx.sender, tx.nonce) ==>
        multiset(priced.items) == multiset(old(priced.items)) + multiset{tx} && priced.stales == old(priced.stales)
    {
      hide Consistent, TxLookup.Valid, TxPricedList.Valid, PutIn;
      EntersQueue(pending, queue, all.txs, tx);
      replaced, ok := EnqueueTx(tx);
    }

    /** Adds an unknown valid transaction to a full pool. */
    method AddFull(tx: Tx, local: bool) returns (out: Outcome)
      requires Valid() && HashOf(tx) !in all.txs && Missing(Capacity(), View(), tx) > 0
      modifies this`pending, this`queue, this`pendingNonce, this`beats, this`locals, all, priced
      ensures Valid() && (old(GapFree()) ==> GapFree())
      ensures AddsOne(Capacity(), isMagma, old(View()), View(), tx, local, true, out)
      ensures StaysAtState(stateNonce, old(pendingNonce), pendingNonce)
      ensures local && GapBelow(ItemsOf(old(queue), tx.sender), tx.nonce) && out != Crashed ==>
        old(priced.stales) + 1 <= |old(priced.items)| / 4 ==>
        AddsByHeap(Capacity(), isMagma, old(View()), old(priced.items), View(), tx, local, out)
    {
      hide TxPool.Valid, Gapless, NumSlots, SlotSum, Drops, RemoveAll, RemoveOne, NotBetter, Files, VirtualNonce,
        Highest, Discarded, AddsByHeap, DoublesDearest, OnlyLocals;
      ghost var v0, drop := View(), [];
      var end;
      end, drop := MakeRoom(tx, local);
      if end.Some? { return end.value; }
      StillUnknown(v0, tx, drop);
      ghost var items := priced.items;
      out := Insert(tx, local);
      if local && old(priced.stales) + 1 <= |old(priced.items)| / 4 {
        HeapAdds(Capacity(), isMagma, v0, old(priced.items), View(), tx, local, out, items, drop);
      }
    }

    /**
     Adds one transaction: a known or invalid one is refused, a full pool makes room first,
     which may panic, and the transaction is then filed if nothing better holds its nonce.
     */
    method Add(tx: Tx, local: bool, valid: bool) returns (out: Outcome)
      requires Valid()
      modifies this`pending, this`queue, this`pendingNonce, this`beats, this`locals, all, priced
      ensures Valid() && (old(GapFree()) ==> GapFree())
      ensures AddsOne(Capacity(), isMagma, old(View()), View(), tx, local, valid, out)
      ensures out == Crashed <==> Crashes(Capacity(), old(View()), tx, local, valid)
      ensures StaysAtState(stateNonce, old(pendingNonce), pendingNonce)
      ensures Missing(Capacity(), old(View()), tx) <= 0 ==> pendingNonce == old(pendingNonce)
      ensures HashOf(tx) !in old(all.txs) && valid && Missing(Capacity(), old(View()), tx) > 0 ==>
        local && GapBelow(ItemsOf(old(queue), tx.sender), tx.nonce) && out != Crashed ==>
        old(priced.stales) + 1 <= |old(priced.items)| / 4 ==>
        AddsByHeap(Capacity(), isMagma, old(View()), old(priced.items), View(), tx, local, out)
      ensures Missing(Capacity(), old(View()), tx) <= 0 && out == Accepted(false) ==>
        multiset(priced.items) == multiset(old(priced.items)) + multiset{tx} && priced.stales == old(priced.stales)
    {
      hide Consistent, TxLookup.Valid, TxPricedList.Valid, TxPricedList.Covers, Gapless, NumSlots, SlotSum, Drops,
        RemoveAll, RemoveOne, NotBetter, Files, Crashes, VirtualNonce, Highest, Discarded, AddsByHeap, DoublesDearest;
      ghost var v0 := View();
      SlotsCounted();
      if HashOf(tx) in all.txs || !valid {
        CrashesExactly(Capacity(), isMagma, v0, v0, tx, local, valid, Refused);
        return Refused;
      }
      if all.slots + NumSlots(tx) > config.execSlotsAll + config.nonExecSlotsAll {
        out := AddFull(tx, local);
        CrashesExactly(Capacity(), isMagma, v0, View(), tx, local, valid, out);
        return;
      }
      out := Insert(tx, local);
      CrashesExactly(Capacity(), isMagma, v0, View(), tx, local, valid, out);
    }

    /** Adds one transaction and promotes its account when something new came in. */
    method AddTx(tx: Tx, local: bool, valid: bool, unpayable: Tx -> bool)
      returns (out: Outcome, ghost steps: AddSteps)
      requires Valid()
      modifies this`pending, this`queue, this`pendingNonce, this`beats, this`locals, all, priced
      ensures Valid() && (old(GapFree()) ==> GapFree())
      ensures AddsOne(Capacity(), isMagma, old(View()), steps.filed, tx, local, valid, out)
      ensures if out == Accepted(false) then PromotedAfter(steps, PromotionTerms(unpayable), config, {tx.sender},
                                                           Snapshot(pending, queue, pendingNonce))
              else View() == steps.filed
      ensures out == Accepted(false) ==> beats == steps.heard
      ensures out != Accepted(false) ==> pendingNonce == steps.nonces
      ensures locals == steps.filed.locals && now == steps.filed.now
      ensures forall h :: h in all.txs ==> h in old(all.txs) || (out.Accepted? && h == HashOf(tx))
      ensures forall keep :: old(Heard(keep)) ==> Heard(keep)
    {
      hide AllHeard, BeatsPromoted, TxPool.Valid, TxPool.GapFree, AddsOne, PromotedExcept, PendingLimited, QueueLimited,
        NumSlots, SlotSum, VirtualNonce;
      out := Add(tx, local, valid);
      ghost var filed, nonces := View(), pendingNonce;
      AddsNothingElse(Capacity(), isMagma, old(View()), filed, tx, local, valid, out);
      ghost var mid, heard, level := Snapshot(pending, queue, pendingNonce), beats, 0;
      if out == Accepted(false) {
        mid, heard, level := PromoteExecutables(Some([tx.sender]), unpayable);
        assert SetOf([tx.sender]) == {tx.sender};
      }
      steps := AddSteps(filed, nonces, mid, heard, level);
      forall keep | old(Heard(keep)) ensures Heard(keep) {
        AddingHeard(Capacity(), isMagma, old(View()), filed, tx, local, valid, out, keep);
        if out == Accepted(false) {
          PromotionHeard(PromotionTerms(unpayable), config, Snapshot(filed.pending, filed.queue, nonces), mid,
                         Snapshot(pending, queue, pendingNonce), {tx.sender}, level, filed.beats, heard, now,
                         Exempt(locals, keep));
        }
      }
    }

    /** Adds a batch one by one, stopping at a panic. */
    method AddEach(txs: seq<Tx>, local: bool, valid: nat -> bool)
      returns (outs: seq<Outcome>, dirty: seq<Address>, ghost trace: seq<PoolView>)
      requires Valid()
      modifies this`pending, this`queue, this`pendingNonce, this`beats, this`locals, all, priced
      ensures Valid() && (old(GapFree()) ==> GapFree())
      ensures AddTrace(Capacity(), isMagma, trace, txs, local, valid, outs)
      ensures trace[0] == old(View()) && trace[|outs|] == View()
      ensures SetOf(dirty) == Dirty(txs, outs)
      ensures StaysAtState(stateNonce, old(pendingNonce), pendingNonce)
      ensures txs == [] ==> pendingNonce == old(pendingNonce)
    {
      hide TxPool.Valid, TxPool.GapFree, AddsOne, Crashes, NumSlots, SlotSum, VirtualNonce, Dirty, AddedSoFar, AddTrace,
        AddsByHeap;
      outs, dirty, trace := [], [], [View()];
      NothingAdded(Capacity(), isMagma, View(), txs, local, valid);
      NobodyDirty(txs);
      for i := 0 to |txs|
        invariant Valid() && (old(GapFree()) ==> GapFree()) && |outs| == i && |trace| == i + 1
        invariant trace[0] == old(View()) && trace[i] == View()
        invariant AddedSoFar(Capacity(), isMagma, trace, txs, local, valid, outs)
        invariant i == |txs| ==> AddTrace(Capacity(), isMagma, trace, txs, local, valid, outs)
        invariant SetOf(dirty) == Dirty(txs, outs)
        invariant StaysAtState(stateNonce, old(pendingNonce), pendingNonce)
        invariant i == 0 ==> pendingNonce == old(pendingNonce)
      {
        var out := Add(txs[i], local, valid(i));
        DirtyNext(txs, outs, out);
        AddsNext(Capacity(), isMagma, trace, txs, local, valid, outs, View(), out);
        outs, trace := outs + [out], trace + [View()];
        if out == Accepted(false) { dirty := dirty + [txs[i].sender]; }
        if out == Crashed { return; }
      }
    }

    /**
     Adds a batch, then promotes the accounts that gained something new. A panic ends it before
     anything is promoted.
     */
    method AddTxs(txs: seq<Tx>, local: bool, valid: nat -> bool, unpayable: Tx -> bool)
      returns (outs: seq<Outcome>, ghost trace: seq<PoolView>, ghost steps: AddSteps)
      requires Valid()
      modifies this`pending, this`queue, this`pendingNonce, this`beats, this`locals, all, priced
      ensures Valid() && (old(GapFree()) ==> GapFree())
      ensures AddTrace(Capacity(), isMagma, trace, txs, local, valid, outs)
      ensures trace[0] == old(View()) && trace[|outs|] == steps.filed
      ensures if EndsInCrash(outs) || Dirty(txs, outs) == {} then View() == steps.filed && pendingNonce == steps.nonces
              else PromotedAfter(steps, PromotionTerms(unpayable), config, Dirty(txs, outs),
                                 Snapshot(pending, queue, pendingNonce)) && beats == steps.heard
      ensures forall h :: h in all.txs ==> h in old(all.txs) || Taken(txs, outs, h)
      ensures StaysAtState(stateNonce, old(pendingNonce), steps.nonces)
      ensures Sound(steps.filed) && Total(steps.mid.pending) <= |steps.filed.txs| && Total(pending) <= |steps.filed.txs|
      ensures all.txs.Keys <= steps.filed.txs.Keys && locals == steps.filed.locals && now == steps.filed.now
      ensures txs == [] ==> steps.nonces == old(pendingNonce)
      ensures forall keep :: old(Heard(keep)) ==> Heard(keep)
    {
      hide AllHeard, BeatsPromoted, TxPool.Valid, TxPool.GapFree, AddsOne, PromotedExcept, PendingLimited, QueueLimited,
        NumSlots, SlotSum, VirtualNonce, Dirty, StaysAtState, Total, Consistent;
      var dirty;
      outs, dirty, trace := AddEach(txs, local, valid);
      TraceAddsNothingElse(Capacity(), isMagma, trace, txs, local, valid, outs, |outs|);
      ghost var filed, nonces := View(), pendingNonce;
      WellListed();
      PendingFits(pending, queue, all.txs);
      ghost var mid, heard, level := Snapshot(pending, queue, pendingNonce), beats, 0;
      NoneListed(dirty);
      if |dirty| > 0 && !EndsInCrash(outs) {
        mid, heard, level := PromoteExecutables(Some(dirty), unpayable);
      }
      steps := AddSteps(filed, nonces, mid, heard, level);
      WellListed();
      PendingFits(pending, queue, all.txs);
      FewerTxs(all.txs, filed.txs);
      forall keep | old(Heard(keep)) ensures Heard(keep) {
        BatchHeard(Capacity(), isMagma, trace, txs, local, valid, outs, |outs|, keep);
        if |dirty| > 0 && !EndsInCrash(outs) {
          PromotionHeard(PromotionTerms(unpayable), config, Snapshot(filed.pending, filed.queue, nonces), mid,
                         Snapshot(pending, queue, pendingNonce), Dirty(txs, outs), level, filed.beats, heard, now,
                         Exempt(locals, keep));
        }
      }
    }

    /** Revalidates the pending lists and adopts their virtual nonces; this roots lists without gaps. */
    method Revalidate(unpayable: Tx -> bool, marked: Tx -> bool) returns (ghost full: set<Address>)
      requires Valid()
      modifies this`pending, this`queue, this`pendingNonce, this`beats, all, priced
      ensures Valid()
      ensures DemotedExcept(DemotionChecks(unpayable, marked), full, old(pending), old(queue), pending, queue, {})
      ensures BeatsDemoted(DemotionChecks(unpayable, marked), full, old(pending), old(beats), beats, now, {})
      ensures FullUpTo(old(pending), stateNonce, full)
      ensures old(Total(pending)) < FULL_VALIDATION_LIMIT ==> full == old(pending).Keys
      ensures AdoptedNonces(pending, old(pendingNonce), pendingNonce) && all.txs.Keys <= old(all.txs).Keys
      ensures GapFree() <==> forall a :: RootedAt(pending, stateNonce, old(pendingNonce), a)
      ensures old(pendingNonce) == map[] && (forall a :: Contiguous(ItemsOf(old(pending), a))) ==> GapFree()
    {
      hide TxPool.Valid, Gapless, AdoptedNonces, Rooted, Contiguous, DemotedExcept, Total, FullUpTo, BeatsDemoted;
      ghost var txs0 := all.txs;
      WellListed();
      full := DemoteUnexecutables(unpayable, marked);
      WellListed();
      DemotedWithin(DemotionChecks(unpayable, marked), full, old(pending), old(queue), pending, queue);
      LookupWithin(pending, queue, all.txs, old(pending), old(queue), txs0);
      DemotedRevalidates(DemotionChecks(unpayable, marked), full, old(pending), old(queue), pending, queue);
      AdoptPendingNonces();
      AdoptedGapless(pending, stateNonce, old(pendingNonce), pendingNonce);
    }

    /** Adopts a new state and adds what a reorg dropped. */
    method Reinject(newNonce: Address -> nat, reinject: seq<Tx>, valid: nat -> bool, unpayable: Tx -> bool)
      returns (crashed: bool, ghost steps: ResetSteps)
      requires Valid()
      modifies this`stateNonce, this`pending, this`queue, this`pendingNonce, this`beats, this`locals, all, priced
      ensures Valid() && stateNonce == newNonce && locals == old(locals)
      ensures AddTrace(Capacity(), isMagma, steps.trace, reinject, false, valid, steps.outs)
      ensures steps.trace[0] == old(View())
      ensures crashed <==> EndsInCrash(steps.outs)
      ensures forall h :: h in all.txs ==> h in old(all.txs) || Taken(reinject, steps.outs, h)
      ensures steps.added == Snapshot(pending, queue, pendingNonce) && all.txs.Keys <= steps.add.filed.txs.Keys
      ensures steps.addedBeats == beats && steps.add.filed.now == now
      ensures crashed ==> View() == steps.trace[|steps.outs|] && forall keep :: old(Heard(keep)) ==> Heard(keep)
      ensures steps.add.filed.locals == locals
      ensures !crashed ==> Prepared(steps, reinject, valid, isMagma, PromotionTerms(unpayable), config)
      ensures reinject == [] ==> !crashed && pending == old(pending) && pendingNonce == map[]
    {
      hide TxPool.Valid, Gapless, PromotedAfter, PriceFloor, AddsOne, Dirty, NumSlots, SlotSum, StaysAtState, Taken,
        Sound, Total, AllShrunk;
      stateNonce := newNonce;
      pendingNonce := map[];
      var outs;
      ghost var trace, add;
      outs, trace, add := AddTxs(reinject, false, valid, unpayable);
      ghost var added := Snapshot(pending, queue, pendingNonce);
      crashed := EndsInCrash(outs);
      steps := ResetSteps(trace, outs, add, added, {}, added, added, beats, 0, beats, beats);
      BatchShrinks(Capacity(), isMagma, trace, reinject, false, valid, outs, |outs|);
      if reinject == [] { NobodyDirty(reinject); }
    }

    /** Reset under the rules of the previous head; a panic while reinjecting ends it. */
    method Rebase(newNonce: Address -> nat, reinject: seq<Tx>, valid: nat -> bool, unpayable: Tx -> bool,
                  marked: Tx -> bool)
      returns (crashed: bool, ghost steps: ResetSteps)
      requires Valid()
      modifies this`stateNonce, this`pending, this`queue, this`pendingNonce, this`beats, this`locals, all, priced
      ensures Valid() && stateNonce == newNonce && locals == old(locals)
      ensures AddTrace(Capacity(), isMagma, steps.trace, reinject, false, valid, steps.outs)
      ensures steps.trace[0] == old(View())
      ensures crashed <==> EndsInCrash(steps.outs)
      ensures forall h :: h in all.txs ==> h in old(all.txs) || Taken(reinject, steps.outs, h)
      ensures !crashed ==> WithinLimits(pending, queue, locals, config)
      ensures !crashed ==> Prepared(steps, reinject, valid, isMagma, PromotionTerms(unpayable), config)
      ensures !crashed ==> Rebased(steps, DemotionChecks(unpayable, marked), PromotionTerms(unpayable), config,
                                   Snapshot(pending, queue, pendingNonce)) && beats == steps.heard
      ensures crashed ==> View() == steps.trace[|steps.outs|]
      ensures !crashed && (forall a :: RootedAt(steps.checked.pending, newNonce, steps.added.nonces, a)) ==> GapFree()
      ensures old(GapFree()) && reinject == [] ==> !crashed && GapFree()
      ensures forall keep :: old(Heard(keep)) ==> Heard(keep)
    {
      hide AllHeard, BeatsPromoted, BeatsDemoted, TxPool.Valid, Gapless, WithinLimits, AdoptedNonces, Contiguous,
        DemotedExcept, PromotedExcept, Limited, Prepared, PriceFloor, AddTrace, NumSlots, SlotSum, Taken, EndsInCrash,
        RootedAt, Total, Consistent;
      GaplessContiguous(pending, stateNonce, pendingNonce);
      crashed, steps := Reinject(newNonce, reinject, valid, unpayable);
      if crashed { return; }
      ghost var full := Revalidate(unpayable, marked);
      ghost var checked, checkedBeats := Snapshot(pending, queue, pendingNonce), beats;
      FewerTxs(all.txs, steps.add.filed.txs);
      ghost var mid, heard, level := PromoteExecutables(None, unpayable);
      ghost var was := steps;
      steps := steps.(full := full, checked := checked, checkedBeats := checkedBeats, mid := mid, heard := heard,
                      level := level);
      StillPrepared(was, steps, reinject, valid, isMagma, PromotionTerms(unpayable), config);
      forall keep | old(Heard(keep)) ensures Heard(keep) {
        ResetHeard(steps, reinject, valid, DemotionChecks(unpayable, marked), PromotionTerms(unpayable), config,
                   Snapshot(pending, queue, pendingNonce), keep);
      }
    }

    /** Rebases the pool; when that leaves the virtual nonces without gaps is said by the pool and the batch before. */
    method Move(newNonce: Address -> nat, reinject: seq<Tx>, valid: nat -> bool, unpayable: Tx -> bool,
                marked: Tx -> bool)
      returns (crashed: bool, ghost steps: ResetSteps)
      requires Valid()
      modifies this`stateNonce, this`pending, this`queue, this`pendingNonce, this`beats, this`locals, all, priced
      ensures Valid() && stateNonce == newNonce && locals == old(locals)
      ensures AddTrace(Capacity(), isMagma, steps.trace, reinject, false, valid, steps.outs)
      ensures steps.trace[0] == old(View())
      ensures crashed <==> EndsInCrash(steps.outs)
      ensures forall h :: h in all.txs ==> h in old(all.txs) || Taken(reinject, steps.outs, h)
      ensures !crashed ==> WithinLimits(pending, queue, locals, config)
      ensures !crashed ==> Prepared(steps, reinject, valid, isMagma, PromotionTerms(unpayable), config)
      ensures !crashed ==> Rebased(steps, DemotionChecks(unpayable, marked), PromotionTerms(unpayable), config,
                                   Snapshot(pending, queue, pendingNonce)) && beats == steps.heard
      ensures crashed ==> View() == steps.trace[|steps.outs|]
      ensures old(GapFree()) && reinject == [] ==> !crashed && GapFree()
      ensures Roomy(config, old(View()), reinject) ==> !crashed
      ensures old(GapFree()) && !crashed && MarkedIsUnpayable(marked, unpayable) ==>
        (Harmless(old(pending), old(stateNonce), newNonce, reinject, valid) ==> GapFree())
      ensures old(GapFree()) && MarkedIsUnpayable(marked, unpayable) && Roomy(config, old(View()), reinject) ==>
        GapsForeseen(old(View()), isMagma, reinject, valid, old(stateNonce), PromotionTerms(unpayable), marked,
                     GapFree())
      ensures forall keep :: old(Heard(keep)) ==> Heard(keep)
    {
      hide AllHeard, TxPool.Valid, Gapless, WithinLimits, Prepared, Revised, PriceFloor, AddTrace, NumSlots, SlotSum,
        Taken, RootedAt, Roomy, Harmless, GapsForeseen;
      ghost var sn, pn := stateNonce, pendingNonce;
      crashed, steps := Rebase(newNonce, reinject, valid, unpayable, marked);
      ghost var c, t := DemotionChecks(unpayable, marked), PromotionTerms(unpayable);
      if Roomy(config, old(View()), reinject) {
        RoomyBatch(config, isMagma, steps.trace, reinject, valid, steps.outs);
      }
      if old(GapFree()) && !crashed && Agree(c, t) {
        if Harmless(old(pending), sn, newNonce, reinject, valid) {
          NoGapOpens(config, steps, reinject, valid, c, t, sn, pn);
        }
        if Roomy(config, old(View()), reinject) {
          Foreseen(config, steps, reinject, valid, c, t, sn, pn, Snapshot(pending, queue, pendingNonce));
        }
      }
    }

    /**
     Moves the pool to a new head: adopts its state, reinjects the transactions a reorg
     dropped, revalidates the pending lists, adopts their virtual nonces and promotes, all
     under the rules of the previous head; then adopts the new rules and base fee.
     */
    method Reset(newNonce: Address -> nat, reinject: seq<Tx>, valid: nat -> bool, unpayable: Tx -> bool,
                 marked: Tx -> bool, magma: bool, price: nat)
      returns (crashed: bool, ghost steps: ResetSteps)
      requires Valid()
      modifies this`stateNonce, this`pending, this`queue, this`pendingNonce, this`beats, this`locals, this`isMagma,
        this`gasPrice, all, priced
      ensures Valid() && stateNonce == newNonce && locals == old(locals)
      ensures AddTrace(Capacity(), old(isMagma), steps.trace, reinject, false, valid, steps.outs)
      ensures steps.trace[0] == old(View())
      ensures crashed <==> EndsInCrash(steps.outs)
      ensures !crashed ==> isMagma == magma && gasPrice == if magma then price else old(gasPrice)
      ensures crashed ==> isMagma == old(isMagma) && gasPrice == old(gasPrice)
      ensures forall h :: h in all.txs ==> h in old(all.txs) || Taken(reinject, steps.outs, h)
      ensures !crashed ==> WithinLimits(pending, queue, locals, config)
      ensures !crashed ==>
        Prepared(steps, reinject, valid, old(isMagma), old(PromotionTerms(unpayable)).(nonce := newNonce), config) &&
        Rebased(steps, old(DemotionChecks(unpayable, marked)).(nonce := newNonce),
                old(PromotionTerms(unpayable)).(nonce := newNonce), config, Snapshot(pending, queue, pendingNonce)) &&
        beats == steps.heard
      ensures crashed ==> View() == steps.trace[|steps.outs|]
      ensures old(GapFree()) && reinject == [] ==> !crashed && GapFree()
      ensures Roomy(config, old(View()), reinject) ==> !crashed
      ensures old(GapFree()) && !crashed && MarkedIsUnpayable(marked, unpayable) ==>
        (Harmless(old(pending), old(stateNonce), newNonce, reinject, valid) ==> GapFree())
      ensures old(GapFree()) && MarkedIsUnpayable(marked, unpayable) && Roomy(config, old(View()), reinject) ==>
        GapsForeseen(old(View()), old(isMagma), reinject, valid, old(stateNonce),
                     old(PromotionTerms(unpayable)).(nonce := newNonce), marked, GapFree())
      ensures forall keep :: old(Heard(keep)) ==> Heard(keep)
    {
      hide TxPool.Valid, Gapless, WithinLimits, Prepared, Rebased, PriceFloor, AddTrace, Taken, Roomy, Harmless,
        GapsForeseen, AllHeard;
      crashed, steps := Move(newNonce, reinject, valid, unpayable, marked);
      if crashed { return; }
      isMagma := magma;
      if magma { gasPrice := price; }
    }

    /**
     Empties the queues of accounts not heard from for longer than `lifetime`, and no others;
     kept locals and emptied accounts lose their last sign of life.
     */
    method Evict(lifetime: nat, keepLocals: bool)
      requires Valid()
      modifies this`pending, this`queue, this`pendingNonce, this`beats, all, priced
      ensures Valid() && pending == old(pending) && pendingNonce == old(pendingNonce)
      ensures EvictedExcept(Eviction(now, lifetime, keepLocals, locals), old(queue), queue, old(beats), beats, {})
      ensures forall keep :: old(Heard(keep)) && (keepLocals ==> keep) ==> Heard(keep)
      ensures old(Heard(keepLocals)) ==>
        var e := Eviction(now, lifetime, keepLocals, locals);
        forall a :: ItemsOf(queue, a) == Unexpired(e, old(queue), old(beats), a)
    {
      hide TxPool.Valid, EvictedExcept, TrimSome, AllHeard;
      var heard := beats;
      var todo := heard.Keys;
      ghost var e := Eviction(now, lifetime, keepLocals, locals);
      NobodyEvicted(e, queue, beats);
      while todo != {}
        invariant Valid() && pending == old(pending) && pendingNonce == old(pendingNonce) && todo <= heard.Keys
        invariant EvictedExcept(e, old(queue), queue, heard, beats, todo)
        decreases |todo|
      {
        var a :| a in todo;
        EvictsOne(e, old(queue), queue, heard, beats, todo, a);
        if keepLocals && a in locals {
          beats := beats - {a};
        } else if now - heard[a] > lifetime {
          if a in queue { EmptyQueue(a); }
          beats := beats - {a};
        }
        todo := todo - {a};
      }
      forall keep | old(Heard(keep)) && (keepLocals ==> keep) ensures Heard(keep) {
        EvictionHeard(e, old(queue), queue, heard, beats, keep);
      }
      if old(Heard(keepLocals)) {
        forall a { EvictionReaches(e, old(queue), queue, heard, beats, a); }
      }
    }

    /** Forgets everything pooled. */
    method Clear()
      modifies this`all, this`priced, this`pending, this`queue, this`pendingNonce
      ensures Valid() && GapFree() && fresh(all) && fresh(priced)
      ensures pending == map[] && queue == map[] && pendingNonce == map[] && all.txs == map[]
      ensures forall keep :: Heard(keep)
    {
      pending, queue, pendingNonce := map[], map[], map[];
      var lookup := new TxLookup();
      all := lookup;
      priced := new TxPricedList(lookup);
    }

    /** Before Magma, a new unit price empties the pool; since Magma it is ignored. */
    method SetGasPrice(price: nat)
      requires Valid()
      modifies this`all, this`priced, this`pending, this`queue, this`pendingNonce, this`beats, this`locals,
        this`gasPrice
      ensures Valid() && (old(GapFree()) ==> GapFree())
      ensures (all == old(all) && priced == old(priced)) || (fresh(all) && fresh(priced))
      ensures gasPrice == if isMagma then old(gasPrice) else price
      ensures if isMagma || old(gasPrice) == price
              then unchanged(this)
              else
                && pending == map[] && queue == map[] && pendingNonce == map[] && locals == {} && beats == map[]
                && all.txs == map[]
      ensures forall keep :: old(Heard(keep)) ==> Heard(keep)
    {
      hide TxPool.Valid, Gapless, AllHeard;
      if isMagma || gasPrice == price { return; }
      gasPrice, beats, locals := price, map[], {};
      Clear();
    }

    /**
     Any run of pool operations keeps the lookup, the lists and the price index consistent, up to
     and at a panic, which ends it. Pending nonces stay gap-free as long as no reset reinjects
     anything, and, unless it ends in a panic, as long as resets reinject nothing for accounts
     whose state nonce they lower.
     */
    method Run(ops: seq<Op>) returns (crashed: bool, ghost states: seq<PoolState>)
      requires Valid()
      modifies this, all, priced
      ensures Valid() && Follow(config, ops, states, crashed)
      ensures states[0] == old(State()) && states[|states| - 1] == State()
      ensures old(GapFree()) && (forall op :: op in ops && op.OpReset? ==> op.reinject == []) ==> GapFree()
      ensures old(GapFree()) && AllForward(old(stateNonce), ops) && !crashed ==> GapFree()
      ensures forall keep :: old(Heard(keep)) && (forall op :: op in ops ==> Spares(op, keep)) ==> Heard(keep)
    {
      hide TxPool.Valid, TxPool.GapFree, TxPool.Heard, Forward, Done, Does;
      crashed, states := false, [State()];
      NothingDone(config, ops, State());
      for i := 0 to |ops|
        invariant Valid() && !crashed && |states| == i + 1 && Done(config, ops, states)
        invariant states[0] == old(State()) && states[i] == State()
        invariant (all == old(all) || fresh(all)) && (priced == old(priced) || fresh(priced))
        invariant old(GapFree()) && (forall op :: op in ops && op.OpReset? ==> op.reinject == []) ==> GapFree()
        invariant AllForward(old(stateNonce), ops) ==>
          AllForward(stateNonce, ops[i..]) && (old(GapFree()) ==> GapFree())
        invariant forall keep :: old(Heard(keep)) && (forall op :: op in ops ==> Spares(op, keep)) ==> Heard(keep)
      {
        assert ops[i] in ops && ops[i..][0] == ops[i] && ops[i..][1..] == ops[i + 1..];
        crashed := Apply(ops[i]);
        DoesNext(config, ops, states, State(), crashed);
        states := states + [State()];
        if crashed { return; }
      }
      AllDone(config, ops, states);
    }

    method Apply(op: Op) returns (crashed: bool)
      requires Valid()
      modifies this, all, priced
      ensures Valid()
      ensures (all == old(all) || fresh(all)) && (priced == old(priced) || fresh(priced))
      ensures old(GapFree()) && (op.OpReset? ==> op.reinject == []) ==> GapFree()
      ensures old(GapFree()) && Forward(old(stateNonce), op) && !crashed ==> GapFree()
      ensures stateNonce == NonceAfter(old(stateNonce), op)
      ensures forall keep :: old(Heard(keep)) && Spares(op, keep) ==> Heard(keep)
      ensures Does(config, op, old(State()), State(), crashed)
    {
      hide TxPool.Valid, Gapless, WithinLimits, AddsOne, AddTrace, Rebased, Prepared, PromotedAfter, Taken,
        StaysAtState, Missing, Once, Roomy, GapsForeseen, Brings, Total, Consistent, AllHeard, EvictedExcept, Lowered,
        RemoveOne, PriceFloor, Dirty, EndsInCrash;
      crashed := false;
      match op {
        case OpAdd(txs, local, valid, unpayable) =>
          var outs;
          ghost var trace, steps;
          outs, trace, steps := AddTxs(txs, local, valid, unpayable);
          crashed := EndsInCrash(outs);
          assert AddsBatch(config, op, old(State()), State(), trace, outs, steps);
        case OpAddOne(tx, local, isValid, unpayable) =>
          var out;
          ghost var steps;
          out, steps := AddTx(tx, local, isValid, unpayable);
          crashed := out == Crashed;
          assert AddsSingle(config, op, old(State()), State(), out, steps);
        case OpReset(newNonce, reinject, valid, unpayable, marked, magma, price) =>
          ghost var steps;
          crashed, steps := Reset(newNonce, reinject, valid, unpayable, marked, magma, price);
          assert MovesTo(config, op, old(State()), State(), steps);
        case OpEvict(lifetime, keepLocals) =>
          Evict(lifetime, keepLocals);
        case OpRemove(hash) =>
          Remove(hash);
        case OpSetGasPrice(price) =>
          SetGasPrice(price);
        case OpClear =>
          Clear();
        case OpTick(time) =>
          now := time;
      }
    }
  }

  /** An empty pool at state nonce 5 to which nonce 5 has been added. */
  method FiveAdded() returns (pool: TxPool)
    ensures fresh(pool) && fresh(pool.all) && fresh(pool.priced) && pool.Valid() && pool.GapFree()
    ensures pool.config == Config(4, 4, 4, 4) && pool.stateNonce == Nonce(5) && !pool.isMagma && pool.gasPrice == 0
    ensures ItemsOf(pool.pending, 1) == map[5 := Plain(5)] && ItemsOf(pool.queue, 1) == map[]
    ensures pool.locals == {} && pool.all.txs.Keys <= {HashOf(Plain(5))}
  {
    hide TxPool.Valid, TxPool.GapFree, Roomy, Taken, AddsOne, PromotedAfter, Sound, Total, StaysAtState, Consistent,
      FileAll, NewSenders, Dirty;
    pool := new TxPool(Config(4, 4, 4, 4), Nonce(5), 0);
    RoomForThree(map[], {}, map[], map[], map[], 0);
    var outs;
    ghost var trace, add;
    outs, trace, add := pool.AddTxs([Plain(5)], false, OnlyFirst(), Never());
    ghost var added := Snapshot(pool.pending, pool.queue, pool.pendingNonce);
    RoomyBatch(pool.config, false, trace, [Plain(5)], OnlyFirst(), outs);
    FiveFiled(trace[0], add.filed, outs);
    FivePending(add, added, Dirty([Plain(5)], outs), pool.PromotionTerms(Never()));
  }

  /** A pool that a reset leaves with a gap: nonces 3 and 5 are pending, 4 is missing, and 6 is expected next. */
  method OpenGap() returns (pool: TxPool)
    ensures fresh(pool) && pool.Valid() && !pool.GapFree()
  {
    hide TxPool.Valid, TxPool.GapFree, Roomy, Prepared, Rebased, WithinLimits, Taken, AddTrace, Total, Consistent,
      GapOpens, Harmless;
    pool := FiveAdded();
    pool.WellListed();
    RoomForThree(pool.all.txs, pool.locals, pool.pending, pool.queue, pool.beats, pool.now);
    ReinjectionLeavesGap(pool.View(), 4);
    var crashed;
    ghost var v := pool.View();
    ghost var steps;
    crashed, steps := pool.Reset(Nonce(3), [Plain(3), Plain(4)], OnlyFirst(), Never(), Never(), false, 0);
    assert GapOpens(v, false, [Plain(3), Plain(4)], OnlyFirst(), Nonce(5), PlainTerms(3, 4), Never(), 1);
  }

  /** Adds one more at a free nonce to a pool that queues everything. */
  method AddQueued(pool: TxPool, tx: Tx, ghost txs: seq<Tx>)
    requires pool.Valid() && pool.config == OVERFULL_CONFIG && !pool.isMagma && Queued(pool.View(), txs) && |txs| < 7
    requires NumSlots(tx) == 1 && forall t :: t in txs ==> t.sender != tx.sender || t.nonce != tx.nonce
    modifies pool, pool.all, pool.priced
    ensures pool.Valid() && pool.all == old(pool.all) && pool.priced == old(pool.priced) && !pool.isMagma
    ensures Queued(pool.View(), txs + [tx]) && pool.priced.stales == old(pool.priced.stales)
    ensures multiset(pool.priced.items) == multiset(old(pool.priced.items)) + multiset{tx}
  {
    hide TxPool.Valid, TxPool.GapFree, SlotSum, NumSlots, Consistent, Queued, AddsByHeap, StaysAtState, Crashes;
    QueuesMore(pool.View(), txs, tx);
    QueuedSlots(pool.View(), txs);
    var out := pool.Add(tx, false, true);
    pool.WellListed();
  }

  /** A full pool of six dear transactions and a cheap one. */
  method SevenQueued() returns (pool: TxPool)
    ensures fresh(pool) && fresh(pool.all) && fresh(pool.priced) && pool.Valid()
    ensures pool.config == OVERFULL_CONFIG && !pool.isMagma && Queued(pool.View(), DearTxs(6) + [CheapTx()])
    ensures pool.priced.stales == 0 && multiset(pool.priced.items) == multiset(DearTxs(6) + [CheapTx()])
  {
    hide TxPool.Valid, TxPool.GapFree, SlotSum, NumSlots, Consistent, Queued, DearTxs;
    pool := new TxPool(OVERFULL_CONFIG, Nonce(0), 0);
    NothingQueued();
    assert DearTxs(0) == [];
    for i := 0 to 6
      invariant pool.Valid() && pool.config == OVERFULL_CONFIG && !pool.isMagma && fresh(pool.all) && fresh(pool.priced)
      invariant Queued(pool.View(), DearTxs(i)) && pool.priced.stales == 0
      invariant multiset(pool.priced.items) == multiset(DearTxs(i))
    {
      DearNext(i);
      AddQueued(pool, DearTx(i), DearTxs(i));
    }
    CheapIsFree();
    AddQueued(pool, CheapTx(), DearTxs(6));
  }

  /** Removing the cheap one and adding it again leaves two entries of it in the heap. */
  method DoubleEntry() returns (pool: TxPool)
    ensures fresh(pool) && fresh(pool.all) && fresh(pool.priced) && pool.Valid()
    ensures pool.config == OVERFULL_CONFIG && !pool.isMagma && Queued(pool.View(), DearTxs(6) + [CheapTx()])
    ensures pool.priced.stales == 1
    ensures multiset(pool.priced.items) == multiset(DearTxs(6) + [CheapTx()]) + multiset{CheapTx()}
  {
    hide TxPool.Valid, TxPool.GapFree, SlotSum, NumSlots, Consistent, Queued, DearTxs, RemoveOne;
    pool := SevenQueued();
    CheapIsFree();
    BinaryHeap.SameSize(pool.priced.items, DearTxs(6) + [CheapTx()]);
    QueuesLess(pool.View(), DearTxs(6), CheapTx());
    NonePending(pool.View(), DearTxs(6) + [CheapTx()]);
    pool.Remove(HashOf(CheapTx()));
    pool.WellListed();
    AddQueued(pool, CheapTx(), DearTxs(6));
  }

  /** A pool that adding leaves over its capacity, with a remote transaction still in it. */
  method Overfill() returns (pool: TxPool)
    ensures fresh(pool) && pool.Valid()
    ensures SlotSum(pool.all.txs) > pool.Capacity() && !OnlyLocals(pool.all.txs, pool.locals)
  {
    hide TxPool.Valid, TxPool.GapFree, SlotSum, NumSlots, Consistent, Queued, AddsByHeap, StaysAtState, AddsOne,
      DearTxs, OnlyLocals, Relieved, GapBelow, NotBetter, Cheapest;
    pool := DoubleEntry();
    BinaryHeap.SameSize(pool.priced.items, DearTxs(6) + [CheapTx()] + [CheapTx()]);
    ghost var v, before := pool.View(), pool.priced.items;
    GivesUpFifth(v);
    AfterGivingUp(v, Relieved(v, BigTx()));
    FullOfSeven(v);
    DearNext(4);
    var out := pool.Add(BigTx(), true, true);
    AddsTooMuch(v, before, pool.View(), out);
  }
}
