/**
 Adding a transaction to the pool, on values: what a full pool gives up for it, when that
 panics, and where the transaction is filed.
 */
module PoolAdds {
  import opened PoolBeats
  import opened PoolLists
  import opened PoolSteps
  import opened Transactions
  import opened TxLookups
  import opened TxPricedLists

  /** `Crashed` stands for the panic of a negative capacity; the pool is left as it is at that point. */
  datatype Outcome = Refused | Accepted(replaced: bool) | Crashed

  datatype PoolView =
    PoolView(pending: Lists, queue: Lists, txs: map<Hash, Tx>, locals: set<Address>, beats: Beats, now: nat)

  ghost predicate Sound(v: PoolView) {
    Consistent(v.pending, v.queue, map[], v.txs)
  }

  /** The pool once a transaction is removed; an unknown one changes nothing. */
  function RemoveOne(v: PoolView, t: Tx): PoolView {
    if HashOf(t) !in v.txs then v
    else
      v.(pending := PendingWithout(v.pending, t), queue := QueueWithout(v.pending, v.queue, t),
         txs := v.txs - {HashOf(t)}, beats := BeatsWithout(v.pending, v.beats, t, v.now))
  }

  function RemoveAll(v: PoolView, drop: seq<Tx>): PoolView {
    if drop == [] then v else RemoveOne(RemoveAll(v, drop[..|drop| - 1]), drop[|drop| - 1])
  }

  ghost function HighestNonce(m: Items): (n: nat)
    requires m != map[]
    ensures n in m && forall k :: k in m ==> k <= n
  {
    assert exists n :: n in m && forall k :: k in m ==> k <= n by { var top := HighestKey(m); }
    var n :| n in m && forall k :: k in m ==> k <= n;
    n
  }

  /** The transaction with the highest nonce. */
  ghost function Highest(m: Items): Tx
    requires m != map[]
  {
    m[HighestNonce(m)]
  }

  /** The pool with `tx` in the place of whatever was at its nonce. */
  ghost function Filed(v: PoolView, tx: Tx, local: bool): PoolView {
    var txs := Entered(v.pending, v.queue, v.txs, tx);
    if HasNonce(v.pending, tx.sender, tx.nonce) then v.(pending := PutIn(v.pending, tx), txs := txs)
    else
      v.(queue := PutIn(v.queue, tx), txs := txs, locals := if local then v.locals + {tx.sender} else v.locals,
         beats := Beat(v.beats, tx.sender, v.now))
  }

  /** A new transaction is filed exactly when nothing better holds its nonce. */
  ghost predicate Files(isMagma: bool, v0: PoolView, v1: PoolView, tx: Tx, local: bool, out: Outcome) {
    if MayEnter(v0.pending, v0.queue, tx, isMagma) then
      && v1 == Filed(v0, tx, local)
      && out == Accepted(HasNonce(v0.pending, tx.sender, tx.nonce) || HasNonce(v0.queue, tx.sender, tx.nonce))
    else v1 == v0 && out == Refused
  }

  /** What a full pool drops: cheapest remote ones, enough of them or all there are, and no more than needed. */
  ghost predicate Drops(v: PoolView, drop: seq<Tx>, slots: int) {
    && (forall t :: t in drop ==> HashOf(t) in v.txs && t.sender !in v.locals)
    && (forall t, h :: t in drop && h in v.txs && h !in HashesOf(drop) && v.txs[h].sender !in v.locals ==>
          !Cheaper(v.txs[h], t))
    && (SlotsOf(drop) >= slots || OnlyLocals(v.txs - HashesOf(drop), v.locals))
    && (drop != [] ==> SlotsOf(drop[..|drop| - 1]) < slots)
  }

  ghost predicate OnlyLocals(txs: map<Hash, Tx>, locals: set<Address>) {
    forall h :: h in txs ==> txs[h].sender in locals
  }

  /** The pool once the sender's highest queued transaction is given up. */
  ghost function Relieved(v: PoolView, tx: Tx): PoolView
    requires GapBelow(ItemsOf(v.queue, tx.sender), tx.nonce)
  {
    RemoveOne(v, Highest(ItemsOf(v.queue, tx.sender)))
  }

  /** The slots still missing for `tx`, negative when giving one up has freed more than that. */
  ghost function Missing(cap: nat, v: PoolView, tx: Tx): int {
    SlotSum(v.txs) + NumSlots(tx) - cap
  }

  /** What adding `tx` to a pool with room for `cap` slots does, and how it ends. */
  ghost predicate AddsOne(cap: nat, isMagma: bool, v0: PoolView, v1: PoolView, tx: Tx, local: bool, valid: bool,
                          out: Outcome) {
    if HashOf(tx) in v0.txs || !valid then out == Refused && v1 == v0
    else if Missing(cap, v0, tx) <= 0 then Files(isMagma, v0, v1, tx, local, out)
    else if !GapBelow(ItemsOf(v0.queue, tx.sender), tx.nonce) then out == Refused && v1 == v0
    else
      var v := Relieved(v0, tx);
      if !local && NotBetter(v.txs, v.locals, tx) then out == Refused && v1 == v
      else if Missing(cap, v, tx) < 0 then out == Crashed && v1 == v
      else exists drop :: Drops(v, drop, Missing(cap, v, tx)) && Files(isMagma, RemoveAll(v, drop), v1, tx, local, out)
  }

  /**
   When adding panics: the pool is full, the nonce is a gap below the sender's queued ones, the
   transaction is local or better than the cheapest left, and the one given up takes more
   slots than are missing.
   */
  ghost predicate Crashes(cap: nat, v: PoolView, tx: Tx, local: bool, valid: bool) {
    && HashOf(tx) !in v.txs && valid && Missing(cap, v, tx) > 0
    && GapBelow(ItemsOf(v.queue, tx.sender), tx.nonce)
    && var highest := Highest(ItemsOf(v.queue, tx.sender));
       && (local || !NotBetter(v.txs - {HashOf(highest)}, v.locals, tx))
       && NumSlots(highest) > Missing(cap, v, tx)
  }

  lemma HighestPooled(v: PoolView, a: Address)
    requires Sound(v) && ItemsOf(v.queue, a) != map[]
    ensures var t := Highest(ItemsOf(v.queue, a));
            && HashOf(t) in v.txs && v.txs[HashOf(t)] == t && t.sender == a && HasNonce(v.queue, a, t.nonce)
            && v.queue[a][t.nonce] == t && !HasNonce(v.pending, a, t.nonce)
            && forall n :: n in v.queue[a] ==> n <= t.nonce
  {
    hide Consistent, HighestNonce;
    QueuedKeyed(v.pending, v.queue, v.txs, a);
    QueuedIsPooled(v.pending, v.queue, v.txs, a, Highest(ItemsOf(v.queue, a)));
  }

  /** Adding a transaction panics exactly then. */
  lemma CrashesExactly(cap: nat, isMagma: bool, v0: PoolView, v1: PoolView, tx: Tx, local: bool, valid: bool,
                       out: Outcome)
    requires Sound(v0) && AddsOne(cap, isMagma, v0, v1, tx, local, valid, out)
    ensures out == Crashed <==> Crashes(cap, v0, tx, local, valid)
  {
    hide SlotSum, NumSlots, NotBetter, Consistent, Drops;
    if GapBelow(ItemsOf(v0.queue, tx.sender), tx.nonce) {
      HighestPooled(v0, tx.sender);
      SlotSumWithout(v0.txs, HashOf(Highest(ItemsOf(v0.queue, tx.sender))));
    }
  }

  /**
   Such a pool: four slots in all, taken by one queued transaction of nonce 5, and a small one of
   nonce 3 from the same sender.
   */
  lemma CrashExample()
    ensures var big, tx := Tx(1, 5, 10, 4 * TX_SLOT_SIZE, false, [], 0), Tx(1, 3, 10, 100, false, [], 0);
            var v := PoolView(map[], map[1 := map[5 := big]], map[HashOf(big) := big], {}, map[1 := 0], 0);
            Sound(v) && Crashes(4, v, tx, false, true) && Missing(4, Relieved(v, tx), tx) == -3
  {
    var big, tx := Tx(1, 5, 10, 4 * TX_SLOT_SIZE, false, [], 0), Tx(1, 3, 10, 100, false, [], 0);
    var items: Items := map[5 := big];
    var v := PoolView(map[], map[1 := items], map[HashOf(big) := big], {}, map[1 := 0], 0);
    assert NumSlots(big) == 4 && NumSlots(tx) == 1;
    var none: map<Hash, Tx> := map[];
    assert SlotSum(none) == 0 by { assert SlotTable(none) == map[]; }
    SlotSumWith(none, big);
    assert none[HashOf(big) := big] == v.txs && v.txs - {HashOf(big)} == none;
    assert Sound(v) by {
      assert forall t :: !InList(map[], t);
      assert forall t :: InList(v.queue, t) <==> t == big;
    }
    assert 5 in items && 3 !in items;
    assert Highest(items) == big;
  }

  // Room

  lemma {:induction false} RemoveAllTxs(v: PoolView, drop: seq<Tx>)
    ensures RemoveAll(v, drop).txs == v.txs - HashesOf(drop) && RemoveAll(v, drop).locals == v.locals
  {
    hide PendingWithout, QueueWithout, BeatsWithout;
    if drop == [] {
      assert v.txs - HashesOf(drop) == v.txs;
    } else {
      var k := |drop| - 1;
      RemoveAllTxs(v, drop[..k]);
      OneMoreHash(v.txs, drop, k);
      assert drop[..k + 1] == drop;
    }
  }

  /** No transaction is listed twice. */
  ghost predicate Once(drop: seq<Tx>) {
    forall t :: multiset(drop)[t] <= 1
  }

  /** No transaction that takes slots is listed twice. */
  ghost predicate SlotsOnce(drop: seq<Tx>) {
    forall t :: multiset(drop)[t] <= 1 || NumSlots(t) == 0
  }

  /** Dropping transactions frees their slots, if none that takes slots is listed twice. */
  lemma {:induction false} FreedSlots(txs: map<Hash, Tx>, drop: seq<Tx>)
    requires (forall h :: h in txs ==> HashOf(txs[h]) == h) && SlotsOnce(drop)
    requires forall t :: t in drop ==> HashOf(t) in txs
    ensures SlotSum(txs - HashesOf(drop)) == SlotSum(txs) - SlotsOf(drop)
  {
    hide SlotSum, NumSlots;
    if drop == [] {
      assert txs - HashesOf(drop) == txs;
    } else {
      var k := |drop| - 1;
      var rest, last := drop[..k], drop[k];
      assert drop == rest + [last];
      SlotsOnceInit(rest, last);
      FreedSlots(txs, rest);
      FreesLast(txs, drop);
    }
  }

  /** The last one dropped frees its slots unless it was dropped before. */
  lemma FreesLast(txs: map<Hash, Tx>, drop: seq<Tx>)
    requires (forall h :: h in txs ==> HashOf(txs[h]) == h) && drop != [] && HashOf(drop[|drop| - 1]) in txs
    ensures var rest, last := drop[..|drop| - 1], drop[|drop| - 1];
            SlotSum(txs - HashesOf(drop)) == SlotSum(txs - HashesOf(rest)) - if last in rest then 0 else NumSlots(last)
  {
    hide SlotSum, NumSlots;
    var k := |drop| - 1;
    var rest, last := drop[..k], drop[k];
    OneMoreHash(txs, drop, k);
    assert drop[..k + 1] == drop;
    var left := txs - HashesOf(rest);
    if last in rest {
      assert HashOf(last) in HashesOf(rest);
      assert left - {HashOf(last)} == left;
    } else {
      assert HashOf(last) in left && left[HashOf(last)] == last;
      SlotSumWithout(left, HashOf(last));
    }
  }

  lemma SlotsOnceInit(rest: seq<Tx>, last: Tx)
    requires SlotsOnce(rest + [last])
    ensures SlotsOnce(rest) && (last in rest ==> NumSlots(last) == 0)
  {
    forall t ensures multiset(rest)[t] <= 1 || NumSlots(t) == 0 {
      assert multiset(rest + [last])[t] >= multiset(rest)[t];
    }
    assert multiset(rest + [last])[last] == multiset(rest)[last] + 1;
    assert last in rest ==> multiset(rest)[last] > 0;
  }

  lemma DiscardedParts(v: PoolView, before: seq<Tx>, items: seq<Tx>, drop: seq<Tx>, slots: nat)
    requires Sound(v) && Discarded(v.txs, before, items, drop, slots, v.locals)
    ensures forall h :: h in v.txs ==> HashOf(v.txs[h]) == h
    ensures forall t :: t in drop ==> HashOf(t) in v.txs && t.sender !in v.locals
    ensures forall t, u :: t in drop && u in items && u.sender !in v.locals ==> !Cheaper(u, t)
    ensures SlotsOf(drop) >= slots || forall t :: t in items ==> t.sender in v.locals
    ensures drop != [] ==> SlotsOf(drop[..|drop| - 1]) < slots
  {
    hide SlotsOf, Cheaper;
  }

  /** What Discard gives is what a full pool drops. */
  lemma DiscardedDrops(v: PoolView, before: seq<Tx>, items: seq<Tx>, drop: seq<Tx>, slots: nat)
    requires Sound(v) && Discarded(v.txs, before, items, drop, slots, v.locals)
    requires forall h :: h in v.txs ==> v.txs[h] in before
    ensures Drops(v, drop, slots) && forall h :: h in v.txs ==> v.txs[h] in items || v.txs[h] in drop
  {
    hide SlotsOf, Cheaper, Discarded, Consistent;
    DiscardedMembers(v.txs, before, items, drop, slots, v.locals);
    DiscardedParts(v, before, items, drop, slots);
    assert forall h :: h in v.txs ==> v.txs[h] in items || v.txs[h] in drop;
    assert forall t :: t in drop ==> HashOf(t) in HashesOf(drop);
  }

  /** Dropping as asked makes room, or leaves only locals, when nothing that takes slots was dropped twice. */
  lemma RoomIsMade(cap: nat, v: PoolView, tx: Tx, drop: seq<Tx>)
    requires Sound(v) && Drops(v, drop, Missing(cap, v, tx)) && SlotsOnce(drop)
    ensures Missing(cap, RemoveAll(v, drop), tx) <= 0 || OnlyLocals(RemoveAll(v, drop).txs, v.locals)
  {
    hide SlotSum, NumSlots, SlotsOf, RemoveAll, Cheaper;
    RemoveAllTxs(v, drop);
    FreedSlots(v.txs, drop);
  }

  /** Every pooled remote transaction has at most one entry in the heap. */
  ghost predicate OneEntryEach(txs: map<Hash, Tx>, locals: set<Address>, items: seq<Tx>) {
    forall h :: h in txs && txs[h].sender !in locals ==> multiset(items)[txs[h]] <= 1
  }

  lemma DroppedOnce(v: PoolView, before: seq<Tx>, items: seq<Tx>, drop: seq<Tx>, slots: nat)
    requires Sound(v) && Discarded(v.txs, before, items, drop, slots, v.locals) && OneEntryEach(v.txs, v.locals, before)
    ensures Once(drop)
  {
    hide SlotsOf, Cheaper;
    forall t ensures multiset(drop)[t] <= 1 {
      if t in drop {
        assert v.txs[HashOf(t)] == t;
        assert multiset(items)[t] + multiset(drop)[t] == multiset(before)[t];
      }
    }
  }

  // Batches

  /** The states around an addition: once filed, with the virtual nonces then, and once promoted. */
  datatype AddSteps = AddSteps(filed: PoolView, nonces: map<Address, nat>, mid: Snapshot, heard: Beats, level: nat)

  /** Promotion of some accounts after filing, and then the limits. */
  ghost predicate PromotedAfter(steps: AddSteps, t: Terms, config: Config, who: set<Address>, s: Snapshot) {
    && PromotedExcept(t, Snapshot(steps.filed.pending, steps.filed.queue, steps.nonces), steps.mid, who, {})
    && Limited(t, config, steps.mid, s, steps.heard, steps.level)
    && BeatsPromoted(steps.filed.pending, steps.mid.pending, steps.filed.beats, steps.heard, steps.filed.now)
  }

  /** The senders of what newly came in. */
  ghost function Dirty(txs: seq<Tx>, outs: seq<Outcome>): set<Address>
    requires |outs| <= |txs|
  {
    set i | 0 <= i < |outs| && outs[i] == Accepted(false) :: txs[i].sender
  }

  predicate EndsInCrash(outs: seq<Outcome>) {
    outs != [] && outs[|outs| - 1] == Crashed
  }

  /** The batch is added one by one, up to its end or the first panic. */
  ghost predicate AddTrace(cap: nat, isMagma: bool, trace: seq<PoolView>, txs: seq<Tx>, local: bool, valid: nat -> bool,
                           outs: seq<Outcome>) {
    && |trace| == |outs| + 1 && |outs| <= |txs| && (|outs| < |txs| ==> EndsInCrash(outs))
    && (forall i :: 0 <= i < |outs| - 1 ==> outs[i] != Crashed)
    && forall i :: 0 <= i < |outs| ==>
         AddsOne(cap, isMagma, trace[i], trace[i + 1], txs[i], local, valid(i), outs[i])
  }

  /** The outcomes so far belong to the trace so far, and none of them is a panic. */
  ghost predicate AddedSoFar(cap: nat, isMagma: bool, trace: seq<PoolView>, txs: seq<Tx>, local: bool,
                             valid: nat -> bool, outs: seq<Outcome>) {
    && |trace| == |outs| + 1 && |outs| <= |txs|
    && forall i :: 0 <= i < |outs| ==>
         AddsOne(cap, isMagma, trace[i], trace[i + 1], txs[i], local, valid(i), outs[i]) && outs[i] != Crashed
  }

  lemma NothingAdded(cap: nat, isMagma: bool, v: PoolView, txs: seq<Tx>, local: bool, valid: nat -> bool)
    ensures AddedSoFar(cap, isMagma, [v], txs, local, valid, [])
    ensures txs == [] ==> AddTrace(cap, isMagma, [v], txs, local, valid, [])
  {
  }

  lemma AddsNext(cap: nat, isMagma: bool, trace: seq<PoolView>, txs: seq<Tx>, local: bool, valid: nat -> bool,
                 outs: seq<Outcome>, v: PoolView, out: Outcome)
    requires AddedSoFar(cap, isMagma, trace, txs, local, valid, outs) && |outs| < |txs|
    requires AddsOne(cap, isMagma, trace[|outs|], v, txs[|outs|], local, valid(|outs|), out)
    ensures out != Crashed ==> AddedSoFar(cap, isMagma, trace + [v], txs, local, valid, outs + [out])
    ensures out == Crashed || |outs| + 1 == |txs| ==>
      AddTrace(cap, isMagma, trace + [v], txs, local, valid, outs + [out])
  {
    hide AddsOne;
    forall i | 0 <= i <= |outs|
      ensures AddsOne(cap, isMagma, (trace + [v])[i], (trace + [v])[i + 1], txs[i], local, valid(i), (outs + [out])[i])
    {
      assert i < |outs| ==> (trace + [v])[i] == trace[i] && (trace + [v])[i + 1] == trace[i + 1];
    }
  }

  lemma DirtyNext(txs: seq<Tx>, outs: seq<Outcome>, out: Outcome)
    requires |outs| < |txs|
    ensures Dirty(txs, outs + [out]) == Dirty(txs, outs) + if out == Accepted(false) then {txs[|outs|].sender} else {}
  {
    var grown := outs + [out];
    forall a | a in Dirty(txs, outs) ensures a in Dirty(txs, grown) {
      var i :| 0 <= i < |outs| && outs[i] == Accepted(false) && txs[i].sender == a;
      assert grown[i] == outs[i];
    }
    if out == Accepted(false) { assert grown[|outs|] == out; }
  }

  /** Nothing but an accepted transaction enters. */
  lemma AddsNothingElse(cap: nat, isMagma: bool, v0: PoolView, v1: PoolView, tx: Tx, local: bool, valid: bool,
                        out: Outcome)
    requires AddsOne(cap, isMagma, v0, v1, tx, local, valid, out)
    ensures forall h :: h in v1.txs ==> h in v0.txs || (out.Accepted? && h == HashOf(tx))
    ensures out.Accepted? ==> valid && HashOf(tx) !in v0.txs && HashOf(tx) in v1.txs
  {
    hide SlotSum, NumSlots, NotBetter, Drops, Files, PendingWithout, QueueWithout, BeatsWithout, RemoveAll, Highest;
    if HashOf(tx) !in v0.txs && valid {
      if Missing(cap, v0, tx) <= 0 {
        FilesNothingElse(isMagma, v0, v1, tx, local, out);
      } else if GapBelow(ItemsOf(v0.queue, tx.sender), tx.nonce) {
        var v := Relieved(v0, tx);
        if (local || !NotBetter(v.txs, v.locals, tx)) && Missing(cap, v, tx) >= 0 {
          var drop :| Drops(v, drop, Missing(cap, v, tx)) && Files(isMagma, RemoveAll(v, drop), v1, tx, local, out);
          RemoveAllTxs(v, drop);
          FilesNothingElse(isMagma, RemoveAll(v, drop), v1, tx, local, out);
        }
      }
    }
  }

  lemma FilesNothingElse(isMagma: bool, v0: PoolView, v1: PoolView, tx: Tx, local: bool, out: Outcome)
    requires Files(isMagma, v0, v1, tx, local, out)
    ensures forall h :: h in v1.txs ==> h in v0.txs || (out.Accepted? && h == HashOf(tx))
    ensures out.Accepted? ==> HashOf(tx) in v1.txs
  {
    hide PutIn, MayEnter, Beat;
  }

  /** `h` is the hash of a transaction of the batch that was accepted. */
  ghost predicate Taken(txs: seq<Tx>, outs: seq<Outcome>, h: Hash) {
    exists i :: 0 <= i < |outs| <= |txs| && outs[i].Accepted? && HashOf(txs[i]) == h
  }

  lemma {:induction false} TraceAddsNothingElse(cap: nat, isMagma: bool, trace: seq<PoolView>, txs: seq<Tx>,
                                                local: bool, valid: nat -> bool, outs: seq<Outcome>, k: nat)
    requires AddTrace(cap, isMagma, trace, txs, local, valid, outs) && k <= |outs|
    ensures forall h :: h in trace[k].txs ==> h in trace[0].txs || Taken(txs, outs, h)
    ensures forall i :: 0 <= i < k && outs[i].Accepted? ==> valid(i)
  {
    hide AddsOne;
    if k > 0 {
      TraceAddsNothingElse(cap, isMagma, trace, txs, local, valid, outs, k - 1);
      AddsNothingElse(cap, isMagma, trace[k - 1], trace[k], txs[k - 1], local, valid(k - 1), outs[k - 1]);
    }
  }

  lemma NobodyDirty(txs: seq<Tx>)
    ensures Dirty(txs, []) == {}
  {
  }

  lemma NoneListed(s: seq<Address>)
    ensures SetOf(s) == {} <==> s == []
  {
    if s != [] { assert s[0] in SetOf(s); }
  }

  /** Making room does not bring the new transaction in. */
  lemma StillUnknown(v: PoolView, tx: Tx, drop: seq<Tx>)
    requires HashOf(tx) !in v.txs && GapBelow(ItemsOf(v.queue, tx.sender), tx.nonce)
    ensures HashOf(tx) !in RemoveAll(Relieved(v, tx), drop).txs
  {
    RemoveAllTxs(Relieved(v, tx), drop);
  }
}
