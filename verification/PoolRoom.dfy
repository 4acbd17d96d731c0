/**
 Exactly when the price heap makes room: a transaction with two entries in it is counted twice, and
 that frees too little unless it is dearer than every other remote one.
 */
module PoolRoom {
  import opened PoolAdds
  import opened PoolBeats
  import opened PoolLists
  import opened PoolSteps
  import opened Transactions
  import opened TxLookups
  import opened TxPricedLists

  /** A pooled remote transaction that takes slots has two entries in the heap. */
  ghost predicate Doubled(v: PoolView, before: seq<Tx>, t: Tx) {
    HashOf(t) in v.txs && t.sender !in v.locals && NumSlots(t) > 0 && multiset(before)[t] > 1
  }

  /** Every such transaction is dearer than every other pooled remote one. */
  ghost predicate DoublesDearest(v: PoolView, before: seq<Tx>) {
    forall t, h :: Doubled(v, before, t) && h in v.txs && h != HashOf(t) && v.txs[h].sender !in v.locals ==>
      Cheaper(v.txs[h], t)
  }

  /** What is dropped frees the slots asked for, or leaves only locals. */
  ghost predicate MakesRoom(v: PoolView, drop: seq<Tx>, slots: nat) {
    var left := v.txs - HashesOf(drop);
    SlotSum(left) <= SlotSum(v.txs) - slots || OnlyLocals(left, v.locals)
  }

  ghost predicate AlwaysMakesRoom(v: PoolView, before: seq<Tx>) {
    forall items, drop, slots: nat ::
      Discarded(v.txs, before, items, drop, slots, v.locals) ==> MakesRoom(v, drop, slots)
  }

  /** The heap makes room, however many slots are asked for, exactly when its doubles are the dearest. */
  lemma RoomExactly(v: PoolView, before: seq<Tx>)
    requires Sound(v) && forall h :: h in v.txs ==> v.txs[h] in before
    ensures AlwaysMakesRoom(v, before) <==> DoublesDearest(v, before)
  {
    hide Discarded, MakesRoom, Doubled, Cheaper, Sound;
    if DoublesDearest(v, before) {
      forall items, drop, slots: nat | Discarded(v.txs, before, items, drop, slots, v.locals)
        ensures MakesRoom(v, drop, slots)
      {
        DearestMakesRoom(v, before, items, drop, slots);
      }
    } else {
      var t, h :| Doubled(v, before, t) && h in v.txs && h != HashOf(t) && v.txs[h].sender !in v.locals &&
                  !Cheaper(v.txs[h], t);
      var items, drop, slots := TooLittle(v, before, t, h);
    }
  }

  /** Dropping a double twice has dropped every other remote one before it. */
  lemma DearestMakesRoom(v: PoolView, before: seq<Tx>, items: seq<Tx>, drop: seq<Tx>, slots: nat)
    requires Sound(v) && (forall h :: h in v.txs ==> v.txs[h] in before) && DoublesDearest(v, before)
    requires Discarded(v.txs, before, items, drop, slots, v.locals)
    ensures MakesRoom(v, drop, slots)
  {
    hide SlotsOf, SlotSum, NumSlots, Cheaper, Sound, Discarded;
    DiscardedParts(v, before, items, drop, slots);
    DiscardedDrops(v, before, items, drop, slots);
    if SlotsOnce(drop) {
      FreedSlots(v.txs, drop);
    } else {
      var t :| multiset(drop)[t] > 1 && NumSlots(t) != 0;
      DroppedTwice(v, before, items, drop, slots, t);
    }
  }

  lemma DroppedTwice(v: PoolView, before: seq<Tx>, items: seq<Tx>, drop: seq<Tx>, slots: nat, t: Tx)
    requires Sound(v) && (forall h :: h in v.txs ==> v.txs[h] in before) && DoublesDearest(v, before)
    requires Discarded(v.txs, before, items, drop, slots, v.locals) && multiset(drop)[t] > 1 && NumSlots(t) > 0
    ensures OnlyLocals(v.txs - HashesOf(drop), v.locals)
  {
    hide SlotsOf, NumSlots, Cheaper, Sound, Discarded;
    DiscardedParts(v, before, items, drop, slots);
    DiscardedDrops(v, before, items, drop, slots);
    assert t in drop;
    EntriesAddUp(v, before, items, drop, slots, t);
    assert Doubled(v, before, t);
    assert forall d :: d in drop ==> HashOf(d) in HashesOf(drop);
  }

  lemma EntriesAddUp(v: PoolView, before: seq<Tx>, items: seq<Tx>, drop: seq<Tx>, slots: nat, t: Tx)
    requires Discarded(v.txs, before, items, drop, slots, v.locals) && HashOf(t) in v.txs
    ensures multiset(items)[t] + multiset(drop)[t] == multiset(before)[t]
  {
    hide SlotsOf, Cheaper;
  }

  // A double that is not the dearest

  /** The entries that `p` selects. */
  ghost function Select(s: seq<Tx>, p: Tx -> bool): (r: seq<Tx>)
    ensures forall t :: multiset(r)[t] == if p(t) then multiset(s)[t] else 0
  {
    if s == [] then []
    else
      var rest, last := s[..|s| - 1], s[|s| - 1];
      assert s == rest + [last];
      Select(rest, p) + if p(last) then [last] else []
  }

  ghost function Copies(t: Tx, n: nat): (r: seq<Tx>)
    ensures forall u :: multiset(r)[u] == if u == t then n else 0
  {
    if n == 0 then [] else Copies(t, n - 1) + [t]
  }

  lemma MultisetMember(s: seq<Tx>, t: Tx)
    ensures t in s <==> multiset(s)[t] > 0
  {
  }

  /** What is dropped with the double: everything pooled, remote and cheaper. */
  ghost function Cheap(v: PoolView, t: Tx): Tx -> bool {
    (u: Tx) => HashOf(u) in v.txs && u.sender !in v.locals && Cheaper(u, t)
  }

  /** What stays besides the double. */
  ghost function Rest(v: PoolView, t: Tx): Tx -> bool {
    (u: Tx) => HashOf(u) in v.txs && u != t && (u.sender in v.locals || !Cheaper(u, t))
  }

  /** Asking for the slots of two entries of a double, and of everything cheaper, frees those of one. */
  lemma TooLittle(v: PoolView, before: seq<Tx>, t: Tx, h: Hash) returns (items: seq<Tx>, drop: seq<Tx>, slots: nat)
    requires Sound(v) && Doubled(v, before, t)
    requires h in v.txs && h != HashOf(t) && v.txs[h].sender !in v.locals && !Cheaper(v.txs[h], t)
    ensures Discarded(v.txs, before, items, drop, slots, v.locals) && !MakesRoom(v, drop, slots)
  {
    hide SlotsOf, SlotSum, NumSlots, Cheaper, Sound, Discarded, Select, Copies;
    var cheap := Select(before, Cheap(v, t));
    drop := cheap + [t] + [t];
    items := Select(before, Rest(v, t)) + Copies(t, multiset(before)[t] - 2);
    slots := SlotsOf(drop);
    SlotsOfNext(cheap + [t], t);
    assert drop[..|drop| - 1] == cheap + [t];
    LegalDrop(v, before, t, cheap, items, drop, slots);
    KeyedByHash(v);
    DroppedPooled(v, before, t, cheap);
    FreedAtMost(v.txs, cheap + [t]);
    FreesLast(v.txs, drop);
    assert t in drop[..|drop| - 1];
    var u := v.txs[h];
    assert h !in HashesOf(drop);
    var left := v.txs - HashesOf(drop);
    assert drop[|drop| - 1] == t;
    assert SlotSum(left) == SlotSum(v.txs - HashesOf(cheap + [t]));
    assert SlotSum(left) > SlotSum(v.txs) - slots;
    assert h in left && left[h] == u;
  }

  lemma KeyedByHash(v: PoolView)
    requires Sound(v)
    ensures forall h :: h in v.txs ==> HashOf(v.txs[h]) == h
  {
  }

  lemma DroppedPooled(v: PoolView, before: seq<Tx>, t: Tx, cheap: seq<Tx>)
    requires Doubled(v, before, t) && cheap == Select(before, Cheap(v, t))
    ensures forall d :: d in cheap + [t] + [t] ==>
      HashOf(d) in v.txs && d.sender !in v.locals && (d == t || Cheaper(d, t))
  {
    hide Select, Cheaper, NumSlots;
    forall d | d in cheap ensures HashOf(d) in v.txs && d.sender !in v.locals && Cheaper(d, t) {
      MultisetMember(cheap, d);
    }
  }

  lemma StaysDearer(v: PoolView, before: seq<Tx>, t: Tx, items: seq<Tx>)
    requires multiset(before)[t] > 1 && items == Select(before, Rest(v, t)) + Copies(t, multiset(before)[t] - 2)
    ensures forall u :: u in items && u.sender !in v.locals ==> !Cheaper(u, t)
  {
    hide Select, Copies;
    forall u | u in items && u.sender !in v.locals ensures !Cheaper(u, t) {
      MultisetMember(items, u);
      assert u != t ==> multiset(items)[u] == multiset(Select(before, Rest(v, t)))[u];
    }
  }

  lemma EntryCounts(v: PoolView, before: seq<Tx>, t: Tx, cheap: seq<Tx>, items: seq<Tx>, u: Tx)
    requires Doubled(v, before, t) && cheap == Select(before, Cheap(v, t))
    requires items == Select(before, Rest(v, t)) + Copies(t, multiset(before)[t] - 2)
    ensures var n := multiset(items)[u] + multiset(cheap + [t] + [t])[u];
            n <= multiset(before)[u] && (HashOf(u) in v.txs ==> n == multiset(before)[u])
  {
    hide Select, Copies, NumSlots;
    assert multiset(cheap + [t] + [t]) == multiset(cheap) + multiset{t, t};
    assert multiset(items) == multiset(Select(before, Rest(v, t))) + multiset(Copies(t, multiset(before)[t] - 2));
  }

  lemma NoneCheaper(v: PoolView, t: Tx, items: seq<Tx>, drop: seq<Tx>)
    requires forall d :: d in drop ==> d == t || Cheaper(d, t)
    requires forall u :: u in items && u.sender !in v.locals ==> !Cheaper(u, t)
    ensures forall d, u :: d in drop && u in items && u.sender !in v.locals ==> !Cheaper(u, d)
  {
  }

  lemma LegalDrop(v: PoolView, before: seq<Tx>, t: Tx, cheap: seq<Tx>, items: seq<Tx>, drop: seq<Tx>, slots: nat)
    requires Doubled(v, before, t) && cheap == Select(before, Cheap(v, t)) && drop == cheap + [t] + [t]
    requires items == Select(before, Rest(v, t)) + Copies(t, multiset(before)[t] - 2)
    requires slots == SlotsOf(drop) && SlotsOf(drop[..|drop| - 1]) < slots
    ensures Discarded(v.txs, before, items, drop, slots, v.locals)
  {
    hide SlotsOf, Select, Copies, NumSlots, Cheaper, Cheap, Rest;
    forall u ensures multiset(items)[u] + multiset(drop)[u] <= multiset(before)[u]
      ensures HashOf(u) in v.txs ==> multiset(items)[u] + multiset(drop)[u] == multiset(before)[u]
    {
      EntryCounts(v, before, t, cheap, items, u);
    }
    DroppedPooled(v, before, t, cheap);
    StaysDearer(v, before, t, items);
    NoneCheaper(v, t, items, drop);
  }

  /** Dropping transactions never frees more than their slots. */
  lemma {:induction false} FreedAtMost(txs: map<Hash, Tx>, drop: seq<Tx>)
    requires (forall h :: h in txs ==> HashOf(txs[h]) == h) && forall t :: t in drop ==> HashOf(t) in txs
    ensures SlotSum(txs - HashesOf(drop)) >= SlotSum(txs) - SlotsOf(drop)
  {
    hide SlotSum, NumSlots;
    if drop == [] {
      assert txs - HashesOf(drop) == txs;
    } else {
      FreedAtMost(txs, drop[..|drop| - 1]);
      FreesLast(txs, drop);
    }
  }

  /** The condition outlives removals, stale entries dropped from the heap, and a rebuilt heap. */
  lemma StillDearest(v0: PoolView, v: PoolView, items0: seq<Tx>, items1: seq<Tx>, items2: seq<Tx>)
    requires v.locals == v0.locals && forall h :: h in v.txs ==> h in v0.txs && v.txs[h] == v0.txs[h]
    requires (items1 == items0 || Once(items1)) && multiset(items2) <= multiset(items1)
    ensures DoublesDearest(v0, items0) ==> DoublesDearest(v, items2)
  {
    hide NumSlots, Cheaper;
    if DoublesDearest(v0, items0) {
      forall t, h | Doubled(v, items2, t) && h in v.txs && h != HashOf(t) && v.txs[h].sender !in v.locals
        ensures Cheaper(v.txs[h], t)
      {
        assert multiset(items2)[t] <= multiset(items1)[t];
        assert Doubled(v0, items0, t);
      }
    }
  }

  // A double that is the cheapest

  /** `a` is the cheapest pooled remote transaction, another one is pooled, and each takes one slot. */
  ghost predicate Cheapest(v: PoolView, a: Tx, h: Hash) {
    && HashOf(a) in v.txs && h in v.txs && h != HashOf(a)
    && (forall k :: k in v.txs ==> v.txs[k].sender !in v.locals && NumSlots(v.txs[k]) == 1)
    && forall k :: k in v.txs && k != HashOf(a) ==> Cheaper(a, v.txs[k])
  }

  /** With two entries of the cheapest transaction, asking for two slots drops it twice and frees one. */
  lemma DoubleEntryFreesTooLittle(v: PoolView, before: seq<Tx>, items: seq<Tx>, drop: seq<Tx>, a: Tx, h: Hash)
    requires Sound(v) && (forall k :: k in v.txs ==> v.txs[k] in before) && Cheapest(v, a, h)
    requires multiset(before)[a] == 2 && Discarded(v.txs, before, items, drop, 2, v.locals)
    ensures drop == [a, a] && !MakesRoom(v, drop, 2)
  {
    hide SlotsOf, SlotSum, NumSlots, Cheaper, Sound, Discarded;
    DropsDouble(v, before, items, drop, a, h);
    KeyedByHash(v);
    assert HashesOf(drop) == {HashOf(a)};
    assert v.txs[HashOf(a)] == a;
    SlotSumWithout(v.txs, HashOf(a));
    assert h in v.txs - HashesOf(drop);
  }

  lemma DropsDouble(v: PoolView, before: seq<Tx>, items: seq<Tx>, drop: seq<Tx>, a: Tx, h: Hash)
    requires Sound(v) && (forall k :: k in v.txs ==> v.txs[k] in before) && Cheapest(v, a, h)
    requires multiset(before)[a] == 2 && Discarded(v.txs, before, items, drop, 2, v.locals)
    ensures drop == [a, a]
  {
    hide SlotsOf, NumSlots, Cheaper, Sound, Discarded;
    DiscardedParts(v, before, items, drop, 2);
    DiscardedDrops(v, before, items, drop, 2);
    EntriesAddUp(v, before, items, drop, 2, a);
    MultisetMember(items, a);
    assert forall d :: d in drop ==> v.txs[HashOf(d)] == d;
    UnitSlots(drop);
    if drop != [] { UnitSlots(drop[..|drop| - 1]); }
    TwoCopies(drop, a, v.txs[h]);
  }

  /** At most two dropped, and nothing dearer without both copies of `a`. */
  lemma TwoCopies(drop: seq<Tx>, a: Tx, u: Tx)
    requires |drop| <= 2 && u != a && multiset(drop)[a] <= 2
    requires |drop| >= 2 || (u in drop && multiset(drop)[a] == 2)
    requires forall d :: d in drop && d != a ==> multiset(drop)[a] == 2
    ensures drop == [a, a]
  {
    if |drop| == 2 {
      assert drop == [drop[0], drop[1]];
      assert multiset(drop) == multiset{drop[0], drop[1]};
      assert drop[0] in drop && drop[1] in drop;
    }
  }

  lemma {:induction false} UnitSlots(txs: seq<Tx>)
    requires forall t :: t in txs ==> NumSlots(t) == 1
    ensures SlotsOf(txs) == |txs|
  {
    hide NumSlots;
    if txs != [] { UnitSlots(txs[..|txs| - 1]); }
  }

  // A pool that adding leaves over its capacity

  /** What adding to a full pool does when the heap it drops from is `before`. */
  ghost predicate AddsByHeap(cap: nat, isMagma: bool, v0: PoolView, before: seq<Tx>, v1: PoolView, tx: Tx, local: bool,
                             out: Outcome)
    requires GapBelow(ItemsOf(v0.queue, tx.sender), tx.nonce)
  {
    var v := Relieved(v0, tx);
    && Missing(cap, v, tx) >= 0
    && exists items, drop ::
         && Discarded(v.txs, before, items, drop, Missing(cap, v, tx), v.locals)
         && Files(isMagma, RemoveAll(v, drop), v1, tx, local, out)
  }

  lemma HeapAdds(cap: nat, isMagma: bool, v0: PoolView, before: seq<Tx>, v1: PoolView, tx: Tx, local: bool,
                 out: Outcome, items: seq<Tx>, drop: seq<Tx>)
    requires GapBelow(ItemsOf(v0.queue, tx.sender), tx.nonce)
    requires var v := Relieved(v0, tx);
      && Missing(cap, v, tx) >= 0 && Discarded(v.txs, before, items, drop, Missing(cap, v, tx), v.locals)
      && Files(isMagma, RemoveAll(v, drop), v1, tx, local, out)
    ensures AddsByHeap(cap, isMagma, v0, before, v1, tx, local, out)
  {
  }

  /** The pool holds these transactions, all queued and remote, each taking one slot. */
  ghost predicate Queued(v: PoolView, txs: seq<Tx>) {
    && Sound(v) && v.pending == map[] && v.locals == {} && SlotSum(v.txs) == |txs|
    && forall t :: HashOf(t) in v.txs <==> t in txs
  }

  lemma NothingQueued()
    ensures Queued(PoolView(map[], map[], map[], {}, map[], 0), [])
  {
    var none: map<Hash, Tx> := map[];
    assert SlotTable(none) == map[];
    assert forall t :: !InList(map[], t);
  }

  /** Such a pool queues one more at a free nonce. */
  lemma QueuesMore(v: PoolView, txs: seq<Tx>, tx: Tx)
    requires Queued(v, txs) && NumSlots(tx) == 1
    requires forall t :: t in txs ==> t.sender != tx.sender || t.nonce != tx.nonce
    ensures HashOf(tx) !in v.txs && !HasNonce(v.pending, tx.sender, tx.nonce) && !HasNonce(v.queue, tx.sender, tx.nonce)
    ensures Sound(Filed(v, tx, false)) ==> Queued(Filed(v, tx, false), txs + [tx])
  {
    hide SlotSum, NumSlots;
    if HasNonce(v.queue, tx.sender, tx.nonce) {
      var t := v.queue[tx.sender][tx.nonce];
      QueuedIsPooled(v.pending, v.queue, v.txs, tx.sender, t);
    }
    SlotSumWith(v.txs, tx);
  }

  lemma QueuedSlots(v: PoolView, txs: seq<Tx>)
    requires Queued(v, txs)
    ensures SlotSum(v.txs) == |txs| && v.locals == {}
  {
  }

  lemma NonePending(v: PoolView, txs: seq<Tx>)
    requires Queued(v, txs)
    ensures forall a, n :: !HasNonce(v.pending, a, n)
  {
  }

  /** Removing the last one leaves the others. */
  lemma QueuesLess(v: PoolView, txs: seq<Tx>, tx: Tx)
    requires Queued(v, txs + [tx]) && NumSlots(tx) == 1 && tx !in txs
    ensures HashOf(tx) in v.txs && v.txs[HashOf(tx)] == tx
    ensures Sound(RemoveOne(v, tx)) ==> Queued(RemoveOne(v, tx), txs)
  {
    hide SlotSum, NumSlots, Consistent, PendingWithout, QueueWithout;
    KeyedByHash(v);
    assert tx in txs + [tx];
    SlotSumWithout(v.txs, HashOf(tx));
    assert PendingWithout(v.pending, tx) == map[] by { StaysEmpty(tx); }
  }

  lemma StaysEmpty(tx: Tx)
    ensures PendingWithout(map[], tx) == map[]
  {
  }

  const OVERFULL_CONFIG := Config(3, 3, 10, 4)

  /** A cheap transaction. */
  function CheapTx(): Tx {
    Tx(1, 1, 10, 100, false, [], 0)
  }

  /** Five dearer ones of one sender and one of another. */
  function DearTx(i: nat): Tx {
    if i < 5 then Tx(2, 10 + i, 20, 100, false, [], 0) else Tx(3, 5 + i, 20, 100, false, [], 0)
  }

  function DearTxs(n: nat): (r: seq<Tx>)
    ensures |r| == n && forall i :: 0 <= i < n ==> r[i] == DearTx(i)
  {
    if n == 0 then [] else DearTxs(n - 1) + [DearTx(n - 1)]
  }

  /** One that takes three slots, at the nonce below the five. */
  function BigTx(): Tx {
    Tx(2, 9, 30, 3 * TX_SLOT_SIZE, false, [], 0)
  }

  lemma ExampleSlots()
    ensures NumSlots(CheapTx()) == 1 && NumSlots(BigTx()) == 3
  {
  }

  lemma DearTxsOf(t: Tx)
    requires t in DearTxs(6)
    ensures NumSlots(t) == 1 && Cheaper(CheapTx(), t) && t != CheapTx() && (t.sender, t.nonce) != (2, 9)
    ensures t.sender == 2 ==> 10 <= t.nonce < 15 && t == DearTx(t.nonce - 10)
  {
    var i :| 0 <= i < 6 && DearTxs(6)[i] == t;
  }

  lemma DearNext(i: nat)
    requires i < 6
    ensures DearTxs(i + 1) == DearTxs(i) + [DearTx(i)] && NumSlots(DearTx(i)) == 1
    ensures forall t :: t in DearTxs(i) ==> t.sender != DearTx(i).sender || t.nonce != DearTx(i).nonce
    ensures multiset(DearTxs(i + 1)) == multiset(DearTxs(i)) + multiset{DearTx(i)}
  {
  }

  lemma CheapIsFree()
    ensures NumSlots(CheapTx()) == 1 && CheapTx() !in DearTxs(6)
    ensures forall t :: t in DearTxs(6) ==> t.sender != CheapTx().sender || t.nonce != CheapTx().nonce
    ensures multiset(DearTxs(6) + [CheapTx()]) == multiset(DearTxs(6)) + multiset{CheapTx()}
  {
    hide DearTxs;
  }

  /** The pool is full, and the big one is new to it. */
  lemma FullOfSeven(v: PoolView)
    requires Queued(v, DearTxs(6) + [CheapTx()])
    ensures HashOf(BigTx()) !in v.txs && Missing(7, v, BigTx()) == 3
  {
    hide SlotSum, NumSlots, DearTxs;
    ExampleSlots();
    if HashOf(BigTx()) in v.txs { DearTxsOf(BigTx()); }
  }

  lemma DearListed(i: nat)
    requires i < 6
    ensures DearTx(i) in DearTxs(6)
  {
    assert DearTxs(6)[i] == DearTx(i);
  }

  /** In the full pool, the nonce of the big one is a gap below the queued ones, the highest of which is given up. */
  lemma GivesUpFifth(v: PoolView)
    requires Queued(v, DearTxs(6) + [CheapTx()])
    ensures GapBelow(ItemsOf(v.queue, 2), 9) && Highest(ItemsOf(v.queue, 2)) == DearTx(4)
    ensures !HasNonce(v.pending, 2, 9) && !HasNonce(v.queue, 2, 9)
  {
    hide SlotSum, DearTxs;
    DearListed(4);
    assert InList(v.queue, DearTx(4));
    var items := ItemsOf(v.queue, 2);
    assert 14 in items;
    forall n | n in items ensures 10 <= n < 15 && items[n] == DearTx(n - 10) {
      QueuedKeyed(v.pending, v.queue, v.txs, 2);
      QueuedIsPooled(v.pending, v.queue, v.txs, 2, items[n]);
      DearTxsOf(items[n]);
    }
  }

  /** What is left then: the cheap one and five dearer ones. */
  lemma AfterGivingUp(v0: PoolView, v: PoolView)
    requires Queued(v0, DearTxs(6) + [CheapTx()]) && GapBelow(ItemsOf(v0.queue, 2), 9) && v == Relieved(v0, BigTx())
    ensures Sound(v) && SlotSum(v.txs) == 6 && v.locals == {} && Cheapest(v, CheapTx(), HashOf(DearTx(5)))
    ensures forall k :: k in v.txs ==> v.txs[k] in DearTxs(6) + [CheapTx()]
    ensures v.pending == map[] && !HasNonce(v.queue, 2, 9)
  {
    hide SlotSum, DearTxs, NumSlots, Consistent, Cheaper;
    GivesUpFifth(v0);
    HighestPooled(v0, 2);
    var t := DearTx(4);
    RemovalSplits(v0.pending, v0.queue, v0.txs, t);
    DearListed(4);
    DearTxsOf(t);
    SlotSumWithout(v0.txs, HashOf(t));
    DearListed(5);
    assert CheapTx() in DearTxs(6) + [CheapTx()] && DearTx(5) in DearTxs(6) + [CheapTx()];
    KeyedByHash(v0);
    ExampleSlots();
    forall k | k in v.txs ensures v.txs[k] in DearTxs(6) + [CheapTx()] && NumSlots(v.txs[k]) == 1
      ensures k != HashOf(CheapTx()) ==> Cheaper(CheapTx(), v.txs[k])
    {
      assert HashOf(v.txs[k]) == k;
      if v.txs[k] in DearTxs(6) { DearTxsOf(v.txs[k]); }
    }
  }

  /** With two entries of the cheap one, adding the big one leaves eight slots taken of seven, and a remote one. */
  lemma AddsTooMuch(v0: PoolView, before: seq<Tx>, v1: PoolView, out: Outcome)
    requires Queued(v0, DearTxs(6) + [CheapTx()]) && GapBelow(ItemsOf(v0.queue, 2), 9)
    requires multiset(before) == multiset(DearTxs(6) + [CheapTx()]) + multiset{CheapTx()}
    requires AddsByHeap(7, false, v0, before, v1, BigTx(), true, out)
    ensures SlotSum(v1.txs) > 7 && !OnlyLocals(v1.txs, v1.locals)
  {
    hide SlotSum, DearTxs, NumSlots, Discarded, Cheapest, Sound, Queued, Cheaper, Relieved;
    var a, h, v := CheapTx(), HashOf(DearTx(5)), Relieved(v0, BigTx());
    AfterGivingUp(v0, v);
    ExampleSlots();
    var items, drop :| Discarded(v.txs, before, items, drop, 2, v.locals) &&
                       Files(false, RemoveAll(v, drop), v1, BigTx(), true, out);
    TwoEntries(before, a);
    DoubleEntryFreesTooLittle(v, before, items, drop, a, h);
    FilesBig(v, drop, v1, out);
  }

  lemma TwoEntries(before: seq<Tx>, a: Tx)
    requires multiset(before) == multiset(DearTxs(6) + [a]) + multiset{a} && a == CheapTx()
    ensures multiset(before)[a] == 2 && forall t :: t in DearTxs(6) + [a] ==> t in before
  {
    hide DearTxs;
    assert a !in DearTxs(6) by { if a in DearTxs(6) { DearTxsOf(a); } }
    assert multiset(DearTxs(6) + [a]) == multiset(DearTxs(6)) + multiset{a};
    forall t | t in DearTxs(6) + [a] ensures t in before {
      assert multiset(DearTxs(6) + [a])[t] > 0 && multiset(before)[t] > 0;
    }
  }

  lemma FilesBig(v: PoolView, drop: seq<Tx>, v1: PoolView, out: Outcome)
    requires Sound(v) && SlotSum(v.txs) == 6 && v.locals == {} && v.pending == map[] && !HasNonce(v.queue, 2, 9)
    requires drop == [CheapTx(), CheapTx()] && !MakesRoom(v, drop, 2)
    requires Files(false, RemoveAll(v, drop), v1, BigTx(), true, out)
    requires Cheapest(v, CheapTx(), HashOf(DearTx(5)))
    ensures SlotSum(v1.txs) > 7 && !OnlyLocals(v1.txs, v1.locals)
  {
    hide SlotSum, NumSlots, Cheaper, Sound, HashesOf;
    KeyedByHash(v);
    RemovesOnce(v, CheapTx());
    var w, h := RemoveOne(v, CheapTx()), HashOf(DearTx(5));
    RemoveAllTxs(v, drop);
    ExampleSlots();
    assert w.txs[h] == DearTx(5);
    assert HashOf(BigTx()) !in w.txs;
    assert !HasNonce(w.queue, 2, 9);
    SlotSumWith(w.txs, BigTx());
    assert v1.txs == w.txs[HashOf(BigTx()) := BigTx()] && v1.locals == {2};
    assert v1.txs[h].sender == 3;
  }

  lemma RemovesOnce(v: PoolView, a: Tx)
    ensures RemoveAll(v, [a, a]) == RemoveOne(v, a)
  {
    assert [a, a][..1] == [a] && [a][..0] == [];
    assert RemoveAll(v, [a]) == RemoveOne(v, a);
    assert HashOf(a) !in RemoveOne(v, a).txs;
  }
}
