/**
 The pool's steps on values: virtual nonces, promotion, revalidation, limits, eviction and
 removal, with what each does to the account lists and why none of them opens a gap.
 */
module PoolSteps {
  import opened PoolLevels
  import opened PoolLists
  import opened Transactions
  import opened TxLists

  datatype Config = Config(execSlotsAccount: nat, execSlotsAll: nat, nonExecSlotsAccount: nat, nonExecSlotsAll: nat)

  /** The nonce an account's next transaction is expected to have, stale entries corrected. */
  function VirtualNonce(stateNonce: Address -> nat, pendingNonce: map<Address, nat>, a: Address): nat {
    if a in pendingNonce && pendingNonce[a] >= stateNonce(a) then pendingNonce[a] else stateNonce(a)
  }

  function SetNonce(pendingNonce: map<Address, nat>, a: Address, nonce: nat): map<Address, nat> {
    pendingNonce[a := nonce]
  }

  lemma SetTwice(pendingNonce: map<Address, nat>, a: Address, x: nat, y: nat)
    ensures SetNonce(SetNonce(pendingNonce, a, x), a, y) == SetNonce(pendingNonce, a, y)
  {
  }

  /** Removing a pending transaction lowers its sender's virtual nonce to its own, but not below the state nonce. */
  ghost predicate Lowered(nonce: Address -> nat, pn: map<Address, nat>, pn': map<Address, nat>, t: Tx,
                          wasPending: bool) {
    forall a ::
      var v := VirtualNonce(nonce, pn, a);
      VirtualNonce(nonce, pn', a) ==
        if !wasPending || a != t.sender || v <= t.nonce then v else if t.nonce < nonce(a) then nonce(a) else t.nonce
  }

  /** Virtual nonces that equal the state nonce go on doing so. */
  ghost predicate StaysAtState(stateNonce: Address -> nat, pn0: map<Address, nat>, pn: map<Address, nat>) {
    forall a :: VirtualNonce(stateNonce, pn0, a) == stateNonce(a) ==> VirtualNonce(stateNonce, pn, a) == stateNonce(a)
  }

  ghost predicate Fills(items: Items, lo: nat, hi: nat) {
    forall n :: n in items <==> lo <= n < hi
  }

  /** Every account's pending nonces are exactly those from its state nonce up to its virtual nonce. */
  ghost predicate Gapless(p: Lists, stateNonce: Address -> nat, pendingNonce: map<Address, nat>) {
    forall a :: Fills(ItemsOf(p, a), stateNonce(a), VirtualNonce(stateNonce, pendingNonce, a))
  }

  /** What promotion depends on besides the lists. */
  datatype Terms = Terms(nonce: Address -> nat, floor: nat, locals: set<Address>, limit: nat, unpayable: Tx -> bool)

  /** What revalidation depends on besides the lists. */
  datatype Checks = Checks(nonce: Address -> nat, unpayable: Tx -> bool, marked: Tx -> bool, isMagma: bool,
                           gasPrice: nat)

  datatype Snapshot = Snapshot(pending: Lists, queue: Lists, nonces: map<Address, nat>)

  /** When accounts count as not heard from for too long. */
  datatype Eviction = Eviction(now: nat, lifetime: nat, keepLocals: bool, locals: set<Address>) {
    ghost predicate Kept(a: Address) {
      keepLocals && a in locals
    }

    ghost predicate Expired(heard: map<Address, nat>, a: Address) {
      a in heard && !Kept(a) && now - heard[a] > lifetime
    }
  }

  ghost predicate EvictedOrNot(e: Eviction, q0: Lists, q: Lists, heard: map<Address, nat>, beats: map<Address, nat>,
                               todo: set<Address>, a: Address) {
    && ItemsOf(q, a) == (if a !in todo && e.Expired(heard, a) then map[] else ItemsOf(q0, a))
    && (a in beats <==> a in heard && (a in todo || !(e.Kept(a) || e.Expired(heard, a))))
    && (a in beats && a in heard ==> beats[a] == heard[a])
  }

  /** Expired accounts not in `todo` have lost their queues, and no other account has lost anything queued. */
  ghost predicate EvictedExcept(e: Eviction, q0: Lists, q: Lists, heard: map<Address, nat>, beats: map<Address, nat>,
                                todo: set<Address>) {
    forall a :: EvictedOrNot(e, q0, q, heard, beats, todo, a)
  }

  lemma NobodyEvicted(e: Eviction, q: Lists, beats: map<Address, nat>)
    ensures EvictedExcept(e, q, q, beats, beats, beats.Keys)
  {
  }

  lemma EvictsOne(e: Eviction, q0: Lists, q: Lists, heard: map<Address, nat>, beats: map<Address, nat>,
                  todo: set<Address>, a: Address)
    requires EvictedExcept(e, q0, q, heard, beats, todo) && a in todo && a in heard
    ensures !e.Expired(heard, a) ==>
      EvictedExcept(e, q0, q, heard, if e.Kept(a) then beats - {a} else beats, todo - {a})
    ensures e.Expired(heard, a) ==>
      EvictedExcept(e, q0, if a in q then TrimSome(q, a, q[a].Keys) else q, heard, beats - {a}, todo - {a})
  {
    var q' := if e.Expired(heard, a) && a in q then TrimSome(q, a, q[a].Keys) else q;
    var beats' := if e.Kept(a) || e.Expired(heard, a) then beats - {a} else beats;
    forall b ensures EvictedOrNot(e, q0, q', heard, beats', todo - {a}, b) {
      assert EvictedOrNot(e, q0, q, heard, beats, todo, b);
    }
  }

  ghost function HashesOf(txs: seq<Tx>): set<Hash> {
    set t | t in txs :: HashOf(t)
  }

  lemma OneMoreHash(txs: map<Hash, Tx>, drop: seq<Tx>, i: nat)
    requires i < |drop|
    ensures txs - HashesOf(drop[..i]) - {HashOf(drop[i])} == txs - HashesOf(drop[..i + 1])
  {
    assert drop[..i + 1] == drop[..i] + [drop[i]];
    assert HashesOf(drop[..i + 1]) == HashesOf(drop[..i]) + {HashOf(drop[i])};
  }

  lemma {:induction false} FewHashes(txs: map<Hash, Tx>, drop: seq<Tx>)
    ensures |txs - HashesOf(drop)| >= |txs| - |drop|
  {
    if drop == [] {
      assert txs - HashesOf(drop) == txs;
    } else {
      var k := |drop| - 1;
      FewHashes(txs, drop[..k]);
      OneMoreHash(txs, drop, k);
      assert drop[..k + 1] == drop;
      var left := txs - HashesOf(drop[..k]);
      var h := HashOf(drop[k]);
      if h in left { assert left == (left - {h})[h := left[h]]; } else { assert left - {h} == left; }
    }
  }

  lemma CoveredAfter(before: map<Hash, Tx>, after: map<Hash, Tx>, items: seq<Tx>, drop: seq<Tx>)
    requires after == before - HashesOf(drop) && forall h :: h in before ==> HashOf(before[h]) == h
    requires forall t :: HashOf(t) in before ==> t in items || t in drop
    ensures (forall h :: h in after ==> after[h] in items) && |after| >= |before| - |drop|
  {
    FewHashes(before, drop);
    forall h | h in after ensures after[h] in items {
      var t := before[h];
      assert HashOf(t) == h;
      assert t in drop ==> h in HashesOf(drop);
    }
  }

  /** The nonce is free and below a listed one. */
  ghost predicate GapBelow(m: Items, nonce: nat) {
    nonce !in m && exists n :: n in m && n > nonce
  }

  /** Whether nothing better than `tx` is pooled at its sender and nonce. */
  predicate MayEnter(p: Lists, q: Lists, tx: Tx, isMagma: bool) {
    if HasNonce(p, tx.sender, tx.nonce) then Replaces(tx, p[tx.sender][tx.nonce], isMagma)
    else HasNonce(q, tx.sender, tx.nonce) ==> Replaces(tx, q[tx.sender][tx.nonce], isMagma)
  }

  /** The lookup with `tx` in the place of whatever was pooled at its sender and nonce. */
  ghost function Entered(p: Lists, q: Lists, txs: map<Hash, Tx>, tx: Tx): map<Hash, Tx> {
    DropPrev(if HasNonce(p, tx.sender, tx.nonce) then p else q, txs, tx)[HashOf(tx) := tx]
  }

  lemma EntersPending(p: Lists, q: Lists, txs: map<Hash, Tx>, stateNonce: Address -> nat, pn: map<Address, nat>, tx: Tx)
    requires Consistent(p, q, map[], txs) && HashOf(tx) !in txs && HasNonce(p, tx.sender, tx.nonce)
    ensures Consistent(PutIn(p, tx), q, map[], Entered(p, q, txs, tx))
    ensures Gapless(p, stateNonce, pn) ==> Gapless(PutIn(p, tx), stateNonce, pn)
    ensures HashOf(p[tx.sender][tx.nonce]) != HashOf(tx)
  {
    assert InList(p, p[tx.sender][tx.nonce]);
    PutNew(p, q, txs, tx);
    hide Consistent;
    var p' := PutIn(p, tx);
    if Gapless(p, stateNonce, pn) {
      forall a ensures Fills(ItemsOf(p', a), stateNonce(a), VirtualNonce(stateNonce, pn, a)) {
        assert Fills(ItemsOf(p, a), stateNonce(a), VirtualNonce(stateNonce, pn, a));
        assert ItemsOf(p', a).Keys == ItemsOf(p, a).Keys;
      }
    }
  }

  lemma EntersQueue(p: Lists, q: Lists, txs: map<Hash, Tx>, tx: Tx)
    requires Consistent(p, q, map[], txs) && HashOf(tx) !in txs && !HasNonce(p, tx.sender, tx.nonce)
    ensures Consistent(p, PutIn(q, tx), map[], Entered(p, q, txs, tx))
  {
    hide Consistent;
    Swapped(p, q, map[], txs);
    PutNew(q, p, txs, tx);
    Swapped(p, PutIn(q, tx), map[], Entered(p, q, txs, tx));
  }

  const FULL_VALIDATION_LIMIT := 1000

  ghost predicate Contiguous(items: Items) {
    exists lo: nat, hi: nat :: Fills(items, lo, hi)
  }

  /** The nonces run without a gap from `start`. */
  ghost predicate Rooted(items: Items, start: nat) {
    exists hi: nat :: start <= hi && Fills(items, start, hi)
  }

  /** Lists that had no gap now run without a gap from the account's state nonce. */
  ghost predicate Revalidated(p0: Lists, p: Lists, stateNonce: Address -> nat) {
    forall a :: Contiguous(ItemsOf(p0, a)) ==> Rooted(ItemsOf(p, a), stateNonce(a))
  }

  /** What an account's pending list and queue become when it is revalidated, dropping what `drop` selects. */
  ghost predicate DemotedBy(c: Checks, a: Address, drop: Tx -> bool, pending0: Items, queue0: Items, pending: Items,
                            queue: Items) {
    var live := From(pending0, c.nonce(a));
    && pending == StillExecutable(live, c.nonce(a), drop, c.isMagma, c.gasPrice)
    && queue == queue0 + (Unless(live, drop) - pending.Keys)
  }

  /** What is dropped of an account: what is unpayable if it is fully validated, and else what is marked. */
  ghost function DropOf(c: Checks, full: set<Address>, a: Address): Tx -> bool {
    if a in full then c.unpayable else c.marked
  }

  ghost predicate DemotedOrNot(c: Checks, full: set<Address>, p0: Lists, q0: Lists, p: Lists, q: Lists,
                               todo: set<Address>, a: Address) {
    if a in p0 && a !in todo then
      DemotedBy(c, a, DropOf(c, full, a), p0[a], ItemsOf(q0, a), ItemsOf(p, a), ItemsOf(q, a))
    else (a in p <==> a in p0) && ItemsOf(p, a) == ItemsOf(p0, a) && ItemsOf(q, a) == ItemsOf(q0, a)
  }

  /** The accounts not in `todo` have been revalidated, and nothing has happened to the others. */
  ghost predicate DemotedExcept(c: Checks, full: set<Address>, p0: Lists, q0: Lists, p: Lists, q: Lists,
                                todo: set<Address>) {
    forall a :: DemotedOrNot(c, full, p0, q0, p, q, todo, a)
  }

  /** What is revalidated in full stays within the limit until it is reached. */
  lemma FromFits(m: Items, nonce: nat)
    ensures |From(m, nonce)| <= |m|
  {
    var live := From(m, nonce);
    assert live.Keys <= m.Keys;
    Subset(live.Keys, m.Keys);
  }

  lemma {:induction false} Subset<T>(x: set<T>, y: set<T>)
    requires x <= y
    ensures |x| <= |y|
    decreases |x|
  {
    if x != {} {
      var e :| e in x;
      Subset(x - {e}, y - {e});
    }
  }

  /** What of some accounts' lists is not too old. */
  ghost function LiveLists(p: Lists, nonce: Address -> nat, full: set<Address>): Lists {
    map a | a in p && a in full :: From(p[a], nonce(a))
  }

  /**
   Accounts are validated in full, one after the other, until FULL_VALIDATION_LIMIT transactions have been: so
   all are, or those that are hold the limit, and without the last one of them they did not.
   */
  ghost predicate FullUpTo(p: Lists, nonce: Address -> nat, full: set<Address>) {
    && full <= p.Keys && (full == p.Keys || Total(LiveLists(p, nonce, full)) >= FULL_VALIDATION_LIMIT)
    && (full == {} || exists last :: last in full && Total(LiveLists(p, nonce, full - {last})) < FULL_VALIDATION_LIMIT)
  }

  /** So far the accounts not in `left` have been seen, and `cnt` transactions of those in `full` counted. */
  ghost predicate Counted(p0: Lists, nonce: Address -> nat, left: Lists, full: set<Address>, cnt: nat) {
    && left.Keys <= p0.Keys && (forall a :: a in left ==> left[a] == p0[a])
    && cnt == Total(LiveLists(p0, nonce, full)) && cnt + Total(left) <= Total(p0) && full <= p0.Keys - left.Keys
    && (cnt < FULL_VALIDATION_LIMIT ==> full == p0.Keys - left.Keys)
    && (full == {} || exists last :: last in full && Total(LiveLists(p0, nonce, full - {last})) < FULL_VALIDATION_LIMIT)
  }

  lemma CountsNone(p0: Lists, nonce: Address -> nat)
    ensures Counted(p0, nonce, p0, {}, 0)
  {
    assert LiveLists(p0, nonce, {}) == map[];
    assert LenTable(LiveLists(p0, nonce, {})) == map[];
  }

  lemma CountsOne(p0: Lists, nonce: Address -> nat, left: Lists, full: set<Address>, cnt: nat, a: Address)
    requires Counted(p0, nonce, left, full, cnt) && a in left
    ensures a in p0 && a !in full
    ensures if cnt < FULL_VALIDATION_LIMIT then
              Counted(p0, nonce, left - {a}, full + {a}, cnt + |From(p0[a], nonce(a))|)
            else Counted(p0, nonce, left - {a}, full, cnt)
  {
    hide Total, From;
    FromFits(left[a], nonce(a));
    TotalWithout(left, a);
    var grown := LiveLists(p0, nonce, full + {a});
    TotalWithout(grown, a);
    assert grown - {a} == LiveLists(p0, nonce, full);
    assert full + {a} - {a} == full;
  }

  lemma CountsAll(p0: Lists, nonce: Address -> nat, left: Lists, full: set<Address>, cnt: nat)
    requires Counted(p0, nonce, left, full, cnt) && left.Keys == {}
    ensures FullUpTo(p0, nonce, full) && (Total(p0) < FULL_VALIDATION_LIMIT ==> full == p0.Keys)
  {
    hide Total;
    TotalNonNegative(left);
  }

  lemma NobodyDemoted(c: Checks, p: Lists, q: Lists)
    ensures DemotedExcept(c, {}, p, q, p, q, p.Keys)
  {
  }

  /** The lists of `todo` are still as they were. */
  ghost predicate Waiting(p0: Lists, p: Lists, todo: set<Address>) {
    todo <= p0.Keys && forall a :: a in todo ==> a in p && p[a] == p0[a]
  }

  lemma EveryoneWaits(p: Lists)
    ensures Waiting(p, p, p.Keys)
  {
  }

  lemma WaitingAt(p0: Lists, p: Lists, todo: set<Address>, a: Address)
    requires Waiting(p0, p, todo) && a in todo
    ensures a in p && a in p0 && p[a] == p0[a]
  {
  }

  lemma DemotesOne(c: Checks, full: set<Address>, p0: Lists, q0: Lists, p: Lists, q: Lists, q': Lists,
                   todo: set<Address>, a: Address, full': set<Address>)
    requires DemotedExcept(c, full, p0, q0, p, q, todo) && a in todo && todo <= p0.Keys
    requires forall b :: b in todo ==> b in p
    requires full <= full' <= full + {a}
    requires Requeued(q, q', a, var live, drop := From(p[a], c.nonce(a)), DropOf(c, full', a);
                                Unless(live, drop) - StillExecutable(live, c.nonce(a), drop, c.isMagma,
                                                                     c.gasPrice).Keys)
    ensures var p' := TrimTo(p, a, StillExecutable(From(p[a], c.nonce(a)), c.nonce(a), DropOf(c, full', a), c.isMagma,
                                                   c.gasPrice));
            DemotedExcept(c, full', p0, q0, p', q', todo - {a}) && forall b :: b in todo - {a} ==> b in p'
  {
    hide StillExecutable, From, Unless, DemotedBy;
    var drop := DropOf(c, full', a);
    var keep := StillExecutable(From(p[a], c.nonce(a)), c.nonce(a), drop, c.isMagma, c.gasPrice);
    var p' := TrimTo(p, a, keep);
    assert DemotedOrNot(c, full, p0, q0, p, q, todo, a);
    assert ItemsOf(p', a) == keep;
    IsDemoted(c, a, drop, p0[a], ItemsOf(q0, a), keep, ItemsOf(q', a));
    forall b | b != a ensures DemotedOrNot(c, full', p0, q0, p', q', todo - {a}, b) {
      assert DemotedOrNot(c, full, p0, q0, p, q, todo, b);
    }
  }

  lemma IsDemoted(c: Checks, a: Address, drop: Tx -> bool, pending0: Items, queue0: Items, pending: Items, queue: Items)
    requires pending == StillExecutable(From(pending0, c.nonce(a)), c.nonce(a), drop, c.isMagma, c.gasPrice)
    requires queue == queue0 + (Unless(From(pending0, c.nonce(a)), drop) - pending.Keys)
    ensures DemotedBy(c, a, drop, pending0, queue0, pending, queue)
  {
  }

  /** Revalidation roots every list that had no gap at the account's state nonce. */
  lemma DemotedRevalidates(c: Checks, full: set<Address>, p0: Lists, q0: Lists, p: Lists, q: Lists)
    requires DemotedExcept(c, full, p0, q0, p, q, {})
    ensures Revalidated(p0, p, c.nonce)
  {
    hide StillExecutable, Contiguous, Rooted;
    forall a | Contiguous(ItemsOf(p0, a)) ensures Rooted(ItemsOf(p, a), c.nonce(a)) {
      assert DemotedOrNot(c, full, p0, q0, p, q, {}, a);
      if a in p0 {
        ExecutableRooted(p0[a], c.nonce(a), DropOf(c, full, a), c.isMagma, c.gasPrice);
      } else {
        NothingRooted(c.nonce(a));
      }
    }
  }

  lemma NothingRooted(start: nat)
    ensures Rooted(map[], start)
  {
    assert Fills(map[], start, start);
  }

  /** What stays executable of a list without gaps runs without a gap from the state nonce. */
  lemma ExecutableRooted(m: Items, nonce: nat, drop: Tx -> bool, isMagma: bool, gasPrice: nat)
    requires Contiguous(m)
    ensures Rooted(StillExecutable(From(m, nonce), nonce, drop, isMagma, gasPrice), nonce)
  {
    hide BelowDropped;
    var live := From(m, nonce);
    var whole := BelowDropped(live, drop);
    BelowDroppedPart(live, drop);
    if nonce in whole {
      var lo: nat, hi: nat :| Fills(m, lo, hi);
      assert Fills(live, nonce, hi);
      PrefixRooted(live, nonce, hi, drop);
      PrefixRooted(whole, nonce, nonce + |whole|, PricedBelow(gasPrice));
    } else {
      assert Fills(map[], nonce, nonce);
      PrefixRooted(map[], nonce, nonce, PricedBelow(gasPrice));
    }
  }

  lemma PrefixRooted(m: Items, lo: nat, hi: nat, drop: Tx -> bool)
    requires Fills(m, lo, hi) && lo <= hi
    ensures Fills(BelowDropped(m, drop), lo, lo + |BelowDropped(m, drop)|) && Rooted(BelowDropped(m, drop), lo)
  {
    StrictPartition(m, drop);
    LowestFills(m, lo, hi, BelowDropped(m, drop));
  }

  /** The lowest part of a gap-free list is gap-free from the same start. */
  lemma {:induction false} LowestFills(m: Items, lo: nat, hi: nat, keep: Items)
    requires Fills(m, lo, hi) && lo <= hi && LowestOf(m, keep)
    ensures Fills(keep, lo, lo + |keep|)
    decreases hi - lo
  {
    if lo == hi {
      assert keep == map[];
    } else if hi - 1 in keep {
      assert keep == m;
      FillsSize(m, lo, hi);
    } else {
      LowestFills(m - {hi - 1}, lo, hi - 1, keep);
    }
  }

  lemma {:induction false} FillsSize(m: Items, lo: nat, hi: nat)
    requires Fills(m, lo, hi) && lo <= hi
    ensures |m| == hi - lo
    decreases hi - lo
  {
    if lo == hi {
      assert m == map[];
    } else {
      assert (m - {hi - 1}).Keys == m.Keys - {hi - 1};
      FillsSize(m - {hi - 1}, lo, hi - 1);
    }
  }

  /** Virtual nonces follow the last pending transaction where there is one, and are untouched elsewhere. */
  ghost predicate AdoptedNonces(p: Lists, pn: map<Address, nat>, pn': map<Address, nat>) {
    && (forall a :: a in p && p[a] != map[] ==> a in pn' && Past(p[a], pn'[a]))
    && (forall a :: ItemsOf(p, a) == map[] ==> SameEntry(pn, pn', a))
  }

  /** `v` is one past the highest nonce. */
  ghost predicate Past(items: Items, v: nat) {
    v > 0 && v - 1 in items && forall n :: n in items ==> n < v
  }

  lemma PastHighest(items: Items, hi: nat)
    requires hi in items && forall n :: n in items ==> n <= hi
    ensures Past(items, hi + 1)
  {
  }

  ghost predicate SameEntry(pn: map<Address, nat>, pn': map<Address, nat>, a: Address) {
    (a in pn' <==> a in pn) && (a in pn && a in pn' ==> pn'[a] == pn[a])
  }

  /** The list runs without a gap from the state nonce, and an empty one has no virtual nonce above it. */
  ghost predicate RootedAt(p: Lists, stateNonce: Address -> nat, pn: map<Address, nat>, a: Address) {
    && Rooted(ItemsOf(p, a), stateNonce(a))
    && (ItemsOf(p, a) == map[] ==> VirtualNonce(stateNonce, pn, a) == stateNonce(a))
  }

  /** Adopted virtual nonces leave no gap exactly when every account's list is rooted at its state nonce. */
  lemma AdoptedGapless(p: Lists, stateNonce: Address -> nat, pn: map<Address, nat>, pn': map<Address, nat>)
    requires AdoptedNonces(p, pn, pn')
    ensures Gapless(p, stateNonce, pn') <==> forall a :: RootedAt(p, stateNonce, pn, a)
  {
    hide Rooted;
    forall a
      ensures Fills(ItemsOf(p, a), stateNonce(a), VirtualNonce(stateNonce, pn', a)) <==> RootedAt(p, stateNonce, pn, a)
    {
      AdoptedFills(p, stateNonce, pn, pn', a);
    }
  }

  lemma AdoptedFills(p: Lists, stateNonce: Address -> nat, pn: map<Address, nat>, pn': map<Address, nat>, a: Address)
    requires AdoptedNonces(p, pn, pn')
    ensures Fills(ItemsOf(p, a), stateNonce(a), VirtualNonce(stateNonce, pn', a)) <==> RootedAt(p, stateNonce, pn, a)
  {
    var items, v := ItemsOf(p, a), VirtualNonce(stateNonce, pn', a);
    if Rooted(items, stateNonce(a)) {
      var hi: nat :| stateNonce(a) <= hi && Fills(items, stateNonce(a), hi);
      if items == map[] {
        assert v > stateNonce(a) ==> stateNonce(a) !in items;
      } else {
        assert hi > stateNonce(a) ==> hi - 1 in items;
        assert pn'[a] - 1 in p[a];
      }
    }
  }

  lemma GaplessContiguous(p: Lists, stateNonce: Address -> nat, pn: map<Address, nat>)
    ensures Gapless(p, stateNonce, pn) ==> forall a :: Contiguous(ItemsOf(p, a))
  {
    if Gapless(p, stateNonce, pn) {
      forall a ensures Contiguous(ItemsOf(p, a)) {
        assert Fills(ItemsOf(p, a), stateNonce(a), VirtualNonce(stateNonce, pn, a));
      }
    }
  }

  /** One account: its pending list, its queue and its virtual nonce. */
  datatype Account = Account(pending: Items, queue: Items, virtual: nat)

  function AccountOf(nonce: Address -> nat, s: Snapshot, a: Address): Account {
    Account(ItemsOf(s.pending, a), ItemsOf(s.queue, a), VirtualNonce(nonce, s.nonces, a))
  }

  /** What of an account's queue is not too old and payable. */
  ghost function Live(t: Terms, a: Address, queued: Items): Items {
    Unless(From(queued, t.nonce(a)), t.unpayable)
  }

  /**
   What promotion does to an account with a queue: what is too old or unpayable goes, the ready
   run from the virtual nonce joins the pending list and moves the virtual nonce past it, and
   the rest stays up to the limit.
   */
  ghost predicate Promoted(t: Terms, a: Address, x: Account, y: Account) {
    exists lo: nat, hi: nat :: RunPromoted(t, a, Live(t, a, x.queue), x, y, lo, hi)
  }

  ghost predicate RunPromoted(t: Terms, a: Address, live: Items, x: Account, y: Account, lo: nat, hi: nat) {
    && ReadyBounds(live, x.virtual, t.floor, lo, hi) && y.pending == x.pending + Below(live, hi)
    && CappedTo(From(live, hi), y.queue, a in t.locals, t.limit)
    && y.virtual == if lo < hi then hi else x.virtual
  }

  ghost predicate PromotedOrNot(t: Terms, s0: Snapshot, s: Snapshot, who: set<Address>, todo: set<Address>,
                                a: Address) {
    if a in who && a !in todo && a in s0.queue then Promoted(t, a, AccountOf(t.nonce, s0, a), AccountOf(t.nonce, s, a))
    else AccountOf(t.nonce, s, a) == AccountOf(t.nonce, s0, a) && (a in s.queue <==> a in s0.queue)
  }

  /** Of `who`, the accounts not in `todo` have been promoted; all other accounts are as they were. */
  ghost predicate PromotedExcept(t: Terms, s0: Snapshot, s: Snapshot, who: set<Address>, todo: set<Address>) {
    forall a :: PromotedOrNot(t, s0, s, who, todo, a)
  }

  lemma NobodyPromoted(t: Terms, s: Snapshot, who: set<Address>)
    ensures PromotedExcept(t, s, s, who, who)
  {
  }

  lemma PromotesOne(t: Terms, s0: Snapshot, s1: Snapshot, s2: Snapshot, who: set<Address>, todo: set<Address>,
                    a: Address, lo: nat, hi: nat)
    requires PromotedExcept(t, s0, s1, who, todo) && a in todo && todo <= who && a in s1.queue
    requires var live := Live(t, a, s1.queue[a]);
      && ReadyBounds(live, VirtualNonce(t.nonce, s1.nonces, a), t.floor, lo, hi)
      && s2.pending == MergeIn(s1.pending, a, Below(live, hi))
      && CappedTo(From(live, hi), ItemsOf(s2.queue, a), a in t.locals, t.limit)
    requires s2.queue == TrimTo(s1.queue, a, ItemsOf(s2.queue, a))
    requires VirtualMoved(t.nonce, s1.nonces, s2.nonces, a, lo, hi)
    ensures PromotedExcept(t, s0, s2, who, todo - {a})
  {
    hide Promoted, ReadyBounds, CappedTo, VirtualNonce, From, Live;
    assert PromotedOrNot(t, s0, s1, who, todo, a);
    MergeRequeues(s1.pending, a, Below(Live(t, a, s1.queue[a]), hi));
    OnePromoted(t, a, AccountOf(t.nonce, s0, a), AccountOf(t.nonce, s2, a), lo, hi);
    forall b | b != a ensures PromotedOrNot(t, s0, s2, who, todo - {a}, b) {
      assert PromotedOrNot(t, s0, s1, who, todo, b);
    }
  }

  lemma OnePromoted(t: Terms, a: Address, x: Account, y: Account, lo: nat, hi: nat)
    requires RunPromoted(t, a, Live(t, a, x.queue), x, y, lo, hi)
    ensures Promoted(t, a, x, y)
  {
  }

  lemma PromotesNone(t: Terms, s0: Snapshot, s: Snapshot, who: set<Address>, todo: set<Address>, a: Address)
    requires PromotedExcept(t, s0, s, who, todo) && a in todo && a !in s.queue
    ensures PromotedExcept(t, s0, s, who, todo - {a})
  {
    hide Promoted;
    assert PromotedOrNot(t, s0, s, who, todo, a);
    forall b ensures PromotedOrNot(t, s0, s, who, todo - {a}, b) {
      assert PromotedOrNot(t, s0, s, who, todo, b);
    }
  }

  // Nothing enters the pool but by being added

  /** Everything listed now was listed before. */
  ghost predicate ListedWithin(p: Lists, q: Lists, p0: Lists, q0: Lists) {
    forall x :: InList(p, x) || InList(q, x) ==> InList(p0, x) || InList(q0, x)
  }

  lemma FewerTxs(txs: map<Hash, Tx>, txs0: map<Hash, Tx>)
    requires txs.Keys <= txs0.Keys
    ensures |txs| <= |txs0|
  {
    Subset(txs.Keys, txs0.Keys);
  }

  /** The pending lists hold no more than the lookup. */
  lemma PendingFits(p: Lists, q: Lists, txs: map<Hash, Tx>)
    requires Consistent(p, q, map[], txs)
    ensures Total(p) <= |txs|
  {
    forall a, n | HasNonce(p, a, n) ensures HashOf(p[a][n]) in txs.Keys { assert InList(p, p[a][n]); }
    assert |txs.Keys| == |txs|;
    hide Consistent;
    ListsFit(p, txs.Keys);
  }

  lemma {:induction false} ListsFit(p: Lists, hashes: set<Hash>)
    requires Keyed(p) && forall a, n :: HasNonce(p, a, n) ==> HashOf(p[a][n]) in hashes
    ensures Total(p) <= |hashes|
    decreases |p|
  {
    if p == map[] {
      assert LenTable(p) == map[];
    } else {
      var a :| a in p;
      var rest, own := p - {a}, set n | n in p[a] :: HashOf(p[a][n]);
      assert rest.Keys == p.Keys - {a};
      assert forall b, n :: HasNonce(rest, b, n) <==> HasNonce(p, b, n) && b != a;
      forall h | h in own ensures h in hashes {
        var n :| n in p[a] && HashOf(p[a][n]) == h;
        assert HasNonce(p, a, n);
      }
      forall b, n | HasNonce(rest, b, n) ensures HashOf(rest[b][n]) in hashes - own {
        forall k | k in p[a] ensures HashOf(p[a][k]) != HashOf(p[b][n]) {
          assert HasNonce(p, a, k) && HasNonce(p, b, n);
        }
      }
      ListsFit(rest, hashes - own);
      assert forall n :: n in p[a] ==> HasNonce(p, a, n);
      HashesOfList(p[a], own);
      TotalWithout(p, a);
      assert |hashes - own| == |hashes| - |own| by { assert own <= hashes; }
    }
  }

  lemma {:induction false} HashesOfList(m: Items, own: set<Hash>)
    requires WellKeyed(m) && own == set n | n in m :: HashOf(m[n])
    ensures |own| == |m|
    decreases |m|
  {
    if m == map[] {
      assert own == {};
    } else {
      var n :| n in m;
      var rest := m - {n};
      assert rest.Keys == m.Keys - {n};
      var others := set k | k in rest :: HashOf(rest[k]);
      forall k | k in rest ensures HashOf(rest[k]) != HashOf(m[n]) { assert m[k].nonce == k && m[n].nonce == n; }
      forall h ensures h in own <==> h in others || h == HashOf(m[n]) {
        if h in own {
          var k :| k in m && HashOf(m[k]) == h;
          assert k == n || k in rest;
        }
      }
      HashesOfList(rest, others);
      assert own == others + {HashOf(m[n])};
    }
  }

  lemma LookupWithin(p: Lists, q: Lists, txs: map<Hash, Tx>, p0: Lists, q0: Lists, txs0: map<Hash, Tx>)
    requires Consistent(p, q, map[], txs) && Consistent(p0, q0, map[], txs0) && ListedWithin(p, q, p0, q0)
    ensures txs.Keys <= txs0.Keys
  {
    hide InList;
    forall h | h in txs ensures h in txs0 {
      var t := txs[h];
      assert HashOf(t) in txs;
      LookupIsUnion(p, q, txs, t, t);
      LookupIsUnion(p0, q0, txs0, t, t);
    }
  }

  /** Every entry of `m` is an entry of one of the two others. */
  ghost predicate FromEither(m: Items, m1: Items, m2: Items) {
    forall n :: n in m ==> (n in m1 && m[n] == m1[n]) || (n in m2 && m[n] == m2[n])
  }

  lemma PromotedItems(t: Terms, a: Address, x: Account, y: Account)
    requires Promoted(t, a, x, y)
    ensures FromEither(y.pending, x.pending, x.queue) && FromEither(y.queue, x.pending, x.queue)
  {
    hide RunPromoted, Unless, From;
    var live := Live(t, a, x.queue);
    var lo: nat, hi: nat :| RunPromoted(t, a, live, x, y, lo, hi);
    LiveParts(x.queue, t.nonce(a), t.unpayable);
    RunItems(t, a, live, x, y, lo, hi);
  }

  lemma RunItems(t: Terms, a: Address, live: Items, x: Account, y: Account, lo: nat, hi: nat)
    requires RunPromoted(t, a, live, x, y, lo, hi)
    ensures FromEither(y.pending, x.pending, live) && FromEither(y.queue, x.pending, live)
  {
    hide ReadyBounds;
  }

  lemma PromotedWithin(t: Terms, s0: Snapshot, s: Snapshot, who: set<Address>)
    requires PromotedExcept(t, s0, s, who, {})
    ensures ListedWithin(s.pending, s.queue, s0.pending, s0.queue)
  {
    hide Promoted, VirtualNonce;
    forall x | InList(s.pending, x) || InList(s.queue, x) ensures InList(s0.pending, x) || InList(s0.queue, x) {
      var a := x.sender;
      assert PromotedOrNot(t, s0, s, who, {}, a);
      if a in who && a in s0.queue { PromotedItems(t, a, AccountOf(t.nonce, s0, a), AccountOf(t.nonce, s, a)); }
    }
  }

  lemma LimitedWithin(p0: Lists, p: Lists, q0: Lists, q: Lists, locals: set<Address>, heard: map<Address, nat>,
                      config: Config, level: nat)
    requires PendingLimited(p0, p, locals, config, level) && QueueLimited(q0, q, locals, heard, config)
    ensures ListedWithin(p, q, p0, q0)
  {
    hide Total, Tight;
  }

  lemma PromotedFit(t: Terms, s0: Snapshot, s: Snapshot, who: set<Address>, txs0: map<Hash, Tx>, txs: map<Hash, Tx>)
    requires PromotedExcept(t, s0, s, who, {})
    requires Consistent(s0.pending, s0.queue, map[], txs0) && Consistent(s.pending, s.queue, map[], txs)
    ensures txs.Keys <= txs0.Keys && Total(s.pending) <= |txs0|
  {
    hide Consistent, PromotedExcept, ListedWithin, Total;
    PromotedWithin(t, s0, s, who);
    LookupWithin(s.pending, s.queue, txs, s0.pending, s0.queue, txs0);
    PendingFits(s.pending, s.queue, txs);
    FewerTxs(txs, txs0);
  }

  /** Promotion and the limits list nothing that was not listed. */
  lemma PromotionAddsNothing(t: Terms, s0: Snapshot, mid: Snapshot, s: Snapshot, who: set<Address>,
                             heard: map<Address, nat>, config: Config, level: nat)
    requires PromotedExcept(t, s0, mid, who, {}) && Limited(t, config, mid, s, heard, level)
    ensures ListedWithin(s.pending, s.queue, s0.pending, s0.queue)
  {
    hide PromotedExcept, PendingLimited, QueueLimited, InList, VirtualsCut, Total;
    PromotedWithin(t, s0, mid, who);
    LimitedWithin(mid.pending, s.pending, mid.queue, s.queue, t.locals, heard, config, level);
  }

  lemma DemotedItems(c: Checks, a: Address, drop: Tx -> bool, pending0: Items, queue0: Items, pending: Items,
                     queue: Items)
    requires DemotedBy(c, a, drop, pending0, queue0, pending, queue)
    ensures FromEither(pending, pending0, queue0) && FromEither(queue, pending0, queue0)
  {
    hide BelowDropped;
    var live := From(pending0, c.nonce(a));
    var whole := BelowDropped(live, drop);
    BelowDroppedPart(live, drop);
    BelowDroppedPart(if c.nonce(a) in whole then whole else map[], PricedBelow(c.gasPrice));
  }

  lemma DemotedWithin(c: Checks, full: set<Address>, p0: Lists, q0: Lists, p: Lists, q: Lists)
    requires DemotedExcept(c, full, p0, q0, p, q, {})
    ensures ListedWithin(p, q, p0, q0)
  {
    hide DemotedBy;
    forall x | InList(p, x) || InList(q, x) ensures InList(p0, x) || InList(q0, x) {
      var a := x.sender;
      assert DemotedOrNot(c, full, p0, q0, p, q, {}, a);
      if a in p0 { DemotedItems(c, a, DropOf(c, full, a), p0[a], ItemsOf(q0, a), ItemsOf(p, a), ItemsOf(q, a)); }
    }
  }

  /** The pending and queue limits, each excused only when there is nothing non-local left to drop. */
  ghost predicate WithinLimits(p: Lists, q: Lists, locals: set<Address>, config: Config) {
    && (Total(p) <= config.execSlotsAll || forall a :: a in p && a !in locals ==> |p[a]| <= config.execSlotsAccount)
    && (Total(q) <= config.nonExecSlotsAll || forall a :: !Kept(q, locals, a))
  }

  /** Pending lists over the limit are lowered to the highest level that fits, but not below the account allowance. */
  ghost predicate PendingLimited(p0: Lists, p: Lists, locals: set<Address>, config: Config, level: nat) {
    if Total(p0) <= config.execSlotsAll then p == p0
    else
      && level >= config.execSlotsAccount && WaterFilled(p0, p, locals, level)
      && (Total(p) <= config.execSlotsAll ==> Tight(p0, p, locals, level, config.execSlotsAll))
      && (Total(p) > config.execSlotsAll ==> level == config.execSlotsAccount)
  }

  /** Queues over the limit are drained, latest heard first, by exactly the overflow or until only locals are left. */
  ghost predicate QueueLimited(q0: Lists, q: Lists, locals: set<Address>, heard: map<Address, nat>, config: Config) {
    if Total(q0) <= config.nonExecSlotsAll then q == q0
    else
      && Drained(q0, q, locals, heard)
      && (Total(q) == config.nonExecSlotsAll || (Total(q) > config.nonExecSlotsAll && forall a :: !Kept(q, locals, a)))
  }

  /** Where lists were cut, virtual nonces fell to the cut; none rose. */
  ghost predicate VirtualsCut(nonce: Address -> nat, pn0: map<Address, nat>, pn: map<Address, nat>,
                              p0: Lists, p: Lists) {
    forall a :: VirtualCutAt(nonce, pn0, pn, p0, p, a)
  }

  ghost predicate VirtualCutAt(nonce: Address -> nat, pn0: map<Address, nat>, pn: map<Address, nat>, p0: Lists,
                               p: Lists, a: Address) {
    var v := VirtualNonce(nonce, pn, a);
    && v <= VirtualNonce(nonce, pn0, a)
    && forall k :: k in ItemsOf(p0, a) && k !in ItemsOf(p, a) ==> v <= k || v == nonce(a)
  }

  lemma NothingCutVirtually(nonce: Address -> nat, pn: map<Address, nat>, p: Lists)
    ensures VirtualsCut(nonce, pn, pn, p, p)
  {
  }

  lemma CutsCompose(nonce: Address -> nat, pn0: map<Address, nat>, pn1: map<Address, nat>, pn2: map<Address, nat>,
                    p0: Lists, p1: Lists, p2: Lists)
    requires VirtualsCut(nonce, pn0, pn1, p0, p1) && VirtualsCut(nonce, pn1, pn2, p1, p2)
    ensures VirtualsCut(nonce, pn0, pn2, p0, p2)
  {
    hide ItemsOf;
    forall a ensures VirtualCutAt(nonce, pn0, pn2, p0, p2, a) {
      assert VirtualCutAt(nonce, pn0, pn1, p0, p1, a) && VirtualCutAt(nonce, pn1, pn2, p1, p2, a);
    }
  }

  /** Dropping the highest of a list and lowering the virtual nonce to it. */
  lemma CutsTop(nonce: Address -> nat, pn0: map<Address, nat>, pn: map<Address, nat>, p: Lists, a: Address, hi: nat)
    requires a in p && hi in p[a]
    requires forall b :: b != a ==> VirtualNonce(nonce, pn, b) == VirtualNonce(nonce, pn0, b)
    requires VirtualNonce(nonce, pn, a) ==
        var v := VirtualNonce(nonce, pn0, a);
        if v <= hi then v else if hi < nonce(a) then nonce(a) else hi
    ensures VirtualsCut(nonce, pn0, pn, p, p[a := p[a] - {hi}])
  {
    var p' := p[a := p[a] - {hi}];
    forall b ensures VirtualCutAt(nonce, pn0, pn, p, p', b) {
      assert b != a ==> ItemsOf(p', b) == ItemsOf(p, b);
    }
  }

  /** What enforcing both limits does. */
  ghost predicate Limited(t: Terms, config: Config, mid: Snapshot, s: Snapshot, heard: map<Address, nat>, level: nat) {
    && PendingLimited(mid.pending, s.pending, t.locals, config, level)
    && QueueLimited(mid.queue, s.queue, t.locals, heard, config)
    && VirtualsCut(t.nonce, mid.nonces, s.nonces, mid.pending, s.pending)
    && (Total(mid.pending) <= config.execSlotsAll ==> s.nonces == mid.nonces)
  }

  lemma FilledWithin(p0: Lists, p: Lists, locals: set<Address>, level: nat, config: Config)
    requires PendingLimited(p0, p, locals, config, level)
    ensures Total(p) <= config.execSlotsAll || forall a :: a in p && a !in locals ==> |p[a]| <= config.execSlotsAccount
  {
  }

  function PricedBelow(gasPrice: nat): Tx -> bool {
    (tx: Tx) => tx.gasPrice < gasPrice
  }

  /** What stays pending of an account's transactions at or above its state nonce. */
  function StillExecutable(live: Items, nonce: nat, drop: Tx -> bool, isMagma: bool, gasPrice: nat): Items {
    var whole := BelowDropped(live, drop);
    var rooted := if nonce in whole then whole else map[];
    if isMagma then BelowDropped(rooted, PricedBelow(gasPrice)) else rooted
  }

  /** The queue of `a` holds `back` on top of what it held, and no other queue changed. */
  ghost predicate Requeued(q: Lists, q': Lists, a: Address, back: Items) {
    && ItemsOf(q', a) == ItemsOf(q, a) + back
    && forall b :: b != a ==> ItemsOf(q', b) == ItemsOf(q, b)
  }

  lemma MergeRequeues(q: Lists, a: Address, back: Items)
    ensures Requeued(q, MergeIn(q, a, back), a, back)
  {
    if back == map[] { assert ItemsOf(q, a) + back == ItemsOf(q, a); }
  }

  lemma LiveParts(m: Items, nonce: nat, drop: Tx -> bool)
    ensures var live := From(m, nonce);
            && (forall n :: n in live ==> n in m && live[n] == m[n])
            && (forall n :: n in Unless(live, drop) ==> n in live && Unless(live, drop)[n] == live[n])
            && (forall n :: n in BelowDropped(live, drop) ==>
                  n in Unless(live, drop) && Unless(live, drop)[n] == BelowDropped(live, drop)[n])
  {
  }

  lemma BelowDroppedPart(m: Items, drop: Tx -> bool)
    ensures forall n :: n in BelowDropped(m, drop) ==> n in m && BelowDropped(m, drop)[n] == m[n] && !drop(m[n])
  {
  }

  lemma RequeuedInThree(q0: Lists, q1: Lists, q2: Lists, q3: Lists, a: Address, m: Items, k1: Items, k2: Items,
                        k3: Items)
    requires forall n :: n in k1 ==> n in m && m[n] == k1[n]
    requires forall n :: n in k2 ==> n in k1 && k1[n] == k2[n]
    requires forall n :: n in k3 ==> n in k2 && k2[n] == k3[n]
    requires q1 == MergeIn(q0, a, m - k1.Keys) && q2 == MergeIn(q1, a, k1 - k2.Keys)
    requires q3 == MergeIn(q2, a, k2 - k3.Keys)
    ensures Requeued(q0, q3, a, m - k3.Keys)
  {
    hide MergeIn, Requeued;
    MergeRequeues(q0, a, m - k1.Keys);
    MergeRequeues(q1, a, k1 - k2.Keys);
    MergeRequeues(q2, a, k2 - k3.Keys);
    RequeuedTwice(q0, q1, q2, a, m, k1, k2);
    RequeuedTwice(q0, q2, q3, a, m, k2, k3);
  }

  lemma RequeuedTwice(q0: Lists, q1: Lists, q2: Lists, a: Address, m: Items, k1: Items, k2: Items)
    requires forall n :: n in k1 ==> n in m && m[n] == k1[n]
    requires forall n :: n in k2 ==> n in k1 && k1[n] == k2[n]
    requires Requeued(q0, q1, a, m - k1.Keys) && Requeued(q1, q2, a, k1 - k2.Keys)
    ensures Requeued(q0, q2, a, m - k2.Keys)
  {
    assert m - k2.Keys == (m - k1.Keys) + (k1 - k2.Keys);
    SumAssoc(ItemsOf(q0, a), m - k1.Keys, k1 - k2.Keys);
  }

  lemma SumAssoc(x: Items, y: Items, z: Items)
    ensures (x + y) + z == x + (y + z)
  {
  }

  lemma TrimOver(p: Lists, a: Address, m1: Items, m2: Items, m3: Items, keep: Items)
    ensures TrimTo(p[a := m1][a := m2][a := m3][a := keep], a, keep) == TrimTo(p, a, keep)
  {
  }

  function SetOf(s: seq<Address>): set<Address> {
    set a | a in s
  }

  function NoncesOf(txs: seq<Tx>): set<nat> {
    set t | t in txs :: t.nonce
  }

  /** The same transactions, last one first. */
  function Reversed(txs: seq<Tx>): (r: seq<Tx>)
    ensures |r| == |txs| && forall i :: 0 <= i < |r| ==> r[i] == txs[|txs| - 1 - i]
  {
    if txs == [] then [] else [txs[|txs| - 1]] + Reversed(txs[..|txs| - 1])
  }

  lemma QueuedIsPooled(p: Lists, q: Lists, txs: map<Hash, Tx>, a: Address, tx: Tx)
    requires Consistent(p, q, map[], txs) && HasNonce(q, a, tx.nonce) && q[a][tx.nonce] == tx
    ensures HashOf(tx) in txs && txs[HashOf(tx)] == tx && tx.sender == a && !HasNonce(p, a, tx.nonce)
    ensures ItemsOf(q, a) == q[a]
  {
    assert InList(q, tx);
  }

  lemma QueuedKeyed(p: Lists, q: Lists, txs: map<Hash, Tx>, a: Address)
    requires Consistent(p, q, map[], txs) && a in q
    ensures WellKeyed(q[a])
  {
    forall n | n in q[a] ensures q[a][n].nonce == n { assert HasNonce(q, a, n); }
  }

  lemma TrimNothing(q: Lists, a: Address)
    requires a in q
    ensures TrimSome(q, a, {}) == q
  {
  }

  lemma TrimMore(q: Lists, a: Address, gone: seq<Tx>, i: nat)
    requires a in q && i < |gone|
    requires forall t :: t in gone ==> t.nonce in q[a] && q[a][t.nonce] == t
    requires forall k, j :: 0 <= k < j < |gone| ==> gone[k].nonce != gone[j].nonce
    ensures var q' := TrimSome(q, a, NoncesOf(gone[..i]));
            && HasNonce(q', a, gone[i].nonce) && q'[a][gone[i].nonce] == gone[i]
            && TrimTo(q', a, q'[a] - {gone[i].nonce}) == TrimSome(q, a, NoncesOf(gone[..i + 1]))
  {
    var done, n := NoncesOf(gone[..i]), gone[i].nonce;
    assert gone[i] in gone;
    assert n !in done;
    assert gone[..i + 1] == gone[..i] + [gone[i]];
    assert NoncesOf(gone[..i + 1]) == done + {n};
    TrimOne(q, a, done, n);
  }

  lemma TrimOne(q: Lists, a: Address, done: set<nat>, n: nat)
    requires a in q && n in q[a] && n !in done
    ensures var q' := TrimSome(q, a, done);
            && HasNonce(q', a, n) && q'[a][n] == q[a][n]
            && TrimTo(q', a, q'[a] - {n}) == TrimSome(q, a, done + {n})
  {
    var keep := q[a] - done;
    assert n in keep;
    assert keep - {n} == q[a] - (done + {n});
    if done == {} { assert keep == q[a]; }
  }

  lemma AllListed(list: Items, txs: seq<Tx>)
    requires WellKeyed(list) && NonceSorted(list, txs)
    ensures forall t :: t in txs ==> t.nonce in list && list[t.nonce] == t
    ensures forall i, j :: 0 <= i < j < |txs| ==> txs[i].nonce != txs[j].nonce
    ensures NoncesOf(txs) == list.Keys
  {
    forall n | n in list ensures n in NoncesOf(txs) { assert list[n] in txs; }
  }

  lemma TopListed(list: Items, txs: seq<Tx>, k: nat, top: seq<Tx>)
    requires WellKeyed(list) && NonceSorted(list, txs) && 0 < k < |list| == |txs|
    requires top == Reversed(txs[|txs| - k..])
    ensures forall t :: t in top ==> t.nonce in list && list[t.nonce] == t
    ensures forall i, j :: 0 <= i < j < |top| ==> top[i].nonce != top[j].nonce
    ensures LowestOf(list, list - NoncesOf(top)) && |list - NoncesOf(top)| == |list| - k
    ensures list - NoncesOf(top) != map[]
    ensures NoncesOf(top) != {}
  {
    hide NonceSorted, LowestOf, NoncesOf, Below;
    var m := |txs| - k;
    assert forall i :: 0 <= i < |top| ==> top[i] == txs[|txs| - 1 - i];
    TopDistinct(list, txs, m, top);
    BelowListed(list, txs, m);
    WithoutTop(list, txs, m, top);
  }

  lemma TopDistinct(list: Items, txs: seq<Tx>, m: nat, top: seq<Tx>)
    requires NonceSorted(list, txs) && m < |txs| && |top| == |txs| - m
    requires forall i :: 0 <= i < |top| ==> top[i] == txs[|txs| - 1 - i]
    ensures forall t :: t in top ==> t.nonce in list && list[t.nonce] == t
    ensures forall i, j :: 0 <= i < j < |top| ==> top[i].nonce != top[j].nonce
  {
    forall t | t in top ensures t.nonce in list && list[t.nonce] == t {
      var j :| 0 <= j < |top| && top[j] == t;
    }
  }

  lemma WithoutTop(list: Items, txs: seq<Tx>, m: nat, top: seq<Tx>)
    requires WellKeyed(list) && NonceSorted(list, txs) && m < |txs| && |top| == |txs| - m
    requires forall i :: 0 <= i < |top| ==> top[i] == txs[|txs| - 1 - i]
    ensures list - NoncesOf(top) == Below(list, txs[m].nonce) && NoncesOf(top) != {}
  {
    hide NonceSorted, NoncesOf;
    forall n: nat ensures n in NoncesOf(top) <==> n in list && n >= txs[m].nonce { TopNonces(list, txs, m, top, n); }
    TopNonces(list, txs, m, top, txs[m].nonce);
    ListedIn(list, txs, m);
  }

  lemma ListedIn(list: Items, txs: seq<Tx>, m: nat)
    requires NonceSorted(list, txs) && m < |txs|
    ensures txs[m].nonce in list
  {
  }

  lemma BelowListed(list: Items, txs: seq<Tx>, m: nat)
    requires WellKeyed(list) && NonceSorted(list, txs) && 0 < m < |txs|
    ensures var keep := Below(list, txs[m].nonce); LowestOf(list, keep) && |keep| == m && keep != map[]
  {
    var keep := Below(list, txs[m].nonce);
    assert txs[m - 1].nonce in keep;
    PrefixSorted(list, keep, txs, m);
    NonceSortedSize(keep, txs[..m]);
  }

  lemma TopNonces(list: Items, txs: seq<Tx>, m: nat, top: seq<Tx>, n: nat)
    requires WellKeyed(list) && NonceSorted(list, txs) && m < |txs| && |top| == |txs| - m
    requires forall i :: 0 <= i < |top| ==> top[i] == txs[|txs| - 1 - i]
    ensures n in NoncesOf(top) <==> n in list && n >= txs[m].nonce
  {
    if n in NoncesOf(top) {
      var t :| t in top && t.nonce == n;
      var j :| 0 <= j < |top| && top[j] == t;
    }
    if n in list && n >= txs[m].nonce {
      var i :| 0 <= i < |txs| && txs[i] == list[n];
      assert top[|txs| - 1 - i] == txs[i];
    }
  }

  lemma CandidatesUntouched(p0: Lists, p: Lists, locals: set<Address>, allowance: nat, taken: seq<Address>,
                            left: set<Address>, level: nat)
    requires Leveling(p0, p, locals, allowance, taken, left, level)
    ensures forall a :: a in left ==> a in p && a in p0 && p[a] == p0[a] && |p0[a]| > allowance
  {
    forall a | a in left ensures a in p && a in p0 && p[a] == p0[a] && |p0[a]| > allowance {
      assert a in Offenders(p0, locals, allowance);
      assert a !in Members(taken);
    }
  }

  lemma TopFacts(p: Lists, q: Lists, txs: map<Hash, Tx>, a: Address, hi: nat)
    requires Consistent(p, q, map[], txs) && a in p && hi in p[a] && forall n :: n in p[a] ==> n <= hi
    ensures p[a][hi].sender == a && p[a][hi].nonce == hi && HasNonce(p, a, hi)
    ensures LowestOf(p[a], p[a] - {hi}) && |p[a] - {hi}| == |p[a]| - 1
    ensures PendingWithout(p, p[a][hi]) == TrimTo(p, a, p[a] - {hi})
  {
    assert HasNonce(p, a, hi);
    TopDropped(p[a], hi);
  }

  lemma TopDropped(m: Items, hi: nat)
    requires hi in m && forall n :: n in m ==> n <= hi
    ensures Below(m, hi) == m - {hi} && LowestOf(m, m - {hi}) && |m - {hi}| == |m| - 1
  {
    assert (m - {hi}).Keys == m.Keys - {hi};
  }

  lemma TrimmedGapless(p: Lists, a: Address, keep: Items, stateNonce: Address -> nat, pn: map<Address, nat>)
    requires a in p
    ensures Gapless(TrimTo(p, a, keep), stateNonce, pn) <==> Gapless(p[a := keep], stateNonce, pn)
  {
    SameItemsGapless(TrimTo(p, a, keep), p[a := keep], stateNonce, pn);
  }

  lemma SameItemsGapless(p: Lists, p': Lists, stateNonce: Address -> nat, pn: map<Address, nat>)
    requires forall a :: ItemsOf(p, a) == ItemsOf(p', a)
    ensures Gapless(p, stateNonce, pn) <==> Gapless(p', stateNonce, pn)
  {
    assert forall a :: Fills(ItemsOf(p, a), stateNonce(a), VirtualNonce(stateNonce, pn, a)) <==>
                       Fills(ItemsOf(p', a), stateNonce(a), VirtualNonce(stateNonce, pn, a));
  }

  /** Since Magma a transaction below the base fee is not ready. */
  function PriceFloor(isMagma: bool, gasPrice: nat): nat {
    if isMagma then gasPrice else 0
  }

  /** `kept` is all of `m` for a local account, and its lowest nonces up to the limit otherwise. */
  ghost predicate CappedTo(m: Items, kept: Items, isLocal: bool, limit: nat) {
    && LowestOf(m, kept)
    && |kept| == if isLocal || |m| <= limit then |m| else limit
  }

  lemma TrimAgain(q: Lists, live: Items, rest: Items, a: Address, kept: Items)
    ensures TrimTo(q[a := live][a := rest], a, kept) == TrimTo(q, a, kept)
    ensures TrimTo(q[a := live], a, kept) == TrimTo(q, a, kept)
  {
  }

  lemma SameWithout(p: Lists, q: Lists, a: Address, txs: map<Hash, Tx>)
    requires Consistent(p, q, map[], txs) && a in q && q[a] == map[]
    ensures Consistent(p, q - {a}, map[], txs)
  {
    hide Consistent;
    Swapped(p, q, map[], txs);
    TrimEmpty(q, a);
    SameContents(q, q - {a}, p, map[], txs);
    Swapped(p, q - {a}, map[], txs);
  }

  lemma ReadyFills(items: Items, start: nat, baseFee: nat, lo: nat, hi: nat)
    requires ReadyBounds(items, start, baseFee, lo, hi)
    ensures lo <= hi && Fills(Below(items, hi), lo, hi)
    ensures From(items, hi) + Below(items, hi) == items && From(items, hi).Keys !! Below(items, hi).Keys
  {
  }

  /** In a gap-free pool a ready run starts exactly at the virtual nonce. */
  lemma ReadyStartsAtVirtual(p: Lists, q: Lists, txs: map<Hash, Tx>, a: Address, stateNonce: Address -> nat,
                             pn: map<Address, nat>, v: nat, lo: nat, hi: nat, baseFee: nat)
    requires Consistent(p, q, map[], txs) && a in q && forall n :: n in q[a] ==> n >= stateNonce(a)
    requires v == VirtualNonce(stateNonce, pn, a) && ReadyBounds(q[a], v, baseFee, lo, hi)
    ensures Gapless(p, stateNonce, pn) && lo < hi ==> lo == v
  {
    if Gapless(p, stateNonce, pn) && lo < hi {
      assert Fills(ItemsOf(p, a), stateNonce(a), v);
      assert lo in q[a] && lo >= stateNonce(a) && HasNonce(q, a, lo);
      if lo < v {
        assert lo in ItemsOf(p, a);
        assert HasNonce(p, a, lo);
      }
    }
  }

  lemma SameVirtual(p: Lists, stateNonce: Address -> nat, pn: map<Address, nat>, pn': map<Address, nat>)
    requires forall b :: VirtualNonce(stateNonce, pn', b) == VirtualNonce(stateNonce, pn, b)
    ensures Gapless(p, stateNonce, pn) <==> Gapless(p, stateNonce, pn')
  {
    assert forall a :: Fills(ItemsOf(p, a), stateNonce(a), VirtualNonce(stateNonce, pn, a)) <==>
                       Fills(ItemsOf(p, a), stateNonce(a), VirtualNonce(stateNonce, pn', a));
  }

  /** The virtual nonce of `a` moves past a run that is not empty; no other virtual nonce moves. */
  ghost predicate VirtualMoved(stateNonce: Address -> nat, pn: map<Address, nat>, pn': map<Address, nat>, a: Address,
                               lo: nat, hi: nat) {
    forall b :: VirtualNonce(stateNonce, pn', b) == if b == a && lo < hi then hi else VirtualNonce(stateNonce, pn, b)
  }

  lemma ReadyMovesVirtual(stateNonce: Address -> nat, pn0: map<Address, nat>, pn: map<Address, nat>, a: Address,
                          items: Items, v: nat, floor: nat, lo: nat, hi: nat)
    requires forall b :: VirtualNonce(stateNonce, pn, b) == VirtualNonce(stateNonce, pn0, b)
    requires (forall n :: n in items ==> n >= stateNonce(a)) && ReadyBounds(items, v, floor, lo, hi)
    ensures VirtualMoved(stateNonce, pn0, if lo < hi then SetNonce(pn, a, hi) else pn, a, lo, hi)
  {
    assert lo < hi ==> lo in items;
  }

  /** Appending a run at the virtual nonce, and moving the virtual nonce past it, leaves no gap. */
  lemma GaplessExtends(p: Lists, stateNonce: Address -> nat, pn: map<Address, nat>, a: Address, run: Items, lo: nat,
                       hi: nat)
    requires lo <= hi && Fills(run, lo, hi)
    requires Gapless(p, stateNonce, pn) && lo < hi ==> lo == VirtualNonce(stateNonce, pn, a)
    ensures Gapless(p, stateNonce, pn) ==>
              Gapless(MergeIn(p, a, run), stateNonce, if lo < hi then SetNonce(pn, a, hi) else pn)
  {
    var p', pn' := MergeIn(p, a, run), if lo < hi then SetNonce(pn, a, hi) else pn;
    if Gapless(p, stateNonce, pn) {
      assert lo == hi ==> run == map[];
      forall b ensures Fills(ItemsOf(p', b), stateNonce(b), VirtualNonce(stateNonce, pn', b)) {
        assert Fills(ItemsOf(p, b), stateNonce(b), VirtualNonce(stateNonce, pn, b));
        if b == a && lo < hi {
          assert lo in run;
          assert ItemsOf(p', a) == ItemsOf(p, a) + run;
        }
      }
    }
  }

  lemma RunEnds(p: Lists, a: Address, run: Items, lo: nat, hi: nat)
    requires Fills(run, lo, hi) && lo <= hi
    ensures MergeIn(p, a, Below(run, lo)) == p && forall b, n :: !HasNonce(Single(a, From(run, hi)), b, n)
    ensures From(run, lo) == run && Below(run, lo) == map[] && From(run, hi) == map[] && Below(run, hi) == run
  {
  }

  lemma RunStep(p: Lists, a: Address, run: Items, lo: nat, hi: nat, n: nat)
    requires Fills(run, lo, hi) && lo <= n < hi
    ensures n in From(run, n) && From(run, n)[n] == run[n] && From(run, n) - {n} == From(run, n + 1)
    ensures run[n].sender == a && run[n].nonce == n ==>
              PutIn(MergeIn(p, a, Below(run, n)), run[n]) == MergeIn(p, a, Below(run, n + 1))
  {
    assert Below(run, n + 1) == Below(run, n)[n := run[n]];
    PutMerged(p, a, Below(run, n), run[n]);
  }

  lemma PutMerged(p: Lists, a: Address, part: Items, t: Tx)
    ensures t.sender == a ==> PutIn(MergeIn(p, a, part), t) == MergeIn(p, a, part[t.nonce := t])
  {
    var items := ItemsOf(p, a);
    assert items + part[t.nonce := t] == (items + part)[t.nonce := t];
    assert t.nonce in part[t.nonce := t];
    if t.sender == a {
      if part == map[] {
        assert items + part[t.nonce := t] == items[t.nonce := t];
      } else {
        assert ItemsOf(MergeIn(p, a, part), a) == items + part;
      }
    }
  }

  lemma LimboMember(p: Lists, q: Lists, a: Address, left: Items, n: nat, txs: map<Hash, Tx>)
    requires Consistent(p, q, Single(a, left), txs) && n in left
    ensures InList(Single(a, left), left[n]) && left[n].sender == a && left[n].nonce == n
    ensures Without(Single(a, left), left[n]) == Single(a, left - {n})
    ensures |left - {n}| < |left|
  {
    assert HasNonce(Single(a, left), a, n);
    assert (left - {n}).Keys == left.Keys - {n};
  }

  lemma RequeueStep(p: Lists, q: Lists, a: Address, left: Items, n: nat, txs: map<Hash, Tx>)
    requires Consistent(p, q, Single(a, left), txs) && n in left
    ensures left[n].sender == a && left[n].nonce == n && !HasNonce(q, a, n)
    ensures HashOf(left[n]) in txs
    ensures Consistent(p, PutIn(q, left[n]), Single(a, left - {n}), txs)
  {
    var l := Single(a, left);
    assert HasNonce(l, a, n);
    assert InList(l, left[n]);
    Swapped(p, q, l, txs);
    FileOne(q, p, l, txs, left[n]);
    assert Without(l, left[n]) == Single(a, left - {n});
    Swapped(PutIn(q, left[n]), p, Single(a, left - {n}), txs);
  }

  /** All of `back` but what is left has been merged into the queue of `a`. */
  ghost predicate MergedSoFar(q0: Lists, q: Lists, a: Address, back: Items, left: Items) {
    (forall k :: k in left ==> k in back && left[k] == back[k]) && q == MergeIn(q0, a, back - left.Keys)
  }

  lemma NothingMerged(q: Lists, a: Address, back: Items)
    ensures MergedSoFar(q, q, a, back, back)
  {
  }

  lemma MergeStep(q0: Lists, q: Lists, a: Address, back: Items, left: Items, n: nat)
    requires MergedSoFar(q0, q, a, back, left) && n in left
    ensures left[n].sender == a && left[n].nonce == n ==> MergedSoFar(q0, PutIn(q, left[n]), a, back, left - {n})
  {
    if left[n].sender == a && left[n].nonce == n {
      assert back - (left - {n}).Keys == (back - left.Keys)[n := left[n]];
      PutMerged(q0, a, back - left.Keys, left[n]);
    }
  }

  lemma AllMerged(q0: Lists, q: Lists, a: Address, back: Items)
    requires MergedSoFar(q0, q, a, back, map[])
    ensures q == MergeIn(q0, a, back)
  {
    var none: Items := map[];
    assert back - none.Keys == back;
  }

  /** The pending lists once `t` is removed. */
  function PendingWithout(p: Lists, t: Tx): Lists {
    if HasNonce(p, t.sender, t.nonce) then TrimTo(p, t.sender, Below(p[t.sender], t.nonce)) else p
  }

  /** The queue once `t` is removed. */
  function QueueWithout(p: Lists, q: Lists, t: Tx): Lists {
    if HasNonce(p, t.sender, t.nonce) then MergeIn(q, t.sender, From(p[t.sender], t.nonce + 1))
    else TrimTo(q, t.sender, ItemsOf(q, t.sender) - {t.nonce})
  }

  /** A pooled transaction is the one found at its own nonce, so removal by nonce takes out the right one. */
  lemma RemovalSplits(p: Lists, q: Lists, txs: map<Hash, Tx>, t: Tx)
    requires Consistent(p, q, map[], txs) && HashOf(t) in txs
    ensures HasNonce(p, t.sender, t.nonce) <==> InList(p, t)
    ensures InList(p, t) ==>
      Consistent(PendingWithout(p, t), q, Single(t.sender, From(p[t.sender], t.nonce + 1)), txs - {HashOf(t)})
    ensures !InList(p, t) ==> InList(q, t) && Consistent(p, QueueWithout(p, q, t), map[], txs - {HashOf(t)})
  {
    LookupIsUnion(p, q, txs, t, t);
    if InList(p, t) {
      RemovePending(p, q, txs, t);
    } else {
      RemoveQueued(p, q, txs, t);
    }
  }

  lemma RemovePending(p: Lists, q: Lists, txs: map<Hash, Tx>, t: Tx)
    requires Consistent(p, q, map[], txs) && InList(p, t)
    ensures Consistent(PendingWithout(p, t), q, Single(t.sender, From(p[t.sender], t.nonce + 1)), txs - {HashOf(t)})
  {
    hide Consistent;
    var a, items := t.sender, p[t.sender];
    SetAside(p, q, txs, a, Below(items, t.nonce), From(items, t.nonce));
    var limbo := Single(a, From(items, t.nonce));
    assert HasNonce(limbo, a, t.nonce);
    ForgetOne(PendingWithout(p, t), q, limbo, txs, t);
    assert From(items, t.nonce) - {t.nonce} == From(items, t.nonce + 1);
    assert Without(limbo, t) == Single(a, From(items, t.nonce + 1));
  }

  lemma RemoveQueued(p: Lists, q: Lists, txs: map<Hash, Tx>, t: Tx)
    requires Consistent(p, q, map[], txs) && InList(q, t)
    ensures Consistent(p, TrimTo(q, t.sender, q[t.sender] - {t.nonce}), map[], txs - {HashOf(t)})
  {
    hide Consistent;
    var a, items := t.sender, q[t.sender];
    Swapped(p, q, map[], txs);
    SetAside(q, p, txs, a, items - {t.nonce}, map[t.nonce := t]);
    var q', limbo := TrimTo(q, a, items - {t.nonce}), Single(a, map[t.nonce := t]);
    assert HasNonce(limbo, a, t.nonce);
    ForgetOne(q', p, limbo, txs, t);
    Emptied(q', p, a, Without(limbo, t), txs - {HashOf(t)});
    Swapped(p, q', map[], txs - {HashOf(t)});
  }

  /** Cutting an account's pending list at a nonce, and its virtual nonce with it, leaves no gap. */
  lemma GaplessBelow(p: Lists, stateNonce: Address -> nat, pn: map<Address, nat>, pn': map<Address, nat>, t: Tx)
    requires Gapless(p, stateNonce, pn) ==> HasNonce(p, t.sender, t.nonce)
    requires forall b :: b != t.sender ==> VirtualNonce(stateNonce, pn', b) == VirtualNonce(stateNonce, pn, b)
    requires VirtualNonce(stateNonce, pn', t.sender) ==
        var v := VirtualNonce(stateNonce, pn, t.sender);
        if v <= t.nonce then v else if t.nonce < stateNonce(t.sender) then stateNonce(t.sender) else t.nonce
    ensures Gapless(p, stateNonce, pn) ==> Gapless(PendingWithout(p, t), stateNonce, pn')
  {
    if Gapless(p, stateNonce, pn) {
      var a, p' := t.sender, PendingWithout(p, t);
      assert Fills(ItemsOf(p, a), stateNonce(a), VirtualNonce(stateNonce, pn, a));
      assert t.nonce in ItemsOf(p, a);
      assert ItemsOf(p', a) == Below(p[a], t.nonce);
      forall b ensures Fills(ItemsOf(p', b), stateNonce(b), VirtualNonce(stateNonce, pn', b)) {
        if b != a {
          assert ItemsOf(p', b) == ItemsOf(p, b);
          assert Fills(ItemsOf(p, b), stateNonce(b), VirtualNonce(stateNonce, pn, b));
        }
      }
    }
  }

  /**
   Revalidation leaves a gap-free list exactly when the list it started from had every nonce
   between the state nonce and each nonce it keeps.
   */
  lemma RootedExactly(m: Items, nonce: nat, drop: Tx -> bool, isMagma: bool, gasPrice: nat)
    ensures var keep := StillExecutable(From(m, nonce), nonce, drop, isMagma, gasPrice);
            Rooted(keep, nonce) <==> forall k, n :: nonce <= k < n && n in keep ==> k in m
  {
    var keep := StillExecutable(From(m, nonce), nonce, drop, isMagma, gasPrice);
    forall k, n | nonce <= k < n && n in keep && k in m ensures k in keep {
      KeepsWhatIsBelow(m, nonce, drop, isMagma, gasPrice, k, n);
    }
    if keep == map[] {
      assert Fills(keep, nonce, nonce);
    } else if forall k, n :: nonce <= k < n && n in keep ==> k in m {
      var top := HighestKey(keep);
      forall k ensures k in keep <==> nonce <= k < top + 1 {
        assert nonce <= k < top ==> k in m;
      }
      assert Fills(keep, nonce, top + 1);
    }
    if Rooted(keep, nonce) {
      var hi: nat :| nonce <= hi && Fills(keep, nonce, hi);
      forall k, n | nonce <= k < n && n in keep ensures k in m {
        assert k in keep;
      }
    }
  }

  /** Executable stays exactly what has no dropped or underpriced nonce from the state nonce up to its own. */
  lemma ExecutableExactly(m: Items, nonce: nat, drop: Tx -> bool, isMagma: bool, gasPrice: nat, n: nat)
    ensures n in StillExecutable(From(m, nonce), nonce, drop, isMagma, gasPrice) <==>
              && n in m && nonce in m && nonce <= n
              && forall k :: k in m && nonce <= k <= n ==> !drop(m[k]) && (isMagma ==> m[k].gasPrice >= gasPrice)
  {
    var live := From(m, nonce);
    var whole := BelowDropped(live, drop);
    assert forall k :: k in live <==> k in m && nonce <= k;
    if n in whole {
      assert forall k :: k in live && k <= n ==> k in whole;
    }
  }

  lemma KeepsWhatIsBelow(m: Items, nonce: nat, drop: Tx -> bool, isMagma: bool, gasPrice: nat, k: nat, n: nat)
    requires nonce <= k < n && k in m && n in StillExecutable(From(m, nonce), nonce, drop, isMagma, gasPrice)
    ensures k in StillExecutable(From(m, nonce), nonce, drop, isMagma, gasPrice)
  {
    var live := From(m, nonce);
    assert n in BelowDropped(live, drop);
    assert k in live && k in BelowDropped(live, drop);
  }

  lemma {:induction false} HighestKey(m: Items) returns (top: nat)
    requires m != map[]
    ensures top in m && forall n :: n in m ==> n <= top
    decreases |m|
  {
    var k :| k in m;
    var rest := m - {k};
    assert rest.Keys == m.Keys - {k};
    assert forall n :: n in m ==> n == k || n in rest;
    top := k;
    if rest != map[] {
      var high := HighestKey(rest);
      top := if high > k then high else k;
    }
  }
}
