/**
 An account's list (blockchain/tx_list.go): a sorted map that, in strict mode, also gives
 up everything above a transaction it loses, so that what stays executable stays gap-free.
 */
module TxLists {
  import opened BinaryHeap
  import opened Transactions
  import opened TxSortedMaps
  import opened Wrappers

  /** Whether `tx` may take the place of `prev` at the same nonce. */
  predicate Replaces(tx: Tx, prev: Tx, isMagma: bool) {
    tx.isCancel || (isMagma && prev.gasPrice < tx.gasPrice)
  }

  /** The part of `m` below every transaction that `drop` selects. */
  function BelowDropped(m: Items, drop: Tx -> bool): Items {
    map n | n in m && forall k :: k in m && k <= n ==> !drop(m[k]) :: m[n]
  }

  /** The transactions that `drop` spares but that sit above one it selects. */
  function Invalidated(m: Items, drop: Tx -> bool): Items {
    map n | n in m && !drop(m[n]) && exists k :: k in m && k <= n && drop(m[k]) :: m[n]
  }

  function AboveNonce(nonce: nat): Tx -> bool {
    (tx: Tx) => tx.nonce > nonce
  }

  /** What a strict list drops, invalidates and keeps is a partition of what it held. */
  lemma StrictPartition(m: Items, drop: Tx -> bool)
    ensures BelowDropped(m, drop) + Where(m, drop) + Invalidated(m, drop) == m
    ensures BelowDropped(m, drop).Keys !! Where(m, drop).Keys !! Invalidated(m, drop).Keys
    ensures LowestOf(m, BelowDropped(m, drop))
  {
  }

  class TxList {
    const strict: bool
    const txs: TxSortedMap

    ghost predicate Valid()
      reads this, txs
    {
      txs.Valid()
    }

    constructor (strict: bool)
      ensures Valid() && fresh(txs) && txs.items == map[] && this.strict == strict
    {
      this.strict := strict;
      txs := new TxSortedMap();
    }

    /** Inserts `tx` unless an older transaction at its nonce is better; reports what it replaced. */
    method Add(tx: Tx, isMagma: bool) returns (inserted: bool, replaced: Option<Tx>)
      requires Valid()
      modifies txs
      ensures Valid()
      ensures inserted <==> (tx.nonce in old(txs.items) ==> Replaces(tx, old(txs.items)[tx.nonce], isMagma))
      ensures txs.items == if inserted then old(txs.items)[tx.nonce := tx] else old(txs.items)
      ensures replaced == if inserted && tx.nonce in old(txs.items) then Some(old(txs.items)[tx.nonce]) else None
    {
      replaced := txs.Get(tx.nonce);
      if replaced.Some? {
        if tx.isCancel {
        } else if isMagma {
          if replaced.value.gasPrice >= tx.gasPrice { return false, None; }
        } else {
          return false, None;
        }
      }
      txs.Put(tx);
      inserted := true;
    }

    /** Removes what `drop` selects and, in strict mode, everything above the lowest of it. */
    method Filter(drop: Tx -> bool) returns (removed: seq<Tx>, invalids: seq<Tx>)
      requires Valid()
      modifies txs
      ensures Valid()
      ensures multiset(removed) == multiset(Where(old(txs.items), drop).Values)
      ensures !strict ==> txs.items == Unless(old(txs.items), drop) && invalids == []
      ensures strict ==> txs.items == BelowDropped(old(txs.items), drop)
      ensures strict ==> multiset(invalids) == multiset(Invalidated(old(txs.items), drop).Values)
    {
      ghost var m := txs.items;
      removed := txs.Filter(drop);
      invalids := [];
      if strict && |removed| > 0 {
        var lowest := LowestNonce(removed);
        AboveLowest(m, drop, removed, lowest);
        invalids := txs.Filter(AboveNonce(lowest));
      } else if strict {
        NothingSelected(m, drop, removed);
        NothingDropped(m, drop);
      }
    }

    /** Removes the transaction at `tx`'s nonce and, in strict mode, everything above it. */
    method Remove(tx: Tx) returns (found: bool, invalids: seq<Tx>)
      requires Valid()
      modifies txs
      ensures Valid()
      ensures found <==> tx.nonce in old(txs.items)
      ensures !found ==> txs.items == old(txs.items) && invalids == []
      ensures found && !strict ==> txs.items == old(txs.items) - {tx.nonce} && invalids == []
      ensures found && strict ==> txs.items == Below(old(txs.items), tx.nonce)
      ensures found && strict ==> multiset(invalids) == multiset(From(old(txs.items), tx.nonce + 1).Values)
    {
      invalids := [];
      found := txs.Remove(tx.nonce);
      if found && strict {
        AboveRemoved(old(txs.items), tx.nonce);
        invalids := txs.Filter(AboveNonce(tx.nonce));
      }
    }
  }

  method LowestNonce(txs: seq<Tx>) returns (lowest: nat)
    requires |txs| > 0
    ensures exists j :: 0 <= j < |txs| && txs[j].nonce == lowest
    ensures forall j :: 0 <= j < |txs| ==> lowest <= txs[j].nonce
  {
    lowest := txs[0].nonce;
    for i := 1 to |txs|
      invariant exists j :: 0 <= j < i && txs[j].nonce == lowest
      invariant forall j :: 0 <= j < i ==> lowest <= txs[j].nonce
    {
      if lowest > txs[i].nonce { lowest := txs[i].nonce; }
    }
  }

  lemma AboveRemoved(m: Items, n: nat)
    requires WellKeyed(m)
    ensures Unless(m - {n}, AboveNonce(n)) == Below(m, n)
    ensures Where(m - {n}, AboveNonce(n)) == From(m, n + 1)
  {
  }

  /** Above the lowest dropped nonce lies exactly what a strict list invalidates. */
  lemma AboveLowest(m: Items, drop: Tx -> bool, removed: seq<Tx>, lowest: nat)
    requires WellKeyed(m) && multiset(removed) == multiset(Where(m, drop).Values)
    requires exists j :: 0 <= j < |removed| && removed[j].nonce == lowest
    requires forall j :: 0 <= j < |removed| ==> lowest <= removed[j].nonce
    ensures Unless(Unless(m, drop), AboveNonce(lowest)) == BelowDropped(m, drop)
    ensures Where(Unless(m, drop), AboveNonce(lowest)) == Invalidated(m, drop)
  {
    assert lowest in m && drop(m[lowest]) by {
      var j :| 0 <= j < |removed| && removed[j].nonce == lowest;
      InSeq(removed, removed[j]);
      assert removed[j] in Where(m, drop).Values;
    }
    forall n | n in m && drop(m[n]) ensures lowest <= n {
      assert n in Where(m, drop);
      assert m[n] in Where(m, drop).Values;
      InSeq(removed, m[n]);
    }
  }

  lemma NothingDropped(m: Items, drop: Tx -> bool)
    requires Unless(m, drop) == m
    ensures BelowDropped(m, drop) == m && Invalidated(m, drop) == map[]
  {
    forall n | n in m ensures !drop(m[n]) {
      assert n in Unless(m, drop);
    }
  }

  /** The lowest and the highest nonce of a non-empty list. */
  method NonceRange(m: Items) returns (lo: nat, hi: nat)
    requires m != map[]
    ensures IsLowest(m, lo) && hi in m && forall n :: n in m ==> n <= hi
  {
    var left := m.Keys;
    lo :| lo in left;
    hi := lo;
    left := left - {lo};
    while left != {}
      invariant left <= m.Keys && lo in m && hi in m
      invariant forall n :: n in m && n !in left ==> lo <= n <= hi
      decreases |left|
    {
      var n :| n in left;
      if n < lo { lo := n; }
      if n > hi { hi := n; }
      left := left - {n};
    }
  }

  /** [lo, hi) are the nonces that a list's Ready call takes out. */
  ghost predicate ReadyBounds(m: Items, start: nat, baseFee: nat, lo: nat, hi: nat) {
    if forall n :: n in m ==> n > start then lo == hi == 0
    else
      && IsLowest(m, lo) && lo <= start && lo <= hi
      && (forall n :: lo <= n < hi ==> n in m && m[n].gasPrice >= baseFee)
      && (hi in m ==> m[hi].gasPrice < baseFee)
  }

  method ReadyRange(m: Items, start: nat, baseFee: nat) returns (lo: nat, hi: nat)
    ensures ReadyBounds(m, start, baseFee, lo, hi)
  {
    if m == map[] { return 0, 0; }
    var top;
    lo, top := NonceRange(m);
    if lo > start { return 0, 0; }
    hi := lo;
    while hi in m && m[hi].gasPrice >= baseFee
      invariant lo <= hi && forall n :: lo <= n < hi ==> n in m && m[n].gasPrice >= baseFee
      decreases top + 1 - hi
    {
      hi := hi + 1;
    }
  }

  /** The range names the run that TxSortedMap's Ready and ReadyWithGasPrice return. */
  lemma ReadyMatchesList(m: Items, start: nat, baseFee: nat, lo: nat, hi: nat)
    requires ReadyBounds(m, start, baseFee, lo, hi)
    ensures exists run :: TakesRun(m, start, run, PricedFrom(baseFee), From(m, hi)) && |run| == hi - lo
  {
    if forall n :: n in m ==> n > start {
      assert From(m, 0) == m;
      assert TakesRun(m, start, [], PricedFrom(baseFee), From(m, hi));
    } else {
      var run := seq(hi - lo, i requires 0 <= i < hi - lo => m[lo + i]);
      assert forall i :: 0 <= i < |run| ==> Holds(m, lo + i, run[i]);
      RunTaken(m, start, lo, run, PricedFrom(baseFee));
    }
  }

  /** The `k` lowest nonces of a list, or all of it. */
  method LowestPart(m: Items, k: nat) returns (keep: Items)
    ensures LowestOf(m, keep) && |keep| == if |m| <= k then |m| else k
  {
    keep := m;
    while |keep| > k
      invariant LowestOf(m, keep) && (k <= |keep| || keep == m)
      decreases |keep|
    {
      var lo, hi := NonceRange(keep);
      assert (keep - {hi}).Keys == keep.Keys - {hi};
      keep := keep - {hi};
    }
  }

  /** The list's transactions by nonce. */
  method Listing(m: Items) returns (s: seq<Tx>)
    requires WellKeyed(m)
    ensures NonceSorted(m, s) && |s| == |m|
  {
    OrdersAreWeak();
    s := Values(m);
    s := Sort(s, TxByNonce);
    SortedListing(m, s);
    NonceSortedSize(m, s);
  }
}
