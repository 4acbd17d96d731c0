/**
 The nonce-indexed transaction map of one account (blockchain/tx_list.go): a hash map, a
 binary heap of its nonces, and a lazily built sorted cache that the operations shift
 instead of rebuilding where they can.
 */
module TxSortedMaps {
  import opened BinaryHeap
  import opened Transactions
  import opened Wrappers

  predicate NonceLess(a: nat, b: nat) {
    a < b
  }

  predicate TxByNonce(a: Tx, b: Tx) {
    a.nonce < b.nonce
  }

  lemma OrdersAreWeak()
    ensures WeakOrder(NonceLess) && WeakOrder(TxByNonce)
  {
  }

  /** Collects the transactions of a map, in whatever order the iteration yields them. */
  method Values(m: Items) returns (s: seq<Tx>)
    requires WellKeyed(m)
    ensures multiset(s) == multiset(m.Values)
  {
    s := [];
    var left := m.Keys;
    while left != {}
      invariant left <= m.Keys
      invariant multiset(s) == multiset(set n | n in m.Keys - left :: m[n])
      decreases |left|
    {
      var n :| n in left;
      assert (set k | k in m.Keys - (left - {n}) :: m[k]) == (set k | k in m.Keys - left :: m[k]) + {m[n]};
      s := s + [m[n]];
      left := left - {n};
    }
    assert (set n | n in m.Keys - left :: m[n]) == m.Values;
  }

  /** Collects the keys of a map, in whatever order the iteration yields them. */
  method Keys(m: Items) returns (s: seq<nat>)
    ensures multiset(s) == multiset(m.Keys)
  {
    s := [];
    var left := m.Keys;
    while left != {}
      invariant left <= m.Keys
      invariant multiset(s) == multiset(m.Keys - left)
      decreases |left|
    {
      var n :| n in left;
      s := s + [n];
      left := left - {n};
    }
  }

  lemma InSeq<T>(s: seq<T>, x: T)
    ensures x in s <==> multiset(s)[x] > 0
  {
  }

  /** A sorted permutation of a list's transactions is its nonce-sorted listing. */
  lemma SortedListing(m: Items, s: seq<Tx>)
    requires WellKeyed(m) && multiset(s) == multiset(m.Values) && Sorted(s, TxByNonce)
    ensures NonceSorted(m, s)
  {
    forall i | 0 <= i < |s| ensures s[i].nonce in m && m[s[i].nonce] == s[i] {
      InSeq(s, s[i]);
      assert s[i] in m.Values;
    }
    forall i, j | 0 <= i < j < |s| ensures s[i].nonce < s[j].nonce {
      if s[i].nonce == s[j].nonce { RepeatCounts(s, i, j); }
    }
    forall n | n in m ensures m[n] in s {
      assert m[n] in m.Values;
      InSeq(s, m[n]);
    }
  }

  /** The index is a min-heap holding each key exactly once. */
  ghost predicate IndexOf(m: Items, index: seq<nat>) {
    && WellKeyed(m)
    && IsHeap(index, NonceLess)
    && multiset(index) == multiset(m.Keys)
  }

  /** Taking one entry out of the index matches deleting its key. */
  lemma DeleteKey(m: Items, before: seq<nat>, after: seq<nat>, n: nat)
    requires IndexOf(m, before) && IsHeap(after, NonceLess)
    requires multiset(before) == multiset(after) + multiset{n}
    ensures n in m && IndexOf(m - {n}, after)
  {
    assert multiset(before)[n] > 0;
    assert (m - {n}).Keys == m.Keys - {n};
    assert multiset(after) == multiset(before) - multiset{n};
  }

  ghost predicate Rising(keys: seq<nat>) {
    forall i, j :: 0 <= i < j < |keys| ==> keys[i] < keys[j]
  }

  class TxSortedMap {
    var items: Items
    var index: seq<nat>
    var cache: Option<seq<Tx>>

    /** The index is a min-heap of the keys, each once; a cache is the sorted contents. */
    ghost predicate Valid()
      reads this
    {
      && IndexOf(items, index)
      && (cache.Some? ==> NonceSorted(items, cache.value))
    }

    constructor ()
      ensures Valid() && items == map[]
    {
      items, index, cache := map[], [], None;
    }

    function Get(nonce: nat): (tx: Option<Tx>)
      reads this
    {
      if nonce in items then Some(items[nonce]) else None
    }

    method Put(tx: Tx)
      requires Valid()
      modifies this
      ensures Valid() && items == old(items)[tx.nonce := tx]
    {
      OrdersAreWeak();
      if tx.nonce !in items {
        index := Push(index, tx.nonce, NonceLess);
      }
      items := items[tx.nonce := tx];
      assert multiset(index) == multiset(items.Keys);
      cache := None;
    }

    /** The heap root is the lowest nonce. */
    lemma RootIsLowest()
      requires Valid()
      ensures |index| > 0 <==> items != map[]
      ensures |index| > 0 ==> index[0] in items && forall n :: n in items ==> index[0] <= n
    {
      OrdersAreWeak();
      if |index| > 0 {
        InSeq(index, index[0]);
        forall n | n in items ensures index[0] <= n {
          InSeq(index, n);
          var i :| 0 <= i < |index| && index[i] == n;
          RootIsLeast(index, NonceLess, i);
        }
      } else {
        forall n ensures n !in items { InSeq(index, n); }
      }
    }

    /** Takes the lowest nonce out of the map and its index, leaving the cache to the caller. */
    method PopLowest() returns (tx: Tx)
      requires IndexOf(items, index) && |index| > 0
      modifies this`items, this`index
      ensures IndexOf(items, index)
      ensures old(index[0]) in old(items) && tx == old(items[index[0]])
      ensures items == old(items) - {tx.nonce}
      ensures forall n :: n in old(items) && n != tx.nonce ==> tx.nonce < n
    {
      OrdersAreWeak();
      InSeq(index, index[0]);
      ghost var before := index;
      var nonce;
      nonce, index := Pop(index, NonceLess);
      DeleteKey(items, before, index, nonce);
      tx := items[nonce];
      items := items - {nonce};
      forall n | n in old(items) && n != nonce ensures nonce < n { InSeq(before, n); }
    }

    /** Takes the next transaction of a run. */
    method PopRun(ghost m: Items, ghost lo: nat, ghost run: seq<Tx>, ghost accept: Tx -> bool) returns (tx: Tx)
      requires IndexOf(items, index) && |index| > 0 && index[0] == lo + |run| && RunSoFar(m, lo, run, accept, items)
      requires index[0] in items ==> accept(items[index[0]])
      modifies this`items, this`index
      ensures IndexOf(items, index) && RunSoFar(m, lo, run + [tx], accept, items) && |items| < |old(items)|
    {
      hide IsHeap;
      tx := PopLowest();
      RunGrows(m, lo, run, accept, old(items), tx);
    }

    /** The heap part of Forward. */
    method PopBelow(threshold: nat) returns (removed: seq<Tx>)
      requires IndexOf(items, index)
      modifies this`items, this`index
      ensures IndexOf(items, index) && items == From(old(items), threshold)
      ensures NonceSorted(Below(old(items), threshold), removed)
    {
      hide IsHeap;
      ghost var m := items;
      removed := [];
      while |index| > 0 && index[0] < threshold
        invariant IndexOf(items, index) && Forwarded(m, items, removed, threshold)
        decreases |items|
      {
        ghost var before := items;
        var tx := PopLowest();
        assert items.Keys == before.Keys - {tx.nonce};
        ForwardStep(m, before, removed, threshold, tx);
        removed := removed + [tx];
      }
      LowestAbove(items, index, threshold);
      ForwardEnds(m, items, removed, threshold);
    }

    /** Removes every transaction below `threshold` and returns them by nonce. */
    method Forward(threshold: nat) returns (removed: seq<Tx>)
      requires Valid()
      modifies this
      ensures Valid() && items == From(old(items), threshold)
      ensures NonceSorted(Below(old(items), threshold), removed)
    {
      hide IsHeap, NonceSorted;
      removed := PopBelow(threshold);
      if cache.Some? {
        CacheForward(old(items), threshold, removed, cache.value);
        cache := Some(cache.value[|removed|..]);
      }
    }

    /** Removes every transaction `drop` selects; a rebuilt index and no cache if there were any. */
    method Filter(drop: Tx -> bool) returns (removed: seq<Tx>)
      requires Valid()
      modifies this
      ensures Valid() && items == Unless(old(items), drop)
      ensures multiset(removed) == multiset(Where(old(items), drop).Values)
    {
      ghost var m := items;
      removed := Values(Where(items, drop));
      items := Unless(items, drop);
      if |removed| > 0 {
        OrdersAreWeak();
        index := Keys(items);
        index := Init(index, NonceLess);
        cache := None;
      } else {
        NothingSelected(m, drop, removed);
      }
    }

    /** Keeps the `threshold` lowest nonces and returns the rest, highest first. */
    method Cap(threshold: int) returns (drops: Option<seq<Tx>>)
      requires Valid()
      modifies this
      ensures drops.None? <==> threshold < 0
      ensures threshold < 0 ==>
        items == map[] && multiset(index) == multiset(old(index)) && Rising(index) && cache == old(cache)
      ensures drops.Some? ==> Valid() && LowestOf(old(items), items)
      ensures drops.Some? ==> |items| == if |old(items)| <= threshold then |old(items)| else threshold
      ensures drops.Some? ==> forall i, j :: 0 <= i < j < |drops.value| ==> drops.value[i].nonce > drops.value[j].nonce
      ensures drops.Some? ==>
        forall t :: t in drops.value <==> t.nonce in old(items) - items.Keys && old(items)[t.nonce] == t
    {
      if |items| <= threshold { return Some([]); }
      if threshold < 0 {
        EmptyOut();
        return None;
      }
      ghost var m := items;
      var top := DropTop(threshold);
      if cache.Some? {
        SplitSorted(m, items, cache.value);
        NonceSortedSize(m, cache.value);
        cache := Some(cache.value[..|cache.value| - |top|]);
      }
      drops := Some(top);
    }

    /** What a negative limit does before it indexes below zero: every transaction goes, and the index stays. */
    method EmptyOut()
      requires IndexOf(items, index)
      modifies this`items, this`index
      ensures items == map[] && multiset(index) == multiset(old(index)) && Rising(index)
    {
      OrdersAreWeak();
      var ks := Sort(index, NonceLess);
      SortedKeys(items, ks);
      PrefixFacts(items, ks, 0);
      var all;
      items, all := CutTop(items, ks, 0);
      index := ks;
    }

    /** The heap part of Cap: sorts the index, cuts its top and the matching items, and re-heaps. */
    method DropTop(threshold: nat) returns (drops: seq<Tx>)
      requires IndexOf(items, index) && threshold <= |items|
      modifies this`items, this`index
      ensures IndexOf(items, index) && LowestOf(old(items), items) && |items| == threshold
      ensures |drops| == |old(items)| - threshold
      ensures forall i, j :: 0 <= i < j < |drops| ==> drops[i].nonce > drops[j].nonce
      ensures forall t :: t in drops <==> t.nonce in old(items) - items.Keys && old(items)[t.nonce] == t
    {
      OrdersAreWeak();
      var ks := Sort(index, NonceLess);
      SortedKeys(items, ks);
      PrefixFacts(items, ks, threshold);
      ghost var m := items;
      items, drops := CutTop(items, ks, threshold);
      TopDownFacts(m, ks, threshold, drops);
      index := Init(ks[..threshold], NonceLess);
    }

    /** Deletes one nonce, reporting whether it was there. */
    method Remove(nonce: nat) returns (found: bool)
      requires Valid()
      modifies this
      ensures Valid() && items == old(items) - {nonce}
      ensures found <==> nonce in old(items)
    {
      found := nonce in items;
      if !found { return; }
      OrdersAreWeak();
      var before := index;
      InSeq(before, nonce);
      var i := 0;
      while before[i] != nonce
        invariant 0 <= i < |before| && nonce !in before[..i] && items == old(items)
        decreases |before| - i
      {
        NotInPrefixes(before, i + 1, nonce);
        i := i + 1;
      }
      index := RemoveAt(before, i, NonceLess);
      DeleteKey(items, before, index, nonce);
      items := items - {nonce};
      cache := None;
    }

    /**
     Takes out the run of consecutive nonces that starts at the lowest one, provided the
     lowest one is not above `start`. Nonces below `start` beyond a gap stay behind.
     */
    method Ready(start: nat) returns (ready: seq<Tx>)
      requires Valid()
      modifies this
      ensures Valid()
      ensures TakesRun(old(items), start, ready, PricedFrom(0), items)
    {
      hide IsHeap, RunFrom, From, IsLowest, NonceSorted, RunSoFar;
      RootIsLowest();
      if |index| == 0 || index[0] > start { return []; }
      ghost var m := items;
      var lo := index[0];
      ready := [];
      RunBegins(m, lo, PricedFrom(0));
      var next := lo;
      while |index| > 0 && index[0] == next
        invariant IndexOf(items, index) && next == lo + |ready| && RunSoFar(m, lo, ready, PricedFrom(0), items)
        decreases |items|
      {
        var tx := PopRun(m, lo, ready, PricedFrom(0));
        ready := ready + [tx];
        next := next + 1;
      }
      RunEnds(m, start, lo, ready, PricedFrom(0), items, index);
      cache := None;
    }

    /** Like Ready, but the run also ends before the first transaction priced below `baseFee`. */
    method ReadyWithGasPrice(start: nat, baseFee: nat) returns (ready: seq<Tx>)
      requires Valid()
      modifies this
      ensures Valid()
      ensures TakesRun(old(items), start, ready, PricedFrom(baseFee), items)
    {
      hide IsHeap, RunFrom, From, IsLowest, NonceSorted, RunSoFar;
      RootIsLowest();
      if |index| == 0 || index[0] > start { return []; }
      ghost var m := items;
      var lo := index[0];
      ready := [];
      RunBegins(m, lo, PricedFrom(baseFee));
      var next := lo;
      while |index| > 0 && index[0] == next
        invariant IndexOf(items, index) && cache == old(cache)
        invariant next == lo + |ready| && RunSoFar(m, lo, ready, PricedFrom(baseFee), items)
        decreases |items|
      {
        InSeq(index, next);
        if items[next].gasPrice < baseFee { break; }
        var tx := PopRun(m, lo, ready, PricedFrom(baseFee));
        ready := ready + [tx];
        next := next + 1;
      }
      RunEnds(m, start, lo, ready, PricedFrom(baseFee), items, index);
      if cache.Some? {
        ShiftedCache(m, lo, ready, cache.value, PricedFrom(baseFee), items);
        cache := Some(cache.value[|ready|..]);
      }
    }

    /** Builds the cache if there is none. */
    method FillCache()
      requires Valid()
      modifies this`cache
      ensures Valid() && cache.Some?
    {
      if cache.None? {
        OrdersAreWeak();
        var s := Values(items);
        s := Sort(s, TxByNonce);
        SortedListing(items, s);
        cache := Some(s);
      }
    }

    /**
     The first `count` transactions by nonce, or all of them when `count` is zero. A negative
     count panics, which is `None` here.
     */
    method FlattenByCount(count: int) returns (r: Option<seq<Tx>>)
      requires Valid()
      modifies this`cache
      ensures Valid() && (r.None? <==> count < 0)
      ensures r.Some? ==>
        exists s :: NonceSorted(items, s) && r.value == if count != 0 && |s| > count then s[..count] else s
    {
      FillCache();
      var length: int := |cache.value|;
      if count != 0 && length > count { length := count; }
      if length < 0 { return None; }
      r := Some(cache.value[..length]);
      assert cache.value[..|cache.value|] == cache.value;
    }

    /** All transactions by nonce. */
    method Flatten() returns (txs: seq<Tx>)
      requires Valid()
      modifies this`cache
      ensures Valid() && NonceSorted(items, txs)
    {
      var all := FlattenByCount(0);
      txs := all.value;
    }

    /** At most `count` transactions by nonce, nothing for a non-positive count. */
    method CachedTxsFlattenByCount(count: int) returns (txs: seq<Tx>)
      requires Valid()
      modifies this`cache
      ensures Valid()
      ensures count <= 0 ==> txs == []
      ensures count > 0 ==> exists s :: NonceSorted(items, s) && txs == if |s| > count then s[..count] else s
    {
      if count <= 0 { return []; }
      FillCache();
      txs := if |cache.value| > count then cache.value[..count] else cache.value;
    }
  }

  /** Part way through Forward: `removed` lists what has left `m`, all of it below what is left. */
  ghost predicate Forwarded(m: Items, items: Items, removed: seq<Tx>, threshold: nat) {
    && LowestOf(m, m - items.Keys)
    && (forall n :: n in items ==> n in m && items[n] == m[n])
    && NonceSorted(m - items.Keys, removed)
    && (forall n :: n in m && n !in items ==> n < threshold)
  }

  lemma CacheForward(m: Items, threshold: nat, removed: seq<Tx>, s: seq<Tx>)
    requires WellKeyed(m) && NonceSorted(m, s) && NonceSorted(Below(m, threshold), removed)
    ensures |removed| <= |s| && NonceSorted(From(m, threshold), s[|removed|..])
  {
    LowPart(m, threshold);
    NonceSortedSize(Below(m, threshold), removed);
    hide NonceSorted;
    SplitSorted(m, Below(m, threshold), s);
  }

  lemma ForwardStep(m: Items, items: Items, removed: seq<Tx>, threshold: nat, tx: Tx)
    requires WellKeyed(m) && Forwarded(m, items, removed, threshold)
    requires tx.nonce in items && items[tx.nonce] == tx && tx.nonce < threshold
    requires forall n :: n in items && n != tx.nonce ==> tx.nonce < n
    ensures Forwarded(m, items - {tx.nonce}, removed + [tx], threshold)
  {
    var gone := m - items.Keys;
    forall t | t in removed ensures t.nonce < tx.nonce {
      assert t.nonce in gone;
    }
    AppendSorted(gone, removed, tx);
    assert gone[tx.nonce := tx] == m - (items - {tx.nonce}).Keys;
  }

  lemma ForwardEnds(m: Items, items: Items, removed: seq<Tx>, threshold: nat)
    requires Forwarded(m, items, removed, threshold) && forall n :: n in items ==> n >= threshold
    ensures Below(m, threshold) == m - items.Keys && items == From(m, threshold)
    ensures m - Below(m, threshold).Keys == items && NonceSorted(Below(m, threshold), removed)
  {
  }

  /** With the lowest nonce at or above `threshold`, nothing is below it. */
  lemma LowestAbove(m: Items, index: seq<nat>, threshold: nat)
    requires IsHeap(index, NonceLess) && multiset(index) == multiset(m.Keys)
    requires |index| == 0 || index[0] >= threshold
    ensures forall n :: n in m ==> n >= threshold
  {
    OrdersAreWeak();
    forall n | n in m ensures n >= threshold {
      InSeq(index, n);
      var i :| 0 <= i < |index| && index[i] == n;
      RootIsLeast(index, NonceLess, i);
    }
  }

  lemma AppendSorted(m: Items, s: seq<Tx>, tx: Tx)
    requires NonceSorted(m, s) && tx.nonce !in m
    requires forall t :: t in s ==> t.nonce < tx.nonce
    ensures NonceSorted(m[tx.nonce := tx], s + [tx])
  {
    var m', r := m[tx.nonce := tx], s + [tx];
    forall n | n in m' ensures m'[n] in r {
      if n == tx.nonce { assert r[|s|] == tx; }
    }
  }

  lemma NothingSelected(m: Items, drop: Tx -> bool, removed: seq<Tx>)
    requires multiset(removed) == multiset(Where(m, drop).Values) && removed == []
    ensures Unless(m, drop) == m
  {
    forall n | n in m ensures !drop(m[n]) {
      if drop(m[n]) {
        assert n in Where(m, drop);
        assert m[n] in Where(m, drop).Values;
        InSeq(removed, m[n]);
      }
    }
  }

  /** `ks` lists the keys of `m` in strictly increasing order. */
  ghost predicate KeyListing(m: Items, ks: seq<nat>) {
    && |ks| == |m|
    && (forall i :: 0 <= i < |ks| ==> ks[i] in m)
    && (forall i, j :: 0 <= i < j < |ks| ==> ks[i] < ks[j])
    && (forall n :: n in m ==> n in ks)
  }

  ghost function KeyPrefix(m: Items, ks: seq<nat>, size: nat): Items
    requires size <= |ks|
  {
    map n | n in m && n in ks[..size] :: m[n]
  }

  /** `drops` lists the transactions beyond the first `size` keys, highest nonce first. */
  ghost predicate TopDown(m: Items, ks: seq<nat>, size: nat, drops: seq<Tx>) {
    && KeyListing(m, ks) && size <= |ks| && |drops| == |ks| - size
    && forall i :: 0 <= i < |drops| ==> drops[i] == m[ks[|ks| - 1 - i]]
  }

  /** Deletes the keys beyond the first `threshold`, last one first. */
  method CutTop(m: Items, ks: seq<nat>, threshold: nat) returns (keep: Items, drops: seq<Tx>)
    requires KeyListing(m, ks) && KeyPrefix(m, ks, |ks|) == m && threshold <= |ks|
    ensures keep == KeyPrefix(m, ks, threshold) && TopDown(m, ks, threshold, drops)
  {
    keep, drops := m, [];
    var size := |ks|;
    while size > threshold
      invariant threshold <= size <= |ks|
      invariant TopDown(m, ks, size, drops) && keep == KeyPrefix(m, ks, size)
    {
      PrefixStep(m, ks, size);
      TopDownStep(m, ks, size, drops);
      drops := drops + [keep[ks[size - 1]]];
      keep := keep - {ks[size - 1]};
      size := size - 1;
    }
  }

  lemma TopDownStep(m: Items, ks: seq<nat>, size: nat, drops: seq<Tx>)
    requires TopDown(m, ks, size, drops) && size > 0
    ensures TopDown(m, ks, size - 1, drops + [m[ks[size - 1]]])
  {
  }

  lemma SortedKeys(m: Items, ks: seq<nat>)
    requires multiset(ks) == multiset(m.Keys) && Sorted(ks, NonceLess)
    ensures KeyListing(m, ks) && KeyPrefix(m, ks, |ks|) == m
  {
    assert |multiset(ks)| == |ks| && |multiset(m.Keys)| == |m.Keys|;
    forall i | 0 <= i < |ks| ensures ks[i] in m { InSeq(ks, ks[i]); }
    forall i, j | 0 <= i < j < |ks| ensures ks[i] < ks[j] {
      if ks[i] == ks[j] { RepeatCounts(ks, i, j); }
    }
    forall n | n in m ensures n in ks { InSeq(ks, n); }
    assert ks[..|ks|] == ks;
  }

  lemma PrefixStep(m: Items, ks: seq<nat>, size: nat)
    requires KeyListing(m, ks) && 0 < size <= |ks|
    ensures ks[size - 1] in KeyPrefix(m, ks, size)
    ensures KeyPrefix(m, ks, size - 1) == KeyPrefix(m, ks, size) - {ks[size - 1]}
  {
    var last := ks[size - 1];
    assert ks[..size] == ks[..size - 1] + [last];
    assert last !in ks[..size - 1];
    assert forall n :: n in ks[..size] <==> n in ks[..size - 1] || n == last;
  }

  lemma PrefixFacts(m: Items, ks: seq<nat>, size: nat)
    requires KeyListing(m, ks) && size <= |ks|
    ensures var keep := KeyPrefix(m, ks, size);
            multiset(ks[..size]) == multiset(keep.Keys) && LowestOf(m, keep) && |keep| == size
  {
    var keep, low := KeyPrefix(m, ks, size), ks[..size];
    PrefixOnce(m, ks, size);
    assert |multiset(low)| == |low| && |multiset(keep.Keys)| == |keep.Keys|;
    forall a, b | a in keep && b in m && b !in keep ensures a < b {
      var i :| 0 <= i < size && low[i] == a;
      var j :| 0 <= j < |ks| && ks[j] == b;
      NotInPrefix(ks, size, j);
    }
  }

  lemma PrefixOnce(m: Items, ks: seq<nat>, size: nat)
    requires KeyListing(m, ks) && size <= |ks|
    ensures multiset(ks[..size]) == multiset(KeyPrefix(m, ks, size).Keys)
  {
    EachOnce(ks[..size]);
    assert KeyPrefix(m, ks, size).Keys == set n | n in ks[..size];
  }

  lemma {:induction false} EachOnce(s: seq<nat>)
    requires forall i, j :: 0 <= i < j < |s| ==> s[i] < s[j]
    ensures multiset(s) == multiset(set n | n in s)
  {
    if s != [] {
      var k := |s| - 1;
      EachOnce(s[..k]);
      assert s == s[..k] + [s[k]];
      assert s[k] !in s[..k];
      assert (set n | n in s) == (set n | n in s[..k]) + {s[k]};
    }
  }

  lemma NotInPrefix(ks: seq<nat>, size: nat, j: nat)
    requires j < |ks| && size <= |ks|
    ensures ks[j] !in ks[..size] ==> j >= size
  {
    if j < size { assert ks[..size][j] == ks[j]; }
  }

  lemma NotInPrefixes(s: seq<nat>, k: nat, x: nat)
    requires x in s && 0 < k <= |s| && x !in s[..k - 1] && x != s[k - 1]
    ensures k < |s| && x !in s[..k]
  {
    assert s[..k] == s[..k - 1] + [s[k - 1]];
    assert s[..|s|] == s;
  }

  lemma TopDownFacts(m: Items, ks: seq<nat>, size: nat, drops: seq<Tx>)
    requires WellKeyed(m) && TopDown(m, ks, size, drops)
    ensures forall i, j :: 0 <= i < j < |drops| ==> drops[i].nonce > drops[j].nonce
    ensures forall t :: t in drops <==> t.nonce in m - KeyPrefix(m, ks, size).Keys && m[t.nonce] == t
  {
    var rest := m - KeyPrefix(m, ks, size).Keys;
    forall t | t in drops ensures t.nonce in rest && m[t.nonce] == t {
      var i :| 0 <= i < |drops| && drops[i] == t;
      var j := |ks| - 1 - i;
      assert ks[j] !in ks[..size];
    }
    forall t: Tx | t.nonce in rest && m[t.nonce] == t ensures t in drops {
      var j :| 0 <= j < |ks| && ks[j] == t.nonce;
      NotInPrefix(ks, size, j);
      assert drops[|ks| - 1 - j] == t;
    }
  }

  /** With the lowest nonce not equal to `next` and nothing below `next`, `next` is free. */
  lemma RunStops(m: Items, index: seq<nat>, next: nat)
    requires IsHeap(index, NonceLess) && multiset(index) == multiset(m.Keys)
    requires forall n :: n in m ==> n >= next
    ensures |index| == 0 || index[0] != next ==> next !in m
  {
    if (|index| == 0 || index[0] != next) && next in m {
      InSeq(index, next);
      InSeq(index, index[0]);
      LowestAbove(m, index, next + 1);
    }
  }

  lemma {:induction false} RunSize(m: Items, lo: nat, run: seq<Tx>)
    requires RunFrom(m, lo, run) && forall n :: n in m ==> lo <= n
    ensures |Below(m, lo + |run|)| == |run|
  {
    var k := |run|;
    if k == 0 {
      assert Below(m, lo + k).Keys == {};
    } else {
      RunSize(m, lo, run[..k - 1]);
      assert Holds(m, lo + (k - 1), run[k - 1]);
      assert Below(m, lo + k).Keys == Below(m, lo + k - 1).Keys + {lo + k - 1};
    }
  }

  lemma ShiftedCache(m: Items, lo: nat, run: seq<Tx>, s: seq<Tx>, accept: Tx -> bool, rest: Items)
    requires WellKeyed(m) && NonceSorted(m, s) && RunSoFar(m, lo, run, accept, rest)
    ensures |run| <= |s| && NonceSorted(rest, s[|run|..])
  {
    hide RunSoFar, WellKeyed, NonceSorted, LowestOf, Below, From;
    RunLeaves(m, lo, run, accept, rest);
    LowPart(m, lo + |run|);
    SplitSorted(m, Below(m, lo + |run|), s);
  }

  lemma RunLeaves(m: Items, lo: nat, run: seq<Tx>, accept: Tx -> bool, rest: Items)
    requires RunSoFar(m, lo, run, accept, rest)
    ensures |Below(m, lo + |run|)| == |run| && rest == From(m, lo + |run|)
  {
    RunSize(m, lo, run);
  }

  lemma LowPart(m: Items, bound: nat)
    ensures LowestOf(m, Below(m, bound)) && m - Below(m, bound).Keys == From(m, bound)
  {
  }

  /** Part way through taking a run off the bottom of `m`, with `rest` left. */
  ghost predicate RunSoFar(m: Items, lo: nat, run: seq<Tx>, accept: Tx -> bool, rest: Items) {
    IsLowest(m, lo) && RunFrom(m, lo, run) && rest == From(m, lo + |run|) && forall t :: t in run ==> accept(t)
  }

  lemma RunBegins(m: Items, lo: nat, accept: Tx -> bool)
    requires lo in m && forall n :: n in m ==> lo <= n
    ensures RunSoFar(m, lo, [], accept, m)
  {
  }

  lemma RunGrows(m: Items, lo: nat, run: seq<Tx>, accept: Tx -> bool, rest: Items, tx: Tx)
    requires RunSoFar(m, lo, run, accept, rest) && lo + |run| in rest && tx == rest[lo + |run|] && accept(tx)
    ensures RunSoFar(m, lo, run + [tx], accept, rest - {lo + |run|})
  {
    assert From(m, lo + |run| + 1) == From(m, lo + |run|) - {lo + |run|};
  }

  lemma RunEnds(m: Items, start: nat, lo: nat, run: seq<Tx>, accept: Tx -> bool, rest: Items, index: seq<nat>)
    requires RunSoFar(m, lo, run, accept, rest) && lo <= start && IndexOf(rest, index)
    requires |index| > 0 && index[0] == lo + |run| ==> lo + |run| in rest && !accept(rest[lo + |run|])
    ensures TakesRun(m, start, run, accept, rest)
  {
    RunStops(rest, index, lo + |run|);
    RunTaken(m, start, lo, run, accept);
  }

  /**
   What taking the ready run out of `m` means: nothing when `m` is empty or starts above
   `start`; otherwise the longest run of consecutive acceptable transactions from its lowest nonce.
   */
  ghost predicate TakesRun(m: Items, start: nat, run: seq<Tx>, accept: Tx -> bool, rest: Items) {
    if forall n :: n in m ==> n > start then
      run == [] && rest == m
    else
      exists lo: nat :: IsLowest(m, lo) && lo <= start && RunFrom(m, lo, run) && rest == From(m, lo + |run|)
             && (forall t :: t in run ==> accept(t))
             && (lo + |run| in m ==> !accept(m[lo + |run|]))
  }

  function PricedFrom(baseFee: nat): Tx -> bool {
    (tx: Tx) => tx.gasPrice >= baseFee
  }

  lemma RunTaken(m: Items, start: nat, lo: nat, run: seq<Tx>, accept: Tx -> bool)
    requires IsLowest(m, lo) && lo <= start && RunFrom(m, lo, run)
    requires forall t :: t in run ==> accept(t)
    requires lo + |run| in m ==> !accept(m[lo + |run|])
    ensures TakesRun(m, start, run, accept, From(m, lo + |run|))
  {
  }

  ghost predicate IsLowest(m: Items, lo: nat) {
    lo in m && forall n :: n in m ==> lo <= n
  }
}
