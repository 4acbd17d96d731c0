/**
 The pool's price index (blockchain/tx_list.go): a heap of transactions, cheapest first,
 that is allowed to hold stale entries. The stale counter only decides when to rebuild the
 heap and may drift; what the pool relies on is that no pooled transaction is missing.
 */
module TxPricedLists {
  import opened BinaryHeap
  import opened Transactions
  import opened TxLookups
  import opened Wrappers

  /** Cheapest first; between equal prices the higher nonce is worse. */
  predicate Cheaper(a: Tx, b: Tx) {
    a.gasPrice < b.gasPrice || (a.gasPrice == b.gasPrice && a.nonce > b.nonce)
  }

  lemma CheaperIsWeak()
    ensures WeakOrder(Cheaper)
  {
  }

  function SlotsOf(txs: seq<Tx>): nat {
    if txs == [] then 0 else SlotsOf(txs[..|txs| - 1]) + NumSlots(txs[|txs| - 1])
  }

  lemma SlotsOfNext(txs: seq<Tx>, tx: Tx)
    ensures SlotsOf(txs + [tx]) == SlotsOf(txs) + NumSlots(tx) && (txs + [tx])[..|txs|] == txs
  {
    assert (txs + [tx])[..|txs|] == txs;
  }

  lemma NoSlots()
    ensures SlotsOf([]) == 0
  {
  }

  /** Collects the pooled transactions, in whatever order the iteration yields them, each once. */
  method PooledTxs(txs: map<Hash, Tx>) returns (s: seq<Tx>)
    requires forall h :: h in txs ==> HashOf(txs[h]) == h
    ensures |s| == |txs| && forall t :: t in s <==> t in txs.Values
    ensures forall t :: multiset(s)[t] <= 1
  {
    s := [];
    var left := txs.Keys;
    while left != {}
      invariant left <= txs.Keys && |s| + |left| == |txs|
      invariant forall t :: t in s <==> exists h :: h in txs && h !in left && txs[h] == t
      invariant forall t :: multiset(s)[t] <= 1
      decreases |left|
    {
      var h :| h in left;
      assert txs[h] !in s;
      s := s + [txs[h]];
      left := left - {h};
    }
  }

  lemma {:induction false} FewerThanEntries(txs: map<Hash, Tx>, items: seq<Tx>)
    requires forall h :: h in txs ==> HashOf(txs[h]) == h && txs[h] in items
    ensures |txs| <= |items|
  {
    if items == [] {
      assert txs == map[];
    } else {
      var rest, last := items[..|items| - 1], items[|items| - 1];
      var h := HashOf(last);
      forall g | g in txs - {h} ensures txs[g] in rest {
        assert txs[g] != last;
      }
      FewerThanEntries(txs - {h}, rest);
      if h in txs { assert txs == (txs - {h})[h := txs[h]]; } else { assert txs - {h} == txs; }
    }
  }

  lemma MemberOf<T>(a: seq<T>, b: seq<T>, x: T)
    requires multiset(b) == multiset(a) + multiset{x}
    ensures forall y :: y in b <==> y in a || y == x
  {
    forall y ensures y in b <==> y in a || y == x {
      assert y in b <==> multiset(b)[y] > 0;
      assert y in a <==> multiset(a)[y] > 0;
    }
  }

  /** The entries taken out so far into `drop` and `save`, against the entries there were. */
  ghost predicate TakenOut(txs: map<Hash, Tx>, items: seq<Tx>, before: seq<Tx>, drop: seq<Tx>, save: seq<Tx>,
                           local: set<Address>) {
    && multiset(items) + multiset(drop) + multiset(save) <= multiset(before)
    && (forall t :: HashOf(t) in txs ==>
          multiset(items)[t] + multiset(drop)[t] + multiset(save)[t] == multiset(before)[t])
    && (forall t :: t in items || t in drop || t in save ==> t in before)
    && (forall t :: HashOf(t) in txs && t in before ==> t in items || t in drop || t in save)
    && (forall t :: t in drop ==> HashOf(t) in txs && t.sender !in local)
    && (forall t :: t in save ==> t.sender in local)
    && (forall t, u :: t in drop && u in items ==> !Cheaper(u, t))
  }

  lemma NothingTakenOut(txs: map<Hash, Tx>, items: seq<Tx>, local: set<Address>)
    ensures TakenOut(txs, items, items, [], [], local)
  {
  }

  /** What becomes of the cheapest entry once it is taken out. */
  lemma SiftNext(txs: map<Hash, Tx>, was: seq<Tx>, items: seq<Tx>, before: seq<Tx>, drop: seq<Tx>, save: seq<Tx>,
                 local: set<Address>, tx: Tx)
    requires TakenOut(txs, was, before, drop, save, local)
    requires multiset(was) == multiset(items) + multiset{tx}
    requires forall t :: t in was ==> !Cheaper(t, tx)
    ensures HashOf(tx) !in txs ==> TakenOut(txs, items, before, drop, save, local)
    ensures tx.sender in local ==> TakenOut(txs, items, before, drop, save + [tx], local)
    ensures HashOf(tx) in txs && tx.sender !in local ==> TakenOut(txs, items, before, drop + [tx], save, local)
  {
    hide Cheaper;
    MemberOf(items, was, tx);
  }

  /**
   What Discard does to the heap: `drop` is pooled and remote, enough or all there is, never
   more than needed, and nothing remote left is cheaper. Nothing pooled is lost or duplicated.
   */
  ghost predicate Discarded(txs: map<Hash, Tx>, before: seq<Tx>, items: seq<Tx>, drop: seq<Tx>, slots: nat,
                            local: set<Address>) {
    && multiset(items) + multiset(drop) <= multiset(before)
    && (forall t :: HashOf(t) in txs ==> multiset(items)[t] + multiset(drop)[t] == multiset(before)[t])
    && (forall t :: t in drop ==> HashOf(t) in txs && t.sender !in local)
    && (forall t, u :: t in drop && u in items && u.sender !in local ==> !Cheaper(u, t))
    && (SlotsOf(drop) >= slots || forall t :: t in items ==> t.sender in local)
    && (drop != [] ==> SlotsOf(drop[..|drop| - 1]) < slots)
  }

  lemma AllTakenOut(txs: map<Hash, Tx>, rest: seq<Tx>, items: seq<Tx>, before: seq<Tx>, drop: seq<Tx>, save: seq<Tx>,
                    slots: nat, local: set<Address>)
    requires TakenOut(txs, rest, before, drop, save, local) && multiset(items) == multiset(rest) + multiset(save)
    requires (forall t :: t in items <==> t in rest || t in save) && (SlotsOf(drop) >= slots || rest == [])
    requires drop != [] ==> SlotsOf(drop[..|drop| - 1]) < slots
    ensures Discarded(txs, before, items, drop, slots, local)
  {
    hide SlotsOf, Cheaper;
  }

  /** Membership follows the counts. */
  lemma DiscardedMembers(txs: map<Hash, Tx>, before: seq<Tx>, items: seq<Tx>, drop: seq<Tx>, slots: nat,
                         local: set<Address>)
    requires Discarded(txs, before, items, drop, slots, local)
    ensures forall t :: t in items || t in drop ==> t in before
    ensures forall t :: HashOf(t) in txs && t in before ==> t in items || t in drop
  {
    hide SlotsOf, Cheaper;
    forall t ensures t in items || t in drop ==> t in before {
      assert multiset(items)[t] + multiset(drop)[t] <= multiset(before)[t];
    }
    forall t | HashOf(t) in txs && t in before ensures t in items || t in drop {
      assert multiset(before)[t] > 0;
    }
  }

  /** A remote transaction that pays no more than any pooled one, of which there are some. */
  ghost predicate NotBetter(txs: map<Hash, Tx>, local: set<Address>, tx: Tx) {
    tx.sender !in local && txs != map[] && forall h :: h in txs ==> txs[h].gasPrice >= tx.gasPrice
  }

  class TxPricedList {
    const all: TxLookup
    var items: seq<Tx>
    var stales: int

    ghost predicate Valid()
      reads this
    {
      IsHeap(items, Cheaper)
    }

    ghost predicate Listed()
      reads this, all
    {
      forall h :: h in all.txs ==> all.txs[h] in items
    }

    /** Every pooled transaction has an entry, and no more entries are left over than are counted as stale. */
    ghost predicate Covers()
      reads this, all
    {
      Listed() && |items| <= |all.txs| + stales
    }

    constructor (all: TxLookup)
      ensures Valid() && this.all == all && items == [] && stales == 0
    {
      this.all, items, stales := all, [], 0;
    }

    method Put(tx: Tx)
      requires Valid()
      modifies this
      ensures Valid() && multiset(items) == multiset(old(items)) + multiset{tx} && stales == old(stales)
      ensures |items| == |old(items)| + 1
      ensures forall t :: t in items <==> t in old(items) || t == tx
    {
      CheaperIsWeak();
      items := Push(items, tx, Cheaper);
      MemberOf(old(items), items, tx);
      SameSize(items, old(items) + [tx]);
    }

    /** Counts one more stale entry and rebuilds the heap when over a quarter of it is counted stale. */
    method Removed()
      requires Valid() && all.Valid()
      modifies this
      ensures Valid()
      ensures forall t :: all.Has(t) && t in old(items) ==> t in items
      ensures items == old(items) || forall t :: multiset(items)[t] <= 1
      ensures old(Listed()) && |old(items)| <= |all.txs| + old(stales) + 1 ==> Covers()
      ensures if old(stales) + 1 <= |old(items)| / 4 then items == old(items) && stales == old(stales) + 1
              else stales == 0 && |items| == |all.txs|
    {
      stales := stales + 1;
      if stales <= |items| / 4 { return; }
      CheaperIsWeak();
      var txs := PooledTxs(all.txs);
      stales := 0;
      items := Init(txs, Cheaper);
      SameSize(items, txs);
      forall t ensures (t in items <==> t in all.txs.Values) && multiset(items)[t] <= 1 {
        assert t in items <==> multiset(items)[t] > 0;
        assert multiset(items)[t] == multiset(txs)[t];
      }
    }

    /** The counter never falls below the number of entries left over, so it is never negative. */
    lemma NeverNegative()
      requires Covers() && all.Valid()
      ensures stales >= 0 && |all.txs| <= |items| <= |all.txs| + stales
    {
      FewerThanEntries(all.txs, items);
    }

    /** Takes the cheapest entry. */
    method PopCheapest() returns (tx: Tx)
      requires Valid() && |items| > 0
      modifies this`items
      ensures Valid() && tx == old(items[0]) && |items| == |old(items)| - 1
      ensures multiset(old(items)) == multiset(items) + multiset{tx}
      ensures forall t :: t in old(items) <==> t in items || t == tx
      ensures forall t :: t in old(items) ==> !Cheaper(t, tx)
    {
      CheaperIsWeak();
      tx, items := Pop(items, Cheaper);
      MemberOf(items, old(items), tx);
      SameSize(old(items), items + [tx]);
    }

    /**
     Whether `tx` is not better priced than the cheapest pooled transaction. Stale entries
     met at the head are dropped.
     */
    method Underpriced(tx: Tx, local: set<Address>) returns (r: bool)
      requires Valid() && all.Valid()
      modifies this
      ensures Valid()
      ensures forall t :: all.Has(t) && t in old(items) ==> t in items
      ensures multiset(items) <= multiset(old(items)) && stales - old(stales) == |items| - |old(items)|
      ensures old(Covers()) ==> Covers()
      ensures old(Covers()) ==> (r <==> NotBetter(all.txs, local, tx))
    {
      if tx.sender in local { return false; }
      while |items| > 0 && HashOf(items[0]) !in all.txs
        invariant Valid()
        invariant forall t :: all.Has(t) && t in old(items) ==> t in items
        invariant multiset(items) <= multiset(old(items)) && stales - old(stales) == |items| - |old(items)|
        decreases |items|
      {
        stales := stales - 1;
        var stale := PopCheapest();
      }
      if old(Covers()) {
        forall h | h in all.txs ensures all.txs[h] in items {
          assert all.Has(all.txs[h]);
        }
      }
      if |items| == 0 { return false; }
      r := items[0].gasPrice >= tx.gasPrice;
      CheapestFirst();
      assert all.txs[HashOf(items[0])] == items[0];
    }

    lemma CheapestFirst()
      requires Valid() && |items| > 0
      ensures forall t :: t in items ==> !Cheaper(t, items[0])
    {
      CheaperIsWeak();
      forall t | t in items ensures !Cheaper(t, items[0]) {
        var i :| 0 <= i < |items| && items[i] == t;
        RootIsLeast(items, Cheaper, i);
      }
    }

    /**
     Takes out the cheapest pooled remote transactions until they free `slots` slots or
     nothing but local transactions is left. Locals stay in the heap. A negative number of
     slots panics, since it is the capacity of the result; that is `None`, and changes nothing.
     */
    method Discard(slots: int, local: set<Address>) returns (r: Option<seq<Tx>>)
      requires Valid() && all.Valid()
      modifies this
      ensures Valid() && (r.None? <==> slots < 0)
      ensures r.None? ==> unchanged(this)
      ensures r.Some? ==> Discarded(all.txs, old(items), items, r.value, slots, local)
      ensures r.Some? ==> stales - old(stales) == |items| + |r.value| - |old(items)|
    {
      if slots < 0 { return None; }
      var drop := TakeCheapest(slots, local);
      r := Some(drop);
    }

    method TakeCheapest(slots: nat, local: set<Address>) returns (drop: seq<Tx>)
      requires Valid() && all.Valid()
      modifies this
      ensures Valid() && Discarded(all.txs, old(items), items, drop, slots, local)
      ensures stales - old(stales) == |items| + |drop| - |old(items)|
    {
      hide SlotsOf, NumSlots, Cheaper, IsHeap, TakenOut, Discarded;
      drop := [];
      assert SlotsOf(drop) == 0 by { NoSlots(); }
      var save := [];
      NothingTakenOut(all.txs, items, local);
      var left: int := slots;
      while |items| > 0 && left > 0
        invariant Valid() && TakenOut(all.txs, items, old(items), drop, save, local)
        invariant left == slots - SlotsOf(drop) && stales - old(stales) == |items| + |drop| + |save| - |old(items)|
        invariant drop != [] ==> SlotsOf(drop[..|drop| - 1]) < slots
        decreases |items|
      {
        ghost var was := items;
        var tx := PopCheapest();
        SiftNext(all.txs, was, items, old(items), drop, save, local, tx);
        if HashOf(tx) !in all.txs {
          stales := stales - 1;
        } else if tx.sender in local {
          save := save + [tx];
        } else {
          SlotsOfNext(drop, tx);
          drop := drop + [tx];
          left := left - NumSlots(tx);
        }
      }
      ghost var rest := items;
      PutBack(save);
      AllTakenOut(all.txs, rest, items, old(items), drop, save, slots, local);
    }

    /** Pushes the saved entries back. */
    method PutBack(save: seq<Tx>)
      requires Valid()
      modifies this`items
      ensures Valid() && multiset(items) == multiset(old(items)) + multiset(save) && |items| == |old(items)| + |save|
      ensures forall t :: t in items <==> t in old(items) || t in save
    {
      CheaperIsWeak();
      for i := 0 to |save|
        invariant Valid() && multiset(items) == multiset(old(items)) + multiset(save[..i])
        invariant forall t :: t in items <==> t in old(items) || t in save[..i]
      {
        ghost var before := items;
        items := Push(items, save[i], Cheaper);
        MemberOf(before, items, save[i]);
        assert save[..i + 1] == save[..i] + [save[i]];
      }
      assert save[..|save|] == save;
      SameSize(items, old(items) + save);
    }

    /**
     Takes out the pooled remote transactions priced below `threshold`, keeping locals and
     the first transaction at or above it.
     */
    method Cap(threshold: nat, local: set<Address>) returns (drop: seq<Tx>)
      requires Valid() && all.Valid()
      modifies this
      ensures Valid()
      ensures forall t :: t in drop ==> all.Has(t) && t.sender !in local && t in old(items) && t.gasPrice < threshold
      ensures stales - old(stales) == |items| + |drop| - |old(items)|
      ensures forall t :: t in items ==> t in old(items)
      ensures forall t :: all.Has(t) && t in old(items) ==> t in items || t in drop
      ensures forall t :: all.Has(t) && t in items && t.sender !in local ==> t.gasPrice >= threshold
    {
      hide IsHeap;
      drop := [];
      var save := [];
      while |items| > 0
        invariant Valid() && TakenOut(all.txs, items, old(items), drop, save, local)
        invariant forall t :: t in drop ==> t.gasPrice < threshold
        invariant stales - old(stales) == |items| + |drop| + |save| - |old(items)|
        decreases |items|
      {
        ghost var was := items;
        var tx := PopCheapest();
        SiftNext(all.txs, was, items, old(items), drop, save, local, tx);
        if HashOf(tx) !in all.txs {
          stales := stales - 1;
        } else if tx.gasPrice >= threshold {
          PutBack(save + [tx]);
          return;
        } else if tx.sender in local {
          save := save + [tx];
        } else {
          drop := drop + [tx];
        }
      }
      PutBack(save);
    }
  }
}
