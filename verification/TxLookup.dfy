/**
 The pool's hash lookup (blockchain/tx_pool.go): every pooled transaction by hash, a slot
 counter, and for each authority the hashes of the pooled transactions that name it.
 */
module TxLookups {
  import opened MapSums
  import opened Transactions

  ghost function SlotTable(txs: map<Hash, Tx>): map<Hash, int> {
    map h | h in txs :: NumSlots(txs[h])
  }

  /** The slots of all transactions together. */
  ghost function SlotSum(txs: map<Hash, Tx>): int {
    MapSum(SlotTable(txs))
  }

  lemma SlotSumWithout(txs: map<Hash, Tx>, h: Hash)
    requires h in txs
    ensures SlotSum(txs - {h}) == SlotSum(txs) - NumSlots(txs[h])
  {
    TakeOut(SlotTable(txs), h);
    assert SlotTable(txs - {h}) == SlotTable(txs) - {h};
  }

  lemma SlotSumWith(txs: map<Hash, Tx>, tx: Tx)
    requires HashOf(tx) !in txs
    ensures SlotSum(txs[HashOf(tx) := tx]) == SlotSum(txs) + NumSlots(tx)
  {
    SetEntry(SlotTable(txs), HashOf(tx), NumSlots(tx));
    assert SlotTable(txs[HashOf(tx) := tx]) == SlotTable(txs)[HashOf(tx) := NumSlots(tx)];
  }

  /** `h` is listed under `a`. */
  ghost predicate Listed(auths: map<Address, seq<Hash>>, a: Address, h: Hash) {
    a in auths && h in auths[a]
  }

  /** Lists are never empty and hold no hash twice. */
  ghost predicate TidyLists(auths: map<Address, seq<Hash>>) {
    forall a :: a in auths ==> auths[a] != [] && NoRepeats(auths[a])
  }

  ghost predicate NoRepeats<T>(s: seq<T>) {
    forall i, j :: 0 <= i < j < |s| ==> s[i] != s[j]
  }

  /** The position of `x` in `s`, or its length. */
  function IndexOf<T(==)>(s: seq<T>, x: T): (i: nat)
    ensures i <= |s| && x !in s[..i]
    ensures i < |s| ==> s[i] == x
    ensures i < |s| <==> x in s
  {
    if s == [] then 0 else if s[0] == x then 0
    else
      var i := IndexOf(s[1..], x);
      assert s[..i + 1] == [s[0]] + s[1..][..i];
      assert s == [s[0]] + s[1..];
      i + 1
  }

  class TxLookup {
    var slots: int
    var txs: map<Hash, Tx>
    var auths: map<Address, seq<Hash>>

    /** The counter is the sum of the slots; the authority index is exactly what the transactions name. */
    ghost predicate Valid()
      reads this
    {
      && (forall h :: h in txs ==> HashOf(txs[h]) == h)
      && slots == SlotSum(txs)
      && TidyLists(auths)
      && (forall a, h :: Listed(auths, a, h) <==> h in txs && a in txs[h].authorities)
    }

    constructor ()
      ensures Valid() && txs == map[]
    {
      slots, txs, auths := 0, map[], map[];
    }

    ghost predicate Has(tx: Tx)
      reads this
    {
      HashOf(tx) in txs
    }

    /** Adds a transaction. One that is already there is counted once more, and nothing else changes. */
    method Add(tx: Tx)
      requires Valid()
      modifies this
      ensures txs == old(txs)[HashOf(tx) := tx]
      ensures HashOf(tx) !in old(txs) ==> Valid() && |txs| == |old(txs)| + 1
      ensures HashOf(tx) in old(txs) ==>
        txs == old(txs) && slots == old(slots) + NumSlots(tx) &&
        forall a, h :: Listed(auths, a, h) <==> Listed(old(auths), a, h)
    {
      hide SlotSum;
      if HashOf(tx) !in txs { SlotSumWith(txs, tx); }
      slots := slots + NumSlots(tx);
      txs := txs[HashOf(tx) := tx];
      auths := AddAuthorities(auths, tx);
    }

    /** Removes a transaction; an unknown hash changes nothing. */
    method Remove(hash: Hash)
      requires Valid()
      modifies this
      ensures Valid() && txs == old(txs) - {hash} && |old(txs)| == |txs| + if hash in old(txs) then 1 else 0
    {
      hide SlotSum;
      if hash !in txs { return; }
      assert old(txs) == (old(txs) - {hash})[hash := old(txs)[hash]];
      var tx := txs[hash];
      SlotSumWithout(txs, hash);
      auths := RemoveAuthorities(auths, tx);
      slots := slots - NumSlots(tx);
      txs := txs - {hash};
    }

    /** Whether some pooled transaction names `addr` as an authority. */
    predicate HasAuth(addr: Address)
      reads this
    {
      addr in auths && |auths[addr]| > 0
    }

    lemma HasAuthMeaning(addr: Address)
      requires Valid()
      ensures HasAuth(addr) <==> exists h :: h in txs && addr in txs[h].authorities
    {
      if HasAuth(addr) {
        assert Listed(auths, addr, auths[addr][0]);
      }
      if h :| h in txs && addr in txs[h].authorities {
        assert Listed(auths, addr, h);
      }
    }
  }

  /** Lists the transaction under each authority it names, once. */
  method AddAuthorities(auths: map<Address, seq<Hash>>, tx: Tx) returns (r: map<Address, seq<Hash>>)
    requires TidyLists(auths)
    ensures TidyLists(r)
    ensures forall a, h :: Listed(r, a, h) <==> Listed(auths, a, h) || (h == HashOf(tx) && a in tx.authorities)
  {
    r := auths;
    var named := tx.authorities;
    for i := 0 to |named|
      invariant TidyLists(r)
      invariant forall a, h :: Listed(r, a, h) <==> Listed(auths, a, h) || (h == HashOf(tx) && a in named[..i])
    {
      var list := if named[i] in r then r[named[i]] else [];
      assert named[..i + 1] == named[..i] + [named[i]];
      if HashOf(tx) !in list {
        ghost var before := r;
        r := r[named[i] := list + [HashOf(tx)]];
        Appended(before, named[i], HashOf(tx));
      } else {
        assert Listed(r, named[i], HashOf(tx));
      }
    }
    assert named[..|named|] == named;
  }

  lemma Appended(auths: map<Address, seq<Hash>>, a: Address, h: Hash)
    requires TidyLists(auths) && !Listed(auths, a, h)
    ensures var r := auths[a := (if a in auths then auths[a] else []) + [h]];
            TidyLists(r) && forall b, g :: Listed(r, b, g) <==> Listed(auths, b, g) || (b == a && g == h)
  {
  }

  /** Unlists the transaction from each authority it names, dropping emptied lists. */
  method RemoveAuthorities(auths: map<Address, seq<Hash>>, tx: Tx) returns (r: map<Address, seq<Hash>>)
    requires TidyLists(auths)
    ensures TidyLists(r)
    ensures forall a, h :: Listed(r, a, h) <==> Listed(auths, a, h) && !(h == HashOf(tx) && a in tx.authorities)
  {
    r := auths;
    var named := tx.authorities;
    for i := 0 to |named|
      invariant TidyLists(r)
      invariant forall a, h :: Listed(r, a, h) <==> Listed(auths, a, h) && !(h == HashOf(tx) && a in named[..i])
    {
      assert named[..i + 1] == named[..i] + [named[i]];
      r := Unlist(r, named[i], HashOf(tx));
    }
    assert named[..|named|] == named;
  }

  /** Takes `h` off the list of `a`, if it is there; an emptied list is deleted. */
  method Unlist(auths: map<Address, seq<Hash>>, a: Address, h: Hash) returns (r: map<Address, seq<Hash>>)
    requires TidyLists(auths)
    ensures TidyLists(r)
    ensures forall b, g :: Listed(r, b, g) <==> Listed(auths, b, g) && !(b == a && g == h)
  {
    var list := if a in auths then auths[a] else [];
    var k := IndexOf(list, h);
    CutOut(list, k);
    var left := if k < |list| then list[..k] + list[k + 1..] else list;
    assert forall g :: g in left <==> g in list && g != h;
    r := if |left| == 0 then auths - {a} else auths[a := left];
    forall b, g ensures Listed(r, b, g) <==> Listed(auths, b, g) && !(b == a && g == h) {
      if b == a { assert Listed(r, b, g) <==> g in left; }
    }
  }

  lemma CutOut<T>(s: seq<T>, k: nat)
    requires NoRepeats(s) && k <= |s|
    ensures k < |s| ==> NoRepeats(s[..k] + s[k + 1..])
    ensures k < |s| ==> forall x :: x in s[..k] + s[k + 1..] <==> x in s && x != s[k]
  {
    if k < |s| {
      var r := s[..k] + s[k + 1..];
      assert forall i :: 0 <= i < |r| ==> r[i] == if i < k then s[i] else s[i + 1];
      forall x | x in s && x != s[k] ensures x in r {
        var i :| 0 <= i < |s| && s[i] == x;
        assert r[if i < k then i else i - 1] == x;
      }
    }
  }
}
