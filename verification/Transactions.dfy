/**
 Pool transactions, and what the nonce-indexed account lists contain, as values.
 */
module Transactions {
  type Address = nat

  /** The fields the pool reads; `payload` stands for everything else that is hashed. */
  datatype Tx = Tx(sender: Address, nonce: nat, gasPrice: nat, size: nat, isCancel: bool, authorities: seq<Address>,
                   payload: nat)

  /** Hashes are collision-free identifiers. */
  datatype Hash = Hash(preimage: Tx)

  function HashOf(tx: Tx): Hash {
    Hash(tx)
  }

  const TX_SLOT_SIZE := 32 * 1024

  function NumSlots(tx: Tx): nat {
    (tx.size + TX_SLOT_SIZE - 1) / TX_SLOT_SIZE
  }

  /** The contents of one account's list: at most one transaction per nonce. */
  type Items = map<nat, Tx>

  ghost predicate WellKeyed(m: Items) {
    forall n :: n in m ==> m[n].nonce == n
  }

  function Below(m: Items, k: nat): Items {
    map n | n in m && n < k :: m[n]
  }

  function From(m: Items, k: nat): Items {
    map n | n in m && n >= k :: m[n]
  }

  function Where(m: Items, p: Tx -> bool): Items {
    map n | n in m && p(m[n]) :: m[n]
  }

  function Unless(m: Items, p: Tx -> bool): Items {
    map n | n in m && !p(m[n]) :: m[n]
  }

  /** `s` lists exactly the transactions of `m`, by strictly increasing nonce. */
  ghost predicate NonceSorted(m: Items, s: seq<Tx>) {
    && (forall i :: 0 <= i < |s| ==> s[i].nonce in m && m[s[i].nonce] == s[i])
    && (forall i, j :: 0 <= i < j < |s| ==> s[i].nonce < s[j].nonce)
    && (forall n :: n in m ==> m[n] in s)
  }

  /** `keep` holds the lowest nonces of `m`: whatever it leaves out lies above it. */
  ghost predicate LowestOf(m: Items, keep: Items) {
    && (forall n :: n in keep ==> n in m && m[n] == keep[n])
    && (forall a, b :: a in keep && b in m && b !in keep ==> a < b)
  }

  /** `s` is the run of consecutive nonces of `m` starting at `lo`. */
  ghost predicate RunFrom(m: Items, lo: nat, s: seq<Tx>) {
    forall i :: 0 <= i < |s| ==> Holds(m, lo + i, s[i])
  }

  ghost predicate Holds(m: Items, n: nat, tx: Tx) {
    n in m && m[n] == tx
  }

  /** The nonce order has only one listing of a list's contents. */
  lemma NonceSortedUnique(m: Items, s: seq<Tx>, t: seq<Tx>)
    requires WellKeyed(m) && NonceSorted(m, s) && NonceSorted(m, t)
    ensures s == t
  {
    NonceSortedSize(m, s);
    NonceSortedSize(m, t);
    forall i | 0 <= i < |s| ensures s[i] == t[i] {
      SameAt(m, s, t, i);
    }
  }

  lemma {:induction false} SameAt(m: Items, s: seq<Tx>, t: seq<Tx>, i: nat)
    requires NonceSorted(m, s) && NonceSorted(m, t) && i < |s| && i < |t|
    ensures s[i] == t[i]
  {
    NotAhead(m, s, t, i);
    NotAhead(m, t, s, i);
  }

  lemma {:induction false} NotAhead(m: Items, s: seq<Tx>, t: seq<Tx>, i: nat)
    requires NonceSorted(m, s) && NonceSorted(m, t) && i < |s| && i < |t|
    ensures t[i].nonce <= s[i].nonce
    decreases i
  {
    var j :| 0 <= j < |t| && t[j] == m[s[i].nonce];
    if j < i { NotAhead(m, s, t, j); }
  }

  lemma DropLast(m: Items, s: seq<Tx>)
    requires WellKeyed(m) && NonceSorted(m, s) && |s| > 0
    ensures NonceSorted(m - {s[|s| - 1].nonce}, s[..|s| - 1])
  {
    var k := |s| - 1;
    var m' := m - {s[k].nonce};
    forall n | n in m'
      ensures m'[n] in s[..k]
    {
      var i :| 0 <= i < |s| && s[i] == m[n];
      assert s[..k][i] == m[n];
    }
  }

  lemma {:induction false} NonceSortedSize(m: Items, s: seq<Tx>)
    requires WellKeyed(m) && NonceSorted(m, s)
    ensures |s| == |m|
  {
    if |s| == 0 {
      assert m.Keys == {};
    } else {
      var k := |s| - 1;
      DropLast(m, s);
      var m' := m - {s[k].nonce};
      assert m'.Keys == m.Keys - {s[k].nonce};
      NonceSortedSize(m', s[..k]);
    }
  }

  /** A sorted listing splits at any prefix into sorted listings of the low and the high part. */
  lemma SplitSorted(m: Items, keep: Items, s: seq<Tx>)
    requires WellKeyed(m) && NonceSorted(m, s) && LowestOf(m, keep)
    ensures |keep| <= |s|
    ensures NonceSorted(keep, s[..|keep|]) && NonceSorted(m - keep.Keys, s[|keep|..])
  {
    var r := SplitPoint(m, keep, s);
    PrefixSorted(m, keep, s, r);
    SuffixSorted(m, keep, s, r);
    NonceSortedSize(keep, s[..r]);
  }

  lemma PrefixSorted(m: Items, keep: Items, s: seq<Tx>, r: nat)
    requires NonceSorted(m, s) && LowestOf(m, keep) && r <= |s|
    requires forall i :: 0 <= i < r ==> s[i].nonce in keep
    requires forall i :: r <= i < |s| ==> s[i].nonce !in keep
    requires WellKeyed(m)
    ensures NonceSorted(keep, s[..r])
  {
    forall n | n in keep ensures keep[n] in s[..r] {
      var i :| 0 <= i < |s| && s[i] == m[n];
      assert s[..r][i] == m[n];
    }
  }

  lemma SuffixSorted(m: Items, keep: Items, s: seq<Tx>, r: nat)
    requires NonceSorted(m, s) && r <= |s|
    requires forall i :: 0 <= i < r ==> s[i].nonce in keep
    requires forall i :: r <= i < |s| ==> s[i].nonce !in keep
    requires WellKeyed(m)
    ensures NonceSorted(m - keep.Keys, s[r..])
  {
    var rest, t := m - keep.Keys, s[r..];
    assert forall i :: 0 <= i < |t| ==> t[i] == s[r + i];
    forall n | n in rest ensures rest[n] in t {
      var i :| 0 <= i < |s| && s[i] == m[n];
      assert t[i - r] == m[n];
    }
  }

  lemma SplitPoint(m: Items, keep: Items, s: seq<Tx>) returns (r: nat)
    requires WellKeyed(m) && NonceSorted(m, s) && LowestOf(m, keep)
    ensures r <= |s|
    ensures forall i :: 0 <= i < r ==> s[i].nonce in keep
    ensures forall i :: r <= i < |s| ==> s[i].nonce !in keep
  {
    r := 0;
    while r < |s| && s[r].nonce in keep
      invariant r <= |s|
      invariant forall i :: 0 <= i < r ==> s[i].nonce in keep
    {
      r := r + 1;
    }
  }
}
