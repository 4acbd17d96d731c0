/**
 The pool's account lists as values, and what keeps them consistent with the hash lookup:
 every pooled transaction sits in exactly one list, at its own sender and nonce, and no
 (sender, nonce) is occupied twice. Transactions in the middle of a move are in `limbo`.
 */
module PoolLists {
  import opened Transactions

  type Lists = map<Address, Items>

  /** Transactions are filed under their own sender and nonce. */
  ghost predicate Keyed(m: Lists) {
    forall a, n :: HasNonce(m, a, n) ==> m[a][n].sender == a && m[a][n].nonce == n
  }

  predicate HasNonce(m: Lists, a: Address, n: nat) {
    a in m && n in m[a]
  }

  ghost predicate InList(m: Lists, t: Tx) {
    HasNonce(m, t.sender, t.nonce) && m[t.sender][t.nonce] == t
  }

  ghost predicate Apart(m: Lists, k: Lists) {
    forall a, n :: HasNonce(m, a, n) ==> !HasNonce(k, a, n)
  }

  ghost predicate Consistent(p: Lists, q: Lists, limbo: Lists, txs: map<Hash, Tx>) {
    && Keyed(p) && Keyed(q) && Keyed(limbo)
    && Apart(p, q) && Apart(p, limbo) && Apart(q, limbo)
    && (forall h :: h in txs ==> HashOf(txs[h]) == h)
    && (forall t :: HashOf(t) in txs <==> InList(p, t) || InList(q, t) || InList(limbo, t))
  }

  function ItemsOf(m: Lists, a: Address): Items {
    if a in m then m[a] else map[]
  }

  function PutIn(m: Lists, t: Tx): Lists {
    m[t.sender := ItemsOf(m, t.sender)[t.nonce := t]]
  }

  /** The list of `a` with `back` merged in; no list is created for nothing. */
  function MergeIn(m: Lists, a: Address, back: Items): Lists {
    if back == map[] then m else m[a := ItemsOf(m, a) + back]
  }

  /** Replaces the list of `a`, deleting an empty one. */
  function TrimTo(m: Lists, a: Address, keep: Items): Lists {
    if keep == map[] then m - {a} else m[a := keep]
  }

  function Single(a: Address, items: Items): Lists {
    map[a := items]
  }

  function Without(m: Lists, t: Tx): Lists
    requires t.sender in m
  {
    m[t.sender := m[t.sender] - {t.nonce}]
  }

  /** The lookup is exactly the disjoint union of the two list families. */
  lemma LookupIsUnion(p: Lists, q: Lists, txs: map<Hash, Tx>, t: Tx, u: Tx)
    requires Consistent(p, q, map[], txs)
    ensures HashOf(t) in txs <==> InList(p, t) != InList(q, t)
    ensures HashOf(t) in txs ==> txs[HashOf(t)] == t
    ensures HashOf(t) in txs && HashOf(u) in txs && t.sender == u.sender && t.nonce == u.nonce ==> t == u
  {
    assert forall x :: !InList(map[], x);
    assert !(InList(p, t) && InList(q, t));
  }

  lemma Swapped(p: Lists, q: Lists, limbo: Lists, txs: map<Hash, Tx>)
    ensures Consistent(p, q, limbo, txs) <==> Consistent(q, p, limbo, txs)
  {
  }

  /** Empty lists hold nothing. */
  lemma Emptied(p: Lists, q: Lists, a: Address, limbo: Lists, txs: map<Hash, Tx>)
    requires Consistent(p, q, limbo, txs) && forall n, b :: !HasNonce(limbo, b, n)
    ensures Consistent(p, q, map[], txs)
  {
    assert forall t :: !InList(limbo, t);
  }

  lemma ForgetOne(p: Lists, q: Lists, limbo: Lists, txs: map<Hash, Tx>, t: Tx)
    requires Consistent(p, q, limbo, txs) && InList(limbo, t)
    ensures Consistent(p, q, Without(limbo, t), txs - {HashOf(t)})
  {
    WithoutFacts(limbo, t);
    assert !InList(p, t) && !InList(q, t);
  }

  /** Moving a transaction from limbo into the first list family. */
  lemma FileOne(p: Lists, q: Lists, limbo: Lists, txs: map<Hash, Tx>, t: Tx)
    requires Consistent(p, q, limbo, txs) && InList(limbo, t)
    ensures !HasNonce(p, t.sender, t.nonce) && !HasNonce(q, t.sender, t.nonce)
    ensures HashOf(t) in txs && txs[HashOf(t)] == t
    ensures Consistent(PutIn(p, t), q, Without(limbo, t), txs)
  {
    WithoutFacts(limbo, t);
    PutInFacts(p, t);
    var l', p' := Without(limbo, t), PutIn(p, t);
    assert Apart(p', q) && Apart(p', l') && Apart(q, l');
  }

  lemma WithoutFacts(l: Lists, t: Tx)
    requires Keyed(l) && InList(l, t)
    ensures Keyed(Without(l, t))
    ensures forall a, n :: HasNonce(Without(l, t), a, n) <==> HasNonce(l, a, n) && !(a == t.sender && n == t.nonce)
    ensures forall x :: InList(Without(l, t), x) <==> InList(l, x) && x != t
  {
  }

  lemma PutInFacts(p: Lists, t: Tx)
    requires Keyed(p)
    ensures Keyed(PutIn(p, t))
    ensures forall a, n :: HasNonce(PutIn(p, t), a, n) <==> HasNonce(p, a, n) || (a == t.sender && n == t.nonce)
    ensures forall x :: InList(PutIn(p, t), x) <==>
              x == t || (InList(p, x) && !(x.sender == t.sender && x.nonce == t.nonce))
  {
  }

  /** Putting a new transaction in, over whatever was at its nonce. */
  lemma PutNew(p: Lists, q: Lists, txs: map<Hash, Tx>, t: Tx)
    requires Consistent(p, q, map[], txs) && HashOf(t) !in txs && !HasNonce(q, t.sender, t.nonce)
    ensures Consistent(PutIn(p, t), q, map[], DropPrev(p, txs, t)[HashOf(t) := t])
  {
    hide InList, PutIn, DropPrev;
    var p', txs' := PutIn(p, t), DropPrev(p, txs, t)[HashOf(t) := t];
    PutInFacts(p, t);
    forall x ensures HashOf(x) in txs' <==> InList(p', x) || InList(q, x) || InList(map[], x) {
      PutNewMember(p, q, txs, t, x);
    }
    DropPrevFiled(p, txs, t);
  }

  lemma PutNewMember(p: Lists, q: Lists, txs: map<Hash, Tx>, t: Tx, x: Tx)
    requires Consistent(p, q, map[], txs) && HashOf(t) !in txs && !HasNonce(q, t.sender, t.nonce)
    ensures HashOf(x) in DropPrev(p, txs, t)[HashOf(t) := t] <==>
      InList(PutIn(p, t), x) || InList(q, x) || InList(map[], x)
  {
    PutInFacts(p, t);
    assert !InList(map[], x);
    if x != t && HasNonce(p, t.sender, t.nonce) {
      var prev := p[t.sender][t.nonce];
      assert InList(p, prev) && !InList(q, prev);
      assert x == prev <==> InList(p, x) && x.sender == t.sender && x.nonce == t.nonce;
    }
  }

  lemma DropPrevFiled(p: Lists, txs: map<Hash, Tx>, t: Tx)
    requires forall h :: h in txs ==> HashOf(txs[h]) == h
    ensures var txs' := DropPrev(p, txs, t)[HashOf(t) := t]; forall h :: h in txs' ==> HashOf(txs'[h]) == h
  {
  }

  /** The lookup without the transaction that `t` is about to replace in `p`. */
  function DropPrev(p: Lists, txs: map<Hash, Tx>, t: Tx): map<Hash, Tx> {
    if HasNonce(p, t.sender, t.nonce) then txs - {HashOf(p[t.sender][t.nonce])} else txs
  }

  /** Taking part of one account's list out of the first family, into limbo. */
  lemma SetAside(p: Lists, q: Lists, txs: map<Hash, Tx>, a: Address, keep: Items, out: Items)
    requires Consistent(p, q, map[], txs) && a in p
    requires keep + out == p[a] && keep.Keys !! out.Keys
    ensures Consistent(TrimTo(p, a, keep), q, Single(a, out), txs)
    ensures Consistent(p[a := keep], q, Single(a, out), txs)
  {
    hide HasNonce, InList, TrimTo;
    var p', l := p[a := keep], Single(a, out);
    SplitContents(p, a, keep, out);
    SplitConsistent(p, p', q, l, txs);
    TrimmedContents(p, a, keep);
    SameContents(p', TrimTo(p, a, keep), q, l, txs);
  }

  /** The contents of a list split in two are the contents of the two parts. */
  lemma SplitContents(p: Lists, a: Address, keep: Items, out: Items)
    requires a in p && keep + out == p[a] && keep.Keys !! out.Keys
    ensures var p', l := p[a := keep], Single(a, out);
            && (forall b, n :: HasNonce(p, b, n) <==> HasNonce(p', b, n) || HasNonce(l, b, n))
            && Apart(p', l)
            && (forall x :: InList(p, x) <==> InList(p', x) || InList(l, x))
            && (Keyed(p) ==> Keyed(p') && Keyed(l))
  {
    var p', l := p[a := keep], Single(a, out);
    forall x ensures InList(p, x) <==> InList(p', x) || InList(l, x) {
      assert x.sender == a ==> (keep + out) == p[a];
    }
    if Keyed(p) {
      forall b, n | HasNonce(p', b, n) ensures p'[b][n].sender == b && p'[b][n].nonce == n {
        assert HasNonce(p, b, n) && (b == a ==> (keep + out)[n] == keep[n]);
      }
      forall b, n | HasNonce(l, b, n) ensures l[b][n].sender == b && l[b][n].nonce == n {
        assert HasNonce(p, b, n) && (keep + out)[n] == out[n];
      }
    }
  }

  lemma SplitConsistent(p: Lists, p': Lists, q: Lists, l: Lists, txs: map<Hash, Tx>)
    requires Consistent(p, q, map[], txs)
    requires forall b, n :: HasNonce(p, b, n) <==> HasNonce(p', b, n) || HasNonce(l, b, n)
    requires forall x :: InList(p, x) <==> InList(p', x) || InList(l, x)
    requires Apart(p', l) && Keyed(p') && Keyed(l)
    ensures Consistent(p', q, l, txs)
  {
    assert forall x :: !InList(map[], x);
    hide InList;
  }

  lemma TrimmedContents(p: Lists, a: Address, keep: Items)
    requires a in p
    ensures var p', t := p[a := keep], TrimTo(p, a, keep);
            && (forall b, n :: HasNonce(t, b, n) <==> HasNonce(p', b, n))
            && (forall b, n :: HasNonce(p', b, n) && HasNonce(t, b, n) ==> t[b][n] == p'[b][n])
  {
  }

  lemma TrimEmpty(p: Lists, a: Address)
    requires a in p
    ensures p[a] == map[] ==> forall b, n :: HasNonce(p - {a}, b, n) <==> HasNonce(p, b, n)
  {
  }

  lemma SameContents(p: Lists, p': Lists, q: Lists, limbo: Lists, txs: map<Hash, Tx>)
    requires Consistent(p, q, limbo, txs)
    requires forall b, n :: HasNonce(p', b, n) <==> HasNonce(p, b, n)
    requires forall b, n :: HasNonce(p, b, n) && HasNonce(p', b, n) ==> p'[b][n] == p[b][n]
    ensures Consistent(p', q, limbo, txs)
  {
    assert forall x :: InList(p', x) <==> InList(p, x);
  }
}
