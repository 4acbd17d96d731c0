/**
 The last signs of life of accounts, on values: how filing, removing, promoting and revalidating
 transactions record them.
 */
module PoolBeats {
  import opened PoolLists
  import opened PoolSteps
  import opened Transactions

  type Beats = map<Address, nat>

  /** The account is heard from now, unless it was heard from before. */
  function Beat(b: Beats, a: Address, now: nat): Beats {
    if a in b then b else b[a := now]
  }

  /** Putting transactions back into an account's queue is a sign of life, if there are any. */
  function BeatFor(b: Beats, a: Address, now: nat, back: Items): Beats {
    if back == map[] then b else Beat(b, a, now)
  }

  /** Removing a pending transaction puts those above it back into the queue. */
  function BeatsWithout(p: Lists, b: Beats, t: Tx, now: nat): Beats {
    if HasNonce(p, t.sender, t.nonce) then BeatFor(b, t.sender, now, From(p[t.sender], t.nonce + 1)) else b
  }

  // Promotion

  ghost predicate BeatPromoted(p0: Lists, p: Lists, b0: Beats, b: Beats, now: nat, a: Address) {
    if ItemsOf(p, a) == ItemsOf(p0, a) then SameEntry(b0, b, a) else a in b && b[a] == now
  }

  /** The accounts whose pending lists have grown are heard from now; nothing else has changed. */
  ghost predicate BeatsPromoted(p0: Lists, p: Lists, b0: Beats, b: Beats, now: nat) {
    forall a :: BeatPromoted(p0, p, b0, b, now, a)
  }

  lemma NoBeatPromoted(p: Lists, b: Beats, now: nat)
    ensures BeatsPromoted(p, p, b, b, now)
  {
  }

  lemma PromotesBeat(t: Terms, s0: Snapshot, s1: Snapshot, who: set<Address>, todo: set<Address>, a: Address,
                     run: Items, b0: Beats, b1: Beats, b2: Beats, now: nat)
    requires PromotedExcept(t, s0, s1, who, todo) && a in todo
    requires BeatsPromoted(s0.pending, s1.pending, b0, b1, now)
    requires var p2 := MergeIn(s1.pending, a, run);
      b2 == if ItemsOf(p2, a) == ItemsOf(s1.pending, a) then b1 else b1[a := now]
    ensures BeatsPromoted(s0.pending, MergeIn(s1.pending, a, run), b0, b2, now)
  {
    hide Promoted, VirtualNonce, MergeIn;
    var p2 := MergeIn(s1.pending, a, run);
    MergeRequeues(s1.pending, a, run);
    forall b ensures BeatPromoted(s0.pending, p2, b0, b2, now, b) {
      assert BeatPromoted(s0.pending, s1.pending, b0, b1, now, b);
      assert PromotedOrNot(t, s0, s1, who, todo, b);
    }
  }

  /** A run of queued nonces makes the pending list longer unless it is empty. */
  lemma RunGrows(p: Lists, q: Lists, txs: map<Hash, Tx>, a: Address, lo: nat, hi: nat)
    requires Consistent(p, q, map[], txs) && a in q && lo <= hi && Fills(Below(q[a], hi), lo, hi)
    ensures ItemsOf(MergeIn(p, a, Below(q[a], hi)), a) == ItemsOf(p, a) <==> lo == hi
  {
    var run := Below(q[a], hi);
    if lo < hi {
      assert lo in run && HasNonce(q, a, lo);
      assert !HasNonce(p, a, lo);
      assert lo in ItemsOf(MergeIn(p, a, run), a);
    } else {
      assert run == map[];
    }
  }

  // Revalidation

  /** What goes back to an account's queue when it is revalidated. */
  ghost function Back(c: Checks, full: set<Address>, a: Address, pending: Items): Items {
    var live := From(pending, c.nonce(a));
    Unless(live, DropOf(c, full, a)) -
      StillExecutable(live, c.nonce(a), DropOf(c, full, a), c.isMagma, c.gasPrice).Keys
  }

  ghost predicate BeatDemoted(c: Checks, full: set<Address>, p0: Lists, b0: Beats, b: Beats, now: nat,
                              todo: set<Address>, a: Address) {
    if a in p0 && a !in todo && Back(c, full, a, p0[a]) != map[] then
      a in b && b[a] == if a in b0 then b0[a] else now
    else SameEntry(b0, b, a)
  }

  /** Of the accounts not in `todo`, those that got something back in their queue have been heard from. */
  ghost predicate BeatsDemoted(c: Checks, full: set<Address>, p0: Lists, b0: Beats, b: Beats, now: nat,
                               todo: set<Address>) {
    forall a :: BeatDemoted(c, full, p0, b0, b, now, todo, a)
  }

  lemma NoBeatDemoted(c: Checks, p: Lists, b: Beats, now: nat)
    ensures BeatsDemoted(c, {}, p, b, b, now, p.Keys)
  {
  }

  lemma DemotesBeat(c: Checks, full: set<Address>, full': set<Address>, p0: Lists, b0: Beats, b1: Beats, now: nat,
                    todo: set<Address>, a: Address)
    requires BeatsDemoted(c, full, p0, b0, b1, now, todo) && a in todo && a in p0 && full <= full' <= full + {a}
    ensures BeatsDemoted(c, full', p0, b0, BeatFor(b1, a, now, Back(c, full', a, p0[a])), now, todo - {a})
  {
    hide From, Unless, StillExecutable;
    var b2 := BeatFor(b1, a, now, Back(c, full', a, p0[a]));
    forall b ensures BeatDemoted(c, full', p0, b0, b2, now, todo - {a}, b) {
      assert BeatDemoted(c, full, p0, b0, b1, now, todo, b);
      assert b != a ==> DropOf(c, full', b) == DropOf(c, full, b);
    }
  }

  /** Requeueing in three steps is a sign of life if one of them puts something back. */
  lemma BeatInThree(b: Beats, a: Address, now: nat, m: Items, k1: Items, k2: Items, k3: Items)
    requires forall n :: n in k1 ==> n in m && m[n] == k1[n]
    requires forall n :: n in k2 ==> n in k1 && k1[n] == k2[n]
    requires forall n :: n in k3 ==> n in k2 && k2[n] == k3[n]
    ensures BeatFor(BeatFor(BeatFor(b, a, now, m - k1.Keys), a, now, k1 - k2.Keys), a, now, k2 - k3.Keys) ==
            BeatFor(b, a, now, m - k3.Keys)
  {
    var back := m - k3.Keys;
    if n :| n in m - k1.Keys {
      assert n in back;
    } else if n :| n in k1 - k2.Keys {
      assert n in back;
    } else if n :| n in k2 - k3.Keys {
      assert n in back;
    } else {
      forall n | n in m ensures n in k3 {
        assert n !in m - k1.Keys && n !in k1 - k2.Keys && n !in k2 - k3.Keys;
      }
      assert back == map[];
    }
  }
}
