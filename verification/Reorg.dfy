/**
 Reorganisations: the ancestor walks that find where two branches meet, in the chain's own
 reorg (blockchain/blockchain.go) and in the pool's reset (blockchain/tx_pool.go), and what the
 chain's reorg does to the canonical index and to the transaction lookup.
 */
module Reorgs {
  import opened Chains
  import opened Wrappers

  type TxId = nat

  datatype ReorgError = InvalidOldChain | InvalidNewChain

  /** A block that is stored under its own hash. */
  ghost predicate Stored(headers: Headers, b: Header) {
    b.hash in headers && headers[b.hash] == b
  }

  /** `s` is what lies above `base` on the way down from `head`, head first. */
  ghost predicate Branch(headers: Headers, head: Header, s: seq<Header>, base: Header) {
    && (forall i :: 0 <= i < |s| ==> Up(headers, head, i) == Some(s[i]))
    && Up(headers, head, |s|) == Some(base)
  }

  /** The i-th ancestor of `a` and the j-th ancestor of `b` are the same block. */
  ghost predicate Meet(headers: Headers, a: Header, b: Header, i: nat, j: nat) {
    Up(headers, a, i).Some? && Up(headers, a, i) == Up(headers, b, j)
  }

  /** There is no common ancestor. */
  ghost predicate Unrelated(headers: Headers, a: Header, b: Header) {
    forall i: nat, j: nat :: !Meet(headers, a, b, i, j)
  }

  /** Where two branches meet first: every common ancestor is at or below it. */
  ghost predicate Fork(headers: Headers, a: Header, b: Header, left: seq<Header>, right: seq<Header>, base: Header) {
    && Branch(headers, a, left, base) && Branch(headers, b, right, base)
    && forall i: nat, j: nat :: Meet(headers, a, b, i, j) ==> |left| <= i && |right| <= j
  }

  /** An ancestor is as many numbers below as it is steps away; beyond a missing one there is none. */
  lemma {:induction false} UpNumber(headers: Headers, head: Header, k: nat)
    ensures Up(headers, head, k).Some? ==> Up(headers, head, k).value.number + k == head.number
  {
    if k > 0 { UpNumber(headers, head, k - 1); }
  }

  lemma {:induction false} UpStored(headers: Headers, head: Header, k: nat)
    requires WellFiled(headers) && Stored(headers, head)
    ensures Up(headers, head, k).Some? ==> Stored(headers, Up(headers, head, k).value)
  {
    if k > 0 { UpStored(headers, head, k - 1); }
  }

  lemma {:induction false} NoneBeyond(headers: Headers, head: Header, k: nat, m: nat)
    requires Up(headers, head, k).None? && k <= m
    ensures Up(headers, head, m).None?
    decreases m - k
  {
    if k < m { NoneBeyond(headers, head, k + 1, m); }
  }

  /** The walk so far: both sides stand at the ends of their branches, and no common ancestor lies above. */
  ghost predicate Walking(headers: Headers, a: Header, b: Header, left: seq<Header>, right: seq<Header>, rem: Header,
                          add: Header) {
    && Branch(headers, a, left, rem) && Branch(headers, b, right, add)
    && forall i: nat, j: nat :: Meet(headers, a, b, i, j) ==> |left| <= i && |right| <= j
  }

  lemma WalkBegins(headers: Headers, a: Header, b: Header)
    ensures Walking(headers, a, b, [], [], a, b)
  {
  }

  /** While one side is higher, its block is not a common ancestor. */
  lemma StepHigher(headers: Headers, a: Header, b: Header, left: seq<Header>, right: seq<Header>, rem: Header,
                   add: Header)
    requires Walking(headers, a, b, left, right, rem, add) && rem.number > add.number
    ensures forall i: nat, j: nat :: Meet(headers, a, b, i, j) ==> |left| + 1 <= i
    ensures var next := GetHeader(headers, rem.parent, Pred(rem.number));
            && (next.Some? ==>
                  Walking(headers, a, b, left + [rem], right, next.value, add) && next.value.number == rem.number - 1)
            && (next.None? ==> Unrelated(headers, a, b))
  {
    forall i: nat, j: nat | Meet(headers, a, b, i, j) ensures |left| + 1 <= i {
      UpNumber(headers, a, i);
      UpNumber(headers, b, j);
      UpNumber(headers, a, |left|);
      UpNumber(headers, b, |right|);
    }
    var next := GetHeader(headers, rem.parent, Pred(rem.number));
    assert Up(headers, a, |left| + 1) == next;
    if next.None? {
      forall i: nat, j: nat ensures !Meet(headers, a, b, i, j) {
        if Meet(headers, a, b, i, j) { NoneBeyond(headers, a, |left| + 1, i); }
      }
    } else {
      Longer(headers, a, left, rem, next.value);
    }
  }

  lemma Longer(headers: Headers, a: Header, left: seq<Header>, rem: Header, next: Header)
    requires Branch(headers, a, left, rem) && Up(headers, a, |left| + 1) == Some(next)
    ensures Branch(headers, a, left + [rem], next)
  {
  }

  lemma Mirrored(headers: Headers, a: Header, b: Header, left: seq<Header>, right: seq<Header>, rem: Header,
                 add: Header)
    requires Walking(headers, a, b, left, right, rem, add)
    ensures Walking(headers, b, a, right, left, add, rem)
  {
    forall i: nat, j: nat | Meet(headers, b, a, i, j) ensures |right| <= i && |left| <= j {
      assert Meet(headers, a, b, j, i);
    }
  }

  /** At the same height with different hashes, neither block is a common ancestor. */
  lemma StepBoth(headers: Headers, a: Header, b: Header, left: seq<Header>, right: seq<Header>, rem: Header,
                 add: Header)
    requires WellFiled(headers) && Stored(headers, a) && Stored(headers, b)
    requires Walking(headers, a, b, left, right, rem, add) && rem.number == add.number && rem.hash != add.hash
    ensures var r := GetHeader(headers, rem.parent, Pred(rem.number));
            var s := GetHeader(headers, add.parent, Pred(add.number));
            && (r.Some? && s.Some? ==>
                  Walking(headers, a, b, left + [rem], right + [add], r.value, s.value) &&
                  r.value.number == s.value.number == rem.number - 1)
            && (r.None? || s.None? ==> Unrelated(headers, a, b))
  {
    forall i: nat, j: nat | Meet(headers, a, b, i, j) ensures |left| + 1 <= i && |right| + 1 <= j {
      UpNumber(headers, a, i);
      UpNumber(headers, b, j);
      UpNumber(headers, a, |left|);
      UpNumber(headers, b, |right|);
    }
    var r, s := GetHeader(headers, rem.parent, Pred(rem.number)), GetHeader(headers, add.parent, Pred(add.number));
    assert Up(headers, a, |left| + 1) == r && Up(headers, b, |right| + 1) == s;
    if r.Some? && s.Some? {
      Longer(headers, a, left, rem, r.value);
      Longer(headers, b, right, add, s.value);
    } else {
      forall i: nat, j: nat ensures !Meet(headers, a, b, i, j) {
        if Meet(headers, a, b, i, j) {
          if r.None? { NoneBeyond(headers, a, |left| + 1, i); } else { NoneBeyond(headers, b, |right| + 1, j); }
        }
      }
    }
  }

  /** At the same height with the same hash the walk has found the fork. */
  lemma WalkEnds(headers: Headers, a: Header, b: Header, left: seq<Header>, right: seq<Header>, rem: Header,
                 add: Header)
    requires WellFiled(headers) && Stored(headers, a) && Stored(headers, b)
    requires Walking(headers, a, b, left, right, rem, add) && rem.hash == add.hash
    ensures rem == add && Fork(headers, a, b, left, right, rem)
  {
    UpStored(headers, a, |left|);
    UpStored(headers, b, |right|);
  }

  /** The transactions of a branch, block by block. */
  function TxsOf(txs: map<Hash, seq<TxId>>, s: seq<Header>): seq<TxId> {
    if s == [] then [] else TxsOf(txs, s[..|s| - 1]) + BlockTxs(txs, s[|s| - 1])
  }

  function BlockTxs(txs: map<Hash, seq<TxId>>, b: Header): seq<TxId> {
    if b.hash in txs then txs[b.hash] else []
  }

  lemma TxsOfNext(txs: map<Hash, seq<TxId>>, s: seq<Header>, b: Header)
    ensures TxsOf(txs, s + [b]) == TxsOf(txs, s) + BlockTxs(txs, b)
  {
    assert (s + [b])[..|s|] == s;
  }

  lemma {:induction false} InTxsOf(txs: map<Hash, seq<TxId>>, s: seq<Header>, t: TxId)
    ensures t in TxsOf(txs, s) <==> exists i :: 0 <= i < |s| && t in BlockTxs(txs, s[i])
  {
    if s != [] {
      var k := |s| - 1;
      InTxsOf(txs, s[..k], t);
      if t in TxsOf(txs, s[..k]) {
        var i :| 0 <= i < k && t in BlockTxs(txs, s[..k][i]);
        assert t in BlockTxs(txs, s[i]);
      }
      if i :| 0 <= i < |s| && t in BlockTxs(txs, s[i]) {
        assert i < k ==> s[..k][i] == s[i];
      }
    }
  }

  /** The elements of `a` that are not in `b`, in order. */
  function TxDifference(a: seq<TxId>, b: seq<TxId>): (keep: seq<TxId>)
    ensures forall t :: t in keep <==> t in a && t !in b
  {
    if a == [] then []
    else if a[|a| - 1] in b then TxDifference(a[..|a| - 1], b)
    else TxDifference(a[..|a| - 1], b) + [a[|a| - 1]]
  }

  /** `keep` takes the elements of `a` at rising positions. */
  ghost predicate Picks(keep: seq<TxId>, a: seq<TxId>, at: seq<nat>) {
    && |at| == |keep| && (forall i :: 0 <= i < |at| ==> at[i] < |a| && a[at[i]] == keep[i])
    && forall i, j :: 0 <= i < j < |at| ==> at[i] < at[j]
  }

  /** `keep` is `a` without the elements of `b`: in order, and each as often as it was. */
  ghost predicate Difference(keep: seq<TxId>, a: seq<TxId>, b: seq<TxId>) {
    && (exists at :: Picks(keep, a, at))
    && forall t :: multiset(keep)[t] == if t in b then 0 else multiset(a)[t]
  }

  lemma NoDifference(b: seq<TxId>)
    ensures Difference([], [], b)
  {
    assert Picks([], [], []);
  }

  lemma {:induction false} DifferenceInOrder(a: seq<TxId>, b: seq<TxId>)
    ensures Difference(TxDifference(a, b), a, b)
  {
    hide Difference;
    if a == [] {
      NoDifference(b);
    } else {
      var init, last := a[..|a| - 1], a[|a| - 1];
      assert a == init + [last];
      DifferenceInOrder(init, b);
      DifferenceNext(TxDifference(init, b), init, last, b);
    }
  }

  lemma DifferenceNext(keep: seq<TxId>, init: seq<TxId>, last: TxId, b: seq<TxId>)
    requires Difference(keep, init, b)
    ensures Difference(if last in b then keep else keep + [last], init + [last], b)
  {
    hide Picks;
    var at: seq<nat> :| Picks(keep, init, at);
    PicksNext(keep, init, at, last);
  }

  lemma PicksNext(keep: seq<TxId>, init: seq<TxId>, at: seq<nat>, last: TxId)
    requires Picks(keep, init, at)
    ensures Picks(keep, init + [last], at) && Picks(keep + [last], init + [last], at + [|init|])
  {
  }

  datatype ForkInfo = ForkInfo(base: Header, oldChain: seq<Header>, newChain: seq<Header>, deletedTxs: seq<TxId>)

  const MAX_REORG_DEPTH := 64

  datatype Reinject = Abort | Txs(list: seq<TxId>)

  /** Reinjected are exactly the transactions of the old branch that the new branch does not have. */
  ghost predicate Reinjects(headers: Headers, txs: map<Hash, seq<TxId>>, oldHead: Header, newHead: Header,
                            r: Reinject) {
    r.Txs? && exists left, right, base ::
      && Fork(headers, oldHead, newHead, left, right, base)
      && Difference(r.list, TxsOf(txs, left), TxsOf(txs, right))
      && forall t :: t in r.list <==> t in TxsOf(txs, left) && t !in TxsOf(txs, right)
  }

  class ChainState {
    var headers: Headers
    var txs: map<Hash, seq<TxId>>
    var canonical: map<nat, Hash>
    var lookup: map<TxId, Hash>
    var currentBlock: Header
    var currentHeader: Header
    var currentFast: Header

    constructor (genesis: Header)
      requires genesis.number == 0 && genesis.hash != NO_HASH
      ensures WellFiled(headers) && IsChain(headers, canonical, genesis) && currentBlock == genesis
    {
      headers, txs, canonical, lookup := map[genesis.hash := genesis], map[], map[0 := genesis.hash], map[];
      currentBlock, currentHeader, currentFast := genesis, genesis, genesis;
    }

    /**
     The walk of reorg: brings the higher side down to the height of the other, then both
     down together until they meet. It fails exactly when the branches have no common ancestor.
     */
    method FindFork(oldBlock: Header, newBlock: Header) returns (r: Result<ForkInfo, ReorgError>)
      requires WellFiled(headers) && Stored(headers, oldBlock) && Stored(headers, newBlock)
      ensures r.Ok? ==>
        && Fork(headers, oldBlock, newBlock, r.value.oldChain, r.value.newChain, r.value.base)
        && r.value.deletedTxs == TxsOf(txs, r.value.oldChain)
      ensures r.Err? <==> Unrelated(headers, oldBlock, newBlock)
    {
      hide WellFiled, Meet, Branch;
      var rem, add, left, right, deleted := oldBlock, newBlock, [], [], [];
      WalkBegins(headers, oldBlock, newBlock);
      while rem.number > add.number
        invariant Walking(headers, oldBlock, newBlock, left, right, rem, add) && deleted == TxsOf(txs, left)
        invariant right == [] && add == newBlock
        decreases rem.number
      {
        StepHigher(headers, oldBlock, newBlock, left, right, rem, add);
        TxsOfNext(txs, left, rem);
        deleted := deleted + BlockTxs(txs, rem);
        left := left + [rem];
        var next := GetHeader(headers, rem.parent, Pred(rem.number));
        if next.None? { return Err(InvalidOldChain); }
        rem := next.value;
      }
      while add.number > rem.number
        invariant Walking(headers, oldBlock, newBlock, left, right, rem, add) && deleted == TxsOf(txs, left)
        invariant add.number >= rem.number
        decreases add.number
      {
        Mirrored(headers, oldBlock, newBlock, left, right, rem, add);
        StepHigher(headers, newBlock, oldBlock, right, left, add, rem);
        var next := GetHeader(headers, add.parent, Pred(add.number));
        right := right + [add];
        if next.None? {
          NoMeetMirrored(headers, newBlock, oldBlock);
          return Err(InvalidNewChain);
        }
        add := next.value;
        Mirrored(headers, newBlock, oldBlock, right, left, add, rem);
      }
      while rem.hash != add.hash
        invariant Walking(headers, oldBlock, newBlock, left, right, rem, add) && deleted == TxsOf(txs, left)
        invariant rem.number == add.number
        decreases rem.number
      {
        StepBoth(headers, oldBlock, newBlock, left, right, rem, add);
        TxsOfNext(txs, left, rem);
        deleted := deleted + BlockTxs(txs, rem);
        left, right := left + [rem], right + [add];
        var nextRem := GetHeader(headers, rem.parent, Pred(rem.number));
        var nextAdd := GetHeader(headers, add.parent, Pred(add.number));
        if nextRem.None? { return Err(InvalidOldChain); }
        if nextAdd.None? { return Err(InvalidNewChain); }
        rem, add := nextRem.value, nextAdd.value;
      }
      WalkEnds(headers, oldBlock, newBlock, left, right, rem, add);
      ForkMeets(headers, oldBlock, newBlock, left, right, rem);
      r := Ok(ForkInfo(rem, left, right, deleted));
    }

    /**
     The walk of the pool's reset: collects the transactions of both branches down to where
     they meet, or nothing when they have no common ancestor.
     */
    method CollectBranches(oldHead: Header, newHead: Header) returns (r: Option<(seq<TxId>, seq<TxId>)>)
      requires WellFiled(headers) && Stored(headers, oldHead) && Stored(headers, newHead)
      ensures r.Some? ==> exists left, right, base :: Fork(headers, oldHead, newHead, left, right, base) &&
                            r.value == (TxsOf(txs, left), TxsOf(txs, right))
      ensures r.None? <==> Unrelated(headers, oldHead, newHead)
    {
      hide WellFiled, Meet, Branch, Unrelated;
      var rem, add := oldHead, newHead;
      var discarded, included := [], [];
      ghost var left, right := [], [];
      WalkBegins(headers, oldHead, newHead);
      while rem.number > add.number
        invariant Walking(headers, oldHead, newHead, left, right, rem, add)
        invariant discarded == TxsOf(txs, left) && included == TxsOf(txs, right)
        decreases rem.number
      {
        StepHigher(headers, oldHead, newHead, left, right, rem, add);
        TxsOfNext(txs, left, rem);
        discarded, left := discarded + BlockTxs(txs, rem), left + [rem];
        var next := GetHeader(headers, rem.parent, Pred(rem.number));
        if next.None? { return None; }
        rem := next.value;
      }
      while add.number > rem.number
        invariant Walking(headers, oldHead, newHead, left, right, rem, add) && rem.number <= add.number
        invariant discarded == TxsOf(txs, left) && included == TxsOf(txs, right)
        decreases add.number
      {
        Mirrored(headers, oldHead, newHead, left, right, rem, add);
        StepHigher(headers, newHead, oldHead, right, left, add, rem);
        TxsOfNext(txs, right, add);
        included, right := included + BlockTxs(txs, add), right + [add];
        var next := GetHeader(headers, add.parent, Pred(add.number));
        if next.None? {
          NoMeetMirrored(headers, newHead, oldHead);
          return None;
        }
        add := next.value;
        Mirrored(headers, newHead, oldHead, right, left, add, rem);
      }
      while rem.hash != add.hash
        invariant Walking(headers, oldHead, newHead, left, right, rem, add) && rem.number == add.number
        invariant discarded == TxsOf(txs, left) && included == TxsOf(txs, right)
        decreases rem.number
      {
        StepBoth(headers, oldHead, newHead, left, right, rem, add);
        TxsOfNext(txs, left, rem);
        TxsOfNext(txs, right, add);
        discarded, left := discarded + BlockTxs(txs, rem), left + [rem];
        var nextRem := GetHeader(headers, rem.parent, Pred(rem.number));
        if nextRem.None? { return None; }
        included, right := included + BlockTxs(txs, add), right + [add];
        var nextAdd := GetHeader(headers, add.parent, Pred(add.number));
        if nextAdd.None? { return None; }
        rem, add := nextRem.value, nextAdd.value;
      }
      WalkEnds(headers, oldHead, newHead, left, right, rem, add);
      ForkMeets(headers, oldHead, newHead, left, right, rem);
      r := Some((discarded, included));
    }

    /**
     What the pool's reset reinjects when its head moves. `Abort` leaves the pool as it is: the
     old head's block is gone although the chain did not shrink, or the branches are unrelated.
     */
    method ReinjectFor(oldHead: Option<Header>, newHead: Header) returns (r: Reinject)
      requires WellFiled(headers) && Stored(headers, newHead)
      requires oldHead.Some? && oldHead.value.hash in headers ==> headers[oldHead.value.hash] == oldHead.value
      ensures oldHead.None? ==> r == Txs([])
      ensures oldHead.Some? ==>
        var head := oldHead.value;
        var depth := if head.number > newHead.number then head.number - newHead.number
                     else newHead.number - head.number;
        if head.hash == newHead.parent || depth > MAX_REORG_DEPTH then r == Txs([])
        else if head.hash !in headers then r == if newHead.number >= head.number then Abort else Txs([])
        else if Unrelated(headers, head, newHead) then r == Abort
        else Reinjects(headers, txs, head, newHead, r)
    {
      if oldHead.None? { return Txs([]); }
      var head := oldHead.value;
      var depth := if head.number > newHead.number then head.number - newHead.number else newHead.number - head.number;
      if head.hash == newHead.parent || depth > MAX_REORG_DEPTH { return Txs([]); }
      var rem := GetHeader(headers, head.hash, head.number);
      if rem.None? {
        return if newHead.number >= head.number then Abort else Txs([]);
      }
      var branches := CollectBranches(head, newHead);
      if branches.None? { return Abort; }
      DifferenceInOrder(branches.value.0, branches.value.1);
      r := Txs(TxDifference(branches.value.0, branches.value.1));
    }

    /** Makes a block the canonical one at its height and the head. */
    method InsertBlock(b: Header)
      modifies this`canonical, this`currentBlock, this`currentHeader, this`currentFast
      ensures canonical == old(canonical)[b.number := b.hash] && currentBlock == b
      ensures ReadCanonical(old(canonical), b.number) != b.hash ==> currentHeader == b && currentFast == b
      ensures ReadCanonical(old(canonical), b.number) == b.hash ==>
        currentHeader == old(currentHeader) && currentFast == old(currentFast)
    {
      var updateHeads := ReadCanonical(canonical, b.number) != b.hash;
      canonical := canonical[b.number := b.hash];
      currentBlock := b;
      if updateHeads { currentHeader, currentFast := b, b; }
    }

    /** Points the lookup entries of a block's transactions at it. */
    method WriteLookups(b: Header)
      modifies this`lookup
      ensures forall t :: t in lookup <==> t in old(lookup) || t in BlockTxs(txs, b)
      ensures forall t :: t in lookup ==> lookup[t] == if t in BlockTxs(txs, b) then b.hash else old(lookup)[t]
    {
      var list := BlockTxs(txs, b);
      for i := 0 to |list|
        invariant forall t :: t in lookup <==> t in old(lookup) || t in list[..i]
        invariant forall t :: t in lookup ==> lookup[t] == if t in list[..i] then b.hash else old(lookup)[t]
      {
        assert list[..i + 1] == list[..i] + [list[i]];
        lookup := lookup[list[i] := b.hash];
      }
      assert list[..|list|] == list;
    }

    /** Inserts a branch, lowest block first. */
    method InsertBranch(branch: seq<Header>)
      modifies this`canonical, this`currentBlock, this`currentHeader, this`currentFast, this`lookup
      ensures canonical == Overlaid(old(canonical), branch)
      ensures LookupsFollow(txs, old(lookup), lookup, branch)
      ensures branch != [] ==> currentBlock == branch[0]
      ensures branch == [] ==> currentBlock == old(currentBlock)
      ensures currentHeader == HeadAfter(old(canonical), branch, old(currentHeader))
      ensures currentFast == HeadAfter(old(canonical), branch, old(currentFast))
    {
      hide LookupsFollow, TxsOf, BlockTxs;
      var i := |branch|;
      NothingOverlaid(canonical, lookup, branch, txs);
      while i > 0
        invariant 0 <= i <= |branch|
        invariant canonical == Overlaid(old(canonical), branch[i..])
        invariant LookupsFollow(txs, old(lookup), lookup, branch[i..])
        invariant i < |branch| ==> currentBlock == branch[i]
        invariant i == |branch| ==> currentBlock == old(currentBlock)
        invariant currentHeader == HeadAfter(old(canonical), branch[i..], old(currentHeader))
        invariant currentFast == HeadAfter(old(canonical), branch[i..], old(currentFast))
      {
        i := i - 1;
        ghost var before := lookup;
        InsertBlock(branch[i]);
        WriteLookups(branch[i]);
        assert branch[i..] == [branch[i]] + branch[i + 1..];
        LookupsFollowNext(txs, old(lookup), before, lookup, branch[i + 1..], branch[i]);
      }
      assert branch[0..] == branch;
    }

    /**
     Switches the chain from one block to another. The canonical entries of the new branch
     point at it, its transactions at its blocks, and a transaction of the old branch that
     the new one does not have loses its entry; nothing else changes.
     */
    method Reorg(oldBlock: Header, newBlock: Header) returns (r: Result<ForkInfo, ReorgError>)
      requires WellFiled(headers) && Stored(headers, oldBlock) && Stored(headers, newBlock)
      modifies this`canonical, this`currentBlock, this`currentHeader, this`currentFast, this`lookup
      ensures r.Err? <==> Unrelated(headers, oldBlock, newBlock)
      ensures r.Err? ==> canonical == old(canonical) && lookup == old(lookup) && currentBlock == old(currentBlock)
      ensures r.Err? ==> currentHeader == old(currentHeader) && currentFast == old(currentFast)
      ensures r.Ok? ==>
        && Fork(headers, oldBlock, newBlock, r.value.oldChain, r.value.newChain, r.value.base)
        && canonical == Overlaid(old(canonical), r.value.newChain)
        && LookupsMoved(txs, old(lookup), lookup, r.value.oldChain, r.value.newChain)
        && currentBlock == (if r.value.newChain == [] then old(currentBlock) else newBlock)
        && currentHeader == HeadAfter(old(canonical), r.value.newChain, old(currentHeader))
        && currentFast == HeadAfter(old(canonical), r.value.newChain, old(currentFast))
    {
      hide WellFiled, Unrelated, Stored, Fork, LookupsFollow, LookupsMoved, Overlaid, TxsOf, HeadAfter;
      r := FindFork(oldBlock, newBlock);
      if r.Err? { return; }
      ForkMeets(headers, oldBlock, newBlock, r.value.oldChain, r.value.newChain, r.value.base);
      InsertBranch(r.value.newChain);
      ghost var written := lookup;
      var diff := TxDifference(r.value.deletedTxs, TxsOf(txs, r.value.newChain));
      DeleteLookups(diff);
      LookupsSettle(txs, old(lookup), written, lookup, r.value.oldChain, r.value.newChain);
    }

    method DeleteLookups(gone: seq<TxId>)
      modifies this`lookup
      ensures forall t :: t in lookup <==> t in old(lookup) && t !in gone
      ensures forall t :: t in lookup ==> lookup[t] == old(lookup)[t]
    {
      for i := 0 to |gone|
        invariant forall t :: t in lookup <==> t in old(lookup) && t !in gone[..i]
        invariant forall t :: t in lookup ==> lookup[t] == old(lookup)[t]
      {
        assert gone[..i + 1] == gone[..i] + [gone[i]];
        lookup := lookup - {gone[i]};
      }
      assert gone[..|gone|] == gone;
    }
  }

  lemma NoMeetMirrored(headers: Headers, a: Header, b: Header)
    requires Unrelated(headers, a, b)
    ensures Unrelated(headers, b, a)
  {
    forall i: nat, j: nat ensures !Meet(headers, b, a, i, j) {
      assert !Meet(headers, a, b, j, i);
    }
  }

  lemma ForkMeets(headers: Headers, a: Header, b: Header, left: seq<Header>, right: seq<Header>, base: Header)
    requires Fork(headers, a, b, left, right, base)
    ensures !Unrelated(headers, a, b)
    ensures left != [] ==> left[0] == a
    ensures right != [] ==> right[0] == b
  {
    assert Meet(headers, a, b, |left|, |right|);
    assert right != [] ==> Up(headers, b, 0) == Some(right[0]);
    assert left != [] ==> Up(headers, a, 0) == Some(left[0]);
  }

  /** The index with each block of a branch written at its height, lowest block first. */
  function Overlaid(canonical: map<nat, Hash>, branch: seq<Header>): map<nat, Hash> {
    if branch == [] then canonical else Overlaid(canonical, branch[1..])[branch[0].number := branch[0].hash]
  }

  /** Where the other heads stand once a branch is written: at its highest block that was not canonical yet. */
  function HeadAfter(canonical: map<nat, Hash>, branch: seq<Header>, head: Header): Header {
    if branch == [] then head
    else if ReadCanonical(Overlaid(canonical, branch[1..]), branch[0].number) != branch[0].hash then branch[0]
    else HeadAfter(canonical, branch[1..], head)
  }

  /** A reorg from the head of the canonical chain that adds a branch moves every head to the new block. */
  lemma HeadsFollow(headers: Headers, canonical: map<nat, Hash>, a: Header, b: Header, left: seq<Header>,
                    right: seq<Header>, base: Header, head: Header)
    requires WellFiled(headers) && Stored(headers, a) && Stored(headers, b) && right != []
    requires IsChain(headers, canonical, a) && Fork(headers, a, b, left, right, base)
    ensures HeadAfter(canonical, right, head) == b
  {
    ForkMeets(headers, a, b, left, right, base);
    BranchNumbers(headers, b, right, base);
    OverlaidAt(canonical, right[1..], b.number);
    if ReadCanonical(canonical, b.number) == b.hash {
      assert b.hash != NO_HASH;
      var k := a.number - b.number;
      ChainIsAncestry(headers, canonical, a, k);
      assert Meet(headers, a, b, k, 0);
    }
  }

  lemma BranchNumbers(headers: Headers, b: Header, right: seq<Header>, base: Header)
    requires Branch(headers, b, right, base)
    ensures forall i :: 0 <= i < |right| ==> right[i].number == b.number - i
  {
    forall i | 0 <= i < |right| ensures right[i].number == b.number - i { UpNumber(headers, b, i); }
  }

  /** After a branch is written, its transactions are found in some block of it and the rest where they were. */
  ghost predicate LookupsFollow(txs: map<Hash, seq<TxId>>, was: map<TxId, Hash>, lookup: map<TxId, Hash>,
                                branch: seq<Header>) {
    && (forall t :: t in lookup <==> t in was || t in TxsOf(txs, branch))
    && (forall t :: t in TxsOf(txs, branch) ==>
          t in lookup && exists b :: b in branch && t in BlockTxs(txs, b) && lookup[t] == b.hash)
    && (forall t :: t in was && t !in TxsOf(txs, branch) ==> t in lookup && lookup[t] == was[t])
  }

  lemma NothingOverlaid(canonical: map<nat, Hash>, lookup: map<TxId, Hash>, branch: seq<Header>,
                        txs: map<Hash, seq<TxId>>)
    ensures Overlaid(canonical, branch[|branch|..]) == canonical
    ensures LookupsFollow(txs, lookup, lookup, branch[|branch|..])
  {
  }

  lemma InTxsOfCons(txs: map<Hash, seq<TxId>>, b: Header, s: seq<Header>, t: TxId)
    ensures t in TxsOf(txs, [b] + s) <==> t in BlockTxs(txs, b) || t in TxsOf(txs, s)
  {
    InTxsOf(txs, s, t);
    InTxsOf(txs, [b] + s, t);
    if t in BlockTxs(txs, b) { assert ([b] + s)[0] == b; }
    if t in TxsOf(txs, s) {
      var i :| 0 <= i < |s| && t in BlockTxs(txs, s[i]);
      assert ([b] + s)[i + 1] == s[i];
    }
  }

  lemma LookupsFollowNext(txs: map<Hash, seq<TxId>>, was: map<TxId, Hash>, mid: map<TxId, Hash>,
                          lookup: map<TxId, Hash>, branch: seq<Header>, b: Header)
    requires LookupsFollow(txs, was, mid, branch)
    requires forall t :: t in lookup <==> t in mid || t in BlockTxs(txs, b)
    requires forall t :: t in lookup ==> lookup[t] == if t in BlockTxs(txs, b) then b.hash else mid[t]
    ensures LookupsFollow(txs, was, lookup, [b] + branch)
  {
    forall t ensures t in TxsOf(txs, [b] + branch) <==> t in BlockTxs(txs, b) || t in TxsOf(txs, branch) {
      InTxsOfCons(txs, b, branch, t);
    }
    forall t | t in TxsOf(txs, [b] + branch)
      ensures t in lookup && exists c :: c in [b] + branch && t in BlockTxs(txs, c) && lookup[t] == c.hash
    {
      if t in BlockTxs(txs, b) {
        assert b in [b] + branch;
      } else {
        var c :| c in branch && t in BlockTxs(txs, c) && mid[t] == c.hash;
        assert c in [b] + branch;
      }
    }
  }

  /** What a reorg does to the lookup. */
  ghost predicate LookupsMoved(txs: map<Hash, seq<TxId>>, was: map<TxId, Hash>, lookup: map<TxId, Hash>,
                               oldChain: seq<Header>, newChain: seq<Header>)
  {
    && (forall t :: t in TxsOf(txs, newChain) ==>
          t in lookup && exists b :: b in newChain && t in BlockTxs(txs, b) && lookup[t] == b.hash)
    && (forall t :: t in TxsOf(txs, oldChain) && t !in TxsOf(txs, newChain) ==> t !in lookup)
    && (forall t :: t !in TxsOf(txs, oldChain) && t !in TxsOf(txs, newChain) ==>
          (t in lookup <==> t in was) && (t in was && t in lookup ==> lookup[t] == was[t]))
  }

  lemma LookupsSettle(txs: map<Hash, seq<TxId>>, was: map<TxId, Hash>, mid: map<TxId, Hash>, lookup: map<TxId, Hash>,
                      oldChain: seq<Header>, newChain: seq<Header>)
    requires LookupsFollow(txs, was, mid, newChain)
    requires forall t :: t in lookup <==> t in mid && !(t in TxsOf(txs, oldChain) && t !in TxsOf(txs, newChain))
    requires forall t :: t in lookup ==> lookup[t] == mid[t]
    ensures LookupsMoved(txs, was, lookup, oldChain, newChain)
  {
  }

  /** Two branches fork in one place only. */
  lemma ForkIsUnique(headers: Headers, a: Header, b: Header, left: seq<Header>, right: seq<Header>, base: Header,
                     left': seq<Header>, right': seq<Header>, base': Header)
    requires Fork(headers, a, b, left, right, base) && Fork(headers, a, b, left', right', base')
    ensures left == left' && right == right' && base == base'
  {
    assert Meet(headers, a, b, |left|, |right|) && Meet(headers, a, b, |left'|, |right'|);
    forall i | 0 <= i < |left| ensures left[i] == left'[i] { assert Up(headers, a, i) == Some(left[i]); }
    forall i | 0 <= i < |right| ensures right[i] == right'[i] { assert Up(headers, b, i) == Some(right[i]); }
  }

  /** The branch above a block of the old chain replaces exactly the entries above that block. */
  lemma {:induction false} OverlaidAt(canonical: map<nat, Hash>, branch: seq<Header>, n: nat)
    requires forall i, j :: 0 <= i < j < |branch| ==> branch[i].number != branch[j].number
    ensures n in Overlaid(canonical, branch) <==>
      n in canonical || exists i :: 0 <= i < |branch| && branch[i].number == n
    ensures forall i :: 0 <= i < |branch| && branch[i].number == n ==>
      ReadCanonical(Overlaid(canonical, branch), n) == branch[i].hash
    ensures (forall i :: 0 <= i < |branch| ==> branch[i].number != n) ==>
              ReadCanonical(Overlaid(canonical, branch), n) == ReadCanonical(canonical, n)
  {
    if branch != [] {
      var rest := branch[1..];
      OverlaidAt(canonical, rest, n);
      assert forall i :: 0 <= i < |rest| ==> rest[i] == branch[i + 1];
      if branch[0].number != n {
        if i :| 0 <= i < |branch| && branch[i].number == n { assert rest[i - 1].number == n; }
      }
    }
  }

  /**
   After a reorg from the head of the canonical chain, the index is the path of the new head
   exactly when the new head is not lower than the old one; a lower new head leaves the
   entries above it behind.
   */
  lemma ReorgedIndex(headers: Headers, canonical: map<nat, Hash>, a: Header, b: Header, left: seq<Header>,
                     right: seq<Header>, base: Header)
    requires WellFiled(headers) && Stored(headers, a) && Stored(headers, b)
    requires IsChain(headers, canonical, a) && Fork(headers, a, b, left, right, base)
    ensures IsChain(headers, Overlaid(canonical, right), b) <==> a.number <= b.number
    ensures forall n :: n in canonical && n > b.number ==>
      n in Overlaid(canonical, right) && Overlaid(canonical, right)[n] == canonical[n]
  {
    var after := Overlaid(canonical, right);
    forall n: nat ensures n in after <==> n <= a.number || n <= b.number {
      AfterAt(headers, canonical, a, b, left, right, base, n);
    }
    forall n: nat | n <= b.number ensures LinkAt(headers, after, n) {
      LinkedAfter(headers, canonical, a, b, left, right, base, n);
    }
    forall n | n in canonical && n > b.number ensures n in after && after[n] == canonical[n] {
      AfterAt(headers, canonical, a, b, left, right, base, n);
    }
    AfterAt(headers, canonical, a, b, left, right, base, b.number);
    if a.number > b.number {
      assert a.number in after;
    }
  }

  /** What the overlaid index holds at each height: the new branch above the base, the old chain elsewhere. */
  lemma AfterAt(headers: Headers, canonical: map<nat, Hash>, a: Header, b: Header, left: seq<Header>,
                right: seq<Header>, base: Header, n: nat)
    requires WellFiled(headers) && Stored(headers, a) && Stored(headers, b)
    requires IsChain(headers, canonical, a) && Fork(headers, a, b, left, right, base)
    ensures base.number + |right| == b.number && base.number + |left| == a.number
    ensures n in Overlaid(canonical, right) <==> n <= a.number || n <= b.number
    ensures base.number < n <= b.number ==> ReadCanonical(Overlaid(canonical, right), n) == right[b.number - n].hash
    ensures n <= base.number || n > b.number ==>
      ReadCanonical(Overlaid(canonical, right), n) == ReadCanonical(canonical, n)
    ensures n == b.number ==> ReadCanonical(Overlaid(canonical, right), n) == b.hash
    ensures n == base.number ==> ReadCanonical(canonical, n) == base.hash && Stored(headers, base)
  {
    UpNumber(headers, a, |left|);
    UpNumber(headers, b, |right|);
    forall i | 0 <= i < |right| ensures right[i].number == b.number - i { UpNumber(headers, b, i); }
    OverlaidAt(canonical, right, n);
    ChainIsAncestry(headers, canonical, a, |left|);
    UpStored(headers, a, |left|);
    assert right != [] ==> Up(headers, b, 0) == Some(right[0]);
    if base.number < n <= b.number { assert right[b.number - n].number == n; }
  }

  lemma LinkedAfter(headers: Headers, canonical: map<nat, Hash>, a: Header, b: Header, left: seq<Header>,
                    right: seq<Header>, base: Header, n: nat)
    requires WellFiled(headers) && Stored(headers, a) && Stored(headers, b)
    requires IsChain(headers, canonical, a) && Fork(headers, a, b, left, right, base) && n <= b.number
    ensures LinkAt(headers, Overlaid(canonical, right), n)
  {
    hide Overlaid, Fork, WellFiled;
    AfterAt(headers, canonical, a, b, left, right, base, n);
    if n > 0 { AfterAt(headers, canonical, a, b, left, right, base, n - 1); }
    if n <= base.number {
      assert LinkAt(headers, canonical, n);
    } else {
      BranchLink(headers, a, b, left, right, base, n);
    }
  }

  /** Each header of the new branch is stored and the child of the one below it. */
  lemma BranchLink(headers: Headers, a: Header, b: Header, left: seq<Header>, right: seq<Header>, base: Header, n: nat)
    requires WellFiled(headers) && Stored(headers, b) && Fork(headers, a, b, left, right, base)
    requires base.number < n <= b.number && base.number + |right| == b.number
    ensures var h := right[b.number - n];
            Stored(headers, h) && h.number == n && h.parent == if n - 1 > base.number then right[b.number - n + 1].hash
                                                               else base.hash
  {
    var i := b.number - n;
    assert Up(headers, b, i) == Some(right[i]);
    UpNumber(headers, b, i);
    UpStored(headers, b, i);
    assert Up(headers, b, i + 1) == if i + 1 < |right| then Some(right[i + 1]) else Some(base);
  }
}
