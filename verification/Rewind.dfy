/**
 Rewinding the chain (blockchain/blockchain.go, blockchain/headerchain.go): SetHead walks the
 header chain down, and before each step lets the block chain pick a head block that still
 has its body and its state, which may pull the target further down.
 */
module Rewinds {
  import opened Chains
  import opened Wrappers

  datatype RewindError = GenesisWithoutState | MissingBlock | PrunedTarget

  /** What the rewind relies on: filed headers, and one genesis, the only stored header numbered 0. */
  ghost predicate Grounded(headers: Headers, genesis: Header) {
    && WellFiled(headers) && genesis.number == 0
    && (forall h :: h in headers && headers[h].number == 0 ==> headers[h] == genesis)
  }

  /** A block is there when its header and its body are. */
  function BlockIn(headers: Headers, bodies: set<Hash>, hash: Hash, number: nat): (b: Option<Header>) {
    if hash in bodies then GetHeader(headers, hash, number) else None
  }

  /** Going down from `b` by blocks that are there, one meets the height `rest`, and the block there has state. */
  ghost predicate Reaches(headers: Headers, bodies: set<Hash>, states: set<nat>, b: Header, rest: nat)
    decreases b.number
  {
    if b.number <= rest then b.number == rest && b.root in states
    else
      var parent := BlockIn(headers, bodies, b.parent, b.number - 1);
      parent.Some? && Reaches(headers, bodies, states, parent.value, rest)
  }

  /** Only headers above a height are gone, and no body but with its header. */
  ghost predicate Keeps(headers0: Headers, bodies0: set<Hash>, headers: Headers, bodies: set<Hash>, height: nat) {
    && (forall h :: h in headers ==> h in headers0 && headers[h] == headers0[h])
    && (forall h :: h in headers0 && headers0[h].number <= height ==> h in headers)
    && bodies <= bodies0 && forall h :: h in bodies0 && h !in bodies ==> h in headers0 && h !in headers
  }

  lemma KeepsOn(headers0: Headers, bodies0: set<Hash>, headers: Headers, bodies: set<Hash>, hdr: Header, height: nat)
    requires Keeps(headers0, bodies0, headers, bodies, hdr.number) && hdr.hash in headers && headers[hdr.hash] == hdr
    requires height < hdr.number
    ensures Keeps(headers0, bodies0, headers - {hdr.hash}, bodies - {hdr.hash}, height)
  {
  }

  class BlockChain {
    const genesis: Header
    var headers: Headers
    var bodies: set<Hash>
    var canonical: map<nat, Hash>
    var states: set<nat>
    var currentHeader: Header
    var currentBlock: Header
    var currentFast: Header

    constructor (genesis: Header)
      requires genesis.number == 0 && genesis.hash != NO_HASH
      ensures Grounded(headers, genesis) && IsChain(headers, canonical, currentHeader)
      ensures this.genesis == currentHeader == currentBlock == currentFast == genesis
      ensures HasState(genesis) && headers.Keys == bodies == {genesis.hash}
    {
      this.genesis := genesis;
      headers, bodies, canonical := map[genesis.hash := genesis], {genesis.hash}, map[0 := genesis.hash];
      states, currentHeader, currentBlock, currentFast := {genesis.root}, genesis, genesis, genesis;
    }

    function GetBlock(hash: Hash, number: nat): (b: Option<Header>)
      reads this`headers, this`bodies
    {
      BlockIn(headers, bodies, hash, number)
    }

    predicate HasState(b: Header)
      reads this`states
    {
      b.root in states
    }

    /** `b` is `start` or an ancestor of it. */
    ghost predicate Descends(start: Header, b: Header)
      reads this`headers
    {
      exists k: nat :: Up(headers, start, k) == Some(b)
    }

    /** The j-th ancestor of `b` is there and has no state. */
    ghost predicate Stateless(b: Header, j: nat)
      reads this`headers, this`states
    {
      Up(headers, b, j).Some? && !HasState(Up(headers, b, j).value)
    }

    /** `b` is an ancestor with state, and every one nearer has none. */
    ghost predicate NearestWithState(start: Header, b: Header)
      reads this`headers, this`states
    {
      HasState(b) && exists k: nat :: Up(headers, start, k) == Some(b) && forall j: nat :: j < k ==> Stateless(start, j)
    }

    /** The j-th ancestor of `b` has the given state root. */
    ghost predicate RootedIn(b: Header, j: nat, root: nat)
      reads this`headers
    {
      Up(headers, b, j).Some? && Up(headers, b, j).value.root == root
    }

    /** `b` is an ancestor with state, at or below an ancestor with the given state root. */
    ghost predicate BeyondRoot(start: Header, root: nat, b: Header)
      reads this`headers, this`states
    {
      HasState(b) && exists j: nat, k: nat :: j <= k && RootedIn(start, j, root) && Up(headers, start, k) == Some(b)
    }

    /** The k-th ancestor has state, and the requested root, if any, is at it or nearer. */
    ghost predicate Passes(start: Header, root: Option<nat>, k: nat)
      reads this`headers, this`states
    {
      && Up(headers, start, k).Some? && HasState(Up(headers, start, k).value)
      && (root.Some? ==> exists j: nat :: j <= k && RootedIn(start, j, root.value))
    }

    /** `b` is the nearest ancestor that passes. */
    ghost predicate NearestPassing(start: Header, root: Option<nat>, b: Header)
      reads this`headers, this`states
    {
      exists k: nat :: Up(headers, start, k) == Some(b) && Passes(start, root, k) && NoneNearer(start, root, k)
    }

    ghost predicate NoneNearer(start: Header, root: Option<nat>, k: nat)
      reads this`headers, this`states
    {
      forall j: nat :: j < k ==> !Passes(start, root, j)
    }

    /** The first `k` ancestors are there with their bodies. */
    ghost predicate BodiesTo(start: Header, k: nat)
      reads this`headers, this`bodies
    {
      forall j: nat :: j <= k ==> Up(headers, start, j).Some? && Up(headers, start, j).value.hash in bodies
    }

    /** No ancestor above genesis that passes is reached by bodies. */
    ghost predicate NonePassing(start: Header, root: Option<nat>)
      reads this`headers, this`bodies, this`states
    {
      forall k: nat :: BodiesTo(start, k) && Passes(start, root, k) ==> Up(headers, start, k).value.number == 0
    }

    /** The chain is intact, with its bodies down to `rest`, where there is state and the head block has not passed. */
    ghost predicate IntactDownTo(rest: nat)
      reads this
    {
      && IsChain(headers, canonical, currentHeader)
      && rest <= currentHeader.number && rest <= currentBlock.number
      && (forall i :: rest <= i < currentHeader.number && i in canonical ==> canonical[i] in bodies)
      && (forall h :: h in headers && rest in canonical && h == canonical[rest] ==> HasState(headers[h]))
    }

    /**
     The block to rewind to, starting from a stored block: the nearest ancestor with state, at
     or below the block with the requested root if one is given; genesis where the bodies end.
     */
    method FindHeadBlock(start: Header, root: Option<nat>) returns (r: Result<Header, RewindError>)
      requires Grounded(headers, genesis) && GetBlock(start.hash, start.number) == Some(start)
      ensures r.Ok? ==> r.value.number <= start.number
      ensures r.Ok? && r.value.number == start.number ==> r.value == start
      ensures r.Ok? ==> HasState(r.value) || r.value == genesis
      ensures r.Ok? ==> r.value == genesis || Descends(start, r.value)
      ensures root.None? ==> r.Ok? && (r.value == genesis || NearestWithState(start, r.value))
      ensures r.Ok? && root.Some? ==> r.value == genesis || BeyondRoot(start, root.value, r.value)
      ensures root.None? ==> forall rest: nat ::
        Reaches(headers, bodies, states, start, rest) ==> r.value.number >= rest && HasState(r.value)
      ensures r.Ok? ==> NearestPassing(start, root, r.value) || (r.value == genesis && NonePassing(start, root))
    {
      var block := start;
      var beyondRoot := root.None?;
      ghost var depth: nat := 0;
      while true
        invariant GetBlock(block.hash, block.number) == Some(block) && block.number <= start.number
        invariant block.number == start.number ==> block == start
        invariant root.None? ==> beyondRoot
        invariant Up(headers, start, depth) == Some(block)
        invariant root.None? ==> forall j: nat :: j < depth ==> Stateless(start, j)
        invariant root.Some? && beyondRoot ==> exists j: nat :: j <= depth && RootedIn(start, j, root.value)
        invariant root.None? ==> forall rest: nat ::
          Reaches(headers, bodies, states, start, rest) ==> Reaches(headers, bodies, states, block, rest)
        invariant root.Some? && !beyondRoot ==> forall j: nat :: j < depth ==> !RootedIn(start, j, root.value)
        invariant NoneNearer(start, root, depth)
        decreases block.number
      {
        if root.Some? && !beyondRoot && block.root == root.value {
          assert RootedIn(start, depth, root.value);
          beyondRoot := true;
        }
        assert Passes(start, root, depth) <==> HasState(block) && beyondRoot;
        var parent := GetBlock(block.parent, Pred(block.number));
        assert parent.Some? ==> Up(headers, start, depth + 1) == parent;
        if !HasState(block) {
          if parent.Some? {
            block, depth := parent.value, depth + 1;
            continue;
          }
          assert Up(headers, start, depth + 1) == GetHeader(headers, block.parent, Pred(block.number));
          assert !BodiesTo(start, depth + 1);
          assert forall k: nat :: BodiesTo(start, k) && k > depth ==> BodiesTo(start, depth + 1);
          return Ok(genesis);
        }
        if block.number == 0 {
          assert Up(headers, start, depth + 1).None?;
          assert forall k: nat :: BodiesTo(start, k) ==> k <= depth;
        }
        if beyondRoot || block.number == 0 { return Ok(block); }
        if parent.None? { return Err(MissingBlock); }
        block, depth := parent.value, depth + 1;
      }
    }

    lemma {:induction false} IntactReaches(rest: nat, i: nat)
      requires Grounded(headers, genesis) && IntactDownTo(rest) && rest <= i < currentHeader.number
      ensures i in canonical && canonical[i] in headers
      ensures GetBlock(canonical[i], i) == Some(headers[canonical[i]])
      ensures Reaches(headers, bodies, states, headers[canonical[i]], rest)
      ensures i == currentHeader.number - 1 ==>
        GetHeader(headers, currentHeader.parent, i) == Some(headers[canonical[i]])
    {
      assert LinkAt(headers, canonical, i) && LinkAt(headers, canonical, i + 1);
      if i > rest { IntactReaches(rest, i - 1); }
    }

    /** Pulls the block markers down to at most `header`, and returns the height of the head block. */
    method UpdateHead(header: Header, root: Option<nat>) returns (r: Result<nat, RewindError>)
      requires Grounded(headers, genesis)
      requires header == genesis || (header.hash in headers && headers[header.hash] == header)
      modifies this`currentBlock, this`currentFast
      ensures r.Ok? ==> r.value == currentBlock.number
      ensures r.Err? ==> currentBlock == old(currentBlock) && currentFast == old(currentFast)
      ensures r.Ok? && header.number > old(currentBlock).number ==> currentBlock == old(currentBlock)
      ensures r.Ok? && header.number <= old(currentBlock).number ==>
        && currentBlock.number <= header.number && HasState(currentBlock)
        && (currentBlock.number == header.number ==> currentBlock == header)
        && (currentBlock == genesis || Descends(header, currentBlock))
      ensures r.Ok? && root.None? && header.number <= old(currentBlock).number ==>
        currentBlock == genesis || NearestWithState(header, currentBlock)
      ensures r.Ok? && root.Some? && header.number <= old(currentBlock).number ==>
        currentBlock == genesis || BeyondRoot(header, root.value, currentBlock)
      ensures r.Ok? ==> currentFast == (if header.number >= old(currentFast).number then old(currentFast)
                                        else if GetBlock(header.hash, header.number).Some? then header else genesis)
      ensures root.None? && GetBlock(header.hash, header.number) == Some(header) ==>
        forall rest: nat :: Reaches(headers, bodies, states, header, rest) ==>
          r.Ok? && (old(currentBlock).number >= rest ==> currentBlock.number >= rest)
      ensures r.Ok? && header.number <= old(currentBlock).number ==>
        if GetBlock(header.hash, header.number).None? then currentBlock == genesis
        else NearestPassing(header, root, currentBlock) || (currentBlock == genesis && NonePassing(header, root))
    {
      if header.number <= currentBlock.number {
        var found := GetBlock(header.hash, header.number);
        var block := genesis;
        if found.Some? {
          assert found.value == header;
          var nearest := FindHeadBlock(found.value, root);
          if nearest.Err? { return Err(nearest.error); }
          block := nearest.value;
        }
        if block.number == 0 && !HasState(block) { return Err(GenesisWithoutState); }
        currentBlock := block;
      }
      if header.number < currentFast.number {
        var fast := GetBlock(header.hash, header.number);
        currentFast := if fast.Some? then fast.value else genesis;
      }
      r := Ok(currentBlock.number);
    }

    /** One step down: updates the block markers for the parent, then deletes the head header. */
    method StepDown(root: Option<nat>) returns (r: Result<nat, RewindError>)
      requires Grounded(headers, genesis) && currentHeader.number > 0
      modifies this
      ensures Grounded(headers, genesis) && states == old(states)
      ensures r.Err? ==> unchanged(this)
      ensures r.Ok? ==> r.value == currentBlock.number && currentHeader.number < old(currentHeader).number
      ensures r.Ok? ==> MarkersFollow(old(currentBlock), old(currentFast))
      ensures r.Ok? ==>
        headers == old(headers) - {old(currentHeader).hash} && bodies == old(bodies) - {old(currentHeader).hash}
      ensures r.Ok? && old(IsChain(headers, canonical, currentHeader)) ==>
        && IsChain(headers, canonical, currentHeader) && currentHeader.number == old(currentHeader).number - 1
        && canonical == old(canonical) - {old(currentHeader).number}
      ensures root.None? ==>
        forall rest: nat :: old(IntactDownTo(rest)) && rest < old(currentHeader).number ==> r.Ok? && IntactDownTo(rest)
    {
      hide IsChain;
      var hdr := currentHeader;
      var found := GetHeader(headers, hdr.parent, hdr.number - 1);
      var parent := if found.Some? then found.value else genesis;
      forall rest: nat | IntactDownTo(rest) && rest < hdr.number
        ensures GetBlock(parent.hash, parent.number) == Some(parent) && Reaches(headers, bodies, states, parent, rest)
      {
        IntactReaches(rest, hdr.number - 1);
      }
      r := UpdateHead(parent, root);
      forall rest: nat | root.None? && old(IntactDownTo(rest)) && rest < hdr.number
        ensures r.Ok? && currentBlock.number >= rest
      {
        assert Reaches(headers, bodies, states, parent, rest);
      }
      if r.Err? { return; }
      if IsChain(headers, canonical, hdr) {
        ChainStepsDown(headers, canonical, hdr, genesis);
        HeadNotBelow(headers, canonical, hdr);
      }
      DeleteHead(parent);
      forall rest: nat | root.None? && old(IntactDownTo(rest)) && rest < hdr.number ensures IntactDownTo(rest) {
        assert rest <= currentBlock.number;
      }
    }

    /** Deletes the head header with its body and canonical entry, and makes `parent` the head. */
    method DeleteHead(parent: Header)
      requires Grounded(headers, genesis)
      modifies this`bodies, this`headers, this`canonical, this`currentHeader
      ensures Grounded(headers, genesis) && currentHeader == parent
      ensures headers == old(headers) - {old(currentHeader).hash} && bodies == old(bodies) - {old(currentHeader).hash}
      ensures canonical == old(canonical) - {old(currentHeader).number}
    {
      bodies := bodies - {currentHeader.hash};
      headers := headers - {currentHeader.hash};
      canonical := canonical - {currentHeader.number};
      currentHeader := parent;
    }

    /** Where the block markers stand once the head header is the parent of the old one. */
    ghost predicate MarkersFollow(block: Header, fast: Header)
      reads this
    {
      && (currentHeader.number > block.number ==> currentBlock == block)
      && (currentHeader.number <= block.number ==>
            currentBlock.number <= currentHeader.number && HasState(currentBlock) &&
            (currentBlock.number == currentHeader.number ==> currentBlock == currentHeader))
      && (currentFast.number <= currentHeader.number || currentFast == fast)
      && (currentHeader.number < fast.number ==> currentFast.number <= currentHeader.number)
    }

    /**
     Rewinds the header chain to `target`, if it is above it. Afterwards the head header and
     the head block are the same block, at most at the target, with state; the canonical
     index of an intact chain is the path of that block and nothing is left above it. It never goes
     below a block that has its state and, down to it, the bodies; so it ends at the highest one
     at or below the target and the old head block.
     */
    method RewindTo(target: nat, root: Option<nat>) returns (r: Result<(), RewindError>)
      requires Grounded(headers, genesis)
      modifies this
      ensures Grounded(headers, genesis)
      ensures old(currentHeader).number <= target ==> r.Ok? && unchanged(this)
      ensures r.Ok? && old(currentHeader).number > target ==>
        && currentHeader == currentBlock && currentHeader.number <= target && HasState(currentBlock)
        && (old(currentFast).number <= old(currentHeader).number ==> currentFast.number <= currentHeader.number)
      ensures r.Ok? && old(IsChain(headers, canonical, currentHeader)) ==>
        && IsChain(headers, canonical, currentHeader)
        && (forall i :: i in canonical ==> i in old(canonical) && canonical[i] == old(canonical)[i])
        && Keeps(old(headers), old(bodies), headers, bodies, currentHeader.number)
      ensures root.None? ==>
        forall rest: nat :: rest <= target && old(IntactDownTo(rest)) ==> r.Ok? && currentHeader.number >= rest
      ensures root.None? && old(IntactDownTo(target)) ==> r.Ok? && currentHeader.number == target
    {
      hide IsChain, Reaches;
      var head: nat := target;
      ghost var stepped := false;
      while currentHeader.number > head
        invariant Grounded(headers, genesis) && head <= target
        invariant !stepped ==> head == target && unchanged(this)
        invariant stepped ==> old(currentHeader).number > target && head <= currentBlock.number <= currentHeader.number
        invariant stepped && currentHeader.number <= head ==> currentHeader == currentBlock && HasState(currentBlock)
        invariant old(currentFast).number <= old(currentHeader).number ==> currentFast.number <= currentHeader.number
        invariant old(IsChain(headers, canonical, currentHeader)) ==>
          && IsChain(headers, canonical, currentHeader)
          && (forall i :: i in canonical ==> i in old(canonical) && canonical[i] == old(canonical)[i])
          && Keeps(old(headers), old(bodies), headers, bodies, currentHeader.number)
        invariant root.None? ==>
          forall rest: nat :: rest <= target && old(IntactDownTo(rest)) ==> IntactDownTo(rest) && rest <= head
        decreases currentHeader.number
      {
        ghost var hdr, headers0, bodies0 := currentHeader, headers, bodies;
        if old(IsChain(headers, canonical, currentHeader)) { HeadNotBelow(headers, canonical, hdr); }
        var step := StepDown(root);
        if step.Ok? && old(IsChain(headers, canonical, currentHeader)) {
          KeepsOn(old(headers), old(bodies), headers0, bodies0, hdr, currentHeader.number);
        }
        if step.Err? { return Err(step.error); }
        if step.value < head { head := step.value; }
        stepped := true;
      }
      r := Ok(());
    }

    /** The public rewind: a target whose state has been pruned is refused. */
    method SetHead(target: nat, lastPruned: Option<nat>) returns (r: Result<(), RewindError>)
      requires Grounded(headers, genesis)
      modifies this
      ensures lastPruned.Some? && target <= lastPruned.value ==> r == Err(PrunedTarget) && unchanged(this)
      ensures r.Ok? && old(currentHeader).number > target ==>
        currentHeader == currentBlock && currentHeader.number <= target && HasState(currentBlock)
      ensures r.Ok? && old(currentHeader).number > target && old(IsChain(headers, canonical, currentHeader)) ==>
        && IsChain(headers, canonical, currentHeader)
        && Keeps(old(headers), old(bodies), headers, bodies, currentHeader.number)
        && forall i :: i in canonical ==>
             i <= currentBlock.number && i in old(canonical) && canonical[i] == old(canonical)[i]
      ensures !(lastPruned.Some? && target <= lastPruned.value) ==>
        && (old(currentHeader).number <= target ==> r.Ok? && unchanged(this))
        && (forall rest: nat :: rest <= target && old(IntactDownTo(rest)) ==> r.Ok? && currentHeader.number >= rest)
        && (old(IntactDownTo(target)) ==> r.Ok? && currentHeader.number == target)
    {
      if lastPruned.Some? && target <= lastPruned.value { return Err(PrunedTarget); }
      r := RewindTo(target, None);
    }
  }

  /** Deleting the head of an intact chain leaves the intact chain of its parent. */
  lemma ChainStepsDown(headers: Headers, canonical: map<nat, Hash>, head: Header, genesis: Header)
    requires Grounded(headers, genesis) && IsChain(headers, canonical, head) && head.number > 0
    ensures var found := GetHeader(headers, head.parent, head.number - 1);
            found.Some? && IsChain(headers - {head.hash}, canonical - {head.number}, found.value)
  {
    assert LinkAt(headers, canonical, head.number);
    assert LinkAt(headers, canonical, head.number - 1);
    var headers', canonical' := headers - {head.hash}, canonical - {head.number};
    forall i: nat | i <= head.number - 1 ensures LinkAt(headers', canonical', i) {
      assert LinkAt(headers, canonical, i);
      assert i > 0 ==> LinkAt(headers, canonical, i - 1);
    }
  }

  /** The entries below the head name other headers than the head. */
  lemma HeadNotBelow(headers: Headers, canonical: map<nat, Hash>, head: Header)
    requires IsChain(headers, canonical, head)
    ensures head.hash in headers && headers[head.hash] == head
    ensures forall i :: i in canonical && i < head.number ==> canonical[i] != head.hash
  {
    forall i | i in canonical && i < head.number ensures canonical[i] != head.hash {
      assert LinkAt(headers, canonical, i);
    }
  }
}
