/**
 Headers and blocks linked by parent hashes, the canonical number-to-hash index, and what
 it means for that index to be the path of a head.
 */
module Chains {
  import opened Wrappers

  /** Hashes identify headers and blocks; the all-zero hash stands for "none". */
  type Hash = nat
  const NO_HASH: Hash := 0

  /** Block numbers stay below the largest 64-bit value, so that a number of -1 names no block. */
  const MAX_UINT64 := 0xffff_ffff_ffff_ffff
  type Number = n: nat | n < MAX_UINT64

  datatype Header = Header(hash: Hash, parent: Hash, number: Number, score: nat, root: nat)

  type Headers = map<Hash, Header>

  /** number - 1 in 64-bit arithmetic. */
  function Pred(n: nat): nat {
    if n == 0 then MAX_UINT64 else n - 1
  }

  /** Looks a header up by hash and number. */
  function GetHeader(headers: Headers, hash: Hash, number: nat): Option<Header> {
    if hash in headers && headers[hash].number == number then Some(headers[hash]) else None
  }

  function ReadCanonical(canonical: map<nat, Hash>, number: nat): Hash {
    if number in canonical then canonical[number] else NO_HASH
  }

  /** Entries are filed under their own hash, which is not the zero hash. */
  ghost predicate WellFiled(headers: Headers) {
    forall h :: h in headers ==> headers[h].hash == h && h != NO_HASH
  }

  /** The entry at height `i` is a stored header of that height whose parent is the entry below. */
  ghost predicate LinkAt(headers: Headers, canonical: map<nat, Hash>, i: nat) {
    && i in canonical && canonical[i] in headers && headers[canonical[i]].number == i
    && (i > 0 ==> i - 1 in canonical && headers[canonical[i]].parent == canonical[i - 1])
  }

  /** The index is defined exactly on 0..head and is the parent-linked path of the head. */
  ghost predicate IsChain(headers: Headers, canonical: map<nat, Hash>, head: Header) {
    && (forall i :: i in canonical <==> 0 <= i <= head.number)
    && canonical[head.number] == head.hash
    && head.hash in headers && headers[head.hash] == head
    && forall i: nat :: i <= head.number ==> LinkAt(headers, canonical, i)
  }

  /** The k-th ancestor, found by looking up parents. */
  function Up(headers: Headers, head: Header, k: nat): Option<Header> {
    if k == 0 then Some(head)
    else
      var below := Up(headers, head, k - 1);
      if below.None? then None else GetHeader(headers, below.value.parent, Pred(below.value.number))
  }

  /** The index of a chain is the ancestor path of its head, and the path goes no further. */
  lemma {:induction false} ChainIsAncestry(headers: Headers, canonical: map<nat, Hash>, head: Header, k: nat)
    requires IsChain(headers, canonical, head)
    ensures k <= head.number ==>
              LinkAt(headers, canonical, head.number - k) &&
              Up(headers, head, k) == Some(headers[canonical[head.number - k]])
    ensures k > head.number ==> Up(headers, head, k) == None
  {
    if k > 0 {
      ChainIsAncestry(headers, canonical, head, k - 1);
      if k <= head.number {
        assert LinkAt(headers, canonical, head.number - k + 1);
        assert LinkAt(headers, canonical, head.number - k);
      } else if k == head.number + 1 {
        assert LinkAt(headers, canonical, 0);
      }
    }
  }
}
