/** The memoised block hash lookup of the virtual machine (blockchain/evm.go, GetHashFn). */
module BlockHashes {
  import opened Chains

  /** x in 64-bit arithmetic. */
  function Wrap(x: int): nat {
    x % (MAX_UINT64 + 1)
  }

  lemma WrapsOnce(x: int)
    requires -MAX_UINT64 - 1 <= x <= MAX_UINT64
    ensures Wrap(x) == if x >= 0 then x else x + MAX_UINT64 + 1
  {
  }

  /** The hash of block `n` by walking up the parents from `cur`, without a cache; no hash if the walk ends early. */
  function Walk(headers: Headers, cur: Header, n: nat): Hash
    decreases cur.number
  {
    if cur.number == 0 then NO_HASH
    else if cur.number - 1 == n then cur.parent
    else
      var up := GetHeader(headers, cur.parent, cur.number - 1);
      if up.None? then NO_HASH else Walk(headers, up.value, n)
  }

  /** An ancestor is numbered by its distance, and a walk past it goes on from it. */
  lemma {:induction false} WalkFrom(headers: Headers, ref: Header, k: nat, n: nat)
    requires Up(headers, ref, k).Some?
    ensures k <= ref.number && Up(headers, ref, k).value.number == ref.number - k
    ensures n < ref.number - k || n >= ref.number ==>
      Walk(headers, ref, n) == Walk(headers, Up(headers, ref, k).value, n)
  {
    if k > 0 {
      WalkFrom(headers, ref, k - 1, n);
    }
  }

  /** Nothing is found at or above the starting block. */
  lemma {:induction false} WalkStaysBelow(headers: Headers, cur: Header, n: nat)
    requires n >= cur.number
    ensures Walk(headers, cur, n) == NO_HASH
    decreases cur.number
  {
    if cur.number > 0 {
      var up := GetHeader(headers, cur.parent, cur.number - 1);
      if up.Some? { WalkStaysBelow(headers, up.value, n); }
    }
  }

  class HashLookup {
    const headers: Headers
    const ref: Header
    var cache: seq<Hash>

    /** Entry i of the cache is the hash of block ref-1-i, read off the i-th ancestor. */
    ghost predicate Valid()
      reads this
    {
      && |cache| <= ref.number + 1
      && forall i :: 0 <= i < |cache| ==> Up(headers, ref, i).Some? && cache[i] == Up(headers, ref, i).value.parent
    }

    constructor (ref: Header, headers: Headers)
      ensures Valid() && this.ref == ref && this.headers == headers
    {
      this.ref, this.headers, cache := ref, headers, [];
    }

    /** The parent hash of block 0, if the chain reaches it. */
    ghost function GenesisParent(): Hash {
      if Up(headers, ref, ref.number).Some? then Up(headers, ref, ref.number).value.parent else NO_HASH
    }

    /** What the lookup answers: the walk, except that 2^64 - 1 names the block below block 0. */
    ghost function Answer(n: nat): Hash {
      if n == MAX_UINT64 then GenesisParent() else Walk(headers, ref, n)
    }

    /** A cached entry is the answer for its number. */
    lemma CachedAnswer(i: nat, n: nat)
      requires Valid() && i < |cache| && n == Wrap(ref.number - i - 1)
      ensures cache[i] == Answer(n)
    {
      WalkFrom(headers, ref, i, n);
    }

    /** The header behind the last cached hash is the next ancestor. */
    lemma NextAncestor()
      requires Valid() && cache != []
      ensures var next := GetHeader(headers, cache[|cache| - 1], Wrap(ref.number - |cache|));
              Up(headers, ref, |cache|) == next && (next.Some? ==> next.value.number == ref.number - |cache|)
    {
      WalkFrom(headers, ref, |cache| - 1, 0);
      WrapsOnce(ref.number - |cache|);
    }

    /** Where the chain of ancestors ends, nothing more is found. */
    lemma NoAnswer(n: nat)
      requires Valid() && cache != [] && n <= MAX_UINT64 && Up(headers, ref, |cache|).None?
      requires n < ref.number ==> n < ref.number - |cache|
      requires n == MAX_UINT64 ==> |cache| <= ref.number
      ensures Answer(n) == NO_HASH
    {
      if n == MAX_UINT64 {
        UpEnds(headers, ref, |cache|, ref.number);
      } else if n < ref.number {
        WalkFrom(headers, ref, |cache| - 1, n);
      } else {
        WalkStaysBelow(headers, ref, n);
      }
    }

    /** Walks on from the last cached ancestor, until `n` or the end of the chain. */
    method Extend(n: nat) returns (h: Hash)
      requires Valid() && cache != [] && n <= MAX_UINT64
      requires Wrap(ref.number - n - 1) >= |cache|
      modifies this`cache
      ensures Valid() && old(cache) <= cache && h == Answer(n)
    {
      hide Walk, Wrap, Up, GetHeader, HashLookup.Answer;
      WrapsOnce(ref.number - n - 1);
      var lastHash := cache[|cache| - 1];
      var lastNumber := Wrap(ref.number - |cache|);
      while true
        invariant Valid() && cache != [] && old(cache) <= cache
        invariant lastHash == cache[|cache| - 1] && lastNumber == Wrap(ref.number - |cache|)
        invariant n < ref.number ==> n < ref.number - |cache|
        invariant n == MAX_UINT64 ==> |cache| <= ref.number
        decreases ref.number + 1 - |cache|
      {
        NextAncestor();
        var header := GetHeader(headers, lastHash, lastNumber);
        if header.None? {
          NoAnswer(n);
          return NO_HASH;
        }
        WrapsOnce(ref.number - |cache| - 1);
        cache := cache + [header.value.parent];
        lastHash := header.value.parent;
        lastNumber := Wrap(header.value.number - 1);
        if n == lastNumber {
          CachedAnswer(|cache| - 1, n);
          return lastHash;
        }
      }
    }

    /** The lookup, which fills the cache as it goes. */
    method Get(n: nat) returns (h: Hash)
      requires Valid() && n <= MAX_UINT64
      modifies this`cache
      ensures Valid() && old(cache) <= cache && h == Answer(n)
      ensures n < ref.number ==> h == Walk(headers, ref, n)
    {
      hide Walk;
      if cache == [] { cache := [ref.parent]; }
      var idx := Wrap(ref.number - n - 1);
      if idx < |cache| {
        assert n == Wrap(ref.number - idx - 1);
        CachedAnswer(idx, n);
        return cache[idx];
      }
      h := Extend(n);
    }

    /** Any sequence of lookups answers as if nothing had been cached. */
    method GetAll(ns: seq<nat>) returns (hs: seq<Hash>)
      requires Valid() && forall i :: 0 <= i < |ns| ==> ns[i] <= MAX_UINT64
      modifies this`cache
      ensures Valid() && |hs| == |ns|
      ensures forall i :: 0 <= i < |ns| ==> hs[i] == Answer(ns[i])
    {
      hs := [];
      for i := 0 to |ns|
        invariant Valid() && |hs| == i
        invariant forall j :: 0 <= j < i ==> hs[j] == Answer(ns[j])
      {
        var h := Get(ns[i]);
        hs := hs + [h];
      }
    }

    /**
     At or above the reference the answer is no hash; for 2^64 - 1 that is so exactly when the
     chain does not reach block 0 or block 0 has no parent. A wrapped index meets a cached
     entry only for that number, and only once the cache reaches block 0.
     */
    lemma AnswersAtOrAbove(n: nat)
      requires Valid() && ref.number <= n <= MAX_UINT64
      ensures n < MAX_UINT64 ==> Answer(n) == NO_HASH
      ensures n == MAX_UINT64 ==>
        (Answer(n) == NO_HASH <==> Up(headers, ref, ref.number).Some? ==>
           Up(headers, ref, ref.number).value.parent == NO_HASH)
      ensures Wrap(ref.number - n - 1) < |cache| <==> n == MAX_UINT64 && |cache| == ref.number + 1
    {
      WalkStaysBelow(headers, ref, n);
    }
  }

  /** Beyond a missing ancestor there are none. */
  lemma {:induction false} UpEnds(headers: Headers, ref: Header, k: nat, m: nat)
    requires k <= m && Up(headers, ref, k).None?
    ensures Up(headers, ref, m).None?
  {
    if k < m { UpEnds(headers, ref, k, m - 1); }
  }
}
