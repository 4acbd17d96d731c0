/**
 The array-backed binary heap behind the pool's nonce index and price index: push, pop,
 remove-at-index and initialise, with the sift loops written out. A heap is a sequence;
 the order is any strict weak order `less`.
 */
module BinaryHeap {

  /** `less` is asymmetric and its complement is transitive. */
  ghost predicate WeakOrder<T(!new)>(less: (T, T) -> bool) {
    && (forall x, y :: less(x, y) ==> !less(y, x))
    && (forall x, y, z :: !less(y, x) && !less(z, y) ==> !less(z, x))
  }

  function Parent(i: nat): nat {
    if i == 0 then 0 else (i - 1) / 2
  }

  /** The element at `j` is not smaller than its parent. */
  ghost predicate InOrder<T>(h: seq<T>, j: nat, less: (T, T) -> bool)
    requires j < |h|
  {
    !less(h[j], h[Parent(j)])
  }

  ghost predicate IsHeap<T>(h: seq<T>, less: (T, T) -> bool) {
    forall j: nat :: 0 < j < |h| ==> InOrder(h, j, less)
  }

  /** In order everywhere below `lo`, except possibly at `i` and at the children of `i`. */
  ghost predicate HeapExcept<T>(h: seq<T>, lo: nat, i: nat, less: (T, T) -> bool) {
    forall j: nat :: 0 < j < |h| && Parent(j) >= lo && Parent(j) != i && j != i ==> InOrder(h, j, less)
  }

  /** The children of `i` are not smaller than the parent of `i`. */
  ghost predicate GrandOrder<T>(h: seq<T>, lo: nat, i: nat, less: (T, T) -> bool)
    requires i <= |h|
  {
    0 < i && Parent(i) >= lo ==>
      (2 * i + 1 < |h| ==> !less(h[2 * i + 1], h[Parent(i)])) &&
      (2 * i + 2 < |h| ==> !less(h[2 * i + 2], h[Parent(i)]))
  }

  function Swap<T>(h: seq<T>, i: nat, j: nat): (r: seq<T>)
    requires i < |h| && j < |h|
    ensures |r| == |h| && r[i] == h[j] && r[j] == h[i]
    ensures forall k :: 0 <= k < |h| && k != i && k != j ==> r[k] == h[k]
    ensures multiset(r) == multiset(h)
  {
    h[i := h[j]][j := h[i]]
  }

  /** No element of a heap is smaller than its root. */
  lemma {:induction false} RootIsLeast<T(!new)>(h: seq<T>, less: (T, T) -> bool, i: nat)
    requires WeakOrder(less) && IsHeap(h, less) && i < |h|
    ensures !less(h[i], h[0])
  {
    if i != 0 {
      assert InOrder(h, i, less);
      RootIsLeast(h, less, Parent(i));
    }
  }

  /** Sifts the element at `j0` up; everything else was already in order. */
  method Up<T(!new)>(h: seq<T>, j0: nat, less: (T, T) -> bool) returns (r: seq<T>)
    requires WeakOrder(less) && j0 < |h|
    requires forall k: nat :: 0 < k < |h| && k != j0 ==> InOrder(h, k, less)
    requires GrandOrder(h, 0, j0, less)
    ensures IsHeap(r, less) && multiset(r) == multiset(h) && |r| == |h|
  {
    hide WeakOrder, GrandOrder;
    r := h;
    var j: nat := j0;
    while j != Parent(j) && less(r[j], r[Parent(j)])
      invariant j < |r| == |h| && multiset(r) == multiset(h)
      invariant forall k: nat :: 0 < k < |r| && k != j ==> InOrder(r, k, less)
      invariant GrandOrder(r, 0, j, less)
    {
      var i := Parent(j);
      UpStep(r, j, less);
      r := Swap(r, i, j);
      j := i;
    }
  }

  lemma UpStep<T(!new)>(h: seq<T>, j: nat, less: (T, T) -> bool)
    requires WeakOrder(less) && 0 < j < |h| && less(h[j], h[Parent(j)])
    requires forall k: nat :: 0 < k < |h| && k != j ==> InOrder(h, k, less)
    requires GrandOrder(h, 0, j, less)
    ensures var i, r := Parent(j), Swap(h, Parent(j), j);
            (forall k: nat :: 0 < k < |r| && k != i ==> InOrder(r, k, less)) && GrandOrder(r, 0, i, less)
  {
    var i, r := Parent(j), Swap(h, Parent(j), j);
    forall k: nat | 0 < k < |r| && k != i
      ensures InOrder(r, k, less)
    {
      if k != j { assert InOrder(h, k, less); }
    }
    assert i > 0 ==> InOrder(h, i, less);
    assert 2 * i + 1 < |h| && 2 * i + 1 != j ==> InOrder(h, 2 * i + 1, less);
    assert 2 * i + 2 < |h| && 2 * i + 2 != j ==> InOrder(h, 2 * i + 2, less);
  }

  /** The sift-down invariant: `i` has been reached from `i0`, and only the children of `i` may be out of order. */
  ghost predicate Sifting<T>(h: seq<T>, lo: nat, i0: nat, i: nat, less: (T, T) -> bool) {
    && lo <= i0 <= i <= |h|
    && (forall j: nat :: 0 < j < |h| && Parent(j) >= lo && Parent(j) != i && (j != i0 || i > i0) ==>
          InOrder(h, j, less))
    && GrandOrder(h, lo, i, less)
  }

  /** In order everywhere below `lo`, and at `i0` too once the element has moved. */
  ghost predicate Sifted<T>(h: seq<T>, lo: nat, i0: nat, moved: bool, less: (T, T) -> bool) {
    forall j: nat :: 0 < j < |h| && Parent(j) >= lo && (j != i0 || moved) ==> InOrder(h, j, less)
  }

  /**
   Sifts the element at `i0` down, below `lo`. When it does not move the heap is returned
   unchanged; when it moves, position `i0` ends in order with its parent as well.
   */
  method Down<T(!new)>(h: seq<T>, lo: nat, i0: nat, less: (T, T) -> bool) returns (r: seq<T>, moved: bool)
    requires WeakOrder(less) && lo <= i0 <= |h|
    requires HeapExcept(h, lo, i0, less) && GrandOrder(h, lo, i0, less)
    ensures |r| == |h| && multiset(r) == multiset(h)
    ensures Sifted(r, lo, i0, moved, less)
    ensures !moved ==> r == h
  {
    r := h;
    var i: nat := i0;
    while 2 * i + 1 < |r|
      invariant |r| == |h| && multiset(r) == multiset(h)
      invariant i == i0 ==> r == h
      invariant Sifting(r, lo, i0, i, less)
      decreases |r| - i
    {
      var j := SmallerChild(r, i, less);
      if !less(r[j], r[i]) {
        SiftStops(r, lo, i0, i, j, less);
        return r, i > i0;
      }
      SiftStep(r, lo, i0, i, j, less);
      r := Swap(r, i, j);
      i := j;
    }
    moved := i > i0;
  }

  /** The child of `i` that no other child of `i` is smaller than. */
  function SmallerChild<T>(h: seq<T>, i: nat, less: (T, T) -> bool): (c: nat)
    requires 2 * i + 1 < |h|
    ensures i < c < |h| && Parent(c) == i
  {
    if 2 * i + 2 < |h| && less(h[2 * i + 2], h[2 * i + 1]) then 2 * i + 2 else 2 * i + 1
  }

  lemma SmallerChildLeast<T(!new)>(h: seq<T>, i: nat, less: (T, T) -> bool, j: nat)
    requires WeakOrder(less) && 2 * i + 1 < |h| && 0 < j < |h| && Parent(j) == i
    ensures !less(h[j], h[SmallerChild(h, i, less)])
  {
    assert j == 2 * i + 1 || j == 2 * i + 2;
  }

  lemma SiftStops<T(!new)>(h: seq<T>, lo: nat, i0: nat, i: nat, c: nat, less: (T, T) -> bool)
    requires WeakOrder(less) && Sifting(h, lo, i0, i, less) && 2 * i + 1 < |h|
    requires c == SmallerChild(h, i, less) && !less(h[c], h[i])
    ensures Sifted(h, lo, i0, i > i0, less)
  {
    forall j: nat | 0 < j < |h| && Parent(j) == i
      ensures InOrder(h, j, less)
    {
      SmallerChildLeast(h, i, less, j);
    }
  }

  /** Swapping a parent with its smaller child moves the one possible violation down. */
  lemma SiftStep<T(!new)>(s: seq<T>, lo: nat, i0: nat, i: nat, c: nat, less: (T, T) -> bool)
    requires WeakOrder(less) && Sifting(s, lo, i0, i, less) && 2 * i + 1 < |s|
    requires c == SmallerChild(s, i, less) && less(s[c], s[i])
    ensures Sifting(Swap(s, i, c), lo, i0, c, less)
  {
    var r := Swap(s, i, c);
    forall j: nat | 0 < j < |r| && Parent(j) >= lo && Parent(j) != c
      ensures InOrder(r, j, less)
    {
      if j == i || j == c {
      } else if Parent(j) == i {
        SmallerChildLeast(s, i, less, j);
      } else {
        assert InOrder(s, j, less);
      }
    }
    assert 2 * c + 1 < |s| ==> InOrder(s, 2 * c + 1, less);
    assert 2 * c + 2 < |s| ==> InOrder(s, 2 * c + 2, less);
  }

  method Push<T(!new)>(h: seq<T>, x: T, less: (T, T) -> bool) returns (r: seq<T>)
    requires WeakOrder(less) && IsHeap(h, less)
    ensures IsHeap(r, less) && multiset(r) == multiset(h) + multiset{x}
  {
    var s := h + [x];
    forall k: nat | 0 < k < |s| && k != |h|
      ensures InOrder(s, k, less)
    {
      assert InOrder(h, k, less);
    }
    r := Up(s, |h|, less);
  }

  /** Pops the root, which no remaining element is smaller than. */
  method Pop<T(!new)>(h: seq<T>, less: (T, T) -> bool) returns (x: T, r: seq<T>)
    requires WeakOrder(less) && IsHeap(h, less) && |h| > 0
    ensures IsHeap(r, less) && x == h[0] && multiset(h) == multiset(r) + multiset{x}
    ensures forall y :: y in h ==> !less(y, x)
  {
    var n := |h| - 1;
    var s := Swap(h, 0, n);
    x := s[n];
    assert s == s[..n] + [x];
    assert HeapExcept(s[..n], 0, 0, less) by {
      forall j: nat | 0 < j < n && Parent(j) != 0
        ensures InOrder(s[..n], j, less)
      {
        assert InOrder(h, j, less);
      }
    }
    var moved;
    r, moved := Down(s[..n], 0, 0, less);
    forall i | 0 <= i < |h| ensures !less(h[i], h[0]) { RootIsLeast(h, less, i); }
  }

  /** Removes the element at index `i`. */
  method RemoveAt<T(!new)>(h: seq<T>, i: nat, less: (T, T) -> bool) returns (r: seq<T>)
    requires WeakOrder(less) && IsHeap(h, less) && i < |h|
    ensures IsHeap(r, less) && multiset(h) == multiset(r) + multiset{h[i]}
  {
    var n := |h| - 1;
    if i == n {
      r := h[..n];
      assert h == r + [h[i]];
      forall j: nat | 0 < j < n ensures InOrder(r, j, less) { assert InOrder(h, j, less); }
    } else {
      var s := Swap(h, i, n);
      assert s == s[..n] + [h[i]];
      MovedLeafOrder(h, s[..n], i, less);
      var moved;
      r, moved := Down(s[..n], 0, i, less);
      if !moved {
        assert GrandOrder(r, 0, i, less);
        r := Up(r, i, less);
      }
    }
  }

  lemma MovedLeafOrder<T(!new)>(h: seq<T>, s: seq<T>, i: nat, less: (T, T) -> bool)
    requires WeakOrder(less) && IsHeap(h, less) && i < |h| - 1 && |s| == |h| - 1
    requires forall k :: 0 <= k < |s| && k != i ==> s[k] == h[k]
    ensures HeapExcept(s, 0, i, less) && GrandOrder(s, 0, i, less)
  {
    forall j: nat | 0 < j < |s| && Parent(j) != i && j != i
      ensures InOrder(s, j, less)
    {
      assert InOrder(h, j, less);
    }
    assert i > 0 ==> InOrder(h, i, less);
    assert 2 * i + 1 < |h| ==> InOrder(h, 2 * i + 1, less);
    assert 2 * i + 2 < |h| ==> InOrder(h, 2 * i + 2, less);
  }

  /** Orders an arbitrary sequence into a heap, last parent first. */
  method Init<T(!new)>(h: seq<T>, less: (T, T) -> bool) returns (r: seq<T>)
    requires WeakOrder(less)
    ensures IsHeap(r, less) && multiset(r) == multiset(h) && |r| == |h|
  {
    r := h;
    var i: nat := |h| / 2;
    while i > 0
      invariant i <= |h| / 2 && |r| == |h| && multiset(r) == multiset(h)
      invariant forall j: nat :: 0 < j < |r| && Parent(j) >= i ==> InOrder(r, j, less)
    {
      i := i - 1;
      var moved;
      r, moved := Down(r, i, i, less);
    }
  }

  ghost predicate Sorted<T>(s: seq<T>, less: (T, T) -> bool) {
    forall i, j :: 0 <= i < j < |s| ==> !less(s[j], s[i])
  }

  /** A sort: some ordered permutation of `s` (unique when no two elements are equivalent). */
  method Sort<T(!new)>(s: seq<T>, less: (T, T) -> bool) returns (r: seq<T>)
    requires WeakOrder(less)
    ensures Sorted(r, less) && multiset(r) == multiset(s) && |r| == |s|
  {
    var h := Init(s, less);
    r := [];
    while |h| > 0
      invariant IsHeap(h, less) && Sorted(r, less)
      invariant multiset(r) + multiset(h) == multiset(s) && |r| + |h| == |s|
      invariant forall x, y :: x in r && y in h ==> !less(y, x)
    {
      ghost var h0 := h;
      var x;
      x, h := Pop(h, less);
      SameSize(h0, h + [x]);
      forall y | y in h ensures y in h0 { assert multiset(h)[y] > 0; assert multiset(h0)[y] > 0; }
      r := r + [x];
    }
  }

  lemma SameSize<T>(a: seq<T>, b: seq<T>)
    requires multiset(a) == multiset(b)
    ensures |a| == |b|
  {
    assert |multiset(a)| == |a| && |multiset(b)| == |b|;
  }

  /** Two equal entries show up in the multiset. */
  lemma RepeatCounts<T>(s: seq<T>, i: nat, j: nat)
    requires i < j < |s| && s[i] == s[j]
    ensures multiset(s)[s[i]] >= 2
  {
    assert s == s[..j] + [s[j]] + s[j + 1..];
    assert s[i] in s[..j];
  }
}
