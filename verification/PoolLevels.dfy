/**
 The sizes of the pool's account lists: totals, and what it means to cut the lists of the
 non-local accounts down to a common level.
 */
module PoolLevels {
  import opened MapSums
  import opened PoolLists
  import opened Transactions

  ghost function LenTable(p: Lists): map<Address, int> {
    map a | a in p :: |p[a]|
  }

  /** The number of transactions in all lists. */
  ghost function Total(p: Lists): int {
    MapSum(LenTable(p))
  }

  /** Replacing one list changes the total by the difference in its length. */
  lemma TotalReplaced(p: Lists, a: Address, items: Items)
    requires a in p
    ensures Total(p[a := items]) == Total(p) - |p[a]| + |items|
  {
    SetEntry(LenTable(p), a, |items|);
    assert LenTable(p[a := items]) == LenTable(p)[a := |items|];
  }

  lemma TotalWithout(p: Lists, a: Address)
    requires a in p
    ensures Total(p - {a}) == Total(p) - |p[a]|
  {
    TakeOut(LenTable(p), a);
    assert LenTable(p - {a}) == LenTable(p) - {a};
  }

  lemma LenWithinTotal(p: Lists, a: Address)
    requires a in p
    ensures |p[a]| <= Total(p)
  {
    SumBounds(LenTable(p), a);
  }

  /** Adds up the list lengths, visiting the accounts in any order. */
  method CountTxs(p: Lists) returns (n: nat)
    ensures n == Total(p)
  {
    n := 0;
    var left := p;
    while left != map[]
      invariant forall a :: a in left ==> a in p && left[a] == p[a]
      invariant n + Total(left) == Total(p)
      decreases |left|
    {
      var a :| a in left;
      TotalWithout(left, a);
      n := n + |left[a]|;
      assert (left - {a}).Keys == left.Keys - {a};
      left := left - {a};
    }
  }

  /** A longest list among the given accounts, ties broken in any way. */
  method PickLongest(s: set<Address>, p: Lists) returns (a: Address)
    requires s != {} && forall b :: b in s ==> b in p
    ensures a in s && forall b :: b in s ==> |p[b]| <= |p[a]|
  {
    a :| a in s;
    var left := s - {a};
    while left != {}
      invariant left <= s && a in s
      invariant forall b :: b in s && b !in left ==> |p[b]| <= |p[a]|
      decreases |left|
    {
      var b :| b in left;
      if |p[b]| > |p[a]| { a := b; }
      left := left - {b};
    }
  }

  ghost predicate Distinct(s: seq<Address>) {
    forall i, j :: 0 <= i < j < |s| ==> s[i] != s[j]
  }

  ghost function Members(s: seq<Address>): set<Address> {
    set a | a in s
  }

  lemma {:induction false} MembersCount(s: seq<Address>)
    requires Distinct(s)
    ensures |Members(s)| == |s|
  {
    if s != [] {
      var k := |s| - 1;
      MembersCount(s[..k]);
      assert s[k] !in s[..k];
      assert Members(s) == Members(s[..k]) + {s[k]};
    }
  }

  lemma MembersAppend(s: seq<Address>, a: Address)
    requires Distinct(s) && a !in s
    ensures Distinct(s + [a]) && Members(s + [a]) == Members(s) + {a}
  {
  }

  /** The victims are cut to exactly `level`, losing their highest nonces; nobody else changes. */
  ghost predicate CutTo(p0: Lists, p: Lists, victims: set<Address>, level: nat) {
    && p.Keys == p0.Keys && victims <= p0.Keys
    && (forall a :: a in victims ==> LowestOf(p0[a], p[a]) && |p[a]| == level)
    && (forall a :: a in p0 && a !in victims ==> p[a] == p0[a])
  }

  lemma CutLength(p0: Lists, p: Lists, victims: seq<Address>, level: nat)
    requires victims != [] && CutTo(p0, p, Members(victims), level)
    ensures victims[|victims| - 1] in p && |p[victims[|victims| - 1]]| == level
  {
    assert victims[|victims| - 1] in Members(victims);
  }

  /** Nobody cut is cut to any level. */
  lemma NothingCut(p0: Lists, p: Lists, victims: seq<Address>, level: nat, other: nat)
    requires victims == [] && CutTo(p0, p, Members(victims), level)
    ensures CutTo(p0, p, Members(victims), other)
  {
  }

  /** Part way through shaving one transaction off each victim. */
  ghost predicate ShavedUpTo(p0: Lists, p: Lists, victims: seq<Address>, i: nat, level: nat) {
    && p.Keys == p0.Keys && Members(victims) <= p0.Keys && 0 < level
    && (forall j :: 0 <= j < |victims| ==>
          LowestOf(p0[victims[j]], p[victims[j]]) && |p[victims[j]]| == if j < i then level - 1 else level)
    && (forall a :: a in p0 && a !in victims ==> p[a] == p0[a])
  }

  lemma ShaveBegins(p0: Lists, p: Lists, victims: seq<Address>, level: nat)
    requires CutTo(p0, p, Members(victims), level) && 0 < level
    ensures ShavedUpTo(p0, p, victims, 0, level)
  {
    forall j | 0 <= j < |victims| ensures victims[j] in Members(victims) {}
  }

  lemma ShaveStep(p0: Lists, p: Lists, victims: seq<Address>, i: nat, level: nat, keep: Items)
    requires ShavedUpTo(p0, p, victims, i, level) && i < |victims| && Distinct(victims)
    requires victims[i] in p && LowestOf(p[victims[i]], keep) && |keep| == level - 1
    ensures ShavedUpTo(p0, p[victims[i] := keep], victims, i + 1, level)
  {
    assert victims[i] in Members(victims);
    LowestTwice(p0[victims[i]], p[victims[i]], keep);
    var p' := p[victims[i] := keep];
    assert p'.Keys == p.Keys;
  }

  lemma ShaveEnds(p0: Lists, p: Lists, victims: seq<Address>, level: nat)
    requires ShavedUpTo(p0, p, victims, |victims|, level)
    ensures CutTo(p0, p, Members(victims), level - 1)
  {
    forall a | a in Members(victims) ensures LowestOf(p0[a], p[a]) && |p[a]| == level - 1 {
      var j :| 0 <= j < |victims| && victims[j] == a;
    }
  }

  lemma LowestTwice(m: Items, k: Items, l: Items)
    requires LowestOf(m, k) && LowestOf(k, l)
    ensures LowestOf(m, l)
  {
  }

  lemma LowestSelf(m: Items)
    ensures LowestOf(m, m)
  {
  }

  /**
   Every non-local list has been cut to `level` if it was longer, keeping its lowest nonces,
   and every other list is untouched.
   */
  ghost predicate WaterFilled(p0: Lists, p: Lists, locals: set<Address>, level: nat) {
    && p.Keys == p0.Keys
    && forall a :: a in p0 ==>
         LowestOf(p0[a], p[a]) && |p[a]| == if a in locals || |p0[a]| <= level then |p0[a]| else level
  }

  /** The non-local accounts whose lists were longer than `level`. */
  ghost function Above(p0: Lists, locals: set<Address>, level: nat): set<Address> {
    set a | a in p0 && a !in locals && |p0[a]| > level
  }

  /** Cutting exactly the accounts above a level down to it is water-filling. */
  lemma CutIsFill(p0: Lists, p: Lists, locals: set<Address>, victims: set<Address>, level: nat)
    requires CutTo(p0, p, victims, level) && Above(p0, locals, level) <= victims && victims !! locals
    requires forall a :: a in victims ==> |p0[a]| >= level
    ensures WaterFilled(p0, p, locals, level)
  {
    forall a | a in p0
      ensures LowestOf(p0[a], p[a]) && |p[a]| == if a in locals || |p0[a]| <= level then |p0[a]| else level
    {
      if a !in victims {
        assert a !in Above(p0, locals, level);
        LowestSelf(p0[a]);
      }
    }
  }

  /** Filling to a higher level keeps at least one more transaction for everyone above the lower one. */
  lemma {:induction false} HigherLevelKeepsMore(p0: Lists, p: Lists, p': Lists, locals: set<Address>, level: nat,
                                                higher: nat)
    requires WaterFilled(p0, p, locals, level) && WaterFilled(p0, p', locals, higher) && level < higher
    ensures Total(p') >= Total(p) + |Above(p0, locals, level)|
    decreases |p0|
  {
    hide LowestOf;
    if p0 == map[] {
      assert p == map[] && p' == map[] && Above(p0, locals, level) == {};
    } else {
      var a :| a in p0;
      TotalWithout(p, a);
      TotalWithout(p', a);
      FillWithout(p0, p, locals, level, a);
      FillWithout(p0, p', locals, higher, a);
      AboveWithout(p0, locals, level, a);
      HigherLevelKeepsMore(p0 - {a}, p - {a}, p' - {a}, locals, level, higher);
    }
  }

  lemma FillWithout(p0: Lists, p: Lists, locals: set<Address>, level: nat, a: Address)
    requires WaterFilled(p0, p, locals, level) && a in p0
    ensures WaterFilled(p0 - {a}, p - {a}, locals, level) && |p0 - {a}| < |p0|
  {
    assert (p0 - {a}).Keys == p0.Keys - {a} && (p - {a}).Keys == p.Keys - {a};
  }

  lemma AboveWithout(p0: Lists, locals: set<Address>, level: nat, a: Address)
    requires a in p0
    ensures |Above(p0, locals, level)| ==
            |Above(p0 - {a}, locals, level)| + if a !in locals && |p0[a]| > level then 1 else 0
  {
    var rest := Above(p0 - {a}, locals, level);
    if a in Above(p0, locals, level) {
      assert Above(p0, locals, level) == rest + {a};
    } else {
      assert Above(p0, locals, level) == rest;
    }
  }

  /** The non-local accounts with more than `allowance` transactions. */
  function Offenders(p: Lists, locals: set<Address>, allowance: nat): set<Address> {
    set a | a in p && a !in locals && |p[a]| > allowance
  }

  /**
   Part way through equalising: the offenders taken so far stand at one common level, which
   no remaining candidate exceeds.
   */
  ghost predicate Leveling(p0: Lists, p: Lists, locals: set<Address>, allowance: nat, taken: seq<Address>,
                           left: set<Address>, level: nat)
  {
    && Distinct(taken) && Members(taken) !! left
    && Members(taken) + left == Offenders(p0, locals, allowance)
    && CutTo(p0, p, Members(taken), level) && level > allowance
    && (forall a :: a in taken ==> |p0[a]| >= level)
    && (forall a :: a in left ==> |p0[a]| <= level)
  }

  /** Filled to a level that fits the limit, while one more for everyone above it would not. */
  ghost predicate Tight(p0: Lists, p: Lists, locals: set<Address>, level: nat, limit: nat) {
    && WaterFilled(p0, p, locals, level)
    && Total(p) <= limit < Total(p) + |Above(p0, locals, level)|
  }

  /** A tight level is the highest one that fits. */
  lemma TightIsHighest(p0: Lists, p: Lists, locals: set<Address>, level: nat, limit: nat, p': Lists, higher: nat)
    requires Tight(p0, p, locals, level, limit) && WaterFilled(p0, p', locals, higher) && level < higher
    ensures Total(p') > limit
  {
    HigherLevelKeepsMore(p0, p, p', locals, level, higher);
  }

  lemma TightWhenCut(p0: Lists, p: Lists, locals: set<Address>, victims: seq<Address>, level: nat, limit: nat)
    requires CutTo(p0, p, Members(victims), level) && Distinct(victims) && Members(victims) !! locals
    requires forall a :: a in victims ==> a in p0 && |p0[a]| > level
    requires forall a :: a in p0 && a !in locals && a !in victims ==> |p0[a]| <= level
    requires Total(p) <= limit < Total(p) + |victims|
    ensures Tight(p0, p, locals, level, limit)
  {
    MembersCount(victims);
    assert Above(p0, locals, level) == Members(victims);
    CutIsFill(p0, p, locals, Members(victims), level);
  }

  lemma LevelingBegins(p0: Lists, locals: set<Address>, allowance: nat, level: nat)
    requires level > allowance && level >= Total(p0)
    ensures Leveling(p0, p0, locals, allowance, [], Offenders(p0, locals, allowance), level)
  {
    forall a | a in p0 ensures |p0[a]| <= Total(p0) { LenWithinTotal(p0, a); }
  }

  lemma NobodyCut(p0: Lists, p: Lists, level: nat, other: nat)
    requires CutTo(p0, p, Members([]), level)
    ensures CutTo(p0, p, Members([]), other)
  {
  }

  lemma TotalNonNegative(p: Lists)
    ensures Total(p) >= 0
  {
    if p == map[] {
      assert LenTable(p) == map[];
    } else {
      var a :| a in p;
      LenWithinTotal(p, a);
    }
  }

  /** Taking the longest remaining candidate, once everyone taken before stands at its length. */
  lemma LevelingTakes(p0: Lists, q: Lists, p: Lists, locals: set<Address>, allowance: nat, taken: seq<Address>,
                      left: set<Address>, level: nat, a: Address)
    requires Leveling(p0, q, locals, allowance, taken, left, level)
    requires a in left && (forall b :: b in left ==> |p0[b]| <= |p0[a]|)
    requires CutTo(p0, p, Members(taken), |p0[a]|)
    ensures Leveling(p0, p, locals, allowance, taken + [a], left - {a}, |p0[a]|)
  {
    assert a in Offenders(p0, locals, allowance);
    assert a !in taken by { assert a !in Members(taken); }
    MembersAppend(taken, a);
    LowestSelf(p0[a]);
    assert forall b :: b in taken + [a] <==> b in taken || b == a;
  }

  /** Stopping early leaves a tight fill: the candidate just taken and the rest are no longer than the level. */
  lemma LevelingStops(p0: Lists, q: Lists, p: Lists, locals: set<Address>, allowance: nat, taken: seq<Address>,
                      left: set<Address>, level: nat, lower: nat, limit: nat)
    requires Leveling(p0, q, locals, allowance, taken, left, level)
    requires CutTo(p0, p, Members(taken), lower) && allowance <= lower < level
    requires forall b :: b in left ==> |p0[b]| <= lower
    requires Total(p) <= limit < Total(p) + |taken|
    ensures Tight(p0, p, locals, lower, limit)
  {
    forall a | a in taken ensures a in p0 && a !in locals && |p0[a]| > lower {
      assert a in Members(taken);
      assert a in Offenders(p0, locals, allowance);
    }
    forall a | a in p0 && a !in locals && a !in taken ensures |p0[a]| <= lower {
      assert a !in Members(taken);
      if |p0[a]| > allowance { assert a in Offenders(p0, locals, allowance); }
    }
    TightWhenCut(p0, p, locals, taken, lower, limit);
  }

  /** With no candidate left and everyone taken at the allowance, the fill is at the allowance. */
  lemma LevelingBottoms(p0: Lists, q: Lists, p: Lists, locals: set<Address>, allowance: nat, taken: seq<Address>,
                        level: nat)
    requires Leveling(p0, q, locals, allowance, taken, {}, level)
    requires CutTo(p0, p, Members(taken), allowance)
    ensures WaterFilled(p0, p, locals, allowance)
  {
    assert Above(p0, locals, allowance) == Offenders(p0, locals, allowance) == Members(taken);
    CutIsFill(p0, p, locals, Members(taken), allowance);
  }

  lemma TotalTrimmed(q: Lists, a: Address, keep: Items)
    requires a in q
    ensures Total(TrimTo(q, a, keep)) == Total(q) - |q[a]| + |keep|
  {
    if keep == map[] { TotalWithout(q, a); } else { TotalReplaced(q, a, keep); }
  }

  function BeatOf(beats: map<Address, nat>, a: Address): nat {
    if a in beats then beats[a] else 0
  }

  /** The account with the latest heartbeat, ties broken in any way. */
  method PickLatest(s: set<Address>, beats: map<Address, nat>) returns (a: Address)
    requires s != {}
    ensures a in s && forall b :: b in s ==> BeatOf(beats, b) <= BeatOf(beats, a)
  {
    a :| a in s;
    var left := s - {a};
    while left != {}
      invariant left <= s && a in s
      invariant forall b :: b in s && b !in left ==> BeatOf(beats, b) <= BeatOf(beats, a)
      decreases |left|
    {
      var b :| b in left;
      if BeatOf(beats, b) > BeatOf(beats, a) { a := b; }
      left := left - {b};
    }
  }

  /** Part way through trimming: non-local queues outside `left` are empty, everything else is intact. */
  ghost predicate Draining(q0: Lists, q: Lists, locals: set<Address>, beats: map<Address, nat>, left: set<Address>) {
    && q.Keys <= q0.Keys && left <= q0.Keys && left !! locals
    && (forall a :: a in q0 && (a in locals || a in left) ==> a in q && q[a] == q0[a])
    && (forall a :: a in q && a !in locals && a !in left ==> q[a] == map[])
    && (forall a, b :: a in q0 && a !in locals && a !in left && b in left ==> BeatOf(beats, b) <= BeatOf(beats, a))
  }

  /**
   Local queues are intact; every queue keeps its lowest nonces; and an account that lost
   something was heard from at least as recently as any other non-local account that kept something.
   */
  ghost predicate Drained(q0: Lists, q: Lists, locals: set<Address>, beats: map<Address, nat>) {
    && q.Keys <= q0.Keys
    && (forall a :: a in q ==> LowestOf(q0[a], q[a]))
    && (forall a :: a in q0 && a in locals ==> a in q && q[a] == q0[a])
    && (forall a, b :: Lost(q0, q, locals, a) && Kept(q, locals, b) && a != b ==> BeatOf(beats, b) <= BeatOf(beats, a))
  }

  ghost predicate Lost(q0: Lists, q: Lists, locals: set<Address>, a: Address) {
    a in q0 && a !in locals && ItemsOf(q, a) != q0[a]
  }

  ghost predicate Kept(q: Lists, locals: set<Address>, b: Address) {
    b in q && b !in locals && q[b] != map[]
  }

  /** The queues once some transactions of `a`, with the given nonces, have been removed one by one. */
  function TrimSome(q: Lists, a: Address, nonces: set<nat>): Lists
    requires a in q
  {
    if nonces == {} then q else TrimTo(q, a, q[a] - nonces)
  }

  lemma DrainingBegins(q0: Lists, locals: set<Address>, beats: map<Address, nat>)
    ensures Draining(q0, q0, locals, beats, set a | a in q0 && a !in locals)
  {
  }

  lemma DrainingTakes(q0: Lists, q: Lists, locals: set<Address>, beats: map<Address, nat>, left: set<Address>,
                      a: Address)
    requires Draining(q0, q, locals, beats, left) && a in q
    requires a in left && forall b :: b in left ==> BeatOf(beats, b) <= BeatOf(beats, a)
    ensures Draining(q0, TrimSome(q, a, q[a].Keys), locals, beats, left - {a})
    ensures Total(TrimSome(q, a, q[a].Keys)) == Total(q) - |q[a]|
  {
    if q[a].Keys == {} {
      assert q[a] == map[];
    } else {
      assert q[a] - q[a].Keys == map[];
      TotalTrimmed(q, a, map[]);
    }
  }

  lemma DrainingEnds(q0: Lists, q: Lists, locals: set<Address>, beats: map<Address, nat>, left: set<Address>)
    requires Draining(q0, q, locals, beats, left)
    ensures Drained(q0, q, locals, beats)
  {
    forall a | a in q ensures LowestOf(q0[a], q[a]) { LowestSelf(q0[a]); }
    forall a | a in left ensures !Lost(q0, q, locals, a) { assert ItemsOf(q, a) == q0[a]; }
    assert forall b :: Kept(q, locals, b) ==> b in left;
  }

  lemma DrainingEndsWith(q0: Lists, q: Lists, locals: set<Address>, beats: map<Address, nat>, left: set<Address>,
                         a: Address, keep: Items)
    requires Draining(q0, q, locals, beats, left) && keep != map[]
    requires a in left && forall b :: b in left ==> BeatOf(beats, b) <= BeatOf(beats, a)
    requires a in q && LowestOf(q[a], keep)
    ensures Drained(q0, TrimTo(q, a, keep), locals, beats)
  {
    var q' := TrimTo(q, a, keep);
    forall b | b in q' ensures LowestOf(q0[b], q'[b]) { LowestSelf(q0[b]); }
    forall b | b in left && b != a ensures !Lost(q0, q', locals, b) { assert ItemsOf(q', b) == q0[b]; }
    assert forall c :: Kept(q', locals, c) ==> c in left;
  }
}
