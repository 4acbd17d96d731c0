/**
 Classification of transactions by the spam throttler (blockchain/spam_throttler.go,
 classifyTxs). Both results are appended to slices of the input's own backing array, so here
 they are two lengths into that array.
 */
module SpamThrottlers {
  import opened Wrappers

  type Address = nat
  datatype Tx = Tx(id: nat, to: Option<Address>)

  /** The recipients under throttling, and the exempt ones. */
  datatype Listed = Listed(throttled: map<Address, int>, allowed: map<Address, bool>)

  /** The recipient is throttled and not exempt. */
  predicate Slow(tx: Tx, listed: Listed) {
    && tx.to.Some?
    && (if tx.to.value in listed.throttled then listed.throttled[tx.to.value] > 0 else false)
    && !(if tx.to.value in listed.allowed then listed.allowed[tx.to.value] else false)
  }

  /** The transactions of a class, in order. */
  ghost function Class(txs: seq<Tx>, listed: Listed, slow: bool): seq<Tx> {
    if txs == [] then []
    else Class(txs[..|txs| - 1], listed, slow) + if Slow(txs[|txs| - 1], listed) == slow then [txs[|txs| - 1]] else []
  }

  /** Where the transactions of a class stand, in order. */
  ghost function Positions(txs: seq<Tx>, listed: Listed, slow: bool): (ps: seq<nat>)
    ensures |ps| <= |txs| && forall k :: 0 <= k < |ps| ==> ps[k] < |txs|
  {
    if txs == [] then []
    else Positions(txs[..|txs| - 1], listed, slow) + if Slow(txs[|txs| - 1], listed) == slow then [|txs| - 1] else []
  }

  /** The transactions at the positions are those of the class. */
  lemma {:induction false} AtPositions(txs: seq<Tx>, listed: Listed, slow: bool)
    ensures |Class(txs, listed, slow)| == |Positions(txs, listed, slow)|
    ensures forall k :: 0 <= k < |Class(txs, listed, slow)| ==>
              Class(txs, listed, slow)[k] == txs[Positions(txs, listed, slow)[k]] &&
              Slow(Class(txs, listed, slow)[k], listed) == slow
  {
    hide Slow;
    if txs != [] { AtPositions(txs[..|txs| - 1], listed, slow); }
  }

  lemma PositionsNext(txs: seq<Tx>, i: nat, listed: Listed, slow: bool)
    requires i < |txs|
    ensures Positions(txs[..i + 1], listed, slow) ==
            if Slow(txs[i], listed) == slow then Positions(txs[..i], listed, slow) + [i]
            else Positions(txs[..i], listed, slow)
  {
    assert txs[..i + 1][..i] == txs[..i];
  }

  function Max(a: nat, b: nat): nat {
    if a < b then b else a
  }

  /** The position whose transaction ends up at `k`: the later of the two classes' k-th ones. */
  ghost function Later(normal: seq<nat>, slow: seq<nat>, k: nat): nat
    requires k < |normal| || k < |slow|
  {
    if k >= |slow| then normal[k] else if k >= |normal| then slow[k] else Max(normal[k], slow[k])
  }

  ghost predicate AllBelow(ps: seq<nat>, n: nat) {
    forall k :: 0 <= k < |ps| ==> ps[k] < n
  }

  /**
   What the array holds once the first transactions have been classified: the later ones first,
   then the rest as it was.
   */
  ghost predicate Merged(after: seq<Tx>, before: seq<Tx>, normal: seq<nat>, slow: seq<nat>) {
    && |after| == |before| >= Max(|normal|, |slow|) && AllBelow(normal, |before|) && AllBelow(slow, |before|)
    && forall k :: 0 <= k < |after| ==>
         after[k] == before[if k < |normal| || k < |slow| then Later(normal, slow, k) else k]
  }

  /** Appending the next transaction to either class overwrites nothing that is still to be read. */
  lemma MergeNext(after: seq<Tx>, before: seq<Tx>, normal: seq<nat>, slow: seq<nat>)
    requires Merged(after, before, normal, slow) && |normal| + |slow| < |before|
    requires AllBelow(normal, |normal| + |slow|) && AllBelow(slow, |normal| + |slow|)
    ensures var i := |normal| + |slow|;
            && after[i] == before[i]
            && Merged(after[|slow| := before[i]], before, normal, slow + [i])
            && Merged(after[|normal| := before[i]], before, normal + [i], slow)
  {
  }

  /** The two slices are the intended classes exactly when one of the classes is empty. */
  lemma IntendedExactly(after: seq<Tx>, before: seq<Tx>, listed: Listed)
    requires Merged(after, before, Positions(before, listed, false), Positions(before, listed, true))
    ensures var a, s := Class(before, listed, false), Class(before, listed, true);
            && |a| <= |after| && |s| <= |after|
            && ((after[..|a|] == a && after[..|s|] == s) <==> a == [] || s == [])
  {
    hide Slow, Class, Positions;
    AtPositions(before, listed, false);
    AtPositions(before, listed, true);
    var a, s := Class(before, listed, false), Class(before, listed, true);
    if a != [] && s != [] {
      assert Slow(s[0], listed) && !Slow(a[0], listed);
      assert after[..|a|][0] == after[..|s|][0];
    }
  }

  class Throttler {
    var listed: Listed

    /**
     Classifies `txs` in place. The results are the first `normal` and the first `slow` elements
     of the array, so the shorter is a prefix of the longer, and their lengths are the sizes of
     the classes; element k is the later of the two classes' k-th transactions.
     */
    method ClassifyTxs(txs: array<Tx>) returns (normal: nat, slow: nat)
      modifies txs
      ensures normal == |Class(old(txs[..]), listed, false)| && slow == |Class(old(txs[..]), listed, true)|
      ensures normal + slow == txs.Length
      ensures Merged(txs[..], old(txs[..]), Positions(old(txs[..]), listed, false),
                     Positions(old(txs[..]), listed, true))
      ensures (txs[..normal] == Class(old(txs[..]), listed, false) && txs[..slow] == Class(old(txs[..]), listed, true))
              <==> normal == 0 || slow == 0
    {
      hide Slow, Class, Positions, Later, Merged;
      ghost var before := txs[..];
      normal, slow := 0, 0;
      Unclassified(before, listed);
      for i := 0 to txs.Length
        invariant normal + slow == i
        invariant normal == |Positions(before[..i], listed, false)| && slow == |Positions(before[..i], listed, true)|
        invariant Merged(txs[..], before, Positions(before[..i], listed, false), Positions(before[..i], listed, true))
      {
        MergeNext(txs[..], before, Positions(before[..i], listed, false), Positions(before[..i], listed, true));
        PositionsNext(before, i, listed, false);
        PositionsNext(before, i, listed, true);
        ghost var held := txs[..];
        var tx := txs[i];
        if Slow(tx, listed) {
          txs[slow] := tx;
          assert txs[..] == held[slow := tx];
          slow := slow + 1;
        } else {
          txs[normal] := tx;
          assert txs[..] == held[normal := tx];
          normal := normal + 1;
        }
      }
      assert before[..txs.Length] == before;
      AtPositions(before, listed, false);
      AtPositions(before, listed, true);
      IntendedExactly(txs[..], before, listed);
    }
  }

  lemma Unclassified(txs: seq<Tx>, listed: Listed)
    ensures Positions(txs[..0], listed, false) == Positions(txs[..0], listed, true) == []
    ensures Merged(txs, txs, [], [])
  {
  }
}
