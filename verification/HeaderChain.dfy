/**
 The header chain (blockchain/headerchain.go): headers, their total blockscore and the
 canonical index, under arbitrary sequences of header writes.
 */
module HeaderChains {
  import opened Chains
  import opened Wrappers

  datatype WriteStatus = CanonStatTy | SideStatTy
  datatype WriteError = UnknownAncestor

  /** Every stored header but genesis has its parent stored, one number below. */
  ghost predicate ParentClosed(headers: Headers, genesis: Header) {
    && WellFiled(headers)
    && genesis.number == 0 && genesis.hash in headers && headers[genesis.hash] == genesis
    && (forall h :: h in headers && headers[h].number == 0 ==> headers[h] == genesis)
    && (forall h :: h in headers && headers[h].number > 0 ==>
          headers[h].parent in headers && headers[headers[h].parent].number == headers[h].number - 1)
  }

  /** Total blockscore adds up along parents. */
  ghost predicate ScoresAddUp(headers: Headers, tds: map<Hash, nat>) {
    && tds.Keys == headers.Keys
    && forall h :: h in headers && headers[h].number > 0 && headers[h].parent in headers ==>
         tds[h] == tds[headers[h].parent] + headers[h].score
  }

  /** No header has a higher total blockscore. */
  ghost predicate Heaviest(tds: map<Hash, nat>, best: Hash) {
    best in tds && forall h :: h in tds ==> tds[h] <= tds[best]
  }

  /** Whether a header with total blockscore `td` takes over from a head with `local`. */
  predicate Wins(td: nat, local: nat, coin: bool) {
    td > local || (td == local && coin)
  }

  /** What a successful write does to the store and to the head. */
  ghost predicate Written(headers: Headers, tds: map<Hash, nat>, canonical: map<nat, Hash>, current: Header,
                          headers': Headers, tds': map<Hash, nat>, canonical': map<nat, Hash>, current': Header,
                          header: Header, coin: bool, status: WriteStatus)
  {
    && header.parent in tds && current.hash in tds
    && headers' == headers[header.hash := header]
    && tds' == tds[header.hash := tds[header.parent] + header.score]
    && (status.CanonStatTy? <==> Wins(tds[header.parent] + header.score, tds[current.hash], coin))
    && (status.CanonStatTy? ==> current' == header)
    && (status.SideStatTy? ==> current' == current && canonical' == canonical)
    && current'.hash in tds' && tds'[current'.hash] >= tds[current.hash]
  }

  class HeaderChain {
    const genesis: Header
    var headers: Headers
    var tds: map<Hash, nat>
    var canonical: map<nat, Hash>
    var current: Header

    ghost predicate Valid()
      reads this
    {
      && ParentClosed(headers, genesis)
      && ScoresAddUp(headers, tds)
      && IsChain(headers, canonical, current)
      && Heaviest(tds, current.hash)
    }

    constructor (genesis: Header)
      requires genesis.number == 0 && genesis.hash != NO_HASH
      ensures Valid() && headers == map[genesis.hash := genesis] && current == genesis
    {
      this.genesis := genesis;
      headers, tds := map[genesis.hash := genesis], map[genesis.hash := genesis.score];
      canonical, current := map[0 := genesis.hash], genesis;
    }

    function GetTd(hash: Hash, number: nat): Option<nat>
      reads this
    {
      if hash in tds && GetHeader(headers, hash, number).Some? then Some(tds[hash]) else None
    }

    /**
     Writes a header. It becomes the canonical head when its total blockscore exceeds the
     current head's, or equals it and the coin says so; the head's total never decreases.
     */
    method WriteHeader(header: Header, coin: bool) returns (r: Result<WriteStatus, WriteError>)
      requires Valid() && header.hash != NO_HASH
      requires header.hash in headers ==> headers[header.hash] == header
      modifies this
      ensures Valid()
      ensures r.Err? <==> GetHeader(old(headers), header.parent, Pred(header.number)).None?
      ensures r.Err? ==>
        headers == old(headers) && tds == old(tds) && canonical == old(canonical) && current == old(current)
      ensures r.Ok? ==>
        Written(old(headers), old(tds), old(canonical), old(current), headers, tds, canonical, current, header, coin,
                r.value)
    {
      var ptd := GetTd(header.parent, Pred(header.number));
      if ptd.None? { return Err(UnknownAncestor); }
      hide IsChain, ParentClosed, ScoresAddUp, Heaviest, Written;
      var status := Store(header, ptd.value + header.score, coin);
      r := Ok(status);
    }

    /**
     Any run of header writes keeps the canonical index the path of the head and the head the
     heaviest header written.
     */
    method WriteHeaders(batch: seq<Header>, coins: seq<bool>)
      requires Valid() && |batch| == |coins|
      requires forall x :: x in batch ==> x.hash != NO_HASH && (x.hash in headers ==> headers[x.hash] == x)
      requires forall x, y :: x in batch && y in batch && x.hash == y.hash ==> x == y
      modifies this
      ensures Valid() && old(current).hash in old(tds) && current.hash in tds
      ensures tds[current.hash] >= old(tds)[old(current).hash]
    {
      hide IsChain, ParentClosed, ScoresAddUp;
      for i := 0 to |batch|
        invariant Valid() && current.hash in tds && tds[current.hash] >= old(tds)[old(current).hash]
        invariant forall x :: x in batch ==> x.hash in headers ==> headers[x.hash] == x
      {
        assert batch[i] in batch;
        var r := WriteHeader(batch[i], coins[i]);
      }
    }

    /** Stores a header with its total blockscore and compares it with the current head. */
    method Store(header: Header, externTd: nat, coin: bool) returns (status: WriteStatus)
      requires Valid() && header.hash != NO_HASH
      requires header.hash in headers ==> headers[header.hash] == header
      requires header.parent in headers && headers[header.parent].number == Pred(header.number)
      requires header.parent in tds && externTd == tds[header.parent] + header.score
      modifies this
      ensures Valid()
      ensures Written(old(headers), old(tds), old(canonical), old(current), headers, tds, canonical, current, header,
                      coin, status)
    {
      hide IsChain, ParentClosed, ScoresAddUp, Heaviest, Written, Pred;
      StoreGrows(headers, tds, genesis, canonical, current, header, externTd);
      HeaviestStays(tds, current.hash, header.hash, externTd);
      WriteOutcome(headers, tds, canonical, current, header, coin);
      var localTd := tds[current.hash];
      tds := tds[header.hash := externTd];
      headers := headers[header.hash := header];
      status := SideStatTy;
      if Wins(externTd, localTd, coin) {
        MakeCanonical(header);
        status := CanonStatTy;
      }
    }

    /** Re-routes the canonical index to the path of a stored header. */
    method MakeCanonical(header: Header)
      requires ParentClosed(headers, genesis) && IsChain(headers, canonical, current)
      requires header.hash in headers && headers[header.hash] == header && header.number > 0
      modifies this`canonical, this`current
      ensures IsChain(headers, canonical, header) && current == header
    {
      hide IsChain, ParentClosed;
      ghost var c0 := canonical;
      DeleteAbove(header.number);
      PrefixLinks(headers, c0, canonical, current, header.number);
      RewriteBelow(header);
      TopLinks(headers, canonical, header);
      canonical := canonical[header.number := header.hash];
      current := header;
    }

    /** Deletes the canonical entries above `number`, up to the first gap. */
    method DeleteAbove(number: nat)
      requires IsChain(headers, canonical, current)
      modifies this`canonical
      ensures forall i :: i in canonical <==> i in old(canonical) && i <= number
      ensures forall i :: i in canonical ==> canonical[i] == old(canonical)[i]
    {
      var i := number + 1;
      while i in canonical
        invariant number < i
        invariant forall j :: j in canonical <==> j in old(canonical) && !(number < j < i)
        invariant forall j :: j in canonical ==> canonical[j] == old(canonical)[j]
        decreases current.number + 1 - i
      {
        canonical := canonical - {i};
        i := i + 1;
      }
    }

    /** Points the canonical entries below `header` at its ancestors, down to where they already do. */
    method RewriteBelow(header: Header)
      requires ParentClosed(headers, genesis) && header.number > 0
      requires header.hash in headers && headers[header.hash] == header
      requires forall i :: i in canonical <==> 0 <= i <= current.number && i <= header.number
      requires forall i: nat :: i in canonical ==> LinkAt(headers, canonical, i)
      modifies this`canonical
      ensures forall i :: i in canonical <==> 0 <= i < header.number || (i == header.number && i in old(canonical))
      ensures forall i: nat :: i < header.number ==> LinkAt(headers, canonical, i)
      ensures header.number - 1 in canonical && canonical[header.number - 1] == header.parent
    {
      var headHash, headNumber := header.parent, header.number - 1;
      while ReadCanonical(canonical, headNumber) != headHash
        invariant headNumber < header.number && headHash in headers && headers[headHash].number == headNumber
        invariant Rewriting(headers, old(canonical), canonical, current.number, header, headNumber, headHash)
        decreases headNumber
      {
        BaseAgrees(headers, genesis, old(canonical), canonical, current.number, header, headNumber, headHash);
        canonical := canonical[headNumber := headHash];
        headHash := headers[headHash].parent;
        headNumber := headNumber - 1;
      }
      assert headHash != NO_HASH;
      RewriteMeets(headers, old(canonical), canonical, current.number, header, headNumber, headHash);
    }
  }

  lemma PrefixLinks(headers: Headers, c0: map<nat, Hash>, c: map<nat, Hash>, current: Header, number: nat)
    requires IsChain(headers, c0, current)
    requires forall i :: i in c <==> i in c0 && i <= number
    requires forall i :: i in c ==> c[i] == c0[i]
    ensures forall i :: i in c <==> 0 <= i <= current.number && i <= number
    ensures forall i: nat :: i in c ==> LinkAt(headers, c, i)
  {
    forall i: nat | i in c ensures LinkAt(headers, c, i) { assert LinkAt(headers, c0, i); }
  }

  lemma TopLinks(headers: Headers, c: map<nat, Hash>, header: Header)
    requires header.number > 0 && header.hash in headers && headers[header.hash] == header
    requires forall i :: i in c <==> 0 <= i < header.number || (i == header.number && i in c)
    requires forall i: nat :: i < header.number ==> LinkAt(headers, c, i)
    requires header.number - 1 in c && c[header.number - 1] == header.parent
    ensures IsChain(headers, c[header.number := header.hash], header)
  {
    var c' := c[header.number := header.hash];
    forall i: nat | i <= header.number ensures LinkAt(headers, c', i) {
      if i < header.number { assert LinkAt(headers, c, i); }
    }
  }

  /** Part way down: entries above `at` and below the header are its ancestors, entries up to `at` are as before. */
  ghost predicate Rewriting(headers: Headers, was: map<nat, Hash>, canonical: map<nat, Hash>, top: nat, header: Header,
                            at: nat, headHash: Hash)
  {
    && at < header.number
    && (forall i :: i in canonical <==> i in was || at < i < header.number)
    && (forall i :: i in was && (i <= at || i >= header.number) ==> canonical[i] == was[i])
    && (forall i: nat :: i in was <==> i <= top && i <= header.number)
    && (forall i: nat :: i in was ==> LinkAt(headers, was, i))
    && (forall i: nat :: at + 1 < i < header.number ==> LinkAt(headers, canonical, i))
    && Above(headers, canonical, header, at, headHash)
  }

  /** The entry right above `at`, or the header itself, has `headHash` for its parent. */
  ghost predicate Above(headers: Headers, canonical: map<nat, Hash>, header: Header, at: nat, headHash: Hash)
    requires at < header.number
  {
    if at + 1 == header.number then header.parent == headHash
    else
      && at + 1 in canonical && header.number - 1 in canonical && canonical[at + 1] in headers
      && headers[canonical[at + 1]].number == at + 1 && headers[canonical[at + 1]].parent == headHash
      && canonical[header.number - 1] == header.parent
  }

  /** At height 0 everything meets in genesis, so the walk never goes below it. */
  lemma BaseAgrees(headers: Headers, genesis: Header, was: map<nat, Hash>, canonical: map<nat, Hash>, top: nat,
                   header: Header, at: nat, headHash: Hash)
    requires ParentClosed(headers, genesis) && headHash in headers && headers[headHash].number == at
    requires Rewriting(headers, was, canonical, top, header, at, headHash)
    requires ReadCanonical(canonical, at) != headHash
    ensures at > 0
    ensures headers[headHash].parent in headers && headers[headers[headHash].parent].number == at - 1
    ensures Rewriting(headers, was, canonical[at := headHash], top, header, at - 1, headers[headHash].parent)
  {
    assert LinkAt(headers, was, 0);
    assert at > 0;
    hide ParentClosed, WellFiled;
    RewritesOne(headers, was, canonical, top, header, at, headHash);
  }

  lemma RewritesOne(headers: Headers, was: map<nat, Hash>, canonical: map<nat, Hash>, top: nat, header: Header, at: nat,
                    headHash: Hash)
    requires headHash in headers && headers[headHash].number == at && at > 0
    requires Rewriting(headers, was, canonical, top, header, at, headHash)
    ensures Rewriting(headers, was, canonical[at := headHash], top, header, at - 1, headers[headHash].parent)
  {
    hide LinkAt;
    var canonical' := canonical[at := headHash];
    forall i: nat | at < i < header.number ensures LinkAt(headers, canonical', i) {
      if i > at + 1 {
        assert LinkAt(headers, canonical, i);
        SameLink(headers, canonical, canonical', i);
      } else {
        LinkOnto(headers, canonical', i);
      }
    }
  }

  /** A link depends only on the entries at its height and just below. */
  lemma SameLink(headers: Headers, c: map<nat, Hash>, c': map<nat, Hash>, i: nat)
    requires LinkAt(headers, c, i) && i in c' && c'[i] == c[i]
    requires i > 0 ==> i - 1 in c' && i - 1 in c && c'[i - 1] == c[i - 1]
    ensures LinkAt(headers, c', i)
  {
  }

  lemma LinkOnto(headers: Headers, c: map<nat, Hash>, i: nat)
    requires i > 0 && i in c && i - 1 in c && c[i] in headers
    requires headers[c[i]].number == i && headers[c[i]].parent == c[i - 1]
    ensures LinkAt(headers, c, i)
  {
  }

  lemma RewriteMeets(headers: Headers, was: map<nat, Hash>, canonical: map<nat, Hash>, top: nat, header: Header,
                     at: nat, headHash: Hash)
    requires headHash != NO_HASH && ReadCanonical(canonical, at) == headHash
    requires Rewriting(headers, was, canonical, top, header, at, headHash)
    ensures forall i :: i in canonical <==> 0 <= i < header.number || (i == header.number && i in was)
    ensures forall i: nat :: i < header.number ==> LinkAt(headers, canonical, i)
    ensures header.number - 1 in canonical && canonical[header.number - 1] == header.parent
  {
    hide LinkAt;
    assert at in canonical && at in was;
    forall i: nat | i < header.number ensures LinkAt(headers, canonical, i) {
      if i <= at {
        assert i in was && LinkAt(headers, was, i);
        assert i > 0 ==> i - 1 in was;
        SameLink(headers, was, canonical, i);
      } else if i == at + 1 {
        LinkOnto(headers, canonical, i);
      }
    }
  }

  /** Storing a header whose parent is stored keeps the store closed, its scores adding up and the canonical path. */
  lemma StoreGrows(headers: Headers, tds: map<Hash, nat>, genesis: Header, canonical: map<nat, Hash>, current: Header,
                   header: Header, td: nat)
    requires ParentClosed(headers, genesis) && ScoresAddUp(headers, tds) && IsChain(headers, canonical, current)
    requires header.hash != NO_HASH && (header.hash in headers ==> headers[header.hash] == header)
    requires header.parent in headers && headers[header.parent].number == Pred(header.number)
    requires header.parent in tds && td == tds[header.parent] + header.score
    ensures header.number > 0
    ensures ParentClosed(headers[header.hash := header], genesis)
    ensures ScoresAddUp(headers[header.hash := header], tds[header.hash := td])
    ensures IsChain(headers[header.hash := header], canonical, current)
    ensures header.hash in tds ==> tds[header.hash] == td
    ensures current.hash in tds
    ensures header.hash != current.hash ==> tds[header.hash := td][current.hash] == tds[current.hash]
  {
    ClosedGrows(headers, genesis, header);
    ScoresGrow(headers, tds, genesis, header, td);
    hide ParentClosed, ScoresAddUp;
    ChainGrows(headers, canonical, current, header);
  }

  lemma WriteOutcome(headers: Headers, tds: map<Hash, nat>, canonical: map<nat, Hash>, current: Header, header: Header,
                     coin: bool)
    requires header.parent in tds && Heaviest(tds, current.hash)
    requires header.hash in tds ==> tds[header.hash] == tds[header.parent] + header.score
    ensures var td := tds[header.parent] + header.score;
      var headers', tds' := headers[header.hash := header], tds[header.hash := td];
      if Wins(td, tds[current.hash], coin) then
        forall canonical' :: Written(headers, tds, canonical, current, headers', tds', canonical', header, header,
                                     coin, CanonStatTy)
      else Written(headers, tds, canonical, current, headers', tds', canonical, current, header, coin, SideStatTy)
  {
  }

  lemma HeaviestStays(tds: map<Hash, nat>, best: Hash, hash: Hash, td: nat)
    requires Heaviest(tds, best) && (hash in tds ==> tds[hash] == td)
    ensures td >= tds[best] ==> Heaviest(tds[hash := td], hash)
    ensures td <= tds[best] ==> Heaviest(tds[hash := td], best)
  {
  }

  lemma ClosedGrows(headers: Headers, genesis: Header, header: Header)
    requires ParentClosed(headers, genesis)
    requires header.hash != NO_HASH && (header.hash in headers ==> headers[header.hash] == header)
    requires header.parent in headers && headers[header.parent].number == Pred(header.number)
    ensures header.number > 0 && ParentClosed(headers[header.hash := header], genesis)
  {
    var headers' := headers[header.hash := header];
    forall h | h in headers' && headers'[h].number > 0
      ensures headers'[h].parent in headers' && headers'[headers'[h].parent].number == headers'[h].number - 1
    {
      if h != header.hash { assert headers[h].parent in headers; }
    }
  }

  lemma ScoresGrow(headers: Headers, tds: map<Hash, nat>, genesis: Header, header: Header, td: nat)
    requires ParentClosed(headers, genesis) && ScoresAddUp(headers, tds) && header.number > 0
    requires header.hash in headers ==> headers[header.hash] == header
    requires header.parent in headers && td == tds[header.parent] + header.score
    ensures ScoresAddUp(headers[header.hash := header], tds[header.hash := td])
    ensures header.hash in tds ==> tds[header.hash] == td
  {
    if header.hash in headers {
      assert tds[header.hash := td] == tds && headers[header.hash := header] == headers;
    } else {
      hide WellFiled;
      var headers', tds' := headers[header.hash := header], tds[header.hash := td];
      forall h | h in headers' && headers'[h].number > 0 && headers'[h].parent in headers'
        ensures tds'[h] == tds'[headers'[h].parent] + headers'[h].score
      {
        if h != header.hash { assert headers[h].parent in headers; }
      }
    }
  }

  lemma ChainGrows(headers: Headers, canonical: map<nat, Hash>, current: Header, header: Header)
    requires IsChain(headers, canonical, current)
    requires header.hash in headers ==> headers[header.hash] == header
    ensures IsChain(headers[header.hash := header], canonical, current)
  {
    var headers' := headers[header.hash := header];
    forall i: nat | i <= current.number ensures LinkAt(headers', canonical, i) {
      assert LinkAt(headers, canonical, i);
    }
  }
}
