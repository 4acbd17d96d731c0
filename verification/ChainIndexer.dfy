/**
 The section indexer (blockchain/chain_indexer.go). Its lock is dropped while a section is
 processed, so head and reorg notifications interleave with processing. What cuts the stored
 sections back is a sweep: it writes the new count, counts down deleting one head at a time, and
 assigns the count. A reorg sweeps with the lock held, but the sweep after a failed reset of
 the backend runs without it, so the two can overlap; both are taken step by step here. Every
 other stretch that holds the lock is one step, and the database is read afresh at every access.
 */
module ChainIndexers {
  import opened Chains
  import opened Wrappers

  type Store = h: Headers | WellFiled(h) witness map[]

  /** The chain database at one moment. */
  datatype Database = Database(canonical: map<nat, Hash>, headers: Store)

  datatype Failure = ResetFailed | CanonicalUnknown | HeaderMissing | ChainReorged | CommitFailed

  /**
   Where a sweep stands: about to write the count to the database, to test, to load the stored count, to
   store one less than it loaded, to fetch the number of the head to delete, to delete it, or to
   assign the count. Each is one access to what another sweep may change.
   */
  datatype Stage = Writing | Testing | Loading | Storing(loaded: nat) | Fetching | Removing(head: nat) | Assigning

  datatype Sweep = Sweep(count: nat, stage: Stage)

  /** What sweeps change: the stored count in memory, the count in the index database, and the section heads. */
  datatype Index = Index(stored: nat, valid: nat, heads: map<nat, Hash>)

  /**
   Where the update loop is: waiting, inside a section with the lock dropped, clearing the index
   after a failed reset, or about to finish a section.
   */
  datatype Phase =
    | Idle
    | Working(section: nat, oldHead: Hash)
    | Clearing(section: nat, oldHead: Hash, sweep: Sweep)
    | Processed(section: nat, oldHead: Hash, outcome: Result<Hash, Failure>)

  datatype Event =
    | Notify(head: Number, reorg: bool)
    | CutStep
    | Begin
    | Process(db: nat -> Database, resetOk: bool, commitOk: bool)
    | ClearStep
    | Finish
    | Restart

  /** The indexer at one moment, but for the headers behind its heads. */
  datatype Status = Status(index: Index, known: nat, cascaded: nat, phase: Phase, cut: Option<Sweep>)

  // Linked headers

  /** The header at `i` is numbered `first + i` and is the child of the one before, or of `prev`. */
  ghost predicate Continues(chain: seq<Header>, prev: Hash, first: nat, i: nat)
    requires i < |chain|
  {
    && chain[i].number == first + i && chain[i].hash != NO_HASH
    && chain[i].parent == if i == 0 then prev else chain[i - 1].hash
  }

  ghost predicate Linked(chain: seq<Header>, prev: Hash, first: nat) {
    forall i: nat :: i < |chain| ==> Continues(chain, prev, first, i)
  }

  function LastHash(chain: seq<Header>, prev: Hash): Hash {
    if chain == [] then prev else chain[|chain| - 1].hash
  }

  /** The number of the first block of a section. */
  function First(section: nat, size: nat): nat {
    section * size
  }

  lemma FirstGrows(a: nat, b: nat, size: nat)
    requires a <= b
    ensures First(a, size) <= First(b, size) && First(a + 1, size) == First(a, size) + size
    ensures First(0, size) == 0 && First(1, size) == size
  {
  }

  lemma FirstBound(n: nat, size: nat)
    requires size > 0
    ensures First(n / size, size) <= n
  {
  }

  /** The sections that fit in `n` blocks. */
  lemma WithinCount(k: nat, n: nat, size: nat)
    requires size > 0
    ensures First(k, size) <= n <==> k <= n / size
  {
    if k <= n / size {
      FirstGrows(k, n / size, size);
      FirstBound(n, size);
    } else {
      FirstGrows(n / size + 1, k, size);
    }
  }

  /** The hash under section `j`: the end of the section before, or no hash. */
  function HashBefore(sections: seq<seq<Header>>, j: nat): Hash
    requires j <= |sections|
  {
    if j == 0 then NO_HASH else LastHash(sections[j - 1], NO_HASH)
  }

  /** A full section that continues the one before. */
  ghost predicate Follows(sections: seq<seq<Header>>, size: nat, j: nat)
    requires j < |sections|
  {
    |sections[j]| == size && Linked(sections[j], HashBefore(sections, j), First(j, size))
  }

  ghost predicate Sectioned(sections: seq<seq<Header>>, size: nat) {
    forall j: nat :: j < |sections| ==> Follows(sections, size, j)
  }

  /** Heads are recorded exactly for the sections, and are their last hashes. */
  ghost predicate Recorded(heads: map<nat, Hash>, sections: seq<seq<Header>>) {
    && (forall k :: k in heads <==> 0 <= k < |sections|)
    && forall k :: 0 <= k < |sections| ==> heads[k] == LastHash(sections[k], NO_HASH)
  }

  ghost function Joined(sections: seq<seq<Header>>): seq<Header> {
    if sections == [] then [] else Joined(sections[..|sections| - 1]) + sections[|sections| - 1]
  }

  /** The recorded head of section `k` is the hash of the last block of that section in `chain`. */
  ghost predicate EndsAt(heads: map<nat, Hash>, chain: seq<Header>, size: nat, k: nat)
    requires k in heads
  {
    0 < First(k + 1, size) <= |chain| && heads[k] == chain[First(k + 1, size) - 1].hash
  }

  /** The heads are the evenly spaced points of one parent-linked chain that starts at genesis. */
  ghost predicate SpacedPoints(heads: map<nat, Hash>, chain: seq<Header>, size: nat) {
    Linked(chain, NO_HASH, 0) && forall k :: k in heads ==> EndsAt(heads, chain, size, k)
  }

  lemma {:induction false} HeadsOfOneChain(heads: map<nat, Hash>, sections: seq<seq<Header>>, size: nat)
    requires size > 0 && Sectioned(sections, size) && Recorded(heads, sections)
    ensures |Joined(sections)| == First(|sections|, size) && SpacedPoints(heads, Joined(sections), size)
    ensures LastHash(Joined(sections), NO_HASH) == HashBefore(sections, |sections|)
  {
    hide Linked, First, Sectioned;
    if sections == [] {
      assert First(0, size) == 0 by { FirstGrows(0, 0, size); }
      NoneLinked(NO_HASH, 0);
    } else {
      var n := |sections| - 1;
      var kept := Without(heads, n, |sections|);
      SectionsShrink(heads, sections, size, n);
      HeadsOfOneChain(kept, sections[..n], size);
      FirstGrows(n, n, size);
      assert Follows(sections, size, n) by { FollowsAt(sections, size, n); }
      LinkedJoins(Joined(sections[..n]), sections[n], NO_HASH, 0);
      forall k | k in heads
        ensures EndsAt(heads, Joined(sections), size, k)
      {
        if k < n { assert EndsAt(kept, Joined(sections[..n]), size, k); }
      }
    }
  }

  lemma FollowsAt(sections: seq<seq<Header>>, size: nat, j: nat)
    requires Sectioned(sections, size) && j < |sections|
    ensures Follows(sections, size, j)
  {
  }

  lemma LinkedJoins(a: seq<Header>, b: seq<Header>, prev: Hash, first: nat)
    requires Linked(a, prev, first) && Linked(b, LastHash(a, prev), first + |a|)
    ensures Linked(a + b, prev, first)
  {
    forall i: nat | i < |a + b|
      ensures Continues(a + b, prev, first, i)
    {
      if i < |a| {
        assert Continues(a, prev, first, i);
      } else {
        assert Continues(b, LastHash(a, prev), first + |a|, i - |a|);
      }
    }
  }

  lemma SectionsShrink(heads: map<nat, Hash>, sections: seq<seq<Header>>, size: nat, n: nat)
    requires Sectioned(sections, size) && Recorded(heads, sections) && n <= |sections|
    ensures Sectioned(sections[..n], size) && Recorded(Without(heads, n, |sections|), sections[..n])
    ensures HashBefore(sections[..n], n) == HashBefore(sections, n)
  {
    hide Linked, First;
    forall j: nat | j < n
      ensures Follows(sections[..n], size, j)
    {
      assert Follows(sections, size, j);
    }
  }

  lemma SectionsGrow(heads: map<nat, Hash>, sections: seq<seq<Header>>, size: nat, section: seq<Header>)
    requires size > 0 && Sectioned(sections, size) && Recorded(heads, sections)
    requires |section| == size && Linked(section, HashBefore(sections, |sections|), First(|sections|, size))
    ensures Sectioned(sections + [section], size)
    ensures Recorded(heads[|sections| := LastHash(section, NO_HASH)], sections + [section])
  {
    hide Linked, First;
    var grown := sections + [section];
    forall j: nat | j < |grown|
      ensures Follows(grown, size, j)
    {
      if j < |sections| { assert Follows(sections, size, j); }
    }
  }

  /** The hash that ends a section is not the zero hash. */
  lemma HashBeforeIsSome(sections: seq<seq<Header>>, size: nat, n: nat)
    requires size > 0 && Sectioned(sections, size) && 0 < n <= |sections|
    ensures HashBefore(sections, n) != NO_HASH
  {
    assert Follows(sections, size, n - 1);
    assert Continues(sections[n - 1], HashBefore(sections, n - 1), First(n - 1, size), size - 1);
  }

  /** The heads outside [lo, hi). */
  function Without(heads: map<nat, Hash>, lo: nat, hi: nat): map<nat, Hash> {
    map k | k in heads && !(lo <= k < hi) :: heads[k]
  }

  /** While a section is in flight the stored sections can only have been cut back since. */
  ghost predicate InFlight(sections: seq<seq<Header>>, size: nat, section: nat, oldHead: Hash) {
    && |sections| <= section && First(section + 1, size) <= MAX_UINT64
    && (oldHead == NO_HASH <==> section == 0)
    && (section == |sections| ==> oldHead == HashBefore(sections, section))
  }

  /** What processing a section read: a full section on top of the old head. */
  ghost predicate Crunched(segment: seq<Header>, size: nat, section: nat, oldHead: Hash, newHead: Hash) {
    |segment| == size && Linked(segment, oldHead, First(section, size)) && LastHash(segment, oldHead) == newHead
  }

  /** The canonical header read for a number, by two accesses to a database that may change between them. */
  function ReadAt(db: nat -> Database, number: nat): Option<Header> {
    var hash := ReadCanonical(db(2 * number).canonical, number);
    if hash == NO_HASH then None else GetHeader(db(2 * number + 1).headers, hash, number)
  }

  /** The header read for a number exists and continues the one read before it, or `lastHead`. */
  ghost predicate Offered(db: nat -> Database, lastHead: Hash, first: nat, number: nat) {
    && ReadAt(db, number).Some?
    && var parent := ReadAt(db, number).value.parent;
       if number <= first then parent == lastHead
       else ReadAt(db, number - 1).Some? && parent == ReadAt(db, number - 1).value.hash
  }

  /** Every header of the section can be read and continues the one before. */
  ghost predicate Readable(db: nat -> Database, lastHead: Hash, section: nat, size: nat) {
    forall n :: First(section, size) <= n < First(section + 1, size) ==> Offered(db, lastHead, First(section, size), n)
  }

  /** Reading stops at `number` for this reason. */
  ghost predicate StopsAt(db: nat -> Database, lastHead: Hash, first: nat, number: nat, why: Failure) {
    var hash := ReadCanonical(db(2 * number).canonical, number);
    if hash == NO_HASH then why == CanonicalUnknown
    else if ReadAt(db, number).None? then why == HeaderMissing
    else why == ChainReorged && !Offered(db, lastHead, first, number)
  }

  /** How reading a section ends: with the last header's hash, at the first header that stops it, or at the commit. */
  ghost predicate ReadsTo(db: nat -> Database, lastHead: Hash, section: nat, size: nat, commitOk: bool,
                          r: Result<Hash, Failure>) {
    var first, end := First(section, size), First(section + 1, size);
    match r
    case Ok(head) =>
      && commitOk && Readable(db, lastHead, section, size)
      && head == if size == 0 || ReadAt(db, end - 1).None? then lastHead else ReadAt(db, end - 1).value.hash
    case Err(why) =>
      if Readable(db, lastHead, section, size) then !commitOk && why == CommitFailed
      else exists n: nat ::
        && first <= n < end && (forall m :: first <= m < n ==> Offered(db, lastHead, first, m))
        && StopsAt(db, lastHead, first, n, why)
  }

  lemma Stopped(db: nat -> Database, lastHead: Hash, section: nat, size: nat, commitOk: bool, n: nat, why: Failure)
    requires First(section, size) <= n < First(section + 1, size)
    requires forall m :: First(section, size) <= m < n ==> Offered(db, lastHead, First(section, size), m)
    requires StopsAt(db, lastHead, First(section, size), n, why)
    ensures ReadsTo(db, lastHead, section, size, commitOk, Err(why))
  {
    hide First;
    assert !Offered(db, lastHead, First(section, size), n);
  }

  // Steps

  /** The head below a section. */
  function HeadBelow(ix: Index, section: nat): Hash {
    if section > 0 && section - 1 in ix.heads then ix.heads[section - 1] else NO_HASH
  }

  /** With the confirmations asked for, the first `k` sections end at or below the head. */
  ghost predicate Confirmed(size: nat, confirms: nat, head: Number, k: nat) {
    head >= confirms && First(k, size) + confirms <= head + 1
  }

  /** What a notification does when nothing holds the lock. */
  ghost predicate Notified(size: nat, confirms: nat, head: Number, reorg: bool, s0: Status, s1: Status)
    requires size > 0
  {
    var at := head / size;
    && s1.index == s0.index && s1.phase == s0.phase
    && s1.cut == (if reorg && at < s0.index.stored then Some(Sweep(at, Writing)) else None)
    && (reorg ==> s1.known == Lesser(at, s0.known))
    && (!reorg ==> forall k: nat :: k <= s1.known <==> k <= s0.known || Confirmed(size, confirms, head, k))
    && s1.cascaded == if reorg && s1.cut.None? then Lesser(First(at, size), s0.cascaded) else s0.cascaded
  }

  /** What a finish does once a section is processed and nothing holds the lock. */
  ghost predicate Finishes(size: nat, s0: Status, s1: Status)
    requires s0.phase.Processed?
  {
    var section := s0.phase.section;
    if s0.phase.outcome.Ok? && s0.index.stored == section then
      && s1 == Status(Index(section + 1, section + 1, s0.index.heads[section := s0.phase.outcome.value]), s0.known,
                      s1.cascaded, Idle, None)
      && s1.cascaded + 1 == First(section + 1, size)
    else s1 == s0.(phase := Idle, known := s0.index.stored)
  }

  /** What one event does to the indexer. */
  ghost predicate Takes(size: nat, confirms: nat, e: Event, s0: Status, s1: Status)
    requires size > 0
  {
    match e
    case Notify(head, reorg) => if s0.cut.Some? then s1 == s0 else Notified(size, confirms, head, reorg, s0, s1)
    case CutStep =>
      if s0.cut.None? then s1 == s0
      else
        var (ix, next) := Step(s0.index, s0.cut.value);
        s1 == s0.(index := ix, cut := next,
                  cascaded := if next.None? then Lesser(First(s0.cut.value.count, size), s0.cascaded) else s0.cascaded)
    case Begin =>
      if s0.phase.Idle? && s0.cut.None? && s0.known > s0.index.stored then
        s1 == s0.(phase := Working(s0.index.stored, HeadBelow(s0.index, s0.index.stored)))
      else s1 == s0
    case Process(db, resetOk, commitOk) =>
      if !s0.phase.Working? then s1 == s0
      else
        var section, oldHead := s0.phase.section, s0.phase.oldHead;
        if !resetOk then s1 == s0.(phase := Clearing(section, oldHead, Sweep(0, Writing)))
        else exists r :: ReadsTo(db, oldHead, section, size, commitOk, r) &&
                         s1 == s0.(phase := Processed(section, oldHead, r))
    case ClearStep =>
      if !s0.phase.Clearing? then s1 == s0
      else
        var section, oldHead := s0.phase.section, s0.phase.oldHead;
        var (ix, next) := Step(s0.index, s0.phase.sweep);
        s1 == s0.(index := ix, phase := if next.Some? then Clearing(section, oldHead, next.value)
                                        else Processed(section, oldHead, Err(ResetFailed)))
    case Finish => if s0.phase.Processed? && s0.cut.None? then Finishes(size, s0, s1) else s1 == s0
    case Restart =>
      if s0.phase.Idle? && s0.cut.None? then
        s1 == s0.(index := s0.index.(stored := s0.index.valid), known := 0, cascaded := 0)
      else s1 == s0
  }

  /** The trace follows the events, all of them or up to where it stops. */
  ghost predicate Follow(size: nat, confirms: nat, events: seq<Event>, trace: seq<Status>)
    requires size > 0
  {
    && 0 < |trace| <= |events| + 1
    && forall i :: 0 <= i < |trace| - 1 ==> Takes(size, confirms, events[i], trace[i], trace[i + 1])
  }

  lemma FollowsNothing(size: nat, confirms: nat, events: seq<Event>, s: Status)
    requires size > 0
    ensures Follow(size, confirms, events, [s])
  {
  }

  lemma FollowsNext(size: nat, confirms: nat, events: seq<Event>, trace: seq<Status>, s: Status)
    requires size > 0 && Follow(size, confirms, events, trace) && |trace| <= |events|
    requires Takes(size, confirms, events[|trace| - 1], trace[|trace| - 1], s)
    ensures Follow(size, confirms, events, trace + [s])
  {
    hide Takes;
    forall i | 0 <= i < |trace| ensures Takes(size, confirms, events[i], (trace + [s])[i], (trace + [s])[i + 1]) {
      assert i < |trace| - 1 ==> (trace + [s])[i] == trace[i] && (trace + [s])[i + 1] == trace[i + 1];
    }
  }

  // Sweeps

  /** One less, in 64 bits. */
  function Below(n: nat): nat {
    if n == 0 then MAX_UINT64 else n - 1
  }

  /** One step of a sweep; `None` when it is over. */
  function Step(ix: Index, sw: Sweep): (Index, Option<Sweep>) {
    match sw.stage
    case Writing => (ix.(valid := sw.count), Some(sw.(stage := Testing)))
    case Testing => (ix, Some(sw.(stage := if ix.stored > sw.count then Loading else Assigning)))
    case Loading => (ix, Some(sw.(stage := Storing(ix.stored))))
    case Storing(loaded) => (ix.(stored := Below(loaded)), Some(sw.(stage := Fetching)))
    case Fetching => (ix, Some(sw.(stage := Removing(ix.stored))))
    case Removing(head) => (ix.(heads := ix.heads - {head}), Some(sw.(stage := Testing)))
    case Assigning => (ix.(stored := sw.count), None)
  }

  /** The stored count, or one more than it will be once a sweep has counted down. */
  function Height(ix: Index, stage: Stage): nat {
    match stage
    case Loading => Below(ix.stored) + 1
    case Storing(loaded) => Below(loaded) + 1
    case _ => ix.stored
  }

  function Rank(stage: Stage): nat {
    match stage
    case Writing => 6
    case Fetching => 5
    case Removing(_) => 4
    case Testing => 3
    case Loading => 2
    case Storing(_) => 1
    case Assigning => 0
  }

  /** A sweep that is left alone to its end. */
  function Finished(ix: Index, sw: Sweep): Index
    decreases Height(ix, sw.stage), Rank(sw.stage)
  {
    var (ix', sw') := Step(ix, sw);
    if sw'.None? then ix' else Finished(ix', sw'.value)
  }

  /** However it stands, a sweep that is left alone ends with its own count, and only deletes heads. */
  lemma {:induction false} FinishedCount(ix: Index, sw: Sweep)
    ensures Finished(ix, sw).stored == sw.count && Finished(ix, sw).heads.Keys <= ix.heads.Keys
    decreases Height(ix, sw.stage), Rank(sw.stage)
  {
    var (ix', sw') := Step(ix, sw);
    if sw'.Some? { FinishedCount(ix', sw'.value); }
  }

  /** Once round the loop. */
  function Round(ix: Index): Index
    requires ix.stored > 0
  {
    Index(ix.stored - 1, ix.valid, ix.heads - {ix.stored - 1})
  }

  lemma {:induction false} FinishedNext(ix: Index, count: nat, stage: Stage, ix': Index, stage': Stage)
    requires Step(ix, Sweep(count, stage)) == (ix', Some(Sweep(count, stage')))
    ensures Finished(ix, Sweep(count, stage)) == Finished(ix', Sweep(count, stage'))
  {
  }

  lemma {:induction false} FinishedRound(ix: Index, count: nat)
    requires ix.stored > count
    ensures Finished(ix, Sweep(count, Testing)) == Finished(Round(ix), Sweep(count, Testing))
  {
    hide Finished;
    var n := ix.stored;
    var lower := Index(n - 1, ix.valid, ix.heads);
    FinishedNext(ix, count, Testing, ix, Loading);
    FinishedNext(ix, count, Loading, ix, Storing(n));
    FinishedNext(ix, count, Storing(n), lower, Fetching);
    FinishedNext(lower, count, Fetching, lower, Removing(n - 1));
    FinishedNext(lower, count, Removing(n - 1), Round(ix), Testing);
  }

  /** From its test, a sweep that is left alone deletes exactly the heads from its count up to the stored one. */
  lemma {:induction false} FinishedHeads(ix: Index, count: nat)
    requires count <= ix.stored
    ensures Finished(ix, Sweep(count, Testing)) == Index(count, ix.valid, Without(ix.heads, count, ix.stored))
    decreases ix.stored
  {
    if ix.stored == count {
      assert Without(ix.heads, count, ix.stored) == ix.heads;
      assert Finished(ix, Sweep(count, Testing)) == Finished(ix, Sweep(count, Assigning));
    } else {
      FinishedRound(ix, count);
      FinishedHeads(Round(ix), count);
      assert Without(Round(ix).heads, count, ix.stored - 1) == Without(ix.heads, count, ix.stored);
    }
  }

  /** Any interleaving of sweeps: the indices of the sweeps that take the next step each. */
  function Play(ix: Index, sweeps: seq<Option<Sweep>>, who: seq<nat>): (Index, seq<Option<Sweep>>)
    decreases |who|
  {
    if who == [] then (ix, sweeps)
    else
      var i := who[0];
      if i < |sweeps| && sweeps[i].Some? then
        var (ix', sw') := Step(ix, sweeps[i].value);
        Play(ix', sweeps[i := sw'], who[1..])
      else Play(ix, sweeps, who[1..])
  }

  lemma PlayOne(ix: Index, sweeps: seq<Option<Sweep>>, i: nat, who: seq<nat>)
    requires i < |sweeps| && sweeps[i].Some?
    ensures Play(ix, sweeps, [i] + who) == Play(Step(ix, sweeps[i].value).0, sweeps[i := Step(ix, sweeps[i].value).1],
                                                who)
  {
    assert ([i] + who)[1..] == who;
  }

  lemma {:induction false} PlayOn(ix: Index, sweeps: seq<Option<Sweep>>, w1: seq<nat>, w2: seq<nat>)
    ensures Play(ix, sweeps, w1 + w2) == Play(Play(ix, sweeps, w1).0, Play(ix, sweeps, w1).1, w2)
    decreases |w1|
  {
    if w1 == [] {
      assert w1 + w2 == w2;
    } else {
      var i := w1[0];
      assert (w1 + w2)[1..] == w1[1..] + w2;
      if i < |sweeps| && sweeps[i].Some? {
        var (ix', sw') := Step(ix, sweeps[i].value);
        PlayOn(ix', sweeps[i := sw'], w1[1..], w2);
      } else {
        PlayOn(ix, sweeps, w1[1..], w2);
      }
    }
  }

  /** A sweep can be played to its end while the others stand still. */
  lemma {:induction false} FinishOne(ix: Index, sweeps: seq<Option<Sweep>>, i: nat) returns (who: seq<nat>)
    requires i < |sweeps| && sweeps[i].Some?
    ensures Play(ix, sweeps, who) == (Finished(ix, sweeps[i].value), sweeps[i := None])
    decreases Height(ix, sweeps[i].value.stage), Rank(sweeps[i].value.stage)
  {
    var (ix', sw') := Step(ix, sweeps[i].value);
    var rest := [];
    if sw'.Some? {
      rest := FinishOne(ix', sweeps[i := sw'], i);
      assert sweeps[i := sw'][i := None] == sweeps[i := None];
    }
    who := [i] + rest;
    assert who[1..] == rest;
  }

  ghost predicate ExactlyBelow(ix: Index) {
    forall k :: k in ix.heads <==> 0 <= k < ix.stored
  }

  /** The next step of this sweep takes the stored count below zero. */
  predicate Wraps(sw: Option<Sweep>) {
    sw.Some? && sw.value.stage == Storing(0)
  }

  /** Some way to go on with two overlapping sweeps wraps the stored count, or ends with heads that do not match it. */
  ghost predicate CanBreak(ix: Index, a: Sweep, b: Sweep) {
    exists who :: EndsBadly(ix, [Some(a), Some(b)], who)
  }

  function Pending(sw: Option<Sweep>): nat {
    if sw.Some? && (sw.value.stage.Fetching? || sw.value.stage.Removing?) then 1 else 0
  }

  /** Heads are recorded exactly for the first `n` sections, and are their last hashes. */
  ghost predicate RecordedTo(heads: map<nat, Hash>, sections: seq<seq<Header>>, n: nat) {
    && n <= |sections| && (forall k :: k in heads <==> 0 <= k < n)
    && forall k :: 0 <= k < n ==> heads[k] == LastHash(sections[k], NO_HASH)
  }

  ghost predicate OnCourse(ix: Index, sw: Sweep) {
    && sw.count <= ix.stored && (!sw.stage.Writing? ==> ix.valid == sw.count)
    && match sw.stage
       case Loading => ix.stored > sw.count
       case Storing(loaded) => loaded == ix.stored > sw.count
       case Removing(head) => head == ix.stored
       case Assigning => ix.stored == sw.count
       case _ => true
  }

  /**
   The index while sweeps may be under way: the heads reach as far as the stored count and a head about to
   be deleted. Two sweeps at once have nothing left to count down, and at most one head to delete between them.
   */
  ghost predicate Swept(ix: Index, sections: seq<seq<Header>>, clear: Option<Sweep>, cut: Option<Sweep>) {
    && RecordedTo(ix.heads, sections, ix.stored + Pending(clear) + Pending(cut))
    && (clear.None? && cut.None? ==> ix.valid == ix.stored == |sections|)
    && (clear.Some? ==> clear.value.count == 0 && OnCourse(ix, clear.value))
    && (cut.Some? ==> OnCourse(ix, cut.value))
    && (clear.Some? && cut.Some? ==> !Harmful(ix, clear, cut) && Pending(clear) + Pending(cut) <= 1)
  }

  /** A clear and a cut under way together do harm when the cut keeps a section or a section is still stored. */
  predicate Harmful(ix: Index, clear: Option<Sweep>, cut: Option<Sweep>) {
    clear.Some? && cut.Some? && (cut.value.count > 0 || ix.stored > 0)
  }

  /** What is left of the sections once a sweep is over. */
  ghost function Left(sections: seq<seq<Header>>, sw: Option<Sweep>, other: Option<Sweep>,
                      count: nat): seq<seq<Header>> {
    if sw.None? && other.None? && count <= |sections| then sections[..count] else sections
  }

  /** A step of either sweep keeps the index in step. */
  lemma SweptStep(ix: Index, sections: seq<seq<Header>>, clear: Option<Sweep>, cut: Option<Sweep>)
    requires Swept(ix, sections, clear, cut)
    ensures clear.Some? ==>
      var (ix', next) := Step(ix, clear.value); Swept(ix', Left(sections, next, cut, 0), next, cut)
    ensures cut.Some? ==>
      var (ix', next) := Step(ix, cut.value); Swept(ix', Left(sections, next, clear, cut.value.count), clear, next)
  {
    hide RecordedTo, Step, OnCourse, Left;
    if clear.Some? { KeepsCourse(ix, sections, clear.value, cut); }
    if cut.Some? { KeepsCourse(ix, sections, cut.value, clear); }
  }

  lemma KeepsCourse(ix: Index, sections: seq<seq<Header>>, sw: Sweep, other: Option<Sweep>)
    requires RecordedTo(ix.heads, sections, ix.stored + Pending(Some(sw)) + Pending(other)) && OnCourse(ix, sw)
    requires other.Some? ==>
      && OnCourse(ix, other.value) && sw.count == other.value.count == 0
      && ix.stored == 0 && Pending(Some(sw)) + Pending(other) <= 1
    ensures var (ix', next) := Step(ix, sw);
            && RecordedTo(ix'.heads, Left(sections, next, other, sw.count), ix'.stored + Pending(next) + Pending(other))
            && (next.None? ==> ix'.valid == ix'.stored == sw.count)
            && (next.Some? ==> next.value.count == sw.count && OnCourse(ix', next.value))
            && (other.Some? ==> OnCourse(ix', other.value) && ix'.stored == 0 && Pending(next) + Pending(other) <= 1)
            && (next.None? && other.None? ==> |Left(sections, next, other, sw.count)| == sw.count)
  {
  }

  // Overlapping sweeps that end badly

  /** Two sweeps, the first named one at index `o`. */
  function Two(o: nat, x: Sweep, y: Sweep): seq<Option<Sweep>> {
    if o == 0 then [Some(x), Some(y)] else [Some(y), Some(x)]
  }

  ghost predicate EndsBadly(ix: Index, sweeps: seq<Option<Sweep>>, who: seq<nat>) {
    var (ix', left) := Play(ix, sweeps, who);
    |left| == 2 && (Wraps(left[0]) || Wraps(left[1]) || (left == [None, None] && !ExactlyBelow(ix')))
  }

  lemma StepFirst(ix: Index, o: nat, x: Sweep, y: Sweep, who: seq<nat>)
    requires o < 2 && Step(ix, x).1.Some?
    ensures Play(ix, Two(o, x, y), [o] + who) == Play(Step(ix, x).0, Two(o, Step(ix, x).1.value, y), who)
  {
    PlayOne(ix, Two(o, x, y), o, who);
    assert Two(o, x, y)[o := Step(ix, x).1] == Two(o, Step(ix, x).1.value, y);
  }

  lemma StepSecond(ix: Index, o: nat, x: Sweep, y: Sweep, who: seq<nat>)
    requires o < 2 && Step(ix, y).1.Some?
    ensures Play(ix, Two(o, x, y), [1 - o] + who) == Play(Step(ix, y).0, Two(o, x, Step(ix, y).1.value), who)
  {
    PlayOne(ix, Two(o, x, y), 1 - o, who);
    assert Two(o, x, y)[1 - o := Step(ix, y).1] == Two(o, x, Step(ix, y).1.value);
  }

  /** A sweep played to its end, and then the other. */
  lemma FinishBoth(ix: Index, o: nat, x: Sweep, y: Sweep) returns (who: seq<nat>)
    requires o < 2
    ensures Play(ix, Two(o, x, y), who) == (Finished(Finished(ix, x), y), [None, None])
  {
    var ix1, sweeps := Finished(ix, x), Two(o, x, y);
    var w1 := FinishOne(ix, sweeps, o);
    var w2 := FinishOne(ix1, sweeps[o := None], 1 - o);
    assert sweeps[o := None][1 - o := None] == [None, None];
    PlayOn(ix, sweeps, w1, w2);
    who := w1 + w2;
  }

  /** When the cut keeps a section, a clear played to its end first has already deleted that section's head. */
  lemma KeepingBreaks(ix: Index, o: nat, cut: Sweep) returns (who: seq<nat>)
    requires o < 2 && 0 < cut.count && 0 < ix.stored
    ensures EndsBadly(ix, Two(o, Sweep(0, Writing), cut), who)
  {
    who := FinishBoth(ix, o, Sweep(0, Writing), cut);
    var cleared := Finished(ix, Sweep(0, Writing));
    SweepAlone(ix, 0);
    FinishedCount(cleared, cut);
    assert 0 !in cleared.heads;
  }

  /**
   A sweep that has just begun tests before the other, a clear, has run to its end; then it loads a count of
   zero to take one from.
   */
  lemma CountWraps(ix: Index, o: nat, clear: Sweep, late: Sweep) returns (who: seq<nat>)
    requires o < 2 && clear.count == 0 && late.stage.Writing? && late.count < ix.stored
    ensures EndsBadly(ix, Two(o, clear, late), who)
  {
    var ix1 := ix.(valid := late.count);
    var testing, loading := late.(stage := Testing), late.(stage := Loading);
    var sweeps := Two(o, clear, loading);
    var w := FinishOne(ix1, sweeps, o);
    FinishedCount(ix1, clear);
    var ix2 := Finished(ix1, clear);
    var left := sweeps[o := None];
    PlayOn(ix1, sweeps, w, [1 - o]);
    PlayOne(ix2, left, 1 - o, []);
    assert [1 - o] + [] == [1 - o];
    assert left[1 - o := Some(late.(stage := Storing(0)))][1 - o] == Some(late.(stage := Storing(0)));
    StepSecond(ix1, o, clear, testing, w + [1 - o]);
    StepSecond(ix, o, clear, late, [1 - o] + (w + [1 - o]));
    who := [1 - o] + ([1 - o] + (w + [1 - o]));
  }

  /** A clear and a cut that overlap harmfully can end badly, whichever of them has just begun. */
  lemma OverlapBreaks(ix: Index, sections: seq<seq<Header>>, clear: Sweep, cut: Sweep)
    requires Harmful(ix, Some(clear), Some(cut)) && clear.count == 0
    requires || (cut.stage.Writing? && cut.count < ix.stored && Swept(ix, sections, Some(clear), None))
             || (clear.stage.Writing? && Swept(ix, sections, None, Some(cut)))
    ensures CanBreak(ix, clear, cut)
  {
    var who: seq<nat>;
    if cut.stage.Writing? && cut.count < ix.stored {
      who := CountWraps(ix, 0, clear, cut);
    } else if cut.count > 0 {
      who := KeepingBreaks(ix, 0, cut);
    } else {
      who := CountWraps(ix, 1, cut, clear);
    }
    assert EndsBadly(ix, [Some(clear), Some(cut)], who);
  }

  /**
   One such end, step by step: two sections stored, a clear and a cut to one section. Both have
   written their counts when the cut deletes head 1 and the clear deletes head 0; the cut
   assigns last, and one section counts as stored without a head.
   */
  lemma OverlapExample(h0: Hash, h1: Hash)
    ensures var ix := Index(2, 2, map[0 := h0, 1 := h1]);
            var who := [0, 1] + ([1, 1, 1, 1, 1] + ([0, 0, 0, 0, 0] + [0, 0, 1, 1]));
            Play(ix, [Some(Sweep(0, Writing)), Some(Sweep(1, Writing))], who) == (Index(1, 1, map[]), [None, None])
  {
    hide Play;
    var clear, cut, heads := Sweep(0, Testing), Sweep(1, Testing), map[0 := h0, 1 := h1];
    var rest := [0, 0, 1, 1];
    var both := [1, 1, 1, 1, 1] + ([0, 0, 0, 0, 0] + rest);
    assert [0, 1] + both == [0] + ([1] + both);
    StepFirst(Index(2, 2, heads), 0, Sweep(0, Writing), Sweep(1, Writing), [1] + both);
    StepSecond(Index(2, 0, heads), 0, clear, Sweep(1, Writing), both);
    PlayRound(Index(2, 1, heads), 1, cut, clear, [0, 0, 0, 0, 0] + rest);
    assert heads - {1} == map[0 := h0];
    PlayRound(Index(1, 1, map[0 := h0]), 0, clear, cut, rest);
    assert map[0 := h0] - {0} == map[];
    BothAssign();
  }

  lemma BothAssign()
    ensures Play(Index(0, 1, map[]), [Some(Sweep(0, Testing)), Some(Sweep(1, Testing))], [0, 0, 1, 1]) ==
            (Index(1, 1, map[]), [None, None])
  {
    hide Play;
    var ix, clear, cut := Index(0, 1, map[]), Sweep(0, Testing), Sweep(1, Testing);
    PlayNext(ix, clear, cut, [0, 0, 1, 1]);
    PlayNext(ix, Sweep(0, Assigning), cut, [0, 1, 1]);
    CutAssigns();
  }

  lemma CutAssigns()
    ensures Play(Index(0, 1, map[]), [None, Some(Sweep(1, Testing))], [1, 1]) == (Index(1, 1, map[]), [None, None])
  {
    var ix, cut := Index(0, 1, map[]), Sweep(1, Testing);
    assert [1, 1][1..] == [1] && [1][1..] == [];
    assert [None, Some(cut)][1 := Some(Sweep(1, Assigning))] == [None, Some(Sweep(1, Assigning))];
    assert [None, Some(Sweep(1, Assigning))][1 := None] == [None, None];
    assert Play(ix, [None, Some(Sweep(1, Assigning))], [1]) == (Index(1, 1, map[]), [None, None]);
  }

  /** Once round the loop for one of two sweeps, while the other stands still. */
  lemma PlayRound(ix: Index, o: nat, x: Sweep, y: Sweep, who: seq<nat>)
    requires o < 2 && x.stage.Testing? && ix.stored > x.count
    ensures Play(ix, Two(o, x, y), [o, o, o, o, o] + who) == Play(Round(ix), Two(o, x, y), who)
  {
    hide Play;
    var n := ix.stored;
    var lower := ix.(stored := n - 1);
    assert [o, o, o, o, o] + who == [o] + ([o] + ([o] + ([o] + ([o] + who))));
    StepFirst(ix, o, x, y, [o] + ([o] + ([o] + ([o] + who))));
    StepFirst(ix, o, x.(stage := Loading), y, [o] + ([o] + ([o] + who)));
    StepFirst(ix, o, x.(stage := Storing(n)), y, [o] + ([o] + who));
    StepFirst(lower, o, x.(stage := Fetching), y, [o] + who);
    StepFirst(lower, o, x.(stage := Removing(n - 1)), y, who);
  }

  /**
   The stored count wrapping, step by step: one section stored, a clear and a cut to no section. Both test
   before either counts down, and the second takes one from zero with head 0 still recorded.
   */
  lemma UnderflowExample(h: Hash)
    ensures var clear, cut := Some(Sweep(0, Writing)), Some(Sweep(0, Writing));
            var counted := Some(Sweep(0, Fetching));
            Play(Index(1, 1, map[0 := h]), [clear, cut], [0, 1, 0, 1, 0, 0, 1, 1]) ==
            (Index(MAX_UINT64, 0, map[0 := h]), [counted, counted])
  {
    var ix, zero := Index(1, 0, map[0 := h]), Index(0, 0, map[0 := h]);
    var writing, testing := Sweep(0, Writing), Sweep(0, Testing);
    var loading, fetching := Sweep(0, Loading), Sweep(0, Fetching);
    PlayNone(Index(MAX_UINT64, 0, map[0 := h]), [Some(fetching), Some(fetching)]);
    hide Play;
    PlayNext(Index(1, 1, map[0 := h]), writing, writing, [0, 1, 0, 1, 0, 0, 1, 1]);
    PlayNext(ix, testing, writing, [1, 0, 1, 0, 0, 1, 1]);
    PlayNext(ix, testing, testing, [0, 1, 0, 0, 1, 1]);
    PlayNext(ix, loading, testing, [1, 0, 0, 1, 1]);
    PlayNext(ix, loading, loading, [0, 0, 1, 1]);
    PlayNext(ix, Sweep(0, Storing(1)), loading, [0, 1, 1]);
    PlayNext(zero, fetching, loading, [1, 1]);
    PlayNext(zero, fetching, Sweep(0, Storing(0)), [1]);
  }

  lemma PlayNone(ix: Index, sweeps: seq<Option<Sweep>>)
    ensures Play(ix, sweeps, []) == (ix, sweeps)
  {
  }

  lemma PlayNext(ix: Index, x: Sweep, y: Sweep, who: seq<nat>)
    requires who != [] && who[0] < 2
    ensures var (ix', next) := Step(ix, if who[0] == 0 then x else y);
            Play(ix, [Some(x), Some(y)], who) == Play(ix', if who[0] == 0 then [next, Some(y)]
                                                           else [Some(x), next], who[1..])
  {
    var i := who[0];
    var next := Step(ix, if i == 0 then x else y).1;
    assert [Some(x), Some(y)][i := next] == if i == 0 then [next, Some(y)] else [Some(x), next];
  }

  class ChainIndexer {
    const sectionSize: nat
    const confirmsReq: nat
    var storedSections: nat
    var knownSections: nat
    var cascadedHead: nat
    var sectionHeads: map<nat, Hash>
    var validSections: nat  // the count kept in the index database
    var phase: Phase
    var cut: Option<Sweep>  // the sweep of a reorg notification, which holds the lock
    ghost var sections: seq<seq<Header>>  // the headers behind the recorded heads
    ghost var segment: seq<Header>        // the headers of the section just processed

    function Current(): Index
      reads this`storedSections, this`validSections, this`sectionHeads
    {
      Index(storedSections, validSections, sectionHeads)
    }

    function State(): Status
      reads this
    {
      Status(Current(), knownSections, cascadedHead, phase, cut)
    }

    ghost predicate Valid()
      reads this
    {
      && sectionSize > 0 && Sectioned(sections, sectionSize)
      && Swept(Current(), sections, ClearOf(phase), cut)
      && First(knownSections, sectionSize) <= MAX_UINT64
      && (phase.Idle? || InFlight(sections, sectionSize, phase.section, phase.oldHead))
      && (phase.Processed? && phase.outcome.Ok? ==>
            Crunched(segment, sectionSize, phase.section, phase.oldHead, phase.outcome.value))
    }

    /** No sweep is under way. */
    predicate Quiet()
      reads this`phase, this`cut
    {
      !phase.Clearing? && cut.None?
    }

    constructor (sectionSize: nat, confirmsReq: nat)
      requires sectionSize > 0
      ensures Valid() && Quiet() && storedSections == 0 && knownSections == 0 && cascadedHead == 0
      ensures this.sectionSize == sectionSize && this.confirmsReq == confirmsReq && phase.Idle?
    {
      this.sectionSize, this.confirmsReq := sectionSize, confirmsReq;
      storedSections, knownSections, cascadedHead, validSections := 0, 0, 0, 0;
      sectionHeads, phase, cut, sections, segment := map[], Idle, None, [], [];
    }

    /** Reads a section's head; a section without one reads as no hash. */
    function SectionHead(section: nat): Hash
      reads this
    {
      if section in sectionHeads then sectionHeads[section] else NO_HASH
    }

    /** The cut as one stretch, for when nothing else is under way. */
    method SetValidSections(count: nat)
      modifies this`validSections, this`storedSections, this`sectionHeads
      ensures validSections == storedSections == count
      ensures sectionHeads == Without(old(sectionHeads), count, old(storedSections))
    {
      validSections := count;
      while storedSections > count
        invariant validSections == count && storedSections <= old(storedSections)
        invariant count < old(storedSections) ==> count <= storedSections
        invariant count >= old(storedSections) ==> storedSections == old(storedSections)
        invariant sectionHeads == Without(old(sectionHeads), storedSections, old(storedSections))
      {
        storedSections := storedSections - 1;
        sectionHeads := sectionHeads - {storedSections};
      }
      storedSections := count;
    }

    /** Lowers the cascaded head to the start of section `count`. */
    method Uncascade(count: nat)
      modifies this`cascadedHead
      ensures cascadedHead == Lesser(First(count, sectionSize), old(cascadedHead))
    {
      var finalHead := First(count, sectionSize);
      if finalHead < cascadedHead { cascadedHead := finalHead; }
    }

    /**
     A new head, or a reorg back to `head`. It waits while another notification holds the lock. A
     reorg below the stored sections begins a cut; the result says whether the cut harmfully
     overlaps a clear.
     */
    method NewHead(head: Number, reorg: bool) returns (harmful: bool)
      requires Valid()
      modifies this`knownSections, this`cascadedHead, this`cut
      ensures !harmful ==> Valid()
      ensures old(cut).Some? ==> !harmful && unchanged(this)
      ensures Takes(sectionSize, confirmsReq, Notify(head, reorg), old(State()), State())
      ensures harmful <==> old(cut).None? && Harmful(Current(), ClearOf(phase), cut)
      ensures harmful ==> CanBreak(Current(), phase.sweep, cut.value)
    {
      hide Sectioned, Linked, First, InFlight, Crunched, CanBreak;
      harmful := false;
      if cut.Some? { return; }
      if reorg {
        var changed := head / sectionSize;
        FirstBound(head, sectionSize);
        if changed < knownSections { knownSections := changed; }
        if changed < storedSections {
          cut := Some(Sweep(changed, Writing));
          harmful := Harmful(Current(), ClearOf(phase), cut);
          if harmful { OverlapBreaks(Current(), sections, phase.sweep, cut.value); }
        } else {
          Uncascade(changed);
        }
        return;
      }
      if head >= confirmsReq {
        var count := (head + 1 - confirmsReq) / sectionSize;
        FirstBound(head + 1 - confirmsReq, sectionSize);
        forall k: nat ensures Confirmed(sectionSize, confirmsReq, head, k) <==> k <= count {
          WithinCount(k, head + 1 - confirmsReq, sectionSize);
        }
        if count > knownSections { knownSections := count; }
      }
    }

    /** One step of a reorg's cut; the last one lowers the cascaded head and releases the lock. */
    method StepCut()
      requires Valid()
      modifies this
      ensures Valid() && phase == old(phase) && knownSections == old(knownSections)
      ensures old(cut).None? ==> unchanged(this)
      ensures old(cut).Some? ==>
        && (Current(), cut) == Step(old(Current()), old(cut).value)
        && sections == Left(old(sections), cut, ClearOf(phase), old(cut).value.count)
      ensures Takes(sectionSize, confirmsReq, CutStep, old(State()), State())
    {
      hide Sectioned, Linked, First, Crunched, Step;
      if cut.None? { return; }
      var count := cut.value.count;
      SweptStep(Current(), sections, ClearOf(phase), cut);
      var (ix, next) := Step(Current(), cut.value);
      storedSections, validSections, sectionHeads, cut := ix.stored, ix.valid, ix.heads, next;
      Shorten(Left(sections, next, ClearOf(phase), count));
      if next.None? { Uncascade(count); }
    }

    /** Forgets the headers behind dropped sections. */
    ghost method Shorten(left: seq<seq<Header>>)
      requires Sectioned(sections, sectionSize) && left <= sections
      requires phase.Idle? || InFlight(sections, sectionSize, phase.section, phase.oldHead)
      modifies this`sections
      ensures sections == left && Sectioned(sections, sectionSize)
      ensures phase.Idle? || InFlight(sections, sectionSize, phase.section, phase.oldHead)
    {
      hide Linked, First;
      SectionsPrefix(sections, sectionSize, |left|);
      assert left == sections[..|left|];
      sections := left;
    }

    /** Takes up the next section, remembering the head below it before the lock is dropped. */
    method BeginSection()
      requires Valid()
      modifies this`phase
      ensures Valid()
      ensures Takes(sectionSize, confirmsReq, Begin, old(State()), State())
    {
      hide Sectioned, Linked, First, LastHash;
      if phase.Idle? && cut.None? && knownSections > storedSections {
        var section := storedSections;
        var oldHead := NO_HASH;
        if section > 0 {
          oldHead := SectionHead(section - 1);
          HashBeforeIsSome(sections, sectionSize, section);
        }
        FirstGrows(section + 1, knownSections, sectionSize);
        phase := Working(section, oldHead);
      }
    }

    /**
     Reads the headers of a section while the database may change under it. On success the
     headers read form a chain on top of `lastHead`, and the new head is the last of them; it
     fails exactly when some header read is missing or does not continue, or the commit fails.
     */
    method CrunchSection(section: nat, lastHead: Hash, db: nat -> Database, commitOk: bool)
      returns (r: Result<Hash, Failure>, ghost read: seq<Header>)
      ensures r.Ok? ==> Crunched(read, sectionSize, section, lastHead, r.value)
      ensures ReadsTo(db, lastHead, section, sectionSize, commitOk, r)
    {
      hide Linked, First;
      var last := lastHead;
      read := [];
      FirstGrows(section, section, sectionSize);
      ghost var first := First(section, sectionSize);
      assert Linked([], lastHead, first) by { NoneLinked(lastHead, first); }
      var number := First(section, sectionSize);
      while number < First(section + 1, sectionSize)
        invariant first <= number <= first + sectionSize
        invariant |read| == number - first && Linked(read, lastHead, first) && last == LastHash(read, lastHead)
        invariant number > first ==> ReadAt(db, number - 1).Some? && last == ReadAt(db, number - 1).value.hash
        invariant forall n :: first <= n < number ==> Offered(db, lastHead, first, n)
      {
        assert Offered(db, lastHead, first, number) <==>
          ReadAt(db, number).Some? && ReadAt(db, number).value.parent == last;
        var hash := ReadCanonical(db(2 * number).canonical, number);
        if hash == NO_HASH {
          Stopped(db, lastHead, section, sectionSize, commitOk, number, CanonicalUnknown);
          return Err(CanonicalUnknown), read;
        }
        var header := GetHeader(db(2 * number + 1).headers, hash, number);
        if header.None? {
          Stopped(db, lastHead, section, sectionSize, commitOk, number, HeaderMissing);
          return Err(HeaderMissing), read;
        }
        if header.value.parent != last {
          Stopped(db, lastHead, section, sectionSize, commitOk, number, ChainReorged);
          return Err(ChainReorged), read;
        }
        OneLinked(header.value, last, number);
        LinkedJoins(read, [header.value], lastHead, first);
        last := header.value.hash;
        read := read + [header.value];
        number := number + 1;
      }
      if !commitOk { return Err(CommitFailed), read; }
      r := Ok(last);
    }

    /**
     The unlocked part: a backend that fails to reset begins to clear the index; the result says
     whether the clear harmfully overlaps a cut.
     */
    method ProcessSection(db: nat -> Database, resetOk: bool, commitOk: bool) returns (harmful: bool)
      requires Valid()
      modifies this`phase, this`segment
      ensures !harmful ==> Valid()
      ensures !old(phase).Working? ==> !harmful && unchanged(this)
      ensures Takes(sectionSize, confirmsReq, Process(db, resetOk, commitOk), old(State()), State())
      ensures harmful <==> old(phase).Working? && Harmful(Current(), ClearOf(phase), cut)
      ensures harmful ==> CanBreak(Current(), phase.sweep, cut.value)
    {
      hide Sectioned, RecordedTo, First, InFlight, Crunched, ReadsTo, CanBreak;
      harmful := false;
      if phase.Working? {
        var section, oldHead := phase.section, phase.oldHead;
        if resetOk {
          var outcome, read := CrunchSection(section, oldHead, db, commitOk);
          phase := Processed(section, oldHead, outcome);
          segment := read;
        } else {
          phase := Clearing(section, oldHead, Sweep(0, Writing));
          harmful := Harmful(Current(), ClearOf(phase), cut);
          if harmful { OverlapBreaks(Current(), sections, phase.sweep, cut.value); }
        }
      }
    }

    /** One step of the clear after a failed reset; after the last one the section has failed. */
    method StepClear()
      requires Valid()
      modifies this
      ensures Valid() && cut == old(cut) && knownSections == old(knownSections) && cascadedHead == old(cascadedHead)
      ensures !old(phase).Clearing? ==> unchanged(this)
      ensures old(phase).Clearing? ==>
        && (Current(), ClearOf(phase)) == Step(old(Current()), old(phase).sweep)
        && (phase.Clearing? || phase == Processed(old(phase).section, old(phase).oldHead, Err(ResetFailed)))
        && sections == Left(old(sections), ClearOf(phase), cut, 0)
      ensures Takes(sectionSize, confirmsReq, ClearStep, old(State()), State())
    {
      hide Sectioned, Linked, First, Crunched, Step;
      if !phase.Clearing? { return; }
      SweptStep(Current(), sections, ClearOf(phase), cut);
      var (ix, next) := Step(Current(), phase.sweep);
      storedSections, validSections, sectionHeads := ix.stored, ix.valid, ix.heads;
      phase := if next.Some? then Clearing(phase.section, phase.oldHead, next.value)
               else Processed(phase.section, phase.oldHead, Err(ResetFailed));
      Shorten(Left(sections, next, cut, 0));
    }

    /** The head below a section in flight reads the same as before exactly when no section was dropped meanwhile. */
    lemma StillCurrent(section: nat, oldHead: Hash)
      requires Valid() && Quiet() && InFlight(sections, sectionSize, section, oldHead)
      ensures oldHead == SectionHead(Pred(section)) <==> storedSections == section
    {
      hide Sectioned, Linked, First, LastHash, Crunched;
    }

    /** Records a processed section that still continues the stored ones. */
    method Accept(section: nat, newHead: Hash)
      requires Valid() && phase.Idle? && cut.None? && section == storedSections
      requires First(section + 1, sectionSize) <= MAX_UINT64
      requires Crunched(segment, sectionSize, section, HashBefore(sections, section), newHead)
      modifies this
      ensures Valid() && phase.Idle? && cut.None? && sections == old(sections) + [segment] && segment == old(segment)
      ensures Current() == Index(section + 1, section + 1, old(sectionHeads)[section := newHead])
      ensures knownSections == old(knownSections)
      ensures cascadedHead == First(section + 1, sectionSize) - 1
    {
      hide Sectioned, RecordedTo, Recorded, Linked, First;
      RecordedWhole(sectionHeads, sections);
      SectionsGrow(sectionHeads, sections, sectionSize, segment);
      sectionHeads := sectionHeads[section := newHead];
      assert Without(sectionHeads, section + 1, storedSections) == sectionHeads;
      SetValidSections(section + 1);
      sections := sections + [segment];
      RecordedWhole(sectionHeads, sections);
      FirstGrows(1, storedSections, sectionSize);
      cascadedHead := First(storedSections, sectionSize) - 1;
    }

    /**
     Finishes a section under the lock. The section is accepted exactly when processing succeeded
     and the stored count is still the section's own number.
     */
    method FinishSection() returns (accepted: bool)
      requires Valid()
      modifies this
      ensures Valid() && cut == old(cut)
      ensures accepted <==>
        && old(cut).None? && old(phase).Processed? && old(phase).outcome.Ok?
        && old(storedSections) == old(phase).section
      ensures sections == if accepted then old(sections) + [old(segment)] else old(sections)
      ensures !(old(phase).Processed? && old(cut).None?) ==> unchanged(this)
      ensures Takes(sectionSize, confirmsReq, Finish, old(State()), State())
    {
      hide Sectioned, RecordedTo, First, HashBefore, Crunched, Joined;
      accepted := false;
      if phase.Processed? && cut.None? {
        var section, oldHead, outcome := phase.section, phase.oldHead, phase.outcome;
        StillCurrent(section, oldHead);
        phase := Idle;
        if outcome.Ok? && oldHead == SectionHead(Pred(section)) {
          Accept(section, outcome.value);
          accepted := true;
        } else {
          FirstGrows(storedSections, section + 1, sectionSize);
          knownSections := storedSections;
        }
      }
    }

    /** A new process on the same index database, after the old one has shut down between two sections. */
    method Reopen()
      requires Valid()
      modifies this
      ensures Valid() && sections == old(sections)
      ensures !(old(phase).Idle? && old(cut).None?) ==> unchanged(this)
      ensures Takes(sectionSize, confirmsReq, Restart, old(State()), State())
    {
      hide Sectioned, RecordedTo, First;
      FirstGrows(0, 0, sectionSize);
      if phase.Idle? && cut.None? { storedSections, knownSections, cascadedHead := validSections, 0, 0; }
    }

    method Apply(e: Event) returns (harmful: bool)
      requires Valid()
      modifies this
      ensures !harmful ==> Valid()
      ensures Takes(sectionSize, confirmsReq, e, old(State()), State())
      ensures harmful ==>
        phase.Clearing? && cut.Some? && Harmful(Current(), ClearOf(phase), cut) &&
        CanBreak(Current(), phase.sweep, cut.value)
    {
      hide ChainIndexer.Valid, CanBreak, Takes, Step;
      harmful := false;
      match e {
        case Notify(head, reorg) => harmful := NewHead(head, reorg);
        case CutStep => StepCut();
        case Begin => BeginSection();
        case Process(db, resetOk, commitOk) => harmful := ProcessSection(db, resetOk, commitOk);
        case ClearStep => StepClear();
        case Finish => var accepted := FinishSection();
        case Restart => Reopen();
      }
    }

    /**
     Any interleaving of steps, up to a harmful overlap of a clear and a cut. Without one, whenever
     no sweep is under way heads are recorded exactly for the stored sections, and they are the
     spaced points of one parent-linked chain from genesis. After one, some way to go on breaks that.
     */
    method Run(events: seq<Event>) returns (harmful: bool, ghost trace: seq<Status>)
      requires Valid()
      modifies this
      ensures Follow(sectionSize, confirmsReq, events, trace) && (!harmful ==> |trace| == |events| + 1)
      ensures trace[0] == old(State()) && trace[|trace| - 1] == State()
      ensures !harmful ==> Valid()
      ensures !harmful && Quiet() ==>
        && (forall k :: k in sectionHeads <==> 0 <= k < storedSections) && validSections == storedSections
        && |Joined(sections)| == First(storedSections, sectionSize)
        && SpacedPoints(sectionHeads, Joined(sections), sectionSize)
      ensures harmful ==> phase.Clearing? && cut.Some? && CanBreak(Current(), phase.sweep, cut.value)
    {
      hide Sectioned, First, Linked, Joined, InFlight, Crunched, SpacedPoints, CanBreak, Takes, Follow;
      harmful, trace := false, [State()];
      FollowsNothing(sectionSize, confirmsReq, events, State());
      for i := 0 to |events|
        invariant !harmful && Valid() && |trace| == i + 1 && Follow(sectionSize, confirmsReq, events, trace)
        invariant trace[0] == old(State()) && trace[i] == State()
      {
        harmful := Apply(events[i]);
        FollowsNext(sectionSize, confirmsReq, events, trace, State());
        trace := trace + [State()];
        if harmful { return; }
      }
      if Quiet() {
        RecordedWhole(sectionHeads, sections);
        HeadsOfOneChain(sectionHeads, sections, sectionSize);
      }
    }
  }

  /** The clear that is under way, if any. */
  function ClearOf(phase: Phase): Option<Sweep> {
    if phase.Clearing? then Some(phase.sweep) else None
  }

  function Lesser(a: nat, b: nat): nat {
    if a < b then a else b
  }

  lemma RecordedWhole(heads: map<nat, Hash>, sections: seq<seq<Header>>)
    ensures Recorded(heads, sections) <==> RecordedTo(heads, sections, |sections|)
  {
  }

  lemma SectionsPrefix(sections: seq<seq<Header>>, size: nat, n: nat)
    requires Sectioned(sections, size) && n <= |sections|
    ensures Sectioned(sections[..n], size) && HashBefore(sections[..n], n) == HashBefore(sections, n)
  {
    hide Linked, First;
    forall j: nat | j < n
      ensures Follows(sections[..n], size, j)
    {
      assert Follows(sections, size, j);
    }
  }

  /** A cut left alone does what setting the count in one stretch does. */
  lemma SweepAlone(ix: Index, count: nat)
    requires count <= ix.stored
    ensures Finished(ix, Sweep(count, Writing)) == Index(count, count, Without(ix.heads, count, ix.stored))
  {
    FinishedHeads(ix.(valid := count), count);
  }

  lemma NoneLinked(prev: Hash, first: nat)
    ensures Linked([], prev, first)
  {
  }

  lemma OneLinked(h: Header, prev: Hash, first: nat)
    requires h.parent == prev && h.number == first && h.hash != NO_HASH
    ensures Linked([h], prev, first)
  {
  }
}
