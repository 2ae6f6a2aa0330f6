/** The pool of entity indices: a high-water mark of fresh indices, a lease of free slots consumed
    from its end by a decrementing cursor, the allocator's own free list, and the queue of abandoned
    reservations.

    Every operation is a function on `Pool`. The classes of `EntityAllocator` change these cells in
    place; the interleaved protocol of `EntityProtocol` takes them apart into atomic steps.
  */
module EntityPool {
  import opened Basics
  const MAX: nat := 0xFFFF_FFFF

  datatype Entity = Entity(index: nat, generation: nat)

  const PLACEHOLDER: Entity := Entity(MAX, MAX)

  // ---- Records and packed locations -----------------------------------------------------------------

  datatype Location = Location(archetype: nat, row: nat)

  datatype Record = Record(generation: nat, encoded: nat)

  const NO_LOCATION: nat := 0xFFFF_FFFF_FFFF_FFFF
  const VACANT: Record := Record(0, NO_LOCATION)

  function Pack(loc: Location): nat {
    loc.row + loc.archetype * 0x1_0000_0000
  }

  function Unpack(encoded: nat): Option<Location> {
    if encoded == NO_LOCATION then None else Some(Location(encoded / 0x1_0000_0000, encoded % 0x1_0000_0000))
  }

  /** A location survives packing exactly when it is not the one whose code means "nowhere". */
  lemma PackRoundTripsExactly(loc: Location)
    requires loc.archetype <= MAX && loc.row <= MAX
    ensures Unpack(Pack(loc)) == Some(loc) <==> loc != Location(MAX, MAX)
  {
  }

  predicate Located(r: Record) {
    r.encoded != NO_LOCATION
  }

  function LocatedCount(records: seq<Record>): nat {
    if records == [] then 0
    else LocatedCount(records[..|records| - 1]) + if Located(records[|records| - 1]) then 1 else 0
  }

  lemma {:induction false} LocatedCountUpdate(records: seq<Record>, i: nat, r: Record)
    requires i < |records|
    ensures LocatedCount(records[i := r]) ==
            LocatedCount(records) - (if Located(records[i]) then 1 else 0) + (if Located(r) then 1 else 0)
  {
    var n := |records| - 1;
    if i < n {
      LocatedCountUpdate(records[..n], i, r);
      assert records[i := r][..n] == records[..n][i := r];
    } else {
      assert records[i := r][..n] == records[..n];
    }
  }

  // ---- The pool ---------------------------------------------------------------------------------------

  datatype Lease = Lease(cursor: int, slots: seq<Entity>)

  datatype Pool = Pool(
    highWater: nat,
    lease: Lease,
    records: seq<Record>,
    freeList: seq<nat>,
    abandoned: seq<nat>,
    pending: bool,
    live: nat)

  const EMPTY_POOL: Pool := Pool(0, Lease(0, []), [], [], [], false, 0)

  function Max0(c: int): nat {
    if c > 0 then c else 0
  }

  // Records not yet materialised have generation zero.
  function GenerationOf(records: seq<Record>, index: nat): nat {
    if index < |records| then records[index].generation else 0
  }

  function Grown(records: seq<Record>, n: nat): (r: seq<Record>)
    ensures |r| == if n > |records| then n else |records|
    ensures forall i :: GenerationOf(r, i) == GenerationOf(records, i)
  {
    if n > |records| then records + seq(n - |records|, _ => VACANT) else records
  }

  lemma {:induction false} LocatedCountGrown(records: seq<Record>, n: nat)
    ensures LocatedCount(Grown(records, n)) == LocatedCount(records)
    decreases n
  {
    if n > |records| {
      LocatedCountGrown(records, n - 1);
      assert Grown(records, n)[..n - 1] == Grown(records, n - 1);
    }
  }

  /** What the shared cells must look like between operations. */
  ghost predicate PoolValid(p: Pool) {
    && p.lease.cursor <= |p.lease.slots|
    && |p.records| <= p.highWater
    && (forall i :: 0 <= i < |p.lease.slots| ==> p.lease.slots[i].index < |p.records|)
    && (forall i :: 0 <= i < |p.freeList| ==> p.freeList[i] < |p.records|)
    && (forall i :: 0 <= i < |p.abandoned| ==> p.abandoned[i] < p.highWater)
    && (p.pending <==> p.abandoned != [])
  }

  function Unconsumed(l: Lease): seq<Entity>
    requires l.cursor <= |l.slots|
  {
    l.slots[..Max0(l.cursor)]
  }

  // One `fetch_sub(n)` on the cursor: the slots it wins, taken downwards.
  function Won(l: Lease, n: nat): seq<Entity>
    requires l.cursor <= |l.slots|
  {
    seq(Min(Max0(l.cursor), n), k requires 0 <= k < Min(Max0(l.cursor), n) => l.slots[l.cursor - 1 - k])
  }

  // One `fetch_add(n)` on the high-water mark.
  function FreshIds(start: nat, n: nat): seq<Entity> {
    seq(n, j requires 0 <= j < n => Entity(start + j, 0))
  }

  // The k-th id that reservations take from the pool, counting from now.
  function NthReserved(p: Pool, k: nat): Entity
    requires p.lease.cursor <= |p.lease.slots|
  {
    var left := Max0(p.lease.cursor);
    if k < left then p.lease.slots[left - 1 - k] else Entity(p.highWater + (k - left), 0)
  }

  /** `n` reservations in one batch: one subtraction on the cursor, one addition on the mark. */
  function Reserve(p: Pool, n: nat): (Pool, seq<Entity>)
    requires p.lease.cursor <= |p.lease.slots|
  {
    (p.(lease := p.lease.(cursor := p.lease.cursor - n),
        highWater := p.highWater + n - Min(Max0(p.lease.cursor), n)),
     seq(n, k requires 0 <= k < n => NthReserved(p, k)))
  }

  // The two atomic operations of a batch win its ids between them.
  lemma ReserveIsWonThenFresh(p: Pool, n: nat)
    requires p.lease.cursor <= |p.lease.slots|
    ensures Reserve(p, n).1 == Won(p.lease, n) + FreshIds(p.highWater, n - |Won(p.lease, n)|)
  {
  }

  function Popped(p: Pool): (Pool, Entity)
    requires p.freeList != [] && p.freeList[|p.freeList| - 1] < |p.records|
  {
    var index := p.freeList[|p.freeList| - 1];
    (p.(freeList := p.freeList[..|p.freeList| - 1]), Entity(index, p.records[index].generation))
  }

  /** A direct allocation: a freed index first, else a lease slot, else a fresh index. An exhausted
      cursor is left alone. */
  function Allocate(p: Pool): (r: (Pool, Entity))
    requires PoolValid(p)
    ensures PoolValid(r.0)
  {
    if p.freeList != [] then Popped(p)
    else if p.lease.cursor > 0 then
      (p.(lease := p.lease.(cursor := p.lease.cursor - 1)), p.lease.slots[p.lease.cursor - 1])
    else
      (p.(highWater := p.highWater + 1, records := Grown(p.records, p.highWater + 1)), Entity(p.highWater, 0))
  }

  function PopAll(p: Pool, n: nat): (Pool, seq<Entity>)
    requires PoolValid(p) && n <= |p.freeList|
  {
    (p.(freeList := p.freeList[..|p.freeList| - n]),
     seq(n, k requires 0 <= k < n =>
       var index := p.freeList[|p.freeList| - 1 - k]; Entity(index, p.records[index].generation)))
  }

  function ReserveGrown(p: Pool, n: nat): (Pool, seq<Entity>)
    requires PoolValid(p)
  {
    var (q, ids) := Reserve(p, n);
    (if q.highWater > p.highWater then q.(records := Grown(q.records, q.highWater)) else q, ids)
  }

  function AllocateBatch(p: Pool, n: nat): (Pool, seq<Entity>)
    requires PoolValid(p)
  {
    var fromFree := Min(n, |p.freeList|);
    var (q, popped) := PopAll(p, fromFree);
    if fromFree == n then (q, popped)
    else var (r, rest) := ReserveGrown(q, n - fromFree); (r, popped + rest)
  }

  /** Frees an entity; the flag tells whether the handle was current. A slot whose generation has
      run out is retired instead of listed. */
  function Free(p: Pool, e: Entity): (Pool, bool) {
    if e.index >= |p.records| || p.records[e.index].generation != e.generation then (p, false)
    else
      var r := p.records[e.index];
      var generation := if r.generation == MAX then 0 else r.generation + 1;
      (p.(records := p.records[e.index := Record(generation, NO_LOCATION)],
          live := if Located(r) && p.live > 0 then p.live - 1 else p.live,
          freeList := if generation != MAX then p.freeList + [e.index] else p.freeList),
       true)
  }

  function SetLocation(p: Pool, e: Entity, loc: Location): Pool {
    if e.index >= |p.records| || p.records[e.index].generation != e.generation then p
    else
      var r := p.records[e.index];
      p.(records := p.records[e.index := r.(encoded := Pack(loc))],
         live := if Located(r) then p.live else p.live + 1)
  }

  predicate IsAlive(p: Pool, e: Entity) {
    e.index < |p.records| && p.records[e.index].generation == e.generation && Located(p.records[e.index])
  }

  function Indices(es: seq<Entity>): seq<nat> {
    seq(|es|, i requires 0 <= i < |es| => es[i].index)
  }

  predicate Abandonable(e: Entity) {
    e != PLACEHOLDER
  }

  function AbandonedIndices(es: seq<Entity>): seq<nat> {
    if es == [] then []
    else AbandonedIndices(es[..|es| - 1]) + if Abandonable(es[|es| - 1]) then [es[|es| - 1].index] else []
  }

  function Abandon(p: Pool, es: seq<Entity>): Pool {
    var queued := AbandonedIndices(es);
    p.(abandoned := p.abandoned + queued, pending := p.pending || queued != [])
  }

  function ReclaimTail(p: Pool, unused: seq<Entity>): Pool {
    p.(freeList := p.freeList + Indices(unused))
  }

  // ---- Flush --------------------------------------------------------------------------------------------

  function Materialized(p: Pool): Pool {
    p.(records := Grown(p.records, p.highWater))
  }

  function Drained(p: Pool): Pool {
    if p.pending then p.(freeList := p.freeList + p.abandoned, abandoned := [], pending := false) else p
  }

  function SlotsOf(records: seq<Record>, indices: seq<nat>): seq<Entity>
    requires forall i :: 0 <= i < |indices| ==> indices[i] < |records|
  {
    seq(|indices|, i requires 0 <= i < |indices| => Entity(indices[i], records[indices[i]].generation))
  }

  // Returns the slots nobody consumed and leases everything free anew.
  function Released(p: Pool): Pool
    requires PoolValid(p)
  {
    var free := p.freeList + Indices(Unconsumed(p.lease));
    p.(freeList := [], lease := Lease(|free|, SlotsOf(p.records, free)))
  }

  predicate NothingToReconcile(p: Pool) {
    p.freeList == [] && Max0(p.lease.cursor) == |p.lease.slots|
  }

  lemma PreparedIsValid(p: Pool)
    requires PoolValid(p)
    ensures PoolValid(Drained(Materialized(p)))
  {
  }

  function Flush(p: Pool): Pool
    requires PoolValid(p)
  {
    PreparedIsValid(p);
    var q := Drained(Materialized(p));
    if NothingToReconcile(q) then q else Released(q)
  }

  // ---- Fast forms are the simple ones -------------------------------------------------------------------

  lemma NthShifts(p: Pool, m: nat, k: nat)
    requires p.lease.cursor <= |p.lease.slots|
    ensures NthReserved(Reserve(p, m).0, k) == NthReserved(p, m + k)
  {
  }

  /** A batch of `m + n` reservations is a batch of `m` and then one of `n`: same ids in the same order,
      same cells. So any batch is that many single reservations. */
  lemma ReserveSplits(p: Pool, m: nat, n: nat)
    requires p.lease.cursor <= |p.lease.slots|
    ensures var (p1, first) := Reserve(p, m); var (p2, second) := Reserve(p1, n);
            Reserve(p, m + n) == (p2, first + second)
  {
    var (p1, first) := Reserve(p, m);
    var (p2, second) := Reserve(p1, n);
    var (q, all) := Reserve(p, m + n);
    forall k | 0 <= k < m + n ensures all[k] == (first + second)[k] {
      if k >= m {
        NthShifts(p, m, k - m);
      }
    }
    assert all == first + second;
    assert q == p2;
  }

  function ReserveOneByOne(p: Pool, n: nat): (Pool, seq<Entity>)
    requires p.lease.cursor <= |p.lease.slots|
    decreases n
  {
    if n == 0 then (p, [])
    else
      var (p1, first) := Reserve(p, 1);
      var (p2, rest) := ReserveOneByOne(p1, n - 1);
      (p2, first + rest)
  }

  lemma {:induction false} ReserveIsRepeated(p: Pool, n: nat)
    requires p.lease.cursor <= |p.lease.slots|
    ensures Reserve(p, n) == ReserveOneByOne(p, n)
    decreases n
  {
    if n > 0 {
      ReserveSplits(p, 1, n - 1);
      ReserveIsRepeated(Reserve(p, 1).0, n - 1);
    } else {
      assert Reserve(p, 0).1 == [];
    }
  }

  // The cells as anyone can observe them: an exhausted cursor is an exhausted cursor.
  function Observable(p: Pool): Pool {
    p.(lease := p.lease.(cursor := Max0(p.lease.cursor)))
  }

  function AllocateOneByOne(p: Pool, n: nat): (Pool, seq<Entity>)
    requires PoolValid(p)
    decreases n
  {
    if n == 0 then (p, [])
    else
      var (p1, e) := Allocate(p);
      var (p2, rest) := AllocateOneByOne(p1, n - 1);
      (p2, [e] + rest)
  }

  lemma PopNone(p: Pool)
    requires PoolValid(p)
    ensures PopAll(p, 0) == (p, [])
  {
    assert p.freeList[..|p.freeList|] == p.freeList;
    assert PopAll(p, 0).1 == [];
  }

  lemma PopSplits(p: Pool, n: nat)
    requires PoolValid(p) && 0 < n <= |p.freeList|
    ensures var (p1, e) := Popped(p);
            PopAll(p, n).0 == PopAll(p1, n - 1).0 && PopAll(p, n).1 == [e] + PopAll(p1, n - 1).1
  {
    var (p1, e) := Popped(p);
    var all, rest := PopAll(p, n).1, PopAll(p1, n - 1).1;
    assert p.freeList[..|p.freeList| - n] == p1.freeList[..|p1.freeList| - (n - 1)];
    forall k | 0 <= k < n ensures all[k] == ([e] + rest)[k] {
      if k > 0 {
        assert p.freeList[|p.freeList| - 1 - k] == p1.freeList[|p1.freeList| - 1 - (k - 1)];
      }
    }
    assert all == [e] + rest;
  }

  // What a batch does is independent of how far below zero an exhausted cursor has gone.
  lemma ReserveGrownIgnoresExhaustion(p: Pool, q: Pool, n: nat)
    requires PoolValid(p) && PoolValid(q) && Observable(p) == Observable(q)
    ensures Observable(ReserveGrown(p, n).0) == Observable(ReserveGrown(q, n).0)
    ensures ReserveGrown(p, n).1 == ReserveGrown(q, n).1
  {
    assert p.records == q.records && p.highWater == q.highWater && p.lease.slots == q.lease.slots;
    assert Max0(p.lease.cursor) == Max0(q.lease.cursor);
    assert Reserve(p, n).1 == Reserve(q, n).1;
  }

  lemma ReserveGrownSplits(p: Pool, n: nat)
    requires PoolValid(p) && n > 0 && PoolValid(ReserveGrown(p, 1).0)
    ensures var (p1, first) := ReserveGrown(p, 1);
            ReserveGrown(p, n).0 == ReserveGrown(p1, n - 1).0
            && ReserveGrown(p, n).1 == first + ReserveGrown(p1, n - 1).1
  {
    ReserveSplits(p, 1, n - 1);
    var r, p1 := Reserve(p, 1).0, ReserveGrown(p, 1).0;
    assert Reserve(r, n - 1).1 == Reserve(p1, n - 1).1;
    GrownTwice(p.records, p1.highWater, Reserve(p, n).0.highWater);
  }

  lemma AllocateIsReserveGrown(p: Pool)
    requires PoolValid(p) && p.freeList == []
    ensures PoolValid(ReserveGrown(p, 1).0)
    ensures Observable(ReserveGrown(p, 1).0) == Observable(Allocate(p).0)
    ensures ReserveGrown(p, 1).1 == [Allocate(p).1]
  {
  }

  lemma BatchReservesFirst(p: Pool, n: nat)
    requires PoolValid(p) && n > 0 && p.freeList == []
    ensures var (p1, e) := Allocate(p);
            Observable(ReserveGrown(p, n).0) == Observable(ReserveGrown(p1, n - 1).0)
            && ReserveGrown(p, n).1 == [e] + ReserveGrown(p1, n - 1).1
  {
    AllocateIsReserveGrown(p);
    ReserveGrownSplits(p, n);
    ReserveGrownIgnoresExhaustion(ReserveGrown(p, 1).0, Allocate(p).0, n - 1);
  }

  lemma BatchWithoutFree(p: Pool, n: nat)
    requires PoolValid(p) && p.freeList == []
    ensures AllocateBatch(p, n).1 == ReserveGrown(p, n).1
    ensures Observable(AllocateBatch(p, n).0) == Observable(ReserveGrown(p, n).0)
  {
    PopNone(p);
    assert [] + ReserveGrown(p, n).1 == ReserveGrown(p, n).1;
  }

  lemma BatchPopsFirst(p: Pool, n: nat)
    requires PoolValid(p) && n > 0 && p.freeList != []
    ensures var (p1, e) := Allocate(p);
            AllocateBatch(p, n).0 == AllocateBatch(p1, n - 1).0
            && AllocateBatch(p, n).1 == [e] + AllocateBatch(p1, n - 1).1
  {
    var fromFree := Min(n, |p.freeList|);
    PopSplits(p, fromFree);
    var (p1, e) := Popped(p);
    assert Min(n - 1, |p1.freeList|) == fromFree - 1;
    if fromFree < n {
      ConcatAssociates([e], PopAll(p1, fromFree - 1).1, ReserveGrown(PopAll(p, fromFree).0, n - fromFree).1);
    }
  }

  lemma BatchStepsOnce(p: Pool, n: nat)
    requires PoolValid(p) && n > 0
    ensures var (p1, e) := Allocate(p);
            Observable(AllocateBatch(p, n).0) == Observable(AllocateBatch(p1, n - 1).0)
            && AllocateBatch(p, n).1 == [e] + AllocateBatch(p1, n - 1).1
  {
    if p.freeList != [] {
      BatchPopsFirst(p, n);
    } else {
      BatchReservesFirst(p, n);
      BatchWithoutFree(p, n);
      BatchWithoutFree(Allocate(p).0, n - 1);
    }
  }

  lemma GrownTwice(records: seq<Record>, m: nat, n: nat)
    requires m <= n
    ensures Grown(Grown(records, m), n) == Grown(records, n)
  {
  }

  /** A batch allocation is that many single ones, up to how far an exhausted cursor has sunk. */
  lemma {:induction false} BatchIsRepeatedAllocate(p: Pool, n: nat)
    requires PoolValid(p)
    ensures Observable(AllocateBatch(p, n).0) == Observable(AllocateOneByOne(p, n).0)
    ensures AllocateBatch(p, n).1 == AllocateOneByOne(p, n).1
    decreases n
  {
    if n == 0 {
      PopNone(p);
    } else {
      BatchStepsOnce(p, n);
      var p1 := Allocate(p).0;
      BatchIsRepeatedAllocate(p1, n - 1);
    }
  }

  /** The early return of a flush leaves the very cells the full return and re-lease would. */
  lemma EarlyReturnIsRelease(p: Pool)
    requires PoolValid(p) && NothingToReconcile(p)
    requires forall i :: 0 <= i < |p.lease.slots| ==>
               p.lease.slots[i].generation == p.records[p.lease.slots[i].index].generation
    ensures Observable(Released(p)) == Observable(p)
  {
    assert Unconsumed(p.lease) == p.lease.slots;
    assert p.freeList + Indices(Unconsumed(p.lease)) == Indices(p.lease.slots);
    assert SlotsOf(p.records, Indices(p.lease.slots)) == p.lease.slots;
  }

  /** Why a flush must find no reservation between its look at the lease and its draw: whatever the old
      lease still had is on offer again in the new one, so the same index could be handed out twice. */
  lemma StaleLeaseReissues(p: Pool, k: nat)
    requires PoolValid(p) && k < Max0(p.lease.cursor)
    ensures exists j :: 0 <= j < Max0(Flush(p).lease.cursor)
                     && Flush(p).lease.slots[j].index == p.lease.slots[k].index
  {
    PreparedIsValid(p);
    var q := Drained(Materialized(p));
    if NothingToReconcile(q) {
      assert Flush(p).lease.slots[k].index == p.lease.slots[k].index;
    } else {
      assert Flush(p).lease.slots[|q.freeList| + k].index == p.lease.slots[k].index;
    }
  }

  // ---- Handles and the live counter ------------------------------------------------------------------

  /** Setting a location keeps the live counter true exactly when the location is not the one that
      packs to "nowhere". */
  lemma SetLocationCountsExactly(p: Pool, e: Entity, loc: Location)
    requires p.live == LocatedCount(p.records) && loc.archetype <= MAX && loc.row <= MAX
    requires e.index < |p.records| && p.records[e.index].generation == e.generation
    ensures var q := SetLocation(p, e, loc);
            q.live == LocatedCount(q.records) <==> loc != Location(MAX, MAX)
  {
    PackRoundTripsExactly(loc);
    LocatedCountUpdate(p.records, e.index, p.records[e.index].(encoded := Pack(loc)));
  }

  lemma FreeCounts(p: Pool, e: Entity)
    requires p.live == LocatedCount(p.records)
    ensures var q := Free(p, e).0; q.live == LocatedCount(q.records)
  {
    if Free(p, e).1 {
      LocatedCountUpdate(p.records, e.index, Free(p, e).0.records[e.index]);
    }
  }

  /** A freed handle is dead at once, and its slot's generation has moved past it exactly when the
      handle was not of the last generation. */
  lemma FreeMovesGenerationExactly(p: Pool, e: Entity)
    requires Free(p, e).1 && e.generation <= MAX
    ensures !IsAlive(Free(p, e).0, e)
    ensures GenerationOf(Free(p, e).0.records, e.index) > e.generation <==> e.generation != MAX
  {
  }

  // ---- Locations -----------------------------------------------------------------------------------------

  // Where an entity is, for a current handle.
  function LocationOf(p: Pool, e: Entity): Option<Location> {
    if e.index < |p.records| && p.records[e.index].generation == e.generation then Unpack(p.records[e.index].encoded)
    else None
  }

  /** Alive is having a location, under the record's generation. */
  lemma AliveIsLocated(p: Pool, e: Entity)
    ensures IsAlive(p, e) <==> LocationOf(p, e).Some?
    ensures IsAlive(p, e) ==> e.index < |p.records| && p.records[e.index].generation == e.generation
  {
  }

  /** The location set through a current handle is the one found from then on, the entity is alive, and no other
      record changes. */
  lemma SetLocationStores(p: Pool, e: Entity, loc: Location)
    requires e.index < |p.records| && p.records[e.index].generation == e.generation
    requires loc.archetype <= MAX && loc.row <= MAX && loc != Location(MAX, MAX)
    ensures var q := SetLocation(p, e, loc);
            && |q.records| == |p.records| && Unpack(q.records[e.index].encoded) == Some(loc)
            && LocationOf(q, e) == Some(loc) && IsAlive(q, e)
            && (forall i :: 0 <= i < |p.records| && i != e.index ==> q.records[i] == p.records[i])
            && q == p.(records := q.records, live := q.live)
  {
    PackRoundTripsExactly(loc);
  }

  /** A stale handle sets nothing. */
  lemma StaleSetsNothing(p: Pool, e: Entity, loc: Location)
    requires e.index >= |p.records| || p.records[e.index].generation != e.generation
    ensures SetLocation(p, e, loc) == p
  {
  }

  // What setting, freeing and growing do to where anybody is.
  lemma SetLocationFound(p: Pool, x: Entity, loc: Location, e: Entity)
    requires x.index < |p.records| && p.records[x.index].generation == x.generation
    requires loc.archetype <= MAX && loc.row <= MAX && loc != Location(MAX, MAX)
    ensures LocationOf(SetLocation(p, x, loc), e) == if e == x then Some(loc) else LocationOf(p, e)
  {
    SetLocationStores(p, x, loc);
  }

  lemma FreedIsNowhere(p: Pool, x: Entity, e: Entity)
    requires Free(p, x).1
    ensures LocationOf(Free(p, x).0, e) == if e == x then None else LocationOf(p, e)
  {
  }

  lemma GrownIsNowhere(p: Pool, q: Pool, n: nat, e: Entity)
    requires q.records == Grown(p.records, n)
    ensures LocationOf(q, e) == LocationOf(p, e)
  {
  }

  // The first n of a batch, each at the next row of one archetype.
  function RowsGiven(p: Pool, es: seq<Entity>, archetype: nat, start: nat, n: nat): Pool
    requires n <= |es|
  {
    if n == 0 then p
    else SetLocation(RowsGiven(p, es, archetype, start, n - 1), es[n - 1], Location(archetype, start + n - 1))
  }

  /** A batch of current, different handles is placed row by row, and nobody else moves. */
  lemma {:induction false} RowsGivenExactly(p: Pool, es: seq<Entity>, archetype: nat, start: nat, n: nat, e: Entity)
    requires n <= |es| && archetype < MAX && start + |es| <= MAX
    requires forall i :: 0 <= i < |es| ==>
               es[i].index < |p.records| && p.records[es[i].index].generation == es[i].generation
    requires forall i, j :: 0 <= i < j < |es| ==> es[i] != es[j]
    ensures var q := RowsGiven(p, es, archetype, start, n);
            && |q.records| == |p.records|
            && (forall i :: 0 <= i < |p.records| ==> q.records[i].generation == p.records[i].generation)
            && (forall i :: 0 <= i < n && es[i] == e ==> LocationOf(q, e) == Some(Location(archetype, start + i)))
            && (e !in es[..n] ==> LocationOf(q, e) == LocationOf(p, e))
    decreases n
  {
    if n > 0 {
      RowsGivenExactly(p, es, archetype, start, n - 1, e);
      var q := RowsGiven(p, es, archetype, start, n - 1);
      SetLocationFound(q, es[n - 1], Location(archetype, start + n - 1), e);
      assert es[..n] == es[..n - 1] + [es[n - 1]];
    }
  }

  // ---- Order ---------------------------------------------------------------------------------------------

  /** The free list is a stack: what was freed last is allocated next, one generation on. */
  lemma FreedIsAllocatedNext(p: Pool, e: Entity)
    requires PoolValid(p) && Free(p, e).1 && e.generation + 1 < MAX
    ensures PoolValid(Free(p, e).0) && Allocate(Free(p, e).0).1 == Entity(e.index, e.generation + 1)
    ensures Allocate(Free(p, e).0).0.freeList == p.freeList
  {
    assert (p.freeList + [e.index])[..|p.freeList|] == p.freeList;
  }

  /** A flush keeps the order of what the lease still had: the reservations to come are of the same indices as
      before. After them come the abandoned indices and then the freed ones, the latest first. */
  lemma FlushKeepsOrder(p: Pool, k: nat)
    requires PoolValid(p)
    ensures PoolValid(Flush(p))
    ensures var left, more := Max0(p.lease.cursor), p.freeList + p.abandoned;
            && (k < left ==> NthReserved(Flush(p), k).index == NthReserved(p, k).index)
            && (left <= k < left + |more| ==> NthReserved(Flush(p), k).index == more[|more| - 1 - (k - left)])
            && (k >= left + |more| ==> NthReserved(Flush(p), k).index == p.highWater + (k - left - |more|))
  {
    var q := FlushedLeases(p);
    NthFromLeased(p, q, p.freeList + p.abandoned, k);
  }

  lemma FlushedLeases(p: Pool) returns (q: Pool)
    requires PoolValid(p)
    ensures q == Flush(p) && PoolValid(q) && LeasedAfter(p, q, p.freeList + p.abandoned)
  {
    PreparedIsValid(p);
    q := Flush(p);
    if NothingToReconcile(Drained(Materialized(p))) {
      FlushedNothing(p);
    } else {
      FlushedSlots(p);
    }
  }

  // The new lease holds `more` and then what the old one had left.
  ghost predicate LeasedAfter(p: Pool, q: Pool, more: seq<nat>) {
    var left := Max0(p.lease.cursor);
    && p.lease.cursor <= |p.lease.slots|
    && q.highWater == p.highWater && q.lease.cursor <= |q.lease.slots| && Max0(q.lease.cursor) == |more| + left
    && (forall i :: 0 <= i < |more| ==> q.lease.slots[i].index == more[i])
    && forall i :: 0 <= i < left ==> q.lease.slots[|more| + i].index == p.lease.slots[i].index
  }

  lemma NthFromLeased(p: Pool, q: Pool, more: seq<nat>, k: nat)
    requires LeasedAfter(p, q, more)
    ensures var left := Max0(p.lease.cursor);
            && (k < left ==> NthReserved(q, k).index == NthReserved(p, k).index)
            && (left <= k < left + |more| ==> NthReserved(q, k).index == more[|more| - 1 - (k - left)])
            && (k >= left + |more| ==> NthReserved(q, k).index == p.highWater + (k - left - |more|))
  {
    var left := Max0(p.lease.cursor);
    if k < left {
      assert q.lease.slots[|more| + (left - 1 - k)].index == p.lease.slots[left - 1 - k].index;
    }
  }

  lemma FlushedNothing(p: Pool)
    requires PoolValid(p) && PoolValid(Drained(Materialized(p))) && NothingToReconcile(Drained(Materialized(p)))
    ensures LeasedAfter(p, Flush(p), p.freeList + p.abandoned)
  {
    assert Drained(Materialized(p)).freeList == p.freeList + p.abandoned;
  }

  lemma FlushedSlots(p: Pool)
    requires PoolValid(p) && PoolValid(Drained(Materialized(p))) && !NothingToReconcile(Drained(Materialized(p)))
    ensures LeasedAfter(p, Flush(p), p.freeList + p.abandoned)
  {
    var q := Drained(Materialized(p));
    assert q.freeList == p.freeList + p.abandoned;
    ReleasedSlots(q);
  }

  lemma ReleasedSlots(p: Pool)
    requires PoolValid(p)
    ensures LeasedAfter(p, Released(p), p.freeList)
  {
    var free := p.freeList + Indices(Unconsumed(p.lease));
    forall i | 0 <= i < Max0(p.lease.cursor) ensures free[|p.freeList| + i] == p.lease.slots[i].index {
    }
  }

  /** What is abandoned is exactly the indices of the reservations given back, placeholders aside. */
  lemma {:induction false} AbandonedExactly(es: seq<Entity>, i: nat)
    ensures i in AbandonedIndices(es) <==> exists k :: 0 <= k < |es| && es[k] != PLACEHOLDER && es[k].index == i
    decreases |es|
  {
    if es != [] {
      var n := |es| - 1;
      AbandonedExactly(es[..n], i);
      if i in AbandonedIndices(es[..n]) {
        var k :| 0 <= k < n && es[..n][k] != PLACEHOLDER && es[..n][k].index == i;
        assert es[k] == es[..n][k];
      }
      if k :| 0 <= k < |es| && es[k] != PLACEHOLDER && es[k].index == i {
        assert k < n ==> es[..n][k] == es[k];
      }
    }
  }
}
