/** The entity allocator and its reservers, over cells they share.

    Each method runs alone here, and changes the cells exactly as the pool function of the same name;
    what happens between the atomic accesses of concurrent reservers is the subject of
    `EntityProtocol`.
  */
module EntityAllocator {
  import opened Basics
  import opened EntityPool
  import opened EntityBlocks

  /** The cells that the allocator and all its reservers share. */
  class SharedCells {
    var highWater: nat
    var cursor: int
    var slots: seq<Entity>
    var abandoned: seq<nat>
    var pending: bool

    constructor ()
      ensures highWater == 0 && cursor == 0 && slots == [] && abandoned == [] && !pending
    {
      highWater, cursor, slots, abandoned, pending := 0, 0, [], [], false;
    }

    ghost predicate Valid()
      reads this
    {
      cursor <= |slots|
    }

    // The shared part of the pool.
    ghost function Cells(): Pool
      reads this
    {
      Pool(highWater, Lease(cursor, slots), [], [], abandoned, pending, 0)
    }

    // One subtraction on the cursor, one addition on the mark.
    method ReserveN(n: nat) returns (out: seq<Entity>)
      requires Valid()
      modifies this`cursor, this`highWater
      ensures Valid() && (Cells(), out) == Reserve(old(Cells()), n)
    {
      var before := cursor;
      cursor := cursor - n;
      var reuse := if before <= 0 then 0 else if before < n then before else n;
      out := [];
      for k := 0 to reuse
        invariant out == Reserve(old(Cells()), k).1
      {
        out := out + [slots[before - 1 - k]];
      }
      var start := highWater;
      if n > reuse {
        highWater := highWater + (n - reuse);
      }
      for j := 0 to n - reuse
        invariant out == Reserve(old(Cells()), reuse + j).1
      {
        out := out + [Entity(start + j, 0)];
      }
    }

    method Queue(entities: seq<Entity>)
      modifies this`abandoned, this`pending
      ensures Cells() == Abandon(old(Cells()), entities)
    {
      var before := |abandoned|;
      for i := 0 to |entities|
        invariant abandoned == old(abandoned) + AbandonedIndices(entities[..i])
        invariant pending == old(pending)
      {
        assert entities[..i + 1][..i] == entities[..i];
        if entities[i] != PLACEHOLDER {
          abandoned := abandoned + [entities[i].index];
        }
      }
      assert entities[..|entities|] == entities;
      if |abandoned| != before {
        pending := true;
      }
    }
  }

  class EntityReserver {
    const shared: SharedCells
    var block: Option<Block>

    constructor (shared: SharedCells, block: Option<Block>)
      ensures this.shared == shared && this.block == block
    {
      this.shared, this.block := shared, block;
    }

    /** The block first; past its end, the shared cells. */
    method Reserve() returns (e: Entity)
      requires shared.Valid()
      modifies this`block, shared`cursor, shared`highWater
      ensures shared.Valid()
      ensures block == match old(block) case None => None case Some(b) => Some(Take(b, Single).0)
      ensures match TakenBy(old(block), Single)
              case Some(ids) => ids == [e] && shared.Cells() == old(shared.Cells())
              case None => (shared.Cells(), [e]) == EntityPool.Reserve(old(shared.Cells()), 1)
    {
      if block.Some? {
        var i := block.value.next;
        block := Some(block.value.(next := i + 1));
        if i < |block.value.ids| {
          return block.value.ids[i];
        }
        block := Some(block.value.(overflowed := true));
      }
      var out := shared.ReserveN(1);
      e := out[0];
      assert out == [e];
    }

    method ReserveN(n: nat) returns (out: seq<Entity>)
      requires shared.Valid()
      modifies this`block, shared`cursor, shared`highWater
      ensures shared.Valid()
      ensures block == match old(block) case None => None case Some(b) => Some(Take(b, Batch(n)).0)
      ensures match TakenBy(old(block), Batch(n))
              case Some(ids) => out == ids && shared.Cells() == old(shared.Cells())
              case None => (shared.Cells(), out) == EntityPool.Reserve(old(shared.Cells()), n)
    {
      if n == 0 {
        ReserveNothing(shared.Cells());
        return [];
      }
      if block.Some? {
        var cur := block.value.next;
        if cur + n <= |block.value.ids| {
          block := Some(block.value.(next := cur + n));
          return block.value.ids[cur..cur + n];
        }
        block := Some(block.value.(overflowed := true));
      }
      out := shared.ReserveN(n);
    }
  }

  function TakenBy(block: Option<Block>, d: Draw): Option<seq<Entity>> {
    match block
    case None => None
    case Some(b) => Take(b, d).1
  }

  lemma ReserveNothing(p: Pool)
    requires p.lease.cursor <= |p.lease.slots|
    ensures EntityPool.Reserve(p, 0) == (p, [])
  {
    assert EntityPool.Reserve(p, 0).1 == [];
  }

  // Reserving looks at the lease and the mark and at nothing else.
  lemma ReserveReadsCells(p: Pool, q: Pool, n: nat)
    requires p.lease.cursor <= |p.lease.slots| && p.lease == q.lease && p.highWater == q.highWater
    ensures EntityPool.Reserve(p, n).1 == EntityPool.Reserve(q, n).1
  {
  }

  class EntityAllocator {
    const shared: SharedCells
    var records: seq<Record>
    var freeList: seq<nat>
    var live: nat

    ghost function Value(): Pool
      reads this, shared
    {
      Pool(shared.highWater, Lease(shared.cursor, shared.slots), records, freeList,
           shared.abandoned, shared.pending, live)
    }

    ghost predicate Valid()
      reads this, shared
    {
      PoolValid(Value())
    }

    constructor ()
      ensures Valid() && fresh(shared) && Value() == EMPTY_POOL
    {
      shared := new SharedCells();
      records, freeList, live := [], [], 0;
    }

    method Allocate() returns (e: Entity)
      requires Valid()
      modifies this`records, this`freeList, shared`cursor, shared`highWater
      ensures Valid() && (Value(), e) == EntityPool.Allocate(old(Value()))
    {
      if freeList != [] {
        var index := freeList[|freeList| - 1];
        freeList := freeList[..|freeList| - 1];
        return Entity(index, records[index].generation);
      }
      if shared.cursor > 0 {
        var n := shared.cursor;
        shared.cursor := n - 1;
        e := shared.slots[n - 1];
      } else {
        e := Entity(shared.highWater, 0);
        shared.highWater := shared.highWater + 1;
      }
      EnsureRecord(e.index);
    }

    method EnsureRecord(index: nat)
      modifies this`records
      ensures records == Grown(old(records), index + 1)
    {
      while |records| < index + 1
        invariant records == Grown(old(records), |records|) && |old(records)| <= |records|
        invariant |records| <= index + 1 || records == old(records)
      {
        records := records + [VACANT];
      }
    }

    method PopFree(n: nat) returns (entities: seq<Entity>)
      requires Valid() && n <= |freeList|
      modifies this`freeList
      ensures Valid() && (Value(), entities) == PopAll(old(Value()), n)
    {
      entities := [];
      for k := 0 to n
        invariant Value() == PopAll(old(Value()), k).0
        invariant entities == PopAll(old(Value()), k).1
      {
        var index := freeList[|freeList| - 1];
        freeList := freeList[..|freeList| - 1];
        entities := entities + [Entity(index, records[index].generation)];
      }
    }

    // The batch pops, then takes one bite of the lease, then one of the mark.
    method AllocateBatch(count: nat) returns (entities: seq<Entity>)
      requires Valid()
      modifies this`records, this`freeList, shared`cursor, shared`highWater
      ensures Valid() && (Value(), entities) == EntityPool.AllocateBatch(old(Value()), count)
    {
      var fromFree := if count < |freeList| then count else |freeList|;
      entities := PopFree(fromFree);
      if count == fromFree {
        return;
      }
      var mark := shared.highWater;
      ReserveReadsCells(shared.Cells(), Value(), count - fromFree);
      var rest := shared.ReserveN(count - fromFree);
      entities := entities + rest;
      if shared.highWater > mark {
        EnsureRecord(shared.highWater - 1);
      }
    }

    method Free(e: Entity) returns (freed: bool)
      requires Valid()
      modifies this
      ensures Valid() && (Value(), freed) == EntityPool.Free(old(Value()), e)
    {
      if e.index >= |records| || records[e.index].generation != e.generation {
        return false;
      }
      var wasLive := Located(records[e.index]);
      var generation := if records[e.index].generation == MAX then 0 else records[e.index].generation + 1;
      records := records[e.index := Record(generation, NO_LOCATION)];
      if wasLive && live > 0 {
        live := live - 1;
      }
      if generation != MAX {
        freeList := freeList + [e.index];
      }
      return true;
    }

    method SetLocation(e: Entity, loc: Location)
      requires Valid()
      modifies this`records, this`live
      ensures Valid() && Value() == EntityPool.SetLocation(old(Value()), e, loc)
      ensures e.index < |old(records)| && old(records)[e.index].generation == e.generation
              && loc.archetype <= MAX && loc.row <= MAX && loc != Location(MAX, MAX) ==>
                GetLocation(e) == Some(loc) && IsAlive(e)
    {
      if e.index < |records| && records[e.index].generation == e.generation
         && loc.archetype <= MAX && loc.row <= MAX && loc != Location(MAX, MAX) {
        SetLocationStores(Value(), e, loc);
      }
      if e.index < |records| && records[e.index].generation == e.generation {
        var becameLive := !Located(records[e.index]);
        records := records[e.index := records[e.index].(encoded := Pack(loc))];
        if becameLive {
          live := live + 1;
        }
      }
    }

    /** One pass over a batch: each gets the next row. */
    method SetLocationsBatch(entities: seq<Entity>, archetype: nat, startRow: nat)
      requires Valid()
      requires forall i :: 0 <= i < |entities| ==>
                 entities[i].index < |records| && records[entities[i].index].generation == entities[i].generation
      modifies this`records, this`live
      ensures Valid() && Value() == RowsGiven(old(Value()), entities, archetype, startRow, |entities|)
    {
      for i := 0 to |entities|
        invariant Valid() && Value() == RowsGiven(old(Value()), entities, archetype, startRow, i)
        invariant |records| == |old(records)|
        invariant forall j :: 0 <= j < |records| ==> records[j].generation == old(records)[j].generation
      {
        var at := entities[i].index;
        var becameLive := !Located(records[at]);
        records := records[at := records[at].(encoded := Pack(Location(archetype, startRow + i)))];
        if becameLive { live := live + 1; }
      }
    }

    predicate IsAlive(e: Entity)
      reads this, shared
      ensures IsAlive(e) == EntityPool.IsAlive(Value(), e)
    {
      e.index < |records| && records[e.index].generation == e.generation && Located(records[e.index])
    }

    function GetLocation(e: Entity): (loc: Option<Location>)
      reads this, shared
      ensures loc == LocationOf(Value(), e)
    {
      if e.index < |records| && records[e.index].generation == e.generation then Unpack(records[e.index].encoded)
      else None
    }

    method ReserveBlock(size: nat) returns (r: EntityReserver)
      requires Valid()
      modifies shared`cursor, shared`highWater
      ensures Valid() && fresh(r) && r.shared == shared
      ensures var (p, ids) := Reserve(old(Value()), size);
              Value() == p && r.block == Some(Block(ids, 0, false))
    {
      ReserveReadsCells(shared.Cells(), Value(), size);
      var ids := shared.ReserveN(size);
      r := new EntityReserver(shared, Some(Block(ids, 0, false)));
    }

    // Called once the records cover the block, that is, after a flush.
    method ReclaimBlockTail(unused: seq<Entity>)
      requires Valid() && forall i :: 0 <= i < |unused| ==> unused[i].index < |records|
      modifies this`freeList
      ensures Valid() && Value() == ReclaimTail(old(Value()), unused)
    {
      for i := 0 to |unused|
        invariant freeList == old(freeList) + Indices(unused[..i])
      {
        freeList := freeList + [unused[i].index];
      }
      assert unused[..|unused|] == unused;
    }

    method Flush()
      requires Valid()
      modifies this`records, this`freeList, shared`cursor, shared`slots, shared`abandoned, shared`pending
      ensures Valid() && Value() == EntityPool.Flush(old(Value()))
    {
      PreparedIsValid(Value());
      Prepare();
      var unconsumed := if shared.cursor > 0 then shared.cursor else 0;
      if freeList == [] && unconsumed == |shared.slots| {
        return;
      }
      ReturnUnconsumed(unconsumed);
      RefreshLease();
    }

    // Records grow to the mark; abandoned reservations become free.
    method Prepare()
      requires Valid()
      modifies this`records, this`freeList, shared`abandoned, shared`pending
      ensures Value() == Drained(Materialized(old(Value())))
    {
      if |records| < shared.highWater {
        EnsureRecord(shared.highWater - 1);
      }
      if shared.pending {
        var drained := shared.abandoned;
        shared.pending := false;
        shared.abandoned := [];
        ghost var taken := Value();
        for i := 0 to |drained|
          invariant Value() == taken.(freeList := freeList)
          invariant freeList == old(freeList) + drained[..i]
        {
          freeList := freeList + [drained[i]];
        }
        assert drained[..|drained|] == drained;
      }
    }

    method ReturnUnconsumed(unconsumed: nat)
      requires Valid() && unconsumed == Max0(shared.cursor)
      modifies this`freeList
      ensures freeList == old(freeList) + Indices(Unconsumed(Value().lease))
    {
      for k := 0 to unconsumed
        invariant freeList == old(freeList) + Indices(shared.slots[..k])
      {
        freeList := freeList + [shared.slots[k].index];
      }
    }

    // Everything free goes into a new lease, with the generation its record has now.
    method RefreshLease()
      requires forall i :: 0 <= i < |freeList| ==> freeList[i] < |records|
      modifies this`freeList, shared`cursor, shared`slots
      ensures freeList == [] && shared.cursor == |old(freeList)| && shared.slots == SlotsOf(records, old(freeList))
    {
      var free: seq<Entity> := [];
      for i := 0 to |freeList|
        invariant free == SlotsOf(records, freeList[..i])
      {
        free := free + [Entity(freeList[i], records[freeList[i]].generation)];
      }
      assert freeList[..|freeList|] == freeList;
      shared.cursor := |free|;
      shared.slots := free;
      freeList := [];
    }
  }
}
