/** Handles over runs of the allocator's operations in any order, with any arguments: nothing is
    assumed here about who holds what.
  */
module EntityHandles {
  import opened EntityPool

  datatype Op =
    | DoReserve(n: nat)
    | DoAllocate
    | DoAllocateBatch(n: nat)
    | DoFree(e: Entity)
    | DoSetLocation(e: Entity, location: Location)
    | DoAbandon(es: seq<Entity>)
    | DoReclaimTail(unused: seq<Entity>)
    | DoFlush

  function Performed(p: Pool, op: Op): Pool
    requires PoolValid(p)
  {
    match op
    case DoReserve(n) => Reserve(p, n).0
    case DoAllocate => Allocate(p).0
    case DoAllocateBatch(n) => AllocateBatch(p, n).0
    case DoFree(e) => Free(p, e).0
    case DoSetLocation(e, loc) => SetLocation(p, e, loc)
    case DoAbandon(es) => Abandon(p, es)
    case DoReclaimTail(unused) => ReclaimTail(p, unused)
    case DoFlush => Flush(p)
  }

  // The operation frees the last generation of the slot.
  predicate WrapsSlot(p: Pool, op: Op, index: nat) {
    op.DoFree? && op.e == Entity(index, MAX) && Free(p, op.e).1
  }

  /** The operations lead from `p` to `p'` and never free the slot's last generation. */
  ghost predicate RunSparing(p: Pool, ops: seq<Op>, p': Pool, index: nat)
    decreases |ops|
  {
    if ops == [] then p' == p
    else PoolValid(p) && !WrapsSlot(p, ops[0], index) && RunSparing(Performed(p, ops[0]), ops[1..], p', index)
  }

  lemma BatchKeepsGenerations(p: Pool, n: nat, i: nat)
    requires PoolValid(p)
    ensures GenerationOf(AllocateBatch(p, n).0.records, i) == GenerationOf(p.records, i)
  {
  }

  lemma OpKeepsGeneration(p: Pool, op: Op, i: nat)
    requires PoolValid(p) && !WrapsSlot(p, op, i) && GenerationOf(p.records, i) <= MAX
    ensures GenerationOf(p.records, i) <= GenerationOf(Performed(p, op).records, i) <= MAX
  {
    match op
    case DoAllocateBatch(n) => BatchKeepsGenerations(p, n, i);
    case DoFlush => PreparedIsValid(p);
    case _ =>
  }

  lemma {:induction false} RunKeepsGeneration(p: Pool, ops: seq<Op>, p': Pool, i: nat)
    requires RunSparing(p, ops, p', i) && GenerationOf(p.records, i) <= MAX
    ensures GenerationOf(p'.records, i) >= GenerationOf(p.records, i)
    decreases |ops|
  {
    if ops != [] {
      OpKeepsGeneration(p, ops[0], i);
      RunKeepsGeneration(Performed(p, ops[0]), ops[1..], p', i);
    }
  }

  /** Once a free succeeds, the handle is alive in no state reached afterwards without freeing the last
      generation of its own slot, whatever happens to other slots. */
  lemma FreedIsNeverAlive(p: Pool, e: Entity, ops: seq<Op>, p': Pool)
    requires Free(p, e).1 && e.generation < MAX && RunSparing(Free(p, e).0, ops, p', e.index)
    ensures !IsAlive(p', e)
  {
    FreeMovesGenerationExactly(p, e);
    RunKeepsGeneration(Free(p, e).0, ops, p', e.index);
  }

  // ---- Coming back -------------------------------------------------------------------------------------

  ghost predicate Revivable(p: Pool, e: Entity) {
    exists ops, p' :: RunSparing(p, ops, p', e.index) && IsAlive(p', e)
  }

  lemma RunBefore(p: Pool, op: Op, ops: seq<Op>, p': Pool, i: nat)
    requires PoolValid(p) && !WrapsSlot(p, op, i) && RunSparing(Performed(p, op), ops, p', i)
    ensures RunSparing(p, [op] + ops, p', i)
  {
    assert ([op] + ops)[1..] == ops;
  }

  /** A slot reaches every generation from its present one on, and its handle comes alive. */
  lemma {:induction false} LaterGenerationsCome(p: Pool, e: Entity)
    requires PoolValid(p) && e.index < |p.records| && p.records[e.index].generation <= e.generation <= MAX
    ensures Revivable(p, e)
    decreases e.generation - p.records[e.index].generation
  {
    var now := Entity(e.index, p.records[e.index].generation);
    if now == e {
      var op := DoSetLocation(e, Location(0, 0));
      assert RunSparing(Performed(p, op), [], Performed(p, op), e.index);
      RunBefore(p, op, [], Performed(p, op), e.index);
    } else {
      var op := DoFree(now);
      LaterGenerationsCome(Performed(p, op), e);
      var ops, p' :| RunSparing(Performed(p, op), ops, p', e.index) && IsAlive(p', e);
      RunBefore(p, op, ops, p', e.index);
    }
  }

  /** A free of the last generation starts the slot's generations over: every handle the slot ever had can
      come alive again. */
  lemma LastGenerationRevives(p: Pool, e: Entity, g: nat)
    requires PoolValid(p) && e.generation == MAX && Free(p, e).1 && g <= MAX
    ensures Revivable(Free(p, e).0, Entity(e.index, g))
  {
    LaterGenerationsCome(Free(p, e).0, Entity(e.index, g));
  }

  /** A freed handle can come alive again - its slot's last generation not being freed after it - if and
      only if it was itself of the last generation. */
  lemma FreedRevivesExactly(p: Pool, e: Entity)
    requires PoolValid(p) && Free(p, e).1 && e.generation <= MAX
    ensures Revivable(Free(p, e).0, e) <==> e.generation == MAX
  {
    if e.generation == MAX {
      LastGenerationRevives(p, e, MAX);
    } else if Revivable(Free(p, e).0, e) {
      var ops, p' :| RunSparing(Free(p, e).0, ops, p', e.index) && IsAlive(p', e);
      FreedIsNeverAlive(p, e, ops, p');
    }
  }
}
