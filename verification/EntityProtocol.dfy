/** Reservers and the allocator, interleaved access by access.

    A draw on the shared pool is three atomic accesses: look up the current lease, subtract from its
    cursor, and add to the high-water mark what the lease did not yield. Any client may stand between
    any two of them while others move; a flush only finds nobody between the first two.
  */
module EntityProtocol {
  import opened Basics
  import opened EntityPool
  import opened EntityBlocks

  datatype Phase = Idle | AtLease(n: nat) | OwesFresh(n: nat)

  /** The pool, the private blocks, what each client holds and where it stands, and the slots whose
      generations have run out. Client zero is the main thread, which owns the allocator. */
  datatype Sys = Sys(pool: Pool, blocks: seq<Block>, hands: seq<seq<Entity>>, phases: seq<Phase>, retired: seq<nat>)

  datatype Step =
    | ReadLease(client: nat, n: nat)
    | TakeLease(client: nat)
    | TakeFresh(client: nat, grow: bool)
    | PopFree
    | PeekLease
    | DrawBlock(client: nat, block: nat, draw: Draw)
    | SealBlock(size: nat)
    | ReclaimBlock(block: nat)
    | FreeHeld(client: nat, at: nat)
    | AbandonHeld(client: nat, at: nat)
    | Locate(client: nat, at: nat, location: Location)
    | FlushPool

  function Initial(clients: nat): Sys {
    Sys(EMPTY_POOL, [], seq(clients, _ => []), seq(clients, _ => Idle), [])
  }

  ghost predicate WellFormed(s: Sys) {
    PoolValid(s.pool) && |s.hands| == |s.phases| > 0
  }

  function Finished(b: Block): Block {
    if b.next < |b.ids| then b.(next := |b.ids|) else b
  }

  function Without<T>(s: seq<T>, at: nat): seq<T>
    requires at < |s|
  {
    s[..at] + s[at + 1..]
  }

  predicate Holds(s: Sys, client: nat, at: nat) {
    client < |s.hands| && at < |s.hands[client]|
  }

  ghost predicate Enabled(s: Sys, step: Step)
    requires WellFormed(s)
  {
    match step
    case ReadLease(c, n) => c < |s.phases| && s.phases[c].Idle? && n > 0
    case TakeLease(c) => c < |s.phases| && s.phases[c].AtLease?
    case TakeFresh(c, grow) => c < |s.phases| && s.phases[c].OwesFresh? && (grow ==> c == 0)
    case PopFree => s.phases[0].Idle? && s.pool.freeList != []
    case PeekLease => s.phases[0].Idle? && s.pool.freeList == []
    case DrawBlock(c, b, d) => c < |s.phases| && s.phases[c].Idle? && b < |s.blocks|
    case SealBlock(size) => s.phases[0].Idle? && size <= |s.hands[0]|
    case ReclaimBlock(b) => b < |s.blocks|
                            && forall i :: 0 <= i < |Unused(s.blocks[b])| ==>
                                 Unused(s.blocks[b])[i].index < |s.pool.records|
    case FreeHeld(c, at) => Holds(s, c, at)
    case AbandonHeld(c, at) => Holds(s, c, at)
    case Locate(c, at, loc) => Holds(s, c, at) && loc.archetype <= MAX && loc.row <= MAX && loc != Location(MAX, MAX)
    case FlushPool => forall c :: 0 <= c < |s.phases| ==> !s.phases[c].AtLease?
  }

  function Handed(s: Sys, client: nat, ids: seq<Entity>): seq<seq<Entity>>
    requires client < |s.hands|
  {
    s.hands[client := s.hands[client] + ids]
  }

  function Next(s: Sys, step: Step): Sys
    requires WellFormed(s) && Enabled(s, step)
  {
    var p := s.pool;
    match step
    case ReadLease(c, n) => s.(phases := s.phases[c := AtLease(n)])
    case TakeLease(c) =>
      var n := s.phases[c].n;
      var won := Won(p.lease, n);
      s.(pool := p.(lease := p.lease.(cursor := p.lease.cursor - n)),
         hands := Handed(s, c, won),
         phases := s.phases[c := if |won| < n then OwesFresh(n - |won|) else Idle])
    case TakeFresh(c, grow) =>
      var n := s.phases[c].n;
      s.(pool := p.(highWater := p.highWater + n,
                    records := if grow then Grown(p.records, p.highWater + n) else p.records),
         hands := Handed(s, c, FreshIds(p.highWater, n)),
         phases := s.phases[c := Idle])
    case PopFree =>
      var (q, e) := Popped(p);
      s.(pool := q, hands := Handed(s, 0, [e]))
    case PeekLease => s.(phases := s.phases[0 := if p.lease.cursor > 0 then AtLease(1) else OwesFresh(1)])
    case DrawBlock(c, b, d) =>
      var (block, ids) := Take(s.blocks[b], d);
      s.(blocks := s.blocks[b := block],
         hands := if ids.Some? then Handed(s, c, ids.value) else s.hands)
    case SealBlock(size) =>
      var hand := s.hands[0];
      s.(blocks := s.blocks + [Block(hand[|hand| - size..], 0, false)],
         hands := s.hands[0 := hand[..|hand| - size]])
    case ReclaimBlock(b) =>
      s.(pool := ReclaimTail(p, Unused(s.blocks[b])), blocks := s.blocks[b := Finished(s.blocks[b])])
    case FreeHeld(c, at) =>
      var e := s.hands[c][at];
      var (q, freed) := Free(p, e);
      if freed then
        s.(pool := q, hands := s.hands[c := Without(s.hands[c], at)],
           retired := if q.freeList == p.freeList then s.retired + [e.index] else s.retired)
      else s
    case AbandonHeld(c, at) =>
      s.(pool := p.(abandoned := p.abandoned + [s.hands[c][at].index], pending := true),
         hands := s.hands[c := Without(s.hands[c], at)])
    case Locate(c, at, loc) => s.(pool := SetLocation(p, s.hands[c][at], loc))
    case FlushPool => s.(pool := Flush(p))
  }

  ghost predicate Reaches(s: Sys, steps: seq<Step>, s': Sys)
    decreases |steps|
  {
    if steps == [] then s' == s
    else WellFormed(s) && Enabled(s, steps[0]) && Reaches(Next(s, steps[0]), steps[1..], s')
  }

  // ---- The ledger ------------------------------------------------------------------------------------

  function Bag(es: seq<Entity>): multiset<nat> {
    multiset(Indices(es))
  }

  function FlatAll(ss: seq<seq<Entity>>): seq<Entity> {
    if ss == [] then [] else ss[0] + FlatAll(ss[1..])
  }

  function BlockTails(blocks: seq<Block>): seq<seq<Entity>> {
    seq(|blocks|, i requires 0 <= i < |blocks| => Unused(blocks[i]))
  }

  function UnusedTails(blocks: seq<Block>): seq<Entity> {
    FlatAll(BlockTails(blocks))
  }

  function Leased(s: Sys): seq<Entity>
    requires s.pool.lease.cursor <= |s.pool.lease.slots|
  {
    Unconsumed(s.pool.lease)
  }

  function Held(s: Sys): seq<Entity> {
    FlatAll(s.hands)
  }

  /** How often an index occurs in: the free list, the lease's unconsumed prefix, the unused tails of
      the blocks, the abandoned queue, the retired slots, and the clients' hands. */
  function Places(s: Sys, i: nat): nat
    requires s.pool.lease.cursor <= |s.pool.lease.slots|
  {
    multiset(s.pool.freeList)[i] + Bag(Leased(s))[i] + Bag(UnusedTails(s.blocks))[i]
    + multiset(s.pool.abandoned)[i] + multiset(s.retired)[i] + Bag(Held(s))[i]
  }

  /** Every index below the mark is in exactly one place, once, and no other index is anywhere. */
  ghost predicate Placed(s: Sys)
    requires s.pool.lease.cursor <= |s.pool.lease.slots|
  {
    forall i: nat {:trigger Places(s, i)} :: Places(s, i) == if i < s.pool.highWater then 1 else 0
  }

  ghost predicate CurrentIn(records: seq<Record>, es: seq<Entity>) {
    forall k :: 0 <= k < |es| ==> es[k].generation == GenerationOf(records, es[k].index)
  }

  /** Every handle that can be used - leased, in a block's tail or held - carries its record's generation. */
  ghost predicate Current(s: Sys)
    requires s.pool.lease.cursor <= |s.pool.lease.slots|
  {
    && CurrentIn(s.pool.records, Leased(s))
    && CurrentIn(s.pool.records, UnusedTails(s.blocks))
    && CurrentIn(s.pool.records, Held(s))
  }

  ghost predicate RetiredRight(s: Sys) {
    && (forall i :: 0 <= i < |s.pool.records| ==>
          s.pool.records[i].generation <= MAX && (s.pool.records[i].generation == MAX <==> i in s.retired))
    && (forall j :: 0 <= j < |s.retired| ==> s.retired[j] < |s.pool.records|)
  }

  ghost predicate Inv(s: Sys) {
    && WellFormed(s)
    && Placed(s)
    && Current(s)
    && RetiredRight(s)
    && s.pool.live == LocatedCount(s.pool.records)
  }

  // ---- Bags ----------------------------------------------------------------------------------------------

  lemma {:induction false} FreshBag(start: nat, n: nat, i: nat)
    ensures Bag(FreshIds(start, n))[i] == if start <= i < start + n then 1 else 0
    decreases n
  {
    if n == 0 {
      assert Indices(FreshIds(start, 0)) == [];
    } else {
      FreshBag(start, n - 1, i);
      assert FreshIds(start, n) == FreshIds(start, n - 1) + [Entity(start + n - 1, 0)];
      BagSplits(FreshIds(start, n - 1), [Entity(start + n - 1, 0)]);
      BagOfOne(Entity(start + n - 1, 0));
    }
  }

  lemma BagSplits(a: seq<Entity>, b: seq<Entity>)
    ensures Bag(a + b) == Bag(a) + Bag(b)
  {
    assert Indices(a + b) == Indices(a) + Indices(b);
  }

  lemma BagOfOne(e: Entity)
    ensures Bag([e]) == multiset{e.index}
  {
    assert Indices([e]) == [e.index];
  }

  lemma BagOfNone()
    ensures Bag([]) == multiset{}
  {
    assert Indices([]) == [];
  }

  lemma BagHas(es: seq<Entity>, e: Entity)
    requires e in es
    ensures Bag(es)[e.index] >= 1
  {
    var i :| 0 <= i < |es| && es[i] == e;
    assert Indices(es)[i] == e.index;
    assert e.index in Indices(es);
  }

  lemma WithoutBag(es: seq<Entity>, at: nat)
    requires at < |es|
    ensures Bag(es) == Bag(Without(es, at)) + multiset{es[at].index}
  {
    assert es == es[..at] + ([es[at]] + es[at + 1..]);
    BagSplits(es[..at], [es[at]] + es[at + 1..]);
    BagSplits([es[at]], es[at + 1..]);
    BagSplits(es[..at], es[at + 1..]);
    BagOfOne(es[at]);
  }

  lemma CountAppended(list: seq<nat>, x: nat, i: nat)
    ensures multiset(list + [x])[i] == multiset(list)[i] + if i == x then 1 else 0
  {
  }

  lemma BagsCancel(a: multiset<nat>, b: multiset<nat>, c: multiset<nat>)
    requires a + c == b + c
    ensures a == b
  {
    assert a == (a + c) - c && b == (b + c) - c;
  }

  lemma BagsAdd(a: multiset<nat>, b: multiset<nat>, c: multiset<nat>, d: multiset<nat>, e: multiset<nat>)
    requires b + c == d + e
    ensures (a + b) + c == (a + d) + e
  {
    assert (a + b) + c == a + (b + c) && (a + d) + e == a + (d + e);
  }

  lemma {:induction false} FlatReplaced(ss: seq<seq<Entity>>, i: nat, x: seq<Entity>)
    requires i < |ss|
    ensures Bag(FlatAll(ss[i := x])) + Bag(ss[i]) == Bag(FlatAll(ss)) + Bag(x)
    decreases |ss|
  {
    var rest := ss[1..];
    assert FlatAll(ss) == ss[0] + FlatAll(rest);
    BagSplits(ss[0], FlatAll(rest));
    if i == 0 {
      assert ss[0 := x][1..] == rest;
      assert FlatAll(ss[0 := x]) == x + FlatAll(rest);
      BagSplits(x, FlatAll(rest));
      assert Bag(FlatAll(ss[i := x])) + Bag(ss[i]) == Bag(FlatAll(ss)) + Bag(x);
    } else {
      FlatReplaced(rest, i - 1, x);
      assert ss[i := x][1..] == rest[i - 1 := x];
      assert FlatAll(ss[i := x]) == ss[0] + FlatAll(rest[i - 1 := x]);
      BagSplits(ss[0], FlatAll(rest[i - 1 := x]));
      BagsAdd(Bag(ss[0]), Bag(FlatAll(rest[i - 1 := x])), Bag(rest[i - 1]), Bag(FlatAll(rest)), Bag(x));
    }
  }

  lemma {:induction false} FlatAppended(ss: seq<seq<Entity>>, x: seq<Entity>)
    ensures FlatAll(ss + [x]) == FlatAll(ss) + x
    decreases |ss|
  {
    if ss == [] {
      assert [x][1..] == [] && FlatAll([x]) == x + [];
    } else {
      assert (ss + [x])[1..] == ss[1..] + [x];
      FlatAppended(ss[1..], x);
      ConcatAssociates(ss[0], FlatAll(ss[1..]), x);
    }
  }

  // ---- Currency of lists of lists -------------------------------------------------------------------------

  ghost predicate AllCurrent(records: seq<Record>, ss: seq<seq<Entity>>) {
    forall i :: 0 <= i < |ss| ==> CurrentIn(records, ss[i])
  }

  lemma CurrentJoins(records: seq<Record>, a: seq<Entity>, b: seq<Entity>)
    ensures CurrentIn(records, a + b) <==> CurrentIn(records, a) && CurrentIn(records, b)
  {
    forall k | 0 <= k < |a| ensures (a + b)[k] == a[k] {
    }
    forall k | 0 <= k < |b| ensures (a + b)[|a| + k] == b[k] {
    }
  }

  lemma {:induction false} FlatCurrent(records: seq<Record>, ss: seq<seq<Entity>>)
    ensures CurrentIn(records, FlatAll(ss)) <==> AllCurrent(records, ss)
    decreases |ss|
  {
    if ss != [] {
      FlatCurrent(records, ss[1..]);
      CurrentJoins(records, ss[0], FlatAll(ss[1..]));
      if AllCurrent(records, ss[1..]) && CurrentIn(records, ss[0]) {
        forall i | 0 <= i < |ss| ensures CurrentIn(records, ss[i]) {
          assert i > 0 ==> ss[i] == ss[1..][i - 1];
        }
      }
      if AllCurrent(records, ss) {
        forall i | 0 <= i < |ss[1..]| ensures CurrentIn(records, ss[1..][i]) {
          assert ss[1..][i] == ss[i + 1];
        }
      }
    }
  }

  lemma FlatReplacedCurrent(records: seq<Record>, ss: seq<seq<Entity>>, i: nat, x: seq<Entity>)
    requires i < |ss| && CurrentIn(records, FlatAll(ss))
    ensures CurrentIn(records, ss[i])
    ensures CurrentIn(records, x) ==> CurrentIn(records, FlatAll(ss[i := x]))
  {
    FlatCurrent(records, ss);
    FlatCurrent(records, ss[i := x]);
  }

  // A record changes that no handle of the list names.
  lemma OthersStayCurrent(records: seq<Record>, es: seq<Entity>, i: nat, r: Record)
    requires i < |records| && CurrentIn(records, es) && Bag(es)[i] == 0
    ensures CurrentIn(records[i := r], es)
  {
    forall k | 0 <= k < |es| ensures es[k].generation == GenerationOf(records[i := r], es[k].index) {
      BagHas(es, es[k]);
    }
  }

  // ---- Hands ----------------------------------------------------------------------------------------------

  // A hand grows by some ids: so does what is held.
  lemma HandGrows(s: Sys, c: nat, ids: seq<Entity>)
    requires c < |s.hands|
    ensures Bag(FlatAll(Handed(s, c, ids))) == Bag(Held(s)) + Bag(ids)
  {
    FlatReplaced(s.hands, c, s.hands[c] + ids);
    BagSplits(s.hands[c], ids);
    var a, b, h, i := Bag(FlatAll(Handed(s, c, ids))), Bag(Held(s)), Bag(s.hands[c]), Bag(ids);
    BagsCancel(a, b + i, h);
  }

  lemma HandGrowsCurrent(s: Sys, c: nat, ids: seq<Entity>, records: seq<Record>)
    requires c < |s.hands| && CurrentIn(records, Held(s)) && CurrentIn(records, ids)
    ensures CurrentIn(records, FlatAll(Handed(s, c, ids)))
  {
    FlatReplacedCurrent(records, s.hands, c, s.hands[c] + ids);
    CurrentJoins(records, s.hands[c], ids);
  }

  function HandsWithout(s: Sys, c: nat, at: nat): seq<seq<Entity>>
    requires Holds(s, c, at)
  {
    s.hands[c := Without(s.hands[c], at)]
  }

  // One held entity leaves a hand.
  lemma HandShrinks(s: Sys, c: nat, at: nat)
    requires Holds(s, c, at)
    ensures Bag(Held(s)) == Bag(FlatAll(HandsWithout(s, c, at))) + multiset{s.hands[c][at].index}
  {
    var hand := s.hands[c];
    WithoutBag(hand, at);
    FlatReplaced(s.hands, c, Without(hand, at));
    BagsCancel(Bag(Held(s)), Bag(FlatAll(HandsWithout(s, c, at))) + multiset{hand[at].index}, Bag(Without(hand, at)));
  }

  lemma HandShrinksCurrent(s: Sys, c: nat, at: nat, records: seq<Record>)
    requires Holds(s, c, at) && CurrentIn(records, Held(s))
    ensures CurrentIn(records, FlatAll(HandsWithout(s, c, at)))
    ensures s.hands[c][at].generation == GenerationOf(records, s.hands[c][at].index)
  {
    var hand := s.hands[c];
    FlatReplacedCurrent(records, s.hands, c, Without(hand, at));
    assert hand == hand[..at] + hand[at..] && hand[at..] == [hand[at]] + hand[at + 1..];
    CurrentJoins(records, hand[..at], hand[at..]);
    CurrentJoins(records, [hand[at]], hand[at + 1..]);
    CurrentJoins(records, hand[..at], hand[at + 1..]);
  }

  // ---- Blocks ---------------------------------------------------------------------------------------------

  function Taken(b: Block, d: Draw): seq<Entity> {
    match Take(b, d).1 case Some(ids) => ids case None => []
  }

  lemma TakeSplitsUnused(b: Block, d: Draw)
    ensures Unused(b) == Taken(b, d) + Unused(Take(b, d).0)
  {
  }

  // A block's tail is replaced: so is its part of the ledger.
  lemma TailReplaced(blocks: seq<Block>, b: nat, block: Block)
    requires b < |blocks|
    ensures Bag(UnusedTails(blocks[b := block])) + Bag(Unused(blocks[b])) ==
              Bag(UnusedTails(blocks)) + Bag(Unused(block))
  {
    assert BlockTails(blocks[b := block]) == BlockTails(blocks)[b := Unused(block)];
    FlatReplaced(BlockTails(blocks), b, Unused(block));
  }

  lemma TailReplacedCurrent(records: seq<Record>, blocks: seq<Block>, b: nat, block: Block)
    requires b < |blocks| && CurrentIn(records, UnusedTails(blocks))
    ensures CurrentIn(records, Unused(blocks[b]))
    ensures CurrentIn(records, Unused(block)) ==> CurrentIn(records, UnusedTails(blocks[b := block]))
  {
    assert BlockTails(blocks[b := block]) == BlockTails(blocks)[b := Unused(block)];
    FlatReplacedCurrent(records, BlockTails(blocks), b, Unused(block));
  }

  // ---- The lease -------------------------------------------------------------------------------------------

  lemma WonOne(l: Lease, n: nat)
    requires 0 < l.cursor <= |l.slots| && n > 0
    ensures var l1, last := l.(cursor := l.cursor - 1), [l.slots[l.cursor - 1]];
            Won(l, n) == last + Won(l1, n - 1) && Unconsumed(l) == Unconsumed(l1) + last
  {
  }

  lemma WonOneCounts(l: Lease, n: nat)
    requires 0 < l.cursor <= |l.slots| && n > 0
    ensures var l1, last := l.(cursor := l.cursor - 1), Bag([l.slots[l.cursor - 1]]);
            Bag(Won(l, n)) == last + Bag(Won(l1, n - 1)) && Bag(Unconsumed(l)) == Bag(Unconsumed(l1)) + last
  {
    var l1, last := l.(cursor := l.cursor - 1), [l.slots[l.cursor - 1]];
    WonOne(l, n);
    BagSplits(last, Won(l1, n - 1));
    BagSplits(Unconsumed(l1), last);
  }

  lemma WonNothing(l: Lease, n: nat)
    requires l.cursor <= |l.slots| && (n == 0 || l.cursor <= 0)
    ensures Bag(Won(l, n)) == multiset{} && Unconsumed(l) == Unconsumed(Lease(l.cursor - n, l.slots))
  {
    BagOfNone();
    assert Won(l, n) == [];
  }

  // A subtraction on the cursor moves what it wins out of the unconsumed prefix.
  lemma {:induction false} WonLeavesLease(l: Lease, n: nat, i: nat, left: Lease)
    requires l.cursor <= |l.slots| && left == Lease(l.cursor - n, l.slots)
    ensures Bag(Unconsumed(l))[i] == Bag(Won(l, n))[i] + Bag(Unconsumed(left))[i]
    decreases n
  {
    if n == 0 || l.cursor <= 0 {
      WonNothing(l, n);
    } else {
      WonLeavesLease(l.(cursor := l.cursor - 1), n - 1, i, left);
      WonOneCounts(l, n);
    }
  }

  lemma WonIsCurrent(records: seq<Record>, l: Lease, n: nat)
    requires l.cursor <= |l.slots| && CurrentIn(records, Unconsumed(l))
    ensures CurrentIn(records, Won(l, n)) && CurrentIn(records, Unconsumed(l.(cursor := l.cursor - n)))
  {
    var won, rest := Won(l, n), Unconsumed(l.(cursor := l.cursor - n));
    forall k | 0 <= k < |won| ensures won[k].generation == GenerationOf(records, won[k].index) {
      assert won[k] == Unconsumed(l)[l.cursor - 1 - k];
    }
    forall k | 0 <= k < |rest| ensures rest[k].generation == GenerationOf(records, rest[k].index) {
      assert rest[k] == Unconsumed(l)[k];
    }
  }

  // ---- Steps that draw on the pool ---------------------------------------------------------------------------

  lemma TakeLeaseKeepsPlaced(s: Sys, c: nat)
    requires Inv(s) && Enabled(s, TakeLease(c))
    ensures WellFormed(Next(s, TakeLease(c))) && Placed(Next(s, TakeLease(c)))
  {
    var n, l, s' := s.phases[c].n, s.pool.lease, Next(s, TakeLease(c));
    HandGrows(s, c, Won(l, n));
    forall i: nat ensures Places(s', i) == Places(s, i) {
      WonLeavesLease(l, n, i, s'.pool.lease);
    }
  }

  lemma TakeLeaseKeepsInv(s: Sys, c: nat)
    requires Inv(s) && Enabled(s, TakeLease(c))
    ensures Inv(Next(s, TakeLease(c)))
  {
    TakeLeaseKeepsPlaced(s, c);
    WonIsCurrent(s.pool.records, s.pool.lease, s.phases[c].n);
    HandGrowsCurrent(s, c, Won(s.pool.lease, s.phases[c].n), s.pool.records);
  }

  lemma TakeFreshKeepsPlaced(s: Sys, c: nat, grow: bool)
    requires Inv(s) && Enabled(s, TakeFresh(c, grow))
    ensures WellFormed(Next(s, TakeFresh(c, grow))) && Placed(Next(s, TakeFresh(c, grow)))
  {
    var n, mark, s' := s.phases[c].n, s.pool.highWater, Next(s, TakeFresh(c, grow));
    HandGrows(s, c, FreshIds(mark, n));
    forall i: nat ensures Places(s', i) == if i < mark + n then 1 else 0 {
      FreshBag(mark, n, i);
      assert Places(s, i) == if i < mark then 1 else 0;
    }
  }

  lemma GrownKeepsCurrent(records: seq<Record>, n: nat, es: seq<Entity>)
    requires CurrentIn(records, es)
    ensures CurrentIn(Grown(records, n), es)
  {
  }

  lemma GrowthKeepsCurrent(s: Sys, n: nat)
    requires WellFormed(s) && Current(s)
    ensures var records := Grown(s.pool.records, n);
            CurrentIn(records, Leased(s)) && CurrentIn(records, UnusedTails(s.blocks)) && CurrentIn(records, Held(s))
  {
    GrownKeepsCurrent(s.pool.records, n, Leased(s));
    GrownKeepsCurrent(s.pool.records, n, UnusedTails(s.blocks));
    GrownKeepsCurrent(s.pool.records, n, Held(s));
  }

  lemma FreshIsCurrent(p: Pool, n: nat)
    requires PoolValid(p)
    ensures CurrentIn(p.records, FreshIds(p.highWater, n))
    ensures CurrentIn(Grown(p.records, p.highWater + n), FreshIds(p.highWater, n))
  {
  }

  lemma TakeFreshKeepsCurrent(s: Sys, c: nat, grow: bool)
    requires WellFormed(s) && Current(s) && Enabled(s, TakeFresh(c, grow))
    ensures PoolValid(Next(s, TakeFresh(c, grow)).pool) && Current(Next(s, TakeFresh(c, grow)))
  {
    var n, p, s' := s.phases[c].n, s.pool, Next(s, TakeFresh(c, grow));
    GrowthKeepsCurrent(s, p.highWater + n);
    FreshIsCurrent(p, n);
    HandGrowsCurrent(s, c, FreshIds(p.highWater, n), s'.pool.records);
  }

  lemma TakeFreshKeepsInv(s: Sys, c: nat, grow: bool)
    requires Inv(s) && Enabled(s, TakeFresh(c, grow))
    ensures Inv(Next(s, TakeFresh(c, grow)))
  {
    TakeFreshKeepsPlaced(s, c, grow);
    TakeFreshKeepsCurrent(s, c, grow);
    TakeFreshKeepsRecords(s, c, grow);
  }

  lemma TakeFreshKeepsRecords(s: Sys, c: nat, grow: bool)
    requires WellFormed(s) && RetiredRight(s) && s.pool.live == LocatedCount(s.pool.records)
    requires Enabled(s, TakeFresh(c, grow))
    ensures var s' := Next(s, TakeFresh(c, grow)); RetiredRight(s') && s'.pool.live == LocatedCount(s'.pool.records)
  {
    GrownKeepsRecords(s, Next(s, TakeFresh(c, grow)), s.pool.highWater + s.phases[c].n);
  }

  lemma GrownKeepsRecords(s: Sys, s': Sys, n: nat)
    requires RetiredRight(s) && s.pool.live == LocatedCount(s.pool.records)
    requires s'.pool.records == s.pool.records || s'.pool.records == Grown(s.pool.records, n)
    requires s'.retired == s.retired && s'.pool.live == s.pool.live
    ensures RetiredRight(s') && s'.pool.live == LocatedCount(s'.pool.records)
  {
    LocatedCountGrown(s.pool.records, n);
  }

  lemma PoppedPlaces(s: Sys, s': Sys, e: Entity, i: nat)
    requires WellFormed(s) && WellFormed(s')
    requires s.pool.freeList == s'.pool.freeList + [e.index] && s'.hands == Handed(s, 0, [e])
    requires s' == s.(pool := s.pool.(freeList := s'.pool.freeList), hands := s'.hands)
    ensures Places(s', i) == Places(s, i)
  {
    HandGrows(s, 0, [e]);
    BagOfOne(e);
    CountAppended(s'.pool.freeList, e.index, i);
  }

  lemma PopFreeKeepsPlaced(s: Sys)
    requires Inv(s) && Enabled(s, PopFree)
    ensures WellFormed(Next(s, PopFree)) && Placed(Next(s, PopFree))
  {
    var s' := Next(s, PopFree);
    forall i: nat ensures Places(s', i) == Places(s, i) {
      PoppedPlaces(s, s', Popped(s.pool).1, i);
    }
  }

  lemma PopFreeKeepsInv(s: Sys)
    requires Inv(s) && Enabled(s, PopFree)
    ensures Inv(Next(s, PopFree))
  {
    PopFreeKeepsPlaced(s);
    HandGrowsCurrent(s, 0, [Popped(s.pool).1], s.pool.records);
  }

  // ---- Steps on blocks and hands ------------------------------------------------------------------------------

  lemma TailLosesTaken(blocks: seq<Block>, b: nat, d: Draw)
    requires b < |blocks|
    ensures Bag(UnusedTails(blocks)) == Bag(UnusedTails(blocks[b := Take(blocks[b], d).0])) + Bag(Taken(blocks[b], d))
  {
    var block, taken := Take(blocks[b], d).0, Taken(blocks[b], d);
    TakeSplitsUnused(blocks[b], d);
    BagSplits(taken, Unused(block));
    TailReplaced(blocks, b, block);
    BagsCancel(Bag(UnusedTails(blocks[b := block])) + Bag(taken), Bag(UnusedTails(blocks)), Bag(Unused(block)));
  }

  lemma DrawBlockKeepsPlaced(s: Sys, c: nat, b: nat, d: Draw)
    requires Inv(s) && Enabled(s, DrawBlock(c, b, d))
    ensures Placed(Next(s, DrawBlock(c, b, d)))
  {
    var s', taken := Next(s, DrawBlock(c, b, d)), Taken(s.blocks[b], d);
    TailLosesTaken(s.blocks, b, d);
    HandGrows(s, c, taken);
    HandedNothing(s, c);
    forall i: nat ensures Places(s', i) == Places(s, i) {
      assert (Bag(UnusedTails(s'.blocks)) + Bag(taken))[i] == Bag(UnusedTails(s.blocks))[i];
    }
  }

  lemma HandedNothing(s: Sys, c: nat)
    requires c < |s.hands|
    ensures Handed(s, c, []) == s.hands
  {
    assert s.hands[c] + [] == s.hands[c];
  }

  lemma DrawBlockKeepsInv(s: Sys, c: nat, b: nat, d: Draw)
    requires Inv(s) && Enabled(s, DrawBlock(c, b, d))
    ensures Inv(Next(s, DrawBlock(c, b, d)))
  {
    var block, taken, records := Take(s.blocks[b], d).0, Taken(s.blocks[b], d), s.pool.records;
    DrawBlockKeepsPlaced(s, c, b, d);
    TakeSplitsUnused(s.blocks[b], d);
    TailReplacedCurrent(records, s.blocks, b, block);
    CurrentJoins(records, taken, Unused(block));
    HandGrowsCurrent(s, c, taken, records);
    HandedNothing(s, c);
  }

  lemma SealedTails(blocks: seq<Block>, ids: seq<Entity>)
    ensures UnusedTails(blocks + [Block(ids, 0, false)]) == UnusedTails(blocks) + ids
  {
    assert BlockTails(blocks + [Block(ids, 0, false)]) == BlockTails(blocks) + [ids];
    FlatAppended(BlockTails(blocks), ids);
  }

  lemma SealBlockKeepsPlaced(s: Sys, size: nat)
    requires Inv(s) && Enabled(s, SealBlock(size))
    ensures Placed(Next(s, SealBlock(size)))
  {
    var hand, s' := s.hands[0], Next(s, SealBlock(size));
    var kept, ids := hand[..|hand| - size], hand[|hand| - size..];
    SealedTails(s.blocks, ids);
    BagSplits(UnusedTails(s.blocks), ids);
    FlatReplaced(s.hands, 0, kept);
    assert hand == kept + ids;
    BagSplits(kept, ids);
    BagsCancel(Bag(Held(s')) + Bag(ids), Bag(Held(s)), Bag(kept));
    forall i: nat ensures Places(s', i) == Places(s, i) {
      assert (Bag(Held(s')) + Bag(ids))[i] == Bag(Held(s))[i];
    }
  }

  lemma SealBlockKeepsInv(s: Sys, size: nat)
    requires Inv(s) && Enabled(s, SealBlock(size))
    ensures Inv(Next(s, SealBlock(size)))
  {
    var hand, records := s.hands[0], s.pool.records;
    var kept, ids := hand[..|hand| - size], hand[|hand| - size..];
    SealBlockKeepsPlaced(s, size);
    SealedTails(s.blocks, ids);
    FlatReplacedCurrent(records, s.hands, 0, kept);
    assert hand == kept + ids;
    CurrentJoins(records, kept, ids);
    CurrentJoins(records, UnusedTails(s.blocks), ids);
  }

  lemma ReclaimBlockKeepsPlaced(s: Sys, b: nat)
    requires Inv(s) && Enabled(s, ReclaimBlock(b))
    ensures Placed(Next(s, ReclaimBlock(b)))
  {
    var s', done := Next(s, ReclaimBlock(b)), Finished(s.blocks[b]);
    TailReplaced(s.blocks, b, done);
    assert Unused(done) == [];
    BagOfNone();
    forall i: nat ensures Places(s', i) == Places(s, i) {
      assert (Bag(UnusedTails(s'.blocks)) + Bag(Unused(s.blocks[b])))[i] == Bag(UnusedTails(s.blocks))[i];
    }
  }

  lemma ReclaimBlockKeepsInv(s: Sys, b: nat)
    requires Inv(s) && Enabled(s, ReclaimBlock(b))
    ensures Inv(Next(s, ReclaimBlock(b)))
  {
    ReclaimBlockKeepsPlaced(s, b);
    assert Unused(Finished(s.blocks[b])) == [];
    TailReplacedCurrent(s.pool.records, s.blocks, b, Finished(s.blocks[b]));
    assert PoolValid(Next(s, ReclaimBlock(b)).pool);
  }

  /** What a client holds is nowhere else. */
  lemma HeldIsAlone(s: Sys, c: nat, at: nat)
    requires Inv(s) && Holds(s, c, at)
    ensures var i := s.hands[c][at].index;
            i < s.pool.highWater && i !in s.retired
            && Bag(Leased(s))[i] == 0 && Bag(UnusedTails(s.blocks))[i] == 0 &&
               Bag(FlatAll(HandsWithout(s, c, at)))[i] == 0
  {
    HandShrinks(s, c, at);
    assert Places(s, s.hands[c][at].index) >= 1;
  }

  lemma HeldIsCurrent(s: Sys, c: nat, at: nat)
    requires Inv(s) && Holds(s, c, at)
    ensures s.hands[c][at].generation == GenerationOf(s.pool.records, s.hands[c][at].index)
    ensures s.hands[c][at].generation < MAX
  {
    HandShrinksCurrent(s, c, at, s.pool.records);
    HeldIsAlone(s, c, at);
  }

  lemma AbandonHeldEffect(s: Sys, c: nat, at: nat)
    requires Inv(s) && Enabled(s, AbandonHeld(c, at))
    ensures var s' := Next(s, AbandonHeld(c, at));
            && WellFormed(s') && s' == s.(pool := s'.pool, hands := HandsWithout(s, c, at))
            && s'.pool == s.pool.(abandoned := s.pool.abandoned + [s.hands[c][at].index], pending := true)
  {
    HeldIsAlone(s, c, at);
  }

  // The index leaves the hands and joins the queue; nothing else moves.
  lemma AbandonedPlaces(s: Sys, s': Sys, c: nat, at: nat, i: nat)
    requires WellFormed(s) && WellFormed(s') && Holds(s, c, at)
    requires s' == s.(pool := s'.pool, hands := HandsWithout(s, c, at))
    requires s'.pool == s.pool.(abandoned := s.pool.abandoned + [s.hands[c][at].index], pending := true)
    ensures Places(s', i) == Places(s, i)
  {
    var x := s.hands[c][at].index;
    HandShrinks(s, c, at);
    assert multiset(s'.pool.abandoned) == multiset(s.pool.abandoned) + multiset{x};
    if i == x {
      assert multiset(s'.pool.abandoned)[x] == multiset(s.pool.abandoned)[x] + 1;
      assert Bag(Held(s))[x] == Bag(Held(s'))[x] + 1;
    } else {
      assert multiset(s'.pool.abandoned)[i] == multiset(s.pool.abandoned)[i] && Bag(Held(s))[i] == Bag(Held(s'))[i];
    }
  }

  lemma AbandonHeldKeepsPlaced(s: Sys, c: nat, at: nat)
    requires Inv(s) && Enabled(s, AbandonHeld(c, at))
    ensures WellFormed(Next(s, AbandonHeld(c, at))) && Placed(Next(s, AbandonHeld(c, at)))
  {
    var s' := Next(s, AbandonHeld(c, at));
    AbandonHeldEffect(s, c, at);
    forall i: nat ensures Places(s', i) == Places(s, i) {
      AbandonedPlaces(s, s', c, at, i);
    }
  }

  lemma AbandonHeldKeepsInv(s: Sys, c: nat, at: nat)
    requires Inv(s) && Enabled(s, AbandonHeld(c, at))
    ensures Inv(Next(s, AbandonHeld(c, at)))
  {
    AbandonHeldKeepsPlaced(s, c, at);
    HandShrinksCurrent(s, c, at, s.pool.records);
  }

  lemma SameGenerations(records: seq<Record>, records': seq<Record>, es: seq<Entity>)
    requires CurrentIn(records, es)
    requires forall i :: GenerationOf(records', i) == GenerationOf(records, i)
    ensures CurrentIn(records', es)
  {
  }

  lemma LocateKeepsInv(s: Sys, c: nat, at: nat, loc: Location)
    requires Inv(s) && Enabled(s, Locate(c, at, loc))
    ensures Inv(Next(s, Locate(c, at, loc)))
  {
    var e, p, s' := s.hands[c][at], s.pool, Next(s, Locate(c, at, loc));
    if e.index < |p.records| && p.records[e.index].generation == e.generation {
      SetLocationCountsExactly(p, e, loc);
    }
    forall i: nat ensures Places(s', i) == Places(s, i) {
    }
    SameGenerations(p.records, s'.pool.records, Leased(s));
    SameGenerations(p.records, s'.pool.records, UnusedTails(s.blocks));
    SameGenerations(p.records, s'.pool.records, Held(s));
  }

  // ---- Freeing -----------------------------------------------------------------------------------------------

  // What freeing a held entity does: its slot is listed, or retired when its generations have run out.
  ghost predicate Frees(s: Sys, s': Sys, e: Entity, hands: seq<seq<Entity>>) {
    && s' == s.(pool := s'.pool, hands := hands, retired := s'.retired)
    && s'.pool == s.pool.(records := s'.pool.records, freeList := s'.pool.freeList, live := s'.pool.live)
    && e.index < |s.pool.records|
    && s'.pool.records == s.pool.records[e.index := Record(e.generation + 1, NO_LOCATION)]
    && s'.pool.freeList == (if e.generation + 1 == MAX then s.pool.freeList else s.pool.freeList + [e.index])
    && s'.retired == (if e.generation + 1 == MAX then s.retired + [e.index] else s.retired)
  }

  lemma FreeHeldEffect(s: Sys, c: nat, at: nat)
    requires Inv(s) && Enabled(s, FreeHeld(c, at)) && s.hands[c][at].index < |s.pool.records|
    ensures Frees(s, Next(s, FreeHeld(c, at)), s.hands[c][at], HandsWithout(s, c, at))
    ensures Next(s, FreeHeld(c, at)).pool == Free(s.pool, s.hands[c][at]).0
  {
    HeldIsCurrent(s, c, at);
    FreeCurrent(s.pool, s.hands[c][at]);
  }

  // What freeing a current handle below the last generation does to the pool.
  lemma FreeCurrent(p: Pool, e: Entity)
    requires e.index < |p.records| && p.records[e.index].generation == e.generation < MAX
    ensures var (q, freed) := Free(p, e);
            && freed && q == p.(records := q.records, freeList := q.freeList, live := q.live)
            && q.records == p.records[e.index := Record(e.generation + 1, NO_LOCATION)]
            && q.freeList == (if e.generation + 1 == MAX then p.freeList else p.freeList + [e.index])
            && (q.freeList == p.freeList <==> e.generation + 1 == MAX)
  {
    assert |p.freeList + [e.index]| == |p.freeList| + 1;
  }

  lemma FreedPlaces(s: Sys, s': Sys, c: nat, at: nat, i: nat)
    requires WellFormed(s) && WellFormed(s') && Holds(s, c, at)
    requires s' == s.(pool := s'.pool, hands := HandsWithout(s, c, at), retired := s'.retired)
    requires s'.pool.lease == s.pool.lease && s'.pool.abandoned == s.pool.abandoned
    requires var x := s.hands[c][at].index;
             || (s'.pool.freeList == s.pool.freeList + [x] && s'.retired == s.retired)
             || (s'.pool.freeList == s.pool.freeList && s'.retired == s.retired + [x])
    ensures Places(s', i) == Places(s, i)
  {
    HandShrinks(s, c, at);
    if s'.retired == s.retired {
      CountAppended(s.pool.freeList, s.hands[c][at].index, i);
    } else {
      CountAppended(s.retired, s.hands[c][at].index, i);
    }
  }

  lemma FreeHeldKeepsPlaced(s: Sys, c: nat, at: nat)
    requires Inv(s) && Enabled(s, FreeHeld(c, at)) && s.hands[c][at].index < |s.pool.records|
    ensures WellFormed(Next(s, FreeHeld(c, at))) && Placed(Next(s, FreeHeld(c, at)))
  {
    var s' := Next(s, FreeHeld(c, at));
    FreeHeldEffect(s, c, at);
    forall i: nat ensures Places(s', i) == Places(s, i) {
      FreedPlaces(s, s', c, at, i);
    }
  }

  lemma FreedIsCurrent(s: Sys, s': Sys, c: nat, at: nat)
    requires Inv(s) && Holds(s, c, at) && Frees(s, s', s.hands[c][at], HandsWithout(s, c, at))
    ensures PoolValid(s'.pool) && Current(s')
  {
    var e, records := s.hands[c][at], s.pool.records;
    HeldIsAlone(s, c, at);
    HandShrinksCurrent(s, c, at, records);
    OthersAreCurrent(s, HandsWithout(s, c, at), e.index, Record(e.generation + 1, NO_LOCATION));
  }

  lemma OthersAreCurrent(s: Sys, hands: seq<seq<Entity>>, i: nat, r: Record)
    requires WellFormed(s) && Current(s) && CurrentIn(s.pool.records, FlatAll(hands)) && i < |s.pool.records|
    requires Bag(Leased(s))[i] == 0 && Bag(UnusedTails(s.blocks))[i] == 0 && Bag(FlatAll(hands))[i] == 0
    ensures var records := s.pool.records[i := r];
            && CurrentIn(records, Leased(s)) && CurrentIn(records, UnusedTails(s.blocks))
            && CurrentIn(records, FlatAll(hands))
  {
    OthersStayCurrent(s.pool.records, Leased(s), i, r);
    OthersStayCurrent(s.pool.records, UnusedTails(s.blocks), i, r);
    OthersStayCurrent(s.pool.records, FlatAll(hands), i, r);
  }

  lemma FreedIsRetiredRight(s: Sys, s': Sys, c: nat, at: nat)
    requires Inv(s) && Holds(s, c, at) && Frees(s, s', s.hands[c][at], HandsWithout(s, c, at))
    ensures RetiredRight(s')
  {
    var e := s.hands[c][at];
    HeldIsCurrent(s, c, at);
    HeldIsAlone(s, c, at);
    assert RetiredRight(s) && e.index !in s.retired;
    FreeKeepsRetired(s, s', e);
  }

  // A handle whose record is not materialised yet cannot be freed: nothing changes.
  lemma FreeHeldKeepsInv(s: Sys, c: nat, at: nat)
    requires Inv(s) && Enabled(s, FreeHeld(c, at))
    ensures Inv(Next(s, FreeHeld(c, at)))
  {
    if s.hands[c][at].index < |s.pool.records| {
      FreeMaterialisedKeepsInv(s, c, at);
    }
  }

  lemma FreeMaterialisedKeepsInv(s: Sys, c: nat, at: nat)
    requires Inv(s) && Enabled(s, FreeHeld(c, at)) && s.hands[c][at].index < |s.pool.records|
    ensures Inv(Next(s, FreeHeld(c, at)))
  {
    var s' := Next(s, FreeHeld(c, at));
    FreeHeldEffect(s, c, at);
    FreeHeldKeepsPlaced(s, c, at);
    FreedIsCurrent(s, s', c, at);
    FreedIsRetiredRight(s, s', c, at);
    FreeCounts(s.pool, s.hands[c][at]);
  }

  lemma FreeKeepsRetired(s: Sys, s': Sys, e: Entity)
    requires RetiredRight(s) && e.index < |s.pool.records| && e.index !in s.retired && e.generation < MAX
    requires s'.pool.records == s.pool.records[e.index := Record(e.generation + 1, NO_LOCATION)]
    requires s'.retired == if e.generation + 1 == MAX then s.retired + [e.index] else s.retired
    ensures RetiredRight(s')
  {
  }

  // ---- Flush ---------------------------------------------------------------------------------------------------

  lemma PrepareKeepsInv(s: Sys)
    requires Inv(s)
    ensures Inv(s.(pool := Drained(Materialized(s.pool))))
  {
    var p, s' := s.pool, s.(pool := Drained(Materialized(s.pool)));
    LocatedCountGrown(p.records, p.highWater);
    PreparedIsValid(p);
    forall i: nat ensures Places(s', i) == Places(s, i) {
    }
    GrowthKeepsCurrent(s, p.highWater);
  }

  lemma ReleaseKeepsPlaced(s: Sys)
    requires Inv(s)
    ensures PoolValid(Released(s.pool)) && Placed(s.(pool := Released(s.pool)))
  {
    var p, q, s' := s.pool, Released(s.pool), s.(pool := Released(s.pool));
    var free := p.freeList + Indices(Unconsumed(p.lease));
    assert Unconsumed(q.lease) == q.lease.slots;
    assert Indices(q.lease.slots) == free;
    assert multiset(free) == multiset(p.freeList) + Bag(Unconsumed(p.lease));
    forall i: nat ensures Places(s', i) == Places(s, i) {
    }
  }

  lemma ReleaseKeepsInv(s: Sys)
    requires Inv(s)
    ensures Inv(s.(pool := Released(s.pool)))
  {
    ReleaseKeepsPlaced(s);
    var q := Released(s.pool);
    assert Unconsumed(q.lease) == q.lease.slots;
    assert CurrentIn(s.pool.records, q.lease.slots);
  }

  lemma FlushKeepsInv(s: Sys)
    requires Inv(s) && Enabled(s, FlushPool)
    ensures Inv(Next(s, FlushPool))
  {
    PrepareKeepsInv(s);
    PreparedIsValid(s.pool);
    var t := s.(pool := Drained(Materialized(s.pool)));
    if !NothingToReconcile(t.pool) {
      ReleaseKeepsInv(t);
    }
  }

  // ---- Every run ----------------------------------------------------------------------------------------------

  lemma PhaseStepKeepsInv(s: Sys, phases: seq<Phase>)
    requires Inv(s) && |phases| == |s.phases|
    ensures Inv(s.(phases := phases))
  {
    var s' := s.(phases := phases);
    forall i: nat ensures Places(s', i) == Places(s, i) {
    }
  }

  lemma StepKeepsInv(s: Sys, step: Step)
    requires Inv(s) && Enabled(s, step)
    ensures Inv(Next(s, step))
  {
    match step
    case ReadLease(c, n) => PhaseStepKeepsInv(s, Next(s, step).phases);
    case TakeLease(c) => TakeLeaseKeepsInv(s, c);
    case TakeFresh(c, grow) => TakeFreshKeepsInv(s, c, grow);
    case PopFree => PopFreeKeepsInv(s);
    case PeekLease => PhaseStepKeepsInv(s, Next(s, step).phases);
    case DrawBlock(c, b, d) => DrawBlockKeepsInv(s, c, b, d);
    case SealBlock(size) => SealBlockKeepsInv(s, size);
    case ReclaimBlock(b) => ReclaimBlockKeepsInv(s, b);
    case FreeHeld(c, at) => FreeHeldKeepsInv(s, c, at);
    case AbandonHeld(c, at) => AbandonHeldKeepsInv(s, c, at);
    case Locate(c, at, loc) => LocateKeepsInv(s, c, at, loc);
    case FlushPool => FlushKeepsInv(s);
  }

  lemma {:induction false} FlatOfEmpties(n: nat)
    ensures FlatAll(seq(n, _ => [])) == []
    decreases n
  {
    if n > 0 {
      var empties: seq<seq<Entity>> := seq(n, _ => []);
      FlatOfEmpties(n - 1);
      assert empties[1..] == seq(n - 1, _ => []);
    }
  }

  lemma InitialInv(clients: nat)
    requires clients > 0
    ensures Inv(Initial(clients))
  {
    var s := Initial(clients);
    FlatOfEmpties(clients);
    BagOfNone();
    assert UnusedTails([]) == [] && Leased(s) == [];
  }

  lemma {:induction false} RunKeepsInv(s: Sys, steps: seq<Step>, s': Sys)
    requires Inv(s) && Reaches(s, steps, s')
    ensures Inv(s')
    decreases |steps|
  {
    if steps != [] {
      StepKeepsInv(s, steps[0]);
      RunKeepsInv(Next(s, steps[0]), steps[1..], s');
    }
  }

  /** In every reachable state each index below the mark is in exactly one place, once, no other index
      is anywhere, and every handle that can be used carries its record's generation. */
  lemma EveryIndexInOnePlace(clients: nat, steps: seq<Step>, s: Sys, i: nat)
    requires clients > 0 && Reaches(Initial(clients), steps, s)
    ensures WellFormed(s) && Current(s)
    ensures multiset(s.pool.freeList)[i] + Bag(Leased(s))[i] + Bag(UnusedTails(s.blocks))[i]
            + multiset(s.pool.abandoned)[i] + multiset(s.retired)[i] + Bag(Held(s))[i]
            == if i < s.pool.highWater then 1 else 0
  {
    InitialInv(clients);
    RunKeepsInv(Initial(clients), steps, s);
    assert Places(s, i) == if i < s.pool.highWater then 1 else 0;
  }

  lemma {:induction false} FlatHas(ss: seq<seq<Entity>>, i: nat, e: Entity)
    requires i < |ss| && e in ss[i]
    ensures e in FlatAll(ss)
    decreases |ss|
  {
    if i > 0 {
      FlatHas(ss[1..], i - 1, e);
    }
  }

  /** No index is ever held twice, by one client or by two. */
  lemma NoIndexHeldTwice(clients: nat, steps: seq<Step>, s: Sys, c: nat, at: nat, d: nat, bt: nat)
    requires clients > 0 && Reaches(Initial(clients), steps, s)
    requires Holds(s, c, at) && Holds(s, d, bt) && (c, at) != (d, bt)
    ensures s.hands[c][at].index != s.hands[d][bt].index
  {
    InitialInv(clients);
    RunKeepsInv(Initial(clients), steps, s);
    HeldIsAlone(s, c, at);
    var x, hands' := s.hands[d][bt], HandsWithout(s, c, at);
    if c == d {
      assert x == hands'[d][if bt < at then bt else bt - 1];
    }
    FlatHas(hands', d, x);
    BagHas(FlatAll(hands'), x);
  }

  lemma TwiceInBag(es: seq<Entity>, k: nat, l: nat)
    requires k < l < |es| && es[k].index == es[l].index
    ensures Bag(es)[es[k].index] >= 2
  {
    var all := Indices(es);
    assert all == all[..l] + all[l..];
    assert all[..l][k] == all[k] && all[l..][0] == all[l];
    assert all[k] in all[..l] && all[l] in all[l..];
    assert multiset(all)[all[k]] == multiset(all[..l])[all[k]] + multiset(all[l..])[all[k]];
  }

  lemma LeasedIsDistinct(s: Sys, k: nat, l: nat)
    requires Inv(s) && k < l < |Leased(s)|
    ensures Leased(s)[k].index != Leased(s)[l].index
  {
    assert Places(s, Leased(s)[k].index) <= 1;
    if Leased(s)[k].index == Leased(s)[l].index {
      TwiceInBag(Leased(s), k, l);
    }
  }

  lemma ReservedDiffer(s: Sys, i: nat, j: nat)
    requires Inv(s) && i < j
    ensures NthReserved(s.pool, i).index != NthReserved(s.pool, j).index
  {
    var left := |Leased(s)|;
    if j < left {
      LeasedIsDistinct(s, left - 1 - j, left - 1 - i);
    }
  }

  /** In every reachable state no two reservations to come are of the same index. */
  lemma ReservationsAreDistinct(clients: nat, steps: seq<Step>, s: Sys)
    requires clients > 0 && Reaches(Initial(clients), steps, s)
    ensures PoolValid(s.pool) && DistinctReservations(s.pool)
  {
    InitialInv(clients);
    RunKeepsInv(Initial(clients), steps, s);
    forall i: nat, j: nat | i != j ensures NthReserved(s.pool, i) != NthReserved(s.pool, j) {
      ReservedDiffer(s, if i < j then i else j, if i < j then j else i);
    }
  }

  /** In every reachable state the live counter is the number of located records. */
  lemma LiveCountIsExact(clients: nat, steps: seq<Step>, s: Sys)
    requires clients > 0 && Reaches(Initial(clients), steps, s)
    ensures s.pool.live == LocatedCount(s.pool.records)
  {
    InitialInv(clients);
    RunKeepsInv(Initial(clients), steps, s);
  }

  // ---- The dead stay dead ----------------------------------------------------------------------------------------

  lemma StepKeepsGenerations(s: Sys, step: Step, i: nat)
    requires Inv(s) && Enabled(s, step)
    ensures GenerationOf(Next(s, step).pool.records, i) >= GenerationOf(s.pool.records, i)
  {
    if step.FreeHeld? {
      HeldIsCurrent(s, step.client, step.at);
    }
  }

  lemma {:induction false} RunKeepsGenerations(s: Sys, steps: seq<Step>, s': Sys, i: nat)
    requires Inv(s) && Reaches(s, steps, s')
    ensures GenerationOf(s'.pool.records, i) >= GenerationOf(s.pool.records, i)
    decreases |steps|
  {
    if steps != [] {
      StepKeepsInv(s, steps[0]);
      StepKeepsGenerations(s, steps[0], i);
      RunKeepsGenerations(Next(s, steps[0]), steps[1..], s', i);
    }
  }

  /** A handle that was freed is not alive in any state reached afterwards. */
  lemma FreedStaysDead(s: Sys, c: nat, at: nat, later: seq<Step>, s': Sys)
    requires Inv(s) && Enabled(s, FreeHeld(c, at)) && Free(s.pool, s.hands[c][at]).1
    requires Reaches(Next(s, FreeHeld(c, at)), later, s')
    ensures !IsAlive(s'.pool, s.hands[c][at])
  {
    var e := s.hands[c][at];
    HeldIsCurrent(s, c, at);
    StepKeepsInv(s, FreeHeld(c, at));
    var s1 := Next(s, FreeHeld(c, at));
    assert GenerationOf(s1.pool.records, e.index) == e.generation + 1;
    RunKeepsGenerations(s1, later, s', e.index);
  }

  // ---- Where the held are --------------------------------------------------------------------------------

  /** The location last set through a handle that was held, and not freed since. A record must have been
      materialised to hold one. */
  ghost function LastSet(s: Sys, steps: seq<Step>, e: Entity, was: Option<Location>): Option<Location>
    decreases |steps|
  {
    if steps == [] || !WellFormed(s) || !Enabled(s, steps[0]) then was
    else
      var now :=
        match steps[0]
        case Locate(c, at, loc) => if s.hands[c][at] == e && e.index < |s.pool.records| then Some(loc) else was
        case FreeHeld(c, at) => if s.hands[c][at] == e then None else was
        case _ => was;
      LastSet(Next(s, steps[0]), steps[1..], e, now)
  }

  lemma LocateFound(s: Sys, c: nat, at: nat, loc: Location, e: Entity)
    requires Inv(s) && Enabled(s, Locate(c, at, loc))
    ensures LocationOf(Next(s, Locate(c, at, loc)).pool, e) ==
            if s.hands[c][at] == e && e.index < |s.pool.records| then Some(loc) else LocationOf(s.pool, e)
  {
    var x := s.hands[c][at];
    HeldIsCurrent(s, c, at);
    if x.index < |s.pool.records| {
      SetLocationFound(s.pool, x, loc, e);
    } else {
      StaleSetsNothing(s.pool, x, loc);
    }
  }

  lemma FreeHeldFound(s: Sys, c: nat, at: nat, e: Entity)
    requires Inv(s) && Enabled(s, FreeHeld(c, at))
    ensures LocationOf(Next(s, FreeHeld(c, at)).pool, e) == if s.hands[c][at] == e then None else LocationOf(s.pool, e)
  {
    var x := s.hands[c][at];
    HeldIsCurrent(s, c, at);
    if x.index < |s.pool.records| {
      FreedIsNowhere(s.pool, x, e);
    }
  }

  lemma OthersFound(s: Sys, step: Step, e: Entity)
    requires Inv(s) && Enabled(s, step) && !step.Locate? && !step.FreeHeld?
    ensures LocationOf(Next(s, step).pool, e) == LocationOf(s.pool, e)
  {
    match step
    case TakeFresh(c, grow) =>
      if grow { GrownIsNowhere(s.pool, Next(s, step).pool, s.pool.highWater + s.phases[c].n, e); }
    case FlushPool =>
      PreparedIsValid(s.pool);
      GrownIsNowhere(s.pool, Flush(s.pool), s.pool.highWater, e);
    case _ =>
  }

  lemma {:induction false} RunFindsLastSet(s: Sys, steps: seq<Step>, s': Sys, e: Entity)
    requires Inv(s) && Reaches(s, steps, s')
    ensures LocationOf(s'.pool, e) == LastSet(s, steps, e, LocationOf(s.pool, e))
    decreases |steps|
  {
    if steps != [] {
      StepKeepsInv(s, steps[0]);
      match steps[0] {
        case Locate(c, at, loc) => LocateFound(s, c, at, loc, e);
        case FreeHeld(c, at) => FreeHeldFound(s, c, at, e);
        case _ => OthersFound(s, steps[0], e);
      }
      RunFindsLastSet(Next(s, steps[0]), steps[1..], s', e);
    }
  }

  /** In every interleaved run the location found for a handle is the one last set through it while it was held,
      and none before that or once it is freed. */
  lemma LastSetIsFound(clients: nat, steps: seq<Step>, s: Sys, e: Entity)
    requires clients > 0 && Reaches(Initial(clients), steps, s)
    ensures LocationOf(s.pool, e) == LastSet(Initial(clients), steps, e, None)
  {
    InitialInv(clients);
    RunFindsLastSet(Initial(clients), steps, s, e);
  }
}
