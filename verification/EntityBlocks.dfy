/** Private id blocks: each system draws from ids reserved for it in advance, so its ids depend on
    its own draws alone.
  */
module EntityBlocks {
  import opened Basics
  import opened EntityPool

  datatype Block = Block(ids: seq<Entity>, next: nat, overflowed: bool)

  // One reservation, or a batch that must fit whole.
  datatype Draw = Single | Batch(n: nat)

  function Size(d: Draw): nat {
    match d case Single => 1 case Batch(n) => n
  }

  /** What a draw takes from the block; None when it falls through to the shared pool. */
  function Take(b: Block, d: Draw): (Block, Option<seq<Entity>>) {
    match d
    case Single =>
      if b.next < |b.ids| then (b.(next := b.next + 1), Some([b.ids[b.next]]))
      else (b.(next := b.next + 1, overflowed := true), None)
    case Batch(n) =>
      if n == 0 then (b, Some([]))
      else if b.next + n <= |b.ids| then (b.(next := b.next + n), Some(b.ids[b.next..b.next + n]))
      else (b.(overflowed := true), None)
  }

  function Unused(b: Block): seq<Entity> {
    if b.next <= |b.ids| then b.ids[b.next..] else []
  }

  // ---- One system on its own --------------------------------------------------------------------------

  function DrawAll(b: Block, draws: seq<Draw>): (Block, seq<Option<seq<Entity>>>) {
    if draws == [] then (b, [])
    else
      var (b1, taken) := DrawAll(b, draws[..|draws| - 1]);
      var (b2, last) := Take(b1, draws[|draws| - 1]);
      (b2, taken + [last])
  }

  function Demand(draws: seq<Draw>): nat {
    if draws == [] then 0
    else Demand(draws[..|draws| - 1]) + Size(draws[|draws| - 1])
  }

  function Flat(taken: seq<Option<seq<Entity>>>): seq<Entity> {
    if taken == [] then []
    else Flat(taken[..|taken| - 1]) + match taken[|taken| - 1] case None => [] case Some(ids) => ids
  }

  lemma TakeWithinDemand(b: Block, d: Draw)
    requires b.next + Demand([d]) <= |b.ids|
    ensures Take(b, d) == (b.(next := b.next + Demand([d])), Some(b.ids[b.next..b.next + Demand([d])]))
  {
    assert [d][..0] == [];
    assert Demand([d]) == Demand([]) + Size(d);
    match d
    case Single => assert b.ids[b.next..b.next + 1] == [b.ids[b.next]];
    case Batch(n) => assert n == 0 ==> b.ids[b.next..b.next + n] == [];
  }

  lemma DemandLast(draws: seq<Draw>)
    requires draws != []
    ensures Demand(draws) == Demand(draws[..|draws| - 1]) + Demand([draws[|draws| - 1]])
  {
    assert [draws[|draws| - 1]][..0] == [];
  }

  lemma FlatLast(taken: seq<Option<seq<Entity>>>, ids: seq<Entity>)
    ensures Flat(taken + [Some(ids)]) == Flat(taken) + ids
  {
    var longer := taken + [Some(ids)];
    assert longer[..|longer| - 1] == taken && longer[|longer| - 1] == Some(ids);
  }

  lemma SlicesJoin<T>(s: seq<T>, i: nat, j: nat, k: nat)
    requires i <= j <= k <= |s|
    ensures s[i..j] + s[j..k] == s[i..k]
  {
  }

  /** A system whose draws stay within its block gets the block's ids in order, and leaves the rest. */
  lemma {:induction false} WithinDemandIsPrefix(b: Block, draws: seq<Draw>)
    requires b.next + Demand(draws) <= |b.ids|
    ensures var (b', taken) := DrawAll(b, draws);
            && None !in taken
            && b' == b.(next := b.next + Demand(draws))
            && Flat(taken) == b.ids[b.next..b.next + Demand(draws)]
    decreases |draws|
  {
    if draws != [] {
      var init, d := draws[..|draws| - 1], draws[|draws| - 1];
      DemandLast(draws);
      WithinDemandIsPrefix(b, init);
      var (before, taken) := DrawAll(b, init);
      TakeWithinDemand(before, d);
      TakenJoins(b, taken, before.next, before.next + Demand([d]));
    }
  }

  lemma TakenJoins(b: Block, taken: seq<Option<seq<Entity>>>, i: nat, j: nat)
    requires b.next <= i <= j <= |b.ids| && Flat(taken) == b.ids[b.next..i] && None !in taken
    ensures Flat(taken + [Some(b.ids[i..j])]) == b.ids[b.next..j] && None !in taken + [Some(b.ids[i..j])]
  {
    FlatLast(taken, b.ids[i..j]);
    SlicesJoin(b.ids, b.next, i, j);
  }

  /** The overflow flag says exactly whether some draw fell through. */
  lemma {:induction false} OverflowExactly(b: Block, draws: seq<Draw>)
    ensures DrawAll(b, draws).0.overflowed <==> b.overflowed || None in DrawAll(b, draws).1
  {
    if draws != [] {
      OverflowExactly(b, draws[..|draws| - 1]);
    }
  }

  // ---- Any interleaving ----------------------------------------------------------------------------------

  type Schedule = seq<(nat, Draw)>

  function DrawsOf(schedule: Schedule, system: nat): seq<Draw> {
    if schedule == [] then []
    else
      var last := schedule[|schedule| - 1];
      DrawsOf(schedule[..|schedule| - 1], system) + if last.0 == system then [last.1] else []
  }

  // What a draw hands out: ids of the block, or of the shared pool where it falls through.
  function Drawn(p: Pool, b: Block, d: Draw): (r: (Pool, Block, seq<Entity>))
    requires p.lease.cursor <= |p.lease.slots|
    ensures r.0.lease.cursor <= |r.0.lease.slots|
  {
    var (after, taken) := Take(b, d);
    match taken
    case Some(ids) => (p, after, ids)
    case None => var (q, ids) := Reserve(p, Size(d)); (q, after, ids)
  }

  datatype Outcome = Outcome(pool: Pool, blocks: seq<Block>, drawn: seq<seq<seq<Entity>>>)

  function Stepped(o: Outcome, system: nat, d: Draw): (r: Outcome)
    requires |o.blocks| == |o.drawn| && o.pool.lease.cursor <= |o.pool.lease.slots|
    ensures |r.blocks| == |r.drawn| == |o.blocks| && r.pool.lease.cursor <= |r.pool.lease.slots|
  {
    if system >= |o.blocks| then o
    else
      var (q, b, ids) := Drawn(o.pool, o.blocks[system], d);
      Outcome(q, o.blocks[system := b], o.drawn[system := o.drawn[system] + [ids]])
  }

  function Interleave(p: Pool, blocks: seq<Block>, schedule: Schedule): (o: Outcome)
    requires p.lease.cursor <= |p.lease.slots|
    ensures |o.blocks| == |o.drawn| == |blocks| && o.pool.lease.cursor <= |o.pool.lease.slots|
  {
    if schedule == [] then Outcome(p, blocks, seq(|blocks|, _ => []))
    else
      var last := schedule[|schedule| - 1];
      Stepped(Interleave(p, blocks, schedule[..|schedule| - 1]), last.0, last.1)
  }

  lemma DrawsOfLast(schedule: Schedule, system: nat)
    requires schedule != []
    ensures var last, draws := schedule[|schedule| - 1], DrawsOf(schedule, system);
            if last.0 == system then
              draws != [] && draws[..|draws| - 1] == DrawsOf(schedule[..|schedule| - 1], system)
              && draws[|draws| - 1] == last.1
            else draws == DrawsOf(schedule[..|schedule| - 1], system)
  {
  }

  // The ids of the draws that the block served.
  function Served(taken: seq<Option<seq<Entity>>>): seq<seq<Entity>> {
    seq(|taken|, i requires 0 <= i < |taken| => match taken[i] case Some(ids) => ids case None => [])
  }

  predicate Falls(b: Block, draws: seq<Draw>) {
    None in DrawAll(b, draws).1
  }

  lemma FallsStays(b: Block, draws: seq<Draw>)
    requires draws != [] && !Falls(b, draws)
    ensures !Falls(b, draws[..|draws| - 1]) && Take(DrawAll(b, draws[..|draws| - 1]).0, draws[|draws| - 1]).1.Some?
  {
    var (before, taken) := DrawAll(b, draws[..|draws| - 1]);
    var last := Take(before, draws[|draws| - 1]).1;
    assert (taken + [last])[|taken|] == last;
    assert forall x :: x in taken ==> x in taken + [last];
  }

  /** A system's block is its own: what it takes from it, and what it leaves, depends on its own draws
      alone. */
  lemma {:induction false} InterleavingIsPrivate(p: Pool, blocks: seq<Block>, schedule: Schedule, system: nat)
    requires p.lease.cursor <= |p.lease.slots| && system < |blocks|
    ensures Interleave(p, blocks, schedule).blocks[system] == DrawAll(blocks[system], DrawsOf(schedule, system)).0
    decreases |schedule|
  {
    if schedule != [] {
      InterleavingIsPrivate(p, blocks, schedule[..|schedule| - 1], system);
      DrawsOfLast(schedule, system);
    }
  }

  lemma ServedMore(taken: seq<Option<seq<Entity>>>, ids: seq<Entity>)
    ensures Served(taken + [Some(ids)]) == Served(taken) + [ids]
  {
  }

  /** So is what it is handed, where none of its draws falls through. */
  lemma {:induction false} ServedIsPrivate(p: Pool, blocks: seq<Block>, schedule: Schedule, system: nat)
    requires p.lease.cursor <= |p.lease.slots| && system < |blocks|
    requires !Falls(blocks[system], DrawsOf(schedule, system))
    ensures Interleave(p, blocks, schedule).drawn[system] ==
            Served(DrawAll(blocks[system], DrawsOf(schedule, system)).1)
    decreases |schedule|
  {
    if schedule != [] {
      var init, last := schedule[..|schedule| - 1], schedule[|schedule| - 1];
      DrawsOfLast(schedule, system);
      if last.0 == system {
        FallsStays(blocks[system], DrawsOf(schedule, system));
        InterleavingIsPrivate(p, blocks, init, system);
        var (before, taken) := DrawAll(blocks[system], DrawsOf(init, system));
        ServedMore(taken, Take(before, last.1).1.value);
      }
      ServedIsPrivate(p, blocks, init, system);
    }
  }

  // ---- What falls through ------------------------------------------------------------------------------

  // How many ids one draw asks of the shared pool, and a system's draws together.
  function Short(b: Block, d: Draw): nat {
    if Take(b, d).1 == None then Size(d) else 0
  }

  function Fallen(b: Block, draws: seq<Draw>): nat {
    if draws == [] then 0
    else Fallen(b, draws[..|draws| - 1]) + Short(DrawAll(b, draws[..|draws| - 1]).0, draws[|draws| - 1])
  }

  // System by system, how many ids its draws ask of the shared pool.
  function FallenOf(blocks: seq<Block>, schedule: Schedule): seq<nat> {
    seq(|blocks|, x requires 0 <= x < |blocks| => Fallen(blocks[x], DrawsOf(schedule, x)))
  }

  function Sum(s: seq<nat>): nat {
    if s == [] then 0 else Sum(s[..|s| - 1]) + s[|s| - 1]
  }

  lemma {:induction false} SumStep(s: seq<nat>, t: seq<nat>, i: nat, more: nat)
    requires |s| == |t| && forall x :: 0 <= x < |s| ==> t[x] == if x == i then s[x] + more else s[x]
    ensures Sum(t) == Sum(s) + if i < |s| then more else 0
    decreases |s|
  {
    if s != [] {
      SumStep(s[..|s| - 1], t[..|t| - 1], i, more);
    }
  }

  lemma {:induction false} SumOfNone(s: seq<nat>)
    requires forall i :: 0 <= i < |s| ==> s[i] == 0
    ensures Sum(s) == 0
    decreases |s|
  {
    if s != [] { SumOfNone(s[..|s| - 1]); }
  }

  lemma {:induction false} FallenNone(b: Block, draws: seq<Draw>)
    ensures Fallen(b, draws) > 0 <==> Falls(b, draws)
    decreases |draws|
  {
    if draws != [] {
      var init, d := draws[..|draws| - 1], draws[|draws| - 1];
      FallenNone(b, init);
      var (before, taken) := DrawAll(b, init);
      var last := Take(before, d).1;
      assert (taken + [last])[|taken|] == last;
      assert forall x :: x in taken + [last] <==> x in taken || x == last;
    }
  }

  lemma FallenStep(b: Block, schedule: Schedule, x: nat)
    requires schedule != []
    ensures var init, last := schedule[..|schedule| - 1], schedule[|schedule| - 1];
            Fallen(b, DrawsOf(schedule, x)) == Fallen(b, DrawsOf(init, x)) +
              if last.0 == x then Short(DrawAll(b, DrawsOf(init, x)).0, last.1) else 0
  {
    DrawsOfLast(schedule, x);
  }

  lemma FallenOfStep(blocks: seq<Block>, schedule: Schedule, more: nat)
    requires schedule != []
    requires var init, last := schedule[..|schedule| - 1], schedule[|schedule| - 1];
             last.0 < |blocks| ==> more == Short(DrawAll(blocks[last.0], DrawsOf(init, last.0)).0, last.1)
    ensures Sum(FallenOf(blocks, schedule)) ==
            Sum(FallenOf(blocks, schedule[..|schedule| - 1])) +
              if schedule[|schedule| - 1].0 < |blocks| then more else 0
  {
    var init, last := schedule[..|schedule| - 1], schedule[|schedule| - 1];
    var was, now := FallenOf(blocks, init), FallenOf(blocks, schedule);
    forall x | 0 <= x < |blocks| ensures now[x] == if x == last.0 then was[x] + more else was[x] {
      FallenStep(blocks[x], schedule, x);
    }
    SumStep(was, now, last.0, more);
  }

  lemma ReserveNone(p: Pool)
    requires p.lease.cursor <= |p.lease.slots|
    ensures Reserve(p, 0).0 == p
  {
  }

  lemma DrawnAfterBatch(p: Pool, m: nat, b: Block, d: Draw)
    requires p.lease.cursor <= |p.lease.slots|
    ensures Drawn(Reserve(p, m).0, b, d).0 == Reserve(p, m + Short(b, d)).0
  {
    ReserveSplits(p, m, Size(d));
  }

  lemma SteppedPool(p: Pool, o: Outcome, m: nat, system: nat, d: Draw)
    requires p.lease.cursor <= |p.lease.slots| && |o.blocks| == |o.drawn| && system < |o.blocks|
    requires o.pool == Reserve(p, m).0
    ensures Stepped(o, system, d).pool == Reserve(p, m + Short(o.blocks[system], d)).0
  {
    DrawnAfterBatch(p, m, o.blocks[system], d);
  }

  /** The shared pool ends as one batch for everything that fell through would leave it. */
  lemma {:induction false} PoolIsOneBatch(p: Pool, blocks: seq<Block>, schedule: Schedule)
    requires p.lease.cursor <= |p.lease.slots|
    ensures Interleave(p, blocks, schedule).pool == Reserve(p, Sum(FallenOf(blocks, schedule))).0
    decreases |schedule|
  {
    if schedule == [] {
      SumOfNone(FallenOf(blocks, []));
      ReserveNone(p);
    } else {
      var init, last := schedule[..|schedule| - 1], schedule[|schedule| - 1];
      PoolIsOneBatch(p, blocks, init);
      if last.0 >= |blocks| {
        FallenOfStep(blocks, schedule, 0);
      } else {
        InterleavingIsPrivate(p, blocks, init, last.0);
        FallenOfStep(blocks, schedule, Short(Interleave(p, blocks, init).blocks[last.0], last.1));
        SteppedPool(p, Interleave(p, blocks, init), Sum(FallenOf(blocks, init)), last.0, last.1);
      }
    }
  }

  // The tails go back to the pool in rank order.
  function ReclaimInRank(p: Pool, blocks: seq<Block>): Pool {
    if blocks == [] then p
    else ReclaimTail(ReclaimInRank(p, blocks[..|blocks| - 1]), Unused(blocks[|blocks| - 1]))
  }

  /** Whatever falls through, the schedule decides nothing about the cells: where every system makes the
      same draws, blocks and shared pool end the same, and reclaiming the tails in rank order leaves the
      same pool. */
  lemma CellsAreDeterministic(p: Pool, blocks: seq<Block>, s: Schedule, t: Schedule)
    requires p.lease.cursor <= |p.lease.slots|
    requires forall system :: 0 <= system < |blocks| ==> DrawsOf(s, system) == DrawsOf(t, system)
    ensures var o, q := Interleave(p, blocks, s), Interleave(p, blocks, t);
            && o.pool == q.pool && o.blocks == q.blocks
            && ReclaimInRank(o.pool, o.blocks) == ReclaimInRank(q.pool, q.blocks)
  {
    var o, q := Interleave(p, blocks, s), Interleave(p, blocks, t);
    forall system | 0 <= system < |blocks| ensures o.blocks[system] == q.blocks[system] {
      InterleavingIsPrivate(p, blocks, s, system);
      InterleavingIsPrivate(p, blocks, t, system);
    }
    assert o.blocks == q.blocks;
    PoolIsOneBatch(p, blocks, s);
    PoolIsOneBatch(p, blocks, t);
    assert FallenOf(blocks, s) == FallenOf(blocks, t);
  }

  lemma {:induction false} JoinedServed(taken: seq<Option<seq<Entity>>>)
    requires None !in taken
    ensures Joined(Served(taken)) == Flat(taken)
    decreases |taken|
  {
    if taken != [] {
      var n := |taken| - 1;
      assert None !in taken[..n] by { assert forall x :: x in taken[..n] ==> x in taken; }
      JoinedServed(taken[..n]);
      assert Served(taken)[..n] == Served(taken[..n]);
      assert taken[n] in taken;
    }
  }

  function Joined(drawn: seq<seq<Entity>>): seq<Entity> {
    if drawn == [] then [] else Joined(drawn[..|drawn| - 1]) + drawn[|drawn| - 1]
  }

  /** With demand inside every block, every system is handed its block's ids in order, whatever the
      schedule, and the shared pool is not touched. */
  lemma BlocksAreDeterministic(p: Pool, blocks: seq<Block>, s: Schedule, system: nat)
    requires p.lease.cursor <= |p.lease.slots| && system < |blocks|
    requires forall x :: 0 <= x < |blocks| ==> blocks[x].next + Demand(DrawsOf(s, x)) <= |blocks[x].ids|
    ensures var o, b, used := Interleave(p, blocks, s), blocks[system], Demand(DrawsOf(s, system));
            && o.pool == p && o.blocks[system] == b.(next := b.next + used)
            && Joined(o.drawn[system]) == b.ids[b.next..b.next + used]
  {
    WithinDemandIsPrefix(blocks[system], DrawsOf(s, system));
    InterleavingIsPrivate(p, blocks, s, system);
    ServedIsPrivate(p, blocks, s, system);
    JoinedServed(DrawAll(blocks[system], DrawsOf(s, system)).1);
    PoolIsOneBatch(p, blocks, s);
    forall x | 0 <= x < |blocks| ensures FallenOf(blocks, s)[x] == 0 {
      WithinDemandIsPrefix(blocks[x], DrawsOf(s, x));
      FallenNone(blocks[x], DrawsOf(s, x));
    }
    SumOfNone(FallenOf(blocks, s));
    ReserveNone(p);
  }

  // ---- Which ids depend on the schedule -----------------------------------------------------------------

  // A system's draws with the shared pool to itself.
  function DrawAlone(p: Pool, b: Block, draws: seq<Draw>): (r: (Pool, Block, seq<seq<Entity>>))
    requires p.lease.cursor <= |p.lease.slots|
    ensures r.0.lease.cursor <= |r.0.lease.slots| && r.1 == DrawAll(b, draws).0
  {
    if draws == [] then (p, b, [])
    else
      var (q, before, drawn) := DrawAlone(p, b, draws[..|draws| - 1]);
      var (r, after, ids) := Drawn(q, before, draws[|draws| - 1]);
      (r, after, drawn + [ids])
  }

  lemma {:induction false} AlonePool(p: Pool, b: Block, draws: seq<Draw>)
    requires p.lease.cursor <= |p.lease.slots|
    ensures DrawAlone(p, b, draws).0 == Reserve(p, Fallen(b, draws)).0
    decreases |draws|
  {
    if draws == [] {
      ReserveNone(p);
    } else {
      AlonePool(p, b, draws[..|draws| - 1]);
      var init := draws[..|draws| - 1];
      DrawnAfterBatch(p, Fallen(b, init), DrawAll(b, init).0, draws[|draws| - 1]);
    }
  }

  lemma OthersStillServed(blocks: seq<Block>, s: Schedule, x: nat)
    requires s != [] && forall y :: 0 <= y < |blocks| && y != x ==> !Falls(blocks[y], DrawsOf(s, y))
    ensures forall y :: 0 <= y < |blocks| && y != x ==> !Falls(blocks[y], DrawsOf(s[..|s| - 1], y))
    ensures var last := s[|s| - 1];
            last.0 < |blocks| && last.0 != x ==>
              Take(DrawAll(blocks[last.0], DrawsOf(s[..|s| - 1], last.0)).0, last.1).1.Some?
  {
    forall y | 0 <= y < |blocks| && y != x ensures !Falls(blocks[y], DrawsOf(s[..|s| - 1], y)) {
      DrawsOfLast(s, y);
      if y == s[|s| - 1].0 { FallsStays(blocks[y], DrawsOf(s, y)); }
    }
    var y := s[|s| - 1].0;
    if y < |blocks| && y != x {
      DrawsOfLast(s, y);
      FallsStays(blocks[y], DrawsOf(s, y));
    }
  }

  // A draw of another system that its block serves changes neither the pool nor what x has drawn.
  lemma ServedElsewhere(o: Outcome, system: nat, d: Draw, x: nat)
    requires |o.blocks| == |o.drawn| && o.pool.lease.cursor <= |o.pool.lease.slots|
    requires x < |o.blocks| && system != x
    requires system < |o.blocks| ==> Take(o.blocks[system], d).1.Some?
    ensures Stepped(o, system, d).pool == o.pool && Stepped(o, system, d).drawn[x] == o.drawn[x]
  {
  }

  lemma SteppedOwn(o: Outcome, x: nat, d: Draw)
    requires |o.blocks| == |o.drawn| && o.pool.lease.cursor <= |o.pool.lease.slots| && x < |o.blocks|
    ensures var r, drawn := Stepped(o, x, d), Drawn(o.pool, o.blocks[x], d);
            r.pool == drawn.0 && r.blocks[x] == drawn.1 && r.drawn[x] == o.drawn[x] + [drawn.2]
  {
  }

  /** Where no other system falls through, a system is handed what it would be handed alone. */
  lemma {:induction false} OnlyOneFalls(p: Pool, blocks: seq<Block>, s: Schedule, x: nat)
    requires p.lease.cursor <= |p.lease.slots| && x < |blocks|
    requires forall y :: 0 <= y < |blocks| && y != x ==> !Falls(blocks[y], DrawsOf(s, y))
    ensures Interleave(p, blocks, s).pool == DrawAlone(p, blocks[x], DrawsOf(s, x)).0
    ensures Interleave(p, blocks, s).drawn[x] == DrawAlone(p, blocks[x], DrawsOf(s, x)).2
    decreases |s|
  {
    if s != [] {
      var init, last := s[..|s| - 1], s[|s| - 1];
      var o := Interleave(p, blocks, init);
      OthersStillServed(blocks, s, x);
      OnlyOneFalls(p, blocks, init, x);
      DrawsOfLast(s, x);
      if last.0 == x {
        InterleavingIsPrivate(p, blocks, init, x);
        SteppedOwn(o, x, last.1);
      } else {
        if last.0 < |blocks| { InterleavingIsPrivate(p, blocks, init, last.0); }
        ServedElsewhere(o, last.0, last.1, x);
      }
    }
  }

  // All the draws of one system in a row.
  function InARow(x: nat, draws: seq<Draw>): Schedule {
    seq(|draws|, i requires 0 <= i < |draws| => (x, draws[i]))
  }

  lemma {:induction false} DrawsOfRow(x: nat, draws: seq<Draw>, y: nat)
    ensures DrawsOf(InARow(x, draws), y) == if y == x then draws else []
    decreases |draws|
  {
    if draws != [] {
      var n := |draws| - 1;
      DrawsOfRow(x, draws[..n], y);
      assert InARow(x, draws)[..n] == InARow(x, draws[..n]);
    }
  }

  lemma {:induction false} DrawsOfJoins(s: Schedule, t: Schedule, x: nat)
    ensures DrawsOf(s + t, x) == DrawsOf(s, x) + DrawsOf(t, x)
    decreases |t|
  {
    if t == [] {
      assert s + t == s;
    } else {
      DrawsOfJoins(s, t[..|t| - 1], x);
      assert (s + t)[..|s + t| - 1] == s + t[..|t| - 1];
    }
  }

  predicate IsSchedule(s: Schedule, draws: seq<seq<Draw>>) {
    forall x :: 0 <= x < |draws| ==> DrawsOf(s, x) == draws[x]
  }

  // The draws of the systems below n, but for two systems.
  ghost predicate IsRest(rest: Schedule, draws: seq<seq<Draw>>, n: nat, a: nat, b: nat)
    requires n <= |draws|
  {
    forall x: nat {:trigger DrawsOf(rest, x)} ::
      DrawsOf(rest, x) == if x >= n || x == a || x == b then [] else draws[x]
  }

  lemma RestWithRow(rest: Schedule, draws: seq<seq<Draw>>, n: nat, a: nat, b: nat)
    requires n < |draws| && n != a && n != b && IsRest(rest, draws, n, a, b)
    ensures IsRest(rest + InARow(n, draws[n]), draws, n + 1, a, b)
  {
    var row := InARow(n, draws[n]);
    forall x: nat
      ensures DrawsOf(rest + row, x) == if x >= n + 1 || x == a || x == b then [] else draws[x]
    {
      DrawsOfRow(n, draws[n], x);
      DrawsOfJoins(rest, row, x);
    }
  }

  lemma {:induction false} SomeRest(draws: seq<seq<Draw>>, n: nat, a: nat, b: nat) returns (rest: Schedule)
    requires n <= |draws|
    ensures IsRest(rest, draws, n, a, b)
    decreases n
  {
    rest := [];
    if n > 0 {
      rest := SomeRest(draws, n - 1, a, b);
      if n - 1 != a && n - 1 != b {
        RestWithRow(rest, draws, n - 1, a, b);
        rest := rest + InARow(n - 1, draws[n - 1]);
      }
    }
  }

  // First one system, then another, then the rest.
  function TwoFirst(draws: seq<seq<Draw>>, a: nat, b: nat, rest: Schedule): Schedule
    requires a < |draws| && b < |draws|
  {
    InARow(a, draws[a]) + InARow(b, draws[b]) + rest
  }

  lemma DrawsOfThree(s: Schedule, t: Schedule, u: Schedule, x: nat)
    ensures DrawsOf(s + t + u, x) == DrawsOf(s, x) + DrawsOf(t, x) + DrawsOf(u, x)
  {
    DrawsOfJoins(s, t, x);
    DrawsOfJoins(s + t, u, x);
  }

  lemma TwoFirstIsSchedule(draws: seq<seq<Draw>>, a: nat, b: nat, rest: Schedule)
    requires a < |draws| && b < |draws| && a != b
    requires IsRest(rest, draws, |draws|, a, b) || IsRest(rest, draws, |draws|, b, a)
    ensures IsSchedule(TwoFirst(draws, a, b, rest), draws)
  {
    forall x | 0 <= x < |draws| ensures DrawsOf(TwoFirst(draws, a, b, rest), x) == draws[x] {
      TwoFirstOf(draws, a, b, rest, x);
    }
  }

  lemma TwoFirstOf(draws: seq<seq<Draw>>, a: nat, b: nat, rest: Schedule, x: nat)
    requires a < |draws| && b < |draws| && a != b && x < |draws|
    requires DrawsOf(rest, x) == if x == a || x == b then [] else draws[x]
    ensures DrawsOf(TwoFirst(draws, a, b, rest), x) == draws[x]
  {
    var one := RowFor(a, draws[a], x);
    var two := RowFor(b, draws[b], x);
    DrawsOfThree(InARow(a, draws[a]), InARow(b, draws[b]), rest, x);
    OneOfThree(one, two, DrawsOf(rest, x), draws[x]);
  }

  // What a row holds for a system.
  lemma RowFor(x: nat, draws: seq<Draw>, y: nat) returns (own: seq<Draw>)
    ensures own == DrawsOf(InARow(x, draws), y) == if y == x then draws else []
  {
    DrawsOfRow(x, draws, y);
    own := DrawsOf(InARow(x, draws), y);
  }

  lemma OneOfThree(a: seq<Draw>, b: seq<Draw>, c: seq<Draw>, all: seq<Draw>)
    requires (a == all && b == c == []) || (b == all && a == c == []) || (c == all && a == b == [])
    ensures a + b + c == all
  {
  }

  lemma {:induction false} NothingDrawn(p: Pool, blocks: seq<Block>, s: Schedule, x: nat)
    requires p.lease.cursor <= |p.lease.slots| && x < |blocks| && DrawsOf(s, x) == []
    ensures Interleave(p, blocks, s).drawn[x] == []
    decreases |s|
  {
    if s != [] {
      DrawsOfLast(s, x);
      NothingDrawn(p, blocks, s[..|s| - 1], x);
    }
  }

  // A system whose draws stand in one row is handed what it would be handed alone from the pool then.
  lemma {:induction false} RowIsAlone(p: Pool, blocks: seq<Block>, pre: Schedule, x: nat, draws: seq<Draw>)
    requires p.lease.cursor <= |p.lease.slots| && x < |blocks| && DrawsOf(pre, x) == []
    ensures var o, q := Interleave(p, blocks, pre + InARow(x, draws)), Interleave(p, blocks, pre).pool;
            (o.pool, o.blocks[x], o.drawn[x]) == DrawAlone(q, blocks[x], draws)
    decreases |draws|
  {
    var s := pre + InARow(x, draws);
    if draws == [] {
      assert s == pre;
      InterleavingIsPrivate(p, blocks, pre, x);
      NothingDrawn(p, blocks, pre, x);
    } else {
      var n := |draws| - 1;
      RowIsAlone(p, blocks, pre, x, draws[..n]);
      assert s[..|s| - 1] == pre + InARow(x, draws[..n]) && s[|s| - 1] == (x, draws[n]);
      SteppedOwn(Interleave(p, blocks, s[..|s| - 1]), x, draws[n]);
    }
  }

  lemma {:induction false} RestIsElsewhere(p: Pool, blocks: seq<Block>, s: Schedule, rest: Schedule, x: nat)
    requires p.lease.cursor <= |p.lease.slots| && x < |blocks| && DrawsOf(rest, x) == []
    ensures Interleave(p, blocks, s + rest).drawn[x] == Interleave(p, blocks, s).drawn[x]
    decreases |rest|
  {
    if rest == [] {
      assert s + rest == s;
    } else {
      DrawsOfLast(rest, x);
      RestIsElsewhere(p, blocks, s, rest[..|rest| - 1], x);
      assert (s + rest)[..|s + rest| - 1] == s + rest[..|rest| - 1];
    }
  }

  ghost predicate DistinctReservations(p: Pool)
    requires p.lease.cursor <= |p.lease.slots|
  {
    forall i: nat, j: nat {:trigger NthReserved(p, i), NthReserved(p, j)} ::
      i != j ==> NthReserved(p, i) != NthReserved(p, j)
  }

  // A system that falls through is handed other ids from a pool that others drew from before.
  lemma {:induction false} LaterDiffers(p: Pool, b: Block, draws: seq<Draw>, m: nat)
    requires p.lease.cursor <= |p.lease.slots| && DistinctReservations(p) && m > 0 && Falls(b, draws)
    ensures DrawAlone(Reserve(p, m).0, b, draws).2 != DrawAlone(p, b, draws).2
    decreases |draws|
  {
    var q, n := Reserve(p, m).0, |draws| - 1;
    var init, d := draws[..n], draws[n];
    var was, now := DrawAlone(p, b, init), DrawAlone(q, b, init);
    if Falls(b, init) {
      LaterDiffers(p, b, init, m);
      assert |was.2| == |now.2| by { AloneLength(p, b, init); AloneLength(q, b, init); }
      assert DrawAlone(p, b, draws).2[..|was.2|] == was.2 && DrawAlone(q, b, draws).2[..|now.2|] == now.2;
    } else {
      FallenNone(b, init);
      AlonePool(p, b, init);
      AlonePool(q, b, init);
      ReserveNone(p);
      ReserveNone(q);
      NthShifts(p, m, 0);
      var ids, others := Drawn(p, was.1, d).2, Drawn(q, now.1, d).2;
      assert ids[0] == NthReserved(p, 0) && others[0] == NthReserved(p, m);
      assert DrawAlone(p, b, draws).2[|was.2|] == ids && DrawAlone(q, b, draws).2[|now.2|] == others;
      AloneLength(p, b, init);
      AloneLength(q, b, init);
    }
  }

  lemma {:induction false} AloneLength(p: Pool, b: Block, draws: seq<Draw>)
    requires p.lease.cursor <= |p.lease.slots|
    ensures |DrawAlone(p, b, draws).2| == |draws|
    decreases |draws|
  {
    if draws != [] { AloneLength(p, b, draws[..|draws| - 1]); }
  }

  lemma FirstRowIsAlone(p: Pool, blocks: seq<Block>, x: nat, draws: seq<Draw>, rest: Schedule)
    requires p.lease.cursor <= |p.lease.slots| && x < |blocks| && DrawsOf(rest, x) == []
    ensures Interleave(p, blocks, InARow(x, draws)).pool == DrawAlone(p, blocks[x], draws).0
    ensures Interleave(p, blocks, InARow(x, draws) + rest).drawn[x] == DrawAlone(p, blocks[x], draws).2
  {
    assert [] + InARow(x, draws) == InARow(x, draws);
    RowIsAlone(p, blocks, [], x, draws);
    RestIsElsewhere(p, blocks, InARow(x, draws), rest, x);
  }

  // In the first row a system is handed what it would be handed alone, in the second what the first left.
  lemma TwoFirstDrawn(p: Pool, blocks: seq<Block>, draws: seq<seq<Draw>>, a: nat, b: nat, rest: Schedule)
    requires p.lease.cursor <= |p.lease.slots| && |draws| == |blocks|
    requires a < |blocks| && b < |blocks| && a != b && DrawsOf(rest, a) == DrawsOf(rest, b) == []
    ensures var o := Interleave(p, blocks, TwoFirst(draws, a, b, rest));
            && o.drawn[a] == DrawAlone(p, blocks[a], draws[a]).2
            && o.drawn[b] == DrawAlone(Reserve(p, Fallen(blocks[a], draws[a])).0, blocks[b], draws[b]).2
  {
    var one, two := InARow(a, draws[a]), InARow(b, draws[b]);
    DrawsOfRow(b, draws[b], a);
    DrawsOfRow(a, draws[a], b);
    FirstRowIsAlone(p, blocks, a, draws[a], two);
    RestIsElsewhere(p, blocks, one + two, rest, a);
    RestIsElsewhere(p, blocks, one + two, rest, b);
    RowIsAlone(p, blocks, one, b, draws[b]);
    AlonePool(p, blocks[a], draws[a]);
  }

  lemma TwoFallDiffer(p: Pool, blocks: seq<Block>, draws: seq<seq<Draw>>, a: nat, b: nat, rest: Schedule)
    requires p.lease.cursor <= |p.lease.slots| && DistinctReservations(p) && |draws| == |blocks|
    requires a < |blocks| && b < |blocks| && a != b && Falls(blocks[a], draws[a]) && Falls(blocks[b], draws[b])
    requires DrawsOf(rest, a) == DrawsOf(rest, b) == []
    ensures Interleave(p, blocks, TwoFirst(draws, a, b, rest)).drawn
            != Interleave(p, blocks, TwoFirst(draws, b, a, rest)).drawn
  {
    TwoFirstDrawn(p, blocks, draws, a, b, rest);
    TwoFirstDrawn(p, blocks, draws, b, a, rest);
    FallenNone(blocks[b], draws[b]);
    LaterDiffers(p, blocks[a], draws[a], Fallen(blocks[b], draws[b]));
  }

  ghost predicate IdsAreDeterministic(p: Pool, blocks: seq<Block>, draws: seq<seq<Draw>>)
    requires p.lease.cursor <= |p.lease.slots|
  {
    forall s, t {:trigger IsSchedule(s, draws), IsSchedule(t, draws)} ::
      IsSchedule(s, draws) && IsSchedule(t, draws) ==>
        Interleave(p, blocks, s).drawn == Interleave(p, blocks, t).drawn
  }

  ghost predicate OneFallsAtMost(blocks: seq<Block>, draws: seq<seq<Draw>>)
    requires |draws| == |blocks|
  {
    forall a, b :: 0 <= a < b < |blocks| ==> !Falls(blocks[a], draws[a]) || !Falls(blocks[b], draws[b])
  }

  lemma OneFallsSameIds(p: Pool, blocks: seq<Block>, draws: seq<seq<Draw>>, s: Schedule, t: Schedule)
    requires p.lease.cursor <= |p.lease.slots| && |draws| == |blocks| && OneFallsAtMost(blocks, draws)
    requires IsSchedule(s, draws) && IsSchedule(t, draws)
    ensures Interleave(p, blocks, s).drawn == Interleave(p, blocks, t).drawn
  {
    forall x | 0 <= x < |blocks| ensures Interleave(p, blocks, s).drawn[x] == Interleave(p, blocks, t).drawn[x] {
      if Falls(blocks[x], draws[x]) {
        OnlyOneFalls(p, blocks, s, x);
        OnlyOneFalls(p, blocks, t, x);
      } else {
        ServedIsPrivate(p, blocks, s, x);
        ServedIsPrivate(p, blocks, t, x);
      }
    }
  }

  /** From a pool that never hands out one id twice, the ids are the same under every schedule if and only
      if at most one system has a draw that falls through. */
  lemma IdsAreDeterministicExactly(p: Pool, blocks: seq<Block>, draws: seq<seq<Draw>>)
    requires p.lease.cursor <= |p.lease.slots| && DistinctReservations(p) && |draws| == |blocks|
    ensures IdsAreDeterministic(p, blocks, draws) <==> OneFallsAtMost(blocks, draws)
  {
    if OneFallsAtMost(blocks, draws) {
      forall s, t | IsSchedule(s, draws) && IsSchedule(t, draws)
        ensures Interleave(p, blocks, s).drawn == Interleave(p, blocks, t).drawn
      {
        OneFallsSameIds(p, blocks, draws, s, t);
      }
    } else {
      var a, b :| 0 <= a < b < |blocks| && Falls(blocks[a], draws[a]) && Falls(blocks[b], draws[b]);
      var rest := SomeRest(draws, |draws|, a, b);
      TwoFirstIsSchedule(draws, a, b, rest);
      TwoFirstIsSchedule(draws, b, a, rest);
      TwoFallDiffer(p, blocks, draws, a, b, rest);
    }
  }

  // ---- The tails ------------------------------------------------------------------------------------------

  /** Reclaiming in rank order appends the unused tails to the free list, block by block in rank order. */
  lemma {:induction false} ReclaimedTails(p: Pool, blocks: seq<Block>)
    ensures ReclaimInRank(p, blocks) == p.(freeList := p.freeList + Indices(Tails(blocks)))
  {
    if blocks == [] {
      assert p.freeList + Indices(Tails([])) == p.freeList;
    } else {
      var init, last := blocks[..|blocks| - 1], blocks[|blocks| - 1];
      ReclaimedTails(p, init);
      assert (p.freeList + Indices(Tails(init))) + Indices(Unused(last)) ==
             p.freeList + (Indices(Tails(init)) + Indices(Unused(last)));
      assert Indices(Tails(blocks)) == Indices(Tails(init)) + Indices(Unused(last));
    }
  }

  function Tails(blocks: seq<Block>): seq<Entity> {
    if blocks == [] then [] else Tails(blocks[..|blocks| - 1]) + Unused(blocks[|blocks| - 1])
  }
}
