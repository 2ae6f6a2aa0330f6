/** The id space does not creep: whatever the churn, the high-water mark stays within the retired
    slots plus what some frame between two flushes held at its start and drew.
  */
module EntityBounds {
  import opened EntityPool
  import opened EntityProtocol

  /** The frame since the last flush: the mark, the retired slots and the ids held or parked at its
      start, the ids its draws have asked for, and the largest demand of the frames before it. */
  datatype Frame = Frame(mark: nat, retired: nat, base: nat, draws: nat, peak: nat)

  function Parked(s: Sys): nat {
    |Held(s)| + |UnusedTails(s.blocks)|
  }

  // Popping the free list draws nothing from the pool that a flush would have to give back.
  function DrawsOf(step: Step): nat {
    match step
    case ReadLease(_, n) => n
    case PeekLease => 1
    case _ => 0
  }

  function Peak(f: Frame): nat {
    if f.peak > f.base + f.draws then f.peak else f.base + f.draws
  }

  function FrameStart(s: Sys, peak: nat): Frame {
    Frame(s.pool.highWater, |s.retired|, Parked(s), 0, peak)
  }

  function NextFrame(f: Frame, step: Step, s': Sys): Frame {
    if step.FlushPool? then FrameStart(s', Peak(f)) else f.(draws := f.draws + DrawsOf(step))
  }

  predicate AllIdle(s: Sys) {
    forall c :: 0 <= c < |s.phases| ==> s.phases[c].Idle?
  }

  // A run, frame by frame; with `settled`, every flush finds every draw completed.
  ghost predicate Runs(s: Sys, f: Frame, steps: seq<Step>, s': Sys, f': Frame, settled: bool)
    decreases |steps|
  {
    if steps == [] then s' == s && f' == f
    else
      && WellFormed(s) && Enabled(s, steps[0])
      && (settled && steps[0].FlushPool? ==> AllIdle(s))
      && var t := Next(s, steps[0]); Runs(t, NextFrame(f, steps[0], t), steps[1..], s', f', settled)
  }

  // ---- Counting places --------------------------------------------------------------------------------

  function Everything(s: Sys): multiset<nat>
    requires s.pool.lease.cursor <= |s.pool.lease.slots|
  {
    multiset(s.pool.freeList) + Bag(Leased(s)) + Bag(UnusedTails(s.blocks))
    + multiset(s.pool.abandoned) + multiset(s.retired) + Bag(Held(s))
  }

  lemma {:induction false} OneEach(m: multiset<nat>, n: nat)
    requires forall i: nat :: m[i] == if i < n then 1 else 0
    ensures |m| == n
    decreases n
  {
    if n == 0 {
      assert m == multiset{};
    } else {
      OneEach(m - multiset{n - 1}, n - 1);
      assert m == (m - multiset{n - 1}) + multiset{n - 1};
    }
  }

  /** Everything below the mark is accounted for, so the mark is the sum of the places. */
  lemma MarkIsSum(s: Sys)
    requires WellFormed(s) && Placed(s)
    ensures s.pool.highWater == |s.pool.freeList| + Max0(s.pool.lease.cursor) + |s.pool.abandoned|
                                + |s.retired| + Parked(s)
  {
    forall i: nat ensures Everything(s)[i] == if i < s.pool.highWater then 1 else 0 {
      assert Everything(s)[i] == Places(s, i);
    }
    OneEach(Everything(s), s.pool.highWater);
  }

  // ---- What clients still owe ---------------------------------------------------------------------------

  function Owed(p: Phase): nat {
    match p case Idle => 0 case AtLease(n) => n case OwesFresh(n) => n
  }

  function Pending(phases: seq<Phase>): nat {
    if phases == [] then 0 else Owed(phases[0]) + Pending(phases[1..])
  }

  lemma {:induction false} PendingUpdate(phases: seq<Phase>, c: nat, p: Phase)
    requires c < |phases|
    ensures Pending(phases[c := p]) == Pending(phases) - Owed(phases[c]) + Owed(p)
    decreases |phases|
  {
    if c == 0 {
      assert phases[0 := p][1..] == phases[1..];
    } else {
      PendingUpdate(phases[1..], c - 1, p);
      assert phases[c := p][1..] == phases[1..][c - 1 := p];
    }
  }

  lemma {:induction false} NothingOwed(phases: seq<Phase>)
    requires forall c :: 0 <= c < |phases| ==> Owed(phases[c]) == 0
    ensures Pending(phases) == 0
    decreases |phases|
  {
    if phases != [] {
      NothingOwed(phases[1..]);
    }
  }

  ghost predicate SomeoneOwes(s: Sys) {
    exists c :: 0 <= c < |s.phases| && s.phases[c].OwesFresh? && s.phases[c].n > 0
  }

  // ---- The frame invariant ------------------------------------------------------------------------------

  /** Fresh indices are drawn only once the lease is used up, and every draw is used up, owed or fresh. */
  ghost predicate FrameInv(s: Sys, f: Frame) {
    var left := Max0(s.pool.lease.cursor);
    && Inv(s)
    && f.mark <= s.pool.highWater
    && (SomeoneOwes(s) || f.mark < s.pool.highWater ==> left == 0)
    && (|s.pool.lease.slots| - left) + (s.pool.highWater - f.mark) + Pending(s.phases) <= f.draws
    && f.mark == |s.pool.lease.slots| + f.base + f.retired
    && f.retired <= |s.retired|
    && f.mark <= f.retired + f.peak
  }

  lemma BoundHolds(s: Sys, f: Frame)
    requires FrameInv(s, f)
    ensures s.pool.highWater <= |s.retired| + Peak(f)
  {
  }

  lemma FlushStartsFrame(s: Sys, f: Frame)
    requires FrameInv(s, f) && Enabled(s, FlushPool) && !SomeoneOwes(s)
    ensures FrameInv(Next(s, FlushPool), NextFrame(f, FlushPool, Next(s, FlushPool)))
  {
    var s' := Next(s, FlushPool);
    BoundHolds(s, f);
    StepKeepsInv(s, FlushPool);
    MarkIsSum(s');
    NothingOwed(s.phases);
    FlushedLease(s.pool);
  }

  lemma FlushedLease(p: Pool)
    requires PoolValid(p)
    ensures var q := Flush(p);
            q.freeList == [] && q.abandoned == [] && Max0(q.lease.cursor) == |q.lease.slots|
            && q.highWater == p.highWater
  {
    PreparedIsValid(p);
  }

  lemma OwersAfter(s: Sys, s': Sys, c: nat)
    requires c < |s.phases| == |s'.phases| && s'.phases == s.phases[c := s'.phases[c]]
    ensures SomeoneOwes(s') ==> SomeoneOwes(s) || s'.phases[c].OwesFresh?
  {
    if SomeoneOwes(s') {
      var d :| 0 <= d < |s'.phases| && s'.phases[d].OwesFresh? && s'.phases[d].n > 0;
      assert d != c ==> s.phases[d].OwesFresh?;
    }
  }

  lemma DrawKeepsFrame(s: Sys, f: Frame, step: Step, c: nat)
    requires FrameInv(s, f) && Enabled(s, step)
    requires (step.PeekLease? && c == 0) || (step.ReadLease? && c == step.client)
    ensures FrameInv(Next(s, step), NextFrame(f, step, Next(s, step)))
  {
    var s' := Next(s, step);
    StepKeepsInv(s, step);
    PendingUpdate(s.phases, c, s'.phases[c]);
    OwersAfter(s, s', c);
  }

  lemma TakeKeepsFrame(s: Sys, f: Frame, step: Step, c: nat)
    requires FrameInv(s, f) && Enabled(s, step)
    requires (step.TakeLease? || step.TakeFresh?) && c == step.client
    ensures FrameInv(Next(s, step), NextFrame(f, step, Next(s, step)))
  {
    var s' := Next(s, step);
    StepKeepsInv(s, step);
    PendingUpdate(s.phases, c, s'.phases[c]);
    OwersAfter(s, s', c);
    assert step.TakeFresh? && s.phases[c].n > 0 ==> SomeoneOwes(s);
  }

  lemma StepLeavesPool(s: Sys, step: Step)
    requires WellFormed(s) && Enabled(s, step)
    requires !(step.FlushPool? || step.ReadLease? || step.PeekLease? || step.TakeLease? || step.TakeFresh?)
    ensures var s' := Next(s, step);
            && s'.phases == s.phases && s'.pool.lease == s.pool.lease && s'.pool.highWater == s.pool.highWater
            && |s.retired| <= |s'.retired|
  {
  }

  lemma KeepsFrame(s: Sys, f: Frame, s': Sys)
    requires FrameInv(s, f) && Inv(s') && |s.retired| <= |s'.retired|
    requires s'.phases == s.phases && s'.pool.lease == s.pool.lease && s'.pool.highWater == s.pool.highWater
    ensures FrameInv(s', f)
  {
    assert SomeoneOwes(s') <==> SomeoneOwes(s);
  }

  lemma StepKeepsFrame(s: Sys, f: Frame, step: Step)
    requires FrameInv(s, f) && Enabled(s, step) && (step.FlushPool? ==> AllIdle(s))
    ensures FrameInv(Next(s, step), NextFrame(f, step, Next(s, step)))
  {
    match step
    case FlushPool => FlushStartsFrame(s, f);
    case ReadLease(c, n) => DrawKeepsFrame(s, f, step, c);
    case PeekLease => DrawKeepsFrame(s, f, step, 0);
    case TakeLease(c) => TakeKeepsFrame(s, f, step, c);
    case TakeFresh(c, grow) => TakeKeepsFrame(s, f, step, c);
    case _ =>
      StepKeepsInv(s, step);
      StepLeavesPool(s, step);
      KeepsFrame(s, f, Next(s, step));
  }

  lemma {:induction false} RunKeepsFrame(s: Sys, f: Frame, steps: seq<Step>, s': Sys, f': Frame)
    requires FrameInv(s, f) && Runs(s, f, steps, s', f', true)
    ensures FrameInv(s', f')
    decreases |steps|
  {
    if steps != [] {
      var t := Next(s, steps[0]);
      StepKeepsFrame(s, f, steps[0]);
      RunKeepsFrame(t, NextFrame(f, steps[0], t), steps[1..], s', f');
    }
  }

  /** The bounded id space: in every run whose flushes find no draw half made, the mark never exceeds
      the retired slots plus the largest demand of any frame so far. */
  lemma IdSpaceIsBounded(clients: nat, steps: seq<Step>, s: Sys, f: Frame)
    requires clients > 0
    requires Runs(Initial(clients), FrameStart(Initial(clients), 0), steps, s, f, true)
    ensures s.pool.highWater <= |s.retired| + Peak(f)
  {
    InitialInv(clients);
    MarkIsSum(Initial(clients));
    NothingOwed(Initial(clients).phases);
    RunKeepsFrame(Initial(clients), FrameStart(Initial(clients), 0), steps, s, f);
    BoundHolds(s, f);
  }

  // ---- Why every draw must be complete --------------------------------------------------------------------

  /** A client that still owes itself a fresh index at a flush takes it above the mark although the new lease
      has free slots. */
  lemma FlushMidDrawCreeps(s: Sys, c: nat)
    requires Inv(s) && Enabled(s, FlushPool) && s.pool.freeList != []
    requires 0 < c < |s.phases| && s.phases[c].OwesFresh? && s.phases[c].n > 0
    ensures var t := Next(s, FlushPool);
            && WellFormed(t) && Max0(t.pool.lease.cursor) > 0 && Enabled(t, TakeFresh(c, false))
            && Next(t, TakeFresh(c, false)).pool.highWater > t.pool.highWater
  {
    FlushKeepsInv(s);
    PreparedIsValid(s.pool);
  }

  // The next state of a run, and the frame with it.
  function NextIn(s: Sys, f: Frame, step: Step): (Sys, Frame)
    requires WellFormed(s) && Enabled(s, step)
  {
    (Next(s, step), NextFrame(f, step, Next(s, step)))
  }

  ghost predicate Leads(s: Sys, f: Frame, s': Sys, f': Frame, settled: bool) {
    exists steps :: Runs(s, f, steps, s', f', settled)
  }

  lemma LeadsNowhere(s: Sys, f: Frame, settled: bool)
    ensures Leads(s, f, s, f, settled)
  {
    assert Runs(s, f, [], s, f, settled);
  }

  lemma StepLeads(s: Sys, f: Frame, step: Step, s': Sys, f': Frame, settled: bool)
    requires WellFormed(s) && Enabled(s, step) && (settled ==> !step.FlushPool?)
    requires var (t, g) := NextIn(s, f, step); Leads(t, g, s', f', settled)
    ensures Leads(s, f, s', f', settled)
  {
    var (t, g) := NextIn(s, f, step);
    var steps :| Runs(t, g, steps, s', f', settled);
    assert ([step] + steps)[0] == step && ([step] + steps)[1..] == steps;
    assert Runs(s, f, [step] + steps, s', f', settled);
  }

  lemma {:induction false} RunLeadsOn(s: Sys, f: Frame, steps: seq<Step>, t: Sys, g: Frame, s': Sys, f': Frame)
    requires Runs(s, f, steps, t, g, false) && Leads(t, g, s', f', false)
    ensures Leads(s, f, s', f', false)
    decreases |steps|
  {
    if steps != [] {
      var (next, frame) := NextIn(s, f, steps[0]);
      RunLeadsOn(next, frame, steps[1..], t, g, s', f');
      StepLeads(s, f, steps[0], s', f', false);
    }
  }

  lemma LeadsOn(s: Sys, f: Frame, t: Sys, g: Frame, s': Sys, f': Frame)
    requires Leads(s, f, t, g, false) && Leads(t, g, s', f', false)
    ensures Leads(s, f, s', f', false)
  {
    var steps :| Runs(s, f, steps, t, g, false);
    RunLeadsOn(s, f, steps, t, g, s', f');
  }

  // ---- Exactly -------------------------------------------------------------------------------------------

  /** Whatever follows, later flushes finding every draw complete, the bound holds. */
  ghost predicate StaysBounded(s: Sys, f: Frame) {
    forall steps, s', f' {:trigger Runs(s, f, steps, s', f', true)} ::
      Runs(s, f, steps, s', f', true) ==> s'.pool.highWater <= |s'.retired| + Peak(f')
  }

  // An idle client draws d: all that is leased, and fresh ones.
  lemma IdleDraws(s: Sys, f: Frame, c: nat, d: nat) returns (s': Sys, f': Frame)
    requires WellFormed(s) && c < |s.phases| && s.phases[c].Idle?
    requires Max0(s.pool.lease.cursor) == |s.pool.lease.slots| < d
    ensures Leads(s, f, s', f', true) && f' == f.(draws := f.draws + d) && s'.retired == s.retired
    ensures s'.pool.highWater == s.pool.highWater + d - |s.pool.lease.slots|
  {
    var (s2, f2) := NextIn(s, f, ReadLease(c, d));
    var (s3, f3) := NextIn(s2, f2, TakeLease(c));
    s', f' := NextIn(s3, f3, TakeFresh(c, false)).0, NextIn(s3, f3, TakeFresh(c, false)).1;
    LeadsNowhere(s', f', true);
    StepLeads(s3, f3, TakeFresh(c, false), s', f', true);
    StepLeads(s2, f2, TakeLease(c), s', f', true);
    StepLeads(s, f, ReadLease(c, d), s', f', true);
  }

  // A client that owes itself fresh indices takes them first.
  lemma OwerDraws(s: Sys, f: Frame, c: nat, d: nat) returns (s': Sys, f': Frame)
    requires WellFormed(s) && c < |s.phases| && s.phases[c].OwesFresh?
    requires Max0(s.pool.lease.cursor) == |s.pool.lease.slots| < d
    ensures Leads(s, f, s', f', true) && f' == f.(draws := f.draws + d) && s'.retired == s.retired
    ensures s'.pool.highWater == s.pool.highWater + s.phases[c].n + d - |s.pool.lease.slots|
  {
    var (s1, f1) := NextIn(s, f, TakeFresh(c, false));
    s', f' := IdleDraws(s1, f1, c, d);
    StepLeads(s, f, TakeFresh(c, false), s', f', true);
  }

  // What the flush leaves to whoever owes.
  lemma FlushedSizes(s: Sys, f: Frame)
    requires FrameInv(s, f) && Enabled(s, FlushPool)
    ensures var (t, g) := NextIn(s, f, FlushPool);
            && Inv(t) && t.phases == s.phases && t.retired == s.retired
            && t.pool.lease.cursor <= |t.pool.lease.slots| == Max0(t.pool.lease.cursor)
            && g == Frame(t.pool.highWater, |t.retired|, Parked(t), 0, Peak(f))
            && t.pool.highWater == |t.pool.lease.slots| + |t.retired| + Parked(t)
  {
    StepKeepsInv(s, FlushPool);
    MarkIsSum(Next(s, FlushPool));
    FlushedLease(s.pool);
  }

  // Drawing enough after the flush, whoever owes exceeds the bound.
  lemma OwerExceeds(s: Sys, f: Frame, c: nat) returns (s': Sys, f': Frame)
    requires FrameInv(s, f) && Enabled(s, FlushPool)
    requires c < |s.phases| && s.phases[c].OwesFresh? && s.phases[c].n > 0
    ensures var (t, g) := NextIn(s, f, FlushPool); Leads(t, g, s', f', true)
    ensures s'.pool.highWater > |s'.retired| + Peak(f')
  {
    FlushedSizes(s, f);
    var (t, g) := NextIn(s, f, FlushPool);
    s', f' := OwerDraws(t, g, c, |t.pool.lease.slots| + Peak(f) + 1);
  }

  /** After a flush the bound holds for good, later flushes finding every draw complete, if and only if no client
      owed itself fresh indices at this one. */
  lemma FlushBoundsExactly(s: Sys, f: Frame)
    requires FrameInv(s, f) && Enabled(s, FlushPool)
    ensures var (t, g) := NextIn(s, f, FlushPool); StaysBounded(t, g) <==> !SomeoneOwes(s)
  {
    var (t, g) := NextIn(s, f, FlushPool);
    if SomeoneOwes(s) {
      var c :| 0 <= c < |s.phases| && s.phases[c].OwesFresh? && s.phases[c].n > 0;
      var s', f' := OwerExceeds(s, f, c);
      var steps :| Runs(t, g, steps, s', f', true);
    } else {
      FlushStartsFrame(s, f);
      forall steps, s', f' | Runs(t, g, steps, s', f', true) ensures s'.pool.highWater <= |s'.retired| + Peak(f') {
        RunKeepsFrame(t, g, steps, s', f');
        BoundHolds(s', f');
      }
    }
  }

  // Two clients without blocks; how far the lease goes, and where they stand.
  ghost predicate TwoClients(s: Sys, highWater: nat, cursor: int, slots: nat, free: nat, first: Phase, second: Phase) {
    && WellFormed(s) && |s.phases| == 2 && s.phases[0] == first && s.phases[1] == second
    && s.blocks == [] && s.retired == [] && s.pool.abandoned == []
    && s.pool.highWater == highWater && s.pool.lease.cursor == cursor
    && |s.pool.lease.slots| == slots && |s.pool.freeList| == free
  }

  ghost predicate HandsEmpty(s: Sys) {
    |s.hands| == 2 && s.hands[0] == [] && s.hands[1] == []
  }

  lemma EmptyHandsHoldNothing(s: Sys)
    requires HandsEmpty(s) && s.blocks == []
    ensures Parked(s) == 0
  {
    assert FlatAll(s.hands[1..]) == s.hands[1] + FlatAll(s.hands[2..]);
    assert BlockTails(s.blocks) == [];
  }

  // Client 0 draws an index...
  lemma PeeksFirst() returns (s: Sys, f: Frame)
    ensures TwoClients(s, 0, 0, 0, 0, OwesFresh(1), Idle) && HandsEmpty(s) && s.pool.records == []
    ensures f == Frame(0, 0, 0, 1, 0) && Leads(Initial(2), FrameStart(Initial(2), 0), s, f, false)
  {
    var s0, f0 := Initial(2), FrameStart(Initial(2), 0);
    EmptyHandsHoldNothing(s0);
    s, f := NextIn(s0, f0, PeekLease).0, NextIn(s0, f0, PeekLease).1;
    LeadsNowhere(s, f, false);
    StepLeads(s0, f0, PeekLease, s, f, false);
  }

  lemma DrawsFirst(s0: Sys, f: Frame) returns (s: Sys)
    requires TwoClients(s0, 0, 0, 0, 0, OwesFresh(1), Idle) && HandsEmpty(s0) && s0.pool.records == []
    ensures TwoClients(s, 1, 0, 0, 0, Idle, Idle) && s.hands == [[Entity(0, 0)], []] && s.pool.records == [VACANT]
    ensures Leads(s0, f, s, f, false)
  {
    s := Next(s0, TakeFresh(0, true));
    assert s.hands[0] == [Entity(0, 0)] && s.hands[1] == [];
    LeadsNowhere(s, f, false);
    StepLeads(s0, f, TakeFresh(0, true), s, f, false);
  }

  // ... and frees it.
  lemma FreesFirst(s0: Sys, f: Frame) returns (s: Sys)
    requires TwoClients(s0, 1, 0, 0, 0, Idle, Idle) && s0.hands == [[Entity(0, 0)], []] && s0.pool.records == [VACANT]
    ensures TwoClients(s, 1, 0, 0, 1, Idle, Idle) && HandsEmpty(s) && |s.pool.records| == 1
    ensures Leads(s0, f, s, f, false)
  {
    s := Next(s0, FreeHeld(0, 0));
    assert Without([Entity(0, 0)], 0) == [];
    LeadsNowhere(s, f, false);
    StepLeads(s0, f, FreeHeld(0, 0), s, f, false);
  }

  // Client 1 looks at an empty lease and owes itself a fresh index...
  lemma OwesOne(s0: Sys, f0: Frame) returns (s: Sys, f: Frame)
    requires TwoClients(s0, 1, 0, 0, 1, Idle, Idle) && HandsEmpty(s0) && |s0.pool.records| == 1
    requires f0 == Frame(0, 0, 0, 1, 0)
    ensures TwoClients(s, 1, -1, 0, 1, Idle, OwesFresh(1)) && HandsEmpty(s) && |s.pool.records| == 1
    ensures f == Frame(0, 0, 0, 2, 0) && Leads(s0, f0, s, f, false)
  {
    var (s1, f1) := NextIn(s0, f0, ReadLease(1, 1));
    assert Won(s1.pool.lease, 1) == [];
    s, f := NextIn(s1, f1, TakeLease(1)).0, NextIn(s1, f1, TakeLease(1)).1;
    LeadsNowhere(s, f, false);
    StepLeads(s1, f1, TakeLease(1), s, f, false);
    StepLeads(s0, f0, ReadLease(1, 1), s, f, false);
  }

  // ... while the flush leases the freed one.
  lemma FlushesMeanwhile(s0: Sys, f0: Frame) returns (s: Sys, f: Frame)
    requires TwoClients(s0, 1, -1, 0, 1, Idle, OwesFresh(1)) && HandsEmpty(s0) && |s0.pool.records| == 1
    requires f0 == Frame(0, 0, 0, 2, 0)
    ensures TwoClients(s, 1, 1, 1, 0, Idle, OwesFresh(1)) && f == Frame(1, 0, 0, 0, 2) && Leads(s0, f0, s, f, false)
  {
    PreparedIsValid(s0.pool);
    s, f := NextIn(s0, f0, FlushPool).0, NextIn(s0, f0, FlushPool).1;
    EmptyHandsHoldNothing(s);
    LeadsNowhere(s, f, false);
    StepLeads(s0, f0, FlushPool, s, f, false);
  }

  // The owed index is drawn, and client 0 draws three: the leased one and two fresh.
  lemma DrawsOnTop(s0: Sys, f0: Frame) returns (s: Sys, f: Frame)
    requires TwoClients(s0, 1, 1, 1, 0, Idle, OwesFresh(1)) && f0 == Frame(1, 0, 0, 0, 2)
    ensures s.pool.highWater == 4 && s.retired == [] && f == Frame(1, 0, 0, 3, 2)
    ensures Leads(s0, f0, s, f, false)
  {
    var (s1, f1) := NextIn(s0, f0, TakeFresh(1, false));
    var (s2, f2) := NextIn(s1, f1, ReadLease(0, 3));
    var (s3, f3) := NextIn(s2, f2, TakeLease(0));
    s, f := NextIn(s3, f3, TakeFresh(0, false)).0, NextIn(s3, f3, TakeFresh(0, false)).1;
    LeadsNowhere(s, f, false);
    StepLeads(s3, f3, TakeFresh(0, false), s, f, false);
    StepLeads(s2, f2, TakeLease(0), s, f, false);
    StepLeads(s1, f1, ReadLease(0, 3), s, f, false);
    StepLeads(s0, f0, TakeFresh(1, false), s, f, false);
  }

  /** With one flush in the middle of a draw the bound fails: the owed index comes on top of the new lease's
      free slots. */
  lemma FlushMidDrawExceeds() returns (steps: seq<Step>, s: Sys, f: Frame)
    ensures Runs(Initial(2), FrameStart(Initial(2), 0), steps, s, f, false)
    ensures s.pool.highWater > |s.retired| + Peak(f)
  {
    var s0, f0 := Initial(2), FrameStart(Initial(2), 0);
    var s1, f1 := PeeksFirst();
    var s2 := DrawsFirst(s1, f1);
    var s3 := FreesFirst(s2, f1);
    var s4, f4 := OwesOne(s3, f1);
    var s5, f5 := FlushesMeanwhile(s4, f4);
    s, f := DrawsOnTop(s5, f5);
    LeadsOn(s0, f0, s1, f1, s2, f1);
    LeadsOn(s0, f0, s2, f1, s3, f1);
    LeadsOn(s0, f0, s3, f1, s4, f4);
    LeadsOn(s0, f0, s4, f4, s5, f5);
    LeadsOn(s0, f0, s5, f5, s, f);
    steps :| Runs(s0, f0, steps, s, f, false);
  }
}
