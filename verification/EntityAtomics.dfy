/** The allocator's operations are their atomic accesses, run without interruption. */
module EntityAtomics {
  import opened Basics
  import opened EntityPool
  import opened EntityProtocol

  // The accesses of a batch of reservations: look, subtract, and add what the lease did not yield.
  function ReserveSteps(s: Sys, c: nat, n: nat): seq<Step>
    requires s.pool.lease.cursor <= |s.pool.lease.slots|
  {
    if |Won(s.pool.lease, n)| < n then [ReadLease(c, n), TakeLease(c), TakeFresh(c, false)]
    else [ReadLease(c, n), TakeLease(c)]
  }

  function Reserved(s: Sys, c: nat, n: nat): Sys
    requires s.pool.lease.cursor <= |s.pool.lease.slots| && c < |s.hands|
  {
    s.(pool := Reserve(s.pool, n).0, hands := Handed(s, c, Reserve(s.pool, n).1))
  }

  lemma OneStep(s: Sys, step: Step)
    requires WellFormed(s) && Enabled(s, step)
    ensures Reaches(s, [step], Next(s, step))
  {
    assert [step][1..] == [];
    assert Reaches(Next(s, step), [], Next(s, step));
  }

  lemma ThenSteps(s: Sys, step: Step, rest: seq<Step>, s': Sys)
    requires WellFormed(s) && Enabled(s, step) && Reaches(Next(s, step), rest, s')
    ensures Reaches(s, [step] + rest, s')
  {
    assert ([step] + rest)[1..] == rest;
  }

  lemma HandedTwice(hands: seq<seq<Entity>>, c: nat, a: seq<Entity>, b: seq<Entity>)
    requires c < |hands|
    ensures var once := hands[c := hands[c] + a]; once[c := once[c] + b] == hands[c := hands[c] + (a + b)]
  {
    ConcatAssociates(hands[c], a, b);
  }

  lemma LeaseWins(s: Sys, c: nat, n: nat)
    requires Inv(s) && c < |s.phases| && s.phases[c].Idle? && n > 0
    ensures var s1 := Next(s, ReadLease(c, n));
            && Inv(s1) && Enabled(s1, TakeLease(c)) && Inv(Next(s1, TakeLease(c)))
            && Next(s1, TakeLease(c)) ==
                 s.(pool := s.pool.(lease := s.pool.lease.(cursor := s.pool.lease.cursor - n)),
                    hands := Handed(s, c, Won(s.pool.lease, n)),
                    phases := if |Won(s.pool.lease, n)| < n then s.phases[c := OwesFresh(n - |Won(s.pool.lease, n)|)]
                               else s.phases)
  {
    var s1 := Next(s, ReadLease(c, n));
    StepKeepsInv(s, ReadLease(c, n));
    StepKeepsInv(s1, TakeLease(c));
    assert s.phases[c := AtLease(n)][c := Idle] == s.phases;
  }

  lemma FreshFollows(s: Sys, c: nat, n: nat, s2: Sys)
    requires Inv(s) && c < |s.phases| && s.phases[c].Idle? && |Won(s.pool.lease, n)| < n && Inv(s2)
    requires s2 == s.(pool := s.pool.(lease := s.pool.lease.(cursor := s.pool.lease.cursor - n)),
                      hands := Handed(s, c, Won(s.pool.lease, n)),
                      phases := s.phases[c := OwesFresh(n - |Won(s.pool.lease, n)|)])
    ensures Enabled(s2, TakeFresh(c, false)) && Next(s2, TakeFresh(c, false)) == Reserved(s, c, n)
  {
    ReserveIsWonThenFresh(s.pool, n);
    HandedTwice(s.hands, c, Won(s.pool.lease, n), FreshIds(s.pool.highWater, n - |Won(s.pool.lease, n)|));
    assert s2.phases[c := Idle] == s.phases;
  }

  lemma TwoSteps(s: Sys, a: Step, b: Step)
    requires WellFormed(s) && Enabled(s, a) && WellFormed(Next(s, a)) && Enabled(Next(s, a), b)
    ensures Reaches(s, [a, b], Next(Next(s, a), b))
  {
    OneStep(Next(s, a), b);
    ThenSteps(s, a, [b], Next(Next(s, a), b));
    assert [a] + [b] == [a, b];
  }

  lemma ThreeSteps(s: Sys, a: Step, b: Step, c: Step)
    requires WellFormed(s) && Enabled(s, a) && WellFormed(Next(s, a)) && Enabled(Next(s, a), b)
    requires WellFormed(Next(Next(s, a), b)) && Enabled(Next(Next(s, a), b), c)
    ensures Reaches(s, [a, b, c], Next(Next(Next(s, a), b), c))
  {
    TwoSteps(Next(s, a), b, c);
    ThenSteps(s, a, [b, c], Next(Next(Next(s, a), b), c));
    assert [a] + [b, c] == [a, b, c];
  }

  lemma LeaseSuffices(s: Sys, c: nat, n: nat)
    requires Inv(s) && c < |s.phases| && s.phases[c].Idle? && n > 0 && |Won(s.pool.lease, n)| >= n
    ensures Next(Next(s, ReadLease(c, n)), TakeLease(c)) == Reserved(s, c, n)
  {
    LeaseWins(s, c, n);
    ReserveIsWonThenFresh(s.pool, n);
    assert Won(s.pool.lease, n) + FreshIds(s.pool.highWater, 0) == Won(s.pool.lease, n);
  }

  /** A batch of reservations nobody interrupts is the sequential batch: same cells, same ids. */
  lemma ReserveIsItsSteps(s: Sys, c: nat, n: nat)
    requires Inv(s) && c < |s.phases| && s.phases[c].Idle? && n > 0
    ensures Reaches(s, ReserveSteps(s, c, n), Reserved(s, c, n))
  {
    LeaseWins(s, c, n);
    if |Won(s.pool.lease, n)| < n {
      FreshFollows(s, c, n, Next(Next(s, ReadLease(c, n)), TakeLease(c)));
      ThreeSteps(s, ReadLease(c, n), TakeLease(c), TakeFresh(c, false));
    } else {
      LeaseSuffices(s, c, n);
      TwoSteps(s, ReadLease(c, n), TakeLease(c));
    }
  }

  function AllocateSteps(p: Pool): seq<Step> {
    if p.freeList != [] then [PopFree]
    else if p.lease.cursor > 0 then [PeekLease, TakeLease(0)]
    else [PeekLease, TakeFresh(0, true)]
  }

  function Allocated(s: Sys): Sys
    requires WellFormed(s)
  {
    s.(pool := Allocate(s.pool).0, hands := Handed(s, 0, [Allocate(s.pool).1]))
  }

  lemma PeekThenLease(s: Sys)
    requires Inv(s) && s.phases[0].Idle? && s.pool.freeList == [] && s.pool.lease.cursor > 0
    ensures var s1 := Next(s, PeekLease);
            Inv(s1) && Enabled(s1, TakeLease(0)) && Next(s1, TakeLease(0)) == Allocated(s)
  {
    StepKeepsInv(s, PeekLease);
    assert Won(s.pool.lease, 1) == [s.pool.lease.slots[s.pool.lease.cursor - 1]];
    assert s.phases[0 := AtLease(1)][0 := Idle] == s.phases;
  }

  lemma PeekThenFresh(s: Sys)
    requires Inv(s) && s.phases[0].Idle? && s.pool.freeList == [] && s.pool.lease.cursor <= 0
    ensures var s1 := Next(s, PeekLease);
            Inv(s1) && Enabled(s1, TakeFresh(0, true)) && Next(s1, TakeFresh(0, true)) == Allocated(s)
  {
    StepKeepsInv(s, PeekLease);
    assert FreshIds(s.pool.highWater, 1) == [Entity(s.pool.highWater, 0)];
    assert s.phases[0 := OwesFresh(1)][0 := Idle] == s.phases;
  }

  /** A direct allocation nobody interrupts is the sequential one. */
  lemma AllocateIsItsSteps(s: Sys)
    requires Inv(s) && s.phases[0].Idle?
    ensures Reaches(s, AllocateSteps(s.pool), Allocated(s))
  {
    if s.pool.freeList != [] {
      OneStep(s, PopFree);
    } else if s.pool.lease.cursor > 0 {
      PeekThenLease(s);
      TwoSteps(s, PeekLease, TakeLease(0));
    } else {
      PeekThenFresh(s);
      TwoSteps(s, PeekLease, TakeFresh(0, true));
    }
  }

  /** Abandoning one held reservation is the queue operation on that reservation. */
  lemma AbandonIsItsStep(s: Sys, c: nat, at: nat)
    requires Inv(s) && Holds(s, c, at)
    ensures Next(s, AbandonHeld(c, at)).pool == Abandon(s.pool, [s.hands[c][at]])
  {
    var e := s.hands[c][at];
    HeldIsCurrent(s, c, at);
    assert [e][..0] == [];
    assert AbandonedIndices([e]) == [] + [e.index] == [e.index];
  }
}
