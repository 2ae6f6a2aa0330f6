/** The parallel leaves of one scoped write pass over one column.

    Each leaf stamps rows it owns, may stop early, and then settles the shared aggregate by a
    separate load, scan, load and store, with no compare-and-swap. Every atomic access is one step.
  */
module ParallelSettle {
  import opened ChangeTicks
  import opened Columns

  datatype Phase = Working | Scanning(at: nat) | Raising | Storing | Done

  // `owner[row]` is the leaf that may stamp the row; an index past the leaves owns it for nobody.
  datatype Pass = Pass(owner: seq<nat>, thisRun: Tick, start: Lane)

  datatype State = State(ticks: seq<Tick>, aggregate: Tick, leaves: seq<Phase>)

  datatype Step =
    | Stamp(leaf: nat, row: nat)
    | Leave(leaf: nat)
    | Scan(leaf: nat)
    | Load(leaf: nat)
    | Store(leaf: nat)

  predicate WellFormed(p: Pass, s: State) {
    |s.ticks| == |p.start.ticks| == |p.owner|
  }

  function Initial(p: Pass, leaves: nat): State {
    State(p.start.ticks, p.start.aggregate, seq(leaves, _ => Working))
  }

  predicate Enabled(p: Pass, s: State, step: Step)
    requires WellFormed(p, s)
  {
    && step.leaf < |s.leaves|
    && var phase := s.leaves[step.leaf];
       match step
       case Stamp(leaf, row) => phase.Working? && row < |s.ticks| && p.owner[row] == leaf
       case Leave(leaf) => phase.Working?
       case Scan(leaf) => phase.Scanning?
       case Load(leaf) => phase.Raising?
       case Store(leaf) => phase.Storing?
  }

  function Next(p: Pass, s: State, step: Step): State
    requires WellFormed(p, s) && Enabled(p, s, step)
  {
    match step
    case Stamp(leaf, row) => s.(ticks := s.ticks[row := p.thisRun])
    case Leave(leaf) =>
      s.(leaves := s.leaves[leaf := if IsNewerThan(p.thisRun, s.aggregate) then Scanning(0) else Done])
    case Scan(leaf) =>
      var i := s.leaves[leaf].at;
      s.(leaves := s.leaves[leaf := if i >= |s.ticks| then Done
                                    else if s.ticks[i] == p.thisRun then Raising
                                    else Scanning(i + 1)])
    case Load(leaf) =>
      s.(leaves := s.leaves[leaf := if IsNewerThan(p.thisRun, s.aggregate) then Storing else Done])
    case Store(leaf) => s.(aggregate := p.thisRun, leaves := s.leaves[leaf := Done])
  }

  ghost predicate Reaches(p: Pass, s: State, steps: seq<Step>, s': State)
    requires WellFormed(p, s)
    decreases |steps|
  {
    if steps == [] then s' == s
    else Enabled(p, s, steps[0]) && Reaches(p, Next(p, s, steps[0]), steps[1..], s')
  }

  // What a leaf still owes for a row it stamped.
  predicate Owed(p: Pass, s: State, phase: Phase, row: nat) {
    match phase
    case Working => true
    case Scanning(i) => i <= row || !IsNewerThan(p.thisRun, s.aggregate)
    case Raising => true
    case Storing => true
    case Done => !IsNewerThan(p.thisRun, s.aggregate)
  }

  ghost predicate Inv(p: Pass, s: State) {
    && WellFormed(p, s)
    && (s.aggregate == p.start.aggregate || (s.aggregate == p.thisRun && p.thisRun in s.ticks))
    && (forall i :: 0 <= i < |s.ticks| ==> s.ticks[i] == p.start.ticks[i] || s.ticks[i] == p.thisRun)
    && (forall l :: 0 <= l < |s.leaves| && (s.leaves[l].Raising? || s.leaves[l].Storing?) ==> p.thisRun in s.ticks)
    && (forall i :: 0 <= i < |s.ticks| && s.ticks[i] != p.start.ticks[i] ==>
          p.owner[i] < |s.leaves| && Owed(p, s, s.leaves[p.owner[i]], i))
  }

  lemma StepKeepsInv(p: Pass, s: State, step: Step)
    requires Inv(p, s) && Enabled(p, s, step)
    ensures Inv(p, Next(p, s, step))
  {
    var s' := Next(p, s, step);
    if p.thisRun in s.ticks {
      var i :| 0 <= i < |s.ticks| && s.ticks[i] == p.thisRun;
      assert s'.ticks[i] == p.thisRun;
    }
    if step.Stamp? {
      assert s'.ticks[step.row] == p.thisRun;
    }
  }

  lemma {:induction false} RunKeepsInv(p: Pass, s: State, steps: seq<Step>, s': State)
    requires Inv(p, s) && Reaches(p, s, steps, s')
    ensures Inv(p, s')
    decreases |steps|
  {
    if steps != [] {
      StepKeepsInv(p, s, steps[0]);
      RunKeepsInv(p, Next(p, s, steps[0]), steps[1..], s');
    }
  }

  /** Whatever the interleaving, once every leaf is done the column is what one sequential settle of
      the same row ticks would have left, and its bound holds. */
  lemma EveryInterleavingSettles(p: Pass, leaves: nat, steps: seq<Step>, s': State)
    requires |p.owner| == |p.start.ticks| && Bounded(p.thisRun, p.start)
    requires Reaches(p, Initial(p, leaves), steps, s')
    requires forall l :: 0 <= l < |s'.leaves| ==> s'.leaves[l].Done?
    ensures Lane(s'.ticks, s'.aggregate) == Settled(Lane(s'.ticks, p.start.aggregate), p.thisRun)
    ensures Bounded(p.thisRun, Lane(s'.ticks, s'.aggregate))
  {
    RunKeepsInv(p, Initial(p, leaves), steps, s');
    NewerIsYounger(p.thisRun, p.thisRun, p.start.aggregate);
    if i :| 0 <= i < |s'.ticks| && s'.ticks[i] == p.thisRun {
      if s'.ticks[i] == p.start.ticks[i] {
        assert Age(p.thisRun, p.start.aggregate) == 0;
      }
    }
  }
}
