/** One component column of an archetype: values, change and added ticks, and the two tick
    aggregates that bound them.

    `Lane` is the value of one tick vector with its aggregate. The class works in place; every
    method is tied to a function on lanes, and what the aggregates are for is proved about those.
  */
module Columns {
  import opened ChangeTicks

  datatype Lane = Lane(ticks: seq<Tick>, aggregate: Tick)

  const FRESH_LANE: Lane := Lane([], ZERO)

  function Raise(aggregate: Tick, t: Tick): Tick {
    if IsNewerThan(t, aggregate) then t else aggregate
  }

  function Pushed(l: Lane, t: Tick): Lane {
    Lane(l.ticks + [t], Raise(l.aggregate, t))
  }

  function Stamped(l: Lane, row: nat, t: Tick): Lane
    requires row < |l.ticks|
  {
    Lane(l.ticks[row := t], Raise(l.aggregate, t))
  }

  function RangeStamped(l: Lane, start: nat, end: nat, t: Tick): Lane
    requires end <= |l.ticks|
  {
    Lane(seq(|l.ticks|, i requires 0 <= i < |l.ticks| => if start <= i < end then t else l.ticks[i]),
         if start < end then Raise(l.aggregate, t) else l.aggregate)
  }

  function SwapRemoved<T>(s: seq<T>, row: nat): seq<T>
    requires row < |s|
  {
    s[row := s[|s| - 1]][..|s| - 1]
  }

  function RowDropped(l: Lane, row: nat): Lane
    requires row < |l.ticks|
  {
    Lane(SwapRemoved(l.ticks, row), l.aggregate)
  }

  function AllChecked(s: seq<Tick>, current: Tick): seq<Tick> {
    seq(|s|, i requires 0 <= i < |s| => CheckAgainst(s[i], current))
  }

  function Clamped(l: Lane, current: Tick): Lane {
    Lane(AllChecked(l.ticks, current), CheckAgainst(l.aggregate, current))
  }

  // A scoped write: the row tick moves, the aggregate is left for later.
  function StampDeferred(l: Lane, row: nat, t: Tick): Lane
    requires row < |l.ticks|
  {
    l.(ticks := l.ticks[row := t])
  }

  function Settled(l: Lane, thisRun: Tick): Lane {
    if IsNewerThan(thisRun, l.aggregate) && thisRun in l.ticks then l.(aggregate := thisRun) else l
  }

  // ---- What the aggregate promises -------------------------------------------------------------

  /** No row tick is newer than the aggregate, as the program compares them. */
  ghost predicate NoRowAbove(l: Lane) {
    forall i :: 0 <= i < |l.ticks| ==> !IsNewerThan(l.ticks[i], l.aggregate)
  }

  /** The upper bound in true ages, with every tick safely inside the window. */
  ghost predicate Bounded(current: Tick, l: Lane) {
    && Fresh(current, l.aggregate)
    && forall i :: 0 <= i < |l.ticks| ==>
         Fresh(current, l.ticks[i]) && Age(current, l.aggregate) <= Age(current, l.ticks[i])
  }

  lemma BoundedHasNoRowAbove(current: Tick, l: Lane)
    requires Bounded(current, l)
    ensures NoRowAbove(l)
  {
    forall i | 0 <= i < |l.ticks| ensures !IsNewerThan(l.ticks[i], l.aggregate) {
      NewerIsYounger(current, l.ticks[i], l.aggregate);
    }
  }

  // Skipping on the aggregate never loses a row.
  lemma AggregateRulesOutRows(current: Tick, l: Lane, lastRun: Tick)
    requires Bounded(current, l) && Age(current, lastRun) < HALF
    requires !IsNewerThan(l.aggregate, lastRun)
    ensures forall i :: 0 <= i < |l.ticks| ==> !IsNewerThan(l.ticks[i], lastRun)
  {
    NewerIsYounger(current, l.aggregate, lastRun);
    forall i | 0 <= i < |l.ticks| ensures !IsNewerThan(l.ticks[i], lastRun) {
      NewerIsYounger(current, l.ticks[i], lastRun);
    }
  }

  // `t` may be older than the aggregate, as on an archetype move.
  lemma RaiseIsYoungest(current: Tick, aggregate: Tick, t: Tick)
    requires Fresh(current, aggregate) && Fresh(current, t)
    ensures Fresh(current, Raise(aggregate, t))
    ensures Age(current, Raise(aggregate, t)) ==
            if Age(current, t) < Age(current, aggregate) then Age(current, t) else Age(current, aggregate)
  {
    NewerIsYounger(current, t, aggregate);
  }

  lemma PushedBounded(current: Tick, l: Lane, t: Tick)
    requires Bounded(current, l) && Fresh(current, t)
    ensures Bounded(current, Pushed(l, t))
  {
    RaiseIsYoungest(current, l.aggregate, t);
  }

  lemma StampedBounded(current: Tick, l: Lane, row: nat, t: Tick)
    requires Bounded(current, l) && Fresh(current, t) && row < |l.ticks|
    ensures Bounded(current, Stamped(l, row, t))
  {
    RaiseIsYoungest(current, l.aggregate, t);
  }

  lemma RangeStampedBounded(current: Tick, l: Lane, start: nat, end: nat, t: Tick)
    requires Bounded(current, l) && Fresh(current, t) && end <= |l.ticks|
    ensures Bounded(current, RangeStamped(l, start, end, t))
  {
    RaiseIsYoungest(current, l.aggregate, t);
  }

  lemma ClampedBounded(current: Tick, l: Lane)
    requires Bounded(current, l)
    ensures Bounded(current, Clamped(l, current))
  {
  }

  /** One tick of the world clock, with the clamp it runs at every interval boundary. */
  function ClockAdvanced(current: Tick, l: Lane): Lane {
    var next := WrappingSucc(current);
    if next % TICK_CHECK_INTERVAL == 0 then Clamped(l, next) else l
  }

  lemma FreshSurvivesTick(current: Tick, t: Tick)
    requires Fresh(current, t)
    ensures var next := WrappingSucc(current);
            var t' := if next % TICK_CHECK_INTERVAL == 0 then CheckAgainst(t, next) else t;
            Fresh(next, t') && Age(next, t') <= Age(current, t) + 1
            && (Age(next, t') == Age(current, t) + 1 || Age(next, t') == MAX_CHANGE_AGE)
  {
    FreshIsInWindow(current, t);
  }

  lemma ClockAdvancedBounded(current: Tick, l: Lane)
    requires Bounded(current, l)
    ensures Bounded(WrappingSucc(current), ClockAdvanced(current, l))
  {
    FreshSurvivesTick(current, l.aggregate);
    forall i | 0 <= i < |l.ticks|
      ensures var next := WrappingSucc(current); var l' := ClockAdvanced(current, l);
              Fresh(next, l'.ticks[i]) && Age(next, l'.aggregate) <= Age(next, l'.ticks[i])
    {
      FreshSurvivesTick(current, l.ticks[i]);
    }
  }

  // ---- Every run --------------------------------------------------------------------------------

  datatype Op =
    | Push(tick: Tick)
    | PushMoved(changed: Tick, added: Tick)
    | WriteAt(row: nat, tick: Tick)
    | SetChangeTick(row: nat, tick: Tick)
    | StampRange(start: nat, end: nat, tick: Tick)
    | SwapRemove(row: nat)
    | CheckNow
    | Clock

  datatype World = World(current: Tick, changed: Lane, added: Lane)

  function NewColumn(current: Tick): World {
    World(current, FRESH_LANE, FRESH_LANE)
  }

  // The contract of each operation: rows exist, and a tick handed in is one of this world's ticks.
  predicate Allowed(w: World, op: Op) {
    match op
    case Push(t) => Fresh(w.current, t)
    case PushMoved(c, a) => Fresh(w.current, c) && Fresh(w.current, a)
    case WriteAt(row, t) => Fresh(w.current, t)
    case SetChangeTick(row, t) => row < |w.changed.ticks| && Fresh(w.current, t)
    case StampRange(s, e, t) => e <= |w.changed.ticks| && Fresh(w.current, t)
    case SwapRemove(row) => row < |w.changed.ticks|
    case CheckNow => true
    case Clock => true
  }

  function Step(w: World, op: Op): World
    requires |w.changed.ticks| == |w.added.ticks| && Allowed(w, op)
  {
    match op
    case Push(t) => World(w.current, Pushed(w.changed, t), Pushed(w.added, t))
    case PushMoved(c, a) => World(w.current, Pushed(w.changed, c), Pushed(w.added, a))
    case WriteAt(row, t) => if row < |w.changed.ticks| then w.(changed := Stamped(w.changed, row, t)) else w
    case SetChangeTick(row, t) => w.(changed := Stamped(w.changed, row, t))
    case StampRange(s, e, t) => w.(changed := RangeStamped(w.changed, s, e, t))
    case SwapRemove(row) => World(w.current, RowDropped(w.changed, row), RowDropped(w.added, row))
    case CheckNow => World(w.current, Clamped(w.changed, w.current), Clamped(w.added, w.current))
    case Clock => World(WrappingSucc(w.current), ClockAdvanced(w.current, w.changed), ClockAdvanced(w.current, w.added))
  }

  // `w'` is reached from `w` by a run of `ops`.
  ghost predicate Reaches(w: World, ops: seq<Op>, w': World)
    requires |w.changed.ticks| == |w.added.ticks|
    decreases |ops|
  {
    if ops == [] then w' == w
    else Allowed(w, ops[0]) && Reaches(Step(w, ops[0]), ops[1..], w')
  }

  ghost predicate WorldBounded(w: World) {
    && |w.changed.ticks| == |w.added.ticks|
    && Bounded(w.current, w.changed) && Bounded(w.current, w.added)
  }

  lemma StepKeepsBound(w: World, op: Op)
    requires WorldBounded(w) && Allowed(w, op)
    ensures WorldBounded(Step(w, op))
  {
    match op
    case Push(t) => PushedBounded(w.current, w.changed, t); PushedBounded(w.current, w.added, t);
    case PushMoved(c, a) => PushedBounded(w.current, w.changed, c); PushedBounded(w.current, w.added, a);
    case WriteAt(row, t) => if row < |w.changed.ticks| { StampedBounded(w.current, w.changed, row, t); }
    case SetChangeTick(row, t) => StampedBounded(w.current, w.changed, row, t);
    case StampRange(s, e, t) => RangeStampedBounded(w.current, w.changed, s, e, t);
    case SwapRemove(row) =>
    case CheckNow => ClampedBounded(w.current, w.changed); ClampedBounded(w.current, w.added);
    case Clock => ClockAdvancedBounded(w.current, w.changed); ClockAdvancedBounded(w.current, w.added);
  }

  // ---- What a reader sees -------------------------------------------------------------------------

  // Whether a reader with this mark sees a row as changed, or as added.
  predicate SeesChanged(w: World, row: nat, mark: Tick)
    requires row < |w.changed.ticks|
  {
    IsNewerThan(w.changed.ticks[row], mark)
  }

  predicate SeesAdded(w: World, row: nat, mark: Tick)
    requires row < |w.added.ticks|
  {
    IsNewerThan(w.added.ticks[row], mark)
  }

  /** The rows that an operation writes answer with the tick it wrote; every other row answers every reader as
      before. A fresh row starts both answers, an overwritten one only Changed. */
  lemma StepAnswers(w: World, op: Op, row: nat, mark: Tick)
    requires |w.changed.ticks| == |w.added.ticks| && Allowed(w, op)
    ensures var v := Step(w, op); var n := |w.changed.ticks|;
            match op
            case Push(t) =>
              && |v.changed.ticks| == |v.added.ticks| == n + 1
              && (row == n ==> SeesChanged(v, n, mark) == SeesAdded(v, n, mark) == IsNewerThan(t, mark))
              && (row < n ==> SeesChanged(v, row, mark) == SeesChanged(w, row, mark)
                              && SeesAdded(v, row, mark) == SeesAdded(w, row, mark))
            case PushMoved(c, a) =>
              && |v.changed.ticks| == |v.added.ticks| == n + 1
              && (row == n ==> SeesChanged(v, n, mark) == IsNewerThan(c, mark)
                               && SeesAdded(v, n, mark) == IsNewerThan(a, mark))
              && (row < n ==> SeesChanged(v, row, mark) == SeesChanged(w, row, mark)
                              && SeesAdded(v, row, mark) == SeesAdded(w, row, mark))
            case WriteAt(at, t) =>
              && |v.changed.ticks| == n && v.added == w.added
              && (row < n ==> SeesChanged(v, row, mark) ==
                              if row == at then IsNewerThan(t, mark) else SeesChanged(w, row, mark))
            case SetChangeTick(at, t) =>
              && |v.changed.ticks| == n && v.added == w.added
              && (row < n ==> SeesChanged(v, row, mark) ==
                              if row == at then IsNewerThan(t, mark) else SeesChanged(w, row, mark))
            case StampRange(start, end, t) =>
              && |v.changed.ticks| == n && v.added == w.added && (start >= end ==> v == w)
              && (row < n ==> SeesChanged(v, row, mark) ==
                              if start <= row < end then IsNewerThan(t, mark) else SeesChanged(w, row, mark))
            case SwapRemove(at) =>
              && |v.changed.ticks| == |v.added.ticks| == n - 1
              && (row < n - 1 ==>
                    var source := if row == at then n - 1 else row;
                    SeesChanged(v, row, mark) == SeesChanged(w, source, mark)
                    && SeesAdded(v, row, mark) == SeesAdded(w, source, mark))
            case CheckNow => |v.changed.ticks| == |v.added.ticks| == n
            case Clock => |v.changed.ticks| == |v.added.ticks| == n
  {
  }

  lemma OneTickOlder(current: Tick, next: Tick, t: Tick)
    requires Fresh(current, t) && (next == current || next == WrappingSucc(current))
    ensures Age(next, t) <= HALF
  {
    FreshIsInWindow(current, t);
  }

  /** The clamp, at a check or at a tick of the clock, leaves the answers of every reader whose mark is no older
      than the clamp age. */
  lemma ClampKeepsAnswers(w: World, op: Op, row: nat, mark: Tick)
    requires WorldBounded(w) && (op.CheckNow? || op.Clock?) && row < |w.changed.ticks|
    requires var now := Step(w, op).current; Age(now, mark) <= MAX_CHANGE_AGE
    ensures var v := Step(w, op);
            && |v.changed.ticks| == |v.added.ticks| == |w.changed.ticks|
            && SeesChanged(v, row, mark) == SeesChanged(w, row, mark)
            && SeesAdded(v, row, mark) == SeesAdded(w, row, mark)
  {
    var now := Step(w, op).current;
    OneTickOlder(w.current, now, w.changed.ticks[row]);
    OneTickOlder(w.current, now, w.added.ticks[row]);
    ClampKeepsAnswer(now, w.changed.ticks[row], mark);
    ClampKeepsAnswer(now, w.added.ticks[row], mark);
  }

  /** An aggregate moves to a tick that was written, or stays, but for the clamp. */
  lemma AggregatesOnlyRise(w: World, op: Op)
    requires |w.changed.ticks| == |w.added.ticks| && Allowed(w, op) && !op.CheckNow? && !op.Clock?
    ensures var v := Step(w, op);
            && (v.changed.aggregate == w.changed.aggregate || v.changed.aggregate in v.changed.ticks)
            && (v.added.aggregate == w.added.aggregate || v.added.aggregate in v.added.ticks)
  {
    var v := Step(w, op);
    match op
    case Push(t) => assert v.changed.ticks[|w.changed.ticks|] == t && v.added.ticks[|w.added.ticks|] == t;
    case PushMoved(c, a) => assert v.changed.ticks[|w.changed.ticks|] == c && v.added.ticks[|w.added.ticks|] == a;
    case WriteAt(at, t) => if at < |w.changed.ticks| { assert v.changed.ticks[at] == t; }
    case SetChangeTick(at, t) => assert v.changed.ticks[at] == t;
    case StampRange(start, end, t) => if start < end { assert v.changed.ticks[start] == t; }
    case _ =>
  }

  lemma {:induction false} RunKeepsBound(w: World, ops: seq<Op>, w': World)
    requires WorldBounded(w) && Reaches(w, ops, w')
    ensures WorldBounded(w')
    decreases |ops|
  {
    if ops != [] {
      StepKeepsBound(w, ops[0]);
      RunKeepsBound(Step(w, ops[0]), ops[1..], w');
    }
  }

  ghost predicate BoundHoldsInEveryRun(w: World)
    requires |w.changed.ticks| == |w.added.ticks|
  {
    forall ops: seq<Op>, w': World :: Reaches(w, ops, w') ==> NoRowAbove(w'.changed) && NoRowAbove(w'.added)
  }

  lemma LateColumnBreaks(current: Tick)
    requires current >= HALF
    ensures !BoundHoldsInEveryRun(NewColumn(current))
  {
    var w0 := NewColumn(current);
    var ops := [Push(current), CheckNow];
    var w1 := Step(w0, ops[0]);
    var w2 := Step(w1, ops[1]);
    assert ops[1..] == [CheckNow] && ops[1..][1..] == [];
    assert Reaches(w1, ops[1..], w2);
    assert Reaches(w0, ops, w2);
    assert w1.changed.ticks == [current] && w1.changed.aggregate == ZERO;
    assert IsNewerThan(w2.changed.ticks[0], w2.changed.aggregate);
  }

  /** A column keeps its aggregates above every row, in every run, exactly when it was created while
      the wrapped tick was below 2^31: its aggregates start at tick zero, and from 2^31 on zero
      reads as the future, so pushes do not raise it and the next clamp drops it below them. */
  lemma AggregateBoundExactly(current: Tick)
    ensures BoundHoldsInEveryRun(NewColumn(current)) <==> current < HALF
  {
    var w := NewColumn(current);
    if current >= HALF {
      LateColumnBreaks(current);
    } else {
      forall ops: seq<Op>, w': World | Reaches(w, ops, w')
        ensures NoRowAbove(w'.changed) && NoRowAbove(w'.added)
      {
        RunKeepsBound(w, ops, w');
        BoundedHasNoRowAbove(w'.current, w'.changed);
        BoundedHasNoRowAbove(w'.current, w'.added);
      }
    }
  }

  // ---- Scoped write passes ----------------------------------------------------------------------

  /** Bounded, except that rows already stamped with `thisRun` may stand above the aggregate. */
  ghost predicate BoundedBut(thisRun: Tick, l: Lane) {
    && Fresh(thisRun, l.aggregate)
    && forall i :: 0 <= i < |l.ticks| ==>
         l.ticks[i] == thisRun || (Fresh(thisRun, l.ticks[i]) && Age(thisRun, l.aggregate) <= Age(thisRun, l.ticks[i]))
  }

  function StampedRows(l: Lane, rows: seq<nat>, thisRun: Tick): Lane
    requires forall i :: 0 <= i < |rows| ==> rows[i] < |l.ticks|
    decreases |rows|
  {
    if rows == [] then l else StampedRows(StampDeferred(l, rows[0], thisRun), rows[1..], thisRun)
  }

  lemma {:induction false} PassKeepsBoundedBut(l: Lane, rows: seq<nat>, thisRun: Tick)
    requires forall i :: 0 <= i < |rows| ==> rows[i] < |l.ticks|
    requires BoundedBut(thisRun, l)
    ensures BoundedBut(thisRun, StampedRows(l, rows, thisRun))
    ensures StampedRows(l, rows, thisRun).aggregate == l.aggregate
    ensures |StampedRows(l, rows, thisRun).ticks| == |l.ticks|
    ensures forall i :: 0 <= i < |l.ticks| ==>
              StampedRows(l, rows, thisRun).ticks[i] == if i in rows then thisRun else l.ticks[i]
    decreases |rows|
  {
    if rows != [] {
      PassKeepsBoundedBut(StampDeferred(l, rows[0], thisRun), rows[1..], thisRun);
    }
  }

  /** A scoped pass over any rows, cut short anywhere, then settled: the bound holds again, the row
      ticks are what the pass wrote, and the aggregate rose only if some row carries this run's tick. */
  lemma SettleRestoresBound(l: Lane, rows: seq<nat>, thisRun: Tick)
    requires forall i :: 0 <= i < |rows| ==> rows[i] < |l.ticks|
    requires Bounded(thisRun, l)
    ensures var done := Settled(StampedRows(l, rows, thisRun), thisRun);
            && Bounded(thisRun, done)
            && done.ticks == StampedRows(l, rows, thisRun).ticks
            && (rows != [] ==> done.aggregate == thisRun)
            && (done.aggregate != l.aggregate ==> done.aggregate == thisRun && thisRun in done.ticks)
  {
    PassKeepsBoundedBut(l, rows, thisRun);
    var p := StampedRows(l, rows, thisRun);
    if rows != [] {
      assert p.ticks[rows[0]] == thisRun;
      NewerIsYounger(thisRun, thisRun, p.aggregate);
      assert Age(thisRun, p.aggregate) == 0 ==> p.aggregate == thisRun;
    }
    if thisRun in p.ticks {
      NewerIsYounger(thisRun, thisRun, p.aggregate);
      assert Age(thisRun, p.aggregate) == 0 ==> p.aggregate == thisRun;
    }
  }

  // ---- The column itself, in place ---------------------------------------------------------------

  class Column<V> {
    var values: seq<V>
    var changeTicks: seq<Tick>
    var addedTicks: seq<Tick>
    var maxChangeTick: Tick
    var maxAddedTick: Tick

    ghost predicate Valid()
      reads this
    {
      |changeTicks| == |values| && |addedTicks| == |values|
    }

    ghost function Changed(): Lane
      reads this
    {
      Lane(changeTicks, maxChangeTick)
    }

    ghost function Added(): Lane
      reads this
    {
      Lane(addedTicks, maxAddedTick)
    }

    constructor ()
      ensures Valid() && values == [] && Changed() == FRESH_LANE && Added() == FRESH_LANE
    {
      values, changeTicks, addedTicks := [], [], [];
      maxChangeTick, maxAddedTick := ZERO, ZERO;
    }

    method SetChangeTick(row: nat, tick: Tick)
      requires Valid() && row < |values|
      modifies this
      ensures Valid() && values == old(values) && Added() == old(Added())
      ensures Changed() == Stamped(old(Changed()), row, tick)
      ensures forall i :: 0 <= i < |values| ==> changeTicks[i] == if i == row then tick else old(changeTicks)[i]
    {
      changeTicks := changeTicks[row := tick];
      if IsNewerThan(tick, maxChangeTick) {
        maxChangeTick := tick;
      }
    }

    method StampRange(start: nat, end: nat, tick: Tick)
      requires Valid() && end <= |values|
      modifies this
      ensures Valid() && values == old(values) && Added() == old(Added())
      ensures Changed() == RangeStamped(old(Changed()), start, end, tick)
      ensures forall i :: 0 <= i < |values| ==>
                changeTicks[i] == if start <= i < end then tick else old(changeTicks)[i]
    {
      var row := start;
      while row < end
        invariant start <= row && (row <= end || row == start)
        invariant |changeTicks| == |old(changeTicks)|
        invariant forall i :: 0 <= i < |changeTicks| ==>
                    changeTicks[i] == if start <= i < row && i < end then tick else old(changeTicks)[i]
        invariant values == old(values) && addedTicks == old(addedTicks)
        invariant maxChangeTick == old(maxChangeTick) && maxAddedTick == old(maxAddedTick)
      {
        changeTicks := changeTicks[row := tick];
        row := row + 1;
      }
      if start < end && IsNewerThan(tick, maxChangeTick) {
        maxChangeTick := tick;
      }
    }

    // The fresh-value path: both ticks start at `tick`.
    method Push(v: V, tick: Tick)
      requires Valid()
      modifies this
      ensures Valid() && values == old(values) + [v]
      ensures Changed() == Pushed(old(Changed()), tick) && Added() == Pushed(old(Added()), tick)
      ensures changeTicks == old(changeTicks) + [tick] && addedTicks == old(addedTicks) + [tick]
    {
      PushMoved(v, tick, tick);
    }

    // A row arriving from another archetype keeps both of its ticks.
    method PushMoved(v: V, changed: Tick, added: Tick)
      requires Valid()
      modifies this
      ensures Valid() && values == old(values) + [v]
      ensures Changed() == Pushed(old(Changed()), changed) && Added() == Pushed(old(Added()), added)
      ensures changeTicks == old(changeTicks) + [changed] && addedTicks == old(addedTicks) + [added]
    {
      values, changeTicks, addedTicks := values + [v], changeTicks + [changed], addedTicks + [added];
      if IsNewerThan(changed, maxChangeTick) {
        maxChangeTick := changed;
      }
      if IsNewerThan(added, maxAddedTick) {
        maxAddedTick := added;
      }
    }

    // Overwriting a value restarts Changed but not Added.
    method ReplaceAt(row: nat, v: V, tick: Tick) returns (dropped: V)
      requires Valid() && row < |values|
      modifies this
      ensures Valid() && dropped == old(values[row]) && values == old(values)[row := v]
      ensures Changed() == Stamped(old(Changed()), row, tick) && Added() == old(Added())
      ensures forall i :: 0 <= i < |values| ==> changeTicks[i] == if i == row then tick else old(changeTicks)[i]
    {
      dropped := values[row];
      values := values[row := v];
      if row < |changeTicks| {
        changeTicks := changeTicks[row := tick];
        if IsNewerThan(tick, maxChangeTick) {
          maxChangeTick := tick;
        }
      }
    }

    method CheckChangeTicks(current: Tick)
      requires Valid()
      modifies this
      ensures Valid() && values == old(values)
      ensures Changed() == Clamped(old(Changed()), current) && Added() == Clamped(old(Added()), current)
      ensures forall i :: 0 <= i < |values| ==>
                changeTicks[i] == CheckAgainst(old(changeTicks)[i], current)
                && addedTicks[i] == CheckAgainst(old(addedTicks)[i], current)
    {
      changeTicks := CheckAll(changeTicks, current);
      addedTicks := CheckAll(addedTicks, current);
      maxChangeTick := CheckAgainst(maxChangeTick, current);
      maxAddedTick := CheckAgainst(maxAddedTick, current);
    }

    // The last row fills the hole, whole: its value and both of its ticks move together.
    method SwapRemove(row: nat) returns (removed: V)
      requires Valid() && row < |values|
      modifies this
      ensures Valid() && removed == old(values[row]) && values == SwapRemoved(old(values), row)
      ensures Changed() == RowDropped(old(Changed()), row) && Added() == RowDropped(old(Added()), row)
      ensures forall i :: 0 <= i < |values| ==>
                var source := if i == row then |values| else i;
                && values[i] == old(values)[source]
                && changeTicks[i] == old(changeTicks)[source] && addedTicks[i] == old(addedTicks)[source]
    {
      var last := |values| - 1;
      removed := values[row];
      values := values[row := values[last]][..last];
      if row != last {
        changeTicks := changeTicks[row := changeTicks[last]][last := changeTicks[row]];
        addedTicks := addedTicks[row := addedTicks[last]][last := addedTicks[row]];
      }
      changeTicks, addedTicks := changeTicks[..last], addedTicks[..last];
    }

    // What a scoped write pass owes once it is over, on every way out of it.
    method SettleColumnAggregate(thisRun: Tick)
      requires Valid()
      modifies this`maxChangeTick
      ensures Changed() == Settled(old(Changed()), thisRun)
    {
      if !IsNewerThan(thisRun, maxChangeTick) {
        return;
      }
      var i := 0;
      while i < |changeTicks|
        invariant 0 <= i <= |changeTicks| && maxChangeTick == old(maxChangeTick)
        invariant thisRun !in changeTicks[..i]
      {
        if changeTicks[i] == thisRun {
          maxChangeTick := thisRun;
          return;
        }
        i := i + 1;
      }
    }
  }

  method CheckAll(ticks: seq<Tick>, current: Tick) returns (checked: seq<Tick>)
    ensures checked == AllChecked(ticks, current)
  {
    checked := ticks;
    for i := 0 to |ticks|
      invariant |checked| == |ticks|
      invariant forall j :: 0 <= j < |ticks| ==>
                  checked[j] == if j < i then CheckAgainst(ticks[j], current) else ticks[j]
    {
      checked := checked[i := CheckAgainst(checked[i], current)];
    }
  }

  // A row that fills a hole is one old row, complete; the rest keep their places.
  lemma SwapRemovedKeepsRows<T>(s: seq<T>, row: nat)
    requires row < |s|
    ensures multiset(SwapRemoved(s, row)) == multiset(s) - multiset{s[row]}
    ensures forall i :: 0 <= i < |s| - 1 && i != row ==> SwapRemoved(s, row)[i] == s[i]
  {
    var last := |s| - 1;
    assert s == s[..last] + [s[last]];
    if row < last {
      assert s[..last] == s[..row] + [s[row]] + s[row + 1..last];
      assert SwapRemoved(s, row) == s[..row] + [s[last]] + s[row + 1..last];
    }
  }
}
