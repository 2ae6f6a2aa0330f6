/** How a queue of commands is cut into units: inserts in a row on one entity go in as a group, spawns in a
    row of one type as a batch, everything else one by one.
  */
module CommandApply {
  import opened Basics
  import opened EntityPool

  // What a command knows of the type of its payload.
  datatype Type = Type(id: nat, size: nat, align: nat)

  /** A command as far as grouping and payloads go: spawns and inserts of typed values own a payload in
      the arena, at an offset; a raw insert carries its own bytes; `Other` is any other command. */
  datatype Command =
    | Spawn(entity: Entity, offset: nat, vtable: Type)
    | Insert(entity: Entity, offset: nat, vtable: Type)
    | InsertRaw(entity: Entity, component: nat, size: nat)
    | Other(tag: nat)

  function InsertTarget(c: Command): Option<Entity> {
    match c
    case Insert(e, _, _) => Some(e)
    case InsertRaw(e, _, _) => Some(e)
    case _ => None
  }

  // Two neighbours belong to one unit: inserts on one entity, or spawns of one type.
  predicate Joins(a: Command, b: Command) {
    || (InsertTarget(a).Some? && InsertTarget(a) == InsertTarget(b))
    || (a.Spawn? && b.Spawn? && a.vtable == b.vtable)
  }

  /** Neighbours join if and only if both are inserts, typed or raw, on one entity, or both spawns of one type. */
  lemma JoinsExactly(a: Command, b: Command)
    ensures Joins(a, b) <==>
              || ((a.Insert? || a.InsertRaw?) && (b.Insert? || b.InsertRaw?) && a.entity == b.entity)
              || (a.Spawn? && b.Spawn? && a.vtable == b.vtable)
  {
  }

  // ---- Units ----------------------------------------------------------------------------------------------

  function Flat(units: seq<seq<Command>>): seq<Command> {
    if units == [] then [] else Flat(units[..|units| - 1]) + units[|units| - 1]
  }

  ghost predicate IsUnit(u: seq<Command>) {
    u != [] && forall i :: 0 <= i < |u| - 1 ==> Joins(u[i], u[i + 1])
  }

  /** Units of neighbours that join, with a break between any two units. */
  ghost predicate MaximalUnits(units: seq<seq<Command>>) {
    && (forall i :: 0 <= i < |units| ==> IsUnit(units[i]))
    && (forall i :: 0 <= i < |units| - 1 ==> !Joins(units[i][|units[i]| - 1], units[i + 1][0]))
  }

  // The unit that starts at i ends before this position.
  function UnitEnd(queue: seq<Command>, i: nat): (end: nat)
    requires i < |queue|
    ensures i < end <= |queue|
    decreases |queue| - i
  {
    if i + 1 < |queue| && Joins(queue[i], queue[i + 1]) then UnitEnd(queue, i + 1) else i + 1
  }

  lemma {:induction false} UnitEndIsMaximal(queue: seq<Command>, i: nat)
    requires i < |queue|
    ensures forall j :: i <= j < UnitEnd(queue, i) - 1 ==> Joins(queue[j], queue[j + 1])
    ensures UnitEnd(queue, i) < |queue| ==> !Joins(queue[UnitEnd(queue, i) - 1], queue[UnitEnd(queue, i)])
    decreases |queue| - i
  {
    if i + 1 < |queue| && Joins(queue[i], queue[i + 1]) {
      UnitEndIsMaximal(queue, i + 1);
    }
  }

  lemma FlatAppended(units: seq<seq<Command>>, u: seq<Command>)
    ensures Flat(units + [u]) == Flat(units) + u
  {
    assert (units + [u])[..|units|] == units;
  }

  lemma LastOfFlat(units: seq<seq<Command>>)
    requires units != [] && units[|units| - 1] != []
    ensures Flat(units) != [] && Flat(units)[|Flat(units)| - 1] == units[|units| - 1][|units[|units| - 1]| - 1]
  {
  }

  // ---- The loops ---------------------------------------------------------------------------------------------

  predicate SameTarget(queue: seq<Command>, i: nat, e: Entity) {
    i < |queue| && InsertTarget(queue[i]) == Some(e)
  }

  predicate SameType(queue: seq<Command>, i: nat, vtable: Type) {
    i < |queue| && queue[i].Spawn? && queue[i].vtable == vtable
  }

  // Takes the inserts on one entity from position i on.
  method TakeGroup(queue: seq<Command>, i: nat, e: Entity) returns (end: nat)
    requires SameTarget(queue, i, e)
    ensures end == UnitEnd(queue, i)
  {
    end := i + 1;
    while SameTarget(queue, end, e)
      invariant i < end <= |queue| && InsertTarget(queue[end - 1]) == Some(e)
      invariant UnitEnd(queue, i) == UnitEnd(queue, end - 1)
      decreases |queue| - end
    {
      end := end + 1;
    }
  }

  // Takes the spawns of one type from position i on.
  method TakeBatch(queue: seq<Command>, i: nat, vtable: Type) returns (end: nat)
    requires SameType(queue, i, vtable)
    ensures end == UnitEnd(queue, i)
  {
    end := i + 1;
    while SameType(queue, end, vtable)
      invariant i < end <= |queue| && queue[end - 1].Spawn? && queue[end - 1].vtable == vtable
      invariant UnitEnd(queue, i) == UnitEnd(queue, end - 1)
      decreases |queue| - end
    {
      end := end + 1;
    }
  }

  // The end of the unit at i, found as the apply loop finds it.
  method TakeUnit(queue: seq<Command>, i: nat) returns (end: nat)
    requires i < |queue|
    ensures end == UnitEnd(queue, i)
  {
    var target := InsertTarget(queue[i]);
    if target.Some? && SameTarget(queue, i + 1, target.value) {
      end := TakeGroup(queue, i, target.value);
    } else if queue[i].Spawn? {
      end := TakeBatch(queue, i, queue[i].vtable);
    } else {
      end := i + 1;
    }
  }

  // The units cover the queue up to i, and a unit ends there.
  ghost predicate UnitsUpTo(queue: seq<Command>, units: seq<seq<Command>>, i: nat) {
    && i <= |queue| && Flat(units) == queue[..i] && MaximalUnits(units)
    && (units == [] <==> i == 0)
    && (0 < i < |queue| ==> !Joins(queue[i - 1], queue[i]))
  }

  lemma UnitsBreak(queue: seq<Command>, units: seq<seq<Command>>, i: nat)
    requires i < |queue| && UnitsUpTo(queue, units, i) && units != []
    ensures units[|units| - 1] != [] && units[|units| - 1][|units[|units| - 1]| - 1] == queue[i - 1]
  {
    assert IsUnit(units[|units| - 1]);
    LastOfFlat(units);
    assert queue[..i][i - 1] == queue[i - 1];
  }

  lemma UnitFollows(queue: seq<Command>, units: seq<seq<Command>>, i: nat)
    requires i < |queue| && UnitsUpTo(queue, units, i)
    ensures UnitsUpTo(queue, units + [queue[i..UnitEnd(queue, i)]], UnitEnd(queue, i))
  {
    var end := UnitEnd(queue, i);
    var u := queue[i..end];
    UnitEndIsMaximal(queue, i);
    FlatAppended(units, u);
    assert queue[..i] + u == queue[..end];
    assert IsUnit(u);
    if units != [] {
      UnitsBreak(queue, units, i);
    }
  }

  // ---- The units are determined ----------------------------------------------------------------------------

  lemma {:induction false} FlatFirst(units: seq<seq<Command>>)
    requires units != []
    ensures Flat(units) == units[0] + Flat(units[1..])
    decreases |units|
  {
    var n := |units| - 1;
    if n == 0 {
      assert units[..0] == [] && units[1..] == [] && Flat(units) == [] + units[0];
      assert units[0] + [] == units[0];
    } else {
      FlatFirst(units[..n]);
      var middle := units[1..n];
      assert units[..n][1..] == middle && units[1..] == middle + [units[n]];
      FlatAppended(middle, units[n]);
      ConcatAssociates(units[0], Flat(middle), units[n]);
    }
  }

  lemma InnerJoins(a: seq<seq<Command>>, n: nat)
    requires a != [] && MaximalUnits(a) && 0 < n < |a[0]|
    ensures n < |Flat(a)| && Joins(Flat(a)[n - 1], Flat(a)[n])
  {
    FlatFirst(a);
    assert IsUnit(a[0]);
    assert Flat(a)[n - 1] == a[0][n - 1] && Flat(a)[n] == a[0][n];
  }

  lemma FollowingUnit(b: seq<seq<Command>>, n: nat)
    requires |b| > 1 && MaximalUnits(b) && n == |b[0]|
    ensures 0 < n < |Flat(b)| && !Joins(Flat(b)[n - 1], Flat(b)[n])
  {
    FlatFirst(b);
    FlatFirst(b[1..]);
    assert IsUnit(b[0]) && IsUnit(b[1]) && b[1..][0] == b[1];
    assert Flat(b)[n] == b[1][0] && Flat(b)[n - 1] == b[0][n - 1];
  }

  lemma OneUnitFlat(b: seq<seq<Command>>)
    requires |b| == 1
    ensures Flat(b) == b[0]
  {
    FlatFirst(b);
    assert b[1..] == [] && b[0] + [] == b[0];
  }

  lemma FirstUnitFits(a: seq<seq<Command>>)
    requires a != [] && MaximalUnits(a)
    ensures 0 < |a[0]| <= |Flat(a)|
  {
    FlatFirst(a);
    assert IsUnit(a[0]);
  }

  lemma FirstUnitNoLonger(a: seq<seq<Command>>, b: seq<seq<Command>>)
    requires a != [] && b != [] && MaximalUnits(a) && MaximalUnits(b) && Flat(a) == Flat(b)
    ensures |a[0]| <= |b[0]|
  {
    FirstUnitFits(a);
    FirstUnitFits(b);
    if |b| == 1 {
      OneUnitFlat(b);
    } else if |a[0]| > |b[0]| {
      InnerJoins(a, |b[0]|);
      FollowingUnit(b, |b[0]|);
    }
  }

  lemma FirstIsSlice(a: seq<seq<Command>>)
    requires a != []
    ensures |a[0]| <= |Flat(a)| && a[0] == Flat(a)[..|a[0]|] && Flat(a[1..]) == Flat(a)[|a[0]|..]
  {
    FlatFirst(a);
  }

  /** There is one way only to cut a queue into maximal units. */
  lemma {:induction false} UnitsAreUnique(a: seq<seq<Command>>, b: seq<seq<Command>>)
    requires MaximalUnits(a) && MaximalUnits(b) && Flat(a) == Flat(b)
    ensures a == b
    decreases |a|
  {
    if a != [] { FirstUnitFits(a); }
    if b != [] { FirstUnitFits(b); }
    if a != [] && b != [] {
      FirstUnitNoLonger(a, b);
      FirstUnitNoLonger(b, a);
      FirstIsSlice(a);
      FirstIsSlice(b);
      RestIsMaximal(a);
      RestIsMaximal(b);
      UnitsAreUnique(a[1..], b[1..]);
      SameFirstAndRest(a, b);
    }
  }

  lemma SameFirstAndRest(a: seq<seq<Command>>, b: seq<seq<Command>>)
    requires a != [] && b != [] && a[0] == b[0] && a[1..] == b[1..]
    ensures a == b
  {
    assert a == [a[0]] + a[1..] && b == [b[0]] + b[1..];
  }

  lemma RestIsMaximal(a: seq<seq<Command>>)
    requires a != [] && MaximalUnits(a)
    ensures MaximalUnits(a[1..])
  {
    var rest := a[1..];
    forall i | 0 <= i < |rest| ensures IsUnit(rest[i]) {
      assert rest[i] == a[i + 1];
    }
    forall i | 0 <= i < |rest| - 1 ensures !Joins(rest[i][|rest[i]| - 1], rest[i + 1][0]) {
      assert rest[i] == a[i + 1] && rest[i + 1] == a[i + 2];
    }
  }
}
