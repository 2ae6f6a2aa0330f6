/** Walking a query: archetypes are skipped on their aggregates, the row loop takes a dense path
    when no row can fail. Both drivers yield exactly the rows, in order, of a naive scan that tests
    every row of every listed archetype.
  */
module QueryIteration {
  import opened Basics
  import opened ChangeTicks
  import opened QueryShapes

  datatype RowRange = RowRange(arch: nat, start: nat, end: nat)

  datatype Query = Query(
    registry: Registry,
    archetypes: seq<Archetype>,
    shape: Shape,
    lastRun: Tick,
    rowRanges: seq<RowRange>,
    matchVerified: bool)

  type Visit = (nat, nat)  // archetype index and row

  /** What the world guarantees while a query runs at tick `current` over the archetypes `list`. */
  ghost predicate Ready(current: Tick, q: Query, list: seq<nat>) {
    && Age(current, q.lastRun) < HALF
    && (forall i {:trigger ArchetypeBounded(current, q.archetypes[i])} ::
          0 <= i < |q.archetypes| ==> ArchetypeBounded(current, q.archetypes[i]))
    && Listed(q, list)
    && (q.matchVerified ==> forall i :: 0 <= i < |list| ==> Wants(q.registry, q.archetypes[list[i]], q.shape))
  }

  // The first range given for the archetype, or all of it.
  function RowBounds(ranges: seq<RowRange>, arch: nat, len: nat): (nat, nat) {
    if ranges == [] then (0, len)
    else if ranges[0].arch == arch then (ranges[0].start, if ranges[0].end < len then ranges[0].end else len)
    else RowBounds(ranges[1..], arch, len)
  }

  lemma {:induction false} RowBoundsInside(ranges: seq<RowRange>, arch: nat, len: nat)
    ensures RowBounds(ranges, arch, len).1 <= len
  {
    if ranges != [] && ranges[0].arch != arch {
      RowBoundsInside(ranges[1..], arch, len);
    }
  }

  // ---- The naive scan --------------------------------------------------------------------------------

  ghost predicate Listed(q: Query, list: seq<nat>) {
    forall i :: 0 <= i < |list| ==> list[i] < |q.archetypes| && ArchetypeValid(q.archetypes[list[i]])
  }

  // The rows of an archetype that the shape asks about at all.
  function Window(q: Query, arch: nat): (w: (nat, nat))
    requires arch < |q.archetypes|
    ensures w.1 <= |q.archetypes[arch].entities|
  {
    var a := q.archetypes[arch];
    RowBoundsInside(q.rowRanges, arch, |a.entities|);
    if Wants(q.registry, a, q.shape) then RowBounds(q.rowRanges, arch, |a.entities|) else (0, 0)
  }

  predicate RowPasses(q: Query, arch: nat, row: nat)
    requires arch < |q.archetypes| && ArchetypeValid(q.archetypes[arch]) && row < |q.archetypes[arch].entities|
  {
    Passes(q.registry, q.archetypes[arch], q.shape, q.lastRun, row)
  }

  /** Every row that passes, from `row` of the k-th listed archetype on: archetypes in list order,
      rows in index order, each tested on its own. */
  ghost function Scan(q: Query, list: seq<nat>, k: nat, row: nat): seq<Visit>
    requires Listed(q, list)
    decreases if k < |list| then |list| - k else 0,
              if k < |list| && row < Window(q, list[k]).1 then Window(q, list[k]).1 - row else 0
  {
    if k >= |list| then []
    else if row >= Window(q, list[k]).1 then Scan(q, list, k + 1, 0)
    else if row >= Window(q, list[k]).0 && RowPasses(q, list[k], row)
    then [(list[k], row)] + Scan(q, list, k, row + 1)
    else Scan(q, list, k, row + 1)
  }

  lemma {:induction false} ScanSkipsRows(q: Query, list: seq<nat>, k: nat, row: nat, to: nat)
    requires Listed(q, list) && k < |list| && row <= to <= Window(q, list[k]).1
    requires forall i :: row <= i < to ==> i < Window(q, list[k]).0 || !RowPasses(q, list[k], i)
    ensures Scan(q, list, k, row) == Scan(q, list, k, to)
    decreases if row < to then to - row else 0
  {
    if row < to {
      ScanSkipsRows(q, list, k, row + 1, to);
    }
  }

  // ---- Which rows that is --------------------------------------------------------------------------------

  /** The first range that names the archetype admits the row; without one, every row is admitted. */
  ghost predicate Admitted(ranges: seq<RowRange>, arch: nat, row: nat) {
    || (forall i :: 0 <= i < |ranges| ==> ranges[i].arch != arch)
    || exists i: nat :: FirstFor(ranges, arch, i) && ranges[i].start <= row < ranges[i].end
  }

  ghost predicate FirstFor(ranges: seq<RowRange>, arch: nat, i: nat) {
    i < |ranges| && ranges[i].arch == arch && forall j :: 0 <= j < i ==> ranges[j].arch != arch
  }

  lemma {:induction false} RowBoundsAdmit(ranges: seq<RowRange>, arch: nat, len: nat, row: nat)
    ensures row < len ==> (RowBounds(ranges, arch, len).0 <= row < RowBounds(ranges, arch, len).1
                           <==> Admitted(ranges, arch, row))
  {
    if ranges != [] && ranges[0].arch == arch {
      assert FirstFor(ranges, arch, 0);
      forall i: nat | FirstFor(ranges, arch, i) ensures i == 0 {
      }
    } else if ranges != [] {
      RowBoundsAdmit(ranges[1..], arch, len, row);
      AdmittedByRest(ranges, arch, row);
    }
  }

  lemma AdmittedByRest(ranges: seq<RowRange>, arch: nat, row: nat)
    requires ranges != [] && ranges[0].arch != arch
    ensures Admitted(ranges, arch, row) <==> Admitted(ranges[1..], arch, row)
  {
    var rest := ranges[1..];
    forall i: nat ensures FirstFor(rest, arch, i) <==> FirstFor(ranges, arch, i + 1) {
      if FirstFor(rest, arch, i) {
        forall j | 0 <= j < i + 1 ensures ranges[j].arch != arch {
          assert j > 0 ==> rest[j - 1] == ranges[j];
        }
      }
      if FirstFor(ranges, arch, i + 1) {
        forall j | 0 <= j < i ensures rest[j].arch != arch {
          assert rest[j] == ranges[j + 1];
        }
      }
    }
    if i: nat :| FirstFor(ranges, arch, i) && ranges[i].start <= row < ranges[i].end {
      assert FirstFor(rest, arch, i - 1) && rest[i - 1] == ranges[i];
    }
    if i: nat :| FirstFor(rest, arch, i) && rest[i].start <= row < rest[i].end {
      assert FirstFor(ranges, arch, i + 1) && rest[i] == ranges[i + 1];
    }
    if forall i :: 0 <= i < |rest| ==> rest[i].arch != arch {
      forall i | 0 <= i < |ranges| ensures ranges[i].arch != arch {
        assert i > 0 ==> rest[i - 1] == ranges[i];
      }
    }
  }

  // A row of an archetype is visited: it is there, it is asked about and admitted, and it passes.
  ghost predicate Wanted(q: Query, arch: nat, row: nat)
    requires arch < |q.archetypes| && ArchetypeValid(q.archetypes[arch])
  {
    && Wants(q.registry, q.archetypes[arch], q.shape)
    && row < |q.archetypes[arch].entities|
    && Admitted(q.rowRanges, arch, row)
    && RowPasses(q, arch, row)
  }

  lemma WindowIsWanted(q: Query, arch: nat, row: nat)
    requires arch < |q.archetypes| && ArchetypeValid(q.archetypes[arch])
    ensures Window(q, arch).0 <= row < Window(q, arch).1 && RowPasses(q, arch, row) <==> Wanted(q, arch, row)
  {
    var len := |q.archetypes[arch].entities|;
    RowBoundsInside(q.rowRanges, arch, len);
    RowBoundsAdmit(q.rowRanges, arch, len, row);
  }

  // The scan from a position on holds exactly the wanted rows from there on.
  lemma {:induction false} ScanFromExactly(q: Query, list: seq<nat>, k: nat, from: nat, v: Visit)
    requires Listed(q, list)
    ensures v in Scan(q, list, k, from) <==>
              exists m :: k <= m < |list| && list[m] == v.0 && (m == k ==> from <= v.1) && Wanted(q, v.0, v.1)
    decreases if k < |list| then |list| - k else 0,
              if k < |list| && from < Window(q, list[k]).1 then Window(q, list[k]).1 - from else 0
  {
    if k < |list| {
      WindowIsWanted(q, list[k], v.1);
      WindowIsWanted(q, list[k], from);
      if from >= Window(q, list[k]).1 {
        ScanFromExactly(q, list, k + 1, 0, v);
      } else {
        ScanFromExactly(q, list, k, from + 1, v);
      }
    }
  }

  /** A row is visited if and only if its archetype is listed and asked for, it exists and passes, and it lies in
      the first range that names its archetype, or none does. */
  lemma VisitedExactly(q: Query, list: seq<nat>, v: Visit)
    requires Listed(q, list)
    ensures v in Scan(q, list, 0, 0) <==> v.0 in list && Wanted(q, v.0, v.1)
  {
    ScanFromExactly(q, list, 0, 0, v);
    if v.0 in list {
      var m :| 0 <= m < |list| && list[m] == v.0;
    }
  }

  ghost predicate Ascending(list: seq<nat>) {
    forall i, j :: 0 <= i < j < |list| ==> list[i] < list[j]
  }

  predicate Precedes(u: Visit, v: Visit) {
    u.0 < v.0 || (u.0 == v.0 && u.1 < v.1)
  }

  /** Over archetypes in index order the visits are in order, each row once. */
  lemma {:induction false} VisitsInOrder(q: Query, list: seq<nat>, k: nat, from: nat)
    requires Listed(q, list) && Ascending(list)
    ensures forall i, j :: 0 <= i < j < |Scan(q, list, k, from)| ==>
              Precedes(Scan(q, list, k, from)[i], Scan(q, list, k, from)[j])
    decreases if k < |list| then |list| - k else 0,
              if k < |list| && from < Window(q, list[k]).1 then Window(q, list[k]).1 - from else 0
  {
    if k < |list| {
      if from >= Window(q, list[k]).1 {
        VisitsInOrder(q, list, k + 1, 0);
      } else {
        VisitsInOrder(q, list, k, from + 1);
        var rest := Scan(q, list, k, from + 1);
        forall v | v in rest ensures Precedes((list[k], from), v) {
          ScanFromExactly(q, list, k, from + 1, v);
        }
      }
    }
  }

  // ---- Split ranges ----------------------------------------------------------------------------------------

  // One task's share of one archetype.
  function Share(q: Query, arch: nat, start: nat, end: nat): Query {
    q.(rowRanges := [RowRange(arch, start, end)])
  }

  // The passing rows of an archetype from lo up to hi.
  ghost function PassingRows(q: Query, arch: nat, lo: nat, hi: nat): seq<Visit>
    requires arch < |q.archetypes| && ArchetypeValid(q.archetypes[arch])
    decreases if lo < hi then hi - lo else 0
  {
    if lo >= hi || lo >= |q.archetypes[arch].entities| then []
    else (if RowPasses(q, arch, lo) then [(arch, lo)] else []) + PassingRows(q, arch, lo + 1, hi)
  }

  lemma {:induction false} PassingRowsJoin(q: Query, arch: nat, lo: nat, mid: nat, hi: nat)
    requires arch < |q.archetypes| && ArchetypeValid(q.archetypes[arch]) && lo <= mid <= hi
    ensures PassingRows(q, arch, lo, mid) + PassingRows(q, arch, mid, hi) == PassingRows(q, arch, lo, hi)
    decreases mid - lo
  {
    if lo < mid && lo < |q.archetypes[arch].entities| {
      PassingRowsJoin(q, arch, lo + 1, mid, hi);
    }
  }

  lemma {:induction false} ShareFrom(q: Query, arch: nat, start: nat, end: nat, row: nat)
    requires arch < |q.archetypes| && ArchetypeValid(q.archetypes[arch]) && start <= row
    ensures var one := Share(q, arch, start, end);
            Scan(one, [arch], 0, row) ==
              if Wants(q.registry, q.archetypes[arch], q.shape) then PassingRows(q, arch, row, end) else []
    decreases if row < end then end - row else 0
  {
    var one, len := Share(q, arch, start, end), |q.archetypes[arch].entities|;
    assert Scan(one, [arch], 1, 0) == [];
    if row < end && row < len && Wants(q.registry, q.archetypes[arch], q.shape) {
      ShareFrom(q, arch, start, end, row + 1);
    }
  }

  lemma ShareIsPassing(q: Query, arch: nat, start: nat, end: nat)
    requires arch < |q.archetypes| && ArchetypeValid(q.archetypes[arch])
    ensures Scan(Share(q, arch, start, end), [arch], 0, 0) ==
              if Wants(q.registry, q.archetypes[arch], q.shape) then PassingRows(q, arch, start, end) else []
  {
    var one := Share(q, arch, start, end);
    var window := Window(one, arch);
    assert Scan(one, [arch], 1, 0) == [];
    ScanSkipsRows(one, [arch], 0, 0, if start < window.1 then start else window.1);
    ShareFrom(q, arch, start, end, start);
  }

  /** The scans of two adjoining ranges, one after the other, are the scan of their union: tasks that split an
      archetype visit each of its rows once. */
  lemma SharesJoin(q: Query, arch: nat, start: nat, mid: nat, end: nat)
    requires arch < |q.archetypes| && ArchetypeValid(q.archetypes[arch]) && start <= mid <= end
    ensures Scan(Share(q, arch, start, mid), [arch], 0, 0) + Scan(Share(q, arch, mid, end), [arch], 0, 0) ==
            Scan(Share(q, arch, start, end), [arch], 0, 0)
  {
    ShareIsPassing(q, arch, start, mid);
    ShareIsPassing(q, arch, mid, end);
    ShareIsPassing(q, arch, start, end);
    PassingRowsJoin(q, arch, start, mid, end);
  }

  /** The range of a whole archetype is no range at all. */
  lemma WholeShareIsAll(q: Query, arch: nat, v: Visit)
    requires arch < |q.archetypes| && ArchetypeValid(q.archetypes[arch])
    ensures v in Scan(Share(q, arch, 0, |q.archetypes[arch].entities|), [arch], 0, 0) <==>
            v in Scan(q.(rowRanges := []), [arch], 0, 0)
  {
    var whole, free := Share(q, arch, 0, |q.archetypes[arch].entities|), q.(rowRanges := []);
    VisitedExactly(whole, [arch], v);
    VisitedExactly(free, [arch], v);
    assert FirstFor(whole.rowRanges, arch, 0);
  }

  /** An archetype a driver passes over has nothing in the naive scan. */
  lemma PassedOverIsEmpty(current: Tick, q: Query, list: seq<nat>, k: nat)
    requires Ready(current, q, list) && k < |list|
    requires var a := q.archetypes[list[k]]; var ids := FillIds(q.registry, q.shape);
             || a.entities == []
             || (!q.matchVerified && !Matches(a, q.shape, ids))
             || (HasRowFilter(q.shape) && SkipArchetype(a, q.shape, ids, q.lastRun))
    ensures Scan(q, list, k, 0) == Scan(q, list, k + 1, 0)
  {
    var a := q.archetypes[list[k]];
    assert ArchetypeBounded(current, a);
    MatchesIsWants(q.registry, a, q.shape);
    if Wants(q.registry, a, q.shape) && a.entities != [] {
      forall i | 0 <= i < Window(q, list[k]).1 ensures !RowPasses(q, list[k], i) {
        SkippedHasNoPassingRow(q.registry, current, a, q.shape, q.lastRun, i);
      }
    }
    ScanSkipsRows(q, list, k, 0, Window(q, list[k]).1);
  }

  // ---- What both drivers do with one archetype and one row --------------------------------------------

  // The rows to try in the k-th listed archetype: none when it is empty, does not match, or is skipped.
  method OpenArchetype(ghost current: Tick, q: Query, ids: seq<Id>, list: seq<nat>, k: nat)
      returns (start: nat, end: nat)
    requires Ready(current, q, list) && k < |list| && ids == FillIds(q.registry, q.shape)
    ensures start < end ==> end == Window(q, list[k]).1 && start == Window(q, list[k]).0
    ensures Scan(q, list, k, 0) == if start < end then Scan(q, list, k, start) else Scan(q, list, k + 1, 0)
  {
    var a := q.archetypes[list[k]];
    if a.entities == []
       || (!q.matchVerified && !Matches(a, q.shape, ids))
       || (HasRowFilter(q.shape) && SkipArchetype(a, q.shape, ids, q.lastRun)) {
      PassedOverIsEmpty(current, q, list, k);
      return 0, 0;
    }
    MatchesIsWants(q.registry, a, q.shape);
    var bounds := RowBounds(q.rowRanges, list[k], |a.entities|);
    start, end := bounds.0, bounds.1;
    RowBoundsInside(q.rowRanges, list[k], |a.entities|);
    ScanSkipsRows(q, list, k, 0, if start < end then start else end);
  }

  // One row: fetched with a check under a row filter, unconditionally without one.
  method TryRow(q: Query, ids: seq<Id>, list: seq<nat>, k: nat, row: nat) returns (hit: bool)
    requires Listed(q, list) && k < |list| && ids == FillIds(q.registry, q.shape)
    requires Window(q, list[k]).0 <= row < Window(q, list[k]).1
    ensures Scan(q, list, k, row) == (if hit then [(list[k], row)] else []) + Scan(q, list, k, row + 1)
  {
    var a := q.archetypes[list[k]];
    if HasRowFilter(q.shape) {
      FetchesIsPasses(q.registry, a, q.shape, q.lastRun, row);
      hit := Fetches(a, q.shape, ids, q.lastRun, row);
    } else {
      NoRowFilterPassesAll(q.registry, a, q.shape, q.lastRun, row);
      hit := true;
    }
    assert hit == RowPasses(q, list[k], row);
  }

  // ---- for_each -----------------------------------------------------------------------------------------

  method ForEach(ghost current: Tick, q: Query, list: seq<nat>) returns (visited: seq<Visit>)
    requires Ready(current, q, list)
    ensures visited == Scan(q, list, 0, 0)
  {
    var ids := FillIds(q.registry, q.shape);
    visited := [];
    for k := 0 to |list|
      invariant visited + Scan(q, list, k, 0) == Scan(q, list, 0, 0)
    {
      var start, end := OpenArchetype(current, q, ids, list, k);
      if start < end {
        var rows := VisitRows(q, ids, list, k, start, end);
        ConcatAssociates(visited, rows, Scan(q, list, k + 1, 0));
        visited := visited + rows;
      }
    }
  }

  method VisitRows(q: Query, ids: seq<Id>, list: seq<nat>, k: nat, start: nat, end: nat) returns (rows: seq<Visit>)
    requires Listed(q, list) && k < |list| && ids == FillIds(q.registry, q.shape)
    requires Window(q, list[k]).0 <= start < end == Window(q, list[k]).1
    ensures rows + Scan(q, list, k + 1, 0) == Scan(q, list, k, start)
  {
    rows := [];
    for row := start to end
      invariant rows + Scan(q, list, k, row) == Scan(q, list, k, start)
    {
      var hit := TryRow(q, ids, list, k, row);
      var found := if hit then [(list[k], row)] else [];
      ConcatAssociates(rows, found, Scan(q, list, k, row + 1));
      rows := rows + found;
    }
  }

  // ---- The lazy iterator ------------------------------------------------------------------------------

  class QueryIter {
    const query: Query
    const list: seq<nat>
    const ids: seq<Id>
    ghost const current: Tick
    var archPos: nat  // the next listed archetype to open
    var row: nat      // rows row..rowEnd of the open one are still to try
    var rowEnd: nat

    ghost predicate Valid()
      reads this
    {
      && Ready(current, query, list) && ids == FillIds(query.registry, query.shape)
      && archPos <= |list|
      && (row < rowEnd ==> 0 < archPos && Window(query, list[archPos - 1]).0 <= row
                           && rowEnd == Window(query, list[archPos - 1]).1)
    }

    // What the naive scan has still to yield.
    ghost function Left(): seq<Visit>
      requires Valid()
      reads this
    {
      if row < rowEnd then Scan(query, list, archPos - 1, row) else Scan(query, list, archPos, 0)
    }

    constructor (ghost current: Tick, query: Query, list: seq<nat>)
      requires Ready(current, query, list)
      ensures Valid() && Left() == Scan(query, list, 0, 0)
    {
      this.query, this.list, this.current := query, list, current;
      this.ids := FillIds(query.registry, query.shape);
      archPos, row, rowEnd := 0, 0, 0;
    }

    method Next() returns (item: Option<Visit>)
      requires Valid()
      modifies this
      ensures Valid()
      ensures match item
              case None => old(Left()) == [] && Left() == []
              case Some(v) => old(Left()) == [v] + Left()
    {
      while true
        invariant Valid() && Left() == old(Left())
        decreases |list| - archPos, rowEnd - row
      {
        if row >= rowEnd {
          var more := AdvanceArchetype();
          if !more {
            return None;
          }
        }
        item := StepRow();
        if item.Some? {
          return;
        }
      }
    }

    // Tries one row of the open archetype.
    method StepRow() returns (item: Option<Visit>)
      requires Valid() && row < rowEnd
      modifies this`row
      ensures Valid() && row == old(row) + 1
      ensures old(Left()) == match item case None => Left() case Some(v) => [v] + Left()
    {
      var hit := TryRow(query, ids, list, archPos - 1, row);
      item := if hit then Some((list[archPos - 1], row)) else None;
      row := row + 1;
    }

    // Moves to the next archetype with rows to try.
    method AdvanceArchetype() returns (found: bool)
      requires Valid() && row >= rowEnd
      modifies this
      ensures Valid() && Left() == old(Left())
      ensures found ==> row < rowEnd && archPos > old(archPos)
      ensures !found ==> row >= rowEnd && Left() == []
    {
      while archPos < |list|
        invariant Valid() && row >= rowEnd && archPos >= old(archPos)
        invariant Scan(query, list, archPos, 0) == old(Left())
        decreases |list| - archPos
      {
        row, rowEnd := OpenArchetype(current, query, ids, list, archPos);
        archPos := archPos + 1;
        if row < rowEnd {
          return true;
        }
      }
      return false;
    }
  }
}
