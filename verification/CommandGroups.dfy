/** A group of inserts on one entity against the same inserts one by one.

    Both give the entity the same components with the same values, requirements included. Their change and
    added ticks agree, whatever the entity and the requirements, exactly under a condition on the group.
  */
module CommandGroups {
  import opened Basics

  // A component of no size has one value only.
  datatype Value = Given(tag: nat) | Default | Unit

  datatype Cell = Cell(value: Value, changed: nat, added: nat)

  type Row = map<nat, Cell>

  /** What each component requires, and which components have no size. */
  datatype Registry = Registry(required: map<nat, seq<nat>>, zeroSized: set<nat>)

  // One insert: typed, with the tick of the pass, or raw, with a tick of its own.
  datatype Part = Part(component: nat, tag: nat, tick: nat, raw: bool)

  function Requirements(reg: Registry, c: nat): seq<nat> {
    if c in reg.required then reg.required[c] else []
  }

  function Stored(reg: Registry, c: nat, v: Value): Value {
    if c in reg.zeroSized then Unit else v
  }

  ghost predicate RowRight(reg: Registry, row: Row) {
    forall c: nat :: c in row && c in reg.zeroSized ==> row[c].value == Unit
  }

  // ---- What comes with a component ------------------------------------------------------------------------

  ghost predicate Closed(reg: Registry, present: set<nat>, x: set<nat>) {
    forall c, r :: c in x && r in Requirements(reg, c) ==> r in present || r in x
  }

  /** The least set that holds `start` and, with each component, the requirements the entity lacks. */
  ghost predicate IsClosure(reg: Registry, present: set<nat>, start: set<nat>, x: set<nat>) {
    && start <= x && x !! present && Closed(reg, present, x)
    && forall y {:trigger Closed(reg, present, y)} :: start <= y && Closed(reg, present, y) ==> x <= y
  }

  lemma ClosureIsUnique(reg: Registry, present: set<nat>, start: set<nat>, x: set<nat>, y: set<nat>)
    requires IsClosure(reg, present, start, x) && IsClosure(reg, present, start, y)
    ensures x == y
  {
  }

  // A component that came with the others changes nothing; a new one brings its own closure.
  lemma ClosureOfMember(reg: Registry, present: set<nat>, start: set<nat>, x: set<nat>, c: nat)
    requires IsClosure(reg, present, start, x) && c in x
    ensures IsClosure(reg, present, start + {c}, x)
  {
  }

  lemma ClosureOfNew(reg: Registry, present: set<nat>, start: set<nat>, x: set<nat>, c: nat, more: set<nat>)
    requires IsClosure(reg, present, start, x) && IsClosure(reg, present + x, {c}, more)
    ensures IsClosure(reg, present, start + {c}, x + more)
  {
    forall y | start + {c} <= y && Closed(reg, present, y) ensures x + more <= y {
      assert Closed(reg, present + x, y);
    }
  }

  lemma ClosureOfNothing(reg: Registry, present: set<nat>)
    ensures IsClosure(reg, present, {}, {})
  {
  }

  function AllRequired(reg: Registry): set<nat> {
    set c, r | c in reg.required && r in reg.required[c] :: r
  }

  // What a walk has so far: nothing that is present, nothing that is not needed.
  ghost predicate Gathered(reg: Registry, present: set<nat>, start: set<nat>, x: set<nat>) {
    && start <= x && x !! present && x <= start + AllRequired(reg)
    && forall y {:trigger Closed(reg, present, y)} :: start <= y && Closed(reg, present, y) ==> x <= y
  }

  lemma GatherOne(reg: Registry, present: set<nat>, start: set<nat>, x: set<nat>, c: nat, r: nat)
    requires Gathered(reg, present, start, x) && c in x && r in Requirements(reg, c) && r !in present
    ensures Gathered(reg, present, start, x + {r})
  {
  }

  lemma {:induction false} ClosureExists(reg: Registry, present: set<nat>, start: set<nat>, x: set<nat>)
    requires Gathered(reg, present, start, x)
    ensures exists y :: IsClosure(reg, present, start, y)
    decreases |start + AllRequired(reg) - x|
  {
    if Closed(reg, present, x) {
      assert IsClosure(reg, present, start, x);
    } else {
      var c, r :| c in x && r in Requirements(reg, c) && r !in present && r !in x;
      GatherOne(reg, present, start, x, c, r);
      assert start + AllRequired(reg) - (x + {r}) < start + AllRequired(reg) - x;
      ClosureExists(reg, present, start, x + {r});
    }
  }

  // ---- One insert -------------------------------------------------------------------------------------------

  function Born(reg: Registry, row: Row, x: set<nat>, p: Part): Row {
    map c | c in row.Keys + x ::
      if c in row then row[c]
      else Cell(Stored(reg, c, if c == p.component then Given(p.tag) else Default), p.tick, p.tick)
  }

  // A raw insert of a component without bytes that is already there does nothing, not even to its tick.
  function Replaced(reg: Registry, row: Row, p: Part): Row
    requires p.component in row
  {
    var c := p.component;
    if p.raw && c in reg.zeroSized then row
    else row[c := Cell(Stored(reg, c, Given(p.tag)), p.tick, row[c].added)]
  }

  ghost predicate Inserted(reg: Registry, row: Row, p: Part, row': Row) {
    if p.component in row then row' == Replaced(reg, row, p)
    else exists x {:trigger IsClosure(reg, row.Keys, {p.component}, x)} ::
           IsClosure(reg, row.Keys, {p.component}, x) && row' == Born(reg, row, x, p)
  }

  ghost predicate OneByOne(reg: Registry, row: Row, parts: seq<Part>, n: nat, w: Row)
    requires n <= |parts|
    decreases n
  {
    if n == 0 then w == row
    else exists u: Row {:trigger OneByOne(reg, row, parts, n - 1, u)} ::
           OneByOne(reg, row, parts, n - 1, u) && Inserted(reg, u, parts[n - 1], w)
  }

  /** What one insert leaves: the component with the value given - one of no size has its only value - stamped with
      the insert's tick, and added then if it is new; every requirement that comes with it, with its default and
      that tick; everything else as it was. */
  lemma InsertedExactly(reg: Registry, row: Row, p: Part, row': Row, c: nat)
    requires Inserted(reg, row, p, row')
    ensures p.component in row' && row.Keys <= row'.Keys
    ensures !(p.raw && p.component in row && p.component in reg.zeroSized) ==>
              && row'[p.component].value == (if p.component in reg.zeroSized then Unit else Given(p.tag))
              && row'[p.component].changed == p.tick
    ensures row'[p.component].added == if p.component in row then row[p.component].added else p.tick
    ensures c != p.component && c in row ==> row'[c] == row[c]
    ensures c != p.component && c !in row && c in row' ==>
              row'[c] == Cell(if c in reg.zeroSized then Unit else Default, p.tick, p.tick)
  {
  }

  /** What comes along with a new component: everything that it or a newcomer requires, and nothing that no newcomer
      requires. */
  lemma RequirementsComeAlong(reg: Registry, row: Row, p: Part, row': Row, c: nat)
    requires Inserted(reg, row, p, row') && p.component !in row && c in row' && c !in row
    ensures c in reg.required ==> forall r :: r in reg.required[c] ==> r in row'
    ensures c != p.component ==>
              exists d :: d in row' && d !in row && d in reg.required && c in reg.required[d]
  {
    var x :| IsClosure(reg, row.Keys, {p.component}, x) && row' == Born(reg, row, x, p);
    assert c in x;
    if c != p.component && !exists d :: d in row' && d !in row && d in reg.required && c in reg.required[d] {
      var y := x - {c};
      assert {p.component} <= y;
      assert Closed(reg, row.Keys, y);
    }
  }

  lemma InsertedExists(reg: Registry, row: Row, p: Part)
    ensures exists row' :: Inserted(reg, row, p, row')
  {
    if p.component in row {
      assert Inserted(reg, row, p, Replaced(reg, row, p));
    } else {
      ClosureExists(reg, row.Keys, {p.component}, {p.component});
      var x :| IsClosure(reg, row.Keys, {p.component}, x);
      assert Inserted(reg, row, p, Born(reg, row, x, p));
    }
  }

  lemma {:induction false} OneByOneExists(reg: Registry, row: Row, parts: seq<Part>, n: nat)
    requires n <= |parts|
    ensures exists w :: OneByOne(reg, row, parts, n, w)
    decreases n
  {
    if n == 0 {
      assert OneByOne(reg, row, parts, 0, row);
    } else {
      OneByOneExists(reg, row, parts, n - 1);
      var u: Row :| OneByOne(reg, row, parts, n - 1, u);
      InsertedExists(reg, u, parts[n - 1]);
      var w :| Inserted(reg, u, parts[n - 1], w);
      assert OneByOne(reg, row, parts, n, w);
    }
  }

  // ---- A group ------------------------------------------------------------------------------------------------

  // The last and the first of the first n parts that name a component.
  function LastOf(parts: seq<Part>, n: nat, c: nat): Option<nat>
    requires n <= |parts|
  {
    if n == 0 then None else if parts[n - 1].component == c then Some(n - 1) else LastOf(parts, n - 1, c)
  }

  function FirstOf(parts: seq<Part>, n: nat, c: nat): Option<nat>
    requires n <= |parts|
  {
    if n == 0 then None
    else if FirstOf(parts, n - 1, c).Some? then FirstOf(parts, n - 1, c)
    else if parts[n - 1].component == c then Some(n - 1) else None
  }

  lemma {:induction false} OccursInRange(parts: seq<Part>, n: nat, c: nat)
    requires n <= |parts|
    ensures LastOf(parts, n, c).Some? <==> FirstOf(parts, n, c).Some?
    ensures LastOf(parts, n, c).Some? ==>
              LastOf(parts, n, c).value < n && parts[LastOf(parts, n, c).value].component == c
    ensures FirstOf(parts, n, c).Some? ==>
              FirstOf(parts, n, c).value < n && parts[FirstOf(parts, n, c).value].component == c
    decreases n
  {
    if n > 0 {
      OccursInRange(parts, n - 1, c);
    }
  }

  // The components among the first n parts that the entity lacks.
  function Lacking(row: Row, parts: seq<Part>, n: nat): set<nat>
    requires n <= |parts|
  {
    if n == 0 then {}
    else Lacking(row, parts, n - 1) + if parts[n - 1].component in row then {} else {parts[n - 1].component}
  }

  lemma {:induction false} LackingIsOccurring(row: Row, parts: seq<Part>, n: nat, c: nat)
    requires n <= |parts|
    ensures c in Lacking(row, parts, n) <==> c !in row && LastOf(parts, n, c).Some?
    decreases n
  {
    if n > 0 {
      LackingIsOccurring(row, parts, n - 1, c);
    }
  }

  function GroupCell(reg: Registry, row: Row, parts: seq<Part>, c: nat): Cell
    requires parts != []
  {
    OccursInRange(parts, |parts|, c);
    match LastOf(parts, |parts|, c)
    case Some(last) =>
      var first := FirstOf(parts, |parts|, c).value;
      Cell(Stored(reg, c, Given(parts[last].tag)), parts[last].tick,
           if c in row then row[c].added else parts[first].tick)
    case None =>
      if c in row then row[c] else Cell(Stored(reg, c, Default), parts[0].tick, parts[0].tick)
  }

  ghost predicate Grouped(reg: Registry, row: Row, parts: seq<Part>, v: Row)
    requires parts != []
  {
    exists x {:trigger IsClosure(reg, row.Keys, Lacking(row, parts, |parts|), x)} ::
      && IsClosure(reg, row.Keys, Lacking(row, parts, |parts|), x)
      && v.Keys == row.Keys + x && forall c: nat :: c in v ==> v[c] == GroupCell(reg, row, parts, c)
  }

  /** What a group leaves of a component that some part names: the value and the tick of the last such part, added
      by the first unless the entity had it; and of one that none does: what was there, or a default with the
      group's first tick. */
  lemma GroupedExactly(reg: Registry, row: Row, parts: seq<Part>, v: Row, first: nat, last: nat)
    requires parts != [] && Grouped(reg, row, parts, v) && first <= last < |parts|
    requires parts[first].component == parts[last].component
    requires forall i :: 0 <= i < first ==> parts[i].component != parts[first].component
    requires forall i :: last < i < |parts| ==> parts[i].component != parts[last].component
    ensures var c := parts[last].component;
            c in v && v[c] == Cell(if c in reg.zeroSized then Unit else Given(parts[last].tag), parts[last].tick,
                                   if c in row then row[c].added else parts[first].tick)
  {
    var c := parts[last].component;
    LastOfIs(parts, |parts|, c, last);
    FirstOfIs(parts, |parts|, c, first);
    LackingIsOccurring(row, parts, |parts|, c);
  }

  lemma GroupedUnnamed(reg: Registry, row: Row, parts: seq<Part>, v: Row, c: nat)
    requires parts != [] && Grouped(reg, row, parts, v) && c in v
    requires forall i :: 0 <= i < |parts| ==> parts[i].component != c
    ensures v[c] == if c in row then row[c]
                    else Cell(if c in reg.zeroSized then Unit else Default, parts[0].tick, parts[0].tick)
  {
    OccursInRange(parts, |parts|, c);
  }

  lemma {:induction false} LastOfIs(parts: seq<Part>, n: nat, c: nat, last: nat)
    requires last < n <= |parts| && parts[last].component == c
    requires forall i :: last < i < n ==> parts[i].component != c
    ensures LastOf(parts, n, c) == Some(last)
    decreases n
  {
    if last < n - 1 { LastOfIs(parts, n - 1, c, last); }
  }

  lemma {:induction false} FirstOfIs(parts: seq<Part>, n: nat, c: nat, first: nat)
    requires first < n <= |parts| && parts[first].component == c
    requires forall i :: 0 <= i < first ==> parts[i].component != c
    ensures FirstOf(parts, n, c) == Some(first)
    decreases n
  {
    if first < n - 1 {
      FirstOfIs(parts, n - 1, c, first);
    } else {
      OccursInRange(parts, first, c);
    }
  }

  // ---- Components -----------------------------------------------------------------------------------------------

  ghost predicate KeysAre(reg: Registry, row: Row, parts: seq<Part>, n: nat, w: Row, x: set<nat>)
    requires n <= |parts|
  {
    IsClosure(reg, row.Keys, Lacking(row, parts, n), x) && w.Keys == row.Keys + x
  }

  lemma {:induction false} KeysOneByOne(reg: Registry, row: Row, parts: seq<Part>, n: nat, w: Row)
    requires n <= |parts| && OneByOne(reg, row, parts, n, w)
    ensures exists x :: KeysAre(reg, row, parts, n, w, x)
    decreases n
  {
    if n == 0 {
      ClosureOfNothing(reg, row.Keys);
      assert KeysAre(reg, row, parts, 0, w, {});
    } else {
      var u: Row :| OneByOne(reg, row, parts, n - 1, u) && Inserted(reg, u, parts[n - 1], w);
      KeysOneByOne(reg, row, parts, n - 1, u);
      var x :| KeysAre(reg, row, parts, n - 1, u, x);
      KeysStep(reg, row, parts, n, u, w, x);
    }
  }

  lemma KeysStep(reg: Registry, row: Row, parts: seq<Part>, n: nat, u: Row, w: Row, x: set<nat>)
    requires 0 < n <= |parts| && Inserted(reg, u, parts[n - 1], w) && KeysAre(reg, row, parts, n - 1, u, x)
    ensures exists y :: KeysAre(reg, row, parts, n, w, y)
  {
    var c, start := parts[n - 1].component, Lacking(row, parts, n - 1);
    if c in row {
      assert Lacking(row, parts, n) == start;
      assert KeysAre(reg, row, parts, n, w, x);
    } else if c in x {
      ClosureOfMember(reg, row.Keys, start, x, c);
      assert KeysAre(reg, row, parts, n, w, x);
    } else {
      var more :| IsClosure(reg, u.Keys, {c}, more) && w == Born(reg, u, more, parts[n - 1]);
      ClosureOfNew(reg, row.Keys, start, x, c, more);
      assert KeysAre(reg, row, parts, n, w, x + more);
    }
  }

  // ---- Cells ------------------------------------------------------------------------------------------------------

  // The tick of the last of the first n parts that stamps a component that is there.
  function LastStamp(zeroSized: set<nat>, parts: seq<Part>, n: nat, c: nat): Option<nat>
    requires n <= |parts|
  {
    if n == 0 then None
    else if parts[n - 1].component == c && !(parts[n - 1].raw && c in zeroSized) then Some(parts[n - 1].tick)
    else LastStamp(zeroSized, parts, n - 1, c)
  }

  function OrElse(o: Option<nat>, d: nat): nat {
    match o case None => d case Some(t) => t
  }

  function LastValue(reg: Registry, parts: seq<Part>, n: nat, c: nat, otherwise: Value): Value
    requires n <= |parts|
  {
    OccursInRange(parts, n, c);
    match LastOf(parts, n, c) case None => otherwise case Some(i) => Stored(reg, c, Given(parts[i].tag))
  }

  // A cell the entity had before keeps its added tick; the stamping parts move its change tick.
  ghost predicate OldCell(reg: Registry, row: Row, parts: seq<Part>, n: nat, w: Row, c: nat)
    requires n <= |parts| && c in row
  {
    && c in w && w[c].added == row[c].added
    && w[c].changed == OrElse(LastStamp(reg.zeroSized, parts, n, c), row[c].changed)
    && w[c].value == LastValue(reg, parts, n, c, row[c].value)
  }

  lemma OldCellStep(reg: Registry, row: Row, parts: seq<Part>, n: nat, u: Row, w: Row, c: nat)
    requires 0 < n <= |parts| && RowRight(reg, row) && c in row && Inserted(reg, u, parts[n - 1], w)
    requires OldCell(reg, row, parts, n - 1, u, c)
    ensures OldCell(reg, row, parts, n, w, c)
  {
    OccursInRange(parts, n - 1, c);
  }

  lemma {:induction false} OldCellOneByOne(reg: Registry, row: Row, parts: seq<Part>, n: nat, w: Row, c: nat)
    requires n <= |parts| && RowRight(reg, row) && OneByOne(reg, row, parts, n, w) && c in row
    ensures OldCell(reg, row, parts, n, w, c)
    decreases n
  {
    if n > 0 {
      var u: Row :| OneByOne(reg, row, parts, n - 1, u) && Inserted(reg, u, parts[n - 1], w);
      OldCellOneByOne(reg, row, parts, n - 1, u, c);
      OldCellStep(reg, row, parts, n, u, w, c);
    }
  }

  // A cell that was born in the group has the last value given, or the default; what is named is there.
  ghost predicate NewValue(reg: Registry, parts: seq<Part>, n: nat, w: Row, c: nat)
    requires n <= |parts|
  {
    && (c in w ==> w[c].value == LastValue(reg, parts, n, c, Stored(reg, c, Default)))
    && (LastOf(parts, n, c).Some? ==> c in w)
  }

  lemma NewValueStep(reg: Registry, parts: seq<Part>, n: nat, u: Row, w: Row, c: nat)
    requires 0 < n <= |parts| && Inserted(reg, u, parts[n - 1], w) && NewValue(reg, parts, n - 1, u, c)
    ensures NewValue(reg, parts, n, w, c)
  {
    OccursInRange(parts, n - 1, c);
  }

  lemma {:induction false} NewValueOneByOne(reg: Registry, row: Row, parts: seq<Part>, n: nat, w: Row, c: nat)
    requires n <= |parts| && OneByOne(reg, row, parts, n, w) && c !in row
    ensures NewValue(reg, parts, n, w, c)
    decreases n
  {
    if n > 0 {
      var u: Row :| OneByOne(reg, row, parts, n - 1, u) && Inserted(reg, u, parts[n - 1], w);
      NewValueOneByOne(reg, row, parts, n - 1, u, c);
      NewValueStep(reg, parts, n, u, w, c);
    }
  }

  lemma SameKeys(reg: Registry, row: Row, parts: seq<Part>, w: Row, v: Row)
    requires parts != [] && OneByOne(reg, row, parts, |parts|, w) && Grouped(reg, row, parts, v)
    ensures w.Keys == v.Keys
  {
    var start := Lacking(row, parts, |parts|);
    KeysOneByOne(reg, row, parts, |parts|, w);
    var x :| KeysAre(reg, row, parts, |parts|, w, x);
    var y :| IsClosure(reg, row.Keys, start, y) && v.Keys == row.Keys + y;
    ClosureIsUnique(reg, row.Keys, start, x, y);
  }

  /** Grouped or one by one, the entity gets the same components with the same values. */
  lemma SameComponentsAndValues(reg: Registry, row: Row, parts: seq<Part>, w: Row, v: Row)
    requires parts != [] && RowRight(reg, row)
    requires OneByOne(reg, row, parts, |parts|, w) && Grouped(reg, row, parts, v)
    ensures w.Keys == v.Keys && forall c :: c in w ==> w[c].value == v[c].value
  {
    SameKeys(reg, row, parts, w, v);
    forall c: nat | c in w ensures w[c].value == v[c].value {
      OccursInRange(parts, |parts|, c);
      if c in row {
        OldCellOneByOne(reg, row, parts, |parts|, w, c);
      } else {
        NewValueOneByOne(reg, row, parts, |parts|, w, c);
      }
    }
  }

  // ---- Ticks --------------------------------------------------------------------------------------------------------

  // Every component's first insert has the tick of the whole group's first.
  ghost predicate FirstsAgree(parts: seq<Part>) {
    forall i :: 0 <= i < |parts| && FirstOf(parts, |parts|, parts[i].component) == Some(i) ==>
      parts[i].tick == parts[0].tick
  }

  // Every component's last insert stamps it, or has the tick of one that does.
  ghost predicate RawsAgree(zeroSized: set<nat>, parts: seq<Part>) {
    forall i :: 0 <= i < |parts| && LastOf(parts, |parts|, parts[i].component) == Some(i) ==>
      LastStamp(zeroSized, parts, |parts|, parts[i].component) == Some(parts[i].tick)
  }

  lemma {:induction false} FirstIsStable(parts: seq<Part>, n: nat, c: nat)
    requires n < |parts| && FirstOf(parts, n, c).None? && parts[n].component == c
    ensures FirstOf(parts, |parts|, c) == Some(n)
  {
    FirstStays(parts, n, n + 1, c);
    assert FirstOf(parts, n + 1, c) == Some(n);
    FirstStays(parts, n + 1, |parts|, c);
  }

  lemma {:induction false} FirstStays(parts: seq<Part>, m: nat, n: nat, c: nat)
    requires m <= n <= |parts|
    ensures FirstOf(parts, m, c).Some? ==> FirstOf(parts, n, c) == FirstOf(parts, m, c)
    decreases n
  {
    if m < n {
      FirstStays(parts, m, n - 1, c);
    }
  }

  // A cell that was born in the group was born with the group's tick.
  ghost predicate NewTick(zeroSized: set<nat>, parts: seq<Part>, n: nat, w: Row, c: nat)
    requires n <= |parts| && parts != []
  {
    c in w ==>
      w[c].added == parts[0].tick && w[c].changed == OrElse(LastStamp(zeroSized, parts, n, c), parts[0].tick)
  }

  // A part that finds its component missing is the first to name it.
  lemma BirthHasGroupTick(reg: Registry, row: Row, parts: seq<Part>, n: nat, u: Row)
    requires 0 < n <= |parts| && FirstsAgree(parts) && OneByOne(reg, row, parts, n - 1, u)
    requires parts[n - 1].component !in u
    ensures parts[n - 1].tick == parts[0].tick
  {
    var c := parts[n - 1].component;
    if c in row {
      RowStays(reg, row, parts, n - 1, u, c);
    } else {
      NewValueOneByOne(reg, row, parts, n - 1, u, c);
      OccursInRange(parts, n - 1, c);
      FirstIsStable(parts, n - 1, c);
    }
  }

  lemma {:induction false} RowStays(reg: Registry, row: Row, parts: seq<Part>, n: nat, w: Row, c: nat)
    requires n <= |parts| && OneByOne(reg, row, parts, n, w) && c in row
    ensures c in w
    decreases n
  {
    if n > 0 {
      var u: Row :| OneByOne(reg, row, parts, n - 1, u) && Inserted(reg, u, parts[n - 1], w);
      RowStays(reg, row, parts, n - 1, u, c);
    }
  }

  lemma NewTickStep(reg: Registry, parts: seq<Part>, n: nat, u: Row, w: Row, c: nat)
    requires 0 < n <= |parts| && Inserted(reg, u, parts[n - 1], w)
    requires parts[n - 1].component !in u ==> parts[n - 1].tick == parts[0].tick
    requires NewTick(reg.zeroSized, parts, n - 1, u, c) && NewValue(reg, parts, n - 1, u, c)
    ensures NewTick(reg.zeroSized, parts, n, w, c)
  {
    NeverNamedNeverStamped(reg.zeroSized, parts, n - 1, c);
  }

  lemma {:induction false} NewTickOneByOne(reg: Registry, row: Row, parts: seq<Part>, n: nat, w: Row, c: nat)
    requires n <= |parts| && parts != [] && FirstsAgree(parts) && OneByOne(reg, row, parts, n, w) && c !in row
    ensures NewTick(reg.zeroSized, parts, n, w, c)
    decreases n
  {
    if n > 0 {
      var u: Row :| OneByOne(reg, row, parts, n - 1, u) && Inserted(reg, u, parts[n - 1], w);
      NewTickOneByOne(reg, row, parts, n - 1, u, c);
      NewValueOneByOne(reg, row, parts, n - 1, u, c);
      if parts[n - 1].component !in u {
        BirthHasGroupTick(reg, row, parts, n, u);
      }
      NewTickStep(reg, parts, n, u, w, c);
    }
  }

  lemma {:induction false} NeverNamedNeverStamped(zeroSized: set<nat>, parts: seq<Part>, n: nat, c: nat)
    requires n <= |parts|
    ensures LastOf(parts, n, c).None? ==> LastStamp(zeroSized, parts, n, c) == None
    decreases n
  {
    if n > 0 {
      NeverNamedNeverStamped(zeroSized, parts, n - 1, c);
    }
  }

  lemma LastAgrees(zeroSized: set<nat>, parts: seq<Part>, c: nat)
    requires RawsAgree(zeroSized, parts) && LastOf(parts, |parts|, c).Some?
    ensures LastOf(parts, |parts|, c).value < |parts|
    ensures LastStamp(zeroSized, parts, |parts|, c) == Some(parts[LastOf(parts, |parts|, c).value].tick)
  {
    OccursInRange(parts, |parts|, c);
    assert parts[LastOf(parts, |parts|, c).value].component == c;
  }

  lemma FirstAgrees(parts: seq<Part>, c: nat)
    requires FirstsAgree(parts) && FirstOf(parts, |parts|, c).Some?
    ensures FirstOf(parts, |parts|, c).value < |parts|
    ensures parts[FirstOf(parts, |parts|, c).value].tick == parts[0].tick
  {
    OccursInRange(parts, |parts|, c);
    assert parts[FirstOf(parts, |parts|, c).value].component == c;
  }

  lemma AgreeingTicks(reg: Registry, row: Row, parts: seq<Part>, w: Row, v: Row, c: nat)
    requires parts != [] && RowRight(reg, row) && FirstsAgree(parts) && RawsAgree(reg.zeroSized, parts)
    requires OneByOne(reg, row, parts, |parts|, w) && Grouped(reg, row, parts, v) && c in w && c in v
    ensures w[c].changed == v[c].changed && w[c].added == v[c].added
  {
    if c in row {
      OldCellOneByOne(reg, row, parts, |parts|, w, c);
    } else {
      NewTickOneByOne(reg, row, parts, |parts|, w, c);
    }
    OccursInRange(parts, |parts|, c);
    if LastOf(parts, |parts|, c).Some? {
      LastAgrees(reg.zeroSized, parts, c);
      FirstAgrees(parts, c);
    } else {
      NeverNamedNeverStamped(reg.zeroSized, parts, |parts|, c);
    }
  }

  /** Under the condition the group leaves the very row the single inserts would. */
  lemma GroupIsOneByOne(reg: Registry, row: Row, parts: seq<Part>, w: Row, v: Row)
    requires parts != [] && RowRight(reg, row) && FirstsAgree(parts) && RawsAgree(reg.zeroSized, parts)
    requires OneByOne(reg, row, parts, |parts|, w) && Grouped(reg, row, parts, v)
    ensures w == v
  {
    SameComponentsAndValues(reg, row, parts, w, v);
    forall c: nat | c in w ensures w[c] == v[c] {
      AgreeingTicks(reg, row, parts, w, v, c);
    }
  }

  // ---- When they differ ---------------------------------------------------------------------------------------

  lemma GroupedExists(reg: Registry, row: Row, parts: seq<Part>)
    requires parts != []
    ensures exists v :: Grouped(reg, row, parts, v)
  {
    var start := Lacking(row, parts, |parts|);
    forall c: nat | c in start ensures c !in row.Keys {
      LackingIsOccurring(row, parts, |parts|, c);
    }
    ClosureExists(reg, row.Keys, start, start);
    var x :| IsClosure(reg, row.Keys, start, x);
    var v: Row := map c | c in row.Keys + x :: GroupCell(reg, row, parts, c);
    assert v.Keys == row.Keys + x;
    assert Grouped(reg, row, parts, v);
  }

  /** A component whose last insert does not stamp it: on an entity that has it, grouping moves its change
      tick and the single inserts do not. */
  lemma UnstampedDiffers(zeroSized: set<nat>, parts: seq<Part>, i: nat)
    returns (reg: Registry, row: Row, w: Row, v: Row)
    requires i < |parts| && LastOf(parts, |parts|, parts[i].component) == Some(i)
    requires LastStamp(zeroSized, parts, |parts|, parts[i].component) != Some(parts[i].tick)
    ensures reg.zeroSized == zeroSized && RowRight(reg, row)
    ensures OneByOne(reg, row, parts, |parts|, w) && Grouped(reg, row, parts, v) && w != v
  {
    var c := parts[i].component;
    reg := Registry(map[], zeroSized);
    row := map[c := Cell(Unit, parts[i].tick + 1, 0)];
    OneByOneExists(reg, row, parts, |parts|);
    GroupedExists(reg, row, parts);
    w :| OneByOne(reg, row, parts, |parts|, w);
    v :| Grouped(reg, row, parts, v);
    OldCellOneByOne(reg, row, parts, |parts|, w, c);
    assert c in v && v[c].changed == parts[i].tick;
  }

  // A number above every component of the first n parts.
  function Above(parts: seq<Part>, n: nat): (r: nat)
    requires n <= |parts|
    ensures forall i :: 0 <= i < n ==> parts[i].component < r
  {
    if n == 0 then 0
    else var r := Above(parts, n - 1); if r > parts[n - 1].component then r else parts[n - 1].component + 1
  }

  lemma ClosureWithoutRequirements(reg: Registry, present: set<nat>, d: nat, x: set<nat>)
    requires IsClosure(reg, present, {d}, x) && Requirements(reg, d) == []
    ensures x == {d}
  {
    assert Closed(reg, present, {d});
  }

  // Until c comes nobody asks for r; then r comes with the tick of that part, and stays as it is.
  lemma {:induction false} RequiredBirth(reg: Registry, parts: seq<Part>, n: nat, w: Row, i: nat, r: nat)
    requires n <= |parts| && i < |parts| && FirstOf(parts, |parts|, parts[i].component) == Some(i)
    requires (forall j :: 0 <= j < |parts| ==> parts[j].component != r)
    requires reg.required == map[parts[i].component := [r]] && OneByOne(reg, map[], parts, n, w)
    ensures n <= i ==> parts[i].component !in w && r !in w
    ensures n > i ==> r in w && w[r].added == parts[i].tick
    decreases n
  {
    if n > 0 {
      var u: Row :| OneByOne(reg, map[], parts, n - 1, u) && Inserted(reg, u, parts[n - 1], w);
      RequiredBirth(reg, parts, n - 1, u, i, r);
      RequiredStep(reg, parts, n, u, w, i, r);
    }
  }

  lemma RequiredStep(reg: Registry, parts: seq<Part>, n: nat, u: Row, w: Row, i: nat, r: nat)
    requires 0 < n <= |parts| && i < |parts| && FirstOf(parts, |parts|, parts[i].component) == Some(i)
    requires forall j :: 0 <= j < |parts| ==> parts[j].component != r
    requires reg.required == map[parts[i].component := [r]] && Inserted(reg, u, parts[n - 1], w)
    requires n - 1 <= i ==> parts[i].component !in u && r !in u
    requires n - 1 > i ==> r in u && u[r].added == parts[i].tick
    ensures n <= i ==> parts[i].component !in w && r !in w
    ensures n > i ==> r in w && w[r].added == parts[i].tick
  {
    var d, c := parts[n - 1].component, parts[i].component;
    if n - 1 < i {
      EarlierIsOther(parts, i, n - 1);
      if d !in u {
        var x :| IsClosure(reg, u.Keys, {d}, x) && w == Born(reg, u, x, parts[n - 1]);
        ClosureWithoutRequirements(reg, u.Keys, d, x);
      }
    } else if n - 1 == i {
      var x :| IsClosure(reg, u.Keys, {c}, x) && w == Born(reg, u, x, parts[n - 1]);
      assert r in Requirements(reg, c) && c in x;
    }
  }

  lemma EarlierIsOther(parts: seq<Part>, i: nat, j: nat)
    requires j < i < |parts| && FirstOf(parts, |parts|, parts[i].component) == Some(i)
    ensures parts[j].component != parts[i].component
  {
    if parts[j].component == parts[i].component {
      var c := parts[i].component;
      NamedOccurs(parts, j + 1, j);
      OccursInRange(parts, j + 1, c);
      FirstStays(parts, j + 1, |parts|, c);
    }
  }

  /** A component first named with another tick than the group's first: what it requires is born with the
      one tick in the group and with the other one by one. */
  lemma LateFirstDiffers(zeroSized: set<nat>, parts: seq<Part>, i: nat)
    returns (reg: Registry, row: Row, w: Row, v: Row)
    requires i < |parts| && FirstOf(parts, |parts|, parts[i].component) == Some(i) && parts[i].tick != parts[0].tick
    ensures reg.zeroSized == zeroSized && RowRight(reg, row)
    ensures OneByOne(reg, row, parts, |parts|, w) && Grouped(reg, row, parts, v) && w != v
  {
    var c, r := parts[i].component, Above(parts, |parts|);
    reg := Registry(map[c := [r]], zeroSized);
    row := map[];
    OneByOneExists(reg, row, parts, |parts|);
    GroupedExists(reg, row, parts);
    w :| OneByOne(reg, row, parts, |parts|, w);
    v :| Grouped(reg, row, parts, v);
    RequiredBirth(reg, parts, |parts|, w, i, r);
    RequiredInGroup(reg, parts, v, i, r);
  }

  lemma RequiredInGroup(reg: Registry, parts: seq<Part>, v: Row, i: nat, r: nat)
    requires i < |parts| && Grouped(reg, map[], parts, v) && r in Requirements(reg, parts[i].component)
    requires forall j :: 0 <= j < |parts| ==> parts[j].component != r
    ensures r in v && v[r].added == parts[0].tick
  {
    var row: Row := map[];
    var c, start := parts[i].component, Lacking(row, parts, |parts|);
    NamedOccurs(parts, |parts|, i);
    LackingIsOccurring(row, parts, |parts|, c);
    var x :| IsClosure(reg, row.Keys, start, x) && v.Keys == row.Keys + x;
    assert c in x;
    OccursInRange(parts, |parts|, r);
    assert v[r] == GroupCell(reg, row, parts, r);
  }

  lemma {:induction false} NamedOccurs(parts: seq<Part>, n: nat, i: nat)
    requires i < n <= |parts|
    ensures LastOf(parts, n, parts[i].component).Some?
    decreases n
  {
    if i < n - 1 {
      NamedOccurs(parts, n - 1, i);
    }
  }

  ghost predicate AlwaysAgrees(zeroSized: set<nat>, parts: seq<Part>)
    requires parts != []
  {
    forall reg: Registry, row: Row, w: Row, v: Row
      {:trigger OneByOne(reg, row, parts, |parts|, w), Grouped(reg, row, parts, v)} ::
      (reg.zeroSized == zeroSized && RowRight(reg, row) && OneByOne(reg, row, parts, |parts|, w)
       && Grouped(reg, row, parts, v)) ==> w == v
  }

  /** Grouping is meaning-preserving exactly so far: for every entity and all requirements the group leaves
      the row of the single inserts - components, values and both ticks - if and only if each component's
      first insert has the group's first tick and each component's last insert stamps it. */
  lemma GroupAgreesExactly(zeroSized: set<nat>, parts: seq<Part>)
    requires parts != []
    ensures AlwaysAgrees(zeroSized, parts) <==> FirstsAgree(parts) && RawsAgree(zeroSized, parts)
  {
    if FirstsAgree(parts) && RawsAgree(zeroSized, parts) {
      forall reg: Registry, row: Row, w: Row, v: Row
        | reg.zeroSized == zeroSized && RowRight(reg, row) && OneByOne(reg, row, parts, |parts|, w)
          && Grouped(reg, row, parts, v)
        ensures w == v
      {
        GroupIsOneByOne(reg, row, parts, w, v);
      }
    } else if !FirstsAgree(parts) {
      var i :| 0 <= i < |parts| && FirstOf(parts, |parts|, parts[i].component) == Some(i)
        && parts[i].tick != parts[0].tick;
      var reg, row, w, v := LateFirstDiffers(zeroSized, parts, i);
    } else {
      var i :| 0 <= i < |parts| && LastOf(parts, |parts|, parts[i].component) == Some(i)
               && LastStamp(zeroSized, parts, |parts|, parts[i].component) != Some(parts[i].tick);
      var reg, row, w, v := UnstampedDiffers(zeroSized, parts, i);
    }
  }

  // ---- The loops -------------------------------------------------------------------------------------------------

  function Elements(s: seq<nat>): set<nat> {
    set c | c in s
  }

  ghost predicate Distinct(s: seq<nat>) {
    forall i, j :: 0 <= i < j < |s| ==> s[i] != s[j]
  }

  lemma {:induction false} DistinctCounts(s: seq<nat>)
    requires Distinct(s)
    ensures |Elements(s)| == |s|
    decreases |s|
  {
    if s != [] {
      var n := |s| - 1;
      DistinctCounts(s[..n]);
      assert Elements(s) == Elements(s[..n]) + {s[n]};
    }
  }

  // What a walk over requirements has so far.
  ghost predicate Walked(reg: Registry, present: set<nat>, start: seq<nat>, walk: seq<nat>) {
    start <= walk && Distinct(walk) && Gathered(reg, present, Elements(start), Elements(walk))
  }

  ghost predicate Expanded(reg: Registry, present: set<nat>, walk: seq<nat>, k: nat) {
    forall i, r :: 0 <= i < k && i < |walk| && r in Requirements(reg, walk[i]) ==> r in present || r in walk
  }

  lemma WalkFits(reg: Registry, present: set<nat>, start: seq<nat>, walk: seq<nat>)
    requires Walked(reg, present, start, walk)
    ensures |walk| <= |Elements(start) + AllRequired(reg)|
  {
    DistinctCounts(walk);
    SubsetIsSmaller(Elements(walk), Elements(start) + AllRequired(reg));
  }

  lemma WalkedOne(reg: Registry, present: set<nat>, start: seq<nat>, walk: seq<nat>, k: nat, r: nat)
    requires Walked(reg, present, start, walk) && k < |walk|
    requires r in Requirements(reg, walk[k]) && r !in present && r !in walk
    ensures Walked(reg, present, start, walk + [r])
  {
    GatherOne(reg, present, Elements(start), Elements(walk), walk[k], r);
    assert Elements(walk + [r]) == Elements(walk) + {r};
    assert start <= walk + [r];
  }

  // Gathers what one component requires and the entity lacks.
  method Expand(reg: Registry, present: set<nat>, ghost start: seq<nat>, walk: seq<nat>, k: nat)
      returns (longer: seq<nat>)
    requires Walked(reg, present, start, walk) && k < |walk| && Expanded(reg, present, walk, k)
    ensures Walked(reg, present, start, longer) && walk <= longer && Expanded(reg, present, longer, k + 1)
  {
    longer := walk;
    var requirements := Requirements(reg, walk[k]);
    for m := 0 to |requirements|
      invariant Walked(reg, present, start, longer) && walk <= longer
      invariant forall j :: 0 <= j < m ==> requirements[j] in present || requirements[j] in longer
    {
      var r := requirements[m];
      if r !in present && r !in longer {
        WalkedOne(reg, present, start, longer, k, r);
        longer := longer + [r];
      }
    }
    forall i, r | 0 <= i < k + 1 && r in Requirements(reg, longer[i]) ensures r in present || r in longer {
      assert longer[i] == walk[i];
      if i < k && r in walk {
        var j :| 0 <= j < |walk| && walk[j] == r;
        assert longer[j] == r;
      }
    }
  }

  lemma WalkIsClosure(reg: Registry, present: set<nat>, start: seq<nat>, walk: seq<nat>)
    requires Walked(reg, present, start, walk) && Expanded(reg, present, walk, |walk|)
    ensures IsClosure(reg, present, Elements(start), Elements(walk))
  {
    forall c: nat, r | c in Elements(walk) && r in Requirements(reg, c) ensures r in present || r in Elements(walk) {
      var i :| 0 <= i < |walk| && walk[i] == c;
    }
  }

  /** The walk over requirements gathers exactly what the entity lacks of them. */
  method Fold(reg: Registry, present: set<nat>, start: seq<nat>) returns (walk: seq<nat>)
    requires Elements(start) !! present && Distinct(start)
    ensures start <= walk && Distinct(walk) && IsClosure(reg, present, Elements(start), Elements(walk))
  {
    walk := start;
    var k := 0;
    while k < |walk|
      invariant k <= |walk| && Walked(reg, present, start, walk) && Expanded(reg, present, walk, k)
      decreases |Elements(start) + AllRequired(reg)| - k
    {
      WalkFits(reg, present, start, walk);
      walk := Expand(reg, present, start, walk, k);
      k := k + 1;
    }
    WalkIsClosure(reg, present, start, walk);
  }

  // Writes the defaults of the components from position `from` of a walk on.
  method WriteDefaults(reg: Registry, row: Row, walk: seq<nat>, from: nat, tick: nat) returns (row': Row)
    requires from <= |walk|
    ensures row'.Keys == row.Keys + Elements(walk[from..])
    ensures forall c :: c in row' ==>
              row'[c] == if c in walk[from..] then Cell(Stored(reg, c, Default), tick, tick) else row[c]
  {
    row' := row;
    for k := from to |walk|
      invariant row'.Keys == row.Keys + Elements(walk[from..k])
      invariant forall c :: c in row' ==>
                  row'[c] == if c in walk[from..k] then Cell(Stored(reg, c, Default), tick, tick) else row[c]
    {
      assert walk[from..k + 1] == walk[from..k] + [walk[k]];
      row' := row'[walk[k] := Cell(Stored(reg, walk[k], Default), tick, tick)];
    }
    assert walk[from..|walk|] == walk[from..];
  }

  /** One insert: a replacement, or one move with everything the component requires. */
  method Insert(reg: Registry, row: Row, p: Part) returns (row': Row)
    ensures Inserted(reg, row, p, row')
  {
    var c := p.component;
    if c in row { return Replaced(reg, row, p); }
    assert Elements([c]) == {c};
    var walk := Fold(reg, row.Keys, [c]);
    row' := row[c := Cell(Stored(reg, c, Given(p.tag)), p.tick, p.tick)];
    row' := WriteDefaults(reg, row', walk, 1, p.tick);
    BornFromWalk(reg, row, p, walk, row');
  }

  lemma BornFromWalk(reg: Registry, row: Row, p: Part, walk: seq<nat>, row': Row)
    requires p.component !in row && [p.component] <= walk && Distinct(walk) && Elements(walk) !! row.Keys
    requires IsClosure(reg, row.Keys, {p.component}, Elements(walk))
    requires row'.Keys == row.Keys + {p.component} + Elements(walk[1..])
    requires forall c :: c in row' ==>
               row'[c] == if c in walk[1..] then Cell(Stored(reg, c, Default), p.tick, p.tick)
                          else if c == p.component then Cell(Stored(reg, c, Given(p.tag)), p.tick, p.tick) else row[c]
    ensures Inserted(reg, row, p, row')
  {
    assert walk == [p.component] + walk[1..];
    assert Elements(walk) == {p.component} + Elements(walk[1..]);
    forall i | 0 <= i < |walk| - 1 ensures walk[1..][i] != p.component {
      assert walk[1..][i] == walk[i + 1] && walk[0] == p.component;
    }
    var born := Born(reg, row, Elements(walk), p);
    forall c: nat | c in row' ensures c in born && row'[c] == born[c] {
      if c in walk[1..] { assert c in Elements(walk) && c !in row.Keys; }
    }
    assert row' == born;
  }

  // The cell of a component after the first n parts have been written.
  ghost predicate WrittenCell(reg: Registry, row: Row, parts: seq<Part>, n: nat, w: Row, c: nat)
    requires n <= |parts|
  {
    OccursInRange(parts, n, c);
    match LastOf(parts, n, c)
    case Some(last) =>
      c in w && w[c] == Cell(Stored(reg, c, Given(parts[last].tag)), parts[last].tick,
                             if c in row then row[c].added else parts[FirstOf(parts, n, c).value].tick)
    case None => (c in w <==> c in row) && (c in row ==> w[c] == row[c])
  }

  method WriteParts(reg: Registry, row: Row, parts: seq<Part>) returns (w: Row)
    ensures forall c: nat {:trigger WrittenCell(reg, row, parts, |parts|, w, c)} ::
        WrittenCell(reg, row, parts, |parts|, w, c)
  {
    w := row;
    for i := 0 to |parts|
      invariant forall c: nat {:trigger WrittenCell(reg, row, parts, i, w, c)} :: WrittenCell(reg, row, parts, i, w, c)
    {
      var p := parts[i];
      var c := p.component;
      ghost var u := w;
      assert WrittenCell(reg, row, parts, i, u, c);
      w := w[c := Cell(Stored(reg, c, Given(p.tag)), p.tick, if c in w then w[c].added else p.tick)];
      forall d: nat {:trigger WrittenCell(reg, row, parts, i + 1, w, d)}
        ensures WrittenCell(reg, row, parts, i + 1, w, d) {
        assert WrittenCell(reg, row, parts, i, u, d);
        OccursInRange(parts, i, d);
      }
    }
  }

  // The components of a group that the entity lacks, each once.
  method FreshOf(row: Row, parts: seq<Part>) returns (found: seq<nat>)
    ensures Distinct(found) && Elements(found) == Lacking(row, parts, |parts|)
  {
    found := [];
    for i := 0 to |parts|
      invariant Distinct(found) && Elements(found) == Lacking(row, parts, i)
    {
      var c := parts[i].component;
      if c !in row && c !in found {
        assert Elements(found + [c]) == Elements(found) + {c};
        found := found + [c];
      } else {
        assert c in row || c in Elements(found);
      }
    }
  }

  /** A group: one move to everything its parts bring, the parts written in order, then the defaults. */
  method InsertParts(reg: Registry, row: Row, parts: seq<Part>) returns (v: Row)
    requires parts != []
    ensures Grouped(reg, row, parts, v)
  {
    var lacking := FreshOf(row, parts);
    forall c: nat | c in Elements(lacking) ensures c !in row.Keys {
      LackingIsOccurring(row, parts, |parts|, c);
    }
    var walk := Fold(reg, row.Keys, lacking);
    var w := WriteParts(reg, row, parts);
    v := WriteDefaults(reg, w, walk, |lacking|, parts[0].tick);
    GroupFromWalk(reg, row, parts, lacking, walk, w, v);
  }

  lemma WrittenKeys(reg: Registry, row: Row, parts: seq<Part>, w: Row)
    requires forall c: nat {:trigger WrittenCell(reg, row, parts, |parts|, w, c)} ::
        WrittenCell(reg, row, parts, |parts|, w, c)
    ensures w.Keys == row.Keys + Lacking(row, parts, |parts|)
  {
    forall c: nat ensures c in w <==> c in row.Keys + Lacking(row, parts, |parts|) {
      assert WrittenCell(reg, row, parts, |parts|, w, c);
      LackingIsOccurring(row, parts, |parts|, c);
    }
  }

  lemma TailOfWalk(lacking: seq<nat>, walk: seq<nat>)
    requires lacking <= walk && Distinct(walk)
    ensures Elements(walk) == Elements(lacking) + Elements(walk[|lacking|..])
    ensures Elements(lacking) !! Elements(walk[|lacking|..])
  {
    assert walk == lacking + walk[|lacking|..];
    forall c: nat | c in lacking ensures c !in walk[|lacking|..] {
      var i :| 0 <= i < |lacking| && lacking[i] == c;
      assert walk[i] == c;
    }
  }

  lemma GroupFromWalk(reg: Registry, row: Row, parts: seq<Part>, lacking: seq<nat>, walk: seq<nat>, w: Row, v: Row)
    requires parts != [] && lacking <= walk && Distinct(walk)
    requires Elements(lacking) == Lacking(row, parts, |parts|)
    requires IsClosure(reg, row.Keys, Elements(lacking), Elements(walk))
    requires forall c: nat {:trigger WrittenCell(reg, row, parts, |parts|, w, c)} ::
        WrittenCell(reg, row, parts, |parts|, w, c)
    requires v.Keys == w.Keys + Elements(walk[|lacking|..])
    requires forall c :: c in v ==>
               v[c] == if c in walk[|lacking|..] then Cell(Stored(reg, c, Default), parts[0].tick, parts[0].tick)
                       else w[c]
    ensures Grouped(reg, row, parts, v)
  {
    WrittenKeys(reg, row, parts, w);
    TailOfWalk(lacking, walk);
    assert v.Keys == row.Keys + Elements(walk);
    forall c: nat | c in v ensures v[c] == GroupCell(reg, row, parts, c) {
      assert WrittenCell(reg, row, parts, |parts|, w, c);
      LackingIsOccurring(row, parts, |parts|, c);
      OccursInRange(parts, |parts|, c);
      if c in walk[|lacking|..] {
        assert c in Elements(walk) && c !in row.Keys && c !in Elements(lacking);
      }
    }
  }
}
