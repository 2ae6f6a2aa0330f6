/** The shape algebra of queries: single component forms, tuples and `Or`, nested at will.

    A shape works on a flat list of component ids and slices it by component counts. `Wants` and
    `Passes` say what a shape means, component by component, with no ids and no slicing; the
    id-driven functions are proved to compute exactly that.
  */
module QueryShapes {
  import opened ChangeTicks
  import opened Columns

  type Id = nat
  const INVALID: Id := 0xFFFF_FFFF

  datatype ColumnTicks = ColumnTicks(changed: Lane, added: Lane)

  datatype Archetype = Archetype(ids: seq<Id>, columns: seq<ColumnTicks>, entities: seq<nat>)

  ghost predicate ArchetypeValid(a: Archetype) {
    && |a.ids| == |a.columns|
    && INVALID !in a.ids
    && (forall c :: 0 <= c < |a.columns| ==>
          |a.columns[c].changed.ticks| == |a.entities| && |a.columns[c].added.ticks| == |a.entities|)
  }

  ghost predicate ArchetypeBounded(current: Tick, a: Archetype) {
    && ArchetypeValid(a)
    && forall c :: 0 <= c < |a.columns| ==>
         Bounded(current, a.columns[c].changed) && Bounded(current, a.columns[c].added)
  }

  predicate HasComponent(a: Archetype, id: Id) {
    id in a.ids
  }

  function ColumnIndex(a: Archetype, id: Id): (c: nat)
    requires HasComponent(a, id)
    ensures c < |a.ids| && a.ids[c] == id
  {
    Position(a.ids, id)
  }

  function Position(ids: seq<Id>, id: Id): (c: nat)
    requires id in ids
    ensures c < |ids| && ids[c] == id && id !in ids[..c]
  {
    if ids[0] == id then 0 else 1 + Position(ids[1..], id)
  }

  datatype Form = Read | Write | With | Without | Maybe | MaybeWrite | Changed | Added

  datatype Shape =
    | Unit
    | EntityId
    | One(form: Form, component: nat)
    | Tuple(parts: Shapes)
    | Or(branches: Shapes)

  datatype Shapes = Nil | Cons(head: Shape, tail: Shapes)

  // Components of a world; one that was never registered has no id and gets the sentinel.
  type Registry = map<nat, Id>

  function IdOf(r: Registry, component: nat): Id {
    if component in r then r[component] else INVALID
  }

  // ---- The id-driven functions --------------------------------------------------------------------

  function ComponentCount(s: Shape): nat {
    match s
    case Unit => 0
    case EntityId => 0
    case One(_, _) => 1
    case Tuple(ps) => CountAll(ps)
    case Or(bs) => CountAll(bs)
  }

  function CountAll(ss: Shapes): nat {
    match ss
    case Nil => 0
    case Cons(s, rest) => ComponentCount(s) + CountAll(rest)
  }

  function FillIds(r: Registry, s: Shape): seq<Id> {
    match s
    case Unit => []
    case EntityId => []
    case One(_, c) => [IdOf(r, c)]
    case Tuple(ps) => FillAll(r, ps)
    case Or(bs) => FillAll(r, bs)
  }

  function FillAll(r: Registry, ss: Shapes): seq<Id> {
    match ss
    case Nil => []
    case Cons(s, rest) => FillIds(r, s) + FillAll(r, rest)
  }

  function Slice(ids: seq<Id>, offset: nat, n: nat): seq<Id> {
    if offset + n <= |ids| then ids[offset..offset + n] else []
  }

  predicate Matches(a: Archetype, s: Shape, ids: seq<Id>) {
    match s
    case Unit => true
    case EntityId => true
    case One(form, _) =>
      (match form
       case Without => ids == [] || !HasComponent(a, ids[0])
       case Maybe => true
       case MaybeWrite => true
       case _ => ids != [] && HasComponent(a, ids[0]))
    case Tuple(ps) => MatchesEvery(a, ps, ids, 0)
    case Or(bs) => MatchesSome(a, bs, ids, 0)
  }

  predicate MatchesEvery(a: Archetype, ss: Shapes, ids: seq<Id>, offset: nat) {
    match ss
    case Nil => true
    case Cons(s, rest) =>
      var n := ComponentCount(s);
      Matches(a, s, Slice(ids, offset, n)) && MatchesEvery(a, rest, ids, offset + n)
  }

  predicate MatchesSome(a: Archetype, ss: Shapes, ids: seq<Id>, offset: nat) {
    match ss
    case Nil => false
    case Cons(s, rest) =>
      var n := ComponentCount(s);
      Matches(a, s, Slice(ids, offset, n)) || MatchesSome(a, rest, ids, offset + n)
  }

  predicate HasRowFilter(s: Shape) {
    match s
    case Unit => false
    case EntityId => false
    case One(form, _) => form.Changed? || form.Added?
    case Tuple(ps) => AnyRowFilter(ps)
    case Or(bs) => AnyRowFilter(bs)
  }

  predicate AnyRowFilter(ss: Shapes) {
    match ss
    case Nil => false
    case Cons(s, rest) => HasRowFilter(s) || AnyRowFilter(rest)
  }

  predicate SkipArchetype(a: Archetype, s: Shape, ids: seq<Id>, lastRun: Tick)
    requires ArchetypeValid(a)
  {
    match s
    case Unit => false
    case EntityId => false
    case One(form, _) =>
      (match form
       case Changed => ids != [] && HasComponent(a, ids[0])
                       && !IsNewerThan(a.columns[ColumnIndex(a, ids[0])].changed.aggregate, lastRun)
       case Added => ids != [] && HasComponent(a, ids[0])
                     && !IsNewerThan(a.columns[ColumnIndex(a, ids[0])].added.aggregate, lastRun)
       case _ => false)
    case Tuple(ps) => SomePartSkips(a, ps, ids, 0, lastRun)
    case Or(bs) => EveryBranchSkips(a, bs, ids, 0, lastRun)
  }

  predicate SomePartSkips(a: Archetype, ss: Shapes, ids: seq<Id>, offset: nat, lastRun: Tick)
    requires ArchetypeValid(a)
  {
    match ss
    case Nil => false
    case Cons(s, rest) =>
      var n := ComponentCount(s);
      SkipArchetype(a, s, Slice(ids, offset, n), lastRun) || SomePartSkips(a, rest, ids, offset + n, lastRun)
  }

  predicate EveryBranchSkips(a: Archetype, ss: Shapes, ids: seq<Id>, offset: nat, lastRun: Tick)
    requires ArchetypeValid(a)
  {
    match ss
    case Nil => true
    case Cons(s, rest) =>
      var n := ComponentCount(s);
      var slice := Slice(ids, offset, n);
      if Matches(a, s, slice) && !SkipArchetype(a, s, slice, lastRun) then false
      else EveryBranchSkips(a, rest, ids, offset + n, lastRun)
  }

  /** Whether `fetch_item` on the state of this archetype yields an item for `row`. A dead branch
      of an `Or` has no state and yields nothing. */
  predicate Fetches(a: Archetype, s: Shape, ids: seq<Id>, lastRun: Tick, row: nat)
    requires ArchetypeValid(a) && row < |a.entities|
  {
    match s
    case Unit => true
    case EntityId => true
    case One(form, _) =>
      (match form
       case Changed => ids != [] && HasComponent(a, ids[0])
                       && IsNewerThan(a.columns[ColumnIndex(a, ids[0])].changed.ticks[row], lastRun)
       case Added => ids != [] && HasComponent(a, ids[0])
                     && IsNewerThan(a.columns[ColumnIndex(a, ids[0])].added.ticks[row], lastRun)
       case _ => true)
    case Tuple(ps) => FetchesEvery(a, ps, ids, 0, lastRun, row)
    case Or(bs) => FetchesSome(a, bs, ids, 0, lastRun, row)
  }

  predicate FetchesEvery(a: Archetype, ss: Shapes, ids: seq<Id>, offset: nat, lastRun: Tick, row: nat)
    requires ArchetypeValid(a) && row < |a.entities|
  {
    match ss
    case Nil => true
    case Cons(s, rest) =>
      var n := ComponentCount(s);
      Fetches(a, s, Slice(ids, offset, n), lastRun, row) && FetchesEvery(a, rest, ids, offset + n, lastRun, row)
  }

  predicate FetchesSome(a: Archetype, ss: Shapes, ids: seq<Id>, offset: nat, lastRun: Tick, row: nat)
    requires ArchetypeValid(a) && row < |a.entities|
  {
    match ss
    case Nil => false
    case Cons(s, rest) =>
      var n := ComponentCount(s);
      var slice := Slice(ids, offset, n);
      (Matches(a, s, slice) && Fetches(a, s, slice, lastRun, row))
      || FetchesSome(a, rest, ids, offset + n, lastRun, row)
  }

  // ---- What a shape means --------------------------------------------------------------------------

  predicate Owns(r: Registry, a: Archetype, component: nat) {
    component in r && r[component] in a.ids
  }

  /** Which archetypes a shape asks for. */
  predicate Wants(r: Registry, a: Archetype, s: Shape) {
    match s
    case Unit => true
    case EntityId => true
    case One(form, c) =>
      (match form
       case Without => !Owns(r, a, c)
       case Maybe => true
       case MaybeWrite => true
       case _ => Owns(r, a, c))
    case Tuple(ps) => WantsEvery(r, a, ps)
    case Or(bs) => WantsSome(r, a, bs)
  }

  predicate WantsEvery(r: Registry, a: Archetype, ss: Shapes) {
    ss.Cons? ==> Wants(r, a, ss.head) && WantsEvery(r, a, ss.tail)
  }

  predicate WantsSome(r: Registry, a: Archetype, ss: Shapes) {
    ss.Cons? && (Wants(r, a, ss.head) || WantsSome(r, a, ss.tail))
  }

  /** Which rows of an archetype it asks for pass its row filters. */
  predicate Passes(r: Registry, a: Archetype, s: Shape, lastRun: Tick, row: nat)
    requires ArchetypeValid(a) && row < |a.entities|
  {
    match s
    case Unit => true
    case EntityId => true
    case One(form, c) =>
      (match form
       case Changed => Owns(r, a, c) && IsNewerThan(a.columns[ColumnIndex(a, r[c])].changed.ticks[row], lastRun)
       case Added => Owns(r, a, c) && IsNewerThan(a.columns[ColumnIndex(a, r[c])].added.ticks[row], lastRun)
       case _ => true)
    case Tuple(ps) => PassesEvery(r, a, ps, lastRun, row)
    case Or(bs) => PassesSome(r, a, bs, lastRun, row)
  }

  predicate PassesEvery(r: Registry, a: Archetype, ss: Shapes, lastRun: Tick, row: nat)
    requires ArchetypeValid(a) && row < |a.entities|
  {
    ss.Cons? ==> Passes(r, a, ss.head, lastRun, row) && PassesEvery(r, a, ss.tail, lastRun, row)
  }

  predicate PassesSome(r: Registry, a: Archetype, ss: Shapes, lastRun: Tick, row: nat)
    requires ArchetypeValid(a) && row < |a.entities|
  {
    ss.Cons? && ((Wants(r, a, ss.head) && Passes(r, a, ss.head, lastRun, row))
    || PassesSome(r, a, ss.tail, lastRun, row))
  }

  // ---- Alignment ------------------------------------------------------------------------------------

  lemma {:induction false} FillIdsCounts(r: Registry, s: Shape)
    ensures |FillIds(r, s)| == ComponentCount(s)
  {
    match s
    case Tuple(ps) => FillAllCounts(r, ps);
    case Or(bs) => FillAllCounts(r, bs);
    case _ =>
  }

  lemma {:induction false} FillAllCounts(r: Registry, ss: Shapes)
    ensures |FillAll(r, ss)| == CountAll(ss)
  {
    if ss.Cons? {
      FillIdsCounts(r, ss.head);
      FillAllCounts(r, ss.tail);
    }
  }

  // `ids` holds the ids of `ss` from `offset` on, and nothing after them.
  ghost predicate Aligned(r: Registry, ss: Shapes, ids: seq<Id>, offset: nat) {
    offset <= |ids| && ids[offset..] == FillAll(r, ss)
  }

  // Slicing hands the first element of a group exactly its own ids, wherever the group stands.
  lemma SliceIsOwn(r: Registry, ss: Shapes, ids: seq<Id>, offset: nat)
    requires ss.Cons? && Aligned(r, ss, ids, offset)
    ensures Slice(ids, offset, ComponentCount(ss.head)) == FillIds(r, ss.head)
    ensures Aligned(r, ss.tail, ids, offset + ComponentCount(ss.head))
  {
    var n := ComponentCount(ss.head);
    FillIdsCounts(r, ss.head);
    FillAllCounts(r, ss.tail);
    assert |ids| - offset == n + CountAll(ss.tail);
    assert ids[offset..offset + n] == ids[offset..][..n] == FillIds(r, ss.head);
    assert ids[offset + n..] == ids[offset..][n..] == FillAll(r, ss.tail);
  }

  lemma WholeIsAligned(r: Registry, ss: Shapes)
    ensures Aligned(r, ss, FillAll(r, ss), 0)
  {
  }

  lemma OwnsById(r: Registry, a: Archetype, c: nat)
    requires ArchetypeValid(a)
    ensures HasComponent(a, IdOf(r, c)) <==> Owns(r, a, c)
  {
  }

  // ---- Matching and fetching mean what they should -------------------------------------------------

  lemma {:induction false} MatchesIsWants(r: Registry, a: Archetype, s: Shape)
    requires ArchetypeValid(a)
    ensures Matches(a, s, FillIds(r, s)) <==> Wants(r, a, s)
  {
    match s
    case Tuple(ps) => WholeIsAligned(r, ps); MatchesEveryIsWants(r, a, ps, FillAll(r, ps), 0);
    case Or(bs) => WholeIsAligned(r, bs); MatchesSomeIsWants(r, a, bs, FillAll(r, bs), 0);
    case One(_, c) => OwnsById(r, a, c);
    case _ =>
  }

  lemma {:induction false} MatchesEveryIsWants(r: Registry, a: Archetype, ss: Shapes, ids: seq<Id>, offset: nat)
    requires ArchetypeValid(a) && Aligned(r, ss, ids, offset)
    ensures MatchesEvery(a, ss, ids, offset) <==> WantsEvery(r, a, ss)
  {
    if ss.Cons? {
      SliceIsOwn(r, ss, ids, offset);
      MatchesIsWants(r, a, ss.head);
      MatchesEveryIsWants(r, a, ss.tail, ids, offset + ComponentCount(ss.head));
    }
  }

  lemma {:induction false} MatchesSomeIsWants(r: Registry, a: Archetype, ss: Shapes, ids: seq<Id>, offset: nat)
    requires ArchetypeValid(a) && Aligned(r, ss, ids, offset)
    ensures MatchesSome(a, ss, ids, offset) <==> WantsSome(r, a, ss)
  {
    if ss.Cons? {
      SliceIsOwn(r, ss, ids, offset);
      MatchesIsWants(r, a, ss.head);
      MatchesSomeIsWants(r, a, ss.tail, ids, offset + ComponentCount(ss.head));
    }
  }

  lemma {:induction false} FetchesIsPasses(r: Registry, a: Archetype, s: Shape, lastRun: Tick, row: nat)
    requires ArchetypeValid(a) && row < |a.entities|
    ensures Fetches(a, s, FillIds(r, s), lastRun, row) <==> Passes(r, a, s, lastRun, row)
  {
    match s
    case Tuple(ps) => WholeIsAligned(r, ps); FetchesEveryIsPasses(r, a, ps, FillAll(r, ps), 0, lastRun, row);
    case Or(bs) => WholeIsAligned(r, bs); FetchesSomeIsPasses(r, a, bs, FillAll(r, bs), 0, lastRun, row);
    case One(_, c) => OwnsById(r, a, c);
    case _ =>
  }

  lemma {:induction false} FetchesEveryIsPasses(
      r: Registry, a: Archetype, ss: Shapes, ids: seq<Id>, offset: nat, lastRun: Tick, row: nat)
    requires ArchetypeValid(a) && row < |a.entities| && Aligned(r, ss, ids, offset)
    ensures FetchesEvery(a, ss, ids, offset, lastRun, row) <==> PassesEvery(r, a, ss, lastRun, row)
  {
    if ss.Cons? {
      SliceIsOwn(r, ss, ids, offset);
      FetchesIsPasses(r, a, ss.head, lastRun, row);
      FetchesEveryIsPasses(r, a, ss.tail, ids, offset + ComponentCount(ss.head), lastRun, row);
    }
  }

  lemma {:induction false} FetchesSomeIsPasses(
      r: Registry, a: Archetype, ss: Shapes, ids: seq<Id>, offset: nat, lastRun: Tick, row: nat)
    requires ArchetypeValid(a) && row < |a.entities| && Aligned(r, ss, ids, offset)
    ensures FetchesSome(a, ss, ids, offset, lastRun, row) <==> PassesSome(r, a, ss, lastRun, row)
  {
    if ss.Cons? {
      SliceIsOwn(r, ss, ids, offset);
      MatchesIsWants(r, a, ss.head);
      FetchesIsPasses(r, a, ss.head, lastRun, row);
      FetchesSomeIsPasses(r, a, ss.tail, ids, offset + ComponentCount(ss.head), lastRun, row);
    }
  }

  // ---- The two shortcuts ----------------------------------------------------------------------------

  /** Without a row filter every row of a wanted archetype passes: the unchecked loop is total. */
  lemma {:induction false} NoRowFilterPassesAll(r: Registry, a: Archetype, s: Shape, lastRun: Tick, row: nat)
    requires ArchetypeValid(a) && row < |a.entities|
    requires !HasRowFilter(s) && Wants(r, a, s)
    ensures Passes(r, a, s, lastRun, row)
  {
    match s
    case Tuple(ps) => NoRowFilterPassesEvery(r, a, ps, lastRun, row);
    case Or(bs) => NoRowFilterPassesSome(r, a, bs, lastRun, row);
    case _ =>
  }

  lemma {:induction false} NoRowFilterPassesEvery(r: Registry, a: Archetype, ss: Shapes, lastRun: Tick, row: nat)
    requires ArchetypeValid(a) && row < |a.entities|
    requires !AnyRowFilter(ss) && WantsEvery(r, a, ss)
    ensures PassesEvery(r, a, ss, lastRun, row)
  {
    if ss.Cons? {
      NoRowFilterPassesAll(r, a, ss.head, lastRun, row);
      NoRowFilterPassesEvery(r, a, ss.tail, lastRun, row);
    }
  }

  lemma {:induction false} NoRowFilterPassesSome(r: Registry, a: Archetype, ss: Shapes, lastRun: Tick, row: nat)
    requires ArchetypeValid(a) && row < |a.entities|
    requires !AnyRowFilter(ss) && WantsSome(r, a, ss)
    ensures PassesSome(r, a, ss, lastRun, row)
  {
    if Wants(r, a, ss.head) {
      NoRowFilterPassesAll(r, a, ss.head, lastRun, row);
    } else {
      NoRowFilterPassesSome(r, a, ss.tail, lastRun, row);
    }
  }

  /** A skipped archetype has no row that passes, however tuples and `Or` are nested. */
  lemma {:induction false} SkippedHasNoPassingRow(
      r: Registry, current: Tick, a: Archetype, s: Shape, lastRun: Tick, row: nat)
    requires ArchetypeBounded(current, a) && Age(current, lastRun) < HALF && row < |a.entities|
    requires SkipArchetype(a, s, FillIds(r, s), lastRun)
    ensures !Passes(r, a, s, lastRun, row)
  {
    match s
    case Tuple(ps) => WholeIsAligned(r, ps); SkippedPartFails(r, current, a, ps, FillAll(r, ps), 0, lastRun, row);
    case Or(bs) => WholeIsAligned(r, bs); SkippedBranchesFail(r, current, a, bs, FillAll(r, bs), 0, lastRun, row);
    case One(form, c) =>
      OwnsById(r, a, c);
      var col := a.columns[ColumnIndex(a, r[c])];
      if form.Changed? {
        AggregateRulesOutRows(current, col.changed, lastRun);
      } else {
        AggregateRulesOutRows(current, col.added, lastRun);
      }
  }

  lemma {:induction false} SkippedPartFails(
      r: Registry, current: Tick, a: Archetype, ss: Shapes, ids: seq<Id>, offset: nat, lastRun: Tick, row: nat)
    requires ArchetypeBounded(current, a) && Age(current, lastRun) < HALF && row < |a.entities|
    requires Aligned(r, ss, ids, offset) && SomePartSkips(a, ss, ids, offset, lastRun)
    ensures !PassesEvery(r, a, ss, lastRun, row)
  {
    SliceIsOwn(r, ss, ids, offset);
    if SkipArchetype(a, ss.head, FillIds(r, ss.head), lastRun) {
      SkippedHasNoPassingRow(r, current, a, ss.head, lastRun, row);
    } else {
      SkippedPartFails(r, current, a, ss.tail, ids, offset + ComponentCount(ss.head), lastRun, row);
    }
  }

  lemma {:induction false} SkippedBranchesFail(
      r: Registry, current: Tick, a: Archetype, ss: Shapes, ids: seq<Id>, offset: nat, lastRun: Tick, row: nat)
    requires ArchetypeBounded(current, a) && Age(current, lastRun) < HALF && row < |a.entities|
    requires Aligned(r, ss, ids, offset) && EveryBranchSkips(a, ss, ids, offset, lastRun)
    ensures !PassesSome(r, a, ss, lastRun, row)
  {
    if ss.Cons? {
      SliceIsOwn(r, ss, ids, offset);
      MatchesIsWants(r, a, ss.head);
      if Wants(r, a, ss.head) {
        SkippedHasNoPassingRow(r, current, a, ss.head, lastRun, row);
      }
      SkippedBranchesFail(r, current, a, ss.tail, ids, offset + ComponentCount(ss.head), lastRun, row);
    }
  }

  // ---- What the forms, tuples and `Or` ask for ------------------------------------------------------------

  // The archetype has a column of the component at this position.
  predicate ColumnFor(r: Registry, a: Archetype, component: nat, at: nat) {
    component in r && at < |a.ids| && a.ids[at] == r[component]
  }

  /** A form asks for the presence of its component, for its absence, or for nothing. */
  lemma FormWants(r: Registry, a: Archetype, form: Form, c: nat)
    ensures Wants(r, a, One(form, c)) <==>
              if form == Without then forall at: nat :: !ColumnFor(r, a, c, at)
              else if form == Maybe || form == MaybeWrite then true
              else exists at: nat :: ColumnFor(r, a, c, at)
  {
    if c in r && r[c] in a.ids {
      assert ColumnFor(r, a, c, Position(a.ids, r[c]));
    }
  }

  /** `Changed` passes a row by its changed tick, `Added` by its added tick, any other form by nothing. */
  lemma FormPasses(r: Registry, a: Archetype, form: Form, c: nat, lastRun: Tick, row: nat)
    requires ArchetypeValid(a) && row < |a.entities|
    requires forall i, j :: 0 <= i < j < |a.ids| ==> a.ids[i] != a.ids[j]
    ensures Passes(r, a, One(form, c), lastRun, row) <==>
              if form == Form.Changed then
                exists at: nat :: ColumnFor(r, a, c, at) && IsNewerThan(a.columns[at].changed.ticks[row], lastRun)
              else if form == Form.Added then
                exists at: nat :: ColumnFor(r, a, c, at) && IsNewerThan(a.columns[at].added.ticks[row], lastRun)
              else true
  {
    if c in r && r[c] in a.ids {
      assert ColumnFor(r, a, c, ColumnIndex(a, r[c]));
    }
  }

  predicate Among(s: Shape, ss: Shapes) {
    ss.Cons? && (s == ss.head || Among(s, ss.tail))
  }

  ghost predicate AllWanted(r: Registry, a: Archetype, ss: Shapes) {
    forall s :: Among(s, ss) ==> Wants(r, a, s)
  }

  ghost predicate AllPass(r: Registry, a: Archetype, ss: Shapes, lastRun: Tick, row: nat)
    requires ArchetypeValid(a) && row < |a.entities|
  {
    forall s :: Among(s, ss) ==> Passes(r, a, s, lastRun, row)
  }

  ghost predicate OneWanted(r: Registry, a: Archetype, ss: Shapes) {
    exists s :: Among(s, ss) && Wants(r, a, s)
  }

  ghost predicate OnePasses(r: Registry, a: Archetype, ss: Shapes, lastRun: Tick, row: nat)
    requires ArchetypeValid(a) && row < |a.entities|
  {
    exists s :: Among(s, ss) && Wants(r, a, s) && Passes(r, a, s, lastRun, row)
  }

  ghost predicate OneFilters(ss: Shapes) {
    exists s :: Among(s, ss) && HasRowFilter(s)
  }

  lemma {:induction false} WantedOfEvery(r: Registry, a: Archetype, ss: Shapes, s: Shape)
    requires WantsEvery(r, a, ss) && Among(s, ss)
    ensures Wants(r, a, s)
  {
    if s != ss.head { WantedOfEvery(r, a, ss.tail, s); }
  }

  lemma {:induction false} EveryWanted(r: Registry, a: Archetype, ss: Shapes)
    requires AllWanted(r, a, ss)
    ensures WantsEvery(r, a, ss)
  {
    if ss.Cons? {
      assert Among(ss.head, ss);
      forall s | Among(s, ss.tail) ensures Wants(r, a, s) { assert Among(s, ss); }
      EveryWanted(r, a, ss.tail);
    }
  }

  lemma {:induction false} PassesOfEvery(r: Registry, a: Archetype, ss: Shapes, lastRun: Tick, row: nat, s: Shape)
    requires ArchetypeValid(a) && row < |a.entities| && PassesEvery(r, a, ss, lastRun, row) && Among(s, ss)
    ensures Passes(r, a, s, lastRun, row)
  {
    if s != ss.head { PassesOfEvery(r, a, ss.tail, lastRun, row, s); }
  }

  lemma {:induction false} EveryPasses(r: Registry, a: Archetype, ss: Shapes, lastRun: Tick, row: nat)
    requires ArchetypeValid(a) && row < |a.entities|
    requires AllPass(r, a, ss, lastRun, row)
    ensures PassesEvery(r, a, ss, lastRun, row)
  {
    if ss.Cons? {
      assert Among(ss.head, ss);
      forall s | Among(s, ss.tail) ensures Passes(r, a, s, lastRun, row) { assert Among(s, ss); }
      EveryPasses(r, a, ss.tail, lastRun, row);
    }
  }

  /** A tuple asks for what all of its parts ask for, and passes what they all pass. */
  lemma TupleIsAll(r: Registry, a: Archetype, ss: Shapes, lastRun: Tick, row: nat)
    requires ArchetypeValid(a) && row < |a.entities|
    ensures Wants(r, a, Tuple(ss)) <==> AllWanted(r, a, ss)
    ensures Passes(r, a, Tuple(ss), lastRun, row) <==> AllPass(r, a, ss, lastRun, row)
  {
    assert Wants(r, a, Tuple(ss)) == WantsEvery(r, a, ss);
    assert Passes(r, a, Tuple(ss), lastRun, row) == PassesEvery(r, a, ss, lastRun, row);
    if WantsEvery(r, a, ss) {
      forall s | Among(s, ss) ensures Wants(r, a, s) { WantedOfEvery(r, a, ss, s); }
    } else if AllWanted(r, a, ss) {
      EveryWanted(r, a, ss);
    }
    if PassesEvery(r, a, ss, lastRun, row) {
      forall s | Among(s, ss) ensures Passes(r, a, s, lastRun, row) { PassesOfEvery(r, a, ss, lastRun, row, s); }
    } else if AllPass(r, a, ss, lastRun, row) {
      EveryPasses(r, a, ss, lastRun, row);
    }
  }

  lemma {:induction false} WantedMakesSome(r: Registry, a: Archetype, ss: Shapes, s: Shape)
    requires Among(s, ss) && Wants(r, a, s)
    ensures WantsSome(r, a, ss)
  {
    if s != ss.head { WantedMakesSome(r, a, ss.tail, s); }
  }

  lemma {:induction false} SomeIsWanted(r: Registry, a: Archetype, ss: Shapes) returns (s: Shape)
    requires WantsSome(r, a, ss)
    ensures Among(s, ss) && Wants(r, a, s)
  {
    s := ss.head;
    if !Wants(r, a, s) { s := SomeIsWanted(r, a, ss.tail); }
  }

  lemma {:induction false} PassingMakesSome(r: Registry, a: Archetype, ss: Shapes, lastRun: Tick, row: nat, s: Shape)
    requires ArchetypeValid(a) && row < |a.entities|
    requires Among(s, ss) && Wants(r, a, s) && Passes(r, a, s, lastRun, row)
    ensures PassesSome(r, a, ss, lastRun, row)
  {
    if s != ss.head { PassingMakesSome(r, a, ss.tail, lastRun, row, s); }
  }

  lemma {:induction false} SomePasses(r: Registry, a: Archetype, ss: Shapes, lastRun: Tick, row: nat)
    returns (s: Shape)
    requires ArchetypeValid(a) && row < |a.entities| && PassesSome(r, a, ss, lastRun, row)
    ensures Among(s, ss) && Wants(r, a, s) && Passes(r, a, s, lastRun, row)
  {
    s := ss.head;
    if !Wants(r, a, s) || !Passes(r, a, s, lastRun, row) { s := SomePasses(r, a, ss.tail, lastRun, row); }
  }

  /** `Or` asks for what some branch asks for, and passes what some branch asks for and passes. */
  lemma OrIsSome(r: Registry, a: Archetype, ss: Shapes, lastRun: Tick, row: nat)
    requires ArchetypeValid(a) && row < |a.entities|
    ensures Wants(r, a, Or(ss)) <==> OneWanted(r, a, ss)
    ensures Passes(r, a, Or(ss), lastRun, row) <==> OnePasses(r, a, ss, lastRun, row)
  {
    assert Wants(r, a, Or(ss)) == WantsSome(r, a, ss);
    assert Passes(r, a, Or(ss), lastRun, row) == PassesSome(r, a, ss, lastRun, row);
    if WantsSome(r, a, ss) {
      var s := SomeIsWanted(r, a, ss);
    } else if OneWanted(r, a, ss) {
      var s :| Among(s, ss) && Wants(r, a, s);
      WantedMakesSome(r, a, ss, s);
    }
    if PassesSome(r, a, ss, lastRun, row) {
      var s := SomePasses(r, a, ss, lastRun, row);
    } else if OnePasses(r, a, ss, lastRun, row) {
      var s :| Among(s, ss) && Wants(r, a, s) && Passes(r, a, s, lastRun, row);
      PassingMakesSome(r, a, ss, lastRun, row, s);
    }
  }

  // ---- What skipping amounts to ----------------------------------------------------------------------------

  /** An archetype is skipped by a change filter whose aggregate is not newer than the mark, by a tuple that some
      part skips, and by an `Or` of which every branch is skipped or not asked for. */
  predicate Skips(r: Registry, a: Archetype, s: Shape, lastRun: Tick)
    requires ArchetypeValid(a)
  {
    match s
    case One(form, c) =>
      (match form
       case Changed => Owns(r, a, c) && !IsNewerThan(a.columns[ColumnIndex(a, r[c])].changed.aggregate, lastRun)
       case Added => Owns(r, a, c) && !IsNewerThan(a.columns[ColumnIndex(a, r[c])].added.aggregate, lastRun)
       case _ => false)
    case Tuple(ps) => SkipsSome(r, a, ps, lastRun)
    case Or(bs) => SkipsEvery(r, a, bs, lastRun)
    case _ => false
  }

  predicate SkipsSome(r: Registry, a: Archetype, ss: Shapes, lastRun: Tick)
    requires ArchetypeValid(a)
  {
    ss.Cons? && (Skips(r, a, ss.head, lastRun) || SkipsSome(r, a, ss.tail, lastRun))
  }

  predicate SkipsEvery(r: Registry, a: Archetype, ss: Shapes, lastRun: Tick)
    requires ArchetypeValid(a)
  {
    ss.Cons? ==> (!Wants(r, a, ss.head) || Skips(r, a, ss.head, lastRun)) && SkipsEvery(r, a, ss.tail, lastRun)
  }

  lemma {:induction false} SkipIsSkips(r: Registry, a: Archetype, s: Shape, lastRun: Tick)
    requires ArchetypeValid(a)
    ensures SkipArchetype(a, s, FillIds(r, s), lastRun) <==> Skips(r, a, s, lastRun)
  {
    match s
    case Tuple(ps) => WholeIsAligned(r, ps); SomePartIsSkipsSome(r, a, ps, FillAll(r, ps), 0, lastRun);
    case Or(bs) => WholeIsAligned(r, bs); EveryBranchIsSkipsEvery(r, a, bs, FillAll(r, bs), 0, lastRun);
    case One(_, c) => OwnsById(r, a, c);
    case _ =>
  }

  lemma {:induction false} SomePartIsSkipsSome(
      r: Registry, a: Archetype, ss: Shapes, ids: seq<Id>, offset: nat, lastRun: Tick)
    requires ArchetypeValid(a) && Aligned(r, ss, ids, offset)
    ensures SomePartSkips(a, ss, ids, offset, lastRun) <==> SkipsSome(r, a, ss, lastRun)
  {
    if ss.Cons? {
      SliceIsOwn(r, ss, ids, offset);
      SkipIsSkips(r, a, ss.head, lastRun);
      SomePartIsSkipsSome(r, a, ss.tail, ids, offset + ComponentCount(ss.head), lastRun);
    }
  }

  lemma {:induction false} EveryBranchIsSkipsEvery(
      r: Registry, a: Archetype, ss: Shapes, ids: seq<Id>, offset: nat, lastRun: Tick)
    requires ArchetypeValid(a) && Aligned(r, ss, ids, offset)
    ensures EveryBranchSkips(a, ss, ids, offset, lastRun) <==> SkipsEvery(r, a, ss, lastRun)
  {
    if ss.Cons? {
      SliceIsOwn(r, ss, ids, offset);
      MatchesIsWants(r, a, ss.head);
      SkipIsSkips(r, a, ss.head, lastRun);
      EveryBranchIsSkipsEvery(r, a, ss.tail, ids, offset + ComponentCount(ss.head), lastRun);
    }
  }

  /** A shape has a row filter if and only if a `Changed` or `Added` stands in it somewhere. */
  lemma RowFilterExactly(s: Shape)
    ensures HasRowFilter(s) <==>
              match s
              case One(form, _) => form == Form.Changed || form == Form.Added
              case Tuple(ps) => OneFilters(ps)
              case Or(bs) => OneFilters(bs)
              case _ => false
  {
    match s
    case Tuple(ps) => AnyRowFilterExactly(ps);
    case Or(bs) => AnyRowFilterExactly(bs);
    case _ =>
  }

  lemma {:induction false} FilterMakesAny(ss: Shapes, s: Shape)
    requires Among(s, ss) && HasRowFilter(s)
    ensures AnyRowFilter(ss)
  {
    if s != ss.head { FilterMakesAny(ss.tail, s); }
  }

  lemma {:induction false} SomeHasFilter(ss: Shapes) returns (s: Shape)
    requires AnyRowFilter(ss)
    ensures Among(s, ss) && HasRowFilter(s)
  {
    s := ss.head;
    if !HasRowFilter(s) { s := SomeHasFilter(ss.tail); }
  }

  lemma AnyRowFilterExactly(ss: Shapes)
    ensures AnyRowFilter(ss) <==> OneFilters(ss)
  {
    if AnyRowFilter(ss) {
      var s := SomeHasFilter(ss);
    } else if OneFilters(ss) {
      var s :| Among(s, ss) && HasRowFilter(s);
      FilterMakesAny(ss, s);
    }
  }
}
