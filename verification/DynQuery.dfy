/** Dynamic queries: change terms and relation terms filter the rows of matched archetypes, with an
    archetype-level shortcut on the tick aggregates.
  */
module DynQuery {
  import opened Basics
  import opened ChangeTicks
  import opened Columns
  import opened QueryShapes
  import EntityPool
  import RelationStorage
  import Relations

  datatype ChangeTerm = ChangeTerm(id: Id, added: bool)

  type Entity = EntityPool.Entity

  type World = Relations.World

  // A relation to one target, or to any; with `negate`, its absence.
  datatype RelationFilter = RelationFilter(kind: nat, target: Option<Entity>, negate: bool)

  /** The terms of a query. `unknown` is set by a component name that nobody registered, `impossible` by a
      required relation of a kind that nobody registered: either empties the query. */
  datatype Terms = Terms(fetched: seq<Id>, withs: seq<Id>, excludes: seq<Id>, changes: seq<ChangeTerm>, since: Tick,
                         relations: seq<RelationFilter>, impossible: bool, unknown: bool)

  type Visit = (nat, nat)

  predicate MatchesArchetype(t: Terms, a: Archetype) {
    && (forall i :: 0 <= i < |t.fetched| ==> HasComponent(a, t.fetched[i]))
    && (forall i :: 0 <= i < |t.withs| ==> HasComponent(a, t.withs[i]))
    && (forall i :: 0 <= i < |t.excludes| ==> !HasComponent(a, t.excludes[i]))
  }

  /** An archetype matches if and only if it has every component that is fetched or asked for and none that is
      excluded. */
  lemma MatchesExactly(t: Terms, a: Archetype)
    ensures MatchesArchetype(t, a) <==>
              && (set id | id in t.fetched + t.withs) <= (set id | id in a.ids)
              && (set id | id in t.excludes) !! (set id | id in a.ids)
  {
    var has, wanted, unwanted := set id | id in a.ids, set id | id in t.fetched + t.withs, set id | id in t.excludes;
    if MatchesArchetype(t, a) {
      forall id | id in wanted ensures id in has {
        if id in t.fetched {
          var i :| 0 <= i < |t.fetched| && t.fetched[i] == id;
        } else {
          var i :| 0 <= i < |t.withs| && t.withs[i] == id;
        }
      }
      forall id | id in unwanted ensures id !in has {
        var i :| 0 <= i < |t.excludes| && t.excludes[i] == id;
      }
    }
    if wanted <= has && unwanted !! has {
      forall i | 0 <= i < |t.fetched| ensures HasComponent(a, t.fetched[i]) {
        assert t.fetched[i] in wanted;
      }
      forall i | 0 <= i < |t.withs| ensures HasComponent(a, t.withs[i]) {
        assert t.withs[i] in wanted;
      }
      forall i | 0 <= i < |t.excludes| ensures !HasComponent(a, t.excludes[i]) {
        assert t.excludes[i] in unwanted;
      }
    }
  }

  function TermLane(a: Archetype, c: ChangeTerm): Lane
    requires ArchetypeValid(a) && HasComponent(a, c.id)
  {
    var col := a.columns[ColumnIndex(a, c.id)];
    if c.added then col.added else col.changed
  }

  predicate RowPassesChange(a: Archetype, terms: seq<ChangeTerm>, since: Tick, row: nat)
    requires ArchetypeValid(a) && row < |a.entities|
  {
    forall i :: 0 <= i < |terms| ==>
      HasComponent(a, terms[i].id) && IsNewerThan(TermLane(a, terms[i]).ticks[row], since)
  }

  predicate ArchetypeMayPassChange(a: Archetype, terms: seq<ChangeTerm>, since: Tick)
    requires ArchetypeValid(a)
  {
    forall i :: 0 <= i < |terms| ==>
      HasComponent(a, terms[i].id) && IsNewerThan(TermLane(a, terms[i]).aggregate, since)
  }

  /** A row passes the change terms if and only if for each the component is there, and the row's changed tick - its
      added tick, where the term asks for that - is newer than the mark. */
  lemma PassesChangeExactly(a: Archetype, terms: seq<ChangeTerm>, since: Tick, row: nat)
    requires ArchetypeValid(a) && row < |a.entities|
    ensures RowPassesChange(a, terms, since, row) <==>
              forall i :: 0 <= i < |terms| ==> TermHolds(a, terms[i], since, row)
  {
    forall i | 0 <= i < |terms|
      ensures TermHolds(a, terms[i], since, row) <==>
                HasComponent(a, terms[i].id) && IsNewerThan(TermLane(a, terms[i]).ticks[row], since)
    {
    }
  }

  ghost predicate TermHolds(a: Archetype, term: ChangeTerm, since: Tick, row: nat)
    requires ArchetypeValid(a) && row < |a.entities|
  {
    term.id in a.ids &&
    var col := a.columns[Position(a.ids, term.id)];
    IsNewerThan(if term.added then col.added.ticks[row] else col.changed.ticks[row], since)
  }

  /** A change term is the typed `Changed` or `Added` filter on a registered component. */
  lemma TermIsTypedFilter(r: Registry, a: Archetype, c: nat, added: bool, since: Tick, row: nat)
    requires ArchetypeValid(a) && row < |a.entities| && c in r
    ensures RowPassesChange(a, [ChangeTerm(r[c], added)], since, row) <==>
            Passes(r, a, One(if added then Form.Added else Form.Changed, c), since, row)
  {
    var terms := [ChangeTerm(r[c], added)];
    PassesChangeExactly(a, terms, since, row);
    assert RowPassesChange(a, terms, since, row) <==> TermHolds(a, terms[0], since, row);
  }

  lemma RuledOutHasNoRow(current: Tick, a: Archetype, terms: seq<ChangeTerm>, since: Tick, row: nat)
    requires ArchetypeBounded(current, a) && Age(current, since) < HALF && row < |a.entities|
    requires !ArchetypeMayPassChange(a, terms, since)
    ensures !RowPassesChange(a, terms, since, row)
  {
    var i :| 0 <= i < |terms| && !(HasComponent(a, terms[i].id) && IsNewerThan(TermLane(a, terms[i]).aggregate, since));
    if HasComponent(a, terms[i].id) {
      AggregateRulesOutRows(current, TermLane(a, terms[i]), since);
    }
  }

  ghost predicate Ready(current: Tick, archetypes: seq<Archetype>, t: Terms, list: seq<nat>) {
    && Age(current, t.since) < HALF
    && Listed(archetypes, list)
    && (forall i {:trigger ArchetypeBounded(current, archetypes[i])} ::
          0 <= i < |archetypes| ==> ArchetypeBounded(current, archetypes[i]))
  }

  ghost predicate Listed(archetypes: seq<Archetype>, list: seq<nat>) {
    forall i :: 0 <= i < |list| ==> list[i] < |archetypes| && ArchetypeValid(archetypes[list[i]])
  }

  // ---- Relation terms -----------------------------------------------------------------------------------

  predicate HasRelation(w: World, subject: nat, kind: nat, target: Option<Entity>) {
    subject in w.alive &&
    match target
    case Some(t) => RelationStorage.Pair(kind, t) in Relations.PairsOf(w, subject)
    case None => RelationStorage.SomeOfKind(Relations.PairsOf(w, subject), kind)
  }

  /** A term for one target holds if and only if the entity is listed among the target's subjects; a term for any, if
      and only if it is among the subjects of some entity. */
  lemma HasRelationExactly(w: World, subject: nat, kind: nat, target: Option<Entity>)
    requires Relations.Agree(w) && subject in w.alive && (target.Some? ==> Relations.IsLive(w, target.value))
    ensures HasRelation(w, subject, kind, target) <==>
              match target
              case Some(t) => Relations.LiveAt(w, subject) in Relations.Siblings(w, kind, t.index)
              case None => exists j: nat :: Relations.LiveAt(w, subject) in Relations.Siblings(w, kind, j)
  {
    var s := Relations.LiveAt(w, subject);
    match target
    case Some(t) => Relations.PairIffListedOnce(w, s, kind, t);
    case None =>
      if HasRelation(w, subject, kind, None) {
        var p :| p in Relations.PairsOf(w, subject) && p.kind == kind;
        assert Relations.ForwardAt(w, subject, p);
      }
      if j: nat :| s in Relations.Siblings(w, kind, j) {
        assert Relations.BackwardAt(w, kind, j, s);
      }
  }

  predicate PassesRelations(w: World, relations: seq<RelationFilter>, subject: nat) {
    forall i :: 0 <= i < |relations| ==>
      HasRelation(w, subject, relations[i].kind, relations[i].target) != relations[i].negate
  }

  // A term for a kind that was never registered has no filter of its own.
  function PushRelation(t: Terms, kind: Option<nat>, target: Option<Entity>, negate: bool): Terms {
    match kind
    case Some(k) => t.(relations := t.relations + [RelationFilter(k, target, negate)])
    case None => if negate then t else t.(impossible := true)
  }

  // What the terms ask of an entity's relations, all in all.
  predicate Admits(w: World, t: Terms, subject: nat) {
    !t.impossible && PassesRelations(w, t.relations, subject)
  }

  /** A relation term adds exactly its own condition, whether its kind is registered or not: nobody has a
      relation of a kind that is not. */
  lemma PushRelationExactly(w: World, t: Terms, kind: Option<nat>, target: Option<Entity>, negate: bool, subject: nat)
    ensures Admits(w, PushRelation(t, kind, target, negate), subject) <==>
              Admits(w, t, subject) && (kind.Some? && HasRelation(w, subject, kind.value, target)) != negate
  {
    if kind.Some? {
      var longer := PushRelation(t, kind, target, negate).relations;
      assert longer[|t.relations|] == RelationFilter(kind.value, target, negate);
      assert forall i :: 0 <= i < |t.relations| ==> longer[i] == t.relations[i];
    }
  }

  // ---- The scan -----------------------------------------------------------------------------------------

  predicate RowPasses(w: World, a: Archetype, t: Terms, row: nat)
    requires ArchetypeValid(a) && row < |a.entities|
  {
    PassesRelations(w, t.relations, a.entities[row]) && RowPassesChange(a, t.changes, t.since, row)
  }

  // Every listed row, judged on its own.
  ghost function Scan(w: World, archetypes: seq<Archetype>, t: Terms, list: seq<nat>, k: nat, row: nat): seq<Visit>
    requires Listed(archetypes, list)
    decreases if k < |list| then |list| - k else 0,
              if k < |list| && row < |archetypes[list[k]].entities| then |archetypes[list[k]].entities| - row else 0
  {
    if k >= |list| then []
    else if row >= |archetypes[list[k]].entities| then Scan(w, archetypes, t, list, k + 1, 0)
    else if RowPasses(w, archetypes[list[k]], t, row)
    then [(list[k], row)] + Scan(w, archetypes, t, list, k, row + 1)
    else Scan(w, archetypes, t, list, k, row + 1)
  }

  lemma {:induction false} ScanSkipsRows(
      w: World, archetypes: seq<Archetype>, t: Terms, list: seq<nat>, k: nat, row: nat)
    requires Listed(archetypes, list) && k < |list|
    requires forall i :: row <= i < |archetypes[list[k]].entities| ==> !RowPasses(w, archetypes[list[k]], t, i)
    ensures Scan(w, archetypes, t, list, k, row) == Scan(w, archetypes, t, list, k + 1, 0)
    decreases if row < |archetypes[list[k]].entities| then |archetypes[list[k]].entities| - row else 0
  {
    if row < |archetypes[list[k]].entities| {
      ScanSkipsRows(w, archetypes, t, list, k, row + 1);
    }
  }

  lemma RuledOutIsEmpty(current: Tick, w: World, archetypes: seq<Archetype>, t: Terms, list: seq<nat>, k: nat)
    requires Ready(current, archetypes, t, list) && k < |list|
    requires !ArchetypeMayPassChange(archetypes[list[k]], t.changes, t.since)
    ensures Scan(w, archetypes, t, list, k, 0) == Scan(w, archetypes, t, list, k + 1, 0)
  {
    var a := archetypes[list[k]];
    assert ArchetypeBounded(current, a);
    forall i | 0 <= i < |a.entities| ensures !RowPasses(w, a, t, i) {
      RuledOutHasNoRow(current, a, t.changes, t.since, i);
    }
    ScanSkipsRows(w, archetypes, t, list, k, 0);
  }

  // The matching pass lists exactly the matching archetypes, in index order.
  method MatchingArchetypes(archetypes: seq<Archetype>, t: Terms) returns (list: seq<nat>)
    ensures t.unknown || t.impossible ==> list == []
    ensures forall i :: 0 <= i < |list| ==> list[i] < |archetypes| && MatchesArchetype(t, archetypes[list[i]])
    ensures forall j :: 0 <= j < |archetypes| && MatchesArchetype(t, archetypes[j]) ==>
              t.unknown || t.impossible || j in list
    ensures forall i, j :: 0 <= i < j < |list| ==> list[i] < list[j]
  {
    list := [];
    if t.unknown || t.impossible { return; }
    for k := 0 to |archetypes|
      invariant forall i :: 0 <= i < |list| ==> list[i] < k && MatchesArchetype(t, archetypes[list[i]])
      invariant forall j :: 0 <= j < k && MatchesArchetype(t, archetypes[j]) ==> j in list
      invariant forall i, j :: 0 <= i < j < |list| ==> list[i] < list[j]
    {
      if MatchesArchetype(t, archetypes[k]) {
        list := list + [k];
      }
    }
  }

  /** The iterator looks at the aggregates again whenever it stands on row zero. */
  class DynIter {
    const world: World
    const archetypes: seq<Archetype>
    const terms: Terms
    const list: seq<nat>
    ghost const current: Tick
    var archCursor: nat
    var row: nat

    ghost predicate Valid()
      reads this
    {
      Ready(current, archetypes, terms, list)
    }

    ghost function Left(): seq<Visit>
      requires Valid()
      reads this
    {
      Scan(world, archetypes, terms, list, archCursor, row)
    }

    constructor (ghost current: Tick, world: World, archetypes: seq<Archetype>, terms: Terms, list: seq<nat>)
      requires Ready(current, archetypes, terms, list)
      ensures Valid() && Left() == Scan(world, archetypes, terms, list, 0, 0)
    {
      this.current, this.world, this.archetypes, this.terms, this.list := current, world, archetypes, terms, list;
      archCursor, row := 0, 0;
    }

    method Next() returns (item: Option<Visit>)
      requires Valid()
      modifies this
      ensures Valid()
      ensures match item
              case None => old(Left()) == [] && Left() == []
              case Some(v) => old(Left()) == [v] + Left()
    {
      while true
        invariant Valid() && Left() == old(Left())
        decreases if archCursor < |list| then |list| - archCursor else 0,
                  if archCursor < |list| && row < |archetypes[list[archCursor]].entities|
                  then |archetypes[list[archCursor]].entities| - row else 0
      {
        if archCursor >= |list| {
          return None;
        }
        var a := archetypes[list[archCursor]];
        if row == 0 && terms.changes != [] && !ArchetypeMayPassChange(a, terms.changes, terms.since) {
          RuledOutIsEmpty(current, world, archetypes, terms, list, archCursor);
          archCursor := archCursor + 1;
        } else if row < |a.entities| {
          var at := row;
          row := row + 1;
          if PassesRelations(world, terms.relations, a.entities[at])
             && RowPassesChange(a, terms.changes, terms.since, at) {
            return Some((list[archCursor], at));
          }
        } else {
          archCursor, row := archCursor + 1, 0;
        }
      }
    }
  }
}
