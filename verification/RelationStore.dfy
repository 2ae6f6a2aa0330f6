/** The world's relation operations, in place on the two indexes. */
module RelationStore {
  import opened Basics
  import opened EntityPool
  import opened Lists
  import opened RelationStorage
  import opened RelationSubjects
  import opened RelationTargets
  import opened Relations
  import opened RelationDeaths

  // ---- Steps of a death -------------------------------------------------------------------------------

  /** After the first `n` kinds: the entity's lists of those kinds, and the pairs they stood for, are gone. */
  ghost predicate TargetsGone(w: World, v: World, cur: Entity, n: nat) {
    && v.alive == w.alive && v.kinds == w.kinds && TargetsValid(v.targets)
    && (forall i: nat {:trigger PairsOf(v, i)} ::
          PairsOf(v, i) == set p | p in PairsOf(w, i) && !(p.target == cur && p.kind < n))
    && (forall k: nat, j: nat {:trigger Siblings(v, k, j)} ::
          Siblings(v, k, j) == if j == cur.index && k < n then [] else Siblings(w, k, j))
  }

  // The pair is gone from the storage of each of the listed subjects.
  ghost predicate PairGone(v: Pairs, v': Pairs, subjects: seq<Entity>, p: Pair) {
    forall i: nat {:trigger PairsAt(v', i)} ::
      PairsAt(v', i) ==
        if exists m :: 0 <= m < |subjects| && subjects[m].index == i then PairsAt(v, i) - {p} else PairsAt(v, i)
  }

  lemma NoKindGone(w: World, cur: Entity)
    requires TargetsValid(w.targets)
    ensures TargetsGone(w, w, cur, 0)
  {
    forall i: nat ensures PairsOf(w, i) == set p | p in PairsOf(w, i) && !(p.target == cur && p.kind < 0) {
    }
  }

  lemma NextKindGone(w: World, v: World, v': World, cur: Entity, n: nat)
    requires Agree(w) && IsLive(w, cur) && TargetsGone(w, v, cur, n)
    requires v' == v.(pairs := v'.pairs, targets := TakenFrom(v.targets, n, cur.index))
    requires PairGone(v.pairs, v'.pairs, Siblings(w, n, cur.index), Pair(n, cur))
    ensures TargetsGone(w, v', cur, n + 1)
  {
    TakenKeepsValid(v.targets, n, cur.index);
    forall k: nat, j: nat
      ensures Siblings(v', k, j) == if j == cur.index && k < n + 1 then [] else Siblings(w, k, j)
    {
      TakenLists(v.targets, n, cur.index, k, j);
      assert Siblings(v, k, j) == if j == cur.index && k < n then [] else Siblings(w, k, j);
    }
    forall i: nat ensures PairsOf(v', i) == set p | p in PairsOf(w, i) && !(p.target == cur && p.kind < n + 1) {
      PairOnlyListed(w, cur, n, i);
      assert PairsOf(v, i) == set p | p in PairsOf(w, i) && !(p.target == cur && p.kind < n);
      assert PairsOf(v', i) == PairsAt(v'.pairs, i);
    }
  }

  lemma PairOnlyListed(w: World, cur: Entity, n: nat, i: nat)
    requires Agree(w)
    ensures Pair(n, cur) in PairsOf(w, i) ==>
              exists m :: 0 <= m < |Siblings(w, n, cur.index)| && Siblings(w, n, cur.index)[m].index == i
  {
    if Pair(n, cur) in PairsOf(w, i) {
      assert ForwardAt(w, i, Pair(n, cur));
      var m :| 0 <= m < |Siblings(w, n, cur.index)| && Siblings(w, n, cur.index)[m] == LiveAt(w, i);
    }
  }

  /** After some of the entity's own pairs: it is gone from the lists they stood for. */
  ghost predicate SubjectGone(w: World, targets: Targets, cur: Entity, done: set<Pair>) {
    && TargetsValid(targets)
    && forall k: nat, j: nat {:trigger ListOf(targets, k, j)} ::
         ListOf(targets, k, j) ==
           if j == cur.index && k < |w.kinds| then []
           else if j in w.alive && Pair(k, LiveAt(w, j)) in done then Others(Siblings(w, k, j), cur)
           else Siblings(w, k, j)
  }

  lemma NoPairGone(w: World, v: World, cur: Entity)
    requires TargetsGone(w, v, cur, |w.kinds|)
    ensures SubjectGone(w, v.targets, cur, {})
  {
    assert forall k: nat, j: nat :: ListOf(v.targets, k, j) == Siblings(v, k, j);
  }

  lemma NextPairGone(w: World, targets: Targets, cur: Entity, done: set<Pair>, p: Pair)
    requires Agree(w) && IsLive(w, cur) && p in PairsOf(w, cur.index) && p !in done
    requires SubjectGone(w, targets, cur, done)
    ensures SubjectGone(w, Dropped(targets, p.kind, p.target.index, cur), cur, done + {p})
  {
    var after := Dropped(targets, p.kind, p.target.index, cur);
    assert ForwardAt(w, cur.index, p);
    DroppedKeepsValid(targets, p.kind, p.target.index, cur);
    forall k: nat, j: nat
      ensures ListOf(after, k, j) ==
                if j == cur.index && k < |w.kinds| then []
                else if j in w.alive && Pair(k, LiveAt(w, j)) in done + {p} then Others(Siblings(w, k, j), cur)
                else Siblings(w, k, j)
    {
      DroppedLists(targets, p.kind, p.target.index, cur, k, j);
      assert NoRepeats(Siblings(w, k, j));
      RemovedIsOthers(Siblings(w, k, j), cur);
    }
  }

  /** All of it together is the entity forgotten. */
  lemma DeathForgets(w: World, v: World, w': World, cur: Entity)
    requires Agree(w) && IsLive(w, cur) && TargetsGone(w, v, cur, |w.kinds|)
    requires SubjectGone(w, w'.targets, cur, PairsOf(w, cur.index))
    requires w'.pairs == Cleared(v.pairs, cur.index) && w'.alive == w.alive - {cur.index} && w'.kinds == w.kinds
    ensures Forgets(w, w', cur)
  {
    forall i: nat ensures PairsOf(w', i) == if i == cur.index then {} else Surviving(PairsOf(w, i), cur) {
      assert PairsOf(v, i) == set p | p in PairsOf(w, i) && !(p.target == cur && p.kind < |w.kinds|);
      forall p | p in PairsOf(w, i) ensures p.kind < |w.kinds| {
        assert ForwardAt(w, i, p);
      }
    }
    forall k: nat, j: nat
      ensures Siblings(w', k, j) == if j == cur.index then [] else Others(Siblings(w, k, j), cur)
    {
      SiblingsAfterDeath(w, w'.targets, cur, k, j);
    }
  }

  lemma SiblingsAfterDeath(w: World, targets: Targets, cur: Entity, k: nat, j: nat)
    requires Agree(w) && IsLive(w, cur) && SubjectGone(w, targets, cur, PairsOf(w, cur.index))
    ensures ListOf(targets, k, j) == if j == cur.index then [] else Others(Siblings(w, k, j), cur)
  {
    var list := Siblings(w, k, j);
    assert list != [] ==> list[0] in list;
    if list != [] {
      assert BackwardAt(w, k, j, list[0]);
      assert ForwardAt(w, list[0].index, Pair(k, LiveAt(w, j)));
    }
    if cur in list {
      assert BackwardAt(w, k, j, cur);
    } else {
      OthersOfStranger(list, |list|, cur);
      assert list[..|list|] == list;
    }
  }

  // Who falls with the entity through its lists of the first n kinds.
  ghost predicate FallenBelow(w: World, cur: Entity, n: nat, fallen: seq<Entity>) {
    forall y {:trigger y in fallen} ::
      y in fallen <==> exists k: nat :: k < n && Cascades(w, k) && y in Siblings(w, k, cur.index)
  }

  lemma FallenMore(w: World, cur: Entity, n: nat, fallen: seq<Entity>)
    requires FallenBelow(w, cur, n, fallen)
    ensures FallenBelow(w, cur, n + 1, if Cascades(w, n) then fallen + Siblings(w, n, cur.index) else fallen)
  {
    var more := if Cascades(w, n) then fallen + Siblings(w, n, cur.index) else fallen;
    forall y ensures y in more <==> exists k: nat :: k < n + 1 && Cascades(w, k) && y in Siblings(w, k, cur.index) {
      assert y in more <==> y in fallen || (Cascades(w, n) && y in Siblings(w, n, cur.index));
    }
  }

  lemma AllFallen(w: World, cur: Entity, fallen: seq<Entity>)
    requires FallenBelow(w, cur, |w.kinds|, fallen)
    ensures forall y :: y in fallen <==> exists k :: Cascades(w, k) && y in Siblings(w, k, cur.index)
  {
  }

  // ---- The store ------------------------------------------------------------------------------------------

  class RelationStore {
    var alive: map<nat, nat>
    var kinds: seq<Kind>
    const subjectIndex: SubjectIndex
    const targetIndex: TargetIndex

    ghost function Value(): World
      reads this, subjectIndex, targetIndex
    {
      World(alive, kinds, subjectIndex.View(), targetIndex.Value())
    }

    ghost predicate Valid()
      reads this, subjectIndex, targetIndex
    {
      subjectIndex.Valid() && Agree(Value())
    }

    constructor ()
      ensures Valid() && Value() == EMPTY_WORLD && fresh(subjectIndex) && fresh(targetIndex)
    {
      alive, kinds := map[], [];
      subjectIndex := new SubjectIndex();
      targetIndex := new TargetIndex();
    }

    predicate IsAlive(e: Entity)
      reads this
    {
      e.index in alive && alive[e.index] == e.generation
    }

    /** Walks up from the target along the first pairs of the kind; true when the subject is met or the walk
        is too long. */
    method AncestorWalk(s: Entity, k: nat, t: Entity) returns (rejected: bool)
      requires subjectIndex.Valid()
      ensures rejected == WalkRejects(subjectIndex.Firsts(k), s.index, t.index, 0)
    {
      ghost var first := subjectIndex.Firsts(k);
      var cur, depth := t, 0;
      var parent := subjectIndex.FirstWithKind(cur.index, k);
      while parent.Some?
        invariant depth <= MAX_ANCESTOR_WALK
        invariant first(cur.index) == match parent case None => None case Some(p) => Some(p.target.index)
        invariant WalkRejects(first, s.index, t.index, 0) == WalkRejects(first, s.index, cur.index, depth)
        decreases MAX_ANCESTOR_WALK - depth
      {
        if parent.value.target.index == s.index { return true; }
        cur := parent.value.target;
        depth := depth + 1;
        if depth > MAX_ANCESTOR_WALK { return true; }
        parent := subjectIndex.FirstWithKind(cur.index, k);
      }
      rejected := false;
    }

    // The whole check: only hierarchical kinds, and only a subject that is somebody's target, are walked for.
    method ClosesCycle(s: Entity, k: nat, t: Entity) returns (rejected: bool)
      requires Valid() && k < |kinds|
      ensures rejected == CheckAlong(Value(), subjectIndex.Firsts(k), s.index, k, t.index)
      ensures CycleCheck(Value(), s.index, k, t.index, rejected)
    {
      rejected := false;
      FirstsSelect(k);
      if kinds[k].exclusive || kinds[k].cascade {
        var any := targetIndex.IsAnyTarget(s.index);
        TargetCounted(targetIndex.Value(), s.index);
        if any { rejected := AncestorWalk(s, k, t); }
      }
    }

    /** The first pairs are a selection of the world's. */
    lemma FirstsSelect(k: nat)
      ensures Selects(Value(), k, subjectIndex.Firsts(k))
    {
      forall i: nat ensures SelectsAt(Value(), k, i, subjectIndex.Firsts(k)(i)) {
        subjectIndex.FirstsArePairs(i, k);
      }
    }

    // Both index insertions of an add; a pair that exists is left where it is.
    method InsertEdge(s: Entity, k: nat, t: Entity, position: Option<nat>)
      requires subjectIndex.Valid() && TargetsValid(targetIndex.Value())
      modifies subjectIndex, targetIndex
      ensures subjectIndex.Valid()
      ensures var w := old(Value());
              Value() == if Pair(k, t) in PairsOf(w, s.index) then w else Linked(w, s, k, t, Place(w, k, t, position))
      ensures forall j: nat :: old(subjectIndex.InVector(j)) && |PairsOf(Value(), j)| <= DENSE_THRESHOLD ==>
                subjectIndex.InVector(j)
    {
      ghost var w := Value();
      var added := subjectIndex.Insert(s.index, Pair(k, t));
      if added {
        match position
        case None => targetIndex.Add(k, t.index, s);
        case Some(i) => targetIndex.AddAt(k, t.index, s, i);
      } else {
        InsertedAgain(w.pairs, s.index, Pair(k, t));
      }
    }

    method AddRelationPositioned(s: Entity, k: nat, t: Entity, position: Option<nat>) returns (rejected: bool)
      requires Valid() && k < |kinds|
      modifies subjectIndex, targetIndex
      ensures Valid() && Value() == AddRelation(old(Value()), s, k, t, position, rejected)
      ensures CanAdd(old(Value()), s, t) ==>
                CycleCheck(old(Value()), s.index, k, t.index, rejected)
                && rejected == CheckAlong(old(Value()), old(subjectIndex.Firsts(k)), s.index, k, t.index)
      ensures forall j: nat :: old(subjectIndex.InVector(j)) && |PairsOf(Value(), j)| <= DENSE_THRESHOLD ==>
                subjectIndex.InVector(j)
    {
      rejected := false;
      if !IsAlive(s) || !IsAlive(t) || s.index == t.index { return; }
      ghost var w := Value();
      rejected := ClosesCycle(s, k, t);
      if rejected { return; }
      AddedKeepsAgree(w, s, k, t, position);
      if kinds[k].exclusive {
        var first := subjectIndex.FirstWithKind(s.index, k);
        if first.Some? {
          TheOnlyPair(w, s.index, k, first.value);
          if first.value.target == t { return; }
          var existed := subjectIndex.Remove(s.index, first.value);
          var removed := targetIndex.Remove(k, first.value.target.index, s);
          NoneLeft(w, s.index, k);
        }
      }
      InsertEdge(s, k, t, position);
    }

    /** Looks at the pair, not at the subject's generation: a stale handle leaves the indexes apart. */
    method RemoveRelation(s: Entity, k: nat, t: Entity)
      requires Valid()
      modifies subjectIndex, targetIndex
      ensures subjectIndex.Valid() && Value() == Relations.RemoveRelation(old(Value()), s, k, t)
      ensures Valid() <==> IsLive(old(Value()), s) || Pair(k, t) !in PairsOf(old(Value()), s.index)
    {
      RemoveAgreesExactly(Value(), s, k, t);
      ghost var w := Value();
      var existed := subjectIndex.Remove(s.index, Pair(k, t));
      if existed {
        var removed := targetIndex.Remove(k, t.index, s);
      } else {
        RemovedNothing(w.pairs, s.index, Pair(k, t));
      }
    }

    method InsertRelationAt(s: Entity, k: nat, t: Entity, index: nat) returns (rejected: bool)
      requires Valid() && k < |kinds|
      modifies subjectIndex, targetIndex
      ensures Valid() && Value() == Relations.InsertRelationAt(old(Value()), s, k, t, index, rejected)
      ensures CanAdd(old(Value()), s, t) && !Related(old(Value()), s, k, t) ==>
                CycleCheck(old(Value()), s.index, k, t.index, rejected)
      ensures CanAdd(old(Value()), s, t) && !rejected ==> StandsAt(Value(), s, k, t, index)
    {
      if IsAlive(s) && IsAlive(t) && s.index != t.index { InsertedAtIndex(Value(), s, k, t, index); }
      var moved := SetRelationIndex(s, k, t, index);
      if moved { return false; }
      rejected := AddRelationPositioned(s, k, t, Some(index));
    }

    method SetRelationIndex(s: Entity, k: nat, t: Entity, index: nat) returns (moved: bool)
      requires Valid()
      modifies subjectIndex, targetIndex
      ensures Valid() && (Value(), moved) == Relations.SetRelationIndex(old(Value()), s, k, t, index)
    {
      if !IsAlive(s) || !IsAlive(t) { return false; }
      var related := subjectIndex.Has(s.index, Pair(k, t));
      if !related { return false; }
      PairIffListedOnce(Value(), s, k, t);
      ReorderKeepsAgree(Value(), s, k, t, index);
      moved := targetIndex.MoveTo(k, t.index, s, index);
    }

    method RelationIndex(s: Entity, k: nat, t: Entity) returns (pos: Option<nat>)
      requires Valid()
      ensures pos.Some? <==> Related(Value(), s, k, t)
      ensures pos.Some? ==> var list := Siblings(Value(), k, t.index); pos.value < |list| && list[pos.value] == s
    {
      if !IsAlive(s) || !IsAlive(t) { return None; }
      var related := subjectIndex.Has(s.index, Pair(k, t));
      if !related { return None; }
      PairIffListedOnce(Value(), s, k, t);
      pos := targetIndex.Position(k, t.index, s);
    }

    // ---- Death ----------------------------------------------------------------------------------------

    method RemoveFromAll(subjects: seq<Entity>, p: Pair)
      requires subjectIndex.Valid()
      modifies subjectIndex
      ensures subjectIndex.Valid() && PairGone(old(subjectIndex.View()), subjectIndex.View(), subjects, p)
    {
      for m := 0 to |subjects|
        invariant subjectIndex.Valid() && PairGone(old(subjectIndex.View()), subjectIndex.View(), subjects[..m], p)
      {
        ghost var v := subjectIndex.View();
        var existed := subjectIndex.Remove(subjects[m].index, p);
        OneMoreGone(old(subjectIndex.View()), v, subjectIndex.View(), subjects, m, p);
      }
      assert subjects[..|subjects|] == subjects;
    }

    /** Every list of the entity goes, with the pairs they stood for; returns who falls with it. */
    method DetachTarget(cur: Entity) returns (fallen: seq<Entity>)
      requires Valid() && IsLive(Value(), cur)
      modifies subjectIndex, targetIndex
      ensures subjectIndex.Valid() && TargetsGone(old(Value()), Value(), cur, |kinds|)
      ensures forall y :: y in fallen <==>
        exists k :: Cascades(old(Value()), k) && y in Siblings(old(Value()), k, cur.index)
    {
      ghost var w := Value();
      fallen := [];
      NoKindGone(w, cur);
      for k := 0 to |kinds|
        invariant subjectIndex.Valid() && TargetsGone(w, Value(), cur, k)
        invariant FallenBelow(w, cur, k, fallen)
      {
        var subjects := DetachKind(w, cur, k);
        FallenMore(w, cur, k, fallen);
        if kinds[k].cascade {
          fallen := fallen + subjects;
        }
      }
      AllFallen(w, cur, fallen);
    }

    // One list of the entity goes, with the pair of each of its subjects.
    method DetachKind(ghost w: World, cur: Entity, k: nat) returns (subjects: seq<Entity>)
      requires subjectIndex.Valid() && Agree(w) && IsLive(w, cur) && TargetsGone(w, Value(), cur, k)
      modifies subjectIndex, targetIndex
      ensures subjectIndex.Valid() && TargetsGone(w, Value(), cur, k + 1) && subjects == Siblings(w, k, cur.index)
    {
      ghost var v := Value();
      assert Siblings(v, k, cur.index) == Siblings(w, k, cur.index);
      subjects := targetIndex.TakeSubjects(k, cur.index);
      RemoveFromAll(subjects, Pair(k, cur));
      NextKindGone(w, v, Value(), cur, k);
    }

    method DropFromList(ghost w: World, cur: Entity, ghost done: set<Pair>, p: Pair)
      requires Agree(w) && IsLive(w, cur) && p in PairsOf(w, cur.index) && p !in done
      requires SubjectGone(w, targetIndex.Value(), cur, done)
      modifies targetIndex
      ensures SubjectGone(w, targetIndex.Value(), cur, done + {p})
    {
      NextPairGone(w, targetIndex.Value(), cur, done, p);
      var removed := targetIndex.Remove(p.kind, p.target.index, cur);
    }

    method DropFromLists(ghost w: World, cur: Entity, taken: set<Pair>)
      requires Agree(w) && IsLive(w, cur) && taken == PairsOf(w, cur.index)
      requires SubjectGone(w, targetIndex.Value(), cur, {})
      modifies targetIndex
      ensures SubjectGone(w, targetIndex.Value(), cur, taken)
    {
      var rest := taken;
      assert taken - rest == {};
      while rest != {}
        invariant rest <= taken && SubjectGone(w, targetIndex.Value(), cur, taken - rest)
        decreases |rest|
      {
        var p :| p in rest;
        assert taken - (rest - {p}) == (taken - rest) + {p};
        DropFromList(w, cur, taken - rest, p);
        rest := rest - {p};
      }
      assert taken - rest == taken;
    }

    /** Every pair of the entity goes, from its own storage and from the lists of its targets. */
    method DetachSubject(ghost w: World, cur: Entity)
      requires Agree(w) && IsLive(w, cur) && subjectIndex.Valid() && TargetsGone(w, Value(), cur, |w.kinds|)
      modifies subjectIndex, targetIndex
      ensures subjectIndex.Valid() && subjectIndex.View() == Cleared(old(subjectIndex.View()), cur.index)
      ensures SubjectGone(w, targetIndex.Value(), cur, PairsOf(w, cur.index))
    {
      OwnPairsStay(w, Value(), cur);
      NoPairGone(w, Value(), cur);
      var taken := subjectIndex.TakeAll(cur.index);
      DropFromLists(w, cur, taken);
    }

    /** One death: the entity is forgotten. */
    method Detach(cur: Entity) returns (fallen: seq<Entity>)
      requires Valid() && IsLive(Value(), cur)
      modifies this, subjectIndex, targetIndex
      ensures Valid() && Forgets(old(Value()), Value(), cur)
      ensures forall y :: y in fallen <==>
        exists k :: Cascades(old(Value()), k) && y in Siblings(old(Value()), k, cur.index)
    {
      ghost var w := Value();
      fallen := DetachTarget(cur);
      ghost var v := Value();
      DetachSubject(w, cur);
      alive := alive - {cur.index};
      DeathForgets(w, v, Value(), cur);
      ForgetKeepsAgree(w, Value(), cur);
    }

    // One entity off the stack: if it is still alive it dies, and what falls with it waits.
    method DespawnNext(ghost w0: World, root: Entity, stack: seq<Entity>, cur: Entity) returns (waiting: seq<Entity>)
      requires Valid() && Agree(w0) && Remains(w0, Value()) && CascadeSoFar(w0, Value(), root, stack + [cur])
      modifies this, subjectIndex, targetIndex
      ensures Valid() && Remains(w0, Value()) && CascadeSoFar(w0, Value(), root, waiting)
      ensures |alive| < |old(alive)| || (alive == old(alive) && waiting == stack)
    {
      ghost var w := Value();
      if IsAlive(cur) {
        var fallen := Detach(cur);
        ForgetRemains(w0, w, Value(), cur);
        CascadeStep(w0, w, Value(), root, stack, cur, fallen);
        waiting := stack + fallen;
      } else {
        CascadeSkips(w0, w, root, stack, cur);
        waiting := stack;
      }
    }

    /** A despawn takes exactly the entity and everything that falls with it. */
    method Despawn(root: Entity) returns (done: bool)
      requires Valid()
      modifies this, subjectIndex, targetIndex
      ensures Valid() && done == IsLive(old(Value()), root) && (!done ==> Value() == old(Value()))
      ensures done ==> Remains(old(Value()), Value())
                       && forall i: nat :: i in alive <==> i in old(alive) && !Falls(old(Value()), i, root.index)
    {
      done := IsAlive(root);
      if !done { return; }
      ghost var w0 := Value();
      AllRemains(w0);
      RootFalls(w0, root.index);
      var stack := [root];
      while stack != []
        invariant Valid() && Remains(w0, Value())
        invariant CascadeSoFar(w0, Value(), root, stack)
        decreases |alive|, |stack|
      {
        var cur := stack[|stack| - 1];
        assert stack == stack[..|stack| - 1] + [cur];
        stack := DespawnNext(w0, root, stack[..|stack| - 1], cur);
      }
      CascadeEnds(w0, Value(), root);
    }
  }

  // ---- The walk -----------------------------------------------------------------------------------------

  lemma TargetCounted(t: Targets, i: nat)
    requires TargetsValid(t)
    ensures CountOf(t, i) > 0 <==> exists k {:trigger ListOf(t, k, i)} :: 0 <= k && ListOf(t, k, i) != []
  {
    assert CountOf(t, i) == TotalOf(t.byKind, i);
    if CountOf(t, i) > 0 {
      TotalHasList(t.byKind, i);
      var k :| 0 <= k < |t.byKind| && ListIn(t.byKind[k], i) != [];
      assert ListOf(t, k, i) != [];
    } else {
      forall k: nat ensures ListOf(t, k, i) == [] {
        CountCoversList(t, k, i);
      }
    }
  }

  lemma NoneLeft(w: World, i: nat, k: nat)
    requires Agree(w) && Exclusive(w, k) && SomeOfKind(PairsOf(w, i), k)
    ensures !SomeOfKind(PairsOf(w, i) - {PairOfKind(w, i, k)}, k)
  {
    forall p | p in PairsOf(w, i) && p.kind == k ensures p == PairOfKind(w, i, k) {
      TheOnlyPair(w, i, k, p);
    }
  }

  lemma InsertedAgain(v: Pairs, i: nat, p: Pair)
    requires p in PairsAt(v, i)
    ensures Inserted(v, i, p) == v
  {
    assert v[i] + {p} == v[i];
  }

  lemma RemovedNothing(v: Pairs, i: nat, p: Pair)
    requires p !in PairsAt(v, i)
    ensures Removed(v, i, p) == v
  {
    if i < |v| {
      assert v[i] - {p} == v[i];
    }
  }

  lemma OneMoreGone(v0: Pairs, v: Pairs, v': Pairs, subjects: seq<Entity>, m: nat, p: Pair)
    requires m < |subjects| && PairGone(v0, v, subjects[..m], p) && v' == Removed(v, subjects[m].index, p)
    ensures PairGone(v0, v', subjects[..m + 1], p)
  {
    var shorter, longer := subjects[..m], subjects[..m + 1];
    forall i: nat
      ensures PairsAt(v', i) == if exists n :: 0 <= n < |longer| && longer[n].index == i then PairsAt(v0, i) - {p}
                                else PairsAt(v0, i)
    {
      assert PairsAt(v, i) == if exists n :: 0 <= n < m && shorter[n].index == i then PairsAt(v0, i) - {p}
                              else PairsAt(v0, i);
      assert longer[m].index == subjects[m].index;
      if n :| 0 <= n < m && shorter[n].index == i {
        assert longer[n].index == i;
      }
      if n :| 0 <= n < |longer| && longer[n].index == i {
        assert n < m ==> shorter[n].index == i;
      }
    }
  }

  lemma OwnPairsStay(w: World, v: World, cur: Entity)
    requires Agree(w) && TargetsGone(w, v, cur, |w.kinds|)
    ensures PairsOf(v, cur.index) == PairsOf(w, cur.index)
  {
    forall p | p in PairsOf(w, cur.index) ensures p.target != cur {
      assert ForwardAt(w, cur.index, p);
    }
  }

  // ---- The cascade's worklist ---------------------------------------------------------------------------

  ghost predicate Dead(w0: World, w: World, i: nat) {
    i in w0.alive && i !in w.alive
  }

  /** Everything dead or waiting falls with the root; everything that falls with the dead is dead or
      waiting. */
  ghost predicate CascadeSoFar(w0: World, w: World, root: Entity, stack: seq<Entity>) {
    && (forall y :: y in stack ==> IsLive(w0, y) && Falls(w0, y.index, root.index))
    && (forall i: nat {:trigger Dead(w0, w, i)} :: Dead(w0, w, i) ==> Falls(w0, i, root.index))
    && (Dead(w0, w, root.index) || root in stack)
    && (forall i: nat, j: nat {:trigger FallsWith(w0, i, j)} :: FallsWith(w0, i, j) && Dead(w0, w, j) ==>
          i in w0.alive && (Dead(w0, w, i) || LiveAt(w0, i) in stack))
  }

  lemma FallsWithLives(w0: World, i: nat, j: nat)
    requires Agree(w0) && FallsWith(w0, i, j)
    ensures i in w0.alive && j in w0.alive
  {
    var p :| p in PairsOf(w0, i) && Cascades(w0, p.kind) && p.target.index == j;
    assert ForwardAt(w0, i, p);
  }

  lemma CascadeSkips(w0: World, w: World, root: Entity, stack: seq<Entity>, cur: Entity)
    requires Remains(w0, w) && CascadeSoFar(w0, w, root, stack + [cur]) && !IsLive(w, cur)
    ensures CascadeSoFar(w0, w, root, stack)
  {
    assert cur in stack + [cur];
    assert Dead(w0, w, cur.index);
    assert forall y :: y in stack ==> y in stack + [cur];
    assert forall y :: y in stack + [cur] ==> y in stack || y == cur;
  }

  lemma CascadeStep(w0: World, w: World, w': World, root: Entity, stack: seq<Entity>, cur: Entity, fallen: seq<Entity>)
    requires Agree(w0) && Agree(w) && Remains(w0, w) && Remains(w0, w') && IsLive(w, cur) && Forgets(w, w', cur)
    requires CascadeSoFar(w0, w, root, stack + [cur])
    requires forall y :: y in fallen <==> exists k :: Cascades(w, k) && y in Siblings(w, k, cur.index)
    ensures CascadeSoFar(w0, w', root, stack + fallen)
  {
    assert cur in stack + [cur];
    assert forall y :: y in stack ==> y in stack + [cur];
    forall y | y in stack + fallen ensures IsLive(w0, y) && Falls(w0, y.index, root.index) {
      if y in fallen {
        var k :| Cascades(w, k) && y in Siblings(w, k, cur.index);
        assert BackwardAt(w, k, cur.index, y);
        ListedFalls(w0, w, k, cur.index, y);
        FallsThrough(w0, y.index, cur.index, root.index);
      }
    }
    forall i: nat | Dead(w0, w', i) ensures Falls(w0, i, root.index) {
      assert Dead(w0, w, i) || i == cur.index;
    }
    assert Dead(w0, w, root.index) ==> Dead(w0, w', root.index);
    forall i: nat, j: nat | FallsWith(w0, i, j) && Dead(w0, w', j)
      ensures i in w0.alive && (Dead(w0, w', i) || LiveAt(w0, i) in stack + fallen)
    {
      FallsWithLives(w0, i, j);
      CascadeCloses(w0, w, w', root, stack, cur, fallen, i, j);
    }
  }

  lemma CascadeCloses(w0: World, w: World, w': World, root: Entity, stack: seq<Entity>, cur: Entity,
                      fallen: seq<Entity>, i: nat, j: nat)
    requires Agree(w) && Remains(w0, w) && IsLive(w, cur) && Forgets(w, w', cur)
    requires CascadeSoFar(w0, w, root, stack + [cur])
    requires forall y :: y in fallen <==> exists k :: Cascades(w, k) && y in Siblings(w, k, cur.index)
    requires FallsWith(w0, i, j) && Dead(w0, w', j) && i in w0.alive
    ensures Dead(w0, w', i) || LiveAt(w0, i) in stack + fallen
  {
    if Dead(w0, w, j) {
      assert Dead(w0, w, i) || LiveAt(w0, i) in stack + [cur];
    } else if i in w'.alive {
      FallenIsListed(w0, w, i, j);
    }
  }

  lemma CascadeEnds(w0: World, w: World, root: Entity)
    requires Agree(w0) && Remains(w0, w) && CascadeSoFar(w0, w, root, [])
    ensures forall i: nat :: i in w.alive <==> i in w0.alive && !Falls(w0, i, root.index)
  {
    var dead := w0.alive.Keys - w.alive.Keys;
    forall i: nat, j: nat | FallsWith(w0, i, j) && j in dead ensures i in dead {
      assert Dead(w0, w, j);
    }
    forall i: nat ensures i in w.alive <==> i in w0.alive && !Falls(w0, i, root.index) {
      if i in w0.alive && Falls(w0, i, root.index) {
        var path :| FallPath(w0, path, root.index) && path[0] == i;
        assert Dead(w0, w, root.index);
        ClosedHoldsFallen(w0, dead, path, root.index);
      }
      if i in w0.alive && i !in w.alive {
        assert Dead(w0, w, i);
      }
    }
  }
}
