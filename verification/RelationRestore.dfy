/** Restoring a snapshot on the store itself, and a world of cascading kinds that does not come back. */
module RelationRestore {
  import opened Basics
  import opened EntityPool
  import opened Forests
  import opened Lists
  import opened RelationStorage
  import opened RelationSubjects
  import opened RelationTargets
  import opened Relations
  import opened RelationRuns
  import opened RelationCascades
  import opened RelationEmission
  import opened RelationRoundTrip
  import opened RelationStore

  /** Adds the edges of a snapshot back, one by one, to a store without relations: it ends with every
      sibling list in its order, every subject's pairs and every count. */
  method Restore(store: RelationStore, es: seq<Edge>, ghost w: World)
    requires store.Valid() && store.Value() == Bare(w) && es == Emitted(w) && Inv(w) && Walkable(w)
    modifies store.subjectIndex, store.targetIndex
    ensures store.Valid() && Restored(Bare(w), es, |es|, store.Value())
    ensures forall k: nat, j: nat {:trigger Siblings(store.Value(), k, j)} ::
              Siblings(store.Value(), k, j) == Siblings(w, k, j)
    ensures forall i: nat {:trigger PairsOf(store.Value(), i)} :: PairsOf(store.Value(), i) == PairsOf(w, i)
    ensures forall j: nat {:trigger CountOf(store.Value().targets, j)} ::
              CountOf(store.Value().targets, j) == CountOf(w.targets, j)
  {
    for n := 0 to |es|
      invariant store.Valid() && Restored(Bare(w), es, n, store.Value())
    {
      ghost var u := store.Value();
      PrefixRestores(w, n, u);
      EdgeIsNew(w, n + 1);
      EdgeIsKnown(w, es[n]);
      var t := Entity(es[n].target, store.alive[es[n].target]);
      var rejected := store.AddRelationPositioned(es[n].subject, es[n].kind, t, None);
      assert Readds(u, es[n], rejected, store.Value());
    }
    ghost var v := store.Value();
    forall k: nat, j: nat ensures Siblings(v, k, j) == Siblings(w, k, j) { RoundTrip(w, v, 0, k, j); }
    forall i: nat ensures PairsOf(v, i) == PairsOf(w, i) { RoundTrip(w, v, i, 0, 0); }
    forall j: nat ensures CountOf(v.targets, j) == CountOf(w.targets, j) { RoundTrip(w, v, 0, 0, j); }
  }

  // ---- A cycle that slips through ---------------------------------------------------------------------------

  const E0: Entity := Entity(0, 0)
  const E1: Entity := Entity(1, 0)
  const E2: Entity := Entity(2, 0)

  // Three entities, one kind that cascades and is not exclusive, no relations.
  const THREE: World := World(map[0 := 0, 1 := 0, 2 := 0], [Kind(false, true)], [], NO_TARGETS)

  /** What a world of those three entities holds: the pairs of each, and who is listed under each. */
  ghost predicate Holds(w: World, pairs: seq<set<Pair>>, lists: seq<seq<Entity>>) {
    && Agree(w) && w.alive == THREE.alive && w.kinds == THREE.kinds
    && |pairs| == |lists| == 3
    && (forall i: nat {:trigger PairsOf(w, i)} :: PairsOf(w, i) == PairsAt(pairs, i))
    && (forall k: nat, j: nat {:trigger Siblings(w, k, j)} ::
          Siblings(w, k, j) == if k == 0 && j < 3 then lists[j] else [])
    && forall j: nat {:trigger CountOf(w.targets, j)} :: CountOf(w.targets, j) == if j < 3 then |lists[j]| else 0
  }

  lemma ThreeHoldsNothing()
    ensures Holds(THREE, [{}, {}, {}], [[], [], []])
  {
  }

  // An edge is linked at the end of its list.
  lemma AddedIsLinked(w: World, s: Entity, t: Entity)
    requires Agree(w) && CanAdd(w, s, t) && w.kinds == THREE.kinds && Pair(0, t) !in PairsOf(w, s.index)
    ensures var w' := AddRelation(w, s, 0, t, None, false);
            Agree(w') && w' == Linked(w, s, 0, t, |Siblings(w, 0, t.index)|)
  {
    AddedKeepsAgree(w, s, 0, t, None);
  }

  lemma LinkedLast(w: World, pairs: seq<set<Pair>>, lists: seq<seq<Entity>>, s: Entity, t: Entity)
    requires Holds(w, pairs, lists) && CanAdd(w, s, t) && Pair(0, t) !in pairs[s.index]
    ensures Holds(AddRelation(w, s, 0, t, None, false),
                  pairs[s.index := pairs[s.index] + {Pair(0, t)}], lists[t.index := lists[t.index] + [s]])
  {
    var list, w' := Siblings(w, 0, t.index), AddRelation(w, s, 0, t, None, false);
    var pairs', lists' := pairs[s.index := pairs[s.index] + {Pair(0, t)}], lists[t.index := lists[t.index] + [s]];
    assert PairsOf(w, s.index) == pairs[s.index] && list == lists[t.index];
    AddedIsLinked(w, s, t);
    forall i: nat ensures PairsOf(w', i) == PairsAt(pairs', i) {
      assert PairsOf(w, i) == PairsAt(pairs, i);
    }
    forall k: nat, j: nat ensures Siblings(w', k, j) == if k == 0 && j < 3 then lists'[j] else [] {
      AddedLists(w.targets, 0, t.index, s, |list|, k, j);
      assert InsertedAt(list, |list|, s) == list + [s];
      assert Siblings(w, k, j) == if k == 0 && j < 3 then lists[j] else [];
    }
    forall j: nat ensures CountOf(w'.targets, j) == if j < 3 then |lists'[j]| else 0 {
      BumpedCounts(w.targets.counts, t.index, j);
      assert CountOf(w.targets, j) == if j < 3 then |lists[j]| else 0;
    }
  }

  const PAIRS1: seq<set<Pair>> := [{}, {} + {Pair(0, E0)}, {}]
  const PAIRS2: seq<set<Pair>> := [{}, {} + {Pair(0, E0)} + {Pair(0, E2)}, {}]
  const PAIRS3: seq<set<Pair>> := [{}, {} + {Pair(0, E0)} + {Pair(0, E2)}, {} + {Pair(0, E1)}]
  // What restoring makes of the last.
  const LESS: seq<set<Pair>> := [{}, {} + {Pair(0, E0)}, {} + {Pair(0, E1)}]

  const LISTS1: seq<seq<Entity>> := [[] + [E1], [], []]
  const LISTS2: seq<seq<Entity>> := [[] + [E1], [], [] + [E1]]
  const LISTS3: seq<seq<Entity>> := [[] + [E1], [] + [E2], [] + [E1]]
  const FEWER: seq<seq<Entity>> := [[] + [E1], [] + [E2], []]

  lemma FirstEdge(w: World, rejected: bool)
    requires Holds(w, [{}, {}, {}], [[], [], []]) && CycleCheck(w, 1, 0, 0, rejected)
    ensures !rejected && Holds(AddRelation(w, E1, 0, E0, None, rejected), PAIRS1, LISTS1)
  {
    LinkedLast(w, [{}, {}, {}], [[], [], []], E1, E0);
    assert [{}, {}, {}][1 := {} + {Pair(0, E0)}] == PAIRS1 && [[], [], []][0 := [] + [E1]] == LISTS1;
  }

  lemma SecondEdge(w: World, rejected: bool)
    requires Holds(w, PAIRS1, LISTS1) && CycleCheck(w, 1, 0, 2, rejected)
    ensures !rejected && Holds(AddRelation(w, E1, 0, E2, None, rejected), PAIRS2, LISTS2)
  {
    LinkedLast(w, PAIRS1, LISTS1, E1, E2);
    assert PAIRS1[1 := PAIRS1[1] + {Pair(0, E2)}] == PAIRS2 && LISTS1[2 := LISTS1[2] + [E1]] == LISTS2;
  }

  ghost predicate Slipped(w: World) {
    Holds(w, PAIRS3, LISTS3)
  }

  lemma ThirdEdge(w: World)
    requires Holds(w, PAIRS2, LISTS2)
    ensures Slipped(AddRelation(w, E2, 0, E1, None, false))
  {
    LinkedLast(w, PAIRS2, LISTS2, E2, E1);
    assert PAIRS2[2 := PAIRS2[2] + {Pair(0, E1)}] == PAIRS3 && LISTS2[1 := LISTS2[1] + [E2]] == LISTS3;
  }

  // Past the first of two targets the walk comes to an end.
  lemma WalkMisses(first: Parents)
    requires first(1) == Some(0) && first(0) == None
    ensures !WalkRejects(first, 2, 1, 0)
  {
    assert !WalkRejects(first, 2, 0, 1);
  }

  lemma SlippedHasLoop(w: World)
    requires Slipped(w)
    ensures Inv(w) && !LoopFree(w, 0)
  {
    assert Pair(0, E2) in PAIRS3[1] && Pair(0, E1) in PAIRS3[2];
    assert PairsOf(w, 1) == PAIRS3[1] && PairsOf(w, 2) == PAIRS3[2];
    var path := [1, 2, 1];
    assert KindEdge(w, 0, 1, 2) && KindEdge(w, 0, 2, 1);
    assert KindPath(w, 0, path) && path[0] == path[|path| - 1];
  }

  /** Added in this order, 1 -> 0, 1 -> 2 and 2 -> 1 are all accepted and leave a cycle: the walk up from 1
      looks at its pair with 0 only. */
  method CycleSlipsThrough() returns (store: RelationStore)
    ensures store.Valid() && Slipped(store.Value()) && Inv(store.Value()) && !LoopFree(store.Value(), 0)
  {
    store := new RelationStore();
    store.alive, store.kinds := THREE.alive, THREE.kinds;
    ThreeHoldsNothing();
    ghost var w := store.Value();
    assert w == THREE;
    var rejected := store.AddRelationPositioned(E1, 0, E0, None);
    FirstEdge(w, rejected);
    AddsSecond(store);
    AddsThird(store);
    SlippedHasLoop(store.Value());
  }

  method AddsSecond(store: RelationStore)
    requires store.Valid() && Holds(store.Value(), PAIRS1, LISTS1) && store.subjectIndex.InVector(1)
    modifies store.subjectIndex, store.targetIndex
    ensures store.Valid() && Holds(store.Value(), PAIRS2, LISTS2) && store.subjectIndex.InVector(1)
  {
    ghost var w := store.Value();
    var rejected := store.AddRelationPositioned(E1, 0, E2, None);
    SecondEdge(w, rejected);
    assert PairsOf(store.Value(), 1) == PAIRS2[1] && |PAIRS2[1]| == 2;
  }

  method AddsThird(store: RelationStore)
    requires store.Valid() && Holds(store.Value(), PAIRS2, LISTS2) && store.subjectIndex.InVector(1)
    modifies store.subjectIndex, store.targetIndex
    ensures store.Valid() && Slipped(store.Value())
  {
    ghost var w := store.Value();
    FirstsMiss(store);
    var rejected := store.AddRelationPositioned(E2, 0, E1, None);
    ThirdEdge(w);
  }

  lemma FirstsMiss(store: RelationStore)
    requires store.Valid() && Holds(store.Value(), PAIRS2, LISTS2)
    requires store.subjectIndex.InVector(1)
    ensures !WalkRejects(store.subjectIndex.Firsts(0), 2, 1, 0)
  {
    var w := store.Value();
    assert Pair(0, E0) in PAIRS2[1] && PairsOf(w, 1) == PAIRS2[1] && PairsOf(w, 0) == {};
    store.subjectIndex.FirstsAreLeast(1, Pair(0, E0));
    store.subjectIndex.FirstsArePairs(0, 0);
    WalkMisses(store.subjectIndex.Firsts(0));
  }

  // ---- And does not come back ---------------------------------------------------------------------------------

  lemma {:induction false} EmitsThree(t: Targets, n: nat)
    requires ListOf(t, 0, 0) == [E1] && ListOf(t, 0, 1) == [E2] && ListOf(t, 0, 2) == [E1]
    requires n >= 3 && forall j: nat :: j > 2 ==> ListOf(t, 0, j) == []
    ensures EmitBelow(t, 0, All, n) == [Edge(E1, 0, 0), Edge(E2, 0, 1), Edge(E1, 0, 2)]
    decreases n
  {
    if n > 3 {
      EmitsThree(t, n - 1);
      assert EmitList(0, n - 1, []) == [];
    } else {
      assert EmitBelow(t, 0, All, 0) == [];
      assert EmitBelow(t, 0, All, 1) == [] + EmitList(0, 0, [E1]) == [Edge(E1, 0, 0)];
      assert EmitBelow(t, 0, All, 2) == [Edge(E1, 0, 0)] + EmitList(0, 1, [E2]) == [Edge(E1, 0, 0), Edge(E2, 0, 1)];
    }
  }

  lemma SlippedEmits(w: World)
    requires Slipped(w)
    ensures Emitted(w) == [Edge(E1, 0, 0), Edge(E2, 0, 1), Edge(E1, 0, 2)]
  {
    var t := w.targets;
    assert ListOf(t, 0, 0) == Siblings(w, 0, 0) && ListOf(t, 0, 1) == Siblings(w, 0, 1);
    assert ListOf(t, 0, 2) == Siblings(w, 0, 2);
    assert forall j: nat :: j > 2 ==> ListOf(t, 0, j) == Siblings(w, 0, j);
    var n := TargetBound(KeysOf(t, 0)) + 3;
    EmitBeyondBound(t, 0, All, n);
    EmitsThree(t, n);
    assert EmitKinds(t, 1, All) == [] + EmitKind(t, 0, All);
  }

  lemma ReaddedSecond(u: World, rejected: bool)
    requires Holds(u, PAIRS1, LISTS1) && CycleCheck(u, 2, 0, 1, rejected)
    ensures Holds(AddRelation(u, E2, 0, E1, None, rejected), LESS, FEWER)
  {
    LinkedLast(u, PAIRS1, LISTS1, E2, E1);
    assert PAIRS1[2 := PAIRS1[2] + {Pair(0, E1)}] == LESS && LISTS1[1 := LISTS1[1] + [E2]] == FEWER;
  }

  lemma ReaddedThird(u: World, rejected: bool)
    requires Holds(u, LESS, FEWER) && CycleCheck(u, 1, 0, 2, rejected)
    ensures rejected
  {
    var first: Parents :| Selects(u, 0, first) && rejected == CheckAlong(u, first, 1, 0, 2);
    assert SelectsAt(u, 0, 2, first(2));
    assert Pair(0, E1) in LESS[2] && PairsOf(u, 2) == LESS[2];
    assert first(2) == Some(1);
  }

  lemma RestoredLast(bare: World, es: seq<Edge>, n: nat, v: World) returns (u: World, rejected: bool)
    requires 0 < n <= |es| && Restored(bare, es, n, v)
    ensures Restored(bare, es, n - 1, u) && Readds(u, es[n - 1], rejected, v)
  {
    u, rejected :| Restored(bare, es, n - 1, u) && Readds(u, es[n - 1], rejected, v);
  }

  // What three steps of restoring come to.
  lemma ReaddedThree(o: World, a: World, b: World, v: World, one: bool, second: bool, third: bool)
    requires o == THREE && Readds(o, Edge(E1, 0, 0), one, a)
    requires Readds(a, Edge(E2, 0, 1), second, b) && Readds(b, Edge(E1, 0, 2), third, v)
    ensures Holds(v, LESS, FEWER)
  {
    ThreeHoldsNothing();
    FirstEdge(o, one);
    ReaddedSecond(a, second);
    ReaddedThird(b, third);
  }

  /** The target-major order adds 1 -> 2 last: it is rejected then, and the restored world has lost it. */
  lemma SlippedLosesEdge(w: World, v: World)
    requires Slipped(w) && Restored(Bare(w), Emitted(w), |Emitted(w)|, v)
    ensures Pair(0, E2) in PairsOf(w, 1) && Pair(0, E2) !in PairsOf(v, 1)
  {
    SlippedRestores(w, v);
    assert Pair(0, E2) in PAIRS3[1] && PairsOf(w, 1) == PAIRS3[1];
    assert Pair(0, E2) !in LESS[1] && PairsOf(v, 1) == LESS[1];
  }

  lemma SlippedRestores(w: World, v: World)
    requires Slipped(w) && Restored(Bare(w), Emitted(w), |Emitted(w)|, v)
    ensures Holds(v, LESS, FEWER)
  {
    SlippedEmits(w);
    RestoredThree(Emitted(w), v);
  }

  lemma RestoredThree(es: seq<Edge>, v: World)
    requires es == [Edge(E1, 0, 0), Edge(E2, 0, 1), Edge(E1, 0, 2)] && Restored(THREE, es, 3, v)
    ensures Holds(v, LESS, FEWER)
  {
    var b, third := RestoredLast(THREE, es, 3, v);
    var a, second := RestoredLast(THREE, es, 2, b);
    var o, one := RestoredLast(THREE, es, 1, a);
    ReaddedThree(o, a, b, v, one, second, third);
  }
}
