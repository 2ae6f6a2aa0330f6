/** Every run of the relation operations. */
module RelationRuns {
  import opened Basics
  import opened EntityPool
  import opened Forests
  import opened Lists
  import opened RelationStorage
  import opened RelationTargets
  import opened Relations
  import opened RelationDeaths
  import opened RelationForest

  datatype Step =
    | Register(kind: Kind)
    | Spawn(e: Entity)
    | Add(s: Entity, k: nat, t: Entity, position: Option<nat>, rejected: bool)
    | InsertAt(s: Entity, k: nat, t: Entity, index: nat, rejected: bool)
    | SetIndex(s: Entity, k: nat, t: Entity, index: nat)
    | Remove(s: Entity, k: nat, t: Entity)
    | Die(e: Entity)

  ghost predicate CheckAnswers(w: World, s: Entity, k: nat, t: Entity, rejected: bool) {
    CanAdd(w, s, t) ==> CycleCheck(w, s.index, k, t.index, rejected)
  }

  ghost predicate Moves(w: World, step: Step, w': World) {
    match step
    case Register(kind) => w' == w.(kinds := w.kinds + [kind])
    case Spawn(e) => e.index !in w.alive && w' == w.(alive := w.alive[e.index := e.generation])
    case Add(s, k, t, position, rejected) =>
      k < |w.kinds| && CheckAnswers(w, s, k, t, rejected) && w' == AddRelation(w, s, k, t, position, rejected)
    case InsertAt(s, k, t, index, rejected) =>
      && k < |w.kinds| && (!Related(w, s, k, t) ==> CheckAnswers(w, s, k, t, rejected))
      && w' == InsertRelationAt(w, s, k, t, index, rejected)
    case SetIndex(s, k, t, index) => w' == SetRelationIndex(w, s, k, t, index).0
    case Remove(s, k, t) => IsLive(w, s) && w' == RemoveRelation(w, s, k, t)
    case Die(e) => IsLive(w, e) && Forgets(w, w', e)
  }

  ghost predicate Reaches(w: World, steps: seq<Step>, w': World)
    decreases |steps|
  {
    if steps == [] then w' == w
    else exists v :: Moves(w, steps[0], v) && Reaches(v, steps[1..], w')
  }

  ghost predicate Inv(w: World) {
    Agree(w) && Forest(w)
  }

  lemma RegisterKeepsInv(w: World, kind: Kind)
    requires Inv(w)
    ensures Inv(w.(kinds := w.kinds + [kind]))
  {
    var w' := w.(kinds := w.kinds + [kind]);
    forall i: nat, p | p in PairsOf(w', i) ensures ForwardAt(w', i, p) {
      assert p in PairsOf(w, i);
    }
    forall k: nat, j: nat, y | y in Siblings(w', k, j) ensures BackwardAt(w', k, j, y) {
      assert y in Siblings(w, k, j);
    }
    forall k: nat, j: nat ensures NoRepeats(Siblings(w', k, j)) {
      assert NoRepeats(Siblings(w, k, j));
    }
    forall i: nat, p, q | p in PairsOf(w', i) && q in PairsOf(w', i) && p.kind == q.kind && Exclusive(w', p.kind)
      ensures p == q
    {
      assert p in PairsOf(w, i) && q in PairsOf(w, i) && ForwardAt(w, i, p);
    }
    RegisterKeepsForest(w, w', kind);
  }

  lemma RegisterKeepsForest(w: World, w': World, kind: Kind)
    requires Inv(w) && w' == w.(kinds := w.kinds + [kind]) && Agree(w')
    ensures Forest(w')
  {
    forall k: nat | Exclusive(w', k) ensures Acyclic(ParentsOf(w', k)) {
      if k < |w.kinds| {
        assert Exclusive(w, k);
        forall x: nat ensures ParentsOf(w', k)(x) == ParentsOf(w, k)(x) || ParentsOf(w', k)(x) == None {
          SamePairsSameParent(w, w', k, x);
        }
        FewerEdgesAcyclic(ParentsOf(w, k), ParentsOf(w', k));
      } else {
        forall i: nat, n: nat | n > 0 ensures Up(ParentsOf(w', k), i, n) == None {
          forall p | p in PairsOf(w', i) ensures p.kind != k {
            assert p in PairsOf(w, i);
          }
        }
      }
    }
  }

  lemma SpawnKeepsInv(w: World, e: Entity)
    requires Inv(w) && e.index !in w.alive
    ensures Inv(w.(alive := w.alive[e.index := e.generation]))
  {
    var w' := w.(alive := w.alive[e.index := e.generation]);
    forall i: nat, p | p in PairsOf(w', i) ensures ForwardAt(w', i, p) {
      assert p in PairsOf(w, i);
    }
    forall k: nat, j: nat, y | y in Siblings(w', k, j) ensures BackwardAt(w', k, j, y) {
      assert y in Siblings(w, k, j);
    }
    forall k: nat, j: nat ensures NoRepeats(Siblings(w', k, j)) {
      assert NoRepeats(Siblings(w, k, j));
    }
    assert forall i: nat, p :: p in PairsOf(w', i) ==> p in PairsOf(w, i);
    assert forall i: nat :: PairsOf(w', i) <= PairsOf(w, i);
    FewerPairsKeepForest(w, w');
  }

  lemma ReorderKeepsInv(w: World, s: Entity, k: nat, t: Entity, index: nat)
    requires Inv(w) && Related(w, s, k, t)
    ensures Inv(Reordered(w, s, k, t, index))
  {
    ReorderKeepsAgree(w, s, k, t, index);
    FewerPairsKeepForest(w, Reordered(w, s, k, t, index));
  }

  /** Every step keeps the two views in agreement and every exclusive kind a forest. */
  lemma StepKeepsInv(w: World, step: Step, w': World)
    requires Inv(w) && Moves(w, step, w')
    ensures Inv(w')
  {
    match step
    case Register(kind) => RegisterKeepsInv(w, kind);
    case Spawn(e) => SpawnKeepsInv(w, e);
    case Add(s, k, t, position, rejected) => AddKeepsForest(w, s, k, t, position, rejected);
    case InsertAt(s, k, t, index, rejected) =>
      if Related(w, s, k, t) { ReorderKeepsInv(w, s, k, t, index); }
      else { AddKeepsForest(w, s, k, t, Some(index), rejected); }
    case SetIndex(s, k, t, index) =>
      if Related(w, s, k, t) { ReorderKeepsInv(w, s, k, t, index); }
    case Remove(s, k, t) =>
      RemoveAgreesExactly(w, s, k, t);
      FewerPairsKeepForest(w, w');
    case Die(e) =>
      ForgetKeepsAgree(w, w', e);
      FewerPairsKeepForest(w, w');
  }

  lemma {:induction false} RunKeepsInv(w: World, steps: seq<Step>, w': World)
    requires Inv(w) && Reaches(w, steps, w')
    ensures Inv(w')
    decreases |steps|
  {
    if steps != [] {
      var v :| Moves(w, steps[0], v) && Reaches(v, steps[1..], w');
      StepKeepsInv(w, steps[0], v);
      RunKeepsInv(v, steps[1..], w');
    }
  }

  lemma EmptyInv()
    ensures Inv(EMPTY_WORLD)
  {
    assert forall i: nat :: PairsOf(EMPTY_WORLD, i) == {};
    assert forall k: nat, j: nat :: Siblings(EMPTY_WORLD, k, j) == [];
  }

  /** In every reachable state a live pair is stored exactly when its subject is listed under its target,
      once; each count is the total of the target's lists; and no exclusive kind has a cycle or a second
      target. */
  lemma RunsAgree(steps: seq<Step>, w: World)
    requires Reaches(EMPTY_WORLD, steps, w)
    ensures forall s, k: nat, t :: IsLive(w, s) && IsLive(w, t) ==>
              multiset(Siblings(w, k, t.index))[s] == if Pair(k, t) in PairsOf(w, s.index) then 1 else 0
    ensures forall j: nat :: CountOf(w.targets, j) == TotalOf(w.targets.byKind, j)
    ensures forall k: nat :: Exclusive(w, k) ==> Acyclic(ParentsOf(w, k))
    ensures OneTarget(w)
    ensures forall i: nat, p, q ::
              (p in PairsOf(w, i) && q in PairsOf(w, i) && p.kind == q.kind < |w.kinds| && w.kinds[p.kind].exclusive)
              ==> p == q
  {
    EmptyInv();
    RunKeepsInv(EMPTY_WORLD, steps, w);
    forall s, k: nat, t | IsLive(w, s) && IsLive(w, t)
      ensures multiset(Siblings(w, k, t.index))[s] == if Pair(k, t) in PairsOf(w, s.index) then 1 else 0
    {
      PairIffListedOnce(w, s, k, t);
    }
  }

  // ---- Sibling order ----------------------------------------------------------------------------------------

  function Subject(step: Step): Option<Entity> {
    match step
    case Register(_) => None
    case Spawn(_) => None
    case Add(s, _, _, _, _) => Some(s)
    case InsertAt(s, _, _, _, _) => Some(s)
    case SetIndex(s, _, _, _) => Some(s)
    case Remove(s, _, _) => Some(s)
    case Die(e) => Some(e)
  }

  lemma LinkKeepsOthers(w: World, s: Entity, k: nat, t: Entity, index: nat, k': nat, j: nat)
    ensures Others(Siblings(Linked(w, s, k, t, index), k', j), s) == Others(Siblings(w, k', j), s)
  {
    AddedLists(w.targets, k, t.index, s, index, k', j);
    var list := Siblings(w, k, t.index);
    InsertKeepsOthers(list, Min(index, |list|), s);
  }

  lemma UnlinkKeepsOthers(w: World, s: Entity, k: nat, t: Entity, k': nat, j: nat)
    requires TargetsValid(w.targets)
    ensures Others(Siblings(Unlinked(w, s, k, t), k', j), s) == Others(Siblings(w, k', j), s)
  {
    DroppedLists(w.targets, k, t.index, s, k', j);
    var list := Siblings(w, k, t.index);
    if s in list {
      RemoveKeepsOthers(list, FirstAt(list, s));
    }
  }

  lemma AddedKeepsOthers(w: World, s: Entity, k: nat, t: Entity, position: Option<nat>, k': nat, j: nat)
    requires Agree(w)
    ensures Others(Siblings(Added(w, s, k, t, position), k', j), s) == Others(Siblings(w, k', j), s)
  {
    if Exclusive(w, k) && SomeOfKind(PairsOf(w, s.index), k) {
      var prior := PairOfKind(w, s.index, k).target;
      if prior != t {
        var v := Unlinked(w, s, k, prior);
        UnlinkKeepsOthers(w, s, k, prior, k', j);
        LinkKeepsOthers(v, s, k, t, Place(v, k, t, position), k', j);
      }
    } else {
      LinkKeepsOthers(w, s, k, t, Place(w, k, t, position), k', j);
    }
  }

  lemma ReorderKeepsOthers(w: World, s: Entity, k: nat, t: Entity, index: nat, k': nat, j: nat)
    requires Agree(w) && Related(w, s, k, t)
    ensures Others(Siblings(Reordered(w, s, k, t, index), k', j), s) == Others(Siblings(w, k', j), s)
  {
    PairIffListedOnce(w, s, k, t);
    MovedLists(w.targets, k, t.index, s, index, k', j);
    var list := Siblings(w, k, t.index);
    var pos := FirstAt(list, s);
    var rest := WithoutAt(list, pos);
    RemoveKeepsOthers(list, pos);
    InsertKeepsOthers(rest, Min(index, |rest|), s);
  }

  lemma DeathKeepsOthers(w: World, w': World, e: Entity, k: nat, j: nat)
    requires Agree(w) && Forgets(w, w', e) && j != e.index
    ensures Others(Siblings(w', k, j), e) == Others(Siblings(w, k, j), e)
  {
    ForgottenMember(w, w', e, k, j, e);
    var list := Siblings(w', k, j);
    OthersOfStranger(list, |list|, e);
    assert list[..|list|] == list;
  }

  /** Whatever a step does to a sibling list, everyone but its own subject stays in the same order. */
  lemma StepKeepsOrder(w: World, step: Step, w': World, k: nat, j: nat)
    requires Inv(w) && Moves(w, step, w') && !(step.Die? && step.e.index == j)
    ensures match Subject(step)
            case None => Siblings(w', k, j) == Siblings(w, k, j)
            case Some(x) => Others(Siblings(w', k, j), x) == Others(Siblings(w, k, j), x)
  {
    match step
    case Register(kind) =>
    case Spawn(e) =>
    case Add(s, k', t, position, rejected) => AddedKeepsOthers(w, s, k', t, position, k, j);
    case InsertAt(s, k', t, index, rejected) =>
      if Related(w, s, k', t) { ReorderKeepsOthers(w, s, k', t, index, k, j); }
      else { AddedKeepsOthers(w, s, k', t, Some(index), k, j); }
    case SetIndex(s, k', t, index) =>
      if Related(w, s, k', t) { ReorderKeepsOthers(w, s, k', t, index, k, j); }
    case Remove(s, k', t) => UnlinkKeepsOthers(w, s, k', t, k, j);
    case Die(e) => DeathKeepsOthers(w, w', e, k, j);
  }

  /** Only an explicit move changes a list its subject stays in: any other step leaves it as it is. */
  lemma OnlyMovesReorder(w: World, step: Step, w': World, k: nat, j: nat, x: Entity)
    requires Inv(w) && Moves(w, step, w') && !step.InsertAt? && !step.SetIndex? && Subject(step) == Some(x)
    requires x in Siblings(w, k, j) && x in Siblings(w', k, j)
    ensures Siblings(w', k, j) == Siblings(w, k, j)
  {
    assert BackwardAt(w, k, j, x);
    match step
    case Add(s, k', t, position, rejected) => PlainAddKeepsList(w, s, k', t, position, rejected, k, j);
    case Remove(s, k', t) =>
      UnlinkedMember(w, s, k', t, k, j, s);
      DroppedLists(w.targets, k', t.index, s, k, j);
    case Die(e) => ForgottenMember(w, w', e, k, j, e);
    case _ =>
  }

  lemma PlainAddKeepsList(w: World, s: Entity, k: nat, t: Entity,
                          position: Option<nat>, rejected: bool, k': nat, j: nat)
    requires Inv(w) && k < |w.kinds| && s in Siblings(w, k', j)
    requires s in Siblings(AddRelation(w, s, k, t, position, rejected), k', j)
    ensures Siblings(AddRelation(w, s, k, t, position, rejected), k', j) == Siblings(w, k', j)
  {
    assert BackwardAt(w, k', j, s);
    if IsLive(w, t) && s.index != t.index && !rejected {
      if Exclusive(w, k) && SomeOfKind(PairsOf(w, s.index), k) {
        var prior := PairOfKind(w, s.index, k);
        TheOnlyPair(w, s.index, k, prior);
        if prior.target != t {
          var v := Unlinked(w, s, k, prior.target);
          var index := Place(v, k, t, position);
          assert ForwardAt(w, s.index, prior);
          DroppedLists(w.targets, k, prior.target.index, s, k', j);
          UnlinkedMember(w, s, k, prior.target, k', j, s);
          AddedLists(v.targets, k, t.index, s, index, k', j);
        }
      } else if Pair(k, t) !in PairsOf(w, s.index) {
        PairIffListedOnce(w, s, k, t);
        AddedLists(w.targets, k, t.index, s, Place(w, k, t, position), k', j);
      }
    }
  }
}
