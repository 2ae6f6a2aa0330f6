/** Exclusive kinds form forests, and the ancestor walk rejects exactly the edges that would not. */
module RelationForest {
  import opened Basics
  import opened EntityPool
  import opened Forests
  import opened RelationStorage
  import opened RelationTargets
  import opened Relations

  ghost function ParentsOf(w: World, k: nat): Parents {
    (i: nat) => ParentOf(w, i, k)
  }

  ghost predicate Forest(w: World) {
    forall k: nat {:trigger Exclusive(w, k)} :: Exclusive(w, k) ==> Acyclic(ParentsOf(w, k))
  }

  lemma ParentsSelect(w: World, k: nat)
    ensures Selects(w, k, ParentsOf(w, k))
  {
  }

  lemma ParentIsEdge(w: World, k: nat, i: nat, j: nat)
    requires Agree(w) && Exclusive(w, k)
    ensures ParentOf(w, i, k) == Some(j) <==> KindEdge(w, k, i, j)
  {
    if KindEdge(w, k, i, j) {
      var p :| p in PairsOf(w, i) && p.kind == k && p.target.index == j;
      TheOnlyPair(w, i, k, p);
    }
  }

  // Of an exclusive kind there is one first pair only.
  lemma OnlySelection(w: World, k: nat, first: Parents, i: nat)
    requires Agree(w) && Exclusive(w, k) && Selects(w, k, first)
    ensures first(i) == ParentsOf(w, k)(i)
  {
    assert SelectsAt(w, k, i, first(i));
    if first(i).Some? {
      ParentIsEdge(w, k, i, first(i).value);
    }
  }

  lemma {:induction false} SameWalk(p: Parents, q: Parents, s: nat, cur: nat, depth: nat)
    requires depth <= MAX_ANCESTOR_WALK && forall i: nat :: p(i) == q(i)
    ensures WalkRejects(p, s, cur, depth) == WalkRejects(q, s, cur, depth)
    decreases MAX_ANCESTOR_WALK - depth
  {
    if depth < MAX_ANCESTOR_WALK && p(cur).Some? {
      SameWalk(p, q, s, p(cur).value, depth + 1);
    }
  }

  // For an exclusive kind the check has one answer.
  lemma ExclusiveCheck(w: World, s: nat, k: nat, t: nat, rejected: bool)
    requires Agree(w) && Exclusive(w, k) && CycleCheck(w, s, k, t, rejected)
    ensures rejected == (CountOf(w.targets, s) > 0 && WalkRejects(ParentsOf(w, k), s, t, 0))
  {
    var first: Parents :| Selects(w, k, first) && rejected == CheckAlong(w, first, s, k, t);
    forall i: nat ensures first(i) == ParentsOf(w, k)(i) {
      OnlySelection(w, k, first, i);
    }
    SameWalk(first, ParentsOf(w, k), s, t, 0);
  }

  lemma ParentLives(w: World, k: nat, i: nat)
    requires Agree(w) && ParentOf(w, i, k).Some?
    ensures ParentOf(w, i, k).value in w.alive.Keys
  {
    assert ForwardAt(w, i, PairOfKind(w, i, k));
  }

  // ---- The walk ------------------------------------------------------------------------------------------

  /** The walk rejects when the subject is among the ancestors it looks at, or the chain goes on beyond. */
  lemma {:induction false} WalkExactly(p: Parents, s: nat, cur: nat, depth: nat)
    requires depth <= MAX_ANCESTOR_WALK
    ensures WalkRejects(p, s, cur, depth) <==>
              || MeetsWithin(p, cur, s, MAX_ANCESTOR_WALK + 1 - depth)
              || Up(p, cur, MAX_ANCESTOR_WALK + 1 - depth).Some?
    decreases MAX_ANCESTOR_WALK - depth
  {
    var most := MAX_ANCESTOR_WALK + 1 - depth;
    match p(cur)
    case None =>
      forall n: nat | n > 0 ensures Up(p, cur, n) == None {
      }
    case Some(parent) =>
      assert Up(p, cur, 1) == Up(p, parent, 0) == Some(parent);
      assert Up(p, cur, most) == Up(p, parent, most - 1);
      if depth < MAX_ANCESTOR_WALK {
        WalkExactly(p, s, parent, depth + 1);
        WalkShifts(p, s, cur, parent, most);
      }
  }

  ghost predicate MeetsWithin(p: Parents, i: nat, s: nat, most: nat) {
    exists n: nat {:trigger Up(p, i, n)} :: 0 < n <= most && Up(p, i, n) == Some(s)
  }

  lemma WalkShifts(p: Parents, s: nat, cur: nat, parent: nat, most: nat)
    requires p(cur) == Some(parent) && most > 0
    ensures MeetsWithin(p, cur, s, most) <==> parent == s || MeetsWithin(p, parent, s, most - 1)
  {
    assert Up(p, parent, 0) == Some(parent);
    assert Up(p, cur, 1) == Up(p, parent, 0);
    forall n: nat | 0 < n <= most && Up(p, cur, n) == Some(s)
      ensures parent == s || MeetsWithin(p, parent, s, most - 1)
    {
      assert Up(p, parent, n - 1) == Some(s);
    }
    forall n: nat | 0 < n <= most - 1 && Up(p, parent, n) == Some(s) ensures MeetsWithin(p, cur, s, most) {
      assert Up(p, cur, n + 1) == Some(s);
    }
  }

  /** Who is the target of nothing is nobody's ancestor: the shortcut never changes the answer. */
  lemma UncountedIsNobodysAncestor(w: World, s: nat, k: nat, t: nat)
    requires Agree(w) && CountOf(w.targets, s) == 0
    ensures !Above(ParentsOf(w, k), t, s)
  {
    var p := ParentsOf(w, k);
    if n: nat :| n > 0 && Up(p, t, n) == Some(s) {
      UpEarlier(p, t, n - 1, n);
      UpAdds(p, t, n - 1, 1);
      AncestorIsCounted(w, s, k, Up(p, t, n - 1).value);
    }
  }

  lemma AncestorIsCounted(w: World, s: nat, k: nat, i: nat)
    requires Agree(w) && Up(ParentsOf(w, k), i, 1) == Some(s)
    ensures CountOf(w.targets, s) > 0
  {
    assert ParentOf(w, i, k) == Some(s) by {
      assert Up(ParentsOf(w, k), s, 0) == Some(s);
    }
    assert ForwardAt(w, i, PairOfKind(w, i, k));
    CountCoversList(w.targets, k, s);
  }

  /** An accepted edge never has its subject above its target. */
  lemma AcceptedIsNotAbove(w: World, s: nat, k: nat, t: nat)
    requires Agree(w) && Exclusive(w, k) && CycleCheck(w, s, k, t, false)
    ensures !Above(ParentsOf(w, k), t, s)
  {
    var p := ParentsOf(w, k);
    ExclusiveCheck(w, s, k, t, false);
    if CountOf(w.targets, s) == 0 {
      UncountedIsNobodysAncestor(w, s, k, t);
    } else {
      WalkExactly(p, s, t, 0);
      forall n: nat | n > 0 ensures Up(p, t, n) != Some(s) {
        if n > MAX_ANCESTOR_WALK + 1 && Up(p, t, n) == Some(s) {
          UpEarlier(p, t, MAX_ANCESTOR_WALK + 1, n);
        }
      }
    }
  }

  /** The cycle check is exact: with no more than 2^20 entities it rejects a live, non-self edge of an
      exclusive kind exactly when re-parenting the subject under the target would close a cycle. */
  lemma RejectsExactlyCycles(w: World, s: Entity, k: nat, t: Entity, rejected: bool)
    requires Agree(w) && Forest(w) && Exclusive(w, k)
    requires IsLive(w, s) && IsLive(w, t) && s.index != t.index
    requires |w.alive.Keys| <= MAX_ANCESTOR_WALK
    requires CycleCheck(w, s.index, k, t.index, rejected)
    ensures rejected <==> !Acyclic(Reparented(ParentsOf(w, k), s.index, t.index))
  {
    var p := ParentsOf(w, k);
    ReparentedAcyclicExactly(p, s.index, t.index);
    if rejected {
      ExclusiveCheck(w, s.index, k, t.index, true);
      WalkExactly(p, s.index, t.index, 0);
      forall x: nat | p(x).Some? ensures p(x).value in w.alive.Keys {
        ParentLives(w, k, x);
      }
      if Up(p, t.index, MAX_ANCESTOR_WALK + 1).Some? {
        ChainFits(p, t.index, MAX_ANCESTOR_WALK + 1, w.alive.Keys);
      }
    } else {
      AcceptedIsNotAbove(w, s.index, k, t.index);
    }
  }

  // ---- Steps -----------------------------------------------------------------------------------------------

  lemma FewerPairsKeepForest(w: World, w': World)
    requires Agree(w) && Agree(w') && Forest(w) && w'.kinds == w.kinds
    requires forall i: nat {:trigger PairsOf(w', i)} :: PairsOf(w', i) <= PairsOf(w, i)
    ensures Forest(w')
  {
    forall k: nat | Exclusive(w', k) ensures Acyclic(ParentsOf(w', k)) {
      assert Exclusive(w, k);
      forall x: nat ensures ParentsOf(w', k)(x) == ParentsOf(w, k)(x) || ParentsOf(w', k)(x) == None {
        if ParentOf(w', x, k).Some? {
          var p := PairOfKind(w', x, k);
          assert p in PairsOf(w', x);
          TheOnlyPair(w, x, k, p);
        }
      }
      FewerEdgesAcyclic(ParentsOf(w, k), ParentsOf(w', k));
    }
  }

  // What an accepted add does to the pairs.
  ghost predicate AddsEdge(w: World, w': World, s: nat, p: Pair) {
    && w'.kinds == w.kinds
    && (forall i: nat {:trigger PairsOf(w', i)} :: i != s ==> PairsOf(w', i) == PairsOf(w, i))
    && p in PairsOf(w', s)
    && (forall q {:trigger q in PairsOf(w', s)} :: q in PairsOf(w', s) ==> q == p || q in PairsOf(w, s))
    && (forall q {:trigger q in PairsOf(w, s)} :: q in PairsOf(w, s) && q.kind != p.kind ==> q in PairsOf(w', s))
  }

  lemma AddedAddsEdge(w: World, s: Entity, k: nat, t: Entity, position: Option<nat>)
    requires Agree(w)
    ensures AddsEdge(w, Added(w, s, k, t, position), s.index, Pair(k, t))
  {
    var w' := Added(w, s, k, t, position);
    if Exclusive(w, k) && SomeOfKind(PairsOf(w, s.index), k) {
      var prior := PairOfKind(w, s.index, k);
      assert prior == Pair(k, prior.target);
    }
  }

  lemma EdgeKeepsForest(w: World, w': World, s: nat, p: Pair)
    requires Agree(w) && Agree(w') && Forest(w) && AddsEdge(w, w', s, p)
    requires Exclusive(w, p.kind) ==> p.target.index != s && !Above(ParentsOf(w, p.kind), p.target.index, s)
    ensures Forest(w')
  {
    forall k: nat | Exclusive(w', k) ensures Acyclic(ParentsOf(w', k)) {
      assert Exclusive(w, k);
      if k == p.kind {
        var q := Reparented(ParentsOf(w, k), s, p.target.index);
        ReparentedStaysAcyclic(ParentsOf(w, k), s, p.target.index);
        TheOnlyPair(w', s, k, p);
        forall x: nat ensures ParentsOf(w', k)(x) == q(x) || ParentsOf(w', k)(x) == None {
          if x != s { SamePairsSameParent(w, w', k, x); }
        }
        FewerEdgesAcyclic(q, ParentsOf(w', k));
      } else {
        forall x: nat ensures ParentsOf(w', k)(x) == ParentsOf(w, k)(x) || ParentsOf(w', k)(x) == None {
          SamePairsSameParent(w, w', k, x);
        }
        FewerEdgesAcyclic(ParentsOf(w, k), ParentsOf(w', k));
      }
    }
  }

  lemma SamePairsSameParent(w: World, w': World, k: nat, x: nat)
    requires Agree(w) && Agree(w') && Exclusive(w, k) && Exclusive(w', k)
    requires forall q :: q in PairsOf(w', x) && q.kind == k ==> q in PairsOf(w, x)
    ensures ParentOf(w', x, k) == ParentOf(w, x, k) || ParentOf(w', x, k) == None
  {
    if ParentOf(w', x, k).Some? {
      TheOnlyPair(w, x, k, PairOfKind(w', x, k));
    }
  }

  /** An add keeps every exclusive kind a forest, re-parenting included. */
  lemma AddKeepsForest(w: World, s: Entity, k: nat, t: Entity, position: Option<nat>, rejected: bool)
    requires Agree(w) && Forest(w) && k < |w.kinds|
    requires CanAdd(w, s, t) ==> CycleCheck(w, s.index, k, t.index, rejected)
    ensures Agree(AddRelation(w, s, k, t, position, rejected)) && Forest(AddRelation(w, s, k, t, position, rejected))
  {
    if CanAdd(w, s, t) && !rejected {
      AddedKeepsAgree(w, s, k, t, position);
      AddedAddsEdge(w, s, k, t, position);
      if Exclusive(w, k) {
        AcceptedIsNotAbove(w, s.index, k, t.index);
      }
      EdgeKeepsForest(w, Added(w, s, k, t, position), s.index, Pair(k, t));
    }
  }
}
