/** When a world comes back from its own emission: exactly when no kind that is exclusive or cascades has
    a loop.
  */
module RelationReturn {
  import opened Basics
  import opened EntityPool
  import opened Forests
  import opened RelationStorage
  import opened RelationTargets
  import opened Relations
  import opened RelationForest
  import opened RelationRuns
  import opened RelationCascades
  import opened RelationEmission
  import opened RelationRoundTrip

  /** The same lists in the same order, the same pairs, the same counts. */
  ghost predicate SameRelations(w: World, v: World) {
    && (forall k: nat, j: nat {:trigger Siblings(v, k, j)} :: Siblings(v, k, j) == Siblings(w, k, j))
    && (forall i: nat {:trigger PairsOf(v, i)} :: PairsOf(v, i) == PairsOf(w, i))
    && forall j: nat {:trigger CountOf(v.targets, j)} :: CountOf(v.targets, j) == CountOf(w.targets, j)
  }

  /** Whatever pairs come first along the way, adding the emitted edges back ends with the same relations. */
  ghost predicate ComesBack(w: World) {
    forall v {:trigger Restored(Bare(w), Emitted(w), |Emitted(w)|, v)} ::
      Restored(Bare(w), Emitted(w), |Emitted(w)|, v) ==> SameRelations(w, v)
  }

  ghost predicate HierarchiesLoopFree(w: World) {
    forall k: nat {:trigger Hierarchical(w, k)} :: Hierarchical(w, k) ==> LoopFree(w, k)
  }

  // ---- An answer that rejects ------------------------------------------------------------------------------

  ghost predicate OnPath(path: seq<nat>, x: nat) {
    exists n :: 0 <= n < |path| - 1 && path[n] == x
  }

  // First pairs that lead along the path.
  ghost function Along(w: World, k: nat, path: seq<nat>, x: nat): Option<nat> {
    if OnPath(path, x) then
      var n :| 0 <= n < |path| - 1 && path[n] == x;
      Some(path[n + 1])
    else ParentOf(w, x, k)
  }

  ghost function Following(w: World, k: nat, path: seq<nat>): Parents {
    (x: nat) => Along(w, k, path, x)
  }

  lemma FollowingSelects(w: World, k: nat, path: seq<nat>)
    requires KindPath(w, k, path)
    ensures Selects(w, k, Following(w, k, path))
  {
    ParentsSelect(w, k);
    forall i: nat ensures SelectsAt(w, k, i, Following(w, k, path)(i)) {
      assert SelectsAt(w, k, i, ParentsOf(w, k)(i));
      if OnPath(path, i) {
        var n :| 0 <= n < |path| - 1 && path[n] == i && Along(w, k, path, i) == Some(path[n + 1]);
        assert KindEdge(w, k, path[n], path[n + 1]);
      }
    }
  }

  lemma {:induction false} FollowingClimbs(w: World, k: nat, path: seq<nat>, n: nat)
    requires LoopFree(w, k) && KindPath(w, k, path) && n < |path|
    ensures Up(Following(w, k, path), path[0], n) == Some(path[n])
    decreases n
  {
    var first := Following(w, k, path);
    if n > 0 {
      FollowingClimbs(w, k, path, n - 1);
      UpAdds(first, path[0], n - 1, 1);
      assert OnPath(path, path[n - 1]);
      var m :| 0 <= m < |path| - 1 && path[m] == path[n - 1] && first(path[n - 1]) == Some(path[m + 1]);
      PathHasNoRepeats(w, k, path);
      assert Up(first, path[n - 1], 1) == Up(first, path[n], 0);
    }
  }

  /** An edge that would close a loop is rejected by some answer of the check. */
  lemma SomeAnswerRejects(w: World, s: nat, k: nat, t: nat)
    requires Agree(w) && Hierarchical(w, k) && LoopFree(w, k) && Climbs(w, k, t, s)
    requires |w.alive.Keys| <= MAX_ANCESTOR_WALK
    ensures CycleCheck(w, s, k, t, true)
  {
    var path :| Leads(w, k, path, t, s);
    var first := Following(w, k, path);
    FollowingSelects(w, k, path);
    FollowingClimbs(w, k, path, |path| - 1);
    CheckIsAbove(w, k, first, s, t);
  }

  /** The check always has an answer; one that rejects only what closes a loop. */
  lemma SomeAnswer(w: World, s: nat, k: nat, t: nat) returns (rejected: bool)
    ensures CycleCheck(w, s, k, t, rejected)
    ensures rejected && Agree(w) && LoopFree(w, k) && |w.alive.Keys| <= MAX_ANCESTOR_WALK ==> Climbs(w, k, t, s)
  {
    ParentsSelect(w, k);
    rejected := CheckAlong(w, ParentsOf(w, k), s, k, t);
    if rejected && Agree(w) && LoopFree(w, k) && |w.alive.Keys| <= MAX_ANCESTOR_WALK {
      CheckIsAbove(w, k, ParentsOf(w, k), s, t);
    }
  }

  // ---- Reading back, edge by edge -----------------------------------------------------------------------------

  ghost predicate Keeps(w: World, u: World) {
    Agree(u) && u.alive == w.alive && u.kinds == w.kinds
  }

  ghost predicate Misses(v: World, e: Edge) {
    e.subject !in Siblings(v, e.kind, e.target)
  }

  ghost predicate MissesSome(v: World, es: seq<Edge>, n: nat) {
    exists m :: 0 <= m < n && m < |es| && Misses(v, es[m])
  }

  lemma RestoredMore(bare: World, es: seq<Edge>, n: nat, u: World, rejected: bool, v: World)
    requires n < |es| && Restored(bare, es, n, u) && Readds(u, es[n], rejected, v)
    ensures Restored(bare, es, n + 1, v)
  {
  }

  lemma BareKeeps(w: World)
    ensures Keeps(w, Bare(w)) && Restored(Bare(w), Emitted(w), 0, Bare(w))
  {
    BareMatches(w);
  }

  // The edge is between live entities, whatever else has come back.
  lemma EdgeCanBeAdded(w: World, n: nat, u: World)
    requires Agree(w) && n < |Emitted(w)| && Keeps(w, u)
    ensures var e := Emitted(w)[n];
            && e.kind < |w.kinds| && e.target in u.alive && CanAdd(u, e.subject, LiveAt(u, e.target))
            && Pair(e.kind, LiveAt(w, e.target)) in PairsOf(w, e.subject.index)
  {
    var e := Emitted(w)[n];
    EdgeIsNew(w, n + 1);
    assert BackwardAt(w, e.kind, e.target, e.subject);
    assert ForwardAt(w, e.subject.index, Pair(e.kind, LiveAt(w, e.target)));
  }

  lemma ReaddKeeps(w: World, n: nat, u: World, rejected: bool, v: World)
    requires Agree(w) && n < |Emitted(w)| && Keeps(w, u) && Readds(u, Emitted(w)[n], rejected, v)
    ensures Keeps(w, v)
  {
    var e := Emitted(w)[n];
    EdgeCanBeAdded(w, n, u);
    AddedKeepsAgree(u, e.subject, e.kind, LiveAt(u, e.target), None);
  }

  lemma ReaddSome(w: World, n: nat, u: World) returns (rejected: bool, v: World)
    requires Agree(w) && n < |Emitted(w)| && Keeps(w, u)
    ensures Readds(u, Emitted(w)[n], rejected, v)
  {
    var e := Emitted(w)[n];
    EdgeCanBeAdded(w, n, u);
    rejected := SomeAnswer(u, e.subject.index, e.kind, e.target);
    v := AddRelation(u, e.subject, e.kind, LiveAt(u, e.target), None, rejected);
  }

  /** Adding back always comes to an end: there is a restored world. */
  lemma {:induction false} SomethingIsRestored(w: World, n: nat) returns (v: World)
    requires Agree(w) && n <= |Emitted(w)|
    ensures Restored(Bare(w), Emitted(w), n, v) && Keeps(w, v)
    decreases n
  {
    if n == 0 {
      BareKeeps(w);
      v := Bare(w);
    } else {
      var u := SomethingIsRestored(w, n - 1);
      var rejected;
      rejected, v := ReaddSome(w, n - 1, u);
      ReaddKeeps(w, n - 1, u, rejected, v);
      RestoredMore(Bare(w), Emitted(w), n - 1, u, rejected, v);
    }
  }

  // ---- What is missing stays missing ---------------------------------------------------------------------------

  // An add lists nobody but its own subject anew.
  lemma AddedMember(u: World, s: Entity, k: nat, t: Entity, rejected: bool, k': nat, j: nat, y: Entity)
    requires Agree(u) && y in Siblings(AddRelation(u, s, k, t, None, rejected), k', j)
    ensures y in Siblings(u, k', j) || (y == s && k' == k && j == t.index)
  {
    if CanAdd(u, s, t) && !rejected {
      if Exclusive(u, k) && SomeOfKind(PairsOf(u, s.index), k) {
        var prior := PairOfKind(u, s.index, k).target;
        if prior != t {
          var v := Unlinked(u, s, k, prior);
          LinkedMember(v, s, k, t, Place(v, k, t, None), k', j, y);
          UnlinkedMember(u, s, k, prior, k', j, y);
        }
      } else {
        LinkedMember(u, s, k, t, Place(u, k, t, None), k', j, y);
      }
    }
  }

  lemma {:induction false} ListedHas(es: seq<Edge>, n: nat, m: nat)
    requires m < n <= |es|
    ensures es[m].subject in Listed(es, n, es[m].kind, es[m].target)
    decreases n
  {
    if m < n - 1 { ListedHas(es, n - 1, m); }
  }

  // Each edge is emitted once.
  lemma EmittedOnce(w: World, m: nat, n: nat)
    requires Agree(w) && m < n < |Emitted(w)|
    ensures Emitted(w)[m] != Emitted(w)[n]
  {
    EdgeIsNew(w, n + 1);
    ListedHas(Emitted(w), n, m);
  }

  lemma OtherStaysMissing(u: World, e: Edge, rejected: bool, v: World, d: Edge)
    requires Agree(u) && Readds(u, e, rejected, v) && Misses(u, d) && d != e
    ensures Misses(v, d)
  {
    if !Misses(v, d) {
      AddedMember(u, e.subject, e.kind, LiveAt(u, e.target), rejected, d.kind, d.target, d.subject);
    }
  }

  lemma MissingStaysMissing(w: World, n: nat, u: World, rejected: bool, v: World)
    requires Agree(w) && n < |Emitted(w)| && Keeps(w, u) && Readds(u, Emitted(w)[n], rejected, v)
    requires MissesSome(u, Emitted(w), n)
    ensures MissesSome(v, Emitted(w), n + 1)
  {
    var m :| 0 <= m < n && Misses(u, Emitted(w)[m]);
    EmittedOnce(w, m, n);
    OtherStaysMissing(u, Emitted(w)[n], rejected, v, Emitted(w)[m]);
  }

  // ---- One edge back -------------------------------------------------------------------------------------------

  // So far everything has come back and the kind has no loop, or an edge is missing.
  ghost predicate SoFar(w: World, k: nat, n: nat, u: World)
    requires n <= |Emitted(w)|
  {
    && Restored(Bare(w), Emitted(w), n, u) && Keeps(w, u)
    && ((Matches(w, n, u) && LoopFree(u, k)) || MissesSome(u, Emitted(w), n))
  }

  lemma OtherKindStaysLoopFree(u: World, s: Entity, k: nat, t: Entity, index: nat, k': nat)
    requires LoopFree(u, k') && k' != k
    ensures LoopFree(Linked(u, s, k, t, index), k')
  {
    var v := Linked(u, s, k, t, index);
    forall path | |path| > 1 && KindPath(v, k', path) ensures path[0] != path[|path| - 1] {
      forall n | 0 <= n < |path| - 1 ensures KindEdge(u, k', path[n], path[n + 1]) {
        assert KindEdge(v, k', path[n], path[n + 1]);
      }
      assert KindPath(u, k', path);
    }
  }

  lemma LinkStaysLoopFree(u: World, e: Edge, k: nat)
    requires LoopFree(u, k) && e.target in u.alive && e.subject.index != e.target
    requires e.kind == k ==> !Climbs(u, k, e.target, e.subject.index)
    ensures LoopFree(Appended(u, e), k)
  {
    var t, index := LiveAt(u, e.target), |Siblings(u, e.kind, e.target)|;
    if e.kind == k {
      LinkClosesLoopExactly(u, e.subject, k, t, index);
    } else {
      OtherKindStaysLoopFree(u, e.subject, e.kind, t, index, k);
    }
  }

  lemma NextCanLink(w: World, n: nat, u: World)
    requires Inv(w) && n < |Emitted(w)| && Matches(w, n, u)
    ensures CanLink(u, Emitted(w)[n]) && Misses(u, Emitted(w)[n])
  {
    var e := Emitted(w)[n];
    EdgeIsNew(w, n + 1);
    EdgeCanBeAdded(w, n, u);
    EdgeIsMissing(w, n, u, e);
    assert Siblings(u, e.kind, e.target) == Listed(Emitted(w), n, e.kind, e.target);
  }

  lemma AcceptedMatches(w: World, n: nat, u: World, v: World)
    requires Inv(w) && n < |Emitted(w)| && Matches(w, n, u) && Readds(u, Emitted(w)[n], false, v)
    ensures v == Appended(u, Emitted(w)[n]) && Matches(w, n + 1, v)
  {
    NextCanLink(w, n, u);
    LinkedMatches(w, n + 1, u, v);
  }

  // The answer to choose for the next edge: reject whatever would close a loop of the kind.
  lemma ChooseAnswer(w: World, k: nat, n: nat, u: World) returns (rejected: bool)
    requires Inv(w) && Hierarchical(w, k) && |w.alive.Keys| <= MAX_ANCESTOR_WALK
    requires n < |Emitted(w)| && Matches(w, n, u) && LoopFree(u, k)
    ensures var e := Emitted(w)[n];
            && CycleCheck(u, e.subject.index, e.kind, e.target, rejected)
            && (!rejected && e.kind == k ==> !Climbs(u, k, e.target, e.subject.index))
  {
    var e := Emitted(w)[n];
    if e.kind == k && Climbs(u, k, e.target, e.subject.index) {
      SomeAnswerRejects(u, e.subject.index, k, e.target);
      rejected := true;
    } else {
      rejected := SomeAnswer(u, e.subject.index, e.kind, e.target);
    }
  }

  lemma NextWhileMatching(w: World, k: nat, n: nat, u: World) returns (v: World)
    requires Inv(w) && Hierarchical(w, k) && |w.alive.Keys| <= MAX_ANCESTOR_WALK
    requires n < |Emitted(w)| && Matches(w, n, u) && LoopFree(u, k) && Restored(Bare(w), Emitted(w), n, u)
    ensures SoFar(w, k, n + 1, v)
  {
    var e := Emitted(w)[n];
    EdgeCanBeAdded(w, n, u);
    NextCanLink(w, n, u);
    var rejected := ChooseAnswer(w, k, n, u);
    v := AddRelation(u, e.subject, e.kind, LiveAt(u, e.target), None, rejected);
    RestoredMore(Bare(w), Emitted(w), n, u, rejected, v);
    ReaddKeeps(w, n, u, rejected, v);
    if rejected {
      assert Misses(v, Emitted(w)[n]);
    } else {
      AcceptedMatches(w, n, u, v);
      LinkStaysLoopFree(u, e, k);
    }
  }

  lemma NextWhileMissing(w: World, k: nat, n: nat, u: World) returns (v: World)
    requires Agree(w) && n < |Emitted(w)| && Keeps(w, u) && MissesSome(u, Emitted(w), n)
    requires Restored(Bare(w), Emitted(w), n, u)
    ensures SoFar(w, k, n + 1, v)
  {
    var rejected;
    rejected, v := ReaddSome(w, n, u);
    ReaddKeeps(w, n, u, rejected, v);
    MissingStaysMissing(w, n, u, rejected, v);
    RestoredMore(Bare(w), Emitted(w), n, u, rejected, v);
  }

  lemma BareSoFar(w: World, k: nat)
    ensures SoFar(w, k, 0, Bare(w))
  {
    BareKeeps(w);
    BareMatches(w);
    BareIsLoopFree(w, k);
  }

  lemma BareIsLoopFree(w: World, k: nat)
    ensures LoopFree(Bare(w), k)
  {
    forall path: seq<nat> | |path| > 1 ensures !KindPath(Bare(w), k, path) {
      assert PairsOf(Bare(w), path[0]) == {} && !KindEdge(Bare(w), k, path[0], path[0 + 1]);
    }
  }

  lemma NextSoFar(w: World, k: nat, n: nat, u: World) returns (v: World)
    requires Inv(w) && Hierarchical(w, k) && |w.alive.Keys| <= MAX_ANCESTOR_WALK
    requires n < |Emitted(w)| && SoFar(w, k, n, u)
    ensures SoFar(w, k, n + 1, v)
  {
    if Matches(w, n, u) && LoopFree(u, k) {
      v := NextWhileMatching(w, k, n, u);
    } else {
      v := NextWhileMissing(w, k, n, u);
    }
  }

  ghost predicate CanComeTo(w: World, k: nat, n: nat)
    requires n <= |Emitted(w)|
  {
    exists v :: SoFar(w, k, n, v)
  }

  lemma ComesOneFurther(w: World, k: nat, n: nat)
    requires Inv(w) && Hierarchical(w, k) && |w.alive.Keys| <= MAX_ANCESTOR_WALK
    requires n < |Emitted(w)| && CanComeTo(w, k, n)
    ensures CanComeTo(w, k, n + 1)
  {
    var u :| SoFar(w, k, n, u);
    var v := NextSoFar(w, k, n, u);
  }

  lemma {:induction false} RestoreAgainst(w: World, k: nat, n: nat)
    requires Inv(w) && Hierarchical(w, k) && |w.alive.Keys| <= MAX_ANCESTOR_WALK && n <= |Emitted(w)|
    ensures CanComeTo(w, k, n)
    decreases n
  {
    if n == 0 {
      BareSoFar(w, k);
    } else {
      RestoreAgainst(w, k, n - 1);
      ComesOneFurther(w, k, n - 1);
    }
  }

  // ---- Exactly ---------------------------------------------------------------------------------------------------

  lemma MatchedIsSame(w: World, v: World)
    requires Agree(w) && Matches(w, |Emitted(w)|, v)
    ensures SameRelations(w, v)
  {
    forall k: nat, j: nat ensures Siblings(v, k, j) == Siblings(w, k, j) { AllMatchedIsSame(w, v, 0, k, j); }
    forall i: nat ensures PairsOf(v, i) == PairsOf(w, i) { AllMatchedIsSame(w, v, i, 0, 0); }
    forall j: nat ensures CountOf(v.targets, j) == CountOf(w.targets, j) { AllMatchedIsSame(w, v, 0, 0, j); }
  }

  lemma SamePairsSameLoops(w: World, v: World, k: nat)
    requires SameRelations(w, v) && LoopFree(v, k)
    ensures LoopFree(w, k)
  {
    forall path | |path| > 1 && KindPath(w, k, path) ensures path[0] != path[|path| - 1] {
      forall n | 0 <= n < |path| - 1 ensures KindEdge(v, k, path[n], path[n + 1]) {
        assert KindEdge(w, k, path[n], path[n + 1]);
        assert PairsOf(v, path[n]) == PairsOf(w, path[n]);
      }
      assert KindPath(v, k, path);
    }
  }

  lemma MissingIsNotSame(w: World, v: World)
    requires Agree(w) && MissesSome(v, Emitted(w), |Emitted(w)|)
    ensures !SameRelations(w, v)
  {
    var es := Emitted(w);
    var m :| 0 <= m < |es| && Misses(v, es[m]);
    EdgeIsOriginal(w, m);
    assert Siblings(v, es[m].kind, es[m].target) != Siblings(w, es[m].kind, es[m].target);
  }

  lemma EdgeIsOriginal(w: World, n: nat)
    requires Agree(w) && n < |Emitted(w)|
    ensures !Misses(w, Emitted(w)[n])
  {
    EdgeIsNew(w, n + 1);
  }

  /** A loop in a kind that is exclusive or cascades does not come back whole: some restored world lacks an
      edge. */
  lemma LoopLosesEdge(w: World, k: nat) returns (v: World)
    requires Inv(w) && Hierarchical(w, k) && !LoopFree(w, k) && |w.alive.Keys| <= MAX_ANCESTOR_WALK
    ensures Restored(Bare(w), Emitted(w), |Emitted(w)|, v)
    ensures MissesSome(v, Emitted(w), |Emitted(w)|) && !SameRelations(w, v)
  {
    RestoreAgainst(w, k, |Emitted(w)|);
    v :| SoFar(w, k, |Emitted(w)|, v);
    if Matches(w, |Emitted(w)|, v) && LoopFree(v, k) {
      MatchedIsSame(w, v);
      SamePairsSameLoops(w, v, k);
    } else {
      MissingIsNotSame(w, v);
    }
  }

  lemma WalkableComesBack(w: World)
    requires Inv(w) && Walkable(w)
    ensures ComesBack(w)
  {
    forall v | Restored(Bare(w), Emitted(w), |Emitted(w)|, v) ensures SameRelations(w, v) {
      PrefixRestores(w, |Emitted(w)|, v);
      MatchedIsSame(w, v);
    }
  }

  /** With at most 2^20 entities a reachable world comes back from its emission, whatever pairs come first, if
      and only if no kind that is exclusive or cascades has a loop. */
  lemma ComesBackExactly(w: World)
    requires Inv(w) && |w.alive.Keys| <= MAX_ANCESTOR_WALK
    ensures ComesBack(w) <==> HierarchiesLoopFree(w)
  {
    if HierarchiesLoopFree(w) {
      FewEntitiesAreWalkable(w);
      WalkableComesBack(w);
    } else {
      var k: nat :| Hierarchical(w, k) && !LoopFree(w, k);
      var v := LoopLosesEdge(w, k);
    }
  }
}
