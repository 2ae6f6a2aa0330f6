/** Emitting every relation and adding them again, one by one, to a world without any. */
module RelationRoundTrip {
  import opened Basics
  import opened EntityPool
  import opened Forests
  import opened Lists
  import opened RelationStorage
  import opened RelationTargets
  import opened Relations
  import opened RelationForest
  import opened RelationRuns
  import opened RelationCascades
  import opened RelationEmission

  // The same entities and kinds, no relations.
  function Bare(w: World): World {
    w.(pairs := [], targets := NO_TARGETS)
  }

  /** `v` is what the first n edges make of a bare world, whatever the cycle check may answer. */
  ghost predicate Restored(bare: World, es: seq<Edge>, n: nat, v: World)
    requires n <= |es|
    decreases n
  {
    if n == 0 then v == bare
    else
      var e := es[n - 1];
      exists u, rejected {:trigger Readds(u, e, rejected, v)} ::
        Restored(bare, es, n - 1, u) && Readds(u, e, rejected, v)
  }

  // One edge read back: its target is the live entity of the index.
  ghost predicate Readds(u: World, e: Edge, rejected: bool, v: World) {
    && e.target in u.alive
    && CheckAnswers(u, e.subject, e.kind, LiveAt(u, e.target), rejected)
    && v == AddRelation(u, e.subject, e.kind, LiveAt(u, e.target), None, rejected)
  }

  /** In the kinds that are exclusive or cascade no path closes a loop or is longer than the ancestor walk
      goes. */
  ghost predicate Walkable(w: World) {
    forall k: nat, path {:trigger KindPath(w, k, path)} ::
      Hierarchical(w, k) && |path| > 1 && KindPath(w, k, path) ==>
        path[0] != path[|path| - 1] && |path| <= MAX_ANCESTOR_WALK + 1
  }

  /** A reachable world of no more than 2^20 entities is walkable if the kinds that cascade without being
      exclusive have no loop; exclusive kinds never have one. */
  lemma FewEntitiesAreWalkable(w: World)
    requires Inv(w) && |w.alive.Keys| <= MAX_ANCESTOR_WALK
    requires forall k: nat :: Hierarchical(w, k) && !Exclusive(w, k) ==> LoopFree(w, k)
    ensures Walkable(w)
  {
    forall k: nat, path | Hierarchical(w, k) && |path| > 1 && KindPath(w, k, path)
      ensures path[0] != path[|path| - 1] && |path| <= MAX_ANCESTOR_WALK + 1
    {
      if Exclusive(w, k) { ExclusiveIsLoopFree(w, k); }
      PathFits(w, k, path);
    }
  }

  ghost function Emitted(w: World): seq<Edge> {
    EmitAll(w.targets, |w.kinds|)
  }

  /** After n edges: every list is what those edges say. */
  ghost predicate Matches(w: World, n: nat, u: World)
    requires n <= |Emitted(w)|
  {
    && Agree(u) && u.alive == w.alive && u.kinds == w.kinds
    && forall k: nat, j: nat {:trigger Siblings(u, k, j)} :: Siblings(u, k, j) == Listed(Emitted(w), n, k, j)
  }

  // ---- Prefixes of the emission ----------------------------------------------------------------------

  lemma {:induction false} ListedGrows(es: seq<Edge>, m: nat, n: nat, k: nat, j: nat)
    requires m <= n <= |es|
    ensures Listed(es, m, k, j) <= Listed(es, n, k, j)
    decreases n
  {
    if m < n {
      ListedGrows(es, m, n - 1, k, j);
    }
  }

  lemma ListedIsPrefix(w: World, n: nat, k: nat, j: nat)
    requires Agree(w) && n <= |Emitted(w)|
    ensures Listed(Emitted(w), n, k, j) <= Siblings(w, k, j)
  {
    var es := Emitted(w);
    ListedGrows(es, n, |es|, k, j);
    ReadBackOfKinds(w.targets, |w.kinds|, All, k, j);
  }

  lemma PrefixMembers(a: seq<Entity>, b: seq<Entity>, y: Entity)
    requires a <= b && y in a
    ensures y in b
  {
    var i :| 0 <= i < |a| && a[i] == y;
    assert b[i] == y;
  }

  // The n-th edge is one of the world's, and new to the edges before it.
  lemma EdgeIsNew(w: World, n: nat)
    requires Agree(w) && 0 < n <= |Emitted(w)|
    ensures var e := Emitted(w)[n - 1];
            && e.subject in Siblings(w, e.kind, e.target)
            && e.subject !in Listed(Emitted(w), n - 1, e.kind, e.target)
            && Listed(Emitted(w), n, e.kind, e.target) == Listed(Emitted(w), n - 1, e.kind, e.target) + [e.subject]
  {
    var e := Emitted(w)[n - 1];
    var before, list := Listed(Emitted(w), n - 1, e.kind, e.target), Siblings(w, e.kind, e.target);
    ListedIsPrefix(w, n, e.kind, e.target);
    assert before + [e.subject] <= list;
    assert list[|before|] == (before + [e.subject])[|before|] == e.subject;
    assert NoRepeats(list);
    forall i | 0 <= i < |before| ensures before[i] != e.subject {
      assert list[i] == (before + [e.subject])[i];
    }
  }

  lemma EdgeIsKnown(w: World, e: Edge)
    requires Agree(w) && e.subject in Siblings(w, e.kind, e.target)
    ensures e.kind < |w.kinds| && e.target in w.alive
  {
    assert BackwardAt(w, e.kind, e.target, e.subject);
    assert ForwardAt(w, e.subject.index, Pair(e.kind, LiveAt(w, e.target)));
  }

  // ---- One step -----------------------------------------------------------------------------------------

  /** What is restored so far is part of the original. */
  lemma RestoredPairsAreOriginal(w: World, n: nat, u: World, i: nat, p: Pair)
    requires Agree(w) && n <= |Emitted(w)| && Matches(w, n, u) && p in PairsOf(u, i)
    ensures p in PairsOf(w, i)
  {
    assert ForwardAt(u, i, p);
    var s, j := LiveAt(u, i), p.target.index;
    assert Siblings(u, p.kind, j) == Listed(Emitted(w), n, p.kind, j);
    ListedIsPrefix(w, n, p.kind, j);
    PrefixMembers(Siblings(u, p.kind, j), Siblings(w, p.kind, j), s);
    assert BackwardAt(w, p.kind, j, s);
  }

  lemma RestoredPathIsOriginal(w: World, n: nat, u: World, k: nat, path: seq<nat>)
    requires Agree(w) && n <= |Emitted(w)| && Matches(w, n, u) && KindPath(u, k, path)
    ensures KindPath(w, k, path)
  {
    forall m | 0 <= m < |path| - 1 ensures KindEdge(w, k, path[m], path[m + 1]) {
      assert KindEdge(u, k, path[m], path[m + 1]);
      var p :| p in PairsOf(u, path[m]) && p.kind == k && p.target.index == path[m + 1];
      RestoredPairsAreOriginal(w, n, u, path[m], p);
    }
  }

  /** An edge of the original is never rejected on the way back, whichever pairs come first. */
  lemma NothingIsRejected(w: World, n: nat, u: World, first: Parents, s: nat, k: nat, t: nat)
    requires Agree(w) && Walkable(w) && n <= |Emitted(w)| && Matches(w, n, u) && Hierarchical(w, k)
    requires KindEdge(w, k, s, t) && Selects(u, k, first)
    ensures !WalkRejects(first, s, t, 0)
  {
    WalkExactly(first, s, t, 0);
    if m: nat :| m > 0 && Up(first, t, m) == Some(s) {
      var path := WalkPath(u, k, first, t, m);
      RestoredPathIsOriginal(w, n, u, k, path);
      EdgeClosesLoop(w, k, s, t, path);
    }
    if Up(first, t, MAX_ANCESTOR_WALK + 1).Some? {
      var path := WalkPath(u, k, first, t, MAX_ANCESTOR_WALK + 1);
      RestoredPathIsOriginal(w, n, u, k, path);
    }
  }

  lemma EdgeIsAccepted(w: World, n: nat, u: World, e: Edge, rejected: bool)
    requires Agree(w) && Walkable(w) && n <= |Emitted(w)| && Matches(w, n, u)
    requires e.subject in Siblings(w, e.kind, e.target)
    requires e.target in u.alive && CheckAnswers(u, e.subject, e.kind, LiveAt(u, e.target), rejected)
    ensures IsLive(u, e.subject) && e.subject.index != e.target && e.kind < |w.kinds| && !rejected
    ensures Pair(e.kind, LiveAt(w, e.target)) in PairsOf(w, e.subject.index)
  {
    assert BackwardAt(w, e.kind, e.target, e.subject);
    var p := Pair(e.kind, LiveAt(w, e.target));
    assert ForwardAt(w, e.subject.index, p);
    if Hierarchical(w, e.kind) {
      var s := e.subject.index;
      var first: Parents :|
        Selects(u, e.kind, first) && rejected == CheckAlong(u, first, s, e.kind, e.target);
      assert KindEdge(w, e.kind, s, e.target);
      NothingIsRejected(w, n, u, first, s, e.kind, e.target);
    }
  }

  // The world with the next edge linked in at the end of its list.
  ghost function Appended(u: World, e: Edge): World
    requires e.target in u.alive
  {
    Linked(u, e.subject, e.kind, LiveAt(u, e.target), |Siblings(u, e.kind, e.target)|)
  }

  // Nothing stands in the way of linking the edge in.
  ghost predicate CanLink(u: World, e: Edge) {
    && e.target in u.alive && IsLive(u, e.subject) && e.subject.index != e.target && e.kind < |u.kinds|
    && Pair(e.kind, LiveAt(u, e.target)) !in PairsOf(u, e.subject.index)
    && (Exclusive(u, e.kind) ==> !SomeOfKind(PairsOf(u, e.subject.index), e.kind))
  }

  lemma EdgeCanLink(w: World, n: nat, u: World, rejected: bool, e: Edge)
    requires Inv(w) && Walkable(w) && n <= |Emitted(w)| && Matches(w, n, u)
    requires e.subject in Siblings(w, e.kind, e.target) && e.subject !in Listed(Emitted(w), n, e.kind, e.target)
    requires e.target in u.alive && CheckAnswers(u, e.subject, e.kind, LiveAt(u, e.target), rejected)
    ensures CanLink(u, e) && !rejected
  {
    EdgeIsAccepted(w, n, u, e, rejected);
    EdgeIsMissing(w, n, u, e);
  }

  lemma AppendedAgrees(u: World, e: Edge)
    requires Agree(u) && CanLink(u, e)
    ensures Agree(Appended(u, e))
  {
    LinkKeepsAgree(u, e.subject, e.kind, LiveAt(u, e.target), |Siblings(u, e.kind, e.target)|);
  }

  lemma StepRestores(w: World, n: nat, u: World, rejected: bool, v: World)
    requires Inv(w) && Walkable(w) && 0 < n <= |Emitted(w)| && Matches(w, n - 1, u)
    requires Readds(u, Emitted(w)[n - 1], rejected, v)
    ensures Matches(w, n, v)
  {
    var e := Emitted(w)[n - 1];
    assert CanLink(u, e) && !rejected by {
      EdgeIsNew(w, n);
      EdgeCanLink(w, n - 1, u, rejected, e);
    }
    LinkedMatches(w, n, u, v);
  }

  // The next edge, once accepted, takes its place.
  lemma LinkedMatches(w: World, n: nat, u: World, v: World)
    requires Agree(w) && 0 < n <= |Emitted(w)| && Matches(w, n - 1, u)
    requires CanLink(u, Emitted(w)[n - 1]) && Readds(u, Emitted(w)[n - 1], false, v)
    ensures v == Appended(u, Emitted(w)[n - 1]) && Matches(w, n, v)
  {
    ReaddLinks(u, Emitted(w)[n - 1], v);
    AppendedAgrees(u, Emitted(w)[n - 1]);
    AppendedLists(w, n, u, v);
  }

  lemma ReaddLinks(u: World, e: Edge, v: World)
    requires Readds(u, e, false, v) && CanLink(u, e)
    ensures v == Appended(u, e)
  {
  }

  lemma EdgeIsMissing(w: World, n: nat, u: World, e: Edge)
    requires Inv(w) && n <= |Emitted(w)| && Matches(w, n, u) && e.target in u.alive && IsLive(u, e.subject)
    requires Pair(e.kind, LiveAt(w, e.target)) in PairsOf(w, e.subject.index)
    requires e.subject !in Listed(Emitted(w), n, e.kind, e.target)
    ensures Pair(e.kind, LiveAt(u, e.target)) !in PairsOf(u, e.subject.index)
    ensures Exclusive(w, e.kind) ==> !SomeOfKind(PairsOf(u, e.subject.index), e.kind)
  {
    assert e.subject !in Siblings(u, e.kind, e.target);
    PairIffListedOnce(u, e.subject, e.kind, LiveAt(u, e.target));
    if Exclusive(w, e.kind) {
      forall p | p in PairsOf(u, e.subject.index) ensures p.kind != e.kind {
        RestoredPairsAreOriginal(w, n, u, e.subject.index, p);
      }
    }
  }

  lemma AppendedLists(w: World, n: nat, u: World, v: World)
    requires 0 < n <= |Emitted(w)| && Matches(w, n - 1, u) && Emitted(w)[n - 1].target in u.alive
    requires v == Appended(u, Emitted(w)[n - 1])
    ensures forall k: nat, j: nat {:trigger Siblings(v, k, j)} :: Siblings(v, k, j) == Listed(Emitted(w), n, k, j)
  {
    var e := Emitted(w)[n - 1];
    var list := Siblings(u, e.kind, e.target);
    forall k: nat, j: nat ensures Siblings(v, k, j) == Listed(Emitted(w), n, k, j) {
      AddedLists(u.targets, e.kind, e.target, e.subject, |list|, k, j);
      assert Siblings(u, k, j) == Listed(Emitted(w), n - 1, k, j);
      assert InsertedAt(list, |list|, e.subject) == list + [e.subject];
    }
  }

  lemma BareMatches(w: World)
    ensures Matches(w, 0, Bare(w))
  {
    assert forall i: nat :: PairsOf(Bare(w), i) == {};
    assert forall k: nat, j: nat :: Siblings(Bare(w), k, j) == [];
  }

  lemma {:induction false} PrefixRestores(w: World, n: nat, v: World)
    requires Inv(w) && Walkable(w) && n <= |Emitted(w)|
    requires Restored(Bare(w), Emitted(w), n, v)
    ensures Matches(w, n, v)
    decreases n
  {
    if n == 0 {
      BareMatches(w);
    } else {
      var u, rejected :| Restored(Bare(w), Emitted(w), n - 1, u) && Readds(u, Emitted(w)[n - 1], rejected, v);
      PrefixRestores(w, n - 1, u);
      StepRestores(w, n, u, rejected, v);
    }
  }

  // ---- The round trip -------------------------------------------------------------------------------------

  function SumLists(t: Targets, n: nat, j: nat): nat {
    if n == 0 then 0 else SumLists(t, n - 1, j) + |ListOf(t, n - 1, j)|
  }

  lemma {:induction false} TotalIsSum(t: Targets, n: nat, j: nat)
    requires n <= |t.byKind|
    ensures TotalOf(t.byKind[..n], j) == SumLists(t, n, j)
    decreases n
  {
    if n > 0 {
      TotalIsSum(t, n - 1, j);
      assert t.byKind[..n][..n - 1] == t.byKind[..n - 1];
    }
  }

  lemma {:induction false} SumBeyond(t: Targets, n: nat, j: nat)
    requires n >= |t.byKind|
    ensures SumLists(t, n, j) == TotalOf(t.byKind, j)
    decreases n
  {
    if n == |t.byKind| {
      TotalIsSum(t, n, j);
      assert t.byKind[..n] == t.byKind;
    } else {
      SumBeyond(t, n - 1, j);
    }
  }

  lemma {:induction false} SameListsSameSum(t: Targets, u: Targets, n: nat, j: nat)
    requires forall k: nat {:trigger ListOf(t, k, j)} :: ListOf(t, k, j) == ListOf(u, k, j)
    ensures SumLists(t, n, j) == SumLists(u, n, j)
    decreases n
  {
    if n > 0 {
      SameListsSameSum(t, u, n - 1, j);
      assert ListOf(t, n - 1, j) == ListOf(u, n - 1, j);
    }
  }

  lemma SameListsSameCount(t: Targets, u: Targets, j: nat)
    requires TargetsValid(t) && TargetsValid(u)
    requires forall k: nat {:trigger ListOf(t, k, j)} :: ListOf(t, k, j) == ListOf(u, k, j)
    ensures CountOf(t, j) == CountOf(u, j)
  {
    var n := if |t.byKind| > |u.byKind| then |t.byKind| else |u.byKind|;
    SumBeyond(t, n, j);
    SumBeyond(u, n, j);
    SameListsSameSum(t, u, n, j);
  }

  lemma SameListsSamePairs(w: World, v: World, i: nat)
    requires Agree(w) && Agree(v) && v.alive == w.alive
    requires forall k: nat, j: nat {:trigger Siblings(v, k, j)} :: Siblings(v, k, j) == Siblings(w, k, j)
    ensures PairsOf(v, i) <= PairsOf(w, i)
  {
    forall p | p in PairsOf(v, i) ensures p in PairsOf(w, i) {
      assert ForwardAt(v, i, p);
      assert BackwardAt(w, p.kind, p.target.index, LiveAt(v, i));
    }
  }

  // Where every list is what all the edges say, everything is as it was.
  lemma AllMatchedIsSame(w: World, v: World, i: nat, k: nat, j: nat)
    requires Agree(w) && Matches(w, |Emitted(w)|, v)
    ensures Siblings(v, k, j) == Siblings(w, k, j)
    ensures PairsOf(v, i) == PairsOf(w, i)
    ensures CountOf(v.targets, j) == CountOf(w.targets, j)
  {
    forall k': nat, j': nat ensures Siblings(v, k', j') == Siblings(w, k', j') {
      ReadBackOfKinds(w.targets, |w.kinds|, All, k', j');
      if k' >= |w.kinds| { UnknownKindsListNothing(w, k', j'); }
      assert Siblings(v, k', j') == Listed(Emitted(w), |Emitted(w)|, k', j');
    }
    SameListsSamePairs(w, v, i);
    assert forall k': nat, j': nat :: Siblings(w, k', j') == Siblings(v, k', j');
    SameListsSamePairs(v, w, i);
    assert forall k': nat :: ListOf(v.targets, k', j) == Siblings(v, k', j);
    SameListsSameCount(v.targets, w.targets, j);
  }

  /** The round trip: emitting the relations of any reachable walkable world and adding them back in that
      order rebuilds every sibling list in its order, every subject's pairs and every count. */
  lemma RoundTrip(w: World, v: World, i: nat, k: nat, j: nat)
    requires Inv(w) && Walkable(w)
    requires Restored(Bare(w), Emitted(w), |Emitted(w)|, v)
    ensures Siblings(v, k, j) == Siblings(w, k, j)
    ensures PairsOf(v, i) == PairsOf(w, i)
    ensures CountOf(v.targets, j) == CountOf(w.targets, j)
  {
    PrefixRestores(w, |Emitted(w)|, v);
    AllMatchedIsSame(w, v, i, k, j);
  }

  lemma ListedKindIsKnown(w: World, k: nat, j: nat, y: Entity)
    requires Agree(w) && y in Siblings(w, k, j)
    ensures k < |w.kinds|
  {
    assert BackwardAt(w, k, j, y);
    assert ForwardAt(w, y.index, Pair(k, LiveAt(w, j)));
  }

  lemma UnknownKindsListNothing(w: World, k: nat, j: nat)
    requires Agree(w) && k >= |w.kinds|
    ensures Siblings(w, k, j) == []
  {
    var list := Siblings(w, k, j);
    if list != [] {
      assert list[0] in list;
      ListedKindIsKnown(w, k, j, list[0]);
    }
  }
}
