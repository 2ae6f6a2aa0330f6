/** Kinds that cascade without being exclusive: a subject may have several targets, and the cycle check
    looks at the first of them only.
  */
module RelationCascades {
  import opened Basics
  import opened EntityPool
  import opened Forests
  import opened RelationStorage
  import opened RelationTargets
  import opened Relations
  import opened RelationForest
  import opened RelationRuns

  ghost predicate KindPath(w: World, k: nat, path: seq<nat>) {
    forall n :: 0 <= n < |path| - 1 ==> KindEdge(w, k, path[n], path[n + 1])
  }

  ghost predicate Leads(w: World, k: nat, path: seq<nat>, i: nat, j: nat) {
    |path| > 1 && KindPath(w, k, path) && path[0] == i && path[|path| - 1] == j
  }

  /** From i some edges of the kind lead to j. */
  ghost predicate Climbs(w: World, k: nat, i: nat, j: nat) {
    exists path :: Leads(w, k, path, i, j)
  }

  ghost predicate LoopFree(w: World, k: nat) {
    forall path {:trigger KindPath(w, k, path)} ::
      |path| > 1 && KindPath(w, k, path) ==> path[0] != path[|path| - 1]
  }

  // ---- Paths ---------------------------------------------------------------------------------------------

  lemma PathsJoin(w: World, k: nat, a: seq<nat>, b: seq<nat>)
    requires KindPath(w, k, a) && KindPath(w, k, b) && a != [] && b != [] && a[|a| - 1] == b[0]
    ensures KindPath(w, k, a + b[1..])
  {
    var all := a + b[1..];
    forall n | 0 <= n < |all| - 1 ensures KindEdge(w, k, all[n], all[n + 1]) {
      if n + 1 < |a| {
        assert KindEdge(w, k, a[n], a[n + 1]);
      } else {
        var m := n + 1 - |a|;
        assert all[n] == b[m] && all[n + 1] == b[m + 1];
      }
    }
  }

  lemma PathPart(w: World, k: nat, path: seq<nat>, lo: nat, hi: nat)
    requires KindPath(w, k, path) && lo <= hi <= |path|
    ensures KindPath(w, k, path[lo..hi])
  {
    var part := path[lo..hi];
    forall n | 0 <= n < |part| - 1 ensures KindEdge(w, k, part[n], part[n + 1]) {
      assert KindEdge(w, k, path[lo + n], path[lo + n + 1]);
    }
  }

  // The walk along first pairs is a path.
  lemma {:induction false} WalkPath(w: World, k: nat, first: Parents, t: nat, n: nat) returns (path: seq<nat>)
    requires Selects(w, k, first) && Up(first, t, n).Some?
    ensures |path| == n + 1 && KindPath(w, k, path) && path[0] == t && path[n] == Up(first, t, n).value
    decreases n
  {
    if n == 0 {
      path := [t];
    } else {
      var j := first(t).value;
      assert SelectsAt(w, k, t, first(t));
      var rest := WalkPath(w, k, first, j, n - 1);
      PathsJoin(w, k, [t, j], rest);
      path := [t, j] + rest[1..];
    }
  }

  lemma {:induction false} DistinctFit(path: seq<nat>, nodes: set<nat>)
    requires forall i, j :: 0 <= i < j < |path| ==> path[i] != path[j]
    requires forall i :: 0 <= i < |path| ==> path[i] in nodes
    ensures |path| <= |nodes|
    decreases |path|
  {
    if path != [] {
      var n := |path| - 1;
      DistinctFit(path[..n], nodes - {path[n]});
    }
  }

  lemma PathHasNoRepeats(w: World, k: nat, path: seq<nat>)
    requires LoopFree(w, k) && KindPath(w, k, path)
    ensures forall i, j :: 0 <= i < j < |path| ==> path[i] != path[j]
  {
    forall i, j | 0 <= i < j < |path| ensures path[i] != path[j] {
      PathPart(w, k, path, i, j + 1);
      assert path[i..j + 1][0] == path[i] && path[i..j + 1][j - i] == path[j];
    }
  }

  // Where the kind has no loop, a path is no longer than there are entities.
  lemma PathFits(w: World, k: nat, path: seq<nat>)
    requires Agree(w) && LoopFree(w, k) && KindPath(w, k, path) && |path| > 1
    ensures |path| <= |w.alive.Keys|
  {
    PathHasNoRepeats(w, k, path);
    forall i | 0 <= i < |path| ensures path[i] in w.alive.Keys {
      var n := if i < |path| - 1 then i else i - 1;
      assert KindEdge(w, k, path[n], path[n + 1]);
      var p :| p in PairsOf(w, path[n]) && p.kind == k && p.target.index == path[n + 1];
      assert ForwardAt(w, path[n], p);
    }
    DistinctFit(path, w.alive.Keys);
  }

  lemma ClimbedIsCounted(w: World, k: nat, i: nat, j: nat)
    requires Agree(w) && Climbs(w, k, i, j)
    ensures CountOf(w.targets, j) > 0
  {
    var path :| Leads(w, k, path, i, j);
    var n := |path| - 2;
    assert KindEdge(w, k, path[n], path[n + 1]);
    var p :| p in PairsOf(w, path[n]) && p.kind == k && p.target.index == j;
    assert ForwardAt(w, path[n], p);
    CountCoversList(w.targets, k, j);
  }

  // ---- Loops -----------------------------------------------------------------------------------------------

  lemma {:induction false} ForestPathIsWalk(w: World, k: nat, path: seq<nat>)
    requires Agree(w) && Exclusive(w, k) && KindPath(w, k, path) && path != []
    ensures Up(ParentsOf(w, k), path[0], |path| - 1) == Some(path[|path| - 1])
    decreases |path|
  {
    if |path| > 1 {
      assert KindEdge(w, k, path[0], path[1]);
      ParentIsEdge(w, k, path[0], path[1]);
      PathPart(w, k, path, 1, |path|);
      ForestPathIsWalk(w, k, path[1..]);
    }
  }

  /** An exclusive kind has no loop in any reachable state. */
  lemma ExclusiveIsLoopFree(w: World, k: nat)
    requires Inv(w) && Exclusive(w, k)
    ensures LoopFree(w, k)
  {
    forall path | |path| > 1 && KindPath(w, k, path) ensures path[0] != path[|path| - 1] {
      ForestPathIsWalk(w, k, path);
      assert Acyclic(ParentsOf(w, k));
    }
  }

  lemma EdgeClosesLoop(w: World, k: nat, s: nat, t: nat, path: seq<nat>)
    requires KindEdge(w, k, s, t) && path != [] && KindPath(w, k, path) && path[0] == t && path[|path| - 1] == s
    ensures !LoopFree(w, k)
  {
    PathsJoin(w, k, [s, t], path);
    var loop := [s, t] + path[1..];
    assert loop[0] == loop[|loop| - 1];
  }

  // Where the last use of the edge s -> t in a path starts, or the path's length.
  lemma {:induction false} LastUse(path: seq<nat>, s: nat, t: nat) returns (n: nat)
    ensures n <= |path|
    ensures n < |path| ==> n + 1 < |path| && path[n] == s && path[n + 1] == t
    ensures forall m :: 0 <= m < |path| - 1 && path[m] == s && path[m + 1] == t ==> n < |path| && m <= n
    decreases |path|
  {
    if |path| < 2 { return |path|; }
    if path[|path| - 2] == s && path[|path| - 1] == t { return |path| - 2; }
    var shorter := path[..|path| - 1];
    n := LastUse(shorter, s, t);
    if n == |shorter| { n := |path|; }
  }

  lemma {:induction false} FirstUse(path: seq<nat>, s: nat, t: nat, some: nat) returns (n: nat)
    requires some + 1 < |path| && path[some] == s && path[some + 1] == t
    ensures n <= some && path[n] == s && path[n + 1] == t
    ensures forall m :: 0 <= m < n ==> !(path[m] == s && path[m + 1] == t)
    decreases some
  {
    if m :| 0 <= m < some && path[m] == s && path[m + 1] == t {
      n := FirstUse(path, s, t, m);
    } else {
      n := some;
    }
  }

  // One more edge of the kind, and no other.
  ghost predicate OneMoreEdge(w: World, w': World, k: nat, s: nat, t: nat) {
    forall i: nat, j: nat {:trigger KindEdge(w', k, i, j)} ::
      KindEdge(w', k, i, j) <==> KindEdge(w, k, i, j) || (i == s && j == t)
  }

  lemma LinkedEdges(w: World, s: Entity, k: nat, t: Entity, index: nat)
    ensures OneMoreEdge(w, Linked(w, s, k, t, index), k, s.index, t.index)
  {
    var w' := Linked(w, s, k, t, index);
    assert Pair(k, t) in PairsOf(w', s.index);
    forall i: nat, j: nat
      ensures KindEdge(w', k, i, j) <==> KindEdge(w, k, i, j) || (i == s.index && j == t.index)
    {
      assert forall p :: p in PairsOf(w, i) ==> p in PairsOf(w', i);
      assert forall p :: p in PairsOf(w', i) ==> p in PairsOf(w, i) || (i == s.index && p == Pair(k, t));
    }
  }

  lemma PathWithoutEdge(w: World, w': World, k: nat, s: nat, t: nat, path: seq<nat>)
    requires OneMoreEdge(w, w', k, s, t) && KindPath(w', k, path)
    requires forall m :: 0 <= m < |path| - 1 ==> !(path[m] == s && path[m + 1] == t)
    ensures KindPath(w, k, path)
  {
    forall n | 0 <= n < |path| - 1 ensures KindEdge(w, k, path[n], path[n + 1]) {
      assert KindEdge(w', k, path[n], path[n + 1]);
    }
  }

  lemma LoopUsesNewEdge(w: World, w': World, k: nat, s: nat, t: nat, path: seq<nat>)
    requires OneMoreEdge(w, w', k, s, t) && LoopFree(w, k) && s != t
    requires |path| > 1 && KindPath(w', k, path) && path[0] == path[|path| - 1]
    ensures Climbs(w, k, t, s)
  {
    var last := LastUse(path, s, t);
    if last == |path| {
      PathWithoutEdge(w, w', k, s, t, path);
    } else {
      var early := FirstUse(path, s, t, last);
      var up, down := path[last + 1..], path[..early + 1];
      PathPart(w', k, path, last + 1, |path|);
      PathPart(w', k, path, 0, early + 1);
      forall m | 0 <= m < |up| - 1 ensures !(up[m] == s && up[m + 1] == t) {
        assert up[m] == path[last + 1 + m] && up[m + 1] == path[last + 2 + m];
      }
      PathWithoutEdge(w, w', k, s, t, up);
      PathWithoutEdge(w, w', k, s, t, down);
      PathsJoin(w, k, up, down);
      var whole := up + down[1..];
      assert whole[0] == t && whole[|whole| - 1] == s;
      assert Leads(w, k, whole, t, s);
    }
  }

  /** An edge closes a loop if and only if its target already leads to its subject. */
  lemma LinkClosesLoopExactly(w: World, s: Entity, k: nat, t: Entity, index: nat)
    requires LoopFree(w, k) && s.index != t.index
    ensures LoopFree(Linked(w, s, k, t, index), k) <==> !Climbs(w, k, t.index, s.index)
  {
    var w' := Linked(w, s, k, t, index);
    LinkedEdges(w, s, k, t, index);
    if Climbs(w, k, t.index, s.index) {
      var path :| Leads(w, k, path, t.index, s.index);
      assert KindPath(w', k, path);
      assert KindEdge(w', k, s.index, t.index);
      EdgeClosesLoop(w', k, s.index, t.index, path);
    } else {
      forall path | |path| > 1 && KindPath(w', k, path) ensures path[0] != path[|path| - 1] {
        if path[0] == path[|path| - 1] { LoopUsesNewEdge(w, w', k, s.index, t.index, path); }
      }
    }
  }

  // ---- When the check is exact ---------------------------------------------------------------------------

  /** Every target of the kind that an index on the walk has, lies on the walk. */
  ghost predicate WalkHasAll(w: World, k: nat, first: Parents, t: nat) {
    forall n: nat, j: nat {:trigger Up(first, t, n), KindEdge(w, k, Up(first, t, n).value, j)} ::
      Up(first, t, n).Some? && KindEdge(w, k, Up(first, t, n).value, j) ==> Above(first, t, j)
  }

  // Whatever the subject, the check answers whether the target leads to it.
  ghost predicate CheckIsExact(w: World, k: nat, first: Parents, t: nat) {
    forall s: nat {:trigger CheckAlong(w, first, s, k, t)} ::
      CheckAlong(w, first, s, k, t) <==> Climbs(w, k, t, s)
  }

  lemma AboveIsClimbed(w: World, k: nat, first: Parents, t: nat, s: nat, n: nat)
    requires Agree(w) && LoopFree(w, k) && Selects(w, k, first) && n > 0 && Up(first, t, n) == Some(s)
    ensures Climbs(w, k, t, s) && n < |w.alive.Keys|
  {
    var path := WalkPath(w, k, first, t, n);
    PathFits(w, k, path);
    assert Leads(w, k, path, t, s);
  }

  /** With at most 2^20 entities and no loop, a walk rejects exactly the ancestors on it. */
  lemma WalkRejectsAbove(w: World, k: nat, first: Parents, s: nat, t: nat)
    requires Agree(w) && LoopFree(w, k) && Selects(w, k, first) && |w.alive.Keys| <= MAX_ANCESTOR_WALK
    ensures WalkRejects(first, s, t, 0) <==> Above(first, t, s)
  {
    WalkExactly(first, s, t, 0);
    if Up(first, t, MAX_ANCESTOR_WALK + 1).Some? {
      AboveIsClimbed(w, k, first, t, Up(first, t, MAX_ANCESTOR_WALK + 1).value, MAX_ANCESTOR_WALK + 1);
    }
    if n: nat :| n > 0 && Up(first, t, n) == Some(s) {
      AboveIsClimbed(w, k, first, t, s, n);
      assert MeetsWithin(first, t, s, MAX_ANCESTOR_WALK + 1);
    }
  }

  lemma {:induction false} ClimbedIsAbove(w: World, k: nat, first: Parents, t: nat, path: seq<nat>, m: nat)
    requires WalkHasAll(w, k, first, t) && KindPath(w, k, path) && 0 < m < |path| && path[0] == t
    ensures Above(first, t, path[m])
    decreases m
  {
    assert KindEdge(w, k, path[m - 1], path[m]);
    if m == 1 {
      assert Up(first, t, 0) == Some(path[0]);
    } else {
      ClimbedIsAbove(w, k, first, t, path, m - 1);
      var n: nat :| n > 0 && Up(first, t, n) == Some(path[m - 1]);
      assert KindEdge(w, k, Up(first, t, n).value, path[m]);
    }
  }

  lemma CheckIsAbove(w: World, k: nat, first: Parents, s: nat, t: nat)
    requires Agree(w) && Hierarchical(w, k) && LoopFree(w, k) && Selects(w, k, first)
    requires |w.alive.Keys| <= MAX_ANCESTOR_WALK
    ensures CheckAlong(w, first, s, k, t) <==> Above(first, t, s)
    ensures Above(first, t, s) ==> Climbs(w, k, t, s)
  {
    WalkRejectsAbove(w, k, first, s, t);
    if n: nat :| n > 0 && Up(first, t, n) == Some(s) {
      AboveIsClimbed(w, k, first, t, s, n);
      ClimbedIsCounted(w, k, t, s);
    }
  }

  /** The check is exact for a target, whatever the subject, if and only if the walk up from it along first
      pairs comes past every target of the kind that the indexes on it have. */
  lemma CheckExactly(w: World, k: nat, first: Parents, t: nat)
    requires Agree(w) && Hierarchical(w, k) && LoopFree(w, k) && Selects(w, k, first)
    requires |w.alive.Keys| <= MAX_ANCESTOR_WALK
    ensures CheckIsExact(w, k, first, t) <==> WalkHasAll(w, k, first, t)
  {
    if WalkHasAll(w, k, first, t) {
      forall s: nat ensures CheckAlong(w, first, s, k, t) <==> Climbs(w, k, t, s) {
        CheckIsAbove(w, k, first, s, t);
        if Climbs(w, k, t, s) {
          var path :| Leads(w, k, path, t, s);
          ClimbedIsAbove(w, k, first, t, path, |path| - 1);
        }
      }
    }
    if CheckIsExact(w, k, first, t) {
      forall n: nat, j: nat | Up(first, t, n).Some? && KindEdge(w, k, Up(first, t, n).value, j)
        ensures Above(first, t, j)
      {
        var path := WalkPath(w, k, first, t, n);
        PathsJoin(w, k, path, [path[n], j]);
        assert Leads(w, k, path + [path[n], j][1..], t, j);
        CheckIsAbove(w, k, first, j, t);
        assert CheckAlong(w, first, j, k, t);
      }
    }
  }

  // No index has two targets of the kind.
  ghost predicate OneEach(w: World, k: nat) {
    forall i: nat, a: nat, b: nat {:trigger KindEdge(w, k, i, a), KindEdge(w, k, i, b)} ::
      KindEdge(w, k, i, a) && KindEdge(w, k, i, b) ==> a == b
  }

  /** So it is where no index has two targets of the kind. */
  lemma OneEachIsExact(w: World, k: nat, first: Parents, t: nat)
    requires Agree(w) && Hierarchical(w, k) && LoopFree(w, k) && Selects(w, k, first)
    requires |w.alive.Keys| <= MAX_ANCESTOR_WALK && OneEach(w, k)
    ensures CheckIsExact(w, k, first, t)
  {
    forall n: nat, j: nat | Up(first, t, n).Some? && KindEdge(w, k, Up(first, t, n).value, j)
      ensures Above(first, t, j)
    {
      var i := Up(first, t, n).value;
      assert SelectsAt(w, k, i, first(i));
      assert first(i).Some? by {
        var p :| p in PairsOf(w, i) && p.kind == k && p.target.index == j;
      }
      assert KindEdge(w, k, i, first(i).value);
      assert Up(first, i, 1) == Up(first, j, 0);
      UpAdds(first, t, n, 1);
      assert Up(first, t, n + 1) == Some(j);
    }
    CheckExactly(w, k, first, t);
  }

  /** A loop in the making is rejected, for a kind that is exclusive or cascades, where no index has two targets of
      the kind; and nothing else is. */
  lemma CycleIsRejectedExactly(w: World, s: nat, k: nat, t: nat, rejected: bool)
    requires Agree(w) && k < |w.kinds| && (w.kinds[k].exclusive || w.kinds[k].cascade)
    requires LoopFree(w, k) && OneEach(w, k) && |w.alive.Keys| <= MAX_ANCESTOR_WALK
    requires CycleCheck(w, s, k, t, rejected)
    ensures rejected <==> Climbs(w, k, t, s)
  {
    var first: Parents :| Selects(w, k, first) && rejected == CheckAlong(w, first, s, k, t);
    OneEachIsExact(w, k, first, t);
  }
}
