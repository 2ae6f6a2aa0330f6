/** What an entity's death leaves of the relations, and what a cascade takes with it. */
module RelationDeaths {
  import opened EntityPool
  import opened Lists
  import opened RelationStorage
  import opened RelationTargets
  import opened Relations

  function Surviving(pairs: set<Pair>, dead: Entity): set<Pair> {
    set p | p in pairs && p.target != dead
  }

  /** `w'` is `w` without the entity: none of its pairs, none that point at it, and every other list as
      the others saw it. */
  ghost predicate Forgets(w: World, w': World, dead: Entity) {
    && w'.alive == w.alive - {dead.index}
    && w'.kinds == w.kinds
    && TargetsValid(w'.targets)
    && (forall i: nat {:trigger PairsOf(w', i)} ::
          PairsOf(w', i) == if i == dead.index then {} else Surviving(PairsOf(w, i), dead))
    && (forall k: nat, j: nat {:trigger Siblings(w', k, j)} ::
          Siblings(w', k, j) == if j == dead.index then [] else Others(Siblings(w, k, j), dead))
  }

  lemma ForgottenMember(w: World, w': World, dead: Entity, k: nat, j: nat, y: Entity)
    requires Agree(w) && Forgets(w, w', dead)
    ensures y in Siblings(w', k, j) <==> j != dead.index && y != dead && y in Siblings(w, k, j)
    ensures NoRepeats(Siblings(w', k, j))
  {
    var list := Siblings(w, k, j);
    OthersMembers(list, |list|, dead, y);
    assert list[..|list|] == list && NoRepeats(list);
    OthersNoRepeats(list, |list|, dead);
  }

  lemma ForgetKeepsAgree(w: World, w': World, dead: Entity)
    requires Agree(w) && IsLive(w, dead) && Forgets(w, w', dead)
    ensures Agree(w')
  {
    forall i: nat, p | p in PairsOf(w', i) ensures ForwardAt(w', i, p) {
      assert p in PairsOf(w, i);
      ForgottenMember(w, w', dead, p.kind, p.target.index, LiveAt(w, i));
    }
    forall k: nat, j: nat, y | y in Siblings(w', k, j) ensures BackwardAt(w', k, j, y) {
      ForgottenMember(w, w', dead, k, j, y);
      assert y in Siblings(w, k, j);
    }
    forall k: nat, j: nat ensures NoRepeats(Siblings(w', k, j)) {
      ForgottenMember(w, w', dead, k, j, dead);
    }
    forall i: nat, p, q | p in PairsOf(w', i) && q in PairsOf(w', i) && p.kind == q.kind && Exclusive(w', p.kind)
      ensures p == q
    {
      assert p in PairsOf(w, i) && q in PairsOf(w, i);
    }
  }

  // ---- Cascades --------------------------------------------------------------------------------------

  predicate Cascades(w: World, k: nat) {
    k < |w.kinds| && w.kinds[k].cascade
  }

  // Index i has a pair of a cascading kind that points at index j.
  ghost predicate FallsWith(w: World, i: nat, j: nat) {
    exists p :: p in PairsOf(w, i) && Cascades(w, p.kind) && p.target.index == j
  }

  ghost predicate FallPath(w: World, path: seq<nat>, root: nat) {
    && path != [] && path[|path| - 1] == root
    && forall n :: 0 <= n < |path| - 1 ==> FallsWith(w, path[n], path[n + 1])
  }

  /** Index i is the root of a despawn or depends on it through cascading pairs. */
  ghost predicate Falls(w: World, i: nat, root: nat) {
    exists path :: FallPath(w, path, root) && path[0] == i
  }

  lemma RootFalls(w: World, root: nat)
    ensures Falls(w, root, root)
  {
    assert FallPath(w, [root], root) && [root][0] == root;
  }

  lemma FallsThrough(w: World, i: nat, j: nat, root: nat)
    requires FallsWith(w, i, j) && Falls(w, j, root)
    ensures Falls(w, i, root)
  {
    var path :| FallPath(w, path, root) && path[0] == j;
    var longer := [i] + path;
    forall n | 0 <= n < |longer| - 1 ensures FallsWith(w, longer[n], longer[n + 1]) {
      assert longer[n + 1] == path[n] && (n > 0 ==> longer[n] == path[n - 1]);
    }
    assert longer[|longer| - 1] == path[|path| - 1];
    assert FallPath(w, longer, root) && longer[0] == i;
  }

  /** A set that holds the root and every subject that falls with a member holds all that fall. */
  lemma {:induction false} ClosedHoldsFallen(w: World, dead: set<nat>, path: seq<nat>, root: nat)
    requires root in dead && FallPath(w, path, root)
    requires forall i: nat, j: nat {:trigger FallsWith(w, i, j)} :: FallsWith(w, i, j) && j in dead ==> i in dead
    ensures path[0] in dead
    decreases |path|
  {
    if |path| > 1 {
      ClosedHoldsFallen(w, dead, path[1..], root);
      assert FallsWith(w, path[0], path[1]);
    }
  }

  function LivingUpTo(w: World, list: seq<Entity>, n: nat): seq<Entity>
    requires n <= |list|
  {
    if n == 0 then [] else LivingUpTo(w, list, n - 1) + if IsLive(w, list[n - 1]) then [list[n - 1]] else []
  }

  // The live ones of a list, in its order.
  function Living(w: World, list: seq<Entity>): seq<Entity> {
    LivingUpTo(w, list, |list|)
  }

  lemma {:induction false} AllLiving(w: World, list: seq<Entity>, n: nat)
    requires n <= |list| && forall y :: y in list ==> IsLive(w, y)
    ensures LivingUpTo(w, list, n) == list[..n]
    decreases n
  {
    if n > 0 {
      AllLiving(w, list, n - 1);
      assert list[n - 1] in list;
    }
  }

  lemma {:induction false} LivingAfterDeath(w: World, w': World, dead: Entity, list: seq<Entity>, n: nat)
    requires n <= |list| && IsLive(w, dead) && w'.alive == w.alive - {dead.index}
    ensures LivingUpTo(w', list, n) == Others(LivingUpTo(w, list, n), dead)
    decreases n
  {
    if n > 0 {
      var x := list[n - 1];
      LivingAfterDeath(w, w', dead, list, n - 1);
      if IsLive(w, x) {
        var before := LivingUpTo(w, list, n - 1);
        OthersJoins(before, [x], dead);
        assert LivingUpTo(w, list, n) == before + [x];
        assert Others([x], dead) == if x == dead then [] else [x] by {
          assert OthersUpTo([x], 1, dead) == OthersUpTo([x], 0, dead) + if x == dead then [] else [x];
        }
        assert IsLive(w', x) <==> x != dead;
      } else {
        assert LivingUpTo(w, list, n) == LivingUpTo(w, list, n - 1) && !IsLive(w', x);
      }
    }
  }

  /** What is left of a world when the indices outside `w.alive` have died: the survivors' pairs with
      survivors, and of each survivor's lists the survivors, in the order they had. */
  ghost predicate Remains(w0: World, w: World) {
    && w.alive.Keys <= w0.alive.Keys && (forall i :: i in w.alive ==> w.alive[i] == w0.alive[i])
    && w.kinds == w0.kinds
    && (forall i: nat {:trigger PairsOf(w, i)} :: i in w.alive ==>
          PairsOf(w, i) == set p | p in PairsOf(w0, i) && p.target.index in w.alive)
    && forall k: nat, j: nat {:trigger Siblings(w, k, j)} ::
         Siblings(w, k, j) == if j in w.alive then Living(w, Siblings(w0, k, j)) else []
  }

  lemma AllRemains(w: World)
    requires Agree(w)
    ensures Remains(w, w)
  {
    forall i: nat ensures PairsOf(w, i) == set p | p in PairsOf(w, i) && p.target.index in w.alive {
      assert forall p :: p in PairsOf(w, i) ==> ForwardAt(w, i, p);
    }
    forall k: nat, j: nat ensures Siblings(w, k, j) == if j in w.alive then Living(w, Siblings(w, k, j)) else [] {
      var list := Siblings(w, k, j);
      assert forall y :: y in list ==> BackwardAt(w, k, j, y);
      if list != [] { assert list[0] in list; }
      AllLiving(w, list, |list|);
      assert list[..|list|] == list;
    }
  }

  lemma ForgetRemains(w0: World, w: World, w': World, dead: Entity)
    requires Agree(w) && Remains(w0, w) && IsLive(w, dead) && Forgets(w, w', dead)
    ensures Remains(w0, w')
  {
    forall i: nat | i in w'.alive
      ensures PairsOf(w', i) == set p | p in PairsOf(w0, i) && p.target.index in w'.alive
    {
      assert PairsOf(w', i) == Surviving(PairsOf(w, i), dead);
      forall p | p in PairsOf(w, i) ensures p.target != dead <==> p.target.index != dead.index {
        assert ForwardAt(w, i, p);
      }
    }
    forall k: nat, j: nat
      ensures Siblings(w', k, j) == if j in w'.alive then Living(w', Siblings(w0, k, j)) else []
    {
      var list := Siblings(w0, k, j);
      assert Siblings(w, k, j) == if j in w.alive then Living(w, list) else [];
      LivingAfterDeath(w, w', dead, list, |list|);
    }
  }

  /** A subject that falls with a live entity and is itself alive is still listed under it. */
  lemma FallenIsListed(w0: World, w: World, i: nat, j: nat)
    requires Agree(w) && Remains(w0, w) && FallsWith(w0, i, j) && i in w.alive && j in w.alive
    ensures exists k :: Cascades(w, k) && LiveAt(w, i) in Siblings(w, k, j)
  {
    var p :| p in PairsOf(w0, i) && Cascades(w0, p.kind) && p.target.index == j;
    assert p in PairsOf(w, i);
    assert ForwardAt(w, i, p);
  }

  lemma ListedFalls(w0: World, w: World, k: nat, j: nat, s: Entity)
    requires Agree(w) && Remains(w0, w) && Cascades(w, k) && s in Siblings(w, k, j)
    ensures FallsWith(w0, s.index, j) && s.index in w.alive
  {
    assert BackwardAt(w, k, j, s);
    assert Pair(k, LiveAt(w, j)) in PairsOf(w, s.index);
    assert Pair(k, LiveAt(w, j)) in PairsOf(w0, s.index);
  }

  /** Who falls directly with an entity: exactly the subjects it lists under kinds that cascade. */
  lemma FallsWithExactly(w: World, i: nat, j: nat)
    requires Agree(w) && i in w.alive
    ensures FallsWith(w, i, j) <==>
              exists k: nat :: k < |w.kinds| && w.kinds[k].cascade && LiveAt(w, i) in Siblings(w, k, j)
  {
    if FallsWith(w, i, j) {
      var p :| p in PairsOf(w, i) && Cascades(w, p.kind) && p.target.index == j;
      assert ForwardAt(w, i, p);
    }
    if k: nat :| k < |w.kinds| && w.kinds[k].cascade && LiveAt(w, i) in Siblings(w, k, j) {
      assert BackwardAt(w, k, j, LiveAt(w, i));
      assert Pair(k, LiveAt(w, j)) in PairsOf(w, i);
    }
  }
}
