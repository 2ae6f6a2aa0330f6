/** Relations of a world: the two indexes as two views of one edge set. */
module Relations {
  import opened Basics
  import opened EntityPool
  import opened Forests
  import opened Lists
  import opened RelationStorage
  import opened RelationSubjects
  import opened RelationTargets

  datatype Kind = Kind(exclusive: bool, cascade: bool)

  /** Which index is alive in which generation, the registered kinds, and the two indexes. */
  datatype World = World(alive: map<nat, nat>, kinds: seq<Kind>, pairs: Pairs, targets: Targets)

  const EMPTY_WORLD: World := World(map[], [], [], NO_TARGETS)

  predicate IsLive(w: World, e: Entity) {
    e.index in w.alive && w.alive[e.index] == e.generation
  }

  // The live entity of an index.
  function LiveAt(w: World, i: nat): Entity
    requires i in w.alive
  {
    Entity(i, w.alive[i])
  }

  predicate Exclusive(w: World, k: nat) {
    k < |w.kinds| && w.kinds[k].exclusive
  }

  predicate Hierarchical(w: World, k: nat) {
    k < |w.kinds| && (w.kinds[k].exclusive || w.kinds[k].cascade)
  }

  function PairsOf(w: World, i: nat): set<Pair> {
    PairsAt(w.pairs, i)
  }

  function Siblings(w: World, k: nat, j: nat): seq<Entity> {
    ListOf(w.targets, k, j)
  }

  // ---- The two views agree ---------------------------------------------------------------------------

  predicate ForwardAt(w: World, i: nat, p: Pair) {
    && i in w.alive && IsLive(w, p.target) && p.target.index != i && p.kind < |w.kinds|
    && LiveAt(w, i) in Siblings(w, p.kind, p.target.index)
  }

  /** A pair in a subject's storage is between live entities and listed under its target. */
  ghost predicate Forward(w: World) {
    forall i: nat, p {:trigger p in PairsOf(w, i)} :: p in PairsOf(w, i) ==> ForwardAt(w, i, p)
  }

  predicate BackwardAt(w: World, k: nat, j: nat, s: Entity) {
    IsLive(w, s) && j in w.alive && Pair(k, LiveAt(w, j)) in PairsOf(w, s.index)
  }

  /** A listed subject is live, as is the target, and has the pair in its storage. */
  ghost predicate Backward(w: World) {
    forall k: nat, j: nat, s {:trigger s in Siblings(w, k, j)} :: s in Siblings(w, k, j) ==> BackwardAt(w, k, j, s)
  }

  ghost predicate ListedOnce(w: World) {
    forall k: nat, j: nat {:trigger Siblings(w, k, j)} :: NoRepeats(Siblings(w, k, j))
  }

  ghost predicate OneTarget(w: World) {
    forall i: nat, p, q {:trigger p in PairsOf(w, i), q in PairsOf(w, i)} ::
      p in PairsOf(w, i) && q in PairsOf(w, i) && p.kind == q.kind && Exclusive(w, p.kind) ==> p == q
  }

  ghost predicate Agree(w: World) {
    TargetsValid(w.targets) && Forward(w) && Backward(w) && ListedOnce(w) && OneTarget(w)
  }

  /** The dual-index law: a live subject has a pair exactly when it occurs in the target's list, and then
      once. */
  lemma PairIffListedOnce(w: World, s: Entity, k: nat, t: Entity)
    requires Agree(w) && IsLive(w, s) && IsLive(w, t)
    ensures Pair(k, t) in PairsOf(w, s.index) <==> s in Siblings(w, k, t.index)
    ensures multiset(Siblings(w, k, t.index))[s] == if Pair(k, t) in PairsOf(w, s.index) then 1 else 0
  {
    OccursOnce(Siblings(w, k, t.index), s);
  }

  lemma {:induction false} OccursOnce(list: seq<Entity>, s: Entity)
    requires NoRepeats(list)
    ensures multiset(list)[s] == if s in list then 1 else 0
    decreases |list|
  {
    if list != [] {
      var n := |list| - 1;
      OccursOnce(list[..n], s);
      assert list == list[..n] + [list[n]];
    }
  }

  // ---- One edge ---------------------------------------------------------------------------------------

  function Linked(w: World, s: Entity, k: nat, t: Entity, index: nat): World {
    w.(pairs := Inserted(w.pairs, s.index, Pair(k, t)), targets := AddedAt(w.targets, k, t.index, s, index))
  }

  function Unlinked(w: World, s: Entity, k: nat, t: Entity): World {
    w.(pairs := Removed(w.pairs, s.index, Pair(k, t)), targets := Dropped(w.targets, k, t.index, s))
  }

  lemma LinkedMember(w: World, s: Entity, k: nat, t: Entity, index: nat, k': nat, j: nat, y: Entity)
    ensures y in Siblings(Linked(w, s, k, t, index), k', j) <==>
            (k' == k && j == t.index && y == s) || y in Siblings(w, k', j)
  {
    AddedLists(w.targets, k, t.index, s, index, k', j);
    var list := Siblings(w, k, t.index);
    InsertMembers(list, Min(index, |list|), s, y);
  }

  lemma LinkKeepsForward(w: World, s: Entity, k: nat, t: Entity, index: nat)
    requires Agree(w) && IsLive(w, s) && IsLive(w, t) && s.index != t.index && k < |w.kinds|
    ensures Forward(Linked(w, s, k, t, index))
  {
    var w' := Linked(w, s, k, t, index);
    forall i: nat, p | p in PairsOf(w', i) ensures ForwardAt(w', i, p) {
      assert p in PairsOf(w, i) || (i == s.index && p == Pair(k, t));
      LinkedMember(w, s, k, t, index, p.kind, p.target.index, LiveAt(w, i));
    }
  }

  lemma LinkKeepsBackward(w: World, s: Entity, k: nat, t: Entity, index: nat)
    requires Agree(w) && IsLive(w, s) && IsLive(w, t)
    ensures Backward(Linked(w, s, k, t, index))
  {
    var w' := Linked(w, s, k, t, index);
    forall k': nat, j: nat, y | y in Siblings(w', k', j) ensures BackwardAt(w', k', j, y) {
      LinkedMember(w, s, k, t, index, k', j, y);
      assert y in Siblings(w, k', j) ==> Pair(k', LiveAt(w, j)) in PairsOf(w, y.index);
    }
  }

  lemma LinkKeepsOneTarget(w: World, s: Entity, k: nat, t: Entity, index: nat)
    requires OneTarget(w) && (Exclusive(w, k) ==> !SomeOfKind(PairsOf(w, s.index), k))
    ensures OneTarget(Linked(w, s, k, t, index))
  {
    var w' := Linked(w, s, k, t, index);
    forall i: nat, p, q | p in PairsOf(w', i) && q in PairsOf(w', i) && p.kind == q.kind && Exclusive(w', p.kind)
      ensures p == q
    {
      assert p in PairsOf(w, i) || (i == s.index && p == Pair(k, t));
      assert q in PairsOf(w, i) || (i == s.index && q == Pair(k, t));
    }
  }

  lemma LinkKeepsAgree(w: World, s: Entity, k: nat, t: Entity, index: nat)
    requires Agree(w) && IsLive(w, s) && IsLive(w, t) && s.index != t.index && k < |w.kinds|
    requires Pair(k, t) !in PairsOf(w, s.index)
    requires Exclusive(w, k) ==> !SomeOfKind(PairsOf(w, s.index), k)
    ensures Agree(Linked(w, s, k, t, index))
  {
    var w', list := Linked(w, s, k, t, index), Siblings(w, k, t.index);
    AddedKeepsValid(w.targets, k, t.index, s, index);
    LinkKeepsForward(w, s, k, t, index);
    LinkKeepsBackward(w, s, k, t, index);
    PairIffListedOnce(w, s, k, t);
    forall k': nat, j: nat ensures NoRepeats(Siblings(w', k', j)) {
      AddedLists(w.targets, k, t.index, s, index, k', j);
      InsertNoRepeats(list, Min(index, |list|), s);
      assert NoRepeats(Siblings(w, k', j));
    }
    LinkKeepsOneTarget(w, s, k, t, index);
  }

  lemma UnlinkedMember(w: World, s: Entity, k: nat, t: Entity, k': nat, j: nat, y: Entity)
    requires TargetsValid(w.targets) && ListedOnce(w)
    ensures y in Siblings(Unlinked(w, s, k, t), k', j) <==>
            !(k' == k && j == t.index && y == s) && y in Siblings(w, k', j)
    ensures NoRepeats(Siblings(Unlinked(w, s, k, t), k', j))
  {
    DroppedLists(w.targets, k, t.index, s, k', j);
    var list := Siblings(w, k, t.index);
    assert NoRepeats(Siblings(w, k', j));
    if s in list {
      RemoveMembers(list, FirstAt(list, s), y);
    }
  }

  lemma UnlinkKeepsAgree(w: World, s: Entity, k: nat, t: Entity)
    requires Agree(w) && IsLive(w, s) && Pair(k, t) in PairsOf(w, s.index)
    ensures Agree(Unlinked(w, s, k, t))
  {
    var w' := Unlinked(w, s, k, t);
    DroppedKeepsValid(w.targets, k, t.index, s);
    forall i: nat, p | p in PairsOf(w', i) ensures ForwardAt(w', i, p) {
      assert p in PairsOf(w, i);
      UnlinkedMember(w, s, k, t, p.kind, p.target.index, LiveAt(w, i));
    }
    forall k': nat, j: nat, y | y in Siblings(w', k', j) ensures BackwardAt(w', k', j, y) {
      UnlinkedMember(w, s, k, t, k', j, y);
      assert y in Siblings(w, k', j);
    }
    forall k': nat, j: nat ensures NoRepeats(Siblings(w', k', j)) {
      UnlinkedMember(w, s, k, t, k', j, s);
    }
    assert forall i: nat, p :: p in PairsOf(w', i) ==> p in PairsOf(w, i);
  }

  // ---- Adding -------------------------------------------------------------------------------------------

  const MAX_ANCESTOR_WALK: nat := 0x10_0000

  // A subject's pair of a kind; the pair, where the kind is exclusive.
  ghost function PairOfKind(w: World, i: nat, k: nat): Pair
    requires SomeOfKind(PairsOf(w, i), k)
  {
    var p :| p in PairsOf(w, i) && p.kind == k; p
  }

  ghost function ParentOf(w: World, i: nat, k: nat): Option<nat> {
    if SomeOfKind(PairsOf(w, i), k) then Some(PairOfKind(w, i, k).target.index) else None
  }

  lemma TheOnlyPair(w: World, i: nat, k: nat, p: Pair)
    requires Agree(w) && Exclusive(w, k) && p in PairsOf(w, i) && p.kind == k
    ensures PairOfKind(w, i, k) == p && ParentOf(w, i, k) == Some(p.target.index)
  {
    assert PairOfKind(w, i, k) in PairsOf(w, i);
  }

  /** The ancestor walk from `cur`, already `depth` steps up: true when it meets `s` or goes too far. */
  ghost predicate WalkRejects(first: Parents, s: nat, cur: nat, depth: nat)
    requires depth <= MAX_ANCESTOR_WALK
    decreases MAX_ANCESTOR_WALK - depth
  {
    match first(cur)
    case None => false
    case Some(parent) =>
      parent == s || depth + 1 > MAX_ANCESTOR_WALK || WalkRejects(first, s, parent, depth + 1)
  }

  ghost predicate KindEdge(w: World, k: nat, i: nat, j: nat) {
    exists p :: p in PairsOf(w, i) && p.kind == k && p.target.index == j
  }

  ghost predicate SelectsAt(w: World, k: nat, i: nat, first: Option<nat>) {
    match first
    case None => !SomeOfKind(PairsOf(w, i), k)
    case Some(j) => KindEdge(w, k, i, j)
  }

  /** Which pair of a kind comes first, where a subject has several, is up to its storage. */
  ghost predicate Selects(w: World, k: nat, first: Parents) {
    forall i: nat {:trigger first(i)} :: SelectsAt(w, k, i, first(i))
  }

  /** For a kind that is exclusive or cascades, and a subject that is somebody's target, the walk along the
      first pairs decides. */
  ghost predicate CheckAlong(w: World, first: Parents, s: nat, k: nat, t: nat) {
    Hierarchical(w, k) && CountOf(w.targets, s) > 0 && WalkRejects(first, s, t, 0)
  }

  ghost predicate CycleCheck(w: World, s: nat, k: nat, t: nat, rejected: bool) {
    exists first: Parents {:trigger Selects(w, k, first)} ::
      Selects(w, k, first) && rejected == CheckAlong(w, first, s, k, t)
  }

  // Both ends live, and not the same entity.
  predicate CanAdd(w: World, s: Entity, t: Entity) {
    IsLive(w, s) && IsLive(w, t) && s.index != t.index
  }

  function Place(w: World, k: nat, t: Entity, position: Option<nat>): nat {
    match position case None => |Siblings(w, k, t.index)| case Some(i) => i
  }

  /** Adds an edge that the cycle check let through. */
  ghost function Added(w: World, s: Entity, k: nat, t: Entity, position: Option<nat>): World {
    if Exclusive(w, k) && SomeOfKind(PairsOf(w, s.index), k) then
      var prior := PairOfKind(w, s.index, k).target;
      if prior == t then w
      else var v := Unlinked(w, s, k, prior); Linked(v, s, k, t, Place(v, k, t, position))
    else if Pair(k, t) in PairsOf(w, s.index) then w
    else Linked(w, s, k, t, Place(w, k, t, position))
  }

  ghost function AddRelation(w: World, s: Entity, k: nat, t: Entity, position: Option<nat>, rejected: bool): World {
    if CanAdd(w, s, t) && !rejected then Added(w, s, k, t, position) else w
  }

  function RemoveRelation(w: World, s: Entity, k: nat, t: Entity): World {
    if Pair(k, t) in PairsOf(w, s.index) then Unlinked(w, s, k, t) else w
  }

  function Reordered(w: World, s: Entity, k: nat, t: Entity, index: nat): World {
    w.(targets := MovedTo(w.targets, k, t.index, s, index))
  }

  predicate Related(w: World, s: Entity, k: nat, t: Entity) {
    IsLive(w, s) && IsLive(w, t) && Pair(k, t) in PairsOf(w, s.index)
  }

  ghost function InsertRelationAt(w: World, s: Entity, k: nat, t: Entity, index: nat, rejected: bool): World {
    if Related(w, s, k, t) then Reordered(w, s, k, t, index) else AddRelation(w, s, k, t, Some(index), rejected)
  }

  function SetRelationIndex(w: World, s: Entity, k: nat, t: Entity, index: nat): (World, bool) {
    if Related(w, s, k, t) then (Reordered(w, s, k, t, index), true) else (w, false)
  }

  lemma AddedKeepsAgree(w: World, s: Entity, k: nat, t: Entity, position: Option<nat>)
    requires Agree(w) && IsLive(w, s) && IsLive(w, t) && s.index != t.index && k < |w.kinds|
    ensures Agree(Added(w, s, k, t, position))
  {
    if Exclusive(w, k) && SomeOfKind(PairsOf(w, s.index), k) {
      var prior := PairOfKind(w, s.index, k);
      if prior.target != t {
        var v := Unlinked(w, s, k, prior.target);
        assert prior == Pair(k, prior.target);
        UnlinkKeepsAgree(w, s, k, prior.target);
        forall p | p in PairsOf(v, s.index) ensures p.kind != k {
          assert p in PairsOf(w, s.index);
        }
        LinkKeepsAgree(v, s, k, t, Place(v, k, t, position));
      }
    } else if Pair(k, t) !in PairsOf(w, s.index) {
      LinkKeepsAgree(w, s, k, t, Place(w, k, t, position));
    }
  }

  lemma ReorderedMember(w: World, s: Entity, k: nat, t: Entity, index: nat, k': nat, j: nat, y: Entity)
    requires Agree(w) && Related(w, s, k, t)
    ensures y in Siblings(Reordered(w, s, k, t, index), k', j) <==> y in Siblings(w, k', j)
    ensures NoRepeats(Siblings(Reordered(w, s, k, t, index), k', j))
  {
    PairIffListedOnce(w, s, k, t);
    MovedLists(w.targets, k, t.index, s, index, k', j);
    var list := Siblings(w, k, t.index);
    var pos := FirstAt(list, s);
    var rest := WithoutAt(list, pos);
    assert NoRepeats(list) && NoRepeats(Siblings(w, k', j));
    RemoveMembers(list, pos, y);
    RemoveMembers(list, pos, s);
    InsertMembers(rest, Min(index, |rest|), s, y);
    InsertNoRepeats(rest, Min(index, |rest|), s);
  }

  lemma SameMembersAgree(w: World, targets: Targets)
    requires Agree(w) && TargetsValid(targets)
    requires forall k: nat, j: nat, y {:trigger y in ListOf(targets, k, j)} ::
               y in ListOf(targets, k, j) <==> y in Siblings(w, k, j)
    requires forall k: nat, j: nat {:trigger ListOf(targets, k, j)} :: NoRepeats(ListOf(targets, k, j))
    ensures Agree(w.(targets := targets))
  {
    var w' := w.(targets := targets);
    forall i: nat, p | p in PairsOf(w', i) ensures ForwardAt(w', i, p) {
      assert p in PairsOf(w, i);
      assert LiveAt(w, i) in ListOf(targets, p.kind, p.target.index);
    }
    assert forall i: nat, p :: p in PairsOf(w', i) ==> p in PairsOf(w, i);
  }

  lemma ReorderKeepsAgree(w: World, s: Entity, k: nat, t: Entity, index: nat)
    requires Agree(w) && Related(w, s, k, t)
    ensures Agree(Reordered(w, s, k, t, index))
  {
    var w' := Reordered(w, s, k, t, index);
    MovedKeepsValid(w.targets, k, t.index, s, index);
    forall k': nat, j: nat, y ensures y in ListOf(w'.targets, k', j) <==> y in Siblings(w, k', j) {
      ReorderedMember(w, s, k, t, index, k', j, y);
    }
    forall k': nat, j: nat ensures NoRepeats(ListOf(w'.targets, k', j)) {
      ReorderedMember(w, s, k, t, index, k', j, s);
    }
    SameMembersAgree(w, w'.targets);
  }

  // ---- Removing --------------------------------------------------------------------------------------------

  /** Removal does not look at the subject's generation: it keeps the two views in agreement exactly
      when the handle is live or the index has no such pair. */
  lemma RemoveAgreesExactly(w: World, s: Entity, k: nat, t: Entity)
    requires Agree(w)
    ensures Agree(RemoveRelation(w, s, k, t)) <==> IsLive(w, s) || Pair(k, t) !in PairsOf(w, s.index)
  {
    if Pair(k, t) in PairsOf(w, s.index) {
      if IsLive(w, s) {
        UnlinkKeepsAgree(w, s, k, t);
      } else {
        var w', live := RemoveRelation(w, s, k, t), LiveAt(w, s.index);
        assert live in Siblings(w, k, t.index);
        UnlinkedMember(w, s, k, t, k, t.index, live);
        assert live in Siblings(w', k, t.index) && Pair(k, t) !in PairsOf(w', s.index);
      }
    }
  }

  /** Removing undoes adding: the edge set, every sibling list and every count are as before. */
  lemma RemoveUndoesLink(w: World, s: Entity, k: nat, t: Entity, index: nat, i: nat, k': nat, j: nat)
    requires Agree(w) && IsLive(w, s) && IsLive(w, t) && Pair(k, t) !in PairsOf(w, s.index)
    ensures var w' := RemoveRelation(Linked(w, s, k, t, index), s, k, t);
            && PairsOf(w', i) == PairsOf(w, i) && Siblings(w', k', j) == Siblings(w, k', j)
            && CountOf(w'.targets, j) == CountOf(w.targets, j)
  {
    PairIffListedOnce(w, s, k, t);
    AddedKeepsValid(w.targets, k, t.index, s, index);
    DropUndoesAdd(w.targets, k, t.index, s, index, k', j);
  }

  lemma DropUndoesAdd(t: Targets, k: nat, i: nat, s: Entity, index: nat, k': nat, j: nat)
    requires TargetsValid(t) && TargetsValid(AddedAt(t, k, i, s, index)) && s !in ListOf(t, k, i)
    ensures var u := Dropped(AddedAt(t, k, i, s, index), k, i, s);
            ListOf(u, k', j) == ListOf(t, k', j) && CountOf(u, j) == CountOf(t, j)
  {
    var v, list := AddedAt(t, k, i, s, index), ListOf(t, k, i);
    AddedLists(t, k, i, s, index, k', j);
    AddedLists(t, k, i, s, index, k, i);
    InsertThenRemove(list, Min(index, |list|), s);
    DroppedLists(v, k, i, s, k', j);
    ListedIsCounted(v, k, i);
    BumpedCounts(t.counts, i, j);
  }

  // ---- Positions -----------------------------------------------------------------------------------------

  /** An edge linked at an index stands there among its siblings, or last if the list is shorter. */
  lemma LinkedAtIndex(w: World, s: Entity, k: nat, t: Entity, index: nat)
    requires Agree(w) && IsLive(w, s) && IsLive(w, t) && Pair(k, t) !in PairsOf(w, s.index)
    ensures var list := Siblings(Linked(w, s, k, t, index), k, t.index);
            s in list && FirstAt(list, s) == Min(index, |Siblings(w, k, t.index)|)
            && |list| == |Siblings(w, k, t.index)| + 1
  {
    var list := Siblings(w, k, t.index);
    PairIffListedOnce(w, s, k, t);
    AddedLists(w.targets, k, t.index, s, index, k, t.index);
    InsertThenRemove(list, Min(index, |list|), s);
  }

  /** A reordered subject stands at the index it was moved to, or last. */
  lemma ReorderedAtIndex(w: World, s: Entity, k: nat, t: Entity, index: nat)
    requires Agree(w) && Related(w, s, k, t)
    ensures var list := Siblings(Reordered(w, s, k, t, index), k, t.index);
            s in list && FirstAt(list, s) == Min(index, |list| - 1) && |list| == |Siblings(w, k, t.index)|
  {
    var list := Siblings(w, k, t.index);
    PairIffListedOnce(w, s, k, t);
    assert NoRepeats(list);
    MovedLists(w.targets, k, t.index, s, index, k, t.index);
    var rest := WithoutAt(list, FirstAt(list, s));
    RemoveMembers(list, FirstAt(list, s), s);
    InsertThenRemove(rest, Min(index, |rest|), s);
  }

  // Where a subject stands among its siblings: at the index, or last if there are fewer.
  ghost predicate StandsAt(w: World, s: Entity, k: nat, t: Entity, index: nat) {
    var list := Siblings(w, k, t.index);
    s in list && FirstAt(list, s) == Min(index, |list| - 1)
  }

  lemma LinkedStands(w: World, s: Entity, k: nat, t: Entity, index: nat)
    requires Agree(w) && CanAdd(w, s, t) && Pair(k, t) !in PairsOf(w, s.index)
    ensures StandsAt(Linked(w, s, k, t, index), s, k, t, index)
  {
    LinkedAtIndex(w, s, k, t, index);
  }

  // A new edge, re-parenting included: a world in which the subject is not listed yet, with it linked in.
  lemma NewEdgeIsLinked(w: World, s: Entity, k: nat, t: Entity, position: Option<nat>) returns (v: World)
    requires Agree(w) && CanAdd(w, s, t) && k < |w.kinds| && Pair(k, t) !in PairsOf(w, s.index)
    ensures Agree(v) && CanAdd(v, s, t) && Pair(k, t) !in PairsOf(v, s.index)
    ensures AddRelation(w, s, k, t, position, false) == Linked(v, s, k, t, Place(v, k, t, position))
    ensures Siblings(v, k, t.index) == Siblings(w, k, t.index)
  {
    v := w;
    if Exclusive(w, k) && SomeOfKind(PairsOf(w, s.index), k) {
      var prior := PairOfKind(w, s.index, k);
      assert prior == Pair(k, prior.target) && ForwardAt(w, s.index, prior);
      v := Unlinked(w, s, k, prior.target);
      UnlinkKeepsAgree(w, s, k, prior.target);
      DroppedLists(w.targets, k, prior.target.index, s, k, t.index);
    }
  }

  /** A positioned add of a new edge, re-parenting included, leaves the subject at the index among its new
      siblings, or last if there are fewer. */
  lemma AddedAtIndex(w: World, s: Entity, k: nat, t: Entity, index: nat)
    requires Agree(w) && CanAdd(w, s, t) && k < |w.kinds| && Pair(k, t) !in PairsOf(w, s.index)
    ensures StandsAt(AddRelation(w, s, k, t, Some(index), false), s, k, t, index)
  {
    var v := NewEdgeIsLinked(w, s, k, t, Some(index));
    LinkedStands(v, s, k, t, index);
  }

  /** An add without a position appends. */
  lemma AddedLast(w: World, s: Entity, k: nat, t: Entity)
    requires Agree(w) && CanAdd(w, s, t) && k < |w.kinds| && Pair(k, t) !in PairsOf(w, s.index)
    ensures Siblings(AddRelation(w, s, k, t, None, false), k, t.index) == Siblings(w, k, t.index) + [s]
  {
    var v := NewEdgeIsLinked(w, s, k, t, None);
    var list := Siblings(v, k, t.index);
    AddedLists(v.targets, k, t.index, s, |list|, k, t.index);
    assert InsertedAt(list, |list|, s) == list + [s];
  }

  /** An insertion that is not rejected leaves the subject at the index, whether the edge was new, moved over from
      another target, or there already. */
  lemma InsertedAtIndex(w: World, s: Entity, k: nat, t: Entity, index: nat)
    requires Agree(w) && CanAdd(w, s, t) && k < |w.kinds|
    ensures StandsAt(InsertRelationAt(w, s, k, t, index, false), s, k, t, index)
  {
    if Related(w, s, k, t) {
      ReorderedAtIndex(w, s, k, t, index);
    } else {
      AddedAtIndex(w, s, k, t, index);
    }
  }

  /** A move succeeds exactly for an edge there is, and then leaves the subject at the index. */
  lemma MovedAtIndex(w: World, s: Entity, k: nat, t: Entity, index: nat)
    requires Agree(w)
    ensures var (v, moved) := SetRelationIndex(w, s, k, t, index);
            && (moved <==> s.index in w.alive && w.alive[s.index] == s.generation
                           && t.index in w.alive && w.alive[t.index] == t.generation
                           && s in Siblings(w, k, t.index))
            && (if moved then StandsAt(v, s, k, t, index) else v == w)
  {
    if IsLive(w, s) && IsLive(w, t) {
      PairIffListedOnce(w, s, k, t);
      if Related(w, s, k, t) { ReorderedAtIndex(w, s, k, t, index); }
    }
  }

  /** After an add that is not rejected the edge is there, whatever the subject had; a rejected one, or one between
      entities that are dead or the same, changes nothing. */
  lemma AddedIsThere(w: World, s: Entity, k: nat, t: Entity, position: Option<nat>, rejected: bool)
    requires Agree(w) && k < |w.kinds|
    ensures var v := AddRelation(w, s, k, t, position, rejected);
            var live := s.index in w.alive && w.alive[s.index] == s.generation
                        && t.index in w.alive && w.alive[t.index] == t.generation;
            if !rejected && live && s.index != t.index then
              Pair(k, t) in PairsOf(v, s.index) && s in Siblings(v, k, t.index)
            else v == w
  {
    if CanAdd(w, s, t) && !rejected {
      AddedKeepsAgree(w, s, k, t, position);
      if Pair(k, t) !in PairsOf(w, s.index) {
        var v := NewEdgeIsLinked(w, s, k, t, position);
      } else if Exclusive(w, k) {
        TheOnlyPair(w, s.index, k, Pair(k, t));
      }
      PairIffListedOnce(AddRelation(w, s, k, t, position, rejected), s, k, t);
    }
  }

  /** A removal takes the pair, and no other. */
  lemma RemovedIsGone(w: World, s: Entity, k: nat, t: Entity, i: nat, p: Pair)
    ensures p in PairsOf(RemoveRelation(w, s, k, t), i) <==>
              p in PairsOf(w, i) && !(i == s.index && p.kind == k && p.target == t)
  {
  }

  /** A kind that is neither exclusive nor cascades is never rejected. */
  lemma PlainKindIsNeverRejected(w: World, s: nat, k: nat, t: nat, rejected: bool)
    requires k < |w.kinds| && !w.kinds[k].exclusive && !w.kinds[k].cascade && CycleCheck(w, s, k, t, rejected)
    ensures !rejected
  {
  }
}
