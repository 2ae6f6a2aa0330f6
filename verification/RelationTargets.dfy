/** The reverse index: per kind and target, the ordered list of its subjects, and per target how many
    pairs point at it.
  */
module RelationTargets {
  import opened Basics
  import opened EntityPool
  import opened Lists

  type SiblingMap = map<nat, seq<Entity>>

  datatype Targets = Targets(byKind: seq<SiblingMap>, counts: seq<nat>)

  const NO_TARGETS: Targets := Targets([], [])

  function ListIn(m: SiblingMap, i: nat): seq<Entity> {
    if i in m then m[i] else []
  }

  function ListOf(t: Targets, k: nat, i: nat): seq<Entity> {
    if k < |t.byKind| then ListIn(t.byKind[k], i) else []
  }

  function CountOf(t: Targets, i: nat): nat {
    if i < |t.counts| then t.counts[i] else 0
  }

  function TotalOf(byKind: seq<SiblingMap>, i: nat): nat {
    if byKind == [] then 0 else TotalOf(byKind[..|byKind| - 1], i) + |ListIn(byKind[|byKind| - 1], i)|
  }

  /** No empty list is kept, and every count is the total length of the target's lists. */
  ghost predicate TargetsValid(t: Targets) {
    && (forall k, i :: 0 <= k < |t.byKind| && i in t.byKind[k] ==> t.byKind[k][i] != [])
    && (forall i: nat {:trigger CountOf(t, i)} :: CountOf(t, i) == TotalOf(t.byKind, i))
  }

  function WithKind(byKind: seq<SiblingMap>, k: nat): seq<SiblingMap> {
    if k >= |byKind| then byKind + seq(k + 1 - |byKind|, _ => map[]) else byKind
  }

  function Stored(m: SiblingMap, i: nat, list: seq<Entity>): SiblingMap {
    if list == [] then m - {i} else m[i := list]
  }

  function Bumped(counts: seq<nat>, i: nat): seq<nat> {
    var wide := if i >= |counts| then counts + seq(i + 1 - |counts|, _ => 0) else counts;
    wide[i := wide[i] + 1]
  }

  function AddedAt(t: Targets, k: nat, i: nat, s: Entity, index: nat): Targets {
    var kinds, list := WithKind(t.byKind, k), ListOf(t, k, i);
    Targets(kinds[k := Stored(kinds[k], i, InsertedAt(list, Min(index, |list|), s))], Bumped(t.counts, i))
  }

  function Dropped(t: Targets, k: nat, i: nat, s: Entity): Targets {
    var list := ListOf(t, k, i);
    if s !in list || i >= |t.counts| || t.counts[i] == 0 then t
    else
      Targets(t.byKind[k := Stored(t.byKind[k], i, WithoutAt(list, FirstAt(list, s)))],
              t.counts[i := t.counts[i] - 1])
  }

  function MovedTo(t: Targets, k: nat, i: nat, s: Entity, index: nat): Targets {
    var list := ListOf(t, k, i);
    if s !in list then t
    else
      var rest := WithoutAt(list, FirstAt(list, s));
      t.(byKind := t.byKind[k := Stored(t.byKind[k], i, InsertedAt(rest, Min(index, |rest|), s))])
  }

  function TakenFrom(t: Targets, k: nat, i: nat): Targets {
    var list := ListOf(t, k, i);
    if list == [] || i >= |t.counts| || t.counts[i] < |list| then t
    else Targets(t.byKind[k := t.byKind[k] - {i}], t.counts[i := t.counts[i] - |list|])
  }

  // ---- Totals -------------------------------------------------------------------------------------------

  lemma {:induction false} TotalAfter(byKind: seq<SiblingMap>, k: nat, m: SiblingMap, i: nat)
    requires k < |byKind|
    ensures TotalOf(byKind[k := m], i) == TotalOf(byKind, i) - |ListIn(byKind[k], i)| + |ListIn(m, i)|
    decreases |byKind|
  {
    var n := |byKind| - 1;
    if k < n {
      TotalAfter(byKind[..n], k, m, i);
      assert byKind[k := m][..n] == byKind[..n][k := m];
    } else {
      assert byKind[k := m][..n] == byKind[..n];
    }
  }

  lemma {:induction false} TotalWithKind(byKind: seq<SiblingMap>, k: nat, i: nat)
    ensures TotalOf(WithKind(byKind, k), i) == TotalOf(byKind, i)
    decreases k
  {
    if k >= |byKind| {
      var wide := WithKind(byKind, k);
      if k > 0 {
        TotalWithKind(byKind, k - 1, i);
        assert wide[..k] == if k > |byKind| then WithKind(byKind, k - 1) else byKind;
      } else {
        assert wide[..0] == byKind;
      }
    }
  }

  lemma {:induction false} TotalCoversList(byKind: seq<SiblingMap>, k: nat, i: nat)
    requires k < |byKind|
    ensures TotalOf(byKind, i) >= |ListIn(byKind[k], i)|
    decreases |byKind|
  {
    if k < |byKind| - 1 {
      TotalCoversList(byKind[..|byKind| - 1], k, i);
    }
  }

  /** A target with count zero has no list at all; any list shows in the count. */
  lemma CountCoversList(t: Targets, k: nat, i: nat)
    requires TargetsValid(t)
    ensures CountOf(t, i) >= |ListOf(t, k, i)|
  {
    if k < |t.byKind| {
      TotalCoversList(t.byKind, k, i);
    }
  }

  lemma {:induction false} TotalHasList(byKind: seq<SiblingMap>, i: nat)
    requires TotalOf(byKind, i) > 0
    ensures exists k :: 0 <= k < |byKind| && ListIn(byKind[k], i) != []
    decreases |byKind|
  {
    var n := |byKind| - 1;
    if ListIn(byKind[n], i) == [] {
      TotalHasList(byKind[..n], i);
      var k :| 0 <= k < n && ListIn(byKind[..n][k], i) != [];
      assert ListIn(byKind[k], i) != [];
    }
  }

  // ---- Each operation keeps the index valid and changes one list -------------------------------------------

  lemma BumpedCounts(counts: seq<nat>, i: nat, j: nat)
    ensures var b := Bumped(counts, i);
            (if j < |b| then b[j] else 0) == (if j < |counts| then counts[j] else 0) + if j == i then 1 else 0
  {
  }

  lemma AddedKeepsValid(t: Targets, k: nat, i: nat, s: Entity, index: nat)
    requires TargetsValid(t)
    ensures TargetsValid(AddedAt(t, k, i, s, index))
  {
    var u, kinds := AddedAt(t, k, i, s, index), WithKind(t.byKind, k);
    forall j: nat ensures CountOf(u, j) == TotalOf(u.byKind, j) {
      TotalWithKind(t.byKind, k, j);
      TotalAfter(kinds, k, u.byKind[k], j);
      BumpedCounts(t.counts, i, j);
      assert CountOf(t, j) == TotalOf(t.byKind, j);
    }
  }

  lemma AddedLists(t: Targets, k: nat, i: nat, s: Entity, index: nat, k': nat, j: nat)
    ensures var list := ListOf(t, k, i);
            ListOf(AddedAt(t, k, i, s, index), k', j)
            == if k' == k && j == i then InsertedAt(list, Min(index, |list|), s) else ListOf(t, k', j)
  {
  }

  lemma ListedIsCounted(t: Targets, k: nat, i: nat)
    requires TargetsValid(t) && ListOf(t, k, i) != []
    ensures i < |t.counts| && t.counts[i] >= |ListOf(t, k, i)|
  {
    CountCoversList(t, k, i);
  }

  lemma DroppedKeepsValid(t: Targets, k: nat, i: nat, s: Entity)
    requires TargetsValid(t)
    ensures TargetsValid(Dropped(t, k, i, s))
  {
    var u, list := Dropped(t, k, i, s), ListOf(t, k, i);
    if s in list {
      ListedIsCounted(t, k, i);
      forall j: nat ensures CountOf(u, j) == TotalOf(u.byKind, j) {
        TotalAfter(t.byKind, k, u.byKind[k], j);
        assert CountOf(t, j) == TotalOf(t.byKind, j);
      }
    }
  }

  lemma DroppedLists(t: Targets, k: nat, i: nat, s: Entity, k': nat, j: nat)
    requires TargetsValid(t)
    ensures var list := ListOf(t, k, i);
            ListOf(Dropped(t, k, i, s), k', j)
            == if k' == k && j == i && s in list then WithoutAt(list, FirstAt(list, s)) else ListOf(t, k', j)
  {
    if s in ListOf(t, k, i) {
      ListedIsCounted(t, k, i);
    }
  }

  lemma MovedKeepsValid(t: Targets, k: nat, i: nat, s: Entity, index: nat)
    requires TargetsValid(t)
    ensures TargetsValid(MovedTo(t, k, i, s, index))
  {
    var u, list := MovedTo(t, k, i, s, index), ListOf(t, k, i);
    if s in list {
      forall j: nat ensures CountOf(u, j) == TotalOf(u.byKind, j) {
        TotalAfter(t.byKind, k, u.byKind[k], j);
        assert CountOf(t, j) == TotalOf(t.byKind, j);
      }
    }
  }

  lemma MovedLists(t: Targets, k: nat, i: nat, s: Entity, index: nat, k': nat, j: nat)
    requires s in ListOf(t, k, i)
    ensures var list := ListOf(t, k, i); var rest := WithoutAt(list, FirstAt(list, s));
            ListOf(MovedTo(t, k, i, s, index), k', j)
            == if k' == k && j == i then InsertedAt(rest, Min(index, |rest|), s) else ListOf(t, k', j)
  {
  }

  lemma TakenKeepsValid(t: Targets, k: nat, i: nat)
    requires TargetsValid(t)
    ensures TargetsValid(TakenFrom(t, k, i))
  {
    var u, list := TakenFrom(t, k, i), ListOf(t, k, i);
    if list != [] {
      ListedIsCounted(t, k, i);
      forall j: nat ensures CountOf(u, j) == TotalOf(u.byKind, j) {
        TotalAfter(t.byKind, k, u.byKind[k], j);
        assert CountOf(t, j) == TotalOf(t.byKind, j);
      }
    }
  }

  lemma TakenLists(t: Targets, k: nat, i: nat, k': nat, j: nat)
    requires TargetsValid(t)
    ensures ListOf(TakenFrom(t, k, i), k', j) == if k' == k && j == i then [] else ListOf(t, k', j)
  {
    if ListOf(t, k, i) != [] {
      ListedIsCounted(t, k, i);
    }
  }

  // ---- In place ---------------------------------------------------------------------------------------------

  method PositionOf(list: seq<Entity>, s: Entity) returns (pos: nat)
    ensures pos == FirstAt(list, s)
  {
    pos := 0;
    while pos < |list| && list[pos] != s
      invariant pos <= |list| && forall i :: 0 <= i < pos ==> list[i] != s
    {
      pos := pos + 1;
    }
    var first := FirstAt(list, s);
    assert first < |list| ==> list[first] == s;
  }

  class TargetIndex {
    var byKind: seq<SiblingMap>
    var targetCounts: seq<nat>

    function Value(): Targets
      reads this
    {
      Targets(byKind, targetCounts)
    }

    constructor ()
      ensures Value() == NO_TARGETS && TargetsValid(Value())
    {
      byKind, targetCounts := [], [];
    }

    method EnsureKind(k: nat)
      modifies this`byKind
      ensures byKind == WithKind(old(byKind), k)
    {
      if k >= |byKind| {
        byKind := byKind + seq(k + 1 - |byKind|, _ => map[]);
      }
    }

    method BumpTargetCount(i: nat)
      modifies this`targetCounts
      ensures targetCounts == Bumped(old(targetCounts), i)
    {
      if i >= |targetCounts| {
        targetCounts := targetCounts + seq(i + 1 - |targetCounts|, _ => 0);
      }
      targetCounts := targetCounts[i := targetCounts[i] + 1];
    }

    method AddAt(k: nat, i: nat, s: Entity, index: nat)
      requires TargetsValid(Value())
      modifies this
      ensures Value() == AddedAt(old(Value()), k, i, s, index) && TargetsValid(Value())
    {
      AddedKeepsValid(Value(), k, i, s, index);
      EnsureKind(k);
      var list := ListIn(byKind[k], i);
      byKind := byKind[k := Stored(byKind[k], i, InsertedAt(list, Min(index, |list|), s))];
      BumpTargetCount(i);
    }

    method Add(k: nat, i: nat, s: Entity)
      requires TargetsValid(Value())
      modifies this
      ensures Value() == AddedAt(old(Value()), k, i, s, |ListOf(old(Value()), k, i)|) && TargetsValid(Value())
    {
      AddAt(k, i, s, |ListOf(Value(), k, i)|);
    }

    method Position(k: nat, i: nat, s: Entity) returns (pos: Option<nat>)
      ensures var list := ListOf(Value(), k, i);
              pos == if s in list then Some(FirstAt(list, s)) else None
    {
      var list := ListOf(Value(), k, i);
      var p := PositionOf(list, s);
      pos := if p < |list| then Some(p) else None;
    }

    /** The reads count on the index being kept in step: an empty target answers false. */
    method IsAnyTarget(i: nat) returns (any: bool)
      requires TargetsValid(Value())
      ensures any <==> exists k {:trigger ListOf(Value(), k, i)} :: 0 <= k && ListOf(Value(), k, i) != []
    {
      any := i < |targetCounts| && targetCounts[i] > 0;
      assert CountOf(Value(), i) == TotalOf(byKind, i);
      if any {
        TotalHasList(byKind, i);
        var k :| 0 <= k < |byKind| && ListIn(byKind[k], i) != [];
        assert ListOf(Value(), k, i) != [];
      } else {
        forall k: nat ensures ListOf(Value(), k, i) == [] {
          CountCoversList(Value(), k, i);
        }
      }
    }

    method MoveTo(k: nat, i: nat, s: Entity, index: nat) returns (moved: bool)
      requires TargetsValid(Value())
      modifies this
      ensures Value() == MovedTo(old(Value()), k, i, s, index) && TargetsValid(Value())
      ensures moved == (s in ListOf(old(Value()), k, i))
    {
      MovedKeepsValid(Value(), k, i, s, index);
      var list := ListOf(Value(), k, i);
      var pos := PositionOf(list, s);
      if pos == |list| { return false; }
      var rest := WithoutAt(list, pos);
      byKind := byKind[k := Stored(byKind[k], i, InsertedAt(rest, Min(index, |rest|), s))];
      moved := true;
    }

    method Remove(k: nat, i: nat, s: Entity) returns (removed: bool)
      requires TargetsValid(Value())
      modifies this
      ensures Value() == Dropped(old(Value()), k, i, s) && TargetsValid(Value())
      ensures removed == (s in ListOf(old(Value()), k, i))
    {
      DroppedKeepsValid(Value(), k, i, s);
      var list := ListOf(Value(), k, i);
      var pos := PositionOf(list, s);
      if pos == |list| { return false; }
      ListedIsCounted(Value(), k, i);
      byKind := byKind[k := Stored(byKind[k], i, WithoutAt(list, pos))];
      targetCounts := targetCounts[i := targetCounts[i] - 1];
      removed := true;
    }

    method TakeSubjects(k: nat, i: nat) returns (subjects: seq<Entity>)
      requires TargetsValid(Value())
      modifies this
      ensures Value() == TakenFrom(old(Value()), k, i) && TargetsValid(Value())
      ensures subjects == ListOf(old(Value()), k, i)
    {
      TakenKeepsValid(Value(), k, i);
      subjects := ListOf(Value(), k, i);
      if subjects != [] {
        ListedIsCounted(Value(), k, i);
        byKind := byKind[k := byKind[k] - {i}];
        targetCounts := targetCounts[i := targetCounts[i] - |subjects|];
      }
    }
  }
}
