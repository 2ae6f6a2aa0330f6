/** Emitting the relations target-major: kinds ascending, targets ascending, subjects in sibling order. */
module RelationEmission {
  import opened EntityPool
  import opened RelationTargets

  datatype Edge = Edge(subject: Entity, kind: nat, target: nat)

  // The targets an emission is asked for.
  datatype Scope = All | Only(targets: seq<nat>)

  predicate Wanted(scope: Scope, j: nat) {
    scope.All? || j in scope.targets
  }

  function EmitList(k: nat, j: nat, list: seq<Entity>): seq<Edge> {
    seq(|list|, n requires 0 <= n < |list| => Edge(list[n], k, j))
  }

  // The lists of a kind, for the targets below n in the scope, in ascending order.
  ghost function EmitBelow(t: Targets, k: nat, scope: Scope, n: nat): seq<Edge> {
    if n == 0 then []
    else
      EmitBelow(t, k, scope, n - 1) +
      (if Wanted(scope, n - 1) then EmitList(k, n - 1, ListOf(t, k, n - 1)) else [])
  }

  // A bound on the targets a kind has.
  ghost function TargetBound(keys: set<nat>): (n: nat)
    ensures forall x :: x in keys ==> x < n
  {
    if keys == {} then 0
    else
      var x :| x in keys;
      var m := TargetBound(keys - {x});
      assert forall y :: y in keys ==> y == x || y in keys - {x};
      if x < m then m else x + 1
  }

  function KeysOf(t: Targets, k: nat): set<nat> {
    if k < |t.byKind| then t.byKind[k].Keys else {}
  }

  ghost function EmitKind(t: Targets, k: nat, scope: Scope): seq<Edge> {
    EmitBelow(t, k, scope, TargetBound(KeysOf(t, k)))
  }

  ghost function EmitKinds(t: Targets, kinds: nat, scope: Scope): seq<Edge> {
    if kinds == 0 then [] else EmitKinds(t, kinds - 1, scope) + EmitKind(t, kinds - 1, scope)
  }

  /** Every relation of the world. */
  ghost function EmitAll(t: Targets, kinds: nat): seq<Edge> {
    EmitKinds(t, kinds, All)
  }

  /** The relations whose target is one of the given ones. */
  ghost function EmitAmong(t: Targets, kinds: nat, targets: seq<nat>): seq<Edge> {
    EmitKinds(t, kinds, Only(targets))
  }

  lemma {:induction false} EmitBeyondBound(t: Targets, k: nat, scope: Scope, n: nat)
    requires n >= TargetBound(KeysOf(t, k))
    ensures EmitBelow(t, k, scope, n) == EmitKind(t, k, scope)
    decreases n
  {
    if n > TargetBound(KeysOf(t, k)) {
      EmitBeyondBound(t, k, scope, n - 1);
      assert n - 1 !in KeysOf(t, k);
      assert EmitList(k, n - 1, []) == [];
    }
  }

  // ---- The order of an emission ------------------------------------------------------------------------

  // Kinds ascend, and within a kind targets do.
  predicate InOrder(es: seq<Edge>) {
    forall a, b :: 0 <= a < b < |es| ==>
      es[a].kind < es[b].kind || (es[a].kind == es[b].kind && es[a].target <= es[b].target)
  }

  lemma BelowIsOrdered(t: Targets, k: nat, scope: Scope, n: nat)
    ensures InOrder(EmitBelow(t, k, scope, n))
    ensures forall e :: e in EmitBelow(t, k, scope, n) ==> e.kind == k && e.target < n && Wanted(scope, e.target)
  {
  }

  lemma KindIsOrdered(t: Targets, k: nat, scope: Scope)
    ensures InOrder(EmitKind(t, k, scope))
    ensures forall e :: e in EmitKind(t, k, scope) ==> e.kind == k && Wanted(scope, e.target)
  {
    BelowIsOrdered(t, k, scope, TargetBound(KeysOf(t, k)));
  }

  lemma KindsFollow(a: seq<Edge>, b: seq<Edge>, k: nat)
    requires InOrder(a) && InOrder(b)
    requires forall e :: e in a ==> e.kind < k
    requires forall e :: e in b ==> e.kind == k
    ensures InOrder(a + b)
  {
    forall x, y | 0 <= x < y < |a + b|
      ensures (a + b)[x].kind < (a + b)[y].kind ||
              ((a + b)[x].kind == (a + b)[y].kind && (a + b)[x].target <= (a + b)[y].target)
    {
      if x < |a| <= y {
        assert a[x] in a && b[y - |a|] in b;
      }
    }
  }

  lemma {:induction false} EmissionIsOrdered(t: Targets, kinds: nat, scope: Scope)
    ensures InOrder(EmitKinds(t, kinds, scope))
    ensures forall e :: e in EmitKinds(t, kinds, scope) ==> e.kind < kinds && Wanted(scope, e.target)
  {
    if kinds > 0 {
      EmissionIsOrdered(t, kinds - 1, scope);
      KindIsOrdered(t, kinds - 1, scope);
      KindsFollow(EmitKinds(t, kinds - 1, scope), EmitKind(t, kinds - 1, scope), kinds - 1);
    }
  }

  // ---- Selecting from an emission ----------------------------------------------------------------------

  // The subjects, in order, among the first n edges, of one list.
  function Listed(es: seq<Edge>, n: nat, k: nat, j: nat): seq<Entity>
    requires n <= |es|
  {
    if n == 0 then []
    else Listed(es, n - 1, k, j) + if es[n - 1].kind == k && es[n - 1].target == j then [es[n - 1].subject] else []
  }

  // The first n edges whose target is in the scope.
  ghost function Among(es: seq<Edge>, n: nat, scope: Scope): seq<Edge>
    requires n <= |es|
  {
    if n == 0 then [] else Among(es, n - 1, scope) + if Wanted(scope, es[n - 1].target) then [es[n - 1]] else []
  }

  function ReadBack(es: seq<Edge>, k: nat, j: nat): seq<Entity> {
    Listed(es, |es|, k, j)
  }

  ghost function Scoped(es: seq<Edge>, scope: Scope): seq<Edge> {
    Among(es, |es|, scope)
  }

  lemma {:induction false} ListedOfPrefix(a: seq<Edge>, es: seq<Edge>, n: nat, k: nat, j: nat)
    requires n <= |a| && n <= |es| && forall i :: 0 <= i < n ==> es[i] == a[i]
    ensures Listed(es, n, k, j) == Listed(a, n, k, j)
    decreases n
  {
    if n > 0 {
      ListedOfPrefix(a, es, n - 1, k, j);
    }
  }

  lemma {:induction false} ListedJoins(a: seq<Edge>, b: seq<Edge>, n: nat, k: nat, j: nat)
    requires n <= |b|
    ensures Listed(a + b, |a| + n, k, j) == Listed(a, |a|, k, j) + Listed(b, n, k, j)
    decreases n
  {
    if n == 0 {
      ListedOfPrefix(a, a + b, |a|, k, j);
    } else {
      ListedJoins(a, b, n - 1, k, j);
      assert (a + b)[|a| + n - 1] == b[n - 1];
    }
  }

  lemma ReadBackJoin(a: seq<Edge>, b: seq<Edge>, k: nat, j: nat)
    ensures ReadBack(a + b, k, j) == ReadBack(a, k, j) + ReadBack(b, k, j)
  {
    ListedJoins(a, b, |b|, k, j);
  }

  lemma {:induction false} AmongOfPrefix(a: seq<Edge>, es: seq<Edge>, n: nat, scope: Scope)
    requires n <= |a| && n <= |es| && forall i :: 0 <= i < n ==> es[i] == a[i]
    ensures Among(es, n, scope) == Among(a, n, scope)
    decreases n
  {
    if n > 0 {
      AmongOfPrefix(a, es, n - 1, scope);
    }
  }

  lemma {:induction false} AmongJoins(a: seq<Edge>, b: seq<Edge>, n: nat, scope: Scope)
    requires n <= |b|
    ensures Among(a + b, |a| + n, scope) == Among(a, |a|, scope) + Among(b, n, scope)
    decreases n
  {
    if n == 0 {
      AmongOfPrefix(a, a + b, |a|, scope);
    } else {
      AmongJoins(a, b, n - 1, scope);
      assert (a + b)[|a| + n - 1] == b[n - 1];
    }
  }

  lemma ScopedJoin(a: seq<Edge>, b: seq<Edge>, scope: Scope)
    ensures Scoped(a + b, scope) == Scoped(a, scope) + Scoped(b, scope)
  {
    AmongJoins(a, b, |b|, scope);
  }

  // ---- An emission holds every list -------------------------------------------------------------------------

  lemma {:induction false} ListedOfList(k': nat, j': nat, list: seq<Entity>, n: nat, k: nat, j: nat)
    requires n <= |list|
    ensures Listed(EmitList(k', j', list), n, k, j) == if k' == k && j' == j then list[..n] else []
    decreases n
  {
    if n > 0 {
      ListedOfList(k', j', list, n - 1, k, j);
    }
  }

  lemma ReadBackOfList(k': nat, j': nat, list: seq<Entity>, k: nat, j: nat)
    ensures ReadBack(EmitList(k', j', list), k, j) == if k' == k && j' == j then list else []
  {
    ListedOfList(k', j', list, |list|, k, j);
    assert list[..|list|] == list;
  }

  lemma ReadBackThen(a: seq<Edge>, b: seq<Edge>, whole: seq<Edge>, k: nat, j: nat, more: seq<Entity>)
    requires whole == a + b && ReadBack(b, k, j) == more
    ensures ReadBack(whole, k, j) == ReadBack(a, k, j) + more
  {
    ReadBackJoin(a, b, k, j);
  }

  lemma ReadBackBelowStep(t: Targets, k': nat, scope: Scope, n: nat, k: nat, j: nat)
    requires n > 0
    ensures ReadBack(EmitBelow(t, k', scope, n), k, j) == ReadBack(EmitBelow(t, k', scope, n - 1), k, j)
              + if k' == k && j == n - 1 && Wanted(scope, j) then ListOf(t, k, j) else []
  {
    var list := ListOf(t, k', n - 1);
    ReadBackOfList(k', n - 1, list, k, j);
    var b := if Wanted(scope, n - 1) then EmitList(k', n - 1, list) else [];
    ReadBackThen(EmitBelow(t, k', scope, n - 1), b, EmitBelow(t, k', scope, n), k, j,
                 if k' == k && j == n - 1 && Wanted(scope, j) then list else []);
  }

  lemma {:induction false} ReadBackBelow(t: Targets, k': nat, scope: Scope, n: nat, k: nat, j: nat)
    ensures ReadBack(EmitBelow(t, k', scope, n), k, j)
            == if k' == k && j < n && Wanted(scope, j) then ListOf(t, k, j) else []
    decreases n
  {
    if n > 0 {
      ReadBackBelow(t, k', scope, n - 1, k, j);
      ReadBackBelowStep(t, k', scope, n, k, j);
    }
  }

  lemma ReadBackOfKind(t: Targets, k': nat, scope: Scope, k: nat, j: nat)
    ensures ReadBack(EmitKind(t, k', scope), k, j) == if k' == k && Wanted(scope, j) then ListOf(t, k, j) else []
  {
    ReadBackBelow(t, k', scope, TargetBound(KeysOf(t, k')), k, j);
    assert ListOf(t, k, j) != [] ==> j in KeysOf(t, k);
  }

  lemma ReadBackKindsStep(t: Targets, kinds: nat, scope: Scope, k: nat, j: nat)
    requires kinds > 0
    ensures ReadBack(EmitKinds(t, kinds, scope), k, j) == ReadBack(EmitKinds(t, kinds - 1, scope), k, j)
              + if k == kinds - 1 && Wanted(scope, j) then ListOf(t, k, j) else []
  {
    ReadBackOfKind(t, kinds - 1, scope, k, j);
    ReadBackThen(EmitKinds(t, kinds - 1, scope), EmitKind(t, kinds - 1, scope), EmitKinds(t, kinds, scope), k, j,
                 if k == kinds - 1 && Wanted(scope, j) then ListOf(t, k, j) else []);
  }

  lemma {:induction false} ReadBackOfKinds(t: Targets, kinds: nat, scope: Scope, k: nat, j: nat)
    ensures ReadBack(EmitKinds(t, kinds, scope), k, j) == if k < kinds && Wanted(scope, j) then ListOf(t, k, j) else []
    decreases kinds
  {
    if kinds > 0 {
      ReadBackOfKinds(t, kinds - 1, scope, k, j);
      ReadBackKindsStep(t, kinds, scope, k, j);
    }
  }

  /** Reading one list back from the emission gives the list: nothing is lost, added or reordered. */
  lemma EmissionHoldsEveryList(t: Targets, kinds: nat, k: nat, j: nat)
    requires k < kinds
    ensures ReadBack(EmitAll(t, kinds), k, j) == ListOf(t, k, j)
  {
    ReadBackOfKinds(t, kinds, All, k, j);
  }

  // ---- Scoped emission ----------------------------------------------------------------------------------------

  lemma {:induction false} AmongList(k: nat, j: nat, list: seq<Entity>, n: nat, scope: Scope)
    requires n <= |list|
    ensures Among(EmitList(k, j, list), n, scope) == if Wanted(scope, j) then EmitList(k, j, list)[..n] else []
    decreases n
  {
    if n > 0 {
      AmongList(k, j, list, n - 1, scope);
    }
  }

  lemma ScopedList(k: nat, j: nat, list: seq<Entity>, scope: Scope)
    ensures Scoped(EmitList(k, j, list), scope) == if Wanted(scope, j) then EmitList(k, j, list) else []
  {
    AmongList(k, j, list, |list|, scope);
    assert EmitList(k, j, list)[..|list|] == EmitList(k, j, list);
  }

  lemma ScopedThen(a: seq<Edge>, b: seq<Edge>, whole: seq<Edge>, scope: Scope, more: seq<Edge>)
    requires whole == a + b && Scoped(b, scope) == more
    ensures Scoped(whole, scope) == Scoped(a, scope) + more
  {
    ScopedJoin(a, b, scope);
  }

  lemma ScopedBelowStep(t: Targets, k: nat, scope: Scope, n: nat)
    requires n > 0
    ensures Scoped(EmitBelow(t, k, All, n), scope) == Scoped(EmitBelow(t, k, All, n - 1), scope)
              + if Wanted(scope, n - 1) then EmitList(k, n - 1, ListOf(t, k, n - 1)) else []
  {
    var b := EmitList(k, n - 1, ListOf(t, k, n - 1));
    ScopedList(k, n - 1, ListOf(t, k, n - 1), scope);
    ScopedThen(EmitBelow(t, k, All, n - 1), b, EmitBelow(t, k, All, n), scope, if Wanted(scope, n - 1) then b else []);
  }

  lemma {:induction false} ScopedBelow(t: Targets, k: nat, scope: Scope, n: nat)
    ensures Scoped(EmitBelow(t, k, All, n), scope) == EmitBelow(t, k, scope, n)
    decreases n
  {
    if n > 0 {
      ScopedBelow(t, k, scope, n - 1);
      ScopedBelowStep(t, k, scope, n);
    }
  }

  lemma ScopedKindsStep(t: Targets, kinds: nat, scope: Scope)
    requires kinds > 0
    ensures Scoped(EmitAll(t, kinds), scope) == Scoped(EmitAll(t, kinds - 1), scope) + EmitKind(t, kinds - 1, scope)
  {
    ScopedBelow(t, kinds - 1, scope, TargetBound(KeysOf(t, kinds - 1)));
    ScopedThen(EmitAll(t, kinds - 1), EmitKind(t, kinds - 1, All), EmitAll(t, kinds), scope,
                EmitKind(t, kinds - 1, scope));
  }

  lemma {:induction false} ScopedKinds(t: Targets, kinds: nat, scope: Scope)
    ensures Scoped(EmitAll(t, kinds), scope) == EmitKinds(t, kinds, scope)
    decreases kinds
  {
    if kinds > 0 {
      ScopedKinds(t, kinds - 1, scope);
      ScopedKindsStep(t, kinds, scope);
    }
  }

  /** The scoped emission is the full emission without the edges to other targets, in the same order. */
  lemma ScopedIsFiltered(t: Targets, kinds: nat, targets: seq<nat>)
    ensures Scoped(EmitAll(t, kinds), Only(targets)) == EmitAmong(t, kinds, targets)
  {
    ScopedKinds(t, kinds, Only(targets));
  }

  // ---- The loops ---------------------------------------------------------------------------------------------

  ghost predicate Ascending(js: seq<nat>) {
    forall a, b :: 0 <= a < b < |js| ==> js[a] < js[b]
  }

  predicate IsLeast(s: set<nat>, x: nat) {
    x in s && forall y :: y in s ==> x <= y
  }

  lemma {:induction false} LeastExists(s: set<nat>)
    requires s != {}
    ensures exists x {:trigger IsLeast(s, x)} :: x in s && IsLeast(s, x)
    decreases |s|
  {
    var x :| x in s;
    var rest := s - {x};
    if rest == {} {
      assert s == {x};
      assert IsLeast(s, x);
    } else {
      LeastExists(rest);
      var z :| z in rest && IsLeast(rest, z);
      assert forall y :: y in s ==> y == x || y in rest;
      assert IsLeast(s, if x < z then x else z);
    }
  }

  method Sorted(s: set<nat>) returns (js: seq<nat>)
    ensures Ascending(js) && forall x :: x in js <==> x in s
  {
    js := [];
    var rest := s;
    while rest != {}
      invariant rest <= s && Ascending(js)
      invariant forall x :: x in js <==> x in s && x !in rest
      invariant forall a, y :: 0 <= a < |js| && y in rest ==> js[a] < y
      decreases |rest|
    {
      LeastExists(rest);
      var x :| x in rest && IsLeast(rest, x);
      js := js + [x];
      rest := rest - {x};
    }
  }

  // The lists of the first n of some ascending targets.
  function EmitEach(t: Targets, k: nat, js: seq<nat>, n: nat): seq<Edge>
    requires n <= |js|
  {
    if n == 0 then [] else EmitEach(t, k, js, n - 1) + EmitList(k, js[n - 1], ListOf(t, k, js[n - 1]))
  }

  lemma {:induction false} SkipGap(t: Targets, k: nat, scope: Scope, lo: nat, hi: nat)
    requires lo <= hi && forall j: nat :: lo <= j < hi && Wanted(scope, j) ==> ListOf(t, k, j) == []
    ensures EmitBelow(t, k, scope, hi) == EmitBelow(t, k, scope, lo)
    decreases hi
  {
    if lo < hi {
      SkipGap(t, k, scope, lo, hi - 1);
      assert EmitList(k, hi - 1, []) == [];
    }
  }

  lemma NotBetween(js: seq<nat>, n: nat, j: nat)
    requires Ascending(js) && 0 < n <= |js| && j < js[n - 1] && (n > 1 ==> js[n - 2] < j)
    ensures j !in js
  {
    forall a | 0 <= a < |js| ensures js[a] != j {
      assert a < n - 2 ==> js[a] < js[n - 2];
      assert a > n - 1 ==> js[n - 1] < js[a];
    }
  }

  lemma NotAfter(js: seq<nat>, j: nat)
    requires Ascending(js) && (js != [] ==> js[|js| - 1] < j)
    ensures j !in js
  {
    forall a | 0 <= a < |js| ensures js[a] != j {
      assert a < |js| - 1 ==> js[a] < js[|js| - 1];
    }
  }

  lemma {:induction false} EachIsBelow(t: Targets, k: nat, scope: Scope, js: seq<nat>, n: nat)
    requires 0 < n <= |js| && Ascending(js) && (forall x :: x in js ==> Wanted(scope, x))
    requires forall j: nat :: Wanted(scope, j) && ListOf(t, k, j) != [] ==> j in js
    ensures EmitEach(t, k, js, n) == EmitBelow(t, k, scope, js[n - 1] + 1)
    decreases n
  {
    var lo := if n == 1 then 0 else js[n - 2] + 1;
    if n > 1 {
      EachIsBelow(t, k, scope, js, n - 1);
    }
    forall j: nat | lo <= j < js[n - 1] && Wanted(scope, j) ensures ListOf(t, k, j) == [] {
      NotBetween(js, n, j);
    }
    SkipGap(t, k, scope, lo, js[n - 1]);
  }

  lemma EachIsBelowBound(t: Targets, k: nat, scope: Scope, js: seq<nat>, top: nat, bound: nat)
    requires Ascending(js) && top == (if js == [] then 0 else js[|js| - 1] + 1) <= bound
    requires forall j: nat :: Wanted(scope, j) && ListOf(t, k, j) != [] ==> j in js
    ensures EmitBelow(t, k, scope, bound) == EmitBelow(t, k, scope, top)
  {
    forall j: nat | top <= j && Wanted(scope, j) ensures ListOf(t, k, j) == [] {
      NotAfter(js, j);
    }
    SkipGap(t, k, scope, top, bound);
  }

  /** Emitting the sorted targets one after the other is emitting the kind. */
  lemma EachIsKind(t: Targets, k: nat, scope: Scope, js: seq<nat>)
    requires Ascending(js) && (forall x :: x in js ==> Wanted(scope, x))
    requires forall j: nat :: Wanted(scope, j) && ListOf(t, k, j) != [] ==> j in js
    ensures EmitEach(t, k, js, |js|) == EmitKind(t, k, scope)
  {
    var bound := TargetBound(KeysOf(t, k));
    var top := if js == [] then 0 else js[|js| - 1] + 1;
    assert EmitEach(t, k, js, |js|) == EmitBelow(t, k, scope, top) by {
      if js != [] { EachIsBelow(t, k, scope, js, |js|); }
    }
    if top <= bound {
      EachIsBelowBound(t, k, scope, js, top, bound);
    } else {
      EmitBeyondBound(t, k, scope, top);
    }
  }

  method EmitTargets(t: Targets, k: nat, js: seq<nat>) returns (out: seq<Edge>)
    ensures out == EmitEach(t, k, js, |js|)
  {
    out := [];
    for n := 0 to |js|
      invariant out == EmitEach(t, k, js, n)
    {
      var list := ListOf(t, k, js[n]);
      ghost var was := out;
      for m := 0 to |list|
        invariant out == was + EmitList(k, js[n], list)[..m]
      {
        out := out + [Edge(list[m], k, js[n])];
      }
      assert EmitList(k, js[n], list)[..|list|] == EmitList(k, js[n], list);
    }
  }

  method EmitTargetMajor(t: Targets, kinds: nat) returns (out: seq<Edge>)
    ensures out == EmitAll(t, kinds)
  {
    out := [];
    for k := 0 to kinds
      invariant out == EmitAll(t, k)
    {
      var js := Sorted(KeysOf(t, k));
      var edges := EmitTargets(t, k, js);
      forall j: nat | ListOf(t, k, j) != [] ensures j in js {
        assert j in KeysOf(t, k);
      }
      EachIsKind(t, k, All, js);
      out := out + edges;
    }
  }

  method EmitTargetMajorAmong(t: Targets, kinds: nat, targets: seq<nat>) returns (out: seq<Edge>)
    ensures out == EmitAmong(t, kinds, targets)
  {
    var js := Sorted(set j | j in targets);
    out := [];
    for k := 0 to kinds
      invariant out == EmitAmong(t, k, targets)
    {
      var edges := EmitTargets(t, k, js);
      EachIsKind(t, k, Only(targets), js);
      out := out + edges;
    }
  }

  lemma {:induction false} ScopedMembers(es: seq<Edge>, n: nat, targets: seq<nat>, e: Edge)
    requires n <= |es|
    ensures e in Among(es, n, Only(targets)) <==> e in es[..n] && e.target in targets
    decreases n
  {
    if n > 0 {
      ScopedMembers(es, n - 1, targets, e);
      assert es[..n] == es[..n - 1] + [es[n - 1]];
    }
  }

  /** The scoped emission holds exactly the edges of the full one that point at the given targets. */
  lemma ScopedExactly(t: Targets, kinds: nat, targets: seq<nat>, e: Edge)
    ensures e in EmitAmong(t, kinds, targets) <==> e in EmitAll(t, kinds) && e.target in targets
  {
    var es := EmitAll(t, kinds);
    ScopedIsFiltered(t, kinds, targets);
    ScopedMembers(es, |es|, targets, e);
    assert es[..|es|] == es;
  }
}
