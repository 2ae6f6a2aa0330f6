/** Parent functions and their ancestor chains: when re-parenting one node keeps a forest a forest. */
module Forests {
  import opened Basics

  type Parents = nat -> Option<nat>

  // The n-th ancestor.
  ghost function Up(p: Parents, i: nat, n: nat): Option<nat>
    decreases n
  {
    if n == 0 then Some(i)
    else match p(i) case None => None case Some(j) => Up(p, j, n - 1)
  }

  ghost predicate Acyclic(p: Parents) {
    forall i: nat, n: nat {:trigger Up(p, i, n)} :: n > 0 ==> Up(p, i, n) != Some(i)
  }

  ghost predicate Above(p: Parents, i: nat, a: nat) {
    exists n: nat :: n > 0 && Up(p, i, n) == Some(a)
  }

  function Reparented(p: Parents, s: nat, t: nat): Parents {
    (x: nat) => if x == s then Some(t) else p(x)
  }

  lemma {:induction false} UpAdds(p: Parents, i: nat, m: nat, n: nat)
    ensures Up(p, i, m + n) == match Up(p, i, m) case None => None case Some(j) => Up(p, j, n)
    decreases m
  {
    if m > 0 && p(i).Some? {
      UpAdds(p, p(i).value, m - 1, n);
    }
  }

  // Chains that stay away from the one node where two functions differ are the same.
  lemma {:induction false} SameAwayFrom(p: Parents, q: Parents, s: nat, i: nat, n: nat)
    requires forall x: nat :: x != s ==> q(x) == p(x)
    requires forall m: nat {:trigger Up(p, i, m)} :: m < n ==> Up(p, i, m) != Some(s)
    ensures Up(q, i, n) == Up(p, i, n)
    decreases n
  {
    if n > 0 {
      assert Up(p, i, 0) != Some(s);
      assert q(i) == p(i);
      if p(i).Some? {
        forall m: nat | m < n - 1 ensures Up(p, p(i).value, m) != Some(s) {
          assert Up(p, i, m + 1) == Up(p, p(i).value, m);
        }
        SameAwayFrom(p, q, s, p(i).value, n - 1);
      }
    }
  }

  lemma {:induction false} LeastHit(p: Parents, i: nat, s: nat, n: nat) returns (m: nat)
    requires Up(p, i, n) == Some(s)
    ensures m <= n && Up(p, i, m) == Some(s)
    ensures forall l: nat {:trigger Up(p, i, l)} :: l < m ==> Up(p, i, l) != Some(s)
    decreases n
  {
    if l: nat :| l < n && Up(p, i, l) == Some(s) {
      m := LeastHit(p, i, s, l);
    } else {
      m := n;
    }
  }

  lemma HitWithoutEdge(p: Parents, q: Parents, s: nat, i: nat, n: nat)
    requires (forall x: nat :: x != s ==> q(x) == p(x)) && Up(q, i, n) == Some(s)
    ensures exists m: nat :: m <= n && Up(p, i, m) == Some(s)
  {
    var m := LeastHit(q, i, s, n);
    SameAwayFrom(q, p, s, i, m);
  }

  lemma CycleThroughNode(p: Parents, i: nat, n: nat, j: nat, s: nat)
    requires Up(p, i, n) == Some(i) && Up(p, i, j) == Some(s)
    ensures Up(p, s, n) == Some(s)
  {
    UpAdds(p, i, n, j);
    UpAdds(p, i, j, n);
    assert n + j == j + n;
  }

  // A cycle after re-parenting runs through the new edge, and so up from t to s.
  lemma CycleUsesNewEdge(p: Parents, s: nat, t: nat, i: nat, n: nat)
    requires Acyclic(p) && n > 0 && Up(Reparented(p, s, t), i, n) == Some(i)
    ensures t == s || Above(p, t, s)
  {
    var q := Reparented(p, s, t);
    if j: nat :| j < n && Up(q, i, j) == Some(s) {
      CycleThroughNode(q, i, n, j, s);
      assert Up(q, t, n - 1) == Some(s);
      HitWithoutEdge(p, q, s, t, n - 1);
      var m: nat :| m <= n - 1 && Up(p, t, m) == Some(s);
      assert m == 0 ==> t == s;
    } else {
      SameAwayFrom(q, p, s, i, n);
    }
  }

  lemma ReparentedStaysAcyclic(p: Parents, s: nat, t: nat)
    requires Acyclic(p) && t != s && !Above(p, t, s)
    ensures Acyclic(Reparented(p, s, t))
  {
    var q := Reparented(p, s, t);
    forall i: nat, n: nat | n > 0 ensures Up(q, i, n) != Some(i) {
      if Up(q, i, n) == Some(i) {
        CycleUsesNewEdge(p, s, t, i, n);
      }
    }
  }

  /** The edge s -> t closes a cycle exactly when s is t or one of its ancestors. */
  lemma ReparentedAcyclicExactly(p: Parents, s: nat, t: nat)
    requires Acyclic(p)
    ensures Acyclic(Reparented(p, s, t)) <==> t != s && !Above(p, t, s)
  {
    var q := Reparented(p, s, t);
    if t == s {
      assert Up(q, s, 1) == Up(q, t, 0);
    } else if Above(p, t, s) {
      var n: nat :| n > 0 && Up(p, t, n) == Some(s);
      var m := LeastHit(p, t, s, n);
      SameAwayFrom(p, q, s, t, m);
      assert Up(q, s, m + 1) == Up(q, t, m);
    } else {
      ReparentedStaysAcyclic(p, s, t);
    }
  }

  lemma {:induction false} FewerEdgesUp(p: Parents, q: Parents, i: nat, n: nat)
    requires forall x: nat :: q(x) == p(x) || q(x) == None
    ensures Up(q, i, n) == Up(p, i, n) || Up(q, i, n) == None
    decreases n
  {
    if n > 0 && q(i).Some? {
      FewerEdgesUp(p, q, q(i).value, n - 1);
    }
  }

  lemma FewerEdgesAcyclic(p: Parents, q: Parents)
    requires Acyclic(p) && forall x: nat :: q(x) == p(x) || q(x) == None
    ensures Acyclic(q)
  {
    forall i: nat, n: nat | n > 0 ensures Up(q, i, n) != Some(i) {
      FewerEdgesUp(p, q, i, n);
    }
  }

  // ---- How long a chain can be -----------------------------------------------------------------------

  ghost function Chain(p: Parents, i: nat, n: nat): set<nat>
    requires Up(p, i, n).Some?
    decreases n
  {
    if n == 0 then {} else UpEarlier(p, i, n - 1, n); Chain(p, i, n - 1) + {Up(p, i, n).value}
  }

  lemma UpEarlier(p: Parents, i: nat, m: nat, n: nat)
    requires m <= n && Up(p, i, n).Some?
    ensures Up(p, i, m).Some?
  {
    UpAdds(p, i, m, n - m);
  }

  lemma {:induction false} ChainMembers(p: Parents, i: nat, n: nat, x: nat)
    requires Up(p, i, n).Some? && x in Chain(p, i, n)
    ensures exists m: nat :: 0 < m <= n && Up(p, i, m) == Some(x)
    decreases n
  {
    if n > 0 {
      UpEarlier(p, i, n - 1, n);
      if x in Chain(p, i, n - 1) {
        ChainMembers(p, i, n - 1, x);
        var m: nat :| 0 < m <= n - 1 && Up(p, i, m) == Some(x);
      } else {
        assert Up(p, i, n) == Some(x);
      }
    }
  }

  lemma {:induction false} ChainHasNoRepeats(p: Parents, i: nat, n: nat)
    requires Acyclic(p) && Up(p, i, n).Some?
    ensures |Chain(p, i, n)| == n
    decreases n
  {
    if n > 0 {
      UpEarlier(p, i, n - 1, n);
      ChainHasNoRepeats(p, i, n - 1);
      var x := Up(p, i, n).value;
      if x in Chain(p, i, n - 1) {
        ChainMembers(p, i, n - 1, x);
        var m: nat :| 0 < m <= n - 1 && Up(p, i, m) == Some(x);
        UpAdds(p, i, m, n - m);
      }
    }
  }

  /** In a forest a chain of ancestors within a finite set is no longer than the set is large. */
  lemma ChainFits(p: Parents, i: nat, n: nat, nodes: set<nat>)
    requires Acyclic(p) && Up(p, i, n).Some?
    requires forall x: nat :: p(x).Some? ==> p(x).value in nodes
    ensures n <= |nodes|
  {
    ChainHasNoRepeats(p, i, n);
    forall x | x in Chain(p, i, n) ensures x in nodes {
      ChainMembers(p, i, n, x);
      var m: nat :| 0 < m <= n && Up(p, i, m) == Some(x);
      UpEarlier(p, i, m - 1, m);
      UpAdds(p, i, m - 1, 1);
      assert Up(p, Up(p, i, m - 1).value, 1) == Some(x);
    }
    SubsetIsSmaller(Chain(p, i, n), nodes);
  }
}
