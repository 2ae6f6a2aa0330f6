/** Ordered lists of siblings: insertion, removal and the order of everyone else. */
module Lists {
  function InsertedAt<T>(list: seq<T>, pos: nat, x: T): seq<T>
    requires pos <= |list|
  {
    list[..pos] + [x] + list[pos..]
  }

  function WithoutAt<T>(list: seq<T>, pos: nat): seq<T>
    requires pos < |list|
  {
    list[..pos] + list[pos + 1..]
  }

  ghost predicate NoRepeats<T>(list: seq<T>) {
    forall i, j :: 0 <= i < j < |list| ==> list[i] != list[j]
  }

  /** The position of the first occurrence, or the length. */
  function FirstAt<T(==)>(list: seq<T>, x: T): (pos: nat)
    ensures pos <= |list| && (pos < |list| <==> x in list) && (pos < |list| ==> list[pos] == x)
    ensures forall i :: 0 <= i < pos ==> list[i] != x
  {
    if list == [] then 0
    else
      var early := FirstAt(list[..|list| - 1], x);
      if early < |list| - 1 then early else if list[|list| - 1] == x then |list| - 1 else |list|
  }

  function OthersUpTo<T(==)>(list: seq<T>, n: nat, x: T): seq<T>
    requires n <= |list|
  {
    if n == 0 then [] else OthersUpTo(list, n - 1, x) + if list[n - 1] == x then [] else [list[n - 1]]
  }

  // The list as everyone but x sees it.
  function Others<T(==)>(list: seq<T>, x: T): seq<T> {
    OthersUpTo(list, |list|, x)
  }

  lemma {:induction false} OthersOfPrefix<T>(a: seq<T>, list: seq<T>, n: nat, x: T)
    requires n <= |a| <= |list| && forall i :: 0 <= i < n ==> list[i] == a[i]
    ensures OthersUpTo(list, n, x) == OthersUpTo(a, n, x)
    decreases n
  {
    if n > 0 {
      OthersOfPrefix(a, list, n - 1, x);
    }
  }

  lemma {:induction false} OthersJoin<T>(a: seq<T>, b: seq<T>, list: seq<T>, n: nat, x: T)
    requires list == a + b && n <= |b|
    ensures OthersUpTo(list, |a| + n, x) == Others(a, x) + OthersUpTo(b, n, x)
    decreases n
  {
    if n == 0 {
      OthersOfPrefix(a, list, |a|, x);
    } else {
      OthersJoin(a, b, list, n - 1, x);
      assert list[|a| + n - 1] == b[n - 1];
    }
  }

  lemma OthersJoins<T>(a: seq<T>, b: seq<T>, x: T)
    ensures Others(a + b, x) == Others(a, x) + Others(b, x)
  {
    OthersJoin(a, b, a + b, |b|, x);
  }

  lemma OthersOfThree<T>(a: seq<T>, x: T, b: seq<T>)
    ensures Others(a + [x] + b, x) == Others(a, x) + Others(b, x)
  {
    OthersJoins(a + [x], b, x);
    OthersJoins(a, [x], x);
    assert OthersUpTo([x], 1, x) == OthersUpTo([x], 0, x) + [];
  }

  lemma OthersSplit<T>(list: seq<T>, pos: nat, x: T)
    requires pos <= |list|
    ensures Others(list, x) == Others(list[..pos], x) + Others(list[pos..], x)
  {
    OthersJoin(list[..pos], list[pos..], list, |list| - pos, x);
  }

  /** Inserting or removing an element keeps the others and their order. */
  lemma InsertKeepsOthers<T>(list: seq<T>, pos: nat, x: T)
    requires pos <= |list|
    ensures Others(InsertedAt(list, pos, x), x) == Others(list, x)
  {
    OthersSplit(list, pos, x);
    OthersOfThree(list[..pos], x, list[pos..]);
  }

  lemma RemoveThenInsert<T>(list: seq<T>, pos: nat)
    requires pos < |list|
    ensures InsertedAt(WithoutAt(list, pos), pos, list[pos]) == list
  {
  }

  lemma RemoveKeepsOthers<T>(list: seq<T>, pos: nat)
    requires pos < |list|
    ensures Others(WithoutAt(list, pos), list[pos]) == Others(list, list[pos])
  {
    RemoveThenInsert(list, pos);
    InsertKeepsOthers(WithoutAt(list, pos), pos, list[pos]);
  }

  lemma InsertMembers<T>(list: seq<T>, pos: nat, x: T, y: T)
    requires pos <= |list|
    ensures y in InsertedAt(list, pos, x) <==> y == x || y in list
  {
    var longer := InsertedAt(list, pos, x);
    assert longer[pos] == x;
    if y in list {
      var i := FirstAt(list, y);
      assert longer[if i < pos then i else i + 1] == y;
    }
  }

  lemma InsertNoRepeats<T>(list: seq<T>, pos: nat, x: T)
    requires pos <= |list| && NoRepeats(list) && x !in list
    ensures NoRepeats(InsertedAt(list, pos, x))
  {
  }

  lemma RemoveMembers<T>(list: seq<T>, pos: nat, y: T)
    requires pos < |list| && NoRepeats(list)
    ensures y in WithoutAt(list, pos) <==> y != list[pos] && y in list
    ensures NoRepeats(WithoutAt(list, pos))
  {
    var shorter := WithoutAt(list, pos);
    assert forall i :: 0 <= i < |shorter| ==> shorter[i] == list[if i < pos then i else i + 1];
    if y in list && y != list[pos] {
      var i := FirstAt(list, y);
      assert shorter[if i < pos then i else i - 1] == y;
    }
  }

  lemma InsertThenRemove<T>(list: seq<T>, pos: nat, x: T)
    requires pos <= |list| && x !in list
    ensures var longer := InsertedAt(list, pos, x);
            x in longer && FirstAt(longer, x) == pos && WithoutAt(longer, pos) == list
  {
    var longer := InsertedAt(list, pos, x);
    assert longer[pos] == x;
    assert forall i :: 0 <= i < pos ==> longer[i] == list[i];
  }

  lemma {:induction false} OthersMembers<T>(list: seq<T>, n: nat, x: T, y: T)
    requires n <= |list|
    ensures y in OthersUpTo(list, n, x) <==> y != x && y in list[..n]
    decreases n
  {
    if n > 0 {
      OthersMembers(list, n - 1, x, y);
      assert list[..n] == list[..n - 1] + [list[n - 1]];
    }
  }

  lemma {:induction false} OthersNoRepeats<T>(list: seq<T>, n: nat, x: T)
    requires n <= |list| && NoRepeats(list)
    ensures NoRepeats(OthersUpTo(list, n, x))
    decreases n
  {
    if n > 0 {
      OthersNoRepeats(list, n - 1, x);
      OthersMembers(list, n - 1, x, list[n - 1]);
      assert list[n - 1] !in list[..n - 1];
    }
  }

  /** Without repeats, dropping an element is seeing the list as everyone else does. */
  lemma RemovedIsOthers<T>(list: seq<T>, x: T)
    requires NoRepeats(list)
    ensures Others(list, x) == if x in list then WithoutAt(list, FirstAt(list, x)) else list
  {
    if x in list {
      var pos := FirstAt(list, x);
      RemoveKeepsOthers(list, pos);
      RemoveMembers(list, pos, x);
      OthersOfStranger(WithoutAt(list, pos), |list| - 1, x);
      assert WithoutAt(list, pos)[..|list| - 1] == WithoutAt(list, pos);
    } else {
      OthersOfStranger(list, |list|, x);
      assert list[..|list|] == list;
    }
  }

  lemma {:induction false} OthersOfStranger<T>(list: seq<T>, n: nat, x: T)
    requires n <= |list| && x !in list
    ensures OthersUpTo(list, n, x) == list[..n]
    decreases n
  {
    if n > 0 {
      OthersOfStranger(list, n - 1, x);
    }
  }
}
