/** The forward index: subject index to its pairs. */
module RelationSubjects {
  import opened Basics
  import opened Forests
  import opened RelationStorage

  // What the entries stand for: a set of pairs per subject index.
  type Pairs = seq<set<Pair>>

  function PairsAt(v: Pairs, i: nat): set<Pair> {
    if i < |v| then v[i] else {}
  }

  function Ensured(v: Pairs, i: nat): Pairs {
    if i >= |v| then v + seq(i + 1 - |v|, _ => {}) else v
  }

  function Inserted(v: Pairs, i: nat, p: Pair): (r: Pairs)
    ensures forall j :: PairsAt(r, j) == if j == i then PairsAt(v, i) + {p} else PairsAt(v, j)
  {
    var w := Ensured(v, i);
    w[i := w[i] + {p}]
  }

  function Removed(v: Pairs, i: nat, p: Pair): (r: Pairs)
    ensures forall j :: PairsAt(r, j) == if j == i then PairsAt(v, i) - {p} else PairsAt(v, j)
  {
    if i < |v| then v[i := v[i] - {p}] else v
  }

  function Cleared(v: Pairs, i: nat): (r: Pairs)
    ensures forall j :: PairsAt(r, j) == if j == i then {} else PairsAt(v, j)
  {
    if i < |v| then v[i := {}] else v
  }

  ghost function ViewOf(entries: seq<Entry>): Pairs {
    seq(|entries|, i requires 0 <= i < |entries| => PairsIn(entries[i].storage))
  }

  ghost predicate AllValid(entries: seq<Entry>) {
    forall i :: 0 <= i < |entries| ==> EntryValid(entries[i])
  }

  // Where the first pair of a kind points.
  function FirstTarget(entries: seq<Entry>, i: nat, kind: nat): Option<nat> {
    if i >= |entries| then None
    else match FirstIn(Items(entries[i].storage), kind) case None => None case Some(p) => Some(p.target.index)
  }

  class SubjectIndex {
    var entries: seq<Entry>

    /** The subject's pairs stand in a sorted vector. */
    ghost predicate InVector(i: nat)
      reads this
    {
      i < |entries| ==> entries[i].storage.Sparse?
    }

    /** Every index's first pair of the kind, as a parent. */
    ghost function Firsts(kind: nat): Parents
      reads this
    {
      var es := entries; (i: nat) => FirstTarget(es, i, kind)
    }

    ghost predicate Valid()
      reads this
    {
      AllValid(entries)
    }

    ghost function View(): Pairs
      reads this
    {
      ViewOf(entries)
    }

    constructor ()
      ensures Valid() && View() == []
    {
      entries := [];
    }

    method Ensure(i: nat)
      requires Valid()
      modifies this
      ensures Valid() && |entries| > i && View() == Ensured(old(View()), i)
      ensures forall j: nat :: InVector(j) <==> old(InVector(j))
    {
      if i >= |entries| {
        EmptyEntryValid();
        entries := entries + seq(i + 1 - |entries|, _ => EMPTY_ENTRY);
      }
    }

    method Insert(i: nat, p: Pair) returns (added: bool)
      requires Valid()
      modifies this
      ensures Valid() && View() == Inserted(old(View()), i, p) && added == (p !in PairsAt(old(View()), i))
      ensures forall j: nat :: old(InVector(j)) && |PairsAt(View(), j)| <= DENSE_THRESHOLD ==> InVector(j)
    {
      Ensure(i);
      var e;
      e, added := EntryInsert(entries[i], p);
      ghost var was := View();
      entries := entries[i := e];
      assert View() == was[i := was[i] + {p}];
    }

    method Remove(i: nat, p: Pair) returns (existed: bool)
      requires Valid()
      modifies this
      ensures Valid() && View() == Removed(old(View()), i, p) && existed == (p in PairsAt(old(View()), i))
      ensures forall j: nat :: InVector(j) <==> old(InVector(j))
    {
      if i < |entries| {
        var e;
        e, existed := EntryRemove(entries[i], p);
        ghost var was := View();
        entries := entries[i := e];
        assert View() == was[i := was[i] - {p}];
      } else {
        existed := false;
      }
    }

    /** Exact for every kind, whether the mask has room for it or not. */
    method Has(i: nat, p: Pair) returns (found: bool)
      requires Valid()
      ensures found == (p in PairsAt(View(), i))
    {
      if i < |entries| { found := EntryHas(entries[i], p); } else { found := false; }
    }

    method FirstWithKind(i: nat, kind: nat) returns (first: Option<Pair>)
      requires Valid()
      ensures first.None? <==> !SomeOfKind(PairsAt(View(), i), kind)
      ensures first.Some? ==> first.value in PairsAt(View(), i) && first.value.kind == kind
      ensures Firsts(kind)(i) == match first case None => None case Some(p) => Some(p.target.index)
    {
      if i < |entries| { FirstInIsOfKind(Items(entries[i].storage), kind); }
      if i >= |entries| { return None; }
      var some := EntryHasKind(entries[i], kind);
      if !some { return None; }
      first := StorageFirstWithKind(entries[i].storage, kind);
    }

    /** Each index's first pair of a kind is one of its pairs of the kind, if it has any. */
    lemma FirstsArePairs(i: nat, kind: nat)
      ensures match Firsts(kind)(i)
              case None => !SomeOfKind(PairsAt(View(), i), kind)
              case Some(j) => exists p :: p in PairsAt(View(), i) && p.kind == kind && p.target.index == j
    {
      if i < |entries| { FirstInIsOfKind(Items(entries[i].storage), kind); }
    }

    /** In a vector it is the one with the least target. */
    lemma FirstsAreLeast(i: nat, p: Pair)
      requires Valid() && InVector(i) && p in PairsAt(View(), i)
      ensures Firsts(p.kind)(i).Some? && Firsts(p.kind)(i).value <= p.target.index
    {
      assert EntryValid(entries[i]);
      FirstInIsOfKind(Items(entries[i].storage), p.kind);
      FirstInIsLeast(Items(entries[i].storage), p.kind, p);
    }

    /** Takes every pair of a subject and leaves it none. */
    method TakeAll(i: nat) returns (taken: set<Pair>)
      requires Valid()
      modifies this
      ensures Valid() && taken == PairsAt(old(View()), i) && View() == Cleared(old(View()), i)
    {
      taken := {};
      if i < |entries| {
        taken := PairsIn(entries[i].storage);
        if taken != {} {
          ghost var was := View();
          ZeroHasNoKind();
          var emptied := if entries[i].storage.Sparse? then Sparse([]) else Dense([]);
          assert PairsIn(emptied) == {} && KindsPresent({}) == {};
          entries := entries[i := Entry(0, emptied)];
          assert View() == was[i := {}];
        } else {
          assert View() == View()[i := {}];
        }
      }
    }
  }
}
