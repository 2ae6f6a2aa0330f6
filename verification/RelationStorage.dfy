/** The forward index of relations: per subject, its pairs, kept as a sorted vector while there are
    few of them and as a hash set from then on, beside a bitmask of the kinds present.

    Whatever the representation, an entry stands for one set of pairs; `View` gives those sets.
  */
module RelationStorage {
  import opened Basics
  import opened EntityPool
  import opened KindMask

  datatype Pair = Pair(kind: nat, target: Entity)

  predicate Before(p: Pair, q: Pair) {
    || p.kind < q.kind
    || (p.kind == q.kind && p.target.index < q.target.index)
    || (p.kind == q.kind && p.target.index == q.target.index && p.target.generation < q.target.generation)
  }

  ghost predicate Sorted(s: seq<Pair>) {
    forall i, j :: 0 <= i < j < |s| ==> Before(s[i], s[j])
  }

  const DENSE_THRESHOLD: nat := 8

  /** A sorted vector, or a hash set with its pairs as its table lays them out. */
  datatype Storage = Sparse(sorted: seq<Pair>) | Dense(table: seq<Pair>)

  ghost predicate StorageValid(s: Storage) {
    match s
    case Sparse(sorted) => Sorted(sorted) && |sorted| <= DENSE_THRESHOLD
    case Dense(table) => forall i, j :: 0 <= i < j < |table| ==> table[i] != table[j]
  }

  // The pairs in the order of iteration.
  function Items(s: Storage): seq<Pair> {
    match s
    case Sparse(sorted) => sorted
    case Dense(table) => table
  }

  function Elements(s: seq<Pair>): set<Pair> {
    set p | p in s
  }

  function PairsIn(s: Storage): set<Pair> {
    Elements(Items(s))
  }

  predicate SomeOfKind(pairs: set<Pair>, kind: nat) {
    exists p :: p in pairs && p.kind == kind
  }

  // ---- The sorted vector ----------------------------------------------------------------------------

  datatype Found = At(pos: nat) | Absent(pos: nat)

  method BinarySearch(s: seq<Pair>, p: Pair) returns (r: Found)
    requires Sorted(s)
    ensures r.At? ==> r.pos < |s| && s[r.pos] == p
    ensures r.Absent? ==> r.pos <= |s| && p !in s
                          && (forall i :: 0 <= i < r.pos ==> Before(s[i], p))
                          && (forall i :: r.pos <= i < |s| ==> Before(p, s[i]))
  {
    var lo, hi := 0, |s|;
    while lo < hi
      invariant 0 <= lo <= hi <= |s|
      invariant forall i :: 0 <= i < lo ==> Before(s[i], p)
      invariant forall i :: hi <= i < |s| ==> Before(p, s[i])
    {
      var mid := (lo + hi) / 2;
      if s[mid] == p { return At(mid); }
      if Before(s[mid], p) { lo := mid + 1; } else { hi := mid; }
    }
    r := Absent(lo);
  }

  lemma InsertSorted(s: seq<Pair>, pos: nat, p: Pair)
    requires Sorted(s) && pos <= |s|
    requires forall i :: 0 <= i < pos ==> Before(s[i], p)
    requires forall i :: pos <= i < |s| ==> Before(p, s[i])
    ensures Sorted(s[..pos] + [p] + s[pos..])
    ensures Elements(s[..pos] + [p] + s[pos..]) == Elements(s) + {p}
  {
    var t := s[..pos] + [p] + s[pos..];
    forall q | q in s ensures q in t {
      var i :| 0 <= i < |s| && s[i] == q;
      assert t[if i < pos then i else i + 1] == q;
    }
    assert t[pos] == p;
  }

  lemma RemoveSorted(s: seq<Pair>, pos: nat)
    requires Sorted(s) && pos < |s|
    ensures Sorted(s[..pos] + s[pos + 1..])
    ensures Elements(s[..pos] + s[pos + 1..]) == Elements(s) - {s[pos]}
  {
    var t := s[..pos] + s[pos + 1..];
    forall q | q in s && q != s[pos] ensures q in t {
      var i :| 0 <= i < |s| && s[i] == q;
      assert t[if i < pos then i else i - 1] == q;
    }
    forall i | 0 <= i < |t| ensures t[i] != s[pos] && t[i] in s {
      assert t[i] == s[if i < pos then i else i + 1];
    }
  }

  /** The vector's contents are as many as its length, so the threshold counts pairs. */
  lemma {:induction false} SortedCardinality(s: seq<Pair>)
    requires Sorted(s)
    ensures |Elements(s)| == |s|
    decreases |s|
  {
    if s != [] {
      var n := |s| - 1;
      SortedCardinality(s[..n]);
      RemoveSorted(s, n);
      assert s[..n] + s[n + 1..] == s[..n];
      assert Elements(s) == Elements(s[..n]) + {s[n]};
    } else {
      assert Elements(s) == {};
    }
  }

  // ---- Storage ------------------------------------------------------------------------------------------

  // A table of these pairs, in an order of its own choosing.
  method LaidOut(pairs: set<Pair>) returns (table: seq<Pair>)
    ensures Elements(table) == pairs && StorageValid(Dense(table))
  {
    table := [];
    var rest := pairs;
    while rest != {}
      invariant rest <= pairs && Elements(table) == pairs - rest && StorageValid(Dense(table))
      decreases |rest|
    {
      var p :| p in rest;
      assert p !in Elements(table);
      assert Elements(table + [p]) == Elements(table) + {p};
      table, rest := table + [p], rest - {p};
    }
  }

  method StorageInsert(s: Storage, p: Pair) returns (s': Storage, added: bool)
    requires StorageValid(s)
    ensures StorageValid(s') && PairsIn(s') == PairsIn(s) + {p} && added == (p !in PairsIn(s))
    ensures s'.Sparse? <==> s.Sparse? && |PairsIn(s')| <= DENSE_THRESHOLD
  {
    match s
    case Dense(table) =>
      if p in table {
        assert PairsIn(s) + {p} == PairsIn(s);
        return s, false;
      }
      var laidOut := LaidOut(Elements(table) + {p});
      s', added := Dense(laidOut), true;
    case Sparse(sorted) =>
      SortedCardinality(sorted);
      var r := BinarySearch(sorted, p);
      if r.At? {
        s', added := s, false;
        assert PairsIn(s) + {p} == PairsIn(s);
      } else {
        var grown := sorted[..r.pos] + [p] + sorted[r.pos..];
        InsertSorted(sorted, r.pos, p);
        SortedCardinality(grown);
        s', added := Sparse(grown), true;
        if |grown| > DENSE_THRESHOLD {
          var laidOut := LaidOut(Elements(grown));
          s' := Dense(laidOut);
        }
      }
  }

  method StorageRemove(s: Storage, p: Pair) returns (s': Storage, existed: bool)
    requires StorageValid(s)
    ensures StorageValid(s') && PairsIn(s') == PairsIn(s) - {p} && existed == (p in PairsIn(s))
    ensures s'.Sparse? == s.Sparse?
  {
    match s
    case Dense(table) =>
      if p !in table {
        assert PairsIn(s) - {p} == PairsIn(s);
        return s, false;
      }
      var laidOut := LaidOut(Elements(table) - {p});
      s', existed := Dense(laidOut), true;
    case Sparse(sorted) =>
      var r := BinarySearch(sorted, p);
      if r.At? {
        RemoveSorted(sorted, r.pos);
        s', existed := Sparse(sorted[..r.pos] + sorted[r.pos + 1..]), true;
      } else {
        s', existed := s, false;
        assert PairsIn(s) - {p} == PairsIn(s);
      }
  }

  method StorageContains(s: Storage, p: Pair) returns (found: bool)
    requires StorageValid(s)
    ensures found == (p in PairsIn(s))
  {
    match s
    case Dense(table) => found := p in table;
    case Sparse(sorted) =>
      var r := BinarySearch(sorted, p);
      found := r.At?;
  }

  method StorageContainsKind(s: Storage, kind: nat) returns (found: bool)
    ensures found == SomeOfKind(PairsIn(s), kind)
  {
    var items := Items(s);
    for i := 0 to |items|
      invariant forall j :: 0 <= j < i ==> items[j].kind != kind
    {
      if items[i].kind == kind {
        assert items[i] in PairsIn(s);
        return true;
      }
    }
    found := false;
  }

  /** The pair of a kind that iteration comes to first. */
  function FirstIn(items: seq<Pair>, kind: nat): Option<Pair> {
    if items == [] then None
    else if items[0].kind == kind then Some(items[0])
    else FirstIn(items[1..], kind)
  }

  lemma {:induction false} FirstInAt(items: seq<Pair>, kind: nat, i: nat)
    requires i <= |items| && forall j :: 0 <= j < i ==> items[j].kind != kind
    ensures FirstIn(items, kind) == FirstIn(items[i..], kind)
    decreases i
  {
    if i > 0 {
      FirstInAt(items, kind, i - 1);
      assert items[i - 1..][1..] == items[i..];
    }
  }

  lemma {:induction false} FirstInIsOfKind(items: seq<Pair>, kind: nat)
    ensures FirstIn(items, kind).None? <==> !SomeOfKind(Elements(items), kind)
    ensures FirstIn(items, kind).Some? ==>
              FirstIn(items, kind).value in items && FirstIn(items, kind).value.kind == kind
  {
    if items != [] && items[0].kind != kind {
      FirstInIsOfKind(items[1..], kind);
      assert forall p :: p in items <==> p == items[0] || p in items[1..];
    } else if items != [] {
      assert items[0] in Elements(items);
    }
  }

  /** In a vector the first pair of a kind is the one with the least target. */
  lemma {:induction false} FirstInIsLeast(items: seq<Pair>, kind: nat, p: Pair)
    requires Sorted(items) && p in items && p.kind == kind
    ensures FirstIn(items, kind) == Some(p) || (FirstIn(items, kind).Some? && Before(FirstIn(items, kind).value, p))
  {
    if items[0].kind != kind {
      FirstInIsLeast(items[1..], kind, p);
    } else if items[0] != p {
      var i :| 0 < i < |items| && items[i] == p;
      assert Before(items[0], items[i]);
    }
  }

  // The pair found first: in a vector the one with the least target, in a hash set wherever the table has it.
  method StorageFirstWithKind(s: Storage, kind: nat) returns (first: Option<Pair>)
    requires StorageValid(s)
    ensures first == FirstIn(Items(s), kind)
    ensures first.None? <==> !SomeOfKind(PairsIn(s), kind)
    ensures first.Some? ==> first.value in PairsIn(s) && first.value.kind == kind
    ensures first.Some? && s.Sparse? ==>
              forall p :: p in PairsIn(s) && p.kind == kind ==> p == first.value || Before(first.value, p)
  {
    var items := Items(s);
    FirstInIsOfKind(items, kind);
    if s.Sparse? {
      forall p | p in items && p.kind == kind
        ensures FirstIn(items, kind) == Some(p) || Before(FirstIn(items, kind).value, p)
      {
        FirstInIsLeast(items, kind, p);
      }
    }
    for i := 0 to |items|
      invariant forall j :: 0 <= j < i ==> items[j].kind != kind
    {
      if items[i].kind == kind {
        FirstInAt(items, kind, i);
        return Some(items[i]);
      }
    }
    FirstInAt(items, kind, |items|);
    first := None;
  }

  // ---- Entries ---------------------------------------------------------------------------------------------

  predicate MarksKind(mask: bv64, kind: nat)
    requires kind < 64
  {
    MaskHas(mask, kind as bv6)
  }

  ghost function KindsOf(mask: bv64): set<nat> {
    set k: nat | k < 64 && MarksKind(mask, k)
  }

  lemma MarkAfterSet(mask: bv64, kind: nat, k: nat)
    requires kind < 64 && k < 64
    ensures MarksKind(mask | Bit(kind as bv6), k) <==> k == kind || MarksKind(mask, k)
  {
    SetBit(mask, kind as bv6, k as bv6);
    CastIsInjective(k, kind);
  }

  lemma MarkCleared(mask: bv64, kind: nat)
    requires kind < 64
    ensures !MarksKind(mask & !Bit(kind as bv6), kind)
  {
    ClearBit(mask, kind as bv6, kind as bv6);
  }

  lemma MarkKept(mask: bv64, kind: nat, k: nat)
    requires kind < 64 && k < 64 && k != kind
    ensures MarksKind(mask & !Bit(kind as bv6), k) <==> MarksKind(mask, k)
  {
    CastIsInjective(k, kind);
    ClearBit(mask, kind as bv6, k as bv6);
  }

  /** Setting a kind's bit adds that kind and no other. */
  lemma SetBitAddsKind(mask: bv64, kind: nat)
    requires kind < 64
    ensures KindsOf(mask | Bit(kind as bv6)) == KindsOf(mask) + {kind}
  {
    forall k: nat | k < 64 ensures MarksKind(mask | Bit(kind as bv6), k) <==> k == kind || MarksKind(mask, k) {
      MarkAfterSet(mask, kind, k);
    }
  }

  /** Clearing a kind's bit drops that kind and no other. */
  lemma ClearBitDropsKind(mask: bv64, kind: nat)
    requires kind < 64
    ensures KindsOf(mask & !Bit(kind as bv6)) == KindsOf(mask) - {kind}
  {
    forall k: nat | k < 64 ensures MarksKind(mask & !Bit(kind as bv6), k) <==> k != kind && MarksKind(mask, k) {
      if k == kind { MarkCleared(mask, kind); } else { MarkKept(mask, kind, k); }
    }
  }

  lemma ZeroHasNoKind()
    ensures KindsOf(0) == {}
  {
  }

  datatype Entry = Entry(mask: bv64, storage: Storage)

  const EMPTY_ENTRY: Entry := Entry(0, Sparse([]))

  // The kinds below 64 that a set of pairs has.
  ghost function KindsPresent(pairs: set<Pair>): set<nat> {
    set p | p in pairs && p.kind < 64 :: p.kind
  }

  ghost predicate EntryValid(e: Entry) {
    StorageValid(e.storage) && KindsOf(e.mask) == KindsPresent(PairsIn(e.storage))
  }

  lemma EmptyEntryValid()
    ensures EntryValid(EMPTY_ENTRY) && PairsIn(EMPTY_ENTRY.storage) == {}
  {
    ZeroHasNoKind();
  }

  method EntryHasKind(e: Entry, kind: nat) returns (found: bool)
    requires EntryValid(e)
    ensures found == SomeOfKind(PairsIn(e.storage), kind)
  {
    if kind >= 64 {
      found := StorageContainsKind(e.storage, kind);
    } else {
      found := MarksKind(e.mask, kind);
      assert found == (kind in KindsOf(e.mask));
    }
  }

  lemma KindsAfterInsertion(pairs: set<Pair>, p: Pair)
    ensures KindsPresent(pairs + {p}) == KindsPresent(pairs) + if p.kind < 64 then {p.kind} else {}
  {
    assert p.kind < 64 ==> p in pairs + {p};
  }

  // The mask with the kind's bit, where it has room for it.
  function Marked(mask: bv64, kind: nat): (marked: bv64)
    ensures KindsOf(marked) == KindsOf(mask) + if kind < 64 then {kind} else {}
  {
    if kind < 64 then SetBitAddsKind(mask, kind); mask | Bit(kind as bv6) else mask
  }

  function Unmarked(mask: bv64, kind: nat): (unmarked: bv64)
    ensures KindsOf(unmarked) == if kind < 64 then KindsOf(mask) - {kind} else KindsOf(mask)
  {
    if kind < 64 then ClearBitDropsKind(mask, kind); mask & !Bit(kind as bv6) else mask
  }

  lemma KindsBeyondMask(pairs: set<Pair>, p: Pair)
    requires p.kind >= 64
    ensures KindsPresent(pairs - {p}) == KindsPresent(pairs)
  {
  }

  method EntryInsert(e: Entry, p: Pair) returns (e': Entry, added: bool)
    requires EntryValid(e)
    ensures EntryValid(e') && PairsIn(e'.storage) == PairsIn(e.storage) + {p} && added == (p !in PairsIn(e.storage))
    ensures e'.storage.Sparse? <==> e.storage.Sparse? && |PairsIn(e'.storage)| <= DENSE_THRESHOLD
  {
    var s;
    s, added := StorageInsert(e.storage, p);
    if added {
      e' := Entry(Marked(e.mask, p.kind), s);
      KindsAfterInsertion(PairsIn(e.storage), p);
    } else {
      e' := Entry(e.mask, s);
      assert PairsIn(s) == PairsIn(e.storage);
    }
  }

  method EntryRemove(e: Entry, p: Pair) returns (e': Entry, existed: bool)
    requires EntryValid(e)
    ensures EntryValid(e') && PairsIn(e'.storage) == PairsIn(e.storage) - {p} && existed == (p in PairsIn(e.storage))
    ensures e'.storage.Sparse? == e.storage.Sparse?
  {
    var s;
    s, existed := StorageRemove(e.storage, p);
    e' := Entry(e.mask, s);
    if existed && p.kind < 64 {
      var remains := StorageContainsKind(s, p.kind);
      KindsAfterRemoval(PairsIn(e.storage), p);
      if !remains { e' := Entry(Unmarked(e.mask, p.kind), s); }
    } else if existed {
      KindsBeyondMask(PairsIn(e.storage), p);
    } else {
      assert PairsIn(s) == PairsIn(e.storage);
    }
  }

  lemma KindsAfterRemoval(pairs: set<Pair>, p: Pair)
    requires p in pairs && p.kind < 64
    ensures KindsPresent(pairs - {p}) ==
            if SomeOfKind(pairs - {p}, p.kind) then KindsPresent(pairs) else KindsPresent(pairs) - {p.kind}
  {
    forall k | k in KindsPresent(pairs) && k != p.kind ensures k in KindsPresent(pairs - {p}) {
      var q :| q in pairs && q.kind == k && q.kind < 64;
      assert q in pairs - {p};
    }
    if q :| q in pairs - {p} && q.kind == p.kind {
      assert p.kind in KindsPresent(pairs - {p});
    }
  }

  method EntryHas(e: Entry, p: Pair) returns (found: bool)
    requires EntryValid(e)
    ensures found == (p in PairsIn(e.storage))
  {
    var kind := EntryHasKind(e, p.kind);
    if kind { found := StorageContains(e.storage, p); } else { found := false; }
  }
}
