/** The key under which the archetypes matching a query shape are cached.

    A key is a flat list of 64-bit items: a component id with its role in the high half, or one of
    the two markers around an `Or`. Its meaning is given by a machine that reads it left to right;
    a shape is compiled to its key, and the machine computes what the shape asks for.
  */
module QueryCacheKey {
  import Columns
  import opened QueryShapes

  type Item = nat

  const LOW: nat := 0x1_0000_0000
  const KEY_ROLE_WITHOUT: Item := 0x1_0000_0000
  const KEY_ROLE_OPTIONAL: Item := 0x2_0000_0000
  const KEY_OR_OPEN: Item := 0x4_0000_0000
  const KEY_OR_CLOSE: Item := 0x5_0000_0000
  // What the program's keys have not: marks around a tuple inside an `Or`.
  const TUPLE_OPEN: Item := 0x6_0000_0000
  const TUPLE_CLOSE: Item := 0x7_0000_0000

  predicate RegistryValid(r: Registry) {
    forall c :: c in r ==> r[c] < INVALID
  }

  // The marker bit is bit 34, the third of the high half.
  predicate IsMarker(e: Item) {
    (e / KEY_OR_OPEN) % 2 == 1
  }

  function Role(form: Form): Item {
    match form
    case Without => KEY_ROLE_WITHOUT
    case Maybe => KEY_ROLE_OPTIONAL
    case MaybeWrite => KEY_ROLE_OPTIONAL
    case _ => 0
  }

  function CacheKey(r: Registry, s: Shape): seq<Item> {
    match s
    case Unit => []
    case EntityId => []
    case One(form, c) => [IdOf(r, c) + Role(form)]
    case Tuple(ps) => CacheKeys(r, ps)
    case Or(bs) => [KEY_OR_OPEN] + CacheKeys(r, bs) + [KEY_OR_CLOSE]
  }

  function CacheKeys(r: Registry, ss: Shapes): seq<Item> {
    match ss
    case Nil => []
    case Cons(s, rest) => CacheKey(r, s) + CacheKeys(r, rest)
  }

  // The ids a cached query runs on are read back from the key.
  function IdsOfKey(key: seq<Item>): seq<Id> {
    if key == [] then []
    else if IsMarker(key[0]) then IdsOfKey(key[1..])
    else [key[0] % LOW] + IdsOfKey(key[1..])
  }

  lemma {:induction false} IdsOfConcat(a: seq<Item>, b: seq<Item>)
    ensures IdsOfKey(a + b) == IdsOfKey(a) + IdsOfKey(b)
  {
    if a == [] {
      assert a + b == b;
    } else {
      assert (a + b)[0] == a[0] && (a + b)[1..] == a[1..] + b;
      IdsOfConcat(a[1..], b);
    }
  }

  /** For every shape, the key without its markers is the id list, entry by entry. */
  lemma {:induction false} KeyCarriesIds(r: Registry, s: Shape)
    requires RegistryValid(r)
    ensures IdsOfKey(CacheKey(r, s)) == FillIds(r, s)
  {
    match s
    case One(form, c) =>
      var e := IdOf(r, c) + Role(form);
      assert !IsMarker(e) && e % LOW == IdOf(r, c);
      assert IdsOfKey([e][1..]) == [];
    case Tuple(ps) => KeysCarryIds(r, ps);
    case Or(bs) =>
      KeysCarryIds(r, bs);
      IdsOfConcat([KEY_OR_OPEN] + CacheKeys(r, bs), [KEY_OR_CLOSE]);
      IdsOfConcat([KEY_OR_OPEN], CacheKeys(r, bs));
      MarkersCarryNothing();
    case _ =>
  }

  lemma MarkersCarryNothing()
    ensures IdsOfKey([KEY_OR_OPEN]) == [] && IdsOfKey([KEY_OR_CLOSE]) == []
  {
    assert [KEY_OR_OPEN][1..] == [] && [KEY_OR_CLOSE][1..] == [];
  }

  lemma {:induction false} KeysCarryIds(r: Registry, ss: Shapes)
    requires RegistryValid(r)
    ensures IdsOfKey(CacheKeys(r, ss)) == FillAll(r, ss)
  {
    if ss.Cons? {
      KeyCarriesIds(r, ss.head);
      KeysCarryIds(r, ss.tail);
      IdsOfConcat(CacheKey(r, ss.head), CacheKeys(r, ss.tail));
    }
  }

  // ---- Reading a key --------------------------------------------------------------------------------

  // One level of nesting: a conjunction or a disjunction, with what it has come to so far.
  datatype Level = All(value: bool) | Any(value: bool)

  datatype Stack = Bottom | Under(level: Level, rest: Stack)

  function Feed(l: Level, m: bool): Level {
    match l
    case All(b) => All(b && m)
    case Any(b) => Any(b || m)
  }

  predicate ItemMatches(a: Archetype, e: Item) {
    var id := e % LOW;
    if e / LOW == 0 then HasComponent(a, id)
    else if e / LOW == 1 then !HasComponent(a, id)
    else true
  }

  function Read(a: Archetype, key: seq<Item>, top: Level, below: Stack): bool
    decreases |key|
  {
    if key == [] then top.value
    else if key[0] == KEY_OR_OPEN then Read(a, key[1..], Any(false), Under(top, below))
    else if key[0] == TUPLE_OPEN then Read(a, key[1..], All(true), Under(top, below))
    else if (key[0] == KEY_OR_CLOSE || key[0] == TUPLE_CLOSE) && below.Under? then
      Read(a, key[1..], Feed(below.level, top.value), below.rest)
    else Read(a, key[1..], Feed(top, ItemMatches(a, key[0])), below)
  }

  /** How many entries a shape adds to the level it stands in: an `Or` is one entry. */
  function Entries(s: Shape): nat {
    match s
    case Unit => 0
    case EntityId => 0
    case One(_, _) => 1
    case Tuple(ps) => EntriesOfAll(ps)
    case Or(_) => 1
  }

  function EntriesOfAll(ss: Shapes): nat {
    match ss
    case Nil => 0
    case Cons(s, rest) => Entries(s) + EntriesOfAll(rest)
  }

  /** Every branch of every `Or` is one entry, so no marker is missing. */
  predicate SingleEntryBranches(s: Shape) {
    match s
    case Tuple(ps) => AllSingle(ps)
    case Or(bs) => AllSingle(bs) && AllOneEntry(bs)
    case _ => true
  }

  predicate AllSingle(ss: Shapes) {
    ss.Cons? ==> SingleEntryBranches(ss.head) && AllSingle(ss.tail)
  }

  predicate AllOneEntry(ss: Shapes) {
    ss.Cons? ==> Entries(ss.head) == 1 && AllOneEntry(ss.tail)
  }

  lemma {:induction false} NoEntriesMeansTrue(r: Registry, a: Archetype, s: Shape)
    requires Entries(s) == 0
    ensures CacheKey(r, s) == [] && Wants(r, a, s)
  {
    match s
    case Tuple(ps) => NoEntriesMeansAllTrue(r, a, ps);
    case _ =>
  }

  lemma {:induction false} NoEntriesMeansAllTrue(r: Registry, a: Archetype, ss: Shapes)
    requires EntriesOfAll(ss) == 0
    ensures CacheKeys(r, ss) == [] && WantsEvery(r, a, ss)
  {
    if ss.Cons? {
      NoEntriesMeansTrue(r, a, ss.head);
      NoEntriesMeansAllTrue(r, a, ss.tail);
    }
  }

  lemma ItemDecodes(id: Id, form: Form)
    requires id <= INVALID
    ensures (id + Role(form)) % LOW == id && id + Role(form) < KEY_OR_OPEN
    ensures (id + Role(form)) / LOW == match form case Without => 1 case Maybe => 2 case MaybeWrite => 2 case _ => 0
  {
  }

  lemma OneItemReads(r: Registry, a: Archetype, form: Form, c: nat, tail: seq<Item>, top: Level, below: Stack)
    requires RegistryValid(r) && ArchetypeValid(a)
    ensures Read(a, CacheKey(r, One(form, c)) + tail, top, below)
            == Read(a, tail, Feed(top, Wants(r, a, One(form, c))), below)
  {
    var e := IdOf(r, c) + Role(form);
    OwnsById(r, a, c);
    ItemDecodes(IdOf(r, c), form);
    assert ItemMatches(a, e) == Wants(r, a, One(form, c));
    assert ([e] + tail)[1..] == tail;
  }

  /** Reading the key of a shape feeds the level it stands in with what the shape asks for. */
  lemma {:induction false} KeyReadsAsShape(r: Registry, a: Archetype, s: Shape, tail: seq<Item>,
                                         top: Level, below: Stack)
    requires RegistryValid(r) && ArchetypeValid(a)
    requires SingleEntryBranches(s) && (top.All? || Entries(s) == 1)
    ensures Read(a, CacheKey(r, s) + tail, top, below) == Read(a, tail, Feed(top, Wants(r, a, s)), below)
    decreases s, 0
  {
    match s
    case Unit => assert [] + tail == tail;
    case EntityId => assert [] + tail == tail;
    case One(form, c) => OneItemReads(r, a, form, c, tail, top, below);
    case Tuple(ps) => PartsReadAsTuple(r, a, ps, tail, top, below);
    case Or(bs) => GroupReadsAsOr(r, a, bs, tail, top, below);
  }

  lemma {:induction false} GroupReadsAsOr(
      r: Registry, a: Archetype, bs: Shapes, tail: seq<Item>, top: Level, below: Stack)
    requires RegistryValid(r) && ArchetypeValid(a) && AllSingle(bs) && AllOneEntry(bs)
    ensures Read(a, CacheKey(r, Or(bs)) + tail, top, below) == Read(a, tail, Feed(top, WantsSome(r, a, bs)), below)
    decreases bs, 1
  {
    var inner, closed := CacheKeys(r, bs), [KEY_OR_CLOSE] + tail;
    var key := CacheKey(r, Or(bs)) + tail;
    assert key[0] == KEY_OR_OPEN && key[1..] == inner + closed;
    BranchesReadAsOr(r, a, bs, closed, Any(false), Under(top, below));
    assert closed[0] == KEY_OR_CLOSE && closed[1..] == tail;
  }

  lemma {:induction false} PartsReadAsTuple(
      r: Registry, a: Archetype, ss: Shapes, tail: seq<Item>, top: Level, below: Stack)
    requires RegistryValid(r) && ArchetypeValid(a)
    requires AllSingle(ss) && (top.All? || EntriesOfAll(ss) == 1)
    ensures Read(a, CacheKeys(r, ss) + tail, top, below) == Read(a, tail, Feed(top, WantsEvery(r, a, ss)), below)
    decreases ss, 0
  {
    match ss
    case Nil => assert [] + tail == tail;
    case Cons(s, rest) =>
      var key, keys := CacheKey(r, s), CacheKeys(r, rest);
      assert key + keys + tail == key + (keys + tail);
      if top.Any? && Entries(s) == 0 {
        NoEntriesMeansTrue(r, a, s);
        assert key + keys == keys;
        PartsReadAsTuple(r, a, rest, tail, top, below);
      } else if top.Any? {
        KeyReadsAsShape(r, a, s, keys + tail, top, below);
        NoEntriesMeansAllTrue(r, a, rest);
        assert keys + tail == tail;
      } else {
        KeyReadsAsShape(r, a, s, keys + tail, top, below);
        PartsReadAsTuple(r, a, rest, tail, Feed(top, Wants(r, a, s)), below);
      }
  }

  lemma {:induction false} BranchesReadAsOr(
      r: Registry, a: Archetype, ss: Shapes, tail: seq<Item>, top: Level, below: Stack)
    requires RegistryValid(r) && ArchetypeValid(a) && top.Any?
    requires AllSingle(ss) && AllOneEntry(ss)
    ensures Read(a, CacheKeys(r, ss) + tail, top, below) == Read(a, tail, Feed(top, WantsSome(r, a, ss)), below)
    decreases ss, 0
  {
    match ss
    case Nil => assert [] + tail == tail;
    case Cons(s, rest) =>
      var key, keys := CacheKey(r, s), CacheKeys(r, rest);
      assert key + keys + tail == key + (keys + tail);
      KeyReadsAsShape(r, a, s, keys + tail, top, below);
      BranchesReadAsOr(r, a, rest, tail, Feed(top, Wants(r, a, s)), below);
  }

  lemma KeyMeansShape(r: Registry, a: Archetype, s: Shape)
    requires RegistryValid(r) && ArchetypeValid(a) && SingleEntryBranches(s)
    ensures Read(a, CacheKey(r, s), All(true), Bottom) == Wants(r, a, s)
  {
    KeyReadsAsShape(r, a, s, [], All(true), Bottom);
    assert CacheKey(r, s) + [] == CacheKey(r, s);
  }

  /** Two shapes may share a cache entry: equal keys ask for the same archetypes, and matching on the
      ids read back from the key says so. */
  lemma EqualKeysMatchAlike(r: Registry, s: Shape, t: Shape, a: Archetype)
    requires RegistryValid(r) && ArchetypeValid(a)
    requires SingleEntryBranches(s) && SingleEntryBranches(t)
    requires CacheKey(r, s) == CacheKey(r, t)
    ensures Matches(a, s, IdsOfKey(CacheKey(r, s))) <==> Matches(a, t, IdsOfKey(CacheKey(r, t)))
  {
    KeyMeansShape(r, a, s);
    KeyMeansShape(r, a, t);
    KeyCarriesIds(r, s);
    KeyCarriesIds(r, t);
    MatchesIsWants(r, a, s);
    MatchesIsWants(r, a, t);
  }

  // A tuple inside an `Or` leaves no mark: `Or<((A, B),)>` and `Or<(A, B)>` share a key, but an
  // archetype with A alone is wanted by the second only.
  lemma TupleInsideOrCollides()
    ensures exists r: Registry, a: Archetype, s: Shape, t: Shape ::
              RegistryValid(r) && ArchetypeValid(a) && CacheKey(r, s) == CacheKey(r, t)
              && !Wants(r, a, s) && Wants(r, a, t)
  {
    var r: Registry := map[0 := 0, 1 := 1];
    var both := Cons(One(With, 0), Cons(One(With, 1), Nil));
    var s, t := Or(Cons(Tuple(both), Nil)), Or(both);
    var a := Archetype([0], [ColumnTicks(Columns.FRESH_LANE, Columns.FRESH_LANE)], []);
    assert CacheKeys(r, s.branches) == CacheKeys(r, both) + CacheKeys(r, Nil);
    assert Owns(r, a, 0) && !Owns(r, a, 1);
    assert Wants(r, a, both.head) && !Wants(r, a, both.tail.head);
    assert !WantsEvery(r, a, both.tail);
    assert !WantsEvery(r, a, both) && WantsSome(r, a, both);
    assert !WantsSome(r, a, Nil) && !Wants(r, a, Tuple(both));
    assert !Wants(r, a, s) && Wants(r, a, t);
  }

  // ---- The missing mark ---------------------------------------------------------------------------------

  /** The key as it would be with marks around every branch of an `Or` that is a tuple or empty. */
  function MarkedKey(r: Registry, s: Shape): seq<Item> {
    match s
    case Tuple(ps) => MarkedKeys(r, ps)
    case Or(bs) => [KEY_OR_OPEN] + MarkedBranches(r, bs) + [KEY_OR_CLOSE]
    case _ => CacheKey(r, s)
  }

  function MarkedKeys(r: Registry, ss: Shapes): seq<Item> {
    match ss
    case Nil => []
    case Cons(s, rest) => MarkedKey(r, s) + MarkedKeys(r, rest)
  }

  function MarkedBranches(r: Registry, ss: Shapes): seq<Item> {
    match ss
    case Nil => []
    case Cons(s, rest) =>
      (if s.One? || s.Or? then MarkedKey(r, s) else [TUPLE_OPEN] + MarkedKey(r, s) + [TUPLE_CLOSE])
      + MarkedBranches(r, rest)
  }

  function WithoutMarks(key: seq<Item>): seq<Item> {
    if key == [] then []
    else if key[0] == TUPLE_OPEN || key[0] == TUPLE_CLOSE then WithoutMarks(key[1..])
    else [key[0]] + WithoutMarks(key[1..])
  }

  lemma {:induction false} WithoutMarksOfConcat(a: seq<Item>, b: seq<Item>)
    ensures WithoutMarks(a + b) == WithoutMarks(a) + WithoutMarks(b)
  {
    if a == [] {
      assert a + b == b;
    } else {
      assert (a + b)[0] == a[0] && (a + b)[1..] == a[1..] + b;
      WithoutMarksOfConcat(a[1..], b);
    }
  }

  lemma MarksVanish(a: seq<Item>)
    ensures WithoutMarks([TUPLE_OPEN] + a + [TUPLE_CLOSE]) == WithoutMarks(a)
    ensures WithoutMarks([KEY_OR_OPEN] + a + [KEY_OR_CLOSE]) == [KEY_OR_OPEN] + WithoutMarks(a) + [KEY_OR_CLOSE]
  {
    WithoutMarksOfConcat([TUPLE_OPEN] + a, [TUPLE_CLOSE]);
    WithoutMarksOfConcat([TUPLE_OPEN], a);
    WithoutMarksOfConcat([KEY_OR_OPEN] + a, [KEY_OR_CLOSE]);
    WithoutMarksOfConcat([KEY_OR_OPEN], a);
    assert [TUPLE_OPEN][1..] == [] && [TUPLE_CLOSE][1..] == [];
    assert [KEY_OR_OPEN][1..] == [] && [KEY_OR_CLOSE][1..] == [];
  }

  /** The marks are all that the program's key lacks. */
  lemma {:induction false} MarksAreTheGap(r: Registry, s: Shape)
    requires RegistryValid(r)
    ensures WithoutMarks(MarkedKey(r, s)) == CacheKey(r, s)
  {
    match s
    case One(form, c) => assert [IdOf(r, c) + Role(form)][1..] == [];
    case Tuple(ps) => MarksAreTheGapInTuple(r, ps);
    case Or(bs) =>
      MarksAreTheGapInOr(r, bs);
      MarksVanish(MarkedBranches(r, bs));
    case _ =>
  }

  lemma {:induction false} MarksAreTheGapInTuple(r: Registry, ss: Shapes)
    requires RegistryValid(r)
    ensures WithoutMarks(MarkedKeys(r, ss)) == CacheKeys(r, ss)
  {
    if ss.Cons? {
      MarksAreTheGap(r, ss.head);
      MarksAreTheGapInTuple(r, ss.tail);
      WithoutMarksOfConcat(MarkedKey(r, ss.head), MarkedKeys(r, ss.tail));
    }
  }

  lemma {:induction false} MarksAreTheGapInOr(r: Registry, ss: Shapes)
    requires RegistryValid(r)
    ensures WithoutMarks(MarkedBranches(r, ss)) == CacheKeys(r, ss)
  {
    if ss.Cons? {
      var key := MarkedKey(r, ss.head);
      MarksAreTheGap(r, ss.head);
      MarksAreTheGapInOr(r, ss.tail);
      MarksVanish(key);
      WithoutMarksOfConcat(if ss.head.One? || ss.head.Or? then key else [TUPLE_OPEN] + key + [TUPLE_CLOSE],
                           MarkedBranches(r, ss.tail));
    }
  }

  /** Reading the marked key of any shape feeds the level it stands in with what the shape asks for. */
  lemma {:induction false} MarkedReadsAsShape(r: Registry, a: Archetype, s: Shape, tail: seq<Item>,
                                            top: Level, below: Stack)
    requires RegistryValid(r) && ArchetypeValid(a) && (top.All? || s.One? || s.Or?)
    ensures Read(a, MarkedKey(r, s) + tail, top, below) == Read(a, tail, Feed(top, Wants(r, a, s)), below)
    decreases s, 0
  {
    match s
    case Unit => assert [] + tail == tail;
    case EntityId => assert [] + tail == tail;
    case One(form, c) => OneItemReads(r, a, form, c, tail, top, below);
    case Tuple(ps) => MarkedReadsAsTuple(r, a, ps, tail, top, below);
    case Or(bs) =>
      MarkedReadsAsOr(r, a, bs, [KEY_OR_CLOSE] + tail, Any(false), Under(top, below));
      OrOpensAndCloses(r, a, bs, tail, top, below);
  }

  // The brackets of an `Or` open a level and close it into the one above.
  lemma OrOpensAndCloses(r: Registry, a: Archetype, bs: Shapes, tail: seq<Item>, top: Level, below: Stack)
    ensures Read(a, MarkedKey(r, Or(bs)) + tail, top, below) ==
            Read(a, MarkedBranches(r, bs) + ([KEY_OR_CLOSE] + tail), Any(false), Under(top, below))
    ensures forall b: bool ::
              Read(a, [KEY_OR_CLOSE] + tail, Feed(Any(false), b), Under(top, below)) ==
              Read(a, tail, Feed(top, b), below)
  {
    var inner, closed := MarkedBranches(r, bs), [KEY_OR_CLOSE] + tail;
    var key := MarkedKey(r, Or(bs)) + tail;
    assert key[0] == KEY_OR_OPEN && key[1..] == inner + closed;
    assert closed[0] == KEY_OR_CLOSE && closed[1..] == tail;
  }

  lemma {:induction false} MarkedReadsAsTuple(
      r: Registry, a: Archetype, ss: Shapes, tail: seq<Item>, top: Level, below: Stack)
    requires RegistryValid(r) && ArchetypeValid(a) && top.All?
    ensures Read(a, MarkedKeys(r, ss) + tail, top, below) == Read(a, tail, Feed(top, WantsEvery(r, a, ss)), below)
    decreases ss, 0
  {
    match ss
    case Nil => assert [] + tail == tail;
    case Cons(s, rest) =>
      var key, keys := MarkedKey(r, s), MarkedKeys(r, rest);
      assert key + keys + tail == key + (keys + tail);
      MarkedReadsAsShape(r, a, s, keys + tail, top, below);
      MarkedReadsAsTuple(r, a, rest, tail, Feed(top, Wants(r, a, s)), below);
  }

  lemma {:induction false} MarkedReadsAsOr(
      r: Registry, a: Archetype, ss: Shapes, tail: seq<Item>, top: Level, below: Stack)
    requires RegistryValid(r) && ArchetypeValid(a) && top.Any?
    ensures Read(a, MarkedBranches(r, ss) + tail, top, below) == Read(a, tail, Feed(top, WantsSome(r, a, ss)), below)
    decreases ss, 0
  {
    match ss
    case Nil => assert [] + tail == tail;
    case Cons(s, rest) =>
      MarkedBranchReads(r, a, s, MarkedBranches(r, rest), tail, top, below);
      MarkedReadsAsOr(r, a, rest, tail, Feed(top, Wants(r, a, s)), below);
  }

  lemma {:induction false} MarkedBranchReads(
      r: Registry, a: Archetype, s: Shape, keys: seq<Item>, tail: seq<Item>, top: Level, below: Stack)
    requires RegistryValid(r) && ArchetypeValid(a) && top.Any?
    ensures var key := MarkedKey(r, s);
            var branch := if s.One? || s.Or? then key else [TUPLE_OPEN] + key + [TUPLE_CLOSE];
            Read(a, branch + keys + tail, top, below) == Read(a, keys + tail, Feed(top, Wants(r, a, s)), below)
    decreases s, 1
  {
    var key, rest := MarkedKey(r, s), keys + tail;
    if s.One? || s.Or? {
      assert key + keys + tail == key + rest;
      MarkedReadsAsShape(r, a, s, rest, top, below);
    } else {
      var closed := [TUPLE_CLOSE] + rest;
      var all := [TUPLE_OPEN] + key + [TUPLE_CLOSE] + keys + tail;
      assert all[0] == TUPLE_OPEN && all[1..] == key + closed;
      MarkedReadsAsShape(r, a, s, closed, All(true), Under(top, below));
      assert closed[0] == TUPLE_CLOSE && closed[1..] == rest;
    }
  }

  /** With the marks, equal keys ask for the same archetypes whatever the two shapes. */
  lemma EqualMarkedKeysMatchAlike(r: Registry, s: Shape, t: Shape, a: Archetype)
    requires RegistryValid(r) && ArchetypeValid(a) && MarkedKey(r, s) == MarkedKey(r, t)
    ensures Matches(a, s, FillIds(r, s)) <==> Matches(a, t, FillIds(r, t))
  {
    MarkedReadsAsShape(r, a, s, [], All(true), Bottom);
    MarkedReadsAsShape(r, a, t, [], All(true), Bottom);
    assert MarkedKey(r, s) + [] == MarkedKey(r, t) + [];
    MatchesIsWants(r, a, s);
    MatchesIsWants(r, a, t);
  }
}
