/** The command queue: commands in order, their typed payloads in an arena, applied or cleared as a whole. */
module Commands {
  import opened EntityPool
  import opened CommandApply
  import opened CommandArena

  predicate HasPayload(c: Command) {
    c.Spawn? || c.Insert?
  }

  // How many of the first n commands have a payload.
  function Rank(queue: seq<Command>, n: nat): nat
    requires n <= |queue|
  {
    if n == 0 then 0 else Rank(queue, n - 1) + if HasPayload(queue[n - 1]) then 1 else 0
  }

  predicate Fits(c: Command, p: Payload)
    requires HasPayload(c)
  {
    c.offset == p.offset && c.vtable.size == |p.bytes| && c.vtable.align == p.align
  }

  /** The n-th command with a payload knows where the n-th payload is, and of what size and alignment. */
  ghost predicate Tied(queue: seq<Command>, ps: seq<Payload>) {
    && Rank(queue, |queue|) == |ps|
    && forall j :: 0 <= j < |queue| && HasPayload(queue[j]) ==>
         Rank(queue, j) < |ps| && Fits(queue[j], ps[Rank(queue, j)])
  }

  lemma {:induction false} RankOfPrefix(queue: seq<Command>, longer: seq<Command>, n: nat)
    requires n <= |queue| && queue <= longer
    ensures Rank(longer, n) == Rank(queue, n)
    decreases n
  {
    if n > 0 { RankOfPrefix(queue, longer, n - 1); }
  }

  lemma TiedMore(queue: seq<Command>, ps: seq<Payload>, c: Command, more: seq<Payload>)
    requires Tied(queue, ps)
    requires if HasPayload(c) then |more| == 1 && Fits(c, more[0]) else more == []
    ensures Tied(queue + [c], ps + more)
  {
    var longer := queue + [c];
    RankOfPrefix(queue, longer, |queue|);
    forall j | 0 <= j < |longer| && HasPayload(longer[j])
      ensures Rank(longer, j) < |ps + more| && Fits(longer[j], (ps + more)[Rank(longer, j)])
    {
      RankOfPrefix(queue, longer, j);
      assert j < |queue| ==> longer[j] == queue[j];
    }
  }

  lemma TypedMore(queue: seq<Command>, ps: seq<Payload>, c: Command, p: Payload)
    requires Tied(queue, ps) && HasPayload(c) && Fits(c, p)
    ensures Tied(queue + [c], ps + [p]) && Contents(ps + [p]) == Contents(ps) + [p.bytes]
  {
    TiedMore(queue, ps, c, [p]);
  }

  // ---- What becomes of a command --------------------------------------------------------------------------

  /** A payload is moved into the world or dropped; the value of a raw insert is moved, dropped or - its bytes
      freed without a drop - forgotten; any other command is run, or discarded with the queue. */
  datatype Effect =
    | MovedIn(entity: Entity, vtable: Type, bytes: seq<Byte>)
    | Dropped(vtable: Type, bytes: seq<Byte>)
    | RawMoved(entity: Entity, component: nat)
    | RawDropped(component: nat)
    | RawForgotten(component: nat)
    | Ran(command: Command)
    | Discarded(command: Command)

  /** The effect of one command of a unit. A single spawn refuses an id that is located already; an insert
      finds its entity dead or alive. */
  function EffectOf(c: Command, bytes: seq<Byte>, single: bool, alive: bool): Effect {
    match c
    case Spawn(e, _, vtable) =>
      if single && e != PLACEHOLDER && alive then Dropped(vtable, bytes) else MovedIn(e, vtable, bytes)
    case Insert(e, _, vtable) => if alive then MovedIn(e, vtable, bytes) else Dropped(vtable, bytes)
    case InsertRaw(e, component, size) =>
      if alive then RawMoved(e, component)
      else if single && size > 0 then RawDropped(component)
      else RawForgotten(component)
    case Other(_) => Ran(c)
  }

  // The stored bytes that belong to a command.
  function BytesFor(queue: seq<Command>, ps: seq<Payload>, j: nat): seq<Byte>
    requires j < |queue|
  {
    if HasPayload(queue[j]) && Rank(queue, j) < |ps| then ps[Rank(queue, j)].bytes else []
  }

  function UnitEffects(queue: seq<Command>, ps: seq<Payload>, i: nat, end: nat, alive: bool): seq<Effect>
    requires i <= end <= |queue|
  {
    seq(end - i, j requires 0 <= j < end - i =>
      EffectOf(queue[i + j], BytesFor(queue, ps, i + j), end - i == 1, alive))
  }

  // `alive` answers for the entity of the unit that starts at a position.
  function EffectsFrom(queue: seq<Command>, ps: seq<Payload>, alive: nat -> bool, i: nat): seq<Effect>
    requires i <= |queue|
    decreases |queue| - i
  {
    if i == |queue| then []
    else
      var end := UnitEnd(queue, i);
      UnitEffects(queue, ps, i, end, alive(i)) + EffectsFrom(queue, ps, alive, end)
  }

  // ---- The fate of one command ------------------------------------------------------------------------------

  // Where the unit of a command starts.
  function UnitStart(queue: seq<Command>, j: nat): (i: nat)
    requires j < |queue|
    ensures i <= j
  {
    if j > 0 && Joins(queue[j - 1], queue[j]) then UnitStart(queue, j - 1) else j
  }

  predicate Alone(queue: seq<Command>, j: nat)
    requires j < |queue|
  {
    UnitEnd(queue, UnitStart(queue, j)) == UnitStart(queue, j) + 1
  }

  predicate StartsUnit(queue: seq<Command>, i: nat)
    requires i < |queue|
  {
    i == 0 || !Joins(queue[i - 1], queue[i])
  }

  lemma {:induction false} StartOfUnit(queue: seq<Command>, i: nat, j: nat)
    requires i <= j < |queue| && StartsUnit(queue, i) && j < UnitEnd(queue, i)
    ensures UnitStart(queue, j) == i
    decreases j
  {
    UnitEndIsMaximal(queue, i);
    if j > i {
      assert Joins(queue[j - 1], queue[j - 1 + 1]);
      StartOfUnit(queue, i, j - 1);
    }
  }

  // What becomes of a command: its unit decides, and whether the unit's entity is alive.
  function FateOf(queue: seq<Command>, ps: seq<Payload>, alive: nat -> bool, j: nat): Effect
    requires j < |queue|
  {
    EffectOf(queue[j], BytesFor(queue, ps, j), Alone(queue, j), alive(UnitStart(queue, j)))
  }

  /** The effects of a queue, command by command. */
  function Fates(queue: seq<Command>, ps: seq<Payload>, alive: nat -> bool): seq<Effect> {
    seq(|queue|, j requires 0 <= j < |queue| => FateOf(queue, ps, alive, j))
  }

  lemma UnitFates(queue: seq<Command>, ps: seq<Payload>, alive: nat -> bool, i: nat, j: nat)
    requires i <= j < |queue| && StartsUnit(queue, i) && j < UnitEnd(queue, i)
    ensures UnitEffects(queue, ps, i, UnitEnd(queue, i), alive(i))[j - i] == FateOf(queue, ps, alive, j)
  {
    StartOfUnit(queue, i, j);
  }

  lemma {:induction false} EffectAt(queue: seq<Command>, ps: seq<Payload>, alive: nat -> bool, i: nat, j: nat)
    requires i <= j < |queue| && StartsUnit(queue, i)
    ensures j - i < |EffectsFrom(queue, ps, alive, i)|
    ensures EffectsFrom(queue, ps, alive, i)[j - i] == FateOf(queue, ps, alive, j)
    decreases |queue| - i
  {
    var end := UnitEnd(queue, i);
    EffectsSplit(queue, ps, alive, i);
    if j < end {
      UnitFates(queue, ps, alive, i, j);
    } else {
      UnitEndIsMaximal(queue, i);
      EffectAt(queue, ps, alive, end, j);
    }
  }

  lemma EffectsSplit(queue: seq<Command>, ps: seq<Payload>, alive: nat -> bool, i: nat)
    requires i < |queue|
    ensures var end := UnitEnd(queue, i);
            EffectsFrom(queue, ps, alive, i) ==
              UnitEffects(queue, ps, i, end, alive(i)) + EffectsFrom(queue, ps, alive, end)
  {
  }

  // The pass over the units gives every command its own.
  lemma EffectsAreFates(queue: seq<Command>, ps: seq<Payload>, alive: nat -> bool)
    requires |EffectsFrom(queue, ps, alive, 0)| == |queue|
    ensures EffectsFrom(queue, ps, alive, 0) == Fates(queue, ps, alive)
  {
    forall j | 0 <= j < |queue| ensures EffectsFrom(queue, ps, alive, 0)[j] == FateOf(queue, ps, alive, j) {
      EffectAt(queue, ps, alive, 0, j);
    }
  }

  /** An insert's payload is dropped if and only if its entity is dead when its unit is applied, alone or in a
      group; a spawn's, if and only if it stands alone and its reserved id is located already. */
  lemma DroppedExactly(queue: seq<Command>, ps: seq<Payload>, alive: nat -> bool, j: nat)
    requires j < |queue| && HasPayload(queue[j])
    ensures Fates(queue, ps, alive)[j].Dropped? <==>
              if queue[j].Insert? then !alive(UnitStart(queue, j))
              else Alone(queue, j) && queue[j].entity != PLACEHOLDER && alive(j)
  {
    if Alone(queue, j) { AloneStarts(queue, j); }
  }

  /** What each command comes to. A payload goes, with its type, to the command's own entity; a raw insert puts its
      component into its entity if that is alive, else its value is dropped if it stands alone and has a size, and
      forgotten if not; any other command runs. */
  lemma EffectsExactly(queue: seq<Command>, ps: seq<Payload>, alive: nat -> bool, j: nat)
    requires j < |queue|
    ensures var fate := Fates(queue, ps, alive)[j];
            var c, lives, single := queue[j], alive(UnitStart(queue, j)), Alone(queue, j);
            && (HasPayload(c) ==> fate.MovedIn? || fate.Dropped?)
            && (fate.MovedIn? ==> HasPayload(c) && fate.entity == c.entity && fate.vtable == c.vtable)
            && (fate.Dropped? ==> HasPayload(c) && fate.vtable == c.vtable)
            && (c.InsertRaw? ==>
                  && (fate == RawMoved(c.entity, c.component) <==> lives)
                  && (fate == RawDropped(c.component) <==> !lives && single && c.size > 0)
                  && (fate == RawForgotten(c.component) <==> !lives && (!single || c.size == 0)))
            && (c.Other? ==> fate == Ran(c))
  {
  }

  /** Where a command's unit starts, and whether it is alone in it: its neighbours do not join it. */
  lemma AloneExactly(queue: seq<Command>, j: nat)
    requires j < |queue|
    ensures Alone(queue, j) <==>
              && (j == 0 || !Joins(queue[j - 1], queue[j]))
              && (j + 1 == |queue| || !Joins(queue[j], queue[j + 1]))
  {
    if Alone(queue, j) { AloneStarts(queue, j); }
  }

  lemma {:induction false} AloneStarts(queue: seq<Command>, j: nat)
    requires j < |queue| && Alone(queue, j)
    ensures UnitStart(queue, j) == j
  {
    var i := UnitStart(queue, j);
    if i < j {
      StartJoins(queue, j);
    }
  }

  // Whoever does not start a unit joins the next after its start.
  lemma {:induction false} StartJoins(queue: seq<Command>, j: nat)
    requires j < |queue| && UnitStart(queue, j) < j
    ensures Joins(queue[UnitStart(queue, j)], queue[UnitStart(queue, j) + 1])
    decreases j
  {
    if UnitStart(queue, j - 1) < j - 1 {
      StartJoins(queue, j - 1);
    }
  }

  // ---- Every payload once ------------------------------------------------------------------------------------

  function GivenBy(e: Effect): seq<seq<Byte>> {
    match e
    case MovedIn(_, _, bytes) => [bytes]
    case Dropped(_, bytes) => [bytes]
    case _ => []
  }

  function GivenUpTo(effects: seq<Effect>, n: nat): seq<seq<Byte>>
    requires n <= |effects|
  {
    if n == 0 then [] else GivenUpTo(effects, n - 1) + GivenBy(effects[n - 1])
  }

  /** The payloads that were moved or dropped, in order. */
  function Given(effects: seq<Effect>): seq<seq<Byte>> {
    GivenUpTo(effects, |effects|)
  }

  function Contents(ps: seq<Payload>): seq<seq<Byte>> {
    seq(|ps|, i requires 0 <= i < |ps| => ps[i].bytes)
  }

  // Each command so far has given up its own payload, if it has one.
  ghost predicate Answers(effects: seq<Effect>, queue: seq<Command>, ps: seq<Payload>) {
    && |effects| <= |queue|
    && forall j :: 0 <= j < |effects| ==>
         GivenBy(effects[j]) == if HasPayload(queue[j]) then [BytesFor(queue, ps, j)] else []
  }

  lemma EffectGives(c: Command, bytes: seq<Byte>, single: bool, alive: bool)
    ensures GivenBy(EffectOf(c, bytes, single, alive)) == if HasPayload(c) then [bytes] else []
  {
  }

  lemma AnswersFollow(effects: seq<Effect>, more: seq<Effect>, queue: seq<Command>, ps: seq<Payload>, alive: bool)
    requires Answers(effects, queue, ps) && |effects| + |more| <= |queue|
    requires more == UnitEffects(queue, ps, |effects|, |effects| + |more|, alive)
    ensures Answers(effects + more, queue, ps)
  {
    var all := effects + more;
    forall j | 0 <= j < |all|
      ensures GivenBy(all[j]) == if HasPayload(queue[j]) then [BytesFor(queue, ps, j)] else []
    {
      if j >= |effects| {
        assert all[j] == more[j - |effects|];
        EffectGives(queue[j], BytesFor(queue, ps, j), |more| == 1, alive);
      }
    }
  }

  lemma {:induction false} GivenOnce(effects: seq<Effect>, queue: seq<Command>, ps: seq<Payload>, n: nat)
    requires Tied(queue, ps) && Answers(effects, queue, ps) && n <= |effects|
    ensures Rank(queue, n) <= |ps| && GivenUpTo(effects, n) == Contents(ps[..Rank(queue, n)])
    decreases n
  {
    if n > 0 {
      GivenOnce(effects, queue, ps, n - 1);
      if HasPayload(queue[n - 1]) {
        ContentsMore(ps, Rank(queue, n - 1));
      }
    }
  }

  lemma ContentsMore(ps: seq<Payload>, r: nat)
    requires r < |ps|
    ensures Contents(ps[..r + 1]) == Contents(ps[..r]) + [ps[r].bytes]
  {
  }

  // Where the whole queue has been answered, every payload was given up once, in order.
  lemma AllGiven(effects: seq<Effect>, queue: seq<Command>, ps: seq<Payload>)
    requires Tied(queue, ps) && Answers(effects, queue, ps) && |effects| == |queue|
    ensures Given(effects) == Contents(ps)
  {
    GivenOnce(effects, queue, ps, |queue|);
    assert ps[..|ps|] == ps;
  }

  // ---- The pass ----------------------------------------------------------------------------------------------

  // The units before i have been taken, and their commands have had their effects.
  ghost predicate AppliedUpTo(queue: seq<Command>, ps: seq<Payload>, alive: nat -> bool,
                              units: seq<seq<Command>>, effects: seq<Effect>, i: nat) {
    && UnitsUpTo(queue, units, i)
    && |effects| == i && Answers(effects, queue, ps)
    && effects + EffectsFrom(queue, ps, alive, i) == EffectsFrom(queue, ps, alive, 0)
  }

  lemma EffectsFollow(queue: seq<Command>, ps: seq<Payload>, alive: nat -> bool,
                      effects: seq<Effect>, i: nat, more: seq<Effect>)
    requires i < |queue| && more == UnitEffects(queue, ps, i, UnitEnd(queue, i), alive(i))
    ensures (effects + more) + EffectsFrom(queue, ps, alive, UnitEnd(queue, i)) ==
            effects + EffectsFrom(queue, ps, alive, i)
  {
    var rest := EffectsFrom(queue, ps, alive, UnitEnd(queue, i));
    assert (effects + more) + rest == effects + (more + rest);
  }

  lemma UnitApplied(queue: seq<Command>, ps: seq<Payload>, alive: nat -> bool,
                    units: seq<seq<Command>>, effects: seq<Effect>, i: nat, more: seq<Effect>)
    requires i < |queue| && AppliedUpTo(queue, ps, alive, units, effects, i)
    requires more == UnitEffects(queue, ps, i, UnitEnd(queue, i), alive(i))
    ensures AppliedUpTo(queue, ps, alive, units + [queue[i..UnitEnd(queue, i)]], effects + more, UnitEnd(queue, i))
  {
    UnitFollows(queue, units, i);
    AnswersFollow(effects, more, queue, ps, alive(i));
    EffectsFollow(queue, ps, alive, effects, i, more);
  }

  lemma AllApplied(queue: seq<Command>, ps: seq<Payload>, alive: nat -> bool,
                   units: seq<seq<Command>>, effects: seq<Effect>)
    requires Tied(queue, ps) && AppliedUpTo(queue, ps, alive, units, effects, |queue|)
    ensures Flat(units) == queue && MaximalUnits(units)
    ensures effects == Fates(queue, ps, alive) && Given(effects) == Contents(ps)
  {
    assert queue[..|queue|] == queue;
    assert effects + [] == effects;
    EffectsAreFates(queue, ps, alive);
    AllGiven(effects, queue, ps);
  }

  // ---- Clearing ------------------------------------------------------------------------------------------------

  function ClearedEffect(c: Command, bytes: seq<Byte>): Effect {
    if HasPayload(c) then Dropped(c.vtable, bytes) else Discarded(c)
  }

  function ClearedUpTo(queue: seq<Command>, ps: seq<Payload>, n: nat): seq<Effect>
    requires n <= |queue|
  {
    seq(n, j requires 0 <= j < n => ClearedEffect(queue[j], BytesFor(queue, ps, j)))
  }

  // A payload is dropped as what it is; anything else is discarded.
  predicate ClearsExactly(e: Effect, c: Command) {
    if c.Spawn? || c.Insert? then e.Dropped? && e.vtable == c.vtable else e == Discarded(c)
  }

  lemma AllCleared(queue: seq<Command>, ps: seq<Payload>)
    requires Tied(queue, ps)
    ensures var effects := ClearedUpTo(queue, ps, |queue|);
            && Given(effects) == Contents(ps)
            && forall j :: 0 <= j < |effects| ==> ClearsExactly(effects[j], queue[j])
  {
    AllGiven(ClearedUpTo(queue, ps, |queue|), queue, ps);
  }

  // ---- Reserved ids ----------------------------------------------------------------------------------------------

  function ReservedUpTo(queue: seq<Command>, n: nat): seq<Entity>
    requires n <= |queue|
  {
    if n == 0 then []
    else ReservedUpTo(queue, n - 1) +
         (if queue[n - 1].Spawn? && queue[n - 1].entity != PLACEHOLDER then [queue[n - 1].entity] else [])
  }

  /** The ids given back are those of the queued spawns that were reserved. */
  lemma {:induction false} ReservedExactly(queue: seq<Command>, n: nat, e: Entity)
    requires n <= |queue|
    ensures e in ReservedUpTo(queue, n) <==>
              e != PLACEHOLDER && exists j :: 0 <= j < n && queue[j].Spawn? && queue[j].entity == e
    decreases n
  {
    if n > 0 {
      ReservedExactly(queue, n - 1, e);
    }
  }

  class Commands {
    var queue: seq<Command>
    const arena: CommandArena
    // Whether the queue is bound to a reserver, which takes back the ids of spawns never applied.
    var bound: bool

    ghost predicate Valid()
      reads this, arena, arena.data
    {
      arena.Valid() && Tied(queue, arena.payloads)
    }

    constructor (bound: bool)
      ensures Valid() && queue == [] && this.bound == bound && fresh(arena)
    {
      queue := [];
      this.bound := bound;
      arena := new CommandArena();
    }

    /** Queues a spawn or a typed insert: its bytes go into the arena. */
    method PushTyped(spawn: bool, entity: Entity, vtable: Type, bytes: seq<Byte>, ghost first: nat, ghost second: nat)
      requires Valid() && |bytes| == vtable.size && IsPow2(vtable.align)
      requires first > 0 && Multiple(first, vtable.align)
      requires second > 0 && Multiple(second, Larger(arena.align, vtable.align))
      modifies this`queue, arena, arena.data
      ensures Valid() && Contents(arena.payloads) == old(Contents(arena.payloads)) + [bytes]
      ensures |queue| == |old(queue)| + 1 && queue[..|queue| - 1] == old(queue)
      ensures var c := queue[|queue| - 1];
              (if spawn then c.Spawn? else c.Insert?) && c.entity == entity && c.vtable == vtable
    {
      ghost var ps := arena.payloads;
      var offset := arena.Alloc(bytes, vtable.align, first, second);
      var c := if spawn then Spawn(entity, offset, vtable) else Insert(entity, offset, vtable);
      TypedMore(queue, ps, c, Payload(offset, vtable.align, bytes));
      queue := queue + [c];
    }

    /** Queues any other command. */
    method Push(c: Command)
      requires Valid() && !HasPayload(c)
      modifies this`queue
      ensures Valid() && queue == old(queue) + [c]
    {
      TiedMore(queue, arena.payloads, c, []);
      assert arena.payloads + [] == arena.payloads;
      queue := queue + [c];
    }

    // The bytes of a command's payload, read from the arena.
    method Fetch(j: nat) returns (bytes: seq<Byte>)
      requires Valid() && j < |queue|
      ensures bytes == BytesFor(queue, arena.payloads, j)
    {
      if HasPayload(queue[j]) {
        bytes := arena.Read(queue[j].offset, queue[j].vtable.size, Rank(queue, j));
      } else {
        bytes := [];
      }
    }

    method ApplyUnit(i: nat, end: nat, alive: bool) returns (effects: seq<Effect>)
      requires Valid() && i < end <= |queue|
      ensures effects == UnitEffects(queue, arena.payloads, i, end, alive)
    {
      effects := [];
      for j := i to end
        invariant |effects| == j - i
        invariant forall m :: i <= m < j ==>
          effects[m - i] == EffectOf(queue[m], BytesFor(queue, arena.payloads, m), end - i == 1, alive)
      {
        var bytes := Fetch(j);
        effects := effects + [EffectOf(queue[j], bytes, end - i == 1, alive)];
      }
    }

    // The pass over the queue, which changes neither queue nor arena.
    method ApplyAll(alive: nat -> bool) returns (units: seq<seq<Command>>, effects: seq<Effect>)
      requires Valid()
      ensures Flat(units) == queue && MaximalUnits(units)
      ensures effects == Fates(queue, arena.payloads, alive)
      ensures Given(effects) == Contents(arena.payloads)
    {
      ghost var ps := arena.payloads;
      units, effects := [], [];
      var i := 0;
      while i < |queue|
        invariant AppliedUpTo(queue, ps, alive, units, effects, i)
        decreases |queue| - i
      {
        var end := TakeUnit(queue, i);
        var more := ApplyUnit(i, end, alive(i));
        UnitApplied(queue, ps, alive, units, effects, i, more);
        units, effects, i := units + [queue[i..end]], effects + more, end;
      }
      AllApplied(queue, ps, alive, units, effects);
    }

    /** Applies the queue: every command once, in order, in maximal units; every stored payload is handed on
        once, in order and byte for byte - moved into the world, or dropped where the unit's entity does not
        take it. The queue and the arena end empty. */
    method Apply(alive: nat -> bool) returns (units: seq<seq<Command>>, effects: seq<Effect>)
      requires Valid()
      modifies this`queue, arena
      ensures Valid() && queue == [] && arena.payloads == []
      ensures Flat(units) == old(queue) && MaximalUnits(units)
      ensures effects == Fates(old(queue), old(arena.payloads), alive)
      ensures Given(effects) == Contents(old(arena.payloads))
    {
      units, effects := ApplyAll(alive);
      queue := [];
      arena.Reset();
    }

    // Drops the payload of one command, if it has one.
    method Drop(j: nat) returns (effect: Effect)
      requires Valid() && j < |queue|
      ensures effect == ClearedEffect(queue[j], BytesFor(queue, arena.payloads, j))
    {
      var bytes := Fetch(j);
      effect := ClearedEffect(queue[j], bytes);
    }

    // Drops every payload, and lists the ids that the queued spawns had reserved.
    method DropAll() returns (effects: seq<Effect>, abandoned: seq<Entity>)
      requires Valid()
      ensures effects == ClearedUpTo(queue, arena.payloads, |queue|)
      ensures abandoned == if bound then ReservedUpTo(queue, |queue|) else []
    {
      effects, abandoned := [], [];
      for i := 0 to |queue|
        invariant effects == ClearedUpTo(queue, arena.payloads, i)
        invariant abandoned == if bound then ReservedUpTo(queue, i) else []
      {
        var c := queue[i];
        var effect := Drop(i);
        effects := effects + [effect];
        if bound && c.Spawn? && c.entity != PLACEHOLDER { abandoned := abandoned + [c.entity]; }
      }
    }

    /** Clears a queue that was never applied: every payload is dropped once, in order, none is moved; the ids
        its spawns had reserved go back, if there is a reserver to take them. */
    method Clear() returns (effects: seq<Effect>, abandoned: seq<Entity>)
      requires Valid()
      modifies this`queue, arena
      ensures Valid() && queue == [] && arena.payloads == []
      ensures |effects| == |old(queue)| && Given(effects) == Contents(old(arena.payloads))
      ensures forall j :: 0 <= j < |effects| ==> ClearsExactly(effects[j], old(queue)[j])
      ensures abandoned == if bound then ReservedUpTo(old(queue), |old(queue)|) else []
    {
      effects, abandoned := DropAll();
      AllCleared(queue, arena.payloads);
      queue := [];
      arena.Reset();
    }
  }
}
