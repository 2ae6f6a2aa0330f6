# Verified core of apex-core

This project models the stateful heart of an entity component system - ids, change detection, queries,
relations, events, the parallel splitter and the command queue - and proves that each fast, branching
implementation agrees with its simple meaning, over every run.

Each part has the same three layers. A value-level function says what an operation does to the whole
state. A class with the program's own fields changes them in place, with the program's own loops, and each
method is proved equal to that function. Lemmas then say what the functions leave, element by element and
without naming them (the members ending in `Exactly`), and prove what they are for: invariants of every
run, refinement of a naive form, round trips, and - where a property has an exception - exactly when it
holds.

- **Ids** (`EntityPool`, `EntityAllocator`, `EntityBlocks`, `EntityProtocol`, `EntityAtomics`,
  `EntityBounds`, `EntityHandles`). The pool is a high-water mark, a lease with a falling cursor, a free
  list and an abandoned queue. `EntityProtocol` takes every operation apart into its atomic accesses and
  lets any number of clients interleave them; its ledger counts where each index is.
- **Change detection** (`ChangeTicks`, `Columns`, `ParallelSettle`). Wrapping 32-bit ticks, two aggregates
  per column, the deferred settle of a write pass, and its parallel form with a raise that is not atomic.
- **Queries** (`QueryShapes`, `QueryIteration`, `QueryCacheKey`, `DynQuery`). Shapes of single forms,
  tuples and `Or`, nested at will, with the id buffer they share.
- **Relations** (`KindMask`, `RelationStorage`, `RelationSubjects`, `RelationTargets`, `Lists`,
  `Relations`, `RelationDeaths`, `RelationStore`, `Forests`, `RelationForest`, `RelationRuns`,
  `RelationCascades`, `RelationEmission`, `RelationRoundTrip`, `RelationReturn`, `RelationRestore`). Two
  indexes as two views of one edge set, exclusive kinds as forests, deaths and cascades, and the snapshot
  order.
- **Events** (`EventQueue`, `Events`, `EventDelivery`), **parallel splitting** (`ParSplit`) and the
  **command queue** (`CommandArena`, `CommandApply`, `Commands`, and `CommandGroups` for what
  grouping inserts means).

## What the model takes as given

- A flush of the id pool runs at a sync point: no client stands between its look at the lease and its
  subtraction (entity.rs:102-104). The bound on the id space needs more, and says so: every draw complete.
- Clients free, abandon and locate only what they hold, except in `EntityHandles`, which assumes nothing
  about who holds what. A block is finished once its tail is reclaimed.
- Ticks handed to a column are ticks of its own world; the clock runs the clamp at each interval, as
  world.rs:361-366 does.
- Relations are removed through live subject handles; `Relations.RemoveAgreesExactly` says what happens
  otherwise. An entity's death is one step that takes its relations with it.
- An event reader is removed once, and a queue is cleared only while no removed slot waits to be reissued;
  two exact conditions say why.
- An address from the system allocator, a liveness answer of the world and the interleaving of clients are
  parameters, universally quantified.

## Where the code does not do what one might expect

Each of these is proved as a condition that holds if and only if the property does, or as a concrete state.

- A column created at a tick of 2^31 or later starts with aggregates that read as the future
  (`Columns.AggregateBoundExactly`).
- The location (MAX, MAX) packs to the code for "nowhere" (`EntityPool.PackRoundTripsExactly`,
  `EntityPool.SetLocationCountsExactly`).
- Freeing a handle of the last generation starts its slot over (`EntityHandles.FreedRevivesExactly`).
- Ids drawn past the end of a block depend on the schedule as soon as two systems draw such
  (`EntityBlocks.IdsAreDeterministicExactly`).
- Cache keys do not mark a tuple inside `Or` (`QueryCacheKey.TupleInsideOrCollides`,
  `QueryCacheKey.EqualMarkedKeysMatchAlike`).
- The cycle check of a kind that cascades without being exclusive looks at first pairs only: a cycle can slip
  through, and the world then loses an edge in a snapshot (`RelationCascades.CheckExactly`,
  `RelationReturn.ComesBackExactly`, `RelationRestore.CycleSlipsThrough`, `RelationRestore.SlippedLosesEdge`).
- Removing a relation does not look at the subject's generation (`Relations.RemoveAgreesExactly`).
- Removing a reader twice, or clearing the queue while a slot waits, breaks the slot table
  (`EventQueue.LeaveKeepsSlotsExactly`, `EventQueue.ClearKeepsSlotsExactly`).
- A group of inserts gives required components the tick of its first part, and stamps a raw insert of a
  present component of no size, which a single insert does not (`CommandGroups.GroupAgreesExactly`).
- A raw insert on a dead entity has its value dropped if it stands alone, and forgotten in a group, where
  only its bytes are freed; a single spawn onto an id that is located already is refused, a batch is not
  (`Commands.EffectsExactly`).
- The splitter never ends with threshold zero (`ParSplit.EndsExactly`).
- The comment on `Events::update` (events.rs:273-275) says that old events go behind the new ones; the code
  appends the new ones (events.rs:326), and the model follows the code. For a removed reader `iter` shows
  nothing (events.rs:349-356) while `read` shows the whole buffer (events.rs:415-429); the model has both.

## Model

| member | source | states |
|---|---|---|
| ChangeTicks.NewerIsYounger | crates/apex-core/src/component.rs:57-59 | While both ages are below 2^31 the wrapping comparison orders ticks exactly as time does |
| ChangeTicks.WindowIsNeeded | crates/apex-core/src/component.rs:44-54 | At age 2^31 the comparison answers wrongly, whatever the current tick |
| ChangeTicks.ClampKeepsAnswersExactly | crates/apex-core/src/component.rs:64-71 | The periodic clamp leaves every Changed/Added answer of a reader alone if and only if the reader's mark is no older than MAX_CHANGE_AGE |
| Columns.AggregateRulesOutRows | crates/apex-core/src/archetype.rs:75-114 | An aggregate that is not newer than a mark proves that no row is |
| Columns.RunKeepsBound | crates/apex-core/src/archetype.rs:231-452 | Over every run of pushes, moved pushes, writes, stamps, removals, clamps and clock ticks both aggregates stay above every row, in true age and inside the window |
| Columns.AggregateBoundExactly | crates/apex-core/src/archetype.rs:179-193 | A column starts with aggregates at tick zero: no run ever has a row above an aggregate if and only if the column was created before the tick counter reached 2^31 |
| Columns.SettleRestoresBound | crates/apex-core/src/query.rs:235-282 | After a write pass that stamped any rows and may have stopped anywhere, settling restores the bound, and raises the aggregate only if some row carries this run's tick |
| Columns.SwapRemovedKeepsRows | crates/apex-core/src/archetype.rs:412-452 | A removal loses exactly the removed row, and every other row stays where it was except the one that fills the hole |
| Columns.StepAnswers | crates/apex-core/src/archetype.rs:231-452 | Row by row, for every reader's mark: a written row answers with the tick written, a fresh row starts Changed and Added, an overwritten one Changed only, a moved one keeps both, a removal moves the last row's answers into the hole, and every other row answers as before |
| Columns.ClampKeepsAnswers | crates/apex-core/src/archetype.rs:399-408 | Clamping, at a check or at a tick of the clock, changes no row's answer for a mark no older than MAX_CHANGE_AGE |
| Columns.AggregatesOnlyRise | crates/apex-core/src/archetype.rs:95-114 | But for the clamp an aggregate stays, or moves to a tick that a row has |
| Columns.Column.SetChangeTick | crates/apex-core/src/archetype.rs:231-238 | In place: one change tick and the raised change aggregate; values and Added are untouched |
| Columns.Column.StampRange | crates/apex-core/src/archetype.rs:249-260 | In place: the ticks of a range, and one raise |
| Columns.Column.Push | crates/apex-core/src/archetype.rs:307-320 | In place: a fresh row starts both ticks and raises both aggregates |
| Columns.Column.PushMoved | crates/apex-core/src/archetype.rs:330-340 | In place: a moved row keeps its two ticks, and each raises its own aggregate |
| Columns.Column.ReplaceAt | crates/apex-core/src/archetype.rs:373-396 | In place: the value and the change tick are new, the added tick is not |
| Columns.Column.CheckChangeTicks | crates/apex-core/src/archetype.rs:399-408 | In place: every tick and both aggregates are clamped |
| Columns.Column.SwapRemove | crates/apex-core/src/archetype.rs:412-452 | In place: value and both ticks of the last row move together into the hole |
| Columns.Column.SettleColumnAggregate | crates/apex-core/src/query.rs:235-251 | In place: the loop over the rows raises the aggregate exactly as the settle function says |
| ParallelSettle.EveryInterleavingSettles | crates/apex-core/src/query.rs:2096-2121 | For every interleaving of parallel leaves, with the raise taken apart into load, compare and store, the column ends as one sequential settle of the same rows would leave it, and bounded |
| QueryShapes.FillIdsCounts | crates/apex-core/src/query.rs:1171-1188 | Every shape pushes exactly as many ids as its component count |
| QueryShapes.SliceIsOwn | crates/apex-core/src/query.rs:1202-1211 | Slicing the id buffer hands each part of a tuple or `Or` exactly its own ids, at any depth |
| QueryShapes.MatchesIsWants | crates/apex-core/src/query.rs:1337-1346 | Id-driven matching accepts an archetype exactly when the shape, read as a formula over components, asks for it |
| QueryShapes.FetchesIsPasses | crates/apex-core/src/query.rs:1255-1264 | A fetch yields an item exactly when the row passes the shape's row filters, dead `Or` branches included |
| QueryShapes.NoRowFilterPassesAll | crates/apex-core/src/query.rs:150-201 | Without a row filter every row of a wanted archetype passes, so the unchecked loop is total |
| QueryShapes.SkippedHasNoPassingRow | crates/apex-core/src/query.rs:1004-1036 | An archetype skipped on its aggregates has no row that passes, for every nesting of tuples and `Or` |
| QueryShapes.SkipIsSkips | crates/apex-core/src/query.rs:1219-1230 | The id-driven skip, nested as it may be, asks of each leaf only the aggregate of its own column, of a tuple some part, of an `Or` every branch asked for |
| QueryShapes.SkippedBranchesFail | crates/apex-core/src/query.rs:1219-1230 | If every branch of an `Or` skips or does not match, no row passes the `Or` |
| QueryShapes.SkippedPartFails | crates/apex-core/src/query.rs:1351-1360 | If one part of a tuple skips, no row passes the tuple |
| QueryShapes.FormWants | crates/apex-core/src/query.rs:639-698 | A form asks for its component, for its absence, or for nothing |
| QueryShapes.FormPasses | crates/apex-core/src/query.rs:1004-1129 | `Changed` passes a row by its changed tick, `Added` by its added tick, any other form by nothing |
| QueryShapes.TupleIsAll | crates/apex-core/src/query.rs:1337-1388 | A tuple asks for what all parts ask for and passes what all pass |
| QueryShapes.OrIsSome | crates/apex-core/src/query.rs:1202-1264 | `Or` asks for what some branch asks for, and passes what some branch asks for and passes |
| QueryShapes.RowFilterExactly | crates/apex-core/src/query.rs:150-168 | A shape has a row filter if and only if it is `Changed` or `Added` or some part or branch of it has one |
| QueryIteration.VisitedExactly | crates/apex-core/src/query.rs:1817-1822 | A row is visited if and only if its archetype is listed and asked for, it exists and passes, and it lies in the first range that names its archetype, or none does |
| QueryIteration.VisitsInOrder | crates/apex-core/src/query.rs:1981-2028 | Over archetypes in index order the visits are in order, each row once |
| QueryIteration.SharesJoin | crates/apex-core/src/query.rs:1817-1822 | The scans of two adjoining ranges, one after the other, are the scan of their union |
| QueryIteration.WholeShareIsAll | crates/apex-core/src/query.rs:1817-1822 | A range over all rows of its archetype admits what no range admits |
| QueryIteration.PassedOverIsEmpty | crates/apex-core/src/query.rs:2358-2393 | An archetype passed over contributes nothing to the naive scan |
| QueryIteration.ForEach | crates/apex-core/src/query.rs:1981-2028 | The loop with skipping and a dense path visits exactly the rows of the naive scan, in order |
| QueryIteration.QueryIter.Next | crates/apex-core/src/query.rs:2333-2353 | The lazy iterator yields the naive scan one row at a time and ends exactly when nothing is left |
| QueryIteration.QueryIter.AdvanceArchetype | crates/apex-core/src/query.rs:2358-2393 | Advancing loses no row that is still to come |
| QueryCacheKey.KeyCarriesIds | crates/apex-core/src/query.rs:1739-1748 | For every shape the cache key without its markers is the id list, entry by entry |
| QueryCacheKey.KeyReadsAsShape | crates/apex-core/src/query.rs:83-91 | Where every `Or` branch emits one entry, reading the key back gives the shape's own meaning |
| QueryCacheKey.EqualKeysMatchAlike | crates/apex-core/src/query.rs:1750-1758 | Two such shapes with equal keys match the same archetypes, on the ids read back from the key |
| QueryCacheKey.TupleInsideOrCollides | crates/apex-core/src/query.rs:1196-1200 | A tuple inside `Or` leaves no mark: two shapes with one key and different matches |
| QueryCacheKey.EqualMarkedKeysMatchAlike | crates/apex-core/src/query.rs:83-91 | With marks around such branches, equal keys mean equal matches for all shapes |
| QueryCacheKey.MarksAreTheGap | crates/apex-core/src/query.rs:1196-1200 | Those marks are all that the key lacks |
| DynQuery.MatchesExactly | crates/apex-core/src/query.rs:2590-2600 | An archetype matches if and only if it has every component fetched or asked for and none excluded |
| DynQuery.PassesChangeExactly | crates/apex-core/src/query.rs:2623-2641 | A row passes the change terms if and only if each component is there and the row's changed tick, or added tick where asked, is newer than the mark |
| DynQuery.TermIsTypedFilter | crates/apex-core/src/query.rs:2541-2556 | A change term passes the rows that the typed `Changed` or `Added` filter passes |
| DynQuery.HasRelationExactly | crates/apex-core/src/relations.rs:1032-1050 | A relation term holds if and only if the entity is listed under the target, or, for any target, under some entity |
| DynQuery.RuledOutHasNoRow | crates/apex-core/src/query.rs:2649-2658 | An archetype that the aggregates rule out has no row that passes every change term |
| DynQuery.MatchingArchetypes | crates/apex-core/src/query.rs:2590-2609 | The matching pass lists exactly the matching archetypes, in index order |
| DynQuery.PushRelationExactly | crates/apex-core/src/query.rs:2668-2683 | A relation term, required or absent, adds exactly its own condition, whether its kind is registered or not |
| DynQuery.DynIter.Next | crates/apex-core/src/query.rs:3261-3296 | The dynamic iterator yields exactly the rows that pass the relation terms and the change terms on their own, in order |
| EntityPool.PackRoundTripsExactly | crates/apex-core/src/entity.rs:40-82 | A location survives packing if and only if it is not (MAX, MAX) |
| EntityPool.ReserveIsWonThenFresh | crates/apex-core/src/entity.rs:301-335 | A batch is what one subtraction wins from the lease and then what one addition takes fresh |
| EntityPool.ReserveSplits | crates/apex-core/src/entity.rs:301-335 | A batch of m + n reservations is a batch of m followed by one of n |
| EntityPool.ReserveIsRepeated | crates/apex-core/src/entity.rs:301-335 | A batch of n reservations is n single ones: same ids, same cells |
| EntityPool.BatchIsRepeatedAllocate | crates/apex-core/src/entity.rs:628-673 | A batch allocation is that many single ones, up to how far an exhausted cursor has sunk |
| EntityPool.EarlyReturnIsRelease | crates/apex-core/src/entity.rs:492-555 | The early return of a flush leaves the cells the full return and re-lease would |
| EntityPool.StaleLeaseReissues | crates/apex-core/src/entity.rs:102-104 | What a reserver might still take from an old lease is on offer again after a flush: why a flush must find none between look and draw |
| EntityPool.SetLocationStores | crates/apex-core/src/entity.rs:745-756 | The location set through a current handle is the one found, the entity is alive, and no other record changes |
| EntityPool.StaleSetsNothing | crates/apex-core/src/entity.rs:745-756 | A stale handle sets nothing |
| EntityPool.RowsGivenExactly | crates/apex-core/src/entity.rs:680-698 | After a batch placement the i-th entity is found i rows below the first, and every other handle is found where it was |
| EntityPool.AliveIsLocated | crates/apex-core/src/entity.rs:728-743 | Alive is having a location under the record's generation |
| EntityPool.FreedIsAllocatedNext | crates/apex-core/src/entity.rs:574-611 | The free list is a stack: what was freed last is allocated next, one generation on |
| EntityPool.FlushKeepsOrder | crates/apex-core/src/entity.rs:492-555 | A flush keeps the order of the reservations the lease still had; after them come the abandoned indices and then the freed ones, the latest first |
| EntityPool.AbandonedExactly | crates/apex-core/src/entity.rs:253-273 | What is abandoned is exactly the indices given back, placeholders aside |
| EntityPool.SetLocationCountsExactly | crates/apex-core/src/entity.rs:745-756 | Setting a location keeps the live counter true if and only if the location is not (MAX, MAX) |
| EntityPool.FreeCounts | crates/apex-core/src/entity.rs:700-726 | Freeing keeps the live counter equal to the number of located records |
| EntityPool.FreeMovesGenerationExactly | crates/apex-core/src/entity.rs:700-726 | A freed handle is dead at once, and its slot's generation passes it if and only if it was not the last generation |
| EntityAllocator.EntityReserver.Reserve | crates/apex-core/src/entity.rs:198-212 | In place: a draw on the private block, or a fall through to the shared cells |
| EntityAllocator.EntityReserver.ReserveN | crates/apex-core/src/entity.rs:301-335 | In place: a batch that fits the block whole, or goes to the shared cells whole |
| EntityAllocator.EntityAllocator.Allocate | crates/apex-core/src/entity.rs:574-611 | In place: free list, then lease, then a fresh index, as the pool function says |
| EntityAllocator.EntityAllocator.AllocateBatch | crates/apex-core/src/entity.rs:628-673 | In place: the loops of the batch leave the pool function's cells and ids |
| EntityAllocator.EntityAllocator.Free | crates/apex-core/src/entity.rs:700-726 | In place: generation, location, counter and free list, or nothing for a stale handle |
| EntityAllocator.EntityAllocator.SetLocation | crates/apex-core/src/entity.rs:745-756 | In place: the location given is the one found afterwards, and the live counter follows; a stale handle changes nothing |
| EntityAllocator.EntityAllocator.SetLocationsBatch | crates/apex-core/src/entity.rs:680-698 | In place: consecutive rows of one archetype go to the entities in order |
| EntityAllocator.EntityAllocator.GetLocation | crates/apex-core/src/entity.rs:737-743 | The location of a current handle, and of no other |
| EntityAllocator.EntityAllocator.ReserveBlock | crates/apex-core/src/entity.rs:419-438 | In place: a block of the ids that many allocations would give |
| EntityAllocator.EntityAllocator.ReclaimBlockTail | crates/apex-core/src/entity.rs:449-458 | In place: the unused indices go to the end of the free list, generations untouched |
| EntityAllocator.EntityAllocator.Flush | crates/apex-core/src/entity.rs:492-555 | In place: materialise, drain, return what was not consumed and lease anew, with the early return |
| EntityProtocol.StepKeepsInv | crates/apex-core/src/entity.rs:108-127 | Every atomic step of reservers and allocator keeps each index in exactly one place and every usable handle current |
| EntityProtocol.EveryIndexInOnePlace | crates/apex-core/src/entity.rs:419-458 | In every interleaved run each index below the mark is in exactly one of: free list, unconsumed lease, a block's tail, abandoned queue, retired, held - once - and no other index is anywhere |
| EntityProtocol.NoIndexHeldTwice | crates/apex-core/src/entity.rs:190-212 | No index is ever held twice, by one client or by two |
| EntityProtocol.ReservationsAreDistinct | crates/apex-core/src/entity.rs:301-335 | In every interleaved run no two reservations still to come are of the same index |
| EntityProtocol.FreedStaysDead | crates/apex-core/src/entity.rs:700-726 | In every interleaved run a freed handle stays dead |
| EntityProtocol.LastSetIsFound | crates/apex-core/src/entity.rs:737-756 | In every interleaved run the location found for a handle is the one last set through it while it was held, and none before that or once it is freed |
| EntityProtocol.LiveCountIsExact | crates/apex-core/src/entity.rs:761-763 | In every interleaved run the live counter is the number of located records |
| EntityAtomics.ReserveIsItsSteps | crates/apex-core/src/entity.rs:118-127 | Look, subtract and add, uninterrupted, are the sequential batch |
| EntityAtomics.AllocateIsItsSteps | crates/apex-core/src/entity.rs:574-611 | The allocator's accesses, uninterrupted, are the sequential allocation |
| EntityAtomics.AbandonIsItsStep | crates/apex-core/src/entity.rs:253-273 | Abandoning a held id is one step that parks it on the queue and hands it to nobody |
| EntityBounds.MarkIsSum | crates/apex-core/src/entity.rs:463-555 | The mark is the sum of the sizes of all places |
| EntityBounds.IdSpaceIsBounded | crates/apex-core/src/entity.rs:411-458 | Whatever the churn, the mark never exceeds the retired slots plus the largest, over the frames between flushes, of the ids held or parked at the frame's start and the draws made in it |
| EntityBounds.FlushBoundsExactly | crates/apex-core/src/entity.rs:102-127 | After a flush the bound holds in every continuation whose flushes find all draws complete, if and only if no client owed itself fresh indices at that flush |
| EntityBounds.FlushMidDrawCreeps | crates/apex-core/src/entity.rs:118-127 | A draw that owes itself a fresh index across a flush takes it above the mark although the new lease has free slots |
| EntityBounds.FlushMidDrawExceeds | crates/apex-core/src/entity.rs:118-127 | Why every flush must find all draws complete: a run with one flush in the middle of a draw ends above the bound |
| EntityHandles.FreedIsNeverAlive | crates/apex-core/src/entity.rs:700-734 | After a successful free, no sequence of operations with any arguments revives the handle unless it frees the last generation of the handle's own slot |
| EntityHandles.LastGenerationRevives | crates/apex-core/src/entity.rs:703-716 | Freeing the last generation starts the slot over: every handle the slot ever had can come alive again |
| EntityHandles.FreedRevivesExactly | crates/apex-core/src/entity.rs:700-734 | A freed handle can come alive again, the slot's last generation not being freed after it, if and only if it was itself of the last generation |
| EntityBlocks.WithinDemandIsPrefix | crates/apex-core/src/entity.rs:154-162 | A system whose draws fit its block gets the block's ids in order and leaves the rest |
| EntityBlocks.OverflowExactly | crates/apex-core/src/entity.rs:236-241 | The overflow flag is set if and only if some draw fell through |
| EntityBlocks.InterleavingIsPrivate | crates/apex-core/src/entity.rs:198-229 | What a system takes from its block, and what it leaves there, depends on its own draws alone, whatever the interleaving |
| EntityBlocks.BlocksAreDeterministic | crates/apex-core/src/entity.rs:154-162 | With demand inside every block each system is handed its block's ids in order under every schedule, and the shared pool is not touched |
| EntityBlocks.PoolIsOneBatch | crates/apex-core/src/entity.rs:198-212 | Draws that fall through take from the shared pool in schedule order, and together leave it as one batch of their size would |
| EntityBlocks.CellsAreDeterministic | crates/apex-core/src/entity.rs:419-458 | Whatever falls through, where every system makes the same draws the blocks, the shared pool and the pool after reclaiming in rank order end the same under every schedule |
| EntityBlocks.OnlyOneFalls | crates/apex-core/src/entity.rs:288-335 | Where no other system falls through, a system is handed what it would be handed with the pool to itself |
| EntityBlocks.IdsAreDeterministicExactly | crates/apex-core/src/entity.rs:231-241 | From a pool that hands out no id twice, the ids are the same under every schedule if and only if at most one system has a draw that falls through |
| EntityBlocks.ReclaimedTails | crates/apex-core/src/entity.rs:449-458 | Reclaiming in rank order lists the tails in rank order |
| KindMask.SetBit | crates/apex-core/src/relations.rs:223-229 | Setting a kind's bit in the 64-bit mask changes that bit and no other |
| KindMask.ClearBit | crates/apex-core/src/relations.rs:232-241 | Clearing a kind's bit changes that bit and no other |
| RelationStorage.BinarySearch | crates/apex-core/src/relations.rs:117-149 | Finds the pair, or the one place where it belongs |
| RelationStorage.StorageInsert | crates/apex-core/src/relations.rs:117-134 | Sparse or dense, an insert adds the pair to the set, tells whether it was new, and promotes exactly above the threshold |
| RelationStorage.StorageRemove | crates/apex-core/src/relations.rs:137-149 | Sparse or dense, a removal takes the pair from the set and tells whether it was there |
| RelationStorage.StorageFirstWithKind | crates/apex-core/src/relations.rs:169-174 | The pair of the kind that iteration comes to first; in a vector the one with the least target |
| RelationStorage.EntryHasKind | crates/apex-core/src/relations.rs:215-220 | The mask answers exactly for the 64 kinds it has room for, the storage for the others |
| RelationStorage.EntryInsert | crates/apex-core/src/relations.rs:223-229 | The mask keeps naming exactly the kinds present |
| RelationStorage.EntryRemove | crates/apex-core/src/relations.rs:232-241 | A kind's bit goes with the last pair of the kind |
| RelationStorage.EntryHas | crates/apex-core/src/relations.rs:244-249 | The two-stage test is membership |
| RelationSubjects.SubjectIndex.Insert | crates/apex-core/src/relations.rs:273-277 | In place: one subject's set gains the pair |
| RelationSubjects.SubjectIndex.TakeAll | crates/apex-core/src/relations.rs:307-315 | In place: one subject's set is taken whole, mask and storage |
| RelationTargets.CountCoversList | crates/apex-core/src/relations.rs:364-375 | Every list shows in its target's count |
| RelationTargets.DroppedKeepsValid | crates/apex-core/src/relations.rs:470-486 | A removal keeps every count the total of the target's lists and drops an emptied list |
| RelationTargets.MovedKeepsValid | crates/apex-core/src/relations.rs:419-439 | A reorder keeps every count |
| RelationTargets.TakenKeepsValid | crates/apex-core/src/relations.rs:490-499 | Taking a list keeps every count |
| RelationTargets.TargetIndex.AddAt | crates/apex-core/src/relations.rs:398-403 | In place: clamped insertion into one list, and the count |
| RelationTargets.TargetIndex.IsAnyTarget | crates/apex-core/src/relations.rs:369-375 | The count answers exactly whether any list of any kind points at the entity |
| RelationTargets.TargetIndex.MoveTo | crates/apex-core/src/relations.rs:419-439 | In place: take out, clamp, put in |
| RelationTargets.TargetIndex.Remove | crates/apex-core/src/relations.rs:470-486 | In place: order-preserving removal, entry and count |
| Lists.InsertKeepsOthers | crates/apex-core/src/relations.rs:454-456 | An insertion leaves everyone else in the order they had |
| Lists.RemovedIsOthers | crates/apex-core/src/relations.rs:454-486 | A removal leaves the list exactly as everyone else saw it |
| Relations.PairIffListedOnce | crates/apex-core/src/relations.rs:20-30 | A live subject has a pair if and only if it occurs in the target's list, and then once |
| Relations.LinkKeepsAgree | crates/apex-core/src/relations.rs:868-882 | Both insertions together keep the two indexes views of one edge set |
| Relations.UnlinkKeepsAgree | crates/apex-core/src/relations.rs:852-865 | Both removals together keep the two indexes views of one edge set |
| Relations.LinkedAtIndex | crates/apex-core/src/relations.rs:906-937 | A positioned insertion puts the subject at the asked index, or last if there are fewer siblings |
| Relations.ReorderedAtIndex | crates/apex-core/src/relations.rs:945-969 | A reorder leaves the subject at the asked index, or last if there are fewer siblings |
| Relations.InsertedAtIndex | crates/apex-core/src/relations.rs:917-937 | An insertion that is not rejected leaves the subject at the asked index among the new siblings, or last, whether the edge was new, came over from another target, or was there |
| Relations.AddedAtIndex | crates/apex-core/src/relations.rs:791-884 | A positioned add of a new edge, re-parenting included, leaves the subject at the index, or last |
| Relations.AddedLast | crates/apex-core/src/relations.rs:784-787 | An add without a position appends to the target's list |
| Relations.MovedAtIndex | crates/apex-core/src/relations.rs:945-969 | A move succeeds exactly for an edge between live entities that is there, and then leaves the subject at the index |
| Relations.AddedIsThere | crates/apex-core/src/relations.rs:791-884 | After an add that is not rejected, between live and different entities, the edge is in both indexes; any other add changes nothing |
| Relations.RemovedIsGone | crates/apex-core/src/relations.rs:886-904 | A removal takes the pair and no other |
| Relations.PlainKindIsNeverRejected | crates/apex-core/src/relations.rs:815-823 | A kind that is neither exclusive nor cascades is never rejected |
| Relations.AddedKeepsAgree | crates/apex-core/src/relations.rs:847-882 | An accepted add, re-parenting included, keeps the indexes in agreement and an exclusive kind at one target |
| Relations.RemoveAgreesExactly | crates/apex-core/src/relations.rs:886-904 | Removal keeps the two indexes in agreement if and only if the subject's handle is live or its index has no such pair |
| Relations.RemoveUndoesLink | crates/apex-core/src/relations.rs:886-904 | Removing undoes adding: every pair set, sibling list and count is as before |
| RelationForest.WalkExactly | crates/apex-core/src/relations.rs:829-844 | The ancestor walk rejects exactly when the subject is among the ancestors it looks at or the chain goes on beyond |
| RelationForest.UncountedIsNobodysAncestor | crates/apex-core/src/relations.rs:821-828 | Who is the target of nothing is nobody's ancestor: the shortcut changes no answer |
| RelationForest.RejectsExactlyCycles | crates/apex-core/src/relations.rs:811-845 | With at most 2^20 entities a live non-self edge of an exclusive kind is rejected if and only if re-parenting the subject under the target would close a cycle |
| RelationForest.AddKeepsForest | crates/apex-core/src/relations.rs:791-884 | Every add keeps every exclusive kind a forest, without a bound on the number of entities |
| Forests.ReparentedAcyclicExactly | crates/apex-core/src/relations.rs:811-820 | Re-parenting s under t leaves a forest if and only if s is neither t nor above it |
| Forests.ChainFits | crates/apex-core/src/relations.rs:91-95 | In a forest a chain of ancestors is no longer than there are entities, so the walk's limit is never met by a smaller world |
| RelationRuns.RunsAgree | crates/apex-core/src/relations.rs:784-983 | In every reachable state: pair if and only if listed once, counts are totals, exclusive kinds have one target and no cycle |
| RelationRuns.StepKeepsOrder | crates/apex-core/src/relations.rs:32-38 | Whatever a step does to a sibling list, everyone but its own subject stays in the same order |
| RelationRuns.OnlyMovesReorder | crates/apex-core/src/relations.rs:906-969 | Any step but an explicit move leaves a list its subject stays in as it is |
| RelationStore.RelationStore.AncestorWalk | crates/apex-core/src/relations.rs:829-844 | In place: the loop decides as the walk along the first pairs of the kind does, for every kind |
| RelationStore.RelationStore.AddRelationPositioned | crates/apex-core/src/relations.rs:791-884 | In place: liveness, self-edge, shortcut, walk, exclusive replacement, both insertions; the answer of the check is that of the walk along the first pairs |
| RelationStore.RelationStore.RemoveRelation | crates/apex-core/src/relations.rs:886-904 | In place: both indexes lose the pair, or nothing changes; they stay in agreement if and only if the subject is live or had no such pair |
| RelationStore.RelationStore.InsertRelationAt | crates/apex-core/src/relations.rs:917-937 | In place: a reorder if the pair exists, a positioned add if not |
| RelationStore.RelationStore.SetRelationIndex | crates/apex-core/src/relations.rs:945-969 | In place: moves an existing pair, never creates one |
| RelationStore.RelationStore.RelationIndex | crates/apex-core/src/relations.rs:987-1004 | The position of the subject among its siblings, exactly for existing pairs |
| RelationStore.RelationStore.Detach | crates/apex-core/src/world.rs:2014-2054 | In place: a death removes every pair of and at the entity, leaves every other list as the others saw it, and names exactly the cascading subjects |
| RelationStore.RelationStore.Despawn | crates/apex-core/src/world.rs:2000-2096 | In place: the worklist takes exactly the entity and everything that depends on it through cascading pairs; the survivors keep exactly their pairs with survivors, and every list its survivors in the order they had |
| RelationDeaths.FallsWithExactly | crates/apex-core/src/world.rs:2014-2054 | Who falls directly with an entity: exactly the subjects listed under it for kinds that cascade |
| RelationDeaths.ForgetKeepsAgree | crates/apex-core/src/world.rs:2014-2054 | A death keeps the two indexes in agreement |
| RelationEmission.EmissionHoldsEveryList | crates/apex-core/src/relations.rs:1213-1223 | Reading any one list back from the full emission gives the list, in order |
| RelationEmission.EmissionIsOrdered | crates/apex-core/src/relations.rs:1202-1244 | Full or scoped, an emission has kinds ascending and, within a kind, targets ascending, wanted targets only |
| RelationEmission.ScopedIsFiltered | crates/apex-core/src/relations.rs:1225-1244 | The scoped emission is the full emission filtered to the given targets, in the same order |
| RelationEmission.ScopedExactly | crates/apex-core/src/relations.rs:1225-1244 | The scoped emission holds exactly the edges of the full one that point at the given targets |
| RelationEmission.EmitTargetMajor | crates/apex-core/src/relations.rs:1213-1223 | The loops emit kinds ascending, targets ascending, subjects in sibling order |
| RelationEmission.EmitTargetMajorAmong | crates/apex-core/src/relations.rs:1231-1244 | The scoped loops emit the given targets, sorted and without repeats |
| RelationCascades.LinkClosesLoopExactly | crates/apex-core/src/relations.rs:811-820 | An edge closes a loop of its kind if and only if its target already leads to its subject |
| RelationCascades.CheckExactly | crates/apex-core/src/relations.rs:829-844 | Whatever the subject, the check for a target answers whether the target leads to it if and only if the walk up from it along first pairs comes past every target of the kind that the indexes on it have |
| RelationCascades.OneEachIsExact | crates/apex-core/src/relations.rs:829-844 | So the check is exact for every kind of which no index has two targets |
| RelationCascades.CycleIsRejectedExactly | crates/apex-core/src/relations.rs:811-845 | For a kind that is exclusive or cascades, of which no index has two targets, an edge is rejected if and only if its target leads to its subject |
| RelationCascades.ExclusiveIsLoopFree | crates/apex-core/src/relations.rs:815-818 | An exclusive kind has no loop in any reachable state |
| RelationRoundTrip.RoundTrip | crates/apex-core/src/relations.rs:1202-1223 | Emitting and adding back to a world without relations rebuilds every sibling list in order, every pair set and every count, where no path of an exclusive or cascading kind closes a loop or exceeds the walk |
| RelationRoundTrip.NothingIsRejected | crates/apex-core/src/relations.rs:811-845 | On the way back no edge of the original is rejected, whichever pairs come first |
| RelationRoundTrip.FewEntitiesAreWalkable | crates/apex-core/src/relations.rs:91-95 | A reachable world of at most 2^20 entities meets that condition as soon as its cascading kinds that are not exclusive have no loop |
| RelationReturn.ComesBackExactly | crates/apex-core/src/relations.rs:1202-1223 | With at most 2^20 entities a reachable world comes back from its emission - lists, pairs and counts, whatever pairs come first - if and only if no kind that is exclusive or cascades has a loop |
| RelationReturn.LoopLosesEdge | crates/apex-core/src/relations.rs:811-845 | A loop in such a kind does not come back whole: some restored world lacks an edge |
| RelationReturn.SomeAnswerRejects | crates/apex-core/src/relations.rs:829-844 | Where first pairs lead along the loop, the check rejects an edge that would close one |
| RelationReturn.SomethingIsRestored | crates/apex-core/src/relations.rs:784-845 | The check always has an answer, and adding back always comes to an end |
| RelationRestore.Restore | crates/apex-core/src/relations.rs:1202-1223 | In place: the loop that adds a snapshot back ends with the lists, pairs and counts of the original |
| RelationRestore.CycleSlipsThrough | crates/apex-core/src/relations.rs:811-845 | In place: adding 1 -> 0, 1 -> 2 and 2 -> 1 of a kind that cascades and is not exclusive is accepted and leaves a cycle |
| RelationRestore.SlippedLosesEdge | crates/apex-core/src/relations.rs:1202-1223 | That world does not come back: in target-major order 1 -> 2 is rejected |
| EventQueue.CaughtUpExactly | crates/apex-core/src/events.rs:531-533 | The constant-time test is exact: the counter is zero if and only if no reader has anything left |
| EventQueue.ReadExactly | crates/apex-core/src/events.rs:415-429 | A read hands a reader everything it had left and leaves it nothing; nobody else notices |
| EventQueue.ReadPartialExactly | crates/apex-core/src/events.rs:451-472 | A partial read hands over the first of what is left, as many as asked for or as there are, and leaves the rest |
| EventQueue.AdvancedExactly | crates/apex-core/src/events.rs:358-397 | Advancing a reader drops the first of what it had left, or all of it, as a read of as many would |
| EventQueue.RemovedReadsAll | crates/apex-core/src/events.rs:415-429 | A read by a removed reader shows the whole buffer and moves nothing |
| EventQueue.JoinedExactly | crates/apex-core/src/events.rs:203-224 | A new reader gets a slot nobody had, the one vacated last if there is one, and everything the buffer holds |
| EventQueue.LeftExactly | crates/apex-core/src/events.rs:230-253 | A reader that leaves has nothing any more and its slot is the next to be reissued; nobody else notices |
| EventQueue.CompressedExactly | crates/apex-core/src/events.rs:241-251 | Compression drops the vacant slots at the end that cannot be reissued, all of them and nothing else |
| EventQueue.SentArrives | crates/apex-core/src/events.rs:136-190 | An event sent is seen after the next update and not before, behind what was sent earlier in its way, synchronous events last |
| EventQueue.UpdatedExactly | crates/apex-core/src/events.rs:278-342 | An update delivers what was sent, synchronous events last, behind what each reader had left; it drops the buffer if and only if everyone has read it, and counts the updates in a row that kept it |
| EventQueue.ClearedExactly | crates/apex-core/src/events.rs:498-509 | After a clear nothing is buffered or waiting and nobody has anything left |
| EventQueue.LeaveKeepsSlotsExactly | crates/apex-core/src/events.rs:230-253 | Removing a reader keeps the slots right if and only if its cursor is live or was never issued |
| EventQueue.ClearKeepsSlotsExactly | crates/apex-core/src/events.rs:498-509 | Clearing keeps the slots right if and only if no vacant slot waits to be reissued |
| EventQueue.ClearedSlotMisleads | crates/apex-core/src/events.rs:203-253 | After clearing with a slot waiting, a reader can hold an id that is not its slot: it sees nothing, and the slot lags for ever |
| EventDelivery.StepKeepsInv | crates/apex-core/src/events.rs:278-342 | Every step keeps the read buffer one stretch of the stream and every reader's cursor at the end of what it was handed |
| EventDelivery.EveryReaderGetsOneStretch | crates/apex-core/src/events.rs:278-342 | In every run each reader has been handed one stretch of the stream since it joined - no gap, no repeat - and the rest of what was delivered is still there for it |
| EventDelivery.LagIsExact | crates/apex-core/src/events.rs:511-529 | In every run the lag counter counts exactly the readers below the end of the buffer, and ids name their own slots |
| Events.Events.AddReader | crates/apex-core/src/events.rs:203-224 | In place: a reissued slot or a new one, at the start of the buffer |
| Events.Events.RemoveReader | crates/apex-core/src/events.rs:230-253 | In place: counter, slot, free list, and the compression loop |
| Events.Events.Update | crates/apex-core/src/events.rs:278-342 | In place: merge, then clear and rewind if nobody lags, else append, then recount |
| Events.Events.ReadAll | crates/apex-core/src/events.rs:415-429 | In place: the unread slice, and the cursor at the end when the guard is gone |
| Events.Events.ReadSome | crates/apex-core/src/events.rs:451-472 | In place: at most so many events, and the cursor exactly behind them |
| Events.Events.Clear | crates/apex-core/src/events.rs:498-509 | In place: both buffers, the free list and every position |
| ParSplit.CutHalves | crates/apex-core/src/par_utils.rs:69-90 | One cut keeps the rows in order and puts exactly half of them, rounded down, on the left |
| ParSplit.RowsOfExactly | crates/apex-core/src/par_utils.rs:55-68 | A range stands for the rows from its start up to its end, in order |
| ParSplit.LeavesVisitRows | crates/apex-core/src/par_utils.rs:55-95 | Read left to right the leaves visit exactly the rows, in order, each once; none is empty and none exceeds the threshold |
| ParSplit.SmallStaysWhole | crates/apex-core/src/par_utils.rs:62-68 | Ranges that fit the threshold are one leaf |
| ParSplit.EndsExactly | crates/apex-core/src/par_utils.rs:62-90 | The recursion ends if and only if the threshold is positive or there are no rows |
| ParSplit.SplitRunRanges | crates/apex-core/src/par_utils.rs:55-95 | The loop and the recursion hand out those leaves |
| ParSplit.ChunksCoverRows | crates/apex-core/src/par_utils.rs:13-33 | For any positive chunk size the chunks are the rows of the archetype in order, in pieces of one to that many rows |
| ParSplit.ChunksAreFull | crates/apex-core/src/par_utils.rs:25-30 | Every chunk but the last has exactly the chunk size and starts at its multiple |
| CommandArena.PayloadsAreAligned | crates/apex-core/src/commands.rs:54-111 | Every payload since the last reset sits at an address that suits its type, the empty ones included |
| CommandArena.PayloadsAreSeparate | crates/apex-core/src/commands.rs:54-78 | No two payloads share a byte, each lies in the buffer and holds its own bytes |
| CommandArena.GrowthKeepsArena | crates/apex-core/src/commands.rs:83-101 | Growth in size or alignment, wherever the new buffer lies, keeps every payload |
| CommandArena.CommandArena.Alloc | crates/apex-core/src/commands.rs:54-78 | In place: one payload more, at the aligned cursor; all before it keep their places and contents |
| CommandArena.CommandArena.Reallocate | crates/apex-core/src/commands.rs:83-101 | In place: the bytes below the cursor move to a new buffer |
| CommandArena.CommandArena.Read | crates/apex-core/src/commands.rs:103-111 | What was stored is what is read |
| CommandApply.JoinsExactly | crates/apex-core/src/commands.rs:686-745 | Neighbours join if and only if both are inserts, typed or raw, on one entity, or both spawns of one type |
| CommandApply.UnitsAreUnique | crates/apex-core/src/commands.rs:686-745 | There is only one way to cut a queue into maximal units |
| CommandApply.TakeUnit | crates/apex-core/src/commands.rs:686-745 | The loop's branches find the end of the unit that starts at a position |
| Commands.Commands.PushTyped | crates/apex-core/src/commands.rs:448-514 | In place: one command more, its bytes in the arena, and every queued command still tied to its payload |
| Commands.Commands.Apply | crates/apex-core/src/commands.rs:657-796 | In place: every queued command is applied once, in order, in maximal units; every stored payload is handed on once, in order and byte for byte; queue and arena end empty |
| Commands.EffectsExactly | crates/apex-core/src/commands.rs:657-870 | A payload goes, with its type, to the command's own entity; a raw insert puts its component into its entity if that is alive, else its value is dropped if it stands alone with a size, and forgotten if not; any other command runs |
| Commands.AloneExactly | crates/apex-core/src/commands.rs:686-745 | A command is a unit of its own if and only if neither neighbour joins it |
| Commands.DroppedExactly | crates/apex-core/src/commands.rs:758-796 | An insert's payload is dropped if and only if its unit finds the entity dead, alone or in a group; a spawn's, if and only if it stands alone and its reserved id is located already |
| Commands.Commands.Clear | crates/apex-core/src/commands.rs:903-924 | In place: a queue cleared without being applied drops every payload once and moves none, and gives the reserved ids of its spawns back |
| Commands.ReservedExactly | crates/apex-core/src/commands.rs:925-960 | The ids given back by a clear are those of the queued spawns that were reserved |
| CommandGroups.InsertedExactly | crates/apex-core/src/world.rs:1636-1813 | One insert leaves the value given - a component of no size its only value - with the insert's tick, added then if new; requirements with their defaults and that tick; the rest as it was |
| CommandGroups.RequirementsComeAlong | crates/apex-core/src/world.rs:2474-2503 | With a new component comes everything that it or a newcomer requires, and nothing that no newcomer requires |
| CommandGroups.GroupedExactly | crates/apex-core/src/world.rs:1827-1920 | A group leaves a named component with the value and tick of its last part, added by its first unless it was there |
| CommandGroups.GroupedUnnamed | crates/apex-core/src/world.rs:1827-1920 | A component no part names is as it was, or a default with the group's first tick |
| CommandGroups.SameComponentsAndValues | crates/apex-core/src/world.rs:1827-1920 | A grouped insert always gives the entity the same components with the same values as its inserts one by one, required ones included |
| CommandGroups.GroupIsOneByOne | crates/apex-core/src/world.rs:1827-1920 | Where each component's first part has the group's first tick and its last part stamps it, the group leaves the very row of the single inserts, both ticks included |
| CommandGroups.GroupAgreesExactly | crates/apex-core/src/world.rs:1827-1920 | For every entity and all requirements grouping changes nothing if and only if that condition on the parts holds |
| CommandGroups.LateFirstDiffers | crates/apex-core/src/world.rs:1887-1913 | A component first named with a tick other than the group's first: its requirements are born with another tick than one by one |
| CommandGroups.UnstampedDiffers | crates/apex-core/src/world.rs:1711-1813 | A raw insert of a present component of no size stamps nothing alone, and stamps in a group |
| CommandGroups.Fold | crates/apex-core/src/world.rs:2474-2503 | The walk over requirements gathers the least closed set of what the entity lacks |
| CommandGroups.Insert | crates/apex-core/src/world.rs:1636-1705 | One insert: a replacement, or one move with everything the component requires |
| CommandGroups.InsertParts | crates/apex-core/src/world.rs:1827-1920 | The loops of a grouped insert: one move, the parts in order, then the defaults |

## Left out

- QueryCacheKey.EqualKeysMatchAlike: is stated for shapes in which every `Or` branch emits one entry; some
  shapes outside it still have keys of their own. For all shapes see `QueryCacheKey.EqualMarkedKeysMatchAlike`.
- RelationStorage.StorageFirstWithKind: which pair comes first in a hash set is up to its table; any order is
  admitted.
- RelationReturn.ComesBackExactly: chains longer than the ancestor walk are left to `RelationRoundTrip.RoundTrip`,
  which is one way there.
- EventDelivery.EveryReaderGetsOneStretch: what a clear discards is not delivered; a reader's stretch starts
  anew at a clear.
- EntityBlocks.Interleave: a draw that falls through is one step here, and three in EntityProtocol.
- EntityAllocator.EntityReserver.Reserve: runs alone; what happens between its atomic accesses is the subject
  of EntityProtocol.
- EntityAllocator.EntityAllocator.Flush: fresh leases are values here, not shared pointers, so the swap of
  the lease cell is one assignment.
- 32-bit overflow of the high-water mark, of positions and counts, and truncation of arena offsets: counts
  stay below 2^32 - 1.
- Memory ordering below the step, thread pools, locks and their poisoning.
- Raw pointers, drop glue and panics; payloads are byte sequences with an owner.
- Where a new lease is built, the hash order of maps, and the inline capacity of small vectors.
- CommandGroups.InsertParts: takes a row as a map from components to a value and two ticks, so archetypes,
  moves between them and hooks are not in it.
- Component registration, bundles and archetype moves: the world beyond ids, columns, relations, events and
  the queue.
- Hooks and their dispatch, logging, starvation warnings, the event registry and delayed events.
- The data side of relation queries, which regroups subjects by archetype and gives up sibling order.
- Required and positive ids of shapes, data access lists and system access descriptors.
- Commands.Commands.Apply: follows the release build, which refuses a spawn onto a located id where a debug build
  panics; the spare buffer that keeps the queue's allocation is not in it.
- RelationRestore.Restore: adds back to the same entities; the mapping from saved to new entities is left out.
- Commands queued by a command while a queue is applied; names, serialization and templates.
