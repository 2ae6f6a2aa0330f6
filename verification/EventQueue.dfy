/** The event queue: a read buffer and a write buffer, a cursor per reader, and a count of the readers
    that lag behind.
  */
module EventQueue {
  import opened Basics
  import opened EntityPool
  import opened Lists

  /** A cursor is a slot number; a vacant slot is None. */
  datatype Queue<T> = Queue(
    events: seq<T>,
    pending: seq<T>,
    syncPending: seq<T>,
    cursors: seq<Option<nat>>,
    nextId: nat,
    freeList: seq<nat>,
    lagging: nat,
    retained: nat)

  function Fresh<T>(): Queue<T> {
    Queue([], [], [], [], 0, [], 0, 0)
  }

  predicate LiveSlot<T>(q: Queue<T>, id: nat) {
    id < |q.cursors| && q.cursors[id].Some?
  }

  predicate Lags(c: Option<nat>, len: nat) {
    c.Some? && c.value < len
  }

  function CountLagging(cursors: seq<Option<nat>>, len: nat): nat {
    if cursors == [] then 0
    else CountLagging(cursors[..|cursors| - 1], len) + if Lags(cursors[|cursors| - 1], len) then 1 else 0
  }

  // ---- Sending -------------------------------------------------------------------------------------------

  function Sent<T>(q: Queue<T>, e: T): Queue<T> {
    q.(pending := q.pending + [e])
  }

  function SentSync<T>(q: Queue<T>, e: T): Queue<T> {
    q.(syncPending := q.syncPending + [e])
  }

  function Merged<T>(q: Queue<T>): Queue<T> {
    q.(pending := q.pending + q.syncPending, syncPending := [])
  }

  // ---- Readers -------------------------------------------------------------------------------------------

  function Joined<T>(q: Queue<T>): (Queue<T>, nat) {
    var lagging := if q.events != [] then q.lagging + 1 else q.lagging;
    if q.freeList != [] then
      var id := q.freeList[|q.freeList| - 1];
      (q.(freeList := q.freeList[..|q.freeList| - 1],
          cursors := if id < |q.cursors| then q.cursors[id := Some(0)] else q.cursors,
          lagging := lagging), id)
    else
      (q.(cursors := q.cursors + [Some(0)], nextId := q.nextId + 1, lagging := lagging), q.nextId)
  }

  // Pops vacant slots off the end, up to the first that may be reissued.
  function Compressed(cursors: seq<Option<nat>>, freeList: seq<nat>): seq<Option<nat>> {
    if cursors == [] || cursors[|cursors| - 1].Some? || |cursors| - 1 in freeList then cursors
    else Compressed(cursors[..|cursors| - 1], freeList)
  }

  function Less1(n: nat): nat {
    if n == 0 then 0 else n - 1
  }

  function Left<T>(q: Queue<T>, id: nat): Queue<T> {
    var r :=
      if id < |q.cursors| then
        q.(lagging := if Lags(q.cursors[id], |q.events|) then Less1(q.lagging) else q.lagging,
           cursors := q.cursors[id := None],
           freeList := q.freeList + [id])
      else q;
    r.(cursors := Compressed(r.cursors, r.freeList))
  }

  // ---- The tick --------------------------------------------------------------------------------------------

  function Rewound(cursors: seq<Option<nat>>): seq<Option<nat>> {
    seq(|cursors|, i requires 0 <= i < |cursors| => if cursors[i].Some? then Some(0) else None)
  }

  function Updated<T>(q: Queue<T>): Queue<T> {
    var m := Merged(q);
    if m.events == [] && m.pending == [] then m
    else
      var r :=
        if m.lagging == 0 then
          m.(events := m.pending, pending := [], cursors := Rewound(m.cursors), retained := 0)
        else
          m.(events := m.events + m.pending, pending := [],
            retained := if m.retained < MAX then m.retained + 1 else MAX);
      r.(lagging := CountLagging(r.cursors, |r.events|))
  }

  function Cleared<T>(q: Queue<T>): Queue<T> {
    q.(events := [], pending := [], syncPending := [], freeList := [], cursors := Rewound(q.cursors), lagging := 0)
  }

  // ---- Reading -----------------------------------------------------------------------------------------------

  // A look at the unread events; a reader that was removed sees none.
  function Unread<T>(q: Queue<T>, id: nat): seq<T> {
    if LiveSlot(q, id) && q.cursors[id].value < |q.events| then q.events[q.cursors[id].value..] else []
  }

  // Where a read starts; for a reader that was removed, at the start of the buffer.
  function ReadStart<T>(q: Queue<T>, id: nat): (start: nat)
    ensures start <= |q.events|
  {
    Min(if LiveSlot(q, id) then q.cursors[id].value else 0, |q.events|)
  }

  function PartialCount<T>(q: Queue<T>, id: nat, max: nat): nat {
    Min(ReadStart(q, id) + max, |q.events|) - ReadStart(q, id)
  }

  function AdvancedTo<T>(q: Queue<T>, id: nat, pos: nat): Queue<T> {
    if !LiveSlot(q, id) then q
    else
      q.(lagging := if q.cursors[id].value < |q.events| && pos >= |q.events| then Less1(q.lagging) else q.lagging,
         cursors := q.cursors[id := Some(pos)])
  }

  function AdvancedToEnd<T>(q: Queue<T>, id: nat): Queue<T> {
    AdvancedTo(q, id, |q.events|)
  }

  function AdvancedBy<T>(q: Queue<T>, id: nat, count: nat): Queue<T> {
    if !LiveSlot(q, id) then q else AdvancedTo(q, id, Min(q.cursors[id].value + count, |q.events|))
  }

  // What a read hands out; its guard then moves the cursor.
  function Read<T>(q: Queue<T>, id: nat): (Queue<T>, seq<T>) {
    (AdvancedToEnd(q, id), q.events[ReadStart(q, id)..])
  }

  function ReadPartial<T>(q: Queue<T>, id: nat, max: nat): (Queue<T>, seq<T>) {
    var start, count := ReadStart(q, id), PartialCount(q, id, max);
    (AdvancedBy(q, id, count), q.events[start..start + count])
  }

  // ---- The lag counter ---------------------------------------------------------------------------------------

  lemma {:induction false} LaggingUpdate(cursors: seq<Option<nat>>, i: nat, c: Option<nat>, len: nat)
    requires i < |cursors|
    ensures CountLagging(cursors[i := c], len) ==
              CountLagging(cursors, len) - (if Lags(cursors[i], len) then 1 else 0) + (if Lags(c, len) then 1 else 0)
    decreases |cursors|
  {
    var n := |cursors| - 1;
    if i < n {
      LaggingUpdate(cursors[..n], i, c, len);
      assert cursors[i := c][..n] == cursors[..n][i := c];
    } else {
      assert cursors[i := c][..n] == cursors[..n];
    }
  }

  lemma LaggingAppended(cursors: seq<Option<nat>>, c: Option<nat>, len: nat)
    ensures CountLagging(cursors + [c], len) == CountLagging(cursors, len) + if Lags(c, len) then 1 else 0
  {
    assert (cursors + [c])[..|cursors|] == cursors;
  }

  lemma {:induction false} LaggingHas(cursors: seq<Option<nat>>, i: nat, len: nat)
    requires i < |cursors| && Lags(cursors[i], len)
    ensures CountLagging(cursors, len) > 0
    decreases |cursors|
  {
    if i < |cursors| - 1 {
      LaggingHas(cursors[..|cursors| - 1], i, len);
    }
  }

  lemma {:induction false} LaggingNone(cursors: seq<Option<nat>>, len: nat)
    requires forall i :: 0 <= i < |cursors| ==> !Lags(cursors[i], len)
    ensures CountLagging(cursors, len) == 0
    decreases |cursors|
  {
    if cursors != [] {
      LaggingNone(cursors[..|cursors| - 1], len);
    }
  }

  /** The constant-time test is exact: the counter is zero exactly when no reader has anything left. */
  lemma CaughtUpExactly<T>(q: Queue<T>)
    requires q.lagging == CountLagging(q.cursors, |q.events|)
    ensures q.lagging == 0 <==> forall id: nat :: Unread(q, id) == []
  {
    if q.lagging == 0 {
      forall id: nat ensures Unread(q, id) == [] {
        if LiveSlot(q, id) && q.cursors[id].value < |q.events| {
          LaggingHas(q.cursors, id, |q.events|);
        }
      }
    } else {
      if forall i :: 0 <= i < |q.cursors| ==> !Lags(q.cursors[i], |q.events|) {
        LaggingNone(q.cursors, |q.events|);
      } else {
        var i :| 0 <= i < |q.cursors| && Lags(q.cursors[i], |q.events|);
        assert |Unread(q, i)| > 0;
      }
    }
  }

  // ---- Slots -----------------------------------------------------------------------------------------------------

  /** Ids are slots, and the free list names each vacant slot once. */
  ghost predicate SlotsRight<T>(q: Queue<T>) {
    && q.nextId == |q.cursors|
    && NoRepeats(q.freeList)
    && (forall i :: 0 <= i < |q.freeList| ==> q.freeList[i] < |q.cursors|)
    && (forall i :: 0 <= i < |q.cursors| ==> (q.cursors[i].None? <==> i in q.freeList))
  }

  // While the free list names every vacant slot there is nothing to compress.
  lemma NothingToCompress(cursors: seq<Option<nat>>, freeList: seq<nat>)
    requires forall i :: 0 <= i < |cursors| ==> (cursors[i].None? ==> i in freeList)
    ensures Compressed(cursors, freeList) == cursors
  {
  }

  /** Removing a reader keeps the slots right exactly when the cursor is live, or was never issued:
      removing one twice puts its slot on the free list twice, and two readers would share it. */
  lemma LeaveKeepsSlotsExactly<T>(q: Queue<T>, id: nat)
    requires SlotsRight(q)
    ensures SlotsRight(Left(q, id)) <==> LiveSlot(q, id) || id >= |q.cursors|
  {
    var r := Left(q, id);
    if id < |q.cursors| {
      var freeList := q.freeList + [id];
      assert freeList[|q.freeList|] == id;
      assert forall x :: x in freeList <==> x in q.freeList || x == id;
      NothingToCompress(q.cursors[id := None], freeList);
      if q.cursors[id].None? {
        var i :| 0 <= i < |q.freeList| && q.freeList[i] == id;
        assert freeList[i] == freeList[|q.freeList|];
      }
    } else {
      NothingToCompress(q.cursors, q.freeList);
    }
  }

  /** Clearing keeps the slots right exactly when no vacant slot waits to be reissued. */
  lemma ClearKeepsSlotsExactly<T>(q: Queue<T>)
    requires SlotsRight(q)
    ensures SlotsRight(Cleared(q)) <==> q.freeList == []
  {
    if q.freeList != [] {
      var id := q.freeList[0];
      assert q.cursors[id].None? && Cleared(q).cursors[id].None?;
    }
  }

  lemma TwoJoin<T>()
    ensures Joined(Joined(Fresh<T>()).0).0 == Queue([], [], [], [Some(0), Some(0)], 2, [], 0, 0)
  {
    assert Joined(Fresh<T>()).0 == Queue([], [], [], [Some(0)], 1, [], 0, 0);
  }

  lemma SecondLeaves<T>(q: Queue<T>)
    requires q == Queue([], [], [], [Some(0), Some(0)], 2, [], 0, 0)
    ensures Left(q, 1) == Queue([], [], [], [Some(0), None], 2, [1], 0, 0)
    ensures Cleared(Left(q, 1)) == Queue([], [], [], [Some(0), None], 2, [], 0, 0)
  {
    assert q.cursors[1 := None] == [Some(0), None] && q.freeList + [1] == [1];
    assert Rewound([Some(0), None]) == [Some(0), None];
  }

  lemma FirstLeaves<T>(q: Queue<T>)
    requires q == Queue([], [], [], [Some(0), None], 2, [], 0, 0)
    ensures Left(q, 0) == Queue([], [], [], [None], 2, [0], 0, 0)
  {
    assert q.cursors[0 := None] == [None, None] && q.freeList + [0] == [0];
    var two: seq<Option<nat>> := [None, None];
    assert two[..1] == [None];
    assert Compressed([None], [0]) == [None];
  }

  lemma TwoRejoin<T>(q: Queue<T>)
    requires q == Queue([], [], [], [None], 2, [0], 0, 0)
    ensures Joined(Joined(q).0) == (Queue([], [], [], [Some(0), Some(0)], 3, [], 0, 0), 2)
  {
    assert q.cursors[0 := Some(0)] == [Some(0)] && q.freeList[..0] == [];
    assert Joined(q).0 == Queue([], [], [], [Some(0)], 2, [], 0, 0);
    var one: seq<Option<nat>> := [Some(0)];
    assert one + [Some(0)] == [Some(0), Some(0)];
  }

  lemma OneIsSent<T>(q: Queue<T>, e: T)
    requires q == Queue([], [], [], [Some(0), Some(0)], 3, [], 0, 0)
    ensures Updated(Sent(q, e)) == Queue([e], [], [], [Some(0), Some(0)], 3, [], 2, 0)
  {
    LaggingOfTwo();
    assert Merged(Sent(q, e)).pending == [e];
    assert Rewound([Some(0), Some(0)]) == [Some(0), Some(0)];
  }

  lemma LaggingOfTwo()
    ensures CountLagging([Some(0), Some(0)], 1) == 2
  {
    LaggingAppended([Some(0)], Some(0), 1);
    LaggingAppended([], Some(0), 1);
    assert [] + [Some(0)] == [Some(0)] && [Some(0)] + [Some(0)] == [Some(0), Some(0)];
  }

  /** What comes of clearing with a slot waiting: after one more removal and two more joins a reader
      holds an id that is not its slot; it never sees an event, and its slot lags for ever. */
  lemma ClearedSlotMisleads<T>(e: T)
    ensures var waiting := Left(Joined(Joined(Fresh<T>()).0).0, 1);
            var (q, id) := Joined(Joined(Left(Cleared(waiting), 0)).0);
            var told := Updated(Sent(q, e));
            && id == 2 && |q.cursors| == 2 && told.events == [e] && Unread(told, id) == []
            && AdvancedToEnd(AdvancedToEnd(told, 0), id).lagging == 1
  {
    TwoJoin<T>();
    SecondLeaves(Joined(Joined(Fresh<T>()).0).0);
    FirstLeaves(Cleared(Left(Joined(Joined(Fresh<T>()).0).0, 1)));
    TwoRejoin(Queue<T>.Queue([], [], [], [None], 2, [0], 0, 0));
    OneIsSent(Queue<T>.Queue([], [], [], [Some(0), Some(0)], 3, [], 0, 0), e);
  }

  // ---- What a reader gets --------------------------------------------------------------------------------

  /** A read hands a reader everything it had left, and leaves it nothing; nobody else notices. */
  lemma ReadExactly<T>(q: Queue<T>, id: nat, other: nat)
    requires LiveSlot(q, id) && q.cursors[id].value <= |q.events|
    ensures var (after, slice) := Read(q, id);
            && slice == Unread(q, id) && Unread(after, id) == [] && LiveSlot(after, id)
            && after.events == q.events && (other != id ==> Unread(after, other) == Unread(q, other))
  {
  }

  /** A partial read hands over the first of what is left, as many as asked for or as there are, and leaves the
      rest. */
  lemma ReadPartialExactly<T>(q: Queue<T>, id: nat, max: nat, other: nat)
    requires LiveSlot(q, id) && q.cursors[id].value <= |q.events|
    ensures var (after, slice) := ReadPartial(q, id, max); var left := Unread(q, id);
            var n := if max < |left| then max else |left|;
            && slice == left[..n] && Unread(after, id) == left[n..] && LiveSlot(after, id)
            && after.events == q.events && (other != id ==> Unread(after, other) == Unread(q, other))
  {
  }

  /** Advancing a reader is reading without looking: it passes what a read of as many would hand it. */
  lemma AdvancedExactly<T>(q: Queue<T>, id: nat, count: nat)
    requires LiveSlot(q, id) && q.cursors[id].value <= |q.events|
    ensures var left := Unread(q, id);
            && Unread(AdvancedBy(q, id, count), id) == (if count < |left| then left[count..] else [])
            && Unread(AdvancedToEnd(q, id), id) == []
    ensures AdvancedBy(q, id, count) == ReadPartial(q, id, count).0 && AdvancedToEnd(q, id) == Read(q, id).0
  {
  }

  /** A reader that was removed is shown the whole buffer by a read, and moves nothing. */
  lemma RemovedReadsAll<T>(q: Queue<T>, id: nat, max: nat)
    requires !LiveSlot(q, id)
    ensures Read(q, id) == (q, q.events)
    ensures ReadPartial(q, id, max) == (q, if max < |q.events| then q.events[..max] else q.events)
  {
    assert q.events[0..] == q.events && q.events[..|q.events|] == q.events;
  }

  /** A new reader gets a slot that nobody had, the one vacated last if there is one, and everything the buffer
      still holds; nobody else notices. */
  lemma JoinedExactly<T>(q: Queue<T>, other: nat)
    requires SlotsRight(q)
    ensures var (after, id) := Joined(q);
            && !LiveSlot(q, id) && LiveSlot(after, id)
            && id == (if q.freeList != [] then q.freeList[|q.freeList| - 1] else |q.cursors|)
            && Unread(after, id) == q.events && after.events == q.events && after.pending == q.pending
            && (other != id ==> Unread(after, other) == Unread(q, other))
  {
    if q.freeList != [] {
      assert q.freeList[|q.freeList| - 1] in q.freeList;
    }
    assert q.events[0..] == q.events;
  }

  /** A reader that leaves has nothing any more, its slot is the next to be reissued, and nobody else notices. */
  lemma LeftExactly<T>(q: Queue<T>, id: nat, other: nat)
    requires SlotsRight(q) && LiveSlot(q, id)
    ensures var after := Left(q, id);
            && !LiveSlot(after, id) && after.freeList == q.freeList + [id]
            && after.events == q.events && after.pending == q.pending
            && (other != id ==> Unread(after, other) == Unread(q, other))
  {
    assert (q.freeList + [id])[|q.freeList|] == id;
    assert forall x :: x in q.freeList + [id] <==> x in q.freeList || x == id;
    NothingToCompress(q.cursors[id := None], q.freeList + [id]);
  }

  /** Compression drops vacant slots off the end that cannot be reissued, all of them and nothing else. */
  lemma {:induction false} CompressedExactly(cursors: seq<Option<nat>>, freeList: seq<nat>)
    ensures var kept := Compressed(cursors, freeList);
            && kept <= cursors
            && (forall i :: |kept| <= i < |cursors| ==> cursors[i].None? && i !in freeList)
            && (kept != [] ==> kept[|kept| - 1].Some? || |kept| - 1 in freeList)
    decreases |cursors|
  {
    if cursors != [] {
      CompressedExactly(cursors[..|cursors| - 1], freeList);
    }
  }

  /** An update delivers what was sent, synchronous events last, to every reader behind what it had left. It drops
      the buffer if and only if everyone has read it, and counts the updates in a row that kept it. */
  lemma UpdatedExactly<T>(q: Queue<T>, id: nat)
    requires q.lagging == CountLagging(q.cursors, |q.events|)
    requires LiveSlot(q, id) ==> q.cursors[id].value <= |q.events|
    ensures var after := Updated(q); var caughtUp := forall other: nat :: Unread(q, other) == [];
            && after.pending == [] && after.syncPending == []
            && after.events == (if caughtUp then q.pending + q.syncPending else q.events + (q.pending + q.syncPending))
            && (LiveSlot(q, id) ==> Unread(after, id) == Unread(q, id) + (q.pending + q.syncPending))
            && (LiveSlot(after, id) <==> LiveSlot(q, id))
            && (q.events != [] || q.pending + q.syncPending != [] ==>
                  after.retained == if caughtUp then 0 else if q.retained < MAX then q.retained + 1 else MAX)
  {
    CaughtUpExactly(q);
    var arriving := Merged(q).pending;
    assert arriving == q.pending + q.syncPending;
    if q.lagging == 0 {
      if LiveSlot(q, id) { assert Unread(q, id) == []; assert [] + arriving == arriving && arriving[0..] == arriving; }
    } else {
      NotCaughtUpHasEvents(q);
      if LiveSlot(q, id) {
        var at := q.cursors[id].value;
        assert (q.events + arriving)[at..] == q.events[at..] + arriving;
      }
    }
  }

  /** An event sent is seen by nobody before the update, and by every reader after it: among the others sent that
      way last, synchronous events behind the rest. Bringing them over beforehand makes no difference. */
  lemma SentArrives<T>(q: Queue<T>, e: T, id: nat)
    requires q.lagging == CountLagging(q.cursors, |q.events|)
    requires LiveSlot(q, id) && q.cursors[id].value <= |q.events|
    ensures Unread(Sent(q, e), id) == Unread(q, id) == Unread(SentSync(q, e), id)
    ensures Unread(Updated(Sent(q, e)), id) == Unread(q, id) + (q.pending + [e] + q.syncPending)
    ensures Unread(Updated(SentSync(q, e)), id) == Unread(q, id) + (q.pending + (q.syncPending + [e]))
    ensures Updated(Merged(q)) == Updated(q)
  {
    UpdatedExactly(Sent(q, e), id);
    UpdatedExactly(SentSync(q, e), id);
    assert Merged(Merged(q)) == Merged(q) by { assert Merged(q).pending + [] == Merged(q).pending; }
  }

  lemma NotCaughtUpHasEvents<T>(q: Queue<T>)
    requires q.lagging == CountLagging(q.cursors, |q.events|) && q.lagging > 0
    ensures q.events != []
  {
    if q.events == [] { LaggingNone(q.cursors, 0); }
  }

  /** After a clear nothing is buffered or waiting, and nobody has anything left. */
  lemma ClearedExactly<T>(q: Queue<T>, id: nat)
    ensures var after := Cleared(q);
            && after.events == after.pending == after.syncPending == [] && after.freeList == []
            && Unread(after, id) == [] && (LiveSlot(after, id) <==> LiveSlot(q, id))
  {
  }
}
