/** The event queue in place, with the loops the queue functions of `EventQueue` stand for. */
module Events {
  import opened Basics
  import opened EntityPool
  import opened EventQueue

  class Events<T> {
    var events: seq<T>
    var pending: seq<T>
    var syncPending: seq<T>
    var cursors: seq<Option<nat>>
    var nextCursorId: nat
    var freeList: seq<nat>
    var laggingCount: nat
    var retainedTicks: nat

    function Value(): Queue<T>
      reads this
    {
      Queue(events, pending, syncPending, cursors, nextCursorId, freeList, laggingCount, retainedTicks)
    }

    constructor ()
      ensures Value() == Fresh()
    {
      events, pending, syncPending := [], [], [];
      cursors, nextCursorId, freeList := [], 0, [];
      laggingCount, retainedTicks := 0, 0;
    }

    method Send(e: T)
      modifies this`pending
      ensures Value() == Sent(old(Value()), e)
    {
      pending := pending + [e];
    }

    method SendSync(e: T)
      modifies this`syncPending
      ensures Value() == SentSync(old(Value()), e)
    {
      syncPending := syncPending + [e];
    }

    method FlushSync()
      modifies this`pending, this`syncPending
      ensures Value() == Merged(old(Value()))
    {
      if syncPending != [] {
        pending, syncPending := pending + syncPending, [];
      }
    }

    method AddReader() returns (id: nat)
      modifies this
      ensures (Value(), id) == Joined(old(Value()))
    {
      if freeList != [] {
        id := freeList[|freeList| - 1];
        freeList := freeList[..|freeList| - 1];
        if id < |cursors| { cursors := cursors[id := Some(0)]; }
      } else {
        id := nextCursorId;
        nextCursorId := nextCursorId + 1;
        cursors := cursors + [Some(0)];
      }
      if events != [] { laggingCount := laggingCount + 1; }
    }

    method CompressTail()
      modifies this`cursors
      ensures cursors == Compressed(old(cursors), freeList)
    {
      while cursors != [] && cursors[|cursors| - 1].None?
        invariant Compressed(cursors, freeList) == Compressed(old(cursors), freeList)
        decreases |cursors|
      {
        if |cursors| - 1 in freeList { break; }
        cursors := cursors[..|cursors| - 1];
      }
    }

    method RemoveReader(id: nat)
      modifies this
      ensures Value() == Left(old(Value()), id)
    {
      if id < |cursors| {
        if Lags(cursors[id], |events|) { laggingCount := Less1(laggingCount); }
        cursors := cursors[id := None];
        freeList := freeList + [id];
      }
      CompressTail();
    }

    method RewindCursors()
      modifies this`cursors
      ensures cursors == Rewound(old(cursors))
    {
      ghost var was := cursors;
      for i := 0 to |cursors|
        invariant |cursors| == |was|
        invariant forall j :: 0 <= j < i ==> cursors[j] == if was[j].Some? then Some(0) else None
        invariant forall j :: i <= j < |was| ==> cursors[j] == was[j]
      {
        if cursors[i].Some? { cursors := cursors[i := Some(0)]; }
      }
    }

    method Recount() returns (count: nat)
      ensures count == CountLagging(cursors, |events|)
    {
      count := 0;
      for i := 0 to |cursors|
        invariant count == CountLagging(cursors[..i], |events|)
      {
        assert cursors[..i + 1][..i] == cursors[..i];
        if Lags(cursors[i], |events|) { count := count + 1; }
      }
      assert cursors[..|cursors|] == cursors;
    }

    /** Drops the read buffer only when no reader lags; otherwise the new events go behind the old. */
    method Update()
      modifies this
      ensures Value() == Updated(old(Value()))
    {
      FlushSync();
      if events == [] && pending == [] { return; }
      if laggingCount == 0 {
        RewindCursors();
        events, pending, retainedTicks := pending, [], 0;
      } else {
        retainedTicks := if retainedTicks < MAX then retainedTicks + 1 else MAX;
        events, pending := events + pending, [];
      }
      laggingCount := Recount();
    }

    method Clear()
      modifies this
      ensures Value() == Cleared(old(Value()))
    {
      events, pending, syncPending, freeList := [], [], [], [];
      RewindCursors();
      laggingCount := 0;
    }

    function Iter(id: nat): seq<T>
      reads this
    {
      Unread(Value(), id)
    }

    method AdvanceReader(id: nat)
      modifies this`cursors, this`laggingCount
      ensures Value() == AdvancedToEnd(old(Value()), id)
    {
      if LiveSlot(Value(), id) {
        if cursors[id].value < |events| { laggingCount := Less1(laggingCount); }
        cursors := cursors[id := Some(|events|)];
      }
    }

    method AdvanceReaderBy(id: nat, count: nat)
      modifies this`cursors, this`laggingCount
      ensures Value() == AdvancedBy(old(Value()), id, count)
    {
      if LiveSlot(Value(), id) {
        var pos := Min(cursors[id].value + count, |events|);
        if cursors[id].value < |events| && pos >= |events| { laggingCount := Less1(laggingCount); }
        cursors := cursors[id := Some(pos)];
      }
    }

    /** A read: what its guard shows, and the cursor when the guard is gone. */
    method ReadAll(id: nat) returns (slice: seq<T>)
      modifies this`cursors, this`laggingCount
      ensures (Value(), slice) == Read(old(Value()), id)
    {
      slice := events[ReadStart(Value(), id)..];
      AdvanceReader(id);
    }

    method ReadSome(id: nat, max: nat) returns (slice: seq<T>)
      modifies this`cursors, this`laggingCount
      ensures (Value(), slice) == ReadPartial(old(Value()), id, max)
    {
      var start, count := ReadStart(Value(), id), PartialCount(Value(), id, max);
      slice := events[start..start + count];
      AdvanceReaderBy(id, count);
    }
  }
}
