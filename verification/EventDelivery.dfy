/** What readers receive over any run: each an unbroken stretch of the one stream of events.

    `accepted` is every event in the order it entered the write buffer, `waiting` the synchronous ones still to
    enter it; the read buffer is the stretch from `base` to `delivered`.
  */
module EventDelivery {
  import opened Basics
  import opened EventQueue

  /** Where in the stream a reader joined, and what reads have handed it since. */
  datatype Track<T> = Track(joined: nat, got: seq<T>)

  datatype Run<T> = Run(
    q: Queue<T>, accepted: seq<T>, waiting: seq<T>, base: nat, delivered: nat, tracks: map<nat, Track<T>>)

  datatype Step<T> =
    | Send(e: T)
    | SendSync(e: T)
    | FlushSync
    | Join
    | Leave(id: nat)
    | Update
    | ReadAll(id: nat)
    | ReadSome(id: nat, max: nat)
    | Clear

  function Start<T>(): Run<T> {
    Run(Fresh(), [], [], 0, 0, map[])
  }

  // A reader leaves once; a clear finds no vacant slot waiting to be reissued.
  predicate Enabled<T>(r: Run<T>, step: Step<T>) {
    match step
    case Leave(id) => LiveSlot(r.q, id) || id >= |r.q.cursors|
    case Clear => r.q.freeList == []
    case _ => true
  }

  function Handed<T>(r: Run<T>, id: nat, after: Queue<T>, slice: seq<T>): Run<T> {
    r.(q := after,
       tracks := if id in r.tracks then r.tracks[id := r.tracks[id].(got := r.tracks[id].got + slice)] else r.tracks)
  }

  function Next<T>(r: Run<T>, step: Step<T>): Run<T> {
    match step
    case Send(e) => r.(q := Sent(r.q, e), accepted := r.accepted + [e])
    case SendSync(e) => r.(q := SentSync(r.q, e), waiting := r.waiting + [e])
    case FlushSync => r.(q := Merged(r.q), accepted := r.accepted + r.waiting, waiting := [])
    case Join => var (q, id) := Joined(r.q); r.(q := q, tracks := r.tracks[id := Track(r.base, [])])
    case Leave(id) => r.(q := Left(r.q, id), tracks := r.tracks - {id})
    case Update =>
      var accepted := r.accepted + r.waiting;
      r.(q := Updated(r.q), accepted := accepted, waiting := [], delivered := |accepted|,
         base := if r.q.lagging == 0 then r.delivered else r.base)
    case ReadAll(id) => var (q, slice) := Read(r.q, id); Handed(r, id, q, slice)
    case ReadSome(id, max) => var (q, slice) := ReadPartial(r.q, id, max); Handed(r, id, q, slice)
    case Clear =>
      r.(q := Cleared(r.q), waiting := [], base := |r.accepted|, delivered := |r.accepted|,
         tracks := map id | id in r.tracks :: Track(|r.accepted|, []))
  }

  ghost predicate Reaches<T>(r: Run<T>, steps: seq<Step<T>>, r': Run<T>)
    decreases |steps|
  {
    if steps == [] then r' == r
    else Enabled(r, steps[0]) && Reaches(Next(r, steps[0]), steps[1..], r')
  }

  // ---- The queue on its own -----------------------------------------------------------------------------

  ghost predicate QueueInv<T>(q: Queue<T>) {
    && SlotsRight(q)
    && q.lagging == CountLagging(q.cursors, |q.events|)
    && forall i :: 0 <= i < |q.cursors| && q.cursors[i].Some? ==> q.cursors[i].value <= |q.events|
  }

  lemma JoinedSlots<T>(q: Queue<T>)
    requires QueueInv(q)
    ensures SlotsRight(Joined(q).0) && LiveSlot(Joined(q).0, Joined(q).1) && !LiveSlot(q, Joined(q).1)
    ensures forall id: nat :: id != Joined(q).1 ==> (LiveSlot(Joined(q).0, id) <==> LiveSlot(q, id))
  {
    if q.freeList != [] {
      var n := |q.freeList| - 1;
      var id := q.freeList[n];
      assert id in q.freeList;
      assert forall x :: x in q.freeList[..n] <==> x in q.freeList && x != id by {
        assert q.freeList == q.freeList[..n] + [id];
      }
    }
  }

  lemma JoinedKeepsInv<T>(q: Queue<T>)
    requires QueueInv(q)
    ensures QueueInv(Joined(q).0)
  {
    JoinedSlots(q);
    if q.freeList != [] {
      var id := q.freeList[|q.freeList| - 1];
      assert id in q.freeList;
      LaggingUpdate(q.cursors, id, Some(0), |q.events|);
    } else {
      LaggingAppended(q.cursors, Some(0), |q.events|);
    }
  }

  lemma LeftKeepsInv<T>(q: Queue<T>, id: nat)
    requires QueueInv(q) && (LiveSlot(q, id) || id >= |q.cursors|)
    ensures QueueInv(Left(q, id))
    ensures Left(q, id).cursors == if id < |q.cursors| then q.cursors[id := None] else q.cursors
  {
    LeaveKeepsSlotsExactly(q, id);
    if id < |q.cursors| {
      assert (q.freeList + [id])[|q.freeList|] == id;
      assert forall x :: x in q.freeList + [id] <==> x in q.freeList || x == id;
      NothingToCompress(q.cursors[id := None], q.freeList + [id]);
      LaggingUpdate(q.cursors, id, None, |q.events|);
    } else {
      NothingToCompress(q.cursors, q.freeList);
    }
  }

  lemma UpdatedKeepsInv<T>(q: Queue<T>)
    requires QueueInv(q)
    ensures QueueInv(Updated(q))
  {
  }

  lemma AdvancedKeepsInv<T>(q: Queue<T>, id: nat, pos: nat)
    requires QueueInv(q) && pos <= |q.events| && (LiveSlot(q, id) ==> q.cursors[id].value <= pos)
    ensures QueueInv(AdvancedTo(q, id, pos))
  {
    if LiveSlot(q, id) {
      LaggingUpdate(q.cursors, id, Some(pos), |q.events|);
    }
  }

  lemma ClearedKeepsInv<T>(q: Queue<T>)
    requires QueueInv(q) && q.freeList == []
    ensures QueueInv(Cleared(q))
  {
    ClearKeepsSlotsExactly(q);
    LaggingNone(Cleared(q).cursors, 0);
  }

  // ---- The stream --------------------------------------------------------------------------------------------

  ghost predicate StreamRight<T>(r: Run<T>) {
    && r.base <= r.delivered <= |r.accepted|
    && r.q.events == r.accepted[r.base..r.delivered]
    && r.q.pending == r.accepted[r.delivered..]
    && r.q.syncPending == r.waiting
  }

  // A reader has exactly the stretch from where it joined to where its cursor stands.
  ghost predicate TrackRight<T>(r: Run<T>, id: nat)
    requires StreamRight(r) && id in r.tracks
  {
    && LiveSlot(r.q, id)
    && r.q.cursors[id].value <= |r.q.events|
    && r.tracks[id].joined <= r.base + r.q.cursors[id].value
    && r.tracks[id].got == r.accepted[r.tracks[id].joined..r.base + r.q.cursors[id].value]
  }

  ghost predicate TracksRight<T>(r: Run<T>)
    requires StreamRight(r)
  {
    && (forall id: nat {:trigger TrackRight(r, id)} :: id in r.tracks ==> TrackRight(r, id))
    && (forall id: nat {:trigger LiveSlot(r.q, id)} :: LiveSlot(r.q, id) ==> id in r.tracks)
  }

  ghost predicate Inv<T>(r: Run<T>) {
    QueueInv(r.q) && StreamRight(r) && TracksRight(r)
  }

  lemma SliceOfLonger<T>(a: seq<T>, b: seq<T>, i: nat, j: nat)
    requires i <= j <= |a|
    ensures (a + b)[i..j] == a[i..j]
  {
  }

  lemma SliceToEnd<T>(a: seq<T>, b: seq<T>, i: nat)
    requires i <= |a|
    ensures (a + b)[i..] == a[i..] + b
  {
    forall k | 0 <= k < |a| + |b| - i ensures (a + b)[i..][k] == (a[i..] + b)[k] {
    }
  }

  lemma SlicesMeet<T>(a: seq<T>, i: nat, j: nat, k: nat)
    requires i <= j <= k <= |a|
    ensures a[i..j] + a[j..k] == a[i..k]
  {
  }

  lemma SliceOfSlice<T>(a: seq<T>, lo: nat, hi: nat, i: nat, j: nat)
    requires lo <= hi <= |a| && i <= j <= hi - lo
    ensures a[lo..hi][i..j] == a[lo + i..lo + j]
  {
    forall k | 0 <= k < j - i ensures a[lo..hi][i..j][k] == a[lo + i..lo + j][k] {
    }
  }

  // More events are accepted; cursors, tracks and the read buffer stay.
  lemma AcceptKeepsTracks<T>(r: Run<T>, r': Run<T>, more: seq<T>)
    requires StreamRight(r) && TracksRight(r) && StreamRight(r')
    requires r'.accepted == r.accepted + more && r'.tracks == r.tracks && r'.base == r.base
    requires r'.q.cursors == r.q.cursors && |r.q.events| <= |r'.q.events|
    ensures TracksRight(r')
  {
    forall id: nat | id in r'.tracks ensures TrackRight(r', id) {
      assert TrackRight(r, id);
      SliceOfLonger(r.accepted, more, r.tracks[id].joined, r.base + r.q.cursors[id].value);
    }
    assert forall id: nat :: LiveSlot(r'.q, id) <==> LiveSlot(r.q, id);
  }

  lemma SendKeepsInv<T>(r: Run<T>, e: T)
    requires Inv(r)
    ensures Inv(Next(r, Send(e)))
  {
    SliceOfLonger(r.accepted, [e], r.base, r.delivered);
    SliceToEnd(r.accepted, [e], r.delivered);
    AcceptKeepsTracks(r, Next(r, Send(e)), [e]);
  }

  lemma SendSyncKeepsInv<T>(r: Run<T>, e: T)
    requires Inv(r)
    ensures Inv(Next(r, SendSync(e)))
  {
    assert r.accepted + [] == r.accepted;
    AcceptKeepsTracks(r, Next(r, SendSync(e)), []);
  }

  lemma FlushSyncKeepsInv<T>(r: Run<T>)
    requires Inv(r)
    ensures Inv(Next(r, FlushSync))
  {
    SliceOfLonger(r.accepted, r.q.syncPending, r.base, r.delivered);
    SliceToEnd(r.accepted, r.q.syncPending, r.delivered);
    AcceptKeepsTracks(r, Next(r, FlushSync), r.q.syncPending);
  }

  lemma JoinKeepsInv<T>(r: Run<T>)
    requires Inv(r)
    ensures Inv(Next(r, Join))
  {
    var r', joiner := Next(r, Join), Joined(r.q).1;
    JoinedKeepsInv(r.q);
    JoinedSlots(r.q);
    JoinedCursor(r.q);
    forall id: nat | id in r'.tracks ensures TrackRight(r', id) {
      if id == joiner {
        assert r.accepted[r.base..r.base] == [];
      } else {
        assert TrackRight(r, id);
      }
    }
  }

  lemma JoinedCursor<T>(q: Queue<T>)
    requires QueueInv(q)
    ensures var (q', id) := Joined(q);
            && id < |q'.cursors| && q'.cursors[id] == Some(0)
            && |q.cursors| <= |q'.cursors| &&
               forall i :: 0 <= i < |q.cursors| && i != id ==> q'.cursors[i] == q.cursors[i]
  {
    if q.freeList != [] {
      assert q.freeList[|q.freeList| - 1] in q.freeList;
    }
  }

  lemma LeaveKeepsInv<T>(r: Run<T>, id: nat)
    requires Inv(r) && Enabled(r, Leave(id))
    ensures Inv(Next(r, Leave(id)))
  {
    var r' := Next(r, Leave(id));
    LeftKeepsInv(r.q, id);
    forall other: nat | other in r'.tracks ensures TrackRight(r', other) {
      assert TrackRight(r, other);
    }
    forall other: nat | LiveSlot(r'.q, other) ensures other in r'.tracks {
      assert LiveSlot(r.q, other);
    }
  }

  // ---- The tick ------------------------------------------------------------------------------------------------

  lemma IdleUpdateKeepsInv<T>(r: Run<T>)
    requires Inv(r) && r.q.events == [] && r.q.pending + r.q.syncPending == []
    ensures Inv(Next(r, Update))
  {
    var r' := Next(r, Update);
    assert r.q.syncPending == [] && r.q.pending == [];
    assert r'.accepted == r.accepted + r.q.syncPending == r.accepted;
    assert r.delivered == |r.accepted| && r.base == r.delivered;
    forall id: nat | id in r'.tracks ensures TrackRight(r', id) {
      assert TrackRight(r, id);
    }
  }

  lemma UpdatedStream<T>(r: Run<T>)
    requires Inv(r) && !(r.q.events == [] && r.q.pending + r.q.syncPending == [])
    ensures StreamRight(Next(r, Update))
  {
    var more := r.q.syncPending;
    var accepted := r.accepted + more;
    SliceToEnd(r.accepted, more, r.delivered);
    SliceOfLonger(r.accepted, more, r.base, r.delivered);
    SlicesMeet(accepted, r.base, r.delivered, |accepted|);
    assert accepted[r.delivered..] == accepted[r.delivered..|accepted|];
    assert accepted[|accepted|..] == [];
  }

  lemma CaughtUpUpdateKeepsTracks<T>(r: Run<T>)
    requires Inv(r) && r.q.lagging == 0 && StreamRight(Next(r, Update))
    requires !(r.q.events == [] && r.q.pending + r.q.syncPending == [])
    ensures TracksRight(Next(r, Update))
  {
    var r' := Next(r, Update);
    forall id: nat | id in r'.tracks ensures TrackRight(r', id) {
      assert TrackRight(r, id);
      if r.q.cursors[id].value < |r.q.events| {
        LaggingHas(r.q.cursors, id, |r.q.events|);
      }
      SliceOfLonger(r.accepted, r.q.syncPending, r.tracks[id].joined, r.delivered);
    }
    assert forall id: nat :: LiveSlot(r'.q, id) <==> LiveSlot(r.q, id);
  }

  lemma UpdateKeepsInv<T>(r: Run<T>)
    requires Inv(r)
    ensures Inv(Next(r, Update))
  {
    UpdatedKeepsInv(r.q);
    if r.q.events == [] && r.q.pending + r.q.syncPending == [] {
      IdleUpdateKeepsInv(r);
    } else {
      UpdatedStream(r);
      if r.q.lagging == 0 {
        CaughtUpUpdateKeepsTracks(r);
      } else {
        AcceptKeepsTracks(r, Next(r, Update), r.q.syncPending);
      }
    }
  }

  // ---- Reading --------------------------------------------------------------------------------------------------

  // What a live reader has, followed by the events its cursor moves over, is the stretch up to the new position.
  lemma HandedStretch<T>(r: Run<T>, id: nat, pos: nat)
    requires StreamRight(r) && id in r.tracks && TrackRight(r, id)
    requires r.q.cursors[id].value <= pos <= |r.q.events|
    ensures r.tracks[id].got + r.q.events[r.q.cursors[id].value..pos] ==
            r.accepted[r.tracks[id].joined..r.base + pos]
  {
    var at := r.q.cursors[id].value;
    SliceOfSlice(r.accepted, r.base, r.delivered, at, pos);
    SlicesMeet(r.accepted, r.tracks[id].joined, r.base + at, r.base + pos);
  }

  // A live reader's cursor moves up to `pos` over the events it is handed.
  lemma AdvanceKeepsTracks<T>(r: Run<T>, id: nat, pos: nat, slice: seq<T>)
    requires Inv(r) && pos <= |r.q.events|
    requires LiveSlot(r.q, id) ==> r.q.cursors[id].value <= pos && slice == r.q.events[r.q.cursors[id].value..pos]
    ensures Inv(Handed(r, id, AdvancedTo(r.q, id, pos), slice))
  {
    var r' := Handed(r, id, AdvancedTo(r.q, id, pos), slice);
    AdvancedKeepsInv(r.q, id, pos);
    forall other: nat | other in r'.tracks ensures TrackRight(r', other) {
      assert TrackRight(r, other);
      if other == id { HandedStretch(r, id, pos); }
    }
    assert forall other: nat :: LiveSlot(r'.q, other) <==> LiveSlot(r.q, other);
  }

  lemma ReadAllKeepsInv<T>(r: Run<T>, id: nat)
    requires Inv(r)
    ensures Inv(Next(r, ReadAll(id)))
  {
    var slice := Read(r.q, id).1;
    assert r.q.events[ReadStart(r.q, id)..] == r.q.events[ReadStart(r.q, id)..|r.q.events|];
    AdvanceKeepsTracks(r, id, |r.q.events|, slice);
  }

  lemma ReadSomeKeepsInv<T>(r: Run<T>, id: nat, max: nat)
    requires Inv(r)
    ensures Inv(Next(r, ReadSome(id, max)))
  {
    var (q, slice) := ReadPartial(r.q, id, max);
    AdvanceKeepsTracks(r, id, ReadStart(r.q, id) + PartialCount(r.q, id, max), slice);
  }

  lemma ClearKeepsInv<T>(r: Run<T>)
    requires Inv(r) && Enabled(r, Clear)
    ensures Inv(Next(r, Clear))
  {
    var r', n := Next(r, Clear), |r.accepted|;
    ClearedKeepsInv(r.q);
    assert r.accepted[n..n] == [] && r.accepted[n..] == [];
    forall id: nat | id in r'.tracks ensures TrackRight(r', id) {
      assert TrackRight(r, id);
    }
    assert forall id: nat :: LiveSlot(r'.q, id) <==> LiveSlot(r.q, id);
  }

  // ---- Every run ---------------------------------------------------------------------------------------------------

  lemma StepKeepsInv<T>(r: Run<T>, step: Step<T>)
    requires Inv(r) && Enabled(r, step)
    ensures Inv(Next(r, step))
  {
    match step
    case Send(e) => SendKeepsInv(r, e);
    case SendSync(e) => SendSyncKeepsInv(r, e);
    case FlushSync => FlushSyncKeepsInv(r);
    case Join => JoinKeepsInv(r);
    case Leave(id) => LeaveKeepsInv(r, id);
    case Update => UpdateKeepsInv(r);
    case ReadAll(id) => ReadAllKeepsInv(r, id);
    case ReadSome(id, max) => ReadSomeKeepsInv(r, id, max);
    case Clear => ClearKeepsInv(r);
  }

  lemma {:induction false} RunKeepsInv<T>(r: Run<T>, steps: seq<Step<T>>, r': Run<T>)
    requires Inv(r) && Reaches(r, steps, r')
    ensures Inv(r')
    decreases |steps|
  {
    if steps != [] {
      StepKeepsInv(r, steps[0]);
      RunKeepsInv(Next(r, steps[0]), steps[1..], r');
    }
  }

  /** Whatever the run, each reader has been handed one stretch of the stream since it joined, without a
      gap, a repeat or a change of order; and the rest of what was delivered is still there to read. */
  lemma EveryReaderGetsOneStretch<T>(steps: seq<Step<T>>, r: Run<T>, id: nat)
    requires Reaches(Start(), steps, r) && LiveSlot(r.q, id)
    ensures id in r.tracks
    ensures var t := r.tracks[id]; var end := t.joined + |t.got|;
            && t.joined <= end <= r.delivered <= |r.accepted|
            && t.got == r.accepted[t.joined..end]
            && Unread(r.q, id) == r.accepted[end..r.delivered]
            && r.q.pending == r.accepted[r.delivered..]
  {
    RunKeepsInv(Start(), steps, r);
    assert TrackRight(r, id);
    var at := r.q.cursors[id].value;
    if at < |r.q.events| {
      SliceOfSlice(r.accepted, r.base, r.delivered, at, |r.q.events|);
      assert r.q.events[at..] == r.q.events[at..|r.q.events|];
    }
  }

  /** In every run the lag counter counts exactly the readers that have something left to read, and ids
      name their own slots. */
  lemma LagIsExact<T>(steps: seq<Step<T>>, r: Run<T>)
    requires Reaches(Start(), steps, r)
    ensures r.q.lagging == CountLagging(r.q.cursors, |r.q.events|)
    ensures r.q.lagging == 0 <==> forall id: nat :: Unread(r.q, id) == []
    ensures SlotsRight(r.q)
  {
    RunKeepsInv(Start(), steps, r);
    CaughtUpExactly(r.q);
  }
}
