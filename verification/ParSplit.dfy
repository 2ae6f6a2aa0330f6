/** Splitting the row space of a query for parallel work: by halving all of it at once, or into chunks
    per archetype. Either way the leaves, read left to right, are the rows in order, each once.
  */
module ParSplit {
  import opened Basics

  datatype Range = Range(arch: nat, start: nat, end: nat)

  type Row = (nat, nat)

  predicate Proper(items: seq<Range>) {
    forall i :: 0 <= i < |items| ==> items[i].start <= items[i].end
  }

  function RowsOf(r: Range): seq<Row>
    requires r.start <= r.end
  {
    seq(r.end - r.start, i requires 0 <= i < r.end - r.start => (r.arch, r.start + i))
  }

  function Rows(items: seq<Range>): seq<Row>
    requires Proper(items)
  {
    if items == [] then [] else Rows(items[..|items| - 1]) + RowsOf(items[|items| - 1])
  }

  function Total(items: seq<Range>): nat
    requires Proper(items)
  {
    if items == [] then 0
    else Total(items[..|items| - 1]) + (items[|items| - 1].end - items[|items| - 1].start)
  }

  lemma {:induction false} TotalIsRows(items: seq<Range>)
    requires Proper(items)
    ensures Total(items) == |Rows(items)|
    decreases |items|
  {
    if items != [] {
      TotalIsRows(items[..|items| - 1]);
    }
  }

  lemma RowsAppended(items: seq<Range>, r: Range)
    requires Proper(items) && r.start <= r.end
    ensures Proper(items + [r]) && Rows(items + [r]) == Rows(items) + RowsOf(r)
    ensures Total(items + [r]) == Total(items) + (r.end - r.start)
  {
    assert (items + [r])[..|items|] == items;
  }

  lemma RowsOfCut(r: Range, mid: nat)
    requires r.start <= mid <= r.end
    ensures RowsOf(Range(r.arch, r.start, mid)) + RowsOf(Range(r.arch, mid, r.end)) == RowsOf(r)
  {
  }

  // ---- One cut --------------------------------------------------------------------------------------------

  /** A range stands for the rows from its start up to its end, in order. */
  lemma RowsOfExactly(r: Range, i: nat)
    requires r.start <= r.end
    ensures |RowsOf(r)| == r.end - r.start
    ensures i < |RowsOf(r)| ==> RowsOf(r)[i] == (r.arch, r.start + i)
  {
  }

  datatype Halves = Halves(left: seq<Range>, right: seq<Range>, acc: nat)

  function Placed(h: Halves, r: Range, half: nat): Halves
    requires r.start <= r.end
  {
    var len := r.end - r.start;
    if h.acc >= half then h.(right := h.right + [r])
    else if h.acc + len <= half then h.(left := h.left + [r], acc := h.acc + len)
    else
      var mid := r.start + (half - h.acc);
      Halves(h.left + [Range(r.arch, r.start, mid)], h.right + [Range(r.arch, mid, r.end)], half)
  }

  // The first n ranges dealt out to the two halves.
  function CutUpTo(items: seq<Range>, half: nat, n: nat): Halves
    requires Proper(items) && n <= |items|
  {
    if n == 0 then Halves([], [], 0) else Placed(CutUpTo(items, half, n - 1), items[n - 1], half)
  }

  /** The right half is empty until the left has its rows; together they hold what was dealt, in order. */
  ghost predicate Dealt(h: Halves, rows: seq<Row>, half: nat) {
    && Proper(h.left) && Proper(h.right)
    && Rows(h.left) + Rows(h.right) == rows
    && Total(h.left) == h.acc <= half
    && (h.acc < half ==> h.right == [])
  }

  lemma PlacedLeft(h: Halves, r: Range, rows: seq<Row>, half: nat)
    requires r.start <= r.end && Dealt(h, rows, half) && h.acc + (r.end - r.start) <= half
    requires h.right == []
    ensures Dealt(h.(left := h.left + [r], acc := h.acc + (r.end - r.start)), rows + RowsOf(r), half)
  {
    RowsAppended(h.left, r);
    assert Rows(h.left) + [] == Rows(h.left) && Rows(h.left + [r]) + [] == Rows(h.left + [r]);
  }

  lemma PlacedKeepsDealt(h: Halves, r: Range, rows: seq<Row>, half: nat)
    requires r.start <= r.end && Dealt(h, rows, half)
    ensures Dealt(Placed(h, r, half), rows + RowsOf(r), half)
  {
    var len := r.end - r.start;
    if h.acc >= half {
      RowsAppended(h.right, r);
      ConcatAssociates(Rows(h.left), Rows(h.right), RowsOf(r));
    } else if h.acc + len <= half {
      PlacedLeft(h, r, rows, half);
    } else {
      PlacedAcross(h, r, rows, half);
    }
  }

  lemma RowsOfOne(r: Range)
    requires r.start <= r.end
    ensures Proper([r]) && Rows([r]) == RowsOf(r)
  {
    RowsAppended([], r);
    assert [] + [r] == [r] && [] + RowsOf(r) == RowsOf(r);
  }

  lemma AcrossRows(left: seq<Range>, a: Range, b: Range, r: Range)
    requires Proper(left) && a.start <= a.end && b.start <= b.end && r.start <= r.end
    requires RowsOf(a) + RowsOf(b) == RowsOf(r)
    ensures Proper(left + [a]) && Proper([b]) && Rows(left + [a]) + Rows([b]) == Rows(left) + RowsOf(r)
    ensures Total(left + [a]) == Total(left) + (a.end - a.start)
  {
    RowsAppended(left, a);
    RowsOfOne(b);
    ConcatAssociates(Rows(left), RowsOf(a), RowsOf(b));
  }

  lemma PlacedAcross(h: Halves, r: Range, rows: seq<Row>, half: nat)
    requires r.start <= r.end && Dealt(h, rows, half) && h.acc < half < h.acc + (r.end - r.start)
    ensures Dealt(Placed(h, r, half), rows + RowsOf(r), half)
  {
    var mid := r.start + (half - h.acc);
    var a, b := Range(r.arch, r.start, mid), Range(r.arch, mid, r.end);
    LeftIsAll(h, rows, half);
    RowsOfCut(r, mid);
    AcrossDealt(h.left, a, b, r, half);
    AcrossHalves(h, r, half, a, b);
  }

  lemma AcrossDealt(left: seq<Range>, a: Range, b: Range, r: Range, half: nat)
    requires Proper(left) && a.start <= a.end && b.start <= b.end && r.start <= r.end
    requires RowsOf(a) + RowsOf(b) == RowsOf(r) && Total(left) + (a.end - a.start) == half
    ensures Dealt(Halves(left + [a], [b], half), Rows(left) + RowsOf(r), half)
  {
    AcrossRows(left, a, b, r);
  }

  lemma LeftIsAll(h: Halves, rows: seq<Row>, half: nat)
    requires Dealt(h, rows, half) && h.acc < half
    ensures h.right == [] && Rows(h.left) == rows
  {
    assert Rows(h.left) + [] == Rows(h.left);
  }

  lemma AcrossHalves(h: Halves, r: Range, half: nat, a: Range, b: Range)
    requires r.start <= r.end && h.right == [] && h.acc < half < h.acc + (r.end - r.start)
    requires var mid := r.start + (half - h.acc); a == Range(r.arch, r.start, mid) && b == Range(r.arch, mid, r.end)
    ensures Placed(h, r, half) == Halves(h.left + [a], [b], half)
  {
    assert [] + [b] == [b];
  }

  lemma RowsOfPrefix(items: seq<Range>, n: nat)
    requires Proper(items) && 0 < n <= |items|
    ensures Rows(items[..n]) == Rows(items[..n - 1]) + RowsOf(items[n - 1])
  {
    assert items[..n] == items[..n - 1] + [items[n - 1]];
    RowsAppended(items[..n - 1], items[n - 1]);
  }

  lemma {:induction false} CutDeals(items: seq<Range>, half: nat, n: nat)
    requires Proper(items) && n <= |items|
    ensures Dealt(CutUpTo(items, half, n), Rows(items[..n]), half)
    decreases n
  {
    if n > 0 {
      CutDeals(items, half, n - 1);
      RowsOfPrefix(items, n);
      PlacedKeepsDealt(CutUpTo(items, half, n - 1), items[n - 1], Rows(items[..n - 1]), half);
    }
  }

  function Cut(items: seq<Range>): Halves
    requires Proper(items)
  {
    CutUpTo(items, Total(items) / 2, |items|)
  }

  /** A cut keeps the rows in order and puts exactly half of them, rounded down, on the left. */
  lemma CutHalves(items: seq<Range>)
    requires Proper(items)
    ensures var h := Cut(items);
            && Proper(h.left) && Proper(h.right) && Rows(h.left) + Rows(h.right) == Rows(items)
            && Total(h.left) == Total(items) / 2 && Total(h.right) == Total(items) - Total(items) / 2
  {
    var h := Cut(items);
    CutDeals(items, Total(items) / 2, |items|);
    assert items[..|items|] == items;
    TotalIsRows(items);
    TotalIsRows(h.left);
    TotalIsRows(h.right);
  }

  lemma CutTotals(items: seq<Range>)
    requires Proper(items)
    ensures var h := Cut(items);
            && Proper(h.left) && Proper(h.right)
            && Total(h.left) == Total(items) / 2 && Total(h.right) == Total(items) - Total(items) / 2
  {
    CutHalves(items);
  }

  // ---- The leaves ------------------------------------------------------------------------------------------

  function Leaves(items: seq<Range>, threshold: nat): seq<seq<Range>>
    requires Proper(items) && threshold >= 1
    decreases Total(items)
  {
    if Total(items) == 0 then []
    else if Total(items) <= threshold then [items]
    else
      CutTotals(items);
      Leaves(Cut(items).left, threshold) + Leaves(Cut(items).right, threshold)
  }

  ghost predicate AllProper(leaves: seq<seq<Range>>) {
    forall i :: 0 <= i < |leaves| ==> Proper(leaves[i])
  }

  function LeafRows(leaves: seq<seq<Range>>, n: nat): seq<Row>
    requires AllProper(leaves) && n <= |leaves|
  {
    if n == 0 then [] else LeafRows(leaves, n - 1) + Rows(leaves[n - 1])
  }

  lemma {:induction false} LeafRowsPrefix(a: seq<seq<Range>>, whole: seq<seq<Range>>, n: nat)
    requires AllProper(a) && AllProper(whole) && n <= |a| <= |whole| && forall i :: 0 <= i < n ==> whole[i] == a[i]
    ensures LeafRows(whole, n) == LeafRows(a, n)
    decreases n
  {
    if n > 0 {
      LeafRowsPrefix(a, whole, n - 1);
    }
  }

  lemma {:induction false} LeafRowsJoin(a: seq<seq<Range>>, b: seq<seq<Range>>, whole: seq<seq<Range>>, n: nat)
    requires AllProper(a) && AllProper(b) && AllProper(whole) && whole == a + b && n <= |b|
    ensures LeafRows(whole, |a| + n) == LeafRows(a, |a|) + LeafRows(b, n)
    decreases n
  {
    if n == 0 {
      LeafRowsPrefix(a, whole, |a|);
    } else {
      LeafRowsJoin(a, b, whole, n - 1);
      LeafRowsStep(a, b, whole, n);
    }
  }

  lemma LeafRowsStep(a: seq<seq<Range>>, b: seq<seq<Range>>, whole: seq<seq<Range>>, n: nat)
    requires AllProper(a) && AllProper(b) && AllProper(whole) && whole == a + b && 0 < n <= |b|
    requires LeafRows(whole, |a| + n - 1) == LeafRows(a, |a|) + LeafRows(b, n - 1)
    ensures LeafRows(whole, |a| + n) == LeafRows(a, |a|) + LeafRows(b, n)
  {
    assert whole[|a| + n - 1] == b[n - 1];
    ConcatAssociates(LeafRows(a, |a|), LeafRows(b, n - 1), Rows(b[n - 1]));
  }

  /** Leaves that visit some rows, none of them empty or over the threshold. */
  ghost predicate Visits(leaves: seq<seq<Range>>, rows: seq<Row>, threshold: nat) {
    && AllProper(leaves)
    && LeafRows(leaves, |leaves|) == rows
    && forall i :: 0 <= i < |leaves| ==> 1 <= Total(leaves[i]) <= threshold
  }

  lemma VisitsJoin(a: seq<seq<Range>>, b: seq<seq<Range>>, rowsA: seq<Row>, rowsB: seq<Row>, threshold: nat)
    requires Visits(a, rowsA, threshold) && Visits(b, rowsB, threshold)
    ensures Visits(a + b, rowsA + rowsB, threshold)
  {
    LeafRowsJoin(a, b, a + b, |b|);
  }

  lemma OneLeafVisits(items: seq<Range>, threshold: nat)
    requires Proper(items) && 1 <= Total(items) <= threshold
    ensures Visits([items], Rows(items), threshold)
  {
    assert LeafRows([items], 1) == LeafRows([items], 0) + Rows(items) == Rows(items);
  }

  /** Read left to right the leaves visit exactly the rows, in order, each once; no leaf is empty and none
      has more rows than the threshold. */
  lemma {:induction false} LeavesVisitRows(items: seq<Range>, threshold: nat)
    requires Proper(items) && threshold >= 1
    ensures Visits(Leaves(items, threshold), Rows(items), threshold)
    decreases Total(items)
  {
    if Total(items) == 0 {
      TotalIsRows(items);
      assert Rows(items) == [];
    } else if Total(items) <= threshold {
      OneLeafVisits(items, threshold);
    } else {
      CutHalves(items);
      var h := Cut(items);
      LeavesVisitRows(h.left, threshold);
      LeavesVisitRows(h.right, threshold);
      VisitsJoin(Leaves(h.left, threshold), Leaves(h.right, threshold), Rows(h.left), Rows(h.right), threshold);
    }
  }

  // ---- When the recursion ends -----------------------------------------------------------------------------

  // The recursion to a given depth; None when it would have to go deeper.
  function LeavesTo(items: seq<Range>, threshold: nat, depth: nat): Option<seq<seq<Range>>>
    requires Proper(items)
    decreases depth
  {
    if Total(items) == 0 then Some([])
    else if Total(items) <= threshold then Some([items])
    else if depth == 0 then None
    else
      CutTotals(items);
      match LeavesTo(Cut(items).left, threshold, depth - 1)
      case None => None
      case Some(a) =>
        match LeavesTo(Cut(items).right, threshold, depth - 1)
        case None => None
        case Some(b) => Some(a + b)
  }

  // Whether a call ends depends on its row total alone.
  predicate EndsIn(total: nat, threshold: nat, depth: nat)
    decreases depth
  {
    total == 0 || total <= threshold
    || (depth > 0 && EndsIn(total / 2, threshold, depth - 1) && EndsIn(total - total / 2, threshold, depth - 1))
  }

  // Above the threshold the recursion ends where both halves of a cut do.
  lemma CutEnds(items: seq<Range>, threshold: nat, depth: nat)
    requires Proper(items) && depth > 0 && 0 < Total(items) && threshold < Total(items)
    ensures var h := Cut(items);
            && Proper(h.left) && Proper(h.right)
            && (LeavesTo(items, threshold, depth).Some? <==>
                  LeavesTo(h.left, threshold, depth - 1).Some? && LeavesTo(h.right, threshold, depth - 1).Some?)
  {
    CutTotals(items);
  }

  lemma EndsAtOnce(items: seq<Range>, threshold: nat, depth: nat)
    requires Proper(items) && (depth == 0 || Total(items) == 0 || Total(items) <= threshold)
    ensures LeavesTo(items, threshold, depth).Some? <==> EndsIn(Total(items), threshold, depth)
  {
  }

  lemma EndsInHalves(total: nat, threshold: nat, depth: nat)
    requires depth > 0 && 0 < total && threshold < total
    ensures EndsIn(total, threshold, depth) <==>
              EndsIn(total / 2, threshold, depth - 1) && EndsIn(total - total / 2, threshold, depth - 1)
  {
  }

  lemma {:induction false} EndsByTotal(items: seq<Range>, threshold: nat, depth: nat)
    requires Proper(items)
    ensures LeavesTo(items, threshold, depth).Some? <==> EndsIn(Total(items), threshold, depth)
    decreases depth
  {
    var total := Total(items);
    if depth == 0 || total == 0 || total <= threshold {
      EndsAtOnce(items, threshold, depth);
    } else {
      CutTotals(items);
      CutEnds(items, threshold, depth);
      EndsInHalves(total, threshold, depth);
      EndsByTotal(Cut(items).left, threshold, depth - 1);
      EndsByTotal(Cut(items).right, threshold, depth - 1);
    }
  }

  lemma {:induction false} PositiveThresholdEnds(total: nat, threshold: nat, depth: nat)
    requires (threshold >= 1 || total == 0) && depth >= total
    ensures EndsIn(total, threshold, depth)
    decreases depth
  {
    if total > threshold {
      PositiveThresholdEnds(total / 2, threshold, depth - 1);
      PositiveThresholdEnds(total - total / 2, threshold, depth - 1);
    }
  }

  lemma {:induction false} ZeroThresholdNeverEnds(total: nat, depth: nat)
    requires total > 0
    ensures !EndsIn(total, 0, depth)
    decreases depth
  {
    if depth > 0 {
      ZeroThresholdNeverEnds(total - total / 2, depth - 1);
    }
  }

  /** The recursion ends exactly when the threshold is positive or there are no rows at all: with
      threshold zero a single row is halved into nothing and itself, for ever. */
  lemma EndsExactly(items: seq<Range>, threshold: nat)
    requires Proper(items)
    ensures (exists depth: nat :: LeavesTo(items, threshold, depth).Some?) <==> threshold >= 1 || Total(items) == 0
  {
    EndsInExactly(Total(items), threshold);
    if depth: nat :| LeavesTo(items, threshold, depth).Some? {
      EndsByTotal(items, threshold, depth);
    }
    if depth: nat :| EndsIn(Total(items), threshold, depth) {
      EndsByTotal(items, threshold, depth);
    }
  }

  ghost predicate Ends(total: nat, threshold: nat) {
    exists depth: nat {:trigger EndsIn(total, threshold, depth)} :: EndsIn(total, threshold, depth)
  }

  lemma EndsInExactly(total: nat, threshold: nat)
    ensures Ends(total, threshold) <==> threshold >= 1 || total == 0
  {
    if threshold >= 1 || total == 0 {
      PositiveThresholdEnds(total, threshold, total);
    } else {
      if depth: nat :| EndsIn(total, threshold, depth) {
        ZeroThresholdNeverEnds(total, depth);
      }
    }
  }

  // ---- The loop and the recursion --------------------------------------------------------------------------

  method CountRows(items: seq<Range>) returns (total: nat)
    requires Proper(items)
    ensures total == Total(items)
  {
    total := 0;
    for i := 0 to |items|
      invariant total == Total(items[..i])
    {
      assert items[..i + 1] == items[..i] + [items[i]];
      RowsAppended(items[..i], items[i]);
      total := total + (items[i].end - items[i].start);
    }
    assert items[..|items|] == items;
  }

  /** Hands out the leaves in the order a left-first walk of the join tree meets them. */
  method SplitRunRanges(items: seq<Range>, threshold: nat) returns (leaves: seq<seq<Range>>)
    requires Proper(items) && threshold >= 1
    ensures leaves == Leaves(items, threshold)
    decreases Total(items)
  {
    var total := CountRows(items);
    if total == 0 { return []; }
    if total <= threshold { return [items]; }
    var half := total / 2;
    var left: seq<Range>, right: seq<Range>, acc: nat := [], [], 0;
    for n := 0 to |items|
      invariant Halves(left, right, acc) == CutUpTo(items, half, n)
    {
      var r := items[n];
      var len := r.end - r.start;
      if acc >= half {
        right := right + [r];
      } else if acc + len <= half {
        left, acc := left + [r], acc + len;
      } else {
        var take := half - acc;
        left := left + [Range(r.arch, r.start, r.start + take)];
        right := right + [Range(r.arch, r.start + take, r.end)];
        acc := half;
      }
    }
    CutHalves(items);
    var first := SplitRunRanges(left, threshold);
    var second := SplitRunRanges(right, threshold);
    leaves := first + second;
  }

  // ---- Chunks ------------------------------------------------------------------------------------------------

  function ChunkCount(len: nat, size: nat): nat
    requires size > 0
  {
    (len + size - 1) / size
  }

  function Chunk(arch: nat, len: nat, size: nat, i: nat): Range {
    Range(arch, i * size, Min(i * size + size, len))
  }

  function Chunks(arch: nat, len: nat, size: nat): seq<Range>
    requires size > 0
  {
    seq(ChunkCount(len, size), i requires 0 <= i < ChunkCount(len, size) => Chunk(arch, len, size, i))
  }

  lemma QuotientFits(x: nat, d: nat)
    requires d > 0
    ensures (x / d) * d <= x
  {
  }

  lemma MulKeepsOrder(a: nat, b: nat, d: nat)
    requires a <= b
    ensures a * d <= b * d
  {
  }

  lemma ChunkStarts(len: nat, size: nat, i: nat)
    requires size > 0 && i < ChunkCount(len, size)
    ensures i * size < len
  {
    QuotientFits(len + size - 1, size);
    MulKeepsOrder(i + 1, ChunkCount(len, size), size);
    assert (i + 1) * size == i * size + size;
  }

  lemma ChunksReach(len: nat, size: nat)
    requires size > 0
    ensures ChunkCount(len, size) * size >= len
  {
  }

  lemma ChunkFollows(arch: nat, len: nat, size: nat, n: nat)
    requires size > 0 && 0 < n <= ChunkCount(len, size)
    ensures var c := Chunk(arch, len, size, n - 1);
            && c.start == Min((n - 1) * size, len) <= c.end == Min(n * size, len)
            && c.arch == arch
  {
    ChunkStarts(len, size, n - 1);
    assert (n - 1) * size + size == n * size;
  }

  lemma {:induction false} ChunkRows(arch: nat, len: nat, size: nat, n: nat)
    requires size > 0 && n <= ChunkCount(len, size)
    ensures Proper(Chunks(arch, len, size)[..n])
    ensures Rows(Chunks(arch, len, size)[..n]) == RowsOf(Range(arch, 0, Min(n * size, len)))
    decreases n
  {
    var all := Chunks(arch, len, size);
    if n > 0 {
      ChunkRows(arch, len, size, n - 1);
      ChunkFollows(arch, len, size, n);
      assert all[..n] == all[..n - 1] + [all[n - 1]];
      RowsAppended(all[..n - 1], all[n - 1]);
      RowsOfCut(Range(arch, 0, Min(n * size, len)), Min((n - 1) * size, len));
    }
  }

  /** The chunks of an archetype are its rows in order, each once, in pieces of one to `size` rows - for
      any positive size. */
  lemma ChunksCoverRows(arch: nat, len: nat, size: nat)
    requires size > 0
    ensures var chunks := Chunks(arch, len, size);
            && Proper(chunks) && Rows(chunks) == RowsOf(Range(arch, 0, len))
            && forall i :: 0 <= i < |chunks| ==> 1 <= chunks[i].end - chunks[i].start <= size
  {
    var chunks := Chunks(arch, len, size);
    ChunkRows(arch, len, size, |chunks|);
    ChunksReach(len, size);
    assert chunks[..|chunks|] == chunks;
    forall i | 0 <= i < |chunks| ensures 1 <= chunks[i].end - chunks[i].start <= size {
      ChunkStarts(len, size, i);
    }
  }

  /** Every chunk but the last has exactly `size` rows. */
  lemma ChunksAreFull(arch: nat, len: nat, size: nat, i: nat)
    requires size > 0 && i + 1 < |Chunks(arch, len, size)|
    ensures Chunks(arch, len, size)[i] == Range(arch, i * size, i * size + size)
  {
    ChunkStarts(len, size, i + 1);
    assert (i + 1) * size == i * size + size;
  }

  /** What fits the threshold is not split. */
  lemma SmallStaysWhole(items: seq<Range>, threshold: nat)
    requires Proper(items) && 1 <= Total(items) <= threshold
    ensures Leaves(items, threshold) == [items]
  {
  }
}
