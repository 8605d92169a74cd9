/** The table scan with zone-map skipping and late materialization.

    Filter columns are read first, a batch of at most 1024 rows at a time, the visible rows
    are filtered by the pushed predicates, and only the surviving rows' other columns are
    fetched.  The specification is: visible rows, then all filters, then project. */
module TableScan {
  import opened Basics
  import opened Cells
  import opened Relational
  import opened ColumnSegments
  import opened RowVersions
  import Pruning

  // ----- Stored data -----

  /** One column of a row group, as module ColumnChunks stores it. */
  datatype Column = Column(kind: Kind, segments: seq<Segment>, pending: Vector)
  {
    function Cells(): Vector { Flat(segments) + pending }

    /** One type of value, and statistics that cover their segments. */
    ghost predicate Valid() {
      && OfKind(kind, Cells())
      && forall j :: 0 <= j < |segments| ==>
           StatsOfKind(kind, segments[j].stats) && Covers(segments[j].stats, segments[j].data)
    }
  }

  datatype Stored = Stored(columns: seq<Column>, rowCount: nat, markers: Markers)
  {
    ghost predicate Valid() {
      forall c :: 0 <= c < |columns| ==> columns[c].Valid() && |columns[c].Cells()| == rowCount
    }

    /** Row r restricted to the listed columns. */
    function RowAt(ids: seq<nat>, r: nat): Row
      requires (forall i :: 0 <= i < |ids| ==> ids[i] < |columns| && r < |columns[ids[i]].Cells()|)
    {
      seq(|ids|, i requires 0 <= i < |ids| => columns[ids[i]].Cells()[r])
    }
  }

  ghost predicate Reads(g: Stored, ids: seq<nat>) {
    g.Valid() && forall i :: 0 <= i < |ids| ==> ids[i] < |g.columns|
  }

  ghost predicate AllRead(groups: seq<Stored>, ids: seq<nat>) {
    forall g :: 0 <= g < |groups| ==> Reads(groups[g], ids)
  }

  // ----- Specification -----

  predicate Chosen(g: Stored, ids: seq<nat>, filters: seq<Expr>, tx: Tx, r: nat)
    requires Reads(g, ids) && r < g.rowCount
  {
    IsVisible(g.markers, r, tx) && AllHold(filters, g.RowAt(ids, r))
  }

  /** The rows from `from` up to `to` that are visible and pass every filter. */
  function Picked(g: Stored, ids: seq<nat>, filters: seq<Expr>, tx: Tx, from: nat, to: nat): seq<Row>
    requires Reads(g, ids) && to <= g.rowCount
  {
    if to <= from then []
    else
      Picked(g, ids, filters, tx, from, to - 1) +
      if Chosen(g, ids, filters, tx, to - 1) then [g.RowAt(ids, to - 1)] else []
  }

  /** What is still to come from row `offset` of group gi on. */
  function Remaining(groups: seq<Stored>, ids: seq<nat>, filters: seq<Expr>, tx: Tx, gi: nat, offset: nat): seq<Row>
    requires AllRead(groups, ids)
    decreases |groups| - gi
  {
    if gi >= |groups| then []
    else
      Picked(groups[gi], ids, filters, tx, offset, groups[gi].rowCount) + Remaining(groups, ids, filters, tx, gi + 1, 0)
  }

  lemma {:induction false} PickedSplit(g: Stored, ids: seq<nat>, filters: seq<Expr>, tx: Tx, from: nat, mid: nat,
      to: nat)
    requires Reads(g, ids) && from <= mid <= to <= g.rowCount
    ensures Picked(g, ids, filters, tx, from, to) ==
      Picked(g, ids, filters, tx, from, mid) + Picked(g, ids, filters, tx, mid, to)
  {
    if mid < to {
      PickedSplit(g, ids, filters, tx, from, mid, to - 1);
    }
  }

  lemma {:induction false} PickedNone(g: Stored, ids: seq<nat>, filters: seq<Expr>, tx: Tx, from: nat, to: nat)
    requires Reads(g, ids) && to <= g.rowCount
    requires forall r: nat :: from <= r < to ==> !Chosen(g, ids, filters, tx, r)
    ensures Picked(g, ids, filters, tx, from, to) == []
  {
    if from < to {
      PickedNone(g, ids, filters, tx, from, to - 1);
    }
  }

  lemma Associate(a: seq<Row>, b: seq<Row>, c: seq<Row>)
    ensures a + b + c == a + (b + c)
  {
  }

  // ----- Pushed predicates the zone maps understand -----

  /** `column op bound`, where col is a position in the scan's output. */
  datatype ScanPredicate = ScanPredicate(col: nat, test: Comparison)

  function Flip(op: ScanOp): ScanOp {
    match op case OpEq => OpEq case OpLt => OpGt case OpLe => OpGe case OpGt => OpLt case OpGe => OpLe
  }

  function OpOf(op: BinOp): Option<ScanOp> {
    match op
    case Eq => Some(OpEq) case Lt => Some(OpLt) case Le => Some(OpLe) case Gt => Some(OpGt) case Ge => Some(OpGe)
    case _ => None
  }

  /** A comparison of a column with a present literal, on either side. */
  function TryExtract(e: Expr): Option<ScanPredicate> {
    if !e.Bin? || OpOf(e.op).None? then None
    else if e.left.Ref? && e.right.Lit? && !e.right.value.Null? then
      Some(ScanPredicate(e.left.idx, Comparison(OpOf(e.op).value, e.right.value, e.right.ty)))
    else if e.left.Lit? && e.right.Ref? && !e.left.value.Null? then
      Some(ScanPredicate(e.right.idx, Comparison(Flip(OpOf(e.op).value), e.left.value, e.left.ty)))
    else None
  }

  function Extracted(es: seq<Expr>): seq<ScanPredicate> {
    if es == [] then []
    else
      var n := |es| - 1;
      var p := TryExtract(es[n]);
      Extracted(es[..n]) + if p.Some? then [p.value] else []
  }

  /** The extracted predicate says about the cell what the filter says about the row. */
  lemma ExtractMeaning(e: Expr, row: Row)
    requires TryExtract(e).Some? && TryExtract(e).value.col < |row|
    ensures Holds(e, row) <==> TryExtract(e).value.test.Holds(row[TryExtract(e).value.col])
  {
    var p := TryExtract(e).value;
    if e.left.Ref? && e.right.Lit? {
      assert Eval(e, row) == ApplyBinary(e.op, e.ty, row[p.col], p.test.bound);
    } else {
      assert Eval(e, row) == ApplyBinary(e.op, e.ty, p.test.bound, row[p.col]);
      FlipMeaning(OpOf(e.op).value, e.ty, p.test.bound, row[p.col]);
    }
  }

  lemma FlipMeaning(op: ScanOp, ty: TypeId, l: Cell, r: Cell)
    ensures IsTrue(ApplyBinary(AsBinOp(op), ty, l, r)) <==> IsTrue(ApplyBinary(AsBinOp(Flip(op)), Boolean, r, l))
  {
    match op case OpEq => case OpLt => case OpLe => case OpGt => case OpGe =>
  }

  lemma {:induction false} ExtractedFrom(es: seq<Expr>, p: ScanPredicate)
    requires p in Extracted(es)
    ensures exists e :: e in es && TryExtract(e) == Some(p)
  {
    var n := |es| - 1;
    if p in Extracted(es[..n]) {
      ExtractedFrom(es[..n], p);
      var e :| e in es[..n] && TryExtract(e) == Some(p);
      assert e in es;
    } else {
      assert es[n] in es;
    }
  }

  /** Zone maps are looked up by output position: that is the column itself only when the
      scan lists it at its own place. */
  predicate ZoneAligned(ids: seq<nat>, preds: seq<ScanPredicate>) {
    forall p <- preds :: p.col < |ids| && ids[p.col] == p.col && p.test.Typed()
  }

  // ----- Skipping by zone maps -----

  /** Rows the zone maps let one predicate skip; a column the group lacks skips none. */
  function SkipFor(g: Stored, offset: nat, p: ScanPredicate): nat {
    if p.col < |g.columns| then ZoneSkip(g.columns[p.col].segments, offset, 0, p.test) else 0
  }

  predicate FirstToSkip(g: Stored, offset: nat, preds: seq<ScanPredicate>, i: nat) {
    i < |preds| && SkipFor(g, offset, preds[i]) > 0 && forall k :: 0 <= k < i ==> SkipFor(g, offset, preds[k]) == 0
  }

  /** Rows to skip from `offset`. */
  function FirstSkip(g: Stored, offset: nat, preds: seq<ScanPredicate>): nat {
    if preds == [] then 0
    else
      var n := |preds| - 1;
      var before := FirstSkip(g, offset, preds[..n]);
      if before > 0 then before else SkipFor(g, offset, preds[n])
  }

  lemma {:induction false} NoneSkips(g: Stored, offset: nat, preds: seq<ScanPredicate>)
    requires forall k :: 0 <= k < |preds| ==> SkipFor(g, offset, preds[k]) == 0
    ensures FirstSkip(g, offset, preds) == 0
  {
    if preds != [] { NoneSkips(g, offset, preds[..|preds| - 1]); }
  }

  /** The first predicate that can skip decides. */
  lemma {:induction false} FirstDecides(g: Stored, offset: nat, preds: seq<ScanPredicate>, i: nat)
    requires FirstToSkip(g, offset, preds, i)
    ensures FirstSkip(g, offset, preds) == SkipFor(g, offset, preds[i])
  {
    var n := |preds| - 1;
    if i < n {
      FirstDecides(g, offset, preds[..n], i);
    } else {
      NoneSkips(g, offset, preds[..n]);
    }
  }

  lemma {:induction false} FirstSkipOf(g: Stored, offset: nat, preds: seq<ScanPredicate>)
    requires FirstSkip(g, offset, preds) > 0
    ensures exists p :: p in preds && SkipFor(g, offset, p) == FirstSkip(g, offset, preds)
  {
    var n := |preds| - 1;
    if FirstSkip(g, offset, preds[..n]) > 0 {
      FirstSkipOf(g, offset, preds[..n]);
      var p :| p in preds[..n] && SkipFor(g, offset, p) == FirstSkip(g, offset, preds);
      assert p in preds;
    } else {
      assert preds[n] in preds;
    }
  }

  method ZoneMapSkipRows(g: Stored, offset: nat, preds: seq<ScanPredicate>) returns (skip: nat)
    ensures skip == FirstSkip(g, offset, preds)
    ensures skip > 0 ==> exists i: nat :: FirstToSkip(g, offset, preds, i) && skip == SkipFor(g, offset, preds[i])
  {
    for i := 0 to |preds|
      invariant forall k :: 0 <= k < i ==> SkipFor(g, offset, preds[k]) == 0
    {
      var p := preds[i];
      if p.col < |g.columns| {
        skip := ZoneSkip(g.columns[p.col].segments, offset, 0, p.test);
        if skip > 0 {
          FirstDecides(g, offset, preds, i);
          return;
        }
      }
    }
    NoneSkips(g, offset, preds);
    return 0;
  }

  lemma {:induction false} ZoneSkipBound(segs: seq<Segment>, offset: nat, j: nat, p: Comparison)
    requires j <= |segs|
    ensures ZoneSkip(segs, offset, j, p) > 0 ==> offset + ZoneSkip(segs, offset, j, p) <= |Flat(segs)|
    decreases |segs| - j
  {
    if j < |segs| {
      FlatSlice(segs, j);
      ZoneSkipBound(segs, offset, j + 1, p);
    }
  }

  /** A skip never leaves the group. */
  lemma SkipStaysInside(g: Stored, offset: nat, preds: seq<ScanPredicate>)
    requires g.Valid() && offset <= g.rowCount
    ensures offset + FirstSkip(g, offset, preds) <= g.rowCount
  {
    if FirstSkip(g, offset, preds) > 0 {
      FirstSkipOf(g, offset, preds);
      var p :| p in preds && SkipFor(g, offset, p) == FirstSkip(g, offset, preds);
      ZoneSkipBound(g.columns[p.col].segments, offset, 0, p.test);
    }
  }

  lemma SkippedNotChosen(g: Stored, ids: seq<nat>, filters: seq<Expr>, tx: Tx, offset: nat, p: ScanPredicate)
    requires Reads(g, ids) && p in Extracted(filters) && ZoneAligned(ids, Extracted(filters))
    ensures
      var skip := SkipFor(g, offset, p);
      skip > 0 ==> offset + skip <= g.rowCount && Picked(g, ids, filters, tx, offset, offset + skip) == []
  {
    var col := g.columns[p.col];
    var skip := ZoneSkip(col.segments, offset, 0, p.test);
    ZoneSkipSound(col.kind, col.segments, col.pending, offset, 0, p.test);
    if skip > 0 {
      ExtractedFrom(filters, p);
      var e :| e in filters && TryExtract(e) == Some(p);
      forall r: nat | offset <= r < offset + skip ensures !Chosen(g, ids, filters, tx, r) {
        var row := g.RowAt(ids, r);
        assert row[p.col] == col.Cells()[r];
        ExtractMeaning(e, row);
      }
      PickedNone(g, ids, filters, tx, offset, offset + skip);
    }
  }

  // ----- One batch -----

  predicate Increasing(s: seq<nat>) { forall i, j :: 0 <= i < j < |s| ==> s[i] < s[j] }

  /** The rows of a chunk at the given positions, in that order. */
  method DataChunkSlice(chunk: Chunk, sel: seq<nat>) returns (out: Chunk)
    requires chunk.Valid() && forall k :: 0 <= k < |sel| ==> sel[k] < chunk.count
    ensures out.Valid() && out.count == |sel| && |out.columns| == |chunk.columns|
    ensures forall k :: 0 <= k < |sel| ==> out.RowAt(k) == chunk.RowAt(sel[k])
  {
    var columns: seq<seq<Cell>> := [];
    for c := 0 to |chunk.columns|
      invariant |columns| == c
      invariant forall b :: 0 <= b < c ==> |columns[b]| == |sel|
      invariant forall b, k :: 0 <= b < c && 0 <= k < |sel| ==> columns[b][k] == chunk.columns[b][sel[k]]
    {
      var src := chunk.columns[c];
      columns := columns + [seq(|sel|, k requires 0 <= k < |sel| => src[sel[k]])];
    }
    out := Chunk(columns, |sel|);
  }

  /** A slice of every listed column. */
  method ReadColumns(g: Stored, from: nat, to: nat, ids: seq<nat>) returns (chunk: Chunk)
    requires Reads(g, ids) && from <= to <= g.rowCount
    ensures chunk.Valid() && chunk.count == to - from && |chunk.columns| == |ids|
    ensures forall i :: 0 <= i < to - from ==> chunk.RowAt(i) == g.RowAt(ids, from + i)
  {
    var columns: seq<seq<Cell>> := [];
    for c := 0 to |ids|
      invariant |columns| == c
      invariant forall b :: 0 <= b < c ==> columns[b] == g.columns[ids[b]].Cells()[from..to]
    {
      columns := columns + [g.columns[ids[c]].Cells()[from..to]];
    }
    chunk := Chunk(columns, to - from);
  }

  /** The offsets are the visible rows of the range, in order. */
  ghost predicate VisibleIn(markers: Markers, from: nat, to: nat, tx: Tx, offsets: seq<nat>) {
    && Increasing(offsets)
    && (forall k :: 0 <= k < |offsets| ==> from <= offsets[k] < to && IsVisible(markers, offsets[k], tx))
    && (forall r: nat :: from <= r < to && IsVisible(markers, r, tx) ==> r in offsets)
  }

  /** Read a batch of the listed columns and drop the invisible rows. */
  method ScanBatchWithOffsets(g: Stored, from: nat, ids: seq<nat>, tx: Tx)
      returns (chunk: Chunk, offsets: seq<nat>, next: nat)
    requires Reads(g, ids) && from < g.rowCount
    ensures next == from + Min(VECTOR_SIZE, g.rowCount - from)
    ensures VisibleIn(g.markers, from, next, tx, offsets)
    ensures chunk.Valid() && chunk.count == |offsets| <= VECTOR_SIZE && |chunk.columns| == |ids|
    ensures forall k :: 0 <= k < |offsets| ==> chunk.RowAt(k) == g.RowAt(ids, offsets[k])
  {
    var n := Min(VECTOR_SIZE, g.rowCount - from);
    next := from + n;
    var whole := ReadColumns(g, from, next, ids);
    var selection: seq<nat>;
    selection, offsets := SelectVisible(g.markers, from, n, tx);
    if |selection| < n {
      chunk := DataChunkSlice(whole, selection);
    } else {
      chunk := whole;
      Everything(selection, n);
    }
  }

  method SelectVisible(markers: Markers, from: nat, n: nat, tx: Tx) returns (selection: seq<nat>, offsets: seq<nat>)
    ensures VisibleIn(markers, from, from + n, tx, offsets)
    ensures |selection| == |offsets| <= n && Increasing(selection)
    ensures forall k :: 0 <= k < |offsets| ==> selection[k] < n && offsets[k] == from + selection[k]
  {
    selection, offsets := [], [];
    for i := 0 to n
      invariant |selection| == |offsets| <= i
      invariant forall k :: 0 <= k < |offsets| ==> selection[k] < i && offsets[k] == from + selection[k]
      invariant VisibleIn(markers, from, from + i, tx, offsets)
    {
      if IsVisible(markers, from + i, tx) {
        selection, offsets := selection + [i], offsets + [from + i];
      }
    }
  }

  lemma {:induction false} Everything(sel: seq<nat>, n: nat)
    requires Increasing(sel) && |sel| == n && forall k :: 0 <= k < n ==> sel[k] < n
    ensures forall k :: 0 <= k < n ==> sel[k] == k
  {
    if n > 0 {
      var m := n - 1;
      assert sel[m] == m by { LeastAt(sel, m); }
      Everything(sel[..m], m);
      assert forall k :: 0 <= k < m ==> sel[..m][k] == sel[k];
    }
  }

  lemma {:induction false} LeastAt(sel: seq<nat>, k: nat)
    requires Increasing(sel) && k < |sel|
    ensures k <= sel[k]
  {
    if k > 0 { LeastAt(sel, k - 1); }
  }

  /** Merge-intersection of two ascending selections. */
  method Intersect(a: seq<nat>, b: seq<nat>) returns (both: seq<nat>)
    requires Increasing(a) && Increasing(b)
    ensures Increasing(both) && forall x :: x in both <==> x in a && x in b
  {
    both := [];
    var j := 0;
    for i := 0 to |a|
      invariant j <= |b| && Increasing(both)
      invariant forall x :: x in both <==> x in a[..i] && x in b
      invariant forall k :: 0 <= k < |both| && i < |a| ==> both[k] < a[i]
      invariant forall y :: 0 <= y < j && i < |a| ==> b[y] < a[i]
    {
      while j < |b| && b[j] < a[i]
        invariant j <= |b|
        invariant forall y :: 0 <= y < j ==> b[y] < a[i]
      {
        j := j + 1;
      }
      assert a[..i + 1] == a[..i] + [a[i]];
      if j < |b| && b[j] == a[i] {
        both := both + [a[i]];
      } else {
        assert a[i] !in b;
      }
    }
    assert a[..|a|] == a;
  }

  /** Positions of the rows that satisfy every filter. */
  method SelectRows(filters: seq<Expr>, chunk: Chunk) returns (sel: seq<nat>)
    requires chunk.Valid() && forall f <- filters :: RefsBelow(f, |chunk.columns|)
    ensures Increasing(sel)
    ensures forall k: nat :: k in sel <==> k < chunk.count && AllHold(filters, chunk.RowAt(k))
  {
    if filters == [] {
      sel := seq(chunk.count, i => i);
      forall k: nat | k < chunk.count ensures k in sel { assert sel[k] == k; }
      return;
    }
    sel := EvaluatePredicate(filters[0], chunk);
    var i := 1;
    while i < |filters| && sel != []
      invariant 1 <= i <= |filters| && Increasing(sel) && Passing(filters[..i], chunk, sel)
    {
      var sel2 := EvaluatePredicate(filters[i], chunk);
      var both := Intersect(sel, sel2);
      PassingBoth(filters, i, chunk, sel, sel2, both);
      sel, i := both, i + 1;
    }
    assert forall e :: e in filters[..i] ==> e in filters;
    assert i == |filters| ==> filters[..i] == filters;
  }

  ghost predicate Passing(filters: seq<Expr>, chunk: Chunk, sel: seq<nat>)
    requires chunk.Valid()
  {
    forall k: nat :: k in sel <==> k < chunk.count && AllHold(filters, chunk.RowAt(k))
  }

  lemma PassingBoth(filters: seq<Expr>, i: nat, chunk: Chunk, sel: seq<nat>, sel2: seq<nat>, both: seq<nat>)
    requires chunk.Valid() && i < |filters| && Passing(filters[..i], chunk, sel)
    requires forall k: nat :: k in sel2 <==> k < chunk.count && Holds(filters[i], chunk.RowAt(k))
    requires forall x :: x in both <==> x in sel && x in sel2
    ensures Passing(filters[..i + 1], chunk, both)
  {
    assert filters[..i + 1] == filters[..i] + [filters[i]];
  }

  // ----- Assembling a batch -----

  function Pick(ids: seq<nat>, positions: seq<nat>): seq<nat>
    requires forall i :: 0 <= i < |positions| ==> positions[i] < |ids|
  {
    seq(|positions|, i requires 0 <= i < |positions| => ids[positions[i]])
  }

  /** The two lists split the positions below n: those in refs, and the others. */
  ghost predicate Splits(n: nat, refs: set<nat>, filterCols: seq<nat>, payloadCols: seq<nat>) {
    && Increasing(filterCols) && Increasing(payloadCols)
    && (forall i: nat :: i in filterCols <==> i < n && i in refs)
    && (forall i: nat :: i in payloadCols <==> i < n && i !in refs)
  }

  /** Selected offsets are exactly the visible rows that pass, in order. */
  ghost predicate Selects(g: Stored, ids: seq<nat>, filters: seq<Expr>, tx: Tx, from: nat, to: nat, offsets: seq<nat>)
    requires Reads(g, ids) && to <= g.rowCount
  {
    && Increasing(offsets)
    && (forall k :: 0 <= k < |offsets| ==> from <= offsets[k] < to)
    && (forall r: nat :: from <= r < to ==> (r in offsets <==> Chosen(g, ids, filters, tx, r)))
  }

  function RowsAt(g: Stored, ids: seq<nat>, offsets: seq<nat>): seq<Row>
    requires Reads(g, ids) && forall k :: 0 <= k < |offsets| ==> offsets[k] < g.rowCount
  {
    seq(|offsets|, k requires 0 <= k < |offsets| => g.RowAt(ids, offsets[k]))
  }

  lemma LastIsLargest(s: seq<nat>, k: nat)
    requires Increasing(s) && k < |s|
    ensures s[k] <= s[|s| - 1]
  {
  }

  lemma LastKept(g: Stored, ids: seq<nat>, filters: seq<Expr>, tx: Tx, from: nat, to: nat, offsets: seq<nat>)
    requires Reads(g, ids) && from < to <= g.rowCount && Selects(g, ids, filters, tx, from, to, offsets)
    requires Chosen(g, ids, filters, tx, to - 1)
    ensures offsets != [] && offsets[|offsets| - 1] == to - 1
  {
    assert to - 1 in offsets;
    var k: nat :| k < |offsets| && offsets[k] == to - 1;
    LastIsLargest(offsets, k);
  }

  lemma KeptBefore(g: Stored, ids: seq<nat>, filters: seq<Expr>, tx: Tx, from: nat, to: nat, offsets: seq<nat>)
    requires Reads(g, ids) && from < to <= g.rowCount && Selects(g, ids, filters, tx, from, to, offsets)
    requires offsets != [] && offsets[|offsets| - 1] == to - 1
    ensures Selects(g, ids, filters, tx, from, to - 1, offsets[..|offsets| - 1])
  {
    var init := offsets[..|offsets| - 1];
    assert offsets == init + [to - 1];
    forall k | 0 <= k < |init| ensures from <= init[k] < to - 1 { assert offsets[k] < offsets[|offsets| - 1]; }
    forall r: nat | from <= r < to - 1 ensures r in init <==> Chosen(g, ids, filters, tx, r) {
      assert r in offsets <==> r in init;
    }
  }

  lemma LastDropped(g: Stored, ids: seq<nat>, filters: seq<Expr>, tx: Tx, from: nat, to: nat, offsets: seq<nat>)
    requires Reads(g, ids) && from < to <= g.rowCount && Selects(g, ids, filters, tx, from, to, offsets)
    requires !Chosen(g, ids, filters, tx, to - 1)
    ensures Selects(g, ids, filters, tx, from, to - 1, offsets)
  {
    assert to - 1 !in offsets;
    forall k | 0 <= k < |offsets| ensures from <= offsets[k] < to - 1 { assert offsets[k] in offsets; }
  }

  lemma RowsAtLast(g: Stored, ids: seq<nat>, offsets: seq<nat>)
    requires Reads(g, ids) && offsets != [] && forall k :: 0 <= k < |offsets| ==> offsets[k] < g.rowCount
    ensures RowsAt(g, ids, offsets) == RowsAt(g, ids, offsets[..|offsets| - 1]) + [g.RowAt(ids, offsets[|offsets| - 1])]
  {
  }

  lemma {:induction false} SelectedRows(g: Stored, ids: seq<nat>, filters: seq<Expr>, tx: Tx, from: nat, to: nat,
      offsets: seq<nat>)
    requires Reads(g, ids) && from <= to <= g.rowCount && Selects(g, ids, filters, tx, from, to, offsets)
    ensures RowsAt(g, ids, offsets) == Picked(g, ids, filters, tx, from, to)
  {
    if from < to {
      if Chosen(g, ids, filters, tx, to - 1) {
        LastKept(g, ids, filters, tx, from, to, offsets);
        KeptBefore(g, ids, filters, tx, from, to, offsets);
        RowsAtLast(g, ids, offsets);
        SelectedRows(g, ids, filters, tx, from, to - 1, offsets[..|offsets| - 1]);
      } else {
        LastDropped(g, ids, filters, tx, from, to, offsets);
        SelectedRows(g, ids, filters, tx, from, to - 1, offsets);
      }
    }
  }

  /** Early columns at their positions, compacted by sel; late columns at theirs. */
  method Assemble(width: nat, early: Chunk, filterCols: seq<nat>, sel: seq<nat>, late: Chunk, payloadCols: seq<nat>)
      returns (out: Chunk)
    requires early.Valid() && late.Valid() && late.count == |sel| && |early.columns| == |filterCols| &&
      |late.columns| == |payloadCols|
    requires forall k :: 0 <= k < |sel| ==> sel[k] < early.count
    requires Increasing(filterCols) && Increasing(payloadCols)
    requires (forall b :: 0 <= b < |filterCols| ==> filterCols[b] < width) &&
      forall b :: 0 <= b < |payloadCols| ==> payloadCols[b] < width
    requires forall a, b :: 0 <= a < |filterCols| && 0 <= b < |payloadCols| ==> filterCols[a] != payloadCols[b]
    requires forall i: nat :: i < width ==> i in filterCols || i in payloadCols
    ensures out.Valid() && out.count == |sel| && |out.columns| == width
    ensures forall b :: 0 <= b < |filterCols| ==> out.columns[filterCols[b]] == Compact(early.columns[b], sel)
    ensures forall b :: 0 <= b < |payloadCols| ==> out.columns[payloadCols[b]] == late.columns[b]
  {
    var columns: seq<seq<Cell>> := seq(width, _ => []);
    for i := 0 to |filterCols|
      invariant |columns| == width
      invariant forall b :: 0 <= b < i ==> columns[filterCols[b]] == Compact(early.columns[b], sel)
    {
      columns := columns[filterCols[i] := Compact(early.columns[i], sel)];
    }
    for i := 0 to |payloadCols|
      invariant |columns| == width
      invariant forall b :: 0 <= b < |filterCols| ==> columns[filterCols[b]] == Compact(early.columns[b], sel)
      invariant forall b :: 0 <= b < i ==> columns[payloadCols[b]] == late.columns[b]
    {
      columns := columns[payloadCols[i] := late.columns[i]];
    }
    out := Chunk(columns, |sel|);
    forall i: nat | i < width ensures |columns[i]| == |sel| {
      if i in filterCols {
        var b :| 0 <= b < |filterCols| && filterCols[b] == i;
      } else {
        var b :| 0 <= b < |payloadCols| && payloadCols[b] == i;
        assert late.columns[b] in late.columns;
      }
    }
  }

  function Compact(column: seq<Cell>, sel: seq<nat>): seq<Cell>
    requires forall k :: 0 <= k < |sel| ==> sel[k] < |column|
  {
    seq(|sel|, k requires 0 <= k < |sel| => column[sel[k]])
  }

  lemma {:induction false} RemappedBelow(e: Expr, m: map<nat, nat>, n: nat)
    requires forall i <- Refs(e) :: i in m && m[i] < n
    ensures RefsBelow(Remap(e, m), n)
  {
    match e
    case Ref(idx, _) => assert idx in Refs(e);
    case Lit(_, _) =>
    case Bin(_, _, l, r) => RemappedBelow(l, m, n); RemappedBelow(r, m, n);
    case Un(_, _, c) => RemappedBelow(c, m, n);
    case Cast(_, _, c) => RemappedBelow(c, m, n);
  }

  lemma EarlyFiltersBelow(filters: seq<Expr>, filterCols: seq<nat>)
    requires forall c <- RefsOf(filters) :: c in filterCols
    ensures forall f <- Pruning.RemapList(filters, filterCols) :: RefsBelow(f, |filterCols|)
  {
    var early := Pruning.RemapList(filters, filterCols);
    forall f | f in early ensures RefsBelow(f, |filterCols|) {
      var i :| 0 <= i < |early| && early[i] == f;
      assert filters[i] in filters && forall c <- Refs(filters[i]) :: c in RefsOf(filters);
      RemappedBelow(filters[i], Pruning.Positions(filterCols), |filterCols|);
    }
  }

  /** Filtering the early row is filtering the whole row. */
  lemma EarlyRow(g: Stored, ids: seq<nat>, filters: seq<Expr>, filterCols: seq<nat>, r: nat)
    requires Reads(g, ids) && r < g.rowCount && forall c <- RefsOf(filters) :: c in filterCols
    requires forall i :: 0 <= i < |filterCols| ==> filterCols[i] < |ids|
    ensures AllHold(Pruning.RemapList(filters, filterCols), g.RowAt(Pick(ids, filterCols), r)) <==>
      AllHold(filters, g.RowAt(ids, r))
  {
    var row := g.RowAt(ids, r);
    assert g.RowAt(Pick(ids, filterCols), r) == Pruning.Narrow(filterCols, row);
    Pruning.NarrowedValues(filters, filterCols, row);
  }

  function At(offsets: seq<nat>, sel: seq<nat>): seq<nat>
    requires forall k :: 0 <= k < |sel| ==> sel[k] < |offsets|
  {
    seq(|sel|, k requires 0 <= k < |sel| => offsets[sel[k]])
  }

  /** Visible rows, then the filters, give exactly the chosen rows. */
  lemma FilteredSelects(g: Stored, ids: seq<nat>, filters: seq<Expr>, tx: Tx, from: nat, to: nat, offsets: seq<nat>,
      sel: seq<nat>)
    requires Reads(g, ids) && to <= g.rowCount && VisibleIn(g.markers, from, to, tx, offsets) && Increasing(sel)
    requires forall k :: 0 <= k < |sel| ==> sel[k] < |offsets|
    requires forall k: nat :: k < |offsets| ==> (k in sel <==> AllHold(filters, g.RowAt(ids, offsets[k])))
    ensures Selects(g, ids, filters, tx, from, to, At(offsets, sel))
  {
    var chosen := At(offsets, sel);
    forall r: nat | from <= r < to ensures r in chosen <==> Chosen(g, ids, filters, tx, r) {
      if r in chosen {
        var k :| 0 <= k < |chosen| && chosen[k] == r;
        assert sel[k] in sel;
      }
      if Chosen(g, ids, filters, tx, r) {
        assert r in offsets;
        var k: nat :| k < |offsets| && offsets[k] == r;
        assert k in sel;
        var i :| 0 <= i < |sel| && sel[i] == k;
        assert chosen[i] == r;
      }
    }
  }

  /** Whatever subset of the filters a batch applied, applying them all again gives the
      specified rows. */
  lemma {:induction false} KeepPicked(g: Stored, ids: seq<nat>, applied: seq<Expr>, filters: seq<Expr>, tx: Tx,
      from: nat, to: nat)
    requires Reads(g, ids) && to <= g.rowCount && forall e <- applied :: e in filters
    ensures Keep(filters, Picked(g, ids, applied, tx, from, to)) == Picked(g, ids, filters, tx, from, to)
  {
    if from < to {
      KeepPicked(g, ids, applied, filters, tx, from, to - 1);
      if Chosen(g, ids, applied, tx, to - 1) {
        KeepConcat(filters, Picked(g, ids, applied, tx, from, to - 1), [g.RowAt(ids, to - 1)]);
        KeepOne(filters, g.RowAt(ids, to - 1));
      } else {
        assert !Chosen(g, ids, filters, tx, to - 1);
        assert Picked(g, ids, applied, tx, from, to) == Picked(g, ids, applied, tx, from, to - 1);
      }
    }
  }

  // ----- The operator -----

  /** One batch of late materialization: filter columns first, payload for survivors. */
  method LateBatch(g: Stored, from: nat, ids: seq<nat>, filters: seq<Expr>, tx: Tx, filterCols: seq<nat>,
      payloadCols: seq<nat>, earlyFilters: seq<Expr>) returns (out: Chunk, next: nat)
    requires Reads(g, ids) && from < g.rowCount && (forall c <- RefsOf(filters) :: c < |ids|)
    requires Splits(|ids|, RefsOf(filters), filterCols, payloadCols) &&
      earlyFilters == Pruning.RemapList(filters, filterCols)
    ensures next == from + Min(VECTOR_SIZE, g.rowCount - from)
    ensures out.Valid() && out.Rows() == Picked(g, ids, filters, tx, from, next)
  {
    assert SplitIndices(|ids|, filterCols, payloadCols) by {
      SplitsIndexed(|ids|, RefsOf(filters), filterCols, payloadCols);
    }
    var early, offsets;
    early, offsets, next := ScanBatchWithOffsets(g, from, Pick(ids, filterCols), tx);
    EarlyFiltersBelow(filters, filterCols);
    var sel := SelectRows(earlyFilters, early);
    assert forall k :: 0 <= k < |sel| ==> sel[k] < |offsets| by {
      forall k | 0 <= k < |sel| ensures sel[k] < |offsets| { assert sel[k] in sel; }
    }
    var final := At(offsets, sel);
    var late := ScanLate(g, Pick(ids, payloadCols), final);
    out := Assemble(|ids|, early, filterCols, sel, late, payloadCols);
    assert Selects(g, ids, filters, tx, from, next, final) by {
      forall k: nat | k < |offsets| ensures k in sel <==> AllHold(filters, g.RowAt(ids, offsets[k])) {
        EarlyRow(g, ids, filters, filterCols, offsets[k]);
      }
      FilteredSelects(g, ids, filters, tx, from, next, offsets, sel);
    }
    SelectedRows(g, ids, filters, tx, from, next, final);
    assert out.Rows() == RowsAt(g, ids, final) by {
      AssembledRows(g, ids, filterCols, payloadCols, early, offsets, sel, late, out);
    }
  }

  ghost predicate SplitIndices(n: nat, filterCols: seq<nat>, payloadCols: seq<nat>) {
    && Increasing(filterCols) && Increasing(payloadCols)
    && (forall b :: 0 <= b < |filterCols| ==> filterCols[b] < n)
    && (forall b :: 0 <= b < |payloadCols| ==> payloadCols[b] < n)
    && (forall a, b :: 0 <= a < |filterCols| && 0 <= b < |payloadCols| ==> filterCols[a] != payloadCols[b])
    && (forall i: nat :: i < n ==> i in filterCols || i in payloadCols)
  }

  lemma SplitsIndexed(n: nat, refs: set<nat>, filterCols: seq<nat>, payloadCols: seq<nat>)
    requires Splits(n, refs, filterCols, payloadCols)
    ensures SplitIndices(n, filterCols, payloadCols)
  {
    forall b | 0 <= b < |filterCols|
      ensures filterCols[b] < n && filterCols[b] in refs
    {
      assert filterCols[b] in filterCols;
    }
    forall b | 0 <= b < |payloadCols|
      ensures payloadCols[b] < n && payloadCols[b] !in refs
    {
      assert payloadCols[b] in payloadCols;
    }
  }

  /** The listed columns at the given rows. */
  method ScanLate(g: Stored, ids: seq<nat>, offsets: seq<nat>) returns (chunk: Chunk)
    requires Reads(g, ids) && forall k :: 0 <= k < |offsets| ==> offsets[k] < g.rowCount
    ensures chunk.Valid() && chunk.count == |offsets| && |chunk.columns| == |ids|
    ensures forall k :: 0 <= k < |offsets| ==> chunk.RowAt(k) == g.RowAt(ids, offsets[k])
  {
    var columns: seq<seq<Cell>> := [];
    for c := 0 to |ids|
      invariant |columns| == c
      invariant forall b :: 0 <= b < c ==> columns[b] == Compact(g.columns[ids[b]].Cells(), offsets)
    {
      columns := columns + [Compact(g.columns[ids[c]].Cells(), offsets)];
    }
    chunk := Chunk(columns, |offsets|);
  }

  lemma AssembledRows(g: Stored, ids: seq<nat>, filterCols: seq<nat>, payloadCols: seq<nat>, early: Chunk,
      offsets: seq<nat>, sel: seq<nat>, late: Chunk, out: Chunk)
    requires Reads(g, ids) && SplitIndices(|ids|, filterCols, payloadCols)
    requires early.Valid() && late.Valid() && out.Valid() && early.count == |offsets| &&
      late.count == |sel| == out.count
    requires |early.columns| == |filterCols| && |late.columns| == |payloadCols| && |out.columns| == |ids|
    requires forall k :: 0 <= k < |offsets| ==>
      offsets[k] < g.rowCount && early.RowAt(k) == g.RowAt(Pick(ids, filterCols), offsets[k])
    requires forall k :: 0 <= k < |sel| ==>
      sel[k] < |offsets| && late.RowAt(k) == g.RowAt(Pick(ids, payloadCols), offsets[sel[k]])
    requires forall b :: 0 <= b < |filterCols| ==> out.columns[filterCols[b]] == Compact(early.columns[b], sel)
    requires forall b :: 0 <= b < |payloadCols| ==> out.columns[payloadCols[b]] == late.columns[b]
    ensures out.Rows() == RowsAt(g, ids, At(offsets, sel))
  {
    forall k: nat | k < |sel| ensures out.RowAt(k) == g.RowAt(ids, offsets[sel[k]]) {
      AssembledRow(g, ids, filterCols, payloadCols, early, late, out, sel, k, offsets[sel[k]]);
    }
  }

  lemma AssembledRow(g: Stored, ids: seq<nat>, filterCols: seq<nat>, payloadCols: seq<nat>, early: Chunk, late: Chunk,
      out: Chunk, sel: seq<nat>, k: nat, r: nat)
    requires Reads(g, ids) && r < g.rowCount && SplitIndices(|ids|, filterCols, payloadCols)
    requires early.Valid() && late.Valid() && out.Valid() && late.count == |sel| == out.count && k < |sel|
    requires |early.columns| == |filterCols| && |late.columns| == |payloadCols| && |out.columns| == |ids|
    requires (forall q :: 0 <= q < |sel| ==> sel[q] < early.count) &&
      early.RowAt(sel[k]) == g.RowAt(Pick(ids, filterCols), r)
    requires late.RowAt(k) == g.RowAt(Pick(ids, payloadCols), r)
    requires forall b :: 0 <= b < |filterCols| ==> out.columns[filterCols[b]] == Compact(early.columns[b], sel)
    requires forall b :: 0 <= b < |payloadCols| ==> out.columns[payloadCols[b]] == late.columns[b]
    ensures out.RowAt(k) == g.RowAt(ids, r)
  {
    forall i: nat | i < |ids| ensures out.columns[i][k] == g.columns[ids[i]].Cells()[r] {
      if i in filterCols {
        var b: nat :| b < |filterCols| && filterCols[b] == i;
        PickedCell(g, ids, filterCols, early, sel[k], r, b);
        CompactedCell(early.columns[b], sel, k);
      } else {
        var b: nat :| b < |payloadCols| && payloadCols[b] == i;
        PickedCell(g, ids, payloadCols, late, k, r, b);
      }
    }
    CellsMakeRow(g, ids, out, k, r);
  }

  lemma CompactedCell(column: Vector, sel: seq<nat>, k: nat)
    requires k < |sel| && forall q :: 0 <= q < |sel| ==> sel[q] < |column|
    ensures Compact(column, sel)[k] == column[sel[k]]
  {
  }

  lemma CellsMakeRow(g: Stored, ids: seq<nat>, out: Chunk, k: nat, r: nat)
    requires Reads(g, ids) && r < g.rowCount && out.Valid() && k < out.count && |out.columns| == |ids|
    requires forall i: nat :: i < |ids| ==> out.columns[i][k] == g.columns[ids[i]].Cells()[r]
    ensures out.RowAt(k) == g.RowAt(ids, r)
  {
  }

  lemma PickedCell(g: Stored, ids: seq<nat>, cols: seq<nat>, chunk: Chunk, k: nat, r: nat, b: nat)
    requires Reads(g, ids) && r < g.rowCount && chunk.Valid() && k < chunk.count && |chunk.columns| == |cols| &&
      b < |cols|
    requires (forall c :: 0 <= c < |cols| ==> cols[c] < |ids|) && chunk.RowAt(k) == g.RowAt(Pick(ids, cols), r)
    ensures chunk.columns[b][k] == g.columns[ids[cols[b]]].Cells()[r]
  {
    ChunkCell(g, Pick(ids, cols), chunk, k, r, b);
  }

  lemma ChunkCell(g: Stored, ids: seq<nat>, chunk: Chunk, k: nat, r: nat, b: nat)
    requires Reads(g, ids) && r < g.rowCount && chunk.Valid() && k < chunk.count && |chunk.columns| == |ids| &&
      b < |ids|
    requires chunk.RowAt(k) == g.RowAt(ids, r)
    ensures chunk.columns[b][k] == g.columns[ids[b]].Cells()[r]
  {
    assert chunk.RowAt(k)[b] == g.RowAt(ids, r)[b];
  }
}
