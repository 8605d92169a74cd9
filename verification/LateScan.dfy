/** The scan operator: its set-up, its pull loop, and what a whole scan returns. */
module LateScan {
  import opened Basics
  import opened Cells
  import opened Relational
  import opened ColumnSegments
  import opened TableScan
  import opened Optimizer
  import Pruning

  /** Positions a scan with these filters materializes late. */
  predicate HasPayload(ids: seq<nat>, filters: seq<Expr>) {
    filters != [] && exists i: nat :: i < |ids| && i !in RefsOf(filters)
  }

  predicate RefsFit(ids: seq<nat>, filters: seq<Expr>) { forall c <- RefsOf(filters) :: c < |ids| }

  // ----- What a scan returns -----

  /** Where skipping from row `from` stops. */
  function SkipTo(g: Stored, preds: seq<ScanPredicate>, from: nat): (to: nat)
    requires g.Valid() && from <= g.rowCount
    ensures from <= to <= g.rowCount
    decreases g.rowCount - from
  {
    var skip := FirstSkip(g, from, preds);
    if from == g.rowCount || skip == 0 then from
    else
      SkipStaysInside(g, from, preds);
      SkipTo(g, preds, from + skip)
  }

  /** The filters a batch applies: all of them, but only if there is a payload column. */
  function Applied(ids: seq<nat>, filters: seq<Expr>): seq<Expr> { if HasPayload(ids, filters) then filters else [] }

  function BatchEnd(g: Stored, from: nat): nat
    requires from < g.rowCount
  {
    from + Min(VECTOR_SIZE, g.rowCount - from)
  }

  /** One group from row `from` on: skip, read a batch, and again. */
  function GroupScan(g: Stored, ids: seq<nat>, filters: seq<Expr>, tx: Tx, from: nat): seq<Row>
    requires Reads(g, ids) && from <= g.rowCount
    decreases g.rowCount - from
  {
    var at := SkipTo(g, Extracted(filters), from);
    if at == g.rowCount then []
    else
      Picked(g, ids, Applied(ids, filters), tx, at, BatchEnd(g, at)) + GroupScan(g, ids, filters, tx, BatchEnd(g, at))
  }

  /** All that a scan returns from row `from` of group gi on. */
  function Scanned(groups: seq<Stored>, ids: seq<nat>, filters: seq<Expr>, tx: Tx, gi: nat, from: nat): seq<Row>
    requires AllRead(groups, ids) && (gi < |groups| ==> from <= groups[gi].rowCount)
    decreases |groups| - gi
  {
    if gi >= |groups| then []
    else GroupScan(groups[gi], ids, filters, tx, from) + Scanned(groups, ids, filters, tx, gi + 1, 0)
  }

  lemma {:induction false} SkipToStops(g: Stored, preds: seq<ScanPredicate>, from: nat)
    requires g.Valid() && from <= g.rowCount
    ensures SkipTo(g, preds, SkipTo(g, preds, from)) == SkipTo(g, preds, from)
    decreases g.rowCount - from
  {
    var skip := FirstSkip(g, from, preds);
    if from < g.rowCount && skip > 0 {
      SkipStaysInside(g, from, preds);
      SkipToStops(g, preds, from + skip);
    }
  }

  class PhysicalTableScan {
    const groups: seq<Stored>
    const tx: Tx
    const columnIds: seq<nat>
    const pushedFilters: seq<Expr>
    var scanPredicates: seq<ScanPredicate>
    var filterCols: seq<nat>
    var payloadCols: seq<nat>
    var earlyFilters: seq<Expr>
    var groupIdx: nat
    var rowOffset: nat

    ghost predicate Valid()
      reads this
    {
      && AllRead(groups, columnIds) && RefsFit(columnIds, pushedFilters)
      && scanPredicates == Extracted(pushedFilters)
      && (payloadCols != [] <==> HasPayload(columnIds, pushedFilters))
      && (payloadCols != [] ==>
            && Splits(|columnIds|, RefsOf(pushedFilters), filterCols, payloadCols)
            && earlyFilters == Pruning.RemapList(pushedFilters, filterCols))
      && (groupIdx < |groups| ==> rowOffset <= groups[groupIdx].rowCount)
      && groupIdx <= |groups|
    }

    /** What is still to be returned. */
    ghost function Rest(): seq<Row>
      requires Valid()
      reads this
    {
      Scanned(groups, columnIds, pushedFilters, tx, groupIdx, rowOffset)
    }

    /** InitScan: zone-map predicates, and the split into filter and payload columns. */
    constructor (groups: seq<Stored>, tx: Tx, ids: seq<nat>, filters: seq<Expr>)
      requires AllRead(groups, ids) && RefsFit(ids, filters)
      ensures Valid() && this.groups == groups && this.tx == tx && columnIds == ids && pushedFilters == filters
      ensures groupIdx == 0 && rowOffset == 0
    {
      this.groups, this.tx, columnIds, pushedFilters := groups, tx, ids, filters;
      groupIdx, rowOffset := 0, 0;
      var preds := ExtractAll(filters);
      scanPredicates := preds;
      var early, late := [], [];
      if filters != [] {
        early, late := SplitColumns(|ids|, RefsOf(filters));
        SplitPayload(ids, filters, early, late);
      }
      filterCols, payloadCols := early, late;
      earlyFilters := if filters == [] then [] else Pruning.RemapList(filters, early);
    }

    method SkipZones()
      requires Valid() && groupIdx < |groups|
      modifies this`rowOffset
      ensures Valid() && Rest() == old(Rest()) && rowOffset >= old(rowOffset)
      ensures SkipTo(groups[groupIdx], scanPredicates, rowOffset) == rowOffset
    {
      if scanPredicates != [] {
        rowOffset := SkipFrom(groups[groupIdx], scanPredicates, rowOffset);
      } else {
        NothingToSkip(groups[groupIdx], rowOffset);
      }
      SkipKeeps(groups, columnIds, pushedFilters, tx, groupIdx, old(rowOffset));
    }

    /** Move on to the next group once this one is used up. */
    method NextGroup()
      requires Valid() && groupIdx < |groups|
      modifies this`groupIdx, this`rowOffset
      ensures Valid() && Rest() == old(Rest())
      ensures groupIdx == old(groupIdx) + 1 || (groupIdx == old(groupIdx) && rowOffset == old(rowOffset))
      ensures old(rowOffset) >= old(groups[groupIdx].rowCount) ==> groupIdx == old(groupIdx) + 1
    {
      if rowOffset >= groups[groupIdx].rowCount {
        NothingLeft(groups, columnIds, pushedFilters, tx, groupIdx);
        groupIdx, rowOffset := groupIdx + 1, 0;
      }
    }

    /** One batch from a row that is not skipped: filtered on the late path only. */
    method Batch() returns (output: Chunk)
      requires Valid() && groupIdx < |groups| && rowOffset < groups[groupIdx].rowCount
      requires SkipTo(groups[groupIdx], scanPredicates, rowOffset) == rowOffset
      modifies this`rowOffset
      ensures Valid() && old(rowOffset) < rowOffset && output.Valid()
      ensures old(Rest()) == output.Rows() + Rest()
    {
      var g, from := groups[groupIdx], rowOffset;
      var next;
      if payloadCols != [] {
        output, next := LateBatch(g, from, columnIds, pushedFilters, tx, filterCols, payloadCols, earlyFilters);
      } else {
        output, next := NormalBatch(g, from, columnIds, tx);
      }
      NextRows(groups, columnIds, pushedFilters, tx, groupIdx, from);
      rowOffset := next;
    }

    /** Skip, then read a batch unless the group is used up. */
    method Advance() returns (output: Chunk)
      requires Valid() && groupIdx < |groups|
      modifies this`groupIdx, this`rowOffset
      ensures Valid() && output.Valid() && old(Rest()) == output.Rows() + Rest()
      ensures groupIdx > old(groupIdx) || (groupIdx == old(groupIdx) && rowOffset > old(rowOffset))
    {
      SkipZones();
      if rowOffset >= groups[groupIdx].rowCount {
        output := Chunk([], 0);
      } else {
        output := Batch();
      }
      NextGroup();
    }

    /** GetData: either the next rows, or the scan is over. */
    method GetData() returns (more: bool, output: Chunk)
      requires Valid()
      modifies this`groupIdx, this`rowOffset
      ensures Valid() && output.Valid() && old(Rest()) == output.Rows() + Rest()
      ensures if more then output.count > 0 else output.count == 0 && Rest() == []
      ensures more ==> old(groupIdx) < |groups|
      ensures more ==> groupIdx > old(groupIdx) || (groupIdx == old(groupIdx) && rowOffset > old(rowOffset))
    {
      while groupIdx < |groups|
        invariant Valid() && Rest() == old(Rest())
        invariant groupIdx > old(groupIdx) || (groupIdx == old(groupIdx) && rowOffset >= old(rowOffset))
        decreases |groups| - groupIdx, if groupIdx < |groups| then groups[groupIdx].rowCount - rowOffset else 0
      {
        output := Advance();
        if output.count > 0 {
          return true, output;
        }
      }
      return false, Chunk([], 0);
    }
  }

  /** Skip while the zone maps rule out the next rows. */
  method SkipFrom(g: Stored, preds: seq<ScanPredicate>, from: nat) returns (to: nat)
    requires g.Valid() && from <= g.rowCount
    ensures to == SkipTo(g, preds, from)
  {
    to := from;
    while to < g.rowCount
      invariant from <= to <= g.rowCount && SkipTo(g, preds, to) == SkipTo(g, preds, from)
      decreases g.rowCount - to
    {
      var skip := ZoneMapSkipRows(g, to, preds);
      if skip == 0 { break; }
      SkipStaysInside(g, to, preds);
      to := to + skip;
    }
  }

  lemma NothingToSkip(g: Stored, from: nat)
    requires g.Valid() && from <= g.rowCount
    ensures SkipTo(g, [], from) == from
  {
  }

  lemma SkipKeeps(groups: seq<Stored>, ids: seq<nat>, filters: seq<Expr>, tx: Tx, gi: nat, from: nat)
    requires AllRead(groups, ids) && gi < |groups| && from <= groups[gi].rowCount
    ensures
      var to := SkipTo(groups[gi], Extracted(filters), from);
      && SkipTo(groups[gi], Extracted(filters), to) == to
      && Scanned(groups, ids, filters, tx, gi, to) == Scanned(groups, ids, filters, tx, gi, from)
  {
    SkipToStops(groups[gi], Extracted(filters), from);
  }

  /** At the end of a group the scan stands at the start of the next one. */
  lemma NothingLeft(groups: seq<Stored>, ids: seq<nat>, filters: seq<Expr>, tx: Tx, gi: nat)
    requires AllRead(groups, ids) && gi < |groups|
    ensures Scanned(groups, ids, filters, tx, gi, groups[gi].rowCount) == Scanned(groups, ids, filters, tx, gi + 1, 0)
  {
  }

  /** From a row that is not skipped, the next batch comes first. */
  lemma NextRows(groups: seq<Stored>, ids: seq<nat>, filters: seq<Expr>, tx: Tx, gi: nat, from: nat)
    requires AllRead(groups, ids) && gi < |groups| && from < groups[gi].rowCount
    requires SkipTo(groups[gi], Extracted(filters), from) == from
    ensures
      var g := groups[gi];
      Scanned(groups, ids, filters, tx, gi, from) ==
      Picked(g, ids, Applied(ids, filters), tx, from, BatchEnd(g, from)) +
      Scanned(groups, ids, filters, tx, gi, BatchEnd(g, from))
  {
    var g := groups[gi];
    Associate(Picked(g, ids, Applied(ids, filters), tx, from, BatchEnd(g, from)),
              GroupScan(g, ids, filters, tx, BatchEnd(g, from)), Scanned(groups, ids, filters, tx, gi + 1, 0));
  }

  method ExtractAll(filters: seq<Expr>) returns (preds: seq<ScanPredicate>)
    ensures preds == Extracted(filters)
  {
    preds := [];
    for i := 0 to |filters|
      invariant preds == Extracted(filters[..i])
    {
      assert filters[..i + 1][..i] == filters[..i];
      var p := TryExtract(filters[i]);
      if p.Some? { preds := preds + [p.value]; }
    }
    assert filters[..|filters|] == filters;
  }

  method SplitColumns(n: nat, refs: set<nat>) returns (filterCols: seq<nat>, payloadCols: seq<nat>)
    ensures Splits(n, refs, filterCols, payloadCols)
  {
    filterCols, payloadCols := [], [];
    for i := 0 to n
      invariant Splits(i, refs, filterCols, payloadCols)
      invariant (forall k :: 0 <= k < |filterCols| ==> filterCols[k] < i) &&
        forall k :: 0 <= k < |payloadCols| ==> payloadCols[k] < i
    {
      if i in refs { filterCols := filterCols + [i]; } else { payloadCols := payloadCols + [i]; }
    }
  }

  lemma SplitPayload(ids: seq<nat>, filters: seq<Expr>, early: seq<nat>, late: seq<nat>)
    requires filters != [] && Splits(|ids|, RefsOf(filters), early, late)
    ensures late != [] <==> HasPayload(ids, filters)
  {
    if late != [] { assert late[0] in late; }
  }

  /** A batch without filters: the visible rows. */
  method NormalBatch(g: Stored, from: nat, ids: seq<nat>, tx: Tx) returns (out: Chunk, next: nat)
    requires Reads(g, ids) && from < g.rowCount
    ensures next == from + Min(VECTOR_SIZE, g.rowCount - from)
    ensures out.Valid() && out.Rows() == Picked(g, ids, [], tx, from, next)
  {
    var offsets;
    out, offsets, next := ScanBatchWithOffsets(g, from, ids, tx);
    assert Selects(g, ids, [], tx, from, next, offsets) by {
      forall r: nat | from <= r < next ensures r in offsets <==> Chosen(g, ids, [], tx, r) {
        if r in offsets { var k :| 0 <= k < |offsets| && offsets[k] == r; }
      }
    }
    SelectedRows(g, ids, [], tx, from, next, offsets);
    assert out.Rows() == RowsAt(g, ids, offsets);
  }

  /** A whole scan, pulled chunk by chunk. */
  method ScanAll(groups: seq<Stored>, tx: Tx, ids: seq<nat>, filters: seq<Expr>) returns (rows: seq<Row>)
    requires AllRead(groups, ids) && RefsFit(ids, filters)
    ensures rows == Scanned(groups, ids, filters, tx, 0, 0)
  {
    var scan := new PhysicalTableScan(groups, tx, ids, filters);
    rows := [];
    var more := true;
    while more
      invariant scan.Valid() && fresh(scan)
      invariant scan.groups == groups && scan.tx == tx && scan.columnIds == ids && scan.pushedFilters == filters
      invariant rows + scan.Rest() == Scanned(groups, ids, filters, tx, 0, 0) && (!more ==> scan.Rest() == [])
      decreases more, |groups| - scan.groupIdx,
        if scan.groupIdx < |groups| then groups[scan.groupIdx].rowCount - scan.rowOffset else 0
    {
      var output;
      more, output := scan.GetData();
      Associate(rows, output.Rows(), scan.Rest());
      rows := rows + output.Rows();
    }
  }

  // ----- What a scan returns, against the specification -----

  lemma {:induction false} NoneSkipped(g: Stored, ids: seq<nat>, filters: seq<Expr>, tx: Tx, from: nat)
    requires Reads(g, ids) && ZoneAligned(ids, Extracted(filters)) && from <= g.rowCount
    ensures Picked(g, ids, filters, tx, from, SkipTo(g, Extracted(filters), from)) == []
    decreases g.rowCount - from
  {
    var preds := Extracted(filters);
    var skip := FirstSkip(g, from, preds);
    if from < g.rowCount && skip > 0 {
      FirstNoneSkipped(g, ids, filters, tx, from);
      NoneSkipped(g, ids, filters, tx, from + skip);
      PickedSplit(g, ids, filters, tx, from, from + skip, SkipTo(g, preds, from));
    }
  }

  lemma FirstNoneSkipped(g: Stored, ids: seq<nat>, filters: seq<Expr>, tx: Tx, from: nat)
    requires Reads(g, ids) && ZoneAligned(ids, Extracted(filters)) && from <= g.rowCount
    requires FirstSkip(g, from, Extracted(filters)) > 0
    ensures
      var to := from + FirstSkip(g, from, Extracted(filters));
      to <= g.rowCount && Picked(g, ids, filters, tx, from, to) == []
  {
    var preds := Extracted(filters);
    FirstSkipOf(g, from, preds);
    var p :| p in preds && SkipFor(g, from, p) == FirstSkip(g, from, preds);
    SkippedNotChosen(g, ids, filters, tx, from, p);
  }

  lemma {:induction false} GroupKeeps(g: Stored, ids: seq<nat>, filters: seq<Expr>, tx: Tx, from: nat)
    requires Reads(g, ids) && ZoneAligned(ids, Extracted(filters)) && from <= g.rowCount
    ensures Keep(filters, GroupScan(g, ids, filters, tx, from)) == Picked(g, ids, filters, tx, from, g.rowCount)
    ensures HasPayload(ids, filters) ==>
      GroupScan(g, ids, filters, tx, from) == Picked(g, ids, filters, tx, from, g.rowCount)
    decreases g.rowCount - from
  {
    var at := SkipTo(g, Extracted(filters), from);
    NoneSkipped(g, ids, filters, tx, from);
    PickedSplit(g, ids, filters, tx, from, at, g.rowCount);
    if at < g.rowCount {
      var next := BatchEnd(g, at);
      PickedSplit(g, ids, filters, tx, at, next, g.rowCount);
      KeepPicked(g, ids, Applied(ids, filters), filters, tx, at, next);
      GroupKeeps(g, ids, filters, tx, next);
      KeepConcat(filters, Picked(g, ids, Applied(ids, filters), tx, at, next), GroupScan(g, ids, filters, tx, next));
    }
  }

  /** With zone maps looked up at the right column, filtering what a scan returns gives the
      specified rows, and with a payload column they already are the specified rows. */
  lemma {:induction false} ScanKeeps(groups: seq<Stored>, ids: seq<nat>, filters: seq<Expr>, tx: Tx, gi: nat)
    requires AllRead(groups, ids) && ZoneAligned(ids, Extracted(filters))
    ensures Keep(filters, Scanned(groups, ids, filters, tx, gi, 0)) == Remaining(groups, ids, filters, tx, gi, 0)
    ensures filters == [] || HasPayload(ids, filters) ==>
      Scanned(groups, ids, filters, tx, gi, 0) == Remaining(groups, ids, filters, tx, gi, 0)
    decreases |groups| - gi
  {
    if gi < |groups| {
      GroupKeeps(groups[gi], ids, filters, tx, 0);
      ScanKeeps(groups, ids, filters, tx, gi + 1);
      KeepConcat(filters, GroupScan(groups[gi], ids, filters, tx, 0), Scanned(groups, ids, filters, tx, gi + 1, 0));
    }
    if filters == [] { KeepNothing(Scanned(groups, ids, filters, tx, gi, 0)); }
  }

  // ----- When the filters are applied -----

  function KindOf(c: Cell): Kind {
    match c case Int(_) => IntKind case Float(_) => FloatKind case Str(_) => StrKind case Null => IntKind
  }

  /** One row, not flushed yet, so that no zone map covers it. */
  function OnePending(row: Row): Stored {
    Stored(seq(|row|, i requires 0 <= i < |row| => Column(KindOf(row[i]), [], [row[i]])), 1, map[])
  }

  lemma OnePendingReads(row: Row, ids: seq<nat>)
    requires forall c <- ids :: c < |row|
    ensures Reads(OnePending(row), ids) && OnePending(row).RowAt(ids, 0) == Pruning.Narrow(ids, row)
  {
    var g := OnePending(row);
    forall c | 0 <= c < |g.columns| ensures g.columns[c].Valid() && g.columns[c].Cells() == [row[c]] {
      assert Flat(g.columns[c].segments) == [];
    }
    assert forall i :: 0 <= i < |ids| ==> ids[i] in ids;
  }

  lemma {:induction false} NoSkipWithoutSegments(row: Row, preds: seq<ScanPredicate>)
    ensures FirstSkip(OnePending(row), 0, preds) == 0
  {
    if preds != [] { NoSkipWithoutSegments(row, preds[..|preds| - 1]); }
  }

  /** A scan of one pending row applies the filters exactly on the late path. */
  lemma OnePendingScanned(row: Row, ids: seq<nat>, filters: seq<Expr>, tx: Tx)
    requires forall c <- ids :: c < |row|
    ensures AllRead([OnePending(row)], ids)
    ensures
      var narrow := Pruning.Narrow(ids, row);
      && Scanned([OnePending(row)], ids, filters, tx, 0, 0) ==
        (if AllHold(Applied(ids, filters), narrow) then [narrow] else [])
      && Remaining([OnePending(row)], ids, filters, tx, 0, 0) == (if AllHold(filters, narrow) then [narrow] else [])
  {
    var g := OnePending(row);
    OnePendingReads(row, ids);
    NoSkipWithoutSegments(row, Extracted(filters));
    assert BatchEnd(g, 0) == 1;
    OneRowPicked(g, ids, filters, tx);
    OneRowPicked(g, ids, Applied(ids, filters), tx);
    assert GroupScan(g, ids, filters, tx, 1) == [];
    assert Scanned([g], ids, filters, tx, 1, 0) == [] && Remaining([g], ids, filters, tx, 1, 0) == [];
  }

  lemma OneRowPicked(g: Stored, ids: seq<nat>, filters: seq<Expr>, tx: Tx)
    requires Reads(g, ids) && g.rowCount == 1 && g.markers == map[]
    ensures Picked(g, ids, filters, tx, 0, 1) == if AllHold(filters, g.RowAt(ids, 0)) then [g.RowAt(ids, 0)] else []
  {
    assert Picked(g, ids, filters, tx, 0, 0) == [];
    assert Chosen(g, ids, filters, tx, 0) <==> AllHold(filters, g.RowAt(ids, 0));
  }

  /** On every table the scan returns the visible rows that pass its filters. */
  ghost predicate ScanIsExact(ids: seq<nat>, filters: seq<Expr>) {
    forall groups: seq<Stored>, tx: Tx ::
      AllRead(groups, ids) ==> Scanned(groups, ids, filters, tx, 0, 0) == Remaining(groups, ids, filters, tx, 0, 0)
  }

  /** Some row of a table fails the filters. */
  ghost predicate Selective(ids: seq<nat>, filters: seq<Expr>) {
    exists row: Row :: (forall c <- ids :: c < |row|) && !AllHold(filters, Pruning.Narrow(ids, row))
  }

  /** A scan with filters that reject some row returns the filtered rows on every table
      exactly when it has a payload column. */
  lemma PayloadIff(ids: seq<nat>, filters: seq<Expr>)
    requires Selective(ids, filters) && ZoneAligned(ids, Extracted(filters))
    ensures ScanIsExact(ids, filters) <==> HasPayload(ids, filters)
  {
    if HasPayload(ids, filters) {
      forall groups: seq<Stored>, tx: Tx | AllRead(groups, ids)
        ensures Scanned(groups, ids, filters, tx, 0, 0) == Remaining(groups, ids, filters, tx, 0, 0)
      {
        ScanKeeps(groups, ids, filters, tx, 0);
      }
    } else {
      var row: Row :| (forall c <- ids :: c < |row|) && !AllHold(filters, Pruning.Narrow(ids, row));
      var tx := Tx(1, 1);
      OnePendingScanned(row, ids, filters, tx);
      assert |Scanned([OnePending(row)], ids, filters, tx, 0, 0)| == 1;
    }
  }

  /** `SELECT a ... WHERE a = 1` scans nothing but its filter column, and returns a row the
      filter rejects. */
  method FilterColumnsOnly(tx: Tx) returns (rows: seq<Row>)
    ensures rows == [[Int(0)]] && Keep([ColumnIs(0, 1)], rows) == []
  {
    ghost var filters, row := [ColumnIs(0, 1)], [Int(0)];
    OnlyFilterColumn(1);
    OnePendingScanned(row, [0], filters, tx);
    rows := ScanAll([OnePending([Int(0)])], tx, [0], [ColumnIs(0, 1)]);
    assert rows == [Pruning.Narrow([0], row)] && Pruning.Narrow([0], row) == row;
    KeepOne(filters, row);
    ColumnIsHolds(0, 1, row);
  }

  lemma OnlyFilterColumn(v: int)
    ensures RefsFit([0], [ColumnIs(0, v)]) && !HasPayload([0], [ColumnIs(0, v)])
  {
    assert Refs(ColumnIs(0, v)) == {0};
    Pruning.SingleList(ColumnIs(0, v), []);
  }

  // ----- When zone maps may be consulted -----

  /** On every table, rows skipped for a predicate on output position col fail it. */
  ghost predicate SkipIsSafe(ids: seq<nat>, p: ScanPredicate)
    requires p.col < |ids|
  {
    forall g: Stored, offset: nat, r: nat ::
      (Reads(g, ids) && p.col < |g.columns| && r < g.rowCount &&
        offset <= r < offset + ZoneSkip(g.columns[p.col].segments, offset, 0, p.test))
      ==> !p.test.Holds(g.RowAt(ids, r)[p.col])
  }

  function OneCell(v: int): Column { Column(IntKind, [Segment([Int(v)], true, Stats(Int(v), Int(v)))], []) }

  lemma OneCellValid(v: int)
    ensures OneCell(v).Cells() == [Int(v)] && OneCell(v).Valid()
    ensures Start(OneCell(v).segments, 0) == 0
  {
    var c := OneCell(v);
    assert c.segments[..0] == [];
    assert Flat(c.segments) == [Int(v)];
  }

  /** One row that holds b everywhere except in column col. */
  function Odd(n: nat, col: nat, b: int): Stored {
    Stored(seq(n, i => OneCell(if i == col then b - 1 else b)), 1, map[])
  }

  /** Looking zone maps up by output position is safe for an equality exactly when the
      scan lists the column at its own place. */
  lemma ZoneSafeIff(ids: seq<nat>, col: nat, b: int)
    requires col < |ids|
    ensures SkipIsSafe(ids, ScanPredicate(col, Comparison(OpEq, Int(b), Int64))) <==> ids[col] == col
  {
    var p := ScanPredicate(col, Comparison(OpEq, Int(b), Int64));
    if ids[col] == col {
      forall g: Stored, offset: nat, r: nat |
        Reads(g, ids) && p.col < |g.columns| && r < g.rowCount &&
          offset <= r < offset + ZoneSkip(g.columns[p.col].segments, offset, 0, p.test)
        ensures !p.test.Holds(g.RowAt(ids, r)[p.col])
      {
        var c := g.columns[col];
        ZoneSkipSound(c.kind, c.segments, c.pending, offset, 0, p.test);
      }
    } else {
      MisalignedSkip(ids, col, b);
    }
  }

  lemma OddReads(n: nat, col: nat, b: int, ids: seq<nat>)
    requires forall c <- ids :: c < n
    ensures Reads(Odd(n, col, b), ids)
    ensures forall i :: 0 <= i < |ids| ==> Odd(n, col, b).RowAt(ids, 0)[i] == Int(if ids[i] == col then b - 1 else b)
  {
    var g := Odd(n, col, b);
    forall c | 0 <= c < |g.columns|
      ensures g.columns[c].Valid() && g.columns[c].Cells() == [Int(if c == col then b - 1 else b)]
    {
      OneCellValid(if c == col then b - 1 else b);
    }
    assert forall i :: 0 <= i < |ids| ==> ids[i] in ids;
  }

  /** The whole group is skipped for the test `= b` at position col. */
  lemma OddSkipped(n: nat, col: nat, b: int)
    requires col < n
    ensures ZoneSkip(Odd(n, col, b).columns[col].segments, 0, 0, Comparison(OpEq, Int(b), Int64)) == 1
  {
    OneCellValid(b - 1);
    var segs := Odd(n, col, b).columns[col].segments;
    assert segs == OneCell(b - 1).segments && Excludes(segs[0].stats, Comparison(OpEq, Int(b), Int64));
  }

  lemma MisalignedSkip(ids: seq<nat>, col: nat, b: int)
    requires col < |ids| && ids[col] != col
    ensures !SkipIsSafe(ids, ScanPredicate(col, Comparison(OpEq, Int(b), Int64)))
  {
    var p := ScanPredicate(col, Comparison(OpEq, Int(b), Int64));
    var n := Max(Pruning.MaxOf(ids), col) + 1;
    var g := Odd(n, col, b);
    OddReads(n, col, b, ids);
    OddSkipped(n, col, b);
    assert p.test.Holds(g.RowAt(ids, 0)[col]);
  }

  // ----- A scan with one equality filter -----

  lemma EqualityExtracted(col: nat, b: int)
    ensures Extracted([ColumnIs(col, b)]) == [ScanPredicate(col, Comparison(OpEq, Int(b), Int64))]
    ensures RefsOf([ColumnIs(col, b)]) == {col}
  {
    var e := ColumnIs(col, b);
    assert [e][..0] == [];
    assert TryExtract(e) == Some(ScanPredicate(col, Comparison(OpEq, Int(b), Int64)));
    assert Refs(e) == {col} + {};
    Pruning.SingleList(e, []);
  }

  lemma EqualityPayload(ids: seq<nat>, col: nat, b: int)
    requires col < |ids|
    ensures HasPayload(ids, [ColumnIs(col, b)]) <==> |ids| > 1
  {
    EqualityExtracted(col, b);
    if |ids| > 1 {
      var other: nat := if col == 0 then 1 else 0;
      assert other < |ids| && other !in RefsOf([ColumnIs(col, b)]);
    }
  }

  /** A row that passes the filter is not returned, because another column rules it out. */
  lemma OddScanned(n: nat, ids: seq<nat>, col: nat, b: int, tx: Tx)
    requires col < |ids| && col < n && ids[col] != col && forall c <- ids :: c < n
    ensures AllRead([Odd(n, col, b)], ids) && Scanned([Odd(n, col, b)], ids, [ColumnIs(col, b)], tx, 0, 0) == []
  {
    var g, filters := Odd(n, col, b), [ColumnIs(col, b)];
    OddReads(n, col, b, ids);
    OddSkipped(n, col, b);
    EqualityExtracted(col, b);
    var preds := Extracted(filters);
    assert SkipFor(g, 0, preds[0]) == 1 && FirstToSkip(g, 0, preds, 0);
    FirstDecides(g, 0, preds, 0);
    assert SkipTo(g, preds, 1) == 1;
    assert SkipTo(g, preds, 0) == 1;
    assert GroupScan(g, ids, filters, tx, 0) == [];
    assert Scanned([g], ids, filters, tx, 1, 0) == [];
  }

  /** A scan filtered by `column = b` alone is right on every table exactly when it reads
      another column as well and lists the filtered one at its own place. */
  lemma EqualityScanIff(ids: seq<nat>, col: nat, b: int)
    requires col < |ids|
    ensures ScanIsExact(ids, [ColumnIs(col, b)]) <==> |ids| > 1 && ids[col] == col
  {
    var filters, tx := [ColumnIs(col, b)], Tx(1, 1);
    EqualityExtracted(col, b);
    EqualityPayload(ids, col, b);
    if ids[col] != col {
      var n := Max(Pruning.MaxOf(ids), col) + 1;
      OddScanned(n, ids, col, b, tx);
      OddRemaining(n, ids, col, b, tx);
    } else {
      EqualitySelective(ids, col, b);
      PayloadIff(ids, filters);
    }
  }

  lemma OddRemaining(n: nat, ids: seq<nat>, col: nat, b: int, tx: Tx)
    requires col < |ids| && ids[col] != col && forall c <- ids :: c < n
    ensures AllRead([Odd(n, col, b)], ids) && |Remaining([Odd(n, col, b)], ids, [ColumnIs(col, b)], tx, 0, 0)| == 1
  {
    var g, filters := Odd(n, col, b), [ColumnIs(col, b)];
    OddReads(n, col, b, ids);
    ColumnIsHolds(col, b, g.RowAt(ids, 0));
    OneRowPicked(g, ids, filters, tx);
    assert Remaining([g], ids, filters, tx, 1, 0) == [];
  }

  lemma EqualitySelective(ids: seq<nat>, col: nat, b: int)
    requires col < |ids|
    ensures Selective(ids, [ColumnIs(col, b)])
  {
    var row: Row := seq(Pruning.MaxOf(ids) + 1, _ => Int(b - 1));
    var narrow := Pruning.Narrow(ids, row);
    assert ids[col] in ids && narrow[col] == Int(b - 1);
    ColumnIsHolds(col, b, narrow);
  }
}
