/** Queries from the bound plan to the rows of the planned operators.

    Tables are stored in row groups, and a planned scan returns what the scan operator of
    module LateScan returns on them.  The main theorem says when an optimized and planned
    query yields the rows its bound plan denotes on the rows visible to the transaction; the
    rest of the module gives the queries for which it does not. */
module Execution {
  import opened Basics
  import opened Cells
  import opened Relational
  import opened Optimizer
  import opened Pruning
  import opened TableScan
  import opened LateScan

  // ----- Stored tables and what a transaction sees of them -----

  datatype Table = Table(width: nat, groups: seq<Stored>)
  {
    ghost predicate Valid() { forall g <- groups :: g.Valid() && |g.columns| == width }
  }

  type Tables = map<(string, string), Table>

  ghost predicate TablesValid(db: Tables) { forall k <- db :: db[k].Valid() }

  function Whole(n: nat): seq<nat> { seq(n, i => i) }

  lemma TableReads(t: Table, ids: seq<nat>)
    requires t.Valid() && forall c <- ids :: c < t.width
    ensures AllRead(t.groups, ids)
  {
    forall g | 0 <= g < |t.groups| ensures Reads(t.groups[g], ids) {
      assert t.groups[g] in t.groups;
      forall i | 0 <= i < |ids| ensures ids[i] < |t.groups[g].columns| { assert ids[i] in ids; }
    }
  }

  function VisibleRows(t: Table, tx: Tx): seq<Row>
    requires t.Valid()
  {
    TableReads(t, Whole(t.width));
    Remaining(t.groups, Whole(t.width), [], tx, 0, 0)
  }

  /** The database a transaction sees. */
  function Seen(db: Tables, tx: Tx): Database
    requires TablesValid(db)
  {
    map k | k in db :: VisibleRows(db[k], tx)
  }

  // ----- What the planned operators produce -----

  function ScanRows(db: Tables, tx: Tx, schema: string, table: string, ids: seq<nat>, filters: seq<Expr>): seq<Row>
    requires TablesValid(db)
  {
    if (schema, table) !in db then []
    else
      var t := db[(schema, table)];
      if forall c <- ids :: c < t.width then
        TableReads(t, ids);
        Scanned(t.groups, ids, filters, tx, 0, 0)
      else []
  }

  /** Scans emit only their own columns, and every expression runs as the planner rewrote it. */
  function PhysicalRows(p: Plan, db: Tables, tx: Tx): seq<Row>
    requires TablesValid(db)
  {
    match p
    case Get(schema, table, ids, pushed) => ScanRows(db, tx, schema, table, ids, RemapList(pushed, ids))
    case Filter(pred, c) => Keep([Planned(p, pred)], PhysicalRows(c, db, tx))
    case Projection(es, c) => Project(PlannedList(p, es), PhysicalRows(c, db, tx))
    case Limit(limit, offset, c) => LimitRows(limit, offset, PhysicalRows(c, db, tx))
    case Sort(keys, asc, c) =>
      if |keys| == |asc| then StableSort(PlannedList(p, keys), asc, PhysicalRows(c, db, tx))
      else PhysicalRows(c, db, tx)
    case Aggregate(groups, aggs, types, c) =>
      if |aggs| == |types| then
        AggregateRows(PlannedList(p, groups), PlannedAggs(p, aggs), types, PhysicalRows(c, db, tx))
      else []
    case Join(lk, rk, l, r) => EquiJoin(lk, rk, PhysicalRows(l, db, tx), PhysicalRows(r, db, tx))
  }

  /** A scan that filters by what was pushed into it: there is nothing to filter by, or it
      has a payload column and looks its zone maps up at the right columns. */
  predicate ScanReady(ids: seq<nat>, pushed: seq<Expr>) {
    var filters := RemapList(pushed, ids);
    pushed == [] || (HasPayload(ids, filters) && ZoneAligned(ids, Extracted(filters)))
  }

  ghost predicate Ready(p: Plan, db: Tables)
    requires Base(p) || Query(p)
  {
    var g := GetOf(p);
    (g.schema, g.table) in db ==> ScanReady(g.columnIds, g.pushed)
  }

  /** Every reference of the plan is to a scanned column of the table. */
  ghost predicate Bound(p: Plan, db: Tables)
    requires Base(p) || Query(p)
  {
    var g := GetOf(p);
    (g.schema, g.table) in db ==> Covered(g.columnIds, AllRefs(p), db[(g.schema, g.table)].width)
  }

  // ----- A scan of some columns against the visible rows -----

  lemma {:induction false} PickedNarrow(g: Stored, ids: seq<nat>, w: nat, tx: Tx, to: nat)
    requires Reads(g, ids) && Reads(g, Whole(w)) && w == |g.columns| && to <= g.rowCount
    ensures Picked(g, ids, [], tx, 0, to) == NarrowAll(ids, Picked(g, Whole(w), [], tx, 0, to))
    ensures forall r <- Picked(g, Whole(w), [], tx, 0, to) :: |r| == w
  {
    if to > 0 {
      PickedNarrow(g, ids, w, tx, to - 1);
      assert g.RowAt(ids, to - 1) == Narrow(ids, g.RowAt(Whole(w), to - 1));
      NarrowAppend(ids, Picked(g, Whole(w), [], tx, 0, to - 1), g.RowAt(Whole(w), to - 1));
    }
  }

  lemma NarrowConcat(ids: seq<nat>, a: seq<Row>, b: seq<Row>)
    ensures NarrowAll(ids, a + b) == NarrowAll(ids, a) + NarrowAll(ids, b)
  {
  }

  lemma {:induction false} RemainingNarrow(t: Table, ids: seq<nat>, tx: Tx, gi: nat)
    requires t.Valid() && AllRead(t.groups, ids) && AllRead(t.groups, Whole(t.width))
    ensures Remaining(t.groups, ids, [], tx, gi, 0) ==
      NarrowAll(ids, Remaining(t.groups, Whole(t.width), [], tx, gi, 0))
    ensures forall r <- Remaining(t.groups, Whole(t.width), [], tx, gi, 0) :: |r| == t.width
    decreases |t.groups| - gi
  {
    if gi < |t.groups| {
      var g := t.groups[gi];
      assert g in t.groups;
      PickedNarrow(g, ids, t.width, tx, g.rowCount);
      RemainingNarrow(t, ids, tx, gi + 1);
      NarrowConcat(ids, Picked(g, Whole(t.width), [], tx, 0, g.rowCount),
        Remaining(t.groups, Whole(t.width), [], tx, gi + 1, 0));
    }
  }

  lemma {:induction false} RemainingKeep(groups: seq<Stored>, ids: seq<nat>, filters: seq<Expr>, tx: Tx, gi: nat)
    requires AllRead(groups, ids)
    ensures Remaining(groups, ids, filters, tx, gi, 0) == Keep(filters, Remaining(groups, ids, [], tx, gi, 0))
    decreases |groups| - gi
  {
    if gi < |groups| {
      var g := groups[gi];
      KeepPicked(g, ids, [], filters, tx, 0, g.rowCount);
      RemainingKeep(groups, ids, filters, tx, gi + 1);
      KeepConcat(filters, Picked(g, ids, [], tx, 0, g.rowCount), Remaining(groups, ids, [], tx, gi + 1, 0));
    }
  }

  lemma VisibleWide(t: Table, tx: Tx, ids: seq<nat>)
    requires t.Valid() && forall c <- ids :: c < t.width
    ensures Wide(ids, VisibleRows(t, tx))
  {
    TableReads(t, Whole(t.width));
    RemainingNarrow(t, Whole(t.width), tx, 0);
  }

  /** A ready scan returns the visible rows that pass, narrowed to its columns. */
  lemma ScanMatches(t: Table, tx: Tx, ids: seq<nat>, pushed: seq<Expr>)
    requires t.Valid() && Covered(ids, RefsOf(pushed), t.width) && ScanReady(ids, pushed)
    ensures AllRead(t.groups, ids)
    ensures Scanned(t.groups, ids, RemapList(pushed, ids), tx, 0, 0) == NarrowAll(ids, Keep(pushed, VisibleRows(t, tx)))
  {
    var filters := RemapList(pushed, ids);
    TableReads(t, ids);
    TableReads(t, Whole(t.width));
    ScanKeeps(t.groups, ids, filters, tx, 0);
    RemainingKeep(t.groups, ids, filters, tx, 0);
    RemainingNarrow(t, ids, tx, 0);
    VisibleWide(t, tx, ids);
    NarrowedKeep(pushed, ids, VisibleRows(t, tx));
  }

  // ----- Planned queries -----

  lemma ScanPlanned(p: Plan, db: Tables, tx: Tx)
    requires p.Get? && TablesValid(db) && Bound(p, db) && Ready(p, db)
    ensures PhysicalRows(p, db, tx) == NarrowAll(p.columnIds, Denote(p, Seen(db, tx)))
  {
    if (p.schema, p.table) in db {
      ScanMatches(db[(p.schema, p.table)], tx, p.columnIds, p.pushed);
    }
  }

  /** The rows of a base plan are wide enough for the columns of its scan. */
  lemma BaseWide(p: Plan, db: Tables, tx: Tx)
    requires Base(p) && TablesValid(db) && Bound(p, db)
    ensures Wide(GetOf(p).columnIds, Denote(p, Seen(db, tx)))
    ensures (GetOf(p).schema, GetOf(p).table) !in db ==> Denote(p, Seen(db, tx)) == []
  {
    var g := GetOf(p);
    BaseRows(p, Seen(db, tx));
    if (g.schema, g.table) in db {
      VisibleWide(db[(g.schema, g.table)], tx, g.columnIds);
    } else {
      EmptyBase(p, Seen(db, tx));
    }
  }

  /** Planned on any column list that covers its references, a base plan computes the
      narrowed logical rows. */
  lemma {:induction false} BasePlanned(p: Plan, db: Tables, tx: Tx)
    requires Base(p) && TablesValid(db) && Bound(p, db) && Ready(p, db)
    ensures PhysicalRows(p, db, tx) == NarrowAll(GetOf(p).columnIds, Denote(p, Seen(db, tx)))
  {
    var ids := GetOf(p).columnIds;
    match p
    case Get(_, _, _, _) => ScanPlanned(p, db, tx);
    case Filter(pred, c) =>
      BasePlanned(c, db, tx);
      FilterPlanned(pred, c, db, tx);
    case Sort(keys, asc, c) =>
      BasePlanned(c, db, tx);
      if |keys| == |asc| { SortPlanned(keys, asc, c, db, tx); }
    case Limit(limit, offset, c) =>
      BasePlanned(c, db, tx);
      NarrowedLimit(limit, offset, ids, Denote(c, Seen(db, tx)));
  }

  lemma FilterPlanned(pred: Expr, c: Plan, db: Tables, tx: Tx)
    requires Base(c) && TablesValid(db) && Bound(Filter(pred, c), db)
    ensures
      var ids, rows := GetOf(c).columnIds, Denote(c, Seen(db, tx));
      Keep([RemapColumnRefs(pred, ids)], NarrowAll(ids, rows)) == NarrowAll(ids, Keep([pred], rows))
  {
    var ids := GetOf(c).columnIds;
    BaseWide(c, db, tx);
    SingleList(pred, ids);
    if (GetOf(c).schema, GetOf(c).table) in db { NarrowedKeep([pred], ids, Denote(c, Seen(db, tx))); }
  }

  lemma SortPlanned(keys: seq<Expr>, asc: seq<bool>, c: Plan, db: Tables, tx: Tx)
    requires Base(c) && |keys| == |asc| && TablesValid(db) && Bound(Sort(keys, asc, c), db)
    ensures
      var ids, rows := GetOf(c).columnIds, Denote(c, Seen(db, tx));
      StableSort(RemapList(keys, ids), asc, NarrowAll(ids, rows)) == NarrowAll(ids, StableSort(keys, asc, rows))
  {
    BaseWide(c, db, tx);
    if (GetOf(c).schema, GetOf(c).table) in db { NarrowedSort(keys, asc, GetOf(c).columnIds, Denote(c, Seen(db, tx))); }
  }

  /** A one-table query without aggregation, planned on any covering column list with a
      ready scan, yields exactly its logical rows. */
  lemma {:induction false} QueryPlanned(p: Plan, db: Tables, tx: Tx)
    requires Query(p) && TablesValid(db) && Bound(p, db) && Ready(p, db)
    ensures PhysicalRows(p, db, tx) == Denote(p, Seen(db, tx))
  {
    match p
    case Projection(es, c) =>
      var ids, rows := GetOf(p).columnIds, Denote(c, Seen(db, tx));
      BasePlanned(c, db, tx);
      BaseWide(c, db, tx);
      forall i | 0 <= i < |rows|
        ensures EvalAll(RemapList(es, ids), Narrow(ids, rows[i])) == EvalAll(es, rows[i])
      {
        assert rows[i] in rows;
        NarrowedValues(es, ids, rows[i]);
      }
    case Limit(_, _, c) => QueryPlanned(c, db, tx);
  }

  // ----- The whole optimizer, then the planner -----

  /** Pruning and merging, then planning and running. */
  lemma LastPasses(cfg: Config, p: Plan, db: Tables, tx: Tx)
    requires Query(p) && TablesValid(db) && Bound(p, db)
    ensures
      var q := MergePass(cfg, PrunePass(cfg, p));
      Query(q) && (Ready(q, db) ==> PhysicalRows(q, db, tx) == Denote(p, Seen(db, tx)))
  {
    var pruned, g := PrunePass(cfg, p), GetOf(p);
    PrunedScan(p, {});
    if (g.schema, g.table) in db { PrunedCover(p, {}, db[(g.schema, g.table)].width); }
    MergeKeepsShape(pruned);
    var q := MergePass(cfg, pruned);
    if Ready(q, db) { QueryPlanned(q, db, tx); }
    PruneKeepsMeaning(p, {}, Seen(db, tx));
    MergeFiltersKeepsRows(pruned, Seen(db, tx));
  }

  /** The bound query: typed, filters where pushdown may move them, references in range. */
  ghost predicate BoundQuery(p: Plan, db: Tables, tx: Tx)
    requires TablesValid(db)
  {
    && Query(p) && PlanTyped(p) && Bound(p, db) && (EMPTY_SCHEMA, EMPTY_TABLE) !in db
    && Placed(p, false) && SortsTyped(p, false, Seen(db, tx))
  }

  lemma OptimizedShape(cfg: Config, p: Plan, db: Tables, tx: Tx)
    requires TablesValid(db) && BoundQuery(p, db, tx)
    ensures var pushed := PushPass(cfg, FoldPass(cfg, p)); Query(pushed) && Bound(pushed, db)
    ensures Query(Optimize(cfg, p))
  {
    var folded := FoldPass(cfg, p);
    FoldKeepsShape(p);
    var pushed := PushPass(cfg, folded);
    PushKeepsShape(folded, []);
    LastPasses(cfg, pushed, db, tx);
  }

  /** For every choice of passes: if the scan of the optimized plan is ready, then running it
      on narrow chunks gives the rows the bound query denotes on full visible rows. */
  lemma OptimizedQueryKeepsRows(cfg: Config, p: Plan, db: Tables, tx: Tx)
    requires TablesValid(db) && BoundQuery(p, db, tx)
    ensures Query(Optimize(cfg, p))
    ensures Ready(Optimize(cfg, p), db) ==> PhysicalRows(Optimize(cfg, p), db, tx) == Denote(p, Seen(db, tx))
  {
    OptimizedShape(cfg, p, db, tx);
    var pushed := PushPass(cfg, FoldPass(cfg, p));
    LastPasses(cfg, pushed, db, tx);
    MergeFiltersKeepsRows(pushed, Seen(db, tx));
    RewritingKeepsRows(cfg, p, Seen(db, tx));
  }

  // ----- SELECT c FROM t WHERE a = v -----

  function SelectWhere(schema: string, table: string, n: nat, c: nat, a: nat, v: int): Plan {
    Projection([Ref(c, Int64)], Filter(ColumnIs(a, v), Get(schema, table, Whole(n), [])))
  }

  /** The columns its scan reads after optimization. */
  function SelectColumns(cfg: Config, n: nat, c: nat, a: nat): seq<nat> {
    if !cfg.columnPruning then Whole(n) else if a == c then [a] else [Min(a, c), Max(a, c)]
  }

  /** Those of two numbers that are below n, in order. */
  function Pair(n: nat, lo: nat, hi: nat): seq<nat> {
    (if lo < n then [lo] else []) + if lo < hi < n then [hi] else []
  }

  lemma PairLast(n: nat, lo: nat, hi: nat)
    requires lo <= hi
    ensures Pair(n + 1, lo, hi) == Pair(n, lo, hi) + if n in {lo, hi} then [n] else []
  {
  }

  lemma {:induction false} KeepPair(n: nat, lo: nat, hi: nat)
    requires lo <= hi
    ensures KeepIds(Whole(n), {lo, hi}) == Pair(n, lo, hi)
  {
    if n > 0 {
      KeepPair(n - 1, lo, hi);
      KeepLast(n - 1, {lo, hi});
      PairLast(n - 1, lo, hi);
    }
  }

  lemma KeepLast(n: nat, required: set<nat>)
    ensures KeepIds(Whole(n + 1), required) == KeepIds(Whole(n), required) + if n in required then [n] else []
  {
    assert Whole(n + 1)[..n] == Whole(n) && Whole(n + 1)[n] == n;
  }

  lemma SelectPruned(schema: string, table: string, n: nat, c: nat, a: nat, pushed: seq<Expr>, req: set<nat>)
    requires a < n && c < n && req != {} && req + RefsOf(pushed) == {a, c}
    ensures PruneColumns(Get(schema, table, Whole(n), pushed), req).plan ==
      Get(schema, table, if a == c then [a] else [Min(a, c), Max(a, c)], pushed)
  {
    var lo, hi := Min(a, c), Max(a, c);
    KeepPair(n, lo, hi);
    assert {a, c} == {lo, hi};
    assert Pair(n, lo, hi) == if a == c then [a] else [lo, hi];
  }

  /** The query after optimization. */
  function SelectPlan(cfg: Config, schema: string, table: string, n: nat, c: nat, a: nat, v: int): Plan {
    var ids, es := SelectColumns(cfg, n, c, a), [Ref(c, Int64)];
    if cfg.predicatePushdown then Projection(es, Get(schema, table, ids, [ColumnIs(a, v)]))
    else Projection(es, Filter(ColumnIs(a, v), Get(schema, table, ids, [])))
  }

  lemma SelectOptimized(cfg: Config, schema: string, table: string, n: nat, c: nat, a: nat, v: int)
    requires a < n && c < n
    ensures
      var plan := SelectWhere(schema, table, n, c, a, v);
      PlanTyped(plan) && Optimize(cfg, plan) == SelectPlan(cfg, schema, table, n, c, a, v)
  {
    var pred, get := ColumnIs(a, v), Get(schema, table, Whole(n), []);
    SelectFolded(schema, table, n, c, a, v);
    SelectPushed(schema, table, n, c, a, v);
    SelectRefs(c, a, v);
    if cfg.predicatePushdown {
      ShownPruned(c, Get(schema, table, Whole(n), [pred]));
      SelectPruned(schema, table, n, c, a, [pred], {c});
    } else {
      ShownPruned(c, Filter(pred, get));
      assert PruneColumns(Filter(pred, get), {c}).plan == Filter(pred, PruneColumns(get, {c} + {a}).plan);
      SelectPruned(schema, table, n, c, a, [], {c} + {a});
    }
    ShownMerged(c, pred, Get(schema, table, SelectColumns(cfg, n, c, a), []));
  }

  lemma SelectPushed(schema: string, table: string, n: nat, c: nat, a: nat, v: int)
    ensures Pushdown(SelectWhere(schema, table, n, c, a, v), []).plan ==
      Projection([Ref(c, Int64)], Get(schema, table, Whole(n), [ColumnIs(a, v)]))
  {
    var pred, get := ColumnIs(a, v), Get(schema, table, Whole(n), []);
    assert [] + [pred] == [pred];
    assert Pushdown(get, [pred]).plan == Get(schema, table, Whole(n), [pred]);
    assert Pushdown(Filter(pred, get), []).plan == Get(schema, table, Whole(n), [pred]);
  }

  lemma ShownPruned(c: nat, below: Plan)
    ensures PruneColumns(Projection([Ref(c, Int64)], below), {}).plan ==
      Projection([Ref(c, Int64)], PruneColumns(below, {c}).plan)
  {
    SelectRefs(c, 0, 0);
  }

  lemma ShownMerged(c: nat, pred: Expr, get: Plan)
    requires get.Get?
    ensures
      var es := [Ref(c, Int64)];
      && MergeFilters(Projection(es, Filter(pred, get))) == Projection(es, Filter(pred, get))
      && forall g: Plan :: g.Get? ==> MergeFilters(Projection(es, g)) == Projection(es, g)
  {
    assert MergeFilters(Filter(pred, get)) == Filter(pred, get);
  }

  lemma SelectRefs(c: nat, a: nat, v: int)
    ensures {} + RefsOf([Ref(c, Int64)]) == {c} && Refs(ColumnIs(a, v)) == {a} && RefsOf([ColumnIs(a, v)]) == {a} &&
      RefsOf([]) == {}
    ensures {c} + {a} == {a, c} && {c, a} + {} == {a, c} && {c} != {}
  {
    SingleList(Ref(c, Int64), []);
    SingleList(ColumnIs(a, v), []);
    assert Refs(ColumnIs(a, v)) == {a} + {};
  }

  lemma SelectFolded(schema: string, table: string, n: nat, c: nat, a: nat, v: int)
    ensures var plan := SelectWhere(schema, table, n, c, a, v); PlanTyped(plan) && FoldPlan(plan) == plan
  {
    var pred, get := ColumnIs(a, v), Get(schema, table, Whole(n), []);
    assert WellTyped(Ref(a, Int64)) && WellTyped(Lit(Int(v), Int64));
    assert WellTyped(pred) && FoldExpr(pred) == pred;
    assert FoldAll([Ref(c, Int64)]) == [Ref(c, Int64)];
    assert FoldPlan(Filter(pred, get)) == Filter(pred, get);
  }

  /** On a table of n columns, running q returns the rows that p denotes. */
  ghost predicate RightOn(p: Plan, q: Plan, schema: string, table: string, n: nat, db: Tables, tx: Tx) {
    TablesValid(db) && (EMPTY_SCHEMA, EMPTY_TABLE) !in db && (schema, table) in db && db[(schema, table)].width == n
    ==> PhysicalRows(q, db, tx) == Denote(p, Seen(db, tx))
  }

  ghost predicate SelectRightOn(cfg: Config, schema: string, table: string, n: nat, c: nat, a: nat, v: int, db: Tables,
      tx: Tx)
    requires a < n && c < n
  {
    var plan := SelectWhere(schema, table, n, c, a, v);
    SelectOptimized(cfg, schema, table, n, c, a, v);
    RightOn(plan, Optimize(cfg, plan), schema, table, n, db, tx)
  }

  lemma SelectRightPlan(cfg: Config, schema: string, table: string, n: nat, c: nat, a: nat, v: int, db: Tables, tx: Tx)
    requires a < n && c < n
    ensures SelectRightOn(cfg, schema, table, n, c, a, v, db, tx) <==>
      RightOn(SelectWhere(schema, table, n, c, a, v), SelectPlan(cfg, schema, table, n, c, a, v), schema, table, n, db,
        tx)
  {
    SelectOptimized(cfg, schema, table, n, c, a, v);
  }

  ghost predicate SelectIsRight(cfg: Config, schema: string, table: string, n: nat, c: nat, a: nat, v: int)
    requires a < n && c < n
  {
    forall db: Tables, tx: Tx :: SelectRightOn(cfg, schema, table, n, c, a, v, db, tx)
  }

  /** What a caller has to check: the filter stays above the scan; or nothing is pruned and
      the table has a second column; or pruning keeps a second column and moves the filtered
      one nowhere. */
  predicate SelectCondition(cfg: Config, n: nat, c: nat, a: nat) {
    || !cfg.predicatePushdown
    || if cfg.columnPruning then c != a && (a == 0 || (a == 1 && c == 0)) else n > 1
  }

  /** The position of the filtered column among the scanned ones. */
  lemma SelectPosition(cfg: Config, n: nat, c: nat, a: nat, v: int)
    requires a < n && c < n
    ensures
      var ids := SelectColumns(cfg, n, c, a);
      && Covered(ids, {a, c}, n) && a in Positions(ids)
      && RemapList([ColumnIs(a, v)], ids) == [ColumnIs(Positions(ids)[a], v)]
      && (SelectCondition(cfg, n, c, a) <==> !cfg.predicatePushdown || (|ids| > 1 && Positions(ids)[a] == a))
  {
    var ids := SelectColumns(cfg, n, c, a);
    if !cfg.columnPruning {
      assert ids[a] == a && ids[c] == c;
    } else if a == c {
      assert ids[0] == a;
    } else {
      assert ids[0] == Min(a, c) && ids[1] == Max(a, c);
    }
    assert a in ids && c in ids;
    ColumnIsMoved(a, v, ids);
  }

  lemma ColumnIsMoved(a: nat, v: int, ids: seq<nat>)
    requires a in ids
    ensures RemapColumnRefs(ColumnIs(a, v), ids) == ColumnIs(Positions(ids)[a], v)
    ensures RemapList([ColumnIs(a, v)], ids) == [ColumnIs(Positions(ids)[a], v)]
  {
    var m := Positions(ids);
    assert Remap(Ref(a, Int64), m) == Ref(m[a], Int64) && Remap(Lit(Int(v), Int64), m) == Lit(Int(v), Int64);
    SingleList(ColumnIs(a, v), ids);
  }

  lemma SelectScanReady(cfg: Config, n: nat, c: nat, a: nat, v: int)
    requires a < n && c < n && SelectCondition(cfg, n, c, a) && cfg.predicatePushdown
    ensures ScanReady(SelectColumns(cfg, n, c, a), [ColumnIs(a, v)])
  {
    var ids := SelectColumns(cfg, n, c, a);
    SelectPosition(cfg, n, c, a, v);
    EqualityPayload(ids, Positions(ids)[a], v);
    EqualityExtracted(Positions(ids)[a], v);
  }

  lemma SelectBound(schema: string, table: string, n: nat, c: nat, a: nat, v: int, db: Tables, tx: Tx)
    requires a < n && c < n && TablesValid(db) && (EMPTY_SCHEMA, EMPTY_TABLE) !in db
    requires (schema, table) in db && db[(schema, table)].width == n
    ensures BoundQuery(SelectWhere(schema, table, n, c, a, v), db, tx)
  {
    var plan := SelectWhere(schema, table, n, c, a, v);
    SelectFolded(schema, table, n, c, a, v);
    SelectRefs(c, a, v);
    assert Base(plan.child.child) && Base(plan.child) && Query(plan);
    assert AllRefs(plan.child.child) == {} && AllRefs(plan.child) == {a} + {};
    assert AllRefs(plan) == {c} + ({a} + {});
    assert GetOf(plan.child) == plan.child.child && GetOf(plan) == plan.child.child;
    assert Whole(n)[a] == a && Whole(n)[c] == c;
    assert Placed(plan.child.child, true) && SortsTyped(plan.child.child, true, Seen(db, tx));
    assert Placed(plan.child, false) && SortsTyped(plan.child, false, Seen(db, tx));
  }

  lemma SelectGet(cfg: Config, schema: string, table: string, n: nat, c: nat, a: nat, v: int)
    requires a < n && c < n
    ensures
      var plan := SelectWhere(schema, table, n, c, a, v);
      && PlanTyped(plan) && Query(Optimize(cfg, plan))
      && GetOf(Optimize(cfg, plan)) ==
           Get(schema, table, SelectColumns(cfg, n, c, a), if cfg.predicatePushdown then [ColumnIs(a, v)] else [])
  {
    SelectOptimized(cfg, schema, table, n, c, a, v);
    var q := Optimize(cfg, SelectWhere(schema, table, n, c, a, v));
    assert Base(q.child);
    assert cfg.predicatePushdown || GetOf(q.child) == q.child.child;
  }

  lemma SelectWorks(cfg: Config, schema: string, table: string, n: nat, c: nat, a: nat, v: int)
    requires a < n && c < n && SelectCondition(cfg, n, c, a)
    ensures SelectIsRight(cfg, schema, table, n, c, a, v)
  {
    var plan := SelectWhere(schema, table, n, c, a, v);
    forall db: Tables, tx: Tx ensures SelectRightOn(cfg, schema, table, n, c, a, v, db, tx) {
      if TablesValid(db) && (EMPTY_SCHEMA, EMPTY_TABLE) !in db && (schema, table) in db &&
        db[(schema, table)].width == n {
        SelectBound(schema, table, n, c, a, v, db, tx);
        OptimizedQueryKeepsRows(cfg, plan, db, tx);
        if cfg.predicatePushdown { SelectScanReady(cfg, n, c, a, v); }
        SelectGet(cfg, schema, table, n, c, a, v);
      }
    }
  }

  function OneTable(schema: string, table: string, t: Table): Tables { map[(schema, table) := t] }

  /** How many rows the query denotes, on one group. */
  lemma SelectDenotes(schema: string, table: string, n: nat, c: nat, a: nat, v: int, g: Stored, tx: Tx)
    requires g.Valid() && |g.columns| == n
    ensures
      var db, plan := OneTable(schema, table, Table(n, [g])), SelectWhere(schema, table, n, c, a, v);
      && TablesValid(db) && AllRead([g], Whole(n))
      && |Denote(plan, Seen(db, tx))| == |Remaining([g], Whole(n), [ColumnIs(a, v)], tx, 0, 0)|
  {
    var t, pred, get := Table(n, [g]), ColumnIs(a, v), Get(schema, table, Whole(n), []);
    TableReads(t, Whole(n));
    RemainingKeep([g], Whole(n), [pred], tx, 0);
    KeepNothing(VisibleRows(t, tx));
    var rows := Seen(OneTable(schema, table, t), tx);
    assert TableRows(rows, schema, table) == VisibleRows(t, tx);
    assert Denote(get, rows) == VisibleRows(t, tx);
    assert Denote(Filter(pred, get), rows) == Keep([pred], VisibleRows(t, tx));
  }

  /** How many rows the planned scan returns. */
  lemma SelectReturns(cfg: Config, schema: string, table: string, n: nat, c: nat, a: nat, v: int, g: Stored, tx: Tx)
    requires a < n && c < n && cfg.predicatePushdown && g.Valid() && |g.columns| == n
    ensures
      var db: Tables := OneTable(schema, table, Table(n, [g]));
      var plan, ids := SelectPlan(cfg, schema, table, n, c, a, v), SelectColumns(cfg, n, c, a);
      && TablesValid(db) && AllRead([g], ids) && a in Positions(ids)
      && |PhysicalRows(plan, db, tx)| == |Scanned([g], ids, [ColumnIs(Positions(ids)[a], v)], tx, 0, 0)|
  {
    var db := OneTable(schema, table, Table(n, [g]));
    var ids, pred := SelectColumns(cfg, n, c, a), ColumnIs(a, v);
    SelectPosition(cfg, n, c, a, v);
    TableReads(Table(n, [g]), ids);
    assert PhysicalRows(Get(schema, table, ids, [pred]), db, tx) ==
      Scanned([g], ids, [ColumnIs(Positions(ids)[a], v)], tx, 0, 0);
  }

  /** The scan of the group returns another number of rows than pass. */
  ghost predicate Miscounts(cfg: Config, n: nat, c: nat, a: nat, v: int, g: Stored, tx: Tx) {
    var ids := SelectColumns(cfg, n, c, a);
    && g.Valid() && |g.columns| == n && AllRead([g], ids) && AllRead([g], Whole(n)) && a in Positions(ids)
    && |Scanned([g], ids, [ColumnIs(Positions(ids)[a], v)], tx, 0, 0)| !=
      |Remaining([g], Whole(n), [ColumnIs(a, v)], tx, 0, 0)|
  }

  lemma SelectFails(cfg: Config, schema: string, table: string, n: nat, c: nat, a: nat, v: int, g: Stored, tx: Tx)
    requires a < n && c < n && cfg.predicatePushdown && (schema, table) != (EMPTY_SCHEMA, EMPTY_TABLE)
    requires Miscounts(cfg, n, c, a, v, g, tx)
    ensures !SelectIsRight(cfg, schema, table, n, c, a, v)
  {
    var db := OneTable(schema, table, Table(n, [g]));
    SelectDenotes(schema, table, n, c, a, v, g, tx);
    SelectReturns(cfg, schema, table, n, c, a, v, g, tx);
    OtherCount(SelectWhere(schema, table, n, c, a, v), SelectPlan(cfg, schema, table, n, c, a, v), schema, table, n,
      db, tx);
    SelectRightPlan(cfg, schema, table, n, c, a, v, db, tx);
  }

  lemma OtherCount(p: Plan, q: Plan, schema: string, table: string, n: nat, db: Tables, tx: Tx)
    requires TablesValid(db) && (EMPTY_SCHEMA, EMPTY_TABLE) !in db && (schema, table) in db &&
      db[(schema, table)].width == n
    requires |PhysicalRows(q, db, tx)| != |Denote(p, Seen(db, tx))|
    ensures !RightOn(p, q, schema, table, n, db, tx)
  {
  }

  /** Nothing but the filtered column is read: a rejected row comes back. */
  lemma AloneFails(cfg: Config, schema: string, table: string, n: nat, c: nat, a: nat, v: int)
    requires a < n && c < n && cfg.predicatePushdown && |SelectColumns(cfg, n, c, a)| == 1
    requires (schema, table) != (EMPTY_SCHEMA, EMPTY_TABLE)
    ensures !SelectIsRight(cfg, schema, table, n, c, a, v)
  {
    var ids, tx := SelectColumns(cfg, n, c, a), Tx(1, 1);
    var row: Row := seq(n, _ => Int(v - 1));
    SelectPosition(cfg, n, c, a, v);
    AloneScanned(row, ids, Positions(ids)[a], v, tx);
    AloneRejected(row, a, v, tx);
    OnePendingReads(row, Whole(n));
    assert |row| == n;
    SelectFails(cfg, schema, table, n, c, a, v, OnePending(row), tx);
  }

  lemma AloneScanned(row: Row, ids: seq<nat>, pos: nat, v: int, tx: Tx)
    requires |ids| == 1 && pos < 1 && forall i <- ids :: i < |row|
    ensures AllRead([OnePending(row)], ids) && |Scanned([OnePending(row)], ids, [ColumnIs(pos, v)], tx, 0, 0)| == 1
  {
    EqualityPayload(ids, pos, v);
    OnePendingScanned(row, ids, [ColumnIs(pos, v)], tx);
  }

  lemma AloneRejected(row: Row, a: nat, v: int, tx: Tx)
    requires a < |row| && row[a] == Int(v - 1)
    ensures AllRead([OnePending(row)], Whole(|row|))
    ensures |Remaining([OnePending(row)], Whole(|row|), [ColumnIs(a, v)], tx, 0, 0)| == 0
  {
    var narrow := Narrow(Whole(|row|), row);
    assert narrow[a] == Int(v - 1);
    OnePendingScanned(row, Whole(|row|), [ColumnIs(a, v)], tx);
    ColumnIsHolds(a, v, narrow);
  }

  /** Another column sits where the zone map is looked up: a row that passes is lost. */
  lemma MovedFails(cfg: Config, schema: string, table: string, n: nat, c: nat, a: nat, v: int)
    requires a < n && c < n && cfg.predicatePushdown && (schema, table) != (EMPTY_SCHEMA, EMPTY_TABLE)
    requires var ids := SelectColumns(cfg, n, c, a); a in Positions(ids) && Positions(ids)[a] != a
    ensures !SelectIsRight(cfg, schema, table, n, c, a, v)
  {
    var ids, tx := SelectColumns(cfg, n, c, a), Tx(1, 1);
    SelectPosition(cfg, n, c, a, v);
    var pos := Positions(ids)[a];
    OddScanned(n, ids, pos, v, tx);
    OddPasses(n, pos, a, v, tx);
    SelectFails(cfg, schema, table, n, c, a, v, Odd(n, pos, v), tx);
  }

  lemma OddPasses(n: nat, pos: nat, a: nat, v: int, tx: Tx)
    requires a < n && pos != a
    ensures Odd(n, pos, v).Valid() && AllRead([Odd(n, pos, v)], Whole(n))
    ensures |Remaining([Odd(n, pos, v)], Whole(n), [ColumnIs(a, v)], tx, 0, 0)| == 1
  {
    var g := Odd(n, pos, v);
    OddReads(n, pos, v, Whole(n));
    ColumnIsHolds(a, v, g.RowAt(Whole(n), 0));
    OneRowPicked(g, Whole(n), [ColumnIs(a, v)], tx);
    assert Remaining([g], Whole(n), [ColumnIs(a, v)], tx, 1, 0) == [];
  }

  /** For every choice of passes, `SELECT c FROM t WHERE a = v` returns the right rows on
      every table of n columns exactly under SelectCondition. */
  lemma SelectWhereIff(cfg: Config, schema: string, table: string, n: nat, c: nat, a: nat, v: int)
    requires a < n && c < n && (schema, table) != (EMPTY_SCHEMA, EMPTY_TABLE)
    ensures SelectIsRight(cfg, schema, table, n, c, a, v) <==> SelectCondition(cfg, n, c, a)
  {
    var ids := SelectColumns(cfg, n, c, a);
    SelectPosition(cfg, n, c, a, v);
    if SelectCondition(cfg, n, c, a) {
      SelectWorks(cfg, schema, table, n, c, a, v);
    } else if |ids| == 1 {
      AloneFails(cfg, schema, table, n, c, a, v);
    } else {
      MovedFails(cfg, schema, table, n, c, a, v);
    }
  }

  // ----- Aggregates are pruned but not remapped -----

  /** What a transaction sees of a table that holds one pending row. */
  function OneRowTable(schema: string, table: string, row: Row): Tables {
    map[(schema, table) := Table(|row|, [OnePending(row)])]
  }

  lemma OneRowSeen(schema: string, table: string, row: Row, tx: Tx)
    ensures TablesValid(OneRowTable(schema, table, row))
    ensures TableRows(Seen(OneRowTable(schema, table, row), tx), schema, table) == [row]
  {
    OnePendingReads(row, Whole(|row|));
    OnePendingScanned(row, Whole(|row|), [], tx);
    assert Narrow(Whole(|row|), row) == row;
  }

  lemma OneRowScanned(schema: string, table: string, row: Row, ids: seq<nat>, tx: Tx)
    requires forall i <- ids :: i < |row|
    ensures TablesValid(OneRowTable(schema, table, row))
    ensures PhysicalRows(Get(schema, table, ids, []), OneRowTable(schema, table, row), tx) == [Narrow(ids, row)]
  {
    OneRowSeen(schema, table, row, tx);
    OnePendingScanned(row, ids, [], tx);
    assert RemapList([], ids) == [];
  }

  lemma OneGroup(groups: seq<Expr>, row: Row)
    ensures AggregateRows(groups, [], [], [row]) == [EvalAll(groups, row)]
  {
    assert [row][..0] == [];
    assert GroupKeys(groups, [row]) == [EvalAll(groups, row)];
    var gs := GroupBy(groups, [], [row]);
    assert |gs| == 1 && gs[0].key == EvalAll(groups, row);
    assert GroupRow([], [], gs[0]) == EvalAll(groups, row);
    assert AggregateRows(groups, [], [], [row])[0] == EvalAll(groups, row);
  }

  /** `SELECT b FROM t WHERE c = v GROUP BY b` on columns a, b, c: the scan is narrowed to b
      and c, but the group expression still reads position one, so it groups by c. */
  lemma PrunedAggregateFails(schema: string, table: string, tx: Tx)
    ensures
      var plan := Aggregate([Ref(1, Int64)], [], [], Filter(ColumnIs(2, 5), Get(schema, table, [0, 1, 2], [])));
      var db := OneRowTable(schema, table, [Int(0), Int(7), Int(5)]);
      && TablesValid(db) && Denote(plan, Seen(db, tx)) == [[Int(7)]]
      && PhysicalRows(PruneColumns(plan, {}).plan, db, tx) == [[Int(5)]]
  {
    var groups, pred := [Ref(1, Int64)], ColumnIs(2, 5);
    var row: Row, narrow: Row := [Int(0), Int(7), Int(5)], [Int(7), Int(5)];
    ExampleRows();
    WhereDenotes(schema, table, row, [0, 1, 2], pred, groups, tx);
    NarrowedPlan(schema, table);
    SecondMoved(schema, table);
    WherePlanned(schema, table, row, [1, 2], pred, ColumnIs(1, 5), groups, tx);
  }

  lemma ExampleRows()
    ensures
      var row: Row, groups := [Int(0), Int(7), Int(5)], [Ref(1, Int64)];
      && Narrow([1, 2], row) == [Int(7), Int(5)] && EvalAll(groups, row) == [Int(7)]
      && EvalAll(groups, Narrow([1, 2], row)) == [Int(5)]
      && AllHold([ColumnIs(2, 5)], row) && AllHold([ColumnIs(1, 5)], Narrow([1, 2], row))
  {
    var row: Row := [Int(0), Int(7), Int(5)];
    assert Narrow([1, 2], row) == [Int(7), Int(5)];
    ColumnIsHolds(2, 5, row);
    ColumnIsHolds(1, 5, Narrow([1, 2], row));
  }

  /** Filtering, then grouping a table of one row that passes. */
  lemma WhereDenotes(schema: string, table: string, row: Row, ids: seq<nat>, pred: Expr, groups: seq<Expr>, tx: Tx)
    requires AllHold([pred], row)
    ensures TablesValid(OneRowTable(schema, table, row))
    ensures
      var plan := Aggregate(groups, [], [], Filter(pred, Get(schema, table, ids, [])));
      Denote(plan, Seen(OneRowTable(schema, table, row), tx)) == [EvalAll(groups, row)]
  {
    OneRowSeen(schema, table, row, tx);
    KeepNothing([row]);
    KeepOne([pred], row);
    var rows := Seen(OneRowTable(schema, table, row), tx);
    assert Denote(Filter(pred, Get(schema, table, ids, [])), rows) == [row];
    OneGroup(groups, row);
  }

  lemma WherePlanned(schema: string, table: string, row: Row, ids: seq<nat>, pred: Expr, moved: Expr,
      groups: seq<Expr>, tx: Tx)
    requires (forall i <- ids :: i < |row|) && Planned(Filter(pred, Get(schema, table, ids, [])), pred) == moved
    requires AllHold([moved], Narrow(ids, row))
    ensures TablesValid(OneRowTable(schema, table, row))
    ensures
      var plan := Aggregate(groups, [], [], Filter(pred, Get(schema, table, ids, [])));
      PhysicalRows(plan, OneRowTable(schema, table, row), tx) == [EvalAll(groups, Narrow(ids, row))]
  {
    var db, get := OneRowTable(schema, table, row), Get(schema, table, ids, []);
    OneRowScanned(schema, table, row, ids, tx);
    KeepOne([moved], Narrow(ids, row));
    assert PhysicalRows(Filter(pred, get), db, tx) == [Narrow(ids, row)];
    OneGroup(groups, Narrow(ids, row));
    assert PlannedAggs(Aggregate(groups, [], [], Filter(pred, get)), []) == [];
  }

  lemma SecondMoved(schema: string, table: string)
    ensures Planned(Filter(ColumnIs(2, 5), Get(schema, table, [1, 2], [])), ColumnIs(2, 5)) == ColumnIs(1, 5)
  {
    var ids := [1, 2];
    assert ids[1] == 2;
    assert 2 in Positions(ids) && Positions(ids)[2] == 1;
    ColumnIsMoved(2, 5, ids);
    assert TryFindLogicalGet(Get(schema, table, ids, [])).Some?;
  }

  lemma NarrowedPlan(schema: string, table: string)
    ensures
      var groups, pred := [Ref(1, Int64)], ColumnIs(2, 5);
      PruneColumns(Aggregate(groups, [], [], Filter(pred, Get(schema, table, [0, 1, 2], []))), {}).plan ==
      Aggregate(groups, [], [], Filter(pred, Get(schema, table, [1, 2], [])))
  {
    SelectRefs(1, 2, 5);
    assert AggRefs([]) == {};
    assert {1} + {} == {1};
    assert [0, 1, 2] == Whole(3);
    SelectPruned(schema, table, 3, 1, 2, [], {1} + {2});
  }

  /** An aggregate over a base plan keeps its rows when the scan's columns happen to sit at
      their own positions for every column it reads. */
  lemma AlignedAggregateKeepsRows(p: Plan, db: Tables, tx: Tx)
    requires p.Aggregate? && |p.aggs| == |p.aggTypes| && Base(p.child)
    requires TablesValid(db) && Bound(p.child, db) && Ready(p.child, db)
    requires Aligned(GetOf(p.child).columnIds, RefsOf(p.groups) + AggRefs(p.aggs))
    ensures PhysicalRows(p, db, tx) == Denote(p, Seen(db, tx))
  {
    BasePlanned(p.child, db, tx);
    assert PlannedAggs(p, p.aggs) == p.aggs;
    AlignedAggregate(p.groups, p.aggs, p.aggTypes, GetOf(p.child).columnIds, Denote(p.child, Seen(db, tx)));
  }

  /** Grouping by column c of a scan of the listed columns is right on every table that has
      them. */
  ghost predicate GroupByColumnWorks(schema: string, table: string, ids: seq<nat>, c: nat) {
    var plan := Aggregate([Ref(c, Int64)], [], [], Get(schema, table, ids, []));
    forall db: Tables, tx: Tx ::
      TablesValid(db) && (schema, table) in db && (forall i <- ids :: i < db[(schema, table)].width)
      ==> PhysicalRows(plan, db, tx) == Denote(plan, Seen(db, tx))
  }

  lemma MisalignedGroupByFails(schema: string, table: string, ids: seq<nat>, c: nat)
    requires c in ids && !Aligned(ids, {c})
    ensures !GroupByColumnWorks(schema, table, ids, c)
  {
    var groups, tx := [Ref(c, Int64)], Tx(1, 1);
    var row: Row := seq(MaxOf(ids) + 1, i => Int(i));
    OneRowDenotes(schema, table, row, ids, groups, tx);
    OneRowGrouped(schema, table, row, ids, groups, tx);
    assert EvalAll(groups, row)[0] == Int(c);
    assert EvalAll(groups, Narrow(ids, row))[0] != Int(c);
  }

  /** Grouping a table of one row. */
  lemma OneRowDenotes(schema: string, table: string, row: Row, ids: seq<nat>, groups: seq<Expr>, tx: Tx)
    ensures TablesValid(OneRowTable(schema, table, row))
    ensures
      var plan := Aggregate(groups, [], [], Get(schema, table, ids, []));
      Denote(plan, Seen(OneRowTable(schema, table, row), tx)) == [EvalAll(groups, row)]
  {
    OneRowSeen(schema, table, row, tx);
    KeepNothing([row]);
    OneGroup(groups, row);
  }

  lemma OneRowGrouped(schema: string, table: string, row: Row, ids: seq<nat>, groups: seq<Expr>, tx: Tx)
    requires forall i <- ids :: i < |row|
    ensures TablesValid(OneRowTable(schema, table, row))
    ensures
      var plan := Aggregate(groups, [], [], Get(schema, table, ids, []));
      PhysicalRows(plan, OneRowTable(schema, table, row), tx) == [EvalAll(groups, Narrow(ids, row))]
  {
    OneRowScanned(schema, table, row, ids, tx);
    OneGroup(groups, Narrow(ids, row));
    assert PlannedAggs(Aggregate(groups, [], [], Get(schema, table, ids, [])), []) == [];
  }

  /** Grouping by one column of a narrowed scan is right on every table exactly when that
      column kept its own position. */
  lemma GroupByColumnIff(schema: string, table: string, ids: seq<nat>, c: nat)
    requires c in ids
    ensures GroupByColumnWorks(schema, table, ids, c) <==> Aligned(ids, {c})
  {
    var groups := [Ref(c, Int64)];
    var plan := Aggregate(groups, [], [], Get(schema, table, ids, []));
    if Aligned(ids, {c}) {
      SingleList(groups[0], ids);
      assert RefsOf(groups) + AggRefs([]) == {c} && RefsOf([]) == {};
      forall db: Tables, tx: Tx |
        TablesValid(db) && (schema, table) in db && (forall i <- ids :: i < db[(schema, table)].width)
        ensures PhysicalRows(plan, db, tx) == Denote(plan, Seen(db, tx))
      {
        AlignedAggregateKeepsRows(plan, db, tx);
      }
    } else {
      MisalignedGroupByFails(schema, table, ids, c);
    }
  }
}
