/** Column pruning and the physical planner's column remapping.

    The optimizer narrows the columns a scan reads; the planner then rewrites every column
    reference from a table position to a position in the narrowed chunk.  Neither step is
    meaningful alone: the lemmas here say that the operators on narrow rows with rewritten
    references do what they do on full rows.  Module Execution puts them together. */
module Pruning {
  import opened Basics
  import opened Cells
  import opened Relational
  import opened Optimizer

  // ----- Pass 3: column pruning -----

  datatype Pruned = Pruned(plan: Plan, required: set<nat>)

  function KeepIds(ids: seq<nat>, required: set<nat>): (kept: seq<nat>)
    ensures forall c :: c in kept <==> c in ids && c in required
  {
    if ids == [] then []
    else
      var n := |ids| - 1;
      KeepIds(ids[..n], required) + if ids[n] in required then [ids[n]] else []
  }

  function NarrowIds(ids: seq<nat>, required: set<nat>): seq<nat> {
    var kept := KeepIds(ids, required);
    if kept == [] && ids != [] then [ids[0]] else kept
  }

  /** The required set is shared down the plan: every node adds its own references before
      visiting its child, so the scan sees the union. */
  function PruneColumns(p: Plan, required: set<nat>): Pruned {
    match p
    case Get(schema, table, ids, pushed) =>
      if required == {} then Pruned(p, required)
      else
        var req := required + RefsOf(pushed);
        Pruned(Get(schema, table, NarrowIds(ids, req), pushed), req)
    case Filter(pred, c) =>
      var below := PruneColumns(c, required + Refs(pred));
      Pruned(Filter(pred, below.plan), below.required)
    case Projection(es, c) =>
      var below := PruneColumns(c, required + RefsOf(es));
      Pruned(Projection(es, below.plan), below.required)
    case Limit(limit, offset, c) =>
      var below := PruneColumns(c, required);
      Pruned(Limit(limit, offset, below.plan), below.required)
    case Sort(keys, asc, c) =>
      var below := PruneColumns(c, required + RefsOf(keys));
      Pruned(Sort(keys, asc, below.plan), below.required)
    case Aggregate(groups, aggs, types, c) =>
      var below := PruneColumns(c, RefsOf(groups) + AggRefs(aggs));
      Pruned(Aggregate(groups, aggs, types, below.plan), required)
    case Join(_, _, _, _) => Pruned(p, required)
  }

  function AggRefs(aggs: seq<AggExpr>): set<nat> {
    set a, i | a in aggs && !a.isStar && i in Refs(a.arg) :: i
  }

  // ----- Physical planning -----

  /** The scan whose column list governs the references of this node, if there is one. */
  function TryFindLogicalGet(p: Plan): (g: Option<Plan>)
    ensures g.Some? ==> g.value.Get?
  {
    match p
    case Get(_, _, _, _) => Some(p)
    case Aggregate(_, _, _, _) => None
    case Join(_, _, _, _) => None
    case Filter(_, c) => TryFindLogicalGet(c)
    case Projection(_, c) => TryFindLogicalGet(c)
    case Limit(_, _, c) => TryFindLogicalGet(c)
    case Sort(_, _, c) => TryFindLogicalGet(c)
  }

  /** Table column to chunk position; a repeated column keeps its last position. */
  function Positions(ids: seq<nat>): (m: map<nat, nat>)
    ensures forall c :: c in m <==> c in ids
    ensures forall c <- m :: m[c] < |ids| && ids[m[c]] == c
  {
    if ids == [] then map[]
    else
      var n := |ids| - 1;
      Positions(ids[..n])[ids[n] := n]
  }

  function RemapColumnRefs(e: Expr, ids: seq<nat>): Expr { Remap(e, Positions(ids)) }

  function RemapList(es: seq<Expr>, ids: seq<nat>): seq<Expr> {
    seq(|es|, i requires 0 <= i < |es| => RemapColumnRefs(es[i], ids))
  }

  function Planned(p: Plan, e: Expr): Expr {
    var g := TryFindLogicalGet(p);
    if g.Some? then RemapColumnRefs(e, g.value.columnIds) else e
  }

  function PlannedList(p: Plan, es: seq<Expr>): seq<Expr> {
    var g := TryFindLogicalGet(p);
    if g.Some? then RemapList(es, g.value.columnIds) else es
  }

  function PlannedAggs(p: Plan, aggs: seq<AggExpr>): seq<AggExpr> {
    seq(|aggs|, i requires 0 <= i < |aggs| => aggs[i].(arg := Planned(p, aggs[i].arg)))
  }

  function Narrow(ids: seq<nat>, row: Row): Row {
    seq(|ids|, k requires 0 <= k < |ids| => CellAt(row, ids[k]))
  }

  function NarrowAll(ids: seq<nat>, rows: seq<Row>): seq<Row> {
    seq(|rows|, i requires 0 <= i < |rows| => Narrow(ids, rows[i]))
  }

  // ----- Plans of one table without aggregation -----

  /** Everything below the projection: rows are still table rows. */
  predicate Base(p: Plan) {
    match p
    case Get(_, _, _, _) => true
    case Filter(_, c) => Base(c)
    case Sort(_, _, c) => Base(c)
    case Limit(_, _, c) => Base(c)
    case _ => false
  }

  /** What the binder builds for a query on one table: a projection over a base plan, with
      at most limits above it. */
  predicate Query(p: Plan) {
    match p
    case Projection(_, c) => Base(c)
    case Limit(_, _, c) => Query(c)
    case _ => false
  }

  function GetOf(p: Plan): (g: Plan)
    requires Base(p) || Query(p)
    ensures g.Get? && TryFindLogicalGet(p) == Some(g)
  {
    match p
    case Get(_, _, _, _) => p
    case Filter(_, c) => GetOf(c)
    case Sort(_, _, c) => GetOf(c)
    case Limit(_, _, c) => GetOf(c)
    case Projection(_, c) => GetOf(c)
  }

  function AllRefs(p: Plan): set<nat>
    requires Base(p) || Query(p)
  {
    match p
    case Get(_, _, _, pushed) => RefsOf(pushed)
    case Filter(pred, c) => Refs(pred) + AllRefs(c)
    case Sort(keys, _, c) => RefsOf(keys) + AllRefs(c)
    case Limit(_, _, c) => AllRefs(c)
    case Projection(es, c) => RefsOf(es) + AllRefs(c)
  }

  function ScannedRows(p: Plan, db: Database): seq<Row>
    requires Base(p) || Query(p)
  {
    var g := GetOf(p);
    TableRows(db, g.schema, g.table)
  }

  /** The references are among the scanned columns, and those are columns of the table. */
  predicate Covered(ids: seq<nat>, refs: set<nat>, width: nat) {
    (forall c <- refs :: c in ids) && forall c <- ids :: c < width
  }

  // ----- Narrowing commutes with the operators -----

  ghost predicate Wide(ids: seq<nat>, rows: seq<Row>) { forall r <- rows, c <- ids :: c < |r| }

  lemma NarrowedValue(e: Expr, ids: seq<nat>, row: Row)
    requires forall c <- Refs(e) :: c in ids
    requires forall c <- ids :: c < |row|
    ensures Eval(RemapColumnRefs(e, ids), Narrow(ids, row)) == Eval(e, row)
  {
    RemapKeepsValue(e, Positions(ids), row, Narrow(ids, row));
  }

  lemma NarrowedValues(es: seq<Expr>, ids: seq<nat>, row: Row)
    requires forall c <- RefsOf(es) :: c in ids
    requires forall c <- ids :: c < |row|
    ensures EvalAll(RemapList(es, ids), Narrow(ids, row)) == EvalAll(es, row)
    ensures AllHold(RemapList(es, ids), Narrow(ids, row)) <==> AllHold(es, row)
  {
    var es' := RemapList(es, ids);
    forall i | 0 <= i < |es|
      ensures Eval(es'[i], Narrow(ids, row)) == Eval(es[i], row)
    {
      assert forall c <- Refs(es[i]) :: c in RefsOf(es);
      NarrowedValue(es[i], ids, row);
    }
    if AllHold(es, row) {
      forall e | e in es' ensures Holds(e, Narrow(ids, row)) {
        var i :| 0 <= i < |es'| && es'[i] == e;
        assert es[i] in es;
      }
    }
    if AllHold(es', Narrow(ids, row)) {
      forall e | e in es ensures Holds(e, row) {
        var i :| 0 <= i < |es| && es[i] == e;
        assert es'[i] in es';
      }
    }
  }

  lemma {:induction false} NarrowedKeep(es: seq<Expr>, ids: seq<nat>, rows: seq<Row>)
    requires (forall c <- RefsOf(es) :: c in ids) && Wide(ids, rows)
    ensures Keep(RemapList(es, ids), NarrowAll(ids, rows)) == NarrowAll(ids, Keep(es, rows))
  {
    if rows != [] {
      var n := |rows| - 1;
      NarrowedKeep(es, ids, rows[..n]);
      NarrowedValues(es, ids, rows[n]);
      assert NarrowAll(ids, rows)[..n] == NarrowAll(ids, rows[..n]);
    }
  }

  lemma {:induction false} NarrowedInsert(keys: seq<Expr>, asc: seq<bool>, ids: seq<nat>, x: Row, s: seq<Row>)
    requires |keys| == |asc| && (forall c <- RefsOf(keys) :: c in ids) && Wide(ids, [x]) && Wide(ids, s)
    ensures InsertRow(RemapList(keys, ids), asc, Narrow(ids, x), NarrowAll(ids, s)) ==
            NarrowAll(ids, InsertRow(keys, asc, x, s))
  {
    if s != [] {
      var n := |s| - 1;
      WideParts(ids, x, s);
      NarrowedInsert(keys, asc, ids, x, s[..n]);
      NarrowedCompare(keys, asc, ids, s[n], x);
      assert NarrowAll(ids, s)[..n] == NarrowAll(ids, s[..n]);
      NarrowAppend(ids, s, x);
      NarrowAppend(ids, InsertRow(keys, asc, x, s[..n]), s[n]);
    } else {
      NarrowAppend(ids, [], x);
    }
  }

  lemma WideParts(ids: seq<nat>, x: Row, s: seq<Row>)
    requires s != [] && Wide(ids, [x]) && Wide(ids, s)
    ensures Wide(ids, s[..|s| - 1]) && forall c <- ids :: c < |s[|s| - 1]| && c < |x|
  {
    assert x in [x] && s[|s| - 1] in s;
  }

  lemma NarrowAppend(ids: seq<nat>, rows: seq<Row>, x: Row)
    ensures NarrowAll(ids, rows + [x]) == NarrowAll(ids, rows) + [Narrow(ids, x)]
  {
  }

  lemma NarrowedCompare(keys: seq<Expr>, asc: seq<bool>, ids: seq<nat>, a: Row, b: Row)
    requires |keys| == |asc| && (forall c <- RefsOf(keys) :: c in ids) && forall c <- ids :: c < |a| && c < |b|
    ensures CompareRows(RemapList(keys, ids), asc, Narrow(ids, a), Narrow(ids, b)) == CompareRows(keys, asc, a, b)
  {
    NarrowedValues(keys, ids, a);
    NarrowedValues(keys, ids, b);
  }

  lemma {:induction false} NarrowedSort(keys: seq<Expr>, asc: seq<bool>, ids: seq<nat>, rows: seq<Row>)
    requires |keys| == |asc| && (forall c <- RefsOf(keys) :: c in ids) && Wide(ids, rows)
    ensures StableSort(RemapList(keys, ids), asc, NarrowAll(ids, rows)) ==
            NarrowAll(ids, StableSort(keys, asc, rows))
  {
    if rows != [] {
      var n := |rows| - 1;
      NarrowedSort(keys, asc, ids, rows[..n]);
      StableSortMembers(keys, asc, rows[..n]);
      NarrowedInsert(keys, asc, ids, rows[n], StableSort(keys, asc, rows[..n]));
      assert NarrowAll(ids, rows)[..n] == NarrowAll(ids, rows[..n]);
    }
  }

  lemma LimitMembers(limit: int, offset: int, rows: seq<Row>)
    ensures forall r <- LimitRows(limit, offset, rows) :: r in rows
  {
  }

  /** A base plan only ever shows rows of its table. */
  lemma {:induction false} BaseRows(p: Plan, db: Database)
    requires Base(p)
    ensures forall r <- Denote(p, db) :: r in ScannedRows(p, db)
  {
    match p
    case Get(_, _, _, pushed) => KeepMembers(pushed, ScannedRows(p, db));
    case Filter(pred, c) => BaseRows(c, db); KeepMembers([pred], Denote(c, db));
    case Sort(keys, asc, c) =>
      BaseRows(c, db);
      if |keys| == |asc| { StableSortMembers(keys, asc, Denote(c, db)); }
    case Limit(limit, offset, c) => BaseRows(c, db); LimitMembers(limit, offset, Denote(c, db));
  }

  lemma {:induction false} EmptyBase(p: Plan, db: Database)
    requires Base(p) && ScannedRows(p, db) == []
    ensures Denote(p, db) == []
  {
    match p
    case Get(_, _, _, _) =>
    case Filter(_, c) => EmptyBase(c, db);
    case Sort(_, _, c) => EmptyBase(c, db);
    case Limit(_, _, c) => EmptyBase(c, db);
  }

  // ----- Pruning then planning -----

  lemma SingleList(e: Expr, ids: seq<nat>)
    ensures RemapList([e], ids) == [RemapColumnRefs(e, ids)] && RefsOf([e]) == Refs(e)
  {
  }

  /** What pruning leaves in the scan: every required column it had, and no new one. */
  lemma {:induction false} PruneKeepsRequired(p: Plan, required: set<nat>)
    requires Base(p)
    ensures
      var r := PruneColumns(p, required);
      && Base(r.plan) && required <= r.required
      && GetOf(r.plan).schema == GetOf(p).schema && GetOf(r.plan).table == GetOf(p).table
      && (forall c :: c in GetOf(r.plan).columnIds ==> c in GetOf(p).columnIds)
      && (forall c :: c in GetOf(p).columnIds && (c in required || c in AllRefs(p)) ==> c in GetOf(r.plan).columnIds)
  {
    match p
    case Get(_, _, ids, _) =>
    case Filter(pred, c) => PruneKeepsRequired(c, required + Refs(pred));
    case Sort(keys, _, c) => PruneKeepsRequired(c, required + RefsOf(keys));
    case Limit(_, _, c) => PruneKeepsRequired(c, required);
  }

  lemma NarrowedLimit(limit: int, offset: int, ids: seq<nat>, rows: seq<Row>)
    ensures LimitRows(limit, offset, NarrowAll(ids, rows)) == NarrowAll(ids, LimitRows(limit, offset, rows))
  {
  }

  lemma {:induction false} PruneKeepsMeaning(p: Plan, required: set<nat>, db: Database)
    ensures Denote(PruneColumns(p, required).plan, db) == Denote(p, db)
  {
    match p
    case Get(_, _, _, _) =>
    case Filter(pred, c) => PruneKeepsMeaning(c, required + Refs(pred), db);
    case Projection(es, c) => PruneKeepsMeaning(c, required + RefsOf(es), db);
    case Limit(_, _, c) => PruneKeepsMeaning(c, required, db);
    case Sort(keys, _, c) => PruneKeepsMeaning(c, required + RefsOf(keys), db);
    case Aggregate(groups, aggs, _, c) => PruneKeepsMeaning(c, RefsOf(groups) + AggRefs(aggs), db);
    case Join(_, _, _, _) =>
  }

  lemma {:induction false} PruneKeepsRefs(p: Plan, required: set<nat>)
    requires Base(p)
    ensures Base(PruneColumns(p, required).plan) && AllRefs(PruneColumns(p, required).plan) == AllRefs(p)
  {
    match p
    case Get(_, _, _, _) =>
    case Filter(pred, c) => PruneKeepsRefs(c, required + Refs(pred));
    case Sort(keys, _, c) => PruneKeepsRefs(c, required + RefsOf(keys));
    case Limit(_, _, c) => PruneKeepsRefs(c, required);
  }

  lemma {:induction false} PrunedCover(p: Plan, required: set<nat>, width: nat)
    requires Query(p) && Covered(GetOf(p).columnIds, AllRefs(p), width)
    ensures
      var q := PruneColumns(p, required).plan;
      && Query(q) && AllRefs(q) == AllRefs(p)
      && GetOf(q).schema == GetOf(p).schema && GetOf(q).table == GetOf(p).table
      && Covered(GetOf(q).columnIds, AllRefs(q), width)
  {
    match p
    case Projection(es, c) =>
      PruneKeepsRequired(c, required + RefsOf(es));
      PruneKeepsRefs(c, required + RefsOf(es));
    case Limit(_, _, c) => PrunedCover(c, required, width);
  }

  lemma {:induction false} PrunedScan(p: Plan, required: set<nat>)
    requires Base(p) || Query(p)
    ensures
      var q := PruneColumns(p, required).plan;
      && (Base(p) ==> Base(q)) && (Query(p) ==> Query(q))
      && GetOf(q).schema == GetOf(p).schema && GetOf(q).table == GetOf(p).table
  {
    match p
    case Get(_, _, _, _) =>
    case Filter(pred, c) => PrunedScan(c, required + Refs(pred));
    case Sort(keys, _, c) => PrunedScan(c, required + RefsOf(keys));
    case Limit(_, _, c) => PrunedScan(c, required);
    case Projection(es, c) => PrunedScan(c, required + RefsOf(es));
  }

  // ----- The whole optimizer -----

  function PrunePass(cfg: Config, p: Plan): Plan {
    if cfg.columnPruning then PruneColumns(p, {}).plan else p
  }

  function Optimize(cfg: Config, p: Plan): Plan
    requires PlanTyped(p)
  {
    MergePass(cfg, PrunePass(cfg, PushPass(cfg, FoldPass(cfg, p))))
  }

  lemma {:induction false} FoldRefs(e: Expr)
    requires WellTyped(e)
    ensures Refs(FoldExpr(e)) <= Refs(e)
  {
    match e
    case Bin(_, _, l, r) => FoldRefs(l); FoldRefs(r);
    case Un(_, _, c) => FoldRefs(c);
    case _ =>
  }

  lemma FoldRefsOf(es: seq<Expr>)
    requires forall e <- es :: WellTyped(e)
    ensures RefsOf(FoldAll(es)) <= RefsOf(es)
  {
    forall i | 0 <= i < |es| ensures Refs(FoldAll(es)[i]) <= RefsOf(es) { FoldRefs(es[i]); }
  }

  /** The scan after folding is the same scan, or the empty one. */
  ghost predicate SameScan(g: Plan, h: Plan)
    requires g.Get? && h.Get?
  {
    || (h.schema == g.schema && h.table == g.table && h.columnIds == g.columnIds)
    || (h.schema == EMPTY_SCHEMA && h.table == EMPTY_TABLE)
  }

  lemma {:induction false} FoldKeepsShape(p: Plan)
    requires PlanTyped(p) && (Base(p) || Query(p))
    ensures Base(p) ==> Base(FoldPlan(p))
    ensures Query(p) ==> Query(FoldPlan(p))
    ensures AllRefs(FoldPlan(p)) <= AllRefs(p) && SameScan(GetOf(p), GetOf(FoldPlan(p)))
  {
    match p
    case Get(_, _, _, _) =>
    case Filter(pred, c) => FoldKeepsShape(c); FoldRefs(pred);
    case Sort(_, _, c) => FoldKeepsShape(c);
    case Limit(_, _, c) => FoldKeepsShape(c);
    case Projection(es, c) => FoldKeepsShape(c); FoldRefsOf(es);
  }

  lemma RefsOfConcat(a: seq<Expr>, b: seq<Expr>)
    ensures RefsOf(a + b) == RefsOf(a) + RefsOf(b)
  {
    assert forall e :: e in a + b <==> e in a || e in b;
  }

  lemma {:induction false} PushKeepsShape(p: Plan, pending: seq<Expr>)
    requires Base(p) || (Query(p) && pending == [])
    ensures
      var q := Pushdown(p, pending).plan;
      && (Base(p) ==> Base(q)) && (Query(p) ==> Query(q))
      && AllRefs(q) <= AllRefs(p) + RefsOf(pending) && SameScan(GetOf(p), GetOf(q))
  {
    match p
    case Get(_, _, _, pushed) => RefsOfConcat(pushed, pending);
    case Filter(pred, c) =>
      PushKeepsShape(c, pending + [pred]);
      RefsOfConcat(pending, [pred]);
      SingleList(pred, []);
    case Sort(_, _, c) => PushKeepsShape(c, pending);
    case Limit(_, _, c) => PushKeepsShape(c, pending);
    case Projection(_, c) => PushKeepsShape(c, pending);
  }

  lemma {:induction false} MergeKeepsShape(p: Plan)
    requires Base(p) || Query(p)
    ensures
      var q := MergeFilters(p);
      && (Base(p) ==> Base(q)) && (Query(p) ==> Query(q))
      && AllRefs(q) == AllRefs(p) && GetOf(q) == GetOf(p)
  {
    match p
    case Get(_, _, _, _) =>
    case Filter(pred, c) =>
      MergeKeepsShape(c);
      var c' := MergeFilters(c);
      if c'.Filter? {
        assert GetOf(c') == GetOf(c'.child);
      }
    case Sort(_, _, c) => MergeKeepsShape(c);
    case Limit(_, _, c) => MergeKeepsShape(c);
    case Projection(_, c) => MergeKeepsShape(c);
  }

  // ----- When an unremapped aggregate is still right -----

  /** Reading position c of the narrow row is reading column c. */
  predicate Aligned(ids: seq<nat>, refs: set<nat>) {
    forall c <- refs :: c < |ids| && ids[c] == c
  }

  lemma {:induction false} AlignedValue(e: Expr, ids: seq<nat>, row: Row)
    requires Aligned(ids, Refs(e))
    ensures Eval(e, Narrow(ids, row)) == Eval(e, row)
  {
    match e
    case Ref(idx, _) => assert idx in Refs(e);
    case Lit(_, _) =>
    case Bin(_, _, l, r) => AlignedValue(l, ids, row); AlignedValue(r, ids, row);
    case Un(_, _, c) => AlignedValue(c, ids, row);
    case Cast(_, _, c) => AlignedValue(c, ids, row);
  }

  lemma AlignedValues(es: seq<Expr>, ids: seq<nat>, row: Row)
    requires Aligned(ids, RefsOf(es))
    ensures EvalAll(es, Narrow(ids, row)) == EvalAll(es, row)
  {
    forall i | 0 <= i < |es| ensures Eval(es[i], Narrow(ids, row)) == Eval(es[i], row) {
      assert forall c <- Refs(es[i]) :: c in RefsOf(es);
      AlignedValue(es[i], ids, row);
    }
  }

  lemma {:induction false} AlignedKeys(groups: seq<Expr>, ids: seq<nat>, rows: seq<Row>)
    requires Aligned(ids, RefsOf(groups))
    ensures GroupKeys(groups, NarrowAll(ids, rows)) == GroupKeys(groups, rows)
  {
    if rows != [] {
      var n := |rows| - 1;
      AlignedKeys(groups, ids, rows[..n]);
      AlignedValues(groups, ids, rows[n]);
      assert NarrowAll(ids, rows)[..n] == NarrowAll(ids, rows[..n]);
    }
  }

  lemma {:induction false} AlignedGroup(groups: seq<Expr>, key: Row, ids: seq<nat>, rows: seq<Row>)
    requires Aligned(ids, RefsOf(groups))
    ensures GroupRows(groups, key, NarrowAll(ids, rows)) == NarrowAll(ids, GroupRows(groups, key, rows))
  {
    if rows != [] {
      var n := |rows| - 1;
      AlignedGroup(groups, key, ids, rows[..n]);
      AlignedValues(groups, ids, rows[n]);
      assert NarrowAll(ids, rows)[..n] == NarrowAll(ids, rows[..n]);
    }
  }

  lemma {:induction false} AlignedFold(a: AggExpr, ids: seq<nat>, rows: seq<Row>)
    requires a.isStar || Aligned(ids, Refs(a.arg))
    ensures FoldAgg(a, NarrowAll(ids, rows)) == FoldAgg(a, rows)
  {
    if rows != [] {
      var n := |rows| - 1;
      AlignedFold(a, ids, rows[..n]);
      if !a.isStar { AlignedValue(a.arg, ids, rows[n]); }
      assert NarrowAll(ids, rows)[..n] == NarrowAll(ids, rows[..n]);
    }
  }

  lemma AlignedAggregate(groups: seq<Expr>, aggs: seq<AggExpr>, types: seq<TypeId>, ids: seq<nat>, rows: seq<Row>)
    requires |aggs| == |types| && Aligned(ids, RefsOf(groups) + AggRefs(aggs))
    ensures AggregateRows(groups, aggs, types, NarrowAll(ids, rows)) == AggregateRows(groups, aggs, types, rows)
  {
    var narrow := NarrowAll(ids, rows);
    AlignedKeys(groups, ids, rows);
    var keys := GroupKeys(groups, rows);
    forall g, j | 0 <= g < |keys| && 0 <= j < |aggs|
      ensures FoldAgg(aggs[j], GroupRows(groups, keys[g], narrow)) == FoldAgg(aggs[j], GroupRows(groups, keys[g], rows))
    {
      AlignedGroup(groups, keys[g], ids, rows);
      assert !aggs[j].isStar ==> forall c <- Refs(aggs[j].arg) :: c in AggRefs(aggs);
      AlignedFold(aggs[j], ids, GroupRows(groups, keys[g], rows));
    }
    var a, b := GroupBy(groups, aggs, narrow), GroupBy(groups, aggs, rows);
    forall g | 0 <= g < |keys| ensures a[g] == b[g] {
      assert a[g].states == b[g].states;
    }
    assert a == b;
  }

  function MaxOf(ids: seq<nat>): (m: nat)
    ensures forall c <- ids :: c <= m
  {
    if ids == [] then 0
    else
      var m := MaxOf(ids[..|ids| - 1]);
      assert ids == ids[..|ids| - 1] + [ids[|ids| - 1]];
      if ids[|ids| - 1] > m then ids[|ids| - 1] else m
  }
}
