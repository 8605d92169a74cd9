/** Logical plans, their meaning as row sequences, and the rewriting passes.

    Constant folding, predicate pushdown and filter merge are the passes of the logical
    optimizer that change expressions and move filters.  Column pruning, which only makes
    sense together with the physical planner's remapping, is in module Pruning. */
module Optimizer {
  import opened Cells
  import opened Relational
  import opened Scalars
  import SortOrder

  datatype Plan =
    | Get(schema: string, table: string, columnIds: seq<nat>, pushed: seq<Expr>)
    | Filter(pred: Expr, child: Plan)
    | Projection(exprs: seq<Expr>, child: Plan)
    | Limit(limit: int, offset: int, child: Plan)
    | Sort(keys: seq<Expr>, asc: seq<bool>, child: Plan)
    | Aggregate(groups: seq<Expr>, aggs: seq<AggExpr>, aggTypes: seq<TypeId>, child: Plan)
    | Join(leftKeys: seq<KeyCol>, rightKeys: seq<KeyCol>, left: Plan, right: Plan)

  type Database = map<(string, string), seq<Row>>

  function TableRows(db: Database, schema: string, table: string): seq<Row> {
    if (schema, table) in db then db[(schema, table)] else []
  }

  /** Meaning of a plan.  Column references address the columns of the table itself; the
      filters pushed into a scan are read as a conjunction. */
  function Denote(p: Plan, db: Database): seq<Row> {
    match p
    case Get(schema, table, _, pushed) => Keep(pushed, TableRows(db, schema, table))
    case Filter(pred, c) => Keep([pred], Denote(c, db))
    case Projection(es, c) => Project(es, Denote(c, db))
    case Limit(limit, offset, c) => LimitRows(limit, offset, Denote(c, db))
    case Sort(keys, asc, c) =>
      if |keys| == |asc| then StableSort(keys, asc, Denote(c, db)) else Denote(c, db)
    case Aggregate(groups, aggs, types, c) =>
      if |aggs| == |types| then AggregateRows(groups, aggs, types, Denote(c, db)) else []
    case Join(lk, rk, l, r) => EquiJoin(lk, rk, Denote(l, db), Denote(r, db))
  }

  /** The table name of the plan that replaces a filter folded to false. */
  const EMPTY_SCHEMA := ""
  const EMPTY_TABLE := "__empty__"

  ghost predicate NoEmptyTable(db: Database) { (EMPTY_SCHEMA, EMPTY_TABLE) !in db }

  // ----- Typing, as the binder establishes it -----

  datatype Class = IntClass | FloatClass | BoolClass | StrClass | NullClass

  function ClassOf(ty: TypeId): Class {
    if ty.IsInteger() then IntClass
    else if ty.IsFloat() then FloatClass
    else if ty.Boolean? then BoolClass
    else if ty.Varchar? then StrClass
    else NullClass
  }

  predicate NumericClass(c: Class) { c.IntClass? || c.FloatClass? }

  predicate LitTyped(v: Cell, ty: TypeId) {
    v.Null? ||
    match ClassOf(ty)
    case IntClass => v.Int?
    case FloatClass => v.Float?
    case BoolClass => v == Int(0) || v == Int(1)
    case StrClass => v.Str?
    case NullClass => false
  }

  predicate WellTyped(e: Expr) {
    match e
    case Ref(_, _) => true
    case Lit(v, ty) => LitTyped(v, ty)
    case Bin(op, ty, l, r) =>
      && WellTyped(l) && WellTyped(r)
      && var lc, rc := ClassOf(l.ty), ClassOf(r.ty);
         if op.IsArithmetic() then
           && NumericClass(lc) && NumericClass(rc)
           && ty == if lc.IntClass? && rc.IntClass? then Int64 else Float64
         else if op.IsComparison() then
           ty == Boolean && (lc == rc || (NumericClass(lc) && NumericClass(rc)))
         else ty == Boolean && lc.BoolClass? && rc.BoolClass?
    case Un(op, ty, c) =>
      && WellTyped(c) && ClassOf(ty) == ClassOf(c.ty)
      && if op.Not? then ClassOf(c.ty).BoolClass? else NumericClass(ClassOf(c.ty))
    case Cast(_, _, c) => WellTyped(c)
  }

  predicate PlanTyped(p: Plan) {
    match p
    case Get(_, _, _, _) => true
    case Filter(pred, c) => WellTyped(pred) && PlanTyped(c)
    case Projection(es, c) => (forall e <- es :: WellTyped(e)) && PlanTyped(c)
    case Limit(_, _, c) => PlanTyped(c)
    case Sort(_, _, c) => PlanTyped(c)
    case Aggregate(_, _, _, c) => PlanTyped(c)
    case Join(_, _, l, r) => PlanTyped(l) && PlanTyped(r)
  }

  // ----- Pass 1: constant folding -----

  predicate IsNumericLit(e: Expr)
    requires e.Lit?
  {
    !e.value.Null? && e.ty.IsNumeric()
  }

  predicate IsBoolLit(e: Expr)
    requires e.Lit?
  {
    !e.value.Null? && e.ty.Boolean?
  }

  function IntLit(v: int): Expr { Lit(Int(v), Int64) }

  function FloatLit(v: real): Expr { Lit(Float(v), Float64) }

  function BoolLit(b: bool): Expr { Lit(BoolCell(b), Boolean) }

  /** Fold a binary node whose children are present literals; e is the unfolded node. */
  function FoldLits(e: Expr): (r: Expr)
    requires e.Bin? && e.left.Lit? && e.right.Lit?
    requires WellTyped(e) && !e.left.value.Null? && !e.right.value.Null?
    ensures WellTyped(r) && ClassOf(r.ty) == ClassOf(e.ty)
  {
    var op, l, r := e.op, e.left, e.right;
    assert WellTyped(l) && WellTyped(r);
    if op.IsArithmetic() then
      if !IsNumericLit(l) || !IsNumericLit(r) then e
      else if l.ty.IsFloat() || r.ty.IsFloat() then
        var lv, rv := ToReal(l.value), ToReal(r.value);
        if op.Div? && rv == 0.0 then e
        else FloatLit(if op.Add? then lv + rv else if op.Sub? then lv - rv else if op.Mul? then lv * rv else lv / rv)
      else
        var lv, rv := l.value.i, r.value.i;
        if op.Div? && rv == 0 then e
        else
          IntLit(if op.Add? then lv + rv else if op.Sub? then lv - rv else if op.Mul? then lv * rv
                 else TruncDiv(lv, rv))
    else if op.IsComparison() then
      if !IsNumericLit(l) || !IsNumericLit(r) then
        if op.Eq? && !IsBoolLit(l) && !IsBoolLit(r) then BoolLit(l.value == r.value) else e
      else if l.ty.IsFloat() || r.ty.IsFloat() then
        var lv, rv := ToReal(l.value), ToReal(r.value);
        BoolLit(Compare(op, lv, rv, lv < rv, rv < lv))
      else
        var lv, rv := l.value.i, r.value.i;
        BoolLit(Compare(op, lv, rv, lv < rv, rv < lv))
    else if !IsBoolLit(l) || !IsBoolLit(r) then e
    else
      var lv, rv := l.value.i != 0, r.value.i != 0;
      BoolLit(if op.And? then lv && rv else lv || rv)
  }

  /** Bottom-up folding; a cast is left alone, and so is what it wraps. */
  function FoldExpr(e: Expr): (r: Expr)
    requires WellTyped(e)
    ensures WellTyped(r) && ClassOf(r.ty) == ClassOf(e.ty)
  {
    match e
    case Bin(op, ty, l, r) =>
      var node := Bin(op, ty, FoldExpr(l), FoldExpr(r));
      if !node.left.Lit? || !node.right.Lit? then node
      else if node.left.value.Null? || node.right.value.Null? then node
      else FoldLits(node)
    case Un(op, ty, c) =>
      var node := Un(op, ty, FoldExpr(c));
      if !node.child.Lit? || node.child.value.Null? then node
      else if op.Not? && IsBoolLit(node.child) then BoolLit(node.child.value.i == 0)
      else if op.Neg? && IsNumericLit(node.child) then
        if node.child.ty.IsFloat() then FloatLit(-node.child.value.f) else IntLit(-node.child.value.i)
      else node
    case _ => e
  }

  function FoldAll(es: seq<Expr>): (r: seq<Expr>)
    requires forall e <- es :: WellTyped(e)
    ensures |r| == |es| && forall i :: 0 <= i < |r| ==> r[i] == FoldExpr(es[i])
  {
    seq(|es|, i requires 0 <= i < |es| => FoldExpr(es[i]))
  }

  function FoldPlan(p: Plan): Plan
    requires PlanTyped(p)
  {
    match p
    case Filter(pred, c) =>
      var c' := FoldPlan(c);
      var pred' := FoldExpr(pred);
      if pred'.Lit? && IsBoolLit(pred') then
        if pred'.value == Int(1) then c' else Get(EMPTY_SCHEMA, EMPTY_TABLE, [], [])
      else Filter(pred', c')
    case Projection(es, c) => Projection(FoldAll(es), FoldPlan(c))
    case Get(_, _, _, _) => p
    case Limit(limit, offset, c) => Limit(limit, offset, FoldPlan(c))
    case Sort(keys, asc, c) => Sort(keys, asc, FoldPlan(c))
    case Aggregate(groups, aggs, types, c) => Aggregate(groups, aggs, types, FoldPlan(c))
    case Join(lk, rk, l, r) => Join(lk, rk, FoldPlan(l), FoldPlan(r))
  }

  lemma FoldLitsKeepsValue(e: Expr, row: Row)
    requires e.Bin? && e.left.Lit? && e.right.Lit?
    requires WellTyped(e) && !e.left.value.Null? && !e.right.value.Null?
    ensures Eval(FoldLits(e), row) == Eval(e, row)
  {
    var l, r := e.left.value, e.right.value;
    assert Eval(e, row) == ApplyBinary(e.op, e.ty, l, r);
    if e.op.IsArithmetic() {
      FoldArithmetic(e, row);
    } else if e.op.IsComparison() {
      FoldComparison(e, row);
    }
  }

  lemma FoldArithmetic(e: Expr, row: Row)
    requires e.Bin? && e.left.Lit? && e.right.Lit? && e.op.IsArithmetic()
    requires WellTyped(e) && !e.left.value.Null? && !e.right.value.Null?
    ensures Eval(FoldLits(e), row) == ApplyBinary(e.op, e.ty, e.left.value, e.right.value)
  {
    if e.left.value.Int? && e.right.value.Int? && (e.op.Div? ==> e.right.value.i != 0) {
      IntArithmeticFolds(e.op, e.ty, e.left.value.i, e.right.value.i);
    }
  }

  lemma FoldComparison(e: Expr, row: Row)
    requires e.Bin? && e.left.Lit? && e.right.Lit? && e.op.IsComparison()
    requires WellTyped(e) && !e.left.value.Null? && !e.right.value.Null?
    ensures Eval(FoldLits(e), row) == ApplyBinary(e.op, e.ty, e.left.value, e.right.value)
  {
  }

  /** Folding an expression never changes its value, on any row. */
  lemma {:induction false} FoldExprKeepsValue(e: Expr, row: Row)
    requires WellTyped(e)
    ensures Eval(FoldExpr(e), row) == Eval(e, row)
  {
    match e
    case Bin(op, ty, l, r) =>
      FoldExprKeepsValue(l, row);
      FoldExprKeepsValue(r, row);
      var node := Bin(op, ty, FoldExpr(l), FoldExpr(r));
      if node.left.Lit? && node.right.Lit? && !node.left.value.Null? && !node.right.value.Null? {
        FoldLitsKeepsValue(node, row);
      }
    case Un(op, ty, c) => FoldExprKeepsValue(c, row);
    case _ =>
  }

  lemma KeepAll(e: Expr, rows: seq<Row>)
    requires forall r <- rows :: Holds(e, r)
    ensures Keep([e], rows) == rows
  {
    if rows != [] {
      KeepAll(e, rows[..|rows| - 1]);
    }
  }

  lemma KeepNone(e: Expr, rows: seq<Row>)
    requires forall r <- rows :: !Holds(e, r)
    ensures Keep([e], rows) == []
  {
    if rows != [] {
      KeepNone(e, rows[..|rows| - 1]);
    }
  }

  /** Folding a whole plan keeps its rows, including the filters it removes. */
  lemma {:induction false} FoldPlanKeepsRows(p: Plan, db: Database)
    requires PlanTyped(p) && NoEmptyTable(db)
    ensures Denote(FoldPlan(p), db) == Denote(p, db)
  {
    match p
    case Get(_, _, _, _) =>
    case Filter(pred, c) =>
      FoldPlanKeepsRows(c, db);
      var rows, pred' := Denote(c, db), FoldExpr(pred);
      forall r: Row ensures Holds(pred', r) == Holds(pred, r) { FoldExprKeepsValue(pred, r); }
      assert forall r: Row :: AllHold([pred'], r) == AllHold([pred], r) by {
        assert pred' in [pred'] && pred in [pred];
      }
      KeepAgrees([pred'], [pred], rows);
      if pred'.Lit? && IsBoolLit(pred') {
        if pred'.value == Int(1) {
          KeepAll(pred', rows);
        } else {
          KeepNone(pred', rows);
        }
      }
    case Projection(es, c) =>
      FoldPlanKeepsRows(c, db);
      forall r: Row ensures EvalAll(FoldAll(es), r) == EvalAll(es, r) {
        forall i | 0 <= i < |es| { FoldExprKeepsValue(es[i], r); }
      }
    case Limit(_, _, c) => FoldPlanKeepsRows(c, db);
    case Sort(_, _, c) => FoldPlanKeepsRows(c, db);
    case Aggregate(_, _, _, c) => FoldPlanKeepsRows(c, db);
    case Join(_, _, l, r) => FoldPlanKeepsRows(l, db); FoldPlanKeepsRows(r, db);
  }

  // ----- Pass 2: predicate pushdown -----

  function And2(l: Expr, r: Expr): Expr { Bin(And, Boolean, l, r) }

  /** Left-associated conjunction of a non-empty list. */
  function AndAll(es: seq<Expr>): Expr
    requires es != []
  {
    if |es| == 1 then es[0] else And2(AndAll(es[..|es| - 1]), es[|es| - 1])
  }

  method CombinePredicates(pending: seq<Expr>) returns (combined: Expr, drained: seq<Expr>)
    requires pending != []
    ensures combined == AndAll(pending) && drained == []
  {
    combined := pending[0];
    for i := 1 to |pending|
      invariant combined == AndAll(pending[..i])
    {
      assert pending[..i + 1][..i] == pending[..i];
      combined := And2(combined, pending[i]);
    }
    assert pending[..|pending|] == pending;
    drained := [];
  }

  /** The strict three-valued AND is true exactly when both sides are. */
  lemma AndHolds(l: Expr, r: Expr, row: Row)
    ensures Holds(And2(l, r), row) <==> Holds(l, row) && Holds(r, row)
  {
  }

  lemma {:induction false} AndAllHolds(es: seq<Expr>, row: Row)
    requires es != []
    ensures Holds(AndAll(es), row) <==> AllHold(es, row)
  {
    var n := |es| - 1;
    assert es == es[..n] + [es[n]];
    if |es| > 1 {
      AndAllHolds(es[..n], row);
      AndHolds(AndAll(es[..n]), es[n], row);
    }
  }

  /** The plan with the pending predicates attached, and what is left of the pending list. */
  datatype Pushed = Pushed(plan: Plan, pending: seq<Expr>)

  function Attach(p: Plan, pending: seq<Expr>): Plan {
    if pending == [] then p else Filter(AndAll(pending), p)
  }

  /** Predicates travel down through everything except a join or an aggregate, and stop
      in the scan.  What lies below a join or an aggregate is not visited. */
  function Pushdown(p: Plan, pending: seq<Expr>): (r: Pushed)
    ensures r.pending == []
  {
    match p
    case Get(schema, table, cols, pushed) => Pushed(Get(schema, table, cols, pushed + pending), [])
    case Filter(pred, c) =>
      var below := Pushdown(c, pending + [pred]);
      Pushed(Attach(below.plan, below.pending), [])
    case Aggregate(_, _, _, _) => Pushed(Attach(p, pending), [])
    case Join(_, _, _, _) => Pushed(Attach(p, pending), [])
    case Projection(es, c) =>
      var below := Pushdown(c, pending);
      Pushed(Attach(Projection(es, below.plan), below.pending), [])
    case Limit(limit, offset, c) =>
      var below := Pushdown(c, pending);
      Pushed(Attach(Limit(limit, offset, below.plan), below.pending), [])
    case Sort(keys, asc, c) =>
      var below := Pushdown(c, pending);
      Pushed(Attach(Sort(keys, asc, below.plan), below.pending), [])
  }

  /** A limit that passes either nothing or everything. */
  predicate TrivialLimit(limit: int, offset: int) { limit == 0 || (limit < 0 && offset <= 0) }

  /** No filter sits above a projection or a limit that cuts (anywhere pushdown looks).
      `above` says that a filter sits above p. */
  predicate Placed(p: Plan, above: bool) {
    match p
    case Get(_, _, _, _) => true
    case Aggregate(_, _, _, _) => true
    case Join(_, _, _, _) => true
    case Filter(_, c) => Placed(c, true)
    case Projection(_, c) => !above && Placed(c, false)
    case Limit(limit, offset, c) => (above ==> TrivialLimit(limit, offset)) && Placed(c, above)
    case Sort(_, _, c) => Placed(c, above)
  }

  /** The keys of every sort below a filter have one kind of value each. */
  ghost predicate SortsTyped(p: Plan, above: bool, db: Database) {
    match p
    case Get(_, _, _, _) => true
    case Aggregate(_, _, _, _) => true
    case Join(_, _, _, _) => true
    case Filter(_, c) => SortsTyped(c, true, db)
    case Projection(_, c) => SortsTyped(c, false, db)
    case Limit(_, _, c) => SortsTyped(c, above, db)
    case Sort(keys, _, c) => (above ==> SortOrder.OneKind(keys, Denote(c, db))) && SortsTyped(c, above, db)
  }

  lemma AttachKeepsRows(p: Plan, pending: seq<Expr>, db: Database)
    ensures Denote(Attach(p, pending), db) == Keep(pending, Denote(p, db))
  {
    if pending == [] {
      KeepNothing(Denote(p, db));
    } else {
      forall r: Row ensures AllHold([AndAll(pending)], r) <==> AllHold(pending, r) {
        AndAllHolds(pending, r);
      }
      KeepAgrees([AndAll(pending)], pending, Denote(p, db));
    }
  }

  lemma {:induction false} PlacedBelow(p: Plan, db: Database)
    requires Placed(p, true) && SortsTyped(p, true, db)
    ensures Placed(p, false) && SortsTyped(p, false, db)
  {
    match p
    case Limit(_, _, c) => PlacedBelow(c, db);
    case Sort(_, _, c) => PlacedBelow(c, db);
    case _ =>
  }

  /** Pushing predicates down denotes filtering by them on top. */
  lemma {:induction false} PushdownKeepsRows(p: Plan, pending: seq<Expr>, db: Database)
    requires Placed(p, pending != []) && SortsTyped(p, pending != [], db)
    ensures Denote(Pushdown(p, pending).plan, db) == Keep(pending, Denote(p, db))
  {
    match p
    case Get(schema, table, _, pushed) =>
      var rows := TableRows(db, schema, table);
      KeepTwice(pending, pushed, rows);
      KeepAgrees(pushed + pending, pending + pushed, rows);
    case Filter(pred, c) =>
      PushdownKeepsRows(c, pending + [pred], db);
      KeepTwice(pending, [pred], Denote(c, db));
    case Aggregate(_, _, _, _) => AttachKeepsRows(p, pending, db);
    case Join(_, _, _, _) => AttachKeepsRows(p, pending, db);
    case Projection(es, c) =>
      PushdownKeepsRows(c, [], db);
      KeepNothing(Denote(c, db));
      KeepNothing(Denote(p, db));
    case Limit(limit, offset, c) =>
      PushdownKeepsRows(c, pending, db);
      if pending == [] {
        KeepNothing(Denote(c, db));
        KeepNothing(Denote(p, db));
      }
    case Sort(keys, asc, c) =>
      PushdownKeepsRows(c, pending, db);
      if pending == [] {
        KeepNothing(Denote(c, db));
        KeepNothing(Denote(p, db));
      } else if |keys| == |asc| {
        SortOrder.FilterSorted(pending, keys, asc, Denote(c, db));
      }
  }

  // ----- When pushing past a limit is sound -----

  function Copies(v: int, n: nat): seq<Row> { seq(n, _ => [Int(v)]) }

  /** The predicate `column i = v`. */
  function ColumnIs(i: nat, v: int): Expr { Bin(Eq, Boolean, Ref(i, Int64), Lit(Int(v), Int64)) }

  const IS_ONE := ColumnIs(0, 1)

  lemma {:induction false} KeepCopies(v: int, n: nat)
    ensures Keep([IS_ONE], Copies(v, n)) == if v == 1 then Copies(v, n) else []
  {
    if n > 0 {
      KeepCopies(v, n - 1);
      var rows := Copies(v, n);
      assert rows[..n - 1] == Copies(v, n - 1);
      assert Eval(IS_ONE, rows[n - 1]) == BoolCell(v == 1);
      assert AllHold([IS_ONE], rows[n - 1]) <==> v == 1 by { assert IS_ONE in [IS_ONE]; }
      assert rows == rows[..n - 1] + [rows[n - 1]];
    }
  }

  /** Rows that tell a filter above the limit from a filter below it. */
  function LimitWitness(limit: int, offset: int): seq<Row> {
    var skip := Max(0, offset);
    if limit > 0 then Copies(0, skip + limit) + Copies(1, skip + 1) else Copies(0, skip) + Copies(1, 1)
  }

  lemma LimitWitnessDiffers(limit: int, offset: int)
    requires !TrivialLimit(limit, offset)
    ensures var rows := LimitWitness(limit, offset);
      LimitRows(limit, offset, Keep([IS_ONE], rows)) != Keep([IS_ONE], LimitRows(limit, offset, rows))
  {
    if limit > 0 { CutDiffers(limit, offset); } else { SkipDiffers(limit, offset); }
  }

  /** The limit cuts: it takes zeros only, but would find ones behind the filter. */
  lemma CutDiffers(limit: int, offset: int)
    requires limit > 0
    ensures var rows := LimitWitness(limit, offset);
      LimitRows(limit, offset, Keep([IS_ONE], rows)) != [] && Keep([IS_ONE], LimitRows(limit, offset, rows)) == []
  {
    CutOnes(limit, offset);
    CutZeros(limit, offset);
    KeepCopies(0, limit);
  }

  lemma CutOnes(limit: int, offset: int)
    requires limit > 0
    ensures Keep([IS_ONE], LimitWitness(limit, offset)) == Copies(1, Max(0, offset) + 1)
  {
    var skip := Max(0, offset);
    KeepConcat([IS_ONE], Copies(0, skip + limit), Copies(1, skip + 1));
    KeepCopies(0, skip + limit);
    KeepCopies(1, skip + 1);
  }

  lemma CutZeros(limit: int, offset: int)
    requires limit > 0
    ensures LimitRows(limit, offset, LimitWitness(limit, offset)) == Copies(0, limit)
    ensures LimitRows(limit, offset, Copies(1, Max(0, offset) + 1)) != []
  {
    var rows, skip := LimitWitness(limit, offset), Max(0, offset);
    assert Min(skip, |rows|) == skip;
    assert rows[skip..][..limit] == Copies(0, limit);
  }

  /** The offset skips: it skips zeros, but would skip the one behind the filter. */
  lemma SkipDiffers(limit: int, offset: int)
    requires limit < 0 && offset > 0
    ensures var rows := LimitWitness(limit, offset);
      LimitRows(limit, offset, Keep([IS_ONE], rows)) == [] && Keep([IS_ONE], LimitRows(limit, offset, rows)) != []
  {
    var rows := LimitWitness(limit, offset);
    KeepConcat([IS_ONE], Copies(0, offset), Copies(1, 1));
    KeepCopies(0, offset);
    KeepCopies(1, 1);
    assert Keep([IS_ONE], rows) == Copies(1, 1);
    assert LimitRows(limit, offset, rows) == Copies(1, 1);
  }

  ghost predicate LimitCommutes(limit: int, offset: int) {
    forall preds: seq<Expr>, rows: seq<Row> ::
      LimitRows(limit, offset, Keep(preds, rows)) == Keep(preds, LimitRows(limit, offset, rows))
  }

  /** Pushdown moves filters below a limit; that keeps every result exactly when the
      limit passes nothing or everything. */
  lemma PushPastLimitIff(limit: int, offset: int)
    ensures LimitCommutes(limit, offset) <==> TrivialLimit(limit, offset)
  {
    if TrivialLimit(limit, offset) {
      forall preds: seq<Expr>, rows: seq<Row>
        ensures LimitRows(limit, offset, Keep(preds, rows)) == Keep(preds, LimitRows(limit, offset, rows))
      {
      }
    } else {
      LimitWitnessDiffers(limit, offset);
      var preds, rows := [IS_ONE], LimitWitness(limit, offset);
      assert LimitRows(limit, offset, Keep(preds, rows)) != Keep(preds, LimitRows(limit, offset, rows));
    }
  }

  // ----- When pushing past a projection is sound -----

  lemma ColumnIsHolds(i: nat, v: int, row: Row)
    ensures AllHold([ColumnIs(i, v)], row) <==> IsTrue(ApplyBinary(Eq, Boolean, Eval(Ref(i, Int64), row), Int(v)))
  {
    var l, r := Ref(i, Int64), Lit(Int(v), Int64);
    assert Eval(ColumnIs(i, v), row) == ApplyBinary(Eq, Boolean, Eval(l, row), Eval(r, row));
    assert ColumnIs(i, v) in [ColumnIs(i, v)];
  }

  predicate OnlyRefs(es: seq<Expr>) { forall e <- es :: e.Ref? }

  function FilterOverProjection(schema: string, table: string, ids: seq<nat>, es: seq<Expr>, i: nat, v: int): Plan {
    Filter(ColumnIs(i, v), Projection(es, Get(schema, table, ids, [])))
  }

  /** Pushing the filter below the projection keeps the rows on every table. */
  ghost predicate ProjectionCommutes(schema: string, table: string, ids: seq<nat>, es: seq<Expr>, i: nat, v: int) {
    var plan := FilterOverProjection(schema, table, ids, es, i, v);
    forall db: Database :: Denote(Pushdown(plan, []).plan, db) == Denote(plan, db)
  }

  lemma PushedProjection(schema: string, table: string, ids: seq<nat>, es: seq<Expr>, i: nat, v: int, db: Database)
    ensures
      var plan, rows := FilterOverProjection(schema, table, ids, es, i, v), TableRows(db, schema, table);
      && Denote(plan, db) == Keep([ColumnIs(i, v)], Project(es, rows))
      && Denote(Pushdown(plan, []).plan, db) == Project(es, Keep([ColumnIs(i, v)], rows))
  {
    var get, pred := Get(schema, table, ids, []), ColumnIs(i, v);
    KeepNothing(TableRows(db, schema, table));
    assert [] + [pred] == [pred];
    assert Denote(Projection(es, get), db) == Project(es, TableRows(db, schema, table));
    assert Pushdown(Projection(es, get), [pred]).plan == Projection(es, Get(schema, table, ids, [pred]));
  }

  lemma {:induction false} KeepProjected(es: seq<Expr>, i: nat, v: int, rows: seq<Row>)
    requires i < |es| && es[i].Ref? && es[i].idx == i
    ensures Keep([ColumnIs(i, v)], Project(es, rows)) == Project(es, Keep([ColumnIs(i, v)], rows))
  {
    if rows != [] {
      var n := |rows| - 1;
      KeepProjected(es, i, v, rows[..n]);
      assert Project(es, rows)[..n] == Project(es, rows[..n]);
      ColumnIsHolds(i, v, rows[n]);
      ColumnIsHolds(i, v, EvalAll(es, rows[n]));
      assert EvalAll(es, rows[n])[i] == Eval(es[i], rows[n]);
    }
  }

  /** One row that holds v in column k only. */
  function Single(n: nat, k: nat, v: int): Row { seq(n, c => Int(if c == k then v else v - 1)) }

  lemma ShownRow(es: seq<Expr>, i: nat, v: int, row: Row)
    requires i < |es| && Eval(es[i], row) == Int(v)
    ensures |Keep([ColumnIs(i, v)], Project(es, [row]))| == 1
  {
    var shown := EvalAll(es, row);
    assert shown[i] == Int(v) && Project(es, [row]) == [shown];
    KeepOne([ColumnIs(i, v)], shown);
    ColumnIsHolds(i, v, shown);
  }

  lemma HiddenRow(i: nat, v: int, row: Row)
    requires i < |row| && row[i] == Int(v - 1)
    ensures Keep([ColumnIs(i, v)], [row]) == []
  {
    KeepOne([ColumnIs(i, v)], row);
    ColumnIsHolds(i, v, row);
  }

  lemma MovedFilterDiffers(schema: string, table: string, ids: seq<nat>, es: seq<Expr>, i: nat, v: int)
    requires i < |es| && es[i].Ref? && es[i].idx != i
    ensures !ProjectionCommutes(schema, table, ids, es, i, v)
  {
    var k := es[i].idx;
    var row := Single(Max(i, k) + 1, k, v);
    var db: Database := map[(schema, table) := [row]];
    assert TableRows(db, schema, table) == [row];
    PushedProjection(schema, table, ids, es, i, v, db);
    ShownRow(es, i, v, row);
    HiddenRow(i, v, row);
    var plan := FilterOverProjection(schema, table, ids, es, i, v);
    assert |Denote(plan, db)| == 1 && |Denote(Pushdown(plan, []).plan, db)| == 0;
  }

  /** Pushdown carries a filter below a projection unchanged.  Below a projection of column
      references, a test of output column i is right on every table exactly when that
      output column is table column i. */
  lemma PushPastProjectionIff(schema: string, table: string, ids: seq<nat>, es: seq<Expr>, i: nat, v: int)
    requires OnlyRefs(es) && i < |es|
    ensures ProjectionCommutes(schema, table, ids, es, i, v) <==> es[i].idx == i
  {
    assert es[i] in es;
    if es[i].idx == i {
      var plan := FilterOverProjection(schema, table, ids, es, i, v);
      forall db: Database ensures Denote(Pushdown(plan, []).plan, db) == Denote(plan, db) {
        PushedProjection(schema, table, ids, es, i, v, db);
        KeepProjected(es, i, v, TableRows(db, schema, table));
      }
    } else {
      MovedFilterDiffers(schema, table, ids, es, i, v);
    }
  }

  // ----- Pass 4: filter merge -----

  function MergeFilters(p: Plan): Plan {
    match p
    case Filter(pred, c) =>
      var c' := MergeFilters(c);
      if c'.Filter? then Filter(And2(pred, c'.pred), c'.child) else Filter(pred, c')
    case Get(_, _, _, _) => p
    case Projection(es, c) => Projection(es, MergeFilters(c))
    case Limit(limit, offset, c) => Limit(limit, offset, MergeFilters(c))
    case Sort(keys, asc, c) => Sort(keys, asc, MergeFilters(c))
    case Aggregate(groups, aggs, types, c) => Aggregate(groups, aggs, types, MergeFilters(c))
    case Join(lk, rk, l, r) => Join(lk, rk, MergeFilters(l), MergeFilters(r))
  }

  /** No filter stands directly on a filter. */
  predicate Merged(p: Plan) {
    match p
    case Filter(_, c) => !c.Filter? && Merged(c)
    case Get(_, _, _, _) => true
    case Projection(_, c) => Merged(c)
    case Limit(_, _, c) => Merged(c)
    case Sort(_, _, c) => Merged(c)
    case Aggregate(_, _, _, c) => Merged(c)
    case Join(_, _, l, r) => Merged(l) && Merged(r)
  }

  /** Merging keeps the rows and leaves no stacked filters. */
  lemma {:induction false} MergeFiltersKeepsRows(p: Plan, db: Database)
    ensures Denote(MergeFilters(p), db) == Denote(p, db)
    ensures Merged(MergeFilters(p))
  {
    match p
    case Get(_, _, _, _) =>
    case Filter(pred, c) =>
      MergeFiltersKeepsRows(c, db);
      var c' := MergeFilters(c);
      if c'.Filter? {
        var rows := Denote(c'.child, db);
        KeepTwice([pred], [c'.pred], rows);
        forall r: Row ensures AllHold([pred] + [c'.pred], r) <==> AllHold([And2(pred, c'.pred)], r) {
          var both := [pred] + [c'.pred];
          assert pred in both && c'.pred in both && And2(pred, c'.pred) in [And2(pred, c'.pred)];
          AndHolds(pred, c'.pred, r);
        }
        KeepAgrees([pred] + [c'.pred], [And2(pred, c'.pred)], rows);
      }
    case Projection(_, c) => MergeFiltersKeepsRows(c, db);
    case Limit(_, _, c) => MergeFiltersKeepsRows(c, db);
    case Sort(_, _, c) => MergeFiltersKeepsRows(c, db);
    case Aggregate(_, _, _, c) => MergeFiltersKeepsRows(c, db);
    case Join(_, _, l, r) => MergeFiltersKeepsRows(l, db); MergeFiltersKeepsRows(r, db);
  }

  // ----- The passes together -----

  datatype Config = Config(constantFolding: bool, predicatePushdown: bool, columnPruning: bool, filterMerge: bool)

  function FoldPass(cfg: Config, p: Plan): Plan
    requires PlanTyped(p)
  {
    if cfg.constantFolding then FoldPlan(p) else p
  }

  function PushPass(cfg: Config, p: Plan): Plan {
    if cfg.predicatePushdown then Pushdown(p, []).plan else p
  }

  function MergePass(cfg: Config, p: Plan): Plan {
    if cfg.filterMerge then MergeFilters(p) else p
  }

  lemma {:induction false} FoldKeepsPlacement(p: Plan, above: bool, db: Database)
    requires PlanTyped(p) && Placed(p, above) && SortsTyped(p, above, db) && NoEmptyTable(db)
    ensures Placed(FoldPlan(p), above) && SortsTyped(FoldPlan(p), above, db)
  {
    match p
    case Filter(_, c) => FoldKeepsPlacement(c, true, db); PlacedBelow(FoldPlan(c), db);
    case Projection(_, c) => FoldKeepsPlacement(c, false, db);
    case Limit(_, _, c) => FoldKeepsPlacement(c, above, db);
    case Sort(_, _, c) => FoldKeepsPlacement(c, above, db); FoldPlanKeepsRows(c, db);
    case _ =>
  }

  /** Every selection of the passes keeps the rows of every bound plan whose filters are
      placed as the binder places them. */
  lemma RewritingKeepsRows(cfg: Config, p: Plan, db: Database)
    requires PlanTyped(p) && Placed(p, false) && SortsTyped(p, false, db) && NoEmptyTable(db)
    ensures Denote(MergePass(cfg, PushPass(cfg, FoldPass(cfg, p))), db) == Denote(p, db)
  {
    var folded := FoldPass(cfg, p);
    if cfg.constantFolding { FoldPlanKeepsRows(p, db); FoldKeepsPlacement(p, false, db); }
    var pushed := PushPass(cfg, folded);
    if cfg.predicatePushdown { PushdownKeepsRows(folded, [], db); KeepNothing(Denote(folded, db)); }
    if cfg.filterMerge { MergeFiltersKeepsRows(pushed, db); }
  }
}
