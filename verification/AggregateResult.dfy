/** The rows an aggregation answers: the source operator that reads the hash table, and what
    its rows mean in terms of the input rows alone. */
module AggregateResult {
  import opened Cells
  import opened Scalars
  import opened Relational
  import opened ColumnSegments
  import opened SortOrder
  import opened HashJoin
  import opened AggTable
  import opened Aggregation

  // ----- The rows of a group, by their positions -----

  predicate Member(groups: seq<Expr>, rows: seq<Row>, key: Row, r: int) {
    0 <= r < |rows| && EvalAll(groups, rows[r]) == key
  }

  /** Some row of the group has this value. */
  ghost predicate HasValue(groups: seq<Expr>, rows: seq<Row>, key: Row, e: Expr, v: Cell) {
    exists r :: Member(groups, rows, key, r) && Eval(e, rows[r]) == v
  }

  lemma HasValueMore(groups: seq<Expr>, rows: seq<Row>, x: Row, key: Row, e: Expr, v: Cell)
    ensures HasValue(groups, rows + [x], key, e, v) <==>
      HasValue(groups, rows, key, e, v) || (EvalAll(groups, x) == key && Eval(e, x) == v)
  {
    var all := rows + [x];
    if HasValue(groups, rows, key, e, v) {
      var r :| Member(groups, rows, key, r) && Eval(e, rows[r]) == v;
      assert Member(groups, all, key, r) && all[r] == rows[r];
    }
    if EvalAll(groups, x) == key && Eval(e, x) == v { assert Member(groups, all, key, |rows|); }
    if HasValue(groups, all, key, e, v) {
      var r :| Member(groups, all, key, r) && Eval(e, all[r]) == v;
      if r < |rows| { assert Member(groups, rows, key, r); }
    }
  }

  lemma GroupRowsMore(groups: seq<Expr>, rows: seq<Row>, x: Row, key: Row)
    ensures GroupRows(groups, key, rows + [x]) ==
      GroupRows(groups, key, rows) + if EvalAll(groups, x) == key then [x] else []
  {
    assert (rows + [x])[..|rows|] == rows;
  }

  lemma ValuesMore(e: Expr, rows: seq<Row>, x: Row)
    ensures Values(e, rows + [x]) == Values(e, rows) + [Eval(e, x)]
  {
  }

  /** The values of a group are those of its member rows. */
  lemma {:induction false} GroupValues(groups: seq<Expr>, rows: seq<Row>, key: Row, e: Expr, v: Cell)
    ensures v in Values(e, GroupRows(groups, key, rows)) <==> HasValue(groups, rows, key, e, v)
  {
    if rows != [] {
      var n := |rows| - 1;
      var init, x := rows[..n], rows[n];
      assert rows == init + [x];
      GroupValues(groups, init, key, e, v);
      HasValueMore(groups, init, x, key, e, v);
      GroupRowsMore(groups, init, x, key);
      if EvalAll(groups, x) == key {
        ValuesMore(e, GroupRows(groups, key, init), x);
      } else {
        assert GroupRows(groups, key, init) + [] == GroupRows(groups, key, init);
      }
    }
  }

  /** The member rows that COUNT counts: all of them, or those with a value. */
  function Counted(a: AggExpr, groups: seq<Expr>, rows: seq<Row>, key: Row): set<nat> {
    set r: nat | r < |rows| && EvalAll(groups, rows[r]) == key && (a.isStar || !Eval(a.arg, rows[r]).Null?)
  }

  /** The sum of the numbers among the member rows. */
  function Total(e: Expr, groups: seq<Expr>, rows: seq<Row>, key: Row): real {
    if rows == [] then 0.0
    else
      var n := |rows| - 1;
      var v := Eval(e, rows[n]);
      Total(e, groups, rows[..n], key) + if EvalAll(groups, rows[n]) == key && IsNumber(v) then ToReal(v) else 0.0
  }

  lemma FoldMore(a: AggExpr, groups: seq<Expr>, rows: seq<Row>, x: Row, key: Row)
    ensures FoldAgg(a, GroupRows(groups, key, rows + [x])) ==
      var s := FoldAgg(a, GroupRows(groups, key, rows));
      if EvalAll(groups, x) == key then UpdateAgg(a, s, x) else s
  {
    GroupRowsMore(groups, rows, x, key);
    var g := GroupRows(groups, key, rows);
    assert (g + [x])[..|g|] == g && g + [] == g;
  }

  lemma CountedMore(a: AggExpr, groups: seq<Expr>, rows: seq<Row>, x: Row, key: Row)
    ensures Counted(a, groups, rows + [x], key) == Counted(a, groups, rows, key) +
      if EvalAll(groups, x) == key && (a.isStar || !Eval(a.arg, x).Null?) then {|rows|} else {}
  {
    var all := rows + [x];
    var last := EvalAll(groups, x) == key && (a.isStar || !Eval(a.arg, x).Null?);
    forall r: nat
      ensures r in Counted(a, groups, all, key) <==> r in Counted(a, groups, rows, key) || (r == |rows| && last)
    {
      if r < |rows| { assert all[r] == rows[r]; }
    }
  }

  lemma CountStep(a: AggExpr, s: AggState, x: Row)
    ensures UpdateAgg(a, s, x).count == s.count + if a.isStar || !Eval(a.arg, x).Null? then 1 else 0
  {
  }

  lemma {:induction false} CountOfGroup(a: AggExpr, groups: seq<Expr>, rows: seq<Row>, key: Row)
    ensures FoldAgg(a, GroupRows(groups, key, rows)).count == |Counted(a, groups, rows, key)|
  {
    if rows != [] {
      var n := |rows| - 1;
      assert rows == rows[..n] + [rows[n]];
      CountOfGroup(a, groups, rows[..n], key);
      FoldMore(a, groups, rows[..n], rows[n], key);
      CountStep(a, FoldAgg(a, GroupRows(groups, key, rows[..n])), rows[n]);
      CountedMore(a, groups, rows[..n], rows[n], key);
      assert n !in Counted(a, groups, rows[..n], key);
    } else {
      assert Counted(a, groups, rows, key) == {};
    }
  }

  lemma SumStep(a: AggExpr, s: AggState, x: Row)
    requires !a.isStar && (a.func.Sum? || a.func.Avg?)
    ensures
      var v := Eval(a.arg, x);
      UpdateAgg(a, s, x).sum == s.sum + if IsNumber(v) then ToReal(v) else 0.0
  {
  }

  lemma TotalMore(e: Expr, groups: seq<Expr>, rows: seq<Row>, x: Row, key: Row)
    ensures
      var v := Eval(e, x);
      Total(e, groups, rows + [x], key) ==
        Total(e, groups, rows, key) + if EvalAll(groups, x) == key && IsNumber(v) then ToReal(v) else 0.0
  {
    assert (rows + [x])[..|rows|] == rows;
  }

  lemma {:induction false} SumOfGroup(a: AggExpr, groups: seq<Expr>, rows: seq<Row>, key: Row)
    requires !a.isStar && (a.func.Sum? || a.func.Avg?)
    ensures FoldAgg(a, GroupRows(groups, key, rows)).sum == Total(a.arg, groups, rows, key)
  {
    if rows != [] {
      var n := |rows| - 1;
      assert rows == rows[..n] + [rows[n]];
      SumOfGroup(a, groups, rows[..n], key);
      FoldMore(a, groups, rows[..n], rows[n], key);
      SumStep(a, FoldAgg(a, GroupRows(groups, key, rows[..n])), rows[n]);
      TotalMore(a.arg, groups, rows[..n], rows[n], key);
    }
  }

  // ----- What each column of the answer means -----

  /** c is one of the values with none before it in the given direction, and NULL exactly
      when there is none. */
  ghost predicate Extreme(asc: bool, e: Expr, groups: seq<Expr>, rows: seq<Row>, key: Row, c: Cell) {
    && (c.Null? <==> forall r :: Member(groups, rows, key, r) ==> Eval(e, rows[r]).Null?)
    && (!c.Null? ==> HasValue(groups, rows, key, e, c))
    && (forall r :: Member(groups, rows, key, r) && !Eval(e, rows[r]).Null? ==> !CellBefore(asc, Eval(e, rows[r]), c))
  }

  /** A star stands for COUNT(*) only. */
  ghost predicate ColumnMeans(a: AggExpr, ty: TypeId, groups: seq<Expr>, rows: seq<Row>, key: Row, c: Cell) {
    var counted := Counted(a, groups, rows, key);
    if a.func.Count? then c == Int(|counted|)
    else if a.isStar then true
    else
      match a.func
      case Min_ => Extreme(true, a.arg, groups, rows, key, c)
      case Max_ => Extreme(false, a.arg, groups, rows, key, c)
      case Sum => if counted == {} then c == Null else Result(ty, Total(a.arg, groups, rows, key), c)
      case _ => if counted == {} then c == Null else c == Float(Total(a.arg, groups, rows, key) / (|counted| as real))
  }

  lemma NoneBefore(k: Kind, asc: bool, m: Cell, v: Cell)
    requires HasKind(k, m) && HasKind(k, v) && !m.Null? && !v.Null?
    requires if asc then CompareCells(m, v) <= 0 else CompareCells(v, m) <= 0
    ensures !CellBefore(asc, v, m)
  {
    CompareCellsTotal(m, v);
    CompareKeyMeaning(k, asc, v, m);
  }

  /** From a least or greatest of the values to the extreme of the group. */
  lemma ExtremeOfGroup(k: Kind, asc: bool, e: Expr, groups: seq<Expr>, rows: seq<Row>, key: Row, c: Cell)
    requires forall r <- rows :: HasKind(k, Eval(e, r))
    requires
      var vs := Values(e, GroupRows(groups, key, rows));
      && (c.Null? <==> forall v <- vs :: v.Null?) && (!c.Null? ==> c in vs)
      && forall v <- vs :: !v.Null? ==> if asc then CompareCells(c, v) <= 0 else CompareCells(v, c) <= 0
    ensures Extreme(asc, e, groups, rows, key, c)
  {
    var vs := Values(e, GroupRows(groups, key, rows));
    forall v: Cell ensures v in vs <==> HasValue(groups, rows, key, e, v) { GroupValues(groups, rows, key, e, v); }
    forall r | Member(groups, rows, key, r) ensures Eval(e, rows[r]) in vs {
      assert HasValue(groups, rows, key, e, Eval(e, rows[r]));
    }
    if !c.Null? {
      var r :| Member(groups, rows, key, r) && Eval(e, rows[r]) == c;
      assert rows[r] in rows;
      forall q | Member(groups, rows, key, q) && !Eval(e, rows[q]).Null? ensures !CellBefore(asc, Eval(e, rows[q]), c) {
        assert rows[q] in rows;
        NoneBefore(k, asc, c, Eval(e, rows[q]));
      }
    } else {
      AllNull(e, groups, rows, key, vs);
    }
    if forall r :: Member(groups, rows, key, r) ==> Eval(e, rows[r]).Null? {
      forall v | v in vs ensures v.Null? { var r :| Member(groups, rows, key, r) && Eval(e, rows[r]) == v; }
    }
  }

  lemma AllNull(e: Expr, groups: seq<Expr>, rows: seq<Row>, key: Row, vs: seq<Cell>)
    requires forall v <- vs :: v.Null?
    requires forall r :: Member(groups, rows, key, r) ==> Eval(e, rows[r]) in vs
    ensures forall r :: Member(groups, rows, key, r) ==> Eval(e, rows[r]).Null?
  {
  }

  lemma GroupKind(k: Kind, e: Expr, groups: seq<Expr>, rows: seq<Row>, key: Row)
    requires forall r <- rows :: HasKind(k, Eval(e, r))
    ensures OfKind(k, Values(e, GroupRows(groups, key, rows)))
  {
    var vs := Values(e, GroupRows(groups, key, rows));
    forall v | v in vs ensures HasKind(k, v) {
      GroupValues(groups, rows, key, e, v);
      var r :| Member(groups, rows, key, r) && Eval(e, rows[r]) == v;
      assert rows[r] in rows;
    }
  }

  lemma MinColumn(k: Kind, a: AggExpr, groups: seq<Expr>, rows: seq<Row>, key: Row)
    requires a.func.Min_? && !a.isStar && forall r <- rows :: HasKind(k, Eval(a.arg, r))
    ensures Extreme(true, a.arg, groups, rows, key, FoldAgg(a, GroupRows(groups, key, rows)).minVal)
  {
    GroupKind(k, a.arg, groups, rows, key);
    MinMeaning(k, a, GroupRows(groups, key, rows));
    ExtremeOfGroup(k, true, a.arg, groups, rows, key, FoldAgg(a, GroupRows(groups, key, rows)).minVal);
  }

  lemma MaxColumn(k: Kind, a: AggExpr, groups: seq<Expr>, rows: seq<Row>, key: Row)
    requires a.func.Max_? && !a.isStar && forall r <- rows :: HasKind(k, Eval(a.arg, r))
    ensures Extreme(false, a.arg, groups, rows, key, FoldAgg(a, GroupRows(groups, key, rows)).maxVal)
  {
    GroupKind(k, a.arg, groups, rows, key);
    MaxMeaning(k, a, GroupRows(groups, key, rows));
    ExtremeOfGroup(k, false, a.arg, groups, rows, key, FoldAgg(a, GroupRows(groups, key, rows)).maxVal);
  }

  lemma ColumnOfGroup(k: Kind, a: AggExpr, ty: TypeId, groups: seq<Expr>, rows: seq<Row>, key: Row)
    requires forall r <- rows :: HasKind(k, Eval(a.arg, r))
    ensures ColumnMeans(a, ty, groups, rows, key, Finalize(a.func, ty, FoldAgg(a, GroupRows(groups, key, rows))))
  {
    CountOfGroup(a, groups, rows, key);
    if !a.isStar {
      match a.func
      case Count =>
      case Min_ => MinColumn(k, a, groups, rows, key);
      case Max_ => MaxColumn(k, a, groups, rows, key);
      case Sum =>
        SumOfGroup(a, groups, rows, key);
        ResultOf(ty, Total(a.arg, groups, rows, key));
      case Avg => SumOfGroup(a, groups, rows, key);
    }
  }

  // ----- The whole answer -----

  /** One row per distinct key, in the order of the first row of each; the key, then the
      aggregates of its member rows. */
  ghost predicate AnswerMeans(groups: seq<Expr>, aggs: seq<AggExpr>, types: seq<TypeId>, rows: seq<Row>,
      firsts: seq<nat>, out: seq<Row>)
    requires |aggs| == |types|
  {
    && FirstRows(groups, rows, firsts) && |out| == |firsts|
    && forall i :: 0 <= i < |out| ==> RowMeans(groups, aggs, types, rows, EvalAll(groups, rows[firsts[i]]), out[i])
  }

  ghost predicate RowMeans(groups: seq<Expr>, aggs: seq<AggExpr>, types: seq<TypeId>, rows: seq<Row>, key: Row,
      out: Row)
    requires |aggs| == |types|
  {
    && |out| == |groups| + |aggs| && out[..|groups|] == key
    && forall j :: 0 <= j < |aggs| ==> ColumnMeans(aggs[j], types[j], groups, rows, key, out[|groups| + j])
  }

  predicate SameKey(groups: seq<Expr>, rows: seq<Row>, q: int, r: int)
    requires 0 <= q < |rows| && 0 <= r < |rows|
  {
    EvalAll(groups, rows[q]) == EvalAll(groups, rows[r])
  }

  /** Exactly the rows that no earlier row shares the key of, ascending. */
  ghost predicate FirstRows(groups: seq<Expr>, rows: seq<Row>, firsts: seq<nat>) {
    && (forall i, j :: 0 <= i < j < |firsts| ==> firsts[i] < firsts[j])
    && (forall i :: 0 <= i < |firsts| ==> firsts[i] < |rows|)
    && (forall r: nat :: r < |rows| ==> (r in firsts <==> IsFirst(groups, rows, r)))
  }

  ghost predicate IsFirst(groups: seq<Expr>, rows: seq<Row>, r: nat)
    requires r < |rows|
  {
    forall q :: 0 <= q < r ==> !SameKey(groups, rows, q, r)
  }

  /** The group keys are the keys of those rows. */
  ghost predicate KeysAt(groups: seq<Expr>, rows: seq<Row>, firsts: seq<nat>, keys: seq<Row>) {
    && |keys| == |firsts|
    && forall i :: 0 <= i < |keys| ==> firsts[i] < |rows| && keys[i] == EvalAll(groups, rows[firsts[i]])
  }

  lemma {:induction false} KeyIsGrouped(groups: seq<Expr>, rows: seq<Row>, key: Row)
    ensures key in GroupKeys(groups, rows) <==> exists r :: Member(groups, rows, key, r)
  {
    if rows != [] {
      var n := |rows| - 1;
      KeyIsGrouped(groups, rows[..n], key);
      if EvalAll(groups, rows[n]) == key { assert Member(groups, rows, key, n); }
      if exists r :: Member(groups, rows[..n], key, r) {
        var r :| Member(groups, rows[..n], key, r);
        assert Member(groups, rows, key, r);
      }
      if r :| Member(groups, rows, key, r) && r < n { assert Member(groups, rows[..n], key, r); }
    }
  }

  lemma IsFirstPrefix(groups: seq<Expr>, rows: seq<Row>, n: nat, r: nat)
    requires r < n <= |rows|
    ensures IsFirst(groups, rows[..n], r) <==> IsFirst(groups, rows, r)
  {
    assert forall q :: 0 <= q < r ==> (SameKey(groups, rows[..n], q, r) <==> SameKey(groups, rows, q, r));
  }

  lemma LastIsFirst(groups: seq<Expr>, rows: seq<Row>)
    requires rows != []
    ensures
      var n := |rows| - 1;
      IsFirst(groups, rows, n) <==> EvalAll(groups, rows[n]) !in GroupKeys(groups, rows[..n])
  {
    var n := |rows| - 1;
    var key := EvalAll(groups, rows[n]);
    KeyIsGrouped(groups, rows[..n], key);
    if key in GroupKeys(groups, rows[..n]) {
      var r :| Member(groups, rows[..n], key, r);
      assert SameKey(groups, rows, r, n);
    }
    if !IsFirst(groups, rows, n) {
      var q :| 0 <= q < n && SameKey(groups, rows, q, n);
      assert Member(groups, rows[..n], key, q);
    }
  }

  lemma {:induction false} FirstsOf(groups: seq<Expr>, rows: seq<Row>) returns (firsts: seq<nat>)
    ensures FirstRows(groups, rows, firsts) && KeysAt(groups, rows, firsts, GroupKeys(groups, rows))
  {
    if rows == [] {
      firsts := [];
    } else {
      var n := |rows| - 1;
      var before := FirstsOf(groups, rows[..n]);
      LastIsFirst(groups, rows);
      firsts := if IsFirst(groups, rows, n) then before + [n] else before;
      FirstsMore(groups, rows, before, firsts);
      KeysMore(groups, rows, before, GroupKeys(groups, rows[..n]));
    }
  }

  lemma FirstsMore(groups: seq<Expr>, rows: seq<Row>, before: seq<nat>, firsts: seq<nat>)
    requires rows != [] && FirstRows(groups, rows[..|rows| - 1], before)
    requires firsts == if IsFirst(groups, rows, |rows| - 1) then before + [|rows| - 1] else before
    ensures FirstRows(groups, rows, firsts)
  {
    var n: nat := |rows| - 1;
    forall r: nat | r < |rows| ensures r in firsts <==> IsFirst(groups, rows, r) {
      if r < n {
        IsFirstPrefix(groups, rows, n, r);
        assert r in firsts <==> r in before;
      } else {
        assert n !in before;
      }
    }
  }

  lemma KeysMore(groups: seq<Expr>, rows: seq<Row>, before: seq<nat>, keys: seq<Row>)
    requires rows != [] && KeysAt(groups, rows[..|rows| - 1], before, keys)
    ensures KeysAt(groups, rows, before, keys)
    ensures KeysAt(groups, rows, before + [|rows| - 1], keys + [EvalAll(groups, rows[|rows| - 1])])
  {
  }

  /** The rows of an aggregation, when there is a group to show. */
  lemma AggregateRowsMeaning(kinds: seq<Kind>, groups: seq<Expr>, aggs: seq<AggExpr>, types: seq<TypeId>,
      rows: seq<Row>) returns (firsts: seq<nat>)
    requires |kinds| == |aggs| == |types| && (groups != [] || rows != [])
    requires forall j, r :: 0 <= j < |aggs| && r in rows ==> HasKind(kinds[j], Eval(aggs[j].arg, r))
    ensures AnswerMeans(groups, aggs, types, rows, firsts, AggregateRows(groups, aggs, types, rows))
  {
    firsts := FirstsOf(groups, rows);
    var gs, keys := GroupBy(groups, aggs, rows), GroupKeys(groups, rows);
    var out := AggregateRows(groups, aggs, types, rows);
    if rows != [] { KeyHasGroup(groups, rows, 0); }
    assert Shown(groups, aggs, gs) == gs;
    forall i | 0 <= i < |out| ensures RowMeans(groups, aggs, types, rows, EvalAll(groups, rows[firsts[i]]), out[i]) {
      GroupMeans(kinds, groups, aggs, types, rows, keys[i], gs[i]);
    }
  }

  lemma GroupMeans(kinds: seq<Kind>, groups: seq<Expr>, aggs: seq<AggExpr>, types: seq<TypeId>, rows: seq<Row>,
      key: Row, g: Group)
    requires |kinds| == |aggs| == |types| && |key| == |groups|
    requires forall j, r :: 0 <= j < |aggs| && r in rows ==> HasKind(kinds[j], Eval(aggs[j].arg, r))
    requires g == Group(key, FoldAll(aggs, GroupRows(groups, key, rows)))
    ensures RowMeans(groups, aggs, types, rows, key, GroupRow(aggs, types, g))
  {
    var out := GroupRow(aggs, types, g);
    forall j | 0 <= j < |aggs| ensures ColumnMeans(aggs[j], types[j], groups, rows, key, out[|groups| + j]) {
      ColumnOfGroup(kinds[j], aggs[j], types[j], groups, rows, key);
    }
  }

  /** Without GROUP BY and without input there is still one row: zero for COUNT, NULL for
      everything else. */
  lemma EmptyAggregate(aggs: seq<AggExpr>, types: seq<TypeId>)
    requires |aggs| == |types|
    ensures
      var out := AggregateRows([], aggs, types, []);
      && |out| == 1 && |out[0]| == |aggs|
      && forall j :: 0 <= j < |aggs| ==> out[0][j] == if aggs[j].func.Count? then Int(0) else Null
  {
    assert GroupBy([], aggs, []) == [];
  }

  // ----- The source operator -----

  class PhysicalAggregationSource {
    const ht: AggregateHashTable
    const groups: seq<Expr>
    const aggs: seq<AggExpr>
    const types: seq<TypeId>
    var entryIdx: nat

    constructor (ht: AggregateHashTable, groups: seq<Expr>, aggs: seq<AggExpr>, types: seq<TypeId>)
      ensures this.ht == ht && this.groups == groups && this.aggs == aggs && this.types == types && entryIdx == 0
    {
      this.ht, this.groups, this.aggs, this.types, entryIdx := ht, groups, aggs, types, 0;
    }

    ghost predicate Valid()
      reads this, ht
    {
      ht.Valid() && ht.numAggregates == |aggs| == |types| && entryIdx <= |Answer()|
    }

    ghost function Answer(): seq<Row>
      requires ht.Valid() && ht.numAggregates == |aggs| == |types|
      reads this, ht
    {
      RowsOf(aggs, types, Shown(groups, aggs, ht.Groups()))
    }

    /** The key columns, then the finalized aggregates. */
    method FinishRow(key: Row, states: seq<AggState>) returns (row: Row)
      requires |states| == |aggs| == |types|
      ensures row == GroupRow(aggs, types, Group(key, states))
    {
      row := key;
      for j := 0 to |aggs|
        invariant row == key + seq(j, i requires 0 <= i < j => Finalize(aggs[i].func, types[i], states[i]))
      {
        row := row + [Finalize(aggs[j].func, types[j], states[j])];
      }
    }

    /** The next at most 1024 rows, and whether they were the last. */
    method GetData() returns (finished: bool, output: seq<Row>)
      requires Valid()
      modifies this`entryIdx
      ensures Valid() && old(entryIdx) <= entryIdx && output == Answer()[old(entryIdx)..entryIdx]
      ensures |output| <= VECTOR_SIZE && (finished <==> entryIdx == |Answer()|)
      ensures !finished ==> entryIdx > old(entryIdx)
    {
      var n := |ht.pool|;
      if groups == [] && n == 0 && entryIdx == 0 {
        var row := FinishRow([], seq(|aggs|, _ => EmptyState));
        assert Answer() == [row];
        entryIdx := 1;
        return true, [row];
      }
      output := [];
      while entryIdx < n && |output| < VECTOR_SIZE
        invariant Valid() && |output| == entryIdx - old(entryIdx) <= VECTOR_SIZE && (n > 0 ==> |Answer()| == n)
        invariant output == Answer()[old(entryIdx)..entryIdx]
        decreases n - entryIdx
      {
        var e := ht.pool[entryIdx];
        var row := FinishRow(e.key, e.states);
        assert row == Answer()[entryIdx];
        output, entryIdx := output + [row], entryIdx + 1;
      }
      finished := entryIdx >= n;
    }
  }

  /** Read the source until it is finished. */
  method ReadAll(ht: AggregateHashTable, groups: seq<Expr>, aggs: seq<AggExpr>, types: seq<TypeId>)
      returns (rows: seq<Row>)
    requires ht.Valid() && ht.numAggregates == |aggs| == |types|
    ensures rows == RowsOf(aggs, types, Shown(groups, aggs, ht.Groups()))
  {
    var source := new PhysicalAggregationSource(ht, groups, aggs, types);
    ghost var answer := source.Answer();
    rows := [];
    var finished := false;
    while !finished
      invariant fresh(source) && source.ht == ht && source.groups == groups && source.aggs == aggs
      invariant source.types == types && source.Valid() && source.Answer() == answer
      invariant rows == answer[..source.entryIdx] && (finished ==> source.entryIdx == |answer|)
      decreases !finished, |answer| - source.entryIdx
    {
      var output;
      finished, output := source.GetData();
      rows := rows + output;
    }
  }

  lemma {:induction false} AddedKeyWidth(aggs: seq<AggExpr>, ks: seq<Row>, rows: seq<Row>, w: nat)
    requires |ks| == |rows| && forall i :: 0 <= i < |ks| ==> |ks[i]| == w
    ensures forall i :: 0 <= i < |AddRows(aggs, [], ks, rows)| ==> |AddRows(aggs, [], ks, rows)[i].key| == w
  {
    if rows != [] { AddedKeyWidth(aggs, ks[..|rows| - 1], rows[..|rows| - 1], w); }
  }

  /** With a NULL among the keys the answer is not that of GROUP BY: a NULL that GROUP BY shows
      in a key column is never shown. */
  lemma NullKeyNotShown(groups: seq<Expr>, aggs: seq<AggExpr>, types: seq<TypeId>, rows: seq<Row>)
    requires |aggs| == |types| && !NullFree(Project(groups, rows))
    ensures RowsOf(aggs, types, Shown(groups, aggs, AddRows(aggs, [], BoxRows(Project(groups, rows)), rows))) !=
      AggregateRows(groups, aggs, types, rows)
  {
    var ks: seq<Row> := Project(groups, rows);
    var i: nat, c: nat :| i < |ks| && c < |ks[i]| && ks[i][c].Null?;
    KeyHasGroup(groups, rows, i);
    var keys := GroupKeys(groups, rows);
    var g :| 0 <= g < |keys| && keys[g] == ks[i];
    AddedKeys(aggs, BoxRows(ks), rows);
    AddedKeyWidth(aggs, BoxRows(ks), rows, |groups|);
    var table := AddRows(aggs, [], BoxRows(ks), rows);
    var shown: seq<Row> := RowsOf(aggs, types, Shown(groups, aggs, table));
    var right: seq<Row> := AggregateRows(groups, aggs, types, rows);
    assert right[g][c].Null?;
    if g < |shown| {
      assert Whole(table[g].key) && |table[g].key| == |groups|;
      assert shown[g][c] == table[g].key[c];
    }
  }

  /** GROUP BY from input chunks to answer rows, for any chunking and any hash function: the
      answer is that of the reference if and only if no key holds a NULL. */
  method AggregateQuery(hash: Row -> nat, groups: seq<Expr>, aggs: seq<AggExpr>, types: seq<TypeId>,
      chunks: seq<Chunk>, ghost kinds: seq<Kind>) returns (rows: seq<Row>)
    requires |kinds| == |aggs| == |types| && forall c <- chunks :: c.Valid()
    requires forall c <- chunks, a <- aggs :: !a.isStar ==> RefsBelow(a.arg, |c.columns|)
    requires forall c <- chunks, g <- groups :: RefsBelow(g, |c.columns|)
    requires forall j, r :: 0 <= j < |aggs| && r in Concat(chunks) ==> HasKind(kinds[j], Eval(aggs[j].arg, r))
    ensures rows == AggregateRows(groups, aggs, types, Concat(chunks)) <==> NullFree(Project(groups, Concat(chunks)))
    ensures NullFree(Project(groups, Concat(chunks))) && (groups != [] || Concat(chunks) != []) ==>
      exists firsts: seq<nat> :: AnswerMeans(groups, aggs, types, Concat(chunks), firsts, rows)
  {
    var ht := FillTable(hash, groups, aggs, chunks);
    rows := ReadAll(ht, groups, aggs, types);
    ghost var input := Concat(chunks);
    if NullFree(Project(groups, input)) {
      BoxNullFree(Project(groups, input));
      AddRowsIsGroupBy(groups, aggs, input);
      if groups != [] || input != [] {
        ghost var firsts := AggregateRowsMeaning(kinds, groups, aggs, types, input);
      }
    } else {
      NullKeyNotShown(groups, aggs, types, input);
    }
  }
}
