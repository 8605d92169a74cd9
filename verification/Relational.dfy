/** Reference meaning of the relational operators on row sequences.

    These are the simple, one-row-at-a-time definitions that the stateful operators
    (hash join probe, top-k sort, limit counters, chained aggregate table) are proved
    against, and that give logical plans their meaning. */
module Relational {
  import opened Basics
  import opened Cells
  import opened Scalars

  function Max(a: int, b: int): int { if a < b then b else a }

  function Min(a: int, b: int): int { if a < b then a else b }

  // ----- Filter and projection -----

  /** The rows, in order, on which every predicate holds. */
  function Keep(preds: seq<Expr>, rows: seq<Row>): seq<Row> {
    if rows == [] then []
    else
      var n := |rows| - 1;
      Keep(preds, rows[..n]) + if AllHold(preds, rows[n]) then [rows[n]] else []
  }

  function EvalAll(es: seq<Expr>, row: Row): Row {
    seq(|es|, i requires 0 <= i < |es| => Eval(es[i], row))
  }

  function Project(es: seq<Expr>, rows: seq<Row>): seq<Row> {
    seq(|rows|, i requires 0 <= i < |rows| => EvalAll(es, rows[i]))
  }

  // ----- Limit -----

  /** A negative limit means no limit; an offset that is not positive skips nothing. */
  function LimitRows(limit: int, offset: int, rows: seq<Row>): seq<Row> {
    var skip := Min(Max(0, offset), |rows|);
    var rest := rows[skip..];
    if limit < 0 then rest else rest[..Min(limit, |rest|)]
  }

  // ----- Sort -----

  /** Order of two present values of one type; values of different kinds tie. */
  function CompareCells(a: Cell, b: Cell): int {
    match (a, b)
    case (Int(x), Int(y)) => if x < y then -1 else if x > y then 1 else 0
    case (Float(x), Float(y)) => if x < y then -1 else if x > y then 1 else 0
    case (Str(x), Str(y)) => if StrLess(x, y) then -1 else if StrLess(y, x) then 1 else 0
    case (_, _) => 0
  }

  /** Order on one key: nulls last in both directions, present values by `asc`. */
  function CompareKey(asc: bool, a: Cell, b: Cell): int {
    if a.Null? && b.Null? then 0
    else if a.Null? then 1
    else if b.Null? then -1
    else if asc then CompareCells(a, b)
    else -CompareCells(a, b)
  }

  /** Lexicographic order on the sort keys from position ki on. */
  function CompareFrom(asc: seq<bool>, a: Row, b: Row, ki: nat): int
    requires |a| == |b| == |asc| && ki <= |asc|
    decreases |asc| - ki
  {
    if ki == |asc| then 0
    else
      var c := CompareKey(asc[ki], a[ki], b[ki]);
      if c != 0 then c else CompareFrom(asc, a, b, ki + 1)
  }

  function CompareRows(keys: seq<Expr>, asc: seq<bool>, a: Row, b: Row): int
    requires |keys| == |asc|
  {
    CompareFrom(asc, EvalAll(keys, a), EvalAll(keys, b), 0)
  }

  /** Insert x behind every row that does not come after it. */
  function InsertRow(keys: seq<Expr>, asc: seq<bool>, x: Row, s: seq<Row>): seq<Row>
    requires |keys| == |asc|
  {
    if s == [] then [x]
    else
      var n := |s| - 1;
      if CompareRows(keys, asc, s[n], x) <= 0 then s + [x]
      else InsertRow(keys, asc, x, s[..n]) + [s[n]]
  }

  function StableSort(keys: seq<Expr>, asc: seq<bool>, rows: seq<Row>): seq<Row>
    requires |keys| == |asc|
  {
    if rows == [] then []
    else
      var n := |rows| - 1;
      InsertRow(keys, asc, rows[n], StableSort(keys, asc, rows[..n]))
  }

  // ----- Equi-join -----

  /** A key column: its position and its declared type.  Boxed values of different
      declared types never compare equal. */
  datatype KeyCol = KeyCol(idx: nat, ty: TypeId)

  datatype Value = Value(ty: TypeId, cell: Cell)

  function CellAt(row: Row, i: nat): Cell { if i < |row| then row[i] else Null }

  function KeyOf(cols: seq<KeyCol>, row: Row): seq<Value> {
    seq(|cols|, k requires 0 <= k < |cols| => Value(cols[k].ty, CellAt(row, cols[k].idx)))
  }

  /** The rows of `right` whose key is `key`, each appended to `l`. */
  function Matches(l: Row, key: seq<Value>, rk: seq<KeyCol>, right: seq<Row>): seq<Row> {
    if right == [] then []
    else
      var n := |right| - 1;
      Matches(l, key, rk, right[..n]) + if KeyOf(rk, right[n]) == key then [l + right[n]] else []
  }

  /** Nested-loop equi-join: left-row order first, then right-row order. */
  function EquiJoin(lk: seq<KeyCol>, rk: seq<KeyCol>, left: seq<Row>, right: seq<Row>): seq<Row> {
    if left == [] then []
    else
      var n := |left| - 1;
      EquiJoin(lk, rk, left[..n], right) + Matches(left[n], KeyOf(lk, left[n]), rk, right)
  }

  // ----- Aggregation -----

  datatype AggFunc = Count | Sum | Min_ | Max_ | Avg

  datatype AggExpr = AggExpr(func: AggFunc, isStar: bool, arg: Expr)

  /** Accumulator of one aggregate: sum over the reals, minimum and maximum once set. */
  datatype AggState = AggState(count: nat, sum: real, minVal: Cell, maxVal: Cell)

  const EmptyState := AggState(0, 0.0, Null, Null)

  function UpdateState(func: AggFunc, s: AggState, c: Cell): AggState {
    if c.Null? then s
    else
      match func
      case Count => s.(count := s.count + 1)
      case Min_ =>
        s.(count := s.count + 1,
           minVal := if s.minVal.Null? || CompareCells(c, s.minVal) < 0 then c else s.minVal)
      case Max_ =>
        s.(count := s.count + 1,
           maxVal := if s.maxVal.Null? || CompareCells(s.maxVal, c) < 0 then c else s.maxVal)
      case _ =>
        s.(count := s.count + 1, sum := s.sum + if IsNumber(c) then ToReal(c) else 0.0)
  }

  function UpdateAgg(a: AggExpr, s: AggState, row: Row): AggState {
    if a.isStar then s.(count := s.count + 1) else UpdateState(a.func, s, Eval(a.arg, row))
  }

  /** One accumulator after the rows, in order. */
  function FoldAgg(a: AggExpr, rows: seq<Row>): AggState {
    if rows == [] then EmptyState
    else UpdateAgg(a, FoldAgg(a, rows[..|rows| - 1]), rows[|rows| - 1])
  }

  /** The rows whose group key is `key`. */
  function GroupRows(groups: seq<Expr>, key: Row, rows: seq<Row>): seq<Row> {
    if rows == [] then []
    else
      var n := |rows| - 1;
      GroupRows(groups, key, rows[..n]) + if EvalAll(groups, rows[n]) == key then [rows[n]] else []
  }

  /** Distinct group keys in order of first appearance. */
  function GroupKeys(groups: seq<Expr>, rows: seq<Row>): (keys: seq<Row>)
    ensures forall i, j :: 0 <= i < j < |keys| ==> keys[i] != keys[j]
  {
    if rows == [] then []
    else
      var prev := GroupKeys(groups, rows[..|rows| - 1]);
      var key := EvalAll(groups, rows[|rows| - 1]);
      if key in prev then prev else prev + [key]
  }

  datatype Group = Group(key: Row, states: seq<AggState>)

  /** One group per distinct key, each accumulator folded over its own rows only. */
  function GroupBy(groups: seq<Expr>, aggs: seq<AggExpr>, rows: seq<Row>): seq<Group> {
    var keys := GroupKeys(groups, rows);
    seq(|keys|, g requires 0 <= g < |keys| =>
      Group(keys[g], seq(|aggs|, j requires 0 <= j < |aggs| => FoldAgg(aggs[j], GroupRows(groups, keys[g], rows)))))
  }

  function Finalize(func: AggFunc, ty: TypeId, s: AggState): Cell {
    match func
    case Count => Int(s.count)
    case Sum => if s.count == 0 then Null else if ty.IsFloat() then Float(s.sum) else Int(Trunc(s.sum))
    case Avg => if s.count == 0 then Null else Float(s.sum / (s.count as real))
    case Min_ => s.minVal
    case Max_ => s.maxVal
  }

  function GroupRow(aggs: seq<AggExpr>, types: seq<TypeId>, g: Group): Row
    requires |aggs| == |types| == |g.states|
  {
    g.key + seq(|aggs|, j requires 0 <= j < |aggs| => Finalize(aggs[j].func, types[j], g.states[j]))
  }

  function AggregateRows(groups: seq<Expr>, aggs: seq<AggExpr>, types: seq<TypeId>, rows: seq<Row>): seq<Row>
    requires |aggs| == |types|
  {
    RowsOf(aggs, types, Shown(groups, aggs, GroupBy(groups, aggs, rows)))
  }

  /** The groups that give a row: all of them, or one without any input row when there is
      neither GROUP BY nor input. */
  function Shown(groups: seq<Expr>, aggs: seq<AggExpr>, gs: seq<Group>): (r: seq<Group>)
    requires forall g <- gs :: |g.states| == |aggs|
    ensures forall g <- r :: |g.states| == |aggs|
  {
    if groups == [] && gs == [] then [Group([], seq(|aggs|, _ => EmptyState))] else gs
  }

  function RowsOf(aggs: seq<AggExpr>, types: seq<TypeId>, gs: seq<Group>): seq<Row>
    requires |aggs| == |types| && forall g <- gs :: |g.states| == |aggs|
  {
    seq(|gs|, i requires 0 <= i < |gs| => GroupRow(aggs, types, gs[i]))
  }

  // ----- Order laws -----

  predicate SameKind(a: Cell, b: Cell) {
    (a.Int? && b.Int?) || (a.Float? && b.Float?) || (a.Str? && b.Str?)
  }

  /** On values of one kind the comparison is a total order. */
  lemma CompareCellsTotal(a: Cell, b: Cell)
    requires SameKind(a, b)
    ensures CompareCells(a, b) == -CompareCells(b, a)
    ensures CompareCells(a, b) == 0 <==> a == b
  {
    if a.Str? { StrLessTotal(a.s, b.s); }
  }

  lemma CompareCellsTransitive(a: Cell, b: Cell, c: Cell)
    requires SameKind(a, b) && SameKind(b, c)
    requires CompareCells(a, b) <= 0 && CompareCells(b, c) <= 0
    ensures CompareCells(a, c) <= 0
  {
    CompareCellsTotal(a, b);
    CompareCellsTotal(b, c);
    CompareCellsTotal(a, c);
    if a.Str? && a != b && b != c {
      StrLessTotal(a.s, b.s);
      StrLessTotal(b.s, c.s);
      StrLessTransitive(a.s, b.s, c.s);
    }
  }

  /** The comparison is the order of numbers or of bytes. */
  lemma CompareCellsMeaning(a: Cell, b: Cell)
    requires SameKind(a, b)
    ensures CompareCells(a, b) < 0 <==> CellBefore(true, a, b)
    ensures CompareCells(a, b) > 0 <==> CellBefore(true, b, a)
  {
    if a.Str? {
      StrLessIff(a.s, b.s);
      StrLessIff(b.s, a.s);
      StrLessTotal(a.s, b.s);
    }
  }

  // ----- What filters and joins mean, by positions -----

  function At(rows: seq<Row>, s: seq<nat>): seq<Row>
    requires forall i :: 0 <= i < |s| ==> s[i] < |rows|
  {
    seq(|s|, i requires 0 <= i < |s| => rows[s[i]])
  }

  /** The positions, ascending, of exactly the rows on which every predicate holds. */
  ghost predicate KeptAt(preds: seq<Expr>, rows: seq<Row>, p: seq<nat>) {
    && Rising(p) && (forall i :: 0 <= i < |p| ==> p[i] < |rows|)
    && forall r: nat :: r < |rows| ==> (r in p <==> forall e <- preds :: Holds(e, rows[r]))
  }

  /** Filtering keeps exactly the rows on which every predicate holds, in their order. */
  lemma {:induction false} KeepMeaning(preds: seq<Expr>, rows: seq<Row>) returns (p: seq<nat>)
    ensures KeptAt(preds, rows, p) && Keep(preds, rows) == At(rows, p)
  {
    if rows == [] {
      p := [];
    } else {
      var n: nat := |rows| - 1;
      var q := KeepMeaning(preds, rows[..n]);
      p := if AllHold(preds, rows[n]) then q + [n] else q;
      KeptMore(preds, rows, q, p);
      assert At(rows[..n], q) == At(rows, q);
      assert At(rows, q + [n]) == At(rows, q) + [rows[n]];
    }
  }

  lemma KeptMore(preds: seq<Expr>, rows: seq<Row>, q: seq<nat>, p: seq<nat>)
    requires rows != [] && KeptAt(preds, rows[..|rows| - 1], q)
    requires p == if AllHold(preds, rows[|rows| - 1]) then q + [|rows| - 1] else q
    ensures KeptAt(preds, rows, p)
  {
    var n: nat := |rows| - 1;
    forall r: nat | r < |rows| ensures r in p <==> forall e <- preds :: Holds(e, rows[r]) {
      if r < n { assert r in p <==> r in q; } else { assert n !in q; }
    }
  }

  /** The key columns of the two rows have the same types and the same cells. */
  predicate KeysMatch(lk: seq<KeyCol>, rk: seq<KeyCol>, l: Row, r: Row) {
    |lk| == |rk| && forall k :: 0 <= k < |lk| ==>
      lk[k].ty == rk[k].ty && CellAt(l, lk[k].idx) == CellAt(r, rk[k].idx)
  }

  lemma KeysMatchIff(lk: seq<KeyCol>, rk: seq<KeyCol>, l: Row, r: Row)
    ensures KeyOf(rk, r) == KeyOf(lk, l) <==> KeysMatch(lk, rk, l, r)
  {
    var a, b := KeyOf(lk, l), KeyOf(rk, r);
    if b == a {
      forall k | 0 <= k < |lk| ensures lk[k].ty == rk[k].ty && CellAt(l, lk[k].idx) == CellAt(r, rk[k].idx) {
        assert a[k] == b[k];
      }
    }
  }

  ghost predicate MatchedAt(lk: seq<KeyCol>, rk: seq<KeyCol>, l: Row, right: seq<Row>, js: seq<nat>) {
    && Rising(js) && (forall i :: 0 <= i < |js| ==> js[i] < |right|)
    && forall r: nat :: r < |right| ==> (r in js <==> KeysMatch(lk, rk, l, right[r]))
  }

  function Beside(l: Row, right: seq<Row>, js: seq<nat>): seq<Row>
    requires forall i :: 0 <= i < |js| ==> js[i] < |right|
  {
    seq(|js|, i requires 0 <= i < |js| => l + right[js[i]])
  }

  lemma {:induction false} MatchesMeaning(lk: seq<KeyCol>, rk: seq<KeyCol>, l: Row, right: seq<Row>)
    returns (js: seq<nat>)
    ensures MatchedAt(lk, rk, l, right, js) && Matches(l, KeyOf(lk, l), rk, right) == Beside(l, right, js)
  {
    if right == [] {
      js := [];
    } else {
      var n: nat := |right| - 1;
      var q := MatchesMeaning(lk, rk, l, right[..n]);
      KeysMatchIff(lk, rk, l, right[n]);
      js := if KeysMatch(lk, rk, l, right[n]) then q + [n] else q;
      MatchedMore(lk, rk, l, right, q, js);
      assert Beside(l, right[..n], q) == Beside(l, right, q);
      assert Beside(l, right, q + [n]) == Beside(l, right, q) + [l + right[n]];
    }
  }

  lemma MatchedMore(lk: seq<KeyCol>, rk: seq<KeyCol>, l: Row, right: seq<Row>, q: seq<nat>, js: seq<nat>)
    requires right != [] && MatchedAt(lk, rk, l, right[..|right| - 1], q)
    requires js == if KeysMatch(lk, rk, l, right[|right| - 1]) then q + [|right| - 1] else q
    ensures MatchedAt(lk, rk, l, right, js)
  {
    var n: nat := |right| - 1;
    forall r: nat | r < |right| ensures r in js <==> KeysMatch(lk, rk, l, right[r]) {
      if r < n { assert r in js <==> r in q; } else { assert n !in q; }
    }
  }

  /** The matching positions of each left row, one list per left row. */
  ghost predicate JoinedAt(lk: seq<KeyCol>, rk: seq<KeyCol>, left: seq<Row>, right: seq<Row>, js: seq<seq<nat>>) {
    |js| == |left| && forall i :: 0 <= i < |left| ==> MatchedAt(lk, rk, left[i], right, js[i])
  }

  function JoinRows(left: seq<Row>, right: seq<Row>, js: seq<seq<nat>>): seq<Row>
    requires |js| == |left| && forall i, k :: 0 <= i < |js| && 0 <= k < |js[i]| ==> js[i][k] < |right|
  {
    if left == [] then []
    else
      var n := |left| - 1;
      JoinRows(left[..n], right, js[..n]) + Beside(left[n], right, js[n])
  }

  /** The equi-join: each left row in order, beside each right row with the same key in order. */
  lemma {:induction false} EquiJoinMeaning(lk: seq<KeyCol>, rk: seq<KeyCol>, left: seq<Row>, right: seq<Row>)
    returns (js: seq<seq<nat>>)
    ensures JoinedAt(lk, rk, left, right, js) && EquiJoin(lk, rk, left, right) == JoinRows(left, right, js)
  {
    if left == [] {
      js := [];
    } else {
      var n := |left| - 1;
      var q := EquiJoinMeaning(lk, rk, left[..n], right);
      var last := MatchesMeaning(lk, rk, left[n], right);
      js := q + [last];
      assert js[..n] == q;
      forall i | 0 <= i < |left| ensures MatchedAt(lk, rk, left[i], right, js[i]) {
        if i < n { assert MatchedAt(lk, rk, left[..n][i], right, q[i]); }
      }
    }
  }

  // ----- Laws of Keep -----

  lemma {:induction false} KeepConcat(preds: seq<Expr>, a: seq<Row>, b: seq<Row>)
    ensures Keep(preds, a + b) == Keep(preds, a) + Keep(preds, b)
  {
    if b == [] {
      assert a + b == a;
    } else {
      var n := |b| - 1;
      assert (a + b)[..|a + b| - 1] == a + b[..n];
      KeepConcat(preds, a, b[..n]);
    }
  }

  /** Filtering by two lists of predicates is filtering by one, then by the other. */
  lemma {:induction false} KeepTwice(p: seq<Expr>, q: seq<Expr>, rows: seq<Row>)
    ensures Keep(p, Keep(q, rows)) == Keep(p + q, rows)
  {
    if rows != [] {
      var n := |rows| - 1;
      KeepTwice(p, q, rows[..n]);
      var last := if AllHold(q, rows[n]) then [rows[n]] else [];
      KeepConcat(p, Keep(q, rows[..n]), last);
      assert AllHold(p + q, rows[n]) <==> AllHold(p, rows[n]) && AllHold(q, rows[n]);
      assert Keep(p, last) == if AllHold(q, rows[n]) && AllHold(p, rows[n]) then [rows[n]] else [];
    }
  }

  lemma KeepMore(preds: seq<Expr>, rows: seq<Row>, x: Row)
    ensures Keep(preds, rows + [x]) == if AllHold(preds, x) then Keep(preds, rows) + [x] else Keep(preds, rows)
  {
    assert (rows + [x])[..|rows|] == rows;
  }

  lemma KeepOne(preds: seq<Expr>, row: Row)
    ensures Keep(preds, [row]) == if AllHold(preds, row) then [row] else []
  {
    assert [row][..0] == [];
  }

  lemma {:induction false} KeepMembers(preds: seq<Expr>, rows: seq<Row>)
    ensures forall r <- Keep(preds, rows) :: r in rows
  {
    if rows != [] {
      KeepMembers(preds, rows[..|rows| - 1]);
    }
  }

  lemma {:induction false} KeepNothing(rows: seq<Row>)
    ensures Keep([], rows) == rows
  {
    if rows != [] {
      KeepNothing(rows[..|rows| - 1]);
    }
  }

  /** Lists of predicates that agree on every row keep the same rows. */
  lemma {:induction false} KeepAgrees(p: seq<Expr>, q: seq<Expr>, rows: seq<Row>)
    requires forall r <- rows :: AllHold(p, r) <==> AllHold(q, r)
    ensures Keep(p, rows) == Keep(q, rows)
  {
    if rows != [] {
      KeepAgrees(p, q, rows[..|rows| - 1]);
    }
  }

  // ----- Members of sorted rows -----

  lemma {:induction false} InsertRowMembers(keys: seq<Expr>, asc: seq<bool>, x: Row, s: seq<Row>)
    requires |keys| == |asc|
    ensures forall r :: r in InsertRow(keys, asc, x, s) <==> r == x || r in s
  {
    if s != [] {
      InsertRowMembers(keys, asc, x, s[..|s| - 1]);
      assert s == s[..|s| - 1] + [s[|s| - 1]];
    }
  }

  lemma {:induction false} StableSortMembers(keys: seq<Expr>, asc: seq<bool>, rows: seq<Row>)
    requires |keys| == |asc|
    ensures forall r :: r in StableSort(keys, asc, rows) <==> r in rows
  {
    if rows != [] {
      var n := |rows| - 1;
      StableSortMembers(keys, asc, rows[..n]);
      InsertRowMembers(keys, asc, rows[n], StableSort(keys, asc, rows[..n]));
      assert rows == rows[..n] + [rows[n]];
    }
  }
}
