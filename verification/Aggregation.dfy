/** The aggregation sink over the hash table, and what its accumulators mean. */
module Aggregation {
  import opened Cells
  import opened Relational
  import opened ColumnSegments
  import opened HashJoin
  import opened AggTable

  // ----- Specification: rows added one at a time -----

  predicate Sized(gs: seq<Group>, n: nat) { forall i :: 0 <= i < |gs| ==> |gs[i].states| == n }

  function Bump(aggs: seq<AggExpr>, states: seq<AggState>, row: Row): seq<AggState>
    requires |states| == |aggs|
  {
    seq(|aggs|, j requires 0 <= j < |aggs| => UpdateAgg(aggs[j], states[j], row))
  }

  /** The row goes into the group of its key, which is created if need be. */
  function AddRow(aggs: seq<AggExpr>, gs: seq<Group>, key: Row, row: Row): (r: seq<Group>)
    requires Sized(gs, |aggs|)
    ensures Sized(r, |aggs|)
  {
    var t := Touch(gs, key, |aggs|);
    seq(|t|, i requires 0 <= i < |t| => if t[i].key == key then Group(key, Bump(aggs, t[i].states, row)) else t[i])
  }

  function AddRows(aggs: seq<AggExpr>, gs: seq<Group>, ks: seq<Row>, rows: seq<Row>): (r: seq<Group>)
    requires Sized(gs, |aggs|) && |ks| == |rows|
    ensures Sized(r, |aggs|)
  {
    if rows == [] then gs
    else
      var n := |rows| - 1;
      AddRow(aggs, AddRows(aggs, gs, ks[..n], rows[..n]), ks[n], rows[n])
  }

  /** Adding rows one at a time groups them: every accumulator is folded over exactly the
      rows of its own key, and groups appear in order of their first row. */
  lemma {:induction false} AddRowsIsGroupBy(groups: seq<Expr>, aggs: seq<AggExpr>, rows: seq<Row>)
    ensures AddRows(aggs, [], Project(groups, rows), rows) == GroupBy(groups, aggs, rows)
  {
    if rows != [] {
      var n := |rows| - 1;
      AddRowsIsGroupBy(groups, aggs, rows[..n]);
      KeysPrefix(groups, rows);
      AddRowGroups(groups, aggs, rows[..n], rows[n]);
    }
  }

  lemma KeysPrefix(groups: seq<Expr>, rows: seq<Row>)
    requires rows != []
    ensures
      var n := |rows| - 1;
      && Project(groups, rows)[..n] == Project(groups, rows[..n])
      && Project(groups, rows)[n] == EvalAll(groups, rows[n])
      && rows[..n] + [rows[n]] == rows
  {
  }

  lemma TouchKeys(gs: seq<Group>, keys: seq<Row>, key: Row, n: nat)
    requires |gs| == |keys| && forall i :: 0 <= i < |gs| ==> gs[i].key == keys[i]
    ensures HasKey(gs, key) <==> key in keys
  {
    if key in keys { var i :| 0 <= i < |keys| && keys[i] == key; assert gs[i].key == key; }
  }

  lemma AddRowGroups(groups: seq<Expr>, aggs: seq<AggExpr>, rows: seq<Row>, row: Row)
    ensures Sized(GroupBy(groups, aggs, rows), |aggs|)
    ensures AddRow(aggs, GroupBy(groups, aggs, rows), EvalAll(groups, row), row) == GroupBy(groups, aggs, rows + [row])
  {
    var key, keys, gs := EvalAll(groups, row), GroupKeys(groups, rows), GroupBy(groups, aggs, rows);
    var rows', t := rows + [row], Touch(gs, key, |aggs|);
    assert rows'[..|rows|] == rows;
    TouchKeys(gs, keys, key, |aggs|);
    var keys' := GroupKeys(groups, rows');
    assert keys' == if key in keys then keys else keys + [key];
    if key !in keys { NoRows(groups, key, rows); }
    forall i | 0 <= i < |t|
      ensures t[i].key == keys'[i] && t[i].states == FoldAll(aggs, GroupRows(groups, keys'[i], rows))
    {
      if i == |gs| { assert t[i].states == FoldAll(aggs, []); }
    }
    forall i | 0 <= i < |t| ensures AddRow(aggs, gs, key, row)[i] == GroupBy(groups, aggs, rows')[i] {
      GrowGroup(groups, aggs, keys'[i], rows, row);
    }
  }

  function FoldAll(aggs: seq<AggExpr>, rows: seq<Row>): seq<AggState> {
    seq(|aggs|, j requires 0 <= j < |aggs| => FoldAgg(aggs[j], rows))
  }

  lemma {:induction false} NoRows(groups: seq<Expr>, key: Row, rows: seq<Row>)
    requires key !in GroupKeys(groups, rows)
    ensures GroupRows(groups, key, rows) == []
  {
    if rows != [] { NoRows(groups, key, rows[..|rows| - 1]); }
  }

  lemma GrowGroup(groups: seq<Expr>, aggs: seq<AggExpr>, key: Row, rows: seq<Row>, row: Row)
    ensures EvalAll(groups, row) == key ==>
      FoldAll(aggs, GroupRows(groups, key, rows + [row])) ==
      Bump(aggs, FoldAll(aggs, GroupRows(groups, key, rows)), row)
    ensures EvalAll(groups, row) != key ==> GroupRows(groups, key, rows + [row]) == GroupRows(groups, key, rows)
  {
    assert (rows + [row])[..|rows|] == rows;
    if EvalAll(groups, row) == key {
      var g := GroupRows(groups, key, rows);
      assert (g + [row])[..|g|] == g;
      assert GroupRows(groups, key, rows + [row]) == g + [row];
      forall j | 0 <= j < |aggs| ensures FoldAgg(aggs[j], g + [row]) == UpdateAgg(aggs[j], FoldAgg(aggs[j], g), row) {}
    }
  }

  lemma OneRowMore(aggs: seq<AggExpr>, gs: seq<Group>, ks: seq<Row>, rows: seq<Row>, r: nat)
    requires Sized(gs, |aggs|) && r < |ks| == |rows|
    ensures AddRows(aggs, gs, ks[..r + 1], rows[..r + 1]) ==
      AddRow(aggs, AddRows(aggs, gs, ks[..r], rows[..r]), ks[r], rows[r])
  {
    assert ks[..r + 1][..r] == ks[..r] && rows[..r + 1][..r] == rows[..r];
  }

  lemma {:induction false} AddRowsConcat(aggs: seq<AggExpr>, gs: seq<Group>, k1: seq<Row>, r1: seq<Row>, k2: seq<Row>,
      r2: seq<Row>)
    requires Sized(gs, |aggs|) && |k1| == |r1| && |k2| == |r2|
    ensures AddRows(aggs, gs, k1 + k2, r1 + r2) == AddRows(aggs, AddRows(aggs, gs, k1, r1), k2, r2)
  {
    if r2 == [] {
      assert k1 + k2 == k1 && r1 + r2 == r1;
    } else {
      var n := |r2| - 1;
      AddRowsConcat(aggs, gs, k1, r1, k2[..n], r2[..n]);
      assert (k1 + k2)[..|r1 + r2| - 1] == k1 + k2[..n] && (r1 + r2)[..|r1 + r2| - 1] == r1 + r2[..n];
    }
  }

  // ----- The scalar fast path -----

  function UpdateMany(a: AggExpr, s: AggState, rows: seq<Row>): AggState {
    if rows == [] then s else UpdateAgg(a, UpdateMany(a, s, rows[..|rows| - 1]), rows[|rows| - 1])
  }

  function BumpMany(aggs: seq<AggExpr>, states: seq<AggState>, rows: seq<Row>): seq<AggState>
    requires |states| == |aggs|
  {
    seq(|aggs|, j requires 0 <= j < |aggs| => UpdateMany(aggs[j], states[j], rows))
  }

  /** COUNT(*) over a chunk is one addition. */
  lemma {:induction false} StarMany(a: AggExpr, s: AggState, rows: seq<Row>)
    requires a.isStar
    ensures UpdateMany(a, s, rows) == s.(count := s.count + |rows|)
  {
    if rows != [] { StarMany(a, s, rows[..|rows| - 1]); }
  }

  /** One lookup for a whole chunk. */
  function AddChunk(aggs: seq<AggExpr>, gs: seq<Group>, key: Row, rows: seq<Row>): seq<Group>
    requires Sized(gs, |aggs|)
  {
    var t := Touch(gs, key, |aggs|);
    seq(|t|, i requires 0 <= i < |t| => if t[i].key == key then Group(key, BumpMany(aggs, t[i].states, rows)) else t[i])
  }

  function Same(key: Row, n: nat): seq<Row> { seq(n, _ => key) }

  lemma OneRow(aggs: seq<AggExpr>, states: seq<AggState>, rows: seq<Row>)
    requires |states| == |aggs| && |rows| == 1
    ensures BumpMany(aggs, states, rows) == Bump(aggs, states, rows[0])
  {
    forall j | 0 <= j < |aggs| ensures UpdateMany(aggs[j], states[j], rows) == UpdateAgg(aggs[j], states[j], rows[0]) {
      assert rows[..|rows| - 1] == [];
    }
  }

  /** Looking the one key up once per chunk is looking it up for every row. */
  lemma {:induction false} ChunkIsRows(aggs: seq<AggExpr>, gs: seq<Group>, key: Row, rows: seq<Row>)
    requires Sized(gs, |aggs|) && rows != []
    ensures AddChunk(aggs, gs, key, rows) == AddRows(aggs, gs, Same(key, |rows|), rows)
  {
    var n := |rows| - 1;
    assert Same(key, |rows|)[..n] == Same(key, n);
    if n == 0 {
      assert AddRows(aggs, gs, Same(key, 0), rows[..0]) == gs;
      FirstOfChunk(aggs, gs, key, rows);
    } else {
      ChunkIsRows(aggs, gs, key, rows[..n]);
      NextOfChunk(aggs, gs, key, rows);
    }
  }

  lemma FirstOfChunk(aggs: seq<AggExpr>, gs: seq<Group>, key: Row, rows: seq<Row>)
    requires Sized(gs, |aggs|) && |rows| == 1
    ensures AddChunk(aggs, gs, key, rows) == AddRow(aggs, gs, key, rows[0])
  {
    var t := Touch(gs, key, |aggs|);
    forall i | 0 <= i < |t| ensures BumpMany(aggs, t[i].states, rows) == Bump(aggs, t[i].states, rows[0]) {
      OneRow(aggs, t[i].states, rows);
    }
  }

  lemma NextOfChunk(aggs: seq<AggExpr>, gs: seq<Group>, key: Row, rows: seq<Row>)
    requires Sized(gs, |aggs|) && |rows| > 1
    ensures
      var before := AddChunk(aggs, gs, key, rows[..|rows| - 1]);
      Sized(before, |aggs|) && AddChunk(aggs, gs, key, rows) == AddRow(aggs, before, key, rows[|rows| - 1])
  {
    var n, t := |rows| - 1, Touch(gs, key, |aggs|);
    var before := AddChunk(aggs, gs, key, rows[..n]);
    var k :| 0 <= k < |t| && t[k].key == key;
    assert before[k].key == key;
    assert Touch(before, key, |aggs|) == before;
    forall i | 0 <= i < |t| ensures BumpMany(aggs, t[i].states, rows) ==
      Bump(aggs, BumpMany(aggs, t[i].states, rows[..n]), rows[n]) {}
  }

  // ----- The sink -----

  /** The accumulators of the first j aggregates updated, the others still to do. */
  function Partly(before: seq<AggState>, after: seq<AggState>, j: nat): seq<AggState>
    requires |before| == |after| && j <= |before|
  {
    after[..j] + before[j..]
  }

  lemma PartlyNext(before: seq<AggState>, after: seq<AggState>, j: nat)
    requires |before| == |after| && j < |before|
    ensures Partly(before, after, j)[j] == before[j]
    ensures Partly(before, after, j)[j := after[j]] == Partly(before, after, j + 1)
  {
  }

  /** The argument of each aggregate, evaluated on the whole chunk; COUNT(*) has none. */
  method EvaluateArgs(aggs: seq<AggExpr>, input: Chunk) returns (vecs: seq<seq<Cell>>)
    requires input.Valid() && forall a <- aggs :: !a.isStar ==> RefsBelow(a.arg, |input.columns|)
    ensures |vecs| == |aggs|
    ensures forall j :: 0 <= j < |aggs| && !aggs[j].isStar ==> ArgColumn(aggs[j], input, vecs[j])
  {
    vecs := [];
    for j := 0 to |aggs|
      invariant |vecs| == j && forall i :: 0 <= i < j && !aggs[i].isStar ==> ArgColumn(aggs[i], input, vecs[i])
    {
      var v: seq<Cell> := [];
      assert aggs[j] in aggs;
      if !aggs[j].isStar { v := Evaluate(aggs[j].arg, input); }
      vecs := vecs + [v];
    }
  }

  ghost predicate ArgColumn(a: AggExpr, input: Chunk, v: seq<Cell>)
    requires input.Valid()
  {
    |v| == input.count && forall r :: 0 <= r < input.count ==> v[r] == Eval(a.arg, input.RowAt(r))
  }

  /** Group keys of the chunk, boxed. */
  method EvaluateGroupKeys(groups: seq<Expr>, input: Chunk) returns (ks: seq<Row>)
    requires input.Valid() && forall g <- groups :: RefsBelow(g, |input.columns|)
    ensures ks == BoxRows(Project(groups, input.Rows()))
  {
    var vecs: seq<seq<Cell>> := [];
    for k := 0 to |groups|
      invariant |vecs| == k
      invariant forall i :: 0 <= i < k ==>
        |vecs[i]| == input.count && forall r :: 0 <= r < input.count ==> vecs[i][r] == Eval(groups[i], input.RowAt(r))
    {
      assert groups[k] in groups;
      var v := Evaluate(groups[k], input);
      vecs := vecs + [v];
    }
    ks := [];
    for r := 0 to input.count
      invariant |ks| == r && forall q :: 0 <= q < r ==> ks[q] == BoxRow(EvalAll(groups, input.RowAt(q)))
    {
      var key := seq(|groups|, k requires 0 <= k < |groups| => Box(vecs[k][r]));
      assert key == BoxRow(EvalAll(groups, input.RowAt(r)));
      ks := ks + [key];
    }
    assert ks == BoxRows(Project(groups, input.Rows()));
  }

  class PhysicalHashAggregation {
    const groups: seq<Expr>
    const aggs: seq<AggExpr>
    const ht: AggregateHashTable

    constructor (hash: Row -> nat, groups: seq<Expr>, aggs: seq<AggExpr>)
      ensures Valid() && fresh(ht) && this.groups == groups && this.aggs == aggs && ht.Groups() == []
    {
      this.groups, this.aggs := groups, aggs;
      ht := new AggregateHashTable(hash, |aggs|);
    }

    ghost predicate Valid()
      reads this, ht
    {
      ht.Valid() && ht.numAggregates == |aggs|
    }

    ghost predicate Fits(input: Chunk) {
      && input.Valid()
      && (forall a <- aggs :: !a.isStar ==> RefsBelow(a.arg, |input.columns|))
      && forall g <- groups :: RefsBelow(g, |input.columns|)
    }

    /** Write new accumulators into one entry, one aggregate at a time. */
    method Store(idx: nat, states: seq<AggState>)
      requires Valid() && idx < |ht.pool| && |states| == |aggs|
      modifies ht`pool
      ensures Valid()
      ensures ht.Groups() == old(ht.Groups())[idx := old(ht.Groups()[idx]).(states := states)]
    {
      ghost var before := ht.Groups();
      ghost var was := before[idx].states;
      assert before[idx := before[idx].(states := Partly(was, states, 0))] == before by {
        assert Partly(was, states, 0) == was;
      }
      for j := 0 to |aggs|
        invariant Valid() && |ht.pool| == |before| && |was| == |aggs|
        invariant ht.Groups() == before[idx := before[idx].(states := Partly(was, states, j))]
      {
        PartlyNext(was, states, j);
        ht.SetState(idx, j, states[j]);
      }
      assert Partly(was, states, |aggs|) == states;
    }

    method Consume(input: Chunk)
      requires Valid() && Fits(input)
      modifies ht
      ensures Valid()
      ensures ht.Groups() == AddRows(aggs, old(ht.Groups()), BoxRows(Project(groups, input.Rows())), input.Rows())
    {
      if input.count == 0 {
        return;
      }
      var vecs := EvaluateArgs(aggs, input);
      if groups == [] {
        ConsumeScalar(input, vecs);
      } else {
        ConsumeGrouped(input, vecs);
      }
    }

    /** Without GROUP BY: one lookup per chunk, and COUNT(*) in one addition. */
    method ConsumeScalar(input: Chunk, vecs: seq<seq<Cell>>)
      requires Valid() && Fits(input) && input.count > 0 && groups == [] && |vecs| == |aggs|
      requires forall j :: 0 <= j < |aggs| && !aggs[j].isStar ==> ArgColumn(aggs[j], input, vecs[j])
      modifies ht
      ensures Valid()
      ensures ht.Groups() == AddRows(aggs, old(ht.Groups()), BoxRows(Project(groups, input.Rows())), input.Rows())
    {
      ghost var gs, rows := ht.Groups(), input.Rows();
      var idx := ht.FindOrCreate([]);
      OnlyKey(ht.pool, idx, []);
      StoredScalar(aggs, gs, rows, idx);
      var states := FoldChunk(aggs, ht.pool[idx].states, input, vecs);
      Store(idx, states);
    }

    /** With GROUP BY: one lookup per row. */
    method ConsumeGrouped(input: Chunk, vecs: seq<seq<Cell>>)
      requires Valid() && Fits(input) && |vecs| == |aggs|
      requires forall j :: 0 <= j < |aggs| && !aggs[j].isStar ==> ArgColumn(aggs[j], input, vecs[j])
      modifies ht
      ensures Valid()
      ensures ht.Groups() == AddRows(aggs, old(ht.Groups()), BoxRows(Project(groups, input.Rows())), input.Rows())
    {
      var ks := EvaluateGroupKeys(groups, input);
      ghost var gs, rows := ht.Groups(), input.Rows();
      for r := 0 to input.count
        invariant Valid()
        invariant ht.Groups() == AddRows(aggs, gs, ks[..r], rows[..r])
      {
        AddOne(ks[r], input, r, vecs);
        OneRowMore(aggs, gs, ks, rows, r);
      }
      assert ks[..input.count] == ks && rows[..input.count] == rows;
    }

    method AddOne(key: Row, input: Chunk, r: nat, vecs: seq<seq<Cell>>)
      requires Valid() && Fits(input) && |vecs| == |aggs| && r < input.count
      requires forall j :: 0 <= j < |aggs| && !aggs[j].isStar ==> ArgColumn(aggs[j], input, vecs[j])
      modifies ht
      ensures Valid() && ht.Groups() == AddRow(aggs, old(ht.Groups()), key, input.RowAt(r))
    {
      ghost var gs := ht.Groups();
      var idx := ht.FindOrCreate(key);
      OnlyKey(ht.pool, idx, key);
      StoredRow(aggs, gs, key, input.RowAt(r), idx);
      var states := FoldRow(aggs, ht.pool[idx].states, input, r, vecs);
      Store(idx, states);
    }
  }

  ghost predicate OnlyAt(t: seq<Group>, idx: nat, key: Row) {
    idx < |t| && forall i :: 0 <= i < |t| ==> (t[i].key == key <==> i == idx)
  }

  lemma OnlyKey(pool: seq<AggEntry>, idx: nat, key: Row)
    requires DistinctKeys(pool) && idx < |pool| && pool[idx].key == key
    ensures OnlyAt(GroupsOf(pool), idx, key)
  {
  }

  lemma StoredRow(aggs: seq<AggExpr>, gs: seq<Group>, key: Row, row: Row, idx: nat)
    requires Sized(gs, |aggs|) && OnlyAt(Touch(gs, key, |aggs|), idx, key)
    ensures
      var t := Touch(gs, key, |aggs|);
      |t[idx].states| == |aggs| &&
        t[idx := t[idx].(states := Bump(aggs, t[idx].states, row))] == AddRow(aggs, gs, key, row)
  {
  }

  lemma StoredChunk(aggs: seq<AggExpr>, gs: seq<Group>, key: Row, rows: seq<Row>, idx: nat)
    requires Sized(gs, |aggs|) && OnlyAt(Touch(gs, key, |aggs|), idx, key)
    ensures
      var t := Touch(gs, key, |aggs|);
      |t[idx].states| == |aggs| &&
        t[idx := t[idx].(states := BumpMany(aggs, t[idx].states, rows))] == AddChunk(aggs, gs, key, rows)
  {
  }

  lemma StoredScalar(aggs: seq<AggExpr>, gs: seq<Group>, rows: seq<Row>, idx: nat)
    requires Sized(gs, |aggs|) && rows != [] && OnlyAt(Touch(gs, [], |aggs|), idx, [])
    ensures
      var t := Touch(gs, [], |aggs|);
      && |t[idx].states| == |aggs|
      && t[idx := t[idx].(states := BumpMany(aggs, t[idx].states, rows))] ==
        AddRows(aggs, gs, BoxRows(Project([], rows)), rows)
  {
    StoredChunk(aggs, gs, [], rows, idx);
    ChunkIsRows(aggs, gs, [], rows);
    forall i | 0 <= i < |rows| ensures BoxRow(EvalAll([], rows[i])) == [] {}
    assert BoxRows(Project([], rows)) == Same([], |rows|);
  }

  method FoldRow(aggs: seq<AggExpr>, states: seq<AggState>, input: Chunk, r: nat, vecs: seq<seq<Cell>>)
      returns (out: seq<AggState>)
    requires input.Valid() && |states| == |vecs| == |aggs| && r < input.count
    requires forall j :: 0 <= j < |aggs| && !aggs[j].isStar ==> ArgColumn(aggs[j], input, vecs[j])
    ensures out == Bump(aggs, states, input.RowAt(r))
  {
    out := [];
    for j := 0 to |aggs|
      invariant |out| == j && forall i :: 0 <= i < j ==> out[i] == UpdateAgg(aggs[i], states[i], input.RowAt(r))
    {
      if aggs[j].isStar {
        out := out + [states[j].(count := states[j].count + 1)];
      } else {
        out := out + [UpdateState(aggs[j].func, states[j], vecs[j][r])];
      }
    }
  }

  method FoldChunk(aggs: seq<AggExpr>, states: seq<AggState>, input: Chunk, vecs: seq<seq<Cell>>)
      returns (out: seq<AggState>)
    requires input.Valid() && |states| == |vecs| == |aggs|
    requires forall j :: 0 <= j < |aggs| && !aggs[j].isStar ==> ArgColumn(aggs[j], input, vecs[j])
    ensures out == BumpMany(aggs, states, input.Rows())
  {
    ghost var rows := input.Rows();
    out := [];
    for j := 0 to |aggs|
      invariant |out| == j && forall i :: 0 <= i < j ==> out[i] == UpdateMany(aggs[i], states[i], rows)
    {
      if aggs[j].isStar {
        StarMany(aggs[j], states[j], rows);
        out := out + [states[j].(count := states[j].count + input.count)];
      } else {
        var s := FoldColumn(aggs[j], states[j], input, vecs[j]);
        out := out + [s];
      }
    }
  }

  method FoldColumn(a: AggExpr, state: AggState, input: Chunk, v: seq<Cell>) returns (s: AggState)
    requires input.Valid() && !a.isStar && ArgColumn(a, input, v)
    ensures s == UpdateMany(a, state, input.Rows())
  {
    ghost var rows := input.Rows();
    s := state;
    for r := 0 to input.count
      invariant s == UpdateMany(a, state, rows[..r])
    {
      assert rows[..r + 1][..r] == rows[..r];
      s := UpdateState(a.func, s, v[r]);
    }
    assert rows[..input.count] == rows;
  }

  // ----- A whole aggregation -----

  lemma KeysConcat(groups: seq<Expr>, a: seq<Row>, b: seq<Row>)
    ensures BoxRows(Project(groups, a + b)) == BoxRows(Project(groups, a)) + BoxRows(Project(groups, b))
  {
  }

  predicate Whole(key: Row) { forall c :: 0 <= c < |key| ==> !key[c].Null? }

  /** Keys of groups are keys of rows: if these have no NULL, neither have those. */
  lemma {:induction false} AddedKeys(aggs: seq<AggExpr>, ks: seq<Row>, rows: seq<Row>)
    requires |ks| == |rows| && forall i :: 0 <= i < |ks| ==> Whole(ks[i])
    ensures forall i :: 0 <= i < |AddRows(aggs, [], ks, rows)| ==> Whole(AddRows(aggs, [], ks, rows)[i].key)
  {
    if rows != [] { AddedKeys(aggs, ks[..|rows| - 1], rows[..|rows| - 1]); }
  }

  lemma {:induction false} KeyHasGroup(groups: seq<Expr>, rows: seq<Row>, i: nat)
    requires i < |rows|
    ensures EvalAll(groups, rows[i]) in GroupKeys(groups, rows)
  {
    var n := |rows| - 1;
    if i < n { KeyHasGroup(groups, rows[..n], i); }
  }

  /** A NULL key is a group of its own in GROUP BY and never one of the table. */
  lemma NullKeyLost(groups: seq<Expr>, aggs: seq<AggExpr>, rows: seq<Row>)
    requires !NullFree(Project(groups, rows))
    ensures AddRows(aggs, [], BoxRows(Project(groups, rows)), rows) != GroupBy(groups, aggs, rows)
  {
    var ks: seq<Row> := Project(groups, rows);
    var i: nat, c: nat :| i < |ks| && c < |ks[i]| && ks[i][c].Null?;
    KeyHasGroup(groups, rows, i);
    var keys := GroupKeys(groups, rows);
    var g :| 0 <= g < |keys| && keys[g] == ks[i];
    AddedKeys(aggs, BoxRows(ks), rows);
    assert !Whole(GroupBy(groups, aggs, rows)[g].key);
  }

  /** The sink over all chunks. */
  method FillTable(hash: Row -> nat, groups: seq<Expr>, aggs: seq<AggExpr>, chunks: seq<Chunk>)
      returns (ht: AggregateHashTable)
    requires forall c <- chunks :: c.Valid()
    requires forall c <- chunks, a <- aggs :: !a.isStar ==> RefsBelow(a.arg, |c.columns|)
    requires forall c <- chunks, g <- groups :: RefsBelow(g, |c.columns|)
    ensures fresh(ht) && ht.Valid() && ht.numAggregates == |aggs|
    ensures ht.Groups() == AddRows(aggs, [], BoxRows(Project(groups, Concat(chunks))), Concat(chunks))
  {
    var sink := new PhysicalHashAggregation(hash, groups, aggs);
    for i := 0 to |chunks|
      invariant sink.Valid() && fresh(sink.ht) && sink.groups == groups && sink.aggs == aggs
      invariant sink.ht.Groups() ==
        AddRows(aggs, [], BoxRows(Project(groups, Concat(chunks[..i]))), Concat(chunks[..i]))
    {
      assert chunks[i] in chunks && chunks[..i + 1][..i] == chunks[..i];
      ghost var done, more := Concat(chunks[..i]), chunks[i].Rows();
      sink.Consume(chunks[i]);
      KeysConcat(groups, done, more);
      AddRowsConcat(aggs, [], BoxRows(Project(groups, done)), done, BoxRows(Project(groups, more)), more);
    }
    assert chunks[..|chunks|] == chunks;
    ht := sink.ht;
  }

  /** The groups left after all chunks, for any chunking and any hash function: exactly
      GROUP BY if and only if no key holds a NULL. */
  method Aggregate(hash: Row -> nat, groups: seq<Expr>, aggs: seq<AggExpr>, chunks: seq<Chunk>)
      returns (result: seq<Group>)
    requires forall c <- chunks :: c.Valid()
    requires forall c <- chunks, a <- aggs :: !a.isStar ==> RefsBelow(a.arg, |c.columns|)
    requires forall c <- chunks, g <- groups :: RefsBelow(g, |c.columns|)
    ensures result == AddRows(aggs, [], BoxRows(Project(groups, Concat(chunks))), Concat(chunks))
    ensures result == GroupBy(groups, aggs, Concat(chunks)) <==> NullFree(Project(groups, Concat(chunks)))
  {
    var ht := FillTable(hash, groups, aggs, chunks);
    result := ht.Groups();
    ghost var rows := Concat(chunks);
    if NullFree(Project(groups, rows)) { BoxNullFree(Project(groups, rows)); } else { NullKeyLost(groups, aggs, rows); }
    AddRowsIsGroupBy(groups, aggs, rows);
  }

  /** A NULL key shares the group of zero. */
  lemma NullGroupsWithZero(aggs: seq<AggExpr>)
    ensures
      var g, rows := [Ref(0, Int64)], [[Null], [Int(0)]];
      |AddRows(aggs, [], BoxRows(Project(g, rows)), rows)| == 1 && |GroupBy(g, aggs, rows)| == 2
  {
    var g, rows := [Ref(0, Int64)], [[Null], [Int(0)]];
    var zero := [Int(0)];
    assert EvalAll(g, rows[0]) == [Null] && EvalAll(g, rows[1]) == zero;
    assert BoxRow([Null]) == zero && BoxRow(zero) == zero;
    assert Project(g, rows) == [[Null], zero];
    assert BoxRows(Project(g, rows)) == [zero, zero];
    OneGroup(aggs, zero, rows[0], rows[1]);
    TwoKeys(g, rows[0], rows[1]);
  }

  lemma OneGroup(aggs: seq<AggExpr>, key: Row, a: Row, b: Row)
    ensures |AddRows(aggs, [], [key, key], [a, b])| == 1
  {
    assert Same(key, 2) == [key, key];
    ChunkIsRows(aggs, [], key, [a, b]);
  }

  lemma TwoKeys(groups: seq<Expr>, a: Row, b: Row)
    requires EvalAll(groups, a) != EvalAll(groups, b)
    ensures GroupKeys(groups, [a, b]) == [EvalAll(groups, a), EvalAll(groups, b)]
  {
    assert [a, b][..1] == [a] && [a][..0] == [];
    assert GroupKeys(groups, [a]) == [EvalAll(groups, a)];
  }

  // ----- What the accumulators mean -----

  function Values(e: Expr, rows: seq<Row>): seq<Cell> { seq(|rows|, i requires 0 <= i < |rows| => Eval(e, rows[i])) }

  function Present(cells: seq<Cell>): nat {
    if cells == [] then 0 else Present(cells[..|cells| - 1]) + if cells[|cells| - 1].Null? then 0 else 1
  }

  /** COUNT(e) counts the present values, COUNT(*) the rows. */
  lemma {:induction false} CountMeaning(a: AggExpr, rows: seq<Row>)
    ensures FoldAgg(a, rows).count == if a.isStar then |rows| else Present(Values(a.arg, rows))
  {
    if rows != [] {
      var n := |rows| - 1;
      CountMeaning(a, rows[..n]);
      assert Values(a.arg, rows)[..n] == Values(a.arg, rows[..n]);
    }
  }

  /** MIN is a least present value of the group, and NULL exactly when there is none. */
  lemma {:induction false} MinMeaning(k: Kind, a: AggExpr, rows: seq<Row>)
    requires a.func.Min_? && !a.isStar && OfKind(k, Values(a.arg, rows))
    ensures
      var m, vs := FoldAgg(a, rows).minVal, Values(a.arg, rows);
      && (m.Null? <==> forall v <- vs :: v.Null?) && (!m.Null? ==> m in vs)
      && forall v <- vs :: !v.Null? ==> CompareCells(m, v) <= 0
  {
    if rows != [] {
      var n := |rows| - 1;
      var vs := Values(a.arg, rows);
      assert vs == Values(a.arg, rows[..n]) + [vs[n]];
      MinMeaning(k, a, rows[..n]);
      var m, c := FoldAgg(a, rows[..n]).minVal, vs[n];
      forall v | v in vs && !v.Null? ensures CompareCells(FoldAgg(a, rows).minVal, v) <= 0 {
        LeastOf(k, m, c, v);
      }
    }
  }

  lemma LeastOf(k: Kind, m: Cell, c: Cell, v: Cell)
    requires HasKind(k, m) && HasKind(k, c) && HasKind(k, v) && !v.Null?
    requires v == c || (!m.Null? && CompareCells(m, v) <= 0)
    ensures CompareCells(if c.Null? then m else if m.Null? || CompareCells(c, m) < 0 then c else m, v) <= 0
  {
    CompareCellsTotal(v, v);
    if !c.Null? && !m.Null? {
      CompareCellsTotal(c, m);
      if CompareCells(c, m) < 0 && v != c { CompareCellsTransitive(c, m, v); }
    }
  }

  /** MAX is a greatest present value of the group, and NULL exactly when there is none. */
  lemma {:induction false} MaxMeaning(k: Kind, a: AggExpr, rows: seq<Row>)
    requires a.func.Max_? && !a.isStar && OfKind(k, Values(a.arg, rows))
    ensures
      var m, vs := FoldAgg(a, rows).maxVal, Values(a.arg, rows);
      && (m.Null? <==> forall v <- vs :: v.Null?) && (!m.Null? ==> m in vs)
      && forall v <- vs :: !v.Null? ==> CompareCells(v, m) <= 0
  {
    if rows != [] {
      var n := |rows| - 1;
      var vs := Values(a.arg, rows);
      assert vs == Values(a.arg, rows[..n]) + [vs[n]];
      MaxMeaning(k, a, rows[..n]);
      var m, c := FoldAgg(a, rows[..n]).maxVal, vs[n];
      forall v | v in vs && !v.Null? ensures CompareCells(v, FoldAgg(a, rows).maxVal) <= 0 {
        GreatestOf(k, m, c, v);
      }
    }
  }

  lemma GreatestOf(k: Kind, m: Cell, c: Cell, v: Cell)
    requires HasKind(k, m) && HasKind(k, c) && HasKind(k, v) && !v.Null?
    requires v == c || (!m.Null? && CompareCells(v, m) <= 0)
    ensures CompareCells(v, if c.Null? then m else if m.Null? || CompareCells(m, c) < 0 then c else m) <= 0
  {
    CompareCellsTotal(v, v);
    if !c.Null? && !m.Null? {
      CompareCellsTotal(c, m);
      if CompareCells(m, c) < 0 && v != c { CompareCellsTransitive(v, m, c); }
    }
  }
}
