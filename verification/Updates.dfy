/** UPDATE statements and their undo.

    A statement goes through the table batch by batch: it saves the old values of the rows
    it is about to overwrite, writes the new ones in place, and pushes the old ones.  The
    specification sets every visible matching row at once.  Rollback writes the old values
    back, newest batch first. */
module Updates {
  import opened Basics
  import opened Cells
  import opened ColumnSegments

  type Columns = seq<Vector>

  /** What one batch did to a row group: which rows, which columns, and what was there. */
  datatype UpdateUndo = UpdateUndo(group: nat, offsets: seq<nat>, cols: seq<nat>, oldValues: seq<Vector>)

  /** The old values are those of the given columns at the given rows. */
  ghost predicate Saved(u: UpdateUndo, columns: Columns) {
    && |u.oldValues| == |u.cols|
    && forall c :: 0 <= c < |u.cols| ==> u.cols[c] < |columns| && IsSlice(u.oldValues[c], columns[u.cols[c]], u.offsets)
  }

  ghost predicate IsSlice(vals: Vector, rows: Vector, offsets: seq<nat>) {
    |vals| == |offsets| && forall k :: 0 <= k < |offsets| ==> offsets[k] < |rows| && vals[k] == rows[offsets[k]]
  }

  /** Two column sets that differ at most in the rows and columns of the batch. */
  ghost predicate DifferOnlyIn(a: Columns, b: Columns, cols: seq<nat>, offsets: seq<nat>) {
    && |a| == |b|
    && forall c :: 0 <= c < |a| ==>
      |a[c]| == |b[c]| && (c !in cols ==> a[c] == b[c]) && SameOutside(a[c], b[c], offsets)
  }

  ghost predicate SameOutside(a: Vector, b: Vector, offsets: seq<nat>)
    requires |a| == |b|
  {
    forall i: nat :: i < |a| && i !in offsets ==> a[i] == b[i]
  }

  /** Writing the saved cells back over any cells of the same rows restores the column. */
  lemma {:induction false} PutBack(now: Vector, before: Vector, offsets: seq<nat>, vals: Vector)
    requires |now| == |before| && IsSlice(vals, before, offsets) && SameOutside(now, before, offsets)
    ensures PutAll(now, offsets, vals) == before
  {
    forall i: nat | i < |now| ensures PutAll(now, offsets, vals)[i] == before[i] {
      if i in offsets { PutBackAt(now, before, offsets, vals, i); } else { PutAllOutside(now, offsets, vals, i); }
    }
  }

  lemma {:induction false} PutBackAt(now: Vector, before: Vector, offsets: seq<nat>, vals: Vector, i: nat)
    requires |now| == |before| && IsSlice(vals, before, offsets) && i in offsets
    ensures i < |now| && PutAll(now, offsets, vals)[i] == before[i]
  {
    var n := |offsets| - 1;
    assert offsets == offsets[..n] + [offsets[n]];
    if offsets[n] != i { PutBackAt(now, before, offsets[..n], vals[..n], i); }
  }

  // ----- One batch -----

  /** The scanned batch: cell k of scan column c is row offsets[k] of table column ids[c]. */
  ghost predicate Scanned(batch: Chunk, ids: seq<nat>, offsets: seq<nat>, columns: Columns) {
    && batch.Valid() && |batch.columns| == |ids| && batch.count == |offsets|
    && forall c :: 0 <= c < |ids| ==> ids[c] < |columns| && IsSlice(batch.columns[c], columns[ids[c]], offsets)
  }

  function Picked<T>(s: seq<T>, at: seq<nat>): seq<T>
    requires forall k :: 0 <= k < |at| ==> at[k] < |s|
  {
    seq(|at|, k requires 0 <= k < |at| => s[at[k]])
  }

  lemma PickedSlice(vals: Vector, rows: Vector, offsets: seq<nat>, at: seq<nat>)
    requires IsSlice(vals, rows, offsets) && forall k :: 0 <= k < |at| ==> at[k] < |offsets|
    ensures IsSlice(Picked(vals, at), rows, Picked(offsets, at))
  {
  }

  /** What the SET expressions make of the columns: each target column gets, at the matching
      rows, the value of its expression on the row as it was scanned. */
  function SetColumns(columns: Columns, batch: Chunk, offsets: seq<nat>, matching: seq<nat>, cols: seq<nat>,
      exprs: seq<Expr>): (r: Columns)
    requires batch.Valid() && |exprs| == |cols| && batch.count == |offsets|
    requires (forall k :: 0 <= k < |matching| ==> matching[k] < batch.count) &&
      forall c :: 0 <= c < |cols| ==> cols[c] < |columns|
    ensures |r| == |columns|
  {
    if cols == [] then columns
    else
      var n := |cols| - 1;
      var done := SetColumns(columns, batch, offsets, matching, cols[..n], exprs[..n]);
      done[cols[n] := PutAll(done[cols[n]], Picked(offsets, matching), NewValues(batch, matching, exprs[n]))]
  }

  function NewValues(batch: Chunk, matching: seq<nat>, e: Expr): Vector
    requires batch.Valid() && forall k :: 0 <= k < |matching| ==> matching[k] < batch.count
  {
    seq(|matching|, k requires 0 <= k < |matching| => Eval(e, batch.RowAt(matching[k])))
  }

  /** The matching rows of the batch: those the predicate keeps, or all. */
  method MatchingRows(preds: seq<Expr>, batch: Chunk) returns (matching: seq<nat>)
    requires |preds| <= 1 && batch.Valid() && forall p <- preds :: RefsBelow(p, |batch.columns|)
    ensures forall k: nat :: k in matching <==> k < batch.count && AllHold(preds, batch.RowAt(k))
    ensures forall i, j :: 0 <= i < j < |matching| ==> matching[i] < matching[j]
  {
    if preds != [] {
      matching := EvaluatePredicate(preds[0], batch);
    } else {
      matching := seq(batch.count, i => i);
      forall k: nat | k < batch.count ensures k in matching { assert matching[k] == k; }
    }
  }

  /** Capture, evaluate and write, column by column. */
  method UpdateBatch(columns: Columns, ids: seq<nat>, batch: Chunk, offsets: seq<nat>, matching: seq<nat>,
      cols: seq<nat>, exprs: seq<Expr>, scanAt: seq<nat>, group: nat)
    returns (out: Columns, undo: UpdateUndo)
    requires Scanned(batch, ids, offsets, columns) && |cols| == |exprs| == |scanAt|
    requires forall k :: 0 <= k < |matching| ==> matching[k] < batch.count
    requires forall c :: 0 <= c < |cols| ==>
      scanAt[c] < |ids| && ids[scanAt[c]] == cols[c] && RefsBelow(exprs[c], |ids|)
    ensures out == SetColumns(columns, batch, offsets, matching, cols, exprs)
    ensures undo.group == group && undo.offsets == Picked(offsets, matching) && undo.cols == cols &&
      Saved(undo, columns)
    ensures DifferOnlyIn(out, columns, cols, undo.offsets)
  {
    out := columns;
    var at := Picked(offsets, matching);
    var olds: seq<Vector> := [];
    for ui := 0 to |cols|
      invariant |olds| == ui && out == SetColumns(columns, batch, offsets, matching, cols[..ui], exprs[..ui])
      invariant SavedSo(olds, columns, cols[..ui], at) && DifferOnlyIn(out, columns, cols[..ui], at)
    {
      ghost var was := out;
      var saved;
      out, saved := UpdateColumn(out, columns, ids, batch, offsets, matching, cols[ui], exprs[ui], scanAt[ui]);
      SavedMore(olds, saved, columns, cols, ui, at);
      olds := olds + [saved];
      SetOneMore(columns, batch, offsets, matching, cols, exprs, ui);
      WroteOne(columns, was, cols, ui, at, NewValues(batch, matching, exprs[ui]));
    }
    assert cols[..|cols|] == cols && exprs[..|exprs|] == exprs;
    undo := UpdateUndo(group, at, cols, olds);
  }

  ghost predicate SavedSo(olds: seq<Vector>, columns: Columns, cols: seq<nat>, at: seq<nat>) {
    |olds| == |cols| && forall c :: 0 <= c < |cols| ==> cols[c] < |columns| && IsSlice(olds[c], columns[cols[c]], at)
  }

  lemma SavedMore(olds: seq<Vector>, saved: Vector, columns: Columns, cols: seq<nat>, ui: nat, at: seq<nat>)
    requires ui < |cols| && cols[ui] < |columns| && SavedSo(olds, columns, cols[..ui], at) &&
      IsSlice(saved, columns[cols[ui]], at)
    ensures SavedSo(olds + [saved], columns, cols[..ui + 1], at)
  {
    forall c | 0 <= c <= ui
      ensures cols[..ui + 1][c] < |columns| && IsSlice((olds + [saved])[c], columns[cols[..ui + 1][c]], at)
    {
      if c < ui { assert cols[..ui][c] == cols[c]; }
    }
  }

  lemma SetOneMore(columns: Columns, batch: Chunk, offsets: seq<nat>, matching: seq<nat>, cols: seq<nat>,
      exprs: seq<Expr>, ui: nat)
    requires batch.Valid() && ui < |exprs| == |cols| && batch.count == |offsets|
    requires (forall k :: 0 <= k < |matching| ==> matching[k] < batch.count) &&
      forall c :: 0 <= c < |cols| ==> cols[c] < |columns|
    ensures
      var done := SetColumns(columns, batch, offsets, matching, cols[..ui], exprs[..ui]);
      SetColumns(columns, batch, offsets, matching, cols[..ui + 1], exprs[..ui + 1]) ==
        done[cols[ui] := PutAll(done[cols[ui]], Picked(offsets, matching), NewValues(batch, matching, exprs[ui]))]
  {
    assert cols[..ui + 1][..ui] == cols[..ui] && exprs[..ui + 1][..ui] == exprs[..ui];
  }

  /** One target column: its old cells from the scanned batch, the new ones from the
      expression, written at the matching rows. */
  method UpdateColumn(was: Columns, ghost before: Columns, ghost ids: seq<nat>, batch: Chunk, offsets: seq<nat>,
      matching: seq<nat>, col: nat, expr: Expr, scanIdx: nat)
    returns (out: Columns, saved: Vector)
    requires Scanned(batch, ids, offsets, before) && |was| == |before| && RefsBelow(expr, |ids|)
    requires (forall k :: 0 <= k < |matching| ==> matching[k] < batch.count) && scanIdx < |ids| && ids[scanIdx] == col
    ensures IsSlice(saved, before[col], Picked(offsets, matching))
    ensures out == was[col := PutAll(was[col], Picked(offsets, matching), NewValues(batch, matching, expr))]
  {
    PickedSlice(batch.columns[scanIdx], before[col], offsets, matching);
    saved := Picked(batch.columns[scanIdx], matching);
    var full := Evaluate(expr, batch);
    var selected := Picked(full, matching);
    assert selected == NewValues(batch, matching, expr);
    out := was[col := PutAll(was[col], Picked(offsets, matching), selected)];
  }

  lemma WroteOne(before: Columns, was: Columns, cols: seq<nat>, ui: nat, at: seq<nat>, vals: Vector)
    requires ui < |cols| && cols[ui] < |was| && |vals| == |at| && DifferOnlyIn(was, before, cols[..ui], at)
    ensures DifferOnlyIn(was[cols[ui] := PutAll(was[cols[ui]], at, vals)], before, cols[..ui + 1], at)
  {
    var c := cols[ui];
    forall i: nat | i < |was[c]| && i !in at
      ensures PutAll(was[c], at, vals)[i] == before[c][i]
    {
      PutAllOutside(was[c], at, vals, i);
    }
    assert cols[..ui + 1] == cols[..ui] + [c];
  }

  // ----- Undo -----

  /** Write the saved values back, column by column. */
  method UndoBatch(columns: Columns, u: UpdateUndo, ghost before: Columns) returns (out: Columns)
    requires Saved(u, before) && DifferOnlyIn(columns, before, u.cols, u.offsets)
    ensures out == before
  {
    out := columns;
    for ui := 0 to |u.cols|
      invariant DifferOnlyIn(out, before, u.cols, u.offsets)
      invariant forall c :: 0 <= c < ui ==> out[u.cols[c]] == before[u.cols[c]]
    {
      var c := u.cols[ui];
      PutBack(out[c], before[c], u.offsets, u.oldValues[ui]);
      out := out[c := PutAll(out[c], u.offsets, u.oldValues[ui])];
    }
    forall c | 0 <= c < |out| ensures out[c] == before[c] {
      if c in u.cols { var k :| 0 <= k < |u.cols| && u.cols[k] == c; }
    }
  }

  // ----- Runs of batches -----

  type Groups = seq<Columns>

  /** A batch takes one group from `a` to `b` and remembers how to go back. */
  ghost predicate BatchStep(a: Groups, u: UpdateUndo, b: Groups) {
    && |a| == |b| && u.group < |a| && Saved(u, a[u.group]) && DifferOnlyIn(b[u.group], a[u.group], u.cols, u.offsets)
    && forall g :: 0 <= g < |a| && g != u.group ==> a[g] == b[g]
  }

  /** States a transaction passed through, one batch between each and the next. */
  ghost predicate History(states: seq<Groups>, undo: seq<UpdateUndo>) {
    && |states| == |undo| + 1
    && forall i :: 0 <= i < |undo| ==> BatchStep(states[i], undo[i], states[i + 1])
  }

  /** Undoing any run of batches newest first gives back every column of every group. */
  method UndoReverse(groups: Groups, undo: seq<UpdateUndo>, ghost states: seq<Groups>) returns (out: Groups)
    requires History(states, undo) && groups == states[|undo|]
    ensures out == states[0]
  {
    out := groups;
    var i := |undo|;
    while i > 0
      invariant 0 <= i <= |undo| && out == states[i]
    {
      i := i - 1;
      var u := undo[i];
      assert BatchStep(states[i], u, states[i + 1]);
      var columns := UndoBatch(out[u.group], u, states[i][u.group]);
      out := out[u.group := columns];
      assert out == states[i];
    }
  }

  lemma Longer(states: seq<Groups>, undo: seq<UpdateUndo>, u: UpdateUndo, next: Groups)
    requires History(states, undo) && BatchStep(states[|undo|], u, next)
    ensures History(states + [next], undo + [u])
  {
    forall i | 0 <= i < |undo| + 1 ensures BatchStep((states + [next])[i], (undo + [u])[i], (states + [next])[i + 1]) {
      if i < |undo| { assert BatchStep(states[i], undo[i], states[i + 1]); }
    }
  }

  // ----- What an UPDATE statement means -----

  /** WHERE at most one predicate, the scanned columns, and the columns that are set, each
      with its expression and its place among the scanned ones. */
  datatype Statement = Statement(preds: seq<Expr>, ids: seq<nat>, cols: seq<nat>, exprs: seq<Expr>, scanAt: seq<nat>)

  predicate StatementOk(st: Statement, width: nat) {
    && |st.preds| <= 1 && (forall p <- st.preds :: RefsBelow(p, |st.ids|)) &&
      (forall c :: 0 <= c < |st.ids| ==> st.ids[c] < width)
    && |st.cols| == |st.exprs| == |st.scanAt|
    && forall c :: 0 <= c < |st.cols| ==>
      st.scanAt[c] < |st.ids| && st.ids[st.scanAt[c]] == st.cols[c] && RefsBelow(st.exprs[c], |st.ids|)
  }

  ghost predicate Shaped(columns: Columns, width: nat, rows: nat) {
    |columns| == width && forall c :: 0 <= c < |columns| ==> |columns[c]| == rows
  }

  function ScanRow(columns: Columns, ids: seq<nat>, r: nat): Row
    requires forall j :: 0 <= j < |ids| ==> ids[j] < |columns| && r < |columns[ids[j]]|
  {
    seq(|ids|, j requires 0 <= j < |ids| => columns[ids[j]][r])
  }

  /** The last assignment to a column decides; a column that is not set keeps its cell. */
  function SetCell(cols: seq<nat>, exprs: seq<Expr>, row: Row, c: nat, was: Cell): Cell
    requires |cols| == |exprs|
  {
    if cols == [] then was
    else
      var n := |cols| - 1;
      if cols[n] == c then Eval(exprs[n], row) else SetCell(cols[..n], exprs[..n], row, c, was)
  }

  /** The assignment that decides about a column. */
  lemma {:induction false} SetCellMeaning(cols: seq<nat>, exprs: seq<Expr>, row: Row, c: nat, was: Cell)
    requires |cols| == |exprs|
    ensures c !in cols ==> SetCell(cols, exprs, row, c, was) == was
    ensures c in cols ==> exists k :: LastAt(cols, c, k) && SetCell(cols, exprs, row, c, was) == Eval(exprs[k], row)
  {
    if cols != [] {
      var n := |cols| - 1;
      assert cols == cols[..n] + [cols[n]];
      if cols[n] == c {
        assert LastAt(cols, c, n);
      } else {
        SetCellMeaning(cols[..n], exprs[..n], row, c, was);
        if c in cols[..n] {
          var k :| LastAt(cols[..n], c, k) && SetCell(cols, exprs, row, c, was) == Eval(exprs[..n][k], row);
          assert LastAt(cols, c, k);
        }
      }
    }
  }

  predicate Hit(columns: Columns, st: Statement, visible: nat -> bool, r: nat)
    requires forall j :: 0 <= j < |st.ids| ==> st.ids[j] < |columns| && r < |columns[st.ids[j]]|
  {
    visible(r) && AllHold(st.preds, ScanRow(columns, st.ids, r))
  }

  function NewCell(columns: Columns, st: Statement, visible: nat -> bool, c: nat, r: nat): Cell
    requires StatementOk(st, |columns|) && c < |columns| && forall d :: 0 <= d < |columns| ==> r < |columns[d]|
  {
    if Hit(columns, st, visible, r) then SetCell(st.cols, st.exprs, ScanRow(columns, st.ids, r), c, columns[c][r])
    else columns[c][r]
  }

  /** The statement applied to the rows below n: every visible row that matches is set from
      its own old values. */
  ghost function SetRows(columns: Columns, st: Statement, visible: nat -> bool, rows: nat, n: nat): (out: Columns)
    requires StatementOk(st, |columns|) && Shaped(columns, |columns|, rows)
    ensures Shaped(out, |columns|, rows)
  {
    seq(|columns|, c requires 0 <= c < |columns| =>
      seq(rows, r requires 0 <= r < rows => if r < n then NewCell(columns, st, visible, c, r) else columns[c][r]))
  }

  // ----- One batch sets its rows -----

  lemma {:induction false} PutAllAt(rows: Vector, at: seq<nat>, vals: Vector, k: nat)
    requires |at| == |vals| && Rising(at) && k < |at| && at[k] < |rows|
    ensures PutAll(rows, at, vals)[at[k]] == vals[k]
  {
    var n := |at| - 1;
    if k < n { PutAllAt(rows, at[..n], vals[..n], k); }
  }

  lemma {:induction false} SetColumnsHit(columns: Columns, batch: Chunk, offsets: seq<nat>, matching: seq<nat>,
      cols: seq<nat>, exprs: seq<Expr>, c: nat, k: nat)
    requires batch.Valid() && |exprs| == |cols| && batch.count == |offsets|
    requires (forall i :: 0 <= i < |matching| ==> matching[i] < batch.count) &&
      (forall i :: 0 <= i < |cols| ==> cols[i] < |columns|)
    requires Rising(Picked(offsets, matching))
    requires c < |columns| && k < |matching| && offsets[matching[k]] < |columns[c]|
    ensures
      var out := SetColumns(columns, batch, offsets, matching, cols, exprs);
      var r := offsets[matching[k]];
      |out[c]| == |columns[c]| && out[c][r] == SetCell(cols, exprs, batch.RowAt(matching[k]), c, columns[c][r])
  {
    if cols != [] {
      var n := |cols| - 1;
      SetColumnsHit(columns, batch, offsets, matching, cols[..n], exprs[..n], c, k);
      if cols[n] == c {
        var done := SetColumns(columns, batch, offsets, matching, cols[..n], exprs[..n]);
        PutAllAt(done[c], Picked(offsets, matching), NewValues(batch, matching, exprs[n]), k);
      }
    }
  }

  /** The batch that covers the rows from `from` up to `next`. */
  ghost predicate Covering(columns: Columns, st: Statement, visible: nat -> bool, from: nat, next: nat, batch: Chunk,
      offsets: seq<nat>, matching: seq<nat>)
    requires StatementOk(st, |columns|) && forall d :: 0 <= d < |columns| ==> next <= |columns[d]|
  {
    && Rising(offsets) && Rising(matching) && batch.Valid() && batch.count == |offsets|
    && (forall k :: 0 <= k < |offsets| ==>
      from <= offsets[k] < next && batch.RowAt(k) == ScanRow(columns, st.ids, offsets[k]))
    && (forall k :: 0 <= k < |matching| ==> matching[k] < |offsets|)
    && (forall r: nat :: from <= r < next && Hit(columns, st, visible, r) ==>
          exists k :: 0 <= k < |matching| && offsets[matching[k]] == r)
    && (forall k :: 0 <= k < |matching| ==> Hit(columns, st, visible, offsets[matching[k]]))
  }

  lemma HitCell(columns: Columns, was: Columns, st: Statement, visible: nat -> bool, rows: nat, from: nat, next: nat,
      batch: Chunk, offsets: seq<nat>, matching: seq<nat>, c: nat, k: nat)
    requires StatementOk(st, |columns|) && Shaped(columns, |columns|, rows) && from <= next <= rows && c < |columns| &&
      k < |matching|
    requires was == SetRows(columns, st, visible, rows, from) &&
      Covering(columns, st, visible, from, next, batch, offsets, matching)
    ensures
      var r := offsets[matching[k]];
      && r < rows && c < |was| && |SetColumns(was, batch, offsets, matching, st.cols, st.exprs)[c]| == rows
      && SetColumns(was, batch, offsets, matching, st.cols, st.exprs)[c][r] == NewCell(columns, st, visible, c, r)
  {
    RisingPicked(offsets, matching);
    SetColumnsHit(was, batch, offsets, matching, st.cols, st.exprs, c, k);
  }

  lemma MissedCell(columns: Columns, st: Statement, visible: nat -> bool, rows: nat, from: nat, next: nat,
      batch: Chunk, offsets: seq<nat>, matching: seq<nat>, c: nat, r: nat)
    requires StatementOk(st, |columns|) && Shaped(columns, |columns|, rows) && from <= next <= rows && c < |columns| &&
      r < rows
    requires Covering(columns, st, visible, from, next, batch, offsets, matching) && r !in Picked(offsets, matching)
    ensures SetRows(columns, st, visible, rows, from)[c][r] == SetRows(columns, st, visible, rows, next)[c][r]
  {
    var at := Picked(offsets, matching);
    forall k | 0 <= k < |matching| ensures offsets[matching[k]] != r { assert at[k] in at; }
  }

  lemma BatchCell(columns: Columns, was: Columns, st: Statement, visible: nat -> bool, rows: nat, from: nat, next: nat,
      batch: Chunk, offsets: seq<nat>, matching: seq<nat>, out: Columns, c: nat, r: nat)
    requires StatementOk(st, |columns|) && Shaped(columns, |columns|, rows) && from <= next <= rows && c < |columns| &&
      r < rows
    requires was == SetRows(columns, st, visible, rows, from) &&
      Covering(columns, st, visible, from, next, batch, offsets, matching)
    requires out == SetColumns(was, batch, offsets, matching, st.cols, st.exprs) &&
      DifferOnlyIn(out, was, st.cols, Picked(offsets, matching))
    ensures out[c][r] == SetRows(columns, st, visible, rows, next)[c][r]
  {
    var at := Picked(offsets, matching);
    if r in at {
      var k :| 0 <= k < |at| && at[k] == r;
      HitCell(columns, was, st, visible, rows, from, next, batch, offsets, matching, c, k);
    } else {
      MissedCell(columns, st, visible, rows, from, next, batch, offsets, matching, c, r);
      assert SameOutside(out[c], was[c], at);
    }
  }

  /** One more batch extends the rows that are set. */
  lemma BatchSetsRows(columns: Columns, was: Columns, st: Statement, visible: nat -> bool, rows: nat, from: nat,
      next: nat, batch: Chunk, offsets: seq<nat>, matching: seq<nat>)
    requires StatementOk(st, |columns|) && Shaped(columns, |columns|, rows) && from <= next <= rows
    requires was == SetRows(columns, st, visible, rows, from) &&
      Covering(columns, st, visible, from, next, batch, offsets, matching)
    requires DifferOnlyIn(SetColumns(was, batch, offsets, matching, st.cols, st.exprs), was, st.cols,
      Picked(offsets, matching))
    ensures SetColumns(was, batch, offsets, matching, st.cols, st.exprs) == SetRows(columns, st, visible, rows, next)
  {
    var out, spec := SetColumns(was, batch, offsets, matching, st.cols, st.exprs),
      SetRows(columns, st, visible, rows, next);
    forall c | 0 <= c < |columns| ensures out[c] == spec[c] {
      forall r: nat | r < rows ensures out[c][r] == spec[c][r] {
        BatchCell(columns, was, st, visible, rows, from, next, batch, offsets, matching, out, c, r);
      }
    }
  }

  method VisibleOffsets(visible: nat -> bool, from: nat, next: nat) returns (offsets: seq<nat>)
    requires from <= next
    ensures Rising(offsets) && forall r: nat :: r in offsets <==> from <= r < next && visible(r)
  {
    offsets := [];
    for r := from to next
      invariant Rising(offsets) && (forall k :: 0 <= k < |offsets| ==> offsets[k] < r)
      invariant forall x: nat :: x in offsets <==> from <= x < r && visible(x)
    {
      if visible(r) { offsets := offsets + [r]; }
    }
  }

  method ScanColumns(columns: Columns, ids: seq<nat>, offsets: seq<nat>) returns (batch: Chunk)
    requires forall c :: 0 <= c < |ids| ==>
      ids[c] < |columns| && forall k :: 0 <= k < |offsets| ==> offsets[k] < |columns[ids[c]]|
    ensures Scanned(batch, ids, offsets, columns)
    ensures forall k :: 0 <= k < |offsets| ==> batch.RowAt(k) == ScanRow(columns, ids, offsets[k])
  {
    var cols: seq<seq<Cell>> := [];
    for c := 0 to |ids|
      invariant |cols| == c && forall d :: 0 <= d < c ==> IsSlice(cols[d], columns[ids[d]], offsets)
    {
      cols := cols + [Picked(columns[ids[c]], offsets)];
    }
    batch := Chunk(cols, |offsets|);
  }

  /** Rows that no batch has reached yet scan as they were. */
  lemma UntouchedRow(columns: Columns, was: Columns, st: Statement, visible: nat -> bool, rows: nat, from: nat, r: nat)
    requires StatementOk(st, |columns|) && Shaped(columns, |columns|, rows) && from <= r < rows
    requires was == SetRows(columns, st, visible, rows, from)
    ensures ScanRow(was, st.ids, r) == ScanRow(columns, st.ids, r)
  {
  }

  lemma CoversBatch(columns: Columns, was: Columns, st: Statement, visible: nat -> bool, rows: nat, from: nat,
      next: nat, batch: Chunk, offsets: seq<nat>, matching: seq<nat>)
    requires StatementOk(st, |columns|) && Shaped(columns, |columns|, rows) && from <= next <= rows
    requires was == SetRows(columns, st, visible, rows, from)
    requires Rising(offsets) && Rising(matching) && batch.Valid() && batch.count == |offsets|
    requires forall r: nat :: r in offsets <==> from <= r < next && visible(r)
    requires forall k :: 0 <= k < |offsets| ==> offsets[k] < rows && batch.RowAt(k) == ScanRow(was, st.ids, offsets[k])
    requires forall k: nat :: k in matching <==> k < batch.count && AllHold(st.preds, batch.RowAt(k))
    ensures Covering(columns, st, visible, from, next, batch, offsets, matching)
  {
    forall k | 0 <= k < |offsets|
      ensures from <= offsets[k] < next && visible(offsets[k]) && batch.RowAt(k) == ScanRow(columns, st.ids, offsets[k])
    {
      assert offsets[k] in offsets;
      UntouchedRow(columns, was, st, visible, rows, from, offsets[k]);
    }
    forall k | 0 <= k < |matching|
      ensures matching[k] < |offsets| && Hit(columns, st, visible, offsets[matching[k]])
    {
      assert matching[k] in matching;
    }
    forall r: nat | from <= r < next && Hit(columns, st, visible, r)
      ensures exists k :: 0 <= k < |matching| && offsets[matching[k]] == r
    {
      assert r in offsets;
      var i: nat :| i < |offsets| && offsets[i] == r;
      assert i in matching;
      var k :| 0 <= k < |matching| && matching[k] == i;
    }
  }

  lemma RisingPicked(offsets: seq<nat>, matching: seq<nat>)
    requires Rising(offsets) && Rising(matching) && forall k :: 0 <= k < |matching| ==> matching[k] < |offsets|
    ensures Rising(Picked(offsets, matching))
  {
  }

  /** Scan, match and update the rows from `from` up to `next` of one group. */
  method RunBatch(was: Columns, ghost columns: Columns, st: Statement, visible: nat -> bool, rows: nat, from: nat,
      next: nat, group: nat)
    returns (out: Columns, undo: UpdateUndo)
    requires StatementOk(st, |columns|) && Shaped(columns, |columns|, rows) && from <= next <= rows
    requires was == SetRows(columns, st, visible, rows, from)
    ensures out == SetRows(columns, st, visible, rows, next)
    ensures undo.group == group && Saved(undo, was) && DifferOnlyIn(out, was, undo.cols, undo.offsets)
  {
    var offsets := VisibleOffsets(visible, from, next);
    assert forall k :: 0 <= k < |offsets| ==> offsets[k] in offsets;
    var batch := ScanColumns(was, st.ids, offsets);
    var matching := MatchingRows(st.preds, batch);
    assert forall k :: 0 <= k < |matching| ==> matching[k] in matching;
    CoversBatch(columns, was, st, visible, rows, from, next, batch, offsets, matching);
    out, undo := UpdateBatch(was, st.ids, batch, offsets, matching, st.cols, st.exprs, st.scanAt, group);
    RisingPicked(offsets, matching);
    BatchSetsRows(columns, was, st, visible, rows, from, next, batch, offsets, matching);
  }

  // ----- Statements over all groups, then rollback -----

  type Visible = (nat, nat) -> bool

  ghost predicate TableOk(groups: Groups, width: nat, rows: seq<nat>) {
    |groups| == |rows| && forall g :: 0 <= g < |groups| ==> Shaped(groups[g], width, rows[g])
  }

  function InGroup(visible: Visible, g: nat): nat -> bool { (r: nat) => visible(g, r) }

  /** The statement on the groups below n. */
  ghost function SetGroups(groups: Groups, st: Statement, visible: Visible, width: nat, rows: seq<nat>,
      n: nat): (out: Groups)
    requires TableOk(groups, width, rows) && StatementOk(st, width)
    ensures TableOk(out, width, rows)
  {
    seq(|groups|, g requires 0 <= g < |groups| =>
      if g < n then SetRows(groups[g], st, InGroup(visible, g), rows[g], rows[g]) else groups[g])
  }

  /** One cell after the statement: set, by the last assignment to its column and from the
      row's own old cells, exactly when the row is visible and satisfies the predicate. */
  lemma UpdatedCell(groups: Groups, st: Statement, visible: Visible, width: nat, rows: seq<nat>, g: nat, c: nat, r: nat,
      before: Row)
    requires TableOk(groups, width, rows) && StatementOk(st, width) && g < |groups| && c < width && r < rows[g]
    requires |before| == |st.ids| && forall j :: 0 <= j < |st.ids| ==> before[j] == groups[g][st.ids[j]][r]
    ensures
      var now := SetGroups(groups, st, visible, width, rows, |groups|)[g][c][r];
      if visible(g, r) && (forall p <- st.preds :: Holds(p, before)) && c in st.cols
      then exists k :: LastAt(st.cols, c, k) && now == Eval(st.exprs[k], before)
      else now == groups[g][c][r]
  {
    assert ScanRow(groups[g], st.ids, r) == before;
    SetCellMeaning(st.cols, st.exprs, before, c, groups[g][c][r]);
  }

  /** All statements of a transaction, one after the other. */
  ghost function RunAll(groups: Groups, sts: seq<Statement>, visible: Visible, width: nat,
      rows: seq<nat>): (out: Groups)
    requires TableOk(groups, width, rows) && forall st <- sts :: StatementOk(st, width)
    ensures TableOk(out, width, rows)
  {
    if sts == [] then groups
    else
      var n := |sts| - 1;
      SetGroups(RunAll(groups, sts[..n], visible, width, rows), sts[n], visible, width, rows, |groups|)
  }

  /** What a transaction did so far: the undo list leads back through the states. */
  ghost predicate Recorded(groups: Groups, undo: seq<UpdateUndo>, states: seq<Groups>, start: Groups) {
    History(states, undo) && states[0] == start && states[|undo|] == groups
  }

  method UpdateGroup(groups: Groups, g: nat, st: Statement, visible: Visible, width: nat, rows: nat,
      undo: seq<UpdateUndo>, ghost states: seq<Groups>, ghost start: Groups)
    returns (out: Groups, undo': seq<UpdateUndo>, ghost states': seq<Groups>)
    requires g < |groups| && Shaped(groups[g], width, rows) && StatementOk(st, width) &&
      Recorded(groups, undo, states, start)
    ensures out == groups[g := SetRows(groups[g], st, InGroup(visible, g), rows, rows)] &&
      Recorded(out, undo', states', start)
  {
    ghost var columns, vis := groups[g], InGroup(visible, g);
    out, undo', states' := groups, undo, states;
    var from := 0;
    SetNothing(columns, st, vis, rows);
    while from < rows
      invariant from <= rows && |out| == |groups| && out == groups[g := SetRows(columns, st, vis, rows, from)]
      invariant Recorded(out, undo', states', start)
    {
      var next := from + if rows - from < VECTOR_SIZE then rows - from else VECTOR_SIZE;
      var after, u := RunBatch(out[g], columns, st, InGroup(visible, g), rows, from, next, g);
      if u.offsets != [] {
        Longer(states', undo', u, out[g := after]);
        states' := states' + [out[g := after]];
        out, undo' := out[g := after], undo' + [u];
      } else {
        NothingChanged(out[g], after, u);
      }
      from := next;
    }
  }

  lemma SetNothing(columns: Columns, st: Statement, visible: nat -> bool, rows: nat)
    requires StatementOk(st, |columns|) && Shaped(columns, |columns|, rows)
    ensures SetRows(columns, st, visible, rows, 0) == columns
  {
    var out := SetRows(columns, st, visible, rows, 0);
    forall c | 0 <= c < |columns| ensures out[c] == columns[c] {}
  }

  lemma NothingChanged(was: Columns, out: Columns, u: UpdateUndo)
    requires u.offsets == [] && DifferOnlyIn(out, was, u.cols, u.offsets)
    ensures out == was
  {
    forall c | 0 <= c < |was| ensures out[c] == was[c] {}
  }

  /** One statement on the whole table. */
  method UpdateTable(groups: Groups, st: Statement, visible: Visible, width: nat, rows: seq<nat>,
      undo: seq<UpdateUndo>, ghost states: seq<Groups>, ghost start: Groups)
    returns (out: Groups, undo': seq<UpdateUndo>, ghost states': seq<Groups>)
    requires TableOk(groups, width, rows) && StatementOk(st, width) && Recorded(groups, undo, states, start)
    ensures out == SetGroups(groups, st, visible, width, rows, |groups|) && Recorded(out, undo', states', start)
  {
    out, undo', states' := groups, undo, states;
    for g := 0 to |groups|
      invariant out == SetGroups(groups, st, visible, width, rows, g) && Recorded(out, undo', states', start)
    {
      out, undo', states' := UpdateGroup(out, g, st, visible, width, rows[g], undo', states', start);
    }
  }

  /** The statements of a transaction set every visible matching row, statement by statement,
      and its rollback restores all column values. */
  method UpdateAndRollback(groups: Groups, sts: seq<Statement>, visible: Visible, width: nat, rows: seq<nat>)
      returns (after: Groups, back: Groups)
    requires TableOk(groups, width, rows) && forall st <- sts :: StatementOk(st, width)
    ensures after == RunAll(groups, sts, visible, width, rows) && back == groups
  {
    var undo: seq<UpdateUndo> := [];
    ghost var states := [groups];
    after := groups;
    for i := 0 to |sts|
      invariant after == RunAll(groups, sts[..i], visible, width, rows) && Recorded(after, undo, states, groups)
    {
      assert sts[..i + 1][..i] == sts[..i];
      after, undo, states := UpdateTable(after, sts[i], visible, width, rows, undo, states, groups);
    }
    assert sts[..|sts|] == sts;
    back := UndoReverse(after, undo, states);
  }
}
