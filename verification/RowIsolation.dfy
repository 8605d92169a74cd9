/** Snapshot isolation of inserts and deletes in a row group, over every run.

    The machine has the row group's markers, row count and latest append, and the
    transaction manager's counters and undo lists, with commit and rollback as one step
    each.  It is proved to refine a table in which every transaction owns a private set of
    visible rows. */
module RowIsolation {
  import opened Basics
  import opened RowVersions

  // ----- Marker updates of whole batches -----

  function Range(from: nat, to: nat): (s: set<nat>)
    ensures forall r :: r in s <==> from <= r < to
  {
    if to <= from then {} else Range(from, to - 1) + {to - 1}
  }

  function InsertRows(m: Markers, from: nat, to: nat, id: nat): Markers {
    map r | r in m.Keys + Range(from, to) :: if from <= r < to then Marker(InsertMark, id, NO_TIME) else m[r]
  }

  function CommitRows(m: Markers, rows: set<nat>, time: int): Markers {
    map r | r in m :: if r in rows then m[r].(time := time) else m[r]
  }

  function DeleteRows(m: Markers, rows: set<nat>, id: nat): Markers {
    map r | r in m.Keys + rows :: if r in rows then Marker(DeleteMark, id, NO_TIME) else m[r]
  }

  function ClearRows(m: Markers, rows: set<nat>): Markers { m - rows }

  /** The row group's versioned part. */
  class RowGroup {
    const versions: VersionInfo
    var rowCount: nat
    var pendingStart: nat

    constructor ()
      ensures fresh(versions) && versions.Abs() == NO_VERSIONS && rowCount == 0 && pendingStart == 0
    {
      versions := new VersionInfo();
      rowCount, pendingStart := 0, 0;
    }

    method Append(count: nat, id: nat)
      modifies this, versions
      ensures pendingStart == old(rowCount) && rowCount == old(rowCount) + count
      ensures versions.markers ==
        if id == NO_TX then old(versions.markers) else InsertRows(old(versions.markers), old(rowCount), rowCount, id)
    {
      pendingStart := rowCount;
      if id != NO_TX {
        ghost var m := versions.markers;
        for i := 0 to count
          invariant versions.markers == InsertRows(m, rowCount, rowCount + i, id)
          invariant rowCount == old(rowCount) && pendingStart == old(rowCount)
        {
          versions.MarkInserted(rowCount + i, id);
        }
      }
      rowCount := rowCount + count;
    }

    /** Commit the latest append, whoever made it. */
    method CommitAppend(time: int)
      requires pendingStart <= rowCount
      modifies versions
      ensures versions.markers == CommitRows(old(versions.markers), Range(pendingStart, rowCount), time)
    {
      ghost var m := versions.markers;
      for i := pendingStart to rowCount
        invariant versions.markers == CommitRows(m, Range(pendingStart, i), time)
      {
        versions.CommitInsert(i, time);
      }
    }

    /** Take the latest append back: its markers and its rows. */
    method RevertAppend()
      requires pendingStart <= rowCount
      modifies this, versions
      ensures versions.markers == ClearRows(old(versions.markers), Range(pendingStart, old(rowCount)))
      ensures rowCount == pendingStart == old(pendingStart)
    {
      ghost var m := versions.markers;
      for i := pendingStart to rowCount
        invariant versions.markers == ClearRows(m, Range(pendingStart, i))
        invariant rowCount == old(rowCount) && pendingStart == old(pendingStart)
      {
        versions.RevertInsert(i);
      }
      rowCount := pendingStart;
    }

    /** DELETE marks the rows it matched. */
    method MarkDeletedRows(rows: seq<nat>, id: nat)
      modifies versions
      ensures versions.markers == DeleteRows(old(versions.markers), Elems(rows), id)
    {
      ghost var m := versions.markers;
      for i := 0 to |rows|
        invariant versions.markers == DeleteRows(m, Elems(rows[..i]), id)
      {
        versions.MarkDeleted(rows[i], id);
        assert Elems(rows[..i + 1]) == Elems(rows[..i]) + {rows[i]};
      }
      assert rows[..|rows|] == rows;
    }

    method CommitDeletedRows(rows: seq<nat>, time: int)
      modifies versions
      ensures versions.markers == CommitRows(old(versions.markers), Elems(rows), time)
    {
      ghost var m := versions.markers;
      for i := 0 to |rows|
        invariant versions.markers == CommitRows(m, Elems(rows[..i]), time)
      {
        versions.CommitDelete(rows[i], time);
        assert Elems(rows[..i + 1]) == Elems(rows[..i]) + {rows[i]};
      }
      assert rows[..|rows|] == rows;
    }

    method ClearDeletedRows(rows: seq<nat>)
      modifies versions
      ensures versions.markers == ClearRows(old(versions.markers), Elems(rows))
    {
      ghost var m := versions.markers;
      for i := 0 to |rows|
        invariant versions.markers == ClearRows(m, Elems(rows[..i]))
      {
        versions.ClearDeleteMarker(rows[i]);
        assert Elems(rows[..i + 1]) == Elems(rows[..i]) + {rows[i]};
      }
      assert rows[..|rows|] == rows;
    }
  }

  function Elems(s: seq<nat>): set<nat> { set r | r in s }

  // ----- The machine -----

  datatype Undo = InsertUndo | DeleteUndo(rows: seq<nat>)

  datatype Running = Running(start: int, undo: seq<Undo>)

  datatype State = State(
    markers: Markers, rowCount: nat, pendingStart: nat, active: map<nat, Running>, counter: nat, nextTx: nat)

  datatype Op =
    | Begin
    | Append(id: nat, count: nat)
    | Delete(id: nat, rows: seq<nat>)
    | Commit(id: nat)
    | Rollback(id: nat)

  function TxOf(s: State, id: nat): Tx
    requires id in s.active
  {
    Tx(id, s.active[id].start)
  }

  function Fresh(s: State): Tx { Tx(s.nextTx, s.counter + 1) }

  /** The rows a transaction sees. */
  function View(s: State, tx: Tx): set<nat> {
    set r: nat | 0 <= r < s.rowCount && IsVisible(s.markers, r, tx)
  }

  function Log(s: State, id: nat, u: Undo): map<nat, Running>
    requires id in s.active
  {
    s.active[id := s.active[id].(undo := s.active[id].undo + [u])]
  }

  /** Undo entries in order: the latest append, and the deleted rows, get the commit time. */
  function CommitUndo(s: State, undo: seq<Undo>, time: int): Markers {
    if undo == [] then s.markers
    else
      var n := |undo| - 1;
      var m := CommitUndo(s, undo[..n], time);
      match undo[n]
      case InsertUndo => CommitRows(m, Range(s.pendingStart, s.rowCount), time)
      case DeleteUndo(rows) => CommitRows(m, Elems(rows), time)
  }

  /** One undo entry taken back. */
  function TakenBack(s: State, u: Undo): State {
    match u
    case InsertUndo =>
      s.(markers := ClearRows(s.markers, Range(s.pendingStart, s.rowCount)), rowCount := s.pendingStart)
    case DeleteUndo(rows) => s.(markers := ClearRows(s.markers, Elems(rows)))
  }

  /** Undo entries newest first. */
  function RollbackUndo(s: State, undo: seq<Undo>): State
    decreases |undo|
  {
    if undo == [] then s else RollbackUndo(TakenBack(s, undo[|undo| - 1]), undo[..|undo| - 1])
  }

  /** One step.  A DELETE only ever marks rows its scan showed it. */
  function Step(s: State, op: Op): State {
    match op
    case Begin => s.(active := s.active[s.nextTx := Running(s.counter + 1, [])], nextTx := s.nextTx + 1)
    case Append(id, count) =>
      if id !in s.active || count == 0 then s
      else
        s.(markers := InsertRows(s.markers, s.rowCount, s.rowCount + count, id),
           pendingStart := s.rowCount, rowCount := s.rowCount + count, active := Log(s, id, InsertUndo))
    case Delete(id, rows) =>
      if id !in s.active || !(Elems(rows) <= View(s, TxOf(s, id))) then s
      else
        s.(markers := DeleteRows(s.markers, Elems(rows), id), active := Log(s, id, DeleteUndo(rows)))
    case Commit(id) =>
      if id !in s.active then s
      else
        s.(markers := CommitUndo(s, s.active[id].undo, s.counter + 1), active := s.active - {id},
           counter := s.counter + 1)
    case Rollback(id) =>
      if id !in s.active then s
      else
        var r := RollbackUndo(s, s.active[id].undo);
        r.(active := s.active - {id})
  }

  /** The transaction manager over one row group, with the undo lists in place. */
  class RowTransactions {
    const group: RowGroup
    var active: map<nat, Running>
    var counter: nat
    var nextTx: nat

    ghost function Repr(): set<object>
    {
      {this, group, group.versions}
    }

    ghost function Abs(): State
      reads Repr()
    {
      State(group.versions.markers, group.rowCount, group.pendingStart, active, counter, nextTx)
    }

    ghost predicate Valid()
      reads Repr()
    {
      group.pendingStart <= group.rowCount && nextTx > NO_TX && forall t :: t in active ==> t != NO_TX
    }

    constructor ()
      ensures Valid() && fresh(Repr()) && Abs() == EMPTY_STATE
    {
      group := new RowGroup();
      active, counter, nextTx := map[], 0, 1;
    }

    method BeginTransaction() returns (id: nat)
      requires Valid()
      modifies this
      ensures Valid() && Abs() == Step(old(Abs()), Begin) && id == old(nextTx)
    {
      id := nextTx;
      nextTx := nextTx + 1;
      active := active[id := Running(counter + 1, [])];
    }

    method Insert(id: nat, count: nat)
      requires Valid() && id in active && count > 0
      modifies Repr()
      ensures Valid() && Abs() == Step(old(Abs()), Op.Append(id, count))
    {
      ghost var s := Abs();
      group.Append(count, id);
      active := active[id := active[id].(undo := active[id].undo + [InsertUndo])];
      assert active == Log(s, id, InsertUndo);
    }

    /** Mark the rows a scan of the transaction showed it. */
    method DeleteRows(id: nat, rows: seq<nat>)
      requires Valid() && id in active && Elems(rows) <= View(Abs(), TxOf(Abs(), id))
      modifies Repr()
      ensures Valid() && Abs() == Step(old(Abs()), Op.Delete(id, rows))
    {
      ghost var s := Abs();
      group.MarkDeletedRows(rows, id);
      active := active[id := active[id].(undo := active[id].undo + [DeleteUndo(rows)])];
      assert active == Log(s, id, DeleteUndo(rows));
    }

    /** The clock advances and the undo entries get the new time, oldest first. */
    method CommitTransaction(id: nat)
      requires Valid() && id in active
      modifies Repr()
      ensures Valid() && Abs() == Step(old(Abs()), Op.Commit(id))
    {
      ghost var s := Abs();
      counter := counter + 1;
      ApplyUndo(active[id].undo, counter, s);
      active := active - {id};
    }

    method ApplyUndo(undo: seq<Undo>, time: int, ghost s: State)
      requires Valid() && s.markers == group.versions.markers && s.pendingStart == group.pendingStart &&
        s.rowCount == group.rowCount
      modifies group.versions
      ensures group.versions.markers == CommitUndo(s, undo, time)
    {
      for i := 0 to |undo|
        invariant group.versions.markers == CommitUndo(s, undo[..i], time)
      {
        assert undo[..i + 1][..i] == undo[..i];
        match undo[i] {
          case InsertUndo => group.CommitAppend(time);
          case DeleteUndo(rows) => group.CommitDeletedRows(rows, time);
        }
      }
      assert undo[..|undo|] == undo;
    }

    /** The undo entries are taken back, newest first. */
    method RollbackTransaction(id: nat)
      requires Valid() && id in active
      modifies Repr()
      ensures Valid() && Abs() == Step(old(Abs()), Op.Rollback(id))
    {
      ghost var s := Abs();
      var undo := active[id].undo;
      assert undo[..|undo|] == undo;
      RollbackKeeps(s, undo);
      for i := |undo| downto 0
        invariant Valid() && active == s.active && counter == s.counter && nextTx == s.nextTx
        invariant RollbackUndo(Abs(), undo[..i]) == RollbackUndo(s, undo)
      {
        ghost var now := Abs();
        assert undo[..i + 1][..i] == undo[..i];
        match undo[i] {
          case InsertUndo => group.RevertAppend();
          case DeleteUndo(rows) => group.ClearDeletedRows(rows);
        }
        assert Abs() == TakenBack(now, undo[i]);
      }
      active := active - {id};
    }
  }

  /** Taking undo entries back touches the row group alone. */
  lemma {:induction false} RollbackKeeps(s: State, undo: seq<Undo>)
    ensures
      var r := RollbackUndo(s, undo);
      r.active == s.active && r.counter == s.counter && r.nextTx == s.nextTx
    decreases |undo|
  {
    if undo != [] { RollbackKeeps(TakenBack(s, undo[|undo| - 1]), undo[..|undo| - 1]); }
  }

  // ----- The specification: private row sets -----

  /** `added` is where a transaction's open append starts, if it has one. */
  datatype Table = Table(
    committed: set<nat>, size: nat, views: map<nat, set<nat>>, added: map<nat, nat>, removed: map<nat, set<nat>>,
    nextTx: nat)

  function SpecStep(a: Table, op: Op): Table {
    match op
    case Begin =>
      a.(views := a.views[a.nextTx := a.committed], removed := a.removed[a.nextTx := {}], nextTx := a.nextTx + 1)
    case Append(id, count) =>
      if id !in a.views || count == 0 then a
      else
        a.(views := a.views[id := a.views[id] + Range(a.size, a.size + count)], size := a.size + count,
           added := a.added[id := a.size])
    case Delete(id, rows) =>
      if id !in a.views || id !in a.removed || !(Elems(rows) <= a.views[id]) then a
      else
        a.(views := a.views[id := a.views[id] - Elems(rows)], removed := a.removed[id := a.removed[id] + Elems(rows)])
    case Commit(id) =>
      if id !in a.views || id !in a.removed then a
      else
        var inserted := if id in a.added then Range(a.added[id], a.size) else {};
        a.(committed := a.committed - a.removed[id] + inserted, views := a.views - {id},
           added := a.added - {id}, removed := a.removed - {id})
    case Rollback(id) =>
      if id !in a.views then a
      else
        a.(size := if id in a.added then a.added[id] else a.size, views := a.views - {id},
           added := a.added - {id}, removed := a.removed - {id})
  }

  // ----- When a step is allowed -----

  predicate Appended(r: Running) { InsertUndo in r.undo }

  function Deleted(undo: seq<Undo>): set<nat> {
    set u, r | u in undo && u.DeleteUndo? && r in u.rows :: r
  }

  /** The row carries no marker, or an insert committed before every running transaction began. */
  predicate Deletable(s: State, r: nat) {
    r in s.markers ==>
      && s.markers[r].kind.InsertMark? && s.markers[r].time != NO_TIME
      && forall t <- s.active :: s.markers[r].time < s.active[t].start
  }

  /** One open append per row group, and deletes only of rows that are settled for everyone. */
  predicate Allowed(s: State, op: Op) {
    match op
    case Append(id, _) => forall t <- s.active :: !Appended(s.active[t])
    case Delete(id, rows) => forall r <- rows :: Deletable(s, r)
    case _ => true
  }

  // ----- Invariant -----

  ghost predicate MarkerOk(s: State, r: nat)
    requires r in s.markers
  {
    var m := s.markers[r];
    && r < s.rowCount && !m.kind.UpdateMark? && m.tx < s.nextTx
    && (m.time == NO_TIME ==> m.tx in s.active)
    && (m.time != NO_TIME ==> 0 <= m.time <= s.counter && m.tx !in s.active)
    && (m.time == NO_TIME && m.kind.InsertMark? ==> Appended(s.active[m.tx]) && s.pendingStart <= r)
    && (m.time == NO_TIME && m.kind.DeleteMark? ==> r in Deleted(s.active[m.tx].undo))
  }

  ghost predicate TxOk(s: State, id: nat)
    requires id in s.active
  {
    && id < s.nextTx && s.active[id].start <= s.counter + 1
    && (forall r <- Deleted(s.active[id].undo) :: r in s.markers && s.markers[r] == Marker(DeleteMark, id, NO_TIME))
    && (Appended(s.active[id]) ==>
          forall r: nat :: s.pendingStart <= r < s.rowCount ==>
            r in s.markers && s.markers[r] == Marker(InsertMark, id, NO_TIME))
  }

  ghost predicate Inv(s: State) {
    && s.pendingStart <= s.rowCount
    && (forall r: nat :: r in s.markers ==> MarkerOk(s, r))
    && (forall id: nat :: id in s.active ==> TxOk(s, id))
    && (forall t: nat, u: nat ::
          t in s.active && u in s.active && Appended(s.active[t]) && Appended(s.active[u]) ==> t == u)
    && (forall t: nat :: t in s.active && Appended(s.active[t]) ==> s.pendingStart < s.rowCount)
  }

  ghost predicate TxRefines(s: State, a: Table, id: nat)
    requires id in s.active
  {
    && id in a.views && a.views[id] == View(s, TxOf(s, id))
    && id in a.removed && a.removed[id] == Deleted(s.active[id].undo)
    && (id in a.added <==> Appended(s.active[id]))
    && (id in a.added ==> a.added[id] == s.pendingStart)
  }

  ghost predicate BaseRefines(s: State, a: Table) {
    && a.nextTx == s.nextTx && a.size == s.rowCount && a.committed == View(s, Fresh(s))
    && (forall id: nat :: id in a.views || id in a.removed || id in a.added ==> id in s.active)
  }

  ghost predicate Refines(s: State, a: Table) {
    && BaseRefines(s, a)
    && (forall id: nat :: id in s.active ==> TxRefines(s, a, id))
  }

  // ----- Effect of a whole undo list -----

  /** The rows an undo list speaks about. */
  function Resolved(s: State, undo: seq<Undo>): set<nat> {
    (if InsertUndo in undo then Range(s.pendingStart, s.rowCount) else {}) + Deleted(undo)
  }

  lemma DeletedSplit(undo: seq<Undo>, u: Undo)
    ensures Deleted(undo + [u]) == Deleted(undo) + if u.DeleteUndo? then Elems(u.rows) else {}
  {
    assert forall x :: x in undo + [u] <==> x in undo || x == u;
  }

  lemma {:induction false} CommitUndoForm(s: State, undo: seq<Undo>, time: int)
    ensures CommitUndo(s, undo, time) == CommitRows(s.markers, Resolved(s, undo), time)
  {
    if undo == [] {
      assert Resolved(s, undo) == {};
    } else {
      var n := |undo| - 1;
      CommitUndoForm(s, undo[..n], time);
      assert undo == undo[..n] + [undo[n]];
      DeletedSplit(undo[..n], undo[n]);
      var more := if undo[n].InsertUndo? then Range(s.pendingStart, s.rowCount) else Elems(undo[n].rows);
      assert Resolved(s, undo) == Resolved(s, undo[..n]) + more;
      CommitTwice(s.markers, Resolved(s, undo[..n]), more, time);
    }
  }

  lemma CommitTwice(m: Markers, a: set<nat>, b: set<nat>, time: int)
    ensures CommitRows(CommitRows(m, a, time), b, time) == CommitRows(m, a + b, time)
  {
  }

  lemma {:induction false} RollbackUndoForm(s: State, undo: seq<Undo>)
    requires s.pendingStart <= s.rowCount
    ensures RollbackUndo(s, undo) ==
      s.(markers := s.markers - Resolved(s, undo),
         rowCount := if InsertUndo in undo then s.pendingStart else s.rowCount)
    decreases |undo|
  {
    if undo == [] {
      assert Resolved(s, undo) == {};
      assert s.markers - {} == s.markers;
    } else {
      var n := |undo| - 1;
      assert undo == undo[..n] + [undo[n]];
      DeletedSplit(undo[..n], undo[n]);
      if undo[n].InsertUndo? {
        var s' := s.(markers := ClearRows(s.markers, Range(s.pendingStart, s.rowCount)), rowCount := s.pendingStart);
        RollbackUndoForm(s', undo[..n]);
        assert Resolved(s, undo) == Range(s.pendingStart, s.rowCount) + Resolved(s', undo[..n]);
        assert s.markers - Resolved(s, undo) == s'.markers - Resolved(s', undo[..n]);
      } else {
        var s' := s.(markers := ClearRows(s.markers, Elems(undo[n].rows)));
        RollbackUndoForm(s', undo[..n]);
        assert Resolved(s, undo) == Resolved(s', undo[..n]) + Elems(undo[n].rows);
        assert s.markers - Resolved(s, undo) == s'.markers - Resolved(s', undo[..n]);
      }
    }
  }

  // ----- Each step keeps the invariant and matches the specification -----

  lemma BeginInv(s: State)
    requires Inv(s)
    ensures Inv(Step(s, Begin))
  {
    var s' := Step(s, Begin);
    assert Deleted([]) == {};
    forall r: nat | r in s'.markers ensures MarkerOk(s', r) { assert MarkerOk(s, r); }
    forall id: nat | id in s'.active ensures TxOk(s', id) {
      if id in s.active && id != s.nextTx { assert TxOk(s, id); }
    }
  }

  lemma BeginRefines(s: State, a: Table)
    requires Inv(s) && Refines(s, a)
    ensures Inv(Step(s, Begin)) && Refines(Step(s, Begin), SpecStep(a, Begin))
  {
    BeginInv(s);
    var s', a' := Step(s, Begin), SpecStep(a, Begin);
    assert s.nextTx in s.active ==> TxOk(s, s.nextTx);
    BeginFresh(s);
    forall id: nat | id in s'.active ensures TxRefines(s', a', id) {
      assert Deleted([]) == {};
      if id in s.active { assert TxRefines(s, a, id); SameRowsSameView(s, s', TxOf(s, id)); }
    }
  }

  lemma SameRowsSameView(s: State, s': State, tx: Tx)
    requires s'.markers == s.markers && s'.rowCount == s.rowCount
    ensures View(s', tx) == View(s, tx)
  {
  }

  lemma BeginFresh(s: State)
    requires Inv(s)
    ensures
      var s' := Step(s, Begin);
      View(s', Fresh(s')) == View(s, Fresh(s)) && View(s', TxOf(s', s.nextTx)) == View(s, Fresh(s))
  {
    var s' := Step(s, Begin);
    forall r: nat ensures IsVisible(s.markers, r, Fresh(s')) <==> IsVisible(s.markers, r, Fresh(s)) {
      if r in s.markers { assert MarkerOk(s, r); }
    }
  }

  lemma LogAppended(s: State, id: nat, u: Undo, t: nat)
    requires id in s.active && t in s.active
    ensures Appended(Log(s, id, u)[t]) <==> Appended(s.active[t]) || (t == id && u.InsertUndo?)
    ensures Deleted(Log(s, id, u)[t].undo) ==
      Deleted(s.active[t].undo) + if t == id && u.DeleteUndo? then Elems(u.rows) else {}
  {
    DeletedSplit(s.active[id].undo, u);
    var undo := s.active[id].undo;
    assert forall x :: x in undo + [u] <==> x in undo || x == u;
  }

  lemma AppendInv(s: State, id: nat, count: nat)
    requires Inv(s) && id in s.active && count > 0 && Allowed(s, Append(id, count))
    ensures Inv(Step(s, Append(id, count)))
  {
    var s' := Step(s, Append(id, count));
    forall t: nat | t in s.active ensures Appended(s'.active[t]) <==> t == id { LogAppended(s, id, InsertUndo, t); }
    forall r: nat | r in s'.markers ensures MarkerOk(s', r) { AppendMarker(s, id, count, r); }
    forall t: nat | t in s'.active ensures TxOk(s', t) { AppendTxOk(s, id, count, t); }
  }

  lemma AppendMarker(s: State, id: nat, count: nat, r: nat)
    requires Inv(s) && id in s.active && count > 0 && Allowed(s, Append(id, count)) &&
      r in Step(s, Append(id, count)).markers
    ensures MarkerOk(Step(s, Append(id, count)), r)
  {
    if r in s.markers {
      assert MarkerOk(s, r);
      if s.markers[r].time == NO_TIME { LogAppended(s, id, InsertUndo, s.markers[r].tx); }
    }
    LogAppended(s, id, InsertUndo, id);
    assert TxOk(s, id);
  }

  lemma AppendTxOk(s: State, id: nat, count: nat, t: nat)
    requires Inv(s) && id in s.active && t in s.active && count > 0 && Allowed(s, Append(id, count))
    ensures TxOk(Step(s, Append(id, count)), t)
  {
    var s' := Step(s, Append(id, count));
    assert TxOk(s, t);
    LogAppended(s, id, InsertUndo, t);
    forall r | r in Deleted(s'.active[t].undo)
      ensures r in s'.markers && s'.markers[r] == Marker(DeleteMark, t, NO_TIME)
    {
      assert MarkerOk(s, r);
    }
  }

  lemma AppendViews(s: State, id: nat, count: nat, tx: Tx)
    requires Inv(s) && id in s.active && count > 0
    ensures View(Step(s, Append(id, count)), tx) ==
      View(s, tx) + if tx.id == id then Range(s.rowCount, s.rowCount + count) else {}
  {
    var s' := Step(s, Append(id, count));
    forall r: nat | r < s'.rowCount
      ensures IsVisible(s'.markers, r, tx) <==> if r < s.rowCount then IsVisible(s.markers, r, tx) else tx.id == id
    {
    }
  }

  lemma AppendRefines(s: State, a: Table, id: nat, count: nat)
    requires Inv(s) && Refines(s, a) && id in s.active && count > 0 && Allowed(s, Append(id, count))
    ensures Refines(Step(s, Append(id, count)), SpecStep(a, Append(id, count)))
  {
    var s', a' := Step(s, Append(id, count)), SpecStep(a, Append(id, count));
    AppendBase(s, a, id, count);
    forall t: nat | t in s'.active ensures TxRefines(s', a', t) { AppendTx(s, a, id, count, t); }
  }

  lemma AppendBase(s: State, a: Table, id: nat, count: nat)
    requires Inv(s) && Refines(s, a) && id in s.active && count > 0
    ensures BaseRefines(Step(s, Append(id, count)), SpecStep(a, Append(id, count)))
  {
    assert TxRefines(s, a, id) && TxOk(s, id);
    AppendViews(s, id, count, Fresh(s));
  }

  lemma AppendTx(s: State, a: Table, id: nat, count: nat, t: nat)
    requires Inv(s) && Refines(s, a) && id in s.active && t in s.active && count > 0 && Allowed(s, Append(id, count))
    ensures TxRefines(Step(s, Append(id, count)), SpecStep(a, Append(id, count)), t)
  {
    assert TxRefines(s, a, t) && TxRefines(s, a, id);
    LogAppended(s, id, InsertUndo, t);
    AppendViews(s, id, count, TxOf(s, t));
  }

  lemma DeleteInv(s: State, id: nat, rows: seq<nat>)
    requires Inv(s) && id in s.active && Elems(rows) <= View(s, TxOf(s, id)) && Allowed(s, Delete(id, rows))
    ensures Inv(Step(s, Delete(id, rows)))
  {
    var s' := Step(s, Delete(id, rows));
    forall t: nat | t in s.active
      ensures Appended(s'.active[t]) <==> Appended(s.active[t])
    {
      LogAppended(s, id, DeleteUndo(rows), t);
    }
    forall r: nat | r in s'.markers ensures MarkerOk(s', r) { DeleteMarker(s, id, rows, r); }
    forall t: nat | t in s'.active ensures TxOk(s', t) { DeleteTxOk(s, id, rows, t); }
  }

  lemma DeleteMarker(s: State, id: nat, rows: seq<nat>, r: nat)
    requires Inv(s) && id in s.active && Elems(rows) <= View(s, TxOf(s, id)) && Allowed(s, Delete(id, rows))
    requires r in Step(s, Delete(id, rows)).markers
    ensures MarkerOk(Step(s, Delete(id, rows)), r)
  {
    assert TxOk(s, id);
    LogAppended(s, id, DeleteUndo(rows), id);
    if r !in Elems(rows) {
      assert MarkerOk(s, r);
      if s.markers[r].time == NO_TIME { LogAppended(s, id, DeleteUndo(rows), s.markers[r].tx); }
    }
  }

  lemma DeleteTxOk(s: State, id: nat, rows: seq<nat>, t: nat)
    requires Inv(s) && id in s.active && t in s.active && Elems(rows) <= View(s, TxOf(s, id)) &&
      Allowed(s, Delete(id, rows))
    ensures TxOk(Step(s, Delete(id, rows)), t)
  {
    assert TxOk(s, t);
    LogAppended(s, id, DeleteUndo(rows), t);
    assert forall r :: r in Elems(rows) ==> r < s.rowCount && Deletable(s, r);
  }

  /** A row settled for everyone stays visible to everyone but the one who deletes it. */
  lemma DeletableVisible(s: State, r: nat, tx: Tx)
    requires Inv(s) && Deletable(s, r) && (tx == Fresh(s) || (tx.id in s.active && tx == TxOf(s, tx.id)))
    ensures IsVisible(s.markers, r, tx)
  {
    if r in s.markers { assert MarkerOk(s, r); }
  }

  lemma DeleteViews(s: State, id: nat, rows: seq<nat>, tx: Tx)
    requires Inv(s) && id in s.active && Elems(rows) <= View(s, TxOf(s, id)) && Allowed(s, Delete(id, rows))
    requires tx == Fresh(s) || (tx.id in s.active && tx == TxOf(s, tx.id))
    ensures View(Step(s, Delete(id, rows)), tx) == if tx.id == id then View(s, tx) - Elems(rows) else View(s, tx)
  {
    var s' := Step(s, Delete(id, rows));
    forall r: nat | r < s.rowCount
      ensures IsVisible(s'.markers, r, tx) <==> IsVisible(s.markers, r, tx) && !(tx.id == id && r in Elems(rows))
    {
      if r in Elems(rows) { DeletableVisible(s, r, tx); }
    }
  }

  lemma DeleteRefines(s: State, a: Table, id: nat, rows: seq<nat>)
    requires Inv(s) && Refines(s, a) && id in s.active && Allowed(s, Delete(id, rows))
    requires Elems(rows) <= View(s, TxOf(s, id))
    ensures Refines(Step(s, Delete(id, rows)), SpecStep(a, Delete(id, rows)))
  {
    var s', a' := Step(s, Delete(id, rows)), SpecStep(a, Delete(id, rows));
    assert TxRefines(s, a, id) && TxOk(s, id);
    DeleteViews(s, id, rows, Fresh(s));
    DeleteBase(s, a, id, rows);
    forall t: nat | t in s'.active ensures TxRefines(s', a', t) { DeleteTx(s, a, id, rows, t); }
  }

  lemma DeleteBase(s: State, a: Table, id: nat, rows: seq<nat>)
    requires id in s.active && id < s.nextTx && BaseRefines(s, a) && TxRefines(s, a, id)
    requires Elems(rows) <= View(s, TxOf(s, id))
    requires View(Step(s, Delete(id, rows)), Fresh(s)) == View(s, Fresh(s))
    ensures BaseRefines(Step(s, Delete(id, rows)), SpecStep(a, Delete(id, rows)))
  {
  }

  lemma DeleteTx(s: State, a: Table, id: nat, rows: seq<nat>, t: nat)
    requires Inv(s) && Refines(s, a) && id in s.active && t in s.active && Allowed(s, Delete(id, rows))
    requires Elems(rows) <= View(s, TxOf(s, id))
    ensures TxRefines(Step(s, Delete(id, rows)), SpecStep(a, Delete(id, rows)), t)
  {
    assert TxRefines(s, a, t) && TxRefines(s, a, id);
    LogAppended(s, id, DeleteUndo(rows), t);
    DeleteViews(s, id, rows, TxOf(s, t));
  }

  /** The rows an undo list speaks about are exactly those with an open mark of its owner. */
  lemma ResolvedRows(s: State, id: nat, r: nat)
    requires Inv(s) && id in s.active
    ensures r in Resolved(s, s.active[id].undo) <==> r in s.markers && s.markers[r].tx == id
    ensures r in Resolved(s, s.active[id].undo) ==> s.markers[r].time == NO_TIME
  {
    assert TxOk(s, id);
    if r in s.markers { assert MarkerOk(s, r); }
  }

  lemma CommitInv(s: State, id: nat)
    requires Inv(s) && id in s.active
    ensures Inv(Step(s, Commit(id)))
  {
    var s', undo := Step(s, Commit(id)), s.active[id].undo;
    CommitUndoForm(s, undo, s.counter + 1);
    forall r: nat | r in s'.markers ensures MarkerOk(s', r) {
      assert MarkerOk(s, r);
      ResolvedRows(s, id, r);
    }
    forall t: nat | t in s'.active ensures TxOk(s', t) {
      assert TxOk(s, t);
      forall r: nat | r in s.markers && s.markers[r].tx == t
        ensures s'.markers[r] == s.markers[r]
      {
        ResolvedRows(s, id, r);
      }
    }
  }

  lemma CommitViews(s: State, id: nat, tx: Tx)
    requires Inv(s) && id in s.active && tx.id in s.active && tx.id != id && tx == TxOf(s, tx.id)
    ensures View(Step(s, Commit(id)), tx) == View(s, tx)
  {
    var s', undo := Step(s, Commit(id)), s.active[id].undo;
    CommitUndoForm(s, undo, s.counter + 1);
    assert TxOk(s, tx.id);
    forall r: nat ensures IsVisible(s'.markers, r, tx) <==> IsVisible(s.markers, r, tx) { ResolvedRows(s, id, r); }
  }

  lemma CommitFresh(s: State, id: nat)
    requires Inv(s) && id in s.active
    ensures
      var s', r := Step(s, Commit(id)), s.active[id];
      View(s', Fresh(s')) == View(s, Fresh(s)) - Deleted(r.undo)
        + if Appended(r) then Range(s.pendingStart, s.rowCount) else {}
  {
    var s', undo := Step(s, Commit(id)), s.active[id].undo;
    CommitUndoForm(s, undo, s.counter + 1);
    assert TxOk(s, id);
    forall r: nat | r < s.rowCount
      ensures IsVisible(s'.markers, r, Fresh(s')) <==>
        (IsVisible(s.markers, r, Fresh(s)) && r !in Deleted(undo)) || (Appended(s.active[id]) && s.pendingStart <= r)
    {
      ResolvedRows(s, id, r);
      if r in s.markers { assert MarkerOk(s, r); }
    }
  }

  lemma CommitRefines(s: State, a: Table, id: nat)
    requires Inv(s) && Refines(s, a)
    ensures Inv(Step(s, Commit(id))) && Refines(Step(s, Commit(id)), SpecStep(a, Commit(id)))
  {
    if id !in s.active { return; }
    CommitInv(s, id);
    CommitFresh(s, id);
    var s', a' := Step(s, Commit(id)), SpecStep(a, Commit(id));
    assert TxRefines(s, a, id);
    forall t: nat | t in s'.active
      ensures TxRefines(s', a', t)
    {
      assert TxRefines(s, a, t);
      CommitViews(s, id, TxOf(s, t));
    }
  }

  lemma RollbackInv(s: State, id: nat)
    requires Inv(s) && id in s.active
    ensures Inv(Step(s, Rollback(id)))
  {
    var s', undo := Step(s, Rollback(id)), s.active[id].undo;
    RollbackUndoForm(s, undo);
    assert TxOk(s, id);
    forall r: nat | r in s'.markers ensures MarkerOk(s', r) {
      assert MarkerOk(s, r);
      ResolvedRows(s, id, r);
    }
    forall t: nat | t in s'.active ensures TxOk(s', t) {
      assert TxOk(s, t);
      forall r: nat | r in s.markers && s.markers[r].tx == t ensures r in s'.markers && s'.markers[r] == s.markers[r] {
        ResolvedRows(s, id, r);
      }
    }
  }

  lemma RollbackViews(s: State, id: nat, tx: Tx)
    requires Inv(s) && id in s.active && tx.id != id && (tx == Fresh(s) || (tx.id in s.active && tx == TxOf(s, tx.id)))
    ensures View(Step(s, Rollback(id)), tx) == View(s, tx)
  {
    var s', undo := Step(s, Rollback(id)), s.active[id].undo;
    RollbackUndoForm(s, undo);
    assert TxOk(s, id);
    forall r: nat | r < s.rowCount
      ensures r < s'.rowCount && IsVisible(s'.markers, r, tx) <==> IsVisible(s.markers, r, tx)
    {
      ResolvedRows(s, id, r);
      if r in s.markers { assert MarkerOk(s, r); }
    }
  }

  lemma RollbackRefines(s: State, a: Table, id: nat)
    requires Inv(s) && Refines(s, a)
    ensures Inv(Step(s, Rollback(id))) && Refines(Step(s, Rollback(id)), SpecStep(a, Rollback(id)))
  {
    if id !in s.active { return; }
    RollbackInv(s, id);
    RollbackUndoForm(s, s.active[id].undo);
    assert TxOk(s, id);
    var s', a' := Step(s, Rollback(id)), SpecStep(a, Rollback(id));
    RollbackViews(s, id, Fresh(s));
    assert Fresh(s') == Fresh(s);
    assert TxRefines(s, a, id);
    forall t: nat | t in s'.active
      ensures TxRefines(s', a', t)
    {
      assert TxRefines(s, a, t);
      RollbackViews(s, id, TxOf(s, t));
    }
  }

  lemma StepRefines(s: State, a: Table, op: Op)
    requires Inv(s) && Refines(s, a) && Allowed(s, op)
    ensures Inv(Step(s, op)) && Refines(Step(s, op), SpecStep(a, op))
  {
    match op
    case Begin => BeginRefines(s, a);
    case Append(id, count) =>
      if id in s.active && count > 0 {
        AppendInv(s, id, count);
        AppendRefines(s, a, id, count);
      }
    case Delete(id, rows) =>
      if id in s.active {
        assert TxRefines(s, a, id);
        if Elems(rows) <= View(s, TxOf(s, id)) {
          DeleteInv(s, id, rows);
          DeleteRefines(s, a, id, rows);
        }
      }
    case Commit(id) => CommitRefines(s, a, id);
    case Rollback(id) => RollbackRefines(s, a, id);
  }

  // ----- Whole runs -----

  function Run(s: State, ops: seq<Op>): State {
    if ops == [] then s else Step(Run(s, ops[..|ops| - 1]), ops[|ops| - 1])
  }

  function SpecRun(a: Table, ops: seq<Op>): Table {
    if ops == [] then a else SpecStep(SpecRun(a, ops[..|ops| - 1]), ops[|ops| - 1])
  }

  predicate AllowedRun(s: State, ops: seq<Op>) {
    ops == [] ||
    (AllowedRun(s, ops[..|ops| - 1]) && Allowed(Run(s, ops[..|ops| - 1]), ops[|ops| - 1]))
  }

  const EMPTY_STATE := State(map[], 0, 0, map[], 0, 1)
  const EMPTY_TABLE := Table({}, 0, map[], map[], map[], 1)

  /** Snapshot isolation of rows: after every allowed run each transaction sees exactly its
      private row set, and commits apply as a whole. */
  lemma {:induction false} RowSnapshotIsolation(ops: seq<Op>)
    requires AllowedRun(EMPTY_STATE, ops)
    ensures Inv(Run(EMPTY_STATE, ops))
    ensures Refines(Run(EMPTY_STATE, ops), SpecRun(EMPTY_TABLE, ops))
  {
    if ops == [] {
      assert View(EMPTY_STATE, Fresh(EMPTY_STATE)) == {};
    } else {
      var n := |ops| - 1;
      RowSnapshotIsolation(ops[..n]);
      StepRefines(Run(EMPTY_STATE, ops[..n]), SpecRun(EMPTY_TABLE, ops[..n]), ops[n]);
    }
  }

  predicate ByOther(op: Op, t: nat) { op.Begin? || op.id != t }

  lemma {:induction false} SpecViewStable(a: Table, ops: seq<Op>, t: nat)
    requires t in a.views && t < a.nextTx && forall op <- ops :: ByOther(op, t)
    ensures
      var b := SpecRun(a, ops);
      t in b.views && b.views[t] == a.views[t] && a.nextTx <= b.nextTx
  {
    if ops != [] {
      var n := |ops| - 1;
      assert ByOther(ops[n], t);
      SpecViewStable(a, ops[..n], t);
    }
  }

  lemma {:induction false} RunConcat(s: State, a: Table, x: seq<Op>, y: seq<Op>)
    ensures Run(s, x + y) == Run(Run(s, x), y) && SpecRun(a, x + y) == SpecRun(SpecRun(a, x), y)
    ensures AllowedRun(s, x + y) ==> AllowedRun(s, x)
  {
    if y == [] {
      assert x + y == x;
    } else {
      var n := |y| - 1;
      RunConcat(s, a, x, y[..n]);
      assert (x + y)[..|x + y| - 1] == x + y[..n];
    }
  }

  /** Whatever the others do, a running transaction's visible rows change only by its own steps. */
  lemma ViewChangesOnlyByOwnSteps(before: seq<Op>, ops: seq<Op>, t: nat)
    requires AllowedRun(EMPTY_STATE, before + ops) && t in Run(EMPTY_STATE, before).active
    requires forall op <- ops :: ByOther(op, t)
    ensures
      var s, s' := Run(EMPTY_STATE, before), Run(EMPTY_STATE, before + ops);
      t in s'.active && View(s', TxOf(s', t)) == View(s, TxOf(s, t))
  {
    RunConcat(EMPTY_STATE, EMPTY_TABLE, before, ops);
    RowSnapshotIsolation(before);
    RowSnapshotIsolation(before + ops);
    var s, a := Run(EMPTY_STATE, before), SpecRun(EMPTY_TABLE, before);
    assert TxOk(s, t) && TxRefines(s, a, t);
    SpecViewStable(a, ops, t);
    assert TxRefines(Run(EMPTY_STATE, before + ops), SpecRun(a, ops), t);
  }

  /** A commit is all or nothing: whoever begins next sees every insert and every delete of
      the committer on top of what was committed before, and nothing else. */
  lemma CommitIsAtomic(before: seq<Op>, id: nat)
    requires AllowedRun(EMPTY_STATE, before) && id in Run(EMPTY_STATE, before).active
    ensures
      var s := Run(EMPTY_STATE, before);
      var s' := Step(Step(s, Commit(id)), Begin);
      s.nextTx in s'.active && View(s', TxOf(s', s.nextTx)) ==
        View(s, Fresh(s)) - Deleted(s.active[id].undo)
          + (if Appended(s.active[id]) then Range(s.pendingStart, s.rowCount) else {})
  {
    RowSnapshotIsolation(before);
    var s, a := Run(EMPTY_STATE, before), SpecRun(EMPTY_TABLE, before);
    CommitRefines(s, a, id);
    CommitFresh(s, id);
    var c := Step(s, Commit(id));
    assert View(Step(c, Begin), Fresh(c)) == View(c, Fresh(c));
  }

  // ----- What a step that is not allowed does -----

  /** A delete leaves another transaction's view alone exactly when that transaction already
      saw every deleted row: a delete marker replaces whatever hid the row from it. */
  lemma DeleteDisturbsIff(s: State, id: nat, rows: seq<nat>, tx: Tx)
    requires id in s.active && Elems(rows) <= View(s, TxOf(s, id)) && tx.id != id
    ensures View(Step(s, Delete(id, rows)), tx) == View(s, tx) + Elems(rows)
    ensures View(Step(s, Delete(id, rows)), tx) == View(s, tx) <==> Elems(rows) <= View(s, tx)
  {
    var s' := Step(s, Delete(id, rows));
    forall r: nat | r < s.rowCount
      ensures IsVisible(s'.markers, r, tx) <==> IsVisible(s.markers, r, tx) || r in Elems(rows)
    {
    }
    assert View(s', tx) == View(s, tx) + Elems(rows);
  }

  /** In every reachable state, a row may be deleted exactly when everyone running, and
      whoever begins now, sees it. */
  lemma DeletableIff(s: State, r: nat)
    requires Inv(s) && r < s.rowCount
    ensures Deletable(s, r) <==>
      IsVisible(s.markers, r, Fresh(s)) && forall t: nat :: t in s.active ==> IsVisible(s.markers, r, TxOf(s, t))
  {
    if r in s.markers { assert MarkerOk(s, r); }
    if Deletable(s, r) {
      DeletableVisible(s, r, Fresh(s));
      forall t: nat | t in s.active ensures IsVisible(s.markers, r, TxOf(s, t)) { DeletableVisible(s, r, TxOf(s, t)); }
    } else if forall t: nat :: t in s.active ==> IsVisible(s.markers, r, TxOf(s, t)) {
      var m := s.markers[r];
      if m.time == NO_TIME && m.kind.DeleteMark? {
        assert false;
      }
    }
  }

  /** 1 and 2 run; 1 inserts a row and deletes it again.  Nothing was committed, and 2 sees
      the row. */
  lemma OwnDeleteExposesRow()
    ensures
      var s := Run(EMPTY_STATE, [Begin, Begin, Append(1, 1)]);
      var s' := Step(s, Delete(1, [0]));
      && 2 in s.active && 2 in s'.active && !Allowed(s, Delete(1, [0]))
      && View(s, TxOf(s, 2)) == {} && View(s', TxOf(s', 2)) == {0}
  {
    var s2 := State(map[], 0, 0, map[1 := Running(1, []), 2 := Running(1, [])], 0, 3);
    RunTwo(Begin, Begin);
    assert Run(EMPTY_STATE, [Begin, Begin]) == s2;
    var ops := [Begin, Begin, Append(1, 1)];
    assert ops[..2] == [Begin, Begin];
    var s := Run(EMPTY_STATE, ops);
    assert s == Step(s2, Append(1, 1));
    assert s.markers == map[0 := Marker(InsertMark, 1, NO_TIME)];
    assert !Deletable(s, 0) && 0 in [0];
    assert 0 in View(s, TxOf(s, 1)) && Elems([0]) == {0};
    var s' := Step(s, Delete(1, [0]));
    assert s'.markers == map[0 := Marker(DeleteMark, 1, NO_TIME)];
    assert View(s', TxOf(s', 2)) == {0};
  }

  lemma RunTwo(a: Op, b: Op)
    ensures Run(EMPTY_STATE, [a, b]) == Step(Step(EMPTY_STATE, a), b)
  {
    assert [a, b][..1] == [a] && [a][..0] == [];
    assert Run(EMPTY_STATE, [a]) == Step(EMPTY_STATE, a);
  }

  /** The rows with an open insert mark of the transaction. */
  function OwnInserts(s: State, t: nat): set<nat> {
    set r | r in s.markers && s.markers[r] == Marker(InsertMark, t, NO_TIME)
  }

  /** The insert marks that a commit of the transaction changes. */
  function StampedInserts(s: State, t: nat): set<nat>
    requires t in s.active
  {
    CommitUndoForm(s, s.active[t].undo, s.counter + 1);
    var after := Step(s, Commit(t)).markers;
    set r | r in s.markers && s.markers[r].kind.InsertMark? && after[r] != s.markers[r]
  }

  /** Every open append would be committed by its own transaction, rows and all. */
  ghost predicate AppendsKeptApart(s: State) {
    forall t: nat :: t in s.active && Appended(s.active[t]) ==> StampedInserts(s, t) == OwnInserts(s, t)
  }

  lemma StampedRows(s: State, t: nat, r: nat)
    requires t in s.active && r in s.markers && s.markers[r].kind.InsertMark? && s.markers[r].time != s.counter + 1
    ensures r in StampedInserts(s, t) <==> r in Resolved(s, s.active[t].undo)
  {
    CommitUndoForm(s, s.active[t].undo, s.counter + 1);
  }

  lemma OnlyAppendKeptApart(s: State, id: nat, count: nat)
    requires Inv(s) && id in s.active && count > 0 && forall t <- s.active :: !Appended(s.active[t])
    ensures AppendsKeptApart(Step(s, Append(id, count)))
  {
    var s' := Step(s, Append(id, count));
    forall t: nat | t in s'.active && Appended(s'.active[t]) ensures StampedInserts(s', t) == OwnInserts(s', t) {
      LogAppended(s, id, InsertUndo, t);
      assert t == id && TxOk(s, id);
      forall r | r in s'.markers && s'.markers[r].kind.InsertMark?
        ensures r in StampedInserts(s', t) <==> r in OwnInserts(s', t)
      {
        if r < s.rowCount { assert MarkerOk(s, r); }
        StampedRows(s', t, r);
        AppendedDeleted(s, id);
      }
    }
  }

  lemma AppendedDeleted(s: State, id: nat)
    requires id in s.active
    ensures Deleted(s.active[id].undo + [InsertUndo]) == Deleted(s.active[id].undo)
  {
    DeletedSplit(s.active[id].undo, InsertUndo);
  }

  /** The first row of the append that was open before is not stamped by its own commit. */
  lemma EarlierAppendMissed(s: State, id: nat, count: nat, t: nat)
    requires Inv(s) && id in s.active && count > 0 && t in s.active && Appended(s.active[t])
    ensures !AppendsKeptApart(Step(s, Append(id, count)))
  {
    var s', r := Step(s, Append(id, count)), s.pendingStart;
    LogAppended(s, id, InsertUndo, t);
    assert TxOk(s, t);
    assert s.markers[r] == Marker(InsertMark, t, NO_TIME) && s'.markers[r] == s.markers[r];
    StampedRows(s', t, r);
    AppendedDeleted(s, id);
    assert r !in Deleted(s'.active[t].undo);
    assert r in OwnInserts(s', t) && r !in StampedInserts(s', t);
  }

  /** After one more append, commits stamp exactly the rows of their own transactions if and
      only if no transaction, the appending one included, had an open append already. */
  lemma SecondAppendIff(s: State, id: nat, count: nat)
    requires Inv(s) && id in s.active && count > 0
    ensures AppendsKeptApart(Step(s, Append(id, count))) <==> forall t <- s.active :: !Appended(s.active[t])
  {
    if forall t <- s.active :: !Appended(s.active[t]) {
      OnlyAppendKeptApart(s, id, count);
    } else {
      var t :| t in s.active && Appended(s.active[t]);
      EarlierAppendMissed(s, id, count, t);
    }
  }

  /** 1 and 2 both append; when 1 commits, the row group stamps its latest append, which is
      2's: the next transaction sees 2's uncommitted row and misses 1's committed one. */
  lemma SecondAppendLeaks()
    ensures
      var s := Run(EMPTY_STATE, [Begin, Begin, Append(1, 1)]);
      var s' := Step(Step(s, Append(2, 1)), Commit(1));
      !Allowed(s, Append(2, 1)) && View(s', Fresh(s')) == {1}
  {
    TwoBegunOneAppended();
    var s := OneAppended();
    assert Appended(s.active[1]) by { assert InsertUndo in s.active[1].undo; }
    var t := Step(s, Append(2, 1));
    assert t == BothAppended();
    BothAppendedCommit();
  }

  /** 1 and 2 run, and 1 has appended row 0. */
  function OneAppended(): State {
    State(map[0 := Marker(InsertMark, 1, NO_TIME)], 1, 0, map[1 := Running(1, [InsertUndo]), 2 := Running(1, [])], 0, 3)
  }

  lemma TwoBegunOneAppended()
    ensures Run(EMPTY_STATE, [Begin, Begin, Append(1, 1)]) == OneAppended()
  {
    var s2 := State(map[], 0, 0, map[1 := Running(1, []), 2 := Running(1, [])], 0, 3);
    RunTwo(Begin, Begin);
    assert Run(EMPTY_STATE, [Begin, Begin]) == s2;
    var ops := [Begin, Begin, Append(1, 1)];
    assert ops[..2] == [Begin, Begin];
    assert Run(EMPTY_STATE, ops) == Step(s2, Append(1, 1));
    assert [] + [InsertUndo] == [InsertUndo];
    assert Step(s2, Append(1, 1)).markers == map[0 := Marker(InsertMark, 1, NO_TIME)];
  }

  function BothAppended(): State {
    State(map[0 := Marker(InsertMark, 1, NO_TIME), 1 := Marker(InsertMark, 2, NO_TIME)], 2, 1,
          map[1 := Running(1, [InsertUndo]), 2 := Running(1, [InsertUndo])], 0, 3)
  }

  lemma BothAppendedCommit()
    ensures
      var s := Step(BothAppended(), Commit(1));
      View(s, Fresh(s)) == {1}
  {
    var t := BothAppended();
    CommitUndoForm(t, [InsertUndo], 1);
    assert Deleted([InsertUndo]) == {};
    assert Resolved(t, [InsertUndo]) == {1};
    var s := Step(t, Commit(1));
    assert s.markers == map[0 := Marker(InsertMark, 1, NO_TIME), 1 := Marker(InsertMark, 2, 1)];
  }
}
