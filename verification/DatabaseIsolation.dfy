/** Snapshot isolation of inserts and deletes across all row groups of all tables.

    One clock and one undo list per transaction serve any number of row groups; a DELETE may
    mark rows in several of them and is one undo entry.  Every run of this machine, seen from
    one row group, is a run of the machine of module RowIsolation, so its theorem holds in
    every row group at once. */
module DatabaseIsolation {
  import opened Basics
  import opened RowVersions
  import R = RowIsolation

  datatype GroupId = GroupId(table: string, index: nat)

  /** A row: its group, and its offset there. */
  datatype RowId = RowId(group: GroupId, offset: nat)

  datatype Group = Group(markers: Markers, rowCount: nat, pendingStart: nat)

  const NO_ROWS := Group(map[], 0, 0)

  datatype Undo = InsertUndo(group: GroupId) | DeleteUndo(rows: seq<RowId>)

  datatype Running = Running(start: int, undo: seq<Undo>)

  datatype State = State(groups: map<GroupId, Group>, active: map<nat, Running>, counter: nat, nextTx: nat)

  datatype Op =
    | Begin
    | Append(id: nat, group: GroupId, count: nat)
    | Delete(id: nat, rows: seq<RowId>)
    | Commit(id: nat)
    | Rollback(id: nat)

  /** A row group that was never appended to is empty. */
  function GroupOf(s: State, g: GroupId): Group { if g in s.groups then s.groups[g] else NO_ROWS }

  function TxOf(s: State, id: nat): Tx
    requires id in s.active
  {
    Tx(id, s.active[id].start)
  }

  function Fresh(s: State): Tx { Tx(s.nextTx, s.counter + 1) }

  predicate Sees(s: State, tx: Tx, r: RowId) {
    r.offset < GroupOf(s, r.group).rowCount && IsVisible(GroupOf(s, r.group).markers, r.offset, tx)
  }

  /** The offsets of the rows that lie in one group, in order. */
  function Offsets(rows: seq<RowId>, g: GroupId): (r: seq<nat>)
    ensures forall o: nat :: o in r <==> RowId(g, o) in rows
  {
    if rows == [] then []
    else
      var n := |rows| - 1;
      assert rows == rows[..n] + [rows[n]];
      Offsets(rows[..n], g) + if rows[n].group == g then [rows[n].offset] else []
  }

  function Log(s: State, id: nat, u: Undo): map<nat, Running>
    requires id in s.active
  {
    s.active[id := s.active[id].(undo := s.active[id].undo + [u])]
  }

  /** The groups after one undo entry is committed. */
  function CommitOne(groups: map<GroupId, Group>, u: Undo, time: int): map<GroupId, Group> {
    map g | g in groups :: CommitIn(groups[g], u, g, time)
  }

  function CommitIn(x: Group, u: Undo, g: GroupId, time: int): Group {
    match u
    case InsertUndo(h) =>
      if h == g then x.(markers := R.CommitRows(x.markers, R.Range(x.pendingStart, x.rowCount), time)) else x
    case DeleteUndo(rows) => x.(markers := R.CommitRows(x.markers, R.Elems(Offsets(rows, g)), time))
  }

  /** Undo entries in order. */
  function CommitUndo(groups: map<GroupId, Group>, undo: seq<Undo>, time: int): map<GroupId, Group> {
    if undo == [] then groups else CommitOne(CommitUndo(groups, undo[..|undo| - 1], time), undo[|undo| - 1], time)
  }

  function TakeBackOne(groups: map<GroupId, Group>, u: Undo): map<GroupId, Group> {
    map g | g in groups :: TakeBackIn(groups[g], u, g)
  }

  function TakeBackIn(x: Group, u: Undo, g: GroupId): Group {
    match u
    case InsertUndo(h) =>
      if h == g then
        x.(markers := R.ClearRows(x.markers, R.Range(x.pendingStart, x.rowCount)), rowCount := x.pendingStart)
      else x
    case DeleteUndo(rows) => x.(markers := R.ClearRows(x.markers, R.Elems(Offsets(rows, g))))
  }

  /** Undo entries newest first. */
  function RollbackUndo(groups: map<GroupId, Group>, undo: seq<Undo>): map<GroupId, Group>
    decreases |undo|
  {
    if undo == [] then groups else RollbackUndo(TakeBackOne(groups, undo[|undo| - 1]), undo[..|undo| - 1])
  }

  function Appended(x: Group, count: nat, id: nat): Group {
    Group(R.InsertRows(x.markers, x.rowCount, x.rowCount + count, id), x.rowCount + count, x.rowCount)
  }

  function Marked(groups: map<GroupId, Group>, rows: seq<RowId>, id: nat): map<GroupId, Group> {
    map g | g in groups :: groups[g].(markers := R.DeleteRows(groups[g].markers, R.Elems(Offsets(rows, g)), id))
  }

  /** The step does nothing: its transaction is not running, or it names rows it cannot see. */
  predicate Refused(s: State, op: Op) {
    match op
    case Begin => false
    case Append(id, _, count) => id !in s.active || count == 0
    case Delete(id, rows) => id !in s.active || exists r <- rows :: !Sees(s, TxOf(s, id), r)
    case Commit(id) => id !in s.active
    case Rollback(id) => id !in s.active
  }

  function Step(s: State, op: Op): State {
    if Refused(s, op) then s
    else
      match op
      case Begin => s.(active := s.active[s.nextTx := Running(s.counter + 1, [])], nextTx := s.nextTx + 1)
      case Append(id, g, count) =>
        s.(groups := s.groups[g := Appended(GroupOf(s, g), count, id)], active := Log(s, id, InsertUndo(g)))
      case Delete(id, rows) =>
        s.(groups := Marked(s.groups, rows, id), active := Log(s, id, DeleteUndo(rows)))
      case Commit(id) =>
        s.(groups := CommitUndo(s.groups, s.active[id].undo, s.counter + 1), active := s.active - {id},
           counter := s.counter + 1)
      case Rollback(id) =>
        s.(groups := RollbackUndo(s.groups, s.active[id].undo), active := s.active - {id})
  }

  // ----- The view from one row group -----

  function UndoIn(undo: seq<Undo>, g: GroupId): seq<R.Undo> {
    if undo == [] then []
    else
      var n := |undo| - 1;
      UndoIn(undo[..n], g) + OneUndoIn(undo[n], g)
  }

  function OneUndoIn(u: Undo, g: GroupId): seq<R.Undo> {
    match u
    case InsertUndo(h) => if h == g then [R.InsertUndo] else []
    case DeleteUndo(rows) => [R.DeleteUndo(Offsets(rows, g))]
  }

  function ActiveIn(active: map<nat, Running>, g: GroupId): map<nat, R.Running> {
    map t | t in active :: R.Running(active[t].start, UndoIn(active[t].undo, g))
  }

  function At(s: State, g: GroupId): R.State {
    var x := GroupOf(s, g);
    R.State(x.markers, x.rowCount, x.pendingStart, ActiveIn(s.active, g), s.counter, s.nextTx)
  }

  /** What a step is to one row group: at most one step of it. */
  function OpIn(s: State, op: Op, g: GroupId): seq<R.Op> {
    if Refused(s, op) then []
    else
      match op
      case Begin => [R.Begin]
      case Append(id, h, count) => if h == g then [R.Append(id, count)] else []
      case Delete(id, rows) => [R.Delete(id, Offsets(rows, g))]
      case Commit(id) => [R.Commit(id)]
      case Rollback(id) => [R.Rollback(id)]
  }

  lemma UndoInMore(undo: seq<Undo>, u: Undo, g: GroupId)
    ensures UndoIn(undo + [u], g) == UndoIn(undo, g) + OneUndoIn(u, g)
  {
    assert (undo + [u])[..|undo|] == undo;
  }

  /** Logging an entry, seen from one row group. */
  lemma LogIn(s: State, id: nat, u: Undo, g: GroupId)
    requires id in s.active
    ensures
      var r := R.Running(s.active[id].start, UndoIn(s.active[id].undo, g) + OneUndoIn(u, g));
      ActiveIn(Log(s, id, u), g) == ActiveIn(s.active, g)[id := r]
  {
    UndoInMore(s.active[id].undo, u, g);
  }

  lemma AppendHere(s: State, id: nat, g: GroupId, count: nat)
    requires id in s.active && count > 0
    ensures At(Step(s, Append(id, g, count)), g) == R.Step(At(s, g), R.Append(id, count))
  {
    LogIn(s, id, InsertUndo(g), g);
  }

  lemma AppendElsewhere(s: State, id: nat, h: GroupId, count: nat, g: GroupId)
    requires id in s.active && count > 0 && h != g
    ensures At(Step(s, Append(id, h, count)), g) == At(s, g)
  {
    LogIn(s, id, InsertUndo(h), g);
    assert UndoIn(s.active[id].undo, g) + [] == UndoIn(s.active[id].undo, g);
    assert ActiveIn(Log(s, id, InsertUndo(h)), g) == ActiveIn(s.active, g);
  }

  lemma SeenOffsets(s: State, id: nat, rows: seq<RowId>, g: GroupId)
    requires id in s.active && forall r <- rows :: Sees(s, TxOf(s, id), r)
    ensures R.Elems(Offsets(rows, g)) <= R.View(At(s, g), R.TxOf(At(s, g), id))
  {
    forall o | o in R.Elems(Offsets(rows, g)) ensures o in R.View(At(s, g), R.TxOf(At(s, g), id)) {
      assert RowId(g, o) in rows && Sees(s, TxOf(s, id), RowId(g, o));
    }
  }

  /** A group without rows has none that anybody sees. */
  lemma NothingThere(s: State, id: nat, rows: seq<RowId>, g: GroupId)
    requires id in s.active && g !in s.groups && forall r <- rows :: Sees(s, TxOf(s, id), r)
    ensures Offsets(rows, g) == []
  {
    var os := Offsets(rows, g);
    SeenOffsets(s, id, rows, g);
    assert R.View(At(s, g), R.TxOf(At(s, g), id)) == {};
    NoElems(os);
  }

  lemma NoElems(os: seq<nat>)
    ensures R.Elems(os) == {} ==> os == []
  {
    if os != [] { assert os[0] in R.Elems(os); }
  }

  lemma DeleteAt(s: State, id: nat, rows: seq<RowId>, g: GroupId)
    requires !Refused(s, Delete(id, rows))
    ensures At(Step(s, Delete(id, rows)), g) == R.Step(At(s, g), R.Delete(id, Offsets(rows, g)))
  {
    LogIn(s, id, DeleteUndo(rows), g);
    SeenOffsets(s, id, rows, g);
    if g !in s.groups {
      NothingThere(s, id, rows, g);
      assert R.DeleteRows(map[], {}, id) == map[];
    }
  }

  /** Committing an undo list in all groups is committing each group's part of it. */
  lemma {:induction false} CommitUndoAt(s: State, undo: seq<Undo>, time: int, g: GroupId)
    ensures
      var x := GroupOf(s, g);
      GroupOf(s.(groups := CommitUndo(s.groups, undo, time)), g) ==
        x.(markers := R.CommitUndo(At(s, g), UndoIn(undo, g), time))
    ensures CommitUndo(s.groups, undo, time).Keys == s.groups.Keys
  {
    if undo != [] {
      var n := |undo| - 1;
      CommitUndoAt(s, undo[..n], time, g);
      CommitMoreAt(At(s, g), UndoIn(undo[..n], g), undo[n], time, g);
      if g !in s.groups { NothingToCommit(At(s, g), UndoIn(undo, g), time); }
    }
  }

  lemma CommitMoreAt(s: R.State, undo: seq<R.Undo>, u: Undo, time: int, g: GroupId)
    ensures R.CommitUndo(s, undo + OneUndoIn(u, g), time) ==
      CommitIn(Group(R.CommitUndo(s, undo, time), s.rowCount, s.pendingStart), u, g, time).markers
  {
    var one := OneUndoIn(u, g);
    if one == [] {
      assert undo + one == undo;
    } else {
      assert (undo + one)[..|undo|] == undo;
    }
  }

  lemma {:induction false} NothingToCommit(s: R.State, undo: seq<R.Undo>, time: int)
    requires s.markers == map[]
    ensures R.CommitUndo(s, undo, time) == map[]
  {
    if undo != [] { NothingToCommit(s, undo[..|undo| - 1], time); }
  }

  /** Taking an undo list back in all groups is taking back each group's part of it. */
  lemma {:induction false} RollbackUndoAt(s: State, undo: seq<Undo>, g: GroupId)
    ensures
      var s' := s.(groups := RollbackUndo(s.groups, undo));
      At(s', g) == R.RollbackUndo(At(s, g), UndoIn(undo, g))
    decreases |undo|
  {
    if undo != [] {
      var n := |undo| - 1;
      var s1 := s.(groups := TakeBackOne(s.groups, undo[n]));
      assert s.(groups := RollbackUndo(s.groups, undo)) == s1.(groups := RollbackUndo(s1.groups, undo[..n]));
      var one := OneUndoIn(undo[n], g);
      assert R.RollbackUndo(At(s1, g), UndoIn(undo[..n], g)) == R.RollbackUndo(At(s, g), UndoIn(undo, g)) by {
        TakeBackAt(s, undo[n], g);
        RollbackMoreAt(At(s, g), UndoIn(undo[..n], g), one);
      }
      RollbackUndoAt(s1, undo[..n], g);
    }
  }

  lemma TakeBackAt(s: State, u: Undo, g: GroupId)
    ensures
      var one := OneUndoIn(u, g);
      At(s.(groups := TakeBackOne(s.groups, u)), g) == if one == [] then At(s, g) else R.TakenBack(At(s, g), one[0])
  {
    if g !in s.groups {
      assert forall rows: set<nat> :: R.ClearRows(map[], rows) == map[];
    }
  }

  lemma RollbackMoreAt(s: R.State, undo: seq<R.Undo>, one: seq<R.Undo>)
    requires |one| <= 1
    ensures R.RollbackUndo(s, undo + one) ==
      R.RollbackUndo(if one == [] then s else R.TakenBack(s, one[0]), undo)
  {
    if one == [] {
      assert undo + one == undo;
    } else {
      assert (undo + one)[..|undo|] == undo;
    }
  }

  lemma CommitAt(s: State, id: nat, g: GroupId)
    requires id in s.active
    ensures At(Step(s, Commit(id)), g) == R.Step(At(s, g), R.Commit(id))
  {
    var undo, time := s.active[id].undo, s.counter + 1;
    CommitUndoAt(s, undo, time, g);
    EndedIn(s.active, id, g);
    var x := GroupOf(s, g);
    var m := R.CommitUndo(At(s, g), UndoIn(undo, g), time);
    var s' := Step(s, Commit(id));
    assert GroupOf(s', g) == x.(markers := m);
    assert R.Step(At(s, g), R.Commit(id)) ==
      R.State(m, x.rowCount, x.pendingStart, ActiveIn(s.active, g) - {id}, time, s.nextTx);
  }

  lemma EndedIn(active: map<nat, Running>, id: nat, g: GroupId)
    ensures ActiveIn(active - {id}, g) == ActiveIn(active, g) - {id}
  {
  }

  lemma RollbackAt(s: State, id: nat, g: GroupId)
    requires id in s.active
    ensures At(Step(s, Rollback(id)), g) == R.Step(At(s, g), R.Rollback(id))
  {
    var undo := s.active[id].undo;
    RollbackUndoAt(s, undo, g);
    R.RollbackKeeps(At(s, g), UndoIn(undo, g));
    EndedIn(s.active, id, g);
  }

  lemma BeginAt(s: State, g: GroupId)
    ensures At(Step(s, Begin), g) == R.Step(At(s, g), R.Begin)
  {
    var s' := Step(s, Begin);
    assert ActiveIn(s'.active, g) == ActiveIn(s.active, g)[s.nextTx := R.Running(s.counter + 1, [])];
  }

  /** Every step is, in each row group, one step of that group or none. */
  lemma StepAt(s: State, op: Op, g: GroupId)
    ensures At(Step(s, op), g) == R.Run(At(s, g), OpIn(s, op, g))
  {
    var one := OpIn(s, op, g);
    assert one != [] ==> one[..0] == [] && R.Run(At(s, g), one) == R.Step(At(s, g), one[0]);
    if !Refused(s, op) {
      match op
      case Begin => BeginAt(s, g);
      case Append(id, h, count) =>
        if h == g { AppendHere(s, id, g, count); } else { AppendElsewhere(s, id, h, count, g); }
      case Delete(id, rows) => DeleteAt(s, id, rows, g);
      case Commit(id) => CommitAt(s, id, g);
      case Rollback(id) => RollbackAt(s, id, g);
    }
  }

  // ----- Whole runs -----

  function Run(s: State, ops: seq<Op>): State {
    if ops == [] then s else Step(Run(s, ops[..|ops| - 1]), ops[|ops| - 1])
  }

  /** A run as one row group sees it. */
  function RunIn(s: State, ops: seq<Op>, g: GroupId): seq<R.Op> {
    if ops == [] then []
    else
      var n := |ops| - 1;
      RunIn(s, ops[..n], g) + OpIn(Run(s, ops[..n]), ops[n], g)
  }

  /** One open append per row group, and deletes only of rows that are settled for everyone:
      the condition of every row group that the step touches. */
  ghost predicate Allowed(s: State, op: Op) {
    forall g: GroupId, one :: one in OpIn(s, op, g) ==> R.Allowed(At(s, g), one)
  }

  ghost predicate AllowedRun(s: State, ops: seq<Op>) {
    ops == [] ||
    (AllowedRun(s, ops[..|ops| - 1]) && Allowed(Run(s, ops[..|ops| - 1]), ops[|ops| - 1]))
  }

  const EMPTY_STATE := State(map[], map[], 0, 1)

  lemma EmptyAt(g: GroupId)
    ensures At(EMPTY_STATE, g) == R.EMPTY_STATE
  {
  }

  lemma RunMore(s: R.State, x: seq<R.Op>, one: seq<R.Op>)
    requires |one| <= 1
    ensures R.Run(s, x + one) == R.Run(R.Run(s, x), one)
    ensures R.AllowedRun(s, x) && (one != [] ==> R.Allowed(R.Run(s, x), one[0])) ==> R.AllowedRun(s, x + one)
  {
    if one == [] {
      assert x + one == x;
    } else {
      assert (x + one)[..|x|] == x && one[..0] == [];
      assert R.Run(R.Run(s, x), one) == R.Step(R.Run(s, x), one[0]);
    }
  }

  /** Every run is, in each row group, a run of that group, and an allowed one if all its
      steps are allowed. */
  lemma {:induction false} RunAt(ops: seq<Op>, g: GroupId)
    ensures At(Run(EMPTY_STATE, ops), g) == R.Run(R.EMPTY_STATE, RunIn(EMPTY_STATE, ops, g))
    ensures AllowedRun(EMPTY_STATE, ops) ==> R.AllowedRun(R.EMPTY_STATE, RunIn(EMPTY_STATE, ops, g))
  {
    EmptyAt(g);
    if ops != [] {
      var n := |ops| - 1;
      RunAt(ops[..n], g);
      OneMoreAt(Run(EMPTY_STATE, ops[..n]), RunIn(EMPTY_STATE, ops[..n], g), ops[n], g);
    }
  }

  lemma OneMoreAt(s: State, x: seq<R.Op>, op: Op, g: GroupId)
    requires At(s, g) == R.Run(R.EMPTY_STATE, x)
    ensures At(Step(s, op), g) == R.Run(R.EMPTY_STATE, x + OpIn(s, op, g))
    ensures R.AllowedRun(R.EMPTY_STATE, x) && Allowed(s, op) ==> R.AllowedRun(R.EMPTY_STATE, x + OpIn(s, op, g))
  {
    var one := OpIn(s, op, g);
    StepAt(s, op, g);
    RunMore(R.EMPTY_STATE, x, one);
    assert one != [] ==> one[0] in one;
  }

  // ----- What that means across row groups and tables -----

  lemma ViewIsSees(s: State, tx: Tx, r: RowId)
    ensures r.offset in R.View(At(s, r.group), tx) <==> Sees(s, tx, r)
  {
  }

  /** Snapshot isolation of the whole database: after every allowed run, each row group shows
      every transaction exactly its private row set. */
  lemma DatabaseSnapshotIsolation(ops: seq<Op>, g: GroupId)
    requires AllowedRun(EMPTY_STATE, ops)
    ensures R.Inv(At(Run(EMPTY_STATE, ops), g))
    ensures R.Refines(At(Run(EMPTY_STATE, ops), g), R.SpecRun(R.EMPTY_TABLE, RunIn(EMPTY_STATE, ops, g)))
  {
    RunAt(ops, g);
    R.RowSnapshotIsolation(RunIn(EMPTY_STATE, ops, g));
  }

  predicate ByOther(op: Op, t: nat) { op.Begin? || op.id != t }

  /** `full` goes on behind `base` with steps of others. */
  predicate GoesOn(base: seq<R.Op>, full: seq<R.Op>, t: nat) {
    base <= full && forall i :: |base| <= i < |full| ==> R.ByOther(full[i], t)
  }

  lemma OtherIn(base: seq<R.Op>, s: State, ops: seq<Op>, op: Op, t: nat, g: GroupId)
    requires ByOther(op, t) && GoesOn(base, RunIn(s, ops, g), t)
    ensures GoesOn(base, RunIn(s, ops + [op], g), t)
  {
    assert (ops + [op])[..|ops|] == ops;
  }

  /** Steps of others, seen from one row group, are steps of others behind the run so far. */
  lemma {:induction false} OthersIn(s: State, x: seq<Op>, y: seq<Op>, t: nat, g: GroupId)
    requires forall op <- y :: ByOther(op, t)
    ensures GoesOn(RunIn(s, x, g), RunIn(s, x + y, g), t)
  {
    if y == [] {
      assert x + y == x;
    } else {
      var n := |y| - 1;
      OthersIn(s, x, y[..n], t, g);
      OtherIn(RunIn(s, x, g), s, x + y[..n], y[n], t, g);
      assert x + y == x + y[..n] + [y[n]];
    }
  }

  lemma ViewStays(base: seq<R.Op>, full: seq<R.Op>, t: nat)
    requires R.AllowedRun(R.EMPTY_STATE, full) && GoesOn(base, full, t)
    requires t in R.Run(R.EMPTY_STATE, base).active
    ensures
      var s, s' := R.Run(R.EMPTY_STATE, base), R.Run(R.EMPTY_STATE, full);
      t in s'.active && R.View(s', R.TxOf(s', t)) == R.View(s, R.TxOf(s, t))
  {
    var tail := full[|base|..];
    assert full == base + tail;
    R.ViewChangesOnlyByOwnSteps(base, tail, t);
  }

  lemma SeesStays(s: State, s': State, t: nat, r: RowId)
    requires t in s.active && t in At(s', r.group).active
    requires
      var x, x' := At(s, r.group), At(s', r.group);
      R.View(x', R.TxOf(x', t)) == R.View(x, R.TxOf(x, t))
    ensures t in s'.active && (Sees(s', TxOf(s', t), r) <==> Sees(s, TxOf(s, t), r))
  {
    ViewIsSees(s, TxOf(s, t), r);
    ViewIsSees(s', TxOf(s', t), r);
  }

  /** Whatever the others do, and in however many tables, what a running transaction sees of
      any row changes only by its own steps. */
  lemma RowsChangeOnlyByOwnSteps(before: seq<Op>, ops: seq<Op>, t: nat, r: RowId)
    requires AllowedRun(EMPTY_STATE, before + ops) && t in Run(EMPTY_STATE, before).active
    requires forall op <- ops :: ByOther(op, t)
    ensures
      var s, s' := Run(EMPTY_STATE, before), Run(EMPTY_STATE, before + ops);
      t in s'.active && (Sees(s', TxOf(s', t), r) <==> Sees(s, TxOf(s, t), r))
  {
    var g := r.group;
    RunAt(before, g);
    RunAt(before + ops, g);
    OthersIn(EMPTY_STATE, before, ops, t, g);
    ViewStays(RunIn(EMPTY_STATE, before, g), RunIn(EMPTY_STATE, before + ops, g), t);
    SeesStays(Run(EMPTY_STATE, before), Run(EMPTY_STATE, before + ops), t, r);
  }

  /** The transaction deleted the row, in whichever statement. */
  predicate Removed(undo: seq<Undo>, r: RowId) { exists u <- undo :: u.DeleteUndo? && r in u.rows }

  /** The transaction inserted the row: it lies in the open append of its group. */
  predicate Added(s: State, undo: seq<Undo>, r: RowId) {
    && InsertUndo(r.group) in undo
    && GroupOf(s, r.group).pendingStart <= r.offset < GroupOf(s, r.group).rowCount
  }

  lemma {:induction false} UndoInMeaning(undo: seq<Undo>, g: GroupId)
    ensures R.InsertUndo in UndoIn(undo, g) <==> InsertUndo(g) in undo
    ensures forall o: nat :: o in R.Deleted(UndoIn(undo, g)) <==> Removed(undo, RowId(g, o))
  {
    if undo != [] {
      var n := |undo| - 1;
      assert undo == undo[..n] + [undo[n]];
      UndoInMeaning(undo[..n], g);
      var one := OneUndoIn(undo[n], g);
      if one != [] { R.DeletedSplit(UndoIn(undo[..n], g), one[0]); }
      forall o: nat ensures Removed(undo, RowId(g, o)) <==>
        Removed(undo[..n], RowId(g, o)) || (undo[n].DeleteUndo? && RowId(g, o) in undo[n].rows)
      {
      }
    }
  }

  /** A commit is all or nothing across row groups and tables: whoever begins next sees
      exactly the rows committed before, without those the committer deleted anywhere, and
      with those it inserted anywhere. */
  lemma CommitIsAtomicEverywhere(before: seq<Op>, id: nat, r: RowId)
    requires AllowedRun(EMPTY_STATE, before) && id in Run(EMPTY_STATE, before).active
    ensures
      var s := Run(EMPTY_STATE, before);
      var s' := Step(Step(s, Commit(id)), Begin);
      var undo := s.active[id].undo;
      && s.nextTx in s'.active
      && (Sees(s', TxOf(s', s.nextTx), r) <==> (Sees(s, Fresh(s), r) && !Removed(undo, r)) || Added(s, undo, r))
  {
    var g, s := r.group, Run(EMPTY_STATE, before);
    var c := Step(s, Commit(id));
    var s' := Step(c, Begin);
    RunAt(before, g);
    CommitAt(s, id, g);
    BeginAt(c, g);
    R.CommitIsAtomic(RunIn(EMPTY_STATE, before, g), id);
    UndoInMeaning(s.active[id].undo, g);
    ViewIsSees(s, Fresh(s), r);
    ViewIsSees(s', TxOf(s', s.nextTx), r);
  }

  lemma RollbackViewAt(before: seq<Op>, id: nat, g: GroupId)
    requires AllowedRun(EMPTY_STATE, before) && id in Run(EMPTY_STATE, before).active
    ensures
      var s := Run(EMPTY_STATE, before);
      id < s.nextTx && R.View(At(Step(s, Rollback(id)), g), Fresh(s)) == R.View(At(s, g), Fresh(s))
  {
    var s := Run(EMPTY_STATE, before);
    DatabaseSnapshotIsolation(before, g);
    assert R.TxOk(At(s, g), id);
    R.RollbackViews(At(s, g), id, Fresh(s));
    RollbackAt(s, id, g);
  }

  /** A rollback leaves nothing behind in any row group: whoever begins next sees exactly the
      rows that were committed before. */
  lemma RollbackLeavesNothing(before: seq<Op>, id: nat, r: RowId)
    requires AllowedRun(EMPTY_STATE, before) && id in Run(EMPTY_STATE, before).active
    ensures
      var s := Run(EMPTY_STATE, before);
      var s' := Step(Step(s, Rollback(id)), Begin);
      s.nextTx in s'.active && (Sees(s', TxOf(s', s.nextTx), r) <==> Sees(s, Fresh(s), r))
  {
    var s := Run(EMPTY_STATE, before);
    RollbackViewAt(before, id, r.group);
    ViewIsSees(s, Fresh(s), r);
    ViewIsSees(Step(s, Rollback(id)), Fresh(s), r);
  }
}
