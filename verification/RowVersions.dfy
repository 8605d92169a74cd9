/** Row version markers of a row group: visibility, and the counters behind the fast path.

    A row group keeps at most one marker per row and three counters.  When the counters say
    so, a scan skips the per-row visibility test altogether; the theorem here is that it
    then would have kept every row. */
module RowVersions {
  import opened Basics

  datatype MarkKind = DeleteMark | InsertMark | UpdateMark

  datatype Marker = Marker(kind: MarkKind, tx: nat, time: int)

  type Markers = map<nat, Marker>

  /** Visibility of a row for a transaction: a pure case split on its one marker. */
  predicate MarkerVisible(m: Marker, tx: Tx) {
    match m.kind
    case DeleteMark =>
      if m.tx == tx.id then false else if m.time == NO_TIME then true else m.time >= tx.start
    case InsertMark =>
      if m.tx == tx.id then true else if m.time == NO_TIME then false else m.time < tx.start
    case UpdateMark =>
      if m.tx == tx.id then true else if m.time == NO_TIME then false else m.time < tx.start
  }

  predicate IsVisible(markers: Markers, row: nat, tx: Tx) {
    row in markers ==> MarkerVisible(markers[row], tx)
  }

  // ----- Markers and counters -----

  datatype Versions = Versions(markers: Markers, uncommitted: int, deleteUpdate: int, maxInsert: int)

  const NO_VERSIONS := Versions(map[], 0, 0, 0)

  datatype Event =
    | MarkRow(kind: MarkKind, row: nat, tx: nat)
    | CommitRow(kind: MarkKind, row: nat, time: int)
    | RevertRow(kind: MarkKind, row: nat)

  function Stamp(m: Markers, row: nat, time: int): Markers
    requires row in m
  {
    m[row := m[row].(time := time)]
  }

  /** Effect of one marking, committing or reverting call.  Reverting a delete does not lower
      the count of uncommitted markers. */
  function Apply(v: Versions, e: Event): Versions {
    match e
    case MarkRow(kind, row, tx) =>
      Versions(v.markers[row := Marker(kind, tx, NO_TIME)], v.uncommitted + 1,
               v.deleteUpdate + (if kind.InsertMark? then 0 else 1), v.maxInsert)
    case CommitRow(kind, row, time) =>
      if row !in v.markers then v
      else
        v.(markers := Stamp(v.markers, row, time), uncommitted := v.uncommitted - 1,
           maxInsert := if kind.InsertMark? && time > v.maxInsert then time else v.maxInsert)
    case RevertRow(kind, row) =>
      if row !in v.markers then v
      else
        Versions(v.markers - {row}, v.uncommitted - (if kind.DeleteMark? then 0 else 1),
                 v.deleteUpdate - (if kind.InsertMark? then 0 else 1), v.maxInsert)
  }

  predicate AllInsertedVisibleTo(v: Versions, start: int) {
    v.uncommitted == 0 && v.deleteUpdate == 0 && v.maxInsert < start
  }

  // ----- What the counters mean -----

  /** `open`: marks not yet committed or reverted.  `counted`: the rows behind the count of
      delete and update markers. */
  datatype Track = Track(open: multiset<(MarkKind, nat)>, counted: multiset<nat>)

  const NO_TRACK := Track(multiset{}, multiset{})

  function Follow(v: Versions, t: Track, e: Event): Track {
    match e
    case MarkRow(kind, row, _) =>
      Track(t.open + multiset{(kind, row)}, if kind.InsertMark? then t.counted else t.counted + multiset{row})
    case CommitRow(kind, row, _) => t.(open := t.open - multiset{(kind, row)})
    case RevertRow(kind, row) =>
      Track(t.open - multiset{(kind, row)},
            if kind.InsertMark? || row !in v.markers then t.counted else t.counted - multiset{row})
  }

  /** A commit or revert answers an earlier mark of the same kind on that row; rows are
      inserted only where nothing is marked. */
  predicate Answers(v: Versions, t: Track, e: Event) {
    match e
    case MarkRow(kind, row, _) =>
      kind.InsertMark? ==>
        row !in v.markers && (DeleteMark, row) !in t.open && (UpdateMark, row) !in t.open &&
          (InsertMark, row) !in t.open
    case CommitRow(kind, row, time) => (kind, row) in t.open && time >= 0
    case RevertRow(kind, row) => (kind, row) in t.open
  }

  ghost predicate MarkOk(v: Versions, t: Track, row: nat)
    requires row in v.markers
  {
    var m := v.markers[row];
    && (m.time == NO_TIME ==> (m.kind, row) in t.open)
    && (!m.kind.InsertMark? ==> t.counted[row] >= 1)
    && (m.kind.InsertMark? ==>
      m.time <= v.maxInsert && t.open[(DeleteMark, row)] == 0 && t.open[(UpdateMark, row)] == 0)
  }

  ghost predicate Inv(v: Versions, t: Track) {
    && v.uncommitted >= |t.open| && v.deleteUpdate == |t.counted| && v.maxInsert >= 0
    && (forall row: nat :: row in v.markers ==> MarkOk(v, t, row))
    && (forall row: nat :: t.open[(DeleteMark, row)] + t.open[(UpdateMark, row)] <= t.counted[row])
  }

  lemma MarkInv(v: Versions, t: Track, e: Event)
    requires e.MarkRow? && Inv(v, t) && Answers(v, t, e)
    ensures Inv(Apply(v, e), Follow(v, t, e))
  {
    var v', t' := Apply(v, e), Follow(v, t, e);
    forall row: nat | row in v'.markers ensures MarkOk(v', t', row) {
      if row != e.row { assert MarkOk(v, t, row); }
    }
  }

  lemma CommitInv(v: Versions, t: Track, e: Event)
    requires e.CommitRow? && Inv(v, t) && Answers(v, t, e)
    ensures Inv(Apply(v, e), Follow(v, t, e))
  {
    var v', t' := Apply(v, e), Follow(v, t, e);
    forall row: nat | row in v'.markers ensures MarkOk(v', t', row) { assert MarkOk(v, t, row); }
  }

  lemma RevertCounts(v: Versions, t: Track, e: Event)
    requires e.RevertRow? && Inv(v, t) && Answers(v, t, e)
    ensures
      var v', t' := Apply(v, e), Follow(v, t, e);
      v'.uncommitted >= |t'.open| && v'.deleteUpdate == |t'.counted|
  {
    assert |t.open - multiset{(e.kind, e.row)}| == |t.open| - 1;
    if !e.kind.InsertMark? {
      assert t.open[(DeleteMark, e.row)] + t.open[(UpdateMark, e.row)] <= t.counted[e.row];
      assert e.row in t.counted;
      assert |t.counted - multiset{e.row}| == |t.counted| - 1;
    }
  }

  lemma RevertInv(v: Versions, t: Track, e: Event)
    requires e.RevertRow? && Inv(v, t) && Answers(v, t, e)
    ensures Inv(Apply(v, e), Follow(v, t, e))
  {
    var v', t' := Apply(v, e), Follow(v, t, e);
    RevertCounts(v, t, e);
    forall row: nat | row in v'.markers ensures MarkOk(v', t', row) { RevertMark(v, t, e, row); }
    forall row: nat
      ensures t'.open[(DeleteMark, row)] + t'.open[(UpdateMark, row)] <= t'.counted[row]
    {
      RevertOpen(v, t, e, row);
    }
  }

  lemma RevertMark(v: Versions, t: Track, e: Event, row: nat)
    requires e.RevertRow? && Answers(v, t, e) && row in Apply(v, e).markers && row in v.markers && MarkOk(v, t, row)
    ensures MarkOk(Apply(v, e), Follow(v, t, e), row)
  {
    assert row != e.row;
  }

  lemma RevertOpen(v: Versions, t: Track, e: Event, row: nat)
    requires e.RevertRow? && Answers(v, t, e) && t.open[(DeleteMark, row)] + t.open[(UpdateMark, row)] <= t.counted[row]
    ensures
      var t' := Follow(v, t, e);
      t'.open[(DeleteMark, row)] + t'.open[(UpdateMark, row)] <= t'.counted[row]
  {
  }

  lemma ApplyInv(v: Versions, t: Track, e: Event)
    requires Inv(v, t) && Answers(v, t, e)
    ensures Inv(Apply(v, e), Follow(v, t, e))
  {
    match e
    case MarkRow(_, _, _) => MarkInv(v, t, e);
    case CommitRow(_, _, _) => CommitInv(v, t, e);
    case RevertRow(_, _) => RevertInv(v, t, e);
  }

  /** When the counters allow the fast path, every row is visible to every transaction with
      that start time. */
  lemma FastPathSeesAll(v: Versions, t: Track, tx: Tx, row: nat)
    requires Inv(v, t) && AllInsertedVisibleTo(v, tx.start)
    ensures IsVisible(v.markers, row, tx)
  {
    assert |t.open| == 0 && t.open == multiset{};
    assert |t.counted| == 0 && t.counted == multiset{};
    if row in v.markers { assert MarkOk(v, t, row); }
  }

  // ----- Whole histories -----

  function Run(events: seq<Event>): Versions {
    if events == [] then NO_VERSIONS else Apply(Run(events[..|events| - 1]), events[|events| - 1])
  }

  function Tracked(events: seq<Event>): Track {
    if events == [] then NO_TRACK
    else
      var n := |events| - 1;
      Follow(Run(events[..n]), Tracked(events[..n]), events[n])
  }

  predicate Disciplined(events: seq<Event>) {
    events == [] ||
    (Disciplined(events[..|events| - 1]) &&
     Answers(Run(events[..|events| - 1]), Tracked(events[..|events| - 1]), events[|events| - 1]))
  }

  lemma {:induction false} RunInv(events: seq<Event>)
    requires Disciplined(events)
    ensures Inv(Run(events), Tracked(events))
  {
    if events != [] {
      var n := |events| - 1;
      RunInv(events[..n]);
      ApplyInv(Run(events[..n]), Tracked(events[..n]), events[n]);
    }
  }

  /** After every disciplined history the fast path is taken only when every row is visible. */
  lemma FastPathIsSound(events: seq<Event>, tx: Tx, row: nat)
    requires Disciplined(events) && AllInsertedVisibleTo(Run(events), tx.start)
    ensures IsVisible(Run(events).markers, row, tx)
  {
    RunInv(events);
    FastPathSeesAll(Run(events), Tracked(events), tx, row);
  }

  // ----- What a history says about a row -----

  /** No event of the list is about the row. */
  predicate Silent(events: seq<Event>, row: nat) { forall e <- events :: e.row != row }

  lemma {:induction false} SilentKeeps(before: seq<Event>, after: seq<Event>, row: nat)
    requires Silent(after, row)
    ensures
      var m, m' := Run(before).markers, Run(before + after).markers;
      (row in m' <==> row in m) && (row in m ==> m'[row] == m[row])
  {
    if after == [] {
      assert before + after == before;
    } else {
      var n := |after| - 1;
      assert (before + after)[..|before + after| - 1] == before + after[..n];
      assert after[n] in after;
      SilentKeeps(before, after[..n], row);
    }
  }

  lemma RunOne(before: seq<Event>, e: Event)
    ensures Run(before + [e]) == Apply(Run(before), e)
  {
    assert (before + [e])[..|before|] == before;
  }

  /** A row that nothing happened to is visible to everyone. */
  lemma UntouchedVisible(events: seq<Event>, row: nat, tx: Tx)
    requires Silent(events, row)
    ensures IsVisible(Run(events).markers, row, tx)
  {
    SilentKeeps([], events, row);
    assert [] + events == events;
  }

  /** After the mark of transaction t and nothing else about the row, an inserted or updated
      row is visible to t alone, and a deleted row to everyone but t. */
  lemma MarkedVisible(before: seq<Event>, kind: MarkKind, row: nat, t: nat, after: seq<Event>, tx: Tx)
    requires Silent(after, row)
    ensures
      var visible := IsVisible(Run(before + [MarkRow(kind, row, t)] + after).markers, row, tx);
      visible <==> if kind.DeleteMark? then tx.id != t else tx.id == t
  {
    RunOne(before, MarkRow(kind, row, t));
    SilentKeeps(before + [MarkRow(kind, row, t)], after, row);
  }

  /** Once that mark is committed at time c, an inserted or updated row is visible to t and to
      those who started after c; a deleted row to those, but t, who started at c or before. */
  lemma CommittedVisible(before: seq<Event>, kind: MarkKind, row: nat, t: nat, between: seq<Event>, c: int,
      after: seq<Event>, tx: Tx)
    requires Silent(between, row) && Silent(after, row) && c >= 0
    ensures
      var events := before + [MarkRow(kind, row, t)] + between + [CommitRow(kind, row, c)] + after;
      var visible := IsVisible(Run(events).markers, row, tx);
      visible <==> if kind.DeleteMark? then tx.id != t && tx.start <= c else tx.id == t || tx.start > c
  {
    var marked := before + [MarkRow(kind, row, t)];
    RunOne(before, MarkRow(kind, row, t));
    SilentKeeps(marked, between, row);
    RunOne(marked + between, CommitRow(kind, row, c));
    SilentKeeps(marked + between + [CommitRow(kind, row, c)], after, row);
  }

  /** Once a mark is taken back, and nothing else happened to the row, everyone sees it. */
  lemma RevertedVisible(before: seq<Event>, kind: MarkKind, row: nat, after: seq<Event>, tx: Tx)
    requires Silent(after, row)
    ensures IsVisible(Run(before + [RevertRow(kind, row)] + after).markers, row, tx)
  {
    RunOne(before, RevertRow(kind, row));
    SilentKeeps(before + [RevertRow(kind, row)], after, row);
  }

  /** An update hides the row from everyone else who saw it, at once and, for those who
      already run, for good: updates are in place and keep no older version. */
  lemma UpdateHidesFromOthers(before: seq<Event>, row: nat, t: nat, c: int, tx: Tx)
    requires tx.id != t && IsVisible(Run(before).markers, row, tx) && 0 <= c && tx.start <= c
    ensures !IsVisible(Run(before + [MarkRow(UpdateMark, row, t)]).markers, row, tx)
    ensures !IsVisible(Run(before + [MarkRow(UpdateMark, row, t), CommitRow(UpdateMark, row, c)]).markers, row, tx)
  {
    var mark, commit := MarkRow(UpdateMark, row, t), CommitRow(UpdateMark, row, c);
    MarkedVisible(before, UpdateMark, row, t, [], tx);
    assert before + [mark] + [] == before + [mark];
    CommittedVisible(before, UpdateMark, row, t, [], c, [], tx);
    assert before + [mark] + [] + [commit] + [] == before + [mark, commit];
  }

  // ----- The mutable store -----

  class VersionInfo {
    var markers: Markers
    var uncommittedCount: int
    var deleteUpdateCount: int
    var maxInsertCommitTime: int

    constructor ()
      ensures Abs() == NO_VERSIONS
    {
      markers, uncommittedCount, deleteUpdateCount, maxInsertCommitTime := map[], 0, 0, 0;
    }

    ghost function Abs(): Versions
      reads this
    {
      Versions(markers, uncommittedCount, deleteUpdateCount, maxInsertCommitTime)
    }

    method MarkDeleted(row: nat, tx: nat)
      modifies this
      ensures Abs() == Apply(old(Abs()), MarkRow(DeleteMark, row, tx))
    {
      markers := markers[row := Marker(DeleteMark, tx, NO_TIME)];
      uncommittedCount := uncommittedCount + 1;
      deleteUpdateCount := deleteUpdateCount + 1;
    }

    method CommitDelete(row: nat, time: int)
      modifies this
      ensures Abs() == Apply(old(Abs()), CommitRow(DeleteMark, row, time))
    {
      if row in markers {
        markers := markers[row := markers[row].(time := time)];
        uncommittedCount := uncommittedCount - 1;
      }
    }

    method ClearDeleteMarker(row: nat)
      modifies this
      ensures Abs() == Apply(old(Abs()), RevertRow(DeleteMark, row))
    {
      if row in markers {
        markers := markers - {row};
        deleteUpdateCount := deleteUpdateCount - 1;
      }
    }

    method MarkInserted(row: nat, tx: nat)
      modifies this
      ensures Abs() == Apply(old(Abs()), MarkRow(InsertMark, row, tx))
    {
      markers := markers[row := Marker(InsertMark, tx, NO_TIME)];
      uncommittedCount := uncommittedCount + 1;
    }

    method CommitInsert(row: nat, time: int)
      modifies this
      ensures Abs() == Apply(old(Abs()), CommitRow(InsertMark, row, time))
    {
      if row in markers {
        markers := markers[row := markers[row].(time := time)];
        uncommittedCount := uncommittedCount - 1;
        if time > maxInsertCommitTime { maxInsertCommitTime := time; }
      }
    }

    method RevertInsert(row: nat)
      modifies this
      ensures Abs() == Apply(old(Abs()), RevertRow(InsertMark, row))
    {
      if row in markers {
        markers := markers - {row};
        uncommittedCount := uncommittedCount - 1;
      }
    }

    method MarkUpdated(row: nat, tx: nat)
      modifies this
      ensures Abs() == Apply(old(Abs()), MarkRow(UpdateMark, row, tx))
    {
      markers := markers[row := Marker(UpdateMark, tx, NO_TIME)];
      uncommittedCount := uncommittedCount + 1;
      deleteUpdateCount := deleteUpdateCount + 1;
    }

    method CommitUpdate(row: nat, time: int)
      modifies this
      ensures Abs() == Apply(old(Abs()), CommitRow(UpdateMark, row, time))
    {
      if row in markers {
        markers := markers[row := markers[row].(time := time)];
        uncommittedCount := uncommittedCount - 1;
      }
    }

    method RevertUpdate(row: nat)
      modifies this
      ensures Abs() == Apply(old(Abs()), RevertRow(UpdateMark, row))
    {
      if row in markers {
        markers := markers - {row};
        uncommittedCount := uncommittedCount - 1;
        deleteUpdateCount := deleteUpdateCount - 1;
      }
    }

    /** The rows of one batch a scan keeps: the fast path, or the per-row test.  Either way
        exactly the visible ones, in order. */
    method SelectVisible(from: nat, count: nat, tx: Tx, ghost t: Track) returns (sel: seq<nat>)
      requires Inv(Abs(), t)
      ensures sel == VisibleRows(markers, from, count, tx)
      ensures Selects(sel, markers, from, count, tx)
    {
      if markers != map[] && !(uncommittedCount == 0 && deleteUpdateCount == 0 && maxInsertCommitTime < tx.start) {
        sel := [];
        for i := 0 to count
          invariant sel == VisibleRows(markers, from, i, tx)
        {
          if IsVisible(markers, from + i, tx) { sel := sel + [i]; }
        }
      } else {
        sel := seq(count, i => i);
        forall row: nat ensures IsVisible(markers, row, tx) {
          if markers != map[] { FastPathSeesAll(Abs(), t, tx, row); }
        }
        AllRows(markers, from, count, tx);
      }
      VisibleRowsMeaning(markers, from, count, tx);
    }
  }

  /** Positions below n, counted from `from`, of the visible rows. */
  function VisibleRows(markers: Markers, from: nat, n: nat, tx: Tx): seq<nat> {
    if n == 0 then []
    else VisibleRows(markers, from, n - 1, tx) + if IsVisible(markers, from + n - 1, tx) then [n - 1] else []
  }

  /** Ascending positions below n, exactly those of the visible rows. */
  predicate Selects(sel: seq<nat>, markers: Markers, from: nat, n: nat, tx: Tx) {
    && (forall i, j :: 0 <= i < j < |sel| ==> sel[i] < sel[j])
    && (forall i :: 0 <= i < |sel| ==> sel[i] < n)
    && (forall i: nat :: i < n ==> (i in sel <==> IsVisible(markers, from + i, tx)))
  }

  lemma {:induction false} VisibleRowsMeaning(markers: Markers, from: nat, n: nat, tx: Tx)
    ensures Selects(VisibleRows(markers, from, n, tx), markers, from, n, tx)
  {
    if n > 0 {
      VisibleRowsMeaning(markers, from, n - 1, tx);
      SelectsMore(VisibleRows(markers, from, n - 1, tx), markers, from, n - 1, tx);
    }
  }

  lemma SelectsMore(sel: seq<nat>, markers: Markers, from: nat, n: nat, tx: Tx)
    requires Selects(sel, markers, from, n, tx)
    ensures Selects(sel + if IsVisible(markers, from + n, tx) then [n] else [], markers, from, n + 1, tx)
  {
    var all := sel + if IsVisible(markers, from + n, tx) then [n] else [];
    forall i: nat | i < n + 1 ensures i in all <==> IsVisible(markers, from + i, tx) {
      if i < n { assert i in all <==> i in sel; } else { assert n !in sel; }
    }
  }

  lemma {:induction false} AllRows(markers: Markers, from: nat, n: nat, tx: Tx)
    requires forall row: nat :: IsVisible(markers, row, tx)
    ensures VisibleRows(markers, from, n, tx) == seq(n, i => i)
  {
    if n > 0 {
      AllRows(markers, from, n - 1, tx);
    }
  }
}
