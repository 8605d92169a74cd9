/** Multi-version catalog: version chains, visibility, and snapshot isolation.

    A name maps to a chain of entries, each stamped with who created and who dropped it
    and when that committed.  The class `Schema` is the catalog's mutable version store;
    the machine below it adds the transaction manager (start and commit counters, the undo
    list, commit as one step).  The machine is proved to refine a store in which every
    transaction owns a private copy of the committed names. */
module CatalogVersions {
  import opened Basics

  /** `payload` stands for the table definition the entry carries. */
  datatype Entry = Entry(payload: nat, createTx: nat, createTime: int, deleteTx: nat, deleteTime: int)

  type Chain = seq<Entry>

  type Entries = map<string, Chain>

  function ChainOf(entries: Entries, name: string): Chain {
    if name in entries then entries[name] else []
  }

  // ----- Visibility and the chain operations -----

  predicate Visible(e: Entry, tx: Tx) {
    if e.createTx != tx.id && (e.createTime == NO_TIME || e.createTime >= tx.start) then false
    else if e.deleteTx == tx.id then false
    else if e.deleteTime == NO_TIME then true
    else e.deleteTime >= tx.start
  }

  /** Position of the newest visible entry, or -1. */
  function LastVisible(chain: Chain, tx: Tx): (k: int)
    ensures -1 <= k < |chain|
    ensures k >= 0 ==> Visible(chain[k], tx)
    ensures forall i :: k < i < |chain| ==> !Visible(chain[i], tx)
  {
    if chain == [] then -1
    else if Visible(chain[|chain| - 1], tx) then |chain| - 1
    else LastVisible(chain[..|chain| - 1], tx)
  }

  function Lookup(chain: Chain, tx: Tx): Option<Entry> {
    var k := LastVisible(chain, tx);
    if k < 0 then None else Some(chain[k])
  }

  function Mark(e: Entry, id: nat): Entry { e.(deleteTx := id, deleteTime := NO_TIME) }

  function MarkChain(chain: Chain, tx: Tx): Chain {
    var k := LastVisible(chain, tx);
    if k < 0 then chain else chain[k := Mark(chain[k], tx.id)]
  }

  function CommitOne(e: Entry, id: nat, time: int): Entry {
    var e1 := if e.createTx == id && e.createTime == NO_TIME then e.(createTime := time) else e;
    if id != NO_TX && e1.deleteTx == id && e1.deleteTime == NO_TIME then e1.(deleteTime := time) else e1
  }

  function CommitChain(chain: Chain, id: nat, time: int): (r: Chain)
    ensures |r| == |chain| && forall i :: 0 <= i < |r| ==> r[i] == CommitOne(chain[i], id, time)
  {
    seq(|chain|, i requires 0 <= i < |chain| => CommitOne(chain[i], id, time))
  }

  predicate PendingCreate(e: Entry, id: nat) { e.createTx == id && e.createTime == NO_TIME }

  function DropCreates(chain: Chain, id: nat): Chain {
    if chain == [] then []
    else
      var n := |chain| - 1;
      DropCreates(chain[..n], id) + if PendingCreate(chain[n], id) then [] else [chain[n]]
  }

  function ClearOne(e: Entry, id: nat): Entry {
    if e.deleteTx == id && e.deleteTime == NO_TIME then e.(deleteTx := NO_TX) else e
  }

  function ClearDeletes(chain: Chain, id: nat): (r: Chain)
    ensures |r| == |chain| && forall i :: 0 <= i < |r| ==> r[i] == ClearOne(chain[i], id)
  {
    seq(|chain|, i requires 0 <= i < |chain| => ClearOne(chain[i], id))
  }

  /** Replace the chain of an existing name; an unknown name is left alone. */
  function Update(entries: Entries, name: string, chain: Chain): Entries {
    if name in entries then entries[name := chain] else entries
  }

  // ----- The mutable version store -----

  class Schema {
    var entries: Entries

    constructor ()
      ensures entries == map[]
    {
      entries := map[];
    }

    /** Newest-first search for a visible entry. */
    method GetEntry(name: string, tx: Tx) returns (r: Option<Entry>)
      ensures r == Lookup(ChainOf(entries, name), tx)
    {
      if name !in entries { return None; }
      var chain := entries[name];
      var i := |chain|;
      while i > 0
        invariant 0 <= i <= |chain|
        invariant LastVisible(chain, tx) == LastVisible(chain[..i], tx)
      {
        assert chain[..i][..i - 1] == chain[..i - 1];
        if Visible(chain[i - 1], tx) { return Some(chain[i - 1]); }
        i := i - 1;
      }
      return None;
    }

    method CreateEntry(name: string, e: Entry)
      modifies this
      ensures entries == old(entries)[name := ChainOf(old(entries), name) + [e]]
    {
      var chain := if name in entries then entries[name] else [];
      entries := entries[name := chain + [e]];
    }

    method MarkDeleted(name: string, tx: Tx)
      modifies this
      ensures entries == Update(old(entries), name, MarkChain(ChainOf(old(entries), name), tx))
    {
      if name !in entries { return; }
      var chain := entries[name];
      var i := |chain|;
      while i > 0
        invariant 0 <= i <= |chain|
        invariant LastVisible(chain, tx) == LastVisible(chain[..i], tx)
      {
        assert chain[..i][..i - 1] == chain[..i - 1];
        if Visible(chain[i - 1], tx) {
          entries := entries[name := chain[i - 1 := Mark(chain[i - 1], tx.id)]];
          return;
        }
        i := i - 1;
      }
      assert entries[name := chain] == entries;
    }

    method CommitEntry(name: string, id: nat, time: int)
      modifies this
      ensures entries == Update(old(entries), name, CommitChain(ChainOf(old(entries), name), id, time))
    {
      if name !in entries { return; }
      var chain := entries[name];
      var out := chain;
      for i := 0 to |chain|
        invariant |out| == |chain|
        invariant forall k :: 0 <= k < i ==> out[k] == CommitOne(chain[k], id, time)
        invariant forall k :: i <= k < |chain| ==> out[k] == chain[k]
      {
        var e := out[i];
        if e.createTx == id && e.createTime == NO_TIME { e := e.(createTime := time); }
        if id != NO_TX && e.deleteTx == id && e.deleteTime == NO_TIME { e := e.(deleteTime := time); }
        out := out[i := e];
      }
      assert out == CommitChain(chain, id, time);
      entries := entries[name := out];
    }

    method RollbackCreate(name: string, id: nat)
      modifies this
      ensures entries == Update(old(entries), name, DropCreates(ChainOf(old(entries), name), id))
    {
      if name !in entries { return; }
      var chain := entries[name];
      var kept: Chain := [];
      for i := 0 to |chain|
        invariant kept == DropCreates(chain[..i], id)
      {
        assert chain[..i + 1][..i] == chain[..i];
        if !(chain[i].createTx == id && chain[i].createTime == NO_TIME) { kept := kept + [chain[i]]; }
      }
      assert chain[..|chain|] == chain;
      entries := entries[name := kept];
    }

    method RollbackDrop(name: string, id: nat)
      modifies this
      ensures entries == Update(old(entries), name, ClearDeletes(ChainOf(old(entries), name), id))
    {
      if name !in entries { return; }
      var chain := entries[name];
      var out := chain;
      for i := 0 to |chain|
        invariant |out| == |chain|
        invariant forall k :: 0 <= k < i ==> out[k] == ClearOne(chain[k], id)
        invariant forall k :: i <= k < |chain| ==> out[k] == chain[k]
      {
        if out[i].deleteTx == id && out[i].deleteTime == NO_TIME {
          out := out[i := out[i].(deleteTx := NO_TX, deleteTime := NO_TIME)];
        }
      }
      assert out == ClearDeletes(chain, id);
      entries := entries[name := out];
    }
  }

  // ----- The machine -----

  datatype Undo = Undo(name: string, wasCreate: bool)

  datatype Running = Running(start: int, undo: seq<Undo>)

  datatype State = State(entries: Entries, active: map<nat, Running>, counter: nat, nextTx: nat)

  datatype Op =
    | Begin
    | Create(id: nat, name: string, payload: nat)
    | Drop(id: nat, name: string)
    | Commit(id: nat)
    | Rollback(id: nat)

  function TxOf(s: State, id: nat): Tx
    requires id in s.active
  {
    Tx(id, s.active[id].start)
  }

  /** The transaction that would begin now. */
  function Fresh(s: State): Tx { Tx(s.nextTx, s.counter + 1) }

  function Log(r: Running, u: Undo): Running { r.(undo := r.undo + [u]) }

  /** Undo entries in order, each committing its name. */
  function CommitUndo(entries: Entries, undo: seq<Undo>, id: nat, time: int): Entries {
    if undo == [] then entries
    else
      var n := |undo| - 1;
      var before := CommitUndo(entries, undo[..n], id, time);
      Update(before, undo[n].name, CommitChain(ChainOf(before, undo[n].name), id, time))
  }

  /** Undo entries newest first. */
  function RollbackUndo(entries: Entries, undo: seq<Undo>, id: nat): Entries {
    if undo == [] then entries
    else
      var n := |undo| - 1;
      var name := undo[n].name;
      var chain := ChainOf(entries, name);
      var undone := Update(entries, name,
        if undo[n].wasCreate then DropCreates(chain, id) else ClearDeletes(chain, id));
      RollbackUndo(undone, undo[..n], id)
  }

  /** One step; a statement that the catalog rejects changes nothing. */
  function Step(s: State, op: Op): State {
    match op
    case Begin =>
      s.(active := s.active[s.nextTx := Running(s.counter + 1, [])], nextTx := s.nextTx + 1)
    case Create(id, name, payload) =>
      if id !in s.active || Lookup(ChainOf(s.entries, name), TxOf(s, id)).Some? then s
      else
        var e := Entry(payload, id, NO_TIME, NO_TX, NO_TIME);
        s.(entries := s.entries[name := ChainOf(s.entries, name) + [e]],
           active := s.active[id := Log(s.active[id], Undo(name, true))])
    case Drop(id, name) =>
      if id !in s.active || Lookup(ChainOf(s.entries, name), TxOf(s, id)).None? then s
      else
        s.(entries := Update(s.entries, name, MarkChain(ChainOf(s.entries, name), TxOf(s, id))),
           active := s.active[id := Log(s.active[id], Undo(name, false))])
    case Commit(id) =>
      if id !in s.active then s
      else
        s.(entries := CommitUndo(s.entries, s.active[id].undo, id, s.counter + 1),
           active := s.active - {id}, counter := s.counter + 1)
    case Rollback(id) =>
      if id !in s.active then s
      else
        s.(entries := RollbackUndo(s.entries, s.active[id].undo, id), active := s.active - {id})
  }

  /** The transaction manager over one schema: each method is the machine's step. */
  class TransactionManager {
    const schema: Schema
    var active: map<nat, Running>
    var counter: nat
    var nextTx: nat

    constructor ()
      ensures fresh(schema) && Abs() == State(map[], map[], 0, 1)
    {
      schema := new Schema();
      active, counter, nextTx := map[], 0, 1;
    }

    ghost function Abs(): State
      reads this, schema
    {
      State(schema.entries, active, counter, nextTx)
    }

    method BeginTransaction() returns (id: nat)
      modifies this
      ensures id == old(nextTx) && Abs() == Step(old(Abs()), Begin)
    {
      id := nextTx;
      nextTx := nextTx + 1;
      active := active[id := Running(counter + 1, [])];
    }

    /** CREATE TABLE: rejected when the transaction already sees the name. */
    method CreateTable(id: nat, name: string, payload: nat) returns (ok: bool)
      requires id in active
      modifies this, schema
      ensures Abs() == Step(old(Abs()), Create(id, name, payload))
      ensures ok <==> old(Lookup(ChainOf(schema.entries, name), Tx(id, active[id].start))).None?
    {
      var found := schema.GetEntry(name, Tx(id, active[id].start));
      if found.Some? { return false; }
      schema.CreateEntry(name, Entry(payload, id, NO_TIME, NO_TX, NO_TIME));
      active := active[id := Log(active[id], Undo(name, true))];
      return true;
    }

    method DropTable(id: nat, name: string) returns (ok: bool)
      requires id in active
      modifies this, schema
      ensures Abs() == Step(old(Abs()), Drop(id, name))
      ensures ok <==> old(Lookup(ChainOf(schema.entries, name), Tx(id, active[id].start))).Some?
    {
      var found := schema.GetEntry(name, Tx(id, active[id].start));
      if found.None? { return false; }
      schema.MarkDeleted(name, Tx(id, active[id].start));
      active := active[id := Log(active[id], Undo(name, false))];
      return true;
    }

    method Commit(id: nat)
      requires id in active
      modifies this, schema
      ensures Abs() == Step(old(Abs()), Op.Commit(id))
    {
      counter := counter + 1;
      var undo := active[id].undo;
      ghost var before := schema.entries;
      for i := 0 to |undo|
        invariant schema.entries == CommitUndo(before, undo[..i], id, counter)
        invariant active == old(active) && counter == old(counter) + 1 && nextTx == old(nextTx)
      {
        assert undo[..i + 1][..i] == undo[..i];
        schema.CommitEntry(undo[i].name, id, counter);
      }
      assert undo[..|undo|] == undo;
      active := active - {id};
    }

    method Rollback(id: nat)
      requires id in active
      modifies this, schema
      ensures Abs() == Step(old(Abs()), Op.Rollback(id))
    {
      var undo := active[id].undo;
      ghost var before := schema.entries;
      var i := |undo|;
      assert undo[..i] == undo;
      while i > 0
        invariant 0 <= i <= |undo|
        invariant RollbackUndo(schema.entries, undo[..i], id) == RollbackUndo(before, undo, id)
        invariant active == old(active) && counter == old(counter) && nextTx == old(nextTx)
      {
        i := i - 1;
        assert undo[..i + 1][..i] == undo[..i];
        if undo[i].wasCreate {
          schema.RollbackCreate(undo[i].name, id);
        } else {
          schema.RollbackDrop(undo[i].name, id);
        }
      }
      active := active - {id};
    }
  }

  // ----- The specification: private snapshots -----

  type Names = map<string, nat>

  datatype Snapshots = Snapshots(committed: Names, views: map<nat, Names>, writes: map<nat, set<string>>, nextTx: nat)

  /** The committed names with those in `written` replaced by the writer's own view. */
  function Overlay(committed: Names, view: Names, written: set<string>): Names {
    map n | n in committed.Keys + view.Keys && (if n in written then n in view else n in committed)
      :: if n in written then view[n] else committed[n]
  }

  function SpecStep(a: Snapshots, op: Op): Snapshots {
    match op
    case Begin =>
      a.(views := a.views[a.nextTx := a.committed], writes := a.writes[a.nextTx := {}], nextTx := a.nextTx + 1)
    case Create(id, name, payload) =>
      if id !in a.views || id !in a.writes || name in a.views[id] then a
      else
        var view: Names := a.views[id][name := payload];
        a.(views := a.views[id := view], writes := a.writes[id := a.writes[id] + {name}])
    case Drop(id, name) =>
      if id !in a.views || id !in a.writes || name !in a.views[id] then a
      else
        a.(views := a.views[id := a.views[id] - {name}], writes := a.writes[id := a.writes[id] + {name}])
    case Commit(id) =>
      if id !in a.views || id !in a.writes then a
      else
        a.(committed := Overlay(a.committed, a.views[id], a.writes[id]),
           views := a.views - {id}, writes := a.writes - {id})
    case Rollback(id) =>
      if id !in a.views then a else a.(views := a.views - {id}, writes := a.writes - {id})
  }

  // ----- When a write is allowed -----

  /** Every version of the chain is decided for this transaction: created by it or committed
      before it began, and not marked dropped by anyone whose drop it cannot see. */
  predicate Settled(chain: Chain, tx: Tx) {
    forall e <- chain ::
      && (e.createTx == tx.id || (e.createTime != NO_TIME && e.createTime < tx.start))
      && (e.deleteTx == NO_TX || e.deleteTx == tx.id || (e.deleteTime != NO_TIME && e.deleteTime < tx.start))
  }

  /** A transaction writes a name only while its view of that name is current and nobody
      else has an open write on it. */
  predicate Allowed(s: State, op: Op) {
    match op
    case Create(id, name, _) => id in s.active ==> Settled(ChainOf(s.entries, name), TxOf(s, id))
    case Drop(id, name) => id in s.active ==> Settled(ChainOf(s.entries, name), TxOf(s, id))
    case _ => true
  }

  // ----- Invariant -----

  predicate Logged(undo: seq<Undo>, name: string, wasCreate: bool) { Undo(name, wasCreate) in undo }

  function Written(undo: seq<Undo>): set<string> { set u | u in undo :: u.name }

  ghost predicate EntryOk(s: State, name: string, e: Entry) {
    && e.createTx < s.nextTx && e.deleteTx < s.nextTx
    && (e.createTime == NO_TIME ==> e.createTx in s.active && Logged(s.active[e.createTx].undo, name, true))
    && (e.createTime != NO_TIME ==> 0 <= e.createTime <= s.counter && e.createTx !in s.active)
    && (e.deleteTx == NO_TX ==> e.deleteTime == NO_TIME)
    && (e.deleteTx != NO_TX && e.deleteTime == NO_TIME ==>
          e.deleteTx in s.active && Logged(s.active[e.deleteTx].undo, name, false))
    && (e.deleteTime != NO_TIME ==> 0 <= e.deleteTime <= s.counter && e.deleteTx !in s.active)
  }

  ghost predicate ChainOk(s: State, name: string) {
    var chain := ChainOf(s.entries, name);
    forall i :: 0 <= i < |chain| ==> EntryOk(s, name, chain[i])
  }

  predicate Touched(chain: Chain, id: nat) {
    exists i :: 0 <= i < |chain| && (chain[i].createTx == id || chain[i].deleteTx == id)
  }

  ghost predicate WriterOk(s: State, id: nat, name: string)
    requires id in s.active
  {
    Settled(ChainOf(s.entries, name), TxOf(s, id)) && Touched(ChainOf(s.entries, name), id)
  }

  /** What every run keeps, allowed or not. */
  ghost predicate Sane(s: State) {
    && NO_TX !in s.active && 1 <= s.nextTx
    && (forall id <- s.active :: id < s.nextTx && s.active[id].start <= s.counter + 1)
    && (forall name: string :: ChainOk(s, name))
  }

  ghost predicate Inv(s: State) {
    && Sane(s)
    && (forall id, name: string :: id in s.active && name in Written(s.active[id].undo) ==> WriterOk(s, id, name))
  }

  // ----- What a transaction sees -----

  /** The visible payloads, oldest first. */
  function Seen(chain: Chain, tx: Tx): seq<nat> {
    if chain == [] then []
    else
      var n := |chain| - 1;
      Seen(chain[..n], tx) + if Visible(chain[n], tx) then [chain[n].payload] else []
  }

  predicate Shows(seen: seq<nat>, names: Names, name: string) {
    if name in names then seen == [names[name]] else seen == []
  }

  ghost predicate ViewOk(s: State, tx: Tx, names: Names) {
    forall name: string :: Shows(Seen(ChainOf(s.entries, name), tx), names, name)
  }

  ghost predicate Refines(s: State, a: Snapshots) {
    && a.views.Keys == s.active.Keys && a.writes.Keys == s.active.Keys && a.nextTx == s.nextTx
    && ViewOk(s, Fresh(s), a.committed)
    && (forall id <- s.active :: ViewOk(s, TxOf(s, id), a.views[id]))
    && (forall id <- s.active :: a.writes[id] == Written(s.active[id].undo))
  }

  lemma {:induction false} SeenAndLookup(chain: Chain, tx: Tx)
    ensures Lookup(chain, tx).Some? <==> Seen(chain, tx) != []
    ensures Lookup(chain, tx).Some? ==> Lookup(chain, tx).value.payload == Seen(chain, tx)[|Seen(chain, tx)| - 1]
  {
    if chain != [] && !Visible(chain[|chain| - 1], tx) {
      SeenAndLookup(chain[..|chain| - 1], tx);
    }
  }

  lemma {:induction false} SeenSame(a: Chain, t: Tx, b: Chain, u: Tx)
    requires |a| == |b|
    requires forall i :: 0 <= i < |a| ==> a[i].payload == b[i].payload && (Visible(a[i], t) <==> Visible(b[i], u))
    ensures Seen(a, t) == Seen(b, u)
  {
    if a != [] {
      SeenSame(a[..|a| - 1], t, b[..|b| - 1], u);
    }
  }

  lemma SeenAppend(chain: Chain, e: Entry, tx: Tx)
    ensures Seen(chain + [e], tx) == Seen(chain, tx) + if Visible(e, tx) then [e.payload] else []
  {
    assert (chain + [e])[..|chain|] == chain;
  }

  lemma {:induction false} SeenNone(chain: Chain, tx: Tx)
    requires forall e <- chain :: !Visible(e, tx)
    ensures Seen(chain, tx) == []
  {
    if chain != [] {
      SeenNone(chain[..|chain| - 1], tx);
    }
  }

  // ----- Effect of a whole undo list on one chain -----

  lemma CommitTwice(chain: Chain, id: nat, time: int)
    requires time != NO_TIME
    ensures CommitChain(CommitChain(chain, id, time), id, time) == CommitChain(chain, id, time)
  {
  }

  lemma {:induction false} CommitUndoChain(entries: Entries, undo: seq<Undo>, id: nat, time: int, name: string)
    requires time != NO_TIME
    ensures
      var chain := ChainOf(entries, name);
      ChainOf(CommitUndo(entries, undo, id, time), name) ==
        if name in Written(undo) then CommitChain(chain, id, time) else chain
  {
    if undo != [] {
      var n := |undo| - 1;
      CommitUndoChain(entries, undo[..n], id, time, name);
      CommitTwice(ChainOf(entries, name), id, time);
      assert undo == undo[..n] + [undo[n]];
      assert name in Written(undo) <==> name in Written(undo[..n]) || name == undo[n].name;
    }
  }

  /** The rolled-back chain: own creations gone, own drop marks cleared, as logged. */
  function Rolled(chain: Chain, undo: seq<Undo>, id: nat, name: string): Chain {
    var c := if Logged(undo, name, true) then DropCreates(chain, id) else chain;
    if Logged(undo, name, false) then ClearDeletes(c, id) else c
  }

  lemma {:induction false} ClearThenDrop(chain: Chain, id: nat)
    ensures DropCreates(ClearDeletes(chain, id), id) == ClearDeletes(DropCreates(chain, id), id)
  {
    if chain != [] {
      var n := |chain| - 1;
      ClearThenDrop(chain[..n], id);
      assert ClearDeletes(chain, id)[..n] == ClearDeletes(chain[..n], id);
      var last := if PendingCreate(chain[n], id) then [] else [chain[n]];
      assert ClearDeletes(DropCreates(chain[..n], id) + last, id)
          == ClearDeletes(DropCreates(chain[..n], id), id) + ClearDeletes(last, id);
    }
  }

  lemma {:induction false} DropTwice(chain: Chain, id: nat)
    ensures DropCreates(DropCreates(chain, id), id) == DropCreates(chain, id)
    ensures forall e <- DropCreates(chain, id) :: e in chain && !PendingCreate(e, id)
  {
    if chain != [] {
      var n := |chain| - 1;
      DropTwice(chain[..n], id);
      var d := DropCreates(chain[..n], id);
      if !PendingCreate(chain[n], id) {
        assert (d + [chain[n]])[..|d|] == d;
      } else {
        assert d + [] == d;
      }
    }
  }

  lemma ClearTwice(chain: Chain, id: nat)
    ensures ClearDeletes(ClearDeletes(chain, id), id) == ClearDeletes(chain, id)
  {
  }

  lemma RolledStep(chain: Chain, undo: seq<Undo>, id: nat, name: string, wasCreate: bool)
    ensures
      var undone := if wasCreate then DropCreates(chain, id) else ClearDeletes(chain, id);
      Rolled(undone, undo, id, name) == Rolled(chain, undo + [Undo(name, wasCreate)], id, name)
  {
    LoggedMore(undo, Undo(name, wasCreate), name);
    if wasCreate { DropTwice(chain, id); } else { RolledDrop(chain, undo, id, name); }
  }

  lemma LoggedMore(undo: seq<Undo>, u: Undo, name: string)
    ensures forall b: bool :: Logged(undo + [u], name, b) <==> Logged(undo, name, b) || u == Undo(name, b)
  {
  }

  lemma RolledDrop(chain: Chain, undo: seq<Undo>, id: nat, name: string)
    ensures Rolled(ClearDeletes(chain, id), undo, id, name) ==
      ClearDeletes(if Logged(undo, name, true) then DropCreates(chain, id) else chain, id)
  {
    ClearTwice(chain, id);
    ClearTwice(DropCreates(chain, id), id);
    ClearThenDrop(chain, id);
  }

  lemma {:induction false} RollbackUndoChain(entries: Entries, undo: seq<Undo>, id: nat, name: string)
    ensures ChainOf(RollbackUndo(entries, undo, id), name) == Rolled(ChainOf(entries, name), undo, id, name)
  {
    if undo != [] {
      var n := |undo| - 1;
      var u := undo[n];
      assert undo == undo[..n] + [u];
      var here := ChainOf(entries, u.name);
      var undone := Update(entries, u.name, if u.wasCreate then DropCreates(here, id) else ClearDeletes(here, id));
      RollbackUndoChain(undone, undo[..n], id, name);
      if name == u.name {
        RolledStep(here, undo[..n], id, name, u.wasCreate);
        if name !in entries { assert here == []; }
      } else {
        LoggedMore(undo[..n], u, name);
      }
    }
  }
}
