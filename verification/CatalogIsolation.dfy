/** Snapshot isolation of the catalog, over every run.

    Each step of the version-chain machine is matched by the step of the store with private
    snapshots; the corollaries are what a user of the catalog relies on, and the last part
    shows what happens when a write is not allowed. */
module CatalogIsolation {
  import opened Basics
  import opened CatalogVersions

  // ----- What every step keeps, allowed or not -----

  /** The state after transaction `id` replaces one chain and logs it. */
  function Write(s: State, id: nat, chain: Chain, u: Undo): State
    requires id in s.active
  {
    s.(entries := s.entries[u.name := chain], active := s.active[id := Log(s.active[id], u)])
  }

  lemma WriteKeepsEntry(s: State, id: nat, chain: Chain, u: Undo, name: string, e: Entry)
    requires id in s.active && EntryOk(s, name, e)
    ensures EntryOk(Write(s, id, chain, u), name, e)
  {
  }

  lemma BeginSane(s: State)
    requires Sane(s)
    ensures Sane(Step(s, Begin))
  {
    var s' := Step(s, Begin);
    forall name: string ensures ChainOk(s', name) {
      assert ChainOk(s, name);
    }
  }

  lemma WriteSane(s: State, id: nat, chain: Chain, u: Undo)
    requires Sane(s) && id in s.active
    requires forall i :: 0 <= i < |chain| ==> EntryOk(Write(s, id, chain, u), u.name, chain[i])
    ensures Sane(Write(s, id, chain, u))
  {
    var s' := Write(s, id, chain, u);
    forall n: string ensures ChainOk(s', n) {
      assert ChainOk(s, n);
      if n != u.name {
        var c := ChainOf(s.entries, n);
        forall i | 0 <= i < |c| ensures EntryOk(s', n, c[i]) { WriteKeepsEntry(s, id, chain, u, n, c[i]); }
      }
    }
  }

  lemma CreateSane(s: State, id: nat, name: string, payload: nat)
    requires Sane(s) && id in s.active
    ensures Sane(Write(s, id, ChainOf(s.entries, name) + [Entry(payload, id, NO_TIME, NO_TX, NO_TIME)],
      Undo(name, true)))
  {
    var chain, u := ChainOf(s.entries, name), Undo(name, true);
    var chain' := chain + [Entry(payload, id, NO_TIME, NO_TX, NO_TIME)];
    assert ChainOk(s, name);
    forall i | 0 <= i < |chain'| ensures EntryOk(Write(s, id, chain', u), name, chain'[i]) {
      if i < |chain| { WriteKeepsEntry(s, id, chain', u, name, chain[i]); }
    }
    WriteSane(s, id, chain', u);
  }

  lemma DropSane(s: State, id: nat, name: string)
    requires Sane(s) && id in s.active
    ensures Sane(Write(s, id, MarkChain(ChainOf(s.entries, name), TxOf(s, id)), Undo(name, false)))
  {
    var chain, u := ChainOf(s.entries, name), Undo(name, false);
    var chain' := MarkChain(chain, TxOf(s, id));
    assert ChainOk(s, name);
    forall i | 0 <= i < |chain'| ensures EntryOk(Write(s, id, chain', u), name, chain'[i]) {
      WriteKeepsEntry(s, id, chain', u, name, chain[i]);
    }
    WriteSane(s, id, chain', u);
  }

  lemma LoggedIsWritten(undo: seq<Undo>, name: string)
    ensures Logged(undo, name, true) || Logged(undo, name, false) <==> name in Written(undo)
  {
    if name in Written(undo) {
      var u :| u in undo && u.name == name;
      assert u == Undo(name, u.wasCreate);
    }
  }

  lemma CommittedEntryOk(s: State, id: nat, name: string, e: Entry)
    requires Sane(s) && id in s.active && EntryOk(s, name, e)
    ensures EntryOk(Step(s, Commit(id)), name,
      if name in Written(s.active[id].undo) then CommitOne(e, id, s.counter + 1) else e)
  {
    LoggedIsWritten(s.active[id].undo, name);
  }

  lemma CommitSane(s: State, id: nat)
    requires Sane(s) && id in s.active
    ensures Sane(Step(s, Commit(id)))
  {
    var s' := Step(s, Commit(id));
    forall n: string ensures ChainOk(s', n) {
      CommitUndoChain(s.entries, s.active[id].undo, id, s.counter + 1, n);
      var chain, chain' := ChainOf(s.entries, n), ChainOf(s'.entries, n);
      assert ChainOk(s, n);
      forall i | 0 <= i < |chain'| ensures EntryOk(s', n, chain'[i]) {
        CommittedEntryOk(s, id, n, chain[i]);
      }
    }
  }

  /** Every entry of a rolled-back chain comes from one that the transaction did not create. */
  lemma RolledOrigin(chain: Chain, undo: seq<Undo>, id: nat, name: string, i: nat) returns (k: nat)
    requires i < |Rolled(chain, undo, id, name)|
    ensures k < |chain| && (Logged(undo, name, true) ==> !PendingCreate(chain[k], id))
    ensures Rolled(chain, undo, id, name)[i] == if Logged(undo, name, false) then ClearOne(chain[k], id) else chain[k]
  {
    DropTwice(chain, id);
    var c := if Logged(undo, name, true) then DropCreates(chain, id) else chain;
    assert c[i] in chain;
    k :| 0 <= k < |chain| && chain[k] == c[i];
    if Logged(undo, name, true) { assert c[i] in DropCreates(chain, id); }
  }

  lemma RolledEntryOk(s: State, id: nat, name: string, e: Entry)
    requires id in s.active && EntryOk(s, name, e)
    requires Logged(s.active[id].undo, name, true) ==> !PendingCreate(e, id)
    ensures EntryOk(Step(s, Rollback(id)), name, if Logged(s.active[id].undo, name, false) then ClearOne(e, id) else e)
  {
  }

  lemma RolledEntries(s: State, id: nat, name: string)
    requires Sane(s) && id in s.active
    ensures forall e <- ChainOf(Step(s, Rollback(id)).entries, name) :: EntryOk(Step(s, Rollback(id)), name, e)
  {
    var s', undo := Step(s, Rollback(id)), s.active[id].undo;
    var chain := ChainOf(s.entries, name);
    RollbackUndoChain(s.entries, undo, id, name);
    assert ChainOk(s, name);
    forall e | e in ChainOf(s'.entries, name) ensures EntryOk(s', name, e) {
      var r := ChainOf(s'.entries, name);
      var i: nat :| i < |r| && r[i] == e;
      var k := RolledOrigin(chain, undo, id, name, i);
      RolledEntryOk(s, id, name, chain[k]);
    }
  }

  lemma RollbackSane(s: State, id: nat)
    requires Sane(s) && id in s.active
    ensures Sane(Step(s, Rollback(id)))
  {
    var s' := Step(s, Rollback(id));
    forall n: string ensures ChainOk(s', n) {
      RolledEntries(s, id, n);
    }
  }

  lemma StepSane(s: State, op: Op)
    requires Sane(s)
    ensures Sane(Step(s, op))
  {
    if op.Begin? {
      BeginSane(s);
    } else if op.id in s.active && Step(s, op) != s {
      match op
      case Create(id, name, payload) => CreateSane(s, id, name, payload);
      case Drop(id, name) => DropSane(s, id, name);
      case Commit(id) => CommitSane(s, id);
      case Rollback(id) => RollbackSane(s, id);
    }
  }

  // ----- One allowed step -----

  lemma BeginInv(s: State)
    requires Inv(s)
    ensures Inv(Step(s, Begin))
  {
    var s' := Step(s, Begin);
    BeginSane(s);
    forall id, name: string | id in s'.active && name in Written(s'.active[id].undo) ensures WriterOk(s', id, name) {
      assert WriterOk(s, id, name);
    }
  }

  lemma BeginFresh(s: State, names: Names)
    requires Inv(s) && ViewOk(s, Fresh(s), names)
    ensures ViewOk(Step(s, Begin), Fresh(Step(s, Begin)), names)
  {
    var s' := Step(s, Begin);
    forall name: string ensures Shows(Seen(ChainOf(s'.entries, name), Fresh(s')), names, name) {
      var chain := ChainOf(s.entries, name);
      assert Shows(Seen(chain, Fresh(s)), names, name);
      assert ChainOk(s, name);
      forall i | 0 <= i < |chain| ensures Visible(chain[i], Fresh(s')) <==> Visible(chain[i], Fresh(s)) {
        assert EntryOk(s, name, chain[i]);
      }
      SeenSame(chain, Fresh(s'), chain, Fresh(s));
    }
  }

  lemma SameEntriesSameView(s: State, s': State, tx: Tx, names: Names)
    requires s'.entries == s.entries && ViewOk(s, tx, names)
    ensures ViewOk(s', tx, names)
  {
    forall name: string ensures Shows(Seen(ChainOf(s'.entries, name), tx), names, name) {
      assert Shows(Seen(ChainOf(s.entries, name), tx), names, name);
    }
  }

  lemma BeginRefines(s: State, a: Snapshots)
    requires Inv(s) && Refines(s, a)
    ensures Inv(Step(s, Begin)) && Refines(Step(s, Begin), SpecStep(a, Begin))
  {
    BeginInv(s);
    BeginFresh(s, a.committed);
    var s', a' := Step(s, Begin), SpecStep(a, Begin);
    forall id | id in s'.active ensures ViewOk(s', TxOf(s', id), a'.views[id]) {
      SameEntriesSameView(s, s', TxOf(s', id), a'.views[id]);
    }
  }

  /** Two running transactions never both have an open write on a name. */
  lemma OneWriter(s: State, id: nat, other: nat, name: string)
    requires Inv(s) && id in s.active && other in s.active && other != id
    requires Settled(ChainOf(s.entries, name), TxOf(s, id))
    ensures name !in Written(s.active[other].undo)
  {
    assert ChainOk(s, name);
    if name in Written(s.active[other].undo) {
      assert false;
    }
  }

  lemma WrittenLog(undo: seq<Undo>, u: Undo)
    ensures Written(undo + [u]) == Written(undo) + {u.name}
  {
  }

  // ----- Writing one name -----

  lemma WriteInv(s: State, id: nat, chain: Chain, u: Undo)
    requires Inv(s) && id in s.active && Settled(ChainOf(s.entries, u.name), TxOf(s, id))
    requires Sane(Write(s, id, chain, u))
    requires Settled(chain, TxOf(s, id)) && Touched(chain, id)
    ensures Inv(Write(s, id, chain, u))
  {
    var s' := Write(s, id, chain, u);
    WrittenLog(s.active[id].undo, u);
    forall t, n: string | t in s'.active && n in Written(s'.active[t].undo) ensures WriterOk(s', t, n) {
      if n != u.name {
        assert WriterOk(s, t, n);
      } else if t != id {
        OneWriter(s, id, t, n);
      }
    }
  }

  function SpecWrite(a: Snapshots, id: nat, view: Names, name: string): Snapshots
    requires id in a.views && id in a.writes
  {
    a.(views := a.views[id := view], writes := a.writes[id := a.writes[id] + {name}])
  }

  /** Nobody but the writer sees the new chain; the writer sees its new view. */
  lemma WriteViews(s: State, a: Snapshots, id: nat, chain: Chain, u: Undo, view: Names)
    requires Inv(s) && Refines(s, a) && id in s.active
    requires forall tx: Tx :: tx.id != id && tx.id != NO_TX ==> Seen(chain, tx) == Seen(ChainOf(s.entries, u.name), tx)
    requires Shows(Seen(chain, TxOf(s, id)), view, u.name)
    requires forall n: string :: n != u.name ==>
      (n in view <==> n in a.views[id]) && (n in view ==> view[n] == a.views[id][n])
    ensures Refines(Write(s, id, chain, u), SpecWrite(a, id, view, u.name))
  {
    var s', a' := Write(s, id, chain, u), SpecWrite(a, id, view, u.name);
    WrittenLog(s.active[id].undo, u);
    assert Fresh(s') == Fresh(s);
    WriteUnseen(s, id, chain, u, Fresh(s), a.committed);
    WriterView(s, id, chain, u, a.views[id], view);
    forall t | t in s'.active ensures ViewOk(s', TxOf(s', t), a'.views[t]) {
      assert TxOf(s', t) == TxOf(s, t);
      if t != id {
        WriteUnseen(s, id, chain, u, TxOf(s, t), a.views[t]);
      }
    }
  }

  lemma WriterView(s: State, id: nat, chain: Chain, u: Undo, names: Names, view: Names)
    requires id in s.active && ViewOk(s, TxOf(s, id), names)
    requires Shows(Seen(chain, TxOf(s, id)), view, u.name)
    requires forall n: string :: n != u.name ==> (n in view <==> n in names) && (n in view ==> view[n] == names[n])
    ensures ViewOk(Write(s, id, chain, u), TxOf(s, id), view)
  {
    var s' := Write(s, id, chain, u);
    forall n: string ensures Shows(Seen(ChainOf(s'.entries, n), TxOf(s, id)), view, n) {
      assert Shows(Seen(ChainOf(s.entries, n), TxOf(s, id)), names, n);
    }
  }

  lemma WriteUnseen(s: State, id: nat, chain: Chain, u: Undo, tx: Tx, names: Names)
    requires id in s.active && ViewOk(s, tx, names)
    requires Seen(chain, tx) == Seen(ChainOf(s.entries, u.name), tx)
    ensures ViewOk(Write(s, id, chain, u), tx, names)
  {
    var s' := Write(s, id, chain, u);
    forall n: string ensures Shows(Seen(ChainOf(s'.entries, n), tx), names, n) {
      assert Shows(Seen(ChainOf(s.entries, n), tx), names, n);
    }
  }

  lemma CreateRefines(s: State, a: Snapshots, id: nat, name: string, payload: nat)
    requires Inv(s) && Refines(s, a) && Allowed(s, Create(id, name, payload))
    ensures
      var op := Create(id, name, payload);
      Inv(Step(s, op)) && Refines(Step(s, op), SpecStep(a, op))
  {
    if id !in s.active { return; }
    var me, chain, u := TxOf(s, id), ChainOf(s.entries, name), Undo(name, true);
    SeenAndLookup(chain, me);
    assert ViewOk(s, me, a.views[id]);
    assert Shows(Seen(chain, me), a.views[id], name);
    if Lookup(chain, me).Some? { return; }
    var e := Entry(payload, id, NO_TIME, NO_TX, NO_TIME);
    var chain', view: Names := chain + [e], a.views[id][name := payload];
    forall tx: Tx | tx.id != id ensures Seen(chain', tx) == Seen(chain, tx) { SeenAppend(chain, e, tx); }
    SeenAppend(chain, e, me);
    CreateInv(s, id, name, payload);
    WriteViews(s, a, id, chain', u, view);
  }

  lemma CreateInv(s: State, id: nat, name: string, payload: nat)
    requires Inv(s) && id in s.active && Settled(ChainOf(s.entries, name), TxOf(s, id))
    ensures Inv(Write(s, id, ChainOf(s.entries, name) + [Entry(payload, id, NO_TIME, NO_TX, NO_TIME)],
      Undo(name, true)))
  {
    var chain, u := ChainOf(s.entries, name), Undo(name, true);
    var chain' := chain + [Entry(payload, id, NO_TIME, NO_TX, NO_TIME)];
    CreateSane(s, id, name, payload);
    assert chain'[|chain|].createTx == id;
    WriteInv(s, id, chain', u);
  }

  lemma {:induction false} OnlyVisible(chain: Chain, tx: Tx, k: nat)
    requires k < |chain| && Visible(chain[k], tx) && |Seen(chain, tx)| == 1
    ensures Seen(chain, tx) == [chain[k].payload]
    ensures forall i :: 0 <= i < |chain| && i != k ==> !Visible(chain[i], tx)
  {
    var n := |chain| - 1;
    if k < n {
      SeenLower(chain[..n], tx, k);
      OnlyVisible(chain[..n], tx, k);
    } else {
      forall i | 0 <= i < n ensures !Visible(chain[i], tx) {
        if Visible(chain[i], tx) { SeenLower(chain[..n], tx, i); }
      }
    }
  }

  lemma {:induction false} SeenLower(chain: Chain, tx: Tx, k: nat)
    requires k < |chain| && Visible(chain[k], tx)
    ensures |Seen(chain, tx)| >= 1
  {
    if k < |chain| - 1 {
      SeenLower(chain[..|chain| - 1], tx, k);
    }
  }

  lemma DropRefines(s: State, a: Snapshots, id: nat, name: string)
    requires Inv(s) && Refines(s, a) && Allowed(s, Drop(id, name))
    ensures Inv(Step(s, Drop(id, name))) && Refines(Step(s, Drop(id, name)), SpecStep(a, Drop(id, name)))
  {
    if id !in s.active { return; }
    var me, chain, u := TxOf(s, id), ChainOf(s.entries, name), Undo(name, false);
    SeenAndLookup(chain, me);
    assert ViewOk(s, me, a.views[id]);
    assert Shows(Seen(chain, me), a.views[id], name);
    var k := LastVisible(chain, me);
    if k < 0 { return; }
    var chain', view: Names := MarkChain(chain, me), a.views[id] - {name};
    forall tx: Tx | tx.id != id && tx.id != NO_TX ensures Seen(chain', tx) == Seen(chain, tx) {
      DropUnseenByOthers(s, id, name, tx);
    }
    OnlyVisible(chain, me, k);
    SeenNone(chain', me);
    DropInv(s, id, name);
    WriteViews(s, a, id, chain', u, view);
  }

  lemma DropUnseenByOthers(s: State, id: nat, name: string, tx: Tx)
    requires Inv(s) && id in s.active && tx.id != id && tx.id != NO_TX
    requires Settled(ChainOf(s.entries, name), TxOf(s, id)) && LastVisible(ChainOf(s.entries, name), TxOf(s, id)) >= 0
    ensures
      var chain := ChainOf(s.entries, name);
      Seen(MarkChain(chain, TxOf(s, id)), tx) == Seen(chain, tx)
  {
    var chain, me := ChainOf(s.entries, name), TxOf(s, id);
    var k := LastVisible(chain, me);
    assert ChainOk(s, name) && EntryOk(s, name, chain[k]);
    assert chain[k] in chain && chain[k].deleteTx == NO_TX;
    SeenSame(MarkChain(chain, me), tx, chain, tx);
  }

  lemma DropInv(s: State, id: nat, name: string)
    requires Inv(s) && id in s.active && Settled(ChainOf(s.entries, name), TxOf(s, id))
    requires LastVisible(ChainOf(s.entries, name), TxOf(s, id)) >= 0
    ensures Inv(Write(s, id, MarkChain(ChainOf(s.entries, name), TxOf(s, id)), Undo(name, false)))
  {
    var me, chain, u := TxOf(s, id), ChainOf(s.entries, name), Undo(name, false);
    var chain' := MarkChain(chain, me);
    var k := LastVisible(chain, me);
    DropSane(s, id, name);
    assert chain'[k].deleteTx == id;
    forall e | e in chain' ensures e in chain || e == Mark(chain[k], id) {}
    WriteInv(s, id, chain', u);
  }

  lemma EntryCommittedForLater(s: State, id: nat, name: string, e: Entry)
    requires Inv(s) && id in s.active && EntryOk(s, name, e)
    requires Settled([e], TxOf(s, id))
    ensures Visible(CommitOne(e, id, s.counter + 1), Tx(s.nextTx, s.counter + 2)) <==> Visible(e, TxOf(s, id))
  {
    assert e in [e];
  }

  lemma EntryCommitUnseen(s: State, id: nat, name: string, e: Entry, t: nat)
    requires Inv(s) && id in s.active && EntryOk(s, name, e) && t in s.active && t != id
    ensures Visible(CommitOne(e, id, s.counter + 1), TxOf(s, t)) <==> Visible(e, TxOf(s, t))
  {
  }

  /** What the committing writer saw of a name is what the next transaction will see. */
  lemma CommitSeenByLater(s: State, id: nat, name: string)
    requires Inv(s) && id in s.active
    ensures
      var chain' := ChainOf(Step(s, Commit(id)).entries, name);
      Seen(chain', Tx(s.nextTx, s.counter + 2)) ==
        Seen(ChainOf(s.entries, name), if name in Written(s.active[id].undo) then TxOf(s, id) else Fresh(s))
  {
    var chain, later := ChainOf(s.entries, name), Tx(s.nextTx, s.counter + 2);
    CommitUndoChain(s.entries, s.active[id].undo, id, s.counter + 1, name);
    assert ChainOk(s, name);
    if name in Written(s.active[id].undo) {
      assert WriterOk(s, id, name);
      var chain' := CommitChain(chain, id, s.counter + 1);
      forall i | 0 <= i < |chain|
        ensures chain'[i].payload == chain[i].payload && (Visible(chain'[i], later) <==> Visible(chain[i], TxOf(s, id)))
      {
        assert chain[i] in chain;
        EntryCommittedForLater(s, id, name, chain[i]);
      }
      SeenSame(chain', later, chain, TxOf(s, id));
    } else {
      forall i | 0 <= i < |chain| ensures Visible(chain[i], later) <==> Visible(chain[i], Fresh(s)) {
        assert EntryOk(s, name, chain[i]);
      }
      SeenSame(chain, later, chain, Fresh(s));
    }
  }

  /** A commit is invisible to everyone already running. */
  lemma CommitUnseen(s: State, id: nat, t: nat, name: string)
    requires Inv(s) && id in s.active && t in s.active && t != id
    ensures Seen(ChainOf(Step(s, Commit(id)).entries, name), TxOf(s, t)) == Seen(ChainOf(s.entries, name), TxOf(s, t))
  {
    var chain := ChainOf(s.entries, name);
    CommitUndoChain(s.entries, s.active[id].undo, id, s.counter + 1, name);
    assert ChainOk(s, name);
    var chain' := CommitChain(chain, id, s.counter + 1);
    forall i | 0 <= i < |chain|
      ensures chain'[i].payload == chain[i].payload &&
        (Visible(chain'[i], TxOf(s, t)) <==> Visible(chain[i], TxOf(s, t)))
    {
      EntryCommitUnseen(s, id, name, chain[i], t);
    }
    SeenSame(chain', TxOf(s, t), chain, TxOf(s, t));
  }

  lemma CommitInv(s: State, id: nat)
    requires Inv(s) && id in s.active
    ensures Inv(Step(s, Commit(id)))
  {
    var s' := Step(s, Commit(id));
    CommitSane(s, id);
    forall t, n: string | t in s'.active && n in Written(s'.active[t].undo) ensures WriterOk(s', t, n) {
      assert WriterOk(s, t, n);
      OneWriter(s, t, id, n);
      CommitUndoChain(s.entries, s.active[id].undo, id, s.counter + 1, n);
    }
  }

  lemma CommitRefines(s: State, a: Snapshots, id: nat)
    requires Inv(s) && Refines(s, a)
    ensures Inv(Step(s, Commit(id))) && Refines(Step(s, Commit(id)), SpecStep(a, Commit(id)))
  {
    if id !in s.active { return; }
    CommitInv(s, id);
    var s', a' := Step(s, Commit(id)), SpecStep(a, Commit(id));
    forall n: string ensures Shows(Seen(ChainOf(s'.entries, n), Fresh(s')), a'.committed, n) {
      CommitSeenByLater(s, id, n);
      assert Shows(Seen(ChainOf(s.entries, n), Fresh(s)), a.committed, n);
      assert Shows(Seen(ChainOf(s.entries, n), TxOf(s, id)), a.views[id], n);
    }
    forall t, n: string | t in s'.active ensures Shows(Seen(ChainOf(s'.entries, n), TxOf(s', t)), a'.views[t], n) {
      CommitUnseen(s, id, t, n);
      assert Shows(Seen(ChainOf(s.entries, n), TxOf(s, t)), a.views[t], n);
    }
  }

  /** Rolling back leaves what every other observer sees of a chain. */
  lemma {:induction false} RolledSeen(chain: Chain, undo: seq<Undo>, id: nat, name: string, tx: Tx)
    requires id != tx.id && id != NO_TX && tx.id != NO_TX
    ensures Seen(Rolled(chain, undo, id, name), tx) == Seen(chain, tx)
  {
    DropSeen(chain, id, tx);
    var c := if Logged(undo, name, true) then DropCreates(chain, id) else chain;
    assert forall e: Entry ::
      ClearOne(e, id).payload == e.payload && (Visible(ClearOne(e, id), tx) <==> Visible(e, tx));
    SeenSame(ClearDeletes(c, id), tx, c, tx);
  }

  lemma {:induction false} DropSeen(chain: Chain, id: nat, tx: Tx)
    requires id != tx.id
    ensures Seen(DropCreates(chain, id), tx) == Seen(chain, tx)
  {
    if chain != [] {
      var n := |chain| - 1;
      DropSeen(chain[..n], id, tx);
      if PendingCreate(chain[n], id) {
        assert DropCreates(chain, id) == DropCreates(chain[..n], id);
      } else {
        SeenAppend(DropCreates(chain[..n], id), chain[n], tx);
      }
    }
  }

  lemma RollbackInv(s: State, id: nat)
    requires Inv(s) && id in s.active
    ensures Inv(Step(s, Rollback(id)))
  {
    var s', undo := Step(s, Rollback(id)), s.active[id].undo;
    RollbackSane(s, id);
    forall t, n: string | t in s'.active && n in Written(s'.active[t].undo) ensures WriterOk(s', t, n) {
      assert WriterOk(s, t, n);
      OneWriter(s, t, id, n);
      LoggedIsWritten(undo, n);
      RollbackUndoChain(s.entries, undo, id, n);
    }
  }

  lemma RollbackUnseen(s: State, id: nat, tx: Tx, names: Names)
    requires id in s.active && id != tx.id && id != NO_TX && tx.id != NO_TX && ViewOk(s, tx, names)
    ensures ViewOk(Step(s, Rollback(id)), tx, names)
  {
    var s', undo := Step(s, Rollback(id)), s.active[id].undo;
    forall n: string ensures Shows(Seen(ChainOf(s'.entries, n), tx), names, n) {
      assert Shows(Seen(ChainOf(s.entries, n), tx), names, n);
      RollbackUndoChain(s.entries, undo, id, n);
      RolledSeen(ChainOf(s.entries, n), undo, id, n, tx);
    }
  }

  lemma RollbackRefines(s: State, a: Snapshots, id: nat)
    requires Inv(s) && Refines(s, a)
    ensures Inv(Step(s, Rollback(id))) && Refines(Step(s, Rollback(id)), SpecStep(a, Rollback(id)))
  {
    if id !in s.active { return; }
    RollbackInv(s, id);
    var s', a' := Step(s, Rollback(id)), SpecStep(a, Rollback(id));
    RollbackUnseen(s, id, Fresh(s), a.committed);
    assert Fresh(s') == Fresh(s);
    forall t | t in s'.active ensures ViewOk(s', TxOf(s', t), a'.views[t]) {
      RollbackUnseen(s, id, TxOf(s, t), a.views[t]);
    }
  }

  /** Every allowed step keeps the invariant and matches the snapshot store. */
  lemma StepRefines(s: State, a: Snapshots, op: Op)
    requires Inv(s) && Refines(s, a) && Allowed(s, op)
    ensures Inv(Step(s, op)) && Refines(Step(s, op), SpecStep(a, op))
  {
    match op
    case Begin => BeginRefines(s, a);
    case Create(id, name, payload) => CreateRefines(s, a, id, name, payload);
    case Drop(id, name) => DropRefines(s, a, id, name);
    case Commit(id) => CommitRefines(s, a, id);
    case Rollback(id) => RollbackRefines(s, a, id);
  }

  // ----- Whole runs -----

  function Run(s: State, ops: seq<Op>): State {
    if ops == [] then s else Step(Run(s, ops[..|ops| - 1]), ops[|ops| - 1])
  }

  function SpecRun(a: Snapshots, ops: seq<Op>): Snapshots {
    if ops == [] then a else SpecStep(SpecRun(a, ops[..|ops| - 1]), ops[|ops| - 1])
  }

  /** Every write of the run is allowed in the state it meets. */
  predicate AllowedRun(s: State, ops: seq<Op>) {
    ops == [] ||
    (AllowedRun(s, ops[..|ops| - 1]) && Allowed(Run(s, ops[..|ops| - 1]), ops[|ops| - 1]))
  }

  const EMPTY_STATE := State(map[], map[], 0, 1)
  const EMPTY_SNAPSHOTS := Snapshots(map[], map[], map[], 1)

  /** Snapshot isolation: after every allowed run the version chains show each transaction
      exactly its private snapshot. */
  lemma {:induction false} SnapshotIsolation(ops: seq<Op>)
    requires AllowedRun(EMPTY_STATE, ops)
    ensures Inv(Run(EMPTY_STATE, ops))
    ensures Refines(Run(EMPTY_STATE, ops), SpecRun(EMPTY_SNAPSHOTS, ops))
  {
    if ops != [] {
      var n := |ops| - 1;
      SnapshotIsolation(ops[..n]);
      StepRefines(Run(EMPTY_STATE, ops[..n]), SpecRun(EMPTY_SNAPSHOTS, ops[..n]), ops[n]);
    }
  }

  // ----- What that means for a lookup -----

  predicate ByOther(op: Op, t: nat) { op.Begin? || op.id != t }

  function Shown(s: State, t: nat, name: string): Option<nat>
    requires t in s.active
  {
    var e := Lookup(ChainOf(s.entries, name), TxOf(s, t));
    if e.Some? then Some(e.value.payload) else None
  }

  lemma ShownIsView(s: State, a: Snapshots, t: nat, name: string)
    requires Refines(s, a) && t in s.active
    ensures Shown(s, t, name) == if name in a.views[t] then Some(a.views[t][name]) else None
  {
    assert Shows(Seen(ChainOf(s.entries, name), TxOf(s, t)), a.views[t], name);
    SeenAndLookup(ChainOf(s.entries, name), TxOf(s, t));
  }

  lemma {:induction false} ViewStable(a: Snapshots, ops: seq<Op>, t: nat)
    requires t in a.views && t in a.writes && t < a.nextTx && forall op <- ops :: ByOther(op, t)
    ensures
      var b := SpecRun(a, ops);
      t in b.views && t in b.writes && b.views[t] == a.views[t] && a.nextTx <= b.nextTx
  {
    if ops != [] {
      var n := |ops| - 1;
      assert ByOther(ops[n], t);
      ViewStable(a, ops[..n], t);
    }
  }

  lemma {:induction false} RunConcat(s: State, a: Snapshots, x: seq<Op>, y: seq<Op>)
    ensures Run(s, x + y) == Run(Run(s, x), y) && SpecRun(a, x + y) == SpecRun(SpecRun(a, x), y)
    ensures AllowedRun(s, x + y) ==> AllowedRun(s, x)
  {
    if y == [] {
      assert x + y == x;
    } else {
      var n := |y| - 1;
      RunConcat(s, a, x, y[..n]);
      assert (x + y)[..|x + y| - 1] == x + y[..n];
    }
  }

  /** Whatever the others do in between, a running transaction looks up the same entry for
      every name until it writes something itself. */
  lemma LookupChangesOnlyByOwnSteps(before: seq<Op>, ops: seq<Op>, t: nat, name: string)
    requires AllowedRun(EMPTY_STATE, before + ops) && t in Run(EMPTY_STATE, before).active
    requires forall op <- ops :: ByOther(op, t)
    ensures
      var s, s' := Run(EMPTY_STATE, before), Run(EMPTY_STATE, before + ops);
      t in s'.active && Shown(s', t, name) == Shown(s, t, name)
  {
    RunConcat(EMPTY_STATE, EMPTY_SNAPSHOTS, before, ops);
    SnapshotIsolation(before);
    SnapshotIsolation(before + ops);
    var a := SpecRun(EMPTY_SNAPSHOTS, before);
    ViewStable(a, ops, t);
    ShownIsView(Run(EMPTY_STATE, before), a, t, name);
    ShownIsView(Run(EMPTY_STATE, before + ops), SpecRun(a, ops), t, name);
  }

  /** Whoever was running when another transaction commits sees no change. */
  lemma CommitUnseenByRunning(before: seq<Op>, id: nat, t: nat, name: string)
    requires AllowedRun(EMPTY_STATE, before + [Commit(id)])
    requires t in Run(EMPTY_STATE, before).active && t != id
    ensures
      var s, s' := Run(EMPTY_STATE, before), Run(EMPTY_STATE, before + [Commit(id)]);
      t in s'.active && Shown(s', t, name) == Shown(s, t, name)
  {
    LookupChangesOnlyByOwnSteps(before, [Commit(id)], t, name);
  }

  /** A transaction that begins right after a commit sees the committer's version of every
      name the committer wrote, and the earlier committed version of every other name. */
  lemma CommitVisibleToNext(before: seq<Op>, id: nat, name: string)
    requires AllowedRun(EMPTY_STATE, before) && id in Run(EMPTY_STATE, before).active
    ensures
      var s := Run(EMPTY_STATE, before);
      Shown(Step(Step(s, Commit(id)), Begin), s.nextTx, name) ==
        if name in Written(s.active[id].undo) then Shown(s, id, name) else Shown(Step(s, Begin), s.nextTx, name)
  {
    var s, a := Run(EMPTY_STATE, before), SpecRun(EMPTY_SNAPSHOTS, before);
    SnapshotIsolation(before);
    StepRefines(s, a, Commit(id));
    var c, ca := Step(s, Commit(id)), SpecStep(a, Commit(id));
    StepRefines(c, ca, Begin);
    StepRefines(s, a, Begin);
    ShownIsView(Step(c, Begin), SpecStep(ca, Begin), s.nextTx, name);
    ShownIsView(Step(s, Begin), SpecStep(a, Begin), s.nextTx, name);
    ShownIsView(s, a, id, name);
  }

  // ----- Rollback restores the chains themselves -----

  predicate OwnWrite(op: Op, id: nat) { (op.Create? || op.Drop?) && op.id == id }

  lemma {:induction false} RunSane(s: State, ops: seq<Op>)
    requires Sane(s)
    ensures Sane(Run(s, ops))
  {
    if ops != [] {
      var n := |ops| - 1;
      RunSane(s, ops[..n]);
      StepSane(Run(s, ops[..n]), ops[n]);
    }
  }

  /** A chain of somebody who has not written yet. */
  predicate Clean(chain: Chain, id: nat) {
    forall i :: 0 <= i < |chain| ==>
      && !PendingCreate(chain[i], id) && chain[i].deleteTx != id
      && (chain[i].deleteTx == NO_TX ==> chain[i].deleteTime == NO_TIME)
  }

  lemma UnwrittenIsClean(s: State, id: nat, name: string)
    requires Sane(s) && id in s.active && s.active[id].undo == []
    ensures Clean(ChainOf(s.entries, name), id)
  {
    var chain := ChainOf(s.entries, name);
    assert ChainOk(s, name);
    forall i | 0 <= i < |chain|
      ensures !PendingCreate(chain[i], id) && chain[i].deleteTx != id
      ensures chain[i].deleteTx == NO_TX ==> chain[i].deleteTime == NO_TIME
    {
      assert EntryOk(s, name, chain[i]);
    }
  }

  /** What own writes make of a chain: own drop marks on old versions, own versions behind. */
  predicate Grown(was: Chain, now: Chain, id: nat) {
    && |was| <= |now|
    && (forall i :: 0 <= i < |was| ==> now[i] == was[i] || now[i] == Mark(was[i], id))
    && (forall i :: |was| <= i < |now| ==>
          PendingCreate(now[i], id) && (now[i].deleteTx == NO_TX || now[i].deleteTx == id))
  }

  /** No own drop mark lies where another one was. */
  predicate NoMarkLost(was: Chain, now: Chain)
    requires |was| <= |now|
  {
    forall i :: 0 <= i < |was| && now[i] != was[i] ==> was[i].deleteTx == NO_TX
  }

  /** The log knows of own versions and own marks. */
  predicate LogCovers(was: Chain, now: Chain, undo: seq<Undo>, name: string)
    requires |was| <= |now|
  {
    && (|was| < |now| ==> Logged(undo, name, true))
    && ((exists i :: 0 <= i < |was| && now[i] != was[i]) ==> Logged(undo, name, false))
  }

  /** This drop puts its mark on a version of `name` that carries one already. */
  predicate Overwrites(s: State, op: Op, name: string) {
    && op.Drop? && op.name == name && op.id in s.active
    && var chain := ChainOf(s.entries, name);
      var k := LastVisible(chain, TxOf(s, op.id));
      k >= 0 && chain[k].deleteTx != NO_TX
  }

  predicate NoOverwrite(s: State, ops: seq<Op>, name: string) {
    ops == [] ||
    (NoOverwrite(s, ops[..|ops| - 1], name) && !Overwrites(Run(s, ops[..|ops| - 1]), ops[|ops| - 1], name))
  }

  lemma MarkGrows(was: Chain, now: Chain, id: nat, tx: Tx)
    requires Clean(was, id) && Grown(was, now, id) && tx.id == id && LastVisible(now, tx) >= 0
    ensures
      var k := LastVisible(now, tx);
      var now' := MarkChain(now, tx);
      && Grown(was, now', id)
      && (NoMarkLost(was, now') <==> NoMarkLost(was, now) && now[k].deleteTx == NO_TX)
  {
    var k := LastVisible(now, tx);
    var now' := MarkChain(now, tx);
    assert forall i :: 0 <= i < |now| && i != k ==> now'[i] == now[i];
    assert now[k].deleteTx != id;
    if k < |was| {
      assert now[k] == was[k] && now'[k] == Mark(was[k], id) && now'[k] != was[k];
    }
  }

  lemma {:induction false} OwnRunGrows(s: State, ops: seq<Op>, id: nat, name: string)
    requires id in s.active && Clean(ChainOf(s.entries, name), id) && forall op <- ops :: OwnWrite(op, id)
    ensures
      var was, now := ChainOf(s.entries, name), ChainOf(Run(s, ops).entries, name);
      && id in Run(s, ops).active && Grown(was, now, id) && LogCovers(was, now, Run(s, ops).active[id].undo, name)
      && (NoMarkLost(was, now) <==> NoOverwrite(s, ops, name))
  {
    if ops != [] {
      var n := |ops| - 1;
      OwnRunGrows(s, ops[..n], id, name);
      OwnStepGrows(ChainOf(s.entries, name), Run(s, ops[..n]), ops[n], id, name);
    }
  }

  lemma OwnStepGrows(was: Chain, s: State, op: Op, id: nat, name: string)
    requires id in s.active && Clean(was, id) && OwnWrite(op, id)
    requires Grown(was, ChainOf(s.entries, name), id)
    requires LogCovers(was, ChainOf(s.entries, name), s.active[id].undo, name)
    ensures
      var now, s' := ChainOf(s.entries, name), Step(s, op);
      var now' := ChainOf(s'.entries, name);
      && id in s'.active && Grown(was, now', id) && LogCovers(was, now', s'.active[id].undo, name)
      && (NoMarkLost(was, now') <==> NoMarkLost(was, now) && !Overwrites(s, op, name))
  {
    var now, s' := ChainOf(s.entries, name), Step(s, op);
    var undo, u := s.active[id].undo, Undo(op.name, op.Create?);
    if s' != s {
      assert s'.active[id].undo == undo + [u];
      if op.name != name {
        assert ChainOf(s'.entries, name) == now;
        LoggedMore(undo, u, name);
      } else if op.Drop? {
        MarkGrows(was, now, id, TxOf(s, id));
        LogGrows(was, now, MarkChain(now, TxOf(s, id)), undo, u);
      } else {
        var now' := now + [Entry(op.payload, id, NO_TIME, NO_TX, NO_TIME)];
        assert ChainOf(s'.entries, name) == now';
        LogGrows(was, now, now', undo, u);
      }
    }
  }

  lemma LogGrows(was: Chain, now: Chain, now': Chain, undo: seq<Undo>, u: Undo)
    requires |was| <= |now| <= |now'| && LogCovers(was, now, undo, u.name)
    requires if u.wasCreate then now <= now' else |now| == |now'|
    ensures LogCovers(was, now', undo + [u], u.name)
  {
    LoggedMore(undo, u, u.name);
  }

  lemma {:induction false} GrownDropped(was: Chain, now: Chain, id: nat)
    requires Clean(was, id) && Grown(was, now, id)
    ensures DropCreates(now, id) == now[..|was|]
  {
    var n := |now| - 1;
    if |now| > |was| {
      GrownDropped(was, now[..n], id);
      assert now[..n][..|was|] == now[..|was|];
    } else {
      assert now[..|was|] == now;
      forall e | e in now ensures !PendingCreate(e, id) {
        var i :| 0 <= i < |now| && now[i] == e;
      }
      NothingToTakeBack(now, id);
    }
  }

  lemma {:induction false} NothingToTakeBack(chain: Chain, id: nat)
    requires forall e <- chain :: !PendingCreate(e, id)
    ensures DropCreates(chain, id) == chain
  {
    if chain != [] {
      var n := |chain| - 1;
      assert chain[n] in chain && chain == chain[..n] + [chain[n]];
      NothingToTakeBack(chain[..n], id);
    }
  }

  lemma RolledRestoresIff(was: Chain, now: Chain, undo: seq<Undo>, id: nat, name: string)
    requires Clean(was, id) && id != NO_TX && Grown(was, now, id) && LogCovers(was, now, undo, name)
    ensures Rolled(now, undo, id, name) == was <==> NoMarkLost(was, now)
  {
    GrownDropped(was, now, id);
    if |was| == |now| { assert now[..|was|] == now; }
    var r := Rolled(now, undo, id, name);
    assert |r| == |was|;
    forall i | 0 <= i < |was|
      ensures r[i] == was[i] <==> (now[i] != was[i] ==> was[i].deleteTx == NO_TX)
    {
      if now[i] == was[i] {
        assert ClearOne(was[i], id) == was[i];
      } else {
        assert r[i] == ClearOne(Mark(was[i], id), id);
      }
    }
  }

  lemma ChainRestoredIff(s: State, ops: seq<Op>, id: nat, name: string)
    requires Sane(s) && id in s.active && s.active[id].undo == [] && forall op <- ops :: OwnWrite(op, id)
    ensures ChainOf(Step(Run(s, ops), Rollback(id)).entries, name) == ChainOf(s.entries, name) <==>
      NoOverwrite(s, ops, name)
  {
    var s' := Run(s, ops);
    UnwrittenIsClean(s, id, name);
    OwnRunGrows(s, ops, id, name);
    RollbackUndoChain(s'.entries, s'.active[id].undo, id, name);
    RolledRestoresIff(ChainOf(s.entries, name), ChainOf(s'.entries, name), s'.active[id].undo, id, name);
  }

  lemma {:induction false} AllowedOverwritesNothing(s: State, ops: seq<Op>, name: string)
    requires AllowedRun(s, ops)
    ensures NoOverwrite(s, ops, name)
  {
    if ops != [] {
      var n := |ops| - 1;
      AllowedOverwritesNothing(s, ops[..n], name);
      var now, op := Run(s, ops[..n]), ops[n];
      if op.Drop? && op.id in now.active {
        var chain := ChainOf(now.entries, op.name);
        var k := LastVisible(chain, TxOf(now, op.id));
        if k >= 0 { assert chain[k] in chain; }
      }
    }
  }

  /** In every reachable state, a transaction that has written nothing yet makes any creates
      and drops and rolls back: the chain of a name is exactly as it was if and only if no
      drop of that name overwrote a mark.  Allowed writes overwrite none. */
  lemma RollbackRestoresChains(before: seq<Op>, ops: seq<Op>, id: nat, name: string)
    requires
      var s := Run(EMPTY_STATE, before);
      id in s.active && s.active[id].undo == []
    requires forall op <- ops :: OwnWrite(op, id)
    ensures
      var s := Run(EMPTY_STATE, before);
      var restored := ChainOf(Step(Run(s, ops), Rollback(id)).entries, name) == ChainOf(s.entries, name);
      (restored <==> NoOverwrite(s, ops, name)) && (AllowedRun(s, ops) ==> restored)
  {
    var s := Run(EMPTY_STATE, before);
    RunSane(EMPTY_STATE, before);
    ChainRestoredIff(s, ops, id, name);
    if AllowedRun(s, ops) { AllowedOverwritesNothing(s, ops, name); }
  }

  // ----- When a drop disturbs somebody else -----

  predicate CreatedFor(e: Entry, tx: Tx) {
    e.createTx == tx.id || (e.createTime != NO_TIME && e.createTime < tx.start)
  }

  predicate DroppedFor(e: Entry, tx: Tx) {
    e.deleteTx == tx.id || (e.deleteTime != NO_TIME && e.deleteTime < tx.start)
  }

  /** A drop by `me` changes which version `tx` finds exactly when the version it marks
      already carried a drop that `tx` counted on, and `tx` sees nothing newer: marking
      overwrites the older drop. */
  lemma DropDisturbsIff(chain: Chain, me: Tx, tx: Tx)
    requires me.id != tx.id && LastVisible(chain, me) >= 0
    ensures
      var k := LastVisible(chain, me);
      LastVisible(MarkChain(chain, me), tx) != LastVisible(chain, tx) <==>
        CreatedFor(chain[k], tx) && DroppedFor(chain[k], tx) && LastVisible(chain, tx) < k
  {
    var k := LastVisible(chain, me);
    var chain' := MarkChain(chain, me);
    var v, v' := LastVisible(chain, tx), LastVisible(chain', tx);
    assert forall i :: 0 <= i < |chain| && i != k ==> chain'[i] == chain[i];
    assert Visible(chain'[k], tx) <==> CreatedFor(chain[k], tx);
    assert Visible(chain[k], tx) <==> CreatedFor(chain[k], tx) && !DroppedFor(chain[k], tx);
    if Visible(chain'[k], tx) && v < k {
      assert v' == k;
    } else if v > k {
      assert v' == v;
    }
  }

  /** A create never disturbs anybody else. */
  lemma CreateNeverDisturbs(chain: Chain, e: Entry, tx: Tx)
    requires e.createTx != tx.id && e.createTime == NO_TIME
    ensures LastVisible(chain + [e], tx) == LastVisible(chain, tx)
  {
    assert (chain + [e])[..|chain|] == chain;
  }

  /** The run: table t exists; 2 and 3 begin; 2 drops it and commits; 4 begins. */
  const STALE_RUN := [
    Begin, Create(1, "t", 7), Commit(1), Begin, Begin, Drop(2, "t"), Commit(2), Begin
  ]

  const CREATED := Entry(7, 1, NO_TIME, NO_TX, NO_TIME)
  const LIVE := CREATED.(createTime := 1)
  const DROPPING := LIVE.(deleteTx := 2)
  const DROPPED := DROPPING.(deleteTime := 2)

  const STALE1 := State(map[], map[1 := Running(1, [])], 0, 2)
  const STALE2 := State(map["t" := [CREATED]], map[1 := Running(1, [Undo("t", true)])], 0, 2)
  const STALE3 := State(map["t" := [LIVE]], map[], 1, 2)
  const STALE5 := State(map["t" := [LIVE]], map[2 := Running(2, []), 3 := Running(2, [])], 1, 4)
  const STALE6 := State(map["t" := [DROPPING]], map[2 := Running(2, [Undo("t", false)]), 3 := Running(2, [])], 1, 4)
  const STALE7 := State(map["t" := [DROPPED]], map[3 := Running(2, [])], 2, 4)
  const STALE8 := State(map["t" := [DROPPED]], map[3 := Running(2, []), 4 := Running(3, [])], 2, 5)

  lemma StaleCreate()
    ensures Step(STALE1, Create(1, "t", 7)) == STALE2
  {
    assert [] + [CREATED] == [CREATED] && [] + [Undo("t", true)] == [Undo("t", true)];
  }

  lemma StaleCommitCreate()
    ensures Step(STALE2, Commit(1)) == STALE3
  {
    CommitSingle(STALE2.entries, Undo("t", true), 1, 1);
    assert CommitChain([CREATED], 1, 1) == [LIVE];
    assert STALE2.active - {1} == map[];
  }

  lemma StaleDrop()
    ensures Step(STALE5, Drop(2, "t")) == STALE6
  {
    assert Visible(LIVE, Tx(2, 2)) && MarkChain([LIVE], Tx(2, 2)) == [DROPPING];
    assert [] + [Undo("t", false)] == [Undo("t", false)];
  }

  lemma StaleCommitDrop()
    ensures Step(STALE6, Commit(2)) == STALE7
  {
    CommitSingle(STALE6.entries, Undo("t", false), 2, 2);
    assert CommitChain([DROPPING], 2, 2) == [DROPPED];
    assert STALE6.active - {2} == map[3 := Running(2, [])];
  }

  lemma StaleRunState()
    ensures Run(EMPTY_STATE, STALE_RUN) == STALE8
  {
    assert Step(EMPTY_STATE, Begin) == STALE1;
    StaleCreate();
    StaleCommitCreate();
    assert Step(Step(STALE3, Begin), Begin) == STALE5;
    StaleDrop();
    StaleCommitDrop();
    assert Step(STALE7, Begin) == STALE8;
    UnrollRun(EMPTY_STATE, STALE_RUN);
  }

  lemma CommitSingle(entries: Entries, u: Undo, id: nat, time: int)
    ensures CommitUndo(entries, [u], id, time) ==
      Update(entries, u.name, CommitChain(ChainOf(entries, u.name), id, time))
  {
    assert [u][..0] == [];
  }

  lemma RollbackSingle(entries: Entries, u: Undo, id: nat)
    requires !u.wasCreate
    ensures RollbackUndo(entries, [u], id) == Update(entries, u.name, ClearDeletes(ChainOf(entries, u.name), id))
  {
    assert [u][..0] == [];
  }

  lemma UnrollRun(s: State, ops: seq<Op>)
    requires |ops| == 8
    ensures Run(s, ops) ==
      Step(Step(Step(Step(Step(Step(Step(Step(s, ops[0]), ops[1]), ops[2]), ops[3]), ops[4]), ops[5]), ops[6]), ops[7])
  {
    assert ops[..7][..6] == ops[..6] && ops[..6][..5] == ops[..5] && ops[..5][..4] == ops[..4];
    assert ops[..4][..3] == ops[..3] && ops[..3][..2] == ops[..2] && ops[..2][..1] == ops[..1] && ops[..1][..0] == [];
    assert Run(s, ops[..1]) == Step(s, ops[0]);
    assert Run(s, ops[..2]) == Step(Run(s, ops[..1]), ops[1]);
    assert Run(s, ops[..3]) == Step(Run(s, ops[..2]), ops[2]);
    assert Run(s, ops[..4]) == Step(Run(s, ops[..3]), ops[3]);
    assert Run(s, ops[..5]) == Step(Run(s, ops[..4]), ops[4]);
    assert Run(s, ops[..6]) == Step(Run(s, ops[..5]), ops[5]);
    assert Run(s, ops[..7]) == Step(Run(s, ops[..6]), ops[6]);
  }

  /** Never two running writers on a name, and still: when 3 drops what 2 has already
      dropped, the table comes back for 4, which began after that drop committed. */
  lemma StaleDropResurrects()
    ensures
      var s := Run(EMPTY_STATE, STALE_RUN);
      var s' := Step(s, Drop(3, "t"));
      && 3 in s.active && 4 in s.active && 4 in s'.active && !Allowed(s, Drop(3, "t"))
      && Shown(s, 4, "t") == None && Shown(s', 4, "t") == Some(7)
  {
    StaleRunState();
    var s := Run(EMPTY_STATE, STALE_RUN);
    var e := Entry(7, 1, 1, 2, 2);
    assert ChainOf(s.entries, "t") == [e] && e in [e];
    assert Visible(e, Tx(3, 2)) && !Visible(e, Tx(4, 3));
    assert [e][..0] == [];
    var s' := Step(s, Drop(3, "t"));
    assert ChainOf(s'.entries, "t") == [Entry(7, 1, 1, 3, NO_TIME)];
  }

  const MARKED_AGAIN := LIVE.(deleteTx := 3)
  const STALE9 := State(map["t" := [MARKED_AGAIN]],
    map[3 := Running(2, [Undo("t", false)]), 4 := Running(3, [])], 2, 5)
  const STALE10 := State(map["t" := [LIVE]], map[4 := Running(3, [])], 2, 5)

  lemma StaleSecondDrop()
    ensures Step(STALE8, Drop(3, "t")) == STALE9 && Overwrites(STALE8, Drop(3, "t"), "t")
  {
    assert Visible(DROPPED, Tx(3, 2)) && MarkChain([DROPPED], Tx(3, 2)) == [MARKED_AGAIN];
    assert [] + [Undo("t", false)] == [Undo("t", false)];
  }

  lemma StaleRollback()
    ensures Step(STALE9, Rollback(3)) == STALE10
  {
    RollbackSingle(STALE9.entries, Undo("t", false), 3);
    assert ClearDeletes([MARKED_AGAIN], 3) == [LIVE];
    assert STALE9.active - {3} == map[4 := Running(3, [])];
  }

  /** The same drop, rolled back: 3 leaves nothing of its own, and yet the committed drop is
      gone from the chain and 4 sees the table. */
  lemma StaleRollbackLosesDrop()
    ensures
      var s := Run(EMPTY_STATE, STALE_RUN);
      var s' := Step(Run(s, [Drop(3, "t")]), Rollback(3));
      && 3 in s.active && s.active[3].undo == [] && !NoOverwrite(s, [Drop(3, "t")], "t")
      && ChainOf(s.entries, "t") == [DROPPED] && ChainOf(s'.entries, "t") == [LIVE]
      && 4 in s.active && 4 in s'.active && Shown(s, 4, "t") == None && Shown(s', 4, "t") == Some(7)
  {
    StaleRunState();
    StaleSecondDrop();
    StaleRollback();
    var ops := [Drop(3, "t")];
    assert ops[..0] == [] && Run(STALE8, ops[..0]) == STALE8;
    assert Run(STALE8, ops) == STALE9;
    assert !Visible(DROPPED, Tx(4, 3)) && Visible(LIVE, Tx(4, 3));
    assert [DROPPED][..0] == [];
  }
}
