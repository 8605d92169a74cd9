/** Hash join: the build table, and the resumable probe that emits at most 1024 rows per
    call.  Hash functions are parameters, so nothing depends on their quality. */
module HashJoin {
  import opened Cells
  import opened Relational

  const BATCH: nat := 1024

  /** The hashes of single values and the step that mixes one into a running hash. */
  datatype Hashing = Hashing(ofInt: int -> nat, ofFloat: real -> nat, ofStr: string -> nat, mix: (nat, nat) -> nat)
  {
    function OfCell(c: Cell): nat {
      match c
      case Null => 0
      case Int(i) => ofInt(i)
      case Float(f) => ofFloat(f)
      case Str(s) => ofStr(s)
    }

    /** Running hash after the first n key values. */
    function Prefix(key: seq<Value>, n: nat): nat
      requires n <= |key|
    {
      if n == 0 then 0 else mix(Prefix(key, n - 1), OfCell(key[n - 1].cell))
    }

    function OfKey(key: seq<Value>): nat { Prefix(key, |key|) }
  }

  /** A typed NULL is boxed with the default payload, the integer zero. */
  function Box(c: Cell): Cell { if c.Null? then Int(0) else c }

  function BoxRow(row: Row): Row { seq(|row|, i requires 0 <= i < |row| => Box(row[i])) }

  function BoxRows(rows: seq<Row>): seq<Row> { seq(|rows|, i requires 0 <= i < |rows| => BoxRow(rows[i])) }

  /** Keys of a declared type, with a value present in every row. */
  predicate KeysPresent(cols: seq<KeyCol>, row: Row) {
    forall k :: 0 <= k < |cols| ==> !cols[k].ty.Invalid? && cols[k].idx < |row| && !row[cols[k].idx].Null?
  }

  predicate AllKeysPresent(cols: seq<KeyCol>, rows: seq<Row>) {
    forall i :: 0 <= i < |rows| ==> KeysPresent(cols, rows[i])
  }

  /** The key a probe row is compared by: a NULL is boxed here as well. */
  function ProbeKey(lk: seq<KeyCol>, l: Row): seq<Value> { KeyOf(lk, BoxRow(l)) }

  /** Equality of boxed values: same declared type, not INVALID, same payload. */
  predicate ValueEq(a: Value, b: Value) { a.ty == b.ty && !a.ty.Invalid? && a.cell == b.cell }

  predicate KeyEq(a: seq<Value>, b: seq<Value>)
    requires |a| == |b|
  {
    forall k :: 0 <= k < |a| ==> ValueEq(a[k], b[k])
  }

  // ----- The build table -----

  datatype Entry = Entry(key: seq<Value>, row: Row)

  function EntryOf(rk: seq<KeyCol>, row: Row): Entry { Entry(KeyOf(rk, BoxRow(row)), BoxRow(row)) }

  /** The entries of the built rows whose key hashes to h, in insertion order. */
  function Bucket(hs: Hashing, rk: seq<KeyCol>, built: seq<Row>, h: nat): seq<Entry> {
    if built == [] then []
    else
      var n := |built| - 1;
      var e := EntryOf(rk, built[n]);
      Bucket(hs, rk, built[..n], h) + if hs.OfKey(e.key) == h then [e] else []
  }

  lemma OneMore(a: seq<Row>, rows: seq<Row>, r: nat)
    requires r < |rows|
    ensures a + rows[..r] + [rows[r]] == a + rows[..r + 1]
  {
  }

  class JoinHashTable {
    const hs: Hashing
    const keys: seq<KeyCol>
    var table: map<nat, seq<Entry>>

    constructor (hs: Hashing, keys: seq<KeyCol>)
      ensures this.hs == hs && this.keys == keys && Represents([])
    {
      this.hs, this.keys, table := hs, keys, map[];
    }

    function ProbeByHash(h: nat): seq<Entry>
      reads this
    {
      if h in table then table[h] else []
    }

    /** Every bucket holds exactly the built rows of its hash, in order. */
    ghost predicate Represents(built: seq<Row>)
      reads this
    {
      forall h: nat :: ProbeByHash(h) == Bucket(hs, keys, built, h)
    }

    method HashKey(key: seq<Value>) returns (h: nat)
      ensures h == hs.OfKey(key)
    {
      h := 0;
      for i := 0 to |key|
        invariant h == hs.Prefix(key, i)
      {
        h := hs.mix(h, hs.OfCell(key[i].cell));
      }
    }

    method Insert(row: Row, ghost built: seq<Row>)
      requires Represents(built)
      modifies this
      ensures Represents(built + [row])
    {
      var e := EntryOf(keys, row);
      var h := HashKey(e.key);
      assert (built + [row])[..|built|] == built;
      table := table[h := ProbeByHash(h) + [e]];
    }

    method Consume(input: Chunk, ghost built: seq<Row>)
      requires input.Valid() && Represents(built)
      modifies this
      ensures Represents(built + input.Rows())
    {
      ghost var rows, done := input.Rows(), built;
      for r := 0 to input.count
        invariant done == built + rows[..r] && Represents(done)
      {
        Insert(input.RowAt(r), done);
        OneMore(built, rows, r);
        done := done + [rows[r]];
      }
      assert rows[..input.count] == rows;
    }

    /** Hashes of all rows, one key column at a time. */
    method ComputeHashes(input: Chunk, cols: seq<KeyCol>) returns (hashes: seq<nat>)
      requires input.Valid() && forall k :: 0 <= k < |cols| ==> cols[k].idx < |input.columns|
      ensures |hashes| == input.count
      ensures forall r :: 0 <= r < input.count ==> hashes[r] == hs.OfKey(KeyOf(cols, input.RowAt(r)))
    {
      hashes := seq(input.count, _ => 0);
      for ki := 0 to |cols|
        invariant |hashes| == input.count
        invariant forall r :: 0 <= r < input.count ==> hashes[r] == hs.Prefix(KeyOf(cols, input.RowAt(r)), ki)
      {
        hashes := MixColumn(input, cols, ki, hashes);
      }
    }

    method MixColumn(input: Chunk, cols: seq<KeyCol>, ki: nat, before: seq<nat>) returns (hashes: seq<nat>)
      requires input.Valid() && ki < |cols| && cols[ki].idx < |input.columns| && |before| == input.count
      requires forall r :: 0 <= r < input.count ==> before[r] == hs.Prefix(KeyOf(cols, input.RowAt(r)), ki)
      ensures |hashes| == input.count
      ensures forall r :: 0 <= r < input.count ==> hashes[r] == hs.Prefix(KeyOf(cols, input.RowAt(r)), ki + 1)
    {
      var col := input.columns[cols[ki].idx];
      hashes := before;
      for r := 0 to input.count
        invariant |hashes| == input.count
        invariant forall q :: 0 <= q < r ==> hashes[q] == hs.Prefix(KeyOf(cols, input.RowAt(q)), ki + 1)
        invariant forall q :: r <= q < input.count ==> hashes[q] == before[q]
      {
        assert KeyOf(cols, input.RowAt(r))[ki].cell == col[r];
        hashes := hashes[r := hs.mix(hashes[r], hs.OfCell(col[r]))];
      }
    }
  }

  // ----- What one probe call has left to do -----

  /** The candidates from position `from` on that really match, each behind l. */
  function Emitted(l: Row, key: seq<Value>, cands: seq<Entry>, from: nat): seq<Row> {
    if |cands| <= from then []
    else
      var n := |cands| - 1;
      Emitted(l, key, cands[..n], from) + if cands[n].key == key then [l + cands[n].row] else []
  }

  /** Resuming at row `row` and candidate `midx`.  The hash counts a NULL as 0, the
      comparison takes it for the integer zero. */
  function Rest(hs: Hashing, lk: seq<KeyCol>, rk: seq<KeyCol>, left: seq<Row>, built: seq<Row>, row: nat,
      midx: nat): seq<Row>
    decreases |left| - row
  {
    if row >= |left| then []
    else
      var h := hs.OfKey(KeyOf(lk, left[row]));
      Emitted(left[row], ProbeKey(lk, left[row]), Bucket(hs, rk, built, h), midx) +
      Rest(hs, lk, rk, left, built, row + 1, 0)
  }

  lemma {:induction false} EmittedHead(l: Row, key: seq<Value>, cands: seq<Entry>, from: nat)
    requires from < |cands|
    ensures Emitted(l, key, cands, from) ==
      (if cands[from].key == key then [l + cands[from].row] else []) + Emitted(l, key, cands, from + 1)
  {
    var n := |cands| - 1;
    if from < n {
      EmittedHead(l, key, cands[..n], from);
      assert cands[..n][from] == cands[from];
    } else {
      assert Emitted(l, key, cands[..n], from) == [];
    }
  }

  /** Collisions are filtered out: a bucket yields exactly the matching built rows, if it is
      the bucket of their key. */
  lemma {:induction false} BucketMatches(hs: Hashing, l: Row, key: seq<Value>, rk: seq<KeyCol>, built: seq<Row>, h: nat)
    ensures Emitted(l, key, Bucket(hs, rk, built, h), 0) ==
      if h == hs.OfKey(key) then Matches(l, key, rk, BoxRows(built)) else []
  {
    if built != [] {
      var n := |built| - 1;
      BucketMatches(hs, l, key, rk, built[..n], h);
      assert BoxRows(built)[..n] == BoxRows(built[..n]);
      assert BoxRows(built)[n] == BoxRow(built[n]);
      var e, prev := EntryOf(rk, built[n]), Bucket(hs, rk, built[..n], h);
      if hs.OfKey(e.key) == h {
        assert (prev + [e])[..|prev|] == prev;
        assert Emitted(l, key, prev + [e], 0) == Emitted(l, key, prev, 0) + if e.key == key then [l + e.row] else [];
      } else {
        assert Bucket(hs, rk, built, h) == prev;
      }
    }
  }

  /** What one probe row contributes. */
  function RowJoin(hs: Hashing, lk: seq<KeyCol>, rk: seq<KeyCol>, l: Row, built: seq<Row>): seq<Row> {
    if hs.OfKey(KeyOf(lk, l)) == hs.OfKey(ProbeKey(lk, l)) then Matches(l, ProbeKey(lk, l), rk, BoxRows(built)) else []
  }

  /** What the probe rows contribute, in order. */
  function HashJoined(hs: Hashing, lk: seq<KeyCol>, rk: seq<KeyCol>, left: seq<Row>, built: seq<Row>): seq<Row> {
    if left == [] then []
    else
      var n := |left| - 1;
      HashJoined(hs, lk, rk, left[..n], built) + RowJoin(hs, lk, rk, left[n], built)
  }

  lemma Associate(a: seq<Row>, b: seq<Row>, c: seq<Row>)
    ensures a + b + c == a + (b + c)
  {
  }

  lemma {:induction false} BucketKeys(hs: Hashing, rk: seq<KeyCol>, built: seq<Row>, h: nat)
    ensures forall c :: 0 <= c < |Bucket(hs, rk, built, h)| ==> |Bucket(hs, rk, built, h)[c].key| == |rk|
  {
    if built != [] { BucketKeys(hs, rk, built[..|built| - 1], h); }
  }

  /** Part of one row's candidates done: the rest starts at the new position. */
  lemma Resumed(hs: Hashing, lk: seq<KeyCol>, rk: seq<KeyCol>, left: seq<Row>, built: seq<Row>, row: nat, midx: nat,
      midx': nat, before: seq<Row>, output: seq<Row>)
    requires row < |left|
    requires
      var key := ProbeKey(lk, left[row]);
      var cands := Bucket(hs, rk, built, hs.OfKey(KeyOf(lk, left[row])));
      before + Emitted(left[row], key, cands, midx) == output + Emitted(left[row], key, cands, midx')
    ensures before + Rest(hs, lk, rk, left, built, row, midx) == output + Rest(hs, lk, rk, left, built, row, midx')
  {
    var key := ProbeKey(lk, left[row]);
    var cands, later := Bucket(hs, rk, built, hs.OfKey(KeyOf(lk, left[row]))),
      Rest(hs, lk, rk, left, built, row + 1, 0);
    Associate(before, Emitted(left[row], key, cands, midx), later);
    Associate(output, Emitted(left[row], key, cands, midx'), later);
  }

  /** All candidates of a row done: the rest is that of the following rows. */
  lemma RowDone(hs: Hashing, lk: seq<KeyCol>, rk: seq<KeyCol>, left: seq<Row>, built: seq<Row>, row: nat, midx: nat)
    requires row < |left| && midx >= |Bucket(hs, rk, built, hs.OfKey(KeyOf(lk, left[row])))|
    ensures Rest(hs, lk, rk, left, built, row, midx) == Rest(hs, lk, rk, left, built, row + 1, 0)
  {
  }

  /** From the start of row `row` on, the probe yields what the remaining rows contribute. */
  lemma {:induction false} RestIsJoin(hs: Hashing, lk: seq<KeyCol>, rk: seq<KeyCol>, left: seq<Row>, built: seq<Row>,
      row: nat)
    requires row <= |left|
    ensures HashJoined(hs, lk, rk, left[..row], built) + Rest(hs, lk, rk, left, built, row, 0) ==
      HashJoined(hs, lk, rk, left, built)
    decreases |left| - row
  {
    if row == |left| {
      assert left[..row] == left;
    } else {
      RestIsJoin(hs, lk, rk, left, built, row + 1);
      BucketMatches(hs, left[row], ProbeKey(lk, left[row]), rk, built, hs.OfKey(KeyOf(lk, left[row])));
      assert left[..row + 1][..row] == left[..row] && left[..row + 1][row] == left[row];
      Associate(HashJoined(hs, lk, rk, left[..row], built), RowJoin(hs, lk, rk, left[row], built),
        Rest(hs, lk, rk, left, built, row + 1, 0));
    }
  }

  // ----- The probe -----

  method KeysEqual(a: seq<Value>, b: seq<Value>) returns (eq: bool)
    requires |a| == |b|
    ensures eq <==> KeyEq(a, b)
  {
    eq := true;
    var k := 0;
    while k < |a| && eq
      invariant k <= |a|
      invariant eq ==> forall j :: 0 <= j < k ==> ValueEq(a[j], b[j])
      invariant !eq ==> exists j :: 0 <= j < |a| && !ValueEq(a[j], b[j])
    {
      if !ValueEq(a[k], b[k]) { eq := false; }
      k := k + 1;
    }
  }

  class HashJoinProbe {
    const ht: JoinHashTable
    const leftKeys: seq<KeyCol>
    var probeRowIdx: nat
    var matchIdx: nat

    constructor (ht: JoinHashTable, leftKeys: seq<KeyCol>)
      ensures this.ht == ht && this.leftKeys == leftKeys && probeRowIdx == 0 && matchIdx == 0
    {
      this.ht, this.leftKeys := ht, leftKeys;
      probeRowIdx, matchIdx := 0, 0;
    }

    ghost function Left(input: Chunk, built: seq<Row>): seq<Row>
      requires input.Valid()
      reads this
    {
      Rest(ht.hs, leftKeys, ht.keys, input.Rows(), built, probeRowIdx, matchIdx)
    }

    predicate Usable(input: Chunk)
      reads this
    {
      && |leftKeys| == |ht.keys|
      && forall k :: 0 <= k < |leftKeys| ==> !leftKeys[k].ty.Invalid? && leftKeys[k].idx < |input.columns|
    }

    /** One call: the next rows of the join, at most a batch of them; `more` when the batch
        filled up, and then the resume position has moved on. */
    method Execute(input: Chunk, ghost built: seq<Row>) returns (more: bool, output: seq<Row>)
      requires input.Valid() && Usable(input) && ht.Represents(built)
      modifies this
      ensures old(Left(input, built)) == output + if more then Left(input, built) else []
      ensures |output| <= BATCH && (more ==> |output| == BATCH)
      ensures !more ==> probeRowIdx == 0 && matchIdx == 0
    {
      var hashes := ht.ComputeHashes(input, leftKeys);
      var row, midx := probeRowIdx, matchIdx;
      output := [];
      ghost var rows := input.Rows();
      while row < input.count
        invariant |output| < BATCH
        invariant output + Rest(ht.hs, leftKeys, ht.keys, rows, built, row, midx) == old(Left(input, built))
        decreases input.count - row
      {
        var candidates := ht.ProbeByHash(hashes[row]);
        var l := input.RowAt(row);
        var key := ProbeKey(leftKeys, l);
        BucketKeys(ht.hs, ht.keys, built, hashes[row]);
        assert rows[row] == l && candidates == Bucket(ht.hs, ht.keys, built, ht.hs.OfKey(KeyOf(leftKeys, l)));
        var full, out, next := EmitMatches(l, key, candidates, midx, output);
        Resumed(ht.hs, leftKeys, ht.keys, rows, built, row, midx, next, output, out);
        output, midx := out, next;
        if full {
          probeRowIdx, matchIdx := row, midx;
          return true, output;
        }
        RowDone(ht.hs, leftKeys, ht.keys, rows, built, row, midx);
        row, midx := row + 1, 0;
      }
      probeRowIdx, matchIdx := 0, 0;
      return false, output;
    }
  }

  /** Emit the candidates from midx on until they end or the batch is full. */
  method EmitMatches(l: Row, key: seq<Value>, candidates: seq<Entry>, from: nat, before: seq<Row>)
      returns (full: bool, output: seq<Row>, midx: nat)
    requires |before| < BATCH && forall c :: 0 <= c < |candidates| ==> |candidates[c].key| == |key|
    requires forall k :: 0 <= k < |key| ==> !key[k].ty.Invalid?
    ensures before + Emitted(l, key, candidates, from) == output + Emitted(l, key, candidates, midx)
    ensures if full then |output| == BATCH else |output| < BATCH && midx >= |candidates|
  {
    midx, output := from, before;
    while midx < |candidates|
      invariant |output| < BATCH
      invariant before + Emitted(l, key, candidates, from) == output + Emitted(l, key, candidates, midx)
    {
      EmittedHead(l, key, candidates, midx);
      var eq := KeysEqual(key, candidates[midx].key);
      if eq {
        output := output + [l + candidates[midx].row];
      }
      midx := midx + 1;
      if |output| == BATCH { return true, output, midx; }
    }
    return false, output, midx;
  }

  // ----- The whole join of one probe chunk -----

  method Build(hs: Hashing, rk: seq<KeyCol>, chunks: seq<Chunk>) returns (ht: JoinHashTable)
    requires forall c <- chunks :: c.Valid()
    ensures fresh(ht) && ht.hs == hs && ht.keys == rk && ht.Represents(Concat(chunks))
  {
    ht := new JoinHashTable(hs, rk);
    for i := 0 to |chunks|
      invariant fresh(ht) && ht.hs == hs && ht.keys == rk
      invariant ht.Represents(Concat(chunks[..i]))
    {
      ghost var done := Concat(chunks[..i]);
      var c := chunks[i];
      assert c.Valid();
      ht.Consume(c, done);
      assert chunks[..i + 1][..i] == chunks[..i];
    }
    assert chunks[..|chunks|] == chunks;
  }

  /** The outputs of successive probe calls on one chunk, up to the call that asks for more
      input: in left-row, then insertion order what each row contributes, and with keys
      present in every probe row the nested-loop join with the boxed build side. */
  method Join(hs: Hashing, lk: seq<KeyCol>, rk: seq<KeyCol>, build: seq<Chunk>, probe: Chunk)
      returns (batches: seq<seq<Row>>)
    requires (forall c <- build :: c.Valid()) && probe.Valid() && |lk| == |rk|
    requires forall k :: 0 <= k < |lk| ==> !lk[k].ty.Invalid? && lk[k].idx < |probe.columns|
    ensures Flatten(batches) == HashJoined(hs, lk, rk, probe.Rows(), Concat(build))
    ensures AllKeysPresent(lk, probe.Rows()) ==>
      Flatten(batches) == EquiJoin(lk, rk, probe.Rows(), BoxRows(Concat(build)))
    ensures Small(batches)
    ensures AllKeysPresent(lk, probe.Rows()) && NullFree(Concat(build)) ==>
      JoinsRows(lk, rk, probe.Rows(), Concat(build), Flatten(batches))
  {
    var ht := Build(hs, rk, build);
    batches := ProbeAll(ht, lk, probe, Concat(build));
    if AllKeysPresent(lk, probe.Rows()) {
      PresentJoin(hs, lk, rk, probe.Rows(), Concat(build));
      if NullFree(Concat(build)) {
        BoxNullFree(Concat(build));
        ghost var js := EquiJoinMeaning(lk, rk, probe.Rows(), Concat(build));
      }
    }
  }

  /** Every left row in order, each beside exactly the right rows with the same key, in order. */
  ghost predicate JoinsRows(lk: seq<KeyCol>, rk: seq<KeyCol>, left: seq<Row>, right: seq<Row>, out: seq<Row>) {
    exists js: seq<seq<nat>> :: JoinedAt(lk, rk, left, right, js) && out == JoinRows(left, right, js)
  }

  method ProbeAll(ht: JoinHashTable, lk: seq<KeyCol>, probe: Chunk, ghost built: seq<Row>)
      returns (batches: seq<seq<Row>>)
    requires probe.Valid() && |lk| == |ht.keys| && ht.Represents(built)
    requires forall k :: 0 <= k < |lk| ==> !lk[k].ty.Invalid? && lk[k].idx < |probe.columns|
    ensures Flatten(batches) == HashJoined(ht.hs, lk, ht.keys, probe.Rows(), built)
    ensures Small(batches)
  {
    var op := new HashJoinProbe(ht, lk);
    ghost var all := HashJoined(ht.hs, lk, ht.keys, probe.Rows(), built);
    batches := [];
    RestIsJoin(ht.hs, lk, ht.keys, probe.Rows(), built, 0);
    ghost var rest := op.Left(probe, built);
    var more := true;
    while more
      invariant fresh(op) && op.ht == ht && op.leftKeys == lk && ht.Represents(built)
      invariant Small(batches)
      invariant rest == (if more then op.Left(probe, built) else []) && Flatten(batches) + rest == all
      decreases more, |rest|
    {
      var output;
      more, output := op.Execute(probe, built);
      rest := if more then op.Left(probe, built) else [];
      FlattenMore(batches, output, rest);
      batches := batches + [output];
    }
  }

  /** No call emits more than a batch. */
  predicate Small(batches: seq<seq<Row>>) { forall b :: 0 <= b < |batches| ==> |batches[b]| <= BATCH }

  lemma FlattenMore(batches: seq<seq<Row>>, output: seq<Row>, rest: seq<Row>)
    ensures Small(batches) && |output| <= BATCH ==> Small(batches + [output])
    ensures Flatten(batches + [output]) + rest == Flatten(batches) + (output + rest)
  {
    assert (batches + [output])[..|batches|] == batches;
  }

  function Flatten(batches: seq<seq<Row>>): seq<Row> {
    if batches == [] then [] else Flatten(batches[..|batches| - 1]) + batches[|batches| - 1]
  }

  // ----- NULLs -----

  lemma PresentKey(lk: seq<KeyCol>, l: Row)
    requires KeysPresent(lk, l)
    ensures ProbeKey(lk, l) == KeyOf(lk, l)
  {
  }

  lemma {:induction false} PresentJoin(hs: Hashing, lk: seq<KeyCol>, rk: seq<KeyCol>, left: seq<Row>, built: seq<Row>)
    requires AllKeysPresent(lk, left)
    ensures HashJoined(hs, lk, rk, left, built) == EquiJoin(lk, rk, left, BoxRows(built))
  {
    if left != [] {
      var n := |left| - 1;
      PresentJoin(hs, lk, rk, left[..n], built);
      PresentKey(lk, left[n]);
    }
  }

  predicate NullFree(rows: seq<Row>) {
    forall i, c :: 0 <= i < |rows| && 0 <= c < |rows[i]| ==> !rows[i][c].Null?
  }

  lemma BoxNullFree(rows: seq<Row>)
    requires NullFree(rows)
    ensures BoxRows(rows) == rows
  {
    forall i | 0 <= i < |rows| ensures BoxRow(rows[i]) == rows[i] {}
  }

  /** Two key lists that can be compared: one left position per key, the same declared types,
      and key columns that every built row has. */
  ghost predicate Comparable(lk: seq<KeyCol>, rk: seq<KeyCol>, built: seq<Row>) {
    && |lk| == |rk| && (forall k :: 0 <= k < |lk| ==> lk[k].ty == rk[k].ty && !lk[k].ty.Invalid?)
    && (forall i, j :: 0 <= i < j < |lk| ==> lk[i].idx != lk[j].idx)
    && (forall i, k :: 0 <= i < |built| && 0 <= k < |rk| ==> rk[k].idx < |built[i]|)
  }

  /** Boxing the build side changes no join with probe rows whose keys are present. */
  ghost predicate BoxHarmless(lk: seq<KeyCol>, rk: seq<KeyCol>, built: seq<Row>) {
    forall left: seq<Row> :: AllKeysPresent(lk, left) ==>
      EquiJoin(lk, rk, left, BoxRows(built)) == EquiJoin(lk, rk, left, built)
  }

  function WidthOf(cols: seq<KeyCol>): (w: nat)
    ensures forall k :: 0 <= k < |cols| ==> cols[k].idx < w
  {
    if cols == [] then 0 else Max(WidthOf(cols[..|cols| - 1]), cols[|cols| - 1].idx + 1)
  }

  /** A row with the given values in the key columns. */
  lemma KeyRow(lk: seq<KeyCol>, key: seq<Value>) returns (l: Row)
    requires |key| == |lk| && (forall i, j :: 0 <= i < j < |lk| ==> lk[i].idx != lk[j].idx)
    requires forall k :: 0 <= k < |lk| ==> lk[k].ty == key[k].ty && !lk[k].ty.Invalid? && !key[k].cell.Null?
    ensures KeysPresent(lk, l) && KeyOf(lk, l) == key
  {
    l := seq(WidthOf(lk), _ => Null);
    for n := 0 to |lk|
      invariant |l| == WidthOf(lk) && forall k :: 0 <= k < n ==> l[lk[k].idx] == key[k].cell
    {
      l := l[lk[n].idx := key[n].cell];
    }
  }

  /** Matching against the unboxed rows finds no more than against the boxed ones, and less
      if it misses a row. */
  lemma {:induction false} FewerMatches(l: Row, key: seq<Value>, rk: seq<KeyCol>, rows: seq<Row>)
    requires forall k :: 0 <= k < |key| ==> !key[k].cell.Null?
    ensures |Matches(l, key, rk, rows)| <= |Matches(l, key, rk, BoxRows(rows))|
    ensures forall i :: 0 <= i < |rows| && KeyOf(rk, BoxRow(rows[i])) == key && KeyOf(rk, rows[i]) != key
              ==> |Matches(l, key, rk, rows)| < |Matches(l, key, rk, BoxRows(rows))|
  {
    if rows != [] {
      var n := |rows| - 1;
      FewerMatches(l, key, rk, rows[..n]);
      assert BoxRows(rows)[..n] == BoxRows(rows[..n]);
      if KeyOf(rk, rows[n]) == key { PresentBoxed(rk, rows[n], key); }
    }
  }

  lemma PresentBoxed(rk: seq<KeyCol>, row: Row, key: seq<Value>)
    requires KeyOf(rk, row) == key && forall k :: 0 <= k < |key| ==> !key[k].cell.Null?
    ensures KeyOf(rk, BoxRow(row)) == key
  {
    forall k | 0 <= k < |rk| ensures KeyOf(rk, BoxRow(row))[k] == key[k] {
      assert KeyOf(rk, row)[k] == key[k];
    }
  }

  lemma {:induction false} MatchedRow(l: Row, key: seq<Value>, rk: seq<KeyCol>, rows: seq<Row>, i: nat)
    requires i < |rows| && KeyOf(rk, rows[i]) == key
    ensures l + rows[i] in Matches(l, key, rk, rows)
  {
    var n := |rows| - 1;
    if i < n { MatchedRow(l, key, rk, rows[..n], i); }
  }

  /** Boxed rows join without NULLs behind the left row. */
  lemma {:induction false} NoNullBehind(l: Row, key: seq<Value>, rk: seq<KeyCol>, rows: seq<Row>)
    ensures forall out: Row <- Matches(l, key, rk, BoxRows(rows)) :: forall c :: |l| <= c < |out| ==> !out[c].Null?
  {
    if rows != [] {
      var n := |rows| - 1;
      NoNullBehind(l, key, rk, rows[..n]);
      assert BoxRows(rows)[..n] == BoxRows(rows[..n]);
      var last := l + BoxRow(rows[n]);
      assert forall c :: |l| <= c < |last| ==> last[c] == BoxRow(rows[n])[c - |l|];
    }
  }

  lemma OneProbe(lk: seq<KeyCol>, rk: seq<KeyCol>, l: Row, right: seq<Row>)
    ensures EquiJoin(lk, rk, [l], right) == Matches(l, KeyOf(lk, l), rk, right)
  {
    assert [l][..0] == [];
  }

  lemma BoxingShows(lk: seq<KeyCol>, rk: seq<KeyCol>, built: seq<Row>, i: nat, c: nat)
    requires Comparable(lk, rk, built) && i < |built| && c < |built[i]| && built[i][c].Null?
    ensures !BoxHarmless(lk, rk, built)
  {
    var r := built[i];
    var key := KeyOf(rk, BoxRow(r));
    var l := KeyRow(lk, key);
    OneProbe(lk, rk, l, built);
    OneProbe(lk, rk, l, BoxRows(built));
    if KeyOf(rk, r) == key {
      MatchedRow(l, key, rk, built, i);
      NoNullBehind(l, key, rk, built);
      assert (l + r)[|l| + c].Null?;
    } else {
      FewerMatches(l, key, rk, built);
    }
    assert AllKeysPresent(lk, [l]);
    assert EquiJoin(lk, rk, [l], BoxRows(built)) != EquiJoin(lk, rk, [l], built);
  }

  /** Boxing the build side leaves every join with present probe keys alone exactly when the
      build side has no NULL, in a key column or not. */
  lemma BoxHarmlessIff(lk: seq<KeyCol>, rk: seq<KeyCol>, built: seq<Row>)
    requires Comparable(lk, rk, built)
    ensures BoxHarmless(lk, rk, built) <==> NullFree(built)
  {
    if NullFree(built) {
      BoxNullFree(built);
    } else {
      var i, c :| 0 <= i < |built| && 0 <= c < |built[i]| && built[i][c].Null?;
      BoxingShows(lk, rk, built, i, c);
    }
  }

  /** A NULL integer key on the build side joins with zero, and comes out as zero. */
  lemma NullKeyJoinsZero()
    ensures
      var k := [KeyCol(0, Int64)];
      && EquiJoin(k, k, [[Int(0)]], BoxRows([[Null]])) == [[Int(0), Int(0)]]
      && EquiJoin(k, k, [[Int(0)]], [[Null]]) == []
  {
    var k, zero, absent := [KeyCol(0, Int64)], [Int(0)], [Null];
    assert BoxRow(absent) == zero;
    assert BoxRows([absent]) == [zero];
    assert KeyOf(k, zero)[0] != KeyOf(k, absent)[0];
    OneMatch(k, zero, zero);
    assert zero + zero == [Int(0), Int(0)];
    OneMatch(k, zero, absent);
  }

  lemma OneMatch(k: seq<KeyCol>, l: Row, r: Row)
    ensures EquiJoin(k, k, [l], [r]) == if KeyOf(k, r) == KeyOf(k, l) then [l + r] else []
  {
    assert [l][..0] == [] && [r][..0] == [];
    assert Matches(l, KeyOf(k, l), k, [r]) == if KeyOf(k, r) == KeyOf(k, l) then [l + r] else [];
  }

  lemma {:induction false} NoMatches(l: Row, key: seq<Value>, rk: seq<KeyCol>, rows: seq<Row>)
    ensures Matches(l, key, rk, rows) == [] <==> forall i :: 0 <= i < |rows| ==> KeyOf(rk, rows[i]) != key
  {
    if rows != [] {
      var n := |rows| - 1;
      NoMatches(l, key, rk, rows[..n]);
      assert forall i :: 0 <= i < n ==> rows[..n][i] == rows[i];
    }
  }

  /** A probe row with a NULL key must join nothing.  It does so exactly when its hash,
      which counts NULL as 0, differs from the hash of the key with zero for NULL, or no
      built row has that key. */
  lemma NullProbeIff(hs: Hashing, lk: seq<KeyCol>, rk: seq<KeyCol>, l: Row, built: seq<Row>)
    requires Comparable(lk, rk, built) && NullFree(built) && !KeysPresent(lk, l)
    ensures EquiJoin(lk, rk, [l], built) == []
    ensures HashJoined(hs, lk, rk, [l], built) == [] <==>
      || hs.OfKey(KeyOf(lk, l)) != hs.OfKey(ProbeKey(lk, l))
      || forall i :: 0 <= i < |built| ==> KeyOf(rk, built[i]) != ProbeKey(lk, l)
  {
    var k :| 0 <= k < |lk| && (lk[k].idx >= |l| || l[lk[k].idx].Null?);
    assert KeyOf(lk, l)[k].cell.Null?;
    forall i | 0 <= i < |built| ensures KeyOf(rk, built[i]) != KeyOf(lk, l) {
      assert !KeyOf(rk, built[i])[k].cell.Null?;
    }
    OneProbe(lk, rk, l, built);
    NoMatches(l, KeyOf(lk, l), rk, built);
    BoxNullFree(built);
    NoMatches(l, ProbeKey(lk, l), rk, built);
    assert [l][..0] == [];
    assert HashJoined(hs, lk, rk, [l], built) == RowJoin(hs, lk, rk, l, built);
  }

  /** With a hash that maps zero to 0, a NULL probe key joins with zero. */
  lemma NullProbeJoinsZero(hs: Hashing)
    requires hs.ofInt(0) == 0
    ensures var k := [KeyCol(0, Int64)]; HashJoined(hs, k, k, [[Null]], [[Int(0)]]) == [[Null, Int(0)]]
  {
    var k := [KeyCol(0, Int64)];
    var zero: Row, absent: Row := [Int(0)], [Null];
    assert [absent][..0] == [] && [zero][..0] == [];
    assert BoxRow(absent) == zero && BoxRow(zero) == zero && BoxRows([zero]) == [zero];
    var a, b := KeyOf(k, absent), ProbeKey(k, absent);
    assert hs.Prefix(a, 0) == 0 && hs.Prefix(b, 0) == 0;
    assert hs.OfKey(a) == hs.mix(0, 0) && hs.OfKey(b) == hs.mix(0, 0);
    assert KeyOf(k, zero) == b && absent + zero == [Null, Int(0)];
    assert Matches(absent, b, k, [zero]) == [absent + zero];
    assert HashJoined(hs, k, k, [absent], [zero]) == RowJoin(hs, k, k, absent, [zero]);
  }
}
