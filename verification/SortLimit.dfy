/** The operators of ORDER BY ... LIMIT ... OFFSET: the sort sink, the sort source, the
    limit, the planner's top-k hint, and the pipeline made of them. */
module SortLimit {
  import opened Cells
  import opened Relational
  import opened ColumnSegments
  import opened SortOrder
  import opened TopKSort

  // ----- The sink -----

  ghost predicate Sortable(keys: seq<Expr>, asc: seq<bool>, kinds: seq<Kind>, chunks: seq<Chunk>) {
    && AllValid(chunks) && |keys| == |asc| == |kinds|
    && (forall k, c :: 0 <= k < |keys| && 0 <= c < |chunks| ==> RefsBelow(keys[k], |chunks[c].columns|))
    && AllTyped(kinds, Project(keys, Concat(chunks)))
  }

  method EvaluateKeys(keys: seq<Expr>, chunks: seq<Chunk>) returns (kv: KeyVecs)
    requires AllValid(chunks)
    requires forall k, c :: 0 <= k < |keys| && 0 <= c < |chunks| ==> RefsBelow(keys[k], |chunks[c].columns|)
    ensures Evaluated(keys, chunks, kv)
  {
    kv := [];
    for k := 0 to |keys|
      invariant |kv| == k && forall b :: 0 <= b < k ==> |kv[b]| == |chunks|
      invariant forall b, c :: 0 <= b < k && 0 <= c < |chunks| ==> ColumnOf(keys[b], chunks[c], kv[b][c])
    {
      var vecs: seq<seq<Cell>> := [];
      for c := 0 to |chunks|
        invariant |vecs| == c && forall d :: 0 <= d < c ==> ColumnOf(keys[k], chunks[d], vecs[d])
      {
        var v := Evaluate(keys[k], chunks[c]);
        vecs := vecs + [v];
      }
      kv := kv + [vecs];
    }
  }

  /** All positions in row order. */
  method AllPositions(job: SortJob) returns (s: seq<Pos>)
    requires job.Valid()
    ensures AllHas(job, s) && Distinct(s) && |s| == job.Count() && Everything(job, job.Count(), s)
  {
    s := [];
    for ci := 0 to |job.chunks|
      invariant Listed(job, |Concat(job.chunks[..ci])|, s)
    {
      var c := job.chunks[ci];
      for ri := 0 to c.count
        invariant Listed(job, Index(job.chunks, Pos(ci, ri)), s)
      {
        EvaluatedAt(job, Pos(ci, ri));
        ListOne(job, Pos(ci, ri), s);
        s := s + [Pos(ci, ri)];
      }
      assert job.chunks[..ci + 1][..ci] == job.chunks[..ci];
    }
    assert job.chunks[..|job.chunks|] == job.chunks;
  }

  ghost predicate Listed(job: SortJob, m: nat, s: seq<Pos>)
    requires job.Valid()
  {
    && AllHas(job, s) && Distinct(s) && |s| == m && Everything(job, m, s)
    && forall i :: 0 <= i < |s| ==> Index(job.chunks, s[i]) < m
  }

  lemma ListOne(job: SortJob, p: Pos, s: seq<Pos>)
    requires job.Valid() && job.Has(p) && Listed(job, Index(job.chunks, p), s)
    ensures Listed(job, Index(job.chunks, p) + 1, s + [p])
  {
    var m := Index(job.chunks, p);
    forall q: Pos | job.Has(q) && Index(job.chunks, q) < m + 1 ensures q in s + [p] {
      if Index(job.chunks, q) == m { PlaceIsUnique(job, q, p); }
    }
  }

  /** The heap loop over all rows. */
  method TopK(job: SortJob, k: nat) returns (heap: seq<Pos>)
    requires job.Valid() && k > 0
    ensures Kept(job, k, job.Count(), heap)
  {
    heap := [];
    for ci := 0 to |job.chunks|
      invariant Kept(job, k, |Concat(job.chunks[..ci])|, heap)
    {
      var c := job.chunks[ci];
      for ri := 0 to c.count
        invariant Kept(job, k, Index(job.chunks, Pos(ci, ri)), heap)
      {
        EvaluatedAt(job, Pos(ci, ri));
        heap := Offer(job, k, heap, Pos(ci, ri), Index(job.chunks, Pos(ci, ri)));
      }
      assert job.chunks[..ci + 1][..ci] == job.chunks[..ci];
    }
    assert job.chunks[..|job.chunks|] == job.chunks;
  }

  lemma {:induction false} StableSortLength(keys: seq<Expr>, asc: seq<bool>, rows: seq<Row>)
    requires |keys| == |asc|
    ensures |StableSort(keys, asc, rows)| == |rows|
  {
    if rows != [] {
      var n := |rows| - 1;
      StableSortLength(keys, asc, rows[..n]);
      InsertLength(keys, asc, rows[n], StableSort(keys, asc, rows[..n]));
    }
  }

  lemma {:induction false} InsertLength(keys: seq<Expr>, asc: seq<bool>, x: Row, s: seq<Row>)
    requires |keys| == |asc|
    ensures |InsertRow(keys, asc, x, s)| == |s| + 1
  {
    if s != [] { InsertLength(keys, asc, x, s[..|s| - 1]); }
  }

  /** `out` are the rows at the places p, without the first `offset` of them and, if the limit
      is not negative, no more than `limit` of the rest. */
  ghost predicate Window(rows: seq<Row>, p: seq<nat>, limit: int, offset: int, out: seq<Row>) {
    var skip := if offset < 0 then 0 else if offset < |p| then offset else |p|;
    && |out| == (if 0 <= limit < |p| - skip then limit else |p| - skip)
    && forall i :: 0 <= i < |out| ==> p[skip + i] < |rows| && out[i] == rows[p[skip + i]]
  }

  lemma LimitIsWindow(rows: seq<Row>, p: seq<nat>, limit: int, offset: int)
    requires forall i :: 0 <= i < |p| ==> p[i] < |rows|
    ensures Window(rows, p, limit, offset, LimitRows(limit, offset, At(rows, p)))
  {
  }

  /** Rows of a window of the input in the order asked for. */
  ghost predicate SortedWindow(keys: seq<Expr>, asc: seq<bool>, rows: seq<Row>, limit: int, offset: int,
      out: seq<Row>)
  {
    exists p: seq<nat> :: SortedPositions(keys, asc, rows, p) && Window(rows, p, limit, offset, out)
  }

  lemma SortAndLimit(kinds: seq<Kind>, keys: seq<Expr>, asc: seq<bool>, rows: seq<Row>, limit: int, offset: int)
    requires |keys| == |asc| == |kinds| && AllTyped(kinds, Project(keys, rows))
    ensures SortedWindow(keys, asc, rows, limit, offset, LimitRows(limit, offset, StableSort(keys, asc, rows)))
  {
    var p := StableSortMeaning(kinds, keys, asc, rows);
    LimitIsWindow(rows, p, limit, offset);
  }

  /** What the sink keeps: everything, or only the first topK rows. */
  function Head(topK: int, rows: seq<Row>): seq<Row> {
    if topK < 0 then rows else rows[..Min(topK, |rows|)]
  }

  lemma HeadIsLimit(topK: int, rows: seq<Row>)
    ensures Head(topK, rows) == LimitRows(topK, 0, rows)
  {
    assert rows[0..] == rows;
  }

  /** The order the sink leaves behind, read back as rows. */
  method ComputeOrder(keys: seq<Expr>, asc: seq<bool>, kinds: seq<Kind>, topK: int, chunks: seq<Chunk>)
      returns (order: seq<Pos>)
    requires Sortable(keys, asc, kinds, chunks)
    ensures forall i :: 0 <= i < |order| ==> ValidPos(chunks, order[i])
    ensures RowsAt(chunks, order) == Head(topK, StableSort(keys, asc, Concat(chunks)))
    ensures SortedWindow(keys, asc, Concat(chunks), topK, 0, RowsAt(chunks, order))
  {
    var kv := EvaluateKeys(keys, chunks);
    var job := SortJob(keys, asc, kinds, chunks, kv);
    StableSortLength(keys, asc, Concat(chunks));
    SortAndLimit(kinds, keys, asc, Concat(chunks), topK, 0);
    HeadIsLimit(topK, StableSort(keys, asc, Concat(chunks)));
    if topK == 0 {
      order := [];
    } else if topK > 0 {
      var heap := TopK(job, topK);
      order := SortPositions(job, heap);
      StillOutranks(job, heap, order);
      InOrderIsPrefix(job, order);
    } else {
      var all := AllPositions(job);
      order := SortPositions(job, all);
      InOrderIsPrefix(job, order);
    }
  }

  lemma StillOutranks(job: SortJob, heap: seq<Pos>, order: seq<Pos>)
    requires job.Valid() && AllHas(job, heap) && AllHas(job, order) && Outranks(job, job.Count(), heap)
    requires forall p :: p in order <==> p in heap
    ensures Outranks(job, job.Count(), order)
  {
    forall p: Pos, i | job.Has(p) && Index(job.chunks, p) < job.Count() && p !in order && 0 <= i < |order|
      ensures job.Less(order[i], p)
    {
      assert order[i] in order;
      var j :| 0 <= j < |heap| && heap[j] == order[i];
    }
  }

  /** The sink collects chunks and leaves the sorted order for the source. */
  class SortBuffer {
    var chunks: seq<Chunk>
    var sortedOrder: seq<Pos>
    var sorted: bool

    constructor ()
      ensures chunks == [] && !sorted
    {
      chunks, sortedOrder, sorted := [], [], false;
    }

    ghost predicate Valid()
      reads this
    {
      AllValid(chunks) && (sorted ==> forall i :: 0 <= i < |sortedOrder| ==> ValidPos(chunks, sortedOrder[i]))
    }

    /** Rows in the order left by the sort. */
    ghost function Result(): seq<Row>
      requires Valid() && sorted
      reads this
    {
      RowsAt(chunks, sortedOrder)
    }

    method Consume(input: Chunk)
      requires Valid() && !sorted && input.Valid()
      modifies this`chunks
      ensures Valid() && Concat(chunks) == old(Concat(chunks)) + input.Rows()
      ensures chunks == old(chunks) + if input.count == 0 then [] else [input]
    {
      if input.count == 0 {
        return;
      }
      assert (chunks + [input])[..|chunks|] == chunks;
      chunks := chunks + [input];
    }

    method Finalize(keys: seq<Expr>, asc: seq<bool>, kinds: seq<Kind>, topK: int)
      requires Valid() && Sortable(keys, asc, kinds, chunks)
      modifies this`sortedOrder, this`sorted
      ensures Valid() && sorted && Result() == Head(topK, StableSort(keys, asc, Concat(chunks)))
      ensures SortedWindow(keys, asc, Concat(chunks), topK, 0, Result())
    {
      sortedOrder := ComputeOrder(keys, asc, kinds, topK, chunks);
      sorted := true;
    }
  }

  class SortSource {
    const buf: SortBuffer
    var next: nat

    constructor (buf: SortBuffer)
      ensures this.buf == buf && next == 0
    {
      this.buf, next := buf, 0;
    }

    /** The next at most 1024 rows, and whether they were the last. */
    method GetData() returns (finished: bool, output: seq<Row>)
      requires buf.Valid() && buf.sorted && next <= |buf.sortedOrder|
      modifies this
      ensures old(next) <= next <= |buf.sortedOrder| && output == buf.Result()[old(next)..next] &&
        |output| <= VECTOR_SIZE
      ensures finished <==> next == |buf.sortedOrder|
      ensures !finished ==> next > old(next)
    {
      output := [];
      var emitted := 0;
      while next < |buf.sortedOrder| && emitted < VECTOR_SIZE
        invariant old(next) <= next <= |buf.sortedOrder| && emitted == |output| == next - old(next) <= VECTOR_SIZE
        invariant output == buf.Result()[old(next)..next]
        decreases |buf.sortedOrder| - next
      {
        var p := buf.sortedOrder[next];
        output := output + [RowAt(buf.chunks, p)];
        emitted, next := emitted + 1, next + 1;
      }
      finished := next >= |buf.sortedOrder|;
    }
  }

  // ----- LIMIT and OFFSET -----

  class PhysicalLimit {
    const limit: int
    const offset: int
    var rowsSkipped: int
    var rowsEmitted: int

    constructor (limit: int, offset: int)
      ensures this.limit == limit && this.offset == offset && After([])
    {
      this.limit, this.offset, rowsSkipped, rowsEmitted := limit, offset, 0, 0;
    }

    /** The counters after the rows seen so far. */
    ghost predicate After(seen: seq<Row>)
      reads this
    {
      && rowsSkipped == Min(Max(0, offset), |seen|)
      && rowsEmitted == |LimitRows(limit, offset, seen)|
    }

    /** Drop the rows the offset still takes. */
    method ApplyOffset(input: seq<Row>, ghost seen: nat) returns (kept: seq<Row>)
      requires rowsSkipped == Min(Max(0, offset), seen)
      modifies this`rowsSkipped
      ensures rowsSkipped == Min(Max(0, offset), seen + |input|)
      ensures kept == input[Skipped(offset, seen, |input|)..]
    {
      ghost var cut := Max(0, Max(0, offset) - seen);
      kept := [];
      for i := 0 to |input|
        invariant rowsSkipped == old(rowsSkipped) + if i <= cut then i else cut
        invariant kept == if i <= cut then [] else input[cut..i]
      {
        if offset > 0 && rowsSkipped < offset {
          rowsSkipped := rowsSkipped + 1;
        } else {
          kept := kept + [input[i]];
        }
      }
    }

    /** One chunk: its share of the limited rows, and whether no later row can matter. */
    method Execute(input: seq<Row>, ghost seen: seq<Row>) returns (finished: bool, output: seq<Row>)
      requires After(seen)
      modifies this`rowsSkipped, this`rowsEmitted
      ensures LimitRows(limit, offset, seen + input) == LimitRows(limit, offset, seen) + output
      ensures !finished ==> After(seen + input)
      ensures finished ==> limit >= 0 && |LimitRows(limit, offset, seen + input)| == limit
    {
      var kept := ApplyOffset(input, |seen|);
      LimitStep(limit, offset, seen, input);
      ghost var done, share := LimitRows(limit, offset, seen), Share(limit, rowsEmitted, kept);
      assert LimitRows(limit, offset, seen + input) == done + share;
      if kept == [] {
        assert done + share == done;
        return false, [];
      }
      if limit >= 0 {
        var remaining := limit - rowsEmitted;
        if remaining <= 0 {
          assert done + share == done;
          return true, [];
        }
        if |kept| > remaining { kept := kept[..remaining]; }
      }
      output := kept;
      rowsEmitted := rowsEmitted + |kept|;
      finished := limit >= 0 && rowsEmitted >= limit;
    }
  }

  /** How many of the next n rows the offset still takes, after `seen` rows. */
  function Skipped(offset: int, seen: nat, n: nat): (k: nat)
    ensures k <= n
  {
    Max(0, Min(n, Max(0, offset) - seen))
  }

  /** How much of the rows behind the offset the limit still lets through. */
  function Share(limit: int, emitted: nat, kept: seq<Row>): (r: seq<Row>)
    ensures r <= kept
  {
    if limit < 0 then kept else if limit <= emitted then [] else kept[..Min(limit - emitted, |kept|)]
  }

  /** The limited rows of a longer input: those so far, then the new rows behind the offset
      up to the limit. */
  lemma LimitStep(limit: int, offset: int, seen: seq<Row>, input: seq<Row>)
    ensures
      var done := LimitRows(limit, offset, seen);
      LimitRows(limit, offset, seen + input) == done + Share(limit, |done|, input[Skipped(offset, |seen|, |input|)..])
    ensures limit >= 0 ==> |LimitRows(limit, offset, seen)| <= limit
  {
    var skip, skip' := Min(Max(0, offset), |seen|), Min(Max(0, offset), |seen + input|);
    var kept := input[Skipped(offset, |seen|, |input|)..];
    assert (seen + input)[skip'..] == seen[skip..] + kept;
  }

  // ----- The planned pipeline -----

  /** PlanLimit's hint: limit plus offset, saturating; no hint without a limit. */
  function TopKHint(limit: int, offset: int): int
    requires limit <= INT64_MAX && offset <= INT64_MAX
  {
    if limit < 0 then -1
    else
      var eff := Max(0, offset);
      if limit > INT64_MAX - eff then INT64_MAX else limit + eff
  }

  /** Rows beyond the hint never reach the output. */
  lemma HintKeepsLimit(limit: int, offset: int, rows: seq<Row>)
    requires limit <= INT64_MAX && offset <= INT64_MAX && |rows| <= INT64_MAX
    ensures LimitRows(limit, offset, Head(TopKHint(limit, offset), rows)) == LimitRows(limit, offset, rows)
  {
    var head := Head(TopKHint(limit, offset), rows);
    if limit >= 0 {
      var skip, skip' := Min(Max(0, offset), |rows|), Min(Max(0, offset), |head|);
      assert |head| < |rows| ==> |head| == limit + Max(0, offset);
    }
  }

  /** A projection between the sort and the limit does not change which rows are needed. */
  lemma HintThroughProjection(es: seq<Expr>, limit: int, offset: int, rows: seq<Row>)
    requires limit <= INT64_MAX && offset <= INT64_MAX && |rows| <= INT64_MAX
    ensures LimitRows(limit, offset, Project(es, Head(TopKHint(limit, offset), rows))) ==
      LimitRows(limit, offset, Project(es, rows))
  {
    var k := TopKHint(limit, offset);
    assert Project(es, Head(k, rows)) == Head(k, Project(es, rows));
    HintKeepsLimit(limit, offset, Project(es, rows));
  }

  /** Read the source into the limit until either is finished. */
  method Drain(buf: SortBuffer, limit: int, offset: int) returns (rows: seq<Row>)
    requires buf.Valid() && buf.sorted
    ensures rows == LimitRows(limit, offset, buf.Result())
  {
    var source := new SortSource(buf);
    var op := new PhysicalLimit(limit, offset);
    ghost var all := buf.Result();
    rows := [];
    var done := false;
    while !done
      invariant source.buf == buf && source.next <= |buf.sortedOrder| == |all|
      invariant op.limit == limit && op.offset == offset
      invariant !done ==> op.After(all[..source.next]) && rows == LimitRows(limit, offset, all[..source.next])
      invariant done ==> rows == LimitRows(limit, offset, all)
      decreases !done, |all| - source.next
    {
      ghost var seen := all[..source.next];
      var finished, input := source.GetData();
      assert seen + input == all[..source.next];
      var full, output := op.Execute(input, seen);
      rows := rows + output;
      if full { FullIsFinal(limit, offset, all, source.next); }
      if finished { assert all[..source.next] == all; }
      done := full || finished;
    }
  }

  lemma FullIsFinal(limit: int, offset: int, all: seq<Row>, n: nat)
    requires n <= |all| && limit >= 0 && |LimitRows(limit, offset, all[..n])| == limit
    ensures LimitRows(limit, offset, all) == LimitRows(limit, offset, all[..n])
  {
    assert all == all[..n] + all[n..];
    LimitStep(limit, offset, all[..n], all[n..]);
  }

  /** ORDER BY with LIMIT and OFFSET, for any chunking of the input: the stable sort of all
      rows, then the limit. */
  method OrderByLimit(keys: seq<Expr>, asc: seq<bool>, kinds: seq<Kind>, limit: int, offset: int, chunks: seq<Chunk>)
      returns (rows: seq<Row>)
    requires Sortable(keys, asc, kinds, chunks) && limit <= INT64_MAX && offset <= INT64_MAX &&
      |Concat(chunks)| <= INT64_MAX
    ensures rows == LimitRows(limit, offset, StableSort(keys, asc, Concat(chunks)))
    ensures SortedWindow(keys, asc, Concat(chunks), limit, offset, rows)
  {
    var buf := new SortBuffer();
    for i := 0 to |chunks|
      invariant buf.Valid() && !buf.sorted && Concat(buf.chunks) == Concat(chunks[..i])
      invariant forall c <- buf.chunks :: c in chunks
    {
      assert chunks[..i + 1][..i] == chunks[..i];
      buf.Consume(chunks[i]);
    }
    assert chunks[..|chunks|] == chunks;
    assert forall c :: 0 <= c < |buf.chunks| ==> buf.chunks[c] in chunks;
    assert Sortable(keys, asc, kinds, buf.chunks);
    buf.Finalize(keys, asc, kinds, TopKHint(limit, offset));
    rows := Drain(buf, limit, offset);
    StableSortLength(keys, asc, Concat(chunks));
    HintKeepsLimit(limit, offset, StableSort(keys, asc, Concat(chunks)));
    SortAndLimit(kinds, keys, asc, Concat(chunks), limit, offset);
  }
}
