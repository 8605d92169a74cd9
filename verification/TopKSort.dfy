/** The positions of collected rows, their order, and the bounded heap that keeps the k
    smallest of them. */
module TopKSort {
  import opened Cells
  import opened Relational
  import opened ColumnSegments
  import opened SortOrder

  const INT64_MAX: int := 0x7FFF_FFFF_FFFF_FFFF

  // ----- Row positions -----

  datatype Pos = Pos(ci: nat, ri: nat)

  predicate ValidPos(chunks: seq<Chunk>, p: Pos) { p.ci < |chunks| && p.ri < chunks[p.ci].count }

  ghost predicate AllValid(chunks: seq<Chunk>) { forall c <- chunks :: c.Valid() }

  /** Place of a position among all rows. */
  function Index(chunks: seq<Chunk>, p: Pos): nat
    requires AllValid(chunks) && p.ci <= |chunks|
  {
    |Concat(chunks[..p.ci])| + p.ri
  }

  function RowAt(chunks: seq<Chunk>, p: Pos): Row
    requires AllValid(chunks) && ValidPos(chunks, p)
  {
    chunks[p.ci].RowAt(p.ri)
  }

  lemma {:induction false} RowAtIndex(chunks: seq<Chunk>, p: Pos)
    requires AllValid(chunks) && ValidPos(chunks, p)
    ensures Index(chunks, p) < |Concat(chunks)| && Concat(chunks)[Index(chunks, p)] == RowAt(chunks, p)
  {
    var n := |chunks| - 1;
    if p.ci < n {
      RowAtIndex(chunks[..n], p);
      assert chunks[..n][..p.ci] == chunks[..p.ci];
    }
  }

  lemma {:induction false} ConcatGrows(chunks: seq<Chunk>, i: nat, j: nat)
    requires AllValid(chunks) && i < j <= |chunks|
    ensures |Concat(chunks[..i])| + chunks[i].count <= |Concat(chunks[..j])|
  {
    assert chunks[..j][..j - 1] == chunks[..j - 1];
    if i < j - 1 { ConcatGrows(chunks, i, j - 1); }
  }

  lemma IndexOrder(chunks: seq<Chunk>, a: Pos, b: Pos)
    requires AllValid(chunks) && ValidPos(chunks, a) && ValidPos(chunks, b)
    ensures Index(chunks, a) < Index(chunks, b) <==> a.ci < b.ci || (a.ci == b.ci && a.ri < b.ri)
  {
    if a.ci < b.ci { ConcatGrows(chunks, a.ci, b.ci); }
    if b.ci < a.ci { ConcatGrows(chunks, b.ci, a.ci); }
  }

  /** The position of the i-th row. */
  lemma {:induction false} PositionOf(chunks: seq<Chunk>, i: nat) returns (p: Pos)
    requires AllValid(chunks) && i < |Concat(chunks)|
    ensures ValidPos(chunks, p) && Index(chunks, p) == i
  {
    var n := |chunks| - 1;
    var before := |Concat(chunks[..n])|;
    if i < before {
      p := PositionOf(chunks[..n], i);
      assert chunks[..n][..p.ci] == chunks[..p.ci];
    } else {
      p := Pos(n, i - before);
    }
  }

  // ----- Comparison of positions -----

  /** Key values: per key, per chunk, per row. */
  type KeyVecs = seq<seq<seq<Cell>>>

  ghost predicate Evaluated(keys: seq<Expr>, chunks: seq<Chunk>, kv: KeyVecs)
    requires AllValid(chunks)
  {
    && |kv| == |keys|
    && (forall k :: 0 <= k < |keys| ==> |kv[k]| == |chunks|)
    && (forall k, c :: 0 <= k < |keys| && 0 <= c < |chunks| ==> ColumnOf(keys[k], chunks[c], kv[k][c]))
  }

  ghost predicate ColumnOf(key: Expr, chunk: Chunk, v: seq<Cell>)
    requires chunk.Valid()
  {
    |v| == chunk.count && forall r :: 0 <= r < chunk.count ==> v[r] == Eval(key, chunk.RowAt(r))
  }

  predicate InVecs(kv: KeyVecs, p: Pos) {
    forall k :: 0 <= k < |kv| ==> p.ci < |kv[k]| && p.ri < |kv[k][p.ci]|
  }

  function KeyAt(kv: KeyVecs, p: Pos): Row
    requires InVecs(kv, p)
  {
    seq(|kv|, k requires 0 <= k < |kv| => kv[k][p.ci][p.ri])
  }

  /** Keys first, then the original row order. */
  function CompareSortRows(kv: KeyVecs, asc: seq<bool>, a: Pos, b: Pos): int
    requires |kv| == |asc| && InVecs(kv, a) && InVecs(kv, b)
  {
    var c := CompareFrom(asc, KeyAt(kv, a), KeyAt(kv, b), 0);
    if c != 0 then c
    else if a.ci != b.ci then (if a.ci < b.ci then -1 else 1)
    else if a.ri != b.ri then (if a.ri < b.ri then -1 else 1)
    else 0
  }

  /** What a sort works on: the key expressions with their direction and type, the input
      chunks, and the evaluated keys. */
  datatype SortJob = SortJob(keys: seq<Expr>, asc: seq<bool>, kinds: seq<Kind>, chunks: seq<Chunk>, kv: KeyVecs)
  {
    ghost predicate Valid() {
      && AllValid(chunks) && |keys| == |asc| == |kinds| && Evaluated(keys, chunks, kv)
      && AllTyped(kinds, Project(keys, Concat(chunks)))
    }

    predicate Has(p: Pos) { ValidPos(chunks, p) && InVecs(kv, p) && |kv| == |asc| }

    predicate Less(a: Pos, b: Pos)
      requires Has(a) && Has(b)
    {
      CompareSortRows(kv, asc, a, b) < 0
    }

    ghost function Ranks(): Order
      requires AllValid(chunks)
    {
      ByKeys(asc, Project(keys, Concat(chunks)))
    }

    ghost function Count(): nat
      requires AllValid(chunks)
    {
      |Concat(chunks)|
    }
  }

  lemma EvaluatedAt(job: SortJob, p: Pos)
    requires job.Valid() && ValidPos(job.chunks, p)
    ensures job.Has(p) && KeyAt(job.kv, p) == EvalAll(job.keys, RowAt(job.chunks, p))
  {
    forall k | 0 <= k < |job.keys|
      ensures p.ci < |job.kv[k]| && p.ri < |job.kv[k][p.ci]| &&
        job.kv[k][p.ci][p.ri] == Eval(job.keys[k], RowAt(job.chunks, p))
    {
      assert ColumnOf(job.keys[k], job.chunks[p.ci], job.kv[k][p.ci]);
    }
  }

  /** Comparing positions is comparing places in the flattened input. */
  lemma LessIsByKeys(job: SortJob, a: Pos, b: Pos)
    requires job.Valid() && ValidPos(job.chunks, a) && ValidPos(job.chunks, b)
    ensures job.Has(a) && job.Has(b)
    ensures job.Less(a, b) <==> job.Ranks()(Index(job.chunks, a), Index(job.chunks, b))
    ensures a != b ==> Index(job.chunks, a) != Index(job.chunks, b)
    ensures Index(job.chunks, a) < job.Count() && Index(job.chunks, b) < job.Count()
  {
    EvaluatedAt(job, a);
    EvaluatedAt(job, b);
    RowAtIndex(job.chunks, a);
    RowAtIndex(job.chunks, b);
    IndexOrder(job.chunks, a, b);
    IndexOrder(job.chunks, b, a);
    KeyLessStrictTotal(job.kinds, job.asc, Project(job.keys, Concat(job.chunks)));
  }

  /** CompareSortRows is a strict total order on row positions. */
  lemma LessTotal(job: SortJob, a: Pos, b: Pos)
    requires job.Valid() && ValidPos(job.chunks, a) && ValidPos(job.chunks, b)
    ensures job.Has(a) && job.Has(b) && !job.Less(a, a) && (a != b ==> (job.Less(a, b) <==> !job.Less(b, a)))
  {
    LessIsByKeys(job, a, b);
    LessIsByKeys(job, b, a);
    LessIsByKeys(job, a, a);
    KeyLessStrictTotal(job.kinds, job.asc, Project(job.keys, Concat(job.chunks)));
  }

  lemma LessTransitive(job: SortJob, a: Pos, b: Pos, c: Pos)
    requires job.Valid() && ValidPos(job.chunks, a) && ValidPos(job.chunks, b) && ValidPos(job.chunks, c)
    requires job.Has(a) && job.Has(b) && job.Has(c) && job.Less(a, b) && job.Less(b, c)
    ensures job.Less(a, c)
  {
    LessIsByKeys(job, a, b);
    LessIsByKeys(job, b, c);
    LessIsByKeys(job, a, c);
    KeyLessStrictTotal(job.kinds, job.asc, Project(job.keys, Concat(job.chunks)));
  }

  // ----- The heap of the k smallest rows -----

  predicate Distinct(s: seq<Pos>) { forall i, j :: 0 <= i < j < |s| ==> s[i] != s[j] }

  ghost predicate AllHas(job: SortJob, s: seq<Pos>) { forall i :: 0 <= i < |s| ==> job.Has(s[i]) }

  /** The front is the greatest. */
  predicate FrontIsMax(job: SortJob, heap: seq<Pos>)
    requires AllHas(job, heap)
  {
    forall i :: 0 < i < |heap| ==> job.Less(heap[i], heap[0])
  }

  /** Every position before place m that is not kept comes after all that are. */
  ghost predicate Outranks(job: SortJob, m: nat, heap: seq<Pos>)
    requires job.Valid() && AllHas(job, heap)
  {
    forall p: Pos, i :: job.Has(p) && Index(job.chunks, p) < m && p !in heap && 0 <= i < |heap| ==> job.Less(heap[i], p)
  }

  ghost predicate Kept(job: SortJob, k: nat, m: nat, heap: seq<Pos>)
    requires job.Valid()
  {
    && AllHas(job, heap) && Distinct(heap) && FrontIsMax(job, heap) && Outranks(job, m, heap)
    && |heap| == Min(k, m) && (forall i :: 0 <= i < |heap| ==> Index(job.chunks, heap[i]) < m)
    && (|heap| < k ==> Everything(job, m, heap))
  }

  ghost predicate Everything(job: SortJob, m: nat, heap: seq<Pos>)
    requires job.Valid()
  {
    forall p: Pos :: job.Has(p) && Index(job.chunks, p) < m ==> p in heap
  }

  /** push_heap, by what it promises: the new element is in, and the front is the greatest. */
  method PushHeap(job: SortJob, heap: seq<Pos>, x: Pos) returns (out: seq<Pos>)
    requires job.Valid() && AllHas(job, heap) && job.Has(x) && Distinct(heap) && x !in heap && FrontIsMax(job, heap)
    ensures |out| == |heap| + 1 && (forall p :: p in out <==> p == x || p in heap)
    ensures AllHas(job, out) && Distinct(out) && FrontIsMax(job, out)
  {
    if heap == [] {
      return [x];
    }
    LessTotal(job, heap[0], x);
    if job.Less(heap[0], x) {
      out := [x] + heap;
      forall i | 0 < i < |out| ensures job.Less(out[i], x) {
        if i > 1 { LessTransitive(job, heap[i - 1], heap[0], x); }
      }
    } else {
      out := heap + [x];
    }
  }

  /** pop_heap, by what it promises: the old front is gone, and the front is the greatest
      of what remains. */
  method PopHeap(job: SortJob, heap: seq<Pos>) returns (out: seq<Pos>)
    requires job.Valid() && AllHas(job, heap) && Distinct(heap) && heap != []
    ensures |out| == |heap| - 1 && (forall p :: p in out <==> p in heap && p != heap[0])
    ensures AllHas(job, out) && Distinct(out) && FrontIsMax(job, out)
  {
    var rest := heap[1..];
    assert heap == [heap[0]] + rest;
    if rest == [] { return []; }
    var m := Greatest(job, rest);
    out := ToFront(rest, m);
    forall i | 0 < i < |out| ensures job.Less(out[i], out[0]) {
      assert out[i] == rest[if i <= m then i - 1 else i];
    }
  }

  method Greatest(job: SortJob, s: seq<Pos>) returns (m: nat)
    requires job.Valid() && AllHas(job, s) && Distinct(s) && s != []
    ensures m < |s| && forall j :: 0 <= j < |s| && j != m ==> job.Less(s[j], s[m])
  {
    m := 0;
    for i := 1 to |s|
      invariant m < i
      invariant forall j :: 0 <= j < i && j != m ==> job.Less(s[j], s[m])
    {
      LessTotal(job, s[m], s[i]);
      if job.Less(s[m], s[i]) {
        forall j | 0 <= j < i && j != m ensures job.Less(s[j], s[i]) { LessTransitive(job, s[j], s[m], s[i]); }
        m := i;
      }
    }
  }

  function ToFront(s: seq<Pos>, m: nat): (t: seq<Pos>)
    requires m < |s| && Distinct(s)
    ensures |t| == |s| && t[0] == s[m] && Distinct(t) && forall p :: p in t <==> p in s
  {
    assert s == s[..m] + [s[m]] + s[m + 1..];
    [s[m]] + s[..m] + s[m + 1..]
  }

  /** Offer the row at place m to a heap of the k smallest before it. */
  method Offer(job: SortJob, k: nat, heap: seq<Pos>, row: Pos, ghost m: nat) returns (out: seq<Pos>)
    requires job.Valid() && k > 0 && job.Has(row) && Index(job.chunks, row) == m && Kept(job, k, m, heap)
    ensures Kept(job, k, m + 1, out)
  {
    if |heap| < k {
      out := PushHeap(job, heap, row);
      AllKept(job, k, m, heap, row, out);
      return;
    }
    LessTotal(job, row, heap[0]);
    if job.Less(row, heap[0]) {
      var popped := PopHeap(job, heap);
      out := PushHeap(job, popped, row);
      Replaced(job, k, m, heap, row, out);
    } else {
      out := heap;
      Rejected(job, k, m, heap, row);
    }
  }

  lemma PlaceIsUnique(job: SortJob, a: Pos, b: Pos)
    requires job.Valid() && job.Has(a) && job.Has(b) && Index(job.chunks, a) == Index(job.chunks, b)
    ensures a == b
  {
    LessIsByKeys(job, a, b);
  }

  lemma AllKept(job: SortJob, k: nat, m: nat, heap: seq<Pos>, row: Pos, out: seq<Pos>)
    requires job.Valid() && job.Has(row) && Index(job.chunks, row) == m && Kept(job, k, m, heap) && |heap| < k
    requires AllHas(job, out) && Distinct(out) && FrontIsMax(job, out) && |out| == |heap| + 1
    requires forall p :: p in out <==> p == row || p in heap
    ensures Kept(job, k, m + 1, out)
  {
    forall i | 0 <= i < |out| ensures Index(job.chunks, out[i]) < m + 1 { assert out[i] in out; }
    forall p: Pos | job.Has(p) && Index(job.chunks, p) < m + 1 ensures p in out {
      if Index(job.chunks, p) == m { PlaceIsUnique(job, p, row); }
    }
  }

  lemma Replaced(job: SortJob, k: nat, m: nat, heap: seq<Pos>, row: Pos, out: seq<Pos>)
    requires job.Valid() && job.Has(row) && Index(job.chunks, row) == m && Kept(job, k, m, heap) && |heap| == k > 0
    requires job.Less(row, heap[0])
    requires AllHas(job, out) && Distinct(out) && FrontIsMax(job, out) && |out| == k
    requires forall p :: p in out <==> p == row || (p in heap && p != heap[0])
    ensures Kept(job, k, m + 1, out)
  {
    forall i | 0 <= i < |out| ensures Index(job.chunks, out[i]) < m + 1 && job.Less(out[i], heap[0]) {
      assert out[i] in out;
      if out[i] != row { var j :| 0 <= j < |heap| && heap[j] == out[i]; }
    }
    forall p: Pos, i | job.Has(p) && Index(job.chunks, p) < m + 1 && p !in out && 0 <= i < |out|
      ensures job.Less(out[i], p)
    {
      if Index(job.chunks, p) == m { PlaceIsUnique(job, p, row); }
      if p !in heap { LessTransitive(job, out[i], heap[0], p); }
    }
  }

  lemma Rejected(job: SortJob, k: nat, m: nat, heap: seq<Pos>, row: Pos)
    requires job.Valid() && job.Has(row) && Index(job.chunks, row) == m && Kept(job, k, m, heap) && |heap| == k > 0
    requires !job.Less(row, heap[0])
    ensures Kept(job, k, m + 1, heap)
  {
    LessTotal(job, row, heap[0]);
    assert job.Less(heap[0], row);
    forall p: Pos, i | job.Has(p) && Index(job.chunks, p) < m + 1 && p !in heap && 0 <= i < |heap|
      ensures job.Less(heap[i], p)
    {
      if Index(job.chunks, p) == m {
        PlaceIsUnique(job, p, row);
        if i > 0 { LessTransitive(job, heap[i], heap[0], row); }
      }
    }
  }

  // ----- Sorting positions -----

  predicate InOrder(job: SortJob, s: seq<Pos>)
    requires AllHas(job, s)
  {
    forall i, j :: 0 <= i < j < |s| ==> job.Less(s[i], s[j])
  }

  /** std::sort and std::stable_sort, by what they promise. */
  method SortPositions(job: SortJob, s: seq<Pos>) returns (out: seq<Pos>)
    requires job.Valid() && AllHas(job, s) && Distinct(s)
    ensures |out| == |s| && (forall p :: p in out <==> p in s)
    ensures AllHas(job, out) && InOrder(job, out)
  {
    out := [];
    for i := 0 to |s|
      invariant |out| == i && (forall p :: p in out <==> p in s[..i])
      invariant AllHas(job, out) && InOrder(job, out)
    {
      assert s[..i + 1] == s[..i] + [s[i]];
      out := InsertPosition(job, out, s[i]);
    }
    assert s[..|s|] == s;
  }

  method InsertPosition(job: SortJob, s: seq<Pos>, x: Pos) returns (out: seq<Pos>)
    requires job.Valid() && AllHas(job, s) && InOrder(job, s) && job.Has(x) && x !in s
    ensures |out| == |s| + 1 && (forall p :: p in out <==> p == x || p in s)
    ensures AllHas(job, out) && InOrder(job, out)
  {
    var n: nat := |s|;
    while n > 0 && job.Less(x, s[n - 1])
      invariant 0 <= n <= |s| && forall i :: n <= i < |s| ==> job.Less(x, s[i])
    {
      n := n - 1;
      forall i | n <= i < |s| ensures job.Less(x, s[i]) { if n < i { LessTransitive(job, x, s[n], s[i]); } }
    }
    out := s[..n] + [x] + s[n..];
    InsertedInOrder(job, s, x, n);
  }

  lemma InsertedInOrder(job: SortJob, s: seq<Pos>, x: Pos, n: nat)
    requires job.Valid() && AllHas(job, s) && InOrder(job, s) && job.Has(x) && x !in s && n <= |s|
    requires (n > 0 ==> !job.Less(x, s[n - 1])) && forall i :: n <= i < |s| ==> job.Less(x, s[i])
    ensures
      var out := s[..n] + [x] + s[n..];
      AllHas(job, out) && InOrder(job, out) && |out| == |s| + 1 && forall p :: p in out <==> p == x || p in s
  {
    assert s == s[..n] + s[n..];
    forall i | 0 <= i < n ensures job.Less(s[i], x) { BeforeNew(job, s, x, n, i); }
    OrderAround(job, s, x, n);
  }

  lemma OrderAround(job: SortJob, s: seq<Pos>, x: Pos, n: nat)
    requires AllHas(job, s) && InOrder(job, s) && job.Has(x) && n <= |s|
    requires (forall i :: 0 <= i < n ==> job.Less(s[i], x)) && forall i :: n <= i < |s| ==> job.Less(x, s[i])
    ensures
      var out := s[..n] + [x] + s[n..];
      AllHas(job, out) && InOrder(job, out)
  {
  }

  lemma BeforeNew(job: SortJob, s: seq<Pos>, x: Pos, n: nat, i: nat)
    requires job.Valid() && AllHas(job, s) && InOrder(job, s) && job.Has(x) && x !in s && i < n <= |s| &&
      !job.Less(x, s[n - 1])
    ensures job.Less(s[i], x)
  {
    LessTotal(job, x, s[n - 1]);
    assert s[n - 1] in s;
    if i < n - 1 { LessTransitive(job, s[i], s[n - 1], x); }
  }

  function Places(chunks: seq<Chunk>, s: seq<Pos>): seq<nat>
    requires AllValid(chunks) && forall i :: 0 <= i < |s| ==> ValidPos(chunks, s[i])
  {
    seq(|s|, i requires 0 <= i < |s| => (assert ValidPos(chunks, s[i]); Index(chunks, s[i])))
  }

  function RowsAt(chunks: seq<Chunk>, s: seq<Pos>): seq<Row>
    requires AllValid(chunks) && forall i :: 0 <= i < |s| ==> ValidPos(chunks, s[i])
  {
    seq(|s|, i requires 0 <= i < |s| => RowAt(chunks, s[i]))
  }

  lemma PlacesBelow(job: SortJob, s: seq<Pos>)
    requires job.Valid() && AllHas(job, s)
    ensures Below(job.Count(), Places(job.chunks, s)) &&
      At(Concat(job.chunks), Places(job.chunks, s)) == RowsAt(job.chunks, s)
  {
    forall i | 0 <= i < |s|
      ensures Index(job.chunks, s[i]) < job.Count() &&
        Concat(job.chunks)[Index(job.chunks, s[i])] == RowAt(job.chunks, s[i])
    {
      RowAtIndex(job.chunks, s[i]);
    }
  }

  /** Positions in order that exclude only greater ones give the head of the stable sort. */
  lemma InOrderIsPrefix(job: SortJob, s: seq<Pos>)
    requires job.Valid() && AllHas(job, s) && InOrder(job, s) && Outranks(job, job.Count(), s)
    ensures |s| <= |StableSort(job.keys, job.asc, Concat(job.chunks))|
    ensures RowsAt(job.chunks, s) == StableSort(job.keys, job.asc, Concat(job.chunks))[..|s|]
  {
    var places := Places(job.chunks, s);
    PlacesBelow(job, s);
    forall i, j | 0 <= i < j < |s| ensures job.Ranks()(places[i], places[j]) { LessIsByKeys(job, s[i], s[j]); }
    forall i: nat, k | i < job.Count() && i !in places && 0 <= k < |places| ensures job.Ranks()(places[k], i) {
      var p := PositionOf(job.chunks, i);
      EvaluatedAt(job, p);
      forall j | 0 <= j < |s| ensures s[j] != p { assert places[j] in places; }
      LessIsByKeys(job, s[k], p);
    }
    LowestIsPrefix(job.kinds, job.keys, job.asc, Concat(job.chunks), places);
  }
}
