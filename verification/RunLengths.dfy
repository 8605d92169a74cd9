/** Run-length encoding of integer vectors with NULLs. */
module RunLengths {
  import opened Cells
  import opened ColumnSegments
  import opened Bits
  import opened Codecs

  const TAG_NULL: nat := 0
  const TAG_VALUE: nat := 1

  /** `count` cells in a row that are all NULL, or all the same integer. */
  datatype Run = Run(cell: Cell, count: nat)

  predicate RunOk(r: Run) {
    0 < r.count < Pow256(4) && (r.cell.Null? || (r.cell.Int? && IsInt64(r.cell.i)))
  }

  ghost predicate RunsOk(runs: seq<Run>) { forall i :: 0 <= i < |runs| ==> RunOk(runs[i]) }

  function RunBytes(r: Run): Bytes
    requires RunOk(r)
  {
    if r.cell.Null? then [TAG_NULL] + LeBytes(r.count, 4)
    else [TAG_VALUE] + LeBytes(ToU64(r.cell.i), 8) + LeBytes(r.count, 4)
  }

  function Pieces(runs: seq<Run>): seq<Bytes>
    requires RunsOk(runs)
  {
    seq(|runs|, i requires 0 <= i < |runs| => RunBytes(runs[i]))
  }

  function Repeat(c: Cell, n: nat): Vector { seq(n, _ => c) }

  function Expand(runs: seq<Run>): Vector {
    if runs == [] then [] else Expand(runs[..|runs| - 1]) + Repeat(runs[|runs| - 1].cell, runs[|runs| - 1].count)
  }

  function Ints(values: seq<int>): Vector { seq(|values|, i requires 0 <= i < |values| => Int(values[i])) }

  // ----- Encoding -----

  /** Length of the longest run of cells equal to the one at i, given that n of them are. */
  function RunLength(v: Vector, i: nat, n: nat): (r: nat)
    requires i < i + n <= |v|
    ensures n <= r <= |v| - i && (forall k :: i + n <= k < i + r ==> v[k] == v[i])
    ensures i + r < |v| ==> v[i + r] != v[i]
    decreases |v| - i - n
  {
    if i + n < |v| && v[i + n] == v[i] then RunLength(v, i, n + 1) else n
  }

  function RunAt(v: Vector, i: nat): Run
    requires i < |v|
  {
    Run(v[i], RunLength(v, i, 1))
  }

  /** The longest runs from cell i on. */
  function RunsFrom(v: Vector, i: nat): seq<Run>
    requires i <= |v|
    decreases |v| - i
  {
    if i == |v| then [] else [RunAt(v, i)] + RunsFrom(v, i + RunAt(v, i).count)
  }

  function RunsOf(v: Vector): seq<Run> { RunsFrom(v, 0) }

  ghost predicate Cells64(v: Vector) {
    |v| < Pow256(4) && forall k :: 0 <= k < |v| ==> v[k].Null? || (v[k].Int? && IsInt64(v[k].i))
  }

  /** The longest runs expand to the vector. */
  lemma {:induction false} RunsExpand(v: Vector, i: nat)
    requires i <= |v|
    ensures Expand(RunsFrom(v, i)) == v[i..]
    decreases |v| - i
  {
    if i < |v| {
      RunsExpand(v, i + RunAt(v, i).count);
      ExpandRun(v, i);
    } else {
      assert RunsFrom(v, i) == [] && v[i..] == [];
    }
  }

  lemma ExpandRun(v: Vector, i: nat)
    requires i < |v| && Expand(RunsFrom(v, i + RunAt(v, i).count)) == v[i + RunAt(v, i).count..]
    ensures Expand(RunsFrom(v, i)) == v[i..]
  {
    var rest := RunsFrom(v, i + RunAt(v, i).count);
    assert RunsFrom(v, i) == [RunAt(v, i)] + rest;
    ExpandFirst(RunAt(v, i), rest);
    RunCells(v, i);
  }

  lemma RunCells(v: Vector, i: nat)
    requires i < |v|
    ensures v[i..] == Repeat(v[i], RunAt(v, i).count) + v[i + RunAt(v, i).count..]
  {
  }

  /** No run could be longer: two runs in a row hold different cells. */
  lemma {:induction false} RunsDiffer(v: Vector, i: nat, k: nat)
    requires i <= |v| && k + 1 < |RunsFrom(v, i)|
    ensures RunsFrom(v, i)[k].cell != RunsFrom(v, i)[k + 1].cell
    decreases |v| - i
  {
    var next := i + RunAt(v, i).count;
    if k == 0 {
      assert RunsFrom(v, i)[1] == RunsFrom(v, next)[0] == RunAt(v, next);
    } else {
      RunsDiffer(v, next, k - 1);
    }
  }

  lemma {:induction false} ExpandFirst(r: Run, rest: seq<Run>)
    ensures Expand([r] + rest) == Repeat(r.cell, r.count) + Expand(rest)
  {
    if rest == [] {
      assert [r] + rest == [r] && [r][..0] == [];
    } else {
      var n := |rest| - 1;
      ExpandFirst(r, rest[..n]);
      assert ([r] + rest)[..n + 1] == [r] + rest[..n];
    }
  }

  method CountRun(v: Vector, i: nat) returns (run: nat)
    requires i < |v|
    ensures run == RunAt(v, i).count
  {
    run := 1;
    while i + run < |v| && v[i + run] == v[i]
      invariant 0 < run && i + run <= |v| && RunLength(v, i, run) == RunLength(v, i, 1)
    {
      run := run + 1;
    }
  }

  lemma JoinRun(runs: seq<Run>, r: Run)
    requires RunsOk(runs) && RunOk(r)
    ensures RunsOk(runs + [r]) && Join(Pieces(runs + [r])) == Join(Pieces(runs)) + RunBytes(r)
  {
    assert Pieces(runs + [r]) == Pieces(runs) + [RunBytes(r)];
    JoinMore(Pieces(runs), RunBytes(r));
  }

  method EmitRun(bytes: Bytes, cell: Cell, run: nat, ghost runs: seq<Run>) returns (out: Bytes)
    requires RunsOk(runs) && RunOk(Run(cell, run)) && bytes == Join(Pieces(runs))
    ensures RunsOk(runs + [Run(cell, run)]) && out == Join(Pieces(runs + [Run(cell, run)]))
  {
    JoinRun(runs, Run(cell, run));
    if cell.Null? {
      out := bytes + ([TAG_NULL] + LeBytes(run, 4));
    } else {
      out := bytes + ([TAG_VALUE] + LeBytes(ToU64(cell.i), 8) + LeBytes(run, 4));
    }
  }

  lemma TakeRun(v: Vector, i: nat, runs: seq<Run>)
    requires i < |v| && Cells64(v) && runs + RunsFrom(v, i) == RunsOf(v)
    ensures RunOk(RunAt(v, i)) && runs + [RunAt(v, i)] + RunsFrom(v, i + RunAt(v, i).count) == RunsOf(v)
  {
    assert runs + ([RunAt(v, i)] + RunsFrom(v, i + RunAt(v, i).count)) ==
      runs + [RunAt(v, i)] + RunsFrom(v, i + RunAt(v, i).count);
  }

  /** The bytes of the longest runs of the vector, NULLs included. */
  method RleEncode(values: seq<int>, bitmap: Bytes) returns (bytes: Bytes)
    requires |bitmap| == BitmapBytes(|values|) && |values| < Pow256(4)
    requires forall i :: 0 <= i < |values| ==> IsInt64(values[i])
    ensures
      var runs := RunsOf(Under(bitmap, Ints(values)));
      RunsOk(runs) && bytes == Join(Pieces(runs))
  {
    var v := Under(bitmap, Ints(values));
    bytes := EncodeRuns(v);
  }

  method EncodeRuns(v: Vector) returns (bytes: Bytes)
    requires Cells64(v)
    ensures RunsOk(RunsOf(v)) && bytes == Join(Pieces(RunsOf(v)))
  {
    bytes := [];
    ghost var runs: seq<Run> := [];
    var i := 0;
    while i < |v|
      invariant i <= |v| && RunsOk(runs) && bytes == Join(Pieces(runs)) && runs + RunsFrom(v, i) == RunsOf(v)
    {
      TakeRun(v, i, runs);
      var run := CountRun(v, i);
      bytes := EmitRun(bytes, v[i], run, runs);
      runs := runs + [RunAt(v, i)];
      i := i + run;
    }
    assert runs + [] == runs;
  }

  // ----- Decoding -----

  lemma FilledNulls(payload: Vector, bitmap: Bytes, done: Vector, n: nat)
    requires Filled(payload, bitmap, done) && |done| + n <= |payload|
    ensures Filled(payload, bitmap, done + Repeat(Null, n))
  {
  }

  method FillValue(before: Vector, beforeMap: Bytes, x: int, outI: nat, count: nat, ghost done: Vector)
      returns (payload: Vector, bitmap: Bytes)
    requires Filled(before, beforeMap, done) && outI == |done| && outI + count <= |before|
    ensures |payload| == |before| && Filled(payload, bitmap, done + Repeat(Int(x), count))
  {
    payload, bitmap := before, beforeMap;
    assert done + Repeat(Int(x), 0) == done;
    for k := 0 to count
      invariant |payload| == |before| && Filled(payload, bitmap, done + Repeat(Int(x), k))
    {
      ghost var now := done + Repeat(Int(x), k);
      FilledOne(payload, bitmap, now, Int(x));
      assert now + [Int(x)] == done + Repeat(Int(x), k + 1);
      payload, bitmap := payload[outI + k := Int(x)], SetBit(bitmap, outI + k);
    }
  }

  lemma {:induction false} ExpandPrefix(runs: seq<Run>, j: nat)
    requires j <= |runs| && RunsOk(runs)
    ensures |Expand(runs[..j])| <= |Expand(runs)| &&
      (j < |runs| ==> |Expand(runs[..j])| + runs[j].count <= |Expand(runs)|)
  {
    var n := |runs| - 1;
    if j < n {
      ExpandPrefix(runs[..n], j);
      assert runs[..n][..j] == runs[..j];
    } else if j == |runs| {
      assert runs[..j] == runs;
    }
  }

  /** Decoding the runs gives back their cells. */
  method RleDecode(src: Bytes, n: nat, ghost runs: seq<Run>) returns (payload: Vector, bitmap: Bytes)
    requires RunsOk(runs) && Join(Pieces(runs)) <= src && |Expand(runs)| == n
    ensures |payload| == n && |bitmap| == BitmapBytes(n) && Under(bitmap, payload) == Expand(runs)
  {
    payload, bitmap := EmptyRows(n);
    var pos, outI := 0, 0;
    ghost var j, pieces := 0, Pieces(runs);
    assert src[0..] == src;
    while outI < n
      invariant j <= |runs| && pos == |Join(pieces[..j])| && |payload| == n
      invariant outI == |Expand(runs[..j])| && Filled(payload, bitmap, Expand(runs[..j]))
      decreases n - outI
    {
      MoreRuns(runs, j);
      PieceAt(src, 0, pieces, j);
      payload, bitmap, pos, outI := DecodeRun(src, pos, outI, payload, bitmap, runs[j], Expand(runs[..j]));
      j := j + 1;
    }
    ExpandAll(runs, j);
    FilledIsUnder(payload, bitmap, Expand(runs));
  }

  method EmptyRows(n: nat) returns (payload: Vector, bitmap: Bytes)
    ensures |payload| == n && Filled(payload, bitmap, [])
  {
    payload, bitmap := Repeat(Int(0), n), seq(BitmapBytes(n), _ => 0);
    forall p: nat | p < n ensures !BufBit(bitmap, p) { ZeroBits(p % 8); }
  }

  lemma MoreRuns(runs: seq<Run>, j: nat)
    requires j <= |runs| && RunsOk(runs) && |Expand(runs[..j])| < |Expand(runs)|
    ensures j < |runs| && |Expand(runs[..j])| + runs[j].count <= |Expand(runs)|
    ensures Expand(runs[..j + 1]) == Expand(runs[..j]) + Repeat(runs[j].cell, runs[j].count)
  {
    ExpandPrefix(runs, j);
    assert runs[..|runs|] == runs;
    assert runs[..j + 1][..j] == runs[..j];
  }

  lemma ExpandAll(runs: seq<Run>, j: nat)
    requires j <= |runs| && RunsOk(runs) && |Expand(runs[..j])| >= |Expand(runs)|
    ensures Expand(runs[..j]) == Expand(runs)
  {
    ExpandPrefix(runs, j);
    assert j == |runs|;
    assert runs[..j] == runs;
  }

  /** One run: tag, value, count. */
  method DecodeRun(src: Bytes, at: nat, outI: nat, before: Vector, beforeMap: Bytes, ghost r: Run, ghost done: Vector)
    returns (payload: Vector, bitmap: Bytes, pos: nat, next: nat)
    requires RunOk(r) && at <= |src| && RunBytes(r) <= src[at..]
    requires Filled(before, beforeMap, done) && outI == |done| && outI + r.count <= |before|
    ensures |payload| == |before| && Filled(payload, bitmap, done + Repeat(r.cell, r.count))
    ensures pos == at + |RunBytes(r)| && next == outI + r.count
  {
    var cell, count;
    cell, count, pos := ReadRun(src, at, r);
    if cell.Null? {
      FilledNulls(before, beforeMap, done, count);
      payload, bitmap := before, beforeMap;
    } else {
      payload, bitmap := FillValue(before, beforeMap, cell.i, outI, count, done);
    }
    next := outI + count;
  }

  method ReadRun(src: Bytes, at: nat, ghost r: Run) returns (cell: Cell, count: nat, pos: nat)
    requires RunOk(r) && at <= |src| && RunBytes(r) <= src[at..]
    ensures cell == r.cell && count == r.count && pos == at + |RunBytes(r)|
  {
    assert src[at] == src[at..][0];
    if src[at] == TAG_NULL {
      SliceAt(src, at, RunBytes(r), 1, 4);
      count := ReadStored(src, at + 1, 4, r.count);
      cell, pos := Null, at + 5;
    } else {
      SliceAt(src, at, RunBytes(r), 1, 8);
      SliceAt(src, at, RunBytes(r), 9, 4);
      var x := ReadSigned(src, at + 1, r.cell.i);
      count := ReadStored(src, at + 9, 4, r.count);
      cell, pos := Int(x), at + 13;
    }
  }
}
