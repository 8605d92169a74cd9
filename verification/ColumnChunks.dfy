/** One column of a row group: compressed segments followed by a pending vector.

    The specification is one flat sequence of cells, `Rows()`.  The codec is a parameter, and
    the methods ask that it be lossless on exactly the vectors they compress.  Beside the
    rows the chunk keeps a zone map, the minimum and maximum of each segment. */
module ColumnChunks {
  import opened Cells
  import opened Relational
  import opened ColumnSegments

  /** Every full vector that appending to `v` may compress comes back unchanged. */
  ghost predicate LosslessBlocks(codec: Codec, v: Vector) {
    forall i: nat :: i + VECTOR_SIZE <= |v| ==> codec.load(BlockAt(v, i)) == BlockAt(v, i)
  }

  function BlockAt(v: Vector, i: nat): Vector
    requires i + VECTOR_SIZE <= |v|
  {
    v[i..i + VECTOR_SIZE]
  }

  function Reload(codec: Codec, seg: Segment, v: Vector): Vector {
    if seg.plain then codec.loadPlain(v) else codec.load(v)
  }

  /** Rows moved into segments when n rows are appended behind p pending ones. */
  function FlushedRows(p: nat, n: nat): nat {
    if n == 0 || p + n <= VECTOR_SIZE then 0 else (p + n - 1) / VECTOR_SIZE * VECTOR_SIZE
  }

  /** Values of one run of offsets, each written at its place in the window that starts at `from`. */
  method WriteWindow(window: Vector, from: nat, offsets: seq<nat>, vals: Vector) returns (out: Vector)
    requires |offsets| == |vals| && AllWithin(offsets, from, from + |window|)
    ensures out == PutAll(window, Local(offsets, from), vals)
  {
    out := window;
    ghost var local := Local(offsets, from);
    for i := 0 to |offsets|
      invariant |out| == |window| && out == PutAll(window, local[..i], vals[..i])
    {
      assert local[..i + 1][..i] == local[..i] && vals[..i + 1][..i] == vals[..i];
      out := out[offsets[i] - from := vals[i]];
    }
    assert local[..|local|] == local && vals[..|vals|] == vals;
  }

  class ColumnChunk {
    const codec: Codec
    const kind: Kind
    var segments: seq<Segment>
    var pending: Vector
    var combined: Stats

    constructor (codec: Codec, kind: Kind)
      ensures Valid() && StatsOk() && segments == [] && pending == [] && combined == NO_STATS
      ensures this.codec == codec && this.kind == kind
    {
      this.codec, this.kind := codec, kind;
      segments, pending, combined := [], [], NO_STATS;
    }

    ghost predicate Valid()
      reads this
    {
      && |pending| <= VECTOR_SIZE
      && (forall j :: 0 <= j < |segments| ==> 0 < |segments[j].data| && StatsOfKind(kind, segments[j].stats))
      && OfKind(kind, Rows()) && StatsOfKind(kind, combined)
    }

    ghost function Rows(): Vector
      reads this
    {
      Flat(segments) + pending
    }

    /** The zone map is sound: each segment's statistics cover it, and the running ones
        cover what is still pending. */
    ghost predicate StatsOk()
      reads this
    {
      AllCovered(segments) && Covers(combined, pending)
    }

    // ----- Reading -----

    /** A scan cursor; one past the pending vector means the end was reached. */
    ghost predicate Cursor(seg: nat, row: nat)
      reads this
    {
      || (seg < |segments| && row < |segments[seg].data|)
      || (seg == |segments| && row <= |pending|)
      || (seg == |segments| + 1 && row == 0)
    }

    ghost function Position(seg: nat, row: nat): nat
      requires Cursor(seg, row)
      reads this
    {
      if seg <= |segments| then Start(segments, seg) + row else |Rows()|
    }

    method MakeScanState(offset: nat) returns (seg: nat, row: nat)
      requires Valid() && offset <= |Rows()|
      ensures Cursor(seg, row) && Position(seg, row) == offset && seg <= |segments|
    {
      var cur := 0;
      for i := 0 to |segments|
        invariant cur == Start(segments, i) <= offset
      {
        StartNext(segments, i);
        var end := cur + |segments[i].data|;
        if offset < end { return i, offset - cur; }
        cur := end;
      }
      StartMono(segments, 0);
      return |segments|, offset - cur;
    }

    /** One turn of the scan: up to `want` rows of the current segment, or of the pending
        vector behind the last one. */
    method ScanPart(seg: nat, row: nat, want: nat) returns (seg': nat, row': nat, part: Vector)
      requires Valid() && Cursor(seg, row) && want > 0 && seg <= |segments|
      ensures
        var p := Position(seg, row);
        && p + |part| <= |Rows()| && |part| <= want && part == Rows()[p..p + |part|]
        && Cursor(seg', row') && Position(seg', row') == p + |part|
        && (part == [] ==> p == |Rows()|)
    {
      if seg < |segments| {
        var available := |segments[seg].data| - row;
        var n := Min(want, available);
        SegmentSlice(segments, pending, seg, row, n);
        StartNext(segments, seg);
        part := segments[seg].data[row..row + n];
        if row + n >= |segments[seg].data| { seg', row' := seg + 1, 0; } else { seg', row' := seg, row + n; }
      } else {
        StartMono(segments, |segments|);
        var available := |pending| - row;
        var n := Min(want, available);
        part := pending[row..row + n];
        if n > 0 && row + n >= |pending| { seg', row' := seg + 1, 0; } else { seg', row' := seg, row + n; }
      }
    }

    /** From any cursor: exactly the next `count` rows, or as many as there are, across
        however many segments; the cursor then stands behind them. */
    method Scan(seg0: nat, row0: nat, count: nat) returns (seg: nat, row: nat, out: Vector)
      requires Valid() && Cursor(seg0, row0)
      ensures
        var p := Position(seg0, row0);
        && p <= |Rows()| && out == Rows()[p..Min(p + count, |Rows()|)]
        && Cursor(seg, row) && Position(seg, row) == p + |out|
    {
      seg, row, out := seg0, row0, [];
      ghost var p, rows := Position(seg0, row0), Rows();
      CursorInside(seg0, row0);
      while |out| < count && seg <= |segments|
        invariant |out| <= count && Cursor(seg, row)
        invariant PartFrom(rows, p, out) && Position(seg, row) == p + |out|
        decreases count - |out|
      {
        var part;
        seg, row, part := ScanPart(seg, row, count - |out|);
        if part == [] { break; }
        Extend(rows, p, out, part);
        out := out + part;
      }
      WholePart(rows, p, out, count);
    }

    lemma CursorInside(seg: nat, row: nat)
      requires Valid() && Cursor(seg, row)
      ensures Position(seg, row) <= |Rows()|
    {
      StartMono(segments, |segments|);
      if seg < |segments| { SegmentSlice(segments, pending, seg, row, 0); }
    }

    /** The rows at the given ascending offsets, in that order. */
    method ScanRows(offsets: seq<nat>) returns (out: Vector)
      requires Valid() && Ascending(offsets) && forall k :: 0 <= k < |offsets| ==> offsets[k] < |Rows()|
      ensures |out| == |offsets| && forall k :: 0 <= k < |out| ==> out[k] == Rows()[offsets[k]]
    {
      out := [];
      var from, seg := 0, 0;
      while seg < |segments| && |out| < |offsets|
        invariant 0 <= seg <= |segments| && from == Start(segments, seg) && Gathered(Rows(), offsets, out)
        invariant |out| < |offsets| ==> from <= offsets[|out|]
        decreases |segments| - seg
      {
        StartNext(segments, seg);
        out := ReadSegment(seg, from, offsets, out);
        from := from + |segments[seg].data|;
        seg := seg + 1;
      }
      StartMono(segments, 0);
      while |out| < |offsets|
        invariant Gathered(Rows(), offsets, out) && (|out| < |offsets| ==> from == |Flat(segments)| <= offsets[|out|])
      {
        assert |out| + 1 < |offsets| ==> offsets[|out|] <= offsets[|out| + 1];
        out := out + [pending[offsets[|out|] - from]];
      }
    }

    /** The next offsets, as far as they fall into one segment. */
    method ReadSegment(seg: nat, from: nat, offsets: seq<nat>, before: Vector) returns (out: Vector)
      requires Valid() && Ascending(offsets) && (forall k :: 0 <= k < |offsets| ==> offsets[k] < |Rows()|)
      requires seg < |segments| && from == Start(segments, seg) && Gathered(Rows(), offsets, before)
      requires |before| < |offsets| ==> from <= offsets[|before|]
      ensures Gathered(Rows(), offsets, out)
      ensures |out| < |offsets| ==> from + |segments[seg].data| <= offsets[|out|]
    {
      out := before;
      var data := segments[seg].data;
      var end := from + |data|;
      while |out| < |offsets| && offsets[|out|] < end
        invariant Gathered(Rows(), offsets, out) && (|out| < |offsets| ==> from <= offsets[|out|])
        decreases |offsets| - |out|
      {
        assert |out| + 1 < |offsets| ==> offsets[|out|] <= offsets[|out| + 1];
        SegmentCell(segments, pending, seg, offsets[|out|] - from);
        out := out + [data[offsets[|out|] - from]];
      }
    }

    // ----- Appending -----

    /** Compress the pending vector into a new segment stamped with the running statistics. */
    method Flush()
      requires Valid() && (pending != [] ==> codec.load(pending) == pending)
      modifies this
      ensures Valid() && Rows() == old(Rows()) && pending == [] && combined == old(combined)
      ensures segments == old(segments) + if old(pending) == [] then []
        else [Segment(old(pending), codec.picksPlain(old(pending)), combined)]
      ensures old(StatsOk()) ==> StatsOk()
    {
      if pending == [] { return; }
      var seg := Segment(codec.load(pending), codec.picksPlain(pending), combined);
      FlatAppend(segments, seg);
      segments := segments + [seg];
      pending := [];
      assert Rows() == old(Rows());
    }

    /** One turn of the append: make room if the pending vector is full, then copy what fits. */
    method AppendBatch(vec: Vector, at: nat, ghost base: seq<Segment>, ghost first: Vector, ghost all: Vector,
        ghost done: nat)
      returns (at': nat, ghost done': nat)
      requires Valid() && at < |vec| && OfKind(kind, vec) && LosslessBlocks(codec, all)
      requires Progress(base, segments, pending, combined, all, done) && done + |pending| + |vec| - at == |all|
      requires all == first + vec
      modifies this
      ensures Valid() && at < at' <= |vec| && combined == old(combined) && pending != []
      ensures Progress(base, segments, pending, combined, all, done') && done' + |pending| + |vec| - at' == |all|
    {
      done' := MakeRoom(base, all, done);
      var space := VECTOR_SIZE - |pending|;
      var n := Min(|vec| - at, space);
      assert vec[at..at + n] == all[|first| + at..|first| + at + n];
      CopyProgress(base, segments, pending, combined, all, done', vec[at..at + n]);
      ghost var before := Rows();
      pending := pending + vec[at..at + n];
      assert Rows() == before + vec[at..at + n];
      at' := at + n;
    }

    /** Flush the pending vector if it is full. */
    method MakeRoom(ghost base: seq<Segment>, ghost all: Vector, ghost done: nat) returns (ghost done': nat)
      requires Valid() && LosslessBlocks(codec, all) && Progress(base, segments, pending, combined, all, done)
      requires done + |pending| <= |all|
      modifies this
      ensures Valid() && combined == old(combined) && |pending| < VECTOR_SIZE && Rows() == old(Rows())
      ensures Progress(base, segments, pending, combined, all, done') && done' + |pending| == done + old(|pending|)
    {
      done' := done;
      if |pending| >= VECTOR_SIZE {
        assert pending == BlockAt(all, done);
        FlushProgress(base, segments, pending, combined, all, done, codec.picksPlain(pending));
        Flush();
        done' := done + VECTOR_SIZE;
      }
    }

    /** Appending concatenates.  The zone map stays sound exactly when the statistics kept
        before the call already cover the rows that the call itself moves into segments:
        those segments are stamped before `vec` is counted. */
    method AppendFromVector(vec: Vector)
      requires Valid() && OfKind(kind, vec) && LosslessBlocks(codec, pending + vec)
      modifies this
      ensures Valid() && Rows() == old(Rows()) + vec && combined == AddStats(old(combined), vec)
      ensures |Flat(segments)| == |Flat(old(segments))| + FlushedRows(|old(pending)|, |vec|)
      ensures old(StatsOk()) ==>
        (StatsOk() <==> Covers(old(combined), (old(pending) + vec)[..FlushedRows(|old(pending)|, |vec|)]))
    {
      var at := 0;
      ghost var all, base := pending + vec, segments;
      ghost var done: nat := 0;
      while at < |vec|
        invariant 0 <= at <= |vec| && Valid() && combined == old(combined)
        invariant Progress(base, segments, pending, combined, all, done) && done + |pending| + |vec| - at == |all|
        invariant (at == 0 ==> done == 0) && (at > 0 ==> pending != [])
      {
        at, done := AppendBatch(vec, at, base, old(pending), all, done);
      }
      FlushedCount(|old(pending)|, |vec|, done, |pending|);
      CompletedRows(base, segments, pending, combined, all, done);
      Associate(Flat(base), old(pending), vec);
      AppendedStats(kind, base, segments, old(pending), pending, combined, vec, done);
      UpdateCombinedStats(vec);
    }

    /** Fold the appended vector into the running statistics. */
    method UpdateCombinedStats(vec: Vector)
      requires Valid() && OfKind(kind, vec)
      modifies this`combined
      ensures combined == AddStats(old(combined), vec) && Valid()
    {
      ghost var start := combined;
      for i := 0 to |vec|
        invariant combined == AddStats(start, vec[..i])
      {
        assert vec[..i + 1][..i] == vec[..i];
        combined := AddStat(combined, vec[i]);
      }
      assert vec[..|vec|] == vec;
      AddStatsCovers(kind, start, vec, []);
    }

    method TruncatePending(count: nat)
      requires Valid()
      modifies this
      ensures Valid() && Rows() == old(Rows())[..Min(|Flat(segments)| + count, |old(Rows())|)]
      ensures segments == old(segments) && combined == old(combined)
      ensures old(StatsOk()) ==> StatsOk()
    {
      if count >= |pending| {
        assert old(Rows())[..|old(Rows())|] == old(Rows());
        return;
      }
      pending := pending[..count];
      assert Rows() == old(Rows())[..|Flat(segments)| + count];
    }

    /** Take back what was appended behind row `start`, as far as it is still pending. */
    method RevertTo(start: nat)
      requires Valid() && start <= |Rows()|
      modifies this
      ensures Valid() && segments == old(segments) && Rows() == old(Rows())[..Max(start, |Flat(segments)|)]
    {
      var sealed := |Flat(segments)|;
      if start >= sealed {
        TruncatePending(start - sealed);
      } else {
        TruncatePending(0);
      }
    }

    /** An append, and its rollback.  The rows it moved into a segment stay behind, so the
        column is as before exactly when the append did not straddle a flush. */
    method AppendAndRevert(vec: Vector)
      requires Valid() && OfKind(kind, vec) && LosslessBlocks(codec, pending + vec)
      modifies this
      ensures Valid() && Rows() == old(Rows()) + vec[..LeftBehind(|old(pending)|, |vec|)]
      ensures Rows() == old(Rows()) <==> !Straddles(|old(pending)|, |vec|)
    {
      var start := |Flat(segments)| + |pending|;
      ghost var rows := Rows();
      AppendFromVector(vec);
      RevertTo(start);
      StraddlesIff(|old(pending)|, |vec|);
      KeptBehind(rows, vec, LeftBehind(|old(pending)|, |vec|));
    }

    /** How many rows from `offset` on the zone map lets a scan skip: all that remain of the
        segment, or none.  With a sound zone map no skipped row satisfies the predicate. */
    method ZoneMapSkipRows(offset: nat, p: Comparison) returns (skip: nat)
      requires Valid() && p.Typed()
      ensures skip == ZoneSkip(segments, offset, 0, p)
      ensures StatsOk() ==> NoMatch(Rows(), offset, skip, p)
      ensures skip > 0 ==> exists j :: 0 <= j < |segments| && RestOfSegment(segments, j, offset, skip)
    {
      var cur := 0;
      for j := 0 to |segments|
        invariant cur == Start(segments, j) <= offset || j == 0 == cur
        invariant cur <= offset && ZoneSkip(segments, offset, 0, p) == ZoneSkip(segments, offset, j, p)
      {
        StartNext(segments, j);
        var end := cur + |segments[j].data|;
        if offset < end {
          skip := if Excludes(segments[j].stats, p) then end - offset else 0;
          if skip > 0 {
            assert RestOfSegment(segments, j, offset, skip);
            if StatsOk() { SkippedRows(kind, segments, pending, j, offset, p); }
          }
          return;
        }
        cur := end;
      }
      return 0;
    }

    // ----- Overwriting -----

    /** Decompress one segment, overwrite rows in it, compress it again, rebuild its
        statistics.  Nothing outside the segment changes. */
    method WriteSegment(j: nat, from: nat, offsets: seq<nat>, vals: Vector)
      requires Valid() && j < |segments| && from == Start(segments, j)
      requires |offsets| == |vals| && OfKind(kind, vals) && AllWithin(offsets, from, from + |segments[j].data|)
      requires Kept(codec, segments[j], PutAll(segments[j].data, Local(offsets, from), vals))
      modifies this`segments
      ensures Valid() && Rows() == PutAll(old(Rows()), offsets, vals)
      ensures SameShape(old(segments), segments) && segments == old(segments)[j := segments[j]]
      ensures Covers(segments[j].stats, segments[j].data)
    {
      var seg := segments[j];
      var updated := WriteWindow(seg.data, from, offsets, vals);
      RewrittenStats(kind, segments, pending, j, offsets, vals, updated);
      var stats := BuildStats(updated, kind);
      var plain := if seg.plain then true else codec.picksPlain(updated);
      var data := if seg.plain then codec.loadPlain(updated) else codec.load(updated);
      RewriteRows(segments, pending, j, offsets, vals, Segment(data, plain, stats));
      PutAllKind(kind, Rows(), offsets, vals);
      segments := segments[j := Segment(data, plain, stats)];
    }

    /** One turn of that walk: the leading offsets that fall into segment j. */
    method WriteNextSegment(j: nat, cur: nat, left: seq<nat>, leftVals: Vector, ghost final: Vector) returns (stop: nat)
      requires Valid() && OfKind(kind, leftVals) && |left| == |leftVals| && Ascending(left)
      requires j < |segments| && cur == Start(segments, j) && left != [] && cur <= left[0]
      requires final == PutAll(Rows(), left, leftVals) && Kept(codec, segments[j], Window(segments, final, j))
      modifies this`segments
      ensures Valid() && SameShape(old(segments), segments) && segments == old(segments)[j := segments[j]]
      ensures stop <= |left| && forall i :: 0 <= i < stop ==> left[i] < cur + |segments[j].data|
      ensures stop < |left| ==> cur + |segments[j].data| <= left[stop]
      ensures final == PutAll(Rows(), left[stop..], leftVals[stop..])
      ensures Covers(old(segments)[j].stats, old(segments)[j].data) ==> Covers(segments[j].stats, segments[j].data)
    {
      stop := FirstAtLeast(left, cur + |segments[j].data|);
      WindowOfRest(segments, pending, j, left, leftVals, stop);
      PutAllSplit(Rows(), left, leftVals, stop);
      if stop > 0 {
        WriteSegment(j, cur, left[..stop], leftVals[..stop]);
      } else {
        assert PutAll(Rows(), left[..0], leftVals[..0]) == Rows();
      }
    }

    /** The part of WriteRows that walks the segments; returns what is left for the pending
        vector.  `final` is the outcome the whole call is after. */
    method WriteSegments(offsets: seq<nat>, vals: Vector, ghost final: Vector)
        returns (left: seq<nat>, leftVals: Vector, cur: nat)
      requires Valid() && OfKind(kind, vals) && |offsets| == |vals| && Ascending(offsets)
      requires final == PutAll(Rows(), offsets, vals) && LosslessWrites(codec, segments, final)
      modifies this`segments
      ensures Valid() && SameShape(old(segments), segments)
      ensures Rest(kind, offsets, left, leftVals) && final == PutAll(Rows(), left, leftVals)
      ensures left != [] ==> cur == |Flat(segments)| <= left[0]
      ensures forall i :: 0 <= i < |offsets| - |left| ==> offsets[i] < |Flat(segments)|
      ensures AllCovered(old(segments)) ==> AllCovered(segments)
    {
      left, leftVals, cur := offsets, vals, 0;
      var j := 0;
      while j < |segments| && left != []
        invariant Walking(old(segments), offsets, final, j, left, leftVals, cur)
        decreases |segments| - j
      {
        left, leftVals, cur := WalkOn(old(segments), offsets, final, j, left, leftVals, cur);
        j := j + 1;
      }
      StartMono(segments, j);
    }

    /** Where the walk stands before segment j. */
    ghost predicate Walking(before: seq<Segment>, offsets: seq<nat>, final: Vector, j: nat, left: seq<nat>,
        leftVals: Vector, cur: nat)
      reads this
    {
      && j <= |segments| && Valid() && SameShape(before, segments) && Rest(kind, offsets, left, leftVals)
      && cur == Start(segments, j) && (left != [] ==> cur <= left[0])
      && (forall i :: 0 <= i < |offsets| - |left| ==> offsets[i] < cur)
      && final == PutAll(Rows(), left, leftVals)
      && (forall i :: j <= i < |segments| ==> segments[i] == before[i])
      && (AllCovered(before) ==> AllCovered(segments))
    }

    method WalkOn(ghost before: seq<Segment>, ghost offsets: seq<nat>, ghost final: Vector, j: nat, left0: seq<nat>,
        leftVals0: Vector, cur0: nat)
      returns (left: seq<nat>, leftVals: Vector, cur: nat)
      requires Walking(before, offsets, final, j, left0, leftVals0, cur0) && j < |segments| && left0 != []
      requires LosslessWrites(codec, before, final)
      modifies this`segments
      ensures Walking(before, offsets, final, j + 1, left, leftVals, cur) && |segments| == |old(segments)|
    {
      ghost var was := segments;
      StartNext(segments, j);
      var end := cur0 + |segments[j].data|;
      SameShapeWindow(before, segments, final, j);
      var stop := WriteNextSegment(j, cur0, left0, leftVals0, final);
      SameShapeStart(was, segments, j + 1);
      RestDrop(kind, offsets, left0, leftVals0, stop);
      left, leftVals, cur := left0[stop..], leftVals0[stop..], end;
    }

    /** Point updates, in order, and nothing else.  A size mismatch or a descending offset is
        refused before anything is written; an offset past the end is refused after the
        updates before it, which is all that the updates in range amount to.  Segments get new
        statistics and the pending vector does not, so the zone map stays sound exactly when
        the old running statistics cover what is pending afterwards. */
    method WriteRows(offsets: seq<nat>, vals: Vector) returns (ok: bool)
      requires Valid() && OfKind(kind, vals)
      requires |offsets| == |vals| ==> LosslessWrites(codec, segments, PutAll(Rows(), offsets, vals))
      modifies this
      ensures Valid() && combined == old(combined) && SameShape(old(segments), segments)
      ensures offsets == [] ==> ok && Rows() == old(Rows())
      ensures offsets != [] ==>
        (ok <==>
          && |offsets| == |vals| && Ascending(offsets)
          && forall i :: 0 <= i < |offsets| ==> offsets[i] < |old(Rows())|)
      ensures |offsets| == |vals| && Ascending(offsets) ==> Rows() == PutAll(old(Rows()), offsets, vals)
      ensures !(|offsets| == |vals| && Ascending(offsets)) ==> Rows() == old(Rows())
      ensures old(StatsOk()) && |offsets| == |vals| && Ascending(offsets) ==>
        (StatsOk() <==> Covers(combined, PutAll(old(Rows()), offsets, vals)[|Flat(old(segments))|..]))
      ensures old(StatsOk()) && !(|offsets| == |vals| && Ascending(offsets)) ==> StatsOk()
    {
      if offsets == [] { return true; }
      if |vals| != |offsets| { return false; }
      var sorted := IsAscending(offsets);
      if !sorted { return false; }
      ok := WriteSorted(offsets, vals);
    }

    method WriteSorted(offsets: seq<nat>, vals: Vector) returns (ok: bool)
      requires Valid() && OfKind(kind, vals) && |offsets| == |vals| && Ascending(offsets)
      requires LosslessWrites(codec, segments, PutAll(Rows(), offsets, vals))
      modifies this`segments, this`pending
      ensures Valid() && SameShape(old(segments), segments)
      ensures Rows() == PutAll(old(Rows()), offsets, vals)
      ensures ok <==> forall i :: 0 <= i < |offsets| ==> offsets[i] < |old(Rows())|
      ensures old(StatsOk()) ==>
        (StatsOk() <==> Covers(combined, PutAll(old(Rows()), offsets, vals)[|Flat(old(segments))|..]))
    {
      ghost var final := PutAll(Rows(), offsets, vals);
      var left, leftVals, cur := WriteSegments(offsets, vals, final);
      SameShapeSize(old(segments), segments);
      RestDrop(kind, offsets, left, leftVals, |left|);
      ok := WritePending(left, leftVals, cur);
      assert pending == final[|Flat(old(segments))|..];
      if !ok {
        ghost var i :| 0 <= i < |left| && left[i] >= |final|;
        assert offsets[|offsets| - |left| + i] == left[i];
      }
    }

    /** The offsets behind the last segment, one by one; stops at the first past the end. */
    method WritePending(offsets: seq<nat>, vals: Vector, cur: nat) returns (ok: bool)
      requires Valid() && OfKind(kind, vals) && |offsets| == |vals| && Ascending(offsets)
      requires offsets != [] ==> cur == |Flat(segments)| <= offsets[0]
      modifies this`pending
      ensures Valid() && Rows() == PutAll(old(Rows()), offsets, vals)
      ensures offsets == [] ==> pending == old(pending)
      ensures ok <==> forall i :: 0 <= i < |offsets| ==> offsets[i] < |old(Rows())|
    {
      for i := 0 to |offsets|
        invariant Valid() && |pending| == |old(pending)| && (i == 0 ==> pending == old(pending))
        invariant Rows() == PutAll(old(Rows()), offsets[..i], vals[..i])
        invariant forall k :: 0 <= k < i ==> offsets[k] < |old(Rows())|
      {
        ghost var now := Rows();
        assert offsets[..i + 1][..i] == offsets[..i] && vals[..i + 1][..i] == vals[..i];
        assert offsets[0] <= offsets[i];
        if offsets[i] - cur >= |pending| {
          PutAllPastEnd(old(Rows()), offsets, vals, i);
          return false;
        }
        PutKind(kind, now, offsets[i], vals, i);
        pending := pending[offsets[i] - cur := vals[i]];
        assert Rows() == Put(now, offsets[i], vals[i]);
      }
      assert offsets[..|offsets|] == offsets && vals[..|vals|] == vals;
      return true;
    }
  }

  // ----- Facts about overwriting -----

  /** The rows of segment j within the rows of the whole chunk. */
  function Window(segs: seq<Segment>, rows: Vector, j: nat): Vector
    requires j < |segs|
  {
    var s, e := Start(segs, j), Start(segs, j) + |segs[j].data|;
    if e <= |rows| then rows[s..e] else []
  }

  predicate Kept(codec: Codec, seg: Segment, v: Vector) { Reload(codec, seg, v) == v }

  /** Compressing each segment's new contents again is lossless. */
  ghost predicate LosslessWrites(codec: Codec, segs: seq<Segment>, rows: Vector) {
    forall j :: 0 <= j < |segs| ==> Kept(codec, segs[j], Window(segs, rows, j))
  }

  ghost predicate SameShape(a: seq<Segment>, b: seq<Segment>) {
    |a| == |b| && forall j :: 0 <= j < |a| ==> |a[j].data| == |b[j].data|
  }

  lemma {:induction false} SameShapeStart(a: seq<Segment>, b: seq<Segment>, j: nat)
    requires SameShape(a, b) && j <= |a|
    ensures Start(a, j) == Start(b, j)
  {
    if j > 0 {
      SameShapeStart(a, b, j - 1);
      StartNext(a, j - 1);
      StartNext(b, j - 1);
    }
  }

  lemma SameShapeSize(a: seq<Segment>, b: seq<Segment>)
    requires SameShape(a, b)
    ensures |Flat(a)| == |Flat(b)|
  {
    SameShapeStart(a, b, |a|);
    StartMono(a, 0);
    StartMono(b, 0);
  }

  lemma SameShapeWindow(a: seq<Segment>, b: seq<Segment>, rows: Vector, j: nat)
    requires SameShape(a, b) && j < |a|
    ensures Window(a, rows, j) == Window(b, rows, j)
  {
    SameShapeStart(a, b, j);
  }

  /** What is left to write: a suffix of the offsets, with its values. */
  ghost predicate Rest(k: Kind, offsets: seq<nat>, left: seq<nat>, leftVals: Vector) {
    && |left| == |leftVals| && Ascending(left) && OfKind(k, leftVals)
    && |left| <= |offsets| && left == offsets[|offsets| - |left|..]
  }

  lemma RestDrop(k: Kind, offsets: seq<nat>, left: seq<nat>, leftVals: Vector, n: nat)
    requires Rest(k, offsets, left, leftVals) && n <= |left|
    ensures Rest(k, offsets, left[n..], leftVals[n..])
    ensures forall i :: |offsets| - |left| <= i < |offsets| - |left| + n ==>
      offsets[i] == left[i - (|offsets| - |left|)]
  {
  }

  lemma PutKind(k: Kind, rows: Vector, offset: nat, vals: Vector, i: nat)
    requires OfKind(k, rows) && OfKind(k, vals) && i < |vals|
    ensures OfKind(k, Put(rows, offset, vals[i]))
  {
    assert vals[i] in vals;
    forall c | c in Put(rows, offset, vals[i]) ensures HasKind(k, c) { assert c in rows || c == vals[i]; }
  }

  lemma SegmentKind(k: Kind, segs: seq<Segment>, tail: Vector, j: nat)
    requires j < |segs| && OfKind(k, Flat(segs) + tail)
    ensures OfKind(k, segs[j].data)
  {
    FlatSlice(segs, j);
    forall c | c in segs[j].data ensures HasKind(k, c) { assert c in Flat(segs) + tail; }
  }

  lemma RewrittenStats(k: Kind, segs: seq<Segment>, tail: Vector, j: nat, offsets: seq<nat>, vals: Vector,
      updated: Vector)
    requires j < |segs| && OfKind(k, Flat(segs) + tail) && |offsets| == |vals| && OfKind(k, vals)
    requires AllWithin(offsets, Start(segs, j), Start(segs, j) + |segs[j].data|)
    requires updated == PutAll(segs[j].data, Local(offsets, Start(segs, j)), vals)
    ensures OfKind(k, updated)
    ensures StatsOfKind(k, AddStats(NO_STATS, updated)) && Covers(AddStats(NO_STATS, updated), updated)
  {
    SegmentKind(k, segs, tail, j);
    PutAllKind(k, segs[j].data, Local(offsets, Start(segs, j)), vals);
    AddStatsCovers(k, NO_STATS, updated, []);
    assert [] + updated == updated;
  }

  predicate AllWithin(offsets: seq<nat>, from: nat, to: nat) {
    forall i :: 0 <= i < |offsets| ==> from <= offsets[i] < to
  }

  /** Offsets counted from the start of a window. */
  function Local(offsets: seq<nat>, from: nat): (r: seq<nat>)
    requires forall i :: 0 <= i < |offsets| ==> from <= offsets[i]
    ensures |r| == |offsets| && forall i :: 0 <= i < |r| ==> r[i] == offsets[i] - from
  {
    seq(|offsets|, i requires 0 <= i < |offsets| => offsets[i] - from)
  }

  method IsAscending(offsets: seq<nat>) returns (yes: bool)
    ensures yes <==> Ascending(offsets)
  {
    if offsets == [] { return true; }
    for i := 1 to |offsets|
      invariant forall x, y :: 0 <= x < y < i ==> offsets[x] <= offsets[y]
    {
      if offsets[i] < offsets[i - 1] { return false; }
    }
    return true;
  }

  /** Number of leading offsets below `end`. */
  method FirstAtLeast(offsets: seq<nat>, end: nat) returns (k: nat)
    requires Ascending(offsets)
    ensures k <= |offsets| && forall i :: 0 <= i < k ==> offsets[i] < end
    ensures k < |offsets| ==> end <= offsets[k]
  {
    k := 0;
    while k < |offsets| && offsets[k] < end
      invariant k <= |offsets| && forall i :: 0 <= i < k ==> offsets[i] < end
    {
      k := k + 1;
    }
  }

  lemma {:induction false} PutAllPastEnd(rows: Vector, offsets: seq<nat>, vals: Vector, k: nat)
    requires |offsets| == |vals| && k <= |offsets| && Ascending(offsets)
    requires k < |offsets| ==> |rows| <= offsets[k]
    ensures PutAll(rows, offsets, vals) == PutAll(rows, offsets[..k], vals[..k])
  {
    if k == |offsets| {
      assert offsets[..k] == offsets && vals[..k] == vals;
    } else {
      var n := |offsets| - 1;
      PutAllPastEnd(rows, offsets[..n], vals[..n], k);
      assert offsets[..n][..k] == offsets[..k] && vals[..n][..k] == vals[..k];
      assert offsets[k] <= offsets[n];
    }
  }

  lemma RewriteRows(segs: seq<Segment>, tail: Vector, j: nat, offsets: seq<nat>, vals: Vector, seg: Segment)
    requires j < |segs| && |offsets| == |vals|
    requires AllWithin(offsets, Start(segs, j), Start(segs, j) + |segs[j].data|)
    requires seg.data == PutAll(segs[j].data, Local(offsets, Start(segs, j)), vals)
    ensures Flat(segs[j := seg]) + tail == PutAll(Flat(segs) + tail, offsets, vals)
  {
    var f, s, w := Flat(segs), Start(segs, j), segs[j].data;
    FlatReplace(segs, j, seg);
    UpdateInSegment(segs, tail, j, offsets, vals);
    assert f[..s] + seg.data + f[s + |w|..] + tail == f[..s] + seg.data + (f[s + |w|..] + tail);
  }

  /** Updates that fall into segment j, seen from the whole chunk. */
  lemma UpdateInSegment(segs: seq<Segment>, tail: Vector, j: nat, offsets: seq<nat>, vals: Vector)
    requires j < |segs| && |offsets| == |vals|
    requires AllWithin(offsets, Start(segs, j), Start(segs, j) + |segs[j].data|)
    ensures Start(segs, j) + |segs[j].data| <= |Flat(segs)|
    ensures
      var f, s, w := Flat(segs), Start(segs, j), segs[j].data;
      PutAll(f + tail, offsets, vals) == f[..s] + PutAll(w, Local(offsets, s), vals) + (f[s + |w|..] + tail)
  {
    var f, s, w := Flat(segs), Start(segs, j), segs[j].data;
    FlatSlice(segs, j);
    var a, b := f[..s], f[s + |w|..] + tail;
    assert f + tail == a + w + b;
    PutAllWindow(a, w, b, offsets, Local(offsets, s), vals);
  }

  lemma {:induction false} PutAllBehind(rows: Vector, offsets: seq<nat>, vals: Vector, to: nat)
    requires |offsets| == |vals| && to <= |rows| && forall i :: 0 <= i < |offsets| ==> to <= offsets[i]
    ensures PutAll(rows, offsets, vals)[..to] == rows[..to]
  {
    if offsets != [] {
      var n := |offsets| - 1;
      PutAllBehind(rows, offsets[..n], vals[..n], to);
    }
  }

  /** In the outcome of ascending updates, the window of segment j shows exactly the updates
      that fall into it. */
  lemma WindowOfRest(segs: seq<Segment>, tail: Vector, j: nat, offsets: seq<nat>, vals: Vector, m: nat)
    requires j < |segs| && |offsets| == |vals| && m <= |offsets| && Ascending(offsets)
    requires AllWithin(offsets[..m], Start(segs, j), Start(segs, j) + |segs[j].data|)
    requires m < |offsets| ==> Start(segs, j) + |segs[j].data| <= offsets[m]
    ensures Window(segs, PutAll(Flat(segs) + tail, offsets, vals), j)
         == PutAll(segs[j].data, Local(offsets[..m], Start(segs, j)), vals[..m])
  {
    var f, s, w := Flat(segs), Start(segs, j), segs[j].data;
    var o, v := offsets[..m], vals[..m];
    UpdateInSegment(segs, tail, j, o, v);
    forall i | m <= i < |offsets| ensures s + |w| <= offsets[i] { assert offsets[m] <= offsets[i]; }
    LaterUpdates(f + tail, offsets, vals, m, s + |w|);
    MiddlePart(f[..s], PutAll(w, Local(o, s), v), f[s + |w|..] + tail, PutAll(f + tail, o, v),
      PutAll(f + tail, offsets, vals), s + |w|);
  }

  /** Updates behind a place do not change what is in front of it. */
  lemma LaterUpdates(rows: Vector, offsets: seq<nat>, vals: Vector, m: nat, to: nat)
    requires |offsets| == |vals| && m <= |offsets| && to <= |rows| &&
      forall i :: m <= i < |offsets| ==> to <= offsets[i]
    ensures PutAll(rows, offsets, vals)[..to] == PutAll(rows, offsets[..m], vals[..m])[..to]
  {
    PutAllSplit(rows, offsets, vals, m);
    PutAllBehind(PutAll(rows, offsets[..m], vals[..m]), offsets[m..], vals[m..], to);
  }

  lemma MiddlePart(a: Vector, w: Vector, b: Vector, whole: Vector, final: Vector, to: nat)
    requires whole == a + w + b && to == |a| + |w| && |final| == |whole| && final[..to] == whole[..to]
    ensures final[|a|..to] == w
  {
    assert final[|a|..to] == final[..to][|a|..];
    assert whole[..to][|a|..] == w;
  }

  lemma PutAllSplit(rows: Vector, offsets: seq<nat>, vals: Vector, k: nat)
    requires |offsets| == |vals| && k <= |offsets|
    ensures PutAll(rows, offsets, vals) == PutAll(PutAll(rows, offsets[..k], vals[..k]), offsets[k..], vals[k..])
  {
    PutAllConcat(rows, offsets[..k], vals[..k], offsets[k..], vals[k..]);
    assert offsets == offsets[..k] + offsets[k..] && vals == vals[..k] + vals[k..];
  }

  // ----- Facts about appending -----

  /** Every segment carries these statistics, and together they hold these rows. */
  ghost predicate StampedWith(segs: seq<Segment>, s: Stats, rows: Vector) {
    && Flat(segs) == rows
    && forall j :: 0 <= j < |segs| ==> segs[j].stats == s
  }

  /** How far an append has come: `done` rows of `all` sit in new segments, stamped with the
      statistics kept before the append, and the next ones are pending. */
  ghost predicate Progress(base: seq<Segment>, segs: seq<Segment>, pending: Vector, s: Stats, all: Vector, done: nat) {
    && base <= segs && done % VECTOR_SIZE == 0 && |pending| <= VECTOR_SIZE
    && done + |pending| <= |all| && pending == all[done..done + |pending|]
    && StampedWith(segs[|base|..], s, all[..done])
  }

  lemma FlushProgress(base: seq<Segment>, segs: seq<Segment>, pending: Vector, s: Stats, all: Vector, done: nat,
      plain: bool)
    requires Progress(base, segs, pending, s, all, done) && |pending| == VECTOR_SIZE
    ensures Progress(base, segs + [Segment(pending, plain, s)], [], s, all, done + VECTOR_SIZE)
  {
    var seg := Segment(pending, plain, s);
    StampedAppend(segs[|base|..], seg, s, all[..done]);
    assert (segs + [seg])[|base|..] == segs[|base|..] + [seg];
    assert all[..done] + pending == all[..done + VECTOR_SIZE];
  }

  lemma CopyProgress(base: seq<Segment>, segs: seq<Segment>, pending: Vector, s: Stats, all: Vector, done: nat,
      batch: Vector)
    requires Progress(base, segs, pending, s, all, done) && |pending| + |batch| <= VECTOR_SIZE
    requires done + |pending| + |batch| <= |all|
    requires batch == all[done + |pending|..done + |pending| + |batch|]
    ensures Progress(base, segs, pending + batch, s, all, done)
  {
  }

  lemma ProgressRows(base: seq<Segment>, segs: seq<Segment>, pending: Vector, s: Stats, all: Vector, done: nat)
    requires Progress(base, segs, pending, s, all, done)
    ensures Flat(segs) == Flat(base) + all[..done]
  {
    FlatConcat(base, segs[|base|..]);
    assert segs == base + segs[|base|..];
  }

  lemma CompletedRows(base: seq<Segment>, segs: seq<Segment>, pending: Vector, s: Stats, all: Vector, done: nat)
    requires Progress(base, segs, pending, s, all, done) && done + |pending| == |all|
    ensures Flat(segs) + pending == Flat(base) + all && |Flat(segs)| == |Flat(base)| + done
  {
    ProgressRows(base, segs, pending, s, all, done);
    assert all == all[..done] + pending;
    Associate(Flat(base), all[..done], pending);
  }

  lemma Associate(a: Vector, b: Vector, c: Vector)
    ensures (a + b) + c == a + (b + c)
  {
  }

  ghost predicate AllCovered(segs: seq<Segment>) {
    forall j :: 0 <= j < |segs| ==> Covers(segs[j].stats, segs[j].data)
  }

  lemma AppendedStats(k: Kind, base: seq<Segment>, segs: seq<Segment>, pending0: Vector, pending: Vector,
                      s: Stats, vec: Vector, done: nat)
    requires Progress(base, segs, pending, s, pending0 + vec, done) && done + |pending| == |pending0| + |vec|
    requires StatsOfKind(k, s) && OfKind(k, pending0) && OfKind(k, vec)
    ensures AllCovered(base) && Covers(s, pending0) ==>
      (AllCovered(segs) && Covers(AddStats(s, vec), pending) <==> Covers(s, (pending0 + vec)[..done]))
  {
    if AllCovered(base) && Covers(s, pending0) {
      AddStatsCovers(k, s, vec, pending0);
      assert forall c :: c in pending ==> c in pending0 + vec;
      var added := segs[|base|..];
      StampedCovers(added, s, (pending0 + vec)[..done]);
      assert segs == base + added;
      assert AllCovered(segs) <==> AllCovered(added) by {
        if AllCovered(segs) {
          forall j | 0 <= j < |added|
            ensures Covers(added[j].stats, added[j].data)
          {
            assert added[j] == segs[|base| + j];
          }
        }
      }
    }
  }

  /** The rows at the first offsets. */
  predicate Gathered(rows: Vector, offsets: seq<nat>, out: Vector) {
    |out| <= |offsets| && forall k :: 0 <= k < |out| ==> offsets[k] < |rows| && out[k] == rows[offsets[k]]
  }

  /** The rows read so far, from row p on. */
  predicate PartFrom(rows: Vector, p: nat, out: Vector) { p + |out| <= |rows| && out == rows[p..p + |out|] }

  lemma WholePart(rows: Vector, p: nat, out: Vector, count: nat)
    requires PartFrom(rows, p, out) && |out| <= count && (|out| == count || p + |out| == |rows|)
    ensures out == rows[p..Min(p + count, |rows|)]
  {
  }

  lemma Extend(rows: Vector, p: nat, out: Vector, more: Vector)
    requires p + |out| + |more| <= |rows| && PartFrom(rows, p, out)
    requires more == rows[p + |out|..p + |out| + |more|]
    ensures PartFrom(rows, p, out + more)
  {
  }

  lemma StampedAppend(segs: seq<Segment>, seg: Segment, s: Stats, rows: Vector)
    requires StampedWith(segs, s, rows) && seg.stats == s
    ensures StampedWith(segs + [seg], s, rows + seg.data)
  {
    FlatAppend(segs, seg);
  }

  lemma {:induction false} StampedCovers(segs: seq<Segment>, s: Stats, rows: Vector)
    requires StampedWith(segs, s, rows)
    ensures AllCovered(segs) <==> Covers(s, rows)
  {
    if segs != [] {
      var n := |segs| - 1;
      StampedCovers(segs[..n], s, Flat(segs[..n]));
      assert forall c :: c in rows <==> c in Flat(segs[..n]) || c in segs[n].data;
    }
  }

  lemma FlushedCount(p: nat, n: nat, done: nat, rest: nat)
    requires done + rest == p + n && done % VECTOR_SIZE == 0 && rest <= VECTOR_SIZE
    requires (n == 0 ==> done == 0) && (n > 0 ==> rest > 0)
    ensures done == FlushedRows(p, n)
  {
  }

  // ----- When an append straddles a flush -----

  /** The call moves rows of its own vector into a segment. */
  predicate Straddles(p: nat, n: nat) { n > 0 && p + n > VECTOR_SIZE && !(p == VECTOR_SIZE && n <= VECTOR_SIZE) }

  /** Rows of the appended vector that reach a segment. */
  function LeftBehind(p: nat, n: nat): (r: nat)
    ensures r <= n
  {
    Max(0, FlushedRows(p, n) - p)
  }

  lemma KeptBehind(rows: Vector, vec: Vector, n: nat)
    requires n <= |vec|
    ensures (rows + vec)[..|rows| + n] == rows + vec[..n]
    ensures rows + vec[..n] == rows <==> n == 0
  {
    if n > 0 { assert |rows + vec[..n]| > |rows|; }
  }

  lemma StraddlesIff(p: nat, n: nat)
    requires p <= VECTOR_SIZE
    ensures Straddles(p, n) <==> FlushedRows(p, n) > p
  {
  }

  /** With 1023 rows pending, an append of two seals the first of them, and its rollback
      leaves that row behind. */
  lemma StraddlingAppendLeavesRow()
    ensures Straddles(1023, 2) && LeftBehind(1023, 2) == 1
  {
  }

  /** An append that does not straddle a flush keeps the zone map sound whatever it appends. */
  lemma WholeAppendStaysCovered(pending: Vector, vec: Vector, s: Stats)
    requires |pending| <= VECTOR_SIZE && !Straddles(|pending|, |vec|) && Covers(s, pending)
    ensures
      var f := FlushedRows(|pending|, |vec|);
      f <= |pending| && Covers(s, (pending + vec)[..f])
  {
    StraddlesIff(|pending|, |vec|);
    var f := FlushedRows(|pending|, |vec|);
    assert (pending + vec)[..f] == pending[..f];
  }

  /** 1023 zeros are pending; appending 5 and 0 seals a segment that holds the 5 under
      statistics that say every value is 0. */
  lemma StraddlingAppendUncovers()
    ensures
      var pending, vec := seq(1023, _ => Int(0)), [Int(5), Int(0)];
      var s := Stats(Int(0), Int(0));
      && Straddles(|pending|, |vec|) && Covers(s, pending)
      && !Covers(s, (pending + vec)[..FlushedRows(|pending|, |vec|)])
  {
    var pending, vec := seq(1023, _ => Int(0)), [Int(5), Int(0)];
    var moved := (pending + vec)[..FlushedRows(|pending|, |vec|)];
    assert moved[1023] == Int(5) && moved[1023] in moved;
  }

  /** Statistics that leave out a present value rule out the search for it, if they hold
      anything at all. */
  lemma ExcludesEqualIff(k: Kind, s: Stats, w: Cell)
    requires StatsOfKind(k, s) && HasKind(k, w) && !w.Null?
    ensures Excludes(s, Comparison(OpEq, w, StatType(w))) <==> !s.minVal.Null? && !s.maxVal.Null? && !Within(s, w)
  {
    if !s.minVal.Null? && !s.maxVal.Null? {
      CompareCellsTotal(w, s.minVal);
      CompareCellsTotal(s.maxVal, w);
    }
  }

  lemma {:induction false} SegmentsFit(segs: seq<Segment>)
    requires forall j :: 0 <= j < |segs| ==> 0 < |segs[j].data|
    ensures |segs| <= |Flat(segs)|
  {
    if segs != [] { SegmentsFit(segs[..|segs| - 1]); }
  }

  /** Rows are appended, and one of them is updated before it is flushed. */
  method FillAndUpdate(codec: Codec, kind: Kind, vec: Vector, at: nat, w: Cell) returns (c: ColumnChunk)
    requires at < |vec| <= VECTOR_SIZE && OfKind(kind, vec) && HasKind(kind, w) && LosslessBlocks(codec, vec)
    ensures fresh(c) && c.Valid() && c.codec == codec && c.kind == kind
    ensures c.segments == [] && c.pending == vec[at := w] && c.combined == AddStats(NO_STATS, vec)
  {
    c := new ColumnChunk(codec, kind);
    assert [] + vec == vec;
    c.AppendFromVector(vec);
    SegmentsFit(c.segments);
    assert [at][..0] == [] && [w][..0] == [];
    var ok := c.WriteRows([at], [w]);
  }

  /** Rows are appended, one of them is updated before it is flushed, and the new value is
      looked for.  The column holds it, and the zone map skips it exactly when it lies
      outside the range of the rows as they were appended. */
  method UpdateBeforeFlush(codec: Codec, kind: Kind, vec: Vector, at: nat, w: Cell)
      returns (rows: Vector, skip: nat)
    requires at < |vec| <= VECTOR_SIZE && OfKind(kind, vec) && HasKind(kind, w) && !w.Null?
    requires LosslessBlocks(codec, vec) && codec.load(vec[at := w]) == vec[at := w]
    ensures rows == vec[at := w]
    ensures
      var s := AddStats(NO_STATS, vec);
      skip == if !s.minVal.Null? && !s.maxVal.Null? && !Within(s, w) then |vec| else 0
  {
    var c := FillAndUpdate(codec, kind, vec, at, w);
    rows, skip := FlushAndLook(c, w);
  }

  /** The only segment is written, and the zone map is asked for a value. */
  method FlushAndLook(c: ColumnChunk, w: Cell) returns (rows: Vector, skip: nat)
    requires c.Valid() && c.segments == [] && c.pending != [] && HasKind(c.kind, w) && !w.Null?
    requires c.codec.load(c.pending) == c.pending
    modifies c
    ensures rows == old(c.pending)
    ensures
      var s := old(c.combined);
      skip == if !s.minVal.Null? && !s.maxVal.Null? && !Within(s, w) then |rows| else 0
  {
    var p := Comparison(OpEq, w, StatType(w));
    var n := |c.pending|;
    assert c.Rows() == c.pending;
    ExcludesEqualIff(c.kind, c.combined, w);
    c.Flush();
    rows := ReadAll(c, n);
    OnlySegment(c.segments, p);
    skip := c.ZoneMapSkipRows(0, p);
  }

  method ReadAll(c: ColumnChunk, count: nat) returns (rows: Vector)
    requires c.Valid() && |c.Rows()| == count
    ensures rows == c.Rows()
  {
    var seg, row := c.MakeScanState(0);
    var seg', row';
    seg', row', rows := c.Scan(seg, row, count);
  }

  lemma OnlySegment(segs: seq<Segment>, p: Comparison)
    requires |segs| == 1 && segs[0].data != []
    ensures ZoneSkip(segs, 0, 0, p) == if Excludes(segs[0].stats, p) then |segs[0].data| else 0
  {
    assert segs[..0] == [];
  }

  /** The update from 1 to 5 of a row that is still pending hides it from `= 5`. */
  method UpdateHidesRow() returns (rows: Vector, skip: nat)
    ensures rows == [Int(5)] && Comparison(OpEq, Int(5), Int64).Holds(rows[0]) && skip == 1
  {
    var v: Vector := [Int(1)];
    assert v[..0] == [] && AddStats(NO_STATS, v) == AddStat(NO_STATS, Int(1));
    assert v[0 := Int(5)] == [Int(5)];
    rows, skip := UpdateBeforeFlush(Codec(v => v, v => v, _ => false), IntKind, v, 0, Int(5));
  }
}
