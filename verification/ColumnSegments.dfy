/** Segments, statistics and point updates of one column of a row group.

    A segment is represented by what decompressing its block yields; the flat sequence of
    its cells is the specification that the class in module ColumnChunks refines. */
module ColumnSegments {
  import opened Cells
  import opened Relational
  import opened Scalars

  const VECTOR_SIZE: nat := 1024

  type Vector = seq<Cell>

  datatype Kind = IntKind | FloatKind | StrKind

  predicate HasKind(k: Kind, c: Cell) {
    c.Null? || (match k case IntKind => c.Int? case FloatKind => c.Float? case StrKind => c.Str?)
  }

  predicate OfKind(k: Kind, v: Vector) { forall c <- v :: HasKind(k, c) }

  // ----- Statistics -----

  datatype Stats = Stats(minVal: Cell, maxVal: Cell)

  const NO_STATS := Stats(Null, Null)

  function AddStat(s: Stats, c: Cell): Stats {
    if c.Null? then s
    else
      Stats(if s.minVal.Null? || CompareCells(c, s.minVal) < 0 then c else s.minVal,
            if s.maxVal.Null? || CompareCells(s.maxVal, c) < 0 then c else s.maxVal)
  }

  function AddStats(s: Stats, v: Vector): Stats {
    if v == [] then s else AddStat(AddStats(s, v[..|v| - 1]), v[|v| - 1])
  }

  predicate Within(s: Stats, c: Cell) {
    !s.minVal.Null? && !s.maxVal.Null? && CompareCells(s.minVal, c) <= 0 && CompareCells(c, s.maxVal) <= 0
  }

  /** Every present value lies between the minimum and the maximum. */
  predicate Covers(s: Stats, v: Vector) { forall c <- v :: !c.Null? ==> Within(s, c) }

  predicate StatsOfKind(k: Kind, s: Stats) { HasKind(k, s.minVal) && HasKind(k, s.maxVal) }

  lemma AddStatKeeps(k: Kind, s: Stats, c: Cell, x: Cell)
    requires StatsOfKind(k, s) && HasKind(k, c) && HasKind(k, x) && !x.Null?
    requires Within(s, x) || x == c
    ensures Within(AddStat(s, c), x)
  {
    var s' := AddStat(s, c);
    if !c.Null? {
      CompareCellsTotal(c, x);
      CompareCellsTotal(x, x);
      if !s.minVal.Null? {
        CompareCellsTotal(c, s.minVal);
        if CompareCells(c, s.minVal) < 0 && x != c { CompareCellsTransitive(c, s.minVal, x); }
      }
      if !s.maxVal.Null? {
        CompareCellsTotal(s.maxVal, c);
        if CompareCells(s.maxVal, c) < 0 && x != c { CompareCellsTransitive(x, s.maxVal, c); }
      }
    }
  }

  /** Folding a vector in covers the vector and everything covered before. */
  lemma {:induction false} AddStatsCovers(k: Kind, s: Stats, v: Vector, w: Vector)
    requires StatsOfKind(k, s) && OfKind(k, v) && OfKind(k, w) && Covers(s, w)
    ensures StatsOfKind(k, AddStats(s, v)) && Covers(AddStats(s, v), w + v)
  {
    if v == [] {
      assert w + v == w;
    } else {
      var n := |v| - 1;
      AddStatsCovers(k, s, v[..n], w);
      var s1 := AddStats(s, v[..n]);
      forall x | x in w + v && !x.Null? ensures Within(AddStats(s, v), x) {
        assert w + v == w + v[..n] + [v[n]];
        assert x in w + v[..n] || x == v[n];
        AddStatKeeps(k, s1, v[n], x);
      }
    }
  }

  /** The statistics of a vector are its least and its greatest present value, NULL exactly
      when it has none. */
  ghost predicate ExactStats(v: Vector, s: Stats) {
    && (s.minVal.Null? <==> forall c <- v :: c.Null?) && (s.maxVal.Null? <==> forall c <- v :: c.Null?)
    && (!s.minVal.Null? ==> s.minVal in v && s.maxVal in v)
    && forall c <- v :: !c.Null? ==> !CellBefore(true, c, s.minVal) && !CellBefore(true, s.maxVal, c)
  }

  lemma {:induction false} StatsAttained(k: Kind, v: Vector)
    requires OfKind(k, v)
    ensures
      var s := AddStats(NO_STATS, v);
      && (s.minVal.Null? <==> forall c <- v :: c.Null?) && (s.maxVal.Null? <==> forall c <- v :: c.Null?)
      && (!s.minVal.Null? ==> s.minVal in v && s.maxVal in v)
  {
    if v != [] {
      var n := |v| - 1;
      assert v == v[..n] + [v[n]];
      StatsAttained(k, v[..n]);
    }
  }

  lemma StatsMeaning(k: Kind, v: Vector)
    requires OfKind(k, v)
    ensures ExactStats(v, AddStats(NO_STATS, v))
  {
    var s := AddStats(NO_STATS, v);
    StatsAttained(k, v);
    AddStatsCovers(k, NO_STATS, v, []);
    assert [] + v == v;
    forall c | c in v && !c.Null? ensures !CellBefore(true, c, s.minVal) && !CellBefore(true, s.maxVal, c) {
      CompareCellsMeaning(s.minVal, c);
      CompareCellsMeaning(c, s.maxVal);
      CompareCellsTotal(s.minVal, c);
      CompareCellsTotal(c, s.maxVal);
    }
  }

  method BuildStats(v: Vector, ghost k: Kind) returns (s: Stats)
    requires OfKind(k, v)
    ensures s == AddStats(NO_STATS, v) && ExactStats(v, s)
  {
    StatsMeaning(k, v);
    s := NO_STATS;
    for i := 0 to |v|
      invariant s == AddStats(NO_STATS, v[..i])
    {
      assert v[..i + 1][..i] == v[..i];
      if !v[i].Null? {
        if s.minVal.Null? || CompareCells(v[i], s.minVal) < 0 {
          var both := s.maxVal.Null? || CompareCells(s.maxVal, v[i]) < 0;
          s := if both then Stats(v[i], v[i]) else s.(minVal := v[i]);
        } else if s.maxVal.Null? || CompareCells(s.maxVal, v[i]) < 0 {
          s := s.(maxVal := v[i]);
        }
      }
    }
    assert v[..|v|] == v;
  }

  // ----- Segments -----

  /** What the bytes of a compressed vector decode to: `load` under the codec's own choice,
      `loadPlain` for a segment kept uncompressed, and `picksPlain` the choice itself. */
  datatype Codec = Codec(load: Vector -> Vector, loadPlain: Vector -> Vector, picksPlain: Vector -> bool)

  datatype Segment = Segment(data: Vector, plain: bool, stats: Stats)

  function Flat(segs: seq<Segment>): Vector {
    if segs == [] then [] else Flat(segs[..|segs| - 1]) + segs[|segs| - 1].data
  }

  /** Row at which segment j starts. */
  function Start(segs: seq<Segment>, j: nat): nat
    requires j <= |segs|
  {
    |Flat(segs[..j])|
  }

  lemma StartNext(segs: seq<Segment>, j: nat)
    requires j < |segs|
    ensures Start(segs, j + 1) == Start(segs, j) + |segs[j].data|
  {
    assert segs[..j + 1][..j] == segs[..j];
  }

  lemma {:induction false} FlatSlice(segs: seq<Segment>, j: nat)
    requires j < |segs|
    ensures Start(segs, j) + |segs[j].data| <= |Flat(segs)|
    ensures Flat(segs)[Start(segs, j)..Start(segs, j) + |segs[j].data|] == segs[j].data
  {
    var n := |segs| - 1;
    if j < n {
      FlatSlice(segs[..n], j);
      assert segs[..n][..j] == segs[..j];
      var a, s, e := Flat(segs[..n]), Start(segs, j), Start(segs, j) + |segs[j].data|;
      assert (a + segs[n].data)[s..e] == a[s..e];
    } else {
      assert Flat(segs) == Flat(segs[..n]) + segs[n].data;
    }
  }

  lemma {:induction false} FlatReplace(segs: seq<Segment>, j: nat, seg: Segment)
    requires j < |segs| && |seg.data| == |segs[j].data|
    ensures
      var s, f := Start(segs, j), Flat(segs);
      && s + |seg.data| <= |f| && |Flat(segs[j := seg])| == |f|
      && Flat(segs[j := seg]) == f[..s] + seg.data + f[s + |seg.data|..]
  {
    var n := |segs| - 1;
    var segs' := segs[j := seg];
    FlatSlice(segs, j);
    if j < n {
      FlatReplace(segs[..n], j, seg);
      assert segs'[..n] == segs[..n][j := seg];
      assert segs[..n][..j] == segs[..j];
      var a, s, e := Flat(segs[..n]), Start(segs, j), Start(segs, j) + |seg.data|;
      var f := a + segs[n].data;
      assert f[..s] == a[..s] && f[e..] == a[e..] + segs[n].data;
    } else {
      assert segs'[..n] == segs[..n];
    }
  }

  lemma FlatAppend(segs: seq<Segment>, seg: Segment)
    ensures Flat(segs + [seg]) == Flat(segs) + seg.data
  {
    assert (segs + [seg])[..|segs|] == segs;
  }

  lemma {:induction false} FlatConcat(a: seq<Segment>, b: seq<Segment>)
    ensures Flat(a + b) == Flat(a) + Flat(b)
  {
    if b == [] {
      assert a + b == a;
    } else {
      var n := |b| - 1;
      FlatConcat(a, b[..n]);
      assert (a + b)[..|a| + n] == a + b[..n];
    }
  }

  /** Rows `row .. row + n` of segment j, read off the flat sequence. */
  lemma SegmentSlice(segs: seq<Segment>, tail: Vector, j: nat, row: nat, n: nat)
    requires j < |segs| && row + n <= |segs[j].data|
    ensures
      var s := Start(segs, j);
      s + row + n <= |Flat(segs) + tail| && (Flat(segs) + tail)[s + row..s + row + n] == segs[j].data[row..row + n]
  {
    FlatSlice(segs, j);
    var s := Start(segs, j);
    var d := Flat(segs)[s..s + |segs[j].data|];
    assert d[row..row + n] == Flat(segs)[s + row..s + row + n];
  }

  lemma SegmentCell(segs: seq<Segment>, tail: Vector, j: nat, i: nat)
    requires j < |segs| && i < |segs[j].data|
    ensures Start(segs, j) + i < |Flat(segs) + tail|
    ensures (Flat(segs) + tail)[Start(segs, j) + i] == segs[j].data[i]
  {
    FlatSlice(segs, j);
    var s := Start(segs, j);
    assert Flat(segs)[s..s + |segs[j].data|][i] == Flat(segs)[s + i];
  }

  lemma StartMono(segs: seq<Segment>, j: nat)
    requires j <= |segs|
    ensures Start(segs, j) <= |Flat(segs)|
    ensures Start(segs, |segs|) == |Flat(segs)|
  {
    assert segs[..|segs|] == segs;
    if j < |segs| { FlatSlice(segs, j); }
  }

  // ----- Point updates -----

  /** Overwrite one row; an offset past the end changes nothing. */
  function Put(rows: Vector, offset: nat, c: Cell): Vector {
    if offset < |rows| then rows[offset := c] else rows
  }

  /** The point updates, in order. */
  function PutAll(rows: Vector, offsets: seq<nat>, vals: Vector): (r: Vector)
    requires |offsets| == |vals|
    ensures |r| == |rows|
  {
    if offsets == [] then rows
    else
      var n := |offsets| - 1;
      Put(PutAll(rows, offsets[..n], vals[..n]), offsets[n], vals[n])
  }

  predicate Ascending(offsets: seq<nat>) {
    forall i, j :: 0 <= i < j < |offsets| ==> offsets[i] <= offsets[j]
  }

  lemma {:induction false} PutAllConcat(rows: Vector, o1: seq<nat>, v1: Vector, o2: seq<nat>, v2: Vector)
    requires |o1| == |v1| && |o2| == |v2|
    ensures PutAll(rows, o1 + o2, v1 + v2) == PutAll(PutAll(rows, o1, v1), o2, v2)
  {
    if o2 == [] {
      assert o1 + o2 == o1 && v1 + v2 == v1;
    } else {
      var n := |o2| - 1;
      PutAllConcat(rows, o1, v1, o2[..n], v2[..n]);
      assert (o1 + o2)[..|o1| + n] == o1 + o2[..n] && (v1 + v2)[..|v1| + n] == v1 + v2[..n];
    }
  }

  /** Updates confined to a window act on the window alone. */
  lemma {:induction false} PutAllWindow(a: Vector, w: Vector, b: Vector, offsets: seq<nat>, local: seq<nat>,
      vals: Vector)
    requires |offsets| == |local| == |vals|
    requires forall i :: 0 <= i < |offsets| ==> offsets[i] == |a| + local[i] && local[i] < |w|
    ensures PutAll(a + w + b, offsets, vals) == a + PutAll(w, local, vals) + b
  {
    if offsets != [] {
      var n := |offsets| - 1;
      PutAllWindow(a, w, b, offsets[..n], local[..n], vals[..n]);
    }
  }

  /** The window the updates do not touch keeps its cells. */
  lemma {:induction false} PutAllOutside(rows: Vector, offsets: seq<nat>, vals: Vector, i: nat)
    requires |offsets| == |vals| && i < |rows| && i !in offsets
    ensures PutAll(rows, offsets, vals)[i] == rows[i]
  {
    if offsets != [] {
      var n := |offsets| - 1;
      assert offsets == offsets[..n] + [offsets[n]];
      PutAllOutside(rows, offsets[..n], vals[..n], i);
    }
  }

  /** A row holds the value of the last update at its place, or what it held before. */
  lemma {:induction false} PutAllMeaning(rows: Vector, offsets: seq<nat>, vals: Vector, i: nat)
    requires |offsets| == |vals| && i < |rows|
    ensures i !in offsets ==> PutAll(rows, offsets, vals)[i] == rows[i]
    ensures i in offsets ==> exists k :: LastAt(offsets, i, k) && PutAll(rows, offsets, vals)[i] == vals[k]
  {
    if offsets != [] {
      var n := |offsets| - 1;
      assert offsets == offsets[..n] + [offsets[n]];
      if offsets[n] == i {
        assert LastAt(offsets, i, n);
      } else {
        PutAllMeaning(rows, offsets[..n], vals[..n], i);
        if i in offsets[..n] {
          var k :| LastAt(offsets[..n], i, k) && PutAll(rows, offsets[..n], vals[..n])[i] == vals[..n][k];
          assert LastAt(offsets, i, k);
        }
      }
    }
  }

  predicate LastAt(offsets: seq<nat>, i: nat, k: int) {
    0 <= k < |offsets| && offsets[k] == i && forall m :: k < m < |offsets| ==> offsets[m] != i
  }

  lemma {:induction false} PutAllKind(k: Kind, rows: Vector, offsets: seq<nat>, vals: Vector)
    requires |offsets| == |vals| && OfKind(k, rows) && OfKind(k, vals)
    ensures OfKind(k, PutAll(rows, offsets, vals))
  {
    if offsets != [] {
      var n := |offsets| - 1;
      PutAllKind(k, rows, offsets[..n], vals[..n]);
      var r := PutAll(rows, offsets[..n], vals[..n]);
      assert vals[n] in vals;
      forall c | c in Put(r, offsets[n], vals[n]) ensures HasKind(k, c) { assert c in r || c == vals[n]; }
    }
  }

  // ----- Zone maps -----

  datatype ScanOp = OpEq | OpLt | OpLe | OpGt | OpGe

  function AsBinOp(op: ScanOp): BinOp {
    match op case OpEq => Eq case OpLt => Lt case OpLe => Le case OpGt => Gt case OpGe => Ge
  }

  /** A pushed-down predicate `column op bound`; `ty` is the type tag of the bound. */
  datatype Comparison = Comparison(op: ScanOp, bound: Cell, ty: TypeId)
  {
    predicate Typed() {
      (ty.Int64? ==> bound.Int?) && (ty.Float64? ==> bound.Float?) && (ty.Varchar? ==> bound.Str?)
    }

    predicate Holds(c: Cell) { IsTrue(ApplyBinary(AsBinOp(op), Boolean, c, bound)) }
  }

  /** The type tag under which statistics are kept. */
  function StatType(c: Cell): TypeId {
    match c case Int(_) => Int64 case Float(_) => Float64 case Str(_) => Varchar case Null => Invalid
  }

  predicate Less(a: Cell, b: Cell) { CompareCells(a, b) < 0 }

  /** The statistics rule out every row of the segment. */
  predicate Excludes(s: Stats, p: Comparison) {
    && !s.minVal.Null? && !s.maxVal.Null? && StatType(s.minVal) == p.ty
    && match p.op
       case OpEq => Less(p.bound, s.minVal) || Less(s.maxVal, p.bound)
       case OpGt => !Less(p.bound, s.maxVal)
       case OpGe => Less(s.maxVal, p.bound)
       case OpLt => !Less(s.minVal, p.bound)
       case OpLe => Less(p.bound, s.minVal)
  }

  /** Rows to skip from `offset`, looking from segment j on. */
  function ZoneSkip(segs: seq<Segment>, offset: nat, j: nat, p: Comparison): nat
    requires j <= |segs|
    decreases |segs| - j
  {
    if j == |segs| then 0
    else
      var end := Start(segs, j) + |segs[j].data|;
      if offset < end then (if Excludes(segs[j].stats, p) then end - offset else 0)
      else ZoneSkip(segs, offset, j + 1, p)
  }

  /** The n rows from `from` on are the rest of segment j. */
  predicate RestOfSegment(segs: seq<Segment>, j: nat, from: nat, n: nat)
    requires j < |segs|
  {
    Start(segs, j) <= from && from + n == Start(segs, j) + |segs[j].data|
  }

  /** None of the n rows from `from` on satisfies the predicate. */
  predicate NoMatch(rows: Vector, from: nat, n: nat, p: Comparison) {
    n > 0 ==> from + n <= |rows| && forall r :: from <= r < from + n ==> !p.Holds(rows[r])
  }

  lemma ComparisonMeaning(c: Cell, p: Comparison)
    requires SameKind(c, p.bound)
    ensures p.Holds(c) <==>
      var d := CompareCells(c, p.bound);
      match p.op case OpEq => d == 0 case OpLt => d < 0 case OpLe => d <= 0 case OpGt => d > 0 case OpGe => d >= 0
  {
    CompareCellsTotal(c, p.bound);
    if c.Str? { StrLessTotal(c.s, p.bound.s); }
  }

  /** A value between the bounds of an excluding segment fails the predicate. */
  lemma ExcludedValue(k: Kind, s: Stats, c: Cell, p: Comparison)
    requires p.Typed() && StatsOfKind(k, s) && HasKind(k, c) && Excludes(s, p)
    requires c.Null? || Within(s, c)
    ensures !p.Holds(c)
  {
    if !c.Null? {
      ComparisonMeaning(c, p);
      CompareCellsTotal(p.bound, s.minVal);
      CompareCellsTotal(p.bound, s.maxVal);
      CompareCellsTotal(c, p.bound);
      CompareCellsTotal(s.minVal, c);
      CompareCellsTotal(c, s.maxVal);
      if CompareCells(c, p.bound) <= 0 { CompareCellsTransitive(s.minVal, c, p.bound); }
      if CompareCells(p.bound, c) <= 0 { CompareCellsTransitive(p.bound, c, s.maxVal); }
    }
  }

  /** Statistics rule a segment out exactly when no value between them satisfies the
      predicate. */
  lemma ExcludesIff(k: Kind, s: Stats, p: Comparison)
    requires StatsOfKind(k, s) && !s.minVal.Null? && !s.maxVal.Null? && CompareCells(s.minVal, s.maxVal) <= 0
    requires p.Typed() && StatType(s.minVal) == p.ty
    ensures Excludes(s, p) <==> forall c: Cell :: HasKind(k, c) && !c.Null? && Within(s, c) ==> !p.Holds(c)
  {
    if Excludes(s, p) {
      forall c: Cell | HasKind(k, c) && !c.Null? && Within(s, c) ensures !p.Holds(c) { ExcludedValue(k, s, c, p); }
    } else {
      var c := AllowedValue(k, s, p);
    }
  }

  /** Otherwise the bound itself or one of the two statistics satisfies it. */
  lemma AllowedValue(k: Kind, s: Stats, p: Comparison) returns (c: Cell)
    requires StatsOfKind(k, s) && !s.minVal.Null? && !s.maxVal.Null? && CompareCells(s.minVal, s.maxVal) <= 0
    requires p.Typed() && StatType(s.minVal) == p.ty && !Excludes(s, p)
    ensures HasKind(k, c) && !c.Null? && Within(s, c) && p.Holds(c)
  {
    CompareCellsTotal(s.minVal, s.minVal);
    CompareCellsTotal(s.maxVal, s.maxVal);
    CompareCellsTotal(p.bound, s.minVal);
    CompareCellsTotal(p.bound, s.maxVal);
    c := match p.op case OpEq => p.bound case OpGt => s.maxVal case OpGe => s.maxVal case _ => s.minVal;
    ComparisonMeaning(c, p);
  }

  lemma SkippedRows(k: Kind, segs: seq<Segment>, tail: Vector, j: nat, offset: nat, p: Comparison)
    requires j < |segs| && p.Typed() && StatsOfKind(k, segs[j].stats) && OfKind(k, Flat(segs) + tail)
    requires Covers(segs[j].stats, segs[j].data) && Excludes(segs[j].stats, p) && Start(segs, j) <= offset
    requires offset <= Start(segs, j) + |segs[j].data|
    ensures NoMatch(Flat(segs) + tail, offset, Start(segs, j) + |segs[j].data| - offset, p)
  {
    var rows, s, end := Flat(segs) + tail, Start(segs, j), Start(segs, j) + |segs[j].data|;
    SegmentSlice(segs, tail, j, 0, |segs[j].data|);
    forall r | offset <= r < end ensures !p.Holds(rows[r]) {
      SegmentCell(segs, tail, j, r - s);
      assert segs[j].data[r - s] in segs[j].data && rows[r] in rows;
      ExcludedValue(k, segs[j].stats, segs[j].data[r - s], p);
    }
  }

  /** Skipping is sound from any row on. */
  lemma {:induction false} ZoneSkipSound(k: Kind, segs: seq<Segment>, tail: Vector, offset: nat, j: nat, p: Comparison)
    requires j <= |segs| && Start(segs, j) <= offset && p.Typed() && OfKind(k, Flat(segs) + tail)
    requires forall i :: 0 <= i < |segs| ==> StatsOfKind(k, segs[i].stats) && Covers(segs[i].stats, segs[i].data)
    ensures NoMatch(Flat(segs) + tail, offset, ZoneSkip(segs, offset, j, p), p)
    decreases |segs| - j
  {
    if j < |segs| {
      StartNext(segs, j);
      if offset < Start(segs, j) + |segs[j].data| {
        if Excludes(segs[j].stats, p) { SkippedRows(k, segs, tail, j, offset, p); }
      } else {
        ZoneSkipSound(k, segs, tail, offset, j + 1, p);
      }
    }
  }
}
