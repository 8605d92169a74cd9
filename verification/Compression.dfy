/** Choice of codec, and compressed segments: header, validity bitmap, data.

    The main results say what every vector comes back as under the choice the code makes
    for it, and exactly when that is the vector itself. */
module Compression {
  import opened Cells
  import opened ColumnSegments
  import opened Bits
  import opened BitPacking
  import opened Codecs
  import opened RunLengths

  datatype Choice = Uncompressed | Rle | BitPacked(width: nat) | Delta | Dictionary

  function TypeByte(c: Choice): nat {
    match c case Uncompressed => 0 case Rle => 1 case BitPacked(_) => 2 case Delta => 3 case Dictionary => 4
  }

  predicate IntVec(v: Vector) { forall i :: 0 <= i < |v| ==> v[i].Null? || (v[i].Int? && IsInt64(v[i].i)) }

  // ----- Analysis of integer vectors -----

  /** NULL slots hold zero. */
  function Raw(v: Vector): (r: seq<int>)
    requires IntVec(v)
    ensures |r| == |v| && forall i :: 0 <= i < |r| ==> IsInt64(r[i])
  {
    seq(|v|, i requires 0 <= i < |v| => if v[i].Null? then 0 else v[i].i)
  }

  predicate Identical(v: Vector)
    requires IntVec(v)
  {
    forall i, j :: 0 <= i < |v| && 0 <= j < |v| && !v[i].Null? && !v[j].Null? ==> v[i] == v[j]
  }

  method AllIdentical(v: Vector) returns (same: bool)
    requires IntVec(v)
    ensures same <==> Identical(v)
  {
    var first: Cell := Null;
    for i := 0 to |v|
      invariant first.Null? ==> forall k :: 0 <= k < i ==> v[k].Null?
      invariant !first.Null? ==> first in v[..i] && forall k :: 0 <= k < i && !v[k].Null? ==> v[k] == first
    {
      if !v[i].Null? {
        if first.Null? {
          first := v[i];
        } else if v[i] != first {
          var k :| 0 <= k < i && v[..i][k] == first;
          assert v[k] != v[i];
          return false;
        }
      }
    }
    return true;
  }

  const INT64_MAX: int := TWO_63 - 1
  const INT64_MIN: int := -TWO_63

  /** Least and greatest present value, with the source's starting values. */
  function Low(v: Vector): int
    requires IntVec(v)
  {
    if v == [] then INT64_MAX
    else
      var n := |v| - 1;
      var m := Low(v[..n]);
      if !v[n].Null? && v[n].i < m then v[n].i else m
  }

  function High(v: Vector): int
    requires IntVec(v)
  {
    if v == [] then INT64_MIN
    else
      var n := |v| - 1;
      var m := High(v[..n]);
      if !v[n].Null? && v[n].i > m then v[n].i else m
  }

  lemma {:induction false} Bounds(v: Vector)
    requires IntVec(v)
    ensures forall i :: 0 <= i < |v| && !v[i].Null? ==> Low(v) <= v[i].i <= High(v)
    ensures Low(v) != INT64_MAX ==> Int(Low(v)) in v
    ensures High(v) != INT64_MIN ==> Int(High(v)) in v
  {
    if v != [] {
      var n := |v| - 1;
      Bounds(v[..n]);
      assert v == v[..n] + [v[n]];
    }
  }

  /** Fewest bits that hold r. */
  function BitsFor(r: nat): nat { if r == 0 then 0 else 1 + BitsFor(r / 2) }

  lemma {:induction false} BitsForMeaning(r: nat, b: nat)
    ensures Pow2(b) <= r <==> b < BitsFor(r)
  {
    if r > 0 && b > 0 { BitsForMeaning(r / 2, b - 1); }
    if r == 0 { MaskFitsIff(0, b); }
  }

  /** The range is one a signed subtraction can form. */
  predicate Narrow(v: Vector)
    requires IntVec(v)
  {
    Low(v) < INT64_MAX ==> High(v) - Low(v) < TWO_63
  }

  function BitsOf(v: Vector): nat
    requires IntVec(v)
  {
    if Low(v) == INT64_MAX || High(v) < Low(v) then 0
    else if High(v) == Low(v) then 1
    else BitsFor(High(v) - Low(v))
  }

  method MinBitsRequired(v: Vector) returns (bits: nat)
    requires IntVec(v) && Narrow(v)
    ensures bits == BitsOf(v)
  {
    var mn, mx := INT64_MAX, INT64_MIN;
    for i := 0 to |v|
      invariant IntVec(v[..i]) && mn == Low(v[..i]) && mx == High(v[..i])
    {
      assert v[..i + 1][..i] == v[..i];
      if !v[i].Null? {
        if v[i].i < mn { mn := v[i].i; }
        if v[i].i > mx { mx := v[i].i; }
      }
    }
    assert v[..|v|] == v;
    if mn == INT64_MAX { return 0; }
    Bounds(v);
    var range := mx - mn;
    if range == 0 { return 1; }
    bits := 0;
    while Pow2(bits) <= range
      invariant bits <= BitsFor(range)
      decreases BitsFor(range) - bits
    {
      BitsForMeaning(range, bits);
      bits := bits + 1;
    }
    BitsForMeaning(range, bits);
  }

  predicate Monotone(v: Vector)
    requires IntVec(v)
  {
    forall i, j :: 0 <= i < j < |v| && !v[i].Null? && !v[j].Null? ==> v[i].i <= v[j].i
  }

  method IsMonotonic(v: Vector) returns (mono: bool)
    requires IntVec(v)
    ensures mono <==> Monotone(v)
  {
    var prev := INT64_MIN;
    for k := 0 to |v|
      invariant forall i :: 0 <= i < k && !v[i].Null? ==> v[i].i <= prev
      invariant prev == INT64_MIN || Int(prev) in v[..k]
      invariant forall i, j :: 0 <= i < j < k && !v[i].Null? && !v[j].Null? ==> v[i].i <= v[j].i
    {
      if !v[k].Null? {
        if v[k].i < prev {
          var i :| 0 <= i < k && v[..k][i] == Int(prev);
          assert v[i].i > v[k].i;
          return false;
        }
        prev := v[k].i;
      }
    }
    return true;
  }

  function IntChoice(v: Vector): Choice
    requires IntVec(v)
  {
    if v == [] then Uncompressed
    else if Identical(v) then Rle
    else if BitsOf(v) <= 32 then BitPacked(BitsOf(v))
    else if Monotone(v) then Delta
    else Uncompressed
  }

  predicate Present(v: Vector, i: int) { 0 <= i < |v| && !v[i].Null? }

  /** Two present values lie 2^32 or more apart. */
  ghost predicate Spread(v: Vector)
    requires IntVec(v)
  {
    exists i, j :: Present(v, i) && Present(v, j) && v[j].i - v[i].i >= 0x1_0000_0000
  }

  lemma DistinctBounds(v: Vector) returns (l: int, h: int)
    requires IntVec(v) && !Identical(v)
    ensures Present(v, l) && Present(v, h) && v[l].i == Low(v) < High(v) == v[h].i
  {
    Bounds(v);
    var i, j :| 0 <= i < |v| && 0 <= j < |v| && !v[i].Null? && !v[j].Null? && v[i] != v[j];
    l :| 0 <= l < |v| && v[l] == Int(Low(v));
    h :| 0 <= h < |v| && v[h] == Int(High(v));
  }

  lemma SpreadIff(v: Vector)
    requires IntVec(v) && !Identical(v)
    ensures Spread(v) <==> BitsOf(v) > 32
    ensures Low(v) < High(v) && BitsOf(v) == BitsFor(High(v) - Low(v)) > 0
  {
    var l, h := DistinctBounds(v);
    Bounds(v);
    TwoTo32();
    BitsForMeaning(High(v) - Low(v), 32);
  }

  /** The choice, told by the cells: run lengths for equal values, packed bits of the least
      sufficient width for values less than 2^32 apart, differences for ascending ones. */
  lemma IntChoiceMeaning(v: Vector)
    requires IntVec(v)
    ensures IntChoice(v).Rle? <==> v != [] && Identical(v)
    ensures IntChoice(v).BitPacked? <==> !Identical(v) && !Spread(v)
    ensures IntChoice(v).Delta? <==> !Identical(v) && Spread(v) && Monotone(v)
    ensures IntChoice(v).BitPacked? ==> LeastWidth(v, IntChoice(v).width)
    ensures !IntChoice(v).Dictionary?
  {
    if !Identical(v) {
      SpreadIff(v);
      if !Spread(v) { ChosenWidth(v); }
    }
  }

  /** All differences of present values fit into w bits, and one of them needs all w. */
  ghost predicate LeastWidth(v: Vector, w: nat)
    requires IntVec(v)
  {
    && w > 0 && (forall i, j :: Present(v, i) && Present(v, j) ==> v[j].i - v[i].i < Pow2(w))
    && (exists i, j :: Present(v, i) && Present(v, j) && v[j].i - v[i].i >= Pow2(w - 1))
  }

  lemma ChosenWidth(v: Vector)
    requires IntVec(v) && !Identical(v)
    ensures LeastWidth(v, BitsOf(v))
  {
    SpreadIff(v);
    var l, h := DistinctBounds(v);
    Bounds(v);
    BitsForMeaning(High(v) - Low(v), BitsOf(v));
    BitsForMeaning(High(v) - Low(v), BitsOf(v) - 1);
    assert v[h].i - v[l].i >= Pow2(BitsOf(v) - 1);
  }

  method SelectIntCompression(v: Vector) returns (c: Choice)
    requires IntVec(v) && Narrow(v)
    ensures c == IntChoice(v)
    ensures c.Rle? <==> v != [] && Identical(v)
    ensures c.BitPacked? <==> !Identical(v) && !Spread(v)
    ensures c.BitPacked? ==> LeastWidth(v, c.width)
    ensures c.Delta? <==> !Identical(v) && Spread(v) && Monotone(v)
    ensures !c.Dictionary?
  {
    IntChoiceMeaning(v);
    if |v| == 0 { return Uncompressed; }
    var same := AllIdentical(v);
    if same { return Rle; }
    var bits := MinBitsRequired(v);
    if bits <= 32 { return BitPacked(bits); }
    var mono := IsMonotonic(v);
    if mono { return Delta; }
    return Uncompressed;
  }

  // ----- What integer vectors come back as -----

  function Restore(v: Vector, values: seq<int>): Vector
    requires |values| == |v|
  {
    seq(|v|, i requires 0 <= i < |v| => if v[i].Null? then Null else Int(values[i]))
  }

  function ReloadedBy(c: Choice, v: Vector): Vector
    requires IntVec(v)
  {
    match c
    case BitPacked(w) => if v == [] then [] else Restore(v, Repacked(Raw(v), w))
    case Delta => Restore(v, Resummed(Raw(v)))
    case _ => v
  }

  function Reloaded(v: Vector): Vector
    requires IntVec(v)
  {
    ReloadedBy(IntChoice(v), v)
  }

  predicate NullFree(v: Vector) { forall i :: 0 <= i < |v| ==> !v[i].Null? }

  /** Bit packing brings a vector back exactly when the greatest present value fits above
      the least slot, where a NULL slot counts as zero. */
  lemma BitPackedIff(v: Vector, w: nat)
    requires IntVec(v) && v != [] && exists i :: 0 <= i < |v| && !v[i].Null?
    ensures ReloadedBy(BitPacked(w), v) == v <==> High(v) - MinOf(Raw(v)) < Pow2(w)
  {
    var r, min := ReloadedBy(BitPacked(w), v), MinOf(Raw(v));
    Bounds(v);
    PresentHigh(v);
    var h :| 0 <= h < |v| && v[h] == Int(High(v));
    SlotIff(v, w, h);
    if High(v) - min < Pow2(w) {
      forall i | 0 <= i < |v| ensures r[i] == v[i] {
        if !v[i].Null? { SlotIff(v, w, i); }
      }
    }
  }

  lemma SlotIff(v: Vector, w: nat, i: nat)
    requires IntVec(v) && i < |v| && !v[i].Null?
    ensures ReloadedBy(BitPacked(w), v)[i] == v[i] <==> v[i].i - MinOf(Raw(v)) < Pow2(w)
  {
    MaskFitsIff(Raw(v)[i] - MinOf(Raw(v)), w);
  }

  lemma PresentHigh(v: Vector)
    requires IntVec(v) && exists i :: 0 <= i < |v| && !v[i].Null?
    ensures Int(High(v)) in v
  {
    Bounds(v);
    var i :| 0 <= i < |v| && !v[i].Null?;
    if High(v) == INT64_MIN { assert v[i] == Int(High(v)); }
  }

  /** Without NULLs the chosen width always suffices. */
  lemma ChosenWidthFits(v: Vector)
    requires IntVec(v) && Narrow(v) && NullFree(v) && IntChoice(v).BitPacked?
    ensures High(v) - MinOf(Raw(v)) < Pow2(BitsOf(v))
  {
    LowIsLeast(v);
    TwoValuesSpread(v);
    BitsForMeaning(High(v) - Low(v), BitsOf(v));
  }

  lemma LowIsLeast(v: Vector)
    requires IntVec(v) && NullFree(v) && v != []
    ensures Low(v) <= MinOf(Raw(v))
  {
    Bounds(v);
    var raw := Raw(v);
    var m :| 0 <= m < |raw| && raw[m] == MinOf(raw);
    assert raw[m] == v[m].i;
  }

  lemma TwoValuesSpread(v: Vector)
    requires IntVec(v) && NullFree(v) && IntChoice(v).BitPacked?
    ensures INT64_MIN <= Low(v) < High(v) <= INT64_MAX
  {
    Bounds(v);
    var i, j :| 0 <= i < |v| && 0 <= j < |v| && v[i] != v[j];
  }

  /** An integer vector without NULLs comes back as itself unless it is ascending, spread
      over 2^32 or more, and has a difference that is no 32-bit integer. */
  lemma NullFreeReloadIff(v: Vector)
    requires IntVec(v) && Narrow(v) && NullFree(v)
    ensures Reloaded(v) == v <==> !(Monotone(v) && Spread(v) && !SmallSteps(Raw(v)))
  {
    IntChoiceMeaning(v);
    if Identical(v) { NoSpread(v); }
    match IntChoice(v)
    case BitPacked(_) => PackedReloads(v);
    case Delta => DeltaReloadIff(v);
    case _ =>
  }

  lemma NoSpread(v: Vector)
    requires IntVec(v) && Identical(v)
    ensures !Spread(v)
  {
  }

  predicate SmallSteps(values: seq<int>) { forall i :: 0 < i < |values| ==> IsInt32(values[i] - values[i - 1]) }

  lemma PackedReloads(v: Vector)
    requires IntVec(v) && Narrow(v) && NullFree(v) && IntChoice(v).BitPacked?
    ensures Reloaded(v) == v
  {
    assert !v[0].Null?;
    BitPackedIff(v, BitsOf(v));
    ChosenWidthFits(v);
  }

  lemma DeltaReloadIff(v: Vector)
    requires IntVec(v) && NullFree(v)
    ensures ReloadedBy(Delta, v) == v <==> SmallSteps(Raw(v))
  {
    ResummedIff(Raw(v));
    RestoreIff(v, Resummed(Raw(v)));
  }

  lemma RestoreIff(v: Vector, values: seq<int>)
    requires IntVec(v) && NullFree(v) && |values| == |v|
    ensures Restore(v, values) == v <==> values == Raw(v)
  {
    if Restore(v, values) == v {
      forall i | 0 <= i < |v| ensures values[i] == Raw(v)[i] { assert Restore(v, values)[i] == v[i]; }
    }
  }

  // ----- Differences of vectors with NULLs -----

  /** The last present slot before i, or -1. */
  function Before(v: Vector, i: nat): (p: int)
    requires i <= |v|
    ensures -1 <= p < i && (p >= 0 ==> !v[p].Null?)
  {
    if i == 0 then -1 else if !v[i - 1].Null? then i - 1 else Before(v, i - 1)
  }

  /** The difference that leads to a present slot is a 32-bit integer; or, across NULL slots,
      which hold zero, the steps down to zero and up again wrap around to the same sum. */
  predicate StepFits(v: Vector, i: nat)
    requires IntVec(v) && i < |v|
  {
    v[i].Null? || i == 0 ||
    if !v[i - 1].Null? then IsInt32(v[i].i - v[i - 1].i)
    else if Before(v, i) < 0 then IsInt32(v[i].i)
    else Wrap32(-v[Before(v, i)].i) + Wrap32(v[i].i) == v[i].i - v[Before(v, i)].i
  }

  /** What the running sum holds in slot i if all went well so far. */
  function Running(v: Vector, i: nat): int
    requires IntVec(v) && i < |v|
  {
    if !v[i].Null? then v[i].i
    else if Before(v, i) < 0 then 0
    else v[Before(v, i)].i + Wrap32(-v[Before(v, i)].i)
  }

  lemma {:induction false} ResummedAt(values: seq<int>, i: nat)
    requires 0 < i < |values|
    ensures Resummed(values)[i] == Resummed(values)[i - 1] + Wrap32(values[i] - values[i - 1])
  {
    var n := |values| - 1;
    if i < n { ResummedAt(values[..n], i); }
  }

  lemma {:induction false} ResummedFirst(values: seq<int>)
    requires values != []
    ensures Resummed(values)[0] == values[0]
  {
    if |values| > 1 { ResummedFirst(values[..|values| - 1]); }
  }

  predicate SlotsBack(v: Vector, n: nat)
    requires IntVec(v) && n <= |v|
  {
    forall i :: 0 <= i < n && !v[i].Null? ==> Resummed(Raw(v))[i] == v[i].i
  }

  lemma NextSlot(v: Vector, n: nat)
    requires IntVec(v) && 0 < n < |v| && Resummed(Raw(v))[n - 1] == Running(v, n - 1)
    ensures !v[n].Null? ==> (Resummed(Raw(v))[n] == v[n].i <==> StepFits(v, n))
    ensures v[n].Null? || StepFits(v, n) ==> Resummed(Raw(v))[n] == Running(v, n)
  {
    ResummedAt(Raw(v), n);
    if !v[n].Null? && !v[n - 1].Null? { Wrap32Iff(v[n].i - v[n - 1].i); }
    if !v[n].Null? && v[n - 1].Null? { Wrap32Iff(v[n].i); }
  }

  lemma {:induction false} SlotsBackIff(v: Vector, n: nat)
    requires IntVec(v) && 0 < n <= |v|
    ensures SlotsBack(v, n) <==> forall i :: 0 <= i < n ==> StepFits(v, i)
    ensures SlotsBack(v, n) ==> Resummed(Raw(v))[n - 1] == Running(v, n - 1)
  {
    if n == 1 {
      ResummedFirst(Raw(v));
    } else {
      SlotsBackIff(v, n - 1);
      if SlotsBack(v, n - 1) { NextSlot(v, n - 1); }
    }
  }

  /** A vector sent to differences, NULLs or not, comes back exactly when every step fits. */
  lemma DeltaIff(v: Vector)
    requires IntVec(v) && v != []
    ensures ReloadedBy(Delta, v) == v <==> forall i :: 0 <= i < |v| ==> StepFits(v, i)
  {
    var r := ReloadedBy(Delta, v);
    SlotsBackIff(v, |v|);
    if r == v {
      forall i | 0 <= i < |v| && !v[i].Null? ensures Resummed(Raw(v))[i] == v[i].i { assert r[i] == v[i]; }
    }
  }

  // ----- Every choice -----

  /** Equal values always survive.  Of the others, those 2^32 or more apart do if they are
      not ascending or every step fits, and those closer together if no more bits are needed
      when the NULL slots count as zero. */
  ghost predicate Survives(v: Vector)
    requires IntVec(v)
  {
    if Identical(v) then true
    else if Spread(v) then Monotone(v) ==> forall i :: 0 <= i < |v| ==> StepFits(v, i)
    else Low(v) <= High(v) && High(v) - MinOf(Raw(v)) < Pow2(BitsFor(High(v) - Low(v)))
  }

  lemma SurvivesIff(v: Vector)
    requires IntVec(v)
    ensures Reloaded(v) == v <==> Survives(v)
  {
    IntChoiceMeaning(v);
    if !Identical(v) { SpreadIff(v); }
    match IntChoice(v)
    case BitPacked(w) => BitPackedIff(v, w);
    case Delta => DeltaIff(v);
    case _ =>
  }

  /** All present values are the same. */
  ghost predicate AllEqual(v: Vector) { forall i, j :: Present(v, i) && Present(v, j) ==> v[i] == v[j] }

  /** Some present value is smaller than one before it. */
  ghost predicate Falls(v: Vector)
    requires IntVec(v)
  {
    exists i, j :: i < j && Present(v, i) && Present(v, j) && v[i].i > v[j].i
  }

  /** Two neighbours differ by more than 32 bits hold. */
  ghost predicate LargeStep(v: Vector)
    requires IntVec(v)
  {
    exists i :: Present(v, i) && Present(v, i + 1) && !(-0x8000_0000 <= v[i + 1].i - v[i].i < 0x8000_0000)
  }

  lemma CellsOfChoice(v: Vector)
    requires IntVec(v)
    ensures (AllEqual(v) <==> Identical(v)) && (Falls(v) <==> !Monotone(v))
    ensures NullFree(v) ==> (LargeStep(v) <==> !SmallSteps(Raw(v)))
  {
    if Identical(v) { assert AllEqual(v); }
    if NullFree(v) { LargeStepIff(v); }
  }

  lemma LargeStepIff(v: Vector)
    requires IntVec(v) && NullFree(v)
    ensures LargeStep(v) <==> !SmallSteps(Raw(v))
  {
    var r := Raw(v);
    if LargeStep(v) {
      var i :| Present(v, i) && Present(v, i + 1) && !(-0x8000_0000 <= v[i + 1].i - v[i].i < 0x8000_0000);
      assert !IsInt32(r[i + 1] - r[i + 1 - 1]);
    }
    if !SmallSteps(r) {
      var i :| 0 < i < |r| && !IsInt32(r[i] - r[i - 1]);
      assert Present(v, i - 1) && Present(v, i - 1 + 1);
    }
  }

  /** What survives, told by the cells alone. */
  lemma SurvivesByCells(v: Vector)
    requires IntVec(v) && Narrow(v)
    ensures AllEqual(v) ==> Survives(v)
    ensures Spread(v) && Falls(v) ==> Survives(v)
    ensures NullFree(v) ==> (Survives(v) <==> !(Spread(v) && !Falls(v) && LargeStep(v)))
  {
    CellsOfChoice(v);
    if NullFree(v) {
      SurvivesIff(v);
      NullFreeReloadIff(v);
    }
  }

  /** Two values 2^33 apart are sent to differences and come back wrong. */
  lemma LargeStepBreaksDelta()
    ensures var v := [Int(0), Int(0x2_0000_0000)]; IntVec(v) && Narrow(v) && IntChoice(v).Delta? && Reloaded(v) != v
  {
    LargeStepChoice();
    LargeStepLost();
  }

  lemma LargeStepChoice()
    ensures var v := [Int(0), Int(0x2_0000_0000)]; IntVec(v) && Narrow(v) && IntChoice(v).Delta?
  {
    var v := [Int(0), Int(0x2_0000_0000)];
    LargeStepBounds();
    TwoTo32();
    BitsForMeaning(0x2_0000_0000, 32);
    assert v[0] != v[1];
  }

  lemma LargeStepLost()
    ensures var v := [Int(0), Int(0x2_0000_0000)]; IntVec(v) && ReloadedBy(Delta, v) != v
  {
    var v := [Int(0), Int(0x2_0000_0000)];
    DeltaIff(v);
    assert !StepFits(v, 1);
  }

  lemma LargeStepBounds()
    ensures var v := [Int(0), Int(0x2_0000_0000)]; IntVec(v) && Low(v) == 0 && High(v) == 0x2_0000_0000
  {
    var v := [Int(0), Int(0x2_0000_0000)];
    assert v[..1] == [Int(0)] && v[..1][..0] == [];
    assert Low(v[..1][..0]) == INT64_MAX && High(v[..1][..0]) == INT64_MIN;
    assert Low(v[..1]) == 0 && High(v[..1]) == 0;
  }

  lemma TwoTo32()
    ensures Pow2(32) == TWO_32
  {
    assert Pow2(8) == 256;
    Pow2Sum(8, 8);
    Pow2Sum(16, 16);
  }

  lemma {:induction false} Pow2Sum(a: nat, b: nat)
    ensures Pow2(a + b) == Pow2(a) * Pow2(b)
  {
    if b > 0 { Pow2Sum(a, b - 1); }
  }

  const NULL_BREAKS: Vector := [Null, Int(100), Int(101)]

  /** One NULL in a bit-packed vector corrupts the other values: the width is chosen from
      the present values, the minimum is taken over the zero in the NULL slot as well. */
  lemma NullBreaksBitPacking()
    ensures IntVec(NULL_BREAKS) && Narrow(NULL_BREAKS) && IntChoice(NULL_BREAKS) == BitPacked(1) &&
      Reloaded(NULL_BREAKS) != NULL_BREAKS
  {
    var v := NULL_BREAKS;
    var v1, v2, v3 := v[..1], v[..2], v[..3];
    assert v3 == v && v3[..2] == v2 && v2[..1] == v1 && v1[..0] == [];
    assert Low(v1[..0]) == INT64_MAX && High(v1[..0]) == INT64_MIN;
    assert v1[0].Null?;
    assert Low(v1) == INT64_MAX;
    assert High(v1) == INT64_MIN;
    assert Low(v2) == 100 && High(v2) == 100;
    assert Low(v) == 100 && High(v) == 101;
    assert BitsFor(1) == 1;
    assert v[1] != v[2];
    var raw := Raw(v);
    assert raw[0] == 0 && MinOf(raw) <= 0;
    assert Pow2(1) == 2;
    BitPackedIff(v, 1);
  }

  // ----- Segment blocks -----

  function HeaderBytes(c: Choice, n: nat, bitmapSize: nat): Bytes {
    [TypeByte(c)] + LeBytes(n, 4) + LeBytes(bitmapSize, 4)
  }

  const HEADER_SIZE: nat := 9

  /** A buffer that starts with a segment; `rest` is its data and all that follows. */
  ghost predicate IsSegment(buffer: Bytes, c: Choice, n: nat, bitmap: Bytes, rest: Bytes) {
    buffer == HeaderBytes(c, n, |bitmap|) + bitmap + rest
  }

  /** Read a header and the bitmap behind it. */
  method ReadSegment(buffer: Bytes, ghost c: Choice, ghost n: nat, ghost bitmap: Bytes, ghost rest: Bytes)
    returns (kind: nat, rows: nat, validity: Bytes, data: Bytes)
    requires IsSegment(buffer, c, n, bitmap, rest) && n < Pow256(4) && |bitmap| < Pow256(4)
    ensures kind == TypeByte(c) && rows == n && validity == bitmap && data == rest
  {
    SegmentParts(buffer, c, n, bitmap, rest);
    kind := buffer[0];
    rows := ReadStored(buffer, 1, 4, n);
    var size := ReadStored(buffer, 5, 4, |bitmap|);
    validity := Slice(buffer, HEADER_SIZE, size);
    data := buffer[HEADER_SIZE + size..];
  }

  lemma SegmentParts(buffer: Bytes, c: Choice, n: nat, bitmap: Bytes, rest: Bytes)
    requires IsSegment(buffer, c, n, bitmap, rest)
    ensures |buffer| == HEADER_SIZE + |bitmap| + |rest| && buffer[0] == TypeByte(c)
    ensures Slice(buffer, 1, 4) == LeBytes(n, 4) && Slice(buffer, 5, 4) == LeBytes(|bitmap|, 4)
    ensures Slice(buffer, HEADER_SIZE, |bitmap|) == bitmap && buffer[HEADER_SIZE + |bitmap|..] == rest
  {
    var a, b, d := [TypeByte(c)], LeBytes(n, 4), LeBytes(|bitmap|, 4);
    assert buffer == a + (b + d + bitmap + rest);
    Parts(a, b, d + bitmap + rest, buffer);
    Parts(a + b, d, bitmap + rest, buffer);
    Parts(a + b + d, bitmap, rest, buffer);
  }

  lemma Parts(a: Bytes, b: Bytes, c: Bytes, src: Bytes)
    requires src == a + b + c
    ensures |src| == |a| + |b| + |c| && Slice(src, |a|, |b|) == b && src[|a| + |b|..] == c
  {
  }

  // ----- Integer segments -----

  /** The data bytes encode v under choice c. */
  ghost predicate Encodes(c: Choice, v: Vector, data: Bytes)
    requires IntVec(v)
  {
    match c
    case Uncompressed => Words(Unsigned(Raw(v)), 8) <= data
    case Rle => RunsOk(RunsOf(v)) && Join(Pieces(RunsOf(v))) <= data && Expand(RunsOf(v)) == v
    case BitPacked(w) =>
      v != [] && |data| >= 9 && data[0] == w && Stored(data[1..]) == MinOf(Raw(v)) &&
        HoldsFields(data[1..], Raw(v), MinOf(Raw(v)), w)
    case Delta => v != [] && LeBytes(ToU64(Raw(v)[0]), 8) + Words(Steps(Raw(v)), 4) <= data
    case Dictionary => false
  }

  /** The data part, in front of whatever the buffer held behind it. */
  method EncodeInts(c: Choice, v: Vector, bitmap: Bytes, tail: Bytes) returns (data: Bytes)
    requires IntVec(v) && |v| < Pow256(4) && IsBitmap(bitmap, v) && !c.Dictionary? &&
      (c.BitPacked? || c.Delta? ==> v != [])
    ensures Encodes(c, v, data)
  {
    var bytes: Bytes := [];
    match c {
      case Uncompressed => bytes := PlainEncode(Raw(v));
      case Rle =>
        bytes := RleEncode(Raw(v), bitmap);
        UnderRaw(v, bitmap);
        RunsExpand(v, 0);
        assert v[0..] == v;
      case BitPacked(w) =>
        data := EncodePacked(v, w, tail);
        return;
      case Delta => bytes := DeltaEncode(Raw(v));
      case Dictionary =>
    }
    data := bytes + tail;
  }

  lemma UnderRaw(v: Vector, bitmap: Bytes)
    requires IntVec(v) && IsBitmap(bitmap, v)
    ensures Under(bitmap, Ints(Raw(v))) == v
  {
  }

  lemma BehindWidth(w: nat, bytes: Bytes, tail: Bytes, data: Bytes)
    requires data == [w] + bytes + tail && |bytes| >= 8
    ensures data[1..] == bytes + tail && data[1..][..|bytes|] == bytes && data[1..][..8] == bytes[..8]
  {
  }

  method EncodePacked(v: Vector, w: nat, tail: Bytes) returns (data: Bytes)
    requires IntVec(v) && v != []
    ensures |data| >= 9 && data[0] == w && Stored(data[1..]) == MinOf(Raw(v)) &&
      HoldsFields(data[1..], Raw(v), MinOf(Raw(v)), w)
  {
    var raw := Raw(v);
    var bytes := BitPackEncode(raw, w);
    data := [w] + bytes + tail;
    ghost var src := data[1..];
    BehindWidth(w, bytes, tail, data);
    StoredBack(src, MinOf(raw));
    HoldsPrefix(src, |bytes|, raw, MinOf(raw), w);
  }

  /** The buffer starts with a segment that encodes v under choice c. */
  ghost predicate Compressed(buffer: Bytes, c: Choice, v: Vector)
    requires IntVec(v)
  {
    exists bitmap: Bytes, data: Bytes :: IsSegment(buffer, c, |v|, bitmap, data) && IsBitmap(bitmap, v) &&
      Encodes(c, v, data)
  }

  /** Compress into a buffer; `tail` is what the buffer held behind the segment. */
  method CompressInts(c: Choice, v: Vector, tail: Bytes) returns (buffer: Bytes)
    requires IntVec(v) && |v| < Pow256(4) && !c.Dictionary? && (c.BitPacked? || c.Delta? ==> v != [])
    ensures Compressed(buffer, c, v)
  {
    var bitmap := BuildBitmap(v);
    var data := EncodeInts(c, v, bitmap, tail);
    buffer := HeaderBytes(c, |v|, |bitmap|) + bitmap + data;
    assert IsSegment(buffer, c, |v|, bitmap, data);
  }

  /** Decoding by the type byte. */
  method DecodeInts(kind: nat, n: nat, bitmap: Bytes, data: Bytes, ghost c: Choice, ghost v: Vector)
      returns (out: Vector)
    requires IntVec(v) && |v| == n && kind == TypeByte(c) && IsBitmap(bitmap, v) && Encodes(c, v, data)
    ensures out == ReloadedBy(c, v)
  {
    if kind == 1 {
      var payload, validity := RleDecode(data, n, RunsOf(v));
      out := ApplyBitmap(validity, payload);
      return;
    }
    var values: seq<int>;
    if kind == 0 {
      values := PlainDecode(data, Raw(v), n);
    } else if kind == 2 {
      values := DecodePacked(data, n, v, c.width);
    } else {
      values := DeltaDecode(data, Raw(v), n);
    }
    out := ApplyBitmap(bitmap, Ints(values));
    UnderInts(v, values, bitmap);
    if kind == 0 { assert Restore(v, Raw(v)) == v; }
  }

  lemma UnderInts(v: Vector, values: seq<int>, bitmap: Bytes)
    requires |values| == |v| && IsBitmap(bitmap, v)
    ensures Under(bitmap, Ints(values)) == Restore(v, values)
  {
  }

  method DecodePacked(data: Bytes, n: nat, ghost v: Vector, ghost w: nat) returns (values: seq<int>)
    requires IntVec(v) && v != [] && |v| == n && |data| >= 9 && data[0] == w
    requires Stored(data[1..]) == MinOf(Raw(v)) && HoldsFields(data[1..], Raw(v), MinOf(Raw(v)), w)
    ensures values == Repacked(Raw(v), w)
  {
    values := BitPackDecode(data[1..], n, data[0]);
    UnpackedIsRepacked(data[1..], Raw(v), w, values);
  }

  /** Compress under the code's own choice, then decompress from the same buffer. */
  method StoreAndLoadInts(v: Vector, tail: Bytes) returns (out: Vector)
    requires IntVec(v) && Narrow(v) && |v| < Pow256(4)
    ensures out == Reloaded(v) && (out == v <==> Survives(v))
    ensures AllEqual(v) ==> out == v
    ensures Spread(v) && Falls(v) ==> out == v
    ensures NullFree(v) ==> (out == v <==> !(Spread(v) && !Falls(v) && LargeStep(v)))
  {
    var c := SelectIntCompression(v);
    var buffer := CompressInts(c, v, tail);
    out := DecompressInts(buffer, c, v);
    SurvivesIff(v);
    SurvivesByCells(v);
  }

  /** Decompressing gives what the choice brings the vector back as. */
  method DecompressInts(buffer: Bytes, ghost c: Choice, ghost v: Vector) returns (out: Vector)
    requires IntVec(v) && |v| < Pow256(4) && Compressed(buffer, c, v)
    ensures out == ReloadedBy(c, v)
  {
    ghost var bitmap: Bytes, data: Bytes :| IsSegment(buffer, c, |v|, bitmap, data) && IsBitmap(bitmap, v) &&
      Encodes(c, v, data);
    var kind, rows, validity, rest := ReadSegment(buffer, c, |v|, bitmap, data);
    out := DecodeInts(kind, rows, validity, rest, c, v);
  }

  // ----- The codec a column chunk runs on -----

  /** The integer codec as a column chunk sees it: what a vector comes back as under the
      chosen codec, what it comes back as uncompressed, and when that is the choice. */
  function IntCodec(): Codec {
    Codec((v: Vector) => if IntVec(v) then Reloaded(v) else v, (v: Vector) => v,
          (v: Vector) => IntVec(v) && IntChoice(v).Uncompressed?)
  }

  /** Flushing an integer vector loses nothing exactly when it survives the choice made for
      it; one without NULLs, unless it is ascending and spread with a large difference. */
  lemma IntCodecLosslessIff(v: Vector)
    requires IntVec(v) && Narrow(v)
    ensures IntCodec().load(v) == v <==> Survives(v)
    ensures NullFree(v) ==> (IntCodec().load(v) == v <==> !(Monotone(v) && Spread(v) && !SmallSteps(Raw(v))))
  {
    SurvivesIff(v);
    if NullFree(v) { NullFreeReloadIff(v); }
  }
}
