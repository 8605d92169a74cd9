/** The byte codecs behind a compressed segment that work word by word: validity bitmap,
    plain integers and differences.  Every decoder reads from a buffer that may hold further
    bytes behind the encoding. */
module Codecs {
  import opened Cells
  import opened ColumnSegments
  import opened Bits
  import opened BitPacking

  // ----- Cursor reads -----

  /** The n bytes at pos. */
  function Slice(src: Bytes, pos: nat, n: nat): Bytes
    requires pos + n <= |src|
  {
    src[pos..pos + n]
  }

  method ReadWord(src: Bytes, pos: nat, k: nat) returns (n: nat)
    requires pos + k <= |src|
    ensures n == FromLe(Slice(src, pos, k))
  {
    n := 0;
    var i := k;
    while i > 0
      invariant 0 <= i <= k && n == FromLe(src[pos + i..pos + k])
    {
      assert src[pos + i - 1..pos + k][1..] == src[pos + i..pos + k];
      n := src[pos + i - 1] + 256 * n;
      i := i - 1;
    }
  }

  function Join(pieces: seq<Bytes>): Bytes {
    if pieces == [] then [] else Join(pieces[..|pieces| - 1]) + pieces[|pieces| - 1]
  }

  lemma JoinMore(pieces: seq<Bytes>, piece: Bytes)
    ensures Join(pieces + [piece]) == Join(pieces) + piece
  {
    assert (pieces + [piece])[..|pieces|] == pieces;
  }

  lemma {:induction false} JoinPrefix(pieces: seq<Bytes>, j: nat)
    requires j <= |pieces|
    ensures Join(pieces[..j]) <= Join(pieces)
  {
    var n := |pieces| - 1;
    if j <= n {
      JoinPrefix(pieces[..n], j);
      assert pieces[..n][..j] == pieces[..j];
    } else {
      assert pieces[..j] == pieces;
    }
  }

  /** Piece j sits behind the pieces before it. */
  lemma PieceAt(src: Bytes, base: nat, pieces: seq<Bytes>, j: nat)
    requires j < |pieces| && base <= |src| && Join(pieces) <= src[base..]
    ensures base + |Join(pieces[..j])| <= |src| && pieces[j] <= src[base + |Join(pieces[..j])|..]
    ensures |Join(pieces[..j + 1])| == |Join(pieces[..j])| + |pieces[j]|
  {
    JoinPrefix(pieces, j + 1);
    assert pieces[..j + 1][..j] == pieces[..j];
    BehindHead(Join(pieces[..j]), pieces[j], src[base..]);
    assert src[base..][|Join(pieces[..j])|..] == src[base + |Join(pieces[..j])|..];
  }

  lemma BehindHead(a: Bytes, b: Bytes, src: Bytes)
    requires a + b <= src
    ensures b <= src[|a|..]
  {
    assert src[|a|..][..|b|] == b;
  }

  /** Reading k bytes that hold m gives m. */
  method ReadStored(src: Bytes, pos: nat, k: nat, ghost m: nat) returns (n: nat)
    requires pos + k <= |src| && Slice(src, pos, k) == LeBytes(m, k) && m < Pow256(k)
    ensures n == m
  {
    LeRoundTrip(m, k);
    n := ReadWord(src, pos, k);
  }

  method ReadSigned(src: Bytes, pos: nat, ghost v: int) returns (x: int)
    requires IsInt64(v) && pos + 8 <= |src| && Slice(src, pos, 8) == LeBytes(ToU64(v), 8)
    ensures x == v
  {
    Widths();
    var u := ReadStored(src, pos, 8, ToU64(v));
    x := FromU64(u);
  }

  // ----- Validity bitmap -----

  function SetBit(bitmap: Bytes, i: nat): Bytes
    requires i / 8 < |bitmap|
  {
    bitmap[i / 8 := BitOr(bitmap[i / 8], Shl(1, i % 8))]
  }

  lemma {:induction false} OneBit(k: nat)
    ensures Bit(1, k) <==> k == 0
  {
    if k > 0 { ZeroBits(k - 1); }
  }

  lemma SetBitMeaning(bitmap: Bytes, i: nat, p: nat)
    requires i / 8 < |bitmap| && p / 8 < |bitmap|
    ensures BufBit(SetBit(bitmap, i), p) <==> p == i || BufBit(bitmap, p)
  {
    if p / 8 == i / 8 {
      OrBit(bitmap[i / 8], Shl(1, i % 8), p % 8);
      ShlBit(1, i % 8, p % 8);
      if p % 8 >= i % 8 { OneBit(p % 8 - i % 8); }
    }
  }

  function BitmapBytes(n: nat): nat { (n + 7) / 8 }

  /** Bit i says that cell i is present. */
  ghost predicate IsBitmap(bitmap: Bytes, v: Vector) {
    |bitmap| == BitmapBytes(|v|) && forall i: nat :: i < |v| ==> (BufBit(bitmap, i) <==> !v[i].Null?)
  }

  method BuildBitmap(v: Vector) returns (bitmap: Bytes)
    ensures IsBitmap(bitmap, v)
  {
    bitmap := seq(BitmapBytes(|v|), _ => 0);
    forall p: nat | p < |v| ensures !BufBit(bitmap, p) { ZeroBits(p % 8); }
    for i := 0 to |v|
      invariant |bitmap| == BitmapBytes(|v|)
      invariant forall p: nat :: p < |v| ==> (BufBit(bitmap, p) <==> p < i && !v[p].Null?)
    {
      if !v[i].Null? {
        forall p: nat | p < |v|
          ensures BufBit(SetBit(bitmap, i), p) <==> p == i || BufBit(bitmap, p)
        {
          SetBitMeaning(bitmap, i, p);
        }
        bitmap := SetBit(bitmap, i);
      }
    }
  }

  /** Payload cells under a bitmap. */
  function Under(bitmap: Bytes, payload: Vector): Vector
    requires |bitmap| == BitmapBytes(|payload|)
  {
    seq(|payload|, i requires 0 <= i < |payload| => if BufBit(bitmap, i) then payload[i] else Null)
  }

  method ApplyBitmap(bitmap: Bytes, payload: Vector) returns (v: Vector)
    requires |bitmap| == BitmapBytes(|payload|)
    ensures v == Under(bitmap, payload)
  {
    v := [];
    for i := 0 to |payload|
      invariant |v| == i && forall k :: 0 <= k < i ==> v[k] == if BufBit(bitmap, k) then payload[k] else Null
    {
      if BufBit(bitmap, i) { v := v + [payload[i]]; } else { v := v + [Null]; }
    }
  }

  /** The first cells of the output are done, and no later bit is set. */
  ghost predicate Filled(payload: Vector, bitmap: Bytes, done: Vector) {
    && |bitmap| == BitmapBytes(|payload|) && |done| <= |payload|
    && (forall i: nat :: i < |done| ==> done[i] == if BufBit(bitmap, i) then payload[i] else Null)
    && (forall i: nat :: |done| <= i < |payload| ==> !BufBit(bitmap, i))
  }

  lemma FilledOne(payload: Vector, bitmap: Bytes, done: Vector, c: Cell)
    requires Filled(payload, bitmap, done) && |done| < |payload|
    ensures Filled(payload[|done| := c], SetBit(bitmap, |done|), done + [c])
    ensures Filled(payload, bitmap, done + [Null])
  {
    forall p: nat | p < |payload| ensures BufBit(SetBit(bitmap, |done|), p) <==> p == |done| || BufBit(bitmap, p) {
      SetBitMeaning(bitmap, |done|, p);
    }
  }

  lemma FilledIsUnder(payload: Vector, bitmap: Bytes, done: Vector)
    requires Filled(payload, bitmap, done) && |done| == |payload|
    ensures Under(bitmap, payload) == done
  {
  }

  // ----- Words of k bytes -----

  function Words(ns: seq<nat>, k: nat): Bytes {
    if ns == [] then [] else Words(ns[..|ns| - 1], k) + LeBytes(ns[|ns| - 1], k)
  }

  lemma {:induction false} WordsLength(ns: seq<nat>, k: nat)
    ensures |Words(ns, k)| == Times(|ns|, k)
  {
    if ns != [] { WordsLength(ns[..|ns| - 1], k); }
  }

  lemma {:induction false} WordAt(ns: seq<nat>, k: nat, i: nat)
    requires i < |ns|
    ensures Times(i, k) + k <= |Words(ns, k)| && Slice(Words(ns, k), Times(i, k), k) == LeBytes(ns[i], k)
  {
    var n := |ns| - 1;
    WordsLength(ns[..n], k);
    if i < n {
      WordAt(ns[..n], k, i);
      var init := Words(ns[..n], k);
      assert Words(ns, k)[..|init|] == init;
      assert Slice(Words(ns, k), Times(i, k), k) == Slice(init, Times(i, k), k);
    }
  }

  lemma SliceAt(src: Bytes, base: nat, part: Bytes, at: nat, k: nat)
    requires base <= |src| && part <= src[base..] && at + k <= |part|
    ensures base + at + k <= |src| && Slice(src, base + at, k) == Slice(part, at, k)
  {
    assert part == src[base..][..|part|];
    assert src[base + at..base + at + k] == src[base..][at..at + k];
  }

  /** Word i of a buffer that holds the words at `base`. */
  lemma WordIn(src: Bytes, base: nat, ns: seq<nat>, k: nat, i: nat)
    requires i < |ns| && base <= |src| && Words(ns, k) <= src[base..]
    ensures base + Times(i, k) + k <= |src| && Slice(src, base + Times(i, k), k) == LeBytes(ns[i], k)
  {
    WordAt(ns, k, i);
    PartIn(src, base, Words(ns, k), Times(i, k), k, LeBytes(ns[i], k));
  }

  lemma FirstWordIn(src: Bytes, ns: seq<nat>, k: nat, i: nat)
    requires i < |ns| && Words(ns, k) <= src
    ensures Times(i, k) + k <= |src| && Slice(src, Times(i, k), k) == LeBytes(ns[i], k)
  {
    WordAt(ns, k, i);
    PrefixSlice(src, Words(ns, k), Times(i, k), k);
  }

  lemma PrefixSlice(src: Bytes, part: Bytes, at: nat, k: nat)
    requires part <= src && at + k <= |part|
    ensures Slice(src, at, k) == Slice(part, at, k)
  {
  }

  lemma PartIn(src: Bytes, base: nat, part: Bytes, at: nat, k: nat, w: Bytes)
    requires base <= |src| && part <= src[base..] && at + k <= |part| && Slice(part, at, k) == w
    ensures base + at + k <= |src| && Slice(src, base + at, k) == w
  {
    SliceAt(src, base, part, at, k);
  }

  // ----- Plain 64-bit integers -----

  function Unsigned(values: seq<int>): seq<nat>
    requires forall i :: 0 <= i < |values| ==> IsInt64(values[i])
  {
    seq(|values|, i requires 0 <= i < |values| => ToU64(values[i]))
  }

  method PlainEncode(values: seq<int>) returns (bytes: Bytes)
    requires forall i :: 0 <= i < |values| ==> IsInt64(values[i])
    ensures bytes == Words(Unsigned(values), 8)
  {
    bytes := [];
    for i := 0 to |values|
      invariant bytes == Words(Unsigned(values)[..i], 8)
    {
      assert Unsigned(values)[..i + 1][..i] == Unsigned(values)[..i];
      bytes := bytes + LeBytes(ToU64(values[i]), 8);
    }
    assert Unsigned(values)[..|values|] == Unsigned(values);
  }

  lemma PlainWord(src: Bytes, values: seq<int>, i: nat)
    requires (forall k :: 0 <= k < |values| ==> IsInt64(values[k])) && Words(Unsigned(values), 8) <= src && i < |values|
    ensures Times(i, 8) + 8 <= |src| && Slice(src, Times(i, 8), 8) == LeBytes(ToU64(values[i]), 8)
  {
    FirstWordIn(src, Unsigned(values), 8, i);
  }

  /** Plain integers read back as they were. */
  method PlainDecode(src: Bytes, ghost values: seq<int>, n: nat) returns (out: seq<int>)
    requires |values| == n && (forall i :: 0 <= i < n ==> IsInt64(values[i])) && Words(Unsigned(values), 8) <= src
    ensures out == values
  {
    out := [];
    var pos := 0;
    for i := 0 to n
      invariant pos == Times(i, 8) && out == values[..i]
    {
      PlainWord(src, values, i);
      var v := ReadSigned(src, pos, values[i]);
      out := out + [v];
      pos := pos + 8;
    }
  }

  // ----- Differences -----

  predicate IsInt32(d: int) { -0x8000_0000 <= d < 0x8000_0000 }

  /** The conversion static_cast<uint32_t>(static_cast<int32_t>(d)). */
  function Low32(d: int): nat { d % TWO_32 }

  function Signed32(u: nat): int { if u < 0x8000_0000 then u else u - TWO_32 }

  /** What a difference comes back as. */
  function Wrap32(d: int): int { Signed32(Low32(d)) }

  lemma Wrap32Iff(d: int)
    ensures Wrap32(d) == d <==> IsInt32(d)
  {
  }

  function Steps(values: seq<int>): seq<nat>
    requires values != []
  {
    seq(|values| - 1, i requires 0 <= i < |values| - 1 => Low32(values[i + 1] - values[i]))
  }

  /** The running sum the decoder forms. */
  function Resummed(values: seq<int>): (r: seq<int>)
    ensures |r| == |values|
  {
    if |values| <= 1 then values
    else
      var n := |values| - 1;
      var r := Resummed(values[..n]);
      r + [r[n - 1] + Wrap32(values[n] - values[n - 1])]
  }

  /** Differences bring a vector back exactly when each of them is a 32-bit integer. */
  lemma {:induction false} ResummedIff(values: seq<int>)
    ensures Resummed(values) == values <==> forall i :: 0 < i < |values| ==> IsInt32(values[i] - values[i - 1])
  {
    if |values| > 1 {
      var n := |values| - 1;
      ResummedIff(values[..n]);
      Wrap32Iff(values[n] - values[n - 1]);
      assert values == values[..n] + [values[n]];
      if Resummed(values) == values {
        assert Resummed(values)[..n] == Resummed(values[..n]);
        forall i | 0 < i < |values| ensures IsInt32(values[i] - values[i - 1]) {
          if i < n { assert values[..n][i] == values[i] && values[..n][i - 1] == values[i - 1]; }
        }
      }
    }
  }

  lemma WordsMore(head: Bytes, ns: seq<nat>, i: nat)
    requires i < |ns|
    ensures head + Words(ns[..i + 1], 4) == head + Words(ns[..i], 4) + LeBytes(ns[i], 4)
  {
    assert ns[..i + 1][..i] == ns[..i];
  }

  method DeltaEncode(values: seq<int>) returns (bytes: Bytes)
    requires values != [] && IsInt64(values[0])
    ensures bytes == LeBytes(ToU64(values[0]), 8) + Words(Steps(values), 4)
  {
    var head := LeBytes(ToU64(values[0]), 8);
    bytes := AppendSteps(head, values);
  }

  method AppendSteps(head: Bytes, values: seq<int>) returns (bytes: Bytes)
    requires values != []
    ensures bytes == head + Words(Steps(values), 4)
  {
    ghost var steps := Steps(values);
    bytes := head;
    NoWords(head, steps);
    for i := 1 to |values|
      invariant bytes == head + Words(steps[..i - 1], 4)
    {
      WordsMore(head, steps, i - 1);
      bytes := AppendStep(bytes, values, i);
    }
    assert steps[..|values| - 1] == steps;
  }

  method AppendStep(before: Bytes, values: seq<int>, i: nat) returns (bytes: Bytes)
    requires 0 < i < |values|
    ensures bytes == before + LeBytes(Steps(values)[i - 1], 4)
  {
    var d := Low32(values[i] - values[i - 1]);
    assert d == Steps(values)[i - 1];
    bytes := before + LeBytes(d, 4);
  }

  lemma NoWords(head: Bytes, ns: seq<nat>)
    ensures head + Words(ns[..0], 4) == head
  {
  }

  method DeltaDecode(src: Bytes, ghost values: seq<int>, n: nat) returns (out: seq<int>)
    requires |values| == n > 0 && IsInt64(values[0])
    requires LeBytes(ToU64(values[0]), 8) + Words(Steps(values), 4) <= src
    ensures out == Resummed(values)
  {
    DeltaParts(src, values);
    var first := ReadSigned(src, 0, values[0]);
    out := SumSteps(src, Steps(values), first, n - 1);
    SumsAreResummed(values);
  }

  lemma DeltaParts(src: Bytes, values: seq<int>)
    requires values != [] && IsInt64(values[0]) && LeBytes(ToU64(values[0]), 8) + Words(Steps(values), 4) <= src
    ensures |src| >= 8 && Slice(src, 0, 8) == LeBytes(ToU64(values[0]), 8) && Words(Steps(values), 4) <= src[8..]
    ensures forall i :: 0 <= i < |values| - 1 ==> Steps(values)[i] < Pow256(4)
  {
    HeadAndTail(src, LeBytes(ToU64(values[0]), 8), Words(Steps(values), 4));
    Widths();
  }

  lemma HeadAndTail(src: Bytes, head: Bytes, tail: Bytes)
    requires head + tail <= src
    ensures |src| >= |head| && Slice(src, 0, |head|) == head && tail <= src[|head|..]
  {
    BehindHead(head, tail, src);
  }

  function Sums(first: int, steps: seq<nat>): (r: seq<int>)
    ensures |r| == |steps| + 1
  {
    if steps == [] then [first]
    else
      var n := |steps| - 1;
      var r := Sums(first, steps[..n]);
      r + [r[n] + Signed32(steps[n])]
  }

  lemma StepsPrefix(values: seq<int>, n: nat)
    requires 0 < n <= |values|
    ensures Steps(values)[..n - 1] == Steps(values[..n])
  {
    var a, b := Steps(values)[..n - 1], Steps(values[..n]);
    forall i | 0 <= i < n - 1 ensures a[i] == b[i] {
      assert values[..n][i + 1] - values[..n][i] == values[i + 1] - values[i];
    }
  }

  lemma SumsLast(first: int, steps: seq<nat>, n: nat)
    requires |steps| == n + 1
    ensures Sums(first, steps) == Sums(first, steps[..n]) + [Sums(first, steps[..n])[n] + Signed32(steps[n])]
  {
  }

  lemma {:induction false} SumsAreResummed(values: seq<int>)
    requires values != []
    ensures Sums(values[0], Steps(values)) == Resummed(values)
  {
    var n := |values| - 1;
    if n > 0 {
      SumsAreResummed(values[..n]);
      StepsPrefix(values, n);
      SumsLast(values[0], Steps(values), n - 1);
    }
  }

  method ReadStep(src: Bytes, ghost steps: seq<nat>, ghost i: nat, pos: nat) returns (d: nat)
    requires i < |steps| && steps[i] < Pow256(4) && |src| >= 8 && Words(steps, 4) <= src[8..] && pos == 8 + Times(i, 4)
    ensures d == steps[i]
  {
    WordIn(src, 8, steps, 4, i);
    d := ReadStored(src, pos, 4, steps[i]);
  }

  method SumSteps(src: Bytes, ghost steps: seq<nat>, first: int, n: nat) returns (out: seq<int>)
    requires |steps| == n && (forall i :: 0 <= i < n ==> steps[i] < Pow256(4)) && |src| >= 8 &&
      Words(steps, 4) <= src[8..]
    ensures out == Sums(first, steps)
  {
    out := [first];
    var pos := 8;
    for i := 0 to n
      invariant pos == 8 + Times(i, 4) && out == Sums(first, steps[..i])
    {
      var d := ReadStep(src, steps, i, pos);
      assert steps[..i + 1][..i] == steps[..i];
      out := out + [out[i] + Signed32(d)];
      pos := pos + 4;
    }
    assert steps[..n] == steps;
  }
}
