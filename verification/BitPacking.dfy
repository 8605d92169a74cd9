/** Bit packing: fields of any width at any bit position of a byte buffer, and the codec
    that stores a vector as its minimum and packed differences. */
module BitPacking {
  import opened Bits

  function Min(a: int, b: int): int { if a < b then a else b }

  predicate AreBytes(buf: Bytes) { forall i :: 0 <= i < |buf| ==> buf[i] < 256 }

  // ----- Writing a field -----

  /** The first n bits of value have been added to the bits from `start` on, and no other
      bit has changed. */
  ghost predicate Written(before: Bytes, after: Bytes, start: nat, n: nat, value: nat) {
    && |after| == |before|
    && forall p: nat :: p < 8 * |before| ==>
         (BufBit(after, p) <==> BufBit(before, p) || (start <= p < start + n && Bit(value, p - start)))
  }

  /** One byte's share of a field: n bits of value from bit `done` on, at bit o. */
  function Part(value: nat, done: nat, n: nat, o: nat): nat { Mask(Shl(Mask(Shr(value, done), n), o), 8) }

  lemma PartBit(value: nat, done: nat, n: nat, o: nat, k: nat)
    requires o + n <= 8
    ensures Bit(Part(value, done, n, o), k) <==> o <= k < o + n && Bit(value, done + k - o)
  {
    var chunk := Mask(Shr(value, done), n);
    MaskBit(Shl(chunk, o), 8, k);
    ShlBit(chunk, o, k);
    if k >= o {
      MaskBit(Shr(value, done), n, k - o);
      ShrBit(value, done, k - o);
    }
  }

  lemma {:induction false} OrBelow(a: nat, b: nat, w: nat)
    requires a < Pow2(w) && b < Pow2(w)
    ensures BitOr(a, b) < Pow2(w)
  {
    if a > 0 && b > 0 && w > 0 { OrBelow(a / 2, b / 2, w - 1); }
  }

  lemma ByteWidth()
    ensures Pow2(8) == 256
  {
    assert Pow2(4) == 16;
    assert Pow2(6) == 64;
    assert Pow2(7) == 128;
  }

  lemma OrByte(a: nat, value: nat, done: nat, n: nat, o: nat)
    requires a < 256
    ensures BitOr(a, Part(value, done, n, o)) < 256
  {
    ByteWidth();
    MaskFitsIff(Shl(Mask(Shr(value, done), n), o), 8);
    OrBelow(a, Part(value, done, n, o), 8);
  }

  lemma WrittenNext(before: Bytes, now: Bytes, next: Bytes, start: nat, done: nat, n: nat, value: nat)
    requires Written(before, now, start, done, value)
    requires (start + done) / 8 < |now| && (start + done) % 8 + n <= 8
    requires next == now[(start + done) / 8 := BitOr(now[(start + done) / 8], Part(value, done, n, (start + done) % 8))]
    ensures Written(before, next, start, done + n, value)
  {
    var pos := start + done;
    forall p: nat | p < 8 * |before|
      ensures BufBit(next, p) <==> BufBit(before, p) || (start <= p < start + done + n && Bit(value, p - start))
    {
      assert BufBit(now, p) <==> BufBit(before, p) || (start <= p < pos && Bit(value, p - start));
      if p / 8 == pos / 8 {
        OrBit(now[pos / 8], Part(value, done, n, pos % 8), p % 8);
        PartBit(value, done, n, pos % 8, p % 8);
      }
    }
  }

  method WriteNBits(buf: array<nat>, bitPos: nat, width: nat, value: nat) returns (pos: nat)
    requires bitPos + width <= 8 * buf.Length && AreBytes(buf[..])
    modifies buf
    ensures pos == bitPos + width && AreBytes(buf[..])
    ensures Written(old(buf[..]), buf[..], bitPos, width, value)
  {
    pos := bitPos;
    var remaining := width;
    while remaining > 0
      invariant 0 <= remaining <= width && pos == bitPos + (width - remaining)
      invariant AreBytes(buf[..]) && Written(old(buf[..]), buf[..], bitPos, width - remaining, value)
    {
      var byteIdx, bitInByte := pos / 8, pos % 8;
      var n := Min(remaining, 8 - bitInByte);
      ghost var now := buf[..];
      ghost var done := width - remaining;
      OrByte(buf[byteIdx], value, done, n, bitInByte);
      buf[byteIdx] := BitOr(buf[byteIdx], Part(value, width - remaining, n, bitInByte));
      assert buf[..] == now[byteIdx := BitOr(now[byteIdx], Part(value, done, n, bitInByte))];
      WrittenNext(old(buf[..]), now, buf[..], bitPos, done, n, value);
      pos := pos + n;
      remaining := remaining - n;
    }
  }

  // ----- Reading a field -----

  lemma {:induction false} FieldSplit(buf: Bytes, start: nat, a: nat, b: nat)
    requires start + a + b <= 8 * |buf|
    ensures Field(buf, start, a + b) == BitOr(Field(buf, start, a), Shl(Field(buf, start + a, b), a))
  {
    var whole, part := Field(buf, start, a + b), BitOr(Field(buf, start, a), Shl(Field(buf, start + a, b), a));
    forall k: nat ensures Bit(whole, k) <==> Bit(part, k) {
      FieldBit(buf, start, a + b, k);
      OrBit(Field(buf, start, a), Shl(Field(buf, start + a, b), a), k);
      FieldBit(buf, start, a, k);
      ShlBit(Field(buf, start + a, b), a, k);
      if k >= a { FieldBit(buf, start + a, b, k - a); }
    }
    SameBits(whole, part);
  }

  lemma SameByte(p: nat, k: nat)
    requires p % 8 + k < 8
    ensures (p + k) / 8 == p / 8 && (p + k) % 8 == p % 8 + k
  {
  }

  /** A field inside one byte is that byte, shifted and masked. */
  lemma FieldInByte(buf: Bytes, start: nat, n: nat)
    requires start + n <= 8 * |buf| && start % 8 + n <= 8 && start / 8 < |buf|
    ensures Field(buf, start, n) == Mask(Shr(buf[start / 8], start % 8), n)
  {
    var byte, o := buf[start / 8], start % 8;
    forall k: nat ensures Bit(Field(buf, start, n), k) <==> Bit(Mask(Shr(byte, o), n), k) {
      FieldBit(buf, start, n, k);
      MaskBit(Shr(byte, o), n, k);
      ShrBit(byte, o, k);
      if k < n { SameByte(start, k); }
    }
    SameBits(Field(buf, start, n), Mask(Shr(byte, o), n));
  }

  method ReadNBits(buf: Bytes, bitPos: nat, width: nat) returns (result: nat, pos: nat)
    requires bitPos + width <= 8 * |buf|
    ensures result == Field(buf, bitPos, width) && pos == bitPos + width
  {
    result, pos := 0, bitPos;
    var bitsRead := 0;
    while bitsRead < width
      invariant bitsRead <= width && pos == bitPos + bitsRead
      invariant result == Field(buf, bitPos, bitsRead)
    {
      var byteIdx, bitInByte := pos / 8, pos % 8;
      var n := Min(width - bitsRead, 8 - bitInByte);
      var chunk := Mask(Shr(buf[byteIdx], bitInByte), n);
      FieldInByte(buf, pos, n);
      FieldSplit(buf, bitPos, bitsRead, n);
      result := BitOr(result, Shl(chunk, bitsRead));
      pos, bitsRead := pos + n, bitsRead + n;
    }
  }

  /** Written into zeroed bits, a field reads back as the value modulo 2^width. */
  lemma ReadBack(before: Bytes, after: Bytes, start: nat, width: nat, value: nat)
    requires start + width <= 8 * |before| && Written(before, after, start, width, value)
    requires forall p: nat :: start <= p < start + width ==> !BufBit(before, p)
    ensures Field(after, start, width) == Mask(value, width)
  {
    forall k: nat ensures Bit(Field(after, start, width), k) <==> Bit(Mask(value, width), k) {
      FieldBit(after, start, width, k);
      MaskBit(value, width, k);
    }
    SameBits(Field(after, start, width), Mask(value, width));
  }

  /** A write leaves every field that it does not overlap as it was. */
  lemma {:induction false} OtherField(before: Bytes, after: Bytes, start: nat, n: nat, value: nat, from: nat,
      width: nat)
    requires Written(before, after, start, n, value) && from + width <= 8 * |before|
    requires from + width <= start || start + n <= from
    ensures Field(after, from, width) == Field(before, from, width)
    decreases width
  {
    if width > 0 { OtherField(before, after, start, n, value, from + 1, width - 1); }
  }

  // ----- The codec -----

  /** n fields of width w. */
  function Times(n: nat, w: nat): nat { if n == 0 then 0 else Times(n - 1, w) + w }

  lemma {:induction false} TimesMono(a: nat, b: nat, w: nat)
    requires a <= b
    ensures Times(a, w) <= Times(b, w)
  {
    if a < b { TimesMono(a, b - 1, w); }
  }

  /** n * w in the ordinary sense. */
  lemma {:induction false} TimesIsProduct(n: nat, w: nat)
    ensures Times(n, w) == n * w
  {
    if n > 0 { TimesIsProduct(n - 1, w); }
  }

  function MinOf(values: seq<int>): (m: int)
    requires values != []
    ensures m in values && forall i :: 0 <= i < |values| ==> m <= values[i]
  {
    var n := |values| - 1;
    if n == 0 then values[0]
    else
      var m := MinOf(values[..n]);
      if values[n] < m then values[n] else m
  }

  /** Where field i starts: behind the eight bytes of the minimum. */
  function FieldAt(i: nat, w: nat): nat { 64 + Times(i, w) }

  /** Bytes the encoder clears and writes. */
  function Room(n: nat, w: nat): nat { 8 + (Times(n, w) + 7) / 8 + 1 }

  lemma RoomFor(n: nat, w: nat, i: nat)
    requires i <= n
    ensures FieldAt(i, w) <= 8 * Room(n, w) && (i < n ==> FieldAt(i, w) + w <= 8 * Room(n, w))
  {
    TimesMono(i, n, w);
    if i < n { TimesMono(i + 1, n, w); }
  }

  /** The first k values are packed, and everything behind them is still zero. */
  ghost predicate Packed(buf: Bytes, values: seq<int>, min: int, w: nat, k: nat)
    requires k <= |values| && |buf| == Room(|values|, w)
    requires forall i :: 0 <= i < |values| ==> min <= values[i]
  {
    && (forall i: nat :: i < k ==>
      FieldAt(i, w) + w <= 8 * |buf| && Field(buf, FieldAt(i, w), w) == Mask(values[i] - min, w))
    && (forall p: nat :: FieldAt(k, w) <= p < 8 * |buf| ==> !BufBit(buf, p))
  }

  lemma PackedNext(before: Bytes, after: Bytes, values: seq<int>, min: int, w: nat, k: nat)
    requires k < |values| && |before| == Room(|values|, w)
    requires forall i :: 0 <= i < |values| ==> min <= values[i]
    requires Packed(before, values, min, w, k) && Written(before, after, FieldAt(k, w), w, values[k] - min)
    ensures Packed(after, values, min, w, k + 1)
  {
    RoomFor(|values|, w, k);
    forall i: nat | i < k + 1
      ensures FieldAt(i, w) + w <= 8 * |after| && Field(after, FieldAt(i, w), w) == Mask(values[i] - min, w)
    {
      RoomFor(|values|, w, i);
      if i < k {
        TimesMono(i + 1, k, w);
        OtherField(before, after, FieldAt(k, w), w, values[k] - min, FieldAt(i, w), w);
      } else {
        ReadBack(before, after, FieldAt(k, w), w, values[k] - min);
      }
    }
    forall p: nat | FieldAt(k + 1, w) <= p < 8 * |after| ensures !BufBit(after, p) {
      assert !BufBit(before, p);
    }
  }

  lemma HeaderKept(before: Bytes, after: Bytes, start: nat, n: nat, value: nat, j: nat)
    requires Written(before, after, start, n, value) && start >= 64 && j < 8 && 8 < |before| && AreBytes(before) &&
      AreBytes(after)
    ensures after[j] == before[j]
  {
    ByteField(before, j);
    ByteField(after, j);
    OtherField(before, after, start, n, value, 8 * j, 8);
  }

  lemma ByteField(buf: Bytes, j: nat)
    requires j < |buf| && buf[j] < 256
    ensures Field(buf, 8 * j, 8) == buf[j]
  {
    assert (8 * j) / 8 == j && (8 * j) % 8 == 0;
    FieldInByte(buf, 8 * j, 8);
    ByteWidth();
    MaskFitsIff(buf[j], 8);
  }

  /** Field i of the bytes is the difference of value i to the minimum, modulo 2^w. */
  ghost predicate HoldsFields(bytes: Bytes, values: seq<int>, min: int, w: nat)
    requires forall i :: 0 <= i < |values| ==> min <= values[i]
  {
    && FieldAt(|values|, w) <= 8 * |bytes|
    && forall i: nat :: i < |values| ==>
      FieldAt(i, w) + w <= 8 * |bytes| && Field(bytes, FieldAt(i, w), w) == Mask(values[i] - min, w)
  }

  lemma {:induction false} FieldPrefix(buf: Bytes, n: nat, start: nat, w: nat)
    requires n <= |buf| && start + w <= 8 * n
    ensures Field(buf[..n], start, w) == Field(buf, start, w)
    decreases w
  {
    if w > 0 { FieldPrefix(buf, n, start + 1, w - 1); }
  }

  lemma HoldsPrefix(buf: Bytes, n: nat, values: seq<int>, min: int, w: nat)
    requires n <= |buf| && FieldAt(|values|, w) <= 8 * n
    requires forall i :: 0 <= i < |values| ==> min <= values[i]
    ensures HoldsFields(buf[..n], values, min, w) <==> HoldsFields(buf, values, min, w)
  {
    forall i: nat | i < |values|
      ensures FieldAt(i, w) + w <= 8 * n && Field(buf[..n], FieldAt(i, w), w) == Field(buf, FieldAt(i, w), w)
    {
      TimesMono(i + 1, |values|, w);
      FieldPrefix(buf, n, FieldAt(i, w), w);
    }
  }

  /** Size of the encoding. */
  function Size(n: nat, w: nat): nat { (FieldAt(n, w) + 7) / 8 }

  /** Minimum as eight little-endian bytes, then the differences to it, w bits each. */
  method BitPackEncode(values: seq<int>, w: nat) returns (bytes: Bytes)
    requires values != [] && forall i :: 0 <= i < |values| ==> IsInt64(values[i])
    ensures AreBytes(bytes) && |bytes| == Size(|values|, w) && bytes[..8] == LeBytes(ToU64(MinOf(values)), 8)
    ensures HoldsFields(bytes, values, MinOf(values), w)
  {
    var min := FindMin(values);
    var dst := new nat[Room(|values|, w)](_ => 0);
    WriteHeader(dst, ToU64(min));
    var pos := PackAll(dst, values, min, w);
    RoomFor(|values|, w, |values|);
    bytes := dst[..(pos + 7) / 8];
    assert bytes[..8] == dst[..8];
    HoldsPrefix(dst[..], (pos + 7) / 8, values, min, w);
  }

  method PackAll(dst: array<nat>, values: seq<int>, min: int, w: nat) returns (pos: nat)
    requires dst.Length == Room(|values|, w) && AreBytes(dst[..]) && forall i :: 8 <= i < dst.Length ==> dst[i] == 0
    requires forall i :: 0 <= i < |values| ==> min <= values[i]
    modifies dst
    ensures pos == FieldAt(|values|, w) && AreBytes(dst[..]) && dst[..8] == old(dst[..8])
    ensures HoldsFields(dst[..], values, min, w)
  {
    ghost var header := dst[..8];
    forall p: nat | 64 <= p < 8 * dst.Length ensures !BufBit(dst[..], p) { ZeroBits(p % 8); }
    pos := 64;
    for i := 0 to |values|
      invariant pos == FieldAt(i, w) && AreBytes(dst[..]) && dst[..8] == header
      invariant Packed(dst[..], values, min, w, i)
    {
      pos := PackOne(dst, values, min, w, i, pos);
    }
    RoomFor(|values|, w, |values|);
  }

  method PackOne(dst: array<nat>, values: seq<int>, min: int, w: nat, i: nat, at: nat) returns (pos: nat)
    requires i < |values| && dst.Length == Room(|values|, w) && at == FieldAt(i, w) && AreBytes(dst[..])
    requires forall i :: 0 <= i < |values| ==> min <= values[i]
    requires Packed(dst[..], values, min, w, i)
    modifies dst
    ensures pos == FieldAt(i + 1, w) && AreBytes(dst[..]) && dst[..8] == old(dst[..8])
    ensures Packed(dst[..], values, min, w, i + 1)
  {
    ghost var before := dst[..];
    RoomFor(|values|, w, i);
    pos := WriteNBits(dst, at, w, values[i] - min);
    PackedNext(before, dst[..], values, min, w, i);
    forall j: nat | j < 8
      ensures dst[..][j] == before[j]
    {
      HeaderKept(before, dst[..], FieldAt(i, w), w, values[i] - min, j);
    }
    assert dst[..8] == before[..8];
  }

  method FindMin(values: seq<int>) returns (min: int)
    requires values != []
    ensures min == MinOf(values)
  {
    min := values[0];
    for i := 1 to |values|
      invariant min == MinOf(values[..i])
    {
      assert values[..i + 1][..i] == values[..i];
      if values[i] < min { min := values[i]; }
    }
    assert values[..|values|] == values;
  }

  method WriteHeader(dst: array<nat>, u: nat)
    requires dst.Length >= 8 && forall i :: 0 <= i < dst.Length ==> dst[i] == 0
    modifies dst
    ensures dst[..8] == LeBytes(u, 8) && forall i :: 8 <= i < dst.Length ==> dst[i] == 0
  {
    var rest := u;
    for i := 0 to 8
      invariant forall k :: i <= k < dst.Length ==> dst[k] == 0
      invariant dst[..i] + LeBytes(rest, 8 - i) == LeBytes(u, 8)
    {
      dst[i] := rest % 256;
      rest := rest / 256;
      assert dst[..i + 1] == dst[..i] + [dst[i]];
    }
    assert dst[..8] + LeBytes(rest, 0) == dst[..8];
  }

  method ReadHeader(src: Bytes) returns (u: nat)
    requires |src| >= 8
    ensures u == FromLe(src[..8])
  {
    u := 0;
    var i := 8;
    while i > 0
      invariant 0 <= i <= 8 && u == FromLe(src[i..8])
    {
      assert src[i - 1..8][1..] == src[i..8];
      u := src[i - 1] + 256 * u;
      i := i - 1;
    }
  }

  /** The minimum as stored. */
  function Stored(src: Bytes): int
    requires |src| >= 8
  {
    FromU64(FromLe(src[..8]))
  }

  lemma StoredBack(src: Bytes, min: int)
    requires IsInt64(min) && |src| >= 8 && src[..8] == LeBytes(ToU64(min), 8)
    ensures Stored(src) == min
  {
    I64RoundTrip(min);
  }

  function UnpackedAt(src: Bytes, i: nat, w: nat): int
    requires |src| >= 8 && FieldAt(i, w) + w <= 8 * |src|
  {
    Stored(src) + Field(src, FieldAt(i, w), w)
  }

  /** The stored minimum plus each of n fields. */
  method BitPackDecode(src: Bytes, n: nat, w: nat) returns (values: seq<int>)
    requires |src| >= 8 && FieldAt(n, w) <= 8 * |src|
    ensures |values| == n
    ensures forall i: nat :: i < n ==> FieldAt(i, w) + w <= 8 * |src| && values[i] == UnpackedAt(src, i, w)
  {
    var u := ReadHeader(src);
    var min := FromU64(u);
    values := [];
    var pos := 64;
    for i := 0 to n
      invariant pos == FieldAt(i, w) && |values| == i
      invariant forall j: nat :: j < i ==> FieldAt(j, w) + w <= 8 * |src| && values[j] == UnpackedAt(src, j, w)
    {
      TimesMono(i + 1, n, w);
      var delta;
      delta, pos := ReadNBits(src, pos, w);
      values := values + [min + delta];
    }
  }

  /** Every difference fits into w bits. */
  predicate AllFit(values: seq<int>, w: nat)
    requires values != []
  {
    forall i :: 0 <= i < |values| ==> values[i] - MinOf(values) < Pow2(w)
  }

  /** What a vector comes back as: the minimum plus each difference modulo 2^w. */
  function Repacked(values: seq<int>, w: nat): seq<int>
    requires values != []
  {
    seq(|values|, i requires 0 <= i < |values| => MinOf(values) + Mask(values[i] - MinOf(values), w))
  }

  /** The vector comes back exactly when every difference fits. */
  lemma RepackedIff(values: seq<int>, w: nat)
    requires values != []
    ensures Repacked(values, w) == values <==> AllFit(values, w)
  {
    var min := MinOf(values);
    forall i | 0 <= i < |values|
      ensures Repacked(values, w)[i] == values[i] <==> values[i] - min < Pow2(w)
    {
      MaskFitsIff(values[i] - min, w);
    }
    if Repacked(values, w) == values {
      forall i | 0 <= i < |values| ensures values[i] - min < Pow2(w) { assert Repacked(values, w)[i] == values[i]; }
    }
  }

  lemma UnpackedCell(src: Bytes, values: seq<int>, w: nat, i: nat)
    requires values != [] && |src| >= 8 && Stored(src) == MinOf(values) && i < |values|
    requires HoldsFields(src, values, MinOf(values), w)
    ensures FieldAt(i, w) + w <= 8 * |src| && UnpackedAt(src, i, w) == Repacked(values, w)[i]
  {
    assert Field(src, FieldAt(i, w), w) == Mask(values[i] - MinOf(values), w);
  }

  lemma UnpackedIsRepacked(src: Bytes, values: seq<int>, w: nat, out: seq<int>)
    requires values != [] && |src| >= 8 && Stored(src) == MinOf(values)
    requires HoldsFields(src, values, MinOf(values), w) && |out| == |values|
    requires forall i: nat :: i < |values| ==> FieldAt(i, w) + w <= 8 * |src| && out[i] == UnpackedAt(src, i, w)
    ensures out == Repacked(values, w)
  {
    forall i: nat | i < |values| ensures out[i] == Repacked(values, w)[i] {
      UnpackedCell(src, values, w, i);
    }
  }

  /** Decoding an encoded vector. */
  method RoundTrip(values: seq<int>, w: nat) returns (out: seq<int>)
    requires values != [] && forall i :: 0 <= i < |values| ==> IsInt64(values[i])
    ensures out == Repacked(values, w)
    ensures out == values <==> AllFit(values, w)
  {
    var bytes := BitPackEncode(values, w);
    out := BitPackDecode(bytes, |values|, w);
    StoredBack(bytes, MinOf(values));
    UnpackedIsRepacked(bytes, values, w, out);
    RepackedIff(values, w);
  }
}
