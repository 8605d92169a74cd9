/** VARCHAR segments: choice of codec, compression and decompression. */
module StringSegments {
  import opened Basics
  import opened Cells
  import opened ColumnSegments
  import opened Bits
  import opened Codecs
  import opened Strings
  import opened Compression

  const DISTINCT_LIMIT: nat := 1000

  predicate StrVec(v: Vector) { forall i :: 0 <= i < |v| ==> v[i].Null? || (v[i].Str? && ByteString(v[i].s)) }

  /** NULL slots hold the empty string. */
  function RawStrings(v: Vector): (r: seq<string>)
    requires StrVec(v)
    ensures |r| == |v| && forall i :: 0 <= i < |v| ==> ByteString(r[i])
  {
    seq(|v|, i requires 0 <= i < |v| => if v[i].Null? then "" else v[i].s)
  }

  function DistinctOf(v: Vector): set<string>
    requires StrVec(v)
  {
    set i | 0 <= i < |v| && !v[i].Null? :: v[i].s
  }

  method CountDistinct(v: Vector) returns (n: nat)
    requires StrVec(v)
    ensures n == |DistinctOf(v)|
  {
    var seen: set<string> := {};
    for i := 0 to |v|
      invariant seen == set k | 0 <= k < i && !v[k].Null? :: v[k].s
    {
      if !v[i].Null? { seen := seen + {v[i].s}; }
    }
    n := |seen|;
  }

  function StrChoice(v: Vector): Choice
    requires StrVec(v)
  {
    if v != [] && |DistinctOf(v)| <= DISTINCT_LIMIT then Dictionary else Uncompressed
  }

  method SelectStrCompression(v: Vector) returns (c: Choice)
    requires StrVec(v)
    ensures c == StrChoice(v) && (c.Dictionary? <==> v != [] && |DistinctOf(v)| <= 1000)
  {
    if |v| == 0 { return Uncompressed; }
    var n := CountDistinct(v);
    if n <= DISTINCT_LIMIT { return Dictionary; }
    return Uncompressed;
  }

  /** The length is kept modulo 2^16. */
  function Cut(s: string): (r: string)
    ensures |r| < TWO_16
  {
    s[..|s| % TWO_16]
  }

  function CutAll(ss: seq<string>): seq<string> { seq(|ss|, i requires 0 <= i < |ss| => Cut(ss[i])) }

  function CutCells(v: Vector): Vector
    requires StrVec(v)
  {
    seq(|v|, i requires 0 <= i < |v| => if v[i].Null? then Null else Str(Cut(v[i].s)))
  }

  predicate AllShort(v: Vector)
    requires StrVec(v)
  {
    forall i :: 0 <= i < |v| && !v[i].Null? ==> |v[i].s| < TWO_16
  }

  /** An uncompressed VARCHAR vector comes back exactly when every string is shorter than
      65536 bytes. */
  lemma StringReloadIff(v: Vector)
    requires StrVec(v)
    ensures CutCells(v) == v <==> AllShort(v)
  {
    var r := CutCells(v);
    if r == v {
      forall i | 0 <= i < |v| && !v[i].Null? ensures |v[i].s| < TWO_16 { assert r[i] == v[i]; }
    }
    if AllShort(v) {
      forall i | 0 <= i < |v| ensures r[i] == v[i] {
        if !v[i].Null? { assert v[i].s[..|v[i].s|] == v[i].s; }
      }
    }
  }

  /** The dictionary and the codes of a vector. */
  function Dict(v: Vector, bitmap: Bytes): seq<string>
    requires StrVec(v) && |bitmap| == BitmapBytes(|v|)
  {
    DictOf(RawStrings(v), bitmap, |v|)
  }

  function Codes(v: Vector, bitmap: Bytes): seq<nat>
    requires StrVec(v) && |bitmap| == BitmapBytes(|v|)
  {
    CodesOf(Dict(v, bitmap), RawStrings(v), bitmap)
  }

  ghost predicate EncodesStrings(c: Choice, v: Vector, bitmap: Bytes, data: Bytes)
    requires StrVec(v) && |bitmap| == BitmapBytes(|v|)
  {
    var dict, codes := Dict(v, bitmap), Codes(v, bitmap);
    if c.Dictionary? then CodesOk(dict, codes) && DictBytes(dict, codes) <= data && Looked(dict, codes) == v
    else c.Uncompressed? && Join(Pieces(CutAll(RawStrings(v)))) <= data
  }

  lemma PresentDistinct(v: Vector, bitmap: Bytes)
    requires StrVec(v) && IsBitmap(bitmap, v)
    ensures Distinct(RawStrings(v), bitmap) == DistinctOf(v) && Under(bitmap, Strs(RawStrings(v))) == v
  {
    var r := RawStrings(v);
    forall s ensures s in Distinct(r, bitmap) <==> s in DistinctOf(v) {
      if s in Distinct(r, bitmap) {
        var i :| 0 <= i < |r| && BufBit(bitmap, i) && r[i] == s;
        assert v[i].s == s;
      }
      if s in DistinctOf(v) {
        var i :| 0 <= i < |v| && !v[i].Null? && v[i].s == s;
        assert r[i] == s;
      }
    }
  }

  method EncodeStrings(c: Choice, v: Vector, bitmap: Bytes, tail: Bytes) returns (data: Bytes)
    requires StrVec(v) && IsBitmap(bitmap, v) && c == StrChoice(v)
    ensures EncodesStrings(c, v, bitmap, data)
  {
    PresentDistinct(v, bitmap);
    var bytes: Bytes;
    if c.Dictionary? {
      bytes := DictEncode(RawStrings(v), bitmap);
    } else {
      bytes := WriteStrings(CutAll(RawStrings(v)));
    }
    data := bytes + tail;
  }

  /** A dictionary vector comes back exactly when every string is shorter than 65536 bytes. */
  lemma DictReloadIff(v: Vector, bitmap: Bytes, data: Bytes)
    requires StrVec(v) && IsBitmap(bitmap, v) && EncodesStrings(Dictionary, v, bitmap, data)
    ensures DictDecoded(data, |v|) == Some(v) <==> AllShort(v)
  {
    if AllShort(v) {
      ShortDict(v, bitmap);
      DictBack(data, Dict(v, bitmap), Codes(v, bitmap));
    } else if DictDecoded(data, |v|).Some? {
      DecodedShort(data, |v|);
      var i :| 0 <= i < |v| && !v[i].Null? && |v[i].s| >= TWO_16;
      assert DictDecoded(data, |v|).value[i] != v[i];
    }
  }

  lemma ShortDict(v: Vector, bitmap: Bytes)
    requires StrVec(v) && IsBitmap(bitmap, v) && AllShort(v)
    ensures AllStorable(Dict(v, bitmap))
  {
    var dict := Dict(v, bitmap);
    Widths();
    PresentDistinct(v, bitmap);
    DictMembers(RawStrings(v), bitmap, |v|);
    forall k | 0 <= k < |dict| ensures Storable(dict[k]) {
      assert dict[k] in dict && dict[k] in DistinctOf(v);
      var i :| 0 <= i < |v| && !v[i].Null? && v[i].s == dict[k];
    }
  }

  method DecodeStrings(kind: nat, n: nat, bitmap: Bytes, data: Bytes, ghost c: Choice, ghost v: Vector)
      returns (r: Option<Vector>)
    requires StrVec(v) && |v| == n && c == StrChoice(v) && kind == TypeByte(c) && IsBitmap(bitmap, v) &&
      EncodesStrings(c, v, bitmap, data)
    ensures r == if c.Dictionary? then DictDecoded(data, n) else Some(CutCells(v))
  {
    if kind == 4 {
      var decoded := DictDecode(data, n);
      if decoded.None? { return None; }
      var cells := ApplyBitmap(decoded.value.1, decoded.value.0);
      r := Some(cells);
    } else {
      r := DecodePlain(n, bitmap, data, v);
    }
  }

  method DecodePlain(n: nat, bitmap: Bytes, data: Bytes, ghost v: Vector) returns (r: Option<Vector>)
    requires StrVec(v) && |v| == n && IsBitmap(bitmap, v) && Join(Pieces(CutAll(RawStrings(v)))) <= data
    ensures r == Some(CutCells(v))
  {
    ghost var ss := CutAll(RawStrings(v));
    PlainBack(data, ss);
    var read := ReadStrings(data, 0, n);
    var cells := ApplyBitmap(bitmap, Strs(read.value.0));
    assert cells == CutCells(v);
    r := Some(cells);
  }

  lemma PlainBack(data: Bytes, ss: seq<string>)
    requires Join(Pieces(ss)) <= data && forall i :: 0 <= i < |ss| ==> ByteString(ss[i]) && |ss[i]| < TWO_16
    ensures StringsAt(data, 0, |ss|).Some? && StringsAt(data, 0, |ss|).value.0 == ss
  {
    Widths();
    assert data[0..] == data && ss[..|ss|] == ss;
    StringsBack(data, 0, ss, |ss|);
  }

  /** Compress under the code's own choice, then decompress from the same buffer: the vector
      comes back exactly when every string is shorter than 65536 bytes.  Nothing comes back
      when the decoder would read past the buffer. */
  method StoreAndLoadStrings(v: Vector, tail: Bytes) returns (r: Option<Vector>)
    requires StrVec(v) && |v| < Pow256(4)
    ensures r == Some(v) <==> AllShort(v)
    ensures StrChoice(v).Uncompressed? ==> r == Some(CutCells(v))
  {
    var c := SelectStrCompression(v);
    var bitmap := BuildBitmap(v);
    var data := EncodeStrings(c, v, bitmap, tail);
    var buffer := HeaderBytes(c, |v|, |bitmap|) + bitmap + data;
    var kind, rows, validity, rest := ReadSegment(buffer, c, |v|, bitmap, data);
    r := DecodeStrings(kind, rows, validity, rest, c, v);
    if c.Uncompressed? { StringReloadIff(v); } else { DictReloadIff(v, bitmap, data); }
  }

  /** One string of 65536 bytes is lost, whatever the buffer held. */
  method LongStringLost(tail: Bytes) returns (r: Option<Vector>)
    ensures r != Some([Str(seq(TWO_16, _ => 'a'))])
  {
    var long := seq(TWO_16, _ => 'a');
    var v := [Str(long)];
    assert StrVec(v) && !AllShort(v) by { assert v[0].s == long; }
    Widths();
    r := StoreAndLoadStrings(v, tail);
  }
}
