/** VARCHAR vectors: length-prefixed strings, and the dictionary codec. */
module Strings {
  import opened Basics
  import opened Cells
  import opened ColumnSegments
  import opened Bits
  import opened BitPacking
  import opened Codecs

  const NULL_CODE: nat := 0xFFFF

  /** A std::string is a sequence of bytes. */
  predicate ByteString(s: string) { forall i :: 0 <= i < |s| ==> s[i] as int < 256 }

  predicate Storable(s: string) { ByteString(s) && |s| < Pow256(2) }

  function Chars(s: string): Bytes { seq(|s|, i requires 0 <= i < |s| => s[i] as int) }

  function FromChars(b: Bytes): string { seq(|b|, i requires 0 <= i < |b| => (b[i] % 256) as char) }

  /** Two bytes of length, modulo 2^16, then all the characters. */
  function StrBytes(s: string): Bytes { LeBytes(|s|, 2) + Chars(s) }

  function Pieces(ss: seq<string>): seq<Bytes> { seq(|ss|, i requires 0 <= i < |ss| => StrBytes(ss[i])) }

  method WriteStrings(ss: seq<string>) returns (bytes: Bytes)
    ensures bytes == Join(Pieces(ss))
  {
    bytes := [];
    for i := 0 to |ss|
      invariant bytes == Join(Pieces(ss)[..i])
    {
      assert Pieces(ss)[..i + 1] == Pieces(ss)[..i] + [StrBytes(ss[i])];
      JoinMore(Pieces(ss)[..i], StrBytes(ss[i]));
      bytes := bytes + StrBytes(ss[i]);
    }
    assert Pieces(ss)[..|ss|] == Pieces(ss);
  }

  /** A 16-bit word of the buffer. */
  function Word16(src: Bytes, at: nat): nat
    requires at + 2 <= |src|
  {
    (src[at] + 256 * src[at + 1]) % TWO_16
  }

  /** The string at a position and the position behind it; nothing if that would leave the
      buffer. */
  function StringAt(src: Bytes, at: nat): (r: Option<(string, nat)>)
    ensures r.Some? ==> |r.value.0| < TWO_16
  {
    if at + 2 > |src| || at + 2 + Word16(src, at) > |src| then None
    else Some((FromChars(Slice(src, at + 2, Word16(src, at))), at + 2 + Word16(src, at)))
  }

  function StringsAt(src: Bytes, at: nat, n: nat): (r: Option<(seq<string>, nat)>)
    ensures r.Some? ==> |r.value.0| == n
  {
    if n == 0 then Some(([], at))
    else
      var before := StringsAt(src, at, n - 1);
      if before.None? then None
      else
        var next := StringAt(src, before.value.1);
        if next.None? then None else Some((before.value.0 + [next.value.0], next.value.1))
  }

  method ReadString(src: Bytes, at: nat) returns (r: Option<(string, nat)>)
    ensures r == StringAt(src, at)
  {
    if at + 2 > |src| { return None; }
    var len := Word16(src, at);
    if at + 2 + len > |src| { return None; }
    r := Some((FromChars(Slice(src, at + 2, len)), at + 2 + len));
  }

  method ReadStrings(src: Bytes, base: nat, n: nat) returns (r: Option<(seq<string>, nat)>)
    ensures r == StringsAt(src, base, n)
  {
    r := Some(([], base));
    for i := 0 to n
      invariant r == StringsAt(src, base, i) && r.Some?
    {
      var next := ReadString(src, r.value.1);
      if next.None? {
        NoneAfter(src, base, i + 1, n);
        return None;
      }
      r := Some((r.value.0 + [next.value.0], next.value.1));
    }
  }

  lemma {:induction false} NoneAfter(src: Bytes, at: nat, m: nat, n: nat)
    requires m <= n && StringsAt(src, at, m).None?
    ensures StringsAt(src, at, n).None?
  {
    if m < n { NoneAfter(src, at, m, n - 1); }
  }

  predicate Short(ss: seq<string>) { forall i :: 0 <= i < |ss| ==> |ss[i]| < TWO_16 }

  lemma {:induction false} StringsShort(src: Bytes, at: nat, n: nat)
    requires StringsAt(src, at, n).Some?
    ensures Short(StringsAt(src, at, n).value.0)
  {
    if n > 0 { StringsShort(src, at, n - 1); }
  }

  lemma WordBack(src: Bytes, at: nat, n: nat)
    requires at + 2 <= |src| && Slice(src, at, 2) == LeBytes(n, 2) && n < TWO_16
    ensures Word16(src, at) == n
  {
    var b := LeBytes(n, 2);
    assert b == [n % 256] + LeBytes(n / 256, 1);
    assert LeBytes(n / 256, 1) == [n / 256 % 256] + LeBytes(n / 256 / 256, 0);
    assert Slice(src, at, 2)[0] == src[at] && Slice(src, at, 2)[1] == src[at + 1];
  }

  lemma StringBack(src: Bytes, at: nat, s: string)
    requires Storable(s) && at <= |src| && StrBytes(s) <= src[at..]
    ensures StringAt(src, at) == Some((s, at + |StrBytes(s)|))
  {
    SliceAt(src, at, StrBytes(s), 0, 2);
    assert Slice(StrBytes(s), 0, 2) == LeBytes(|s|, 2);
    Widths();
    WordBack(src, at, |s|);
    SliceAt(src, at, StrBytes(s), 2, |s|);
    assert Slice(StrBytes(s), 2, |s|) == Chars(s);
    assert FromChars(Chars(s)) == s;
  }

  /** Where string n starts if the first one starts at `base`. */
  function StartOf(base: nat, ss: seq<string>, n: nat): nat
    requires n <= |ss|
  {
    base + |Join(Pieces(ss)[..n])|
  }

  /** The strings stand one after the other from `base` on. */
  ghost predicate HoldStrings(src: Bytes, base: nat, ss: seq<string>) {
    AllStorable(ss) && base <= |src| && Join(Pieces(ss)) <= src[base..]
  }

  lemma PieceBack(src: Bytes, base: nat, ss: seq<string>, j: nat)
    requires j < |ss| && HoldStrings(src, base, ss)
    ensures StringAt(src, StartOf(base, ss, j)) == Some((ss[j], StartOf(base, ss, j + 1)))
  {
    PieceAt(src, base, Pieces(ss), j);
    StringBack(src, StartOf(base, ss, j), ss[j]);
  }

  lemma StringsNext(src: Bytes, at: nat, n: nat, ss: seq<string>, pos: nat, s: string, next: nat)
    requires n > 0 && StringsAt(src, at, n - 1) == Some((ss, pos)) && StringAt(src, pos) == Some((s, next))
    ensures StringsAt(src, at, n) == Some((ss + [s], next))
  {
  }

  lemma StringsStep(src: Bytes, base: nat, ss: seq<string>, n: nat)
    requires 0 < n <= |ss| && HoldStrings(src, base, ss) &&
      StringsAt(src, base, n - 1) == Some((ss[..n - 1], StartOf(base, ss, n - 1)))
    ensures StringsAt(src, base, n) == Some((ss[..n], StartOf(base, ss, n)))
  {
    PieceBack(src, base, ss, n - 1);
    StringsNext(src, base, n, ss[..n - 1], StartOf(base, ss, n - 1), ss[n - 1], StartOf(base, ss, n));
    assert ss[..n - 1] + [ss[n - 1]] == ss[..n];
  }

  /** Strings written one after the other read back as they were, wherever they start. */
  lemma {:induction false} StringsBack(src: Bytes, base: nat, ss: seq<string>, n: nat)
    requires n <= |ss| && HoldStrings(src, base, ss)
    ensures StringsAt(src, base, n) == Some((ss[..n], StartOf(base, ss, n)))
  {
    if n == 0 {
      assert Pieces(ss)[..0] == [];
    } else {
      StringsBack(src, base, ss, n - 1);
      StringsStep(src, base, ss, n);
    }
  }

  predicate AllStorable(dict: seq<string>) { forall i :: 0 <= i < |dict| ==> Storable(dict[i]) }

  // ----- Dictionary -----

  function Strs(values: seq<string>): Vector { seq(|values|, i requires 0 <= i < |values| => Str(values[i])) }

  predicate CodesOk(dict: seq<string>, codes: seq<nat>) {
    |dict| <= NULL_CODE && forall i :: 0 <= i < |codes| ==> codes[i] < |dict| || codes[i] == NULL_CODE
  }

  /** What codes stand for. */
  function Looked(dict: seq<string>, codes: seq<nat>): Vector
    requires CodesOk(dict, codes)
  {
    seq(|codes|, i requires 0 <= i < |codes| => if codes[i] == NULL_CODE then Null else Str(dict[codes[i]]))
  }

  function DictBytes(dict: seq<string>, codes: seq<nat>): Bytes {
    LeBytes(|dict|, 4) + Join(Pieces(dict)) + Words(codes, 2)
  }

  function Distinct(values: seq<string>, bitmap: Bytes): set<string>
    requires |bitmap| == BitmapBytes(|values|)
  {
    set i | 0 <= i < |values| && BufBit(bitmap, i) :: values[i]
  }

  /** The distinct present strings, in order of first appearance, of the first n values. */
  function DictOf(values: seq<string>, bitmap: Bytes, n: nat): seq<string>
    requires |bitmap| == BitmapBytes(|values|) && n <= |values|
  {
    if n == 0 then []
    else
      var d := DictOf(values, bitmap, n - 1);
      if BufBit(bitmap, n - 1) && values[n - 1] !in d then d + [values[n - 1]] else d
  }

  lemma {:induction false} DictMembers(values: seq<string>, bitmap: Bytes, n: nat)
    requires |bitmap| == BitmapBytes(|values|) && n <= |values|
    ensures forall s <- DictOf(values, bitmap, n) :: s in Distinct(values, bitmap)
  {
    if n > 0 {
      DictMembers(values, bitmap, n - 1);
      if BufBit(bitmap, n - 1) { assert values[n - 1] in Distinct(values, bitmap); }
    }
  }

  function IndexOf(dict: seq<string>, s: string): nat {
    if dict == [] then 0
    else if dict[|dict| - 1] == s then |dict| - 1
    else IndexOf(dict[..|dict| - 1], s)
  }

  lemma {:induction false} IndexOfIs(dict: seq<string>, s: string, k: nat)
    requires k < |dict| && dict[k] == s && forall j :: 0 <= j < |dict| && j != k ==> dict[j] != s
    ensures IndexOf(dict, s) == k
  {
    if k < |dict| - 1 { IndexOfIs(dict[..|dict| - 1], s, k); }
  }

  /** The code of every value: its place in the dictionary, or the reserved one. */
  function CodesOf(dict: seq<string>, values: seq<string>, bitmap: Bytes): seq<nat>
    requires |bitmap| == BitmapBytes(|values|)
  {
    seq(|values|, i requires 0 <= i < |values| => if BufBit(bitmap, i) then IndexOf(dict, values[i]) else NULL_CODE)
  }

  /** The map and the list of the dictionary under construction agree. */
  ghost predicate DictInv(dict: map<string, nat>, ordered: seq<string>) {
    && |dict| == |ordered|
    && (forall s <- dict :: dict[s] < |ordered| && ordered[dict[s]] == s)
    && (forall i :: 0 <= i < |ordered| ==> ordered[i] in dict && dict[ordered[i]] == i)
  }

  /** Codes in order of first appearance. */
  method BuildDict(values: seq<string>, bitmap: Bytes) returns (ordered: seq<string>, codes: seq<nat>)
    requires |bitmap| == BitmapBytes(|values|) && |Distinct(values, bitmap)| <= NULL_CODE
    ensures ordered == DictOf(values, bitmap, |values|) && codes == CodesOf(ordered, values, bitmap)
    ensures CodesOk(ordered, codes) && Looked(ordered, codes) == Under(bitmap, Strs(values))
  {
    ghost var dict;
    dict, ordered, codes := InternAll(values, bitmap);
    FewerThan(dict.Keys, Distinct(values, bitmap));
    CodesLook(ordered, codes, values, bitmap);
    CodesAreIndices(dict, ordered, codes, values, bitmap);
  }

  method InternAll(values: seq<string>, bitmap: Bytes)
      returns (dict: map<string, nat>, ordered: seq<string>, codes: seq<nat>)
    requires |bitmap| == BitmapBytes(|values|) && |Distinct(values, bitmap)| <= NULL_CODE
    ensures |codes| == |values| && DictInv(dict, ordered) && dict.Keys <= Distinct(values, bitmap)
    ensures ordered == DictOf(values, bitmap, |values|) && SoFar(ordered, codes, values, bitmap)
  {
    dict, ordered, codes := map[], [], [];
    ghost var all := Distinct(values, bitmap);
    for i := 0 to |values|
      invariant |codes| == i && DictInv(dict, ordered) && dict.Keys <= all
      invariant ordered == DictOf(values, bitmap, i) && SoFar(ordered, codes, values, bitmap)
    {
      dict, ordered, codes := InternNext(dict, ordered, codes, values, bitmap);
    }
  }

  method InternNext(before: map<string, nat>, words: seq<string>, done: seq<nat>, values: seq<string>, bitmap: Bytes)
    returns (dict: map<string, nat>, ordered: seq<string>, codes: seq<nat>)
    requires |bitmap| == BitmapBytes(|values|) && |Distinct(values, bitmap)| <= NULL_CODE && |done| < |values|
    requires DictInv(before, words) && before.Keys <= Distinct(values, bitmap)
    requires words == DictOf(values, bitmap, |done|) && SoFar(words, done, values, bitmap)
    ensures |codes| == |done| + 1 && DictInv(dict, ordered) && dict.Keys <= Distinct(values, bitmap)
    ensures ordered == DictOf(values, bitmap, |codes|) && SoFar(ordered, codes, values, bitmap)
  {
    var i, code := |done|, NULL_CODE;
    dict, ordered := before, words;
    if BufBit(bitmap, i) {
      dict, ordered, code := Intern(before, words, values[i], Distinct(values, bitmap));
    }
    OneMoreCode(words, ordered, done, code, values, bitmap);
    codes := done + [code];
  }

  lemma CodesAreIndices(dict: map<string, nat>, ordered: seq<string>, codes: seq<nat>, values: seq<string>,
      bitmap: Bytes)
    requires |bitmap| == BitmapBytes(|values|) && |codes| == |values| && DictInv(dict, ordered) &&
      SoFar(ordered, codes, values, bitmap)
    ensures codes == CodesOf(ordered, values, bitmap)
  {
    forall k | 0 <= k < |codes| ensures codes[k] == CodesOf(ordered, values, bitmap)[k] {
      assert CodeOf(ordered, codes[k], BufBit(bitmap, k), values[k]);
      if BufBit(bitmap, k) { IndexOfIs(ordered, values[k], codes[k]); }
    }
  }

  ghost predicate SoFar(dict: seq<string>, codes: seq<nat>, values: seq<string>, bitmap: Bytes)
    requires |bitmap| == BitmapBytes(|values|) && |codes| <= |values|
  {
    forall k :: 0 <= k < |codes| ==> CodeOf(dict, codes[k], BufBit(bitmap, k), values[k])
  }

  lemma OneMoreCode(dict: seq<string>, more: seq<string>, codes: seq<nat>, code: nat, values: seq<string>,
      bitmap: Bytes)
    requires |bitmap| == BitmapBytes(|values|) && |codes| < |values| && SoFar(dict, codes, values, bitmap) &&
      dict <= more
    requires CodeOf(more, code, BufBit(bitmap, |codes|), values[|codes|])
    ensures SoFar(more, codes + [code], values, bitmap)
  {
    forall k | 0 <= k < |codes| ensures CodeOf(more, codes[k], BufBit(bitmap, k), values[k]) {
      assert CodeOf(dict, codes[k], BufBit(bitmap, k), values[k]);
    }
  }

  lemma CodesLook(dict: seq<string>, codes: seq<nat>, values: seq<string>, bitmap: Bytes)
    requires |bitmap| == BitmapBytes(|values|) && |codes| == |values| && |dict| <= NULL_CODE
    requires SoFar(dict, codes, values, bitmap)
    ensures CodesOk(dict, codes) && Looked(dict, codes) == Under(bitmap, Strs(values))
  {
    forall k | 0 <= k < |values| ensures codes[k] < |dict| || codes[k] == NULL_CODE {
      assert CodeOf(dict, codes[k], BufBit(bitmap, k), values[k]);
    }
  }

  /** The code of a string, assigned on first use. */
  method Intern(dict: map<string, nat>, ordered: seq<string>, s: string, ghost all: set<string>)
      returns (dict': map<string, nat>, ordered': seq<string>, code: nat)
    requires DictInv(dict, ordered) && dict.Keys <= all && s in all && |all| <= NULL_CODE
    ensures DictInv(dict', ordered') && dict'.Keys <= all && ordered <= ordered'
    ensures ordered' == if s in ordered then ordered else ordered + [s]
    ensures CodeOf(ordered', code, true, s)
  {
    if s in dict {
      FewerThan(dict.Keys, all);
      return dict, ordered, dict[s];
    }
    AddWord(dict, ordered, s);
    FewerThan(dict.Keys + {s}, all);
    return dict[s := |dict|], ordered + [s], |dict|;
  }

  ghost predicate CodeOf(dict: seq<string>, code: nat, present: bool, value: string) {
    if present then code < |dict| && code < NULL_CODE && dict[code] == value else code == NULL_CODE
  }

  lemma FewerThan(a: set<string>, b: set<string>)
    requires a <= b
    ensures |a| <= |b|
  {
    assert b == a + (b - a);
  }

  lemma AddWord(dict: map<string, nat>, ordered: seq<string>, s: string)
    requires DictInv(dict, ordered) && s !in dict
    ensures DictInv(dict[s := |dict|], ordered + [s])
    ensures dict[s := |dict|].Keys == dict.Keys + {s} && |dict.Keys + {s}| == |dict| + 1
  {
    var d := dict[s := |dict|];
    assert d.Keys == dict.Keys + {s};
    assert |d| == |d.Keys|;
  }

  method DictEncode(values: seq<string>, bitmap: Bytes) returns (bytes: Bytes)
    requires |bitmap| == BitmapBytes(|values|) && |Distinct(values, bitmap)| <= NULL_CODE
    ensures
      var dict := DictOf(values, bitmap, |values|);
      var codes := CodesOf(dict, values, bitmap);
      CodesOk(dict, codes) && Looked(dict, codes) == Under(bitmap, Strs(values)) && bytes == DictBytes(dict, codes)
  {
    var ordered, codes := BuildDict(values, bitmap);
    var entries := WriteStrings(ordered);
    var words := WriteCodes(codes);
    bytes := LeBytes(|ordered|, 4) + entries + words;
  }

  method WriteCodes(codes: seq<nat>) returns (bytes: Bytes)
    ensures bytes == Words(codes, 2)
  {
    bytes := [];
    for i := 0 to |codes|
      invariant bytes == Words(codes[..i], 2)
    {
      assert codes[..i + 1][..i] == codes[..i];
      bytes := bytes + LeBytes(codes[i], 2);
    }
    assert codes[..|codes|] == codes;
  }

  /** The cells of n codes; nothing if a read would leave the buffer or the dictionary. */
  function LookUp(src: Bytes, base: nat, dict: seq<string>, n: nat): (r: Option<Vector>)
    ensures r.Some? ==> |r.value| == n
  {
    if n == 0 then Some([])
    else
      var before, at := LookUp(src, base, dict, n - 1), base + 2 * (n - 1);
      if before.None? || at + 2 > |src| then None
      else if Word16(src, at) == NULL_CODE then Some(before.value + [Null])
      else if Word16(src, at) < |dict| then Some(before.value + [Str(dict[Word16(src, at)])])
      else None
  }

  /** What decoding n rows from a buffer gives, whatever is in it. */
  function DictDecoded(src: Bytes, n: nat): Option<Vector> {
    if |src| < 4 then None
    else
      var words := StringsAt(src, 4, FromLe(Slice(src, 0, 4)) % TWO_32);
      if words.None? then None else LookUp(src, words.value.1, words.value.0, n)
  }

  /** No string of 65536 bytes or more ever comes out. */
  lemma DecodedShort(src: Bytes, n: nat)
    requires DictDecoded(src, n).Some?
    ensures |DictDecoded(src, n).value| == n && ShortCells(DictDecoded(src, n).value)
  {
    var size := FromLe(Slice(src, 0, 4)) % TWO_32;
    StringsShort(src, 4, size);
    var words := StringsAt(src, 4, size).value;
    LookedShort(src, words.1, words.0, n);
  }

  predicate ShortCells(v: Vector) { forall i :: 0 <= i < |v| && v[i].Str? ==> |v[i].s| < TWO_16 }

  lemma {:induction false} LookedShort(src: Bytes, base: nat, dict: seq<string>, n: nat)
    requires Short(dict) && LookUp(src, base, dict, n).Some?
    ensures ShortCells(LookUp(src, base, dict, n).value)
  {
    if n > 0 { LookedShort(src, base, dict, n - 1); }
  }

  method DictDecode(src: Bytes, n: nat) returns (r: Option<(Vector, Bytes)>)
    ensures r.None? <==> DictDecoded(src, n).None?
    ensures r.Some? ==> |r.value.0| == n && |r.value.1| == BitmapBytes(n)
    ensures r.Some? ==> Some(Under(r.value.1, r.value.0)) == DictDecoded(src, n)
  {
    if |src| < 4 { return None; }
    var size := ReadWord(src, 0, 4);
    var words := ReadStrings(src, 4, size % TWO_32);
    if words.None? { return None; }
    r := DecodeCodes(src, words.value.1, n, words.value.0);
  }

  /** Decoding gives back what the codes stand for, if every entry is short. */
  lemma DictBack(src: Bytes, dict: seq<string>, codes: seq<nat>)
    requires CodesOk(dict, codes) && AllStorable(dict) && DictBytes(dict, codes) <= src
    ensures DictDecoded(src, |codes|) == Some(Looked(dict, codes))
  {
    DictParts(src, dict, codes);
    SizeBack(src, |dict|);
    EntriesBack(src, dict);
    var all := Looked(dict, codes);
    LookUpBack(src, 4 + |Join(Pieces(dict))|, dict, codes, |codes|);
    assert all[..|codes|] == all;
  }

  lemma SizeBack(src: Bytes, n: nat)
    requires |src| >= 4 && Slice(src, 0, 4) == LeBytes(n, 4) && n < TWO_32
    ensures FromLe(Slice(src, 0, 4)) % TWO_32 == n
  {
    Widths();
    LeRoundTrip(n, 4);
  }

  lemma EntriesBack(src: Bytes, dict: seq<string>)
    requires AllStorable(dict) && |src| >= 4 && Join(Pieces(dict)) <= src[4..]
    ensures StringsAt(src, 4, |dict|) == Some((dict, 4 + |Join(Pieces(dict))|))
  {
    StringsBack(src, 4, dict, |dict|);
    assert Pieces(dict)[..|dict|] == Pieces(dict) && dict[..|dict|] == dict;
  }

  lemma {:induction false} LookUpBack(src: Bytes, base: nat, dict: seq<string>, codes: seq<nat>, n: nat)
    requires CodesOk(dict, codes) && n <= |codes| && base <= |src| && Words(codes, 2) <= src[base..]
    ensures LookUp(src, base, dict, n) == Some(Looked(dict, codes)[..n])
  {
    if n > 0 {
      LookUpBack(src, base, dict, codes, n - 1);
      CodeBack(src, base, codes, n - 1);
      LookUpNext(src, base, dict, codes, n);
    }
  }

  lemma CodeBack(src: Bytes, base: nat, codes: seq<nat>, i: nat)
    requires i < |codes| && codes[i] <= NULL_CODE && base <= |src| && Words(codes, 2) <= src[base..]
    ensures base + 2 * i + 2 <= |src| && Word16(src, base + 2 * i) == codes[i]
  {
    WordIn(src, base, codes, 2, i);
    TimesIsProduct(i, 2);
    WordBack(src, base + 2 * i, codes[i]);
  }

  lemma LookUpNext(src: Bytes, base: nat, dict: seq<string>, codes: seq<nat>, n: nat)
    requires CodesOk(dict, codes) && 0 < n <= |codes| &&
      LookUp(src, base, dict, n - 1) == Some(Looked(dict, codes)[..n - 1])
    requires base + 2 * n <= |src| && Word16(src, base + 2 * (n - 1)) == codes[n - 1]
    ensures LookUp(src, base, dict, n) == Some(Looked(dict, codes)[..n])
  {
    var all := Looked(dict, codes);
    assert all[..n - 1] + [all[n - 1]] == all[..n];
  }

  lemma DictParts(src: Bytes, dict: seq<string>, codes: seq<nat>)
    requires DictBytes(dict, codes) <= src
    ensures |src| >= 4 && Slice(src, 0, 4) == LeBytes(|dict|, 4) && Join(Pieces(dict)) <= src[4..]
    ensures 4 + |Join(Pieces(dict))| <= |src| && Words(codes, 2) <= src[4 + |Join(Pieces(dict))|..]
  {
    ThreeParts(LeBytes(|dict|, 4), Join(Pieces(dict)), Words(codes, 2), src);
  }

  lemma ThreeParts(a: Bytes, b: Bytes, c: Bytes, src: Bytes)
    requires a + b + c <= src
    ensures |a| + |b| <= |src| && Slice(src, 0, |a|) == a && b <= src[|a|..] && c <= src[|a| + |b|..]
  {
    assert src == a + b + c + src[|a + b + c|..];
    BehindHead(a, b, src);
    BehindHead(a + b, c, src);
  }

  method DecodeCodes(src: Bytes, base: nat, n: nat, dict: seq<string>) returns (r: Option<(Vector, Bytes)>)
    ensures r.None? <==> LookUp(src, base, dict, n).None?
    ensures r.Some? ==> |r.value.0| == n && |r.value.1| == BitmapBytes(n)
    ensures r.Some? ==> Some(Under(r.value.1, r.value.0)) == LookUp(src, base, dict, n)
  {
    var payload: Vector, bitmap := seq(n, _ => Str("")), seq(BitmapBytes(n), _ => 0);
    forall p: nat | p < n ensures !BufBit(bitmap, p) { ZeroBits(p % 8); }
    var pos := base;
    for i := 0 to n
      invariant pos == base + 2 * i && |payload| == n && LookUp(src, base, dict, i).Some?
      invariant Filled(payload, bitmap, LookUp(src, base, dict, i).value)
    {
      NoCellsAfter(src, base, dict, i + 1, n);
      if pos + 2 > |src| { return None; }
      var code := Word16(src, pos);
      if code != NULL_CODE && code >= |dict| { return None; }
      payload, bitmap := PutCode(payload, bitmap, i, dict, code, LookUp(src, base, dict, i).value);
      pos := pos + 2;
    }
    FilledIsUnder(payload, bitmap, LookUp(src, base, dict, n).value);
    r := Some((payload, bitmap));
  }

  method PutCode(before: Vector, beforeMap: Bytes, i: nat, dict: seq<string>, code: nat, ghost done: Vector)
      returns (payload: Vector, bitmap: Bytes)
    requires Filled(before, beforeMap, done) && i == |done| < |before| && (code == NULL_CODE || code < |dict|)
    ensures |payload| == |before| &&
      Filled(payload, bitmap, done + [if code == NULL_CODE then Null else Str(dict[code])])
  {
    payload, bitmap := before, beforeMap;
    if code != NULL_CODE {
      FilledOne(before, beforeMap, done, Str(dict[code]));
      payload, bitmap := payload[i := Str(dict[code])], SetBit(bitmap, i);
    } else {
      FilledOne(before, beforeMap, done, Null);
    }
  }

  lemma {:induction false} NoCellsAfter(src: Bytes, base: nat, dict: seq<string>, m: nat, n: nat)
    requires m <= n
    ensures LookUp(src, base, dict, m).None? ==> LookUp(src, base, dict, n).None?
  {
    if m < n { NoCellsAfter(src, base, dict, m, n - 1); }
  }
}
