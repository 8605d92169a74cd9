/** Bits of natural numbers, and little-endian bytes.

    A number is a sequence of bits, least significant first; shifting, masking and OR are
    defined bit by bit, so every law below is a short induction. */
module Bits {

  predicate Bit(n: nat, k: nat)
    decreases k
  {
    if k == 0 then n % 2 == 1 else Bit(n / 2, k - 1)
  }

  function BitVal(b: bool): nat { if b then 1 else 0 }

  function BitOr(a: nat, b: nat): nat {
    if a == 0 then b
    else if b == 0 then a
    else BitVal(a % 2 == 1 || b % 2 == 1) + 2 * BitOr(a / 2, b / 2)
  }

  function Shl(n: nat, s: nat): nat { if s == 0 then n else 2 * Shl(n, s - 1) }

  function Shr(n: nat, s: nat): nat { if s == 0 then n else Shr(n / 2, s - 1) }

  /** The low w bits. */
  function Mask(n: nat, w: nat): nat { if w == 0 then 0 else n % 2 + 2 * Mask(n / 2, w - 1) }

  function Pow2(w: nat): nat { if w == 0 then 1 else 2 * Pow2(w - 1) }

  // ----- What each operation does to a bit -----

  lemma {:induction false} ZeroBits(k: nat)
    ensures !Bit(0, k)
  {
    if k > 0 { ZeroBits(k - 1); }
  }

  lemma {:induction false} OrBit(a: nat, b: nat, k: nat)
    ensures Bit(BitOr(a, b), k) <==> Bit(a, k) || Bit(b, k)
    decreases k
  {
    ZeroBits(k);
    if a > 0 && b > 0 && k > 0 { OrBit(a / 2, b / 2, k - 1); }
  }

  lemma {:induction false} ShlBit(n: nat, s: nat, k: nat)
    ensures Bit(Shl(n, s), k) <==> k >= s && Bit(n, k - s)
  {
    if s > 0 && k > 0 { ShlBit(n, s - 1, k - 1); }
  }

  lemma {:induction false} ShrBit(n: nat, s: nat, k: nat)
    ensures Bit(Shr(n, s), k) <==> Bit(n, k + s)
  {
    if s > 0 { ShrBit(n / 2, s - 1, k); }
  }

  lemma {:induction false} MaskBit(n: nat, w: nat, k: nat)
    ensures Bit(Mask(n, w), k) <==> k < w && Bit(n, k)
    decreases k
  {
    if w == 0 {
      ZeroBits(k);
    } else if k > 0 {
      MaskBit(n / 2, w - 1, k - 1);
    }
  }

  /** A number is its bits. */
  lemma {:induction false} SameBits(a: nat, b: nat)
    requires forall k: nat :: Bit(a, k) <==> Bit(b, k)
    ensures a == b
    decreases a + b
  {
    if a != b {
      assert Bit(a, 0) <==> Bit(b, 0);
      forall k: nat ensures Bit(a / 2, k) <==> Bit(b / 2, k) { assert Bit(a, k + 1) <==> Bit(b, k + 1); }
      SameBits(a / 2, b / 2);
    }
  }

  /** Masking is the remainder modulo a power of two. */
  lemma {:induction false} MaskIsMod(n: nat, w: nat)
    ensures Pow2(w) > 0 && Mask(n, w) == n % Pow2(w)
  {
    if w > 0 {
      MaskIsMod(n / 2, w - 1);
      HalfMod(n, Pow2(w - 1));
    }
  }

  lemma HalfMod(n: nat, p: nat)
    requires p > 0
    ensures n % (2 * p) == n % 2 + 2 * ((n / 2) % p)
  {
    var h, r := n / 2, n % 2;
    var q, m := h / p, h % p;
    assert h == q * p + m;
    assert n == q * (2 * p) + (2 * m + r);
    ModUnique(n, 2 * p, q, 2 * m + r);
  }

  lemma ModUnique(n: nat, d: nat, q: nat, r: nat)
    requires d > 0 && r < d && n == q * d + r
    ensures n % d == r
  {
    var c := n / d;
    assert n == c * d + n % d;
    NextMultiple(c, q, d);
    NextMultiple(q, c, d);
  }

  lemma NextMultiple(a: nat, b: nat, d: nat)
    ensures a < b ==> a * d + d <= b * d
  {
    if a < b { assert b * d == (a + 1) * d + (b - a - 1) * d; }
  }

  /** Masking changes nothing exactly when the number fits. */
  lemma {:induction false} MaskFitsIff(n: nat, w: nat)
    ensures Mask(n, w) == n <==> n < Pow2(w)
    ensures Mask(n, w) <= n && Mask(n, w) < Pow2(w)
  {
    if w > 0 { MaskFitsIff(n / 2, w - 1); }
  }

  // ----- Bits of a byte buffer -----

  type Bytes = seq<nat>

  predicate BufBit(buf: Bytes, p: nat)
    requires p / 8 < |buf|
  {
    Bit(buf[p / 8], p % 8)
  }

  /** The number stored in `width` bits from bit `start` on. */
  function Field(buf: Bytes, start: nat, width: nat): nat
    requires start + width <= 8 * |buf|
    decreases width
  {
    if width == 0 then 0 else BitVal(BufBit(buf, start)) + 2 * Field(buf, start + 1, width - 1)
  }

  lemma {:induction false} FieldBit(buf: Bytes, start: nat, width: nat, k: nat)
    requires start + width <= 8 * |buf|
    ensures Bit(Field(buf, start, width), k) <==> k < width && BufBit(buf, start + k)
    decreases width
  {
    if width == 0 {
      ZeroBits(k);
    } else if k > 0 {
      FieldBit(buf, start + 1, width - 1, k - 1);
    }
  }

  // ----- Little-endian bytes -----

  function LeBytes(n: nat, k: nat): (b: Bytes)
    ensures |b| == k && forall i :: 0 <= i < k ==> b[i] < 256
  {
    if k == 0 then [] else [n % 256] + LeBytes(n / 256, k - 1)
  }

  function FromLe(b: Bytes): nat {
    if b == [] then 0 else b[0] + 256 * FromLe(b[1..])
  }

  function Pow256(k: nat): nat { if k == 0 then 1 else 256 * Pow256(k - 1) }

  lemma {:induction false} LeRoundTrip(n: nat, k: nat)
    ensures n < Pow256(k) ==> FromLe(LeBytes(n, k)) == n
  {
    if k > 0 {
      LeRoundTrip(n / 256, k - 1);
      assert LeBytes(n, k)[1..] == LeBytes(n / 256, k - 1);
    }
  }

  /** k bytes tell numbers apart only up to multiples of their range. */
  lemma {:induction false} LeSame(n: nat, m: nat, q: nat, k: nat)
    requires n == m + Pow256(k) * q
    ensures LeBytes(n, k) == LeBytes(m, k)
  {
    if k > 0 {
      var t := Pow256(k - 1) * q;
      assert Pow256(k) * q == 256 * t;
      LeSame(n / 256, m / 256, q, k - 1);
    }
  }

  /** A number written into four bytes is read back modulo 2^32. */
  lemma LeWraps(n: nat)
    ensures FromLe(LeBytes(n, 4)) == n % TWO_32
  {
    Widths();
    LeSame(n, n % TWO_32, n / TWO_32, 4);
    LeRoundTrip(n % TWO_32, 4);
  }

  const TWO_16: int := 0x1_0000
  const TWO_32: int := 0x1_0000_0000
  const TWO_63: int := 0x8000_0000_0000_0000
  const TWO_64: int := 0x1_0000_0000_0000_0000

  lemma Widths()
    ensures Pow256(1) == 256 && Pow256(2) == TWO_16 && Pow256(4) == TWO_32 && Pow256(8) == TWO_64
  {
    assert Pow256(1) == 256;
    assert Pow256(2) == 256 * Pow256(1);
    assert Pow256(3) == 256 * Pow256(2);
    assert Pow256(4) == 256 * Pow256(3);
    assert Pow256(5) == 256 * Pow256(4);
    assert Pow256(6) == 256 * Pow256(5);
    assert Pow256(7) == 256 * Pow256(6);
    assert Pow256(8) == 256 * Pow256(7);
  }

  // ----- Two's complement -----

  predicate IsInt64(v: int) { -TWO_63 <= v < TWO_63 }

  function ToU64(v: int): nat
    requires IsInt64(v)
  {
    if v < 0 then v + TWO_64 else v
  }

  function FromU64(u: nat): int { if u < TWO_63 then u else u - TWO_64 }

  /** A 64-bit integer survives eight little-endian bytes. */
  lemma I64RoundTrip(v: int)
    requires IsInt64(v)
    ensures FromU64(FromLe(LeBytes(ToU64(v), 8))) == v
  {
    Widths();
    LeRoundTrip(ToU64(v), 8);
  }
}
