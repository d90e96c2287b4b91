/** Bytes and little-endian integers, the raw material of every firmware structure. */
module Bytes {

  /** A byte as Python sees it: an integer from 0 to 255. */
  type byte = x: int | 0 <= x < 0x100

  /** 256^k, the number of values a k-byte unsigned integer can hold. */
  function Pow256(k: nat): (p: nat)
    ensures p >= 1
  {
    if k == 0 then 1 else 0x100 * Pow256(k - 1)
  }

  lemma Pow256Values()
    ensures Pow256(1) == 0x100 && Pow256(2) == 0x1_0000
    ensures Pow256(3) == 0x100_0000 && Pow256(4) == 0x1_0000_0000
  {
  }

  /** The unsigned integer whose little-endian encoding is `s` (byte 0 is least significant). */
  function LittleEndian(s: seq<byte>): (n: nat)
    ensures n < Pow256(|s|)
  {
    if s == [] then 0 else s[0] + 0x100 * LittleEndian(s[1..])
  }

  /** The `width`-byte little-endian encoding of `n`, truncated to `width` bytes. */
  function ToLittleEndian(n: nat, width: nat): (s: seq<byte>)
    ensures |s| == width
  {
    if width == 0 then [] else [n % 0x100] + ToLittleEndian(n / 0x100, width - 1)
  }

  /** Encoding a value that fits and decoding it gives the value back. */
  lemma {:induction false} DecodeEncode(n: nat, width: nat)
    requires n < Pow256(width)
    ensures LittleEndian(ToLittleEndian(n, width)) == n
  {
    if width > 0 {
      var p := Pow256(width - 1);
      assert n / 0x100 < p by {
        assert n < 0x100 * p;
      }
      DecodeEncode(n / 0x100, width - 1);
      var s := ToLittleEndian(n, width);
      assert s[1..] == ToLittleEndian(n / 0x100, width - 1);
    }
  }

  /** Decoding bytes and encoding the value at the same width gives the bytes back. */
  lemma {:induction false} EncodeDecode(s: seq<byte>)
    ensures ToLittleEndian(LittleEndian(s), |s|) == s
  {
    if s != [] {
      EncodeDecode(s[1..]);
      var n := LittleEndian(s);
      assert n % 0x100 == s[0];
      assert n / 0x100 == LittleEndian(s[1..]);
    }
  }

  /** Splitting a little-endian number into a low and a high part. */
  lemma {:induction false} LittleEndianSplit(s: seq<byte>, k: nat)
    requires k <= |s|
    ensures LittleEndian(s) == LittleEndian(s[..k]) + Pow256(k) * LittleEndian(s[k..])
  {
    if k > 0 {
      var t := s[1..];
      LittleEndianSplit(t, k - 1);
      var lo, hi, p := LittleEndian(t[..k - 1]), LittleEndian(t[k - 1..]), Pow256(k - 1);
      assert t[..k - 1] == s[..k][1..];
      assert t[k - 1..] == s[k..];
      assert LittleEndian(s[..k]) == s[0] + 0x100 * lo;
      ShiftProduct(lo, p, hi);
    }
  }

  lemma ShiftProduct(lo: int, p: int, hi: int)
    ensures 0x100 * (lo + p * hi) == 0x100 * lo + (0x100 * p) * hi
  {
  }

  lemma SliceJoin(s: seq<byte>, a: nat, b: nat, c: nat)
    requires a <= b <= c <= |s|
    ensures s[a..b] + s[b..c] == s[a..c]
  {
  }
}
