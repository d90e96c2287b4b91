/** The tool's only checksum routine: the bytes of a buffer read as an array of 8-bit or
    32-bit little-endian words and summed with wrap-around at the word width. */
module Checksum {
  import opened Bytes

  /** The word sizes the tool sums over: 1 (c_uint8) and 4 (c_uint32). */
  predicate IsWordWidth(w: nat) {
    w == 1 || w == 4
  }

  /** The number of whole words after the first one; used where Dafny cannot divide by `w` alone. */
  lemma DivStep(n: nat, w: nat)
    requires IsWordWidth(w) && n >= w
    ensures (n - w) / w + 1 == n / w
  {
  }

  /** The ctypes array built over `data`: whole `w`-byte words read from the front; a trailing
      partial word is dropped. */
  function Words(data: seq<byte>, w: nat): (ws: seq<nat>)
    requires IsWordWidth(w)
    ensures |ws| == |data| / w
    ensures forall k :: 0 <= k < |ws| ==> ws[k] < Pow256(w)
    decreases |data|
  {
    if |data| < w then []
    else
      DivStep(|data|, w);
      [LittleEndian(data[..w])] + Words(data[w..], w)
  }

  function Sum(xs: seq<nat>): nat {
    if xs == [] then 0 else xs[0] + Sum(xs[1..])
  }

  /** The sum of the words of `data`, truncated to the word width: the `& typ(-1).value` mask
      is 0xFF for c_uint8 and 0xFFFFFFFF for c_uint32, and masking a non-negative sum with it
      keeps the remainder modulo 2^8 or 2^32. */
  function ArraySum(data: seq<byte>, w: nat): (r: nat)
    requires IsWordWidth(w)
    ensures r < Pow256(w)
  {
    Pow256Values();
    if w == 1 then Sum(Words(data, 1)) % 0x100 else Sum(Words(data, 4)) % 0x1_0000_0000
  }

  /** The plain sum of a byte sequence, with no truncation. */
  function ByteTotal(s: seq<byte>): nat {
    Sum(s)
  }

  /** The k-th word is the little-endian value of bytes k*w .. k*w+w. */
  lemma WordsAt(data: seq<byte>, w: nat, k: nat)
    requires IsWordWidth(w) && k < |data| / w
    ensures k * w + w <= |data|
    ensures Words(data, w)[k] == LittleEndian(data[k * w .. k * w + w])
  {
    if w == 1 {
      ByteWordAt(data, k);
    } else {
      LongWordAt(data, k);
    }
  }

  lemma {:induction false} ByteWordAt(data: seq<byte>, k: nat)
    requires k < |data|
    ensures Words(data, 1)[k] == LittleEndian(data[k .. k + 1])
    decreases k
  {
    if k > 0 {
      ByteWordAt(data[1..], k - 1);
      assert data[1..][k - 1 .. k] == [data[k]] == data[k .. k + 1];
    }
  }

  lemma {:induction false} LongWordAt(data: seq<byte>, k: nat)
    requires k < |data| / 4
    ensures k * 4 + 4 <= |data|
    ensures Words(data, 4)[k] == LittleEndian(data[k * 4 .. k * 4 + 4])
    decreases k
  {
    DivStep(|data|, 4);
    if k > 0 {
      LongWordAt(data[4..], k - 1);
      assert data[4..][k * 4 - 4 .. k * 4] == data[k * 4 .. k * 4 + 4];
    }
  }

  lemma {:induction false} SumAppend(xs: seq<nat>, ys: seq<nat>)
    ensures Sum(xs + ys) == Sum(xs) + Sum(ys)
  {
    if xs == [] {
      assert xs + ys == ys;
    } else {
      SumAppend(xs[1..], ys);
      assert (xs + ys)[1..] == xs[1..] + ys;
    }
  }

  /** Splitting a buffer at a word boundary splits its word array there. */
  lemma {:induction false} WordsAppend(a: seq<byte>, b: seq<byte>, w: nat)
    requires IsWordWidth(w) && |a| % w == 0
    ensures Words(a + b, w) == Words(a, w) + Words(b, w)
    decreases |a|
  {
    if |a| == 0 {
      assert a + b == b;
    } else {
      assert |a| >= w && |a[w..]| % w == 0;
      assert (a + b)[..w] == a[..w];
      assert (a + b)[w..] == a[w..] + b;
      WordsAppend(a[w..], b, w);
    }
  }

  /** Summing two word-aligned pieces separately and adding the results, with wrap-around,
      is summing their concatenation. */
  lemma ArraySumAppend(a: seq<byte>, b: seq<byte>, w: nat)
    requires IsWordWidth(w) && |a| % w == 0
    ensures ArraySum(a + b, w) == (ArraySum(a, w) + ArraySum(b, w)) % Pow256(w)
  {
    WordsAppend(a, b, w);
    SumAppend(Words(a, w), Words(b, w));
    Pow256Values();
    if w == 1 {
      ModOfSumBytes(Sum(Words(a, 1)), Sum(Words(b, 1)));
    } else {
      ModOfSumWords(Sum(Words(a, 4)), Sum(Words(b, 4)));
    }
  }

  /** Reducing the addends first does not change a sum modulo 2^8 ... */
  lemma ModOfSumBytes(x: nat, y: nat)
    ensures (x + y) % 0x100 == (x % 0x100 + y % 0x100) % 0x100
  {
    var qx, rx, qy, ry := x / 0x100, x % 0x100, y / 0x100, y % 0x100;
    assert x == 0x100 * qx + rx;
    assert y == 0x100 * qy + ry;
    if rx + ry < 0x100 {
      assert x + y == 0x100 * (qx + qy) + (rx + ry);
    } else {
      assert x + y == 0x100 * (qx + qy + 1) + (rx + ry - 0x100);
    }
  }

  /** ... nor modulo 2^32. */
  lemma ModOfSumWords(x: nat, y: nat)
    ensures (x + y) % 0x1_0000_0000
            == (x % 0x1_0000_0000 + y % 0x1_0000_0000) % 0x1_0000_0000
  {
    var qx, rx := x / 0x1_0000_0000, x % 0x1_0000_0000;
    var qy, ry := y / 0x1_0000_0000, y % 0x1_0000_0000;
    assert x == 0x1_0000_0000 * qx + rx;
    assert y == 0x1_0000_0000 * qy + ry;
    if rx + ry < 0x1_0000_0000 {
      assert x + y == 0x1_0000_0000 * (qx + qy) + (rx + ry);
    } else {
      assert x + y == 0x1_0000_0000 * (qx + qy + 1) + (rx + ry - 0x1_0000_0000);
    }
  }

  /** A trailing partial word does not take part in the sum. */
  lemma {:induction false} ArraySumIgnoresTail(data: seq<byte>, w: nat)
    requires IsWordWidth(w)
    ensures |data| / w * w <= |data|
    ensures ArraySum(data, w) == ArraySum(data[..|data| / w * w], w)
  {
    var m := |data| / w * w;
    assert m <= |data|;
    var tail := data[m..];
    assert |tail| < w;
    assert data == data[..m] + tail;
    assert m % w == 0;
    WordsAppend(data[..m], tail, w);
    assert Words(tail, w) == [];
    assert Words(data, w) == Words(data[..m], w);
  }

  /** Read as 8-bit words, the sum is the plain byte total modulo 256. */
  lemma {:induction false} ArraySumOfBytes(data: seq<byte>)
    ensures ArraySum(data, 1) == ByteTotal(data) % 0x100
  {
    ByteWords(data);
  }

  lemma {:induction false} ByteWords(data: seq<byte>)
    ensures Sum(Words(data, 1)) == ByteTotal(data)
  {
    if data != [] {
      ByteWords(data[1..]);
      assert LittleEndian(data[..1]) == data[0];
    }
  }

  /** Replacing one byte moves the plain byte total by the difference of the two values. */
  lemma {:induction false} ByteTotalUpdate(s: seq<byte>, i: nat, v: byte)
    requires i < |s|
    ensures ByteTotal(s[i := v]) == ByteTotal(s) - s[i] + v
  {
    if i > 0 {
      ByteTotalUpdate(s[1..], i - 1, v);
      assert s[i := v][1..] == s[1..][i - 1 := v];
    } else {
      assert s[i := v][1..] == s[1..];
    }
  }
}
