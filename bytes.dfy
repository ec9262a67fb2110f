/** Bytes, Python's slicing of a byte string, and int.from_bytes in both byte orders. */
module Bytes {
  import opened Arith

  type byte = b: int | 0 <= b < 256

  /** Lengths and counts are four-byte values. */
  const MAX_LENGTH: nat := 0x1_0000_0000

  /** s[i:j] for non-negative i and j, as Python evaluates it: both bounds are
      clamped to the length of s, and j <= i gives the empty sequence. */
  function Slice<T>(s: seq<T>, i: nat, j: nat): (r: seq<T>)
    ensures i <= j <= |s| ==> r == s[i..j]
    ensures i < j && i <= |s| < j ==> r == s[i..]
    ensures j <= i || |s| <= i ==> r == []
  {
    var hi := if j < |s| then j else |s|;
    var lo := if i < hi then i else hi;
    s[lo..hi]
  }

  /** The value of the bytes s[i:j] has at most 8 * (j - i) bits. */
  lemma BigEndianSliceBound(s: seq<byte>, i: nat, j: nat, bits: nat)
    requires i <= j && 8 * (j - i) <= bits
    ensures BigEndian(Slice(s, i, j)) < Pow2(bits)
  {
    BigEndianBound(Slice(s, i, j));
    Pow2Monotone(8 * |Slice(s, i, j)|, bits);
  }

  /** The four parts of a concatenation, sliced back out. */
  lemma SliceFour<T>(a: seq<T>, b: seq<T>, c: seq<T>, d: seq<T>)
    ensures var s := a + b + c + d;
      && s[0..|a|] == a && s[|a|..|a| + |b|] == b
      && s[|a| + |b|..|a| + |b| + |c|] == c && s[|a| + |b| + |c|..|a| + |b| + |c| + |d|] == d
  {
  }

  /** A concatenation of five parts, sliced back out at the given offsets. */
  lemma SlicesOfConcat<T>(a: seq<T>, b: seq<T>, c: seq<T>, d: seq<T>, e: seq<T>, i: nat, j: nat, k: nat, l: nat, m: nat)
    requires i == |a| && j == i + |b| && k == j + |c| && l == k + |d| && m == l + |e|
    ensures var s := a + b + c + d + e;
      && Slice(s, 0, i) == a && Slice(s, i, j) == b && Slice(s, j, k) == c
      && Slice(s, k, l) == d && Slice(s, l, m) == e
  {
    var s := a + b + c + d + e;
    assert s[0..i] == a && s[i..j] == b && s[j..k] == c && s[k..l] == d && s[l..m] == e;
  }

  /** A sequence is the concatenation of its slices at increasing offsets ending at its length. */
  lemma ConcatOfSlices<T>(s: seq<T>, i: nat, j: nat, k: nat, l: nat)
    requires i <= j <= k <= l <= |s|
    ensures s == Slice(s, 0, i) + Slice(s, i, j) + Slice(s, j, k) + Slice(s, k, l) + Slice(s, l, |s|)
  {
    CutAt(s, l);
    CutAt(s[..l], k);
    CutAt(s[..k], j);
    CutAt(s[..j], i);
    assert s[..l][..k] == s[..k] && s[..l][k..] == s[k..l];
    assert s[..k][..j] == s[..j] && s[..k][j..] == s[j..k];
    assert s[..j][..i] == s[..i] && s[..j][i..] == s[i..j];
  }

  lemma CutAt<T>(s: seq<T>, i: nat)
    requires i <= |s|
    ensures s == s[..i] + s[i..]
  {
  }

  /** The second and third parts of a four-part concatenation, sliced back out. */
  lemma SliceSecondThird<T>(a: seq<T>, b: seq<T>, c: seq<T>, d: seq<T>)
    ensures Slice(a + b + c + d, |a|, |a| + |b|) == b
    ensures Slice(a + b + c + d, |a| + |b|, |a| + |b| + |c|) == c
  {
    var s := a + b + c + d;
    assert s[|a|..|a| + |b|] == b;
    assert s[|a| + |b|..|a| + |b| + |c|] == c;
  }

  /** Regrouping a list element out of the middle of a concatenation. */
  lemma Regroup<T>(p: seq<T>, a: seq<T>, b: seq<T>, e: seq<T>, s: seq<T>)
    ensures p + (a + b + e) + s == p + a + b + (e + s)
    ensures p + (a + b + e) + s == (p + a + b) + e + s
  {
  }

  /** A sequence of length l is the concatenation of its pieces cut at i, j and k. */
  lemma FourPieces<T>(s: seq<T>, i: nat, j: nat, k: nat, l: nat)
    requires i <= j <= k <= l == |s|
    ensures s == s[0..i] + s[i..j] + s[j..k] + s[k..l]
  {
  }

  lemma HeadTail<T>(s: seq<T>)
    requires |s| > 0
    ensures s == [s[0]] + s[1..]
  {
  }

  /** int.from_bytes(s, byteorder='big') */
  function BigEndian(s: seq<byte>): nat
  {
    if s == [] then 0 else 256 * BigEndian(s[..|s| - 1]) + s[|s| - 1]
  }

  /** int.from_bytes(s, byteorder='little') */
  function LittleEndian(s: seq<byte>): nat
  {
    if s == [] then 0 else s[0] + 256 * LittleEndian(s[1..])
  }

  /** An n-byte big-endian value is below 2^(8n). */
  lemma {:induction false} BigEndianBound(s: seq<byte>)
    ensures BigEndian(s) < Pow2(8 * |s|)
  {
    if s != [] {
      BigEndianBound(s[..|s| - 1]);
      Pow2Add(8 * (|s| - 1), 8);
      assert Pow2(8) == 256;
    }
  }

  /** The n-byte big-endian representation of x, the inverse of BigEndian. */
  function ToBigEndian(x: nat, n: nat): (s: seq<byte>)
    ensures |s| == n
  {
    if n == 0 then [] else ToBigEndian(x / 256, n - 1) + [x % 256]
  }

  /** The n-byte little-endian representation of x, the inverse of LittleEndian. */
  function ToLittleEndian(x: nat, n: nat): (s: seq<byte>)
    ensures |s| == n
  {
    if n == 0 then [] else [x % 256] + ToLittleEndian(x / 256, n - 1)
  }

  lemma {:induction false} BigEndianOfToBigEndian(x: nat, n: nat)
    requires x < Pow2(8 * n)
    ensures BigEndian(ToBigEndian(x, n)) == x
  {
    if n > 0 {
      Pow2Add(8 * (n - 1), 8);
      assert Pow2(8) == 256;
      DivBelow(x, 256, Pow2(8 * (n - 1)));
      BigEndianOfToBigEndian(x / 256, n - 1);
      var s := ToBigEndian(x, n);
      assert s[..n - 1] == ToBigEndian(x / 256, n - 1);
    }
  }

  /** BigEndianOfToBigEndian with the bit width 8 * n passed in. */
  lemma BigEndianOfToBigEndianBits(x: nat, n: nat, bits: nat)
    requires bits == 8 * n && x < Pow2(bits)
    ensures BigEndian(ToBigEndian(x, n)) == x
  {
    BigEndianOfToBigEndian(x, n);
  }

  /** A slice holding the n-byte representation of x reads back as x. */
  lemma SliceValue(s: seq<byte>, i: nat, j: nat, x: nat, n: nat, bits: nat)
    requires bits == 8 * n && x < Pow2(bits) && Slice(s, i, j) == ToBigEndian(x, n)
    ensures BigEndian(Slice(s, i, j)) == x
  {
    BigEndianOfToBigEndian(x, n);
  }

  lemma {:induction false} ToBigEndianOfBigEndian(s: seq<byte>)
    ensures ToBigEndian(BigEndian(s), |s|) == s
  {
    if s != [] {
      var init := s[..|s| - 1];
      var x := BigEndian(s);
      BigEndianBound(init);
      DivModUnique(x, 256, BigEndian(init), s[|s| - 1]);
      ToBigEndianOfBigEndian(init);
      assert s == init + [s[|s| - 1]];
    }
  }

  lemma {:induction false} LittleEndianOfToLittleEndian(x: nat, n: nat)
    requires x < Pow2(8 * n)
    ensures LittleEndian(ToLittleEndian(x, n)) == x
  {
    if n > 0 {
      Pow2Add(8 * (n - 1), 8);
      assert Pow2(8) == 256;
      DivBelow(x, 256, Pow2(8 * (n - 1)));
      LittleEndianOfToLittleEndian(x / 256, n - 1);
      var s := ToLittleEndian(x, n);
      assert s[1..] == ToLittleEndian(x / 256, n - 1);
    }
  }

  /** An n-byte little-endian value is below 2^(8n). */
  lemma {:induction false} LittleEndianBound(s: seq<byte>)
    ensures LittleEndian(s) < Pow2(8 * |s|)
  {
    if s != [] {
      LittleEndianBound(s[1..]);
      Pow2Add(8, 8 * (|s| - 1));
      assert Pow2(8) == 256;
    }
  }

  /** Every byte string is the little-endian representation of its own value. */
  lemma {:induction false} ToLittleEndianOfLittleEndian(s: seq<byte>)
    ensures ToLittleEndian(LittleEndian(s), |s|) == s
  {
    if s != [] {
      LittleEndianBound(s[1..]);
      DivModUnique(LittleEndian(s), 256, LittleEndian(s[1..]), s[0]);
      ToLittleEndianOfLittleEndian(s[1..]);
      assert s == [s[0]] + s[1..];
    }
  }

  /** A length below 2^32 written as four little-endian bytes reads back. */
  lemma LittleEndianOfFour(x: nat)
    requires x < 0x1_0000_0000
    ensures LittleEndian(ToLittleEndian(x, 4)) == x
  {
    Pow2Values();
    LittleEndianOfToLittleEndian(x, 4);
  }

  /** Big-endian values of two, three and four bytes, written out. */
  lemma BigEndianShort(s: seq<byte>)
    ensures |s| == 2 ==> BigEndian(s) == s[0] as int * 256 + s[1]
    ensures |s| == 3 ==> BigEndian(s) == s[0] as int * 65536 + s[1] as int * 256 + s[2]
    ensures |s| == 4 ==>
      BigEndian(s) == s[0] as int * 16777216 + s[1] as int * 65536 + s[2] as int * 256 + s[3]
  {
    if |s| >= 2 {
      assert s[..|s| - 1][..|s| - 2] == s[..|s| - 2];
      if |s| >= 3 {
        assert s[..|s| - 2][..|s| - 3] == s[..|s| - 3];
      }
      if |s| == 4 {
        assert s[..1][..0] == [];
      }
    }
  }
}
