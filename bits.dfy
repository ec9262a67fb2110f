/** Binary digit strings: the parser slices integers by writing them out with
    bin(x)[2:].zfill(n) and reading fields back with int(s, 2). */
module Bits {
  import opened Arith

  /** The last n binary digits of x, most significant first: bin(x)[2:].zfill(n)
      whenever x < 2^n, which holds wherever the parser calls it. */
  function BinaryDigits(x: nat, n: nat): (s: string)
    ensures |s| == n
  {
    if n == 0 then "" else BinaryDigits(x / 2, n - 1) + [if x % 2 == 1 then '1' else '0']
  }

  /** int(s, 2) on a string of binary digits. */
  function ParseBinary(s: string): nat
  {
    if s == [] then 0 else 2 * ParseBinary(s[..|s| - 1]) + (if s[|s| - 1] == '1' then 1 else 0)
  }

  lemma {:induction false} ParseBinaryDigits(x: nat, n: nat)
    requires x < Pow2(n)
    ensures ParseBinary(BinaryDigits(x, n)) == x
  {
    if n > 0 {
      DivBelow(x, 2, Pow2(n - 1));
      ParseBinaryDigits(x / 2, n - 1);
      var s := BinaryDigits(x, n);
      assert s[..n - 1] == BinaryDigits(x / 2, n - 1);
    }
  }

  /** A string of the digits '0' and '1' only. */
  ghost predicate IsBinary(s: string)
  {
    forall i :: 0 <= i < |s| ==> s[i] == '0' || s[i] == '1'
  }

  lemma {:induction false} BinaryDigitsAreBinary(x: nat, n: nat)
    ensures IsBinary(BinaryDigits(x, n))
  {
    if n > 0 {
      BinaryDigitsAreBinary(x / 2, n - 1);
    }
  }

  lemma BinaryConcat(a: string, b: string)
    requires IsBinary(a) && IsBinary(b)
    ensures IsBinary(a + b)
  {
    forall i | 0 <= i < |a + b|
      ensures (a + b)[i] == '0' || (a + b)[i] == '1'
    {
      if i >= |a| { assert (a + b)[i] == b[i - |a|]; }
    }
  }

  lemma {:induction false} ParseBinaryBound(s: string)
    ensures ParseBinary(s) < Pow2(|s|)
  {
    if s != [] {
      ParseBinaryBound(s[..|s| - 1]);
    }
  }

  /** Writing out the value of a binary string with as many digits gives the string back. */
  lemma {:induction false} DigitsOfParse(s: string)
    requires IsBinary(s)
    ensures BinaryDigits(ParseBinary(s), |s|) == s
  {
    if s != [] {
      var init, last := s[..|s| - 1], s[|s| - 1];
      assert IsBinary(init) by {
        forall i | 0 <= i < |init| ensures init[i] == '0' || init[i] == '1' {
          assert init[i] == s[i];
        }
      }
      DigitsOfParse(init);
      var bit := if last == '1' then 1 else 0;
      DivModUnique(ParseBinary(s), 2, ParseBinary(init), bit);
      assert s == init + [last];
    }
  }

  /** The value of the n = j - i digits s[i..j] of a binary string, which they spell back. */
  lemma DigitsField(s: string, i: nat, j: nat, n: nat) returns (v: nat)
    requires IsBinary(s) && i <= j <= |s| && n == j - i
    ensures v == ParseBinary(s[i..j]) && v < Pow2(n) && BinaryDigits(v, n) == s[i..j]
  {
    var field := s[i..j];
    assert IsBinary(field) by {
      forall k | 0 <= k < |field| ensures field[k] == '0' || field[k] == '1' {
        assert field[k] == s[i + k];
      }
    }
    v := ParseBinary(field);
    ParseBinaryBound(field);
    DigitsOfParse(field);
  }

  /** The digits of hi * 2^b + lo are those of hi followed by those of lo. */
  lemma {:induction false} ConcatDigits(hi: nat, lo: nat, a: nat, b: nat)
    requires hi < Pow2(a) && lo < Pow2(b)
    ensures hi * Pow2(b) + lo < Pow2(a + b) &&
            BinaryDigits(hi * Pow2(b) + lo, a + b) == BinaryDigits(hi, a) + BinaryDigits(lo, b)
  {
    Pow2Add(a, b);
    MulAddBelow(hi, lo, Pow2(a), Pow2(b));
    if b > 0 {
      HalveMulAdd(hi, lo, Pow2(b - 1));
      DivBelow(lo, 2, Pow2(b - 1));
      ConcatDigits(hi, lo / 2, a, b - 1);
    } else {
      assert BinaryDigits(lo, b) == "";
    }
  }

  lemma MulAddBelow(hi: nat, lo: nat, m: nat, q: nat)
    requires hi < m && lo < q
    ensures hi * q + lo < m * q
  {
    assert hi * q <= (m - 1) * q;
  }

  lemma HalveMulAdd(hi: nat, lo: nat, p: nat)
    ensures (hi * (2 * p) + lo) / 2 == hi * p + lo / 2
    ensures (hi * (2 * p) + lo) % 2 == lo % 2
  {
    DivModUnique(hi * (2 * p) + lo, 2, hi * p + lo / 2, lo % 2);
  }

  /** The digits of x are those of its quotient by p = 2^b followed by those of its remainder. */
  lemma SplitDigits(x: nat, a: nat, b: nat, p: nat) returns (hi: nat, lo: nat)
    requires p == Pow2(b) && x < Pow2(a + b)
    ensures hi == x / p && lo == x % p && x == hi * p + lo
    ensures hi < Pow2(a) && lo < Pow2(b)
    ensures BinaryDigits(x, a + b) == BinaryDigits(hi, a) + BinaryDigits(lo, b)
  {
    DivMod(x, p);
    hi, lo := x / p, x % p;
    Pow2Add(a, b);
    DivBelow(x, p, Pow2(a));
    ConcatDigits(hi, lo, a, b);
  }

  /** int(bin(x)[2:].zfill(n)[i:j], 2): the digits i..j of an n-digit string hold
      x with its top i bits masked off and its low n - j bits shifted out. */
  lemma DigitField(x: nat, n: nat, i: nat, j: nat)
    requires x < Pow2(n) && i <= j <= n
    ensures ParseBinary(BinaryDigits(x, n)[i..j]) == x % Pow2(n - i) / Pow2(n - j)
  {
    var hi, y := SplitDigits(x, i, n - i, Pow2(n - i));
    var mid, lo := SplitDigits(y, j - i, n - j, Pow2(n - j));
    assert BinaryDigits(x, n)[i..j] == BinaryDigits(mid, j - i);
    ParseBinaryDigits(mid, j - i);
  }
}
