/**
  Byte-level helpers shared by every part of the FAT12 reader: the
  little-endian integer decoder `ReadNumber` and the 32-bit wrap-around of
  the `unsigned int` arithmetic the reader does on sector and cluster numbers.
 */
module Bytes {

  /** An unsigned 8-bit value (`uint8_t`). */
  type byte = x: int | 0 <= x < 256

  /** 256 to the power `n`: the number of values an `n`-byte integer can take. */
  function Pow256(n: nat): (r: nat)
    ensures r >= 1
  {
    if n == 0 then 1 else 256 * Pow256(n - 1)
  }

  const TwoTo32: nat := 0x1_0000_0000

  /** The value an `unsigned int` holds after an assignment of `x` (C's modulo-2^32 conversion). */
  function Wrap32(x: int): (r: nat)
    ensures r < TwoTo32
    ensures 0 <= x < TwoTo32 ==> r == x
  {
    x % TwoTo32
  }

  /**
    The C reader's `ReadNumber(count, source)`: it folds the bytes from the last
    one down to the first, shifting the accumulator left by eight bits each
    time.  The recursion below peels the first (least significant) byte,
    which yields the same value.  The accumulator is a `uint64`, so at most
    eight bytes are decoded exactly; every caller passes two or four.
   */
  function ReadNumber(s: seq<byte>): (r: nat)
    requires |s| <= 8
    ensures r < Pow256(|s|)
  {
    if |s| == 0 then 0
    else
      var rest := ReadNumber(s[1..]);
      assert rest <= Pow256(|s| - 1) - 1;
      assert 256 * rest <= 256 * Pow256(|s| - 1) - 256;
      s[0] + 256 * rest
  }

  /** Reference definition: the sum of `s[i] * 256^i` over the positions of `s`, summed from the last byte. */
  function LittleEndianSum(s: seq<byte>): nat
  {
    if |s| == 0 then 0
    else LittleEndianSum(s[..|s| - 1]) + (s[|s| - 1]) * Pow256(|s| - 1)
  }

  /** The inverse of `ReadNumber`: the `k`-byte little-endian encoding of `n`. */
  function ToLittleEndian(n: nat, k: nat): (s: seq<byte>)
    ensures |s| == k
  {
    if k == 0 then [] else [n % 256] + ToLittleEndian(n / 256, k - 1)
  }

  /** A two-byte field decodes to `low + 256 * high`, below 65536. */
  lemma ReadNumber2(s: seq<byte>)
    requires |s| == 2
    ensures ReadNumber(s) == s[0] as int + 256 * s[1] as int
    ensures ReadNumber(s) < 0x1_0000
  {
    assert s[1..][1..] == [];
  }

  lemma MulMonotonic(a: nat, b: nat, c: nat)
    requires a <= b
    ensures a * c <= b * c
  {
  }

  /** Integer division by a positive divisor brackets the dividend. */
  lemma DivBracket(a: nat, d: nat)
    requires d >= 1
    ensures (a / d) * d <= a < (a / d + 1) * d
    ensures a / d <= a
  {
    var q, m := a / d, a % d;
    assert a == d * q + m && 0 <= m < d;
    assert (q + 1) * d == q * d + d;
    assert q <= q * d by {
      MulMonotonic(1, d, q);
    }
  }

  /** A quotient by a positive divisor is at most the dividend. */
  lemma DivAtMost(a: nat, d: nat)
    requires d >= 1
    ensures a / d <= a
  {
    DivBracket(a, d);
  }

  /** Quotient and remainder are the unique `q`, `m` with `a == q * d + m` and `m < d`. */
  lemma DivModUnique(a: nat, d: nat, q: nat, m: nat)
    requires d >= 1 && m < d && a == q * d + m
    ensures a / d == q && a % d == m
  {
    var q', m' := a / d, a % d;
    assert a == q' * d + m';
    if q' < q {
      assert (q' + 1) * d <= q * d by { MulMonotonic(q' + 1, q, d); }
    } else if q' > q {
      assert (q + 1) * d <= q' * d by { MulMonotonic(q + 1, q', d); }
    }
  }

  /** Stepping one byte either stays in the same `d`-byte block or moves to the first byte of the next one. */
  lemma DivModSucc(a: nat, d: nat)
    requires d >= 1
    ensures a % d == d - 1 ==> (a + 1) / d == a / d + 1 && (a + 1) % d == 0
    ensures a % d < d - 1 ==> (a + 1) / d == a / d && (a + 1) % d == a % d + 1
  {
    var q, m := a / d, a % d;
    if m == d - 1 {
      DivModUnique(a + 1, d, q + 1, 0);
    } else {
      DivModUnique(a + 1, d, q, m + 1);
    }
  }

  lemma MulSucc(a: nat, b: nat)
    ensures (a + 1) * b == a * b + b
  {
  }

  lemma MulShift(x: nat, p: nat)
    ensures x * (256 * p) == 256 * (x * p)
  {
  }

  /** `LittleEndianSum` also peels from the front, like `ReadNumber`. */
  lemma {:induction false} LittleEndianSumFront(s: seq<byte>)
    requires |s| >= 1
    ensures LittleEndianSum(s) == s[0] + 256 * LittleEndianSum(s[1..])
  {
    if |s| == 1 {
      assert s[..0] == [];
      assert s[1..] == [];
    } else {
      var t := s[..|s| - 1];
      var a, x, p := LittleEndianSum(t[1..]), s[|s| - 1], Pow256(|s| - 2);
      assert LittleEndianSum(t) == s[0] + 256 * a by {
        LittleEndianSumFront(t);
        assert t[0] == s[0];
      }
      assert LittleEndianSum(s[1..]) == a + x * p by {
        assert t[1..] == s[1..][..|s[1..]| - 1];
        assert s[1..][|s[1..]| - 1] == s[|s| - 1];
      }
      assert LittleEndianSum(s) == LittleEndianSum(t) + 256 * (x * p) by {
        assert Pow256(|s| - 1) == 256 * p;
        MulShift(x, p);
      }
    }
  }

  /** `ReadNumber(s)` is the little-endian value of `s`: the sum of `s[i] * 256^i`. */
  lemma {:induction false} ReadNumberIsLittleEndian(s: seq<byte>)
    requires |s| <= 8
    ensures ReadNumber(s) == LittleEndianSum(s)
  {
    if |s| > 0 {
      ReadNumberIsLittleEndian(s[1..]);
      LittleEndianSumFront(s);
    }
  }

  /** Decoding the `k`-byte encoding of a `k`-byte number gives the number back. */
  lemma {:induction false} ReadNumberToLittleEndian(n: nat, k: nat)
    requires k <= 8 && n < Pow256(k)
    ensures ReadNumber(ToLittleEndian(n, k)) == n
  {
    if k > 0 {
      var s := ToLittleEndian(n, k);
      assert s[1..] == ToLittleEndian(n / 256, k - 1);
      ReadNumberToLittleEndian(n / 256, k - 1);
    }
  }

  /** Encoding what `ReadNumber` decoded gives the bytes back: the two are inverse on `k`-byte strings. */
  lemma {:induction false} ToLittleEndianReadNumber(s: seq<byte>)
    requires |s| <= 8
    ensures ToLittleEndian(ReadNumber(s), |s|) == s
  {
    if |s| > 0 {
      var n := ReadNumber(s);
      assert n % 256 == s[0];
      assert n / 256 == ReadNumber(s[1..]);
      ToLittleEndianReadNumber(s[1..]);
    }
  }
}
