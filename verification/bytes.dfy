/** Bytes, powers of two and little-endian integers.

    Python works on unbounded integers and masks them by hand
    (`x & 0xFF`, `(x >> 8) & 0xFF`, ...).  For a positive power-of-two
    divisor Dafny's `/` and `%` are floor division and a non-negative
    remainder, which is exactly what Python's `>>` and `& (2^k - 1)` compute,
    negative operands included; the encoders below rely on that. */
module Bytes {

  type Byte = b: int | 0 <= b < 256

  function Pow2(k: nat): (r: nat)
    ensures r >= 1
  {
    if k == 0 then 1 else 2 * Pow2(k - 1)
  }

  lemma Pow2Values()
    ensures Pow2(2) == 4 && Pow2(3) == 8 && Pow2(5) == 32 && Pow2(8) == 256
    ensures Pow2(16) == 65536 && Pow2(24) == 0x100_0000 && Pow2(32) == 0x1_0000_0000
  {
    assert Pow2(1) == 2;
    assert Pow2(2) == 4;
    assert Pow2(3) == 8;
    assert Pow2(4) == 16;
    assert Pow2(5) == 32;
    assert Pow2(6) == 64;
    assert Pow2(7) == 128;
    assert Pow2(8) == 256;
    Pow2Add(8, 8);
    Pow2Add(16, 8);
    Pow2Add(16, 16);
  }

  lemma Pow2Small()
    ensures Pow2(0) == 1 && Pow2(1) == 2 && Pow2(2) == 4 && Pow2(3) == 8 && Pow2(4) == 16
    ensures Pow2(5) == 32 && Pow2(6) == 64 && Pow2(7) == 128
  {
    assert Pow2(1) == 2;
    assert Pow2(3) == 8;
    assert Pow2(5) == 32;
    assert Pow2(7) == 128;
  }

  lemma {:induction false} Pow2Add(a: nat, b: nat)
    ensures Pow2(a + b) == Pow2(a) * Pow2(b)
  {
    if a > 0 {
      Pow2Add(a - 1, b);
    }
  }

  function Zeros(n: nat): (r: seq<Byte>)
    ensures |r| == n
    ensures forall i :: 0 <= i < n ==> r[i] == 0
  {
    seq(n, _ => 0)
  }

  /** `x & ((2^width - 1) << lo)` in Python: bits lo .. lo+width-1 of x, left in place. */
  function BitField(x: int, lo: nat, width: nat): nat
  {
    ((x / Pow2(lo)) % Pow2(width)) * Pow2(lo)
  }

  /** The k-byte little-endian encoding of x: byte i is `(x >> 8*i) & 0xFF`. */
  function LE(x: int, k: nat): (r: seq<Byte>)
    ensures |r| == k
    decreases k
  {
    if k == 0 then [] else [x % 256] + LE(x / 256, k - 1)
  }

  /** The unsigned integer a little-endian byte string denotes. */
  function FromLE(bs: seq<Byte>): (n: nat)
    ensures n < Pow2(8 * |bs|)
  {
    if |bs| == 0 then 0
    else
      assert Pow2(8 * |bs|) == 256 * Pow2(8 * (|bs| - 1)) by {
        Pow2Add(8, 8 * (|bs| - 1));
      }
      bs[0] + 256 * FromLE(bs[1..])
  }

  lemma MulAtLeast(d: int, k: int)
    requires d > 0 && k >= 1
    ensures d * k >= d
  {
  }

  /** A quotient is determined by any decomposition with an in-range remainder. */
  lemma DivUnique(x: int, d: int, q: int, r: int)
    requires d > 0 && x == d * q + r && 0 <= r < d
    ensures x / d == q && x % d == r
  {
    var q', r' := x / d, x % d;
    assert x == d * q' + r';
    var k := q - q';
    assert d * q == d * q' + d * k;
    assert d * k == r' - r;
    if k >= 1 {
      MulAtLeast(d, k);
    } else if k <= -1 {
      MulAtLeast(d, -k);
    }
  }

  lemma DivDiv(x: int, a: int, b: int)
    requires a > 0 && b > 0
    ensures x / a / b == x / (a * b)
  {
    var y := x / a;
    var q := y / b;
    var r1 := x % a;
    var r2 := y % b;
    assert x == a * y + r1;
    assert y == b * q + r2;
    assert a * y == a * (b * q) + a * r2;
    assert a * (b * q) == (a * b) * q;
    assert a * r2 <= a * (b - 1) by {
      assert a * (b - 1) - a * r2 == a * (b - 1 - r2);
      MulNonneg(a, b - 1 - r2);
    }
    assert a * (b - 1) == a * b - a;
    DivUnique(x, a * b, q, a * r2 + r1);
  }

  lemma MulNonneg(a: int, b: int)
    requires a >= 0 && b >= 0
    ensures a * b >= 0
  {
  }

  /** Byte i of LE(x, k) is Python's `(x >> 8*i) & 0xFF`. */
  lemma {:induction false} LEByte(x: int, k: nat, i: nat)
    requires i < k
    ensures LE(x, k)[i] == (x / Pow2(8 * i)) % 256
    decreases k
  {
    if i > 0 {
      LEByte(x / 256, k - 1, i - 1);
      Pow2Add(8, 8 * (i - 1));
      DivDiv(x, 256, Pow2(8 * (i - 1)));
    }
  }

  /** Decoding undoes encoding, up to the k-byte truncation. */
  /** The low byte and the remaining quotient recompose a wider remainder. */
  lemma SplitMod(x: int, p: int)
    requires p > 0
    ensures x % (256 * p) == x % 256 + 256 * ((x / 256) % p)
  {
    var q := x / 256;
    var hi := q / p;
    assert x == 256 * q + x % 256;
    assert q == p * hi + q % p;
    assert 256 * q == (256 * p) * hi + 256 * (q % p);
    assert 256 * (q % p) <= 256 * (p - 1);
    DivUnique(x, 256 * p, hi, 256 * (q % p) + x % 256);
  }

  lemma {:induction false} FromLEOfLE(x: int, k: nat)
    ensures FromLE(LE(x, k)) == x % Pow2(8 * k)
    decreases k
  {
    if k > 0 {
      var p := Pow2(8 * (k - 1));
      FromLEOfLE(x / 256, k - 1);
      assert LE(x, k)[1..] == LE(x / 256, k - 1);
      Pow2Add(8, 8 * (k - 1));
      SplitMod(x, p);
    }
  }

  /** Encoding undoes decoding. */
  lemma {:induction false} LEOfFromLE(bs: seq<Byte>)
    ensures LE(FromLE(bs), |bs|) == bs
  {
    if |bs| > 0 {
      LEOfFromLE(bs[1..]);
      var n := FromLE(bs);
      assert n % 256 == bs[0];
      assert n / 256 == FromLE(bs[1..]);
    }
  }

  /** Bitwise OR of two non-negative integers, Python's `|`. */
  function Or(a: nat, b: nat): nat
    decreases a + b
  {
    if a == 0 then b
    else if b == 0 then a
    else 2 * Or(a / 2, b / 2) + (if a % 2 == 1 || b % 2 == 1 then 1 else 0)
  }

  /** OR stays below a power of two both operands are below. */
  lemma {:induction false} OrBound(a: nat, b: nat, k: nat)
    requires a < Pow2(k) && b < Pow2(k)
    ensures Or(a, b) < Pow2(k)
    decreases k
  {
    if a != 0 && b != 0 {
      OrBound(a / 2, b / 2, k - 1);
    }
  }

  /** OR over disjoint bit ranges is addition: `a` below 2^k, `b` a multiple of 2^k. */
  lemma {:induction false} OrDisjoint(a: nat, b: nat, k: nat)
    requires a < Pow2(k) && b % Pow2(k) == 0
    ensures Or(a, b) == a + b
    decreases k
  {
    if a != 0 && b != 0 {
      var m := b / Pow2(k);
      assert b == 2 * (Pow2(k - 1) * m);
      DivUnique(b / 2, Pow2(k - 1), m, 0);
      OrDisjoint(a / 2, b / 2, k - 1);
    }
  }

  /** OR of disjoint operands, with the power of two passed in as a number. */
  lemma OrAdd(a: nat, b: nat, k: nat, m: nat)
    requires m == Pow2(k) && a < m && b % m == 0
    ensures Or(a, b) == a + b
  {
    OrDisjoint(a, b, k);
  }

  /** A field starting at bit 0 is a remainder. */
  lemma LowField(x: int, width: nat, m: nat)
    requires m == Pow2(width)
    ensures BitField(x, 0, width) == x % m
  {
    assert Pow2(0) == 1;
  }

  /** `a | b` on two bytes. */
  function OrByte(a: Byte, b: Byte): (r: Byte)
    ensures a <= r && b <= r
  {
    OrBound(a, b, 8);
    OrAbove(a, b);
    Or(a, b)
  }

  lemma {:induction false} OrAbove(a: nat, b: nat)
    ensures a <= Or(a, b) && b <= Or(a, b)
    decreases a + b
  {
    if a != 0 && b != 0 {
      OrAbove(a / 2, b / 2);
    }
  }

  /** A 16-bit little-endian word from its two bytes, Python's `lo | (hi << 8)`
      (see WordIsOr). */
  function Word(lo: Byte, hi: Byte): (w: nat)
    ensures w < 65536
    ensures w % 256 == lo && w / 256 == hi
  {
    lo + 256 * hi
  }

  /** The driver combines the two bytes with `|`; the fields are disjoint, so that is the sum. */
  lemma WordIsOr(lo: Byte, hi: Byte)
    ensures Word(lo, hi) == Or(lo, hi * 256)
  {
    Pow2Values();
    OrDisjoint(lo, hi * 256, 8);
  }
}
