/** The driver's bit-string helpers: `number_to_bits`, `bits_to_bytes` and
    `bits_to_bools` (dlpyc900/dlpyc900.py:17-29).

    The driver builds some multi-byte fields by printing a number in binary,
    cutting the text into 8-character pieces from the LEFT and reversing the
    list of pieces.  That yields little-endian bytes only when the width is a
    multiple of 8; for other widths the first (most significant) piece holds
    the high 8 bits and the short last piece the low bits. */
module BitStrings {
  import opened Bytes

  predicate IsBits(s: string)
  {
    forall i :: 0 <= i < |s| ==> s[i] == '0' || s[i] == '1'
  }

  function Digit(b: nat): char
    requires b < 2
  {
    if b == 0 then '0' else '1'
  }

  /** `format(n, 'b')`: the shortest binary numeral of n, most significant digit first. */
  function Binary(n: nat): (s: string)
    ensures |s| >= 1 && IsBits(s)
  {
    if n < 2 then [Digit(n)] else Binary(n / 2) + [Digit(n % 2)]
  }

  /** `int(s, 2)` for a string of binary digits (0 for the empty string). */
  function Value(s: string): nat
    requires IsBits(s)
  {
    if |s| == 0 then 0
    else 2 * Value(s[..|s| - 1]) + (if s[|s| - 1] == '1' then 1 else 0)
  }

  function ZeroDigits(n: nat): (s: string)
    ensures |s| == n && IsBits(s)
  {
    seq(n, _ => '0')
  }

  function Max(a: nat, b: nat): nat
  {
    if a < b then b else a
  }

  function CeilDiv(a: nat, b: nat): nat
    requires b > 0
  {
    (a + b - 1) / b
  }

  /** `number_to_bits(a, bitlen)` = `format(a, '0{bitlen}b')`: the binary numeral of
      n left-padded with zeros to at least `width` digits; never truncated. */
  function NumberToBits(n: nat, width: nat): (s: string)
    ensures IsBits(s)
    ensures |s| == Max(width, |Binary(n)|)
    ensures Value(s) == n
  {
    var b := Binary(n);
    var z := ZeroDigits(if width > |b| then width - |b| else 0);
    ValueAppend(z, b);
    ValueZeros(z);
    BinaryValue(n);
    z + b
  }

  /** `bits_to_bytes(bits)`: the values of the 8-character pieces of `s`, cut from
      the left, in reverse order. */
  function BitsToBytes(s: string): (r: seq<Byte>)
    requires IsBits(s)
    ensures |r| == CeilDiv(|s|, 8)
    decreases |s|
  {
    if |s| == 0 then []
    else if |s| <= 8 then
      ValueBound(s);
      Pow2Mono(|s|, 8);
      [Value(s)]
    else
      ValueBound(s[..8]);
      BitsToBytes(s[8..]) + [Value(s[..8])]
  }

  /** `bits_to_bools(a)`: each character read as a decimal digit. */
  function BitsToBools(a: string): (r: seq<int>)
    requires forall i :: 0 <= i < |a| ==> '0' <= a[i] <= '9'
    ensures |r| == |a|
    ensures forall i :: 0 <= i < |a| ==> 0 <= r[i] <= 9
    ensures IsBits(a) ==> forall i :: 0 <= i < |a| ==> r[i] == (if a[i] == '1' then 1 else 0)
  {
    seq(|a|, i requires 0 <= i < |a| => a[i] as int - '0' as int)
  }

  // ---------------------------------------------------------------- lemmas

  lemma {:induction false} Pow2Mono(a: nat, b: nat)
    requires a <= b
    ensures Pow2(a) <= Pow2(b)
    decreases b
  {
    if a < b {
      Pow2Mono(a, b - 1);
    }
  }

  lemma {:induction false} ValueBound(s: string)
    requires IsBits(s)
    ensures Value(s) < Pow2(|s|)
    decreases |s|
  {
    if |s| > 0 {
      ValueBound(s[..|s| - 1]);
    }
  }

  lemma {:induction false} ValueAppend(a: string, b: string)
    requires IsBits(a) && IsBits(b)
    ensures IsBits(a + b)
    ensures Value(a + b) == Value(a) * Pow2(|b|) + Value(b)
    decreases |b|
  {
    if |b| > 0 {
      var b' := b[..|b| - 1];
      var c := if b[|b| - 1] == '1' then 1 else 0;
      assert IsBits(a + b') && IsBits(a + b) && (a + b)[..|a + b| - 1] == a + b'
          && (a + b)[|a + b| - 1] == b[|b| - 1];
      ValueAppend(a, b');
      var va, p := Value(a), Pow2(|b'|);
      var vp := va * p;
      assert va * Pow2(|b|) == 2 * vp by {
        assert Pow2(|b|) == 2 * p;
        DoubleFactor(va, p);
      }
      calc {
        Value(a + b);
        2 * Value(a + b') + c;
        2 * (vp + Value(b')) + c;
        2 * vp + (2 * Value(b') + c);
        va * Pow2(|b|) + Value(b);
      }
    } else {
      assert a + b == a;
    }
  }

  lemma DoubleFactor(x: int, y: int)
    ensures x * (2 * y) == 2 * (x * y)
  {
  }

  lemma {:induction false} ValueZeros(z: string)
    requires IsBits(z) && forall i :: 0 <= i < |z| ==> z[i] == '0'
    ensures Value(z) == 0
    decreases |z|
  {
    if |z| > 0 {
      ValueZeros(z[..|z| - 1]);
    }
  }

  lemma {:induction false} BinaryValue(n: nat)
    ensures Value(Binary(n)) == n
    decreases n
  {
    if n >= 2 {
      BinaryValue(n / 2);
      assert Binary(n)[..|Binary(n)| - 1] == Binary(n / 2);
    }
  }

  /** A one followed by k zeros is 2^k. */
  lemma {:induction false} ValueOneZeros(k: nat)
    ensures Value("1" + ZeroDigits(k)) == Pow2(k)
  {
    ValueAppend("1", ZeroDigits(k));
    ValueZeros(ZeroDigits(k));
  }

  /** A number below 2^w needs at most w binary digits, so padding to w is exact. */
  lemma {:induction false} BinaryLength(n: nat, w: nat)
    requires w >= 1 && n < Pow2(w)
    ensures |Binary(n)| <= w
    decreases w
  {
    if n >= 2 {
      BinaryLength(n / 2, w - 1);
    }
  }

  lemma {:induction false} BinaryLengthExact(n: nat, w: nat)
    requires w >= 1 && Pow2(w - 1) <= n < Pow2(w)
    ensures |Binary(n)| == w
    decreases w
  {
    if w > 1 {
      BinaryLengthExact(n / 2, w - 1);
    }
  }

  lemma NumberToBitsLength(n: nat, w: nat)
    requires w >= 1 && n < Pow2(w)
    ensures |NumberToBits(n, w)| == w
  {
    BinaryLength(n, w);
  }

  /** Prepending a high byte h to the k-byte encoding of l appends h to the bytes. */
  lemma {:induction false} LEHigh(h: Byte, l: nat, m: nat)
    requires l < Pow2(8 * m)
    ensures LE(h * Pow2(8 * m) + l, m + 1) == LE(l, m) + [h]
    decreases m
  {
    var x := h * Pow2(8 * m) + l;
    if m > 0 {
      var p := Pow2(8 * (m - 1));
      Pow2Add(8, 8 * (m - 1));
      assert Pow2(8 * m) == 256 * p;
      DivUnique(l, 256, l / 256, l % 256);
      assert l / 256 < p;
      assert x == 256 * (h * p + l / 256) + l % 256;
      DivUnique(x, 256, h * p + l / 256, l % 256);
      LEHigh(h, l / 256, m - 1);
    }
  }

  /** For a width that is a multiple of 8 the reversed pieces are little-endian bytes. */
  lemma {:induction false} BitsToBytesLE(s: string, k: nat)
    requires IsBits(s) && |s| == 8 * k
    ensures BitsToBytes(s) == LE(Value(s), k)
    decreases k
  {
    if k == 1 {
      ValueBound(s);
      DivUnique(Value(s), 256, 0, Value(s));
    } else if k > 1 {
      var hi, lo := s[..8], s[8..];
      assert s == hi + lo;
      ValueAppend(hi, lo);
      ValueBound(hi);
      ValueBound(lo);
      BitsToBytesLE(lo, k - 1);
      LEHigh(Value(hi), Value(lo), k - 1);
    }
  }

  /** `bits_to_bytes(number_to_bits(n, 8k))` is the k-byte little-endian encoding of n. */
  lemma NumberToBitsBytes(n: nat, k: nat)
    requires k >= 1 && n < Pow2(8 * k)
    ensures BitsToBytes(NumberToBits(n, 8 * k)) == LE(n, k)
  {
    NumberToBitsLength(n, 8 * k);
    BitsToBytesLE(NumberToBits(n, 8 * k), k);
  }

  /** The 10-bit split: the first byte is the low 2 bits, the second the high 8 bits. */
  lemma TenBitSplit(n: nat)
    requires n < 1024
    ensures BitsToBytes(NumberToBits(n, 10)) == [n % 4, n / 4]
  {
    var s := NumberToBits(n, 10);
    NumberToBitsLength(n, 10);
    var hi, lo := s[..8], s[8..];
    assert s == hi + lo;
    ValueAppend(hi, lo);
    ValueBound(lo);
    ValueBound(hi);
    DivUnique(n, 4, Value(hi), Value(lo));
  }

  /** Character i of a bit string is bit |s|-1-i of its value: the string is
      most-significant-first. */
  lemma {:induction false} BitAt(s: string, i: nat)
    requires IsBits(s) && i < |s|
    ensures (s[i] == '1') == ((Value(s) / Pow2(|s| - 1 - i)) % 2 == 1)
    decreases |s|
  {
    var t := s[..|s| - 1];
    var c := if s[|s| - 1] == '1' then 1 else 0;
    if i < |s| - 1 {
      BitAt(t, i);
      var j := |t| - 1 - i;
      DivDiv(Value(s), 2, Pow2(j));
      DivUnique(Value(s), 2, Value(t), c);
    }
  }

  /** The 8-digit numeral of a byte: character i is bit 7-i. */
  lemma ByteBitAt(b: Byte, i: nat)
    requires i < 8
    ensures |NumberToBits(b, 8)| == 8
    ensures (NumberToBits(b, 8)[i] == '1') == ((b / Pow2(7 - i)) % 2 == 1)
  {
    NumberToBitsLength(b, 8);
    BitAt(NumberToBits(b, 8), i);
  }
}
