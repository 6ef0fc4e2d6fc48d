/**
  Strings of '0'/'1' characters and their conversions to and from bytes.

  The Huffman codec keeps every bit sequence as a text string of '0' and '1'
  characters: codewords, the concatenated bit string, the 8-character chunks
  it reads with `int(chunk, 2)`, and the `bin(b)` expansion of every byte it
  reads back. This module gives those conversions a meaning and proves that
  the byte expansion inverts `int(_, 2)` on 8-bit strings.
 */
module BitStrings {

  /** A byte value as accepted by Python's `bytes(...)` constructor. */
  type Byte = x: int | 0 <= x < 256

  predicate IsBit(c: char) {
    c == '0' || c == '1'
  }

  /** A string over the alphabet {'0', '1'}. */
  predicate BitString(s: string) {
    forall i :: 0 <= i < |s| ==> IsBit(s[i])
  }

  /** `u` is a prefix of `v` (equal strings included). */
  predicate IsPrefix(u: string, v: string) {
    |u| <= |v| && v[..|u|] == u
  }

  /** The string `'0' * n`. */
  function Zeros(n: nat): (z: string)
    ensures |z| == n
    ensures forall i :: 0 <= i < n ==> z[i] == '0'
  {
    if n == 0 then "" else Zeros(n - 1) + "0"
  }

  function Pow2(n: nat): (p: nat)
    ensures p >= 1
  {
    if n == 0 then 1 else 2 * Pow2(n - 1)
  }

  lemma {:induction false} Pow2Monotone(m: nat, n: nat)
    requires m <= n
    ensures Pow2(m) <= Pow2(n)
    decreases n
  {
    if m < n {
      Pow2Monotone(m, n - 1);
    }
  }

  lemma Pow2Eight()
    ensures Pow2(8) == 256
  {
    assert Pow2(4) == 16;
  }

  function BitValue(c: char): nat {
    if c == '1' then 1 else 0
  }

  function Digit(d: nat): char
    requires d < 2
  {
    if d == 0 then '0' else '1'
  }

  /**
    The integer `int(s, 2)`: `s` is read as a base-2 numeral, most significant
    bit first. (The codec only ever parses non-empty bit strings.)
   */
  function BinValue(s: string): nat
    requires BitString(s)
  {
    if |s| == 0 then 0 else 2 * BinValue(s[..|s| - 1]) + BitValue(s[|s| - 1])
  }

  /** A base-2 numeral of `w` bits fits below 2^w. */
  lemma {:induction false} BinValueBound(s: string)
    requires BitString(s)
    ensures BinValue(s) < Pow2(|s|)
  {
    if |s| > 0 {
      BinValueBound(s[..|s| - 1]);
    }
  }

  /** `bin(n)[2:]`: the shortest binary numeral of `n` ("0" for zero). */
  function Bin(n: nat): (b: string)
    ensures BitString(b)
    ensures |b| >= 1
    ensures n > 0 ==> b[0] == '1'
  {
    if n < 2 then [Digit(n)] else Bin(n / 2) + [Digit(n % 2)]
  }

  /** `bin` and `int(_, 2)` are inverse on naturals. */
  lemma {:induction false} BinValueOfBin(n: nat)
    ensures BinValue(Bin(n)) == n
  {
    if n >= 2 {
      var b := Bin(n / 2);
      BinValueOfBin(n / 2);
      assert (b + [Digit(n % 2)])[..|b|] == b;
    }
  }

  lemma {:induction false} BinValueZeros(k: nat)
    ensures BinValue(Zeros(k)) == 0
  {
    if k > 0 {
      assert Zeros(k)[..k - 1] == Zeros(k - 1);
      BinValueZeros(k - 1);
    }
  }

  /** Leading zeros do not change the value of a numeral. */
  lemma {:induction false} BinValueLeadingZeros(k: nat, s: string)
    requires BitString(s)
    ensures BitString(Zeros(k) + s)
    ensures BinValue(Zeros(k) + s) == BinValue(s)
  {
    var z := Zeros(k) + s;
    if |s| == 0 {
      assert z == Zeros(k);
      BinValueZeros(k);
    } else {
      assert z[..|z| - 1] == Zeros(k) + s[..|s| - 1];
      BinValueLeadingZeros(k, s[..|s| - 1]);
    }
  }

  /** The `w`-bit numeral of `v`, most significant bit first. */
  function Fixed(v: nat, w: nat): (s: string)
    ensures |s| == w
    ensures BitString(s)
  {
    if w == 0 then "" else Fixed(v / 2, w - 1) + [Digit(v % 2)]
  }

  lemma {:induction false} FixedZero(w: nat)
    ensures Fixed(0, w) == Zeros(w)
  {
    if w > 0 {
      FixedZero(w - 1);
    }
  }

  /** Every bit string is the fixed-width numeral of its own value. */
  lemma {:induction false} FixedOfBinValue(s: string)
    requires BitString(s)
    ensures Fixed(BinValue(s), |s|) == s
  {
    if |s| > 0 {
      var p := s[..|s| - 1];
      FixedOfBinValue(p);
      assert BinValue(s) / 2 == BinValue(p);
      assert s == p + [s[|s| - 1]];
    }
  }

  /** Below 2^w, left-padding `bin(v)` with zeros to width `w` gives the `w`-bit numeral. */
  lemma {:induction false} FixedIsPaddedBin(v: nat, w: nat)
    requires w >= 1
    requires v < Pow2(w)
    ensures |Bin(v)| <= w
    ensures Fixed(v, w) == Zeros(w - |Bin(v)|) + Bin(v)
  {
    if v < 2 {
      FixedZero(w - 1);
    } else {
      assert w >= 2;
      FixedIsPaddedBin(v / 2, w - 1);
    }
  }

  /**
    The expansion the decoder applies to every byte it reads: the binary
    numeral of the byte, left-padded with `(8 - len) % 8` zeros. It always
    yields exactly 8 bits whose value is the byte.
   */
  function ByteBits(b: Byte): (s: string)
    ensures |s| == 8
    ensures BitString(s)
    ensures BinValue(s) == b
  {
    var binary := Bin(b);
    Pow2Eight();
    PaddedBinValue(b, 8);
    Zeros((8 - |binary|) % 8) + binary
  }

  /** `bin(v)` left-padded with zeros to width `w` is a numeral of value `v`. */
  lemma PaddedBinValue(v: nat, w: nat)
    requires w >= 1 && v < Pow2(w)
    ensures |Bin(v)| <= w
    ensures BitString(Zeros(w - |Bin(v)|) + Bin(v))
    ensures BinValue(Zeros(w - |Bin(v)|) + Bin(v)) == v
  {
    FixedIsPaddedBin(v, w);
    var binary := Bin(v);
    BinValueLeadingZeros(w - |binary|, binary);
    BinValueOfBin(v);
  }

  /** The byte expansion inverts `int(_, 2)` on 8-bit strings. */
  lemma ByteBitsOfBinValue(s: string)
    requires BitString(s) && |s| == 8
    ensures BinValue(s) < 256
    ensures ByteBits(BinValue(s)) == s
  {
    BinValueBound(s);
    Pow2Eight();
    var v := BinValue(s);
    FixedIsPaddedBin(v, 8);
    FixedOfBinValue(s);
  }
}
