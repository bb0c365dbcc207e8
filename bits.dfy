/** Bit strings as the codec builds them: strings of '0' and '1' handed to
    bitarray, and the integer arithmetic of their widths. */
module Bits {
  type BitString = string

  predicate IsBits(b: BitString) {
    forall i :: 0 <= i < |b| ==> b[i] == '0' || b[i] == '1'
  }

  function Pow2(k: nat): (r: nat)
    ensures r >= 1
  {
    if k == 0 then 1 else 2 * Pow2(k - 1)
  }

  lemma {:induction false} Pow2Mono(a: nat, b: nat)
    requires a <= b
    ensures Pow2(a) <= Pow2(b)
    decreases b - a
  {
    if a < b {
      Pow2Mono(a, b - 1);
    }
  }

  /** Number of binary digits of a (0 for 0). */
  function BitLength(a: nat): nat {
    if a == 0 then 0 else 1 + BitLength(a / 2)
  }

  /** The bit length of a positive a is the s with 2^(s-1) <= a < 2^s. */
  lemma {:induction false} BitLengthBounds(a: nat)
    requires a > 0
    ensures BitLength(a) >= 1
    ensures Pow2(BitLength(a) - 1) <= a < Pow2(BitLength(a))
  {
    if a > 1 {
      BitLengthBounds(a / 2);
    }
  }

  /** The bounds determine the bit length. */
  lemma BitLengthUnique(a: nat, s: nat)
    requires s >= 1 && Pow2(s - 1) <= a < Pow2(s)
    ensures BitLength(a) == s
  {
    BitLengthBounds(a);
    var t := BitLength(a);
    if t < s {
      Pow2Mono(t, s - 1);
      assert false;
    } else if t > s {
      Pow2Mono(s, t - 1);
      assert false;
    }
  }

  function Digit(b: nat): char
    requires b < 2
  {
    if b == 0 then '0' else '1'
  }

  /** The shortest binary numeral of v, as Python's format spec 'b' writes it. */
  function Digits(v: nat): (d: BitString)
    ensures IsBits(d) && |d| >= 1
  {
    if v < 2 then [Digit(v)] else Digits(v / 2) + [Digit(v % 2)]
  }

  function Zeros(n: nat): (z: BitString)
    ensures |z| == n && IsBits(z)
  {
    if n == 0 then "" else Zeros(n - 1) + "0"
  }

  /** '{:0{width}b}'.format(v): the numeral of v, left-padded with '0' to width. */
  function Format(v: nat, width: nat): BitString {
    var d := Digits(v);
    if |d| >= width then d else Zeros(width - |d|) + d
  }

  /** The number a big-endian bit string denotes (any character but '1' counts
      as a zero bit). */
  function Value(b: BitString): nat {
    if b == [] then 0 else 2 * Value(b[..|b| - 1]) + (if b[|b| - 1] == '1' then 1 else 0)
  }

  lemma {:induction false} DigitsValue(v: nat)
    ensures Value(Digits(v)) == v
    ensures |Digits(v)| == if v == 0 then 1 else BitLength(v)
  {
    if v >= 2 {
      DigitsValue(v / 2);
      var d := Digits(v);
      assert d[..|d| - 1] == Digits(v / 2);
    }
  }

  lemma {:induction false} ZerosValue(z: nat, d: BitString)
    ensures Value(Zeros(z) + d) == Value(d)
    decreases |d|
  {
    if d == [] {
      assert Zeros(z) + d == Zeros(z);
      ZerosOnly(z);
    } else {
      var init := d[..|d| - 1];
      ZerosValue(z, init);
      assert (Zeros(z) + d)[..|Zeros(z) + d| - 1] == Zeros(z) + init;
    }
  }

  lemma {:induction false} ZerosOnly(z: nat)
    ensures Value(Zeros(z)) == 0
  {
    if z > 0 {
      ZerosOnly(z - 1);
      assert Zeros(z)[..z - 1] == Zeros(z - 1);
    }
  }

  /** A value below 2^width is written with exactly width digits that denote it. */
  lemma FormatExact(v: nat, width: nat)
    requires width >= 1 && v < Pow2(width)
    ensures var f := Format(v, width); IsBits(f) && |f| == width && Value(f) == v
  {
    DigitsValue(v);
    var d := Digits(v);
    assert |d| <= width by {
      if v > 0 {
        BitLengthBounds(v);
        if BitLength(v) > width {
          Pow2Mono(width, BitLength(v) - 1);
        }
      }
    }
    if |d| < width {
      ZerosValue(width - |d|, d);
      assert Format(v, width) == Zeros(width - |d|) + d;
    } else {
      assert Format(v, width) == d;
    }
  }

  /** p is a prefix of b. */
  predicate IsPrefix(p: BitString, b: BitString) {
    |p| <= |b| && b[..|p|] == p
  }

  /** A prefix agrees with the string character by character. */
  lemma PrefixChars(p: BitString, b: BitString)
    ensures IsPrefix(p, b) ==> forall k :: 0 <= k < |p| ==> b[k] == p[k]
  {
    if IsPrefix(p, b) {
      forall k | 0 <= k < |p| ensures b[k] == p[k] {
        assert b[..|p|][k] == b[k];
      }
    }
  }

  /** No codeword of the table is a prefix of another one. */
  predicate PrefixFree(t: seq<BitString>) {
    forall i, j :: 0 <= i < |t| && 0 <= j < |t| && i != j ==> !IsPrefix(t[i], t[j])
  }

  /** Two prefixes of the same string are prefixes of one another. */
  lemma PrefixesAgree(p: BitString, q: BitString, b: BitString)
    requires IsPrefix(p, b) && IsPrefix(q, b) && |p| <= |q|
    ensures IsPrefix(p, q)
  {
    assert q[..|p|] == b[..|q|][..|p|];
  }
}
