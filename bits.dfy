/**
 * Bit-level vocabulary shared by the encoder and the decoder: payload bits,
 * 8-bit values, the two low-bit operations on a colour channel, and the
 * fixed-width binary numerals that characters are serialised to and parsed
 * back from.
 */
module Bits {
  /** One payload bit. */
  type Bit = b: int | 0 <= b < 2

  /** An 8-bit value: a message character or a colour channel intensity. */
  type Byte = b: int | 0 <= b < 256

  /** The intensity of one colour channel of an RGB pixel. */
  type Channel = Byte

  function Min(a: int, b: int): (r: int)
  {
    if a <= b then a else b
  }

  function Pow2(n: nat): (r: nat)
    ensures r >= 1
  {
    if n == 0 then 1 else 2 * Pow2(n - 1)
  }

  lemma {:induction false} Pow2Monotone(a: nat, b: nat)
    requires a <= b
    ensures Pow2(a) <= Pow2(b)
  {
    if a < b {
      Pow2Monotone(a, b - 1);
    }
  }

  /** `c & 1`: the least-significant bit of a channel. */
  function Lsb(c: Channel): (r: Bit)
    ensures c == 2 * (c / 2) + r
  {
    c % 2
  }

  /**
   * `(c & ~1) | bit`: clear the low bit of `c`, then set it to `bit`.  On a
   * non-negative value, clearing bit 0 subtracts `c % 2`.
   */
  function SetLsb(c: Channel, bit: Bit): (r: Channel)
    ensures Lsb(r) == bit
    ensures r / 2 == c / 2
    ensures -1 <= r - c <= 1
    ensures Lsb(c) == bit ==> r == c
  {
    c - c % 2 + bit
  }

  /**
   * `format(n, '0<width>b')` for `n < 2^width`: the `width` binary digits of
   * `n`, most significant first.
   */
  function ToBinary(n: nat, width: nat): (r: seq<Bit>)
    ensures |r| == width
  {
    if width == 0 then [] else ToBinary(n / 2, width - 1) + [n % 2]
  }

  /** `int(s, 2)`: the value of a binary numeral, most significant digit first. */
  function FromBinary(s: seq<Bit>): (r: nat)
    ensures r < Pow2(|s|)
  {
    if s == [] then 0 else 2 * FromBinary(s[..|s| - 1]) + s[|s| - 1]
  }

  /** Euclidean division has one quotient. */
  lemma DivUnique(n: int, d: int, q: int, r: int)
    requires 0 < d && 0 <= r < d && n == d * q + r
    ensures n / d == q
  {
    var q', r' := n / d, n % d;
    assert n == d * q' + r';
    var k := q - q';
    assert d * k == r' - r by {
      assert d * q == d * (q' + k) == d * q' + d * k;
    }
  }

  lemma {:induction false} MulMonotone(a: nat, b: nat, c: nat)
    requires b <= a
    ensures b * c <= a * c
  {
    if c > 0 {
      MulMonotone(a, b, c - 1);
      assert a * c == a * (c - 1) + a && b * c == b * (c - 1) + b;
    }
  }

  /** Dividing a positive number by at least two makes it smaller. */
  lemma DivBelow(n: nat, d: nat)
    requires 0 < n && 2 <= d
    ensures n / d < n
  {
    var q := n / d;
    assert n == d * q + n % d;
    MulMonotone(d, 2, q);
  }

  lemma DivDiv(n: nat, m: nat)
    requires m > 0
    ensures n / 2 / m == n / (2 * m)
  {
    var q, t := n / 2 / m, n / 2 % m;
    assert n / 2 == m * q + t;
    assert n == 2 * m * q + (2 * t + n % 2);
    DivUnique(n, 2 * m, q, 2 * t + n % 2);
  }

  /** Digit `i` of `ToBinary(n, width)` is bit `width - 1 - i` of `n`: most significant first. */
  lemma {:induction false} ToBinaryDigit(n: nat, width: nat, i: nat)
    requires i < width
    ensures ToBinary(n, width)[i] == n / Pow2(width - 1 - i) % 2
  {
    if i < width - 1 {
      ToBinaryDigit(n / 2, width - 1, i);
      DivDiv(n, Pow2(width - 2 - i));
    }
  }

  /** Parsing a numeral that was printed with enough digits gives back the number. */
  lemma {:induction false} FromToBinary(n: nat, width: nat)
    requires n < Pow2(width)
    ensures FromBinary(ToBinary(n, width)) == n
  {
    if width > 0 {
      var s := ToBinary(n, width);
      assert s[..width - 1] == ToBinary(n / 2, width - 1);
      FromToBinary(n / 2, width - 1);
    }
  }

  /** The first `r` digits of a `width`-digit numeral denote the top `r` bits of the number. */
  lemma {:induction false} HighBits(n: nat, width: nat, r: nat)
    requires n < Pow2(width) && r <= width
    ensures FromBinary(ToBinary(n, width)[..r]) == n / Pow2(width - r)
  {
    if r == width {
      assert ToBinary(n, width)[..r] == ToBinary(n, width);
      FromToBinary(n, width);
    } else {
      assert ToBinary(n, width)[..r] == ToBinary(n / 2, width - 1)[..r];
      HighBits(n / 2, width - 1, r);
      DivDiv(n, Pow2(width - 1 - r));
    }
  }
}
