/**
 * The binary payload the encoder hides: the message with a zero terminator
 * appended, each character written as eight bits, most significant first.
 */
module Serialisation {
  import opened Bits

  /** The end-of-message marker `chr(0)`. */
  const Sentinel: Byte := 0

  /** `format(b, '08b')`: the eight bits of one character. */
  function ByteBits(b: Byte): (r: seq<Bit>)
    ensures |r| == 8
    ensures FromBinary(r) == b
  {
    assert Pow2(8) == 256;
    FromToBinary(b, 8);
    ToBinary(b, 8)
  }

  /**
   * The top `r` of the eight bits of `b`, as a number: what the leading
   * `r` bits of `b`'s bit string denote.
   */
  function TopBits(b: Byte, r: nat): (v: Byte)
    requires r <= 8
    ensures v == FromBinary(ByteBits(b)[..r])
  {
    assert Pow2(8) == 256;
    HighBits(b, 8, r);
    Pow2Monotone(r, 8);
    b / Pow2(8 - r)
  }

  /** Fewer than eight top bits of a non-zero character denote a smaller number. */
  lemma TopBitsBelow(b: Byte, r: nat)
    requires 0 < b && r < 8
    ensures TopBits(b, r) < b
  {
    var d := Pow2(8 - r);
    assert d == 2 * Pow2(7 - r);
    DivBelow(b, d);
  }

  /** The characters' bit strings joined in order. */
  function Serialise(m: seq<Byte>): (r: seq<Bit>)
    ensures |r| == 8 * |m|
  {
    if m == [] then [] else ByteBits(m[0]) + Serialise(m[1..])
  }

  /** A serialised string followed by more bits starts with the first character's eight bits. */
  lemma SerialiseCons(m: seq<Byte>, rest: seq<Bit>)
    requires m != []
    ensures Serialise(m) + rest == ByteBits(m[0]) + (Serialise(m[1..]) + rest)
  {
    var a, b := ByteBits(m[0]), Serialise(m[1..]);
    assert Serialise(m) == a + b;
    forall k | 0 <= k < |Serialise(m) + rest|
      ensures (Serialise(m) + rest)[k] == (a + (b + rest))[k]
    {
    }
  }

  /** The bit string of `message + chr(0)`. */
  function Payload(message: seq<Byte>): (r: seq<Bit>)
    ensures |r| == 8 * (|message| + 1)
  {
    Serialise(message + [Sentinel])
  }

  /** Bit `k` of a serialised string is bit `7 - k % 8` of character `k / 8`. */
  lemma {:induction false} SerialiseBit(m: seq<Byte>, k: nat)
    requires k < 8 * |m|
    ensures Serialise(m)[k] == m[k / 8] / Pow2(7 - k % 8) % 2
  {
    if k < 8 {
      assert Serialise(m)[k] == ToBinary(m[0], 8)[k];
      ToBinaryDigit(m[0], 8, k);
    } else {
      assert Serialise(m)[k] == Serialise(m[1..])[k - 8];
      SerialiseBit(m[1..], k - 8);
      assert (k - 8) / 8 == k / 8 - 1 && (k - 8) % 8 == k % 8;
    }
  }

  /** Characters `8 * i` to `8 * i + 7` of a serialised string are the bits of character `i`. */
  lemma {:induction false} SerialiseAt(m: seq<Byte>, i: nat)
    requires i < |m|
    ensures Serialise(m)[8 * i .. 8 * i + 8] == ByteBits(m[i])
  {
    if i > 0 {
      SerialiseAt(m[1..], i - 1);
      var s, t := Serialise(m), Serialise(m[1..]);
      forall j | 8 * i <= j < 8 * i + 8
        ensures s[j] == t[j - 8]
      {
      }
      assert s[8 * i .. 8 * i + 8] == t[8 * (i - 1) .. 8 * (i - 1) + 8];
    }
  }

  /**
   * A prefix of `c` bits of a serialised string is the first `c / 8` whole
   * characters followed by the leading `c % 8` bits of the next one.
   */
  lemma {:induction false} SerialisePrefix(m: seq<Byte>, c: nat)
    requires c < 8 * |m|
    ensures Serialise(m)[..c] == Serialise(m[..c / 8]) + ByteBits(m[c / 8])[..c % 8]
  {
    if c >= 8 {
      SerialisePrefix(m[1..], c - 8);
      assert m[..c / 8][1..] == m[1..][..(c - 8) / 8];
      assert m[1..][(c - 8) / 8] == m[c / 8];
      calc {
        Serialise(m)[..c];
        ByteBits(m[0]) + Serialise(m[1..])[..c - 8];
        ByteBits(m[0]) + Serialise(m[1..][..(c - 8) / 8]) + ByteBits(m[c / 8])[..c % 8];
        Serialise(m[..c / 8]) + ByteBits(m[c / 8])[..c % 8];
      }
    } else {
      assert m[..0] == [];
    }
  }

  /**
   * Payload shape: eight bits per character plus eight for the sentinel,
   * each character most significant bit first, and the last eight bits zero.
   */
  lemma PayloadShape(message: seq<Byte>)
    ensures |Payload(message)| == 8 * (|message| + 1)
    ensures forall k :: 0 <= k < |Payload(message)| ==>
      Payload(message)[k] == (message + [Sentinel])[k / 8] / Pow2(7 - k % 8) % 2
    ensures forall k :: 8 * |message| <= k < |Payload(message)| ==> Payload(message)[k] == 0
  {
    var full := message + [Sentinel];
    forall k | 0 <= k < |Payload(message)|
      ensures Payload(message)[k] == full[k / 8] / Pow2(7 - k % 8) % 2
    {
      SerialiseBit(full, k);
    }
    forall k | 8 * |message| <= k < |Payload(message)|
      ensures Payload(message)[k] == 0
    {
      assert full[k / 8] == Sentinel;
    }
  }
}
