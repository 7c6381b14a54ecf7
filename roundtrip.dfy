/**
 * What the decoder recovers from the encoder's output.  The payload reaches
 * the low bits in scan order; a message that fits comes back unchanged; a
 * message that does not fit comes back cut at a place fixed by the image's
 * capacity of three bits per pixel.
 */
module RoundTrip {
  import opened Bits
  import opened Serialisation
  import opened Images
  import opened Encoder
  import opened Decoder

  /**
   * Truncation at the level of bits: the low bits of the encoded image are
   * the payload cut to the capacity, followed by the source's own low bits
   * from the end of the payload on.
   */
  lemma LsbsEmbed(src: seq<Pixel>, bits: seq<Bit>)
    ensures Lsbs(Embed(src, bits)) == bits[..Min(|bits|, 3 * |src|)] + Lsbs(src)[Min(|bits|, 3 * |src|)..]
  {
    var n := Min(|bits|, 3 * |src|);
    var lhs, rhs := Lsbs(Embed(src, bits)), bits[..n] + Lsbs(src)[n..];
    assert |lhs| == |rhs| == 3 * |src|;
    forall k | 0 <= k < |lhs|
      ensures lhs[k] == rhs[k]
    {
      LsbAt(src, bits, k);
      if k < n {
        assert rhs[k] == bits[k];
      } else {
        assert rhs[k] == Lsbs(src)[k];
      }
    }
  }

  /** Flat low bit `k` of the encoded image is payload bit `k` while one remains, else the source's. */
  lemma LsbAt(src: seq<Pixel>, bits: seq<Bit>, k: nat)
    requires k < 3 * |src|
    ensures Lsbs(Embed(src, bits))[k] == if k < |bits| then bits[k] else Lsbs(src)[k]
  {
    var j, i := k / 3, k % 3;
    assert 3 * j + i == k;
    ChannelAt(src, bits, j, i);
    assert Lsbs(Embed(src, bits))[k] == Lsb(Embed(src, bits)[j][i]);
    assert Lsbs(src)[k] == Lsb(src[j][i]);
  }

  /** Channel `i` of encoded pixel `j` is the source channel with payload bit `3j + i` in its low bit, while one remains. */
  lemma ChannelAt(src: seq<Pixel>, bits: seq<Bit>, j: nat, i: nat)
    requires j < |src| && i < 3
    ensures Embed(src, bits)[j][i] == if 3 * j + i < |bits| then SetLsb(src[j][i], bits[3 * j + i]) else src[j][i]
  {
    EmbedAt(src, bits);
    assert Embed(src, bits)[j] == Overwrite(src[j], bits, 3 * j);
  }

  /**
   * A payload that fits is read back whole, so decoding yields the message
   * up to its first zero character (all of it when it has none).
   */
  lemma RoundTripFits(src: seq<Pixel>, message: seq<Byte>)
    requires 8 * (|message| + 1) <= 3 * |src|
    ensures Decoded(Embed(src, Payload(message))) == SentinelCut(message)
  {
    var p := Payload(message);
    var rest := Lsbs(src)[|p|..];
    calc {
      Decoded(Embed(src, p));
      SentinelCut(Group(Lsbs(Embed(src, p))));
      { FitsBits(src, p); }
      SentinelCut(Group(Serialise(message + [Sentinel]) + rest));
      { GroupSerialise(message + [Sentinel], rest); }
      SentinelCut(message + [Sentinel] + Group(rest));
      { SentinelCutAfter(message, Group(rest)); }
      SentinelCut(message);
    }
  }

  /** The low bits of an image large enough for the bits: the bits, then the source's own. */
  lemma FitsBits(src: seq<Pixel>, bits: seq<Bit>)
    requires |bits| <= 3 * |src|
    ensures Lsbs(Embed(src, bits)) == bits + Lsbs(src)[|bits|..]
  {
    LsbsEmbed(src, bits);
    assert bits[..|bits|] == bits;
  }

  /** The round trip: a zero-free message whose payload fits is decoded exactly. */
  lemma RoundTripZeroFree(src: seq<Pixel>, message: seq<Byte>)
    requires Sentinel !in message
    requires 8 * (|message| + 1) <= 3 * |src|
    ensures Decoded(Embed(src, Payload(message))) == message
  {
    RoundTripFits(src, message);
    SentinelCutUnique(message, message);
  }

  /** The cut of a one-element list: a zero goes, anything else stays. */
  lemma SentinelCutSingle(v: Byte)
    ensures SentinelCut([v]) == if v == Sentinel then [] else [v]
  {
    if v != Sentinel {
      SentinelCutUnique([v], [v]);
    }
  }

  /**
   * The leading `r < 8` bits of a character, read as a last, short group,
   * decode to the character's top `r` bits.
   */
  lemma PartialGroup(b: Byte, r: nat)
    requires r < 8
    ensures Group(ByteBits(b)[..r]) == if r == 0 then [] else [TopBits(b, r)]
  {
    GroupTail(ByteBits(b)[..r]);
  }

  /**
   * What a zero-free message that does not fit into `capacity` bits decodes
   * to: its first `capacity / 8` characters, followed by the top
   * `capacity % 8` bits of the next character (the sentinel when all
   * characters fit whole), read as a number, unless that number is zero.
   */
  function CutShort(message: seq<Byte>, capacity: nat): (r: seq<Byte>)
    requires capacity < 8 * (|message| + 1)
  {
    var q, r := capacity / 8, capacity % 8;
    var top := TopBits((message + [Sentinel])[q], r);
    message[..q] + if r > 0 && top != Sentinel then [top] else []
  }

  /**
   * A payload that does not fit.  The image holds the first `c / 8`
   * characters whole and the top `c % 8` bits of the next one, for the
   * capacity `c = 3 * |src|`; that short last group is decoded as a number
   * of its own, and is kept unless it is zero.
   */
  lemma Truncated(src: seq<Pixel>, message: seq<Byte>)
    requires Sentinel !in message
    requires 3 * |src| < 8 * (|message| + 1)
    ensures Decoded(Embed(src, Payload(message))) == CutShort(message, 3 * |src|)
  {
    var c := 3 * |src|;
    var q, r := c / 8, c % 8;
    var full: seq<Byte> := message + [Sentinel];
    var head := message[..q];
    var g := Group(ByteBits(full[q])[..r]);
    calc {
      Decoded(Embed(src, Payload(message)));
      SentinelCut(Group(Lsbs(Embed(src, Payload(message)))));
      { TruncatedBits(src, message); }
      SentinelCut(Group(Serialise(head) + ByteBits(full[q])[..r]));
      { GroupSerialise(head, ByteBits(full[q])[..r]); }
      SentinelCut(head + g);
      { assert Sentinel !in head; SentinelCutAppend(head, g); }
      head + SentinelCut(g);
      { PartialGroup(full[q], r); if r > 0 { SentinelCutSingle(TopBits(full[q], r)); } }
      CutShort(message, c);
    }
  }

  /** The low bits of an image too small for the payload: the whole characters, then the leading bits of the next. */
  lemma TruncatedBits(src: seq<Pixel>, message: seq<Byte>)
    requires 3 * |src| < 8 * (|message| + 1)
    ensures Lsbs(Embed(src, Payload(message))) ==
      Serialise(message[..3 * |src| / 8]) + ByteBits((message + [Sentinel])[3 * |src| / 8])[..3 * |src| % 8]
  {
    var p := Payload(message);
    assert Lsbs(Embed(src, p)) == p[..3 * |src|] by {
      LsbsEmbed(src, p);
      assert Lsbs(src)[3 * |src|..] == [];
    }
    PayloadPrefix(message, 3 * |src|);
  }

  /** A prefix of `c` payload bits, short of the whole payload. */
  lemma PayloadPrefix(message: seq<Byte>, c: nat)
    requires c < 8 * (|message| + 1)
    ensures Payload(message)[..c] == Serialise(message[..c / 8]) + ByteBits((message + [Sentinel])[c / 8])[..c % 8]
  {
    var full := message + [Sentinel];
    SerialisePrefix(full, c);
    assert full[..c / 8] == message[..c / 8];
  }

  /**
   * Exactly when the round trip succeeds: a zero-free message is decoded
   * exactly if and only if its characters fit, `8 * |message| <= 3 * |src|`.
   * The sentinel itself need not fit: when it is cut short its leading bits
   * are zero and still end the message.
   */
  lemma RoundTripExactly(src: seq<Pixel>, message: seq<Byte>)
    requires Sentinel !in message
    ensures Decoded(Embed(src, Payload(message))) == message <==> 8 * |message| <= 3 * |src|
  {
    if 3 * |src| < 8 * (|message| + 1) {
      Truncated(src, message);
      CutShortWhole(message, 3 * |src|);
    } else {
      RoundTripZeroFree(src, message);
    }
  }

  /**
   * A cut-short zero-free message is the whole message exactly when all of
   * its characters fit: the short group, if any, is smaller than the
   * character it is cut from.
   */
  lemma CutShortWhole(message: seq<Byte>, capacity: nat)
    requires Sentinel !in message
    requires capacity < 8 * (|message| + 1)
    ensures CutShort(message, capacity) == message <==> 8 * |message| <= capacity
  {
    var q, r := capacity / 8, capacity % 8;
    var cut := CutShort(message, capacity);
    if 8 * |message| <= capacity {
      assert q == |message| && message[..q] == message;
      assert (message + [Sentinel])[q] == Sentinel;
      assert TopBits(Sentinel, r) == Sentinel;
    } else if r == 0 {
      assert |cut| == q < |message|;
    } else {
      assert q < |message| && (message + [Sentinel])[q] == message[q];
      assert message[q] != Sentinel;
      TopBitsBelow(message[q], r);
      assert |cut| <= q || cut[q] != message[q];
    }
  }

  /** The empty message comes back empty from an image of any size. */
  lemma EmptyMessage(src: seq<Pixel>)
    ensures Decoded(Embed(src, Payload([]))) == []
  {
    RoundTripExactly(src, []);
  }

  /** "Hi" hidden in a 10 by 10 image (capacity 300 bits) is decoded as "Hi". */
  lemma HiScenario(src: seq<Pixel>)
    requires |src| == 100
    ensures Decoded(Embed(src, Payload([72, 105]))) == [72, 105]
  {
    RoundTripZeroFree(src, [72, 105]);
  }

  /**
   * "A" hidden in a 1 by 1 image: only the bits 010 of 01000001 fit, and the
   * decoder reads them as the character 2, not as an empty message.
   */
  lemma OnePixelScenario(src: seq<Pixel>)
    requires |src| == 1
    ensures Decoded(Embed(src, Payload([65]))) == [2]
  {
    Truncated(src, [65]);
    assert Pow2(5) == 32;
    assert TopBits(65, 3) == 2;
  }

  /**
   * Both scripts together on one loaded image: hiding a zero-free message
   * that fits and decoding either output image gives the message back.
   */
  method EncodeThenDecode(w: nat, h: nat, ps: seq<Pixel>, message: seq<Byte>)
    returns (fromEncoded: seq<Byte>, fromVisible: seq<Byte>)
    requires |ps| == w * h
    requires Sentinel !in message
    requires 8 * (|message| + 1) <= 3 * (w * h)
    ensures fromEncoded == message && fromVisible == message
  {
    var img := new Image.FromPixels(w, h, ps);
    var encoded, visible := EncodeImage(img, message);
    fromEncoded := DecodeImage(encoded);
    fromVisible := DecodeImage(visible);
    RoundTripZeroFree(ps, message);
  }
}
