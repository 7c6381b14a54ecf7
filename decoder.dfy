/**
 * The decoder: every channel's low bit is read in scan order, the bit
 * string is cut into groups of eight, each group is read as a binary
 * number, and the characters before the first zero are the message.
 */
module Decoder {
  import opened Bits
  import opened Serialisation
  import opened Images

  /** `pixel[i] & 1` for the channels R, G, B in turn. */
  function PixelLsbs(p: Pixel): (r: seq<Bit>)
    ensures |r| == 3
  {
    [Lsb(p[0]), Lsb(p[1]), Lsb(p[2])]
  }

  /**
   * The low bits of all channels in scan order: flat channel `k` is channel
   * `k % 3` of the pixel at scan position `k / 3`.
   */
  function Lsbs(ps: seq<Pixel>): (r: seq<Bit>)
    ensures |r| == 3 * |ps|
    ensures forall k :: 0 <= k < |r| ==> r[k] == Lsb(ps[k / 3][k % 3])
  {
    if ps == [] then [] else Lsbs(ps[..|ps| - 1]) + PixelLsbs(ps[|ps| - 1])
  }

  /** `int(chunk, 2)` of a chunk of at most eight bits, which fits in one character. */
  function ChunkValue(chunk: seq<Bit>): (r: Byte)
    requires |chunk| <= 8
    ensures r == FromBinary(chunk)
  {
    Pow2Monotone(|chunk|, 8);
    assert Pow2(8) == 256;
    FromBinary(chunk)
  }

  /**
   * `[int(bits[i:i+8], 2) for i in range(0, len(bits), 8)]`: one value per
   * started group of eight bits; a shorter last group is read as the
   * shorter numeral it is.
   */
  function Group(bits: seq<Bit>): (r: seq<Byte>)
    ensures |r| == (|bits| + 7) / 8
  {
    seq((|bits| + 7) / 8, k requires 0 <= k < (|bits| + 7) / 8 =>
      ChunkValue(bits[8 * k .. Min(8 * k + 8, |bits|)]))
  }

  /** `s.index(x)`: the position of the first `x` in `s`. */
  function FirstIndex(s: seq<Byte>, x: Byte): (i: nat)
    requires x in s
    ensures i < |s| && s[i] == x && x !in s[..i]
  {
    if s[0] == x then 0 else
      var i := 1 + FirstIndex(s[1..], x);
      assert s[..i] == [s[0]] + s[1..][..i - 1];
      i
  }

  /**
   * `chars[:chars.index(chr(0))] if chr(0) in chars else chars`: the
   * longest prefix without a sentinel.
   */
  function SentinelCut(chars: seq<Byte>): (r: seq<Byte>)
    ensures r <= chars && Sentinel !in r
    ensures |r| == |chars| || chars[|r|] == Sentinel
  {
    if Sentinel in chars then chars[..FirstIndex(chars, Sentinel)] else chars
  }

  /** The message decoded from an image whose pixels in scan order are `ps`. */
  function Decoded(ps: seq<Pixel>): (r: seq<Byte>)
    ensures |r| <= (3 * |ps| + 7) / 8
  {
    SentinelCut(Group(Lsbs(ps)))
  }

  /**
   * `decode_image` without the file handling: read every low bit of `img`
   * (no early stop) and decode the bit string.
   */
  method DecodeImage(img: Image) returns (message: seq<Byte>)
    requires img.Valid()
    ensures message == Decoded(img.Pixels())
  {
    ghost var ps := img.Pixels();
    var bits: seq<Bit> := [];
    var row := 0;
    for y := 0 to img.height
      invariant row == y * img.width
      invariant bits == Lsbs(ps[..row])
    {
      NextRow(y, img.width, img.height);
      for x := 0 to img.width
        invariant bits == Lsbs(ps[..row + x])
      {
        var pixel := img.data[row + x];
        for i := 0 to 3
          invariant bits == Lsbs(ps[..row + x]) + PixelLsbs(pixel)[..i]
        {
          bits := bits + [Lsb(pixel[i])];
        }
        assert ps[..row + x + 1][..row + x] == ps[..row + x];
      }
      row := row + img.width;
    }
    assert ps[..row] == ps;
    message := SentinelCut(Group(bits));
  }

  /** A character's eight bits at the front of a bit string decode to that character. */
  lemma GroupByte(b: Byte, rest: seq<Bit>)
    ensures Group(ByteBits(b) + rest) == [b] + Group(rest)
  {
    var s := ByteBits(b) + rest;
    var g, h := Group(s), [b] + Group(rest);
    assert |g| == |h|;
    forall k | 0 <= k < |g|
      ensures g[k] == h[k]
    {
      if k == 0 {
        assert s[0 .. Min(8, |s|)] == ByteBits(b);
      } else {
        assert s[8 * k .. Min(8 * k + 8, |s|)] == rest[8 * (k - 1) .. Min(8 * (k - 1) + 8, |rest|)];
      }
    }
  }

  /** Decoding the groups of a serialised string gives back its characters. */
  lemma {:induction false} GroupSerialise(m: seq<Byte>, rest: seq<Bit>)
    ensures Group(Serialise(m) + rest) == m + Group(rest)
  {
    if m != [] {
      calc {
        Group(Serialise(m) + rest);
        { GroupFirst(m, rest); }
        [m[0]] + Group(Serialise(m[1..]) + rest);
        { GroupSerialise(m[1..], rest); }
        [m[0]] + (m[1..] + Group(rest));
        { assert m == [m[0]] + m[1..]; }
        m + Group(rest);
      }
    } else {
      assert Serialise(m) + rest == rest;
    }
  }

  /** The first character of a serialised string is the first group. */
  lemma GroupFirst(m: seq<Byte>, rest: seq<Bit>)
    requires m != []
    ensures Group(Serialise(m) + rest) == [m[0]] + Group(Serialise(m[1..]) + rest)
  {
    var tail := Serialise(m[1..]) + rest;
    SerialiseCons(m, rest);
    GroupByte(m[0], tail);
  }

  /** A tail shorter than eight bits decodes to at most one character, its value as a numeral. */
  lemma GroupTail(t: seq<Bit>)
    requires |t| < 8
    ensures Group(t) == if t == [] then [] else [FromBinary(t)]
  {
    if t != [] {
      assert t[0 .. Min(8, |t|)] == t;
    }
  }

  /** The three properties of `SentinelCut` determine its result. */
  lemma SentinelCutUnique(s: seq<Byte>, r: seq<Byte>)
    requires r <= s && Sentinel !in r
    requires |r| == |s| || s[|r|] == Sentinel
    ensures r == SentinelCut(s)
  {
  }

  /** A sentinel-free prefix passes through the cut. */
  lemma SentinelCutAppend(a: seq<Byte>, b: seq<Byte>)
    requires Sentinel !in a
    ensures SentinelCut(a + b) == a + SentinelCut(b)
  {
    var c := SentinelCut(b);
    assert Sentinel !in a + c by {
      assert forall k :: 0 <= k < |a + c| ==> (a + c)[k] == if k < |a| then a[k] else c[k - |a|];
    }
    SentinelCutUnique(a + b, a + c);
  }

  /** Everything after a sentinel is ignored. */
  lemma SentinelCutAfter(a: seq<Byte>, b: seq<Byte>)
    ensures SentinelCut(a + [Sentinel] + b) == SentinelCut(a)
  {
    var c := SentinelCut(a);
    assert c <= a + [Sentinel] + b;
    SentinelCutUnique(a + [Sentinel] + b, c);
  }
}
