/**
 * The encoder: the payload is written into the low bits of the channels of
 * the image, pixel by pixel in scan order and R, G, B within a pixel, until
 * the payload runs out or the image ends.
 */
module Encoder {
  import opened Bits
  import opened Serialisation
  import opened Images

  /**
   * One pixel as the scan leaves it when the payload cursor stands at
   * `start` on reaching it: channel `i` takes payload bit `start + i` in
   * its low bit while such a bit remains, and is left alone once the
   * payload has run out.
   */
  function Overwrite(p: Pixel, bits: seq<Bit>, start: nat): (r: Pixel)
  {
    seq(3, i requires 0 <= i < 3 => if start + i < |bits| then SetLsb(p[i], bits[start + i]) else p[i])
  }

  /**
   * The hidden-payload image: each pixel in scan order takes the next (up
   * to) three payload bits; once the bits are used up the remaining pixels
   * are copied unchanged.
   */
  function Embed(src: seq<Pixel>, bits: seq<Bit>): (r: seq<Pixel>)
    ensures |r| == |src|
  {
    if src == [] then [] else [Overwrite(src[0], bits, 0)] + Embed(src[1..], bits[Min(3, |bits|)..])
  }

  /** A pixel the cursor reaches after the payload is used up keeps its value. */
  lemma OverwritePast(p: Pixel, bits: seq<Bit>, start: nat)
    requires |bits| <= start
    ensures Overwrite(p, bits, start) == p
  {
    assert forall c :: 0 <= c < 3 ==> Overwrite(p, bits, start)[c] == p[c];
  }

  /** Dropping the three bits the first pixel takes shifts the cursor by three. */
  lemma OverwriteShift(p: Pixel, bits: seq<Bit>, start: nat)
    ensures Overwrite(p, bits[Min(3, |bits|)..], start) == Overwrite(p, bits, start + 3)
  {
    var rest := bits[Min(3, |bits|)..];
    forall c | 0 <= c < 3
      ensures Overwrite(p, rest, start)[c] == Overwrite(p, bits, start + 3)[c]
    {
      if start + c < |rest| {
        assert rest[start + c] == bits[start + 3 + c];
      }
    }
  }

  /** The pixel at scan position `j` is reached with the cursor at `3 * j`. */
  lemma {:induction false} EmbedAt(src: seq<Pixel>, bits: seq<Bit>)
    ensures forall j :: 0 <= j < |src| ==> Embed(src, bits)[j] == Overwrite(src[j], bits, 3 * j)
  {
    if src != [] {
      var rest := bits[Min(3, |bits|)..];
      EmbedAt(src[1..], rest);
      forall j | 1 <= j < |src|
        ensures Embed(src, bits)[j] == Overwrite(src[j], bits, 3 * j)
      {
        calc {
          Embed(src, bits)[j];
          Embed(src[1..], rest)[j - 1];
          Overwrite(src[j], rest, 3 * (j - 1));
          { OverwriteShift(src[j], bits, 3 * (j - 1)); }
          Overwrite(src[j], bits, 3 * j);
        }
      }
    }
  }

  /**
   * Write order, per-channel write and locality.  Channel `i` of the pixel
   * at scan position `j` is flat channel `k = 3 * j + i`.  While `k` is
   * inside the payload that channel carries payload bit `k` in its low bit,
   * keeps bits 1 to 7 of the source channel and differs from it by at most
   * one; from `k = |bits|` on it is the source channel.
   */
  lemma EmbedChannels(src: seq<Pixel>, bits: seq<Bit>)
    ensures |Embed(src, bits)| == |src|
    ensures forall j, i :: 0 <= j < |src| && 0 <= i < 3 && 3 * j + i < |bits| ==>
      Lsb(Embed(src, bits)[j][i]) == bits[3 * j + i] &&
      Embed(src, bits)[j][i] / 2 == src[j][i] / 2 &&
      -1 <= Embed(src, bits)[j][i] as int - src[j][i] as int <= 1
    ensures forall j, i :: 0 <= j < |src| && 0 <= i < 3 && |bits| <= 3 * j + i ==>
      Embed(src, bits)[j][i] == src[j][i]
  {
    EmbedAt(src, bits);
  }

  /**
   * `out` is the image part-way through the scan with the payload cursor at
   * `cursor`: the pixels before the cursor hold their hidden-payload value,
   * the others still hold the source value.
   */
  ghost predicate Scanned(src: seq<Pixel>, bits: seq<Bit>, out: seq<Pixel>, cursor: nat)
  {
    |out| == |src| &&
    forall j :: 0 <= j < |src| ==>
      out[j] == if 3 * j < cursor then Overwrite(src[j], bits, 3 * j) else src[j]
  }

  /**
   * Once the cursor has passed the payload or the image, every pixel the
   * scan has not reached already has its hidden-payload value.
   */
  lemma ScanComplete(src: seq<Pixel>, bits: seq<Bit>, out: seq<Pixel>, cursor: nat)
    requires Scanned(src, bits, out, cursor)
    requires cursor >= |bits| || cursor >= 3 * |src|
    ensures out == Embed(src, bits)
  {
    EmbedAt(src, bits);
    forall j | 0 <= j < |src|
      ensures out[j] == Embed(src, bits)[j]
    {
      if 3 * j >= cursor {
        OverwritePast(src[j], bits, 3 * j);
      }
    }
  }

  /** Writing the pixel at the cursor's position moves the scan one pixel on. */
  lemma ScanStep(src: seq<Pixel>, bits: seq<Bit>, out: seq<Pixel>, pos: nat)
    requires 3 * pos < |bits| && pos < |src|
    requires Scanned(src, bits, out, 3 * pos)
    ensures Scanned(src, bits, out[pos := Overwrite(src[pos], bits, 3 * pos)], Min(|bits|, 3 * pos + 3))
  {
  }

  /**
   * The channel loop of the scan: starting with the payload cursor at
   * `start`, channels R, G and B in turn take the next payload bit while
   * one remains.  Returns the new pixel and the advanced cursor.
   */
  method WritePixel(p: Pixel, bits: seq<Bit>, start: nat) returns (pixel: Pixel, next: nat)
    requires start <= |bits|
    ensures pixel == Overwrite(p, bits, start)
    ensures next == Min(|bits|, start + 3)
  {
    pixel, next := p, start;
    for i := 0 to 3
      invariant next == Min(|bits|, start + i)
      invariant forall c :: 0 <= c < 3 ==> pixel[c] == if c < i then Overwrite(p, bits, start)[c] else p[c]
    {
      if next < |bits| {
        pixel := pixel[i := SetLsb(pixel[i], bits[next])];
        next := next + 1;
      }
    }
  }

  /**
   * One row of the scan, `for x in range(width)` with its early exit: the
   * pixels at scan positions `row` to `row + width - 1` are read from
   * `src`, take payload bits while any remain, and are written to both
   * copies.  Returns the advanced payload cursor.
   */
  method EncodeRow(src: array<Pixel>, encoded: array<Pixel>, visible: array<Pixel>, bits: seq<Bit>,
                   row: nat, width: nat, cursor: nat) returns (next: nat)
    requires encoded != src && visible != src && encoded != visible
    requires encoded.Length == src.Length && visible.Length == src.Length && row + width <= src.Length
    requires cursor <= |bits| && (cursor < |bits| ==> cursor == 3 * row)
    requires Scanned(src[..], bits, encoded[..], cursor) && visible[..] == encoded[..]
    modifies encoded, visible
    ensures next <= |bits| && (next < |bits| ==> next == 3 * (row + width))
    ensures Scanned(src[..], bits, encoded[..], next) && visible[..] == encoded[..]
  {
    next := cursor;
    var x := 0;
    while x < width && next < |bits|
      invariant 0 <= x <= width
      invariant next <= |bits| && (next < |bits| ==> next == 3 * (row + x))
      invariant Scanned(src[..], bits, encoded[..], next) && visible[..] == encoded[..]
    {
      var pos := row + x;
      var pixel;
      pixel, next := WritePixel(src[pos], bits, next);
      ScanStep(src[..], bits, encoded[..], pos);
      encoded[pos] := pixel;
      visible[pos] := pixel;
      x := x + 1;
    }
  }

  /**
   * The two scan loops of `encode_image`: the `width` by `height` pixels of
   * `src` in scan order take the payload bits, and both copies are written
   * as they go.  The early exits of both loops are folded into the loop
   * guards.
   */
  method EncodeScan(src: array<Pixel>, encoded: array<Pixel>, visible: array<Pixel>, bits: seq<Bit>,
                    width: nat, height: nat)
    requires encoded != src && visible != src && encoded != visible
    requires src.Length == width * height && encoded.Length == src.Length && visible.Length == src.Length
    requires encoded[..] == src[..] && visible[..] == src[..]
    modifies encoded, visible
    ensures encoded[..] == Embed(old(src[..]), bits) && visible[..] == encoded[..]
  {
    ghost var n := width * height;
    var dataIndex := 0;
    // `row` is the scan position `y * width` of pixel (0, y).
    var y, row := 0, 0;
    while y < height && dataIndex < |bits|
      invariant 0 <= y <= height && row == y * width && row <= n
      invariant dataIndex <= |bits|
      invariant dataIndex < |bits| ==> dataIndex == 3 * row
      invariant Scanned(src[..], bits, encoded[..], dataIndex)
      invariant visible[..] == encoded[..]
    {
      NextRow(y, width, height);
      dataIndex := EncodeRow(src, encoded, visible, bits, row, width, dataIndex);
      y, row := y + 1, row + width;
    }
    assert dataIndex >= |bits| || dataIndex >= 3 * n;
    ScanComplete(src[..], bits, encoded[..], dataIndex);
  }

  /**
   * `encode_image` without the file handling and the text drawing: hide
   * the payload of `message` in two fresh copies of `img` (the source is
   * only read).  Both copies end up holding the hidden-payload image.
   */
  method EncodeImage(img: Image, message: seq<Byte>) returns (encoded: Image, visible: Image)
    requires img.Valid()
    ensures fresh(encoded) && fresh(encoded.data) && fresh(visible) && fresh(visible.data)
    ensures encoded.data != visible.data
    ensures encoded.Valid() && encoded.width == img.width && encoded.height == img.height
    ensures visible.Valid() && visible.width == img.width && visible.height == img.height
    ensures encoded.Pixels() == Embed(img.Pixels(), Payload(message))
    ensures visible.Pixels() == encoded.Pixels()
  {
    encoded := new Image.Copy(img);
    visible := new Image.Copy(img);
    EncodeScan(img.data, encoded.data, visible.data, Payload(message), img.width, img.height);
  }
}
