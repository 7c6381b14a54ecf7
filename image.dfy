/**
 * An in-memory RGB image: a `width` by `height` grid of pixels with three
 * 8-bit channels each, stored row by row, so that pixel `(x, y)` sits at
 * position `y * width + x` of `data`.
 */
module Images {
  import opened Bits

  /** The channels R, G and B of one pixel, in that order. */
  type Pixel = p: seq<Channel> | |p| == 3 witness [0, 0, 0]

  class Image {
    const width: nat
    const height: nat
    const data: array<Pixel>

    ghost predicate Valid()
    {
      data.Length == width * height
    }

    /** The pixels in scan order: rows top to bottom, each row left to right. */
    ghost function Pixels(): seq<Pixel>
      reads data
    {
      data[..]
    }

    /**
     * The RGB image `Image.open(path).convert("RGB")` yields, given by its
     * size and its pixels in scan order.
     */
    constructor FromPixels(w: nat, h: nat, ps: seq<Pixel>)
      requires |ps| == w * h
      ensures Valid() && fresh(data)
      ensures width == w && height == h && Pixels() == ps
    {
      width, height := w, h;
      data := new Pixel[|ps|](i requires 0 <= i < |ps| => ps[i]);
    }

    /** `img.copy()`: an image of the same size and pixels in storage of its own. */
    constructor Copy(src: Image)
      requires src.Valid()
      ensures Valid() && fresh(data)
      ensures width == src.width && height == src.height
      ensures Pixels() == src.Pixels()
    {
      width, height := src.width, src.height;
      data := new Pixel[src.data.Length](i requires 0 <= i < src.data.Length reads src.data => src.data[i]);
    }
  }

  /** The rows before row `y + 1` of a `w` by `h` grid end at scan position `y * w + w`. */
  lemma NextRow(y: nat, w: nat, h: nat)
    requires y < h
    ensures (y + 1) * w == y * w + w <= w * h
  {
    assert (y + 1) * w <= h * w;
  }
}
