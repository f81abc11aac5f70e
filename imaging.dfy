/**
 * The part of the Pillow imaging library the merge relies on.
 *
 * A decoded source image is a value (`Picture`): its pixels, row by row.
 * The buffers Pillow creates and writes (`Image.new`, `Image.copy`, the
 * target of `Image.paste`) are two-dimensional arrays indexed `[y, x]`, so
 * `Length0` is the height and `Length1` the width.  Every pixel is RGBA;
 * Pillow's mode conversion of other sources is not modelled.
 */
module Imaging {
  import opened Errors

  newtype byte = x: int | 0 <= x < 256

  datatype Rgba = Rgba(r: byte, g: byte, b: byte, a: byte)

  /** The fill colour of every new buffer, (0, 0, 0, 0). */
  const Transparent := Rgba(0, 0, 0, 0)

  /** A decoded image: `rows[y][x]` is the pixel in column `x` of row `y`. */
  datatype Image = Image(width: nat, height: nat, rows: seq<seq<Rgba>>)
  {
    predicate Valid() {
      |rows| == height && forall y :: 0 <= y < height ==> |rows[y]| == width
    }
  }

  type Picture = img: Image | img.Valid() witness Image(0, 0, [])

  /**
   * Whether position (x, y) lies in the `width` x `height` rectangle whose
   * upper-left corner is (left, top).
   */
  predicate Covers(left: int, top: int, width: int, height: int, x: int, y: int) {
    left <= x < left + width && top <= y < top + height
  }

  /** `Image.new("RGBA", (width, height), (0, 0, 0, 0))`: Pillow refuses a negative size. */
  method New(width: int, height: int) returns (r: Result<array2<Rgba>>)
    ensures r.Failure? <==> width < 0 || height < 0
    ensures r.Failure? ==> r.error == NegativeSize
    ensures r.Success? ==> fresh(r.value)
    ensures r.Success? ==> r.value.Length0 == height && r.value.Length1 == width
    ensures r.Success? ==> forall y, x :: 0 <= y < height && 0 <= x < width ==> r.value[y, x] == Transparent
  {
    if width < 0 || height < 0 {
      return Failure(NegativeSize);
    }
    var buf := new Rgba[height, width]((y, x) => Transparent);
    return Success(buf);
  }

  /** `image.copy()`: a fresh buffer holding the pixels of `img`. */
  method Copy(img: Picture) returns (buf: array2<Rgba>)
    ensures fresh(buf)
    ensures buf.Length0 == img.height && buf.Length1 == img.width
    ensures forall y, x :: 0 <= y < img.height && 0 <= x < img.width ==> buf[y, x] == img.rows[y][x]
  {
    buf := new Rgba[img.height, img.width]((y, x) requires 0 <= y < img.height && 0 <= x < img.width => img.rows[y][x]);
  }

  /** The pixels of a buffer as a value, as they stand when the buffer is saved. */
  function Snapshot(buf: array2<Rgba>): (img: Picture)
    reads buf
    ensures img.width == buf.Length1 && img.height == buf.Length0
    ensures forall y, x :: 0 <= y < buf.Length0 && 0 <= x < buf.Length1 ==> img.rows[y][x] == buf[y, x]
  {
    Image(buf.Length1, buf.Length0,
      seq(buf.Length0, y requires 0 <= y < buf.Length0 reads buf =>
        seq(buf.Length1, x requires 0 <= x < buf.Length1 reads buf => buf[y, x])))
  }

  /**
   * `dst.paste(src, (left, top))`: every pixel of `dst` under `src` placed
   * with its upper-left corner at (left, top) is overwritten with the
   * corresponding pixel of `src`, alpha included and without blending; the
   * parts of `src` that fall outside `dst` are clipped away.
   */
  method Paste(dst: array2<Rgba>, src: array2<Rgba>, left: int, top: int)
    requires dst != src
    modifies dst
    ensures forall y, x :: 0 <= y < dst.Length0 && 0 <= x < dst.Length1 ==>
      dst[y, x] == if Covers(left, top, src.Length1, src.Length0, x, y) then src[y - top, x - left] else old(dst[y, x])
  {
    // The visible part of the pasted rectangle, rows y0..y1 and columns x0..x1.
    var y0 := if top < 0 then 0 else top;
    var y1 := if top + src.Length0 < dst.Length0 then top + src.Length0 else dst.Length0;
    var x0 := if left < 0 then 0 else left;
    var x1 := if left + src.Length1 < dst.Length1 then left + src.Length1 else dst.Length1;
    if y0 >= y1 || x0 >= x1 {
      return;
    }
    var y := y0;
    while y < y1
      invariant y0 <= y <= y1
      invariant forall r, c :: 0 <= r < dst.Length0 && 0 <= c < dst.Length1 ==>
        dst[r, c] == if y0 <= r < y && x0 <= c < x1 then src[r - top, c - left] else old(dst[r, c])
    {
      var x := x0;
      while x < x1
        invariant x0 <= x <= x1
        invariant forall r, c :: 0 <= r < dst.Length0 && 0 <= c < dst.Length1 ==>
          dst[r, c] == if (y0 <= r < y && x0 <= c < x1) || (r == y && x0 <= c < x) then src[r - top, c - left] else old(dst[r, c])
      {
        dst[y, x] := src[y - top, x - left];
        x := x + 1;
      }
      y := y + 1;
    }
  }

  /**
   * `dst.paste(src, (left, upper, right, lower))`: Pillow refuses the call
   * ("images do not match") unless the box is exactly as wide and as high
   * as `src`, and leaves `dst` untouched; otherwise it pastes as `Paste`
   * does at (left, upper).
   */
  method PasteBox(dst: array2<Rgba>, src: array2<Rgba>, left: int, upper: int, right: int, lower: int)
    returns (r: Result<()>)
    requires dst != src
    modifies dst
    ensures r.Success? <==> right - left == src.Length1 && lower - upper == src.Length0
    ensures r.Failure? ==> r.error == ImagesDoNotMatch && unchanged(dst)
    ensures r.Success? ==> forall y, x :: 0 <= y < dst.Length0 && 0 <= x < dst.Length1 ==>
      dst[y, x] == if Covers(left, upper, src.Length1, src.Length0, x, y) then src[y - upper, x - left] else old(dst[y, x])
  {
    if right - left != src.Length1 || lower - upper != src.Length0 {
      return Failure(ImagesDoNotMatch);
    }
    Paste(dst, src, left, upper);
    return Success(());
  }
}
