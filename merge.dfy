/**
 * The tile-sizing and grid-compositing logic of pytmm/merge.py, as written.
 *
 * The files the source opens are replaced by a sequence of already decoded
 * images; its two passes over `images()` become two loops over that
 * sequence.  Each image lands in a tile-sized cell of a transparent canvas:
 * cell `i` is in column `i mod columns` and row `i div columns`.
 */
module Merge {
  import opened Errors
  import opened Imaging

  /** A (width, height) pair, as the source's `tuple[int, int]`. */
  datatype Size = Size(width: int, height: int)

  // Python's integer operators `//` and `%` round toward negative infinity.

  function FloorDiv(a: int, b: int): (q: int)
    requires b != 0
    ensures b > 0 ==> q * b <= a < q * b + b
    ensures b < 0 ==> q * b + b < a <= q * b
  {
    if b > 0 || a % b == 0 then a / b else a / b - 1
  }

  function FloorMod(a: int, b: int): (m: int)
    requires b != 0
    ensures b > 0 ==> 0 <= m < b
    ensures b < 0 ==> b < m <= 0
  {
    a - FloorDiv(a, b) * b
  }

  lemma MulAtLeast(k: int, d: int)
    requires k >= 1 && d >= 0
    ensures k * d >= d
  {
  }

  /** Multiplying by a positive factor keeps the order of two integers, and leaves a gap of at least that factor. */
  lemma MulOrder(a: int, b: int, c: int)
    requires c > 0
    ensures a < b <==> a * c < b * c
    ensures a < b ==> a * c + c <= b * c
  {
    if a < b {
      MulAtLeast(b - a, c);
      assert b * c - a * c == (b - a) * c;
    } else if a > b {
      MulAtLeast(a - b, c);
      assert a * c - b * c == (a - b) * c;
    }
  }

  /** For a positive divisor the floor quotient is the one `q` with `q * d <= n < q * d + d`. */
  lemma FloorDivUnique(n: int, d: int, q: int)
    requires d > 0
    ensures FloorDiv(n, d) == q <==> q * d <= n < q * d + d
  {
    var p := FloorDiv(n, d);
    if q * d <= n < q * d + d {
      if p > q {
        MulAtLeast(p - q, d);
      } else if p < q {
        MulAtLeast(q - p, d);
      }
    }
  }

  function Min(a: int, b: int): int {
    if a < b then a else b
  }

  // ---- Tile size: merge.py lines 11-30 ----

  /** Python's `max` over a non-empty tuple. */
  function Max(xs: seq<int>): (m: int)
    requires |xs| > 0
    ensures forall k :: 0 <= k < |xs| ==> xs[k] <= m
    ensures m in xs
  {
    if |xs| == 1 then xs[0]
    else
      var rest := Max(xs[1..]);
      if xs[0] >= rest then xs[0] else rest
  }

  function Widths(images: seq<Picture>): (ws: seq<int>)
    ensures |ws| == |images|
  {
    seq(|images|, i requires 0 <= i < |images| => images[i].width)
  }

  function Heights(images: seq<Picture>): (hs: seq<int>)
    ensures |hs| == |images|
  {
    seq(|images|, i requires 0 <= i < |images| => images[i].height)
  }

  /**
   * `tile` is the smallest box every image fits in: no image is wider or
   * higher, and some image is exactly as wide and some exactly as high.
   */
  ghost predicate IsBoundingBox(images: seq<Picture>, tile: Size) {
    && (forall i :: 0 <= i < |images| ==> images[i].width <= tile.width && images[i].height <= tile.height)
    && (exists i :: 0 <= i < |images| && images[i].width == tile.width)
    && (exists i :: 0 <= i < |images| && images[i].height == tile.height)
  }

  /** The tile size of a non-empty list of images. */
  function TileSize(images: seq<Picture>): (tile: Size)
    requires |images| > 0
    ensures IsBoundingBox(images, tile)
    ensures tile.width >= 0 && tile.height >= 0
  {
    var ws, hs := Widths(images), Heights(images);
    var tile := Size(Max(ws), Max(hs));
    assert forall i :: 0 <= i < |images| ==> ws[i] == images[i].width && hs[i] == images[i].height;
    assert exists i :: 0 <= i < |ws| && ws[i] == tile.width;
    assert exists i :: 0 <= i < |hs| && hs[i] == tile.height;
    tile
  }

  /**
   * `_determine_tile_size`: one loop collects the size of every image, then
   * the widths and the heights are maximised.  With no image there are no
   * widths, and indexing them fails.
   */
  method DetermineTileSize(images: seq<Picture>) returns (r: Result<Size>)
    ensures |images| == 0 ==> r == Failure(TupleIndexOutOfRange)
    ensures |images| > 0 ==> r == Success(TileSize(images))
  {
    var sizes: seq<Size> := [];
    for i := 0 to |images|
      invariant |sizes| == i
      invariant forall k :: 0 <= k < i ==> sizes[k] == Size(images[k].width, images[k].height)
    {
      sizes := sizes + [Size(images[i].width, images[i].height)];
    }
    if |sizes| == 0 {
      return Failure(TupleIndexOutOfRange);
    }
    var xs := seq(|sizes|, k requires 0 <= k < |sizes| => sizes[k].width);
    var ys := seq(|sizes|, k requires 0 <= k < |sizes| => sizes[k].height);
    assert xs == Widths(images);
    assert ys == Heights(images);
    return Success(Size(Max(xs), Max(ys)));
  }

  // ---- Tileset size: merge.py lines 33-54 ----

  /** `max(1, tile_count // column_count)`. */
  function RowCount(count: int, columns: int): (rows: int)
    requires columns != 0
    ensures rows >= 1
    ensures columns > 0 && count >= columns ==> rows * columns <= count < rows * columns + columns
  {
    var q := FloorDiv(count, columns);
    if q < 1 then 1 else q
  }

  /**
   * `_determine_final_size`: as many tiles across as there are columns, or
   * tiles if fewer, and as many rows as whole rows of tiles, at least one.
   */
  function DetermineFinalSize(tile: Size, columns: int, count: int): (r: Result<Size>)
    ensures r.Failure? <==> columns == 0
    ensures r.Failure? ==> r.error == ZeroDivision
  {
    if columns == 0 then Failure(ZeroDivision)
    else
      var width := tile.width * Min(count, columns);
      var rows := RowCount(count, columns);
      Success(Size(width, rows * tile.height))
  }

  lemma MulMonotone(a: int, b: int, w: int)
    requires a <= b && w >= 0
    ensures w * a <= w * b && a * w <= b * w
  {
    assert w * b - w * a == w * (b - a);
  }

  /**
   * The canvas is exactly as wide as its widest row: every cell ends at or
   * before the right edge, and the last cell of the first row ends on it.
   */
  lemma CanvasWidthFitsEveryColumn(tile: Size, columns: int, count: int, i: int)
    requires columns > 0 && tile.width >= 0 && 0 <= i < count
    ensures DetermineFinalSize(tile, columns, count).Success?
    ensures var width := DetermineFinalSize(tile, columns, count).value.width;
      && FloorMod(i, columns) * tile.width + tile.width <= width
      && (i == Min(count, columns) - 1 ==> FloorMod(i, columns) * tile.width + tile.width == width)
  {
    var m := FloorMod(i, columns);
    FloorDivUnique(i, columns, FloorDiv(i, columns));
    if FloorDiv(i, columns) < 0 {
      MulOrder(FloorDiv(i, columns), 0, columns);
    }
    assert 0 <= m <= i;
    MulMonotone(m + 1, Min(count, columns), tile.width);
    if i == Min(count, columns) - 1 {
      FloorDivUnique(i, columns, 0);
    }
  }

  /**
   * A cell lies either wholly on the canvas or wholly below it, and it lies
   * on it exactly when its tile is in the first row or in a row that the
   * tiles fill completely.
   */
  lemma CellRowOnCanvas(tile: Size, columns: int, count: int, i: int)
    requires columns > 0 && tile.height > 0 && 0 <= i < count
    ensures DetermineFinalSize(tile, columns, count).Success?
    ensures var height := DetermineFinalSize(tile, columns, count).value.height;
      var top := FloorDiv(i, columns) * tile.height;
      && (top + tile.height <= height || top >= height)
      && (top + tile.height <= height <==> i < columns || i < FloorDiv(count, columns) * columns)
  {
    var row, rows, full := FloorDiv(i, columns), RowCount(count, columns), FloorDiv(count, columns);
    MulOrder(row, rows, tile.height);
    MulOrder(rows - 1, row, tile.height);
    FloorDivUnique(i, columns, 0);
    MulOrder(row, full, columns);
    MulOrder(i, full * columns, 1);
    if row < full {
      assert i < row * columns + columns <= full * columns;
    }
  }

  /**
   * The row count is rounded down: when there are more tiles than columns
   * and the last row is only partly filled, the last tile's cell begins at
   * or below the bottom edge of the canvas, so none of it is drawn.
   */
  lemma PartialRowIsClipped(tile: Size, columns: int, count: int)
    requires columns > 0 && count > columns && FloorMod(count, columns) != 0 && tile.height >= 0
    ensures DetermineFinalSize(tile, columns, count).Success?
    ensures FloorDiv(count - 1, columns) * tile.height >= DetermineFinalSize(tile, columns, count).value.height
  {
    if tile.height > 0 {
      CellRowOnCanvas(tile, columns, count, count - 1);
    }
  }

  // ---- Centring: merge.py lines 57-78 ----

  /**
   * The offset that centres a length `inner` within `outer`: half the
   * surplus, rounded down, so an odd surplus leaves its extra pixel on the
   * right or at the bottom.
   */
  function CentreOffset(outer: int, inner: int): (off: int)
    ensures inner <= outer ==> 0 <= off && off + inner <= outer && off <= outer - inner - off <= off + 1
  {
    FloorDiv(outer - inner, 2)
  }

  /** The pixel at (x, y) of `img` centred, unscaled, on a transparent `width` x `height` canvas. */
  function CentredPixel(img: Picture, width: int, height: int, x: int, y: int): Rgba {
    var left, top := CentreOffset(width, img.width), CentreOffset(height, img.height);
    if Covers(left, top, img.width, img.height, x, y) then img.rows[y - top][x - left] else Transparent
  }

  /**
   * Whether the 4-tuple box that line 77 passes to `paste`,
   * `(w_offset, h_offset, image_w, image_h)`, is exactly as large as the
   * image, which Pillow demands.
   */
  predicate BoxFitsSource(img: Picture, size: Size) {
    && img.width - CentreOffset(size.width, img.width) == img.width
    && img.height - CentreOffset(size.height, img.height) == img.height
  }

  /**
   * The box of line 77 fits only when neither offset is needed: each side
   * of the target is the image's own or at most one pixel longer.
   */
  lemma BoxFitsOnlyWithoutPadding(img: Picture, size: Size)
    ensures BoxFitsSource(img, size) <==> 0 <= size.width - img.width <= 1 && 0 <= size.height - img.height <= 1
  {
    FloorDivUnique(size.width - img.width, 2, 0);
    FloorDivUnique(size.height - img.height, 2, 0);
  }

  /**
   * `resize_and_centre`: a fresh transparent buffer of the given size into
   * which a copy of the image is pasted through the box of line 77.  The
   * paste is refused unless the box fits; when it is accepted the offsets
   * are zero and the buffer holds exactly the centred image.
   */
  method ResizeAndCentre(img: Picture, size: Size) returns (r: Result<array2<Rgba>>)
    ensures r.Failure? <==> size.width < 0 || size.height < 0 || !BoxFitsSource(img, size)
    ensures r.Failure? ==> r.error == if size.width < 0 || size.height < 0 then NegativeSize else ImagesDoNotMatch
    ensures r.Success? ==> fresh(r.value) && r.value.Length0 == size.height && r.value.Length1 == size.width
    ensures r.Success? ==> forall y, x :: 0 <= y < size.height && 0 <= x < size.width ==>
      r.value[y, x] == CentredPixel(img, size.width, size.height, x, y)
  {
    var canvas := New(size.width, size.height);
    if canvas.Failure? {
      return Failure(canvas.error);
    }
    var copyCanvas := canvas.value;
    var spaceW, spaceH := size.width - img.width, size.height - img.height;
    var wOffset, hOffset := FloorDiv(spaceW, 2), FloorDiv(spaceH, 2);
    var copy := Copy(img);
    var pasted := PasteBox(copyCanvas, copy, wOffset, hOffset, img.width, img.height);
    if pasted.Failure? {
      return Failure(pasted.error);
    }
    return Success(copyCanvas);
  }

  // ---- The grid: merge.py lines 81-113 ----

  /** Whether (x, y) lies in the cell of tile `i`: column `i mod columns`, row `i div columns`. */
  predicate InCell(columns: int, tile: Size, i: int, x: int, y: int)
    requires columns != 0
  {
    Covers(FloorMod(i, columns) * tile.width, FloorDiv(i, columns) * tile.height, tile.width, tile.height, x, y)
  }

  /**
   * The pixel at (x, y) of a grid whose cell `i` holds `images[i]` centred
   * in a `tile`-sized box, `columns` cells to a row; where no image's cell
   * lies the grid is transparent, and a degenerate grid is transparent
   * throughout.
   */
  function GridPixel(images: seq<Picture>, columns: int, tile: Size, x: int, y: int): Rgba {
    if columns <= 0 || tile.width <= 0 || tile.height <= 0 || x < 0 || y < 0 then Transparent
    else
      var col := FloorDiv(x, tile.width);
      var i := FloorDiv(y, tile.height) * columns + col;
      if col < columns && 0 <= i < |images| then
        CentredPixel(images[i], tile.width, tile.height, FloorMod(x, tile.width), FloorMod(y, tile.height))
      else Transparent
  }

  /** A position lies in the cell of tile `i` exactly when its column and row number that tile. */
  lemma CellOfPixel(columns: int, tile: Size, i: int, x: int, y: int)
    requires columns > 0 && tile.width > 0 && tile.height > 0 && i >= 0 && x >= 0 && y >= 0
    ensures InCell(columns, tile, i, x, y) <==>
      FloorDiv(x, tile.width) < columns && FloorDiv(y, tile.height) * columns + FloorDiv(x, tile.width) == i
    ensures InCell(columns, tile, i, x, y) ==>
      && FloorMod(x, tile.width) == x - FloorMod(i, columns) * tile.width
      && FloorMod(y, tile.height) == y - FloorDiv(i, columns) * tile.height
  {
    var col, row := FloorDiv(x, tile.width), FloorDiv(y, tile.height);
    FloorDivUnique(x, tile.width, FloorMod(i, columns));
    FloorDivUnique(y, tile.height, FloorDiv(i, columns));
    FloorDivUnique(x, tile.width, 0);
    if col < 0 {
      MulOrder(col, 0, tile.width);
    }
    if col < columns && row * columns + col == i {
      FloorDivUnique(i, columns, row);
    }
  }

  /** Distinct tiles have disjoint cells, so no tile overwrites another. */
  lemma CellsAreDisjoint(columns: int, tile: Size, i: int, j: int, x: int, y: int)
    requires columns > 0 && tile.width > 0 && tile.height > 0 && 0 <= i && 0 <= j && i != j
    requires 0 <= x && 0 <= y && InCell(columns, tile, i, x, y)
    ensures !InCell(columns, tile, j, x, y)
  {
    CellOfPixel(columns, tile, i, x, y);
    CellOfPixel(columns, tile, j, x, y);
  }

  /** Inside the cell of tile `i` the grid shows that tile's centred image. */
  lemma CoveredPixelShowsItsTile(images: seq<Picture>, columns: int, tile: Size, i: int, x: int, y: int)
    requires columns > 0 && tile.width > 0 && tile.height > 0 && 0 <= i < |images|
    requires 0 <= x && 0 <= y && InCell(columns, tile, i, x, y)
    ensures GridPixel(images, columns, tile, x, y) ==
      CentredPixel(images[i], tile.width, tile.height, x - FloorMod(i, columns) * tile.width, y - FloorDiv(i, columns) * tile.height)
  {
    CellOfPixel(columns, tile, i, x, y);
  }

  /** A position in no image's cell stays transparent. */
  lemma UncoveredPixelIsTransparent(images: seq<Picture>, columns: int, tile: Size, x: int, y: int)
    requires columns > 0 && tile.width > 0 && tile.height > 0 && 0 <= x && 0 <= y
    requires forall i :: 0 <= i < |images| ==> !InCell(columns, tile, i, x, y)
    ensures GridPixel(images, columns, tile, x, y) == Transparent
  {
    var i := FloorDiv(y, tile.height) * columns + FloorDiv(x, tile.width);
    FloorDivUnique(x, tile.width, 0);
    FloorDivUnique(y, tile.height, 0);
    if FloorDiv(x, tile.width) < 0 {
      MulOrder(FloorDiv(x, tile.width), 0, tile.width);
    }
    if FloorDiv(y, tile.height) < 0 {
      MulOrder(FloorDiv(y, tile.height), 0, tile.height);
    }
    if FloorDiv(x, tile.width) < columns && 0 <= i < |images| {
      CellOfPixel(columns, tile, i, x, y);
    }
  }

  /**
   * Pasting tile `i` into a grid that holds the tiles before it changes
   * exactly the pixels of cell `i`.
   */
  lemma PastingTileChangesOnlyItsCell(images: seq<Picture>, columns: int, tile: Size, i: int, x: int, y: int)
    requires columns > 0 && tile.width > 0 && tile.height > 0 && 0 <= i < |images| && 0 <= x && 0 <= y
    ensures GridPixel(images[..i + 1], columns, tile, x, y) ==
      if InCell(columns, tile, i, x, y) then
        CentredPixel(images[i], tile.width, tile.height, x - FloorMod(i, columns) * tile.width, y - FloorDiv(i, columns) * tile.height)
      else GridPixel(images[..i], columns, tile, x, y)
  {
    var before, after := images[..i], images[..i + 1];
    var col := FloorDiv(x, tile.width);
    var j := FloorDiv(y, tile.height) * columns + col;
    CellOfPixel(columns, tile, i, x, y);
    if InCell(columns, tile, i, x, y) {
      assert j == i && after[i] == images[i];
    } else if col < columns && 0 <= j < i {
      assert after[j] == before[j];
    }
  }

  // ---- The whole merge: merge.py lines 81-125 ----

  /**
   * Only a canvas with columns and a positive tile width has a column of
   * pixels, it is narrower than nothing exactly when the columns are
   * negative and the tiles are not empty, and only a positive tile height
   * gives it a row of pixels.
   */
  lemma CanvasSign(tile: Size, columns: int, count: int)
    requires columns != 0 && count > 0 && tile.width >= 0 && tile.height >= 0
    ensures var canvas := DetermineFinalSize(tile, columns, count).value;
      && (canvas.width < 0 <==> columns < 0 && tile.width > 0)
      && (canvas.width > 0 ==> columns > 0 && tile.width > 0)
      && canvas.height >= 0
      && (canvas.height > 0 ==> tile.height > 0)
  {
    var across, rows := Min(count, columns), RowCount(count, columns);
    if tile.width > 0 {
      MulOrder(across, 0, tile.width);
    }
    if tile.height > 0 {
      MulOrder(0, rows, tile.height);
    }
  }

  /**
   * What the merge computes before it pastes anything: the tile size and
   * the canvas size, or the error it raises on the way.
   */
  function Layout(images: seq<Picture>, columns: int): Result<(Size, Size)> {
    if |images| == 0 then Failure(TupleIndexOutOfRange)
    else
      var tile := TileSize(images);
      var canvas := DetermineFinalSize(tile, columns, |images|);
      if canvas.Failure? then Failure(canvas.error)
      else if canvas.value.width < 0 || canvas.value.height < 0 then Failure(NegativeSize)
      else Success((tile, canvas.value))
  }

  /** The error the merge raises, if any: a layout error, or else a refused paste at line 77. */
  function MergeError(images: seq<Picture>, columns: int): Option<Error> {
    match Layout(images, columns)
    case Failure(e) => Some(e)
    case Success(sizes) =>
      if exists i :: 0 <= i < |images| && !BoxFitsSource(images[i], sizes.0) then Some(ImagesDoNotMatch) else None
  }

  /** `img` is the finished tileset: the canvas size of the layout, every pixel that of the grid. */
  ghost predicate IsTileset(images: seq<Picture>, columns: int, img: Picture) {
    && Layout(images, columns).Success?
    && var (tile, canvas) := Layout(images, columns).value;
    && img.width == canvas.width && img.height == canvas.height
    && forall y, x :: 0 <= y < img.height && 0 <= x < img.width ==>
      img.rows[y][x] == GridPixel(images, columns, tile, x, y)
  }

  /**
   * A canvas is refused as negative exactly when the column count is
   * negative and some image has a width.
   */
  lemma NegativeSizeOnlyWithNegativeColumns(images: seq<Picture>, columns: int)
    requires |images| > 0 && columns != 0
    ensures Layout(images, columns) == Failure(NegativeSize) <==> columns < 0 && TileSize(images).width > 0
  {
    CanvasSign(TileSize(images), columns, |images|);
  }

  /**
   * Any image at least two pixels narrower or lower than the tile makes
   * the merge fail at line 77, whatever else the images are.
   */
  lemma PaddedImageFailsTheMerge(images: seq<Picture>, columns: int, i: int)
    requires Layout(images, columns).Success? && 0 <= i < |images|
    requires var tile := Layout(images, columns).value.0;
      tile.width - images[i].width >= 2 || tile.height - images[i].height >= 2
    ensures MergeError(images, columns) == Some(ImagesDoNotMatch)
  {
    BoxFitsOnlyWithoutPadding(images[i], Layout(images, columns).value.0);
  }

  /** Every pixel of `canvas` is the grid's pixel at its position. */
  ghost predicate ShowsGrid(canvas: array2<Rgba>, images: seq<Picture>, columns: int, tile: Size)
    reads canvas
  {
    forall y, x :: 0 <= y < canvas.Length0 && 0 <= x < canvas.Length1 ==>
      canvas[y, x] == GridPixel(images, columns, tile, x, y)
  }

  /**
   * Lines 105-111: paste the centred image `i` at the corner of its cell,
   * `((i % column_count) * tile_w, (i // column_count) * tile_h)`, into a
   * canvas that shows the images before it; the canvas then shows image
   * `i` as well.
   */
  method PasteTile(canvas: array2<Rgba>, resized: array2<Rgba>, ghost images: seq<Picture>, columns: int, tile: Size, i: int)
    requires canvas != resized && columns != 0 && 0 <= i < |images|
    requires canvas.Length1 > 0 ==> columns > 0 && tile.width > 0
    requires canvas.Length0 > 0 ==> tile.height > 0
    requires resized.Length0 == tile.height && resized.Length1 == tile.width
    requires forall y, x :: 0 <= y < tile.height && 0 <= x < tile.width ==>
      resized[y, x] == CentredPixel(images[i], tile.width, tile.height, x, y)
    requires ShowsGrid(canvas, images[..i], columns, tile)
    modifies canvas
    ensures ShowsGrid(canvas, images[..i + 1], columns, tile)
  {
    var left, top := FloorMod(i, columns) * tile.width, FloorDiv(i, columns) * tile.height;
    Paste(canvas, resized, left, top);
    forall y, x | 0 <= y < canvas.Length0 && 0 <= x < canvas.Length1
      ensures canvas[y, x] == GridPixel(images[..i + 1], columns, tile, x, y)
    {
      PastingTileChangesOnlyItsCell(images, columns, tile, i, x, y);
    }
  }

  /** A canvas of the layout's size that shows the grid is the finished tileset. */
  lemma GridCanvasIsTileset(images: seq<Picture>, columns: int, canvas: array2<Rgba>)
    requires Layout(images, columns).Success?
    requires canvas.Length1 == Layout(images, columns).value.1.width
    requires canvas.Length0 == Layout(images, columns).value.1.height
    requires ShowsGrid(canvas, images, columns, Layout(images, columns).value.0)
    ensures IsTileset(images, columns, Snapshot(canvas))
  {
  }

  /** When every image's box fits, a merge whose layout succeeds raises nothing. */
  lemma NoMergeErrorWhenAllFit(images: seq<Picture>, columns: int)
    requires Layout(images, columns).Success?
    requires forall k :: 0 <= k < |images| ==> BoxFitsSource(images[k], Layout(images, columns).value.0)
    ensures MergeError(images, columns) == None
  {
  }

  /**
   * The second pass of `_generate_tileset_from_files` (lines 103-112):
   * centre each image in a tile and paste it into its cell, in input
   * order.  It stops at the first image whose box at line 77 does not fit
   * and reports its index; otherwise the canvas shows the whole grid.
   */
  method PasteTiles(canvas: array2<Rgba>, images: seq<Picture>, columns: int, tile: Size) returns (r: Result<()>)
    requires columns != 0 && tile.width >= 0 && tile.height >= 0
    requires canvas.Length1 > 0 ==> columns > 0 && tile.width > 0
    requires canvas.Length0 > 0 ==> tile.height > 0
    requires ShowsGrid(canvas, [], columns, tile)
    modifies canvas
    ensures r.Success? <==> forall k :: 0 <= k < |images| ==> BoxFitsSource(images[k], tile)
    ensures r.Failure? ==> r.error == ImagesDoNotMatch
    ensures r.Success? ==> ShowsGrid(canvas, images, columns, tile)
  {
    for i := 0 to |images|
      invariant forall k :: 0 <= k < i ==> BoxFitsSource(images[k], tile)
      invariant ShowsGrid(canvas, images[..i], columns, tile)
    {
      var resized := ResizeAndCentre(images[i], tile);
      if resized.Failure? {
        return Failure(ImagesDoNotMatch);
      }
      PasteTile(canvas, resized.value, images, columns, tile, i);
    }
    assert images[..|images|] == images;
    return Success(());
  }

  /**
   * `_generate_tileset_from_files`: measure every image, size and allocate
   * the transparent canvas, then centre each image in a tile and paste it
   * into its cell, in input order.
   */
  method GenerateTileset(images: seq<Picture>, columns: int) returns (r: Result<array2<Rgba>>)
    ensures r.Failure? <==> MergeError(images, columns).Some?
    ensures r.Failure? ==> r.error == MergeError(images, columns).value
    ensures r.Success? ==> fresh(r.value) && IsTileset(images, columns, Snapshot(r.value))
  {
    var tileSize := DetermineTileSize(images);
    if tileSize.Failure? {
      return Failure(tileSize.error);
    }
    var tile := tileSize.value;
    var tilesetSize := DetermineFinalSize(tile, columns, |images|);
    if tilesetSize.Failure? {
      return Failure(tilesetSize.error);
    }
    var canvas := New(tilesetSize.value.width, tilesetSize.value.height);
    if canvas.Failure? {
      return Failure(canvas.error);
    }
    var tileset := canvas.value;
    CanvasSign(tile, columns, |images|);
    var pasted := PasteTiles(tileset, images, columns, tile);
    if pasted.Failure? {
      return Failure(pasted.error);
    }
    NoMergeErrorWhenAllFit(images, columns);
    GridCanvasIsTileset(images, columns, tileset);
    return Success(tileset);
  }

  /** What `tileset.save(outfile)` hands to the encoder: the path and the finished pixels. */
  datatype SavedFile = SavedFile(path: string, image: Picture)

  /**
   * `merge_tiles`: generate the tileset and save it under `outfile`; on
   * any error nothing is saved.
   */
  method MergeTiles(images: seq<Picture>, outfile: string, columns: int) returns (r: Result<SavedFile>)
    ensures r.Failure? <==> MergeError(images, columns).Some?
    ensures r.Failure? ==> r.error == MergeError(images, columns).value
    ensures r.Success? ==> r.value.path == outfile && IsTileset(images, columns, r.value.image)
  {
    var tileset := GenerateTileset(images, columns);
    if tileset.Failure? {
      return Failure(tileset.error);
    }
    return Success(SavedFile(outfile, Snapshot(tileset.value)));
  }
}
