/**
 * What pytmm/merge.py evidently means at the two places where the code as
 * written does something else: a 2-tuple paste box at line 77, so that
 * every image is centred rather than refused, and a row count rounded up
 * at line 52, so that a partly filled last row is not cut off.  With both
 * corrections a merge never fails once its layout is computed, and every
 * cell of the tileset gives back its image centred in a tile.
 */
module Intended {
  import opened Errors
  import opened Imaging
  import opened Merge

  /**
   * `resize_and_centre` pasting through the 2-tuple box
   * `(w_offset, h_offset)`: only a negative size is refused, and the buffer
   * holds the centred image.
   */
  method CentrePad(img: Picture, size: Size) returns (r: Result<array2<Rgba>>)
    ensures r.Failure? <==> size.width < 0 || size.height < 0
    ensures r.Failure? ==> r.error == NegativeSize
    ensures r.Success? ==> fresh(r.value) && r.value.Length0 == size.height && r.value.Length1 == size.width
    ensures r.Success? ==> forall y, x :: 0 <= y < size.height && 0 <= x < size.width ==>
      r.value[y, x] == CentredPixel(img, size.width, size.height, x, y)
  {
    var canvas := New(size.width, size.height);
    if canvas.Failure? {
      return Failure(canvas.error);
    }
    var copyCanvas := canvas.value;
    var spaceW, spaceH := size.width - img.width, size.height - img.height;
    var wOffset, hOffset := FloorDiv(spaceW, 2), FloorDiv(spaceH, 2);
    var copy := Copy(img);
    Paste(copyCanvas, copy, wOffset, hOffset);
    return Success(copyCanvas);
  }

  /**
   * Centring round trip: when the image fits, every one of its pixels
   * reappears at its centring offset, inside the target.
   */
  lemma CentredImageRoundTrip(img: Picture, width: int, height: int, u: int, v: int)
    requires img.width <= width && img.height <= height
    requires 0 <= u < img.width && 0 <= v < img.height
    ensures var x, y := CentreOffset(width, img.width) + u, CentreOffset(height, img.height) + v;
      && 0 <= x < width && 0 <= y < height
      && CentredPixel(img, width, height, x, y) == img.rows[v][u]
  {
    var left, top := CentreOffset(width, img.width), CentreOffset(height, img.height);
    assert Covers(left, top, img.width, img.height, left + u, top + v);
  }

  /** `max(1, -(-tile_count // column_count))`: enough rows for every tile, and no empty row. */
  function RowCountCeil(count: int, columns: int): (rows: int)
    requires columns != 0
    ensures rows >= 1
    ensures columns > 0 && count > 0 ==> (rows - 1) * columns < count <= rows * columns
  {
    var q := -FloorDiv(-count, columns);
    if q < 1 then 1 else q
  }

  /** `_determine_final_size` with the row count rounded up. */
  function DetermineFinalSizeIntended(tile: Size, columns: int, count: int): (r: Result<Size>)
    ensures r.Failure? <==> columns == 0
    ensures r.Failure? ==> r.error == ZeroDivision
    ensures r.Success? ==> r.value.width == DetermineFinalSize(tile, columns, count).value.width
  {
    if columns == 0 then Failure(ZeroDivision)
    else Success(Size(tile.width * Min(count, columns), RowCountCeil(count, columns) * tile.height))
  }

  /** With the row count rounded up, every pixel of every tile's cell lies on the canvas. */
  lemma EveryCellOnIntendedCanvas(tile: Size, columns: int, count: int, i: int, x: int, y: int)
    requires columns > 0 && tile.width > 0 && tile.height > 0 && 0 <= i < count
    requires InCell(columns, tile, i, x, y)
    ensures DetermineFinalSizeIntended(tile, columns, count).Success?
    ensures var canvas := DetermineFinalSizeIntended(tile, columns, count).value;
      0 <= x < canvas.width && 0 <= y < canvas.height
  {
    var row, rows := FloorDiv(i, columns), RowCountCeil(count, columns);
    CanvasWidthFitsEveryColumn(tile, columns, count, i);
    FloorDivUnique(i, columns, 0);
    if row < 0 {
      MulOrder(row, 0, columns);
    }
    MulOrder(0, FloorMod(i, columns), tile.width);
    MulOrder(0, row, tile.height);
    MulOrder(rows - 1, row, columns);
    MulOrder(row, rows, tile.height);
  }

  /** The layout with rounded-up rows, or the error raised while computing it. */
  function IntendedLayout(images: seq<Picture>, columns: int): Result<(Size, Size)> {
    if |images| == 0 then Failure(TupleIndexOutOfRange)
    else
      var tile := TileSize(images);
      var canvas := DetermineFinalSizeIntended(tile, columns, |images|);
      if canvas.Failure? then Failure(canvas.error)
      else if canvas.value.width < 0 || canvas.value.height < 0 then Failure(NegativeSize)
      else Success((tile, canvas.value))
  }

  /** `img` is the intended tileset: the rounded-up canvas, every pixel that of the grid. */
  ghost predicate IsIntendedTileset(images: seq<Picture>, columns: int, img: Picture) {
    && IntendedLayout(images, columns).Success?
    && var (tile, canvas) := IntendedLayout(images, columns).value;
    && img.width == canvas.width && img.height == canvas.height
    && forall y, x :: 0 <= y < img.height && 0 <= x < img.width ==>
      img.rows[y][x] == GridPixel(images, columns, tile, x, y)
  }

  /**
   * `_generate_tileset_from_files` with both corrections: it fails only
   * while computing the layout, never while pasting.
   */
  method GenerateTilesetIntended(images: seq<Picture>, columns: int) returns (r: Result<array2<Rgba>>)
    ensures r.Failure? <==> IntendedLayout(images, columns).Failure?
    ensures r.Failure? ==> r.error == IntendedLayout(images, columns).error
    ensures r.Success? ==> fresh(r.value) && IsIntendedTileset(images, columns, Snapshot(r.value))
  {
    var tileSize := DetermineTileSize(images);
    if tileSize.Failure? {
      return Failure(tileSize.error);
    }
    var tile := tileSize.value;
    var tilesetSize := DetermineFinalSizeIntended(tile, columns, |images|);
    if tilesetSize.Failure? {
      return Failure(tilesetSize.error);
    }
    var canvas := New(tilesetSize.value.width, tilesetSize.value.height);
    if canvas.Failure? {
      return Failure(canvas.error);
    }
    var tileset := canvas.value;
    CanvasSign(tile, columns, |images|);
    for i := 0 to |images|
      invariant ShowsGrid(tileset, images[..i], columns, tile)
    {
      var resized := CentrePad(images[i], tile);
      PasteTile(tileset, resized.value, images, columns, tile, i);
    }
    assert images[..|images|] == images;
    return Success(tileset);
  }

  /**
   * Round trip: cutting the cell of tile `i` out of the intended tileset,
   * by the same tile size and offsets, gives back image `i` centred in a
   * tile, pixel for pixel.
   */
  lemma IntendedCellRoundTrip(images: seq<Picture>, columns: int, img: Picture, i: int, u: int, v: int)
    requires IsIntendedTileset(images, columns, img) && 0 <= i < |images|
    requires 0 <= u < TileSize(images).width && 0 <= v < TileSize(images).height
    ensures columns > 0
    ensures var tile := TileSize(images);
      var x, y := FloorMod(i, columns) * tile.width + u, FloorDiv(i, columns) * tile.height + v;
      && 0 <= x < img.width && 0 <= y < img.height
      && img.rows[y][x] == CentredPixel(images[i], tile.width, tile.height, u, v)
  {
    var tile := TileSize(images);
    CanvasSign(tile, columns, |images|);
    var x, y := FloorMod(i, columns) * tile.width + u, FloorDiv(i, columns) * tile.height + v;
    assert InCell(columns, tile, i, x, y);
    EveryCellOnIntendedCanvas(tile, columns, |images|, i, x, y);
    CoveredPixelShowsItsTile(images, columns, tile, i, x, y);
  }

  /**
   * As written, by contrast, the last tile of a partly filled last row
   * never reaches the tileset: no pixel of it lies in that tile's cell.
   */
  lemma AsWrittenTilesetDropsLastTile(images: seq<Picture>, columns: int, img: Picture, x: int, y: int)
    requires IsTileset(images, columns, img)
    requires 0 < columns < |images| && FloorMod(|images|, columns) != 0
    requires 0 <= x < img.width && 0 <= y < img.height
    ensures !InCell(columns, TileSize(images), |images| - 1, x, y)
  {
    PartialRowIsClipped(TileSize(images), columns, |images|);
  }
}
