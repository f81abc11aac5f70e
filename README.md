# pytmm tileset merge, modelled in Dafny

pytmm merges a list of tile images into one tileset (sprite sheet). Every
image is centred, without scaling, in a tile as large as the largest image.
The tiles are then pasted into a transparent RGBA canvas in input order,
`column_count` tiles to a row: tile `i` goes to
`((i mod c) * tile_w, (i div c) * tile_h)`. This project models that core,
`pytmm/pytmm/merge.py`, as the code is written, including its failures. It
proves what the code guarantees and where it fails.

Files:

- `errors.dfy` (`Errors`): the exceptions a merge can raise and the
  `Result` type that carries them. An exception ends the merge and nothing
  is saved.
- `imaging.dfy` (`Imaging`): the Pillow operations the merge uses.
  - A decoded source image is a value (`Picture`, rows of RGBA pixels).
  - The buffers Pillow allocates and writes are `array2<Rgba>` values
    indexed `[y, x]`: `Image.new` (`New`), `image.copy()` (`Copy`), and
    `paste` with a 2-tuple box (`Paste`) or a 4-tuple box (`PasteBox`).
  - `Paste` overwrites without blending and clips whatever falls outside
    the target.
  - `PasteBox` refuses a box whose size differs from the source's
    ("images do not match").
- `merge.dfy` (`Merge`): the four functions of `merge.py` and
  `merge_tiles`, written as the code has them.
  - The files are replaced by a sequence of decoded images. The two passes
    over `images()` become two loops over that sequence.
  - Python's `//` and `%` round toward negative infinity (`FloorDiv`,
    `FloorMod`). This matters for a negative column count.
  - `GridPixel` is the reference definition of the finished canvas: the
    pixel the centred image of the covering cell shows, or transparent.
    The compositor is proved against it.
- `intended.dfy` (`Intended`): the two places where the code evidently
  means something else (see Findings). The corrected compositor is proved
  to return every image, centred, in its own cell.

Outcomes of a merge, as written:

| input | outcome |
|---|---|
| no images | `TupleIndexOutOfRange` (`xys[0]`, line 30) |
| `column_count == 0` | `ZeroDivision` (line 52) |
| a negative column count and tiles wider than 0 | a canvas of negative width, which `Image.new` refuses (`NegativeSize`) |
| any image 2 or more pixels narrower or lower than the tile | `ImagesDoNotMatch` (line 77) |
| anything else | the tileset |

## Model

| member | source | states |
|---|---|---|
| `Imaging.New` | pytmm/pytmm/merge.py:70 | `Image.new("RGBA", size, (0, 0, 0, 0))` returns a fresh buffer of exactly that size, fully transparent. A negative size is refused. |
| `Imaging.Copy` | pytmm/pytmm/merge.py:77 | `image.copy()` returns a fresh buffer holding the image's pixels. |
| `Imaging.Paste` | pytmm/pytmm/merge.py:111 | A 2-tuple paste overwrites exactly the target pixels under the placed source with the source's pixels. Every other pixel keeps its old value, and parts outside the target are clipped. |
| `Imaging.PasteBox` | pytmm/pytmm/merge.py:77 | A 4-tuple paste succeeds exactly when the box is as wide and as high as the source, and then acts as a 2-tuple paste at its corner. Otherwise it fails with "images do not match" and leaves the target unchanged. |
| `Imaging.Snapshot` | pytmm/pytmm/merge.py:125 | The pixels handed to `save` are the buffer's pixels, at the buffer's size. |
| `Merge.FloorDiv` | pytmm/pytmm/merge.py:52 | Python's `//`: the quotient rounded toward negative infinity, so the remainder has the divisor's sign. |
| `Merge.FloorMod` | pytmm/pytmm/merge.py:107 | Python's `%`: lies in `[0, c)` for a positive divisor and in `(c, 0]` for a negative one. |
| `Merge.Max` | pytmm/pytmm/merge.py:30 | `max` of a non-empty tuple is at least every element and is one of them. |
| `Merge.TileSize` | pytmm/pytmm/merge.py:11-30 | The tile size is the bounding box of the images: no image is wider or higher, and some image has exactly that width and some exactly that height. |
| `Merge.DetermineTileSize` | pytmm/pytmm/merge.py:25-30 | The loop over the images yields that bounding box. With no image it fails at the `xys[0]` index. |
| `Merge.RowCount` | pytmm/pytmm/merge.py:52 | The row count is at least 1. With at least as many tiles as columns, it is the number of completely filled rows. |
| `Merge.DetermineFinalSize` | pytmm/pytmm/merge.py:33-54 | Computing the tileset size fails with a division by zero exactly when `column_count` is 0. |
| `Merge.CanvasWidthFitsEveryColumn` | pytmm/pytmm/merge.py:49-50 | The canvas is as wide as its widest row: every tile's cell ends at or before the right edge, and the last cell of the first row ends exactly on it. |
| `Merge.CellRowOnCanvas` | pytmm/pytmm/merge.py:52-53 | A cell is either wholly on the canvas or wholly below it. It is on the canvas exactly when its tile is in the first row or in a completely filled row. |
| `Merge.PartialRowIsClipped` | pytmm/pytmm/merge.py:52 | With more tiles than columns and a partly filled last row, the last tile's cell starts at or below the canvas's bottom edge. |
| `Merge.CentreOffset` | pytmm/pytmm/merge.py:73-76 | When the image fits, the centring offset is non-negative and offset plus image size is at most the tile size. The odd pixel of padding goes to the right or bottom. |
| `Merge.BoxFitsOnlyWithoutPadding` | pytmm/pytmm/merge.py:77 | The 4-tuple box of line 77 has the image's size exactly when each tile side is the image's side or one pixel longer. |
| `Merge.ResizeAndCentre` | pytmm/pytmm/merge.py:57-78 | Fails exactly when the size is negative (`Image.new`) or the box of line 77 does not fit (`paste`). Otherwise it returns a fresh buffer of the requested size holding the image centred on transparency. |
| `Merge.CellOfPixel` | pytmm/pytmm/merge.py:105-110 | A pixel lies in the cell of tile `i` exactly when its column `x div tile_w` (below `c`) and row `y div tile_h` give `row * c + column == i`. The in-cell offsets are then `x mod tile_w` and `y mod tile_h`. |
| `Merge.CellsAreDisjoint` | pytmm/pytmm/merge.py:103-111 | The cells of distinct tiles share no pixel, so no tile overwrites another. |
| `Merge.CoveredPixelShowsItsTile` | pytmm/pytmm/merge.py:103-111 | Inside tile `i`'s cell the grid shows image `i` centred in a tile, at the pixel's offset within the cell. |
| `Merge.UncoveredPixelIsTransparent` | pytmm/pytmm/merge.py:102-111 | A pixel in no image's cell stays transparent. |
| `Merge.PastingTileChangesOnlyItsCell` | pytmm/pytmm/merge.py:103-111 | After tiles `0..i-1` are in place, pasting tile `i` changes exactly the pixels of cell `i`. |
| `Merge.PasteTile` | pytmm/pytmm/merge.py:105-111 | Pasting centred image `i` at the corner of its cell turns a canvas showing the grid of images `0..i-1` into one showing the grid of images `0..i`. |
| `Merge.PasteTiles` | pytmm/pytmm/merge.py:103-112 | The second pass succeeds exactly when every image's line-77 box fits. It then leaves the canvas showing the whole grid. Otherwise it fails with "images do not match". |
| `Merge.CanvasSign` | pytmm/pytmm/merge.py:49-54 | The canvas width is negative exactly when the column count is negative and the tiles have width. A canvas with any pixel column has positive columns and tile width, and any pixel row needs a positive tile height. |
| `Merge.NegativeSizeOnlyWithNegativeColumns` | pytmm/pytmm/merge.py:50 | Allocating the canvas fails as negative exactly when `column_count < 0` and some image has width. |
| `Merge.PaddedImageFailsTheMerge` | pytmm/pytmm/merge.py:77 | Any image 2 or more pixels narrower or lower than the tile makes the whole merge fail with "images do not match". |
| `Merge.GenerateTileset` | pytmm/pytmm/merge.py:81-113 | Fails exactly when, and with the error that, the layout or a paste at line 77 raises. Otherwise it returns a fresh canvas of the computed size whose every pixel is the grid's: image `i` centred in cell `i`, transparent elsewhere, clipped at the edges. |
| `Merge.MergeTiles` | pytmm/pytmm/merge.py:116-125 | Saves the tileset under the given path exactly when generating it succeeds. On any error nothing is saved. |
| `Intended.CentrePad` | pytmm/pytmm/merge.py:57-78 | With the 2-tuple box `(w_offset, h_offset)`, centring fails only on a negative size and always yields the centred image. |
| `Intended.CentredImageRoundTrip` | pytmm/pytmm/merge.py:71-77 | When the image fits, each of its pixels reappears at its centring offset, inside the tile. |
| `Intended.RowCountCeil` | pytmm/pytmm/merge.py:52 | The rounded-up row count holds every tile and leaves no row empty: `(rows - 1) * c < count <= rows * c`. |
| `Intended.DetermineFinalSizeIntended` | pytmm/pytmm/merge.py:49-54 | Fails exactly when `column_count` is 0. The width is the width as written. |
| `Intended.EveryCellOnIntendedCanvas` | pytmm/pytmm/merge.py:52-53 | With rows rounded up, every pixel of every tile's cell lies on the canvas. |
| `Intended.GenerateTilesetIntended` | pytmm/pytmm/merge.py:81-113 | With both corrections the merge fails only while computing the layout. It returns a canvas whose every pixel is the grid's. |
| `Intended.IntendedCellRoundTrip` | pytmm/pytmm/merge.py:103-111 | Cropping cell `i` of the corrected tileset by the same tile size and offsets gives back image `i` centred in a tile, pixel for pixel. |
| `Intended.AsWrittenTilesetDropsLastTile` | pytmm/pytmm/merge.py:52 | In the tileset as written, with a partly filled last row after the first, no pixel of the last tile's cell lies on the canvas. |

## Left out

- `pytmm/pytmm/cli.py` is not part of this model. It is a `click` command
  group whose only logic turns `FileNotFoundError` into a user-facing file
  error.
- Opening, decoding and encoding images (`Image.open`, `tileset.save`),
  `abspath`, and `image.close()` are left out. They are file I/O in a
  foreign library. The model takes the decoded images as input, and
  `MergeTiles` returns the path and pixels it would save.
- A missing or undecodable file is left out for the same reason.
- The lazy generator factory of line 98 is left out. It changes memory use
  only, and both passes read the same sequence.
- Pillow's conversion of non-RGBA sources during `paste` is left out.
  Every pixel is an RGBA value.
- `Merge.ResizeAndCentre`: takes the source image as a value. That the
  source is never mutated holds by construction, not by a frame condition
  on a buffer.
- Where the project's design description and the code disagree, the model
  follows the code:
  - An empty list raises `IndexError`, not a dedicated empty-input error.
  - A column count of 0 raises `ZeroDivisionError`.
  - A negative column count is not rejected up front. It fails only when
    the canvas width comes out negative.
  - There is no option to tolerate truncated images.
  - Five images in three columns give a 30 x 10 canvas, not 30 x 20.

## Findings

| source | as written | input that shows it | evidently intended | confidence | as-written member | corrected member |
|---|---|---|---|---|---|---|
| pytmm/pytmm/merge.py:77 | `paste` gets the 4-tuple box `(w_offset, h_offset, image_w, image_h)`. That box is only `image_w - w_offset` wide and `image_h - h_offset` high, so Pillow refuses every image that needs padding. | a 6 x 4 image merged with a 10 x 10 image: the tile is 10 x 10, the offsets are (2, 3), the box is 4 x 1, and the merge fails with "images do not match" | paste at the 2-tuple box `(w_offset, h_offset)`, centring the image | high; not executed | `Merge.PaddedImageFailsTheMerge` | `Intended.CentrePad` |
| pytmm/pytmm/merge.py:52 | `row_count = max(1, tile_count // column_count)` rounds down, so a partly filled last row after the first gets no canvas rows | 7 tiles of 10 x 10 in 3 columns: the canvas is 30 x 20, and tile 6's cell starts at y = 20, so it is clipped away entirely | round up: `max(1, -(-tile_count // column_count))` | high; not executed | `Merge.PartialRowIsClipped` | `Intended.EveryCellOnIntendedCanvas` |
