# Stencil Maker: the mural tile planner

The stencil backend takes an uploaded picture, a target mural width in
centimetres and a colour filter. It returns a PDF with one A4 page per tile
of the picture. This project models the planning part of that request
handler (`generate_stencil` in `stencil-backend/main.py`) in Dafny and proves
properties of it:

- **Filter dispatch.** `"bw"` selects grayscale. `"outline"` selects a
  conversion to luminance followed by edge detection. Any other string
  leaves the image as it is. The image operations are opaque tags, and none
  of them changes the image size.
- **Sheet grid.** The mural height is the target width times the image's
  aspect ratio `imgH / imgW`. The number of columns is
  `floor(width / 21) + 1` and the number of rows is `floor(height / 29.7) + 1`,
  for a portrait A4 sheet of 21 × 29.7 cm.
- **Tile size.** `tileW = imgW // cols` and `tileH = imgH // rows`, using
  Python's floor division.
- **Pages.** A nested loop over rows and then columns cuts one crop box
  `(left, top, right, bottom)` per tile. Each box becomes one PDF page.
  The model keeps the sequence of boxes as the list of pages.

The modules follow that structure. `Filters` (filters.dfy) holds the
dispatch. `SheetGrid` (grid.dfy) holds the arithmetic. `Pages` (pages.dfy)
holds the crop boxes, the loop (`EmitPages`, a method with loop invariants)
and the function that specifies it (`PagePlan`). `Stencil` (stencil.dfy)
holds the handler.

Python floats are modelled by Dafny's exact reals. Python's integer `//`
rounds toward minus infinity, while Dafny's `/` is Euclidean, so it is
written out as `FloorDiv`. Of the ways the handler can fail, the model covers the divisions by zero:

- in the aspect ratio, for an image of width 0;
- in `img_w // cols`, when the target width lies in [-21, 0) and so gives 0 columns;
- in `img_h // rows`, on a width outside [-21, 0), when the derived height
  lies in [-29.7, 0) and so gives 0 rows. The column division runs first,
  so a width in [-21, 0) fails on the columns whatever the height.

These failures are the `Failure` values of `Stencil.PlanLayout`, not
preconditions. A width below -21 cm gives a negative column count. The
request still fails with `ZeroRows` when the derived height lies in
[-29.7, 0); `Stencil.NegativeWidthStillFailsOnRows` shows a width of -30 cm
on a 2 × 1 image doing this. Otherwise `range` yields nothing and the
stencil has no pages.

The code computes the sheet count as `floor(width / sheet) + 1`, not as the
ceiling `ceil(width / sheet)` one might expect, and the model follows the
code. The two agree except when the width is an exact
multiple of the sheet size. There the code takes one sheet more: a 21 cm
mural gets two columns, and a 0 cm mural gets one column instead of none.
`SheetGrid.ColsVersusCeiling` and `SheetGrid.EdgeCaseCounts` prove these
facts.

## Model

| member | source | states |
|---|---|---|
| `Filters.SelectFilter` | stencil-backend/main.py:33-36 | `"bw"` selects black-and-white, `"outline"` selects outline, and every other string selects no filter (each as an if-and-only-if) |
| `Filters.Pipeline` | stencil-backend/main.py:34-36 | colour applies no operation; grayscale appears exactly for black-and-white and edge detection exactly for outline; the outline converts to luminance first and detects edges last |
| `Filters.ApplyFilter` | stencil-backend/main.py:32-36 | the filter keeps the image size; `"bw"` appends grayscale, `"outline"` appends convert-to-L then find-edges; the image is unchanged exactly when the string is neither |
| `SheetGrid.TargetHeightCm` | stencil-backend/main.py:43-45 | the mural height is in the image's proportions: `height * imgW == width * imgH` |
| `SheetGrid.FloorDivReal` | stencil-backend/main.py:49-50 | `int(x // s)` is the floor of `x / s`: `s*q <= x < s*(q+1)` |
| `SheetGrid.GridDims` | stencil-backend/main.py:43-50 | columns bracket the width, `21*(cols-1) <= width < 21*cols`; rows bracket the derived height, `29.7*(rows-1) <= height < 29.7*rows`; `cols >= 1` iff the width is non-negative; `rows >= 1` iff the width is non-negative or the image height is 0 |
| `SheetGrid.SheetCountUnique` | stencil-backend/main.py:49-50 | the bracket determines the sheet count: two counts that both satisfy it are equal |
| `SheetGrid.ColsCharacterised` | stencil-backend/main.py:49 | the column count is `n` exactly when `21*(n-1) <= width < 21*n` |
| `SheetGrid.RowsCharacterised` | stencil-backend/main.py:44-50 | the row count is `n` exactly when `29.7*(n-1) <= height < 29.7*n` on the derived height |
| `SheetGrid.ColsVersusCeiling` | stencil-backend/main.py:49 | floor-plus-one gives `ceil(width/21) + 1` exactly when the width is a multiple of 21, and `ceil(width/21)` exactly otherwise |
| `SheetGrid.EdgeCaseCounts` | stencil-backend/main.py:49-50 | a width of exactly one sheet gives 2 columns where the ceiling rule gives 1; a width of 0 gives a 1 × 1 grid where the ceiling rule gives 0 |
| `SheetGrid.FloorDiv` | stencil-backend/main.py:52-53 | Python's integer `a // b` is the floor of `a / b`, for positive and for negative divisors |
| `SheetGrid.TileSize` | stencil-backend/main.py:52-53 | for positive counts the tiles are non-negative and `tileW*cols <= imgW < tileW*cols + cols`, and likewise for rows: under `cols` pixels on the right and under `rows` at the bottom are left over |
| `SheetGrid.EmptyTile` | stencil-backend/main.py:52-53 | a tile has zero width exactly when there are more columns than pixels, and likewise for height |
| `Pages.CropBox` | stencil-backend/main.py:60-63 | the box of row `r` and column `col` ends exactly where the next ones start: `right == (col+1)*tileW` is the left edge of the box in column `col+1`, and `bottom == (r+1)*tileH` is the top edge of the box in row `r+1`; it is one tile in size, starting at `(col*tileW, r*tileH)` |
| `Pages.PagePlan` | stencil-backend/main.py:58-63 | the reference page sequence, row after row and each row left to right, that the loop is proved equal to; it is empty exactly when `rows` or `cols` is 0 |
| `Pages.EmitPages` | stencil-backend/main.py:58-75 | the nested loop emits exactly the page plan: each row in turn, and within it each column left to right |
| `Pages.PagePlanLength` | stencil-backend/main.py:58-59 | the plan has exactly `rows*cols` pages |
| `Pages.PagePlanAt` | stencil-backend/main.py:58-63 | page `k` is the crop box of row `k / cols` and column `k % cols` (row-major order) |
| `Pages.PageAtCell` | stencil-backend/main.py:58-63 | the tile in row `r` and column `c` is page `r*cols + c` |
| `Pages.PagesWithin` | stencil-backend/main.py:60-63 | when the tiles fit, every box satisfies `0 <= left <= right <= imgW` and `0 <= top <= bottom <= imgH`, and is `tileW` wide and `tileH` high |
| `Pages.PagesDisjoint` | stencil-backend/main.py:60-63 | two distinct pages never share a pixel |
| `Pages.PagesAdjacentInRow` | stencil-backend/main.py:60-62 | within a row, a page's right edge is the next page's left edge, at the same top and bottom |
| `Pages.PagesAdjacentInColumn` | stencil-backend/main.py:61-63 | a page's bottom edge is the top edge of the page `cols` positions later, at the same left and right |
| `Pages.PagesCover` | stencil-backend/main.py:58-66 | with non-empty tiles, every pixel of the `cols*tileW` by `rows*tileH` area lies on some page |
| `Pages.PagesMissMargin` | stencil-backend/main.py:52-66 | no page contains a pixel right of `cols*tileW` or below `rows*tileH` |
| `Stencil.RangeCount` | stencil-backend/main.py:58-59 | the count is the length of what `range(n)` yields, so a negative `n` gives 0 |
| `Stencil.RangeValuesAt` | stencil-backend/main.py:58-59 | `range(n)` yields `0, 1, ..., n-1` in order, and nothing for `n <= 0` |
| `Stencil.PlanLayout` | stencil-backend/main.py:43-53 | an image width of 0 fails in the aspect ratio; a target width in [-21, 0) fails with 0 columns; otherwise a height in [-29.7, 0) fails with 0 rows; a non-negative width on an image of positive width always succeeds with at least one sheet each way |
| `Stencil.NegativeWidthStillFailsOnRows` | stencil-backend/main.py:49-53 | a width of -30 cm on a 2 × 1 image gives `Grid(-1, 0)` and fails with `ZeroRows`, so a negative column count does not by itself mean an empty stencil |
| `Stencil.GenerateStencil` | stencil-backend/main.py:29-76 | of the failures the source can raise, models only the three divisions by zero: it returns an error exactly when the layout does, with the same error (failures inside the decoding and JPEG-encoding library calls are not modelled). On success: the filtered image; `range(rows)*range(cols)` pages in row-major order; every box inside the image and one tile in size; boxes pairwise disjoint; for a non-negative width, at least one page, full coverage of the tiled area, and nothing covered in the leftover strip |

## Left out

- Image decoding, pixel data, the grayscale and edge filters, cropping pixels and JPEG encoding are library calls. Filters are opaque tags and an image is its size.
- An empty tile (more columns than pixels) is kept as a zero-size box. What PIL and the JPEG encoder do with it is not modelled.
- `Stencil.GenerateStencil`: failures inside the library calls are not modelled, so its error if-and-only-if covers only the three divisions by zero. Decoding at `main.py:30` can reject the upload, and JPEG encoding at `main.py:70` raises for an image mode JPEG cannot store (an RGBA or palette image under the colour filter) and, in current PIL, for an empty tile; the model returns `Ok` with those pages.
- The PDF is only its sequence of pages. Drawing, scaling to A4 in points and saving are not modelled.
- HTTP routing, CORS setup, the UUID file name and the file response are framework glue and are not modelled.
- Floating point: exact reals stand in for Python floats. Results can differ from binary floats where the width or height sits on a multiple of 21 or 29.7, and `29.7` itself is not exact in binary. NaN and infinite widths are not modelled.
- `my-stencil-app/src/App.jsx` is form state and an HTTP upload with no computation. It is not part of this model.
