/** The request handler that turns an image and a target mural width into
    a stencil: filter, sheet grid, tile size, and one cropped page per tile. */
module Stencil {
  import opened Filters
  import opened SheetGrid
  import opened Pages

  /** The three places where the handler divides by zero and Python raises
      `ZeroDivisionError`. */
  datatype Failure =
    | ZeroImageWidth  // aspect ratio `img_h / img_w`
    | ZeroColumns     // `img_w // cols`
    | ZeroRows        // `img_h // rows`

  datatype Result<T> = Ok(value: T) | Err(error: Failure)

  /** The sheet grid and the pixel size of a tile. */
  datatype Layout = Layout(grid: Grid, tile: Tile)

  /** A finished stencil: the filtered image, its layout, and the crop box
      of each PDF page in page order. */
  datatype StencilPlan = StencilPlan(image: Image, layout: Layout, pages: seq<Box>)

  /** The values Python's `range(n)` yields, in order. */
  ghost function RangeValues(n: int): seq<int>
    decreases if n < 0 then 0 else n
  {
    if n <= 0 then [] else RangeValues(n - 1) + [n - 1]
  }

  /** The number of values Python's `range(n)` yields; a negative `n`
      yields none. */
  function RangeCount(n: int): (m: nat)
    ensures m == |RangeValues(n)|
  {
    RangeValuesAt(n);
    if n < 0 then 0 else n
  }

  /** `range(n)` yields `0, 1, ..., n - 1`, and nothing when `n` is not positive. */
  lemma {:induction false} RangeValuesAt(n: int)
    ensures |RangeValues(n)| == if n < 0 then 0 else n
    ensures forall i :: 0 <= i < |RangeValues(n)| ==> RangeValues(n)[i] == i
    decreases if n < 0 then 0 else n
  {
    if n > 0 {
      RangeValuesAt(n - 1);
    }
  }

  /** Grid and tile size for a target width and an image size, or the
      division by zero the source runs into. A non-negative width on an
      image of positive width always succeeds, with at least one sheet
      each way. */
  function PlanLayout(targetWidthCm: real, imgW: nat, imgH: nat): (res: Result<Layout>)
    ensures res == Err(ZeroImageWidth) <==> imgW == 0
    ensures imgW > 0 ==> (res == Err(ZeroColumns) <==> -SheetWidthCm <= targetWidthCm < 0.0)
    ensures imgW > 0 && !(-SheetWidthCm <= targetWidthCm < 0.0) ==>
              (res == Err(ZeroRows)
               <==> -SheetHeightCm <= TargetHeightCm(targetWidthCm, imgW, imgH) < 0.0)
    ensures imgW > 0 && targetWidthCm >= 0.0 ==>
              res.Ok? && res.value.grid.cols >= 1 && res.value.grid.rows >= 1
    ensures res.Ok? ==> imgW > 0 && res.value.grid == GridDims(targetWidthCm, imgW, imgH)
                        && res.value.grid.cols != 0 && res.value.grid.rows != 0
                        && res.value.tile == TileSize(imgW, imgH, res.value.grid)
  {
    if imgW == 0 then Err(ZeroImageWidth)
    else
      var g := GridDims(targetWidthCm, imgW, imgH);
      if g.cols == 0 then Err(ZeroColumns)
      else if g.rows == 0 then Err(ZeroRows)
      else Ok(Layout(g, TileSize(imgW, imgH, g)))
  }

  /** A width below -21 cm gives a negative column count and still fails
      in `img_h // rows` when the derived height is in [-29.7, 0): here a
      width of -30 on a 2 by 1 image, whose height is -15. */
  lemma NegativeWidthStillFailsOnRows()
    ensures GridDims(-30.0, 2, 1) == Grid(-1, 0)
    ensures PlanLayout(-30.0, 2, 1) == Err(ZeroRows)
  {
  }

  /** `generate_stencil`: applies the filter, plans the grid on the
      filtered image's size and emits one crop box per page, rows top to
      bottom and each row left to right. The boxes are one tile in size,
      lie inside the image, never overlap, cover the image up to a strip
      narrower than `cols` pixels on the right and `rows` pixels at the
      bottom, and miss that strip. */
  method GenerateStencil(img: Image, targetWidthCm: real, filterType: string) returns (res: Result<StencilPlan>)
    ensures res.Err? <==> PlanLayout(targetWidthCm, img.width, img.height).Err?
    ensures res.Err? ==> res.error == PlanLayout(targetWidthCm, img.width, img.height).error
    ensures res.Ok? ==> res.value.image == ApplyFilter(filterType, img)
                        && PlanLayout(targetWidthCm, img.width, img.height) == Ok(res.value.layout)
    ensures res.Ok? ==>
              var g, t, pages := res.value.layout.grid, res.value.layout.tile, res.value.pages;
              |pages| == RangeCount(g.rows) * RangeCount(g.cols)
              && RowMajor(pages, RangeCount(g.cols), t.width, t.height)
              && AllWithin(pages, img.width, img.height, t.width, t.height)
              && PairwiseDisjoint(pages)
    ensures res.Ok? && targetWidthCm >= 0.0 ==>
              var g, t, pages := res.value.layout.grid, res.value.layout.tile, res.value.pages;
              |pages| == g.rows * g.cols >= 1
              && img.width - g.cols * t.width < g.cols && img.height - g.rows * t.height < g.rows
              && CoversArea(pages, g.cols * t.width, g.rows * t.height)
              && MissesBeyond(pages, g.cols * t.width, g.rows * t.height)
  {
    var image := ApplyFilter(filterType, img);
    var plan := PlanLayout(targetWidthCm, image.width, image.height);
    if plan.Err? {
      return Err(plan.error);
    }
    var g, t := plan.value.grid, plan.value.tile;
    var rows, cols := RangeCount(g.rows), RangeCount(g.cols);
    var pages := EmitPages(rows, cols, t.width, t.height);
    PagePlanLength(rows, cols, t.width, t.height);
    if rows > 0 && cols > 0 {
      forall k | 0 <= k < |pages|
        ensures pages[k] == CropBox(k / cols, k % cols, t.width, t.height)
        ensures Within(pages[k], img.width, img.height)
        ensures pages[k].right - pages[k].left == t.width && pages[k].bottom - pages[k].top == t.height
      {
        PagePlanAt(rows, cols, t.width, t.height, k);
        PagesWithin(rows, cols, t.width, t.height, img.width, img.height, k);
      }
      forall i, j | 0 <= i < |pages| && 0 <= j < |pages| && i != j
        ensures Disjoint(pages[i], pages[j])
      {
        PagesDisjoint(rows, cols, t.width, t.height, i, j);
      }
      if t.width > 0 && t.height > 0 {
        forall x, y | 0 <= x < g.cols * t.width && 0 <= y < g.rows * t.height
          ensures Covered(pages, x, y)
        {
          PagesCover(rows, cols, t.width, t.height, x, y);
        }
      }
      forall x, y | x >= g.cols * t.width || y >= g.rows * t.height
        ensures !Covered(pages, x, y)
      {
        forall k | 0 <= k < |pages|
          ensures !Contains(pages[k], x, y)
        {
          PagesMissMargin(rows, cols, t.width, t.height, x, y, k);
        }
      }
    }
    res := Ok(StencilPlan(image, plan.value, pages));
  }
}
