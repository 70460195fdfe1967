/** The sheet-grid arithmetic of the stencil generator: how many A4 sheets
    across and down a mural of a given width needs, and how many image
    pixels go onto each sheet. Python floats are modelled by exact reals. */
module SheetGrid {

  /** A4 portrait sheet, in centimetres. */
  const SheetWidthCm: real := 21.0
  const SheetHeightCm: real := 29.7

  /** Number of sheets across and down. The source applies Python's
      `range` to these, so negative values are possible and mean "none". */
  datatype Grid = Grid(cols: int, rows: int)

  /** Pixel size of one tile. */
  datatype Tile = Tile(width: int, height: int)

  /** Height of the mural: the target width scaled by the image's
      aspect ratio `imgH / imgW` (true division). */
  function TargetHeightCm(targetWidthCm: real, imgW: nat, imgH: nat): (h: real)
    requires imgW > 0
    ensures h * imgW as real == targetWidthCm * imgH as real
  {
    targetWidthCm * (imgH as real / imgW as real)
  }

  /** Python's `x // s` on floats followed by `int(...)`: the floor of `x / s`. */
  function FloorDivReal(x: real, s: real): (q: int)
    requires s > 0.0
    ensures s * q as real <= x < s * (q + 1) as real
  {
    var f := (x / s).Floor;
    assert x == s * (x / s);
    assert x / s < (f + 1) as real;
    ScaleStrict(s, f as real, x / s);
    ScaleStrict(s, x / s, (f + 1) as real);
    assert x < s * (f + 1) as real;
    f
  }

  /** Sheets across and down: `floor(width / 21) + 1` and
      `floor(height / 29.7) + 1`. Each count is the unique integer whose
      sheets, less one, fit inside the dimension and whose sheets strictly
      exceed it; so a dimension that is an exact multiple of the sheet
      gets one more sheet than it fills. */
  function GridDims(targetWidthCm: real, imgW: nat, imgH: nat): (g: Grid)
    requires imgW > 0
    ensures SheetWidthCm * (g.cols - 1) as real <= targetWidthCm < SheetWidthCm * g.cols as real
    ensures SheetHeightCm * (g.rows - 1) as real <= TargetHeightCm(targetWidthCm, imgW, imgH)
                                          < SheetHeightCm * g.rows as real
    ensures g.cols >= 1 <==> targetWidthCm >= 0.0
    ensures g.rows >= 1 <==> targetWidthCm >= 0.0 || imgH == 0
  {
    var h := TargetHeightCm(targetWidthCm, imgW, imgH);
    assert h >= 0.0 <==> targetWidthCm >= 0.0 || imgH == 0 by {
      SignOfHeight(targetWidthCm, imgW, imgH);
    }
    Grid(FloorDivReal(targetWidthCm, SheetWidthCm) + 1, FloorDivReal(h, SheetHeightCm) + 1)
  }

  lemma SignOfHeight(targetWidthCm: real, imgW: nat, imgH: nat)
    requires imgW > 0
    ensures TargetHeightCm(targetWidthCm, imgW, imgH) >= 0.0 <==> targetWidthCm >= 0.0 || imgH == 0
  {
  }

  lemma ScaleStrict(s: real, a: real, b: real)
    requires s > 0.0
    ensures a <= b ==> s * a <= s * b
    ensures a < b ==> s * a < s * b
  {
  }

  /** The count of sheets needed for a dimension `x` is the only integer
      `n` with `s * (n - 1) <= x < s * n`. */
  lemma {:induction false} SheetCountUnique(x: real, s: real, n: int, m: int)
    requires s > 0.0
    requires s * (n - 1) as real <= x < s * n as real
    requires s * (m - 1) as real <= x < s * m as real
    ensures n == m
  {
    if n < m {
      ScaleStrict(s, n as real, (m - 1) as real);
    } else if m < n {
      ScaleStrict(s, m as real, (n - 1) as real);
    }
  }

  /** The columns are exactly the count characterised above. */
  lemma ColsCharacterised(targetWidthCm: real, imgW: nat, imgH: nat, n: int)
    requires imgW > 0
    ensures GridDims(targetWidthCm, imgW, imgH).cols == n
            <==> SheetWidthCm * (n - 1) as real <= targetWidthCm < SheetWidthCm * n as real
  {
  }

  /** The rows are exactly the count characterised above, on the derived height. */
  lemma RowsCharacterised(targetWidthCm: real, imgW: nat, imgH: nat, n: int)
    requires imgW > 0
    ensures GridDims(targetWidthCm, imgW, imgH).rows == n
            <==> SheetHeightCm * (n - 1) as real <= TargetHeightCm(targetWidthCm, imgW, imgH)
                 < SheetHeightCm * n as real
  {
  }

  /** The ceiling rule `ceil(x / s)`, an independent reference for the sheet count. */
  function CeilDivReal(x: real, s: real): (q: int)
    requires s > 0.0
    ensures s * (q - 1) as real < x <= s * q as real
  {
    -FloorDivReal(-x, s)
  }

  /** Floor-plus-one agrees with the ceiling rule except where the width is
      an exact multiple of the sheet width, where it takes one sheet more
      (a zero width gets one column instead of none). */
  lemma ColsVersusCeiling(targetWidthCm: real, imgW: nat, imgH: nat)
    requires imgW > 0
    ensures var cols := GridDims(targetWidthCm, imgW, imgH).cols;
            var ceil := CeilDivReal(targetWidthCm, SheetWidthCm);
            (cols == ceil + 1 <==> SheetWidthCm * ceil as real == targetWidthCm)
            && (cols == ceil <==> SheetWidthCm * ceil as real != targetWidthCm)
  {
  }

  /** A mural exactly one sheet wide is given two columns, and a mural of
      zero width one sheet, where the ceiling rule gives one and none. */
  lemma {:induction false} EdgeCaseCounts(imgW: nat, imgH: nat)
    requires imgW > 0
    ensures GridDims(SheetWidthCm, imgW, imgH).cols == 2 && CeilDivReal(SheetWidthCm, SheetWidthCm) == 1
    ensures GridDims(0.0, imgW, imgH) == Grid(1, 1) && CeilDivReal(0.0, SheetWidthCm) == 0
  {
  }

  /** Python's `a // b` on integers: the floor of the true quotient, also
      for a negative divisor (Dafny's `/` is Euclidean and differs there). */
  function FloorDiv(a: int, b: int): (q: int)
    requires b != 0
    ensures b > 0 ==> b * q <= a < b * q + b
    ensures b < 0 ==> b * q >= a > b * q + b
  {
    if b > 0 then a / b else (-a) / (-b)
  }

  /** `tile_w = img_w // cols` and `tile_h = img_h // rows`. */
  function TileSize(imgW: nat, imgH: nat, g: Grid): (t: Tile)
    requires g.cols != 0 && g.rows != 0
    ensures g.cols > 0 ==> 0 <= t.width && t.width * g.cols <= imgW < t.width * g.cols + g.cols
    ensures g.rows > 0 ==> 0 <= t.height && t.height * g.rows <= imgH < t.height * g.rows + g.rows
  {
    var w := FloorDiv(imgW, g.cols);
    var h := FloorDiv(imgH, g.rows);
    assert g.cols > 0 ==> 0 <= w by {
      if g.cols > 0 && w < 0 { MulNegative(g.cols, w); }
    }
    assert g.rows > 0 ==> 0 <= h by {
      if g.rows > 0 && h < 0 { MulNegative(g.rows, h); }
    }
    Tile(w, h)
  }

  lemma MulNegative(b: int, q: int)
    requires b > 0 && q < 0
    ensures b * q + b <= 0
  {
  }

  /** A tile is empty in width exactly when there are more columns than
      pixels, and likewise in height. */
  lemma EmptyTile(imgW: nat, imgH: nat, g: Grid)
    requires g.cols > 0 && g.rows > 0
    ensures TileSize(imgW, imgH, g).width == 0 <==> imgW < g.cols
    ensures TileSize(imgW, imgH, g).height == 0 <==> imgH < g.rows
  {
  }
}
