/** The crop boxes of the stencil, one per PDF page, and the nested loop
    that emits them. */
module Pages {

  /** A crop rectangle in pixels, as PIL's `crop((left, top, right, bottom))`
      takes it: `left` and `top` inclusive, `right` and `bottom` exclusive. */
  datatype Box = Box(left: int, top: int, right: int, bottom: int)

  /** The box cut for the tile in row `r` and column `col`: one tile in
      size, starting `col` tiles across and `r` tiles down, and ending
      exactly where the boxes of column `col + 1` and of row `r + 1` start. */
  function CropBox(r: int, col: int, tileW: int, tileH: int): (b: Box)
    ensures b.right - b.left == tileW && b.bottom - b.top == tileH
    ensures b.left == col * tileW && b.top == r * tileH
    ensures b.right == (col + 1) * tileW && b.bottom == (r + 1) * tileH
  {
    MulSucc(col, tileW);
    MulSucc(r, tileH);
    var left := col * tileW;
    var top := r * tileH;
    Box(left, top, left + tileW, top + tileH)
  }

  /** The first `n` boxes of row `r`, left to right. */
  function RowPrefix(r: int, n: nat, tileW: int, tileH: int): seq<Box> {
    seq(n, col => CropBox(r, col, tileW, tileH))
  }

  /** The pages of a plan with `rows` rows of `cols` tiles: row after row,
      each row left to right. There are pages exactly when both counts are
      positive. */
  function PagePlan(rows: nat, cols: nat, tileW: int, tileH: int): (p: seq<Box>)
    ensures p == [] <==> rows == 0 || cols == 0
    decreases rows
  {
    if rows == 0 then []
    else PagePlan(rows - 1, cols, tileW, tileH) + RowPrefix(rows - 1, cols, tileW, tileH)
  }

  /** Emits the pages as the source does: `for r in range(rows)`, within
      it `for col in range(cols)`, one box and one page per step. */
  method EmitPages(rows: nat, cols: nat, tileW: int, tileH: int) returns (pages: seq<Box>)
    ensures pages == PagePlan(rows, cols, tileW, tileH)
  {
    pages := [];
    for r := 0 to rows
      invariant pages == PagePlan(r, cols, tileW, tileH)
    {
      PagePlanLength(r, cols, tileW, tileH);
      for col := 0 to cols
        invariant |pages| == r * cols + col
        invariant pages == PagePlan(r, cols, tileW, tileH) + RowPrefix(r, col, tileW, tileH)
      {
        var left := col * tileW;
        var top := r * tileH;
        var right := left + tileW;
        var bottom := top + tileH;
        assert RowPrefix(r, col + 1, tileW, tileH)
            == RowPrefix(r, col, tileW, tileH) + [Box(left, top, right, bottom)];
        pages := pages + [Box(left, top, right, bottom)];
      }
    }
  }

  /** A plan has exactly `rows * cols` pages. */
  lemma {:induction false} PagePlanLength(rows: nat, cols: nat, tileW: int, tileH: int)
    ensures |PagePlan(rows, cols, tileW, tileH)| == rows * cols
  {
    if rows > 0 {
      PagePlanLength(rows - 1, cols, tileW, tileH);
      assert (rows - 1) * cols + cols == rows * cols;
    }
  }

  /** Division by `cols` recovers row and column from a row-major index. */
  lemma DivModRowMajor(q: int, c: int, cols: int)
    requires cols > 0 && 0 <= c < cols
    ensures (q * cols + c) / cols == q && (q * cols + c) % cols == c
  {
    var k := q * cols + c;
    var d := k / cols - q;
    assert cols * d == c - k % cols;
    if d > 0 {
      assert false;
    } else if d < 0 {
      assert false;
    }
  }

  /** A row-major index below `rows * cols` splits into a row below `rows`
      and a column below `cols`. */
  lemma RowMajorSplit(rows: nat, cols: nat, k: nat)
    requires k < rows * cols
    ensures cols > 0 && 0 <= k / cols < rows && 0 <= k % cols < cols
    ensures k == (k / cols) * cols + k % cols
  {
  }

  lemma MulMono(a: int, b: int, t: int)
    requires a <= b && t >= 0
    ensures a * t <= b * t
  {
  }

  /** Tile `c` of `n` tiles of size `t` spans `[c * t, c * t + t)`, inside `[0, limit]`. */
  lemma SpanWithin(c: int, n: int, t: int, limit: int)
    requires 0 <= c < n && 0 <= t && n * t <= limit
    ensures 0 <= c * t && c * t + t <= limit
  {
    MulMono(0, c, t);
    MulMono(c + 1, n, t);
  }

  /** Tile `a` ends where or before tile `b` starts. */
  lemma SpanBefore(a: int, b: int, t: int)
    requires a < b && 0 <= t
    ensures a * t + t <= b * t
  {
    MulMono(a + 1, b, t);
  }

  lemma MulSucc(a: int, t: int)
    ensures (a + 1) * t == a * t + t
  {
  }

  /** The pages of the first `rows - 1` rows keep their places in the plan of `rows` rows. */
  lemma PlanPrefixAt(rows: nat, cols: nat, tileW: int, tileH: int, k: nat)
    requires rows > 0 && k < |PagePlan(rows - 1, cols, tileW, tileH)|
    ensures k < |PagePlan(rows, cols, tileW, tileH)|
    ensures PagePlan(rows, cols, tileW, tileH)[k] == PagePlan(rows - 1, cols, tileW, tileH)[k]
  {
  }

  /** The last row of the plan follows the earlier rows, left to right. */
  lemma PlanLastRowAt(rows: nat, cols: nat, tileW: int, tileH: int, c: nat)
    requires rows > 0 && c < cols
    ensures |PagePlan(rows - 1, cols, tileW, tileH)| + c < |PagePlan(rows, cols, tileW, tileH)|
    ensures PagePlan(rows, cols, tileW, tileH)[|PagePlan(rows - 1, cols, tileW, tileH)| + c]
            == CropBox(rows - 1, c, tileW, tileH)
  {
  }

  /** Page `k` is the tile in row `k / cols` and column `k % cols`. */
  lemma {:induction false} PagePlanAt(rows: nat, cols: nat, tileW: int, tileH: int, k: nat)
    requires k < rows * cols
    ensures |PagePlan(rows, cols, tileW, tileH)| == rows * cols
    ensures PagePlan(rows, cols, tileW, tileH)[k] == CropBox(k / cols, k % cols, tileW, tileH)
  {
    assert rows > 0;
    MulSucc(rows - 1, cols);
    PagePlanLength(rows, cols, tileW, tileH);
    PagePlanLength(rows - 1, cols, tileW, tileH);
    var before := (rows - 1) * cols;
    if k < before {
      PagePlanAt(rows - 1, cols, tileW, tileH, k);
      PlanPrefixAt(rows, cols, tileW, tileH, k);
    } else {
      var c := k - before;
      assert c < cols;
      DivModRowMajor(rows - 1, c, cols);
      PlanLastRowAt(rows, cols, tileW, tileH, c);
    }
  }

  /** Box `b` lies inside a `w` by `h` image. */
  predicate Within(b: Box, w: int, h: int) {
    0 <= b.left <= b.right <= w && 0 <= b.top <= b.bottom <= h
  }

  /** Pixel `(x, y)` lies in box `b`. */
  predicate Contains(b: Box, x: int, y: int) {
    b.left <= x < b.right && b.top <= y < b.bottom
  }

  /** Pixel `(x, y)` lies on some page. */
  predicate Covered(pages: seq<Box>, x: int, y: int) {
    exists k :: 0 <= k < |pages| && Contains(pages[k], x, y)
  }

  /** Boxes `a` and `b` share no pixel: one ends where or before the other starts. */
  predicate Disjoint(a: Box, b: Box) {
    a.right <= b.left || b.right <= a.left || a.bottom <= b.top || b.bottom <= a.top
  }

  /** Page `k` is the tile in row `k / cols` and column `k % cols`. */
  predicate RowMajor(pages: seq<Box>, cols: nat, tileW: int, tileH: int) {
    forall k :: 0 <= k < |pages| ==> cols > 0 && pages[k] == CropBox(k / cols, k % cols, tileW, tileH)
  }

  /** Every page lies inside a `w` by `h` image and is one tile in size. */
  predicate AllWithin(pages: seq<Box>, w: int, h: int, tileW: int, tileH: int) {
    forall k :: 0 <= k < |pages| ==>
      Within(pages[k], w, h) && pages[k].right - pages[k].left == tileW && pages[k].bottom - pages[k].top == tileH
  }

  /** No two pages share a pixel. */
  predicate PairwiseDisjoint(pages: seq<Box>) {
    forall i, j :: 0 <= i < |pages| && 0 <= j < |pages| && i != j ==> Disjoint(pages[i], pages[j])
  }

  /** Every pixel of the `w` by `h` area at the origin lies on a page. */
  ghost predicate CoversArea(pages: seq<Box>, w: int, h: int) {
    forall x, y :: 0 <= x < w && 0 <= y < h ==> Covered(pages, x, y)
  }

  /** No pixel right of column `w` or below row `h` lies on a page. */
  ghost predicate MissesBeyond(pages: seq<Box>, w: int, h: int) {
    forall x, y :: (x >= w || y >= h) ==> !Covered(pages, x, y)
  }

  /** When the tiles fit the image, every box lies inside it and is one tile in size. */
  lemma PagesWithin(rows: nat, cols: nat, tileW: int, tileH: int, imgW: int, imgH: int, k: nat)
    requires 0 <= tileW && cols * tileW <= imgW
    requires 0 <= tileH && rows * tileH <= imgH
    requires k < rows * cols
    ensures |PagePlan(rows, cols, tileW, tileH)| == rows * cols
    ensures Within(PagePlan(rows, cols, tileW, tileH)[k], imgW, imgH)
    ensures PagePlan(rows, cols, tileW, tileH)[k].right - PagePlan(rows, cols, tileW, tileH)[k].left == tileW
    ensures PagePlan(rows, cols, tileW, tileH)[k].bottom - PagePlan(rows, cols, tileW, tileH)[k].top == tileH
  {
    PagePlanAt(rows, cols, tileW, tileH, k);
    RowMajorSplit(rows, cols, k);
    SpanWithin(k % cols, cols, tileW, imgW);
    SpanWithin(k / cols, rows, tileH, imgH);
  }

  /** Distinct pages never share a pixel. */
  lemma PagesDisjoint(rows: nat, cols: nat, tileW: int, tileH: int, i: nat, j: nat)
    requires 0 <= tileW && 0 <= tileH
    requires i < rows * cols && j < rows * cols && i != j
    ensures |PagePlan(rows, cols, tileW, tileH)| == rows * cols
    ensures Disjoint(PagePlan(rows, cols, tileW, tileH)[i], PagePlan(rows, cols, tileW, tileH)[j])
  {
    PagePlanAt(rows, cols, tileW, tileH, i);
    PagePlanAt(rows, cols, tileW, tileH, j);
    RowMajorSplit(rows, cols, i);
    RowMajorSplit(rows, cols, j);
    var ri, ci, rj, cj := i / cols, i % cols, j / cols, j % cols;
    if ci < cj {
      SpanBefore(ci, cj, tileW);
    } else if cj < ci {
      SpanBefore(cj, ci, tileW);
    } else if ri < rj {
      SpanBefore(ri, rj, tileH);
    } else {
      assert rj < ri;
      SpanBefore(rj, ri, tileH);
    }
  }

  /** The tile in row `r` and column `c` is page `r * cols + c`. */
  lemma PageAtCell(rows: nat, cols: nat, tileW: int, tileH: int, r: nat, c: nat)
    requires r < rows && c < cols
    ensures r * cols + c < rows * cols
    ensures |PagePlan(rows, cols, tileW, tileH)| == rows * cols
    ensures PagePlan(rows, cols, tileW, tileH)[r * cols + c] == CropBox(r, c, tileW, tileH)
  {
    SpanWithin(r, rows, cols, rows * cols);
    PagePlanAt(rows, cols, tileW, tileH, r * cols + c);
    DivModRowMajor(r, c, cols);
  }

  /** Within a row, a page's right edge is the next page's left edge. */
  lemma PagesAdjacentInRow(rows: nat, cols: nat, tileW: int, tileH: int, r: nat, c: nat)
    requires r < rows && c + 1 < cols
    ensures r * cols + c + 1 < rows * cols == |PagePlan(rows, cols, tileW, tileH)|
    ensures var p, k := PagePlan(rows, cols, tileW, tileH), r * cols + c;
            p[k].right == p[k + 1].left && p[k].top == p[k + 1].top && p[k].bottom == p[k + 1].bottom
  {
    PageAtCell(rows, cols, tileW, tileH, r, c);
    PageAtCell(rows, cols, tileW, tileH, r, c + 1);
    MulSucc(c, tileW);
  }

  /** Within a column, a page's bottom edge is the top edge of the page one
      row further on, `cols` pages later. */
  lemma PagesAdjacentInColumn(rows: nat, cols: nat, tileW: int, tileH: int, r: nat, c: nat)
    requires r + 1 < rows && c < cols
    ensures r * cols + c + cols < rows * cols == |PagePlan(rows, cols, tileW, tileH)|
    ensures var p, k := PagePlan(rows, cols, tileW, tileH), r * cols + c;
            p[k].bottom == p[k + cols].top && p[k].left == p[k + cols].left && p[k].right == p[k + cols].right
  {
    PageAtCell(rows, cols, tileW, tileH, r, c);
    PageAtCell(rows, cols, tileW, tileH, r + 1, c);
    MulSucc(r, cols);
    MulSucc(r, tileH);
  }

  /** The page of the tile in row `r` and column `c` holds every pixel of that tile. */
  lemma CellOnPage(rows: nat, cols: nat, tileW: int, tileH: int, r: nat, c: nat, x: int, y: int)
    requires r < rows && c < cols
    requires c * tileW <= x < c * tileW + tileW && r * tileH <= y < r * tileH + tileH
    ensures r * cols + c < rows * cols == |PagePlan(rows, cols, tileW, tileH)|
    ensures Contains(PagePlan(rows, cols, tileW, tileH)[r * cols + c], x, y)
    ensures Covered(PagePlan(rows, cols, tileW, tileH), x, y)
  {
    PageAtCell(rows, cols, tileW, tileH, r, c);
  }

  /** With non-empty tiles, every pixel of the `cols * tileW` by
      `rows * tileH` area lies on some page. */
  lemma PagesCover(rows: nat, cols: nat, tileW: int, tileH: int, x: int, y: int)
    requires 0 < tileW && 0 < tileH
    requires 0 <= x < cols * tileW && 0 <= y < rows * tileH
    ensures Covered(PagePlan(rows, cols, tileW, tileH), x, y)
  {
    var r, c := y / tileH, x / tileW;
    TileOf(x, cols, tileW);
    TileOf(y, rows, tileH);
    CellOnPage(rows, cols, tileW, tileH, r, c, x, y);
  }

  /** Pixel `x` below `n * t` lies in tile `x / t`, which is below `n`. */
  lemma TileOf(x: int, n: int, t: int)
    requires 0 < t && 0 <= x < n * t
    ensures 0 <= x / t < n
    ensures (x / t) * t <= x < (x / t) * t + t
  {
  }

  /** Pixels right of column `cols * tileW` or below row `rows * tileH`
      lie on no page. */
  lemma PagesMissMargin(rows: nat, cols: nat, tileW: int, tileH: int, x: int, y: int, k: nat)
    requires 0 <= tileW && 0 <= tileH
    requires x >= cols * tileW || y >= rows * tileH
    requires k < rows * cols
    ensures |PagePlan(rows, cols, tileW, tileH)| == rows * cols
    ensures !Contains(PagePlan(rows, cols, tileW, tileH)[k], x, y)
  {
    PagesWithin(rows, cols, tileW, tileH, cols * tileW, rows * tileH, k);
  }
}
