/** Sprite-sheet geometry: a near-square grid of uniform cells, each frame
    centred horizontally and resting on the bottom of its cell. */
module Packer {
  import opened Grids

  /** The outcome of an operation that can fail. */
  datatype Result<T> = Ok(value: T) | Err(error: string)

  /** The width and height of a frame. */
  datatype Size = Size(width: nat, height: nat)

  /** The layout of a sheet: a `cols` x `rows` grid of `cellW` x `cellH`
      cells on a `width` x `height` canvas, and the top-left corner at which
      each frame is pasted, in frame order. */
  datatype Sheet = Sheet(cols: nat, rows: nat, cellW: nat, cellH: nat,
                         width: nat, height: nat, positions: seq<Pixel>)

  /** The least `c` with `c * c >= n`: the ceiling of the square root. */
  function CeilSqrt(n: nat): (c: nat)
    ensures c * c >= n
    ensures c == 0 || (c - 1) * (c - 1) < n
  {
    CeilSqrtFrom(n, 0)
  }

  function CeilSqrtFrom(n: nat, c: nat): (r: nat)
    requires c == 0 || (c - 1) * (c - 1) < n
    ensures r * r >= n
    ensures r == 0 || (r - 1) * (r - 1) < n
    decreases n - c
  {
    if c * c >= n then c
    else
      assert c < n by {
        if c > 0 { MulMono(1, c, c); }
      }
      CeilSqrtFrom(n, c + 1)
  }

  lemma MulMono(a: int, b: int, c: nat)
    requires a <= b
    ensures a * c <= b * c
  {
  }

  /** No smaller count of columns gives enough cells: `CeilSqrt(n)` is the
      least such number. */
  lemma CeilSqrtLeast(n: nat, c: nat)
    requires c * c >= n
    ensures CeilSqrt(n) <= c
  {
    var s := CeilSqrt(n);
    if c < s {
      MulMono(c, s - 1, c);
      MulMono(c, s - 1, s - 1);
      assert false;
    }
  }

  /** The least `q` with `q * d >= n`: the ceiling of `n / d`. */
  function CeilDiv(n: nat, d: nat): (q: nat)
    requires d > 0
    ensures q * d >= n
    ensures q == 0 || (q - 1) * d < n
  {
    (n + d - 1) / d
  }

  /** The widest frame's width; 0 when there are no frames. */
  function MaxWidth(sizes: seq<Size>): (m: nat)
    ensures forall i :: 0 <= i < |sizes| ==> sizes[i].width <= m
    ensures |sizes| > 0 ==> exists i :: 0 <= i < |sizes| && sizes[i].width == m
  {
    if |sizes| == 0 then 0
    else
      var rest := MaxWidth(sizes[1..]);
      if sizes[0].width >= rest then sizes[0].width
      else
        assert exists i :: 0 <= i < |sizes| - 1 && sizes[1..][i].width == rest;
        rest
  }

  /** The tallest frame's height; 0 when there are no frames. */
  function MaxHeight(sizes: seq<Size>): (m: nat)
    ensures forall i :: 0 <= i < |sizes| ==> sizes[i].height <= m
    ensures |sizes| > 0 ==> exists i :: 0 <= i < |sizes| && sizes[i].height == m
  {
    if |sizes| == 0 then 0
    else
      var rest := MaxHeight(sizes[1..]);
      if sizes[0].height >= rest then sizes[0].height
      else
        assert exists i :: 0 <= i < |sizes| - 1 && sizes[1..][i].height == rest;
        rest
  }

  /** Where frame `i` of size `s` is pasted: its cell is column `i % cols`
      and row `i / cols`; inside the cell it is shifted right by half the
      spare width (rounded down) and down by all of the spare height. */
  function Place(i: nat, cols: nat, cellW: nat, cellH: nat, s: Size): Pixel
    requires cols > 0
  {
    Pixel((i % cols) * cellW + (cellW - s.width) / 2, (i / cols) * cellH + (cellH - s.height))
  }

  /** Lays out the frames. With no frames there is nothing to size the cells
      by and the layout fails. Otherwise the grid has the least square number
      of columns and the least number of rows that give a cell to every
      frame, the cells are as large as the largest frame, and frame `i` is
      pasted at `Place` in cell `i`. */
  function Build(sizes: seq<Size>): (r: Result<Sheet>)
    ensures r.Err? <==> |sizes| == 0
    ensures r.Ok? ==> var sh := r.value;
      && sh.cols == CeilSqrt(|sizes|) && sh.cols > 0
      && sh.rows == CeilDiv(|sizes|, sh.cols)
      && sh.cellW == MaxWidth(sizes) && sh.cellH == MaxHeight(sizes)
      && sh.width == sh.cols * sh.cellW && sh.height == sh.rows * sh.cellH
      && |sh.positions| == |sizes|
      && (forall i :: 0 <= i < |sizes| ==> sizes[i].width <= sh.cellW && sizes[i].height <= sh.cellH)
      && (forall i :: 0 <= i < |sizes| ==> sh.positions[i] == Place(i, sh.cols, sh.cellW, sh.cellH, sizes[i]))
  {
    if |sizes| == 0 then Err("max() arg is an empty sequence")
    else
      var cellW, cellH := MaxWidth(sizes), MaxHeight(sizes);
      var n := |sizes|;
      var cols := CeilSqrt(n);
      assert cols != 0;
      var rows := CeilDiv(n, cols);
      MulMono(0, cols, cellW);
      MulMono(0, rows, cellH);
      var positions := seq(n, i requires 0 <= i < n => Place(i, cols, cellW, cellH, sizes[i]));
      Ok(Sheet(cols, rows, cellW, cellH, cols * cellW, rows * cellH, positions))
  }

  /** `a` lies inside `b`. */
  predicate Inside(a: Box, b: Box) {
    b.minx <= a.minx && a.maxx <= b.maxx && b.miny <= a.miny && a.maxy <= b.maxy
  }

  /** `a` and `b` share no pixel: one lies wholly beside or above the other. */
  predicate Disjoint(a: Box, b: Box) {
    a.maxx <= b.minx || b.maxx <= a.minx || a.maxy <= b.miny || b.maxy <= a.miny
  }

  /** The cell in column `col` and row `row` of a grid of `w` x `h` cells. */
  function CellAt(col: nat, row: nat, w: nat, h: nat): Box {
    Box(col * w, row * h, col * w + w, row * h + h)
  }

  /** The cell of frame `i`: column `i % cols`, row `i / cols`. */
  function Cell(sh: Sheet, i: nat): Box
    requires sh.cols > 0
  {
    CellAt(i % sh.cols, i / sh.cols, sh.cellW, sh.cellH)
  }

  /** The canvas area frame `i` covers once pasted. */
  function FrameArea(sh: Sheet, sizes: seq<Size>, i: nat): Box
    requires i < |sizes| && |sh.positions| == |sizes|
  {
    var p := sh.positions[i];
    Box(p.x, p.y, p.x + sizes[i].width, p.y + sizes[i].height)
  }

  lemma MulStrict(a: int, b: int, c: nat)
    requires a * c < b * c
    ensures a < b
  {
    if a >= b {
      MulMono(b, a, c);
    }
  }

  /** Frame `i` of `n <= rows * cols` frames falls in one of the `rows` rows. */
  lemma RowInRange(i: nat, n: nat, cols: nat, rows: nat)
    requires cols > 0 && i < n <= rows * cols
    ensures i % cols < cols && i / cols < rows
  {
    var row := i / cols;
    assert row * cols <= i;
    MulStrict(row, rows, cols);
  }

  /** A cell whose column and row are in range lies inside the canvas. */
  lemma CellInCanvas(col: nat, row: nat, cols: nat, rows: nat, w: nat, h: nat)
    requires col < cols && row < rows
    ensures Inside(CellAt(col, row, w, h), Box(0, 0, cols * w, rows * h))
  {
    MulMono(col + 1, cols, w);
    MulMono(row + 1, rows, h);
  }

  /** A frame no larger than its cell, pasted at `Place`, lies in the cell,
      touches its bottom edge and is centred horizontally. */
  lemma PlaceInCellAt(i: nat, cols: nat, w: nat, h: nat, s: Size)
    requires cols > 0 && s.width <= w && s.height <= h
    ensures var p, cell := Place(i, cols, w, h, s), CellAt(i % cols, i / cols, w, h);
      var area := Box(p.x, p.y, p.x + s.width, p.y + s.height);
      && Inside(area, cell)
      && area.maxy == cell.maxy
      && area.minx - cell.minx <= cell.maxx - area.maxx <= area.minx - cell.minx + 1
  {
  }

  /** Frame `i` is pasted inside its own cell, which lies inside the canvas;
      it rests on the bottom edge of the cell and is centred horizontally,
      the odd spare column (if any) falling on the right. */
  lemma PlacedInCell(sizes: seq<Size>, i: nat)
    requires i < |sizes|
    ensures var sh := Build(sizes).value;
      var cell, area := Cell(sh, i), FrameArea(sh, sizes, i);
      && Inside(area, cell)
      && Inside(cell, Box(0, 0, sh.width, sh.height))
      && area.maxy == cell.maxy
      && area.minx - cell.minx <= cell.maxx - area.maxx <= area.minx - cell.minx + 1
  {
    var n := |sizes|;
    var cols := CeilSqrt(n);
    assert cols != 0;
    var rows, w, h := CeilDiv(n, cols), MaxWidth(sizes), MaxHeight(sizes);
    RowInRange(i, n, cols, rows);
    CellInCanvas(i % cols, i / cols, cols, rows, w, h);
    PlaceInCellAt(i, cols, w, h, sizes[i]);
  }

  /** Cells at different grid positions do not overlap. */
  lemma CellsApart(c1: nat, r1: nat, c2: nat, r2: nat, w: nat, h: nat)
    requires c1 != c2 || r1 != r2
    ensures Disjoint(CellAt(c1, r1, w, h), CellAt(c2, r2, w, h))
  {
    if r1 < r2 {
      MulMono(r1 + 1, r2, h);
    } else if r2 < r1 {
      MulMono(r2 + 1, r1, h);
    } else if c1 < c2 {
      MulMono(c1 + 1, c2, w);
    } else {
      MulMono(c2 + 1, c1, w);
    }
  }

  /** Different frame indices give different grid positions. */
  lemma DistinctCells(i: nat, j: nat, cols: nat)
    requires cols > 0 && i != j
    ensures 0 <= i / cols && 0 <= j / cols
    ensures i % cols != j % cols || i / cols != j / cols
  {
    assert i == (i / cols) * cols + i % cols;
    assert j == (j / cols) * cols + j % cols;
  }

  /** Different frames get different cells, and different cells do not
      overlap, so no two pasted frames overlap. */
  lemma PlacementsDisjoint(sizes: seq<Size>, i: nat, j: nat)
    requires i < |sizes| && j < |sizes| && i != j
    ensures var sh := Build(sizes).value;
      && Disjoint(Cell(sh, i), Cell(sh, j))
      && Disjoint(FrameArea(sh, sizes, i), FrameArea(sh, sizes, j))
  {
    var cols := CeilSqrt(|sizes|);
    assert cols != 0;
    var w, h := MaxWidth(sizes), MaxHeight(sizes);
    DistinctCells(i, j, cols);
    CellsApart(i % cols, i / cols, j % cols, j / cols, w, h);
    PlaceInCellAt(i, cols, w, h, sizes[i]);
    PlaceInCellAt(j, cols, w, h, sizes[j]);
  }

  /** With `(c - 1)^2 < n <= c^2` and `r` the least count with `r * c >= n`,
      `r` is `c` or `c - 1`. */
  lemma RowsNearCols(n: nat, c: nat, r: nat)
    requires c > 0 && (c - 1) * (c - 1) < n <= c * c
    requires r * c >= n && (r == 0 || (r - 1) * c < n)
    ensures r == c || r == c - 1
  {
    if r > c {
      MulMono(c, r - 1, c);
    }
    if r < c - 1 {
      MulMono(r, c - 2, c);
    }
  }

  /** With `r` the least count with `r * c >= n > 0`, frame `n - 1` is in
      row `r - 1`. */
  lemma LastInLastRow(n: nat, c: nat, r: nat)
    requires c > 0 && n > 0
    requires r * c >= n && (r == 0 || (r - 1) * c < n)
    ensures (n - 1) / c == r - 1
  {
    var last := (n - 1) / c;
    assert last * c <= n - 1;
    assert n - 1 < last * c + c;
    MulStrict(last, r, c);
    assert (last + 1) * c == last * c + c;
    MulStrict(r - 1, last + 1, c);
  }

  /** The grid is as square as it can be: the rows number the columns or one
      fewer, and the last row holds the last frame. */
  lemma GridNearSquare(sizes: seq<Size>)
    requires |sizes| > 0
    ensures var sh := Build(sizes).value;
      && (sh.rows == sh.cols || sh.rows == sh.cols - 1)
      && (|sizes| - 1) / sh.cols == sh.rows - 1
  {
    var n := |sizes|;
    var c := CeilSqrt(n);
    assert c != 0;
    var r := CeilDiv(n, c);
    RowsNearCols(n, c, r);
    LastInLastRow(n, c, r);
  }

  /** In a three-column grid of 10 x 10 cells, a 10 x 10 frame with index 3
      opens the second row. */
  lemma FourthOfThreeColumns()
    ensures Place(3, 3, 10, 10, Size(10, 10)) == Pixel(0, 10)
  {
  }

  /** Five frames need three columns. */
  lemma ColumnsForFive()
    ensures CeilSqrt(5) == 3
  {
    var c := CeilSqrt(5);
    CeilSqrtLeast(5, 3);
    if c < 3 {
      MulMono(c, 2, c);
      assert false;
    }
  }

  /** Five frames in three columns need two rows. */
  lemma RowsForFive()
    ensures CeilDiv(5, 3) == 2
  {
  }

  /** The largest of five 10 x 10 frames is 10 x 10. */
  lemma LargestOfFiveSquares(sizes: seq<Size>)
    requires sizes == [Size(10, 10), Size(10, 10), Size(10, 10), Size(10, 10), Size(10, 10)]
    ensures MaxWidth(sizes) == 10 && MaxHeight(sizes) == 10
  {
    var i :| 0 <= i < |sizes| && sizes[i].width == MaxWidth(sizes);
    var j :| 0 <= j < |sizes| && sizes[j].height == MaxHeight(sizes);
  }

  /** Five 10 x 10 frames: three columns, two rows, a 30 x 20 canvas, and the
      fourth frame at the start of the second row. */
  lemma FiveSquareFrames()
    ensures var sizes := [Size(10, 10), Size(10, 10), Size(10, 10), Size(10, 10), Size(10, 10)];
      && Build(sizes).Ok?
      && var sh := Build(sizes).value;
      && sh.cols == 3 && sh.rows == 2 && sh.width == 30 && sh.height == 20
      && sh.positions[3] == Pixel(0, 10)
  {
    var sizes := [Size(10, 10), Size(10, 10), Size(10, 10), Size(10, 10), Size(10, 10)];
    ColumnsForFive();
    RowsForFive();
    LargestOfFiveSquares(sizes);
    assert sizes[3] == Size(10, 10);
    FourthOfThreeColumns();
  }
}
