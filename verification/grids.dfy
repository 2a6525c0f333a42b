/** Pixel coordinates, rectangular grids (masks and images) and half-open
    bounding boxes: the vocabulary shared by every stage of the pipeline. */
module Grids {

  /** A pixel position: column `x`, row `y`. Positions may lie outside a
      grid; the flood fill pushes such neighbours and discards them later. */
  datatype Pixel = Pixel(x: int, y: int)

  /** Two pixels share an edge (4-connectivity; corner contact does not count). */
  predicate Adjacent4(p: Pixel, q: Pixel) {
    || (p.y == q.y && (p.x - q.x == 1 || q.x - p.x == 1))
    || (p.x == q.x && (p.y - q.y == 1 || q.y - p.y == 1))
  }

  /** The four edge neighbours of `p`, in the order the flood fill pushes them:
      right, left, down, up. They are exactly the pixels 4-adjacent to `p`. */
  function Neighbours(p: Pixel): (ns: seq<Pixel>)
    ensures |ns| == 4
  {
    [Pixel(p.x + 1, p.y), Pixel(p.x - 1, p.y), Pixel(p.x, p.y + 1), Pixel(p.x, p.y - 1)]
  }

  /** The pushed neighbours are exactly the 4-adjacent pixels. */
  lemma NeighboursAreAdjacent(p: Pixel, q: Pixel)
    ensures q in Neighbours(p) <==> Adjacent4(p, q)
  {
  }

  /** A `width` x `height` grid stored row by row: `cells[y][x]`. A
      transparency mask is a `Grid<bool>`, an image a `Grid` of pixel values. */
  datatype Grid<T> = Grid(width: nat, height: nat, cells: seq<seq<T>>) {

    /** Every row has exactly `width` entries and there are `height` rows. */
    predicate Valid() {
      && |cells| == height
      && forall y :: 0 <= y < |cells| ==> |cells[y]| == width
    }

    predicate Contains(p: Pixel) {
      0 <= p.x < width && 0 <= p.y < height
    }

    function At(p: Pixel): T
      requires Valid() && Contains(p)
    {
      cells[p.y][p.x]
    }
  }

  /** `p` is inside the mask and set (alpha > 0 at that pixel). */
  predicate Filled(mask: Grid<bool>, p: Pixel)
    requires mask.Valid()
  {
    mask.Contains(p) && mask.At(p)
  }

  /** The set of all filled pixels of a mask. */
  ghost function FilledPixels(mask: Grid<bool>): (s: set<Pixel>)
    requires mask.Valid()
    ensures forall p :: p in s <==> Filled(mask, p)
  {
    var s := set x: int, y: int | 0 <= y < mask.height && 0 <= x < mask.width && mask.cells[y][x] :: Pixel(x, y);
    assert forall p :: Filled(mask, p) ==> p == Pixel(p.x, p.y) && p in s;
    s
  }

  /** A box `(minx, miny, maxx, maxy)` with exclusive upper bounds, the
      convention image cropping uses. */
  datatype Box = Box(minx: int, miny: int, maxx: int, maxy: int) {

    /** Non-empty in both directions. */
    predicate WellFormed() {
      minx < maxx && miny < maxy
    }

    function Width(): int {
      maxx - minx
    }

    function Height(): int {
      maxy - miny
    }

    /** Bounding-box area, the quantity the noise filter compares. */
    function Area(): int {
      Width() * Height()
    }

    predicate Contains(p: Pixel) {
      minx <= p.x < maxx && miny <= p.y < maxy
    }

    /** The box lies inside a `width` x `height` image. */
    predicate Within(width: int, height: int) {
      0 <= minx && maxx <= width && 0 <= miny && maxy <= height
    }
  }
}
