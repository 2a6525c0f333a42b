/** Connected-component segmentation: a row-major scan that flood-fills every
    unvisited filled pixel and keeps the boxes that pass the area filter. */
module Segmenter {
  import opened Grids
  import opened Connectivity
  import opened FloodFill

  /** The minimum bounding-box area used when no other value is given. */
  const DefaultMinArea: int := 50

  /** The boxes of `boxes`, in order, whose area reaches `minArea`
      (an area equal to `minArea` is kept). */
  function KeepLarge(boxes: seq<Box>, minArea: int): (kept: seq<Box>)
    ensures |kept| <= |boxes|
    ensures forall b :: b in kept <==> b in boxes && b.Area() >= minArea
  {
    if |boxes| == 0 then []
    else
      var last := boxes[|boxes| - 1];
      KeepLarge(boxes[..|boxes| - 1], minArea) + (if last.Area() >= minArea then [last] else [])
  }

  /** Every box of large enough area is kept as often as it occurs, and no
      other box is kept. */
  lemma {:induction false} KeepLargeCounts(boxes: seq<Box>, minArea: int)
    ensures forall b :: multiset(KeepLarge(boxes, minArea))[b] == if b.Area() >= minArea then multiset(boxes)[b] else 0
    decreases |boxes|
  {
    if |boxes| > 0 {
      var init, last := boxes[..|boxes| - 1], boxes[|boxes| - 1];
      assert boxes == init + [last];
      KeepLargeCounts(init, minArea);
    }
  }

  /** Filtering a concatenation filters each part and keeps them in order:
      the kept boxes appear in their input order. */
  lemma {:induction false} KeepLargeConcat(a: seq<Box>, b: seq<Box>, minArea: int)
    ensures KeepLarge(a + b, minArea) == KeepLarge(a, minArea) + KeepLarge(b, minArea)
    decreases |b|
  {
    if |b| > 0 {
      var init, last := b[..|b| - 1], b[|b| - 1];
      assert b == init + [last];
      assert a + b == (a + init) + [last];
      KeepLargeAppend(a + init, last, minArea);
      KeepLargeAppend(init, last, minArea);
      KeepLargeConcat(a, init, minArea);
    } else {
      assert a + b == a;
    }
  }

  /** The union of a sequence of pixel sets. */
  ghost function Union(sets: seq<set<Pixel>>): (u: set<Pixel>)
    ensures forall i :: 0 <= i < |sets| ==> sets[i] <= u
  {
    if |sets| == 0 then {} else Union(sets[..|sets| - 1]) + sets[|sets| - 1]
  }

  /** `seen` is closed under 4-adjacency among the filled pixels. */
  ghost predicate Closed(mask: Grid<bool>, seen: set<Pixel>)
    requires mask.Valid()
  {
    forall p, q :: p in seen && Adjacent4(p, q) && Filled(mask, q) ==> q in seen
  }

  /** What every fill of the scan discovered: `comps[i]` is the 4-connected
      component of the filled pixel `seeds[i]`, `found[i]` is its bounding box,
      and the components are pairwise disjoint. */
  ghost predicate Segmentation(mask: Grid<bool>, found: seq<Box>, comps: seq<set<Pixel>>, seeds: seq<Pixel>)
    requires mask.Valid()
  {
    && |found| == |comps| == |seeds|
    && (forall i :: 0 <= i < |found| ==> FoundComponent(mask, found, comps, seeds, i))
    && (forall i, j :: 0 <= i < j < |comps| ==> comps[i] !! comps[j])
  }

  /** The `i`-th fill found the component of `seeds[i]` and its bounding box. */
  ghost predicate FoundComponent(mask: Grid<bool>, found: seq<Box>, comps: seq<set<Pixel>>, seeds: seq<Pixel>, i: int)
    requires mask.Valid()
    requires 0 <= i < |found| == |comps| == |seeds|
  {
    ComponentOf(mask, comps[i], seeds[i]) && BoundingBox(found[i], comps[i])
  }

  /** A bounding box of a set of in-mask pixels is well formed and inside the mask. */
  lemma BoundingBoxInside(mask: Grid<bool>, b: Box, c: set<Pixel>)
    requires mask.Valid()
    requires BoundingBox(b, c)
    requires forall p :: p in c ==> Filled(mask, p)
    ensures b.WellFormed() && b.Within(mask.width, mask.height)
  {
    var lo :| lo in c && lo.x == b.minx;
    var hi :| hi in c && hi.x == b.maxx - 1;
    var top :| top in c && top.y == b.miny;
    var bottom :| bottom in c && bottom.y == b.maxy - 1;
    assert b.Contains(lo) && b.Contains(top);
  }

  /** The pixels newly visited by a fill started at an unvisited filled pixel
      form the component of that pixel, when the visited set was closed. */
  lemma FillFindsComponent(mask: Grid<bool>, seen: set<Pixel>, seen': set<Pixel>, seed: Pixel)
    requires mask.Valid()
    requires Closed(mask, seen)
    requires seed in seen' - seen
    requires forall p :: p in seen' - seen ==> Filled(mask, p)
    requires forall p :: p in seen' - seen ==> Reachable(seen' - seen, seed, p)
    requires forall p, q :: p in seen' - seen && Adjacent4(p, q) && Filled(mask, q) ==> q in seen'
    ensures ComponentOf(mask, seen' - seen, seed)
  {
    var c := seen' - seen;
    forall p, q | p in c && Adjacent4(p, q) && Filled(mask, q)
      ensures q in c
    {
      if q in seen {
        assert Adjacent4(q, p);
      }
    }
  }

  /** The loop invariant of the scan, apart from coverage. */
  ghost predicate ScanInv(mask: Grid<bool>, minArea: int, visited: set<Pixel>, boxes: seq<Box>,
                          found: seq<Box>, comps: seq<set<Pixel>>, seeds: seq<Pixel>)
    requires mask.Valid()
  {
    && (forall p :: p in visited ==> Filled(mask, p))
    && Closed(mask, visited)
    && visited == Union(comps)
    && Segmentation(mask, found, comps, seeds)
    && boxes == KeepLarge(found, minArea)
  }

  /** `p` comes before `q` in row-major order. */
  predicate ScanBefore(p: Pixel, q: Pixel) {
    p.y < q.y || (p.y == q.y && p.x < q.x)
  }

  /** The fills were started in row-major order, each at the first pixel of
      its component in that order. */
  ghost predicate DiscoveryOrder(comps: seq<set<Pixel>>, seeds: seq<Pixel>) {
    && |comps| == |seeds|
    && (forall i, j :: 0 <= i < j < |seeds| ==> ScanBefore(seeds[i], seeds[j]))
    && (forall i, p :: 0 <= i < |comps| && p in comps[i] ==> p == seeds[i] || ScanBefore(seeds[i], p))
  }

  /** Every seed so far comes before `(x, y)` in row-major order. */
  ghost predicate SeedsBefore(seeds: seq<Pixel>, x: int, y: int) {
    forall i :: 0 <= i < |seeds| ==> ScanBefore(seeds[i], Pixel(x, y))
  }

  /** The order invariant of the scan at position `(x, y)`. */
  ghost predicate ScanOrder(comps: seq<set<Pixel>>, seeds: seq<Pixel>, x: int, y: int) {
    DiscoveryOrder(comps, seeds) && SeedsBefore(seeds, x, y)
  }

  /** A fill started at the scan position, whose pixels were all unvisited,
      extends the discovery order. */
  lemma OrderGrows(mask: Grid<bool>, visited: set<Pixel>, comps: seq<set<Pixel>>, seeds: seq<Pixel>,
                   c: set<Pixel>, x: int, y: int)
    requires mask.Valid()
    requires ScanOrder(comps, seeds, x, y)
    requires CoveredBefore(mask, visited, x, y)
    requires forall p :: p in c ==> Filled(mask, p) && p !in visited
    ensures ScanOrder(comps + [c], seeds + [Pixel(x, y)], x + 1, y)
  {
    var comps', seeds' := comps + [c], seeds + [Pixel(x, y)];
    forall i, p | 0 <= i < |comps'| && p in comps'[i]
      ensures p == seeds'[i] || ScanBefore(seeds'[i], p)
    {
      if i == |comps| {
        assert !(p.y < y || (p.y == y && p.x < x));
      }
    }
  }

  /** Moving the scan position on keeps every seed before it. */
  lemma SeedsStep(comps: seq<set<Pixel>>, seeds: seq<Pixel>, x: int, y: int, width: int)
    requires ScanOrder(comps, seeds, x, y)
    ensures ScanOrder(comps, seeds, x + 1, y)
    ensures x >= width ==> ScanOrder(comps, seeds, 0, y + 1)
  {
  }

  /** Every filled pixel before `(x, y)` in row-major order is visited. */
  ghost predicate CoveredBefore(mask: Grid<bool>, visited: set<Pixel>, x: int, y: int)
    requires mask.Valid()
  {
    forall p :: Filled(mask, p) && (p.y < y || (p.y == y && p.x < x)) ==> p in visited
  }

  /** Visiting the pixel at `(x, y)` extends coverage by one position. */
  lemma CoverageStep(mask: Grid<bool>, visited: set<Pixel>, visited': set<Pixel>, x: int, y: int)
    requires mask.Valid()
    requires CoveredBefore(mask, visited, x, y) && visited <= visited'
    requires Filled(mask, Pixel(x, y)) ==> Pixel(x, y) in visited'
    ensures CoveredBefore(mask, visited', x + 1, y)
  {
    forall p | Filled(mask, p) && (p.y < y || (p.y == y && p.x < x + 1))
      ensures p in visited'
    {
      if p.y == y && p.x == x {
        assert p == Pixel(x, y);
      }
    }
  }

  /** A fully scanned row hands coverage on to the next row. */
  lemma CoverageNextRow(mask: Grid<bool>, visited: set<Pixel>, y: int)
    requires mask.Valid()
    requires CoveredBefore(mask, visited, mask.width, y)
    ensures CoveredBefore(mask, visited, 0, y + 1)
  {
  }

  lemma UnionAppend(sets: seq<set<Pixel>>, c: set<Pixel>)
    ensures Union(sets + [c]) == Union(sets) + c
  {
    assert (sets + [c])[..|sets|] == sets;
  }

  lemma KeepLargeAppend(boxes: seq<Box>, box: Box, minArea: int)
    ensures KeepLarge(boxes + [box], minArea) == KeepLarge(boxes, minArea) + (if box.Area() >= minArea then [box] else [])
  {
    assert (boxes + [box])[..|boxes|] == boxes;
  }

  lemma SegmentationGrows(mask: Grid<bool>, found: seq<Box>, comps: seq<set<Pixel>>, seeds: seq<Pixel>,
                          box: Box, c: set<Pixel>, seed: Pixel)
    requires mask.Valid()
    requires Segmentation(mask, found, comps, seeds)
    requires ComponentOf(mask, c, seed) && BoundingBox(box, c)
    requires forall i :: 0 <= i < |comps| ==> comps[i] !! c
    ensures Segmentation(mask, found + [box], comps + [c], seeds + [seed])
  {
    var found', comps', seeds' := found + [box], comps + [c], seeds + [seed];
    forall i | 0 <= i < |found'|
      ensures FoundComponent(mask, found', comps', seeds', i)
    {
      if i < |found| {
        assert FoundComponent(mask, found, comps, seeds, i);
      }
    }
  }

  lemma ClosedGrows(mask: Grid<bool>, visited: set<Pixel>, visited': set<Pixel>)
    requires mask.Valid()
    requires Closed(mask, visited) && visited <= visited'
    requires forall p, q :: p in visited' - visited && Adjacent4(p, q) && Filled(mask, q) ==> q in visited'
    ensures Closed(mask, visited')
  {
  }

  /** Recording one fill started at an unvisited filled pixel keeps the scan
      invariant. */
  lemma FillKeepsScanInv(mask: Grid<bool>, minArea: int, visited: set<Pixel>, boxes: seq<Box>,
                         found: seq<Box>, comps: seq<set<Pixel>>, seeds: seq<Pixel>,
                         seed: Pixel, visited': set<Pixel>, box: Box)
    requires mask.Valid()
    requires ScanInv(mask, minArea, visited, boxes, found, comps, seeds)
    requires visited <= visited'
    requires seed in visited' - visited
    requires forall p :: p in visited' - visited ==> Filled(mask, p)
    requires forall p :: p in visited' - visited ==> Reachable(visited' - visited, seed, p)
    requires forall p, q :: p in visited' - visited && Adjacent4(p, q) && Filled(mask, q) ==> q in visited'
    requires BoundingBox(box, visited' - visited)
    ensures ScanInv(mask, minArea, visited', boxes + (if box.Area() >= minArea then [box] else []),
                    found + [box], comps + [visited' - visited], seeds + [seed])
  {
    var c := visited' - visited;
    FillFindsComponent(mask, visited, visited', seed);
    assert forall i :: 0 <= i < |comps| ==> comps[i] !! c by {
      assert forall i :: 0 <= i < |comps| ==> comps[i] <= visited;
    }
    SegmentationGrows(mask, found, comps, seeds, box, c, seed);
    UnionAppend(comps, c);
    ClosedGrows(mask, visited, visited');
    assert visited' == visited + c;
    KeepLargeAppend(found, box, minArea);
  }

  /** Flood-fills from the unvisited filled pixel `(x, y)` and records the
      fill, keeping its box when the area reaches `minArea`. The scan
      invariant is kept, and coverage and the discovery order move past
      `(x, y)`. */
  method ScanSeed(mask: Grid<bool>, minArea: int, x: int, y: int, visited: set<Pixel>, boxes: seq<Box>,
                  ghost found: seq<Box>, ghost comps: seq<set<Pixel>>, ghost seeds: seq<Pixel>)
    returns (visited': set<Pixel>, boxes': seq<Box>,
             ghost found': seq<Box>, ghost comps': seq<set<Pixel>>, ghost seeds': seq<Pixel>)
    requires mask.Valid() && Filled(mask, Pixel(x, y)) && Pixel(x, y) !in visited
    requires ScanInv(mask, minArea, visited, boxes, found, comps, seeds)
    requires CoveredBefore(mask, visited, x, y) && ScanOrder(comps, seeds, x, y)
    ensures ScanInv(mask, minArea, visited', boxes', found', comps', seeds')
    ensures CoveredBefore(mask, visited', x + 1, y) && ScanOrder(comps', seeds', x + 1, y)
  {
    var p := Pixel(x, y);
    var box;
    visited', box := Fill(mask, visited, p);
    FillKeepsScanInv(mask, minArea, visited, boxes, found, comps, seeds, p, visited', box);
    OrderGrows(mask, visited, comps, seeds, visited' - visited, x, y);
    CoverageStep(mask, visited, visited', x, y);
    found', comps', seeds' := found + [box], comps + [visited' - visited], seeds + [p];
    if box.Area() >= minArea {
      boxes' := boxes + [box];
    } else {
      boxes' := boxes;
      assert boxes + [] == boxes;
    }
  }

  /** Scans row `y` from left to right: every filled pixel not yet visited
      seeds a flood fill. The scan invariant holds before and after, and
      coverage and the discovery order move on to the start of the next
      row. */
  method ScanRow(mask: Grid<bool>, minArea: int, y: int, visited: set<Pixel>, boxes: seq<Box>,
                 ghost found: seq<Box>, ghost comps: seq<set<Pixel>>, ghost seeds: seq<Pixel>)
    returns (visited': set<Pixel>, boxes': seq<Box>,
             ghost found': seq<Box>, ghost comps': seq<set<Pixel>>, ghost seeds': seq<Pixel>)
    requires mask.Valid() && 0 <= y < mask.height
    requires ScanInv(mask, minArea, visited, boxes, found, comps, seeds)
    requires CoveredBefore(mask, visited, 0, y) && ScanOrder(comps, seeds, 0, y)
    ensures ScanInv(mask, minArea, visited', boxes', found', comps', seeds')
    ensures CoveredBefore(mask, visited', 0, y + 1) && ScanOrder(comps', seeds', 0, y + 1)
  {
    visited', boxes', found', comps', seeds' := visited, boxes, found, comps, seeds;
    var x := 0;
    while x < mask.width
      invariant 0 <= x <= mask.width
      invariant ScanInv(mask, minArea, visited', boxes', found', comps', seeds')
      invariant CoveredBefore(mask, visited', x, y)
      invariant ScanOrder(comps', seeds', x, y)
    {
      var p := Pixel(x, y);
      if mask.At(p) && p !in visited' {
        visited', boxes', found', comps', seeds' := ScanSeed(mask, minArea, x, y, visited', boxes', found', comps', seeds');
      } else {
        CoverageStep(mask, visited', visited', x, y);
        SeedsStep(comps', seeds', x, y, mask.width);
      }
      x := x + 1;
    }
    CoverageNextRow(mask, visited', y);
    SeedsStep(comps', seeds', x, y, mask.width);
  }

  /** Scans the mask in row-major order; every filled pixel not yet visited
      seeds a flood fill, and the fill's box is kept when its area reaches
      `minArea`. `found`, `comps` and `seeds` record, for the proof, every
      fill in discovery order; `seen` is the final visited set. */
  method ScanBoxes(mask: Grid<bool>, minArea: int)
    returns (boxes: seq<Box>, ghost found: seq<Box>, ghost comps: seq<set<Pixel>>, ghost seeds: seq<Pixel>, ghost seen: set<Pixel>)
    requires mask.Valid()
    ensures boxes == KeepLarge(found, minArea)
    ensures Segmentation(mask, found, comps, seeds)
    ensures seen == Union(comps) == FilledPixels(mask)
    ensures DiscoveryOrder(comps, seeds)
    ensures forall b :: b in boxes ==> b.WellFormed() && b.Within(mask.width, mask.height) && b.Area() >= minArea
  {
    var visited: set<Pixel> := {};
    boxes, found, comps, seeds := [], [], [], [];
    var y := 0;
    while y < mask.height
      invariant 0 <= y <= mask.height
      invariant ScanInv(mask, minArea, visited, boxes, found, comps, seeds)
      invariant CoveredBefore(mask, visited, 0, y)
      invariant ScanOrder(comps, seeds, 0, y)
    {
      visited, boxes, found, comps, seeds := ScanRow(mask, minArea, y, visited, boxes, found, comps, seeds);
      y := y + 1;
    }
    seen := visited;
    assert seen == FilledPixels(mask);
    forall b | b in boxes
      ensures b.WellFormed() && b.Within(mask.width, mask.height)
    {
      var i :| 0 <= i < |found| && found[i] == b;
      assert FoundComponent(mask, found, comps, seeds, i);
      BoundingBoxInside(mask, b, comps[i]);
    }
  }
}
