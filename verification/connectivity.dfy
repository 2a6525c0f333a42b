/** Paths, 4-connected components and bounding boxes of pixel sets. */
module Connectivity {
  import opened Grids

  /** `path` walks from `a` to `b` in 4-adjacent steps, never leaving `s`. */
  ghost predicate Joins(path: seq<Pixel>, s: set<Pixel>, a: Pixel, b: Pixel) {
    && |path| >= 1
    && path[0] == a
    && path[|path| - 1] == b
    && (forall i :: 0 <= i < |path| ==> path[i] in s)
    && (forall i :: 0 <= i < |path| - 1 ==> Adjacent4(path[i], path[i + 1]))
  }

  /** `b` can be reached from `a` through edge-sharing pixels of `s`. */
  ghost predicate Reachable(s: set<Pixel>, a: Pixel, b: Pixel) {
    exists path :: Joins(path, s, a, b)
  }

  /** `c` is the 4-connected component of the filled pixel `seed`: it holds
      only filled pixels, each reachable from `seed` inside `c`, and no filled
      pixel sharing an edge with a member lies outside it. */
  ghost predicate ComponentOf(mask: Grid<bool>, c: set<Pixel>, seed: Pixel)
    requires mask.Valid()
  {
    && seed in c
    && (forall p :: p in c ==> Filled(mask, p))
    && (forall p, q :: p in c && Adjacent4(p, q) && Filled(mask, q) ==> q in c)
    && (forall p :: p in c ==> Reachable(c, seed, p))
  }

  /** `b` is the smallest half-open box holding every pixel of `c`: each of
      its four edges is touched by some pixel of `c`. */
  ghost predicate BoundingBox(b: Box, c: set<Pixel>) {
    && (forall p :: p in c ==> b.Contains(p))
    && (exists p :: p in c && p.x == b.minx)
    && (exists p :: p in c && p.x == b.maxx - 1)
    && (exists p :: p in c && p.y == b.miny)
    && (exists p :: p in c && p.y == b.maxy - 1)
  }

  /** A path stays a path when its pixel set grows. */
  lemma JoinsMonotone(path: seq<Pixel>, s: set<Pixel>, t: set<Pixel>, a: Pixel, b: Pixel)
    requires Joins(path, s, a, b)
    requires s <= t
    ensures Joins(path, t, a, b)
  {
  }

  /** One more edge-sharing step extends a path. */
  lemma JoinsExtend(path: seq<Pixel>, s: set<Pixel>, a: Pixel, b: Pixel, c: Pixel)
    requires Joins(path, s, a, b)
    requires Adjacent4(b, c) && c in s
    ensures Joins(path + [c], s, a, c)
  {
  }

  /** A component is exactly the set of filled pixels reachable from its seed
      through filled pixels: the definition pins down a unique set. */
  lemma ComponentIsReachableSet(mask: Grid<bool>, c: set<Pixel>, seed: Pixel, p: Pixel)
    requires mask.Valid()
    requires ComponentOf(mask, c, seed)
    ensures p in c <==> Reachable(FilledPixels(mask), seed, p)
  {
    if p in c {
      var path :| Joins(path, c, seed, p);
      JoinsMonotone(path, c, FilledPixels(mask), seed, p);
    }
    if Reachable(FilledPixels(mask), seed, p) {
      var path :| Joins(path, FilledPixels(mask), seed, p);
      PathStaysInComponent(mask, c, seed, path);
    }
  }

  /** Walking from the seed through filled pixels never leaves the component. */
  lemma {:induction false} PathStaysInComponent(mask: Grid<bool>, c: set<Pixel>, seed: Pixel, path: seq<Pixel>)
    requires mask.Valid()
    requires ComponentOf(mask, c, seed)
    requires |path| >= 1 && Joins(path, FilledPixels(mask), seed, path[|path| - 1])
    ensures forall i :: 0 <= i < |path| ==> path[i] in c
    decreases |path|
  {
    if |path| > 1 {
      var prefix := path[..|path| - 1];
      assert Joins(prefix, FilledPixels(mask), seed, prefix[|prefix| - 1]);
      PathStaysInComponent(mask, c, seed, prefix);
      assert path[|path| - 2] in c;
      assert Adjacent4(path[|path| - 2], path[|path| - 1]);
    }
  }

  /** A path that starts at a pixel with no neighbour in `s` cannot leave it. */
  lemma PathFromIsolated(path: seq<Pixel>, s: set<Pixel>, a: Pixel, b: Pixel)
    requires Joins(path, s, a, b)
    requires forall q :: q in s ==> !Adjacent4(a, q)
    ensures |path| == 1 && b == a
  {
    if |path| > 1 {
      FirstStep(path, s, a, b);
      assert false;
    }
  }

  /** The second pixel of a path shares an edge with the first and lies in `s`. */
  lemma FirstStep(path: seq<Pixel>, s: set<Pixel>, a: Pixel, b: Pixel)
    requires Joins(path, s, a, b) && |path| > 1
    ensures path[1] in s && Adjacent4(a, path[1])
  {
  }

  /** A seed without any filled edge neighbour is a component on its own. */
  lemma IsolatedComponent(mask: Grid<bool>, c: set<Pixel>, seed: Pixel)
    requires mask.Valid()
    requires ComponentOf(mask, c, seed)
    requires forall q :: Adjacent4(seed, q) ==> !Filled(mask, q)
    ensures c == {seed}
  {
    forall p | p in c
      ensures p == seed
    {
      var path :| Joins(path, c, seed, p);
      PathFromIsolated(path, c, seed, p);
    }
  }

  /** Two pixels that touch only at a corner are never joined: in the 2x2
      checkerboard mask the component of the top-left pixel is that pixel
      alone, so the bottom-right pixel is in a component of its own. */
  lemma DiagonalPixelsSeparate(c: set<Pixel>)
    requires ComponentOf(Grid(2, 2, [[true, false], [false, true]]), c, Pixel(0, 0))
    ensures c == {Pixel(0, 0)}
    ensures Pixel(1, 1) !in c
  {
    var mask := Grid(2, 2, [[true, false], [false, true]]);
    assert forall q :: Adjacent4(Pixel(0, 0), q) ==> !Filled(mask, q) by {
      assert Neighbours(Pixel(0, 0)) == [Pixel(1, 0), Pixel(-1, 0), Pixel(0, 1), Pixel(0, -1)];
    }
    IsolatedComponent(mask, c, Pixel(0, 0));
  }
}
