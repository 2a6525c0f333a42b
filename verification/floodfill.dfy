/** The iterative flood fill that grows one sprite from a seed pixel. */
module FloodFill {
  import opened Grids
  import opened Connectivity

  function Min(a: int, b: int): int {
    if a <= b then a else b
  }

  function Max(a: int, b: int): int {
    if a >= b then a else b
  }

  /** A finite set holding every filled pixel of the mask, the termination
      measure of the fill. Only this bound is exposed: the comprehension that
      defines `FilledPixels` stays out of the fill's proof. */
  lemma FilledUniverse(mask: Grid<bool>) returns (u: set<Pixel>)
    requires mask.Valid()
    ensures forall p :: Filled(mask, p) ==> p in u
  {
    u := FilledPixels(mask);
  }

  /** Removing a member of `s - v` from consideration shrinks it. */
  lemma VisitShrinks(s: set<Pixel>, v: set<Pixel>, q: Pixel)
    requires q in s && q !in v
    ensures |s - (v + {q})| < |s - v|
  {
    assert s - (v + {q}) == (s - v) - {q};
  }

  /** Proof-only bookkeeping of one fill: `pusher[i]` is the grown pixel whose
      neighbours included `stack[i]`; `grown` holds the pixels this fill has
      visited; `paths` records a 4-connected path from the start to each of
      them; the `at…` pixels attain the current extremes of the extent. */
  datatype Trace = Trace(
    pusher: seq<Pixel>,
    grown: set<Pixel>,
    paths: map<Pixel, seq<Pixel>>,
    atMinX: Pixel, atMaxX: Pixel, atMinY: Pixel, atMaxY: Pixel)

  /** Every stacked pixel is the start or an edge neighbour of the grown
      pixel that pushed it. */
  ghost predicate Provenance(stack: seq<Pixel>, pusher: seq<Pixel>, grown: set<Pixel>, start: Pixel) {
    && |pusher| == |stack|
    && forall i :: 0 <= i < |stack| ==> stack[i] == start || (pusher[i] in grown && Adjacent4(pusher[i], stack[i]))
  }

  /** Every grown pixel has a recorded path from the start inside `grown`. */
  ghost predicate PathsFrom(paths: map<Pixel, seq<Pixel>>, grown: set<Pixel>, start: Pixel) {
    forall p :: p in grown ==> p in paths && Joins(paths[p], grown, start, p)
  }

  /** A filled edge neighbour of a grown pixel is visited or still stacked. */
  ghost predicate NoneForgotten(mask: Grid<bool>, grown: set<Pixel>, seen: set<Pixel>, stack: seq<Pixel>)
    requires mask.Valid()
  {
    forall p, q :: p in grown && Adjacent4(p, q) && Filled(mask, q) ==> q in seen || q in stack
  }

  /** Grown pixels are filled and inside the inclusive extent. */
  ghost predicate InExtent(mask: Grid<bool>, grown: set<Pixel>, minx: int, maxx: int, miny: int, maxy: int)
    requires mask.Valid()
  {
    forall p :: p in grown ==> Filled(mask, p) && minx <= p.x <= maxx && miny <= p.y <= maxy
  }

  /** The extent is the start pixel widened by the grown pixels, each
      extreme is attained by the start or a grown pixel, and the extent lies
      in the mask when the start does. */
  ghost predicate ExtentAttained(mask: Grid<bool>, start: Pixel, minx: int, maxx: int, miny: int, maxy: int, t: Trace)
    requires mask.Valid()
  {
    && minx <= start.x <= maxx && miny <= start.y <= maxy
    && (mask.Contains(start) ==> 0 <= minx && maxx < mask.width && 0 <= miny && maxy < mask.height)
    && InExtent(mask, t.grown, minx, maxx, miny, maxy)
    && (t.atMinX == start || t.atMinX in t.grown) && t.atMinX.x == minx
    && (t.atMaxX == start || t.atMaxX in t.grown) && t.atMaxX.x == maxx
    && (t.atMinY == start || t.atMinY in t.grown) && t.atMinY.y == miny
    && (t.atMaxY == start || t.atMaxY in t.grown) && t.atMaxY.y == maxy
  }

  /** Before the first pop only the start is stacked; afterwards the start is
      the first grown pixel, or it was unusable and the stack is empty. */
  ghost predicate StartHandled(mask: Grid<bool>, visited: set<Pixel>, start: Pixel, stack: seq<Pixel>,
                               minx: int, maxx: int, miny: int, maxy: int, grown: set<Pixel>)
    requires mask.Valid()
  {
    && (grown == {} ==> stack == [start] || (|stack| == 0 && !(Filled(mask, start) && start !in visited)))
    && (grown != {} ==> start in grown)
    && (grown == {} ==> minx == maxx == start.x && miny == maxy == start.y)
  }

  /** The loop invariant of `Fill`. */
  ghost predicate FillInv(mask: Grid<bool>, visited: set<Pixel>, start: Pixel, stack: seq<Pixel>, seen: set<Pixel>,
                          minx: int, maxx: int, miny: int, maxy: int, t: Trace)
    requires mask.Valid()
  {
    && seen == visited + t.grown && visited !! t.grown
    && ExtentAttained(mask, start, minx, maxx, miny, maxy, t)
    && StartHandled(mask, visited, start, stack, minx, maxx, miny, maxy, t.grown)
    && Provenance(stack, t.pusher, t.grown, start)
    && PathsFrom(t.paths, t.grown, start)
    && NoneForgotten(mask, t.grown, seen, stack)
  }

  /** The bookkeeping after visiting `q`, the pixel just popped. */
  ghost function Visit(t: Trace, start: Pixel, minx: int, maxx: int, miny: int, maxy: int, q: Pixel): Trace
    requires |t.pusher| > 0
  {
    var from := t.pusher[|t.pusher| - 1];
    Trace(
      t.pusher[..|t.pusher| - 1] + [q, q, q, q],
      t.grown + {q},
      t.paths[q := if q == start then [start] else if from in t.paths then t.paths[from] + [q] else [q]],
      if q.x < minx then q else t.atMinX,
      if q.x > maxx then q else t.atMaxX,
      if q.y < miny then q else t.atMinY,
      if q.y > maxy then q else t.atMaxY)
  }

  lemma PopKeepsProvenance(before: seq<Pixel>, pushers: seq<Pixel>, grown: set<Pixel>, start: Pixel)
    requires Provenance(before, pushers, grown, start) && |before| > 0
    ensures Provenance(before[..|before| - 1], pushers[..|pushers| - 1], grown, start)
  {
  }

  lemma SkipKeepsNoneForgotten(mask: Grid<bool>, grown: set<Pixel>, seen: set<Pixel>, before: seq<Pixel>)
    requires mask.Valid()
    requires NoneForgotten(mask, grown, seen, before) && |before| > 0
    requires before[|before| - 1] in seen || !Filled(mask, before[|before| - 1])
    ensures NoneForgotten(mask, grown, seen, before[..|before| - 1])
  {
    var rest := before[..|before| - 1];
    assert forall r :: r in before ==> r in rest || r == before[|before| - 1] by {
      assert before == rest + [before[|before| - 1]];
    }
  }

  lemma VisitKeepsNoneForgotten(mask: Grid<bool>, grown: set<Pixel>, seen: set<Pixel>, before: seq<Pixel>)
    requires mask.Valid()
    requires NoneForgotten(mask, grown, seen, before) && |before| > 0
    ensures NoneForgotten(mask, grown + {before[|before| - 1]}, seen + {before[|before| - 1]},
                          before[..|before| - 1] + Neighbours(before[|before| - 1]))
  {
    var q := before[|before| - 1];
    var rest := before[..|before| - 1];
    assert forall r :: r in before ==> r in rest || r == q by {
      assert before == rest + [q];
    }
    forall p, r | p in grown + {q} && Adjacent4(p, r) && Filled(mask, r)
      ensures r in seen + {q} || r in rest + Neighbours(q)
    {
      if p == q {
        NeighboursAreAdjacent(q, r);
      }
    }
  }

  lemma VisitKeepsProvenance(before: seq<Pixel>, pushers: seq<Pixel>, grown: set<Pixel>, start: Pixel)
    requires Provenance(before, pushers, grown, start) && |before| > 0
    ensures var q := before[|before| - 1];
            Provenance(before[..|before| - 1] + Neighbours(q), pushers[..|pushers| - 1] + [q, q, q, q], grown + {q}, start)
  {
    var q := before[|before| - 1];
    var stack := before[..|before| - 1] + Neighbours(q);
    var pusher := pushers[..|pushers| - 1] + [q, q, q, q];
    forall i | 0 <= i < |stack|
      ensures stack[i] == start || (pusher[i] in grown + {q} && Adjacent4(pusher[i], stack[i]))
    {
      if i >= |before| - 1 {
        assert pusher[i] == q && stack[i] in Neighbours(q);
        NeighboursAreAdjacent(q, stack[i]);
      } else {
        assert stack[i] == before[i] && pusher[i] == pushers[i];
      }
    }
  }

  lemma VisitKeepsPaths(paths: map<Pixel, seq<Pixel>>, grown: set<Pixel>, start: Pixel, from: Pixel, q: Pixel)
    requires PathsFrom(paths, grown, start)
    requires q == start || (from in grown && Adjacent4(from, q))
    ensures PathsFrom(paths[q := if q == start then [start] else if from in paths then paths[from] + [q] else [q]],
                      grown + {q}, start)
  {
    var grown' := grown + {q};
    var paths' := paths[q := if q == start then [start] else if from in paths then paths[from] + [q] else [q]];
    forall p | p in grown'
      ensures p in paths' && Joins(paths'[p], grown', start, p)
    {
      if p == q {
        if q != start {
          JoinsMonotone(paths[from], grown, grown', start, from);
          JoinsExtend(paths[from], grown', start, from, q);
        }
      } else {
        JoinsMonotone(paths[p], grown, grown', start, p);
      }
    }
  }

  lemma ExtentGrows(mask: Grid<bool>, start: Pixel, minx: int, maxx: int, miny: int, maxy: int, t: Trace, q: Pixel)
    requires mask.Valid()
    requires ExtentAttained(mask, start, minx, maxx, miny, maxy, t) && Filled(mask, q) && |t.pusher| > 0
    ensures ExtentAttained(mask, start, Min(minx, q.x), Max(maxx, q.x), Min(miny, q.y), Max(maxy, q.y),
                           Visit(t, start, minx, maxx, miny, maxy, q))
  {
  }

  /** A popped pixel that is outside the mask, visited or transparent is
      dropped without touching anything else. */
  lemma SkipKeepsInv(mask: Grid<bool>, visited: set<Pixel>, start: Pixel, stack: seq<Pixel>, seen: set<Pixel>,
                     minx: int, maxx: int, miny: int, maxy: int, t: Trace)
    requires mask.Valid()
    requires FillInv(mask, visited, start, stack, seen, minx, maxx, miny, maxy, t) && |stack| > 0
    requires stack[|stack| - 1] in seen || !Filled(mask, stack[|stack| - 1])
    ensures FillInv(mask, visited, start, stack[..|stack| - 1], seen, minx, maxx, miny, maxy,
                    t.(pusher := t.pusher[..|t.pusher| - 1]))
  {
    PopKeepsProvenance(stack, t.pusher, t.grown, start);
    SkipKeepsNoneForgotten(mask, t.grown, seen, stack);
  }

  /** Visiting the popped pixel: mark it, widen the extent, push its four
      neighbours. */
  lemma VisitKeepsInv(mask: Grid<bool>, visited: set<Pixel>, start: Pixel, stack: seq<Pixel>, seen: set<Pixel>,
                      minx: int, maxx: int, miny: int, maxy: int, t: Trace)
    requires mask.Valid()
    requires FillInv(mask, visited, start, stack, seen, minx, maxx, miny, maxy, t) && |stack| > 0
    requires stack[|stack| - 1] !in seen && Filled(mask, stack[|stack| - 1])
    ensures var q := stack[|stack| - 1];
            FillInv(mask, visited, start, stack[..|stack| - 1] + Neighbours(q), seen + {q},
                    Min(minx, q.x), Max(maxx, q.x), Min(miny, q.y), Max(maxy, q.y),
                    Visit(t, start, minx, maxx, miny, maxy, q))
  {
    var q := stack[|stack| - 1];
    var from := t.pusher[|t.pusher| - 1];
    var t' := Visit(t, start, minx, maxx, miny, maxy, q);
    VisitKeepsNoneForgotten(mask, t.grown, seen, stack);
    VisitKeepsProvenance(stack, t.pusher, t.grown, start);
    VisitKeepsPaths(t.paths, t.grown, start, from, q);
    ExtentGrows(mask, start, minx, maxx, miny, maxy, t, q);
    assert seen + {q} == visited + t'.grown;
  }

  /** Once the stack is empty the invariant yields the contract of `Fill`. */
  lemma DoneGivesContract(mask: Grid<bool>, visited: set<Pixel>, start: Pixel, seen: set<Pixel>,
                          minx: int, maxx: int, miny: int, maxy: int, t: Trace)
    requires mask.Valid()
    requires FillInv(mask, visited, start, [], seen, minx, maxx, miny, maxy, t)
    ensures seen - visited == t.grown
    ensures forall p :: p in t.grown ==> Reachable(t.grown, start, p)
    ensures start in t.grown ==> BoundingBox(Box(minx, miny, maxx + 1, maxy + 1), t.grown)
  {
    forall p | p in t.grown
      ensures Reachable(t.grown, start, p)
    {
      assert Joins(t.paths[p], t.grown, start, p);
    }
    if start in t.grown {
      assert t.atMinX in t.grown && t.atMaxX in t.grown && t.atMinY in t.grown && t.atMaxY in t.grown;
    }
  }

  /** Flood-fills `mask` from `start` with an explicit stack and 4-neighbour
      pushes, marking pixels in the visited set `visited`; returns the grown
      visited set and the half-open bounding box `(minx, miny, maxx+1, maxy+1)`.

      Pixels popped from the stack are skipped when they fall outside the mask,
      are already visited, or are transparent. The box starts as the start
      pixel, so a start that is skipped, even one outside the mask, yields a
      1x1 box and no new visits. */
  method Fill(mask: Grid<bool>, visited: set<Pixel>, start: Pixel) returns (seen: set<Pixel>, box: Box)
    requires mask.Valid()
    ensures box.WellFormed() && box.Contains(start)
    ensures mask.Contains(start) ==> box.Within(mask.width, mask.height)
    ensures visited <= seen
    ensures forall p :: p in seen - visited ==> Filled(mask, p) && box.Contains(p)
    ensures forall p :: p in seen - visited ==> Reachable(seen - visited, start, p)
    ensures forall p, q :: p in seen - visited && Adjacent4(p, q) && Filled(mask, q) ==> q in seen
    ensures start in seen - visited <==> Filled(mask, start) && start !in visited
    ensures start in seen - visited ==> BoundingBox(box, seen - visited)
    ensures start !in seen - visited ==> seen == visited && box == Box(start.x, start.y, start.x + 1, start.y + 1)
  {
    var stack := [start];
    var minx, maxx, miny, maxy := start.x, start.x, start.y, start.y;
    ghost var t := Trace([start], {}, map[], start, start, start, start);
    ghost var universe := FilledUniverse(mask);
    seen := visited;
    while |stack| > 0
      invariant FillInv(mask, visited, start, stack, seen, minx, maxx, miny, maxy, t)
      decreases |universe - seen|, |stack|
    {
      ghost var before := stack;
      var q := stack[|stack| - 1];
      stack := stack[..|stack| - 1];

      if q.x < 0 || q.y < 0 || q.x >= mask.width || q.y >= mask.height || q in seen || !mask.At(q) {
        SkipKeepsInv(mask, visited, start, before, seen, minx, maxx, miny, maxy, t);
        t := t.(pusher := t.pusher[..|t.pusher| - 1]);
        continue;
      }

      VisitKeepsInv(mask, visited, start, before, seen, minx, maxx, miny, maxy, t);
      VisitShrinks(universe, seen, q);
      t := Visit(t, start, minx, maxx, miny, maxy, q);
      seen := seen + {q};
      minx, maxx := Min(minx, q.x), Max(maxx, q.x);
      miny, maxy := Min(miny, q.y), Max(maxy, q.y);
      stack := stack + Neighbours(q);
    }

    DoneGivesContract(mask, visited, start, seen, minx, maxx, miny, maxy, t);
    box := Box(minx, miny, maxx + 1, maxy + 1);
  }
}
