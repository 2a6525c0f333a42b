/** The whole extraction: alpha mask, sprite boxes in reading order, one
    frame per box, and the sheet layout. */
module Pipeline {
  import opened Grids
  import opened Connectivity
  import opened Segmenter
  import opened Sequencer
  import opened Frames
  import opened Packer

  /** The transparency mask of an image: a pixel is set exactly when its
      alpha channel is positive. `alpha` reads the alpha channel of a pixel. */
  function MaskOf<P>(img: Grid<P>, alpha: P -> int): (mask: Grid<bool>)
    requires img.Valid()
    ensures mask.Valid() && mask.width == img.width && mask.height == img.height
    ensures forall p :: Filled(mask, p) <==> img.Contains(p) && alpha(img.At(p)) > 0
  {
    var cells := seq(img.height, y requires 0 <= y < img.height =>
      seq(img.width, x requires 0 <= x < img.width => alpha(img.cells[y][x]) > 0));
    var mask := Grid(img.width, img.height, cells);
    assert forall p :: mask.Contains(p) ==> mask.At(p) == (alpha(img.At(p)) > 0);
    mask
  }

  /** The sizes of the frames, in frame order. */
  function SizesOf<P>(frames: seq<Grid<P>>): (sizes: seq<Size>)
    ensures |sizes| == |frames|
    ensures forall i :: 0 <= i < |frames| ==> sizes[i] == Size(frames[i].width, frames[i].height)
  {
    seq(|frames|, i requires 0 <= i < |frames| => Size(frames[i].width, frames[i].height))
  }

  /** The seed of the first fill is a filled pixel. */
  lemma FirstSeedFilled(mask: Grid<bool>, found: seq<Box>, comps: seq<set<Pixel>>, seeds: seq<Pixel>)
    requires mask.Valid()
    requires Segmentation(mask, found, comps, seeds) && |found| > 0
    ensures Filled(mask, seeds[0])
  {
    assert FoundComponent(mask, found, comps, seeds, 0);
  }

  /** A mask with no filled pixel has no component and so no boxes. */
  lemma EmptyMaskNoBoxes(mask: Grid<bool>, minArea: int, found: seq<Box>, comps: seq<set<Pixel>>, seeds: seq<Pixel>)
    requires mask.Valid()
    requires Segmentation(mask, found, comps, seeds)
    requires forall p :: !Filled(mask, p)
    ensures found == [] && KeepLarge(found, minArea) == []
  {
    if |found| > 0 {
      FirstSeedFilled(mask, found, comps, seeds);
      assert false;
    }
  }

  /** What the box search promises. The fills found the components of the
      mask in discovery order and covered every filled pixel; `kept` holds
      their boxes whose area reaches `minArea`, in discovery order; `boxes`
      is `kept` sorted by row bucket and then left edge, boxes with equal
      keys keeping their order in `kept`. */
  ghost predicate SpriteBoxes(mask: Grid<bool>, minArea: int, bucket: seq<Box> -> (Box -> int), boxes: seq<Box>,
                              kept: seq<Box>, found: seq<Box>, comps: seq<set<Pixel>>, seeds: seq<Pixel>)
    requires mask.Valid()
  {
    && kept == KeepLarge(found, minArea)
    && Segmentation(mask, found, comps, seeds) && Union(comps) == FilledPixels(mask)
    && DiscoveryOrder(comps, seeds)
    && multiset(boxes) == multiset(kept)
    && Sorted(boxes, bucket(kept)) && KeepsKeyOrder(boxes, kept, bucket(kept))
  }

  /** Finds the sprite boxes and puts them in reading order. `bucket` gives,
      for the list of kept boxes, the row bucket of each box; the ordering is
      by that bucket and then by left edge, ties kept in discovery order.
      `kept` is the list before sorting; `found`, `comps` and `seeds` record
      every fill, as `ScanBoxes` describes. */
  method FindSpriteBoxes(mask: Grid<bool>, minArea: int, bucket: seq<Box> -> (Box -> int))
    returns (boxes: seq<Box>, ghost kept: seq<Box>, ghost found: seq<Box>, ghost comps: seq<set<Pixel>>, ghost seeds: seq<Pixel>)
    requires mask.Valid()
    ensures SpriteBoxes(mask, minArea, bucket, boxes, kept, found, comps, seeds)
    ensures forall b :: b in boxes ==> b.WellFormed() && b.Within(mask.width, mask.height) && b.Area() >= minArea
  {
    var unsorted;
    ghost var seen;
    unsorted, found, comps, seeds, seen := ScanBoxes(mask, minArea);
    kept := unsorted;
    var row := bucket(unsorted);
    boxes := SortBoxes(unsorted, row);
    forall k
      ensures WithKey(boxes, row, k) == WithKey(kept, row, k)
    {
      SortBoxesStable(unsorted, row, k);
    }
    forall b | b in boxes
      ensures b in kept
    {
      assert b in multiset(boxes);
    }
  }

  /** The sprite extraction: mask by alpha, find and order the boxes with the
      default area threshold, crop one frame per box and lay the frames out.
      An image without any sprite leaves nothing to lay out and fails. */
  method ExtractSprites<P>(img: Grid<P>, alpha: P -> int, clear: P, bucket: seq<Box> -> (Box -> int))
    returns (sheet: Result<Sheet>, boxes: seq<Box>, frames: seq<Grid<P>>,
             ghost kept: seq<Box>, ghost found: seq<Box>, ghost comps: seq<set<Pixel>>, ghost seeds: seq<Pixel>)
    requires img.Valid()
    ensures SpriteBoxes(MaskOf(img, alpha), DefaultMinArea, bucket, boxes, kept, found, comps, seeds)
    ensures forall i :: 0 <= i < |boxes| ==> boxes[i].Within(img.width, img.height) && boxes[i].Area() >= DefaultMinArea
    ensures |frames| == |boxes|
    ensures forall i :: 0 <= i < |boxes| ==>
      && frames[i].Valid() && frames[i].width == boxes[i].Width() && frames[i].height == boxes[i].Height()
      && forall p :: frames[i].Contains(p) ==>
           img.Contains(Source(boxes[i], p)) && frames[i].At(p) == img.At(Source(boxes[i], p))
    ensures sheet == Build(SizesOf(frames))
    ensures sheet.Err? <==> |boxes| == 0
    ensures (forall p :: img.Contains(p) ==> alpha(img.At(p)) <= 0) ==> sheet.Err?
  {
    var mask := MaskOf(img, alpha);
    boxes, kept, found, comps, seeds := FindSpriteBoxes(mask, DefaultMinArea, bucket);
    assert forall i :: 0 <= i < |boxes| ==> boxes[i] in boxes;
    frames := ExtractFrames(img, boxes, clear);
    forall i, p | 0 <= i < |boxes| && frames[i].Contains(p)
      ensures img.Contains(Source(boxes[i], p)) && frames[i].At(p) == img.At(Source(boxes[i], p))
    {
      ExtractFramesContent(img, boxes, clear, i, p);
    }
    sheet := Build(SizesOf(frames));
    if forall p :: img.Contains(p) ==> alpha(img.At(p)) <= 0 {
      EmptyMaskNoBoxes(mask, DefaultMinArea, found, comps, seeds);
      assert |multiset(boxes)| == 0;
    }
  }
}
