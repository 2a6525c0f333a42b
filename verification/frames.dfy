/** Frame extraction: cropping the source image to each sprite box, in box
    order. */
module Frames {
  import opened Grids

  /** The pixel of the source image that lands at `p` of a frame cropped
      to `b`. */
  function Source(b: Box, p: Pixel): Pixel {
    Pixel(b.minx + p.x, b.miny + p.y)
  }

  /** Crops `img` to the half-open box `b`. The frame is `b.Width()` wide and
      `b.Height()` high; a frame pixel whose source lies outside the image
      takes the value `clear` (the image library pads with transparent black). */
  function Crop<P>(img: Grid<P>, b: Box, clear: P): (f: Grid<P>)
    requires img.Valid()
    requires b.minx <= b.maxx && b.miny <= b.maxy
    ensures f.Valid()
    ensures f.width == b.Width() && f.height == b.Height()
    ensures forall p :: f.Contains(p) && img.Contains(Source(b, p)) ==> f.At(p) == img.At(Source(b, p))
    ensures forall p :: f.Contains(p) && !img.Contains(Source(b, p)) ==> f.At(p) == clear
  {
    var cells := seq(b.Height(), y =>
      seq(b.Width(), x =>
        var q := Pixel(b.minx + x, b.miny + y);
        if img.Contains(q) then img.At(q) else clear));
    Grid(b.Width(), b.Height(), cells)
  }

  /** A box that lies inside the image needs no padding: every frame pixel
      is a source pixel. */
  lemma CropWithin<P>(img: Grid<P>, b: Box, clear: P, p: Pixel)
    requires img.Valid()
    requires b.minx <= b.maxx && b.miny <= b.maxy
    requires b.Within(img.width, img.height)
    requires Crop(img, b, clear).Contains(p)
    ensures img.Contains(Source(b, p)) && Crop(img, b, clear).At(p) == img.At(Source(b, p))
  {
  }

  /** Cropping to the whole image gives the image back. */
  lemma CropWhole<P>(img: Grid<P>, clear: P)
    requires img.Valid()
    ensures Crop(img, Box(0, 0, img.width, img.height), clear) == img
  {
    var f := Crop(img, Box(0, 0, img.width, img.height), clear);
    forall y | 0 <= y < img.height
      ensures f.cells[y] == img.cells[y]
    {
      forall x | 0 <= x < img.width
        ensures f.cells[y][x] == img.cells[y][x]
      {
        assert f.At(Pixel(x, y)) == img.At(Pixel(x, y));
      }
    }
  }

  /** Cropping a crop is one crop of the original, to the inner box moved by
      the outer box's corner, when the inner box lies inside the outer frame. */
  lemma CropOfCrop<P>(img: Grid<P>, b: Box, inner: Box, clear: P)
    requires img.Valid()
    requires b.minx <= b.maxx && b.miny <= b.maxy
    requires inner.minx <= inner.maxx && inner.miny <= inner.maxy
    requires inner.Within(b.Width(), b.Height())
    ensures Crop(Crop(img, b, clear), inner, clear)
         == Crop(img, Box(b.minx + inner.minx, b.miny + inner.miny, b.minx + inner.maxx, b.miny + inner.maxy), clear)
  {
    var outer := Crop(img, b, clear);
    var moved := Box(b.minx + inner.minx, b.miny + inner.miny, b.minx + inner.maxx, b.miny + inner.maxy);
    var f, g := Crop(outer, inner, clear), Crop(img, moved, clear);
    forall y | 0 <= y < f.height
      ensures f.cells[y] == g.cells[y]
    {
      forall x | 0 <= x < f.width
        ensures f.cells[y][x] == g.cells[y][x]
      {
        var p := Pixel(x, y);
        assert outer.Contains(Source(inner, p));
        assert Source(b, Source(inner, p)) == Source(moved, p);
        assert f.At(p) == g.At(p);
      }
    }
  }

  /** Boxes the cropper accepts: no edge lies before the opposite one. */
  predicate Croppable(boxes: seq<Box>) {
    forall i :: 0 <= i < |boxes| ==> boxes[i].minx <= boxes[i].maxx && boxes[i].miny <= boxes[i].maxy
  }

  /** One frame per box, in box order: frame `i` is the crop of box `i`. */
  function ExtractFrames<P>(img: Grid<P>, boxes: seq<Box>, clear: P): (frames: seq<Grid<P>>)
    requires img.Valid()
    requires Croppable(boxes)
    ensures |frames| == |boxes|
    ensures forall i :: 0 <= i < |boxes| ==> frames[i].Valid()
    ensures forall i :: 0 <= i < |boxes| ==>
      frames[i].width == boxes[i].Width() && frames[i].height == boxes[i].Height()
  {
    seq(|boxes|, i requires 0 <= i < |boxes| => Crop(img, boxes[i], clear))
  }

  /** Frame `i` shows exactly the pixels of box `i`. */
  lemma ExtractFramesContent<P>(img: Grid<P>, boxes: seq<Box>, clear: P, i: int, p: Pixel)
    requires img.Valid()
    requires Croppable(boxes)
    requires 0 <= i < |boxes|
    requires boxes[i].Within(img.width, img.height)
    requires ExtractFrames(img, boxes, clear)[i].Contains(p)
    ensures img.Contains(Source(boxes[i], p))
    ensures ExtractFrames(img, boxes, clear)[i].At(p) == img.At(Source(boxes[i], p))
  {
    assert ExtractFrames(img, boxes, clear)[i] == Crop(img, boxes[i], clear);
  }
}
