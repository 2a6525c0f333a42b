# Sprite-sheet extraction, modelled in Dafny

This project models `spritesheet.py`, a tool that takes a transparent image with
sprites scattered over it and repacks them into a uniform grid. The tool works
in five stages:

1. **Mask.** A pixel belongs to a sprite when its alpha channel is positive.
2. **Segmentation.** A row-major scan flood-fills every unvisited filled pixel.
   Each fill collects one 4-connected component and returns its bounding box
   `(minx, miny, maxx + 1, maxy + 1)`. A box is kept when its area is at least
   `min_area` (default 50).
3. **Sequencing.** The kept boxes are sorted stably by the key
   `(row bucket, minx)`.
4. **Frames.** The image is cropped to every box, in order.
5. **Packing.** The frames go into a grid with `ceil(sqrt(n))` columns and
   `ceil(n / cols)` rows. The cells are as large as the largest frame. Each
   frame is centred horizontally in its cell and rests on the cell's bottom
   edge.

Modules, one per stage:

- `Grids`: pixels, grids and half-open boxes.
- `Connectivity`: paths, 4-connected components and bounding boxes, used as
  the specification of segmentation.
- `FloodFill`: `flood_fill`, as a method with an explicit stack.
- `Segmenter`: the scan of `find_sprite_boxes`.
- `Sequencer`: `sort_boxes`.
- `Frames`: `extract_frames`.
- `Packer`: `build_spritesheet`.
- `Pipeline`: `extract_sprites`.

The visited array is modelled as a set of pixels. `Fill` takes it by value and
returns the grown set. The row bucket of `sort_boxes` is a parameter
(`bucket`): it maps the list of kept boxes to a row function. Every ordering
property is proved for every such function.

The image library's `crop` pads a box that reaches outside the image with
transparent pixels. `Frames.Crop` models this padding with its `clear` pixel.
`Segmenter.ScanBoxes` proves that every box lies inside the image, so the
padding is never used (`Frames.CropWithin`).

## Model

| member | source | states |
|---|---|---|
| Grids.NeighboursAreAdjacent | spritesheet.py:59-62 | the four pushed positions are exactly the pixels sharing an edge with the popped pixel |
| Connectivity.ComponentIsReachableSet | spritesheet.py:37-64 | a component is exactly the set of filled pixels reachable from its seed through filled pixels, so a fill's result is determined by its seed |
| Connectivity.PathStaysInComponent | spritesheet.py:59-62 | no path of edge-sharing filled pixels from the seed leaves the component |
| Connectivity.IsolatedComponent | spritesheet.py:59-62 | a seed with no filled edge neighbour is a component on its own |
| Connectivity.DiagonalPixelsSeparate | spritesheet.py:59-62 | pixels touching only at a corner are never joined: on a 2x2 checkerboard the top-left component excludes the bottom-right pixel |
| FloodFill.Fill | spritesheet.py:37-64 | the pixels newly visited are filled, reachable from the start through newly visited pixels, and closed under filled 4-neighbours; the returned box is their exact half-open bounding box, inside the mask when the start is; an unfilled, visited or out-of-range start visits nothing and returns the 1x1 box at the start |
| Segmenter.KeepLarge | spritesheet.py:93-96 | a box is kept exactly when it occurs in the input and its area is at least `min_area` (equality kept) |
| Segmenter.KeepLargeCounts | spritesheet.py:95-96 | each box whose area reaches `min_area` is kept as many times as it occurs, and no other box is kept |
| Segmenter.KeepLargeConcat | spritesheet.py:95-96 | filtering a concatenation is the concatenation of the filtered parts, so kept boxes stay in their input order |
| Segmenter.FillFindsComponent | spritesheet.py:90-91 | a fill started at an unvisited filled pixel, after earlier complete fills, yields that pixel's whole component |
| Segmenter.OrderGrows | spritesheet.py:88-91 | a fill started at the scan position, after every earlier filled pixel was visited, starts after all earlier fills in row-major order and at the row-major first pixel of its component |
| Segmenter.ScanSeed | spritesheet.py:90-96 | one fill from an unvisited filled pixel records that pixel's component and bounding box, and appends the box to the kept list exactly when its area reaches `min_area` |
| Segmenter.ScanRow | spritesheet.py:89-96 | scanning row `y` left to right fills from every unvisited filled pixel of the row and keeps the scan invariant; afterwards every filled pixel through the end of row `y` is visited, and every fill so far was seeded before row `y + 1` |
| Segmenter.ScanBoxes | spritesheet.py:83-97 | the fills find pairwise disjoint components whose union is every filled pixel; they are found in row-major order of their first pixel, each seeded at that pixel; each recorded box bounds its component; the kept boxes are the recorded ones with area at least `min_area`, in discovery order, each well formed and inside the mask |
| Sequencer.Insert | spritesheet.py:78 | inserting into a sorted list keeps it sorted and adds exactly the one box |
| Sequencer.SortBoxes | spritesheet.py:67-80 | the result is a permutation of the input, ordered by `(row, minx)` |
| Sequencer.SortBoxesStable | spritesheet.py:78 | boxes with equal keys keep their input order |
| Sequencer.SortedStableUnique | spritesheet.py:78 | two sorted lists that agree, key by key, on the order of the boxes with that key are equal |
| Sequencer.SortBoxesCharacterised | spritesheet.py:67-80 | a list is the sort's output if and only if it is sorted by key and keeps the input order within every key |
| Sequencer.WithKeyMembers | spritesheet.py:78 | the per-key selection holds exactly the boxes with that key |
| Frames.Crop | spritesheet.py:104 | a crop is as wide and high as the box; each frame pixel is the image pixel offset by the box corner, or the padding value outside the image |
| Frames.CropWithin | spritesheet.py:104 | a box inside the image needs no padding |
| Frames.CropWhole | spritesheet.py:104 | cropping to the whole image returns the image |
| Frames.CropOfCrop | spritesheet.py:104 | cropping a crop equals one crop of the original, to the inner box moved by the outer corner |
| Frames.ExtractFrames | spritesheet.py:103-104 | one frame per box, index for index, frame `i` as wide and high as box `i` |
| Frames.ExtractFramesContent | spritesheet.py:103-104 | frame `i` shows exactly the image pixels of box `i` |
| Packer.CeilSqrt | spritesheet.py:113 | the column count `c` satisfies `c*c >= n` and `(c-1)*(c-1) < n` |
| Packer.CeilSqrtLeast | spritesheet.py:113 | no smaller column count gives `n` cells in a square grid |
| Packer.CeilDiv | spritesheet.py:114 | the row count `r` satisfies `r*cols >= n` and `(r-1)*cols < n` |
| Packer.MaxWidth | spritesheet.py:108 | the cell width bounds every frame width and is the width of some frame |
| Packer.MaxHeight | spritesheet.py:109 | the cell height bounds every frame height and is the height of some frame |
| Packer.Build | spritesheet.py:107-133 | the layout fails exactly when there are no frames; otherwise the columns are the ceiling square root of the frame count, the rows the ceiling of the count over the columns, the cells the largest frame width and height (so every frame fits), the canvas `cols*cellW` by `rows*cellH`, and frame `i` is pasted at its cell's corner plus half the spare width and all the spare height |
| Packer.PlacedInCell | spritesheet.py:121-131 | frame `i` lies inside its cell `(i % cols, i // cols)`, which lies inside the canvas; its bottom edge is the cell's bottom edge; its left margin is at most its right margin, which is at most one more |
| Packer.PlacementsDisjoint | spritesheet.py:121-131 | distinct frames get non-overlapping cells and non-overlapping paste areas |
| Packer.GridNearSquare | spritesheet.py:113-114 | the grid has `cols` or `cols - 1` rows, and the last frame is in the last row |
| Packer.FiveSquareFrames | spritesheet.py:107-131 | five 10x10 frames give 3 columns, 2 rows, a 30x20 canvas, and frame 3 at (0, 10) |
| Pipeline.MaskOf | spritesheet.py:140-141 | the mask has the image's size, and a pixel is set exactly when its alpha is positive |
| Pipeline.FindSpriteBoxes | spritesheet.py:83-100 | the kept boxes are those of the components in row-major discovery order with area at least `min_area`; the result is a permutation of them, sorted by `(row, minx)`, with equal keys in discovery order, every box well formed, inside the mask and at least `min_area` in area |
| Pipeline.ExtractSprites | spritesheet.py:136-145 | the boxes are exactly what the box search of the alpha mask with `min_area` 50 gives; frame `i` is box `i` of the image with no padding; the sheet is the layout of the frames' sizes, which fails exactly when no sprite is found and always for a fully transparent image |

## Left out

- Command line, colours, the input-file check and the messages (lines 8-34, 98, 147-153) are user interface and not modelled.
- Image decoding, RGBA conversion, `Image.new`, saving, and NumPy array handling are foreign library calls. Images are `Grid` values, and `alpha` reads a pixel's alpha channel.
- Pipeline.ExtractSprites: the pixel contents of the sheet are not modelled. `paste` is a library call, so the model stops at the paste positions. `Packer.PlacementsDisjoint` shows no frame overwrites another.
- Sequencer.SortBoxes: the row bucket `round(((miny + maxy) / 2) / median(heights))` uses floating point and Python's round-half-to-even. It is left abstract as the `bucket` parameter, so no property depends on which bucket a box gets.
- Packer.CeilSqrt: `math.ceil(math.sqrt(n))` is computed on floats. The model uses the exact integer ceiling square root. The two agree for every frame count below 2^52.
- Packer.CeilDiv: `math.ceil(n / cols)` divides floats. The model uses exact integer division. The two agree for every frame count below 2^53.
- Frames.Crop requires each box's right edge to be no left of its left edge and its bottom edge no higher than its top edge. The image library rejects any other box, and every box the scan produces is well formed.
- The `line_threshold` parameter of `sort_boxes` is never used by the source and has no counterpart.
- Integer widths: coordinates and sizes are unbounded integers. The source's Python integers do not wrap.
