# imgui_image_editor image-processing core, in Dafny

This project models the image-processing engine of the ImGui image editor and
proves what its functions compute. It covers four parts.

- **Pixel filters** (`filters.cpp`) work on a flat RGBA8 buffer, four bytes per pixel, row-major. They are:
  - the `correctRGB` clamp;
  - the in-place `grayscale` and `invert`;
  - `outline`, `channelOffset` and `mosaic`, which read an untouched snapshot and write the destination.
- **Hilditch-thinning predicates** (`thinning_helper.cpp`): `binarize`, `checkBlackNeighbors`, `testConnectivity` (the crossing-number test), `verticalLineCheck`, `horizontalLineCheck`, `hasEightNeighbors` and `isBlackPixel`.
- **The 2-d tree behind the Voronoi filter** (`voronoi_helper.cpp`): `getPixelCoords`, `getDist`, `isLeaf`, `build2dTree` and the nearest-neighbour search.
- **`trimString`** (`utils.cpp`), which drops every space from a string.

Modules follow the source files:
- `Filters` (`filters.dfy`), `ThinningHelper` (`thinning.dfy`), `VoronoiHelper` (`voronoi.dfy`) and `Utils` (`utils.dfy`) follow the four source files.
- `Pixels` (`pixels.dfy`) holds the shared buffer layout: `Idx(w, row, col, ch) = 4 * (row * w + col) + ch`, the `Get` accessor, and single-pixel updates with their frame conditions.
- `Arith` (`arith.dfy`) holds C's truncating `/` and `%` and a few multiplication facts.

Buffers are immutable `seq<byte>`. A filter that writes in place is a method that
returns the new buffer. Its loops are verified against a per-pixel reference
definition.

Three behaviours of the code that a reader might not expect, all modelled as written:
- `grayscale` and `invert` loop while `i < len - 4`, so the last pixel is never changed.
- `outline` writes the pixel above as well as the current one. Row 0 is therefore rewritten (black or white) whenever the image has two or more rows.
- The tree search picks its comparison axis by testing whether the selected coordinate's value equals the query's x, not by the node's split dimension. The two differ on queries with x == y; see Findings.

## Model

| member | source | states |
|---|---|---|
| Filters.CorrectRGB | filters.cpp:3-11 | The result lies in [0, 255]. It equals the input exactly when the input is already in range. Otherwise it is the byte nearest to the input. |
| Filters.CorrectRGBExamples | filters.cpp:3-11 | -5 clamps to 0, 260 to 255, and 128 is kept. |
| Filters.GrayAtPixel | filters.cpp:15-21 | For a processed pixel, R, G and B each become floor((r + g + b) / 3) of that pixel's own bytes; alpha is kept. |
| Filters.GrayscalePixel | filters.cpp:13-23 | Every pixel before the last gets R = G = B = the floor mean of its colours. Alpha is kept. The final pixel is returned unchanged. |
| Filters.PastLastPixel | filters.cpp:14 | Once the index, a multiple of 4, reaches len - 4, no byte at or after it is rewritten. This is the loop bound that spares the last pixel. |
| Filters.Grayscale | filters.cpp:13-23 | The in-place loop produces exactly the per-pixel grayscale reference. |
| Filters.GrayscaleIdempotent | filters.cpp:13-23 | Applying grayscale twice gives the same buffer as applying it once. |
| Filters.Invert | filters.cpp:123-129 | The in-place loop produces exactly the reference: 255 - v on R, G and B of every pixel but the last; alpha and the last pixel are kept. |
| Filters.InvertInvolution | filters.cpp:123-129 | Inverting twice gives back the original buffer. |
| Filters.Outline | filters.cpp:62-121 | With height ≤ 1 the buffer is unchanged. Otherwise every pixel's RGB depends only on the snapshot: black when some channel differs by at least `limit` from the pixel below, white otherwise, and white on the last row. Alpha is kept. |
| Filters.ChannelOffset | filters.cpp:131-151 | Only when col + offset < width is a byte written, and then only the selected channel (0 gives R, 1 gives G, anything else B). It takes the snapshot's value at (row, col + offset). Every other byte is unchanged. |
| Filters.SelectedChannel | filters.cpp:141-147 | The channel written is always a colour channel, never alpha. |
| Filters.Mosaic | filters.cpp:171-206 | With chunk size k ≥ 1, every pixel's RGB becomes the snapshot's RGB at (row - row % k, col - col % k), the top-left of its tile. Partial tiles stop at the image edge. Alpha is kept. |
| Filters.MosaicStrip | filters.cpp:180-204 | One column of tiles: after it, every column left of the strip's end holds its tile colour. |
| Filters.StripStep | filters.cpp:193-203 | Painting one tile extends the painted region by exactly that tile, partial tiles included. |
| Filters.PaintTile | filters.cpp:197-203 | A tile's rectangle gets the given RGB. Alpha and every pixel outside it are unchanged. |
| Filters.TileColour | filters.cpp:185-187 | The colour read at a tile's corner is the tile colour of every pixel in it, and the corner lies inside the image. |
| Filters.MosaicConstantOnTiles | filters.cpp:179-194 | All pixels of one tile share the tile colour, and each pixel's tile origin is a multiple of k at or before it. |
| Filters.MosaicChunkOneCopies | filters.cpp:171-206 | Chunk size 1 copies the snapshot's RGB. |
| ThinningHelper.Binarize | thinning_helper.cpp:4-25 | Every pixel's RGB becomes (255, 255, 255) when the mean of r, g and b over 255 reaches the threshold, and (0, 0, 0) otherwise. Alpha is kept. |
| ThinningHelper.BinarizeIdempotent | thinning_helper.cpp:4-25 | For any threshold in (0, 1], binarizing an already binarized buffer changes nothing. |
| ThinningHelper.HalfThreshold | thinning_helper.cpp:10-11 | At threshold 0.5, a pixel turns white exactly when 2(r + g + b) ≥ 765. |
| ThinningHelper.PixelIndexShift | thinning_helper.cpp:28-35 | Moving one row changes the flat index by 4·width; moving one column changes it by 4. |
| ThinningHelper.NeighbourIsPixel | thinning_helper.cpp:28-35 | Each of the eight neighbour indices is the red byte of the pixel one step away in that direction. |
| ThinningHelper.PixelIndexInImage | thinning_helper.cpp:102 | Inside the image, the predicates' pixel index is the buffer layout's red byte. |
| ThinningHelper.ColumnZeroWraps | thinning_helper.cpp:40-44 | At column 0, the "left" neighbour is the previous row's last pixel, and the lower-bound guard admits it. |
| ThinningHelper.CheckBlackNeighbors | thinning_helper.cpp:27-82 | True exactly when 2 to 6 of the present neighbours have R == 0. A neighbour is present exactly when its flat index is inside the buffer on the side that direction guards. |
| ThinningHelper.CountBlackNeighbors | thinning_helper.cpp:39-79 | The counter, summed in the source's order (left, right, top, bottom, then the corners), equals the number of zeros in the clockwise neighbourhood. |
| ThinningHelper.BlackCount | thinning_helper.cpp:39-79 | The zeros in the neighbourhood are the per-direction black counts added up. |
| ThinningHelper.TestConnectivity | thinning_helper.cpp:84-184 | True exactly when the pixel is black and the ring top, TR, R, BR, B, BL, L, TL, top has exactly one "01". The ring takes present neighbours only, with '0' for 255 and '1' otherwise. A true result implies i ≥ 0, j ≥ 0 and a black pixel. |
| ThinningHelper.BuildRing | thinning_helper.cpp:109-173 | The nine guarded appends produce exactly the encoded ring: the present neighbours clockwise from the top, closed by the top again. |
| ThinningHelper.CountRises | thinning_helper.cpp:175-181 | The loop counts the "01" pairs in the string. |
| ThinningHelper.RingPieces | thinning_helper.cpp:109-173 | The ring is the concatenation of the nine directions' contributions. |
| ThinningHelper.EncodeSeen | thinning_helper.cpp:111-117 | Each direction contributes its letter when present, and nothing otherwise. |
| ThinningHelper.EncodeAppend | thinning_helper.cpp:109-173 | Encoding distributes over concatenation. |
| ThinningHelper.RisesOfUniform | thinning_helper.cpp:177-181 | A string of one repeated letter has no "01". |
| ThinningHelper.UniformNeighbourhoodNotConnected | thinning_helper.cpp:109-183 | A neighbourhood that is uniformly white, or uniformly not white, never passes the connectivity test. |
| ThinningHelper.VerticalLineCheck | thinning_helper.cpp:186-209 | True exactly when left, right and top are all present and non-zero, or the pixel above fails the connectivity test. Row 0 always passes. |
| ThinningHelper.HorizontalLineCheck | thinning_helper.cpp:211-234 | True exactly when bottom, right and top are all present and non-zero, or the pixel at (i, j + 1) fails the connectivity test. A false result needs i ≥ 0, j ≥ -1 and a black pixel at (i, j + 1); j < -1 always passes. Row 0 does not always pass. |
| ThinningHelper.HasEightNeighbors | thinning_helper.cpp:236-256 | For width ≥ 1: true exactly when the top-left and bottom-right neighbour indices are inside [0, dataLength); the other six then are too. |
| ThinningHelper.IsBlackPixel | thinning_helper.cpp:258-261 | In every image of this width that holds pixel (i, j), the result is true exactly when that pixel's red channel is 0. |
| ThinningHelper.IsBlackPixelReadsRed | thinning_helper.cpp:258-261 | Inside the image, the test reads that pixel's red byte and is true exactly when it is 0. |
| ThinningHelper.ReadableInside | thinning_helper.cpp:40-79 | For width ≥ 1 and a pixel inside the buffer, every guarded neighbour read stays inside the buffer. |
| ThinningHelper.NeighbourhoodNonEmpty | thinning_helper.cpp:109-177 | For width ≥ 1, an index on the four-byte grid inside the buffer, and a buffer of more than one pixel unless width is 1, the ring is never empty, so the `length() - 1` bound cannot underflow. This covers every pixel of a well-formed image. |
| ThinningHelper.ConnectivityDefinedInImage | thinning_helper.cpp:84-107 | Every pixel of the image can be tested for connectivity without a read out of bounds. |
| ThinningHelper.InteriorPixelDefined | thinning_helper.cpp:236-256 | For 1 ≤ i ≤ h - 2 and 1 ≤ j ≤ w - 2 the pixel has eight neighbours, and every predicate on it stays in bounds. |
| ThinningHelper.LastPixelHorizontalUndefined | thinning_helper.cpp:233 | At the image's last pixel, horizontalLineCheck tests (i, j + 1), whose red byte is one past the buffer. |
| VoronoiHelper.GetPixelCoords | voronoi_helper.cpp:3-25 | Empty exactly when index > 4·w·h. Otherwise it gives [x, y] with y·w + x equal to index / 4 under C's truncating division. For a non-negative index, 0 ≤ x < w. |
| VoronoiHelper.PixelCoordsRoundTrip | voronoi_helper.cpp:3-25 | On a pixel's red byte, it returns that pixel's column and row. |
| VoronoiHelper.PixelCoordsInImage | voronoi_helper.cpp:10-18 | For 0 ≤ index < 4·w·h the coordinates lie inside the image. index == 4·w·h gives (0, h). |
| Arith.TruncDiv | voronoi_helper.cpp:16-17 | C's integer division for a positive divisor: the quotient rounds toward zero. |
| VoronoiHelper.GetDist | voronoi_helper.cpp:30-32 | The squared distance is non-negative, and zero exactly when the points coincide. |
| VoronoiHelper.GetDistSymmetric | voronoi_helper.cpp:30-32 | The distance does not depend on which point comes first. |
| VoronoiHelper.IsLeaf | voronoi_helper.cpp:35-37 | A node is a leaf exactly when its subtree has one node. |
| VoronoiHelper.NextDim | voronoi_helper.cpp:87 | For currDim ≥ -1 the child's dimension (currDim + 1) % 2, in C's truncating arithmetic, is 0 or 1. For currDim ≥ 0 it differs from currDim % 2. |
| VoronoiHelper.Build2dTree | voronoi_helper.cpp:61-127 | The tree is null exactly when the list is empty, and a non-null root splits on currDim. |
| VoronoiHelper.BuildSorted | voronoi_helper.cpp:95-127 | For three or more points, the root splits on currDim and has both a left and a right child. |
| VoronoiHelper.BuildBaseCases | voronoi_helper.cpp:65-93 | 0 points give the null tree. 1 point gives a leaf on currDim. 2 points, unsorted, give list[1] as the root with list[0] as its only (left) child, on the next dimension. |
| VoronoiHelper.BuildKeepsPoints | voronoi_helper.cpp:61-127 | The tree stores exactly the input points, each as often as listed. |
| VoronoiHelper.BuildSize | voronoi_helper.cpp:61-127 | The tree has one node per input point. |
| VoronoiHelper.BuildIsWellFormed | voronoi_helper.cpp:61-127 | Every node caches its point's (x, y) and every child is on (parent dim + 1) % 2. No node has a right child without a left one. At every two-child node, the left points are ≤ and the right points ≥ the node's point on its axis. |
| VoronoiHelper.SortedIsWellFormed | voronoi_helper.cpp:96-124 | The median split of a list sorted on the current axis gives a well-formed node. |
| VoronoiHelper.SortedKeepsPoints | voronoi_helper.cpp:104-124 | The median and the two halves together hold the whole list. |
| VoronoiHelper.SortByPermutes | voronoi_helper.cpp:96-103 | Sorting keeps every point, as often as it occurs. |
| VoronoiHelper.SortBySorted | voronoi_helper.cpp:96-103 | The sorted list is ordered on the chosen coordinate (≤ only, since `std::sort` is not stable). |
| VoronoiHelper.SplitAtMedian | voronoi_helper.cpp:104-121 | In a sorted list, everything before the median index is ≤ it and everything after is ≥ it. |
| VoronoiHelper.Search | voronoi_helper.cpp:130-184 | The best distance never grows. When it changes, the new best is a point of the subtree; on a tree whose nodes cache their points' coordinates (every built tree), it is recorded with its true distance. |
| VoronoiHelper.SearchSides | voronoi_helper.cpp:149-180 | The two-child step has the same guarantee, whichever side is searched first: the best distance never grows, a new best is a point of the subtree, and on a tree whose nodes cache their points' coordinates it is recorded with its true distance. |
| VoronoiHelper.SearchIsExhaustive | voronoi_helper.cpp:130-184 | On a well-formed tree, the search result is at least as near as every stored point, whenever each node compares on its own axis. The pruning is sound even though it compares a coordinate gap with a squared distance. |
| VoronoiHelper.SidesAreExhaustive | voronoi_helper.cpp:151-179 | The two-child step misses no point below the node. |
| VoronoiHelper.RightFirstIsExhaustive | voronoi_helper.cpp:152-159 | A query right of the split: the skipped left side lies at least the best distance away. |
| VoronoiHelper.LeftFirstIsExhaustive | voronoi_helper.cpp:160-168 | A query on or left of the split: the skipped right side lies at least the best distance away. |
| VoronoiHelper.FarSideIsFar | voronoi_helper.cpp:157 | A point at least g away on one axis, with g ≥ the best squared distance, is no nearer than the best. |
| VoronoiHelper.RulesAgreeOffDiagonal | voronoi_helper.cpp:149-151 | The source's axis test and the by-dimension test agree on every query with x != y. |
| VoronoiHelper.FindNearestNeighbor | voronoi_helper.cpp:187-195 | The answer is a point stored in the tree. |
| VoronoiHelper.NearestBy | voronoi_helper.cpp:187-195 | Shared by both axis rules: the answer is a stored point, and on a tree that caches its points' coordinates it is never farther from the query than the root. |
| VoronoiHelper.NearestByIsNearest | voronoi_helper.cpp:187-195 | On a well-formed tree no stored point is nearer than the answer, under the by-dimension rule, and under the source's rule for x != y. |
| VoronoiHelper.BuiltTreeFindsNearest | voronoi_helper.cpp:61-195 | Building from any non-empty list and querying at x != y returns a listed point that no listed point beats (brute-force minimum, ties allowed). |
| VoronoiHelper.DiagonalQueryMissesNearest | voronoi_helper.cpp:149-151 | (6,2), (18,4), (2,5), built on dimension 1 and queried at (2,2), return (6,2) at squared distance 16, although (2,5) is at 9. Comparing by dimension returns (2,5). |
| VoronoiHelper.DiagonalExampleTree | voronoi_helper.cpp:96-124 | That list is already in y order, so (18,4) is the root, with (6,2) on its left and (2,5) on its right. |
| VoronoiHelper.FindNearestNeighborByDimension | voronoi_helper.cpp:149-151 | The corrected search also returns a stored point. |
| VoronoiHelper.BuiltTreeFindsNearestByDimension | voronoi_helper.cpp:61-195 | With the axis chosen by dimension, the build-and-query answer is a brute-force nearest point for every query, including x == y. |
| Utils.TrimString | utils.cpp:11-20 | The loop returns the input with every ' ' removed and the other characters in order. The result contains no space and is no longer than the input. |
| Utils.WithoutSpacesAppend | utils.cpp:14-18 | Removing spaces distributes over concatenation, which is what appending one character at a time relies on. |
| Utils.NoSpacesLeft | utils.cpp:15 | No space survives. |
| Utils.OthersKept | utils.cpp:15-17 | Every character other than ' ', tabs and newlines included, is kept as often as it occurs. |
| Utils.SpacesCounted | utils.cpp:14-18 | The result is shorter than the input by exactly the number of spaces. |
| Utils.LengthKeptIffNoSpaces | utils.cpp:14-18 | The length is ≤ the input's, with equality exactly when the input has no space. |
| Utils.NoSpacesFixed | utils.cpp:11-20 | A string without spaces is returned unchanged. |
| Utils.TrimIdempotent | utils.cpp:11-20 | Trimming twice is trimming once. |
| Utils.TrimExample | utils.cpp:15 | "a\tb c\n" becomes "a\tbc\n": tabs and newlines are not spaces. |

## Left out

- `saturate` and `crt` (filters.cpp:25-57, 153-169) compute in floating point with truncating casts. `crt` also takes `row % scanLineThickness` with no guard against 0.
- The GL, ImGui and stb glue in utils.cpp: image import and export, texture upload and readback, editor state and the editor window.
- `deleteHelper` and `deleteTree` (voronoi_helper.cpp:40-56) free memory by hand. Datatype values need no freeing.
- The random channel selector `generateRandNum3` calls `rand()`. ChannelOffset takes the drawn number as a parameter.
- Functions only declared in filters.hh: `voronoi`, `thinning`, `dots`, `kuwahara`, `kuwahara_helper`, `isValidPixel`, `rgbToHsv`, `getRgb`, `setFilterState`, `clearFilterState`. Their bodies are not part of this model.
- The `std::pair` return type declared for `getPixelCoords` in voronoi_helper.hh. The model follows the `std::vector` definition.
- Fixed-width integer overflow is not modelled. The source computes `4 * i * width` and `(r + g + b)` in `int`; the model's integers are unbounded.
- ThinningHelper.Binarize: the float threshold is taken as an exact rational tn / td, and the float division `avg / 255.0` as exact arithmetic. Rounding at the boundary is not modelled.
- VoronoiHelper.GetDist: the source returns `pow` results as a `float`. The model uses the exact integer squared distance, which the float matches only below 2^24.
- VoronoiHelper.GetPixelCoords: a non-positive width with an in-range index divides by zero or runs on a negative width. Such calls are excluded by the precondition.
- VoronoiHelper.SortBy: `std::sort` is modelled by a deterministic insertion sort. The proofs use only that its result is a sorted permutation, so they hold for any order `std::sort` might choose among equal keys.
- VoronoiHelper.Search: requires that no node has a right child without a left one. On such a node the source may follow the null left pointer: always when the query is on or left of the split (voronoi_helper.cpp:161, 176), and on the right side when the prune test at voronoi_helper.cpp:157 or 172 passes. Otherwise it searches only the right child and returns normally, and that defined case is excluded too. Every built tree meets the requirement.
- Filters.Mosaic: requires chunkSize ≥ 1. With 0, the source's loops never advance.
- Filters.ChannelOffset: requires offset ≥ 0. A negative offset makes the source read before the start of the row.
- The thinning predicates take the buffer itself, so `dataLength` is its length. Each method requires exactly the reads its guards do not protect: a neighbour guarded only by `>= 0` must still lie below the length, and so on.

## Findings

| source | as written | input that shows it | evidently intended | confidence | as-written member | corrected member |
|---|---|---|---|---|---|---|
| voronoi_helper.cpp:149-151 | The axis is chosen by checking whether the selected coordinate's value equals the query's x, so a dimension-1 node compares on x whenever the query has x == y. This is modelled by FindNearestNeighbor. | The points (6,2), (18,4), (2,5), built on dimension 1 and queried at (2,2), give (6,2) at squared distance 16; (2,5) is at 9. | Compare on x exactly when the node's dimension is 0. This is modelled by FindNearestNeighborByDimension, which returns a brute-force nearest point for every query. | high by proof, not executed | VoronoiHelper.DiagonalQueryMissesNearest | VoronoiHelper.BuiltTreeFindsNearestByDimension |
