# Ben Day dots pop-art filter — a Dafny model

This project models the image pipeline of `i7208422_Sim_BenDayDots.c`. The
program turns a photograph into a pop-art picture in the style of a comic
print:

- The colours are reduced with a median-cut quantizer, to 16 colours for the
  picture and to 2 colours for the edge map. The quantizer sorts buckets
  with its own quicksort and recolours each pixel to its nearest palette
  entry.
- An edge map is the difference of a light 3x3 and a heavy 5x5 blur of the
  gray 2-colour image.
- Colours near red, blue, yellow, black and white are snapped to five fixed
  colours. The remaining colours are whitened according to a Ben Day dot
  template.
- The edge map's black lines are thickened with a 3x3 stamp.
- The thickened lines are laid over the recoloured picture.

Surfaces are flat sequences of `Pixel(a, r, g, b)` bytes, with cell (x, y)
at index y * w + x. The 32-bit ARGB8888 word appears only where the program
does whole-word arithmetic, in the subtraction of the two blurred surfaces.
Each module follows one function or group of functions of the program:

- `Pixels` and `Grid`: pixels, words and the surface layout.
- `ManualSort`: `manual_qsort`.
- `MedianCut`: `sortColourRGB`, `longest_axisRGB` and `MedianCutAlgorithm`.
- `Nearest` and `Quantize`: `ColourQuantization`.
- `Blur` and `Edges`: `EdgeDetection`.
- `BenDay`: `BenDay`.
- `Thicken`: `ThickenEdges`.
- `Composite`: `CombineReplace`.
- `Pipeline`: the order in which `main` calls the stages.

Some behaviours of the program are easy to misread:

- The 5x5 weights sum to 273 but the divisor is 265, and every term is
  floored on its own. A flat surface is therefore not reproduced in
  general:
  - A flat level 128 stays 128 under the light blur but becomes 115 under
    the heavy one (`Blur.MidGrayWindow`).
  - A flat 255 becomes 247 under both (`Blur.WhiteWindow`).
- In the edge map, "no edge" is the zero word, and the zero word is black.
  - The one-cell outer ring is always black (`Edges.SameInputsOuterRing`).
  - A flat mid-gray 4x4 image gives an all-black edge map
    (`Edges.FourByFourMidGray`), so thickening and compositing turn the
    whole picture black rather than leaving it unchanged.
  - The final picture always has a black frame (`Pipeline.Stylise`).
- Thickening is not idempotent (`Thicken.ThickenNotIdempotent`). It reads
  the map from before the pass, and a second pass stamps around the newly
  blackened cells.
- The dark rule of the second Ben Day pass whitens a pixel when no template
  channel is 255 (`BenDay.NoFullChannel`). The comment on that test
  (i7208422_Sim_BenDayDots.c:685) says "if the ben day pixel is not white",
  but a template pixel such as (255, 0, 0) is not white and still keeps the
  pixel dark.
- The snap rules of the first Ben Day pass are applied one after another,
  each overwriting the last. They are pairwise disjoint
  (`BenDay.RulesDisjoint`), so this equals first-match classification
  (`BenDay.SnapIsFirstMatch`).
- The duplicate check of `ThickenEdges` breaks out after comparing against
  the first mark only. The first mark always precedes the cell being
  examined, so the check never fires (`Thicken.DuplicateCheckNeverFires`).
  The mark list is therefore the plain concatenation of the stamps.

## Model

| member | source | states |
|---|---|---|
| Pixels.MapRgb | i7208422_Sim_BenDayDots.c:381 | writing a colour with SDL_MapRGB gives an opaque pixel carrying exactly that colour |
| Pixels.FromToWord | i7208422_Sim_BenDayDots.c:963-968 | unpacking an ARGB8888 word packed from a pixel gives the pixel back |
| Pixels.ToFromWord | i7208422_Sim_BenDayDots.c:963-968 | packing the pixel unpacked from any 32-bit word gives the word back |
| Pixels.ToWordInjective | i7208422_Sim_BenDayDots.c:963-968 | two pixels with the same ARGB8888 word are the same pixel |
| ManualSort.Swap | i7208422_Sim_BenDayDots.c:92-108 | the three-channel swap exchanges entries l and r, leaves every other entry alone and keeps the multiset of samples |
| ManualSort.ScanUp | i7208422_Sim_BenDayDots.c:83-86 | the left scan stops at the first entry whose key is not below the pivot, having passed only keys below it |
| ManualSort.ScanDown | i7208422_Sim_BenDayDots.c:87-90 | the right scan stops at the first entry whose key is not above the pivot, having passed only keys above it |
| ManualSort.ScansStayInBucket | i7208422_Sim_BenDayDots.c:77-90 | the pivot taken from the middle of the range stops both scans inside [start, end], so the bound tests never decide |
| ManualSort.SwapKeepsSides | i7208422_Sim_BenDayDots.c:92-108 | after a swap the prefix up to l holds keys at most the pivot and the suffix from r keys at least the pivot |
| ManualSort.Partition | i7208422_Sim_BenDayDots.c:81-109 | the partition loop permutes only [start, end] and ends with r <= l (the two may meet), keys at most the pivot before l and at least the pivot after r |
| ManualSort.JoinSorted | i7208422_Sim_BenDayDots.c:111-112 | sorting [start, r] and then [l, end] of a partitioned range sorts the whole range |
| ManualSort.QSort | i7208422_Sim_BenDayDots.c:64-114 | manual_qsort permutes the entries of [start, end] among themselves, leaves the rest untouched and sorts that range by the chosen channel |
| MedianCut.Extent | i7208422_Sim_BenDayDots.c:129-131 | the spread of a channel over a bucket bounds every difference of two keys, is itself the difference of two keys of the bucket, and lies in 0..255 |
| MedianCut.WrappedDifference | i7208422_Sim_BenDayDots.c:129-131 | the difference of two Uint32 scratch entries stored in an int is the true difference modulo 2^32, in the int range |
| MedianCut.ExtentAsWritten | i7208422_Sim_BenDayDots.c:129-131 | the program's read of the scratch array after the keys were written from index 0, a value in the int range; its meaning is stated by MedianCut.ExtentAsWrittenAtZero and MedianCut.ExtentAsWrittenMissesSpread |
| MedianCut.LongestAxis | i7208422_Sim_BenDayDots.c:133-160 | red is chosen iff its spread is strictly the greatest, blue iff it ties or beats red and strictly beats green, green otherwise and on every tie it is part of; the chosen spread is the largest |
| MedianCut.CutAxisIsWidest | i7208422_Sim_BenDayDots.c:118-163 | the channel the bucket is cut along has a spread at least that of every other channel |
| MedianCut.MeanKey | i7208422_Sim_BenDayDots.c:182-191 | the floored average of a channel is the unique v with v * n <= sum < (v + 1) * n and lies between the channel's minimum and maximum |
| MedianCut.Mean | i7208422_Sim_BenDayDots.c:180-199 | every channel of a leaf's palette colour lies between that channel's minimum and maximum over the leaf |
| MedianCut.MeanInBand | i7208422_Sim_BenDayDots.c:180-199 | if all samples of a leaf have a channel within [low, high], so does the palette colour |
| MedianCut.LeafCount | i7208422_Sim_BenDayDots.c:180-249 | the number of palette entries the recursion writes for a bucket of a given size; the bounds are MedianCut.LeafCountPositive, MedianCut.LeafCountAtMost and MedianCut.LeafCountExact, and MedianCut.MedianCut grows the palette by exactly this count |
| MedianCut.LeafRanges | i7208422_Sim_BenDayDots.c:180-249 | the leaf buckets the recursion reaches, left to right, one per palette entry it writes |
| MedianCut.LeafRangesWithin | i7208422_Sim_BenDayDots.c:180-249 | every leaf bucket of a non-empty bucket is non-empty and lies inside it |
| MedianCut.LeafMeansAt | i7208422_Sim_BenDayDots.c:180-199 | palette entry cursor + k is the floor mean, channel by channel, of the samples of leaf k |
| MedianCut.SplitMeans | i7208422_Sim_BenDayDots.c:245-249 | cutting the right half keeps the left half's samples and entries, so the entries of both halves are the leaf means of the whole bucket |
| MedianCut.LeafCountPositive | i7208422_Sim_BenDayDots.c:180-249 | every bucket produces at least one palette entry |
| MedianCut.SortBucket | i7208422_Sim_BenDayDots.c:236-242 | the bucket is permuted in place and sorted along its widest channel |
| MedianCut.CutAxisOfPerm | i7208422_Sim_BenDayDots.c:118-163 | rearranging a bucket keeps its length, its spread on every channel, and the channel it is cut along |
| MedianCut.ExtentAtMost | i7208422_Sim_BenDayDots.c:129-131 | a non-empty bucket every sample of which is a sample of another non-empty bucket (a sub-bucket or a rearrangement) has at most that bucket's spread on every channel |
| MedianCut.HalvesOrdered | i7208422_Sim_BenDayDots.c:242-249 | halves that hold the samples of the two halves of a sorted range, in any order, keep every sample of the first at or below every sample of the second |
| MedianCut.FrontHalf | i7208422_Sim_BenDayDots.c:245-249 | the cut of the right half leaves the left half alone, and the left half holds the samples of the sorted left half |
| MedianCut.BackHalf | i7208422_Sim_BenDayDots.c:245-249 | after both recursive cuts the right half holds the samples of the sorted right half |
| MedianCut.WholeBucket | i7208422_Sim_BenDayDots.c:236-249 | after the sort and both recursive cuts the bucket holds the samples it started with |
| MedianCut.SplitOrdered | i7208422_Sim_BenDayDots.c:236-249 | after the sort along a channel and the two recursive cuts, the bucket holds its original samples, its halves are the halves' results, and the first half lies at or below the second on that channel |
| MedianCut.SplitMedian | i7208422_Sim_BenDayDots.c:236-249 | sorting along the widest channel, cutting at start + (end - start) / 2 and cutting both halves leaves the bucket with the split structure `MedianCut.MedianSplits` |
| MedianCut.JoinSplits | i7208422_Sim_BenDayDots.c:236-249 | a rearranged bucket whose halves are ordered along the original bucket's widest channel, and split so in turn, has the split structure |
| MedianCut.BlackWhiteSplit | i7208422_Sim_BenDayDots.c:236-249 | two black and two white samples with the split structure at leaves of two are black, black, white, white |
| MedianCut.BlackWhiteOrdered | i7208422_Sim_BenDayDots.c:242-249 | two black and two white samples whose first half lies at or below the second on any channel are black, black, white, white |
| MedianCut.UniformLeafMeans | i7208422_Sim_BenDayDots.c:180-199 | a leaf whose samples all have one colour writes that colour |
| MedianCut.MeanOfUniformRange | i7208422_Sim_BenDayDots.c:180-199 | the floor mean of a range of samples of one colour is that colour |
| MedianCut.MeanOfUniform | i7208422_Sim_BenDayDots.c:180-199 | the floor mean of samples of one colour is that colour |
| MedianCut.TwoUniformLeaves | i7208422_Sim_BenDayDots.c:180-249 | four samples whose halves each have one colour, cut into leaves of two, write one entry per half, in order, of that half's colour |
| MedianCut.BlackWhiteMeans | i7208422_Sim_BenDayDots.c:180-249 | black, black, white, white cut into leaves of two writes black then white |
| MedianCut.MedianCut | i7208422_Sim_BenDayDots.c:166-251 | an empty bucket divides by zero, and only then; otherwise the palette grows by exactly the bucket's leaf count and keeps what was written before, the samples are permuted within the bucket, each new entry lies in every channel band that holds all samples of the bucket, the new entries are, in order, the floor means of the leaf buckets as the samples lie at the end, and that arrangement carries the cut's split structure (`MedianCut.MedianSplits`): every bucket larger than a leaf has its first half at or below its second half on the bucket's widest channel |
| MedianCut.LeafCountAtMost | i7208422_Sim_BenDayDots.c:245-249 | a bucket of at most 2^j * MaxElementCount samples gives at most 2^j leaves |
| MedianCut.LeafCountExact | i7208422_Sim_BenDayDots.c:245-249 | a bucket of exactly 2^j * MaxElementCount samples gives exactly 2^j leaves |
| MedianCut.ExtentAsWrittenAtZero | i7208422_Sim_BenDayDots.c:50-55 | for the bucket starting at 0 the program's read of the scratch array is the true spread |
| MedianCut.ExtentAsWrittenMissesSpread | i7208422_Sim_BenDayDots.c:129-131 | for a bucket starting at 2 the program reads unwritten scratch entries, sees no spread and cuts along green, while the widest channel is red |
| Nearest.Distance | i7208422_Sim_BenDayDots.c:353-357 | the truncated Euclidean distance of two colours; it is zero iff the colours are equal |
| Nearest.ISqrt | i7208422_Sim_BenDayDots.c:357 | the integer root r of n satisfies r * r <= n < (r + 1) * (r + 1) |
| Nearest.ISqrtUnique | i7208422_Sim_BenDayDots.c:357 | that bracket determines the integer root, so it is the truncated square root |
| Nearest.WrappedSquare | i7208422_Sim_BenDayDots.c:353-355 | the unsigned channel difference wraps modulo 2^32, but its square modulo 2^32 is the true square |
| Nearest.SquareZero | i7208422_Sim_BenDayDots.c:353-355 | a squared channel difference is zero iff the channels are equal |
| Nearest.NearestIndex | i7208422_Sim_BenDayDots.c:349-379 | the search returns the first palette index whose truncated distance is minimal |
| Nearest.FirstNearestUnique | i7208422_Sim_BenDayDots.c:359-378 | at most one index is the first nearest, because later rows replace the choice only when strictly closer |
| Nearest.ExactEntryWins | i7208422_Sim_BenDayDots.c:349-379 | a colour that is itself in the palette is recoloured to itself |
| Nearest.TruncationTie | i7208422_Sim_BenDayDots.c:357-371 | truncating the root makes distances 1 and sqrt 2 tie, so the earlier row wins although the later one is closer |
| Quantize.MaxElementCount | i7208422_Sim_BenDayDots.c:325-329 | the leaf size is the least m with m * n >= the pixel count |
| Quantize.Recolour | i7208422_Sim_BenDayDots.c:338-384 | every pixel becomes the opaque colour of the palette entry that is its first nearest one |
| Quantize.ColourQuantization | i7208422_Sim_BenDayDots.c:256-395 | a palette size of 0 or an empty image fails; otherwise the result exists iff the leaves fit the palette, the palette has one entry per leaf, each entry lies in every channel band that holds all pixels and is the floor mean of its leaf of a rearrangement of the pixels in which every bucket larger than a leaf is split at its midpoint along its widest channel, and every pixel is recoloured to its nearest entry |
| Quantize.PowerOfTwoFits | i7208422_Sim_BenDayDots.c:325-335 | for a power-of-two palette size the leaves never exceed the palette, whatever the image size |
| Quantize.DividingSizeFillsPalette | i7208422_Sim_BenDayDots.c:325-335 | when the palette size 2^k divides the pixel count the palette is filled exactly |
| Quantize.SmallImagePalette | i7208422_Sim_BenDayDots.c:325-335 | 17 pixels with 16 colours give leaves of 2 and only 9 palette entries |
| Quantize.NonPowerOfTwoOverflows | i7208422_Sim_BenDayDots.c:321-332 | 6 pixels with 3 colours give 4 leaves, one more than the palette holds |
| Quantize.ConstantImageKeepsColour | i7208422_Sim_BenDayDots.c:338-382 | a one-colour image yields a palette of that colour only and an opaque image is left as it is |
| Quantize.UnwrittenEntryChosen | i7208422_Sim_BenDayDots.c:349-382 | with one written entry and a white unwritten row, a white pixel is recoloured to a colour the median cut never produced |
| Quantize.BlackWhitePalette | i7208422_Sim_BenDayDots.c:236-249 | black, white, black, white with 2 colours: the only palette the cut can write is black then white, because the sort on the widest channel puts both blacks in the first leaf |
| Blur.Conv | i7208422_Sim_BenDayDots.c:443-470 | the weighted sum with every term floored on its own; its properties are Blur.ConvMonotone, Blur.ConvBelowDot and Blur.ConvOfMultiple |
| Blur.ConvMonotone | i7208422_Sim_BenDayDots.c:443-470 | raising window levels never lowers the sum of floored terms |
| Blur.ConvBelowDot | i7208422_Sim_BenDayDots.c:443-470 | flooring each term gives at most the exact weighted sum over the divisor |
| Blur.ConvOfMultiple | i7208422_Sim_BenDayDots.c:443-470 | when every level is the divisor times c, the floored sum is c times the weight sum |
| Blur.Window | i7208422_Sim_BenDayDots.c:443-468 | the window around an inside cell has one red level in 0..255 per kernel weight |
| Blur.BlurImage | i7208422_Sim_BenDayDots.c:434-486 | the blur leaves every cell outside its radius unchanged and makes every inside cell opaque gray at the blurred level |
| Blur.LightWellFormed | i7208422_Sim_BenDayDots.c:443-468 | the 3x3 kernel has one non-negative weight per cell of its square, and its weights sum to 16, its divisor |
| Blur.HeavyWellFormed | i7208422_Sim_BenDayDots.c:501-574 | the 5x5 kernel has one non-negative weight per cell of its square and a non-zero divisor |
| Blur.HeavyWeightSum | i7208422_Sim_BenDayDots.c:501-574 | the 5x5 weights sum to 273, more than the divisor 265 |
| Blur.WhiteWindow | i7208422_Sim_BenDayDots.c:443-574 | a white window blurs to 247 under both kernels |
| Blur.MidGrayWindow | i7208422_Sim_BenDayDots.c:443-574 | a window of level 128 blurs to 128 under the light kernel and to 115 under the heavy one |
| Blur.BlurRange | i7208422_Sim_BenDayDots.c:470-588 | both blurs give a level in 0..247, so storing it as a gray byte loses nothing |
| Blur.BlurImageAt | i7208422_Sim_BenDayDots.c:478-486 | an inside cell of the blurred surface is the gray of its blurred level |
| Blur.BlurLocal | i7208422_Sim_BenDayDots.c:434-474 | the blurred level depends only on the red levels inside the kernel's window |
| Blur.BlurMonotone | i7208422_Sim_BenDayDots.c:434-474 | a surface that is nowhere darker in the window blurs to a level at least as high |
| Blur.BlurOfBlack | i7208422_Sim_BenDayDots.c:434-474 | a black window blurs to 0 |
| Blur.LightKeepsMultiplesOf16 | i7208422_Sim_BenDayDots.c:434-474 | the light blur reproduces a flat level that is a multiple of 16 |
| Blur.LightBelowWindowMax | i7208422_Sim_BenDayDots.c:434-474 | the light blur never exceeds the brightest level of its window |
| Edges.EdgeMap | i7208422_Sim_BenDayDots.c:596-602 | every cell of the edge map is the word difference of the heavy and the light cell |
| Edges.EdgeDetection | i7208422_Sim_BenDayDots.c:397-607 | both blurs, then the difference; the edge map has the image's size, and its cells are stated ring by ring by Edges.EdgeOuterRing, Edges.EdgeMiddleRing and Edges.EdgeInterior |
| Edges.EdgePixel | i7208422_Sim_BenDayDots.c:596-602 | the edge word added to the light word modulo 2^32 gives back the heavy word |
| Edges.GrayEdge | i7208422_Sim_BenDayDots.c:596-602 | for gray inputs a heavy level g at least the light level l gives a transparent gray of g - l, and a smaller one borrows into alpha and blue |
| Edges.GrayEdgeBlack | i7208422_Sim_BenDayDots.c:596-602 | the edge of two gray pixels is black iff their levels are equal |
| Edges.EdgeOfSame | i7208422_Sim_BenDayDots.c:596-602 | subtracting a pixel from itself gives the zero word |
| Edges.EdgeOuterRing | i7208422_Sim_BenDayDots.c:397-602 | on the outer ring neither blur writes, so the edge is the difference of the two inputs |
| Edges.EdgeMiddleRing | i7208422_Sim_BenDayDots.c:397-602 | on the ring at distance 1 only the light blur writes, so the edge is the heavy input minus the light blur |
| Edges.EdgeInterior | i7208422_Sim_BenDayDots.c:397-602 | inside distance 2 the edge is the heavy blur minus the light blur, black iff the two levels agree |
| Edges.FlatMidGrayInterior | i7208422_Sim_BenDayDots.c:397-602 | a flat mid-gray surface gives the edge word 0xFFF2F2F3 inside distance 2, not black |
| Edges.FlatWhiteInterior | i7208422_Sim_BenDayDots.c:397-602 | a flat white surface gives black edges inside distance 2 |
| Edges.SameInputsOuterRing | i7208422_Sim_BenDayDots.c:1017-1023 | with the same gray surface as both inputs the outer ring of the edge map is the zero word |
| Edges.FlatMidGrayMiddleRing | i7208422_Sim_BenDayDots.c:397-602 | a flat mid-gray surface gives black edges on the ring at distance 1 |
| Edges.FourByFourMidGray | i7208422_Sim_BenDayDots.c:397-602 | the edge map of a flat mid-gray 4x4 surface is black everywhere |
| BenDay.Snap | i7208422_Sim_BenDayDots.c:623-661 | the first pass as written, five overwriting ifs; its meaning is BenDay.SnapIsFirstMatch, BenDay.SnapResult and BenDay.SnapIdempotent |
| BenDay.Dot | i7208422_Sim_BenDayDots.c:667-704 | the second pass as written; its meaning is BenDay.DotWritesWhite, BenDay.DotKeepsSnapped and BenDay.DotIdempotent |
| BenDay.BenDaySurface | i7208422_Sim_BenDayDots.c:610-707 | each cell of the surface is the second pass applied to the snapped cell and its template cell |
| BenDay.RulesDisjoint | i7208422_Sim_BenDayDots.c:631-659 | no colour matches two of the five snap rules |
| BenDay.SnapIsFirstMatch | i7208422_Sim_BenDayDots.c:623-661 | the overwriting sequence of ifs snaps a matching pixel to the opaque target of its rule and leaves any other pixel as it is |
| BenDay.TargetsMatchOwnRule | i7208422_Sim_BenDayDots.c:631-659 | each of the five target colours satisfies its own rule |
| BenDay.SnapResult | i7208422_Sim_BenDayDots.c:623-661 | the first pass yields the pixel unchanged or an opaque snapped colour, and changes only pixels that match a rule |
| BenDay.SnapIdempotent | i7208422_Sim_BenDayDots.c:623-661 | snapping twice is snapping once |
| BenDay.DotWritesWhite | i7208422_Sim_BenDayDots.c:667-704 | the second pass writes nothing but opaque white, and writes it exactly when an unsnapped pixel is dark over a template with no full channel or light over a pure white template |
| BenDay.DotKeepsSnapped | i7208422_Sim_BenDayDots.c:675-678 | a snapped colour passes the second pass unchanged |
| BenDay.DotComplementary | i7208422_Sim_BenDayDots.c:683-700 | the dark and the light rule never whiten a pixel for the same template pixel |
| BenDay.DotIdempotent | i7208422_Sim_BenDayDots.c:667-704 | the second pass twice against the same template is the second pass once |
| BenDay.BenDayPixelResult | i7208422_Sim_BenDayDots.c:610-707 | each output is the input, an opaque snapped colour or opaque white, and a pixel matching a snap rule ends as that rule's target |
| BenDay.BenDayIdempotent | i7208422_Sim_BenDayDots.c:610-707 | recolouring a recoloured surface against the same template changes nothing |
| Thicken.ThickenEdges | i7208422_Sim_BenDayDots.c:709-782 | each cell is kept or forced opaque black; it is black afterwards iff it was black or lies in the 3x3 stamp of a black interior cell, and only stamped cells change |
| Thicken.ThickenKeepsBlack | i7208422_Sim_BenDayDots.c:709-782 | thickening never removes a black cell |
| Thicken.ThickenCell | i7208422_Sim_BenDayDots.c:727-778 | a stamped cell becomes opaque black and any other cell keeps its pixel |
| Thicken.ThickenNotIdempotent | i7208422_Sim_BenDayDots.c:727-778 | a 5x5 map with a black centre leaves its corner white after one pass, and a second pass blackens that corner |
| Thicken.DuplicateCheckNeverFires | i7208422_Sim_BenDayDots.c:735-745 | the duplicate check, which compares with the first mark only, never skips a cell, so the mark list is the plain concatenation of stamps |
| Thicken.ScanMarks | i7208422_Sim_BenDayDots.c:727-771 | the mark list with the program's duplicate check; Thicken.DuplicateCheckNeverFires shows it equals the plain list |
| Thicken.MarkCount | i7208422_Sim_BenDayDots.c:746-767 | the list holds nine marks per black interior cell |
| Thicken.PlainMarksMembers | i7208422_Sim_BenDayDots.c:727-771 | a cell is in the mark list iff it lies in the stamp of a black interior cell |
| Thicken.InStampIffStamped | i7208422_Sim_BenDayDots.c:727-771 | lying in the stamp of a black interior cell is the same as having a black interior cell among one's 3x3 neighbours |
| Thicken.ApplyMarks | i7208422_Sim_BenDayDots.c:773-778 | the write loop makes every listed cell opaque black and leaves every other cell unchanged |
| Thicken.AsWrittenAgrees | i7208422_Sim_BenDayDots.c:717-778 | the program's mark list stays within the surface, and writing it gives the thickened map |
| Thicken.MarkBufferOverflow | i7208422_Sim_BenDayDots.c:717 | a 3x3 map with a black centre needs nine marks in a buffer of four |
| Composite.CombineReplace | i7208422_Sim_BenDayDots.c:784-815 | each cell of the composite is the styled cell, or opaque black where the edge cell is black |
| Composite.CombineCells | i7208422_Sim_BenDayDots.c:796-813 | a composite cell is black iff the edge or the styled pixel is black |
| Composite.CombineIdempotent | i7208422_Sim_BenDayDots.c:796-813 | laying the same edges over a composite again changes nothing |
| Pipeline.FrameIsBlack | i7208422_Sim_BenDayDots.c:1017-1051 | because both edge inputs are the same gray surface, the one-cell frame of the final picture is opaque black whatever the image |
| Pipeline.FinalCells | i7208422_Sim_BenDayDots.c:1040-1051 | each final cell is black under a black edge cell and the dotted quantized cell elsewhere |
| Pipeline.Stylise | i7208422_Sim_BenDayDots.c:990-1051 | the pipeline succeeds iff the image is not empty; then the quantized image is the image recoloured against a median-cut palette of at most 16 entries, the edge map is the thickened edge detection of the gray of the image recoloured against a median-cut palette of at most 2 entries, all surfaces have the image's size, the final picture has a black frame, and each final cell is black under a black edge and the dotted quantized cell elsewhere |

## Left out

- `main`, image loading, SDL windows, the event loop, the display switching
  and the scaling of the dot template are I/O. The template is a parameter
  of `Pipeline.Stylise`.
- `CovertGrayscale` computes the gray level in single-precision floating
  point. `Pipeline.GraySurface` takes the level function as a parameter,
  `luma`, and fixes only the opaque gray output it produces.
- `CombineMultiply` works in floating point and `main` never calls it.
- `Nearest.NearestIndex`: the C library square root in double precision is
  modelled as the exact integer square root. Below 3 * 255^2 + 1 every
  double root truncates to the integer root, so the two agree.
- `sortColourRGB` sorts the three scratch arrays with the C library `qsort`.
  It is modelled by what it yields: the sorted keys of the bucket
  (`MedianCut.Extent`, `MedianCut.ExtentAsWrittenAtZero`).
- Allocation failures, `exit`, `free` and `printf` are left out.
- `MedianCut.MeanKey`: the `int` channel sums are unbounded in the model.
  They overflow only beyond eight million pixels per bucket.
- `Thicken.ScanMarks`: the mark list is unbounded. The overflow past the
  (h - 1) * (w - 1) buffer is exhibited (`Thicken.MarkBufferOverflow`), but
  the memory corruption it causes is not modelled.
- The heavy blur asks for (h - 2) * (w - 2) scratch words
  (i7208422_Sim_BenDayDots.c:423). That count is negative when one side of
  the image is 1 and the other at least 3, and it converts to a huge
  unsigned size, so the allocation fails and the program exits. The model
  does not model the failed allocation: it blurs the cells the loops would
  visit, and on such an image the heavy loops visit none. The light blur and
  `ThickenEdges` ask for (h - 1) * (w - 1) (lines 412 and 717), which is
  never negative for a non-empty image.
- `Quantize.ColourQuantization` stops with `PaletteOverflow` where the
  program writes past the palette for a palette size that is not a power
  of two. The program only uses 16 and 2, for which this cannot happen
  (`Quantize.PowerOfTwoFits`).
- `Quantize.ColourQuantization`: the palette contract names some
  rearrangement of the pixels with the cut's split structure, not the exact
  order `manual_qsort` leaves. When samples with equal keys on the cut
  channel straddle a midpoint, more than one palette meets it. The method
  itself computes the exact order.

## Findings

| source | as written | input that shows it | evidently intended | confidence | as-written member | corrected member |
|---|---|---|---|---|---|---|
| i7208422_Sim_BenDayDots.c:129-131 | the spread of a channel is read as scratch[end-1] - scratch[start], but sortColourRGB fills the scratch array from index 0 | a bucket [2, 4) with red keys 0 and 200 and zeros in the unwritten scratch entries: every spread reads 0, so the bucket is cut along green | the spread of the bucket's keys, maximum minus minimum | not executed | MedianCut.ExtentAsWrittenMissesSpread | MedianCut.CutAxisIsWidest |
| i7208422_Sim_BenDayDots.c:349 | the nearest search scans all colour_palette_no rows, including rows the median cut never wrote when there are fewer leaves | a search table whose only written entry is black and whose unwritten second row holds white: a white pixel is recoloured to the white row, a colour the cut never wrote (with 17 pixels and 16 colours only 9 of the 16 rows are written, `Quantize.SmallImagePalette`) | search only the entries the median cut wrote | not executed | Quantize.UnwrittenEntryChosen | Quantize.ColourQuantization |
| i7208422_Sim_BenDayDots.c:717 | the mark list has room for (h - 1) * (w - 1) ints, while each black interior cell appends nine | a 3x3 edge map with a black centre writes nine ints into a buffer of four | a buffer of nine ints per interior cell, or a per-cell mask | not executed | Thicken.MarkBufferOverflow | Thicken.ThickenEdges |
