# CelPaint engine in Dafny

CelPaint is a batch pixel editor for animation cels. It holds an ordered
sequence of RGBA8 frames and has three kinds of edit:

- colour replacement driven by an ordered list of rules, where the first
  matching enabled rule wins;
- a guide check that draws a ring around every 4-connected region of a
  guide colour;
- an alpha check that draws a cross over every fully transparent region.

Around that engine sit:

- a small TGA reader;
- the frame store and its bounds-checked accessors;
- the undo commands, which snapshot the frames an edit touches;
- the two editable rule lists behind the panels;
- the controller logic: title, path sort, status line and palette;
- the image provider's id parser.

This project models all of these as immutable Dafny datatypes and pure
functions. Loops are kept as methods where the algorithm is the point:
the pixel scan of the colour swap, the breadth-first flood fill, the
loading loop and the undo loop. It proves the properties the code relies
on or promises.

Modules, one per part of the program:

| module | file | models |
|---|---|---|
| `Arith` | arith.dfy | division facts for row-major layout and means |
| `Lists` | lists.dfy | the positions a filter over a rule list keeps |
| `Colors` | colors.dfy | RGBA8 colours, `QColor::rgba()`/`rgb()` packing |
| `Images` | images.dfy | `QImage` as width, height, row-major pixels and an overlay of drawn marks |
| `ColorMatch` | color_match.dfy | the swap tolerance test (both revisions) and `colorsMatch` |
| `ColorSwapEngine` | color_swap.dfy | `replaceColorsInImage`, both revisions |
| `Tga` | tga.dfy | `loadTGA` over a byte sequence, and a writer that it inverts |
| `Blobs` | blobs.dfy | the row-major scan with breadth-first search shared by both checks |
| `Checks` | checks.dfy | `processGuideCheckOnImage`, `processAlphaCheckOnImage`, the parameter records |
| `FrameStore` | frame_store.dfy | `ImageSequence`: loading, accessors, the current/all-frames entry points |
| `Undo` | undo.dfy | `ColorSwapCommand`, `GuideCheckCommand`, `AlphaCheckCommand` |
| `SwapModel` | swap_model.dfy | `ColorSwapModel` |
| `GuideModel` | guide_model.dfy | `GuideCheckModel` |
| `Decimal` | decimal.dfy | `QString::arg(int)` and `QString::toInt` |
| `Strings` | strings.dfy | `indexOf`, `left`/`mid`, splitting at a separator |
| `Provider` | provider.dfy | `ImageSequenceProvider::requestImage` without scaling |
| `App` | app_controller.dfy | `AppController` |

## Modelling choices

**Colours and images.**
- A colour is four channels in 0..255.
- Two colours are equal exactly when their channels are, which is how
  `QColor` compares colours built from RGBA8 data.
- `QRgb` is a 32-bit word; `Argb32` packs a colour into it and `Unpack`
  reads it back.
- An image is `Image(width, height, pixels, overlay)`. The null image
  has no width or no height.
- `PixelAt` answers transparent outside the image.

**Drawing.**
- QPainter's anti-aliased rasterisation is replaced by marks appended to
  the image's `overlay`: a `Ring` (centre, radius, width, colour) or a
  `Line` (two end points, width, colour).
- The checks therefore never change pixel values.
- A frame "changes" under a check exactly when marks are added to it.

**Snapshots.**
- The entry points of the frame store return, besides the new store,
  the map from frame index to that frame's image before the call, for
  every frame they processed.
- This is the `QMap<int, QImage>` result declared at
  `Core/ImageSequence.h:38-47`, which the undo commands consume.
- The current `Core/ImageSequence.cpp` returns `void` from these
  functions and does not define `setImage`. The model follows the header
  and the undo commands: `FrameStore.SetImage` is the bounds-checked
  setter the declaration names.
- Colour swap reports every frame it processed, changed or not. The
  guide and alpha checks report the frames where they drew something.

**Outside the model.**
- File decoding (`QImage(path)`) and reading a file's bytes are
  parameters, `decode` and `read`.
- The TGA reader works on the byte sequence. A read past the end gives
  0, as a `QDataStream` short read does, so the reader has no
  precondition on the input length.

**The two revisions of colour replacement** are one function with a
`Revision` argument:
- `FirstRevision` compares tolerance 0 against `source.rgb()` and writes
  `dest.rgb()`.
- `CurrentRevision` uses `rgba()` for both.
- Only the current revision falls back to the TGA reader for `.tga`
  files.

**The flood fill** is one method, used by both checks:
- `Blobs.Flood` is the breadth-first search from one seed.
- `Blobs.FindBlobs` is the row-major scan.
- Together they are proved to report one summary (seed, count, sum of x,
  sum of y) per maximal 4-connected region of matching pixels.
- The regions partition the matching pixels and are reported in scan
  order of their first pixels.
- The guide check visits neighbours right, left, down, up. The alpha
  check visits them down, up, right, left. This changes only the order
  in which a region's pixels are discovered, not the region or its sums,
  so one search serves both.

**Where the code decides.**
- **Tolerance range.** A rule's tolerance is a plain `int`
  (`Core/CelPaintTypes.h:10,18`). The dialog's spin box offers only
  0..255 (`ColorReplaceDialog.cpp:82`), but the rule lists accept any
  integer, so the model takes any integer:
  - a negative tolerance never matches in colour swap;
  - it compares exactly in `colorsMatch`.
- **Guide-check tolerance.** The guide check does not use the swap's
  test. It uses `colorsMatch` (`Core/ImageSequence.cpp:268-277`), where
  every tolerance of 0 or less means exact equality.
  `ColorMatch.ColorsMatchVersusSwap` states the difference.
- **Colour replacement result.** `Core/ImageSequence.h:65` declares
  `replaceColorsInImage` as returning `bool`. Both definitions return
  `void` (`Core/ImageSequence.cpp:215`, `ImageSequence.cpp:98`), so the
  model returns only the image.
- **First revision at tolerance 0.** The first revision compares against
  `source.rgb()` and writes `dest.rgb()` (`ImageSequence.cpp:123,144`).
  `ColorMatch.LegacyExactMatch` states the consequence: only opaque
  pixels can match, and every written pixel is opaque.
- **Engine results.** The entry points return the `QMap<int, QImage>`
  declared at `Core/ImageSequence.h:38-47`, as described under
  Snapshots above.

## Model

| member | source | states |
|---|---|---|
| Colors.UnpackArgb32 | Core/ImageSequence.cpp:242-250 | reading red, green, blue and alpha out of a colour's packed `rgba()` word gives back that colour |
| Colors.Argb32Injective | Core/ImageSequence.cpp:237-240 | two packed words are equal exactly when the two colours are equal, so the tolerance-0 word comparison is colour equality |
| Images.Filled | Core/ImageSequenceProvider.cpp:38-39 | every pixel of a freshly filled image has the fill colour, and nothing is drawn on it |
| ColorMatch.SwapMatchesMeaning | Core/ImageSequence.cpp:237-256 | the swap test is equality of all four channels at tolerance 0, a per-channel distance bound (alpha included) at a positive tolerance, and never true at a negative one |
| ColorMatch.LegacyExactMatch | ImageSequence.cpp:122-125 | first revision, tolerance 0: a pixel matches exactly when it is the source made opaque, so a translucent pixel never matches |
| ColorMatch.RevisionsAgree | ImageSequence.cpp:122-141 | the two revisions' tests differ only at tolerance 0 with a translucent source colour |
| ColorMatch.ColorsMatchVersusSwap | Core/ImageSequence.cpp:268-277 | `colorsMatch` agrees with the swap test at every tolerance of 0 or more; at a negative tolerance it still matches equal colours while the swap test matches nothing |
| ColorMatch.ToleranceMonotone | Core/ImageSequence.cpp:252-253 | raising a non-negative tolerance never loses a match |
| ColorSwapEngine.ActiveSwaps | Core/ImageSequence.cpp:217-225 | the filtered list holds only enabled rules of the input and is empty exactly when every rule is disabled |
| Lists.Positions | Core/ImageSequence.cpp:219-222 | the positions of exactly the elements the filter keeps (here the enabled rules), strictly ascending |
| ColorSwapEngine.ActiveSwapsInOrder | Core/ImageSequence.cpp:217-225 | the filtered list is all the enabled rules in their original order: its k-th entry is the rule at the k-th enabled position |
| ColorSwapEngine.SwapPixelFirstMatch | Core/ImageSequence.cpp:235-261 | a pixel whose first matching enabled rule is i becomes what rule i writes, whatever later rules say |
| ColorSwapEngine.SwapPixelNoMatch | Core/ImageSequence.cpp:235-262 | a pixel that no enabled rule matches keeps its exact value |
| ColorSwapEngine.MatchCases | Core/ImageSequence.cpp:235-262 | every pixel either matches no enabled rule or has a first matching one |
| ColorSwapEngine.ReplaceColors | Core/ImageSequence.cpp:215-265 | replacement keeps the image's size, pixel count and drawn marks |
| ColorSwapEngine.ReplaceColorsPixels | Core/ImageSequence.cpp:230-264 | pixel by pixel: no enabled match leaves the value; first enabled match i writes rule i's destination (`rgba()`, or `rgb()` in the first revision) |
| ColorSwapEngine.ReplaceColorsAllDisabled | Core/ImageSequence.cpp:224-225 | with every rule disabled, or no rule, the image is returned untouched |
| ColorSwapEngine.FirstRevisionWritesOpaque | ImageSequence.cpp:143-145 | in the first revision every pixel that changes becomes opaque |
| ColorSwapEngine.ReplaceColorsInImage | Core/ImageSequence.cpp:227-264 | the row-major scan that stops at the first matching rule leaves every pixel as the first-match rule says, and agrees with the whole-image definition |
| Tga.ReadPixel | Core/ImageSequence.cpp:74-77 | a pixel is stored blue, green, red, then alpha; without the alpha byte it is opaque |
| Tga.Repeat | Core/ImageSequence.cpp:96-109 | a run-length packet yields the given number of copies of its pixel |
| Tga.Stream | Core/ImageSequence.cpp:58-111 | decoding never yields more than width times height pixels, and a 24-bit file yields only opaque pixels |
| Tga.Place | Core/ImageSequence.cpp:50-51 | the decoded image has the header's dimensions and one pixel per grid point |
| Tga.Decode | Core/ImageSequence.cpp:34-44 | the null image unless the type is 2 or 10 and the depth is 24 or 32; otherwise an image of the header's width and height |
| Tga.PlacePoint | Core/ImageSequence.cpp:79-86 | the pixel at (x, y) is stored pixel `row * width + x`, with row = y or height - 1 - y, or transparent when the data ended first |
| Tga.PlaceAt | Core/ImageSequence.cpp:100-107 | stored pixel n lands at column n % width of row n / width, flipped unless descriptor bit 0x20 is set; unreached pixels stay transparent |
| Tga.DecodePlacement | Core/ImageSequence.cpp:50-86 | in a decoded file, each grid point holds its stored pixel or stays transparent |
| Tga.RawChunks | Core/ImageSequence.cpp:63-88 | uncompressed 32-bit data read in raw chunks of 128 gives back the stored pixels in order |
| Tga.EncodedHeader | Core/ImageSequence.cpp:34-37 | the header fields sit at offsets 0, 1, 2, 12, 14, 16 and 17, with 16-bit little-endian sizes |
| Tga.DecodeEncode | Core/ImageSequence.cpp:20-114 | decoding a type-2, 32-bit, top-origin file written from an image gives that image back |
| Tga.HeaderRead | Core/ImageSequence.cpp:26-37 | the reader reads back the type, width, height, depth and descriptor written into the 18 header bytes, whatever data follows |
| Tga.RunLength | Core/ImageSequence.cpp:66 | a run holds between 1 and 128 equal pixels, the most one packet header can count, and stops before a different pixel |
| Tga.RunPacket | Core/ImageSequence.cpp:66-109 | in run-length data, a run header `0x80 + n - 1` (n from 2 to 128) followed by one pixel yields that pixel n times, and the next packet starts right after the pixel |
| Tga.LonePacket | Core/ImageSequence.cpp:66-88 | in run-length data, a raw header 0 yields the one pixel stored after it, and the next packet starts right after that pixel |
| Tga.RleStreamStep | Core/ImageSequence.cpp:58-111 | run-length data is read packet after packet, each from where the previous one ended |
| Tga.RleStream | Core/ImageSequence.cpp:58-111 | run packets and one-pixel raw packets, as written for a pixel sequence, read back as exactly those pixels |
| Tga.DecodeEncodeRle | Core/ImageSequence.cpp:20-114 | decoding a type-10, 32-bit, top-origin file written from an image gives that image back |
| FrameStore.Kept | Core/ImageSequence.cpp:120-136 | exactly the positions of the paths that decode, in ascending order |
| FrameStore.LoadSequence | Core/ImageSequence.cpp:116-146 | the frames are the decodable paths in the given order with their images; the current frame is the first, or -1 when nothing decoded |
| FrameStore.ImageAtSetImage | Core/ImageSequence.cpp:180-185 | reading back after setImage: a frame shows the written image exactly when it is the in-range frame written to, any other index reads as before (the null image out of range), and the current path is unchanged |
| FrameStore.CurrentReadsAt | Core/ImageSequence.cpp:162-185 | the current image is the image at the current position, and after moving to an in-range frame the current image and path are that frame's |
| FrameStore.SetCurrentIndex | Core/ImageSequence.cpp:187-193 | the position moves, and a change is announced, exactly when the index names another frame; the frames never change |
| FrameStore.SetImage | Core/ImageSequence.h:35 | only frame `index`'s image changes, and nothing changes out of range |
| FrameStore.ReplaceColorsInCurrentFrame | Core/ImageSequence.cpp:195-202 | only the current frame changes, to its colour-swapped image, and its earlier image is reported |
| FrameStore.ReplaceColorsInAllFrames | Core/ImageSequence.cpp:204-213 | every frame is colour-swapped and reported with its earlier image, changed or not |
| FrameStore.GuideFrame | Core/ImageSequence.cpp:373-376 | a frame is replaced exactly when some enabled rule matches a pixel of it, and then it holds its earlier pixels with the rings of every enabled rule's regions added |
| FrameStore.GuideCheckCurrentFrame | Core/ImageSequence.cpp:395-405 | nothing without rules or without a current frame; otherwise the current frame is reported, with its earlier image, exactly when the check draws on it, and it then holds the rings drawn on that image |
| FrameStore.GuideCheckAllFrames | Core/ImageSequence.cpp:379-393 | nothing without rules; otherwise exactly the frames where an enabled rule matches a pixel are changed, each to its earlier image with the rings added, and reported with their earlier images |
| FrameStore.AlphaFrame | Core/ImageSequence.cpp:486-488 | a frame is replaced exactly when it has a fully transparent pixel, and then it holds its earlier pixels with a cross over every transparent region added |
| FrameStore.AlphaCheckCurrentFrame | Core/ImageSequence.cpp:495-504 | the current frame, if any, is changed and reported exactly when it has a fully transparent pixel, and it then holds the crosses drawn on its earlier image |
| FrameStore.AlphaCheckAllFrames | Core/ImageSequence.cpp:484-493 | exactly the frames with a fully transparent pixel are changed, each to its earlier image with the crosses added, and reported with their earlier images |
| Blobs.Neighbors | Core/ImageSequence.cpp:339-344 | the search looks at four points, each sharing an edge with the current one |
| Blobs.CentroidInBounds | Core/ImageSequence.cpp:357-359 | the truncated mean of a region's coordinates is a point of the image |
| Blobs.SumBounds | Core/ImageSequence.cpp:326-336 | a region's coordinate sums lie between 0 and its size times the largest coordinate |
| Blobs.DistinctInGrid | Core/ImageSequence.cpp:316 | a list of distinct grid points is no longer than the grid, which bounds the search |
| Blobs.SearchingExtend | Core/ImageSequence.cpp:346-352 | queueing an unvisited matching neighbour keeps the queued points distinct, matching, fresh and connected |
| Blobs.Discover | Core/ImageSequence.cpp:346-352 | after one neighbour check, a matching in-bounds neighbour is visited and the queue only grew |
| Blobs.Expand | Core/ImageSequence.cpp:339-354 | after a point is taken off the queue, all its matching neighbours are visited |
| Blobs.Flood | Core/ImageSequence.cpp:326-355 | the search from a seed finds distinct, fresh, matching points, each connected to an earlier one, with no unvisited matching neighbour left, and returns their coordinate sums |
| Blobs.NewRegionClosed | Core/ImageSequence.cpp:319-324 | a search started outside every earlier region is a closed region: earlier regions never touch it |
| Blobs.AddRegion | Core/ImageSequence.cpp:329-366 | adding a finished search keeps the regions a partition of the visited pixels into maximal connected regions |
| Blobs.ScanPoint | Core/ImageSequence.cpp:320-324 | one scan step keeps the partition, and the reports stay in scan order |
| Blobs.FindBlobs | Core/ImageSequence.cpp:319-369 | the reports are one per maximal 4-connected region of matching pixels, partitioning them, in scan order of each region's first pixel; nothing is reported exactly when nothing matches |
| Blobs.DetectedCentroids | Core/ImageSequence.cpp:357-359 | every reported region is non-empty and its centre lies on the image |
| Blobs.DetectedNone | Core/ImageSequence.cpp:357-365 | no region is reported exactly when no pixel matches |
| Blobs.DetectRegions | Core/ImageSequence.cpp:319-369 | the scan as the checks use it: its reports, their centres on the image, and emptiness exactly without a matching pixel |
| Checks.GuideRule | Core/ImageSequence.cpp:310-369 | each enabled rule scans the unmodified image with a fresh visited set, and finds a region exactly when some pixel matches it |
| Checks.GuideStep | Core/ImageSequence.cpp:310-312 | a disabled rule adds no region and no ring; an enabled one adds its regions' rings after the earlier rules' |
| Checks.GuideCheckImage | Core/ImageSequence.cpp:280-377 | a change is reported exactly when some enabled rule matches a pixel; only then are the rings added, otherwise the image is unchanged; pixel values never change |
| Checks.GuideMarksCentred | Core/ImageSequence.cpp:357-364 | every ring the guide check draws is centred on the image |
| Checks.GuideMarksCount | Core/ImageSequence.cpp:357-366 | the guide check draws one ring per region found by an enabled rule |
| Checks.HalfTowardZero | Core/ImageSequence.cpp:468 | `crossSize / 2` truncates toward zero, keeping the sign |
| Checks.CrossesAt | Core/ImageSequence.cpp:465-475 | the k-th pair of lines is the cross of the k-th transparent region |
| Checks.CrossShape | Core/ImageSequence.cpp:470-473 | both lines of a cross are diagonals through the region's centre, reaching `crossSize / 2` either way on both axes, in the configured colour and width |
| Checks.CrossMarks | Core/ImageSequence.cpp:464-475 | crosses are drawn region by region, and something is drawn exactly when a region exists |
| Checks.AlphaCheckImage | Core/ImageSequence.cpp:408-482 | a null image is left alone; otherwise a change is reported exactly when a fully transparent pixel exists, with one cross per transparent region; pixel values never change |
| Undo.Text | Core/UndoCommands.cpp:9 | the history text starts with "Batch " exactly when the command runs on all frames |
| Undo.Run | Core/UndoCommands.cpp:20-26 | redo calls the all-frames engine entry when the command is for all frames and the current-frame entry otherwise, for each of the three actions; every reported frame then holds the swapped image, the rings or the crosses made from its earlier image, and no other frame changes |
| Undo.Redo | Core/UndoCommands.cpp:20-35 | the engine runs as in Run; its result becomes the undo data only while the undo data is empty, and a captured snapshot is never overwritten |
| Undo.UndoCommand | Core/UndoCommands.cpp:46-52 | the ascending-index loop of `setImage` calls writes exactly the captured images back, running no engine |
| Undo.RestoreUndoes | Core/UndoCommands.cpp:28-31 | writing back a snapshot of the frames an edit changed restores the store from before the edit |
| Undo.RedoUndo | Core/UndoCommands.cpp:54-65 | redo then undo of a fresh command gives back the original store |
| Undo.StaleSnapshot | Core/UndoCommands.cpp:20-35 | when the current frame has moved since a current-frame command captured another frame, redo swaps the new current frame, keeps the old snapshot, and the next undo leaves that frame swapped, so the store is not restored |
| Undo.RedoCapturingUndo | Core/UndoCommands.cpp:28-34 | with the snapshot retaken on every redo, redo then undo gives back the store for any command and any store |
| Undo.RedoUndoTwice | Core/UndoCommands.cpp:84-95 | redo, undo, redo, undo of a fresh command gives back the original store: the second redo keeps the first snapshot |
| SwapModel.AddSwap | Core/ColorSwapModel.cpp:81-87 | one enabled rule with the given colours and tolerance is appended; earlier rules are unchanged |
| SwapModel.AddSourceColor | Core/ColorSwapModel.cpp:89-99 | a source already present changes nothing; otherwise a rule mapping it to itself with tolerance 0 is appended |
| SwapModel.AddSourceColorKeepsDistinct | Core/ColorSwapModel.cpp:90-96 | picking colours never gives two rules the same source |
| SwapModel.AddSourceColorTwice | Core/ColorSwapModel.cpp:89-99 | adding the same source twice is adding it once |
| SwapModel.RemoveSwap | Core/ColorSwapModel.cpp:101-109 | out of range nothing changes; otherwise exactly that rule goes and the rest keep their order |
| SwapModel.RemoveAdded | Core/ColorSwapModel.cpp:101-109 | removing the rule just added gives back the list |
| SwapModel.Clear | Core/ColorSwapModel.cpp:111-119 | the list becomes empty, and a reset is announced only when it had rules |
| SwapModel.SetDestColor | Core/ColorSwapModel.cpp:121-128 | only the destination of the named rule changes; out of range nothing does |
| SwapModel.SetSourceColor | Core/ColorSwapModel.cpp:130-137 | only the source of the named rule changes; out of range nothing does |
| SwapModel.SetAllTolerance | Core/ColorSwapModel.cpp:139-149 | enabled rules get the tolerance, disabled rules keep theirs, nothing else changes |
| SwapModel.DataAt | Core/ColorSwapModel.cpp:11-29 | an answer exists exactly for a rule in range and one of the four roles |
| SwapModel.SetData | Core/ColorSwapModel.cpp:31-66 | true exactly when the list changed, which needs a rule in range and an editable role; only that rule changes, and never its source |
| SwapModel.SetDataReadsBack | Core/ColorSwapModel.cpp:39-57 | after setting an editable field, `data` reads back the value, and setting it again reports no change |
| GuideModel.AddCheck | Core/GuideCheckModel.cpp:45-58 | one enabled rule with radius 10 and width 2 is appended; earlier rules are unchanged |
| GuideModel.NewGuideModel | Core/GuideCheckModel.cpp:3-8 | a new list holds red, blue and green sources, in that order, each a default rule with a yellow ring |
| GuideModel.RemoveCheck | Core/GuideCheckModel.cpp:60-67 | out of range nothing changes; otherwise exactly that rule goes and the rest keep their order |
| GuideModel.RemoveAdded | Core/GuideCheckModel.cpp:60-67 | removing the rule just added gives back the list |
| GuideModel.SetSourceColor | Core/GuideCheckModel.cpp:69-74 | only the source colour of the named rule changes; out of range nothing does |
| GuideModel.SetSelectionColor | Core/GuideCheckModel.cpp:76-82 | only the ring colour of the named rule changes; out of range nothing does |
| GuideModel.SetTolerance | Core/GuideCheckModel.cpp:84-89 | only the tolerance of the named rule changes; out of range nothing does |
| GuideModel.SetEnabled | Core/GuideCheckModel.cpp:91-96 | only the enabled flag of the named rule changes; out of range nothing does |
| GuideModel.SetAllTolerances | Core/GuideCheckModel.cpp:98-106 | every rule, enabled or not, gets the tolerance, and nothing else changes |
| GuideModel.DataAt | Core/GuideCheckModel.cpp:16-34 | an answer exists exactly for a rule in range and one of the four roles |
| GuideModel.SettersReadBack | Core/GuideCheckModel.cpp:69-96 | each setter's value is what `data` then answers for its role |
| GuideModel.GetChecks | Core/GuideCheckModel.cpp:108-119 | exactly the enabled rules, in order, with the given radius and width |
| Decimal.ToDecimal | Core/AppController.cpp:34-37 | a number is written with a leading minus exactly when it is negative, and never with a '/' or ']' |
| Decimal.ParseInt | Core/ImageSequenceProvider.cpp:29-31 | only a sign followed by digits is accepted, and only within the 32-bit int range |
| Decimal.DigitsRoundTrip | Core/AppController.cpp:36-37 | the digits written for a number read back as that number |
| Decimal.DecimalRoundTrip | Core/ImageSequenceProvider.cpp:29-31 | an int written in decimal parses back to itself |
| Decimal.ToDecimalInjective | Core/AppController.cpp:34-37 | different numbers are written differently |
| Strings.IndexOf | Core/ImageSequenceProvider.cpp:17 | the first position of the character, or the length when it is absent |
| Strings.SplitAt | Core/ImageSequenceProvider.cpp:17-20 | text splits unambiguously at the first occurrence of a separator |
| Strings.Split | Core/ImageSequenceProvider.cpp:22 | the pieces between separators hold no separator |
| Strings.JoinSplit | Core/ImageSequenceProvider.cpp:22 | joining the pieces gives back the text |
| Strings.SplitJoin | Core/ImageSequenceProvider.cpp:22 | splitting a join of separator-free pieces gives back the pieces |
| Strings.AroundFirst | Core/ImageSequenceProvider.cpp:17-20 | text with the separator is the part before its first occurrence, the separator and the rest |
| Provider.ItemValue | Core/ImageSequenceProvider.cpp:23 | the value of the first item with the key, or the empty string when no item has it |
| Provider.ParseId | Core/ImageSequenceProvider.cpp:14-24 | the frame id never contains '?' |
| Provider.IdShape | Core/ImageSequenceProvider.cpp:17-24 | an id with '?' is the frame id, '?', and the query, and the thumbnail flag comes from that query |
| Provider.ParseIdComposed | Core/ImageSequenceProvider.cpp:17-24 | parsing a frame id joined to a query at '?' gives the frame id back and reads the flag from the query |
| Provider.FirstItemValue | Core/ImageSequenceProvider.cpp:22-23 | the first item of a query answers for its key whatever follows |
| Provider.ThumbnailFirst | Core/ImageSequenceProvider.cpp:23 | a query starting with "thumbnail=v" asks for a thumbnail exactly when v is "true" |
| Provider.RequestImage | Core/ImageSequenceProvider.cpp:26-44 | the served image is the selected one, or the placeholder when that is null; it is never null, and the reported size is the served image's |
| Provider.RequestByIndex | Core/ImageSequenceProvider.cpp:29-33 | asking by a frame's index, with or without a query, serves that frame |
| Provider.RequestOutOfRange | Core/ImageSequenceProvider.cpp:36-40 | an index without a frame is answered with the 1x1 transparent placeholder |
| Provider.RequestCurrent | Core/ImageSequenceProvider.cpp:26-27 | "current" serves the current frame, whatever the query, and the placeholder when there is none |
| Provider.RequestUnknown | Core/ImageSequenceProvider.cpp:28-34 | an id that is neither "current" nor a number gets the placeholder |
| App.FileName | Core/AppController.cpp:33 | the file name is the path's tail after its last '/', and holds no '/' |
| App.Title | Core/AppController.cpp:28-38 | the title is the bare application name exactly when no frames are loaded |
| App.PositionInjective | Core/AppController.cpp:34-37 | different positions or frame counts are written differently |
| App.TitleShowsPosition | Core/AppController.cpp:28-38 | two titles for the same file name are equal only at the same position of equally long sequences |
| App.LeqTotal | Core/AppController.cpp:73 | any two paths are comparable |
| App.Insert | Core/AppController.cpp:73 | inserting into a sorted list keeps it sorted and adds exactly that path |
| App.SortPaths | Core/AppController.cpp:72-73 | the paths come out in ascending order, as a permutation of the input |
| App.OpenSequence | Core/AppController.cpp:66-76 | the sorted paths are loaded; when any frame loads the status reports how many, otherwise it is kept |
| App.SetStatusMessage | Core/AppController.cpp:163-168 | the status becomes the message, and a change is announced exactly when it differs |
| App.SaveSequence | Core/AppController.cpp:78-86 | refused with nothing changed when no frames are loaded; otherwise accepted with the export status |
| App.PickColorAt | Core/AppController.cpp:88-103 | inside the current image the pixel's colour is added as a source colour; outside it nothing changes |
| App.ApplyColorReplacement | Core/AppController.cpp:118-130 | the current rules are applied to every frame or to the current one, and the status says which |
| App.AddCustomColor | Core/AppController.cpp:132-141 | a known colour changes nothing; a new colour goes last, evicting the oldest when 16 are held |
| App.PaletteInvariant | Core/AppController.cpp:133-138 | the palette never holds a colour twice and never more than 16 colours |

## Left out

- File I/O:
  - `QImage(path)` decoding and `convertToFormat` are the `decode` parameter.
  - The TGA file's bytes are the `read` parameter, so a file that cannot
    be opened is a `read` answer of no bytes.
  - `saveSequence`'s directory creation and image encoders are not
    modelled; `App.SaveSequence` models only the guard and the status.
- Rasterisation: rings and lines are overlay marks, not pixels.
  - QPainter's anti-aliasing, pen widths and clipping are not modelled.
  - The alpha check paints onto the image it is still scanning, at
    `Core/ImageSequence.cpp:419` and `:456`, so in Qt a cross drawn over
    a later transparent area can hide part of it from the scan.
  - The model scans the unpainted image. `Checks.AlphaCheckImage`'s
    "changed exactly when a transparent pixel exists" holds either way,
    since the first transparent pixel is found before anything is drawn.
  - The number and shape of the later regions may differ from Qt's.
- The loop at `Core/ImageSequence.cpp:295-307` has no effect and is not
  modelled.
- Signals (`emit ...`) are not modelled. Where a function's only
  observable decision is whether to emit, the model returns that
  decision as a boolean:
  - `SetCurrentIndex`;
  - `SetStatusMessage`;
  - `SwapModel.Clear`;
  - `SwapModel.SetData`.
- `QUndoStack` is not modelled; only the per-command contract is.
- `AppController.h` declares undo, guide-check and alpha-check entry
  points that `Core/AppController.cpp` does not implement. They are not
  modelled.
- Screen and floating-point controller code is not modelled:
  - `pickScreenColor` grabs the screen;
  - `setZoomLevel` and the zoom reset in `onSequenceLoaded` use `double`.
- `requestImage`'s scaling to the requested size is not modelled.
  - `Provider.RequestImage` returns the unscaled image and its size.
  - The parsed thumbnail flag is only used for scaling, so it ends in
    `ParseId`.
- Provider.ItemValue: `QUrlQuery` is reduced to splitting at '&' and '=':
  - no percent-decoding;
  - no '+' handling;
  - an item without '=' has the empty value.
- Decimal.ParseInt: `QString::toInt` is modelled as an optional sign
  followed by decimal digits within the 32-bit range. Leading and
  trailing whitespace, which Qt also accepts, is not modelled.
- App.Title: each `QString::arg` call replaces the lowest-numbered `%N`
  marker left in the string, including one inside the file name that an
  earlier call inserted. The model concatenates the parts instead, so
  file names containing '%' followed by a digit are not modelled: for
  "a%1.png" Qt shows "CelPaint - a1.png [5/%3]" where the model shows
  "CelPaint - a%1.png [1/5]". `App.TitleShowsPosition` holds for the
  model's title.
- `FrameStore.HasTgaSuffix`: `endsWith(".tga", Qt::CaseInsensitive)` is
  modelled with ASCII case folding only.
- App.SortPaths: `std::sort` on `QString` compares UTF-16 code units.
  The model compares Dafny characters, which is the same order for
  characters outside the surrogate range.
- QVariant conversions in `setData` (`value<QColor>()`, `toBool()`,
  `toInt()`) are Qt's. The model takes their three results as a
  `Variant` value.
- `QColor`s are RGBA8 tuples. Colours in other specs (HSV, 16-bit) and
  invalid colours do not arise in the engine.
- Tga.Stream: `quint64 totalPixels = width * height` at
  `Core/ImageSequence.cpp:55` multiplies in `int` and overflows for
  sizes above 2^31 pixels. The model multiplies exactly, so it does not
  model that overflow.
- `Core/ImageSequence.cpp` declares no `setImage`. `FrameStore.SetImage`
  follows the declaration at `Core/ImageSequence.h:35` with the
  bounds-checked reading the other setters use.
- Undo.Redo: the contract "redo after undo restores the same frames" is
  conditional (`Ready`). It holds when the store is as the first redo
  found it, which is what the source comment at
  `Core/UndoCommands.cpp:28-31` assumes. Outside `Ready` the source's
  undo leaves the redone frame changed: after `setCurrentIndex` moves to
  another frame, redo of a current-frame command changes that frame, but
  the kept snapshot holds only the frame captured first (see Findings).

## Findings

| source | as written | input that shows it | evidently intended | confidence | as-written member | corrected member |
|---|---|---|---|---|---|---|
| Core/UndoCommands.cpp:28-34 | redo keeps the first snapshot whenever one exists, whatever frames this redo changed | two frames; a current-frame colour swap captures frame 0 and is undone; `setCurrentIndex(1)`; redo swaps frame 1 and keeps `{0: image}`; the next undo writes frame 0 back and leaves frame 1 swapped | undo restores the frames the latest redo changed | medium; not executed | Undo.StaleSnapshot | Undo.RedoCapturingUndo |
