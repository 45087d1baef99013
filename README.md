# spritepacker core in Dafny

A model of the sprite packer behind the spritepacker editor, with
proofs about it. The editor loads sprites into *atlases*. For each
atlas it pads every sprite into a *candidate*, packs the candidates
into a power-of-two texture, and exports the texture together with a
list of sprite rectangles (*quads*). Sprites are grouped into
animation groups whose *frames* are indices into the atlas' sprite
list. A project is a list of atlases that is saved in a small
line-based file format.

The model follows the C++ sources module by module:

- **Bits** and **Sizing**: `NextPow2`'s bit smearing on unsigned
  32-bit values, and `PackedSize`'s container estimate.
- **Placement**, **Retry** and **Atlases**:
  - `Pack`'s sort by area, corner scan over an occupancy mask
    (a two-dimensional array) and retry schedule;
  - the `Atlas` class (`AppendSprite`, `RenderSprites`, `Render`,
    `Export`).
- **Image**: the padding tables of `MakeRenderSprite`, and
  `BaseSpriteName`.
- **Exporters**: the structure of the `.atlas` and JSON outputs.
- **Paths**, **Numbers** and **ProjectFile**: the path helpers,
  `std::stoi` and `%d`, and the project file format as functions on
  lines.
- **Loader** and **Saver**: `LoadProject` and `SaveProject` as
  imperative code over `Atlas` objects.
- **Projects**: the `Project` class.
- **ProjectWindow** and **Editing**: the data edits of the editor's
  "Project", "Animation Groups" and "Sprites" windows.

Several kinds of proof are central:

- The packer's invariants:
  - `assert(n < 512)` always holds;
  - every placement is the first one the corner scan accepts;
  - a size bound guarantees success.
- The invariant behind the editor: the frames of all groups together
  are a permutation of the sprite indices. The proofs show that it
  survives every edit, and that what each group shows survives too.
- The round trip: `SaveProject` output read back by `LoadProject`
  gives the same settings and the same sprite paths.

SDL is modelled by what the bookkeeping needs. A texture is its size
and a serial number that tells textures apart. A render pass is the
list of copies it issues. The image decoder is a parameter `load`, and
file access is a parameter (`contents`, `canOpen`).

## Model

| member | source | states |
|---|---|---|
| Bits.Dec32 | src/atlas.cpp:34 | `--value` on a uint32: one less, and 0 wraps to 2^32-1 |
| Bits.Inc32 | src/atlas.cpp:40 | `value + 1` on a uint32: one more, and 2^32-1 wraps to 0 |
| Bits.SmearBits | src/atlas.cpp:35-39 | after the five or-shift steps, bit i is set exactly when i is below the bit length of the input |
| Bits.SmearValue | src/atlas.cpp:35-39 | the smeared value is 2^BitLength(x) - 1: every bit below the top set bit is set |
| Sizing.NextPow2Value | src/atlas.cpp:33-41 | for 1 <= v <= 2^31, NextPow2(v) is 2^BitLength(v-1), a power of two at least v |
| Sizing.NextPow2IsLeastPow2 | src/atlas.cpp:33-41 | for 1 <= v <= 2^31, NextPow2(v) is a power of two, at least v, and at most every power of two that is at least v |
| Sizing.NextPow2OfPow2 | src/atlas.cpp:33-41 | NextPow2 is the identity on 2^k for k <= 31 |
| Sizing.NextPow2Zero | src/atlas.cpp:33-41 | NextPow2(0) wraps around to 0 |
| Sizing.NextPow2Below | src/atlas.cpp:33-41 | a v in 1..2^k with k <= 31 rounds up to at most 2^k |
| Sizing.CeilSqrt | src/atlas.cpp:84 | `ceilf(sqrtf(area))` as the integer ceiling square root: r*r >= n and (r-1)*(r-1) < n |
| Sizing.CeilSqrtLeast | src/atlas.cpp:84 | the ceiling square root is at most every k with k*k >= n |
| Sizing.MaxOf | src/atlas.cpp:78-82 | max_w / max_h: at least every element's value, and equal to one of them unless 0 |
| Sizing.SumIgnoresOrder | src/atlas.cpp:78-82 | the summed area does not depend on the order of the candidates |
| Sizing.MaxIgnoresOrder | src/atlas.cpp:78-82 | the largest width/height does not depend on the order of the candidates |
| Sizing.StatsOfPermutation | src/atlas.cpp:74-82 | the area/max_w/max_h statistics of a permutation are the same, so sorting does not change the estimate |
| Sizing.StartSides | src/atlas.cpp:84-86 | w = NextPow2(max(a, max_w)) and h = NextPow2(max(a, heur, max_h)) cover the area and the largest sprite, h is at least heur, and both are powers of two |
| Sizing.HalvedSides | src/atlas.cpp:92-104 | the two halving tests keep the area covered, never grow a side, keep powers of two, and do nothing once n > 1 |
| Sizing.PackedSizeOf | src/atlas.cpp:73-105 | the container covers the area, has power-of-two sides, is square (h, h) with square_texture, has w >= max_w and h >= max(heur, max_h) when n >= 2, and the final w*h fits an int; defined exactly on the inputs InRange names, those where every product lines 92-102 evaluate (only those the short-circuit `&&` reaches), and the mask size w*h, fit an int |
| Sizing.ProductsFromStart | src/atlas.cpp:92-102 | when the start sides' product w*h (h*h with square_texture) fits an int, so do the halving tests' products and the final w*h: the start product is a sufficient condition for InRange's products |
| Sizing.WideStartHalvesInRange | src/atlas.cpp:84-102 | for a widest candidate of 65536, a tallest of 1024 and an area strictly between 2^28 and 2^30 (such as 268500992), the start sides 65536 x 32768 would overflow, yet every product C++ evaluates fits and the estimate is 65536 x 16384, so the attempt is defined |
| Sizing.HalvingOnFirstTwoAttempts | src/atlas.cpp:93-101 | a 40x1 and a 1x40 candidate get 32x32 at n = 0 and again at n = 1 (hint 33), and 64x64 only at n = 2 |
| Atlases.Atlas.PackedSize | src/atlas.cpp:73-105 | the loop over render_sprites computes the estimate PackedSizeOf gives for their statistics |
| Placement.InsertByArea | src/atlas.cpp:109-112 | inserting into a list sorted by non-increasing area keeps it sorted and adds exactly that element |
| Placement.SortByArea | src/atlas.cpp:109-112 | the comparator sort: non-increasing area, and a permutation of the input |
| Placement.SortByAreaKeepsSorted | src/atlas.cpp:109-112 | a list already sorted by area is left as it is |
| Placement.MarkRect | src/atlas.cpp:142-146 | after marking, a mask cell is set exactly when it was set before or lies in the new rectangle |
| Placement.Place | src/atlas.cpp:118-148 | each placed candidate is at the first position, row by row, whose four corner cells are clear; success means all were placed; on failure the next candidate has no such position; every dst lies in the container |
| Placement.PlacedInside | src/atlas.cpp:128-147 | a first-fit placement has 0 <= dst.x <= size.x - w and dst.y + h <= size.y |
| Placement.FirstFitUnique | src/atlas.cpp:122-141 | the scan accepts one position only: two first fits are equal |
| Placement.PlacementUnique | src/atlas.cpp:118-148 | the placement of a candidate list is determined by the list and the container |
| Placement.StoppedMeansNoFullPlacement | src/atlas.cpp:123-127 | once a candidate finds no row, no complete first-fit placement exists for that container |
| Placement.StoppedBeforeLonger | src/atlas.cpp:118-148 | no first-fit placement reaches past the candidate at which an attempt stops |
| Placement.StoppedPlacementUnique | src/atlas.cpp:118-148 | the candidate at which an attempt stops, and the placements made before it, are determined by the list and the container |
| Placement.BelowBottomIsFree | src/atlas.cpp:129-135 | no cell at or below the lowest placed edge is marked |
| Placement.BottomWithinStack | src/atlas.cpp:118-148 | in a container as wide as the widest and as tall as the stacked heights, the placed candidates end above their stacked height |
| Placement.StackingFits | src/atlas.cpp:122-141 | in such a container the next candidate always fits, so the scan never runs out of rows |
| Placement.OverlapExampleIsFirstFit | src/atlas.cpp:118-148 | with 6x6, 6x4, 2x8 and 10x1 in a 16x16 container the scan places them at (0,0), (6,0), (12,0), (6,4) |
| Placement.CornerTestAllowsOverlap | src/atlas.cpp:129-146 | in that placement the 10x1 and the 2x8 both cover cell (12,4): clear corners do not make rectangles disjoint |
| Placement.OverlapExampleContainer | src/atlas.cpp:73-112 | the example is already sorted by area and, with square_texture, PackedSize gives 16x16 |
| Retry.RetryBound | src/atlas.cpp:108 | every call of Pack has n <= 33, so `assert(n < 512)` holds |
| Retry.NextRetryHint | src/atlas.cpp:126 | the retry with hint size.y + 1 and count n + 1 again satisfies the hint invariant (the hint exceeds 2^(n-2) from the second retry on) |
| Retry.RetryStep | src/atlas.cpp:126 | a power-of-two height at least the hint gives a next hint that keeps the invariant |
| Retry.BoundedPermutation | src/atlas.cpp:109-112 | sorting keeps the size bound and the statistics |
| Retry.BoundedArgs | src/atlas.cpp:84-86 | under the size bound, area, max_w, max_h and the NextPow2 arguments stay within 8192 (or the hint) |
| Retry.BoundedInRange | src/atlas.cpp:84-102 | under the size bound and a hint within HeurCap(n), every int product and sum PackedSize evaluates, and the mask size, stay in range |
| Retry.BoundedRetry | src/atlas.cpp:123-126 | under the size bound, a container too small for the stack leads to a next hint within HeurCap(n + 1) |
| Atlases.Candidates | src/atlas.cpp:172-181 | one candidate per sprite, in order: src is the padded rectangle and sorting_order is the sprite's index |
| Atlases.WithDsts | src/atlas.cpp:147 | writing the dsts keeps each candidate's src and sorting_order and sets dst |
| Atlases.WithPrefixDsts | src/atlas.cpp:118-147 | an attempt that stops at candidate k has written dst for the k candidates before it only: their srcs and sorting orders are kept, and the candidates from k on are untouched |
| Atlases.RetryStateUnique | src/atlas.cpp:118-127 | the candidate list a failed attempt leaves behind (the placed prefix with its first-fit dsts, the rest as sorted) is unique |
| Atlases.AttemptFailed | src/atlas.cpp:122-127 | a candidate with no row makes the attempt fail; the retry hint keeps the invariant, and under the size bound stays within HeurCap |
| Atlases.PlacedAttempt | src/atlas.cpp:118-150 | a complete first-fit placement gives candidates packed by that attempt, with the same keys, still sorted, and the attempt does not fail |
| Atlases.PlaceAttempt | src/atlas.cpp:114-150 | one attempt: Done with the estimated size and a first-fit layout, or Retry exactly when the attempt fails, with next hint size.y + 1, which satisfies the invariant, leaving the candidates placed before the failing one with their first-fit dsts and the rest untouched; either way the keys, the order by area and the size bound are kept |
| Atlases.FailedAttemptHint | src/atlas.cpp:122-127 | an attempt can only fail with a candidate to place, and its retry hint size.y + 1 satisfies the invariant for n + 1 |
| Atlases.AttemptOf | src/atlas.cpp:114-150 | one attempt on the sorted candidates: Undefined exactly for an empty candidate or for int overflow in an expression C++ evaluates (InRange false); Retry exactly when some candidate finds no row, with a hint satisfying the invariant; Packed only when a full first-fit placement exists in that container |
| Atlases.WideCandidatesAttemptDefined | src/atlas.cpp:73-114 | four 65536x1024 candidates and one 65536xt (t in 1..1024; t = 1 gives area 268500992) make a defined first attempt: InRange holds, AttemptOf is not Undefined, and the container is 65536x16384, as wide as the widest candidate and taller than the 4096 + t rows they stack to |
| Atlases.PackChain | src/atlas.cpp:107-151 | the chain of attempts (heur, n), (size.y + 1, n + 1), ... ends at a count between n and 33 at an attempt that does not retry; it ends at n exactly when the first attempt does not fail |
| Atlases.FittingSameSrcs | src/atlas.cpp:121-140 | the first-fit search looks only at the src rectangles: when one list fits a container, so does any list with the same srcs position by position |
| Atlases.AttemptSameSrcs | src/atlas.cpp:114-150 | an attempt on two candidate lists with the same srcs ends the same way |
| Atlases.ChainSameSrcs | src/atlas.cpp:107-151 | the whole chain of attempts on two candidate lists with the same srcs ends the same way |
| Atlases.KeysSameSrcs | src/atlas.cpp:108-112 | candidate lists with the same keys (sprite, src, order) have the same length and the same srcs |
| Atlases.RenderedFromOutcome | src/atlas.cpp:153-170 | an atlas whose sorted candidates, size, layout, texture and drawn blits are what packing the candidates from (0, 0) gives is rendered from those candidates |
| Atlases.RenderedLayout | src/atlas.cpp:153-170 | an atlas rendered from candidates the chain packs has the chain's size and first-fit layout |
| Atlases.RenderedFromSorted | src/atlas.cpp:153-170 | rendering an already sorted list again gives what rendering the original candidates gives, since sorting is the same up to keys and packing sees only srcs |
| Atlases.PackedPlaced | src/atlas.cpp:142-150 | a packed layout of at least one candidate has a non-empty container and every dst inside it with dst size equal to src size |
| Atlases.Atlas.TryAttempt | src/atlas.cpp:108-150 | sorts render_sprites in place (a permutation, by area, with the same sprites as sorting the input gives) and runs one attempt; its result is AttemptOf of the sorted list; on a retry, with hint size.y + 1, the candidates placed before the failing one keep the dsts first fit wrote at line 147, and the rest are as sorted; under the size bound it never hits undefined behaviour |
| Atlases.Atlas.PlaceSorted | src/atlas.cpp:112-150 | the attempt after sorting: Undefined exactly when AttemptOf says so, otherwise PackedSize's estimate and the corner scan give AttemptOf's result, with PackedBy on success and the retry state on failure |
| Atlases.RetryChain | src/atlas.cpp:109-126 | after a failed attempt the list is still sorted with the same keys, so the next sort changes nothing and the retry chain is the one the sorted input gives: the partial dsts are never read |
| Atlases.Atlas.Pack | src/atlas.cpp:107-151 | render_sprites end as a sorted permutation, holding the same sprites as sorting the input gives; the outcome and the attempt that ended are PackChain of the sorted input from (heur, n); a packed result is that attempt's first-fit layout; later attempts happen exactly when the first fails; under the size bound Pack always succeeds |
| Atlases.SortByOrder | src/atlas.cpp:213-216 | the sort by sorting_order: sorted and a permutation |
| Atlases.ExportOrder | src/atlas.cpp:213-216 | after sorting by sorting_order, candidate i is sprite i's, with order i |
| Atlases.QuadInsideTexture | src/atlas.cpp:220-231 | a quad strips the padding (its size is the sprite's), lies in the texture, and lies in the unit square when normalised |
| Atlases.QuadsDescribeSprites | src/atlas.cpp:213-233 | the quads, in sorting order, describe sprite i at index i |
| Atlases.GroupsForAppend | src/atlas.cpp:184-188 | an atlas without groups gets the single group `<none>`, and the groups are otherwise unchanged |
| Atlases.WithFrameKeepsPartition | src/atlas.cpp:189-195 | appending the old sprite count to group anim keeps the frames a permutation of the sprite indices |
| Atlases.AppendKeepsPartition | src/atlas.cpp:189-195 | appending the new sprite's index n to any group of a partition of n sprites gives a partition of n + 1 |
| Atlases.DefaultGroupKeepsPartition | src/atlas.cpp:184-188 | adding the default group keeps the frame partition |
| Atlases.Atlas.constructor | src/atlas.h:35-67 | a new atlas has the header's default settings, no sprites, no groups, no texture and size 0 |
| Atlases.Atlas.CreateTexture | src/atlas.cpp:52-67 | a new cleared texture of size w x h with a fresh serial; width and height follow |
| Atlases.Atlas.RenderSprites | src/atlas.cpp:172-181 | render_sprites become the candidates of the sprites with the current padding |
| Atlases.Atlas.AppendSprite | src/atlas.cpp:183-196 | the sprite is appended, its index is appended to group anim (after the default group is created when needed), a candidate with that sorting_order is appended, and the partition is kept |
| Atlases.Atlas.AppendSpriteFile | src/atlas.cpp:198-204 | a sprite that loads is appended as above and true is returned; otherwise nothing changes and false is returned |
| Atlases.Atlas.PackFromStart | src/atlas.cpp:157 | `Pack()` with its default arguments: the outcome is the chain of attempts from (0, 0) on the sorted candidates, and under the size bound it packs |
| Atlases.Atlas.RenderCandidates | src/atlas.cpp:157-169 | with at least one candidate: defined exactly when the chain from (0, 0) packs; then the size is that chain's, every candidate is drawn at its dst, and the texture is recreated exactly when the size changed |
| Atlases.Atlas.Render | src/atlas.cpp:153-170 | with no candidates nothing happens: width, height, texture and the texture count stay as they were; otherwise the candidates end sorted by area, holding the same sprites as sorting the old ones gives, and Render is defined exactly when the chain from Pack(0, 0) packs, (width, height) is the size that chain reaches, the candidates hold its first-fit layout, every candidate is drawn at its dst, and the texture is recreated exactly when the size changed |
| Atlases.Atlas.Present | src/atlas.cpp:158-169 | the texture is recreated only when the size changes, then cleared, and every candidate is copied in order |
| Atlases.Atlas.Quads | src/atlas.cpp:217-233 | one quad per candidate, in order, from its dst with padding, y_up and normalize applied |
| Atlases.Atlas.Export | src/atlas.cpp:206-237 | false without calling the exporter when there is no sprite; with a sprite list within the size bound, true exactly when the output file opens; on success (width, height) is the size the retry chain from attempt (0, 0) reaches on the sprites' candidates, the list Render left (ghost `packed`) holds that chain's first-fit layout, and the quads are built from a permutation of it put back in insertion order, so quad i is sprite i's placement without padding; the exporter writes the atlas' output file in its format |
| Atlases.Atlas.RerenderLaidOut | src/atlas.cpp:207-208 | after `RenderSprites(); Render();`, a packed non-empty list lies inside the texture and holds the chain's size and first-fit layout (ChainLayout); always packed under the size bound |
| Atlases.Atlas.RestoreOrder | src/atlas.cpp:213-216 | the candidates are sorted back by sorting_order; the texture size and the sprites, hence the chain's layout, are unchanged |
| Atlases.Atlas.Rerender | src/atlas.cpp:172-181 | `RenderSprites(); Render();`: the candidates are rebuilt from the current sprites and padding, and the atlas is then what rendering them gives (RenderedFrom), with a placed layout when defined and always defined under the size bound |
| Atlases.Atlas.ExportRendered | src/atlas.cpp:213-236 | from a rendered layout, the candidates end as a permutation of the rendered list sorted by sorting_order, the exporter receives the quads built from their dsts in sprite order, and it succeeds exactly when its file opens |
| Image.FileNamePart | src/image.cpp:36-39 | the part after the last '/' or '\\': a suffix without separator, preceded by a separator unless it is the whole name |
| Image.BaseSpriteName | src/image.cpp:34-45 | a prefix of the file-name part with no separator; with a '.' not at index 0 it ends just before the first '.' and holds none; otherwise it is the whole file-name part |
| Image.BaseSpriteNameIdempotent | src/image.cpp:34-45 | applying BaseSpriteName twice changes nothing |
| Image.BaseSpriteNameIgnoresDirectory | src/image.cpp:36-39 | the directory part does not affect the name |
| Image.PaddedSrc | src/image.cpp:117 | the candidate's src is (0, 0, w + 2p, h + 2p) |
| Image.PiecesTilePaddedRect | src/image.cpp:136-150 | the eight bleed destinations and the inner rectangle are pairwise disjoint and cover exactly the padded rectangle |
| Image.BleedSourcesInsideSprite | src/image.cpp:123-134 | for w, h >= 1 each bleed source is a non-empty rectangle inside the sprite |
| Image.BleedSourcesAreBorderPixels | src/image.cpp:123-134 | the sources are the four corner pixels and the top, right, bottom and left one-pixel strips |
| Image.BleedPiecesAdjoinTheirSources | src/image.cpp:123-147 | each corner copies 1x1 to p x p diagonally next to its pixel; each edge keeps its run length and stretches thickness 1 to p right next to its strip |
| Image.ZeroPaddingIsPlainCopy | src/image.cpp:136-150 | with p = 0 the bleed destinations are empty and the inner rectangle is the whole candidate |
| Image.MakeRenderSprite | src/image.cpp:113-175 | clears the candidate, then per border piece copies from the sprite (Bleed), fills transparent (Alpha) or fills yellow (Debug), then copies the sprite into the inner rect; any other mode is an error |
| Exporters.TruncateToInt | src/io.cpp:175 | `int(x)` truncates toward zero |
| Exporters.TruncateKeepsIntegers | src/io.cpp:175 | truncation keeps whole numbers |
| Exporters.ExportAtlasFile | src/io.cpp:159-179 | fails when the file does not open; otherwise writes `i <image>` and one `s <short_name> x y w h` line per quad, each string cut at its first NUL, pairing sprites[i] with quads[i], with reals when normalised and truncated ints otherwise |
| Exporters.ExportJson | src/io.cpp:181-200 | fails when the file does not open; otherwise writes the texture, one object per quad pairing sprites[i] with quads[i], and the closing `]}`, each string cut at its first NUL |
| Exporters.JsonPositions | src/io.cpp:188-197 | between `{"texture":...` and `]}`, exactly the odd positions hold sprite objects and exactly the even ones hold commas |
| Exporters.JsonLayoutIsSeparated | src/io.cpp:188-197 | objects and commas alternate: a comma before every object except the first |
| Exporters.RunExporter | src/atlas.cpp:234 | the exporter selected by fn runs on the atlas' output file and succeeds exactly when that file opens |
| Text.CString | src/io.cpp:142-143 | `%s` of `c_str()`: the text printed is never longer than the string, and equals it exactly when it holds no NUL |
| Text.CStringPrefix | src/io.cpp:142-143 | the printed text is the prefix of the string before its first NUL, and a shorter one stops at a NUL |
| Text.FindFirst | src/io.cpp:33 | `find_first_of(c)`: the first index holding c, or none exactly when c does not occur |
| Text.FindLastOf | src/io.cpp:48 | `find_last_of(cs)`: the last index holding a character of cs, or none exactly when none occurs |
| Paths.HasExtension | src/io.cpp:40-45 | true only when the name ends with ext (and is at least as long) |
| Paths.HasExtensionOfSuffix | src/io.cpp:40-45 | a name that ends with ext has that extension (the other direction of the suffix test) |
| Paths.ShorterHasNoExtension | src/io.cpp:41-43 | a name shorter than ext never has it |
| Paths.RenameWithExt | src/io.cpp:32-38 | with a first '.' at n > 0 the result keeps name[..n+1] and has extension ext; otherwise the name is unchanged |
| Paths.RenameTwice | src/io.cpp:32-38 | renaming twice is renaming once with the second extension |
| Paths.RenameIdempotent | src/io.cpp:32-38 | renaming with the same extension twice changes nothing more |
| Paths.BasePath | src/io.cpp:47-53 | ends in a separator; "./" when the name has none; otherwise the prefix through the last separator |
| Paths.BasePathIdempotent | src/io.cpp:47-53 | BasePath of a base path is itself |
| Paths.BasePathOfJoin | src/io.cpp:47-53 | a directory ending in a separator, joined with a plain name, is recovered |
| Numbers.SpaceRun | src/io.cpp:66 | std::stoi's leading white space: the longest run of isspace characters |
| Numbers.DigitRun | src/io.cpp:66 | the longest run of leading digits |
| Numbers.Stoi | src/io.cpp:66 | a value is returned only when it fits an int (otherwise std::stoi throws) |
| Numbers.NatDigits | src/io.cpp:144-149 | `%d` of a natural number: non-empty decimal digits |
| Numbers.NatDigitsValue | src/io.cpp:144-149 | reading the printed digits back gives the number |
| Numbers.StoiOfDigits | src/io.cpp:66 | digits followed by a non-digit are read as their value |
| Numbers.StoiDecimal | src/io.cpp:62-68 | std::stoi reads back every int that `%d` prints, whatever non-digit follows |
| Numbers.StoiNegativeDecimal | src/io.cpp:62-68 | the same for negative ints, through the minus sign |
| Numbers.DecimalHasNoNewline | src/io.cpp:144-149 | `%d` never prints a line break, so a settings line stays one line |
| Numbers.StoiNeedsDigit | src/io.cpp:66 | a value without digits makes std::stoi throw |
| ProjectFile.SplitLines | src/io.cpp:83-89 | the lines std::getline yields contain no newline, and there are none only for empty data |
| ProjectFile.SplitJoin | src/io.cpp:83-89 | splitting text written as newline-terminated lines gives back the lines |
| ProjectFile.JoinLinesAppend | src/io.cpp:141-153 | writing two runs of lines is writing their concatenation |
| ProjectFile.SetInt | src/io.cpp:120-125 | an integer key sets its own setting only (flags become v != 0); other keys and the file names are untouched |
| ProjectFile.SetIntTwice | src/io.cpp:120-125 | for an integer key the last value wins |
| ProjectFile.Update | src/io.cpp:112-125 | it fails exactly when an integer key's value makes std::stoi throw; unknown keys change nothing |
| ProjectFile.Apply | src/io.cpp:102-125 | `atlas` adds one entry; any other key before the first atlas is rejected; otherwise only the last entry changes |
| ProjectFile.Step | src/io.cpp:90-100 | blank and `#` lines are skipped; a line without a space is rejected |
| ProjectFile.KeyLine | src/io.cpp:93-100 | a line `key value` splits at its first space into that key and value |
| ProjectFile.CarriageReturnLineRejected | src/io.cpp:90-98 | a line holding only "\r" (from a CRLF file) is not skipped and has no space, so the load fails |
| ProjectFile.KeyBeforeAtlasRejected | src/io.cpp:107-111 | a key other than atlas before the first atlas line fails the load |
| ProjectFile.AtlasLineAdds | src/io.cpp:102-106 | `atlas` appends an entry with default settings whose output file is the rest of the line |
| ProjectFile.ImageLineSets | src/io.cpp:112-115 | `image` sets the last atlas' output image |
| ProjectFile.SpriteLineAdds | src/io.cpp:116-119 | `sprite` appends base + value to the last atlas, with its padding at that point |
| ProjectFile.UnknownKeyIgnored | src/io.cpp:120-125 | an unknown key after the first atlas changes nothing |
| ProjectFile.BadIntegerThrows | src/io.cpp:62-68 | an integer key whose value std::stoi rejects aborts the load |
| ProjectFile.LastIntWins | src/io.cpp:120-125 | a second line for the same integer key overrides the first |
| ProjectFile.IntLineSets | src/io.cpp:120-125 | an integer key written with `%d` sets that setting of the last atlas to the value |
| ProjectFile.SettingsLines | src/io.cpp:142-149 | the eight settings lines of an atlas |
| ProjectFile.SpriteLines | src/io.cpp:150-153 | one `sprite` line per sprite path, in order |
| ProjectFile.AtlasLines | src/io.cpp:141-153 | eight settings lines and one line per sprite |
| ProjectFile.SavedLinesSnoc | src/io.cpp:141-154 | the lines of one more atlas follow those of the atlases before it |
| ProjectFile.ParseAppend | src/io.cpp:89-126 | reading a + b is reading a and then, from where it stopped, b |
| ProjectFile.SettingsLinesParse | src/io.cpp:142-149 | the eight settings lines read back into a new entry with exactly those settings |
| ProjectFile.SpriteLinesParse | src/io.cpp:150-153 | the sprite lines read back as base + path, in order |
| ProjectFile.AtlasLinesParse | src/io.cpp:141-153 | an atlas' lines read back into one entry with its settings and its sprite paths under base |
| ProjectFile.SavedLinesParse | src/io.cpp:89-126 | the lines of all atlases read back into one entry per atlas, in order |
| ProjectFile.SavedLinesSingle | src/io.cpp:141-153 | no saved line contains a newline, given file names without one |
| ProjectFile.SaveLoadRoundTrip | src/io.cpp:70-157 | the text SaveProject writes parses back into the same settings and sprite paths, atlas by atlas |
| Loader.Appended | src/atlas.cpp:198-204 | only the sprites that load are appended |
| Loader.OfSnoc | src/atlas.cpp:191-195 | one more loaded sprite adds one sprite and one candidate whose sorting order is its index |
| Loader.DefaultGroups | src/atlas.cpp:184-193 | the groups a loaded atlas gets (one default group with every sprite) form a frame partition |
| Loader.DefaultGroupsGrow | src/atlas.cpp:189-193 | appending sprite n to the default group of n sprites gives the default group of n + 1 |
| Loader.AppendedSnoc | src/atlas.cpp:198-204 | one more sprite line appends that sprite exactly when it loads |
| Loader.SetSetting | src/io.cpp:120-125 | the integer key's field of the atlas takes the value |
| Loader.SetImage | src/io.cpp:112-115 | the atlas keeps matching its entry once `image` is applied to both |
| Loader.AddLoaded | src/io.cpp:116-119 | appending a loaded sprite keeps the atlas matching its settings and sprites |
| Loader.AddSprite | src/io.cpp:116-119 | a `sprite` line appends the sprite when it loads, and nothing when it does not |
| Loader.SetInteger | src/io.cpp:120-125 | the atlas keeps matching its entry once an integer key is applied to both |
| Loader.UpdateAtlas | src/io.cpp:112-125 | applying a non-atlas line to the last atlas: throws exactly when the parser's Update does, and otherwise keeps the atlas matching the updated entry |
| Loader.AddAtlasLine | src/io.cpp:102-106 | an `atlas` line appends one new atlas matching the new entry; the earlier atlases stay as they are |
| Loader.UpdateLast | src/io.cpp:107-125 | a non-atlas line updates only the last atlas, and aborts exactly when std::stoi throws |
| Loader.ApplyLine | src/io.cpp:99-125 | the imperative line handler stops, fails or aborts exactly when the parser's Apply does, and otherwise builds atlases matching its entries |
| Loader.ReadLine | src/io.cpp:90-125 | the same for a whole line, against Step |
| Loader.ReadLines | src/io.cpp:89-126 | the loop over lines ends exactly as ParseFrom does; on success it holds one new, distinct atlas per parsed entry |
| Loader.RenderKeepingKeys | src/io.cpp:131 | one `Render()`: the atlas is rendered from the candidates it held before, keeps their keys, and with none nothing changes |
| Loader.RenderSortedAgain | src/project.cpp:51 | rendering candidates that already came out of a render of cands again leaves the atlas rendered from cands |
| Loader.RenderBuilt | src/io.cpp:129-132 | rendering an atlas built from its entry keeps it matching the entry, with a valid texture, and leaves it with Render's outcome on its candidates (size, first-fit layout, one blit per candidate in order; no texture when no sprite loaded) |
| Loader.RenderLoaded | src/project.cpp:51 | rendering a loaded atlas again keeps it loaded as before, including Render's outcome on the loaded candidates |
| Loader.RenderFirst | src/project.cpp:51 | rendering atlas 0 again leaves every atlas loaded as its entry says, with valid textures |
| Loader.RenderAll | src/io.cpp:129-132 | after the closing loop every atlas matches its entry and holds Render's outcome on its candidates |
| Loader.LoadProject | src/io.cpp:70-134 | fails without a file; otherwise returns true exactly when the text parses and aborts exactly when std::stoi throws; on success it holds one new atlas per parsed entry, with those settings and the sprites that load, and with the size, layout and texture Render gives their candidates |
| Saver.SpritePaths | src/io.cpp:150-153 | each sprite's file relative to the directory of the project file, in order, cut at its first NUL as `%s` prints it |
| Saver.SavedWhole | src/io.cpp:142-153 | without NUL characters in the names, the saved settings and paths are exactly the atlas' settings and relative paths |
| Saver.SavedIsSavable | src/io.cpp:142-153 | with no newline in the names and int-sized settings, what is written for an atlas is a savable entry, so the round trip applies to it |
| Saver.WriteAtlas | src/io.cpp:142-153 | the fprintf calls for one atlas write exactly its saved lines |
| Saver.SnapshotPrefix | src/io.cpp:141-154 | the saved form of the first i atlases is a prefix of the whole, with atlas i at index i |
| Saver.SaveProject | src/io.cpp:136-157 | writes nothing when the file does not open; otherwise writes the saved lines of every atlas, in order, each string cut at its first NUL; always returns false |
| Frames.ShiftFrames | src/ui.cpp:195-198 | every frame at or above the removed index goes down by one and the others stay |
| Frames.Renumbered | src/ui.cpp:194-199 | the renumbering applied to every group, keeping names and frame times |
| Frames.AllFramesRenumbered | src/ui.cpp:194-199 | renumbering every group renumbers the frames of all groups together |
| Frames.RenumberKeepsPartition | src/ui.cpp:192-199 | once the removed sprite's frame is gone, renumbering gives a partition of the one-smaller sprite list |
| Frames.ShiftKeepsSprite | src/ui.cpp:253-260 | a shifted frame names the same sprite in the list without the removed one |
| Frames.TakeFrame | src/ui.cpp:247-252 | taking a frame out of its group leaves every index except that sprite's exactly once |
| Editing.Swap | src/ui.cpp:231-232 | std::swap on two frames: exchanges them, leaves the rest, and is a permutation |
| Editing.SwapTwice | src/ui.cpp:230-242 | Down undoes Up: swapping back restores the group |
| Editing.RenumberedLabels | src/ui.cpp:194-199 | renumbering keeps every group's name and frame time |
| Editing.EraseUnused | src/ui.cpp:253-260 | erasing a sprite no group uses and renumbering leaves what each group shows unchanged |
| Editing.RemoveFramePartition | src/ui.cpp:245-260 | removing a frame and its sprite, then renumbering, keeps the frames a permutation of the sprite indices |
| Editing.RemoveFrameKeepsPartition | src/ui.cpp:245-260 | after the removal each group shows the same sprites as before, except that the selected group loses exactly the removed frame |
| Editing.EraseGroupPartition | src/ui.cpp:189-199 | each round of group removal takes an index in range, and its renumbering keeps the pending frames a partition |
| Editing.EraseGroupStep | src/ui.cpp:189-199 | one round removes the group's next pending frame from what it shows and leaves the other groups' sprites as they were |
| Editing.EraseEmptyGroup | src/ui.cpp:201 | erasing the emptied group keeps the partition and erases its entry from what is shown and from the labels |
| Editing.NextRound | src/ui.cpp:189-199 | a round with a frame pending re-reads the shifted index and hands on to the next round |
| Editing.RoundsShape | src/ui.cpp:189-200 | the rounds keep the number of groups and of frames in the group being removed |
| Editing.EraseRoundsPartition | src/ui.cpp:189-200 | after the rounds the sprite list has shrunk by the group's frame count and the partition holds |
| Editing.EraseRoundsShown | src/ui.cpp:189-200 | after the rounds the removed group shows nothing and every other group shows the same sprites |
| Editing.GroupErasedPartition | src/ui.cpp:189-201 | group removal shrinks the sprites by the group's frame count, keeps the partition, and erases only that group's label |
| Editing.GroupErasedShown | src/ui.cpp:189-201 | after group removal every remaining group shows exactly the sprites it showed before |
| Editing.NewGroupKeepsPartition | src/ui.cpp:174-183 | an empty group keeps the partition and shows nothing |
| Editing.PermuteGroupKeepsPartition | src/ui.cpp:230-242 | reordering a group's frames keeps the partition |
| Editing.SwapKeepsPartition | src/ui.cpp:230-242 | Up/Down keep the partition and swap what the two frames show |
| Editing.ApplySelection | src/ui.cpp:215-218 | a changed group selection resets the selected frame to 0, and an unchanged one keeps it |
| Editing.SelectAnimation | src/ui.cpp:207-218 | clicking a group selects it and keeps the selection valid |
| Editing.NewAnimation | src/ui.cpp:174-183 | appends `untitled_anim` with no frames and the last group's frame time, leaves the other groups, moves the selection down one, keeps the partition |
| Editing.ShiftFrameIndices | src/ui.cpp:194-199 | the nested loop renumbers every group as Renumbered says |
| Editing.EraseGroup | src/ui.cpp:189-201 | the loop of removals, each re-reading the group's next shifted frame, then the group's erasure, computes GroupErased |
| Editing.RemoveGroup | src/ui.cpp:189-203 | the group and its sprites are erased as GroupErased says, and the atlas is then rendered from the candidates of the remaining sprites |
| Editing.RemoveAnimation | src/ui.cpp:186-205 | only when 0 < selected < groups: removes the group and its sprites, re-renders (the atlas holds Render's outcome on the new candidates), and moves the selection back one; otherwise nothing changes |
| Editing.MoveFrameUp | src/ui.cpp:230-234 | when sel > 0 the frame swaps with the one before and the selection follows; otherwise nothing changes |
| Editing.MoveFrameDown | src/ui.cpp:237-242 | when sel < size - 1 the frame swaps with the one after and the selection follows; otherwise nothing changes |
| Editing.EraseFrame | src/ui.cpp:247-260 | the frame leaves its group, its sprite leaves the atlas, and the frames are renumbered |
| Editing.EraseAndRerender | src/ui.cpp:247-261 | EraseFrame, then the atlas is rendered from the candidates of the remaining sprites |
| Editing.SelectPreviousFrame | src/ui.cpp:263 | the selected frame moves back one unless it is 0; what the atlas is rendered from is unchanged |
| Editing.RemoveFrame | src/ui.cpp:245-265 | when the selection is in range: the frame and its sprite are removed, candidates are rebuilt and rendered (Render's outcome on them), and the selection moves back one if positive; otherwise nothing changes |
| Projects.ExportAtlas | src/project.cpp:66-67 | one atlas exported with the exporter it names: true exactly as Export promises |
| Projects.Project.constructor | src/project.cpp:30-34 | exporters `atlas`, `txt`, `json` in that order; the first two write the atlas file and the last JSON |
| Projects.Project.RegisterExportFunc | src/project.cpp:59-61 | appends one exporter at the end and changes nothing else |
| Projects.Project.AddAtlas | src/project.cpp:82-84 | appends one atlas at the end and changes nothing else |
| Projects.Project.MakeEmptyAtlas | src/project.cpp:72-80 | a new 128x128 atlas with default settings, no sprites and the single group `<none>` without frames |
| Projects.Project.LoadEmptyProject | src/project.cpp:36-41 | filename `untitled.spritepack`, exactly one new empty atlas, current atlas 0 |
| Projects.Project.Load | src/project.cpp:43-53 | without a file, on a parse failure or with no atlases: the empty project and false; otherwise the new atlases, the file name, current atlas 0, true, and every atlas with the size, layout and texture Render gives its candidates (atlas 0 rendered a second time) |
| Projects.Project.ExportAllAtlases | src/project.cpp:63-70 | every atlas is exported even after a failure; true exactly when every export succeeded; each result is what Export promises for that atlas |
| Projects.Project.Save | src/project.cpp:55-57 | SaveProject on the project's file name and atlases |
| ProjectWindow.NewAtlas | src/ui.cpp:414-418 | an empty atlas is appended and becomes the selection and the current atlas |
| ProjectWindow.RemoveAtlas | src/ui.cpp:421-428 | the selected atlas is erased and the selection moves up one unless it is 0; with none left a new empty atlas is added; afterwards there is an atlas and current_atlas is in range |

## Left out

- SDL rendering. Textures are a size and a serial number. Render passes are lists of copies (`Blit`, `PaintOp`). No pixel contents are modelled. Also out: alpha blending, `SDL_DestroyTexture`, `FreeSpriteTextures` and the destructor.
- `LoadSprite` decoding images through stb (src/image.cpp:47-78). It is the parameter `load: string -> Option<Sprite>`. `WriteTexture` (src/image.cpp:80-111) is not part of this model, so `Export` does not write the image file.
- File handling. `fopen`/`fread` become the parameter `contents: Option<string>` (`None` when the file does not open). Output files become `canOpen`. What `fprintf` would write is returned as a value: lines for the project file, and `AtlasLine`/`JsonPiece` records for the exporters.
- `%f` formatting and JSON escaping (there is none). The exporters record the numbers they print, not the characters.
- `std::filesystem::absolute` and `std::filesystem::relative` become the parameters `absolute` and `relative`.
- Floating point. `ceilf(sqrtf(area))` is the exact integer ceiling square root. Single-precision rounding can differ from it once the area is large (above 2^24).
- Sizing.CeilSqrt: see the previous item; exact for areas a `float` represents exactly.
- Quads: `float` becomes `real`, so the quad arithmetic is exact.
- `frame_time` is a `real` that is only copied.
- `SetZoom`, `scale`, `position` and `origin` are left out; they are view state only.
- Undefined behaviour in Pack. This covers a 32-bit overflow in an expression that `PackedSize` actually evaluates (the area sum, `(w / 2) * h` and `(h / 2) * w` only where the short-circuit `&&` reaches them) or in the mask size `size.x * size.y`; a `NextPow2` argument above 2^30, whose `uint32_t` result 2^31 does not fit a positive `int` (converting it gives a negative side, and the mask size is then no longer a valid allocation); and a candidate with zero width or height (the corner test then reads the mask at column ox - 1 or row oy - 1, before the start of the mask at the first position). All of these, and nothing else, are the `Undefined` outcome; an input whose start sides overflow but whose halved container fits is packed (`Sizing.WideStartHalvesInRange`). `Bounded` (stacked height and width at most 8192) is a condition under which they are proved not to occur.
- Atlases.Atlas.Pack: the sort is one insertion sort. `std::sort` may order candidates of equal area differently, and then their positions may differ. The contract states only the sorted order and the permutation, but the placement lemmas are about the order this model picks.
- Placement.Place: requires candidates of at least 1x1, because for a zero width or height the C++ corner test reads outside the mask; `TryAttempt` handles that case as `Undefined`.
- Loader.LoadProject: on a rejected line or an aborted load, the contract says nothing about the atlases read so far. The C++ code leaves them in the project.
- Projects.Project.Load: when `std::stoi` throws, the exception propagates (`Aborted`) and the project keeps the atlases read so far. Neither their content nor the project's validity is stated.
- Loaded atlases have no texture before their first `Render` (src/io.cpp:131). That `Render` compares the packed size with `width` and `height` (src/atlas.cpp:158), which are uninitialised in C++ for a loaded atlas, so the comparison is undefined behaviour. The model starts them at 0, so the first `Render` of a loaded atlas whose candidates pack always calls `CreateTexture`.
- `image_format` and `padding_mode` are plain ints. In C++ they are unscoped enums with enumerators 0 to 2 and no fixed underlying type, so a `static_cast` of a value outside 0 to 3 is undefined behaviour. The model keeps the plain int read from the file and does not model that undefined behaviour. A padding mode outside the three known ones makes `MakeRenderSprite` report an error, where the C++ code asserts.
- ProjectWindow.RemoveAtlas: requires the selection to be in range. The C++ code erases past the end (undefined behaviour) when the static selection is stale.
- Editing.MoveFrameUp: requires the selected frame to be in range when it moves. The C++ code swaps out of bounds otherwise.
- Editing.MoveFrameUp, Editing.MoveFrameDown, Editing.RemoveFrame: require the selected group to exist (`selectedAnim < |animations|`). An `atlas` line of a project file creates an atlas with no groups (src/io.cpp:102-106), and only `AppendSprite` adds one (src/atlas.cpp:184-188), so an atlas loaded with no sprite that loads has no group. The C++ Sprites window then reads `animations[selected_anim]` out of bounds every frame it is drawn (src/ui.cpp:223-224), whether or not a button is pressed. The model does not describe that undefined behaviour.
- `Project::Error` and `GetAtlas`'s assert are left out; they are only an error-message store and a check.
- The ImGui drawing and layout, and the window wiring of "New Project", "Load", "Save" and "Export All". These buttons only call `LoadEmptyProject`, `Load`, `Save` and `ExportAllAtlases`, which are modelled.
- Renaming a group and editing its frame time (src/ui.cpp:267-278) are text input only.
- `src/spritepacker.cpp` (program entry, command line) and the SDL event loop, including dropping files onto an atlas, are not part of this model.
