# va-vrezka GIF masks and file names, in Dafny

This project models the part of va-vrezka that computes the alpha mask of an
animated GIF and the file names that carry that mask and the extracted HTML.

The mask is computed by `fill` in get-gif-mask.js in three steps:
- **Flood fill.** A scanline flood fill is seeded at the four corners of the image. It sets a flag on every background pixel it reaches: those whose colour is closer than `fuzz` to the colour of pixel (0, 0).
- **Rasterising.** Each pixel becomes black, transparent where its flag is set and opaque elsewhere.
- **Blur.** The separable sliding-window box blur `boxblur` runs once, at radius 2, with the alpha eased by x^4.

`getMasks` applies `fill` with a fuzz of 50 to each GIF on the page.

From index.js the model covers:
- `escapeRegex`;
- the `<name>--<idx>.html` names that extract writes and compile parses back;
- the pathname a GIF is stored under, and the name and URL of its mask.

The model is organised as follows:
- `Pixels` holds the byte buffers and `getPoint`/`setPoint`.
- `FloodFill` holds the fill. It is imperative: a flag array, a work stack and the up and down walks, proved against the specification predicate `FillSpec`.
- `Rasterise` holds the rasteriser, as the in-place double loop it is.
- `BoxBlurSpec` states pixel by pixel what one call of `boxblur` computes.
- `BoxBlur` holds the in-place algorithm: running sums, scratch arrays and the `vmin`/`vmax` tables. It is proved equal to `BoxBlurSpec`.
- `BoxBlurProps` proves properties of the blur.
- `GifMask` composes the three steps into `fill` and proves properties of the mask.
- `FileNames` holds the index.js string helpers.
- `Sweep` is shared bookkeeping for the column-by-column loops.
- `Wrappers` holds `Option`.

Some behaviours of external code are modelled by definitions written out in `FileNames`:
- Node's `path.basename` and `path.join`, for the paths that occur here;
- the JavaScript regular-expression match of the compile pattern;
- `String.prototype.replace` with a string pattern.

## Model

| member | source | states |
|---|---|---|
| Pixels.GetPoint | get-gif-mask.js:150-153 | the cell read is the `size` elements from offset `y*width*size + x*size`; it is cut short only where the buffer ends, and then it runs exactly to the end |
| Pixels.SetPoint | get-gif-mask.js:155-160 | the new buffer is the old one with exactly the `size` elements of the cell overwritten from `rgba`; writes past the end are dropped |
| Pixels.GetAfterSet | get-gif-mask.js:150-160 | reading back a cell that was written in full returns what was written |
| Pixels.SetTouchesOnlyCell | get-gif-mask.js:155-160 | writing a cell changes no byte outside it and stores `rgba[k-i]` at byte k inside it |
| Pixels.CellInBounds | get-gif-mask.js:151 | an in-grid cell has a row-major index inside the grid |
| Pixels.CellInjective | get-gif-mask.js:151 | distinct in-grid cells have distinct row-major indices |
| BoxBlurSpec.Clamp | get-gif-mask.js:52 | the clamped window index lies in [lo, hi] and equals k when k already does |
| BoxBlurSpec.WindowSlide | get-gif-mask.js:72-81 | sliding a window by one adds the entry that enters and subtracts the entry that leaves, with both ends clamped |
| BoxBlurSpec.WindowBeforeStart | get-gif-mask.js:46-57 | a window lying before the line counts the first entry once per index, which is the `* rad1` start of every running sum |
| BoxBlurSpec.WindowOfConstant | get-gif-mask.js:44-57 | over a constant line, a window of n indices sums to n copies of that value |
| BoxBlurSpec.HScratch | get-gif-mask.js:44-86 | the scratch arrays have one entry per pixel |
| BoxBlurSpec.Output | get-gif-mask.js:105-120 | every pixel the vertical pass writes has four bytes |
| BoxBlurSpec.BoxBlurResult | get-gif-mask.js:1-4 | a radius below 1, or iterations that are not positive, leave the image unchanged; the image keeps its size |
| BoxBlur.RowStart | get-gif-mask.js:45-57 | the running sums at the start of a row are the clamped window `-r..r` of that row |
| BoxBlur.RowSlide | get-gif-mask.js:72-81 | after one step the running sums are the window moved one column right; every read through `vmin`/`vmax` is in bounds |
| BoxBlur.RowStep | get-gif-mask.js:59-84 | stores the sums of column x in the scratch arrays, touches no other entry, fills the `vmin`/`vmax` table on row 0, and moves the sums to the next window |
| BoxBlur.RowPass | get-gif-mask.js:44-86 | after one row, the row's w scratch entries are its window sums, the entries before and after the row are unchanged, and the table is complete |
| BoxBlur.HEntryAt | get-gif-mask.js:60-63 | scratch entry `y*w + x` is the window of row y over columns `x-r..x+r`, edges repeated |
| BoxBlur.HorizontalPass | get-gif-mask.js:44-86 | the scratch arrays equal the horizontal window sums of the whole image |
| BoxBlur.ColumnStart | get-gif-mask.js:88-101 | the vertical running sums at the top of a column are the clamped window of scratch rows `-r..r` |
| BoxBlur.ColumnSlide | get-gif-mask.js:121-134 | after one step the vertical sums are the window moved one row down; every read through `vmin`/`vmax` is in bounds |
| BoxBlur.WritePixel | get-gif-mask.js:105-120 | pixel `yi` receives the bytes `Output` specifies from the sums and the pixel's alpha before the pass |
| BoxBlur.ColumnStep | get-gif-mask.js:104-137 | one cell of column x is written as the blurred pixel; the vertical table is filled on column 0 |
| BoxBlur.ColumnPass | get-gif-mask.js:88-138 | columns 0 to x hold the blurred pixels and the later columns are as they were before the pass |
| BoxBlur.VerticalPass | get-gif-mask.js:88-139 | the pixels equal one blur pass of the image the pass started from |
| BoxBlur.BlurOnce | get-gif-mask.js:41-139 | one iteration turns the pixels into `BlurPass` of their old value |
| BoxBlur.Iterate | get-gif-mask.js:40-140 | the loop runs `max(iterations, 0)` passes |
| BoxBlur.BoxBlur | get-gif-mask.js:1-143 | the canvas ends up as `BoxBlurResult` of its old contents: unchanged below radius 1, otherwise the given number of passes |
| BoxBlur.EmptyImage | get-gif-mask.js:1-143 | an image with no pixels is unchanged |
| BoxBlurProps.TransparentIsBlack | get-gif-mask.js:107-119 | a pixel written with alpha 0 gets RGB 0 too |
| BoxBlurProps.MaskStep | get-gif-mask.js:105-120 | in mask mode, one pass leaves a fully transparent pixel fully transparent |
| BoxBlurProps.MaskKeepsTransparent | get-gif-mask.js:105-120 | in mask mode, a transparent pixel comes out of a pass as `(0,0,0,0)` |
| BoxBlurProps.IterPreserves | get-gif-mask.js:40-41 | a property that one pass preserves holds after any number of passes |
| BoxBlurProps.MaskKeepsTransparentIter | get-gif-mask.js:40-120 | in mask mode, transparent pixels stay transparent over all iterations |
| BoxBlurProps.EaseIdentity | get-gif-mask.js:107 | easing with the identity writes the same pixel as not easing |
| BoxBlurProps.UniformScratch | get-gif-mask.js:44-86 | in an image of one premultiplied colour q, every scratch entry is `(2r+1)*q` |
| BoxBlurProps.UniformSum | get-gif-mask.js:88-134 | in such an image, the vertical sums are `(2r+1)^2` copies of q everywhere, edges included |
| BoxBlurProps.UniformPass | get-gif-mask.js:40-139 | a pass over such an image writes every pixel from `(2r+1)^2*q` |
| BoxBlurProps.OpaqueSum | get-gif-mask.js:20 | `(2r+1)^2` opaque pixels carry at least 255 times the divisor `(2r)^2` |
| BoxBlurProps.OpaqueOutput | get-gif-mask.js:107 | without easing or mask mode, sums of at least 255 times the divisor give alpha 255 |
| BoxBlurProps.SinglePass | get-gif-mask.js:40-41 | with one iteration the blur is exactly one pass |
| BoxBlurProps.UniformAlpha | get-gif-mask.js:20-107 | at radius 2 without easing, a uniform alpha a becomes `round(25a/16)`: 128 becomes 200 |
| BoxBlurProps.GainAtRadius2 | get-gif-mask.js:107 | 25 copies of q over the divisor 16 give alpha `round(25 q.a/16)` |
| BoxBlurProps.UniformPassAlpha | get-gif-mask.js:107 | the alpha of a pass over a uniform image is the alpha `Output` gives for `(2r+1)^2` copies |
| BoxBlurProps.UniformOpaque | get-gif-mask.js:107 | without easing, a uniform opaque image stays opaque |
| BoxBlurProps.WindowNoColour | get-gif-mask.js:53-80 | window sums of entries without colour have no colour |
| BoxBlurProps.ScratchNoColour | get-gif-mask.js:44-86 | the scratch entries of an image whose RGB is all 0 have no colour |
| BoxBlurProps.SumNoColour | get-gif-mask.js:88-134 | the vertical sums of such an image have no colour |
| BoxBlurProps.PassColourless | get-gif-mask.js:40-139 | a pass keeps an image whose RGB is all 0 in that state: only alpha is blurred |
| BoxBlurProps.IterColourless | get-gif-mask.js:40-140 | any number of passes keep an image whose RGB is all 0 in that state |
| FloodFill.FillArgs.Cell | get-gif-mask.js:209-215 | the flag index of an in-grid pixel lies inside the `w*h` flag array |
| FloodFill.UnmarkedSet | get-gif-mask.js:235 | setting one clear flag removes exactly one unmarked pixel, which is the measure that makes the fill terminate |
| FloodFill.PopKeepsClosure | get-gif-mask.js:218 | after the pop, every obligation is still owed, either by the stack or by the popped point |
| FloodFill.UpDone | get-gif-mask.js:219-221 | where the upward walk stops, the pixel above does not qualify and every pixel from there down to the popped one does |
| FloodFill.MarkStep | get-gif-mask.js:224-235 | marking a qualifying pixel after pushing its qualifying side neighbours keeps the walk's invariant, never clears a flag, and lowers twice the number of unmarked pixels plus the stack size |
| FloodFill.MarkSound | get-gif-mask.js:224-235 | marking only similar pixels keeps every marked pixel similar |
| FloodFill.PushInBounds | get-gif-mask.js:225-234 | only pixels inside the image are pushed |
| FloodFill.MarkClosure | get-gif-mask.js:224-235 | every similar neighbour of a marked pixel is still marked, stacked, or next in the walk |
| FloodFill.DownDone | get-gif-mask.js:223-239 | when the downward walk stops, nothing is owed to the popped point any more, and the popped point is marked if it is similar |
| FloodFill.WalkUp | get-gif-mask.js:219-221 | the walk stops at row 0 or below a pixel that is marked or not similar, and every row it passed above the popped point is unmarked and similar |
| FloodFill.PushIfQualifies | get-gif-mask.js:226-233 | neighbour q is pushed exactly when it is unmarked and similar |
| FloodFill.MarkAndPush | get-gif-mask.js:224-236 | the new flags are the old ones with the flag of (x, y) set, and the new stack is the old one followed by the left neighbour if it qualified and then the right neighbour if it qualified |
| FloodFill.WalkDown | get-gif-mask.js:223-241 | after the downward walk, only similar pixels are marked, no obligation is open, and the popped point is marked if it is similar |
| FloodFill.Drain | get-gif-mask.js:217-241 | from any state meeting the loop invariant, the loop ends with an empty stack, the invariant kept, and at most twice the unmarked pixels plus the stack size rounds |
| FloodFill.PopAndFill | get-gif-mask.js:217-241 | one round keeps the loop invariant and strictly lowers twice the number of unmarked pixels plus the stack size |
| FloodFill.FloodStart | get-gif-mask.js:201-208 | with all flags clear and the four corners pushed, the loop invariant holds |
| FloodFill.Flood | get-gif-mask.js:196-242 | the flags meet `FillSpec`, which has three parts, and the loop pops at most `4 + 2*w*h` times. `FillSpec` says: (1) only similar pixels are marked; (2) every similar corner is marked; (3) every similar edge-neighbour of a marked pixel is marked |
| FloodFill.PathMarked | get-gif-mask.js:217-241 | a path of similar edge-adjacent pixels that starts at a marked pixel is marked to its end |
| FloodFill.ComponentMarked | get-gif-mask.js:205-241 | every pixel joined to a similar corner by such a path is marked |
| FloodFill.OriginMarked | get-gif-mask.js:203-205 | pixel (0, 0) is marked when a colour is at distance 0 from itself and `fuzz > 0` |
| FloodFill.UniformAllMarked | get-gif-mask.js:196-242 | in an image of one colour, under the same two conditions, every pixel is marked |
| FloodFill.NothingMarkedWithoutFuzz | get-gif-mask.js:219-224 | with a metric that is never negative and `fuzz <= 0`, no pixel is marked, not even one of the reference colour |
| Rasterise.MaskImage | get-gif-mask.js:244-248 | the rasterised mask has four bytes per flag |
| Rasterise.MaskCell | get-gif-mask.js:246 | pixel c of the mask is black, alpha 0 when its flag is set and 255 otherwise |
| Rasterise.PaintCell | get-gif-mask.js:246 | writing one pixel advances the column-by-column sweep by one cell |
| Rasterise.PaintColumn | get-gif-mask.js:245-247 | the inner loop writes every pixel of column x; earlier columns are already written and later ones are untouched |
| Rasterise.Rasterise | get-gif-mask.js:244-248 | the image ends up as the rasterised mask of the flags |
| GifMask.MaskOf | get-gif-mask.js:244-253 | the blurred mask has four bytes per flag |
| GifMask.Fill | get-gif-mask.js:196-254 | the flags satisfy `FillSpec` against the original canvas, and the canvas ends up as the rasterised mask blurred at radius 2 with x^4 easing |
| GifMask.GetMask | get-gif-mask.js:277 | the same with fuzz 50 |
| GifMask.MaskIsOnePass | get-gif-mask.js:253 | the blur of `fill` is exactly one pass |
| GifMask.MaskImageColourless | get-gif-mask.js:246 | the rasterised mask has RGB 0 everywhere |
| GifMask.MaskColourless | get-gif-mask.js:244-253 | the final mask has RGB 0 everywhere: only alpha carries information |
| GifMask.OriginTransparent | get-gif-mask.js:203-246 | pixel (0, 0) of the rasterised mask is transparent when `fuzz > 0` and a colour is at distance 0 from itself |
| GifMask.MaskUniform | get-gif-mask.js:246 | with every flag equal, the rasterised mask is one premultiplied colour |
| GifMask.OpaqueAlpha | get-gif-mask.js:107 | the sums of 25 opaque pixels give a raw alpha of at least 255 |
| GifMask.ClearSumOutput | get-gif-mask.js:107-116 | sums without colour or alpha are written as `(0,0,0,0)` |
| GifMask.OpaqueSumOutput | get-gif-mask.js:107-116 | sums without colour and with the alpha of 25 opaque pixels are written as `(0,0,0,255)` |
| GifMask.UniformSumOutput | get-gif-mask.js:107-116 | 25 rasterised pixels that are all marked blur to transparent; 25 that are all unmarked blur to opaque |
| GifMask.UniformMaskPass | get-gif-mask.js:244-253 | with every flag equal, each pixel of the final mask is the output of those 25 identical pixels |
| GifMask.UniformMaskCell | get-gif-mask.js:244-253 | with every flag set the final mask is `(0,0,0,0)` everywhere; with none set it is `(0,0,0,255)` everywhere |
| GifMask.UniformImageClearMask | get-gif-mask.js:196-254 | a one-colour GIF gets a fully transparent mask when `fuzz > 0` and a colour is at distance 0 from itself |
| GifMask.NoBackgroundOpaqueMask | get-gif-mask.js:196-254 | with a metric that is never negative and `fuzz <= 0`, the mask is fully opaque |
| FileNames.EscapeIsLiteral | index.js:40-42 | the escaped string, read as a pattern, is a plain literal that matches exactly the input: each special character gets one backslash, other characters are copied |
| FileNames.EscapeLength | index.js:41 | the output length is the input length plus the number of special characters |
| FileNames.EscapePlain | index.js:41 | a string without special characters is returned unchanged |
| FileNames.DecimalRoundTrip | index.js:488 | the decimal form of idx is a non-empty run of digits without a leading zero that denotes idx |
| FileNames.TrimTrailingSlashes | index.js:411 | the trimmed path is a prefix of the path |
| FileNames.LastSegment | index.js:411 | the last segment is a suffix of the path |
| FileNames.LastSegmentNoSlash | index.js:411 | the base name holds no slash and is preceded by one whenever it is not the whole path |
| FileNames.LastSegmentOfJoin | index.js:376 | the base name of `d/b` for a b without slashes is b |
| FileNames.FirstSplit | index.js:183 | the lazy group ends at the least split point at or after k, or at none |
| FileNames.SplitUnique | index.js:183 | a file name matches the pattern with at most one split point |
| FileNames.ParseExact | index.js:183-207 | a file name that splits at k parses into the name before k and the digits after `--`; it parses to nothing (the file is skipped) exactly when it splits nowhere |
| FileNames.ParseRoundTrip | index.js:183 | a non-empty one-line name, `--`, digits and `.html` parse back into that name and those digits |
| FileNames.JsonBaseName | index.js:488 | the base name of `name.json` without `.json` is `name` |
| FileNames.ExtractThenCompile | index.js:488 | the HTML file that extract writes for item idx of `name.json` parses into `name` and digits denoting idx |
| FileNames.StripLeadingSlashes | index.js:374 | the stripped path is a suffix of the path |
| FileNames.StripExact | index.js:374 | for `p` equal to n slashes followed by s, the strip returns s exactly when s does not start with a slash |
| FileNames.StripIdempotent | index.js:374-376 | the result starts with no slash, so stripping again changes nothing |
| FileNames.OutsideJoinUnstripped | index.js:376 | joining a name to the outside directory gives a path with no leading slash |
| FileNames.OutsideJoinBaseName | index.js:376 | the base name of the outside directory joined with a name is that name |
| FileNames.OutsideLayout | index.js:374-377 | a GIF from another host is stored as its base name directly inside the outside directory, and keeps that base name |
| FileNames.MaskBesideGif | index.js:411 | for a GIF stored as `b.gif` with b non-empty, the mask file is `b--mask.png` |
| FileNames.ReplaceFirstPrefix | index.js:389 | once the first occurrence lies inside x, replacing in `x + y` copies y |
| FileNames.ReplaceFirstAbsent | index.js:389 | with no occurrence starting inside x, replacing in `x + y` keeps x and replaces in y |
| FileNames.ReplaceAfterDirectory | index.js:379-389 | a `.gif` inside the directory is the one replaced, and the rest of the URL is copied |
| FileNames.GifBaseName | index.js:407 | the base name of `dir/b.gif` is `b.gif` |
| FileNames.MaskUrlInDirectory | index.js:379-389 | the mask URL of `dir/b.gif`, when `dir` holds `.gif`, replaces that `.gif` and keeps `/b.gif` |
| FileNames.MaskUrlMissesMaskFile | index.js:389-411 | as written, a GIF `b.gif` in a directory containing `.gif` has its mask written as `b--mask.png`, but the URL injected into the page still ends in `b.gif` |
| FileNames.BaseNameWithoutNoSlash | index.js:411 | a base name, with or without a suffix, holds no slash |
| FileNames.MaskFileNameNoSlash | index.js:411 | the mask file name holds no slash |
| FileNames.MaskUrlNamesMaskFile | index.js:389-411 | the corrected mask URL lies in the directory of the GIF's URL and ends in the name of the mask file |
| FileNames.MaskUrlOfGif | index.js:379-411 | the corrected mask URL of `dir/b.gif` is the host, `dir/`, and `b--mask.png` |
| FileNames.MaskUrlAgrees | index.js:379-411 | where the GIF's own extension is the first `.gif` of its URL, the URL as written and the corrected one agree |

## Left out

- `deltaE` and `rgb2lab` (get-gif-mask.js:162-194) are transcendental floating-point code. The metric is a function parameter of the fill, `deltaE`. Lemmas that need a property of it say so in their `requires`: only "a colour is at distance 0 from itself" and "distances are never negative" are ever required. Symmetry is never required, and it does not hold.
- Floating point: the premultiplied sums, `Math.round` and `easeAlpha` are computed on mathematical reals. `Math.round` is `floor(v + 0.5)`. The store into the clamped byte array clamps to 0..255. IEEE rounding error, NaN and infinities are not modelled.
- The `<< 2` shifts of `boxblur` are multiplications by 4. Their 32-bit wrap-around, which needs images of over 2^29 pixels, is not modelled.
- `radius` and `iterations` are integers. A fractional radius or iteration count is not modelled.
- The region offsets `x`, `y`, `width` and `height` of `boxblur` are left out; the blur always covers the whole canvas, which is the only way `fill` calls it.
- `BoxBlur.BoxBlur` returns at once for an image with no pixels instead of running passes that write nothing. Its contract is the same either way (`BoxBlur.EmptyImage`).
- The scratch arrays `r`, `g`, `b` and `a` are one array of `Quad` values, because they are always written together.
- `vmin` and `vmax` are allocated with `max(w, h)` entries instead of growing on demand.
- Canvas and DOM calls (`getImageData`, `putImageData`, `clearRect`, `toBlob`, `drawImage`) are left out. The canvas is the pixel array itself, and `GifMask.Fill` writes the mask into it directly. The copy of the pixels that `fill` reads, and the clearing of the canvas, make no difference to the result.
- `fill`'s default arguments are left out (get-gif-mask.js:196). `GifMask.Fill` always takes `fuzz` (the default 32 is never used, since the only call is `fill(canvas, 50)` at get-gif-mask.js:277). `fillColor` is never read by `fill`. A caller-supplied `pixelStack`, whose points would be popped after the four corners and which `fill` empties in place, is not modelled: `FloodFill.Flood` always starts from the four corners alone, as that call does.
- `GifMask.Fill` requires a non-empty canvas. `getMasks` only fills images whose natural width and height are both non-zero (get-gif-mask.js:261).
- The image selection and loading loop of `getMasks` is left out (get-gif-mask.js:145-148, 256-284). It uses promises, timers and a `.gif` URL filter.
- FloodFill.Flood: the contract states soundness, the corners and closure under similar neighbours, not the exact set of marked pixels. The upward walk tests the pixel above, not the popped one, so a corner that is not similar can still lead to similar pixels above it being marked. That behaviour is allowed by the contract but not characterised.
- GifMask.Fill: inherits the gap of `FloodFill.Flood`. Its flags are bounded by `FillSpec` rather than determined exactly, so the mask it writes, `MaskOf` of those flags, is not determined exactly either.
- GetMask: `GifMask.GetMask` has the same gap as `GifMask.Fill`, with fuzz 50.
- Everything else in index.js is input/output:
  - the command line, the preview server and browser automation;
  - file reads and writes, globbing, zipping, minifying and pretty-printing;
  - logging and dates;
  - the JSON `items` update and the `compiled` set;
  - `encodeURI`;
  - the preview URL rewrite (index.js:109-117) and the occurrence counters (index.js:293-321), which rely on regular expressions where `.` is a wildcard.
- Node's `path.join` and `path.resolve` normalise `.` and `..` segments; the model joins only a directory and a base name that holds no slash.
- The WHATWG URL parser is left out; the model takes the URL's pathname as given.
- index-old.js, an earlier version made entirely of input/output, and babel.config.cjs are not part of this model.

### Behaviours of the code worth noting
- With `fuzz <= 0` the code marks nothing at all, because the test is a strict `deltaE < fuzz` on a distance that is never negative. It does not mark seeds equal to the reference colour (`FloodFill.NothingMarkedWithoutFuzz`). For the same reason a uniform corner region is marked only when `fuzz > 0`, not when `fuzz >= 0`.
- The divisor `(2r)^2` is not the window area `(2r+1)^2`, so an unmasked, uneased blur amplifies alpha by 25/16 at radius 2: a uniform alpha of 128 becomes 200 (`BoxBlurProps.UniformAlpha`).

## Findings

| source | as written | input that shows it | evidently intended | confidence | as-written member | corrected member |
|---|---|---|---|---|---|---|
| index.js:389 | the mask URL replaces the first `.gif` anywhere in `srcMod`, not the GIF's own extension | pathname `img.gif/a.gif`: the mask URL becomes `.../img--mask.png/a.gif`, while line 411 writes the mask as `a--mask.png` next to `a.gif` | the mask URL names the file line 411 writes, in the GIF's directory | not executed; medium | FileNames.MaskUrlMissesMaskFile | FileNames.MaskUrlNamesMaskFile |
