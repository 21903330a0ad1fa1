# Blinds and checkerboard filters of GIMP, modelled in Dafny

This project models the pixel engines of two GIMP plug-ins.

**Blinds** (`plug-ins/common/blinds.c`) makes an image look as if it were
painted on window blinds.
- `blindsapply` transforms one line:
  - it fills the destination with the background colour;
  - it cuts the line into `numsegs` segments ("fans") whose widths it keeps in the static `fanwidths` table;
  - it copies each segment's centre pixel;
  - it pulls both halves of every segment toward the centre by a displacement `dx` that grows with `1 - |cos(angle)|`.
- `apply_blinds` applies `blindsapply` to the selection.
  - Vertical blinds: every row goes through the transform, STEP = 40 rows per chunk.
  - Horizontal blinds: the column of row numbers `1..height` goes through the transform once. The result is a row map (`0` = background row), and whole source rows are copied through it, STEP columns at a time.
- `dialog_update_preview` does the same on a thumbnail.

**Checkerboard** (`plug-ins/common/checkerboard.c`) paints checks.
- `checkerboard_func` picks the foreground or background colour of pixel (x, y).
  - The regular rule compares the parities of `x / size` and `y / size`.
  - The "psychobilly" rule compares `inblock(x)` with `inblock(y)`. `inblock` reads a table of alternating 0/1 runs of lengths `1, 2, ..., size, size - 1, ..., 1`. The table is cached in static variables.
- `do_checkerboard_pattern` calls it for every pixel of the preview, or of every region of the full render.

Files:
- `arith.dfy` (`Arith`): small lemmas on products, quotients and remainders.
- `blinds_plan.dfy` (`BlindsPlan`): the segment plan computed by the `fanwidths` loop, and its properties.
- `blinds_line.dfy` (`BlindsTransform`): the line transform as functions on sequences, its properties, and the row maps of horizontal blinds.
- `blinds.dfy` (`Blinds`): imperative code.
  - The class `BlindsFilter` owns `fanwidths` and runs `blindsapply` in place on arrays.
  - The chunk and row loops of `apply_blinds` and of the preview.
- `checker_rule.dfy` (`CheckerRule`): the pixel rule and the `inblock` table as functions, and the bytes of a block of pixels.
- `checkerboard.dfy` (`Checkerboard`): imperative code.
  - The class `InBlockCache` holds the static `in`/`len` cache of `inblock`.
  - The class `CheckerboardFilter` holds the settings, `checkerboard_func`, and the preview and render loops.

Pixels:
- Blinds: a pixel of `bpp` bytes is one element of a type parameter `T`, since `blindsapply` only ever copies whole pixels. The row map uses the same code with `T = int`, as the plug-in does with `gint` pixels.
- Checkerboard: writes bytes, and the model keeps them as bytes.

## Model

| member | source | states |
|---|---|---|
| BlindsPlan.Plan | gimp-mainline/plug-ins/common/blinds.c:427-433 | the widths loop yields one width per segment (their values are stated by the lemmas below) |
| BlindsPlan.PlanSum | gimp-mainline/plug-ins/common/blinds.c:427-433 | the segment widths add up to the line length exactly, whatever the divisibility |
| BlindsPlan.PlanShape | gimp-mainline/plug-ins/common/blinds.c:427-433 | the plan is `n - width % n` segments of `width / n` followed by `width % n` segments of `width / n + 1` |
| BlindsPlan.PlanBalanced | gimp-mainline/plug-ins/common/blinds.c:427-433 | every width is the floor of width/n, or its ceiling when n does not divide width; widths never decrease along the line |
| BlindsPlan.PlanMoreSegmentsThanPixels | gimp-mainline/plug-ins/common/blinds.c:427-433 | with more segments than pixels the surplus segments are empty and come first, the rest are one pixel wide |
| BlindsPlan.FirstShare | gimp-mainline/plug-ins/common/blinds.c:431-432 | each share `available / m` lies in [0, available], and is strictly smaller while more segments follow |
| BlindsPlan.PlanFits | gimp-mainline/plug-ins/common/blinds.c:436-443 | for a non-empty line every segment and every centre index `available + w / 2` lies inside the line |
| BlindsTransform.Dx | gimp-mainline/plug-ins/common/blinds.c:468-469 | the displacement of step i is the truncation of `ang * (fw - i % fw)`; it lies in [0, fw - i], so the moved pixels stay inside their segment |
| BlindsTransform.DxZero | gimp-mainline/plug-ins/common/blinds.c:456-469 | an angle whose `1 - abs(cos(angle))` is 0 gives dx = 0 at every step |
| BlindsTransform.CopyCentres | gimp-mainline/plug-ins/common/blinds.c:436-453 | the centre loop keeps the line's length (its effect is stated by CopyCentresAt) |
| BlindsTransform.CopyCentresAt | gimp-mainline/plug-ins/common/blinds.c:436-453 | after the centre loop, each segment's centre pixel is the source pixel there and every other pixel is unchanged |
| BlindsTransform.DisplaceStep | gimp-mainline/plug-ins/common/blinds.c:467-489 | one step of the displacement loop keeps the line's length (its effect is stated by DisplaceSegmentDerived and DisplaceSegmentKeepsTail) |
| BlindsTransform.DisplaceSegment | gimp-mainline/plug-ins/common/blinds.c:465-490 | the displacement loop of one segment keeps the line's length |
| BlindsTransform.DisplaceAll | gimp-mainline/plug-ins/common/blinds.c:459-493 | the displacement loop over all segments keeps the line's length |
| BlindsTransform.DisplaceAllAt | gimp-mainline/plug-ins/common/blinds.c:460-493 | for a plan that fits, iteration k displaces segment k inside the line, and the loop then goes on from the next offset |
| BlindsTransform.BlindsLine | gimp-mainline/plug-ins/common/blinds.c:391-494 | the transformed line has the length of the source line |
| BlindsTransform.DisplaceSegmentDerived | gimp-mainline/plug-ins/common/blinds.c:465-490 | the displacement of a segment writes only inside that segment, and only copies of that segment's source pixels |
| BlindsTransform.DisplaceAllBelow | gimp-mainline/plug-ins/common/blinds.c:459-493 | the displacement of segments from `off` on never writes a pixel before `off` |
| BlindsTransform.LocalDisplaceAll | gimp-mainline/plug-ins/common/blinds.c:459-493 | the displacement loop keeps every pixel of every segment either the background or a copy of a source pixel of the same segment |
| BlindsTransform.BlindsLineLocal | gimp-mainline/plug-ins/common/blinds.c:391-494 | every output pixel of segment k is the background pixel or a copy of a source pixel of segment k (segments never bleed into each other) |
| BlindsTransform.BlindsLineDrawn | gimp-mainline/plug-ins/common/blinds.c:391-494 | every output pixel is the background pixel or some source pixel |
| BlindsTransform.OddTailNotCentre | gimp-mainline/plug-ins/common/blinds.c:439-443 | the last pixel of an odd segment of width three or more is no segment's centre |
| BlindsTransform.DisplaceSegmentKeepsTail | gimp-mainline/plug-ins/common/blinds.c:479-489 | the right-half copy subtracts `w % 2`, so the displacement of an odd segment never writes its last pixel |
| BlindsTransform.BlindsLineOddTail | gimp-mainline/plug-ins/common/blinds.c:414-489 | at any angle, the last pixel of every odd segment of width three or more keeps the background |
| BlindsTransform.BlindsOddSegmentEndsInBackground | gimp-mainline/plug-ins/common/blinds.c:427-489 | segment k of the plan, when odd and at least three wide, ends in a background pixel of the output |
| BlindsTransform.PlanOddTail | gimp-mainline/plug-ins/common/blinds.c:427-443 | the last index of an odd plan segment of width three or more is such an odd tail |
| BlindsTransform.ReachedUnlessOddTail | gimp-mainline/plug-ins/common/blinds.c:436-490 | with dx always 0, a pixel is written by the centre or displacement loops exactly when it is not the last pixel of an odd segment of width three or more |
| BlindsTransform.BlindsLineZeroAngle | gimp-mainline/plug-ins/common/blinds.c:391-494 | at angle 0 the output equals the source, except that the last pixel of each odd segment of width three or more is the background |
| BlindsTransform.DxLast | gimp-mainline/plug-ins/common/blinds.c:468-469 | for `ang < 1` the last step `i = fw - 1` of a half has `dx = 0` |
| BlindsTransform.DisplaceSegmentKeepsCentre | gimp-mainline/plug-ins/common/blinds.c:467-489 | for `ang < 1` and a segment of width two or more, the last right-half write copies the source centre pixel onto the centre, so the displacement loop ends with the centre holding the source pixel |
| BlindsTransform.DisplaceAllKeepsCentre | gimp-mainline/plug-ins/common/blinds.c:459-492 | for `ang < 1` the outer displacement loop leaves every non-empty segment's centre holding the source pixel the centre loop put there |
| BlindsTransform.BlindsLineKeepsCentre | gimp-mainline/plug-ins/common/blinds.c:391-494 | for every `ang < 1` the centre pixel `Start + w / 2` of each non-empty segment (the hinge) is the source pixel in the output |
| BlindsTransform.BlindsLineCentreMovesAtFullAngle | gimp-mainline/plug-ins/common/blinds.c:467-489 | at `ang = 1` the hinge moves: one segment over [10, 11, 12, 13] puts 11 at the centre index 2 |
| BlindsTransform.RowMap | gimp-mainline/plug-ins/common/blinds.c:690-707 | the row map of horizontal blinds has one entry per row, each 0 (background) or the number of an existing source row |
| BlindsTransform.PreviewRowMap | gimp-mainline/plug-ins/common/blinds.c:547-574 | the preview row map, built from byte row numbers, has one entry per row, each 0 or an existing row number below 256 |
| BlindsTransform.PreviewRowMapAgrees | gimp-mainline/plug-ins/common/blinds.c:565-574 | up to 255 rows the byte row numbers do not wrap, and the preview map equals the full render's map |
| Blinds.ChunkStep | gimp-mainline/plug-ins/common/blinds.c:656-659 | a chunk has 1 to STEP rows, ends inside the selection, and is short only when it is the last one |
| Blinds.ChunksTile | gimp-mainline/plug-ins/common/blinds.c:651-659 | the chunks starting at 0, STEP, 2·STEP, ... cover every row exactly once |
| Blinds.GetRows | gimp-mainline/plug-ins/common/blinds.c:661-665 | the chunk buffer holds rows [y, y + count) of the selection laid out one after another, and nothing after them changes |
| Blinds.GetColumns | gimp-mainline/plug-ins/common/blinds.c:733-737 | the stripe buffer holds columns [x, x + count) of every row, one row every `count` pixels, and nothing after them changes |
| Blinds.PutRows | gimp-mainline/plug-ins/common/blinds.c:673-677 | writing rows back replaces exactly as many rows as it is given, from row y on |
| Blinds.PutColumns | gimp-mainline/plug-ins/common/blinds.c:756-760 | writing a stripe back replaces exactly columns [x, x + count) of every row |
| Blinds.Copy | gimp-mainline/plug-ins/common/blinds.c:589-591 | `memcpy` of n pixels: the target range gets the old source range, and nothing else changes |
| Blinds.CopyMappedRow | gimp-mainline/plug-ins/common/blinds.c:742-753 | one row of a stripe becomes the background row for map entry 0, or the fetched source row `m - 1`; the rows before it are kept |
| Blinds.FetchedRow | gimp-mainline/plug-ins/common/blinds.c:750 | source row r of a fetched stripe sits at `step * r` in the stripe buffer |
| Blinds.MapStripe | gimp-mainline/plug-ins/common/blinds.c:740-754 | after the row loop, row r of the stripe is the part of the row the map names (or of the background row) that lies in the stripe |
| Blinds.HorizontalStripe | gimp-mainline/plug-ins/common/blinds.c:728-760 | one stripe pass replaces columns [x, x + step) of every row with the mapped row, and leaves the other columns alone |
| Blinds.HorizontalStripes | gimp-mainline/plug-ins/common/blinds.c:722-763 | after the stripe loop every row of the selection is the row the map names, or the background row |
| Blinds.PreviewBackgroundRowShowsSourceRow | gimp-mainline/plug-ins/common/blinds.c:576-592 | with angle 0, three rows and one segment the map is [1, 2, 0]: the background row 2 shows source row 0 in the preview but the background in the full render |
| Blinds.DrawPreviewRowsAsWritten | gimp-mainline/plug-ins/common/blinds.c:576-592 | as written, row y of the preview is the thumbnail row the map names, and for entry 0 it is a copy of buffer row 0 as already drawn |
| Blinds.DrawPreviewRowAsWritten | gimp-mainline/plug-ins/common/blinds.c:578-591 | one iteration of that loop draws row y and keeps the rows above |
| Blinds.DrawPreviewRows | gimp-mainline/plug-ins/common/blinds.c:576-592 | with a separate background row, row y of the preview is the row the map names, or the background row |
| Blinds.DrawPreviewRow | gimp-mainline/plug-ins/common/blinds.c:578-591 | one iteration of the corrected loop draws row y and keeps the rows above |
| Blinds.BlindsFilter.constructor | gimp-mainline/plug-ins/common/blinds.c:107 | the filter owns a fresh `fanwidths` table of MAX_FANS entries |
| Blinds.BlindsFilter.FillBackground | gimp-mainline/plug-ins/common/blinds.c:414-423 | the destination line becomes all background, and no pixel outside it changes |
| Blinds.BlindsFilter.ComputeFanwidths | gimp-mainline/plug-ins/common/blinds.c:427-433 | `fanwidths[0..numsegs)` becomes the plan, and the rest of the table is kept |
| Blinds.BlindsFilter.CopyCentresIn | gimp-mainline/plug-ins/common/blinds.c:436-453 | the centre loop on the array does what CopyCentres says, only inside the line |
| Blinds.BlindsFilter.DisplaceSegmentIn | gimp-mainline/plug-ins/common/blinds.c:465-490 | the inner displacement loop on the array does what DisplaceSegment says, only inside the line |
| Blinds.BlindsFilter.DisplacePair | gimp-mainline/plug-ins/common/blinds.c:467-489 | one iteration writes the left-half pixel at `+dx` and the mirrored right-half pixel at `-dx`, as DisplaceStep says |
| Blinds.BlindsFilter.DisplaceIn | gimp-mainline/plug-ins/common/blinds.c:459-493 | the outer displacement loop on the array does what DisplaceAll says for the plan, only inside the line |
| Blinds.BlindsFilter.DisplaceSegmentAt | gimp-mainline/plug-ins/common/blinds.c:460-493 | iteration k of the outer loop displaces segment k and leaves the rest of the loop still to do |
| Blinds.BlindsFilter.BlindsApply | gimp-mainline/plug-ins/common/blinds.c:391-494 | `blindsapply`: the destination line becomes BlindsLine of the source line, nothing else in the buffer changes, and `fanwidths` holds the plan |
| Blinds.BlindsFilter.BlindsRows | gimp-mainline/plug-ins/common/blinds.c:668-671 | each of `count` consecutive rows of the destination is BlindsLine of the same source row |
| Blinds.BlindsFilter.BlindsRow | gimp-mainline/plug-ins/common/blinds.c:669-671 | one iteration transforms row rr and keeps the rows above |
| Blinds.BlindsFilter.ApplyVertical | gimp-mainline/plug-ins/common/blinds.c:631-681 | vertical blinds: every row of the selection becomes BlindsLine of the source row; an empty selection changes nothing |
| Blinds.BlindsFilter.MapRows | gimp-mainline/plug-ins/common/blinds.c:690-707 | the row map array is RowMap, computed by `blindsapply` on the row numbers |
| Blinds.BlindsFilter.ApplyHorizontal | gimp-mainline/plug-ins/common/blinds.c:682-768 | horizontal blinds: row r of the result is source row `RowMap[r] - 1`, or the background row for 0; an empty selection changes nothing |
| Blinds.BlindsFilter.PreviewVertical | gimp-mainline/plug-ins/common/blinds.c:528-538 | every row of the vertical preview is BlindsLine of the thumbnail row |
| Blinds.BlindsFilter.PreviewMapRows | gimp-mainline/plug-ins/common/blinds.c:547-574 | the preview's row map array is PreviewRowMap, computed from byte row numbers |
| Blinds.BlindsFilter.PreviewHorizontal | gimp-mainline/plug-ins/common/blinds.c:539-595 | as written, row y of the horizontal preview is the thumbnail row the map names, and for entry 0 it is what buffer row 0 holds (see Findings) |
| Blinds.BlindsFilter.PreviewHorizontalCorrected | gimp-mainline/plug-ins/common/blinds.c:539-595 | with background rows from an untouched row, every preview row is the mapped row, and up to 255 rows it equals the full render's row |
| CheckerRule.Runs | gimp-mainline/plug-ins/common/checkerboard.c:427-442 | runs of the given lengths are as long as the lengths add up to, and hold only 0s and 1s |
| CheckerRule.TableLength | gimp-mainline/plug-ins/common/checkerboard.c:410-442 | the run lengths `1..size, size - 1..1` add up to exactly `size * size` = `len` |
| CheckerRule.Table | gimp-mainline/plug-ins/common/checkerboard.c:415-443 | the table `inblock` builds has `size * size` slots |
| CheckerRule.RunsAt | gimp-mainline/plug-ins/common/checkerboard.c:427-442 | a slot holds the starting value in even-numbered runs and the toggled value in odd-numbered runs |
| CheckerRule.TableAt | gimp-mainline/plug-ins/common/checkerboard.c:415-443 | a table slot is 1 exactly when it lies in the first, third, fifth, ... run |
| CheckerRule.SizeFitsExactly | gimp-mainline/plug-ins/common/checkerboard.c:405-410 | the sizes the model admits for the table are exactly those whose `size * size` fits a `gint` |
| CheckerRule.LookupIndex | gimp-mainline/plug-ins/common/checkerboard.c:446 | `pos % (len - 1)` is a valid index that never reaches the table's last slot |
| CheckerRule.InBlock | gimp-mainline/plug-ins/common/checkerboard.c:394-447 | `inblock` returns 0 or 1 |
| CheckerRule.InBlockPeriodic | gimp-mainline/plug-ins/common/checkerboard.c:446 | `inblock` is periodic in pos with period `size * size - 1` |
| CheckerRule.InBlockSizeOne | gimp-mainline/plug-ins/common/checkerboard.c:402-403 | size 1 gives the same answers as size 2 |
| CheckerRule.ClampSize | gimp-mainline/plug-ins/common/checkerboard.c:300-304 | a check size below 1 becomes 1; any other size is kept |
| CheckerRule.RegularNextCheck | gimp-mainline/plug-ins/common/checkerboard.c:248-252 | in the regular pattern, the point one check further right has the other colour |
| CheckerRule.Symmetric | gimp-mainline/plug-ins/common/checkerboard.c:237-253 | both patterns are symmetric in x and y, and the diagonal has the background colour |
| CheckerRule.IsForeground | gimp-mainline/plug-ins/common/checkerboard.c:237-253 | in psychobilly mode a pixel is foreground iff exactly one of `inblock(x)`, `inblock(y)` is 1; otherwise iff `x / size + y / size` is odd, i.e. the parities of the check indices differ (the shape of the pattern is proved by RegularSolidCheck, RegularNextCheck and Symmetric) |
| CheckerRule.RegularSolidCheck | gimp-mainline/plug-ins/common/checkerboard.c:248-252 | in the regular pattern every pixel of check (cx, cy) has the same colour, foreground iff `cx + cy` is odd: each check is a solid size by size square |
| CheckerRule.PixelBytes | gimp-mainline/plug-ins/common/checkerboard.c:255-256 | a pixel has bpp bytes, and byte b is `fg[b]` for the foreground and `bg[b]` otherwise |
| CheckerRule.PixelOf | gimp-mainline/plug-ins/common/checkerboard.c:318-323 | pixel i of a block has bpp bytes (its colour is stated by PixelOfGrid) |
| CheckerRule.Pixels | gimp-mainline/plug-ins/common/checkerboard.c:316-324 | the bytes of the first n pixels of a block in row-major order, `bpp` bytes per pixel: exactly `n * bpp` bytes (contents by PixelsAt and PixelOfGrid) |
| CheckerRule.PixelsPrefix | gimp-mainline/plug-ins/common/checkerboard.c:318-324 | drawing more pixels only appends to the bytes already drawn |
| CheckerRule.PixelsAt | gimp-mainline/plug-ins/common/checkerboard.c:318-323 | byte b of pixel i sits at `i * bpp + b` |
| CheckerRule.PixelOfGrid | gimp-mainline/plug-ins/common/checkerboard.c:318-323 | pixel `r * width + c` of a block at (x0, y0) has the colour of the point (x0 + c, y0 + r) |
| CheckerRule.PixelsGrid | gimp-mainline/plug-ins/common/checkerboard.c:360-371 | byte `(r * width + c) * bpp + b` of a `width` by `height` block is byte b of the colour of the point (x0 + c, y0 + r) |
| Checkerboard.SquareInjective | gimp-mainline/plug-ins/common/checkerboard.c:405-410 | equal table lengths `len` mean equal sizes, so the cached table fits the requested size |
| Checkerboard.InBlockCache.constructor | gimp-mainline/plug-ins/common/checkerboard.c:398-399 | the cache starts with no table and `len = -1` |
| Checkerboard.InBlockCache.FillTable | gimp-mainline/plug-ins/common/checkerboard.c:415-443 | the nested loops fill the array with exactly Table(size) |
| Checkerboard.InBlockCache.FillFirstHalf | gimp-mainline/plug-ins/common/checkerboard.c:426-434 | the first half writes the runs `1..size`, and what remains to write is the runs `size - 1..1` |
| Checkerboard.InBlockCache.FillSecondHalf | gimp-mainline/plug-ins/common/checkerboard.c:435-442 | the second half completes the table, filling all `size * size` slots |
| Checkerboard.InBlockCache.FillRun | gimp-mainline/plug-ins/common/checkerboard.c:429-433 | the k loop writes one run of j copies of `cell` and advances i by j |
| Checkerboard.InBlockCache.InBlock | gimp-mainline/plug-ins/common/checkerboard.c:394-447 | `inblock` returns CheckerRule.InBlock; the table is kept when `len` already matches `size * size` and rebuilt otherwise |
| Checkerboard.CheckerboardFilter.constructor | gimp-mainline/plug-ins/common/checkerboard.c:90-94 | the settings hold the given mode and size, with an empty `inblock` cache |
| Checkerboard.CheckerboardFilter.ClampCheckSize | gimp-mainline/plug-ins/common/checkerboard.c:300-304 | the stored size becomes ClampSize of the old size, and the mode is kept |
| Checkerboard.CheckerboardFilter.Decide | gimp-mainline/plug-ins/common/checkerboard.c:237-253 | `val` is IsForeground(x, y): the psychobilly rule through the cache, or the regular parity rule |
| Checkerboard.CheckerboardFilter.WritePixel | gimp-mainline/plug-ins/common/checkerboard.c:255-256 | bytes `off..off + bpp` take the chosen colour, and no other byte changes |
| Checkerboard.CheckerboardFilter.CheckerboardFunc | gimp-mainline/plug-ins/common/checkerboard.c:225-257 | `checkerboard_func` writes the colour of (x, y) at `dest[off..]` and changes no other byte |
| Checkerboard.CheckerboardFilter.DrawPixel | gimp-mainline/plug-ins/common/checkerboard.c:320-323 | the call for pixel n of a block extends the block's drawn bytes by that pixel |
| Checkerboard.CheckerboardFilter.Preview | gimp-mainline/plug-ins/common/checkerboard.c:300-328 | after the size clamp, the preview buffer holds the pixels of the `width` by `height` block at (x1, y1) in row-major order |
| Checkerboard.CheckerboardFilter.DrawPreview | gimp-mainline/plug-ins/common/checkerboard.c:318-324 | the preview loop fills the buffer with the block's pixels |
| Checkerboard.CheckerboardFilter.PreviewPixel | gimp-mainline/plug-ins/common/checkerboard.c:320-323 | iteration i draws pixel i at byte `i * bpp` |
| Checkerboard.CheckerboardFilter.RenderRegion | gimp-mainline/plug-ins/common/checkerboard.c:353-371 | one iterator region is filled with the pixels of the region's block, row by row |
| Checkerboard.CheckerboardFilter.RenderRegionRow | gimp-mainline/plug-ins/common/checkerboard.c:360-371 | one row iteration draws row y1 and advances `d` by one row of bytes |
| Checkerboard.CheckerboardFilter.RenderRow | gimp-mainline/plug-ins/common/checkerboard.c:362-368 | the column loop draws the `width` pixels of row y1 |
| Checkerboard.CheckerboardFilter.RenderPixel | gimp-mainline/plug-ins/common/checkerboard.c:364-367 | column x1 of row y1 is the point (rx + x1, ry + y1), written at `d + x1 * bpp` |

## Left out

- Dialogs, procedure registration, argument parsing, progress reporting, `gimp_drawable_update` and the shadow-buffer merge are not modelled.
- Background and foreground colours are parameters.
  - Their resolution from the context is not modelled, including the alpha forced to 0 for a transparent background.
  - In the checkerboard's colour resolution, the grey and colour branches pick swapped formats, and `param.bg + 1` receives both green and alpha. This model takes the colours as given.
- The angle is a parameter `ang` in [0, 1] standing for `1 - |cos(angle)|`. The cosine itself, in floating point, is not modelled, and `dx` is the floor of a real product rather than a `double` truncation.
- Blinds pixels are whole elements of a type `T`. The byte layout of a pixel (`bpp` bytes copied one by one) is not modelled.
- The images the plug-ins read and write are sequences of rows. GEGL buffers become row and column splices (`GetRows`, `GetColumns`, `PutRows`, `PutColumns`).
- Checkerboard renders region by region through a GEGL buffer iterator. The model covers one region (`RenderRegion`); how the iterator tiles the selection is not modelled.
- Uninitialised memory from `g_new` is not modelled: the model starts the blinds work buffers with the background.
  - In vertical blinds, all STEP rows of a chunk buffer go through `blindsapply`, as in the source. Rows beyond the last `step` of a short chunk hold earlier contents and are not written back.
- Blinds.BlindsFilter.BlindsApply: requires `numsegs <= MAX_FANS` (100). The dialog's scale entry already caps `numsegs` at `MAX_FANS` (blinds.c:370-374). Only a non-interactive call can pass 101 to 1024, which the `num-segments` argument admits, and then the C code writes past the static `fanwidths` table.
- Blinds.BlindsFilter.BlindsApply: requires `width >= 1`. No caller passes an empty line: the selection is non-empty, and the preview and thumbnail are at least one pixel.
- Checkerboard.CheckerboardFilter.Preview: requires `bpp <= 4`. The preview takes `bpp` from `gimp_drawable_bpp`, while the colours hold four bytes each.
- Checkerboard.CheckerboardFilter.Preview: requires, in psychobilly mode, a check size of at most 46340 (`SizeFits`). Above that, `size * size` overflows a `gint`, although the argument admits sizes up to 524288.
- Checkerboard.InBlockCache.InBlock: requires `pos >= 0`. All callers pass image coordinates. For a negative `pos` the C remainder would be negative and index before the table.
- `(n & 1)` on the non-negative check indices is written `n % 2`.
- BlindsTransform.BlindsLineKeepsCentre: requires `ang < 1`. `Dx` admits `ang = 1`, where the hinge moves (`BlindsLineCentreMovesAtFullAngle`), but the angle argument is a whole number of degrees in 0..360 (blinds.c:166-169), and at 90 and 270 degrees the `double` cosine of the radian value is about 6e-17 and 2e-16 in magnitude, so `1 - |cos|` stays just below 1 and the source keeps the hinge.
- `dx` is truncated (`Dx`). The mirrored right-half index is `w - (i + 1) - w % 2`. So at angle 0 the line is the source line, except the last pixel of each odd segment of width three or more, which is background (`BlindsLineZeroAngle`, `BlindsOddSegmentEndsInBackground`).
- `inblock` looks up `pos % (len - 1)` in its table (`LookupIndex`, `InBlockPeriodic`).

## Findings

| source | as written | input that shows it | evidently intended | confidence | as-written member | corrected member |
|---|---|---|---|---|---|---|
| gimp-mainline/plug-ins/common/blinds.c:551-592 | the horizontal preview fills only buffer row 0 with the background, and a background row (map entry 0) copies buffer row 0, which by then holds preview row 0 | angle 0, one segment, a thumbnail of three rows [7], [8], [9]: the map is [1, 2, 0], and preview row 2 shows [7] where the full render shows the background | background rows show the background colour, as in the full render (`dst` at blinds.c:709-720, 742-746) | not executed | Blinds.BlindsFilter.PreviewHorizontal, Blinds.PreviewBackgroundRowShowsSourceRow | Blinds.BlindsFilter.PreviewHorizontalCorrected |
