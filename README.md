# ImageMaster reframing core, modelled in Dafny

ImageMaster is a single-page web tool. It takes a batch of images and a target aspect ratio, which is a preset or a custom `W:H` typed with a decimal point or comma. It puts every image, at its native size, in the middle of the smallest frame with that ratio, and fills the border white, black or with a blurred copy of the image. It shows a small preview and exports every framed image, as a download or through the platform's share sheet, under a name that records the frame size.

This project models the logic under that UI, all in `app.js`:

- `canvasSize`: the frame;
- the centring offsets and the returned size of `drawResult`;
- the size arithmetic of `drawBlurredBackground`;
- the preview sizing of `updatePreview`;
- ratio resolution in `getTargetRatio`;
- the output file name built in `runOne`;
- the sequential export loop behind `processAll`, `tryNext` and `runOne`.

Modules:

| file | module | models |
|---|---|---|
| `wrappers.dfy` | `Wrappers` | `Option` |
| `jsmath.dfy` | `JsMath` | `Math.floor`, `Math.ceil`, `Math.round`, `Math.max`, `Math.min` over `real` |
| `frame.dfy` | `Frame` | `canvasSize` and the centring offsets |
| `blur.dfy` | `Blur` | the rectangles and sizes of `drawBlurredBackground` |
| `compose.dfy` | `Compose` | `drawResult` (sizes, offsets, background choice) and `updatePreview` |
| `decimal.dfy` | `Decimal` | digit strings, and the decimal rendering of integers used in file names |
| `ratio.dfy` | `Ratio` | `getTargetRatio`: first-comma replacement, a decimal-prefix `parseFloat`, the custom-ratio rule |
| `naming.dfy` | `Naming` | the pattern `\.[^.]+$`, the base name, the extension and the output name |
| `export.dfy` | `Export` | `processAll`/`tryNext`/`runOne` as one `while` loop over an array of items |

JavaScript numbers are modelled as `real`. A value that may be NaN, `null` or infinite is an `Option<real>`. The callers' `!ratio` test is `Ratio.TruthyRatio`: it turns away NaN, `null` and 0, and lets a negative ratio through. Canvas sizes are unbounded `int`s.

The export's platform answers are inputs of the model, one per file:

- whether the file's image ever arrives;
- whether `toBlob` gives a blob;
- whether the share sheet takes the file.

The result records:

- where the batch ends;
- the indices handled, in order;
- each saved file's index, name and delivery route.

Three behaviours of the code are worth stating up front, because the model keeps them as they are:

- **Blurred background.** `drawBlurredBackground` makes a single cover-fit pass: it draws a crop of the image onto a canvas a sixth of the frame's size, then stretches that canvas over the whole frame. There is one pass and no fallback colour.
- **Negative ratios.** `getTargetRatio` rejects only a side that does not parse to a finite number and a height of 0 or less. The callers then reject a ratio of exactly 0. A negative custom width passes, and `Frame.FrameAtNegativeRatio` shows that the frame then equals the source.
- **Missing images.** `tryNext` calls `runOne` only once a file's image is there; until then it polls every 50 ms. So `runOne`'s "no image" branch, which would count the file and go on, is never reached. A file whose image never arrives stops the batch for good, and `Export.ProcessAll` ends with `Stalled` at the first such file.

## Model

| member | source | states |
|---|---|---|
| JsMath.Floor | app.js:49-50 | the result is the greatest integer at or below `x` |
| JsMath.Ceil | app.js:39 | the result is the least integer at or above `x` |
| JsMath.Round | app.js:112-113 | the result is the integer within one half of `x`, halves rounding up |
| JsMath.Max | app.js:37-38 | `Math.max` of two numbers: at least both, and one of them |
| JsMath.Min | app.js:111 | `Math.min` of two numbers: at most both, and one of them |
| JsMath.MaxInt | app.js:49-50 | `Math.max` of two integers: at least both, and one of them |
| Frame.CanvasSize | app.js:36-40 | the frame holds the source on both sides and covers what each side needs at ratio `r`; each side is the least integer that does, so it equals the source side or is less than one pixel over the other side's need |
| Frame.Centre | app.js:66-67 | the offsets are non-negative, keep the source inside the frame and leave equal margins on both sides of each axis |
| Frame.FrameTightOnOneSide | app.js:37-39 | when `r >= oldW/oldH` only the width grows, to `ceil(oldH*r)`; otherwise only the height grows, to `ceil(oldW/r)` |
| Frame.FrameAtSourceRatio | app.js:36-40 | at the source's own ratio the frame is the source and both offsets are 0 |
| Frame.FrameMatchesRatio | app.js:37-39 | the frame has ratio `r` up to the rounding: `r*H - r < W < r*H + 1` |
| Frame.FrameAtNegativeRatio | app.js:37-39 | a negative ratio leaves the frame equal to the source |
| Frame.PortraitToWidescreen | app.js:36-40 | 1080x1920 at 16:9 gives a 3414x1920 frame |
| Frame.LandscapeToSquare | app.js:65-67 | 4000x3000 at 1:1 gives 4000x4000, with offsets 0 and 500 |
| Blur.CoverScale | app.js:43 | the scaled image covers the frame on both axes and meets it exactly on one |
| Blur.CoverCrop | app.js:43-55 | the corrected crop, in image pixels: each field times the scale gives the rectangle the code passes, which is measured on the scaled image |
| Blur.CropAsWritten | app.js:46-55 | definition: the source rectangle exactly as the code passes it, offsets measured on the scaled image and the frame's size as its size; `Blur.CropAsWrittenLeavesImage` and `Blur.CropAsWrittenMissesPortrait` state what it does |
| Blur.OffscreenSize | app.js:49-50 | each side is the floor of a sixth of the frame side, and at least 1 |
| Blur.BlurredBackground | app.js:42-58 | the corrected cover crop `CoverCrop` is drawn onto an offscreen canvas of `OffscreenSize`, a sixth of the frame; the crop lies inside the image; the offscreen canvas is at most the frame; the stretched copy covers exactly the frame |
| Blur.CoverCropInsideImage | app.js:43-47 | the corrected crop lies inside the image, spans it on one axis, is centred in it and has the frame's ratio |
| Blur.CropAsWrittenLeavesImage | app.js:46-55 | whenever the frame adds a border, the source rectangle as written is not inside the image |
| Blur.CropAsWrittenMissesPortrait | app.js:46-55 | for 1080x1920 in a 3414x1920 frame, the rectangle as written starts below the image's last row |
| Blur.CropsAgreeWithoutBorder | app.js:43-47 | without a border, both crops are the whole image |
| Compose.SourceWidth | app.js:63 | the width used is the natural width or the element's width, the natural one whenever it is known, and it is 0 only when both are |
| Compose.SourceHeight | app.js:64 | the height used is the natural height or the element's height, the natural one whenever it is known, and it is 0 only when both are |
| Compose.Truthy | app.js:82 | definition: an optional size argument is truthy when it is given and not 0; `Compose.DrawResult` states what follows from it |
| Compose.Fill | app.js:74-79 | only "blur" blurs, with the plan `BlurredBackground` builds for the frame and the image's element width and height (not its natural size), whose stretched copy covers the frame; otherwise only "black" is black and every other mode is white |
| Compose.DrawResult | app.js:61-91 | frame, offsets and background come from `CanvasSize`, `Centre` and `Fill`; the returned size is the requested size when both requested sides are non-zero, and the frame otherwise; the frame is resampled exactly when both requested sides are non-zero and the requested size differs from the frame |
| Compose.ExportGetsFrame | app.js:251 | an export, which passes no size, gets the full frame unresampled |
| Compose.PreviewScale | app.js:111 | the scale lies in (0, 1] and brings the frame within 360x220, and it is the largest such scale: it is 1, or it brings a non-zero side exactly onto its bound, so a side of 0 never limits it |
| Compose.ScaledSide | app.js:112-113 | the result is within one half of `side*k` (`Math.round`), and lies between 0 and both the bound and the side |
| Compose.PreviewRequest | app.js:111-113 | each requested side is the frame side times `PreviewScale`, rounded to the nearest integer; the request is at most 360x220 and at most the frame |
| Compose.Slot | app.js:100 | the preview slot is a valid file index: the preview index itself when it is in range, otherwise the last file |
| Compose.UpdatePreview | app.js:93-114 | the preview is shown exactly when the ratio is truthy, there are files, and the file at the clamped preview index has its image; then it is that file's preview request, or its whole frame when the request has a side of 0 |
| Compose.PreviewBounds | app.js:110-114 | for any file list and preview index, a shown preview is either the whole frame, or has non-zero sides within 360x220 and within the frame |
| Compose.PreviewFallbackExample | app.js:82 | a 1x1000 image at 1:1000 asks for a 0x220 preview and so gets the full 1x1000 frame |
| Decimal.NatToString | app.js:261 | the rendering is non-empty, all digits, and has no leading zero |
| Decimal.IntToString | app.js:261 | the rendering holds no point, starts with "-" exactly for a negative number and has no leading zero; the digits that follow read back as the magnitude |
| Decimal.IntToStringInjective | app.js:261 | different integers render differently |
| Decimal.NatToStringRoundTrip | app.js:261 | the digits read back as the number |
| Decimal.NatToStringInjective | app.js:261 | different whole numbers render differently |
| Ratio.ReplaceFirst | app.js:30-31 | same length; only the first `from` becomes `to`; a string without `from` is unchanged |
| Ratio.ParseFloat | app.js:29-31 | definition: an optional sign, then the longest `digits [. digits]` prefix with at least one digit, the rest ignored, and NaN when there is none; `Ratio.ParsePointDecimal`, `Ratio.ParseWholeDecimal` and `Ratio.ParseRenderedNat` state what it reads |
| Ratio.ParseCustomSide | app.js:30-31 | definition: a custom field with its first comma made a point, then parsed; `Ratio.CommaReadsAsPoint` states that the comma reads as a point |
| Ratio.TruthyRatio | app.js:95 | definition: the callers' `!ratio` test read positively, true for a number other than 0; `Ratio.ZeroWidth` and `Ratio.NegativeWidth` show which custom ratios pass |
| Ratio.ReplaceFirstComma | app.js:30-31 | with no comma before it, the first comma becomes a point and a later comma stays |
| Ratio.CustomRatio | app.js:32-33 | a ratio exists exactly when both sides parse and the height is positive, and then the ratio times the height is the width |
| Ratio.GetTargetRatio | app.js:27-34 | a preset is parsed as it is; a custom ratio is `CustomRatio` of the two comma-corrected fields, so it exists exactly when both parse and the height is positive |
| Ratio.UnsignedPointDecimal | app.js:30 | `digits.digits` followed by a non-digit reads as whole part plus fraction |
| Ratio.ParsePointDecimal | app.js:30 | `parseFloat` reads `digits.digits` followed by a non-digit as whole part plus fraction |
| Ratio.ParseWholeDecimal | app.js:29 | `parseFloat` reads a digit string followed by neither a digit nor a point as its value |
| Ratio.ParseRenderedNat | app.js:29 | `parseFloat` reads a rendered whole number back as that number |
| Ratio.CommaReadsAsPoint | app.js:30-31 | a custom field with a decimal comma gives the same number as with a decimal point |
| Ratio.CustomRatioScaleInvariant | app.js:33 | scaling both custom sides by the same positive factor keeps the ratio |
| Ratio.ZeroWidth | app.js:32-33 | a custom width of 0 gives the ratio 0, which the callers' truthiness test turns away |
| Ratio.NegativeWidth | app.js:32-33 | a custom width of -16 over 9 gives a negative ratio that the truthiness test lets through |
| Naming.MatchFrom | app.js:259 | the match is the leftmost position at or after `i` where the pattern matches, and none means no position matches |
| Naming.ExtensionMatch | app.js:259-260 | a match is a position where the pattern matches, and no match means the pattern matches nowhere |
| Naming.BaseName | app.js:258 | the base name is a prefix of the name |
| Naming.Extension | app.js:259-260 | the extension is a point followed by at least one character |
| Naming.OutputName | app.js:261 | definition: base name, size tag, extension; `Naming.OutputNameKeepsExtension` states that re-splitting it gives back the extension and the base name plus the tag |
| Naming.Tag | app.js:261 | the size tag holds no point |
| Naming.TagInjective | app.js:261 | different frame sizes give different tags, so the name tells the frame size |
| Naming.MatchIsUnique | app.js:258-259 | the pattern can match at one position only |
| Naming.MatchExistsIff | app.js:259-260 | the pattern matches exactly when the name holds a point and does not end with one |
| Naming.LastPoint | app.js:258 | the index of the last point of a name that has one |
| Naming.SplitRoundTrip | app.js:258-260 | with a match, base name plus extension is the name, and the extension is a point and at least one other character, none of them a point |
| Naming.NoMatchKeepsName | app.js:258-260 | without a match the base name is the whole name and the extension is ".jpg" |
| Naming.OutputNameKeepsExtension | app.js:258-261 | the output name has the original extension, and its base name is the original base name plus the size tag |
| Naming.HiddenFileName | app.js:258-260 | a name that is only an extension keeps it, with an empty base name |
| Naming.TrailingPointName | app.js:258-261 | for any frame size, a name that ends with a point keeps the point and gets ".jpg" after the tag |
| Export.SavedFile | app.js:251-284 | a file is saved exactly when the item has its image and a blob, under that item's index |
| Export.SavedFileContents | app.js:258-280 | the saved file is named after the item's frame, and goes to Photos exactly when sharing is on and the share sheet takes it |
| Export.Done | app.js:215-282 | definition: the `done` counter after the first items, one per counted item; `Export.DoneCountsAllButFailures` states its value |
| Export.Saves | app.js:251-284 | definition: the files saved after the first items, in order; `Export.SavesMatchItems`, `Export.SavesAscending` and `Export.SavedPosition` state their properties |
| Export.ProcessAll | app.js:202-292 | no truthy ratio or no files gives a message and no work; otherwise each file is handled once, in index order, up to the first one whose image never arrives; `done` and the saved files are those of the files handled; the batch finishes only when every image arrives, and otherwise waits on that first file for ever |
| Export.RunOne | app.js:242-289 | one file counts exactly when the encoding gives a blob, and saves the file `SavedFile` names |
| Export.DoneCountsAllButFailures | app.js:215-282 | `done` is the number of files minus those whose blob was null, so it is at most the number of files |
| Export.OneFailureCountsTheRest | app.js:265-268 | one null blob does not stop the batch: `done` ends one short of the total |
| Export.NoFailureCountsAll | app.js:215-282 | with no null blob, `done` is the total |
| Export.ShareFailureStillCounts | app.js:272-278 | a file counts whether or not the share sheet takes it, and a refused share falls back to a download |
| Export.SavesMatchItems | app.js:251-284 | every saved file is the one `runOne` saves for the item it names |
| Export.SavesAscending | app.js:219-240 | saved files come in strictly ascending item order, so none is saved twice |
| Export.SavedPosition | app.js:263-284 | every item with an image and a blob appears among the saved files |

## Left out

- Pixel work is not modelled: `drawImage`, `fillRect`, image smoothing and the blur itself. Only the sizes, offsets and rectangles handed to those calls are modelled.
- DOM and event wiring are not modelled: form change, background buttons, file loading, thumbnails, status text and object URLs. The module-level state (`files`, `previewIndex`, `bgMode`) becomes parameters of `Compose.UpdatePreview` and `Export.ProcessAll`.
- Export.ProcessAll: holds `files` and `bgMode` fixed for the whole batch. The code fixes only `ratio`, `total` and `useShare` at the start (app.js:203, 216-217); it reads `files` and `bgMode` afresh at every step of the asynchronous chain (app.js:225, 243, 251), and only the start button is disabled (app.js:213). A background click during a share sheet or a poll therefore changes the background of every later file, and a new, shorter file list makes `files[i]` undefined, so app.js:226 throws and the batch ends with the button still disabled. The model does not capture either interleaving.
- Compose.Decoded: assumes every image that arrives has a positive element size and a positive source size, and `Compose.UpdatePreview`, `Export.Ready` and `Export.ProcessAll` require it. The code checks no size: an image without an intrinsic size (an SVG file, say) gives a 0x0 frame, a cover scale of NaN and a null blob. Such images are not modelled.
- Platform calls are inputs, one per file: `toBlob` (JPEG at 0.92), `navigator.share`/`canShare` and `downloadBlob`. The model records only whether a blob came and whether the share sheet took it.
- Timing is not modelled: the 50 ms polling and the `onload` re-hooking in `tryNext`. An image that arrives late is modelled as present. One that never arrives is modelled as absent, and the batch stalls there.
- Floating point is not modelled: numbers are exact reals, so IEEE-754 rounding (in `w / h`, `oldH * r`, the preview scale) is absent. `Math.ceil` and `Math.round` apply to the exact value.
- Ratio.ParseFloat: models `parseFloat` only for an optional sign, digits, and an optional point and digits. It does not skip leading white space and does not read exponents or `Infinity`. This is too small a grammar for a contract of its own; the lemmas beside it state what it reads.
- Ratio.GetTargetRatio: its own contract does not spell out that the custom ratio times the height is the width, because that clause over the parsed fields makes the proof too expensive. It states that the custom ratio is `Ratio.CustomRatio` of the parsed fields, whose contract carries that property.
- Concrete string examples (such as "16,9") are not evaluated: unfolding the parser on string literals is too expensive. The general lemmas (`Ratio.CommaReadsAsPoint`, `Ratio.ParsePointDecimal`) cover those inputs.
- Canvas size limits of browsers, and what happens to a canvas too large to allocate, are not modelled.
- The `!canvas` tests in `runOne` and `updatePreview` are not modelled as outcomes: `drawResult` always returns the canvas element it created, so those branches never run.
- Blur.BlurredBackground: its plan, which `Compose.Fill` and `Compose.DrawResult` carry in blur mode, holds the corrected crop `Blur.CoverCrop`, not the rectangle the code passes to `drawImage`. So in blur mode these members describe the intended program. The rectangle as written is `Blur.CropAsWritten`, and Findings records the difference.
- Compose.UpdatePreview: the preview size it reports is the size of the canvas `drawResult` returns. Copying that canvas onto the visible preview element is pixel work.

## Findings

| source | as written | input that shows it | evidently intended | confidence | as-written member | corrected member |
|---|---|---|---|---|---|---|
| app.js:46-55 | the offsets `sx`, `sy` are measured on the image scaled by `scale`, and the frame size is taken as the source size, but `drawImage` reads its source rectangle in the image's own pixels | a 1080x1920 image at 16:9 has a 3414x1920 frame; `sy` is about 2074.7 on an image 1920 pixels tall, so the rectangle misses the image and the blurred border stays empty | the cover crop in image pixels: offsets and size divided by `scale`, a rectangle inside the image with the frame's ratio | high (not executed) | Blur.CropAsWritten, shown by Blur.CropAsWrittenMissesPortrait and Blur.CropAsWrittenLeavesImage | Blur.CoverCrop, proved by Blur.CoverCropInsideImage and used by Blur.BlurredBackground |
