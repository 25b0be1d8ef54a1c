# image_cropper — a Dafny model of the crop editor's handlers

image_cropper is a browser image cropper written in React. Its pages hold a
picture and a crop rectangle, and their event handlers do four things:
- keep an edit history (commit, undo, redo, reset, delete);
- convert crops between percent and pixel coordinates;
- clamp typed numbers so that the crop stays on the image;
- resize the crop from presets, aspect ratios, units and a size slider.

This project models those handlers and proves what they guarantee.

| file | module | what it models |
|---|---|---|
| `wrappers.dfy` | `Wrappers` | `Option`, standing for `undefined`, `null` and NaN |
| `crop_utils.dfy` | `CropUtils` | crop rectangles, `convertToPixelCrop`, `clamp` |
| `js_numbers.dfy` | `JsNumbers` | `parseInt(s, 10)` on text, an integer's `toString()`, `Math.round` |
| `units.dfy` | `Units` | the Resizer's `toPixels` / `fromPixels` (96 DPI, 2.54 cm per inch) |
| `crop_inputs.dfy` | `CropInputs` | the clamping arithmetic shared by both ImageCompressor pages |
| `crop_controls.dfy` | `CropControls` | the handlers of `src/components/CropControls.jsx` |
| `compressor_page.dfy` | `CompressorPage` | the fields of the routed page, `src/pages/ImageCompressor.jsx` |
| `nested_compressor_page.dfy` | `NestedCompressorPage` | the fields of `src/pages/ImageCompressor/ImageCompressor.jsx`: typed text, `onBlur` refill, `|| 0` positions |
| `resizer_crop.dfy` | `ResizerCrop` | presets, `handleDimensionChange`, the Width/Height fields and the size slider of the Resizer |
| `snapshot_editor.dfy` | `SnapshotEditor` | the snapshot history of the Resizer and both ImageCompressor pages, as functions and as the class `Editor` |
| `panel_editor.dfy` | `PanelEditor` | the image timeline and crop of the two `ImagePannel.jsx` components, as functions and as the class `Panel` |

Conventions:
- Numbers are exact reals.
- A value that JavaScript would make NaN or `undefined` is `None`.
- `mounted` (or `imgMounted`) says whether `imgRef.current` is set.
- `rendered` is the opaque picture a canvas produced.
- `libraryCrop` is a crop computed by the `react-image-crop` library.

The three snapshot-history pages share one model, `SnapshotEditor`.
Their handlers differ only where the table below says so:
- the routed page's crop click also needs the preview canvas (`Editor.CropClick`, parameter `canvasMounted`);
- the routed page has no delete button.

The differences between the pages' input fields are proved as lemmas:
- an empty Width field means 0 on the routed page and is ignored on the nested page (`NestedCompressorPage.EmptyWidthDiffers`);
- the positions read `parseInt(...) || 0` on the nested page (`NestedCompressorPage.FractionMovesOnlyHere`);
- only the nested page refills a field on blur (`NestedCompressorPage.BlurText`).

Redo order follows the code. Undo puts the current page at the front of
`redoStack` and redo takes the front back, so the redo stack is a stack (the
most recently undone page comes back first), not a queue.
`SnapshotEditor.RedoNAfterUndoN` proves it for any number of steps.

## Model

| member | source | states |
|---|---|---|
| CropUtils.Clamp | src/pages/ImageCompressor.jsx:301 | the result is at most `hi`; it is at least `lo` when `lo <= hi`; it is the value itself inside `[lo, hi]`, `lo` below it and `hi` above it; with an empty range it is `hi` |
| CropUtils.PixelCropAxesIndependent | src/utils/cropUtils.js:17-24 | pixel x and width depend only on the image width, pixel y and height only on the image height |
| CropUtils.PixelCropEnds | src/utils/cropUtils.js:19-22 | 0% maps to 0 px and 100% to the whole dimension |
| CropUtils.PixelCropContained | src/utils/cropUtils.js:19-22 | a percent rectangle inside the image maps to a pixel rectangle inside it |
| CropUtils.PixelPercentRoundTrip | src/utils/cropUtils.js:17-24 | converting to pixels and back, or to percent and back, gives the rectangle again |
| Units.PixelsPerUnit | src/pages/imageReszer/Resizer.jsx:347-348 | one inch is 96 px, one centimetre is 96/2.54 px, any other unit is 1 px |
| Units.ConversionsScale | src/pages/imageReszer/Resizer.jsx:67-77 | `toPixels` multiplies by the unit's pixel factor and `fromPixels` divides by it |
| Units.UnitRoundTrip | src/pages/imageReszer/Resizer.jsx:67-77 | `fromPixels(toPixels(v))` and `toPixels(fromPixels(v))` are `v` in every unit |
| Units.ToPixelsMonotone | src/pages/imageReszer/Resizer.jsx:67-77 | both conversions preserve order |
| JsNumbers.ParseInt | src/components/CropControls.jsx:27 | `parseInt` gives NaN exactly when no digit follows the white space and sign; the empty text is NaN |
| JsNumbers.IntToString | src/pages/ImageCompressor/ImageCompressor.jsx:284 | an integer's text is non-empty, starts with `-` exactly for negatives and is otherwise digits |
| JsNumbers.MathRound | src/pages/ImageCompressor/ImageCompressor.jsx:283 | `Math.round(v)` is the integer within half a unit of `v`, halves going up |
| JsNumbers.ParseIntOfIntToString | src/pages/ImageCompressor/ImageCompressor.jsx:282-284 | `parseInt` reads back every integer's `toString()` |
| CropInputs.ClampedPercent | src/pages/ImageCompressor.jsx:321-326 | the stored percent is the clamped pixel value in percent; with the partner value it never passes 100% |
| CropInputs.SetWidthPx | src/pages/ImageCompressor.jsx:321-329 | only the width changes, to `clamp(n, 1, natW - x_px)` pixels; `x + width <= 100`; the width is at least 1 px when there is room; a crop inside the image stays inside; `completedCrop` is the pixel crop |
| CropInputs.SetHeightPx | src/pages/ImageCompressor.jsx:346-354 | only the height changes, to `clamp(n, 1, natH - y_px)` pixels; otherwise as the width |
| CropInputs.SetXPx | src/pages/ImageCompressor.jsx:418-426 | only x changes, to `clamp(n, 0, natW - width_px)` pixels; `x + width <= 100`, and `x >= 0` when the width is at most 100%; a crop inside stays inside |
| CropInputs.SetYPx | src/pages/ImageCompressor.jsx:442-450 | only y changes, to `clamp(n, 0, natH - height_px)` pixels; otherwise as x |
| CropInputs.ApplyInputKeepsInside | src/pages/ImageCompressor.jsx:318-452 | each of the four fields keeps a crop that lies on the image on the image |
| CropInputs.ApplyInputsKeepInside | src/pages/ImageCompressor.jsx:318-452 | any sequence of typed numbers, in any fields, keeps such a crop on the image |
| CropControls.KeepShapeByWidth | src/components/CropControls.jsx:29-37 | the crop gets the given pixel width at the same position; the height percent equals the width percent, so the pixel crop has the image's shape |
| CropControls.KeepShapeByHeight | src/components/CropControls.jsx:52-60 | the same from a pixel height |
| CropControls.MoveLeftEdge | src/components/CropControls.jsx:121-126 | only x changes, to the given pixel offset; an offset within the image is at most 100% |
| CropControls.MoveTopEdge | src/components/CropControls.jsx:140-145 | only y changes, to the given pixel offset |
| CropControls.WidthChange | src/components/CropControls.jsx:26-39 | the edit happens exactly when the text parses, an image is mounted and the width is at most `natW`; then the width is the typed pixels, height% = width%, the position is kept and `completedCrop` is the pixel crop |
| CropControls.HeightChange | src/components/CropControls.jsx:49-62 | the same for the height against `natH` |
| CropControls.XChange | src/components/CropControls.jsx:118-128 | accepted exactly when the text parses, an image is mounted and `newX <= natW`, with no lower bound; only x changes |
| CropControls.YChange | src/components/CropControls.jsx:137-147 | the same for y against `natH` |
| CropControls.AspectSelect | src/components/CropControls.jsx:71-92 | the stored aspect is the parsed value, or undefined for 0 and NaN; with an image, NaN selects the full image and a number selects the library's crop; `completedCrop` is its pixel crop |
| CompressorPage.TypedNumber | src/pages/ImageCompressor.jsx:319 | the empty text reads as 0, anything else as `parseInt`; NaN exactly when non-empty text has no leading digit |
| CompressorPage.WidthInput | src/pages/ImageCompressor.jsx:318-331 | the crop changes exactly when the text reads as a number and an image is mounted, and then as `SetWidthPx` |
| CompressorPage.HeightInput | src/pages/ImageCompressor.jsx:343-356 | the same through `SetHeightPx` |
| CompressorPage.XInput | src/pages/ImageCompressor.jsx:415-428 | the same through `SetXPx` |
| CompressorPage.YInput | src/pages/ImageCompressor.jsx:439-452 | the same through `SetYPx` |
| CompressorPage.CustomRatioClick | src/pages/ImageCompressor.jsx:189-204 | the aspect is cleared; with an image the crop is the full 100% rectangle and `completedCrop` the shown image's size |
| CompressorPage.CustomRatioIsCustomOption | src/pages/ImageCompressor.jsx:373-381 | the unwired `handleCustomRatioClick`, if it were called, would do exactly what the "Custom" select entry does |
| CompressorPage.TypedNumberOfShown | src/pages/ImageCompressor.jsx:317-319 | a field's shown integer reads back as that integer |
| CompressorPage.ClearedWidthIsOnePixel | src/pages/ImageCompressor.jsx:319-323 | clearing the Width field, when there is room, makes the crop one pixel wide |
| CompressorPage.RetypingShownWidthKeepsCrop | src/pages/ImageCompressor.jsx:317-329 | typing back a crop's own integer width leaves the crop as it was |
| CompressorPage.RetypingShownXKeepsCrop | src/pages/ImageCompressor.jsx:414-426 | typing back a crop's own integer offset leaves the crop as it was |
| NestedCompressorPage.WidthTyped | src/pages/ImageCompressor/ImageCompressor.jsx:265-280 | the text is kept as typed; the crop changes exactly when `parseInt` reads a number and an image is mounted, and then as `SetWidthPx` |
| NestedCompressorPage.HeightTyped | src/pages/ImageCompressor/ImageCompressor.jsx:297-312 | the same for the height |
| NestedCompressorPage.NumberOrZero | src/pages/ImageCompressor/ImageCompressor.jsx:358 | `parseInt(...) || 0`: the number read, or 0 for NaN |
| NestedCompressorPage.XTyped | src/pages/ImageCompressor/ImageCompressor.jsx:357-370 | with an image every keystroke moves the crop, through `SetXPx` of `NumberOrZero` |
| NestedCompressorPage.YTyped | src/pages/ImageCompressor/ImageCompressor.jsx:378-391 | the same for y |
| NestedCompressorPage.RefillSize | src/pages/ImageCompressor/ImageCompressor.jsx:283 | the refill is never 0: the rounded current size, or 1 when that is 0 or there is no crop |
| NestedCompressorPage.BlurText | src/pages/ImageCompressor/ImageCompressor.jsx:281-286 | readable text is left alone; unreadable or empty text becomes the refill size |
| NestedCompressorPage.BlurLeavesReadableText | src/pages/ImageCompressor/ImageCompressor.jsx:281-286 | after a blur the field always holds a number, nonzero when it was refilled |
| NestedCompressorPage.BlurIdempotent | src/pages/ImageCompressor/ImageCompressor.jsx:281-286 | blurring twice is blurring once |
| NestedCompressorPage.WidthAgreesWithRoutedPage | src/pages/ImageCompressor/ImageCompressor.jsx:265-279 | on an integer's text the nested and routed Width fields make the same edit |
| NestedCompressorPage.EmptyWidthDiffers | src/pages/ImageCompressor/ImageCompressor.jsx:266-269 | on the empty text they differ: the nested page ignores it, the routed page edits |
| NestedCompressorPage.FractionMovesOnlyHere | src/pages/ImageCompressor/ImageCompressor.jsx:358-362 | ".5" is ignored by the routed X field but moves the nested page's crop to the left edge |
| NestedCompressorPage.ZeroOffsetIsLeftEdge | src/pages/ImageCompressor/ImageCompressor.jsx:358-365 | offset 0 puts a crop no wider than the image at x = 0 |
| ResizerCrop.ResizerDefaultCropIsCentred | src/pages/imageReszer/Resizer.jsx:119-125 | the 60% default crop is centred and on the image |
| ResizerCrop.PresetChange | src/pages/imageReszer/Resizer.jsx:311-342 | nothing happens when either number is 0 or NaN; otherwise the aspect is W/H and, with an image, the crop has shape W:H; for positive W and H both sides are in (0, 100] and one is exactly 100 |
| ResizerCrop.PresetOptionsArePositive | src/pages/imageReszer/Resizer.jsx:689-718 | every entry of the preset select has two positive numbers |
| ResizerCrop.ResizedSides | src/pages/imageReszer/Resizer.jsx:352-396 | NaN is ignored; the given side becomes `toPixels(v) / natural * 100`; with an aspect the other side follows it (`/ aspect` or `* aspect`), without one it is kept; both offsets are refitted |
| ResizerCrop.FitOffset | src/pages/imageReszer/Resizer.jsx:379-387 | an offset never grows and stays non-negative; it is kept when the crop fits; `offset + length <= 100` whenever `length <= 100` |
| ResizerCrop.DimensionChange | src/pages/imageReszer/Resizer.jsx:352-396 | the step-by-step handler computes exactly the crop `Resized` specifies |
| ResizerCrop.ResizedStaysInside | src/pages/imageReszer/Resizer.jsx:375-387 | from a crop on the image, x and y never increase and stay non-negative, and the crop stays on the image when both new sides are at most 100% |
| ResizerCrop.WidthField | src/pages/imageReszer/Resizer.jsx:599-631 | NaN changes nothing; an empty field sizes the crop from 0; a number is clamped to `[0, fromPixels(natW)]`, shown, and gives `handleDimensionChange`'s crop with the width overridden, in both crops |
| ResizerCrop.HeightField | src/pages/imageReszer/Resizer.jsx:647-671 | the same for the height |
| ResizerCrop.OverrideAgreesWithDimensionChange | src/pages/imageReszer/Resizer.jsx:613-621 | the width the field writes last equals the percentage `handleDimensionChange` computed, in every unit |
| ResizerCrop.EnteredWidthIsDimensionChange | src/pages/imageReszer/Resizer.jsx:609-622 | so an entered width is exactly the dimension change's crop; the shown number lies in `[0, max]` and the width in `[0, 100]` |
| ResizerCrop.SliderPercent | src/pages/imageReszer/Resizer.jsx:567 | `Math.max(0, parseInt(v) || 0)`: never negative; the number read when it is non-negative, else 0 |
| ResizerCrop.SliderCrop | src/pages/imageReszer/Resizer.jsx:571-578 | the slider's crop is an n% by n% square at the top-left corner |
| ResizerCrop.SizeSlider | src/pages/imageReszer/Resizer.jsx:566-583 | the slider always stores its reading and sets the crop exactly when an image is mounted |
| ResizerCrop.SliderCropFits | src/pages/imageReszer/Resizer.jsx:561-583 | every slider position 1..100 gives that percentage and a crop on the image |
| SnapshotEditor.ScaleOr1 | src/pages/imageReszer/Resizer.jsx:159 | `scale || 1` is never 0 and is the stored scale when that is truthy |
| SnapshotEditor.RotateOr0 | src/pages/imageReszer/Resizer.jsx:160 | `rotate || 0` is the stored rotation, or 0 when there is none |
| SnapshotEditor.UndoSteps | src/pages/imageReszer/Resizer.jsx:150-169 | with history the last entry comes back and the current page goes to the front of the redo stack; without, the original image comes back with no crop, scale 1, rotation 0 and both stacks untouched; the stacks' total length is kept; nothing but the image, the crops, scale, rotation and the stacks changes |
| SnapshotEditor.RedoSteps | src/pages/imageReszer/Resizer.jsx:171-184 | with a redo stack its front comes back and the current page is appended to the history; without, nothing changes; the total length is kept; nothing but the image, the crops, scale, rotation and the stacks changes |
| SnapshotEditor.Commit | src/pages/imageReszer/Resizer.jsx:196-227 | with a completed crop and an image, one snapshot `{crop, completedCrop, image}` is appended, the redo stack is emptied, both crops are cleared and the rendered image shown, and nothing else changes (scale and rotation included); otherwise nothing changes |
| SnapshotEditor.Reset | src/pages/imageReszer/Resizer.jsx:186-194 | the original image, no crop, scale 1, rotation 0, both stacks empty; nothing else changes |
| SnapshotEditor.CompressorDefaultCropIsCentred | src/pages/ImageCompressor.jsx:66-72 | the 30% default crop is centred at (35, 35) and on the image |
| SnapshotEditor.Measured | src/pages/ImageCompressor.jsx:58-62 | the natural size is stored, and also kept as the original size when that was still 0 by 0 |
| SnapshotEditor.LoadedSelectsDefault | src/pages/ImageCompressor.jsx:57-80 | loading keeps the image and history; without an aspect both page kinds select their centred default crop |
| SnapshotEditor.LoadedWithAspectKeepsDefaultCompletedCrop | src/pages/ImageCompressor.jsx:74-79 | with an aspect the crop is the library's, but `completedCrop` is still the default crop's |
| SnapshotEditor.RedoAfterUndo | src/pages/ImageCompressor.jsx:83-137 | undo then redo gives the page back, the history entry stored with `scale || 1` and `rotate || 0` filled in |
| SnapshotEditor.UndoAfterRedo | src/pages/ImageCompressor.jsx:83-137 | redo then undo gives the page back, the redo entry stored normalised |
| SnapshotEditor.RedoAfterCommitDoesNothing | src/pages/ImageCompressor.jsx:149-187 | redo right after a commit changes nothing |
| SnapshotEditor.UndoAfterCommit | src/pages/ImageCompressor/ImageCompressor.jsx:144-175 | undoing a commit brings back the image and both crops and the earlier history, and offers the committed image for redo |
| SnapshotEditor.ResetIsSettled | src/pages/ImageCompressor/ImageCompressor.jsx:134-142 | after a reset, undo and redo change nothing |
| SnapshotEditor.DeletedPageIsSettled | src/pages/ImageCompressor/ImageCompressor.jsx:205-219 | the page delete leaves is fixed by undo, redo, reset and commit |
| SnapshotEditor.UndoRespectsAlike | src/pages/imageReszer/Resizer.jsx:150-169 | undo gives alike results on pages that differ only in how stored snapshots spell an absent scale or rotation |
| SnapshotEditor.RedoRespectsAlike | src/pages/imageReszer/Resizer.jsx:171-184 | the same for redo |
| SnapshotEditor.HandlersKeepScale | src/pages/imageReszer/Resizer.jsx:150-227 | from a page with a nonzero scale, undo, redo, commit, reset, delete and both loads all leave the scale nonzero |
| SnapshotEditor.RedoNAfterUndoN | src/pages/imageReszer/Resizer.jsx:150-184 | n undos, with history for each, then n redos give the page back up to that spelling: the redo stack is a stack |
| SnapshotEditor.Editor.constructor | src/pages/ImageCompressor/ImageCompressor.jsx:29-41 | the initial state is the empty page, which keeps `Valid` (scale nonzero) |
| SnapshotEditor.Editor.Upload | src/pages/imageReszer/Resizer.jsx:94-104 | the picture read becomes both the image and the original image; `Valid` (scale nonzero) is kept |
| SnapshotEditor.Editor.UndoClick | src/pages/ImageCompressor/ImageCompressor.jsx:98-117 | the fields become `Undo` of the old page; `Valid` (scale nonzero) is kept |
| SnapshotEditor.Editor.RedoClick | src/pages/ImageCompressor/ImageCompressor.jsx:119-132 | the fields become `Redo` of the old page; `Valid` (scale nonzero) is kept |
| SnapshotEditor.Editor.ResetClick | src/pages/imageReszer/Resizer.jsx:186-194 | the fields become `Reset` of the old page; `Valid` (scale nonzero) is kept |
| SnapshotEditor.Editor.CropClick | src/pages/ImageCompressor.jsx:149-187 | the fields become `Commit` of the old page, acting only with an image shown (and, on the routed page, the preview canvas); `Valid` (scale nonzero) is kept |
| SnapshotEditor.Editor.DeleteClick | src/pages/imageReszer/Resizer.jsx:258-272 | every field is back to the empty page; `Valid` (scale nonzero) is kept |
| SnapshotEditor.Editor.CompressorImageLoaded | src/pages/ImageCompressor/ImageCompressor.jsx:74-96 | the fields become `CompressorLoaded` of the old page; `Valid` (scale nonzero) is kept |
| SnapshotEditor.Editor.ResizerImageLoaded | src/pages/imageReszer/Resizer.jsx:106-149 | the fields become `ResizerLoaded` of the old page; `Valid` (scale nonzero) is kept |
| SnapshotEditor.Editor.ApplyEdit | src/components/CropControls.jsx:36-37 | a handler's edit sets `crop` and `completedCrop`; no edit changes nothing; `Valid` (scale nonzero) is kept |
| PanelEditor.Back | src/components/ImagePannel.jsx:123-130 | undo keeps the timeline's images and total length; with history it shows the last earlier image; otherwise it changes nothing |
| PanelEditor.Forward | src/components/ImagePannel.jsx:132-139 | redo keeps the timeline; with a future it shows the next image; otherwise it changes nothing |
| PanelEditor.CommitImage | src/components/ImagePannel.jsx:113-121 | the new image follows the current one and everything after it is dropped |
| PanelEditor.Restart | src/components/ImagePannel.jsx:141-145 | both stacks empty; the image is `history[0]` when that is set, else the current image |
| PanelEditor.ForwardAfterBack | src/components/ImagePannel.jsx:123-139 | redo right after undo gives the timeline back exactly |
| PanelEditor.BackAfterForward | src/components/ImagePannel.jsx:123-139 | undo right after redo gives the timeline back exactly |
| PanelEditor.BackNWalks | src/components/ImagePannel.jsx:123-130 | n undos keep the timeline and shorten the history by n |
| PanelEditor.ForwardNAfterBackN | src/components/ImagePannel.jsx:123-139 | n undos then n redos give the timeline back exactly |
| PanelEditor.BackToStart | src/components/ImagePannel.jsx:123-130 | undoing all the way reaches the oldest image |
| PanelEditor.RestartShowsStart | src/components/ImagePannel.jsx:141-145 | reset shows the image that undoing all the way would show, when it is not null |
| PanelEditor.Ratio | src/components/ImagePannel.jsx:75 | the Full aspect exists exactly when the height is nonzero, and times the height gives the width |
| PanelEditor.OptionCrop | src/components/ImagePannel.jsx:70-103 | the position is kept; Full, Half, Square, 4:4 and 5:4 set the sizes of the table; any other option only resets the aspect to 5/4 |
| PanelEditor.OptionShapeIsAspect | src/components/ImagePannel.jsx:74-98 | Full, Square, 4:4 and 5:4 give a crop whose own width/height is the aspect they store |
| PanelEditor.HalfShapeIsAspectOnlyWhenTall | src/components/ImagePannel.jsx:79-83 | Half has the shape 1/2 it stores exactly when the image is twice as tall as wide |
| PanelEditor.OptionCropFits | src/components/ImagePannel.jsx:74-98 | Full, Half and Square fit the image; 4:4 fits exactly when width <= height, 5:4 exactly when 4 width <= 5 height |
| PanelEditor.Typed | src/components/ImagePannel.jsx:156-182 | a number `parseInt` reads replaces exactly its own field; anything else changes nothing |
| PanelEditor.RetypingKeepsCrop | src/components/ImagePannel.jsx:156-161 | typing back the width a crop has leaves it as it was |
| PanelEditor.TypedFieldsCommute | src/components/ImagePannel.jsx:156-182 | typing into two different fields gives the same crop in either order |
| PanelEditor.Panel.constructor | src/components/ImagePannel.jsx:6-12 | no image, a zero-sized 5:4 crop at the origin, option "5:4", empty timeline |
| PanelEditor.Panel.ImageLoaded | src/pages/ImageCompressor/ImagePannel/ImagePannel.jsx:26-39 | the picture is shown with its size and a crop over all of it at (0, 0); both stacks are emptied; the nested copy also clears `croppedImage` |
| PanelEditor.Panel.CropComplete | src/components/ImagePannel.jsx:40-45 | `croppedImage` is set only when there is an image, the reported crop has nonzero sides and `getCroppedImg` gets a drawable element; without a drawable element nothing changes, and in both copies it never gets one, so the handler never sets `croppedImage` |
| PanelEditor.Panel.CropOptionChange | src/pages/ImageCompressor/ImagePannel/ImagePannel.jsx:75-108 | the option is stored and the field-by-field update gives `OptionCrop` |
| PanelEditor.Panel.Crop | src/pages/ImageCompressor/ImagePannel/ImagePannel.jsx:110-119 | with the image element mounted and nonzero sides, the timeline commits the rendered image, the crop is zeroed keeping its aspect, and the nested copy sets `croppedImage`; otherwise nothing changes |
| PanelEditor.Panel.Undo | src/pages/ImageCompressor/ImagePannel/ImagePannel.jsx:121-128 | the timeline becomes `Back` of the old one; nothing else changes |
| PanelEditor.Panel.Redo | src/pages/ImageCompressor/ImagePannel/ImagePannel.jsx:130-137 | the timeline becomes `Forward` of the old one; nothing else changes |
| PanelEditor.Panel.Reset | src/pages/ImageCompressor/ImagePannel/ImagePannel.jsx:139-144 | the timeline becomes `Restart` of the old one; the nested copy clears `croppedImage` |
| PanelEditor.Panel.FieldChange | src/pages/ImageCompressor/ImagePannel/ImagePannel.jsx:155-181 | the crop becomes `Typed` of the old one; nothing else changes |

## Left out

- Canvas work is not modelled: `drawImage`, `toDataURL`, `getCroppedImg`, the preview canvas and the debounced preview effect. A canvas result is the opaque `rendered` parameter.
- Layout is not modelled: `getBoundingClientRect`, the display scale factors and the shown image size. Where a handler uses the shown size, it is a parameter (`shownWidth`, `shownHeight`, `shownW`, `shownH`).
- File reading is not modelled: `FileReader`, `Image.onload`, downloads and `alert`. Upload is modelled once the file has been read (`Editor.Upload`, `Panel.ImageLoaded`); that reading is asynchronous is not captured.
- The library functions `centerCrop`, `makeAspectCrop` and `centerAspectCrop` are not visible. Their result is the `libraryCrop` parameter.
- PresetChange: returns the preset crop's size only; the position `centerCrop` gives it is library code.
- The `ReactCrop` widget's own `onChange` (dragging the crop) is library behaviour and is not modelled.
- `formatFileSize` and the size and type fields of `imageProperties` are not modelled: they only format text.
- React scheduling is not modelled: every handler is one atomic step. This leaves out the `useEffect` that rewrites `widthInput`/`heightInput` from the crop, the `sizePercent` effect and the batching of queued updates.
- Numbers are exact reals. The model does not cover floating-point rounding, Infinity, or a natural size of 0 (which gives NaN or Infinity in the source); the handlers that divide by a natural size require it to be nonzero.
- `parseFloat` and `Number` are not modelled on text. Their results are inputs: `Option<real>` for the Resizer's preset numbers and the aspect select, and `FloatText` for the Resizer's fields. `parseInt` is modelled on the text itself (`JsNumbers.ParseInt`).
- Fields of an undefined crop spread into a new crop (`{ ...crop }`) read as 0 here (`CropUtils.Base`). In the source those fields are missing from the object.
- The Resizer's unit select, `handleResizeImage`, saving and the format chooser are not modelled.
- The routed page has no `widthInput`/`heightInput` state. `SnapshotEditor.Page` carries both for the other two pages; the routed page's handlers leave them alone.
- The four field setters of each ImagePannel (`handleWidthChange` and its siblings) are one method, `Panel.FieldChange`, with the field as a parameter.
- SnapshotEditor.Undo and SnapshotEditor.Redo: their properties are stated in the lemmas `UndoSteps` and `RedoSteps` rather than as their own `ensures`.
- Panel.Crop: the ImageCompressor page's copy of ImagePannel renders its image through `ImageUpload`, which never attaches `imgRef`. There `handleCrop` never acts (`imgMounted` is always false), and `onCropComplete` is never wired to the crop widget. The model keeps the handler's logic with `imgMounted` as a parameter.
- Panel.CropComplete: the handler never sets `croppedImage` in the source, so Save never acts. The components copy passes the image's data-URL string, not an image element, to `getCroppedImg` (src/components/ImagePannel.jsx:42). `drawImage` (src/components/ImagePannel.jsx:55-56) rejects a string with a TypeError, so the handler throws before `setCroppedImage`. The ImageCompressor copy passes `imgRef.current`, which is never attached, and its crop widget is not given the handler at all. The model gives the handler a `drawable` flag that is false in both copies. The thrown exception itself is not modelled: a throwing handler changes no state, and with `drawable` false the model changes no state either.
- CompressorPage.CustomRatioClick: `handleCustomRatioClick` is defined on the routed page (src/pages/ImageCompressor.jsx:189-204) but no element calls it. It is modelled as written.
- RedoNAfterUndoN: states equality up to how stored snapshots spell an absent scale or rotation (`Alike`), because a commit stores neither and undo/redo store both.
