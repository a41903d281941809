# Script overlay of porymap, modelled in Dafny

Porymap lets user scripts draw annotations over the map canvas through an
`Overlay`. An overlay is an ordered list of items and a `hidden` flag. There
are three kinds of item: text, rectangles and images. Scripts append items
with `addText`, `addRect` and the two `addImage` overloads. They can also
clear the list and hide the overlay. The host calls `renderItems` once per
paint. Each item then issues its painter calls, in list order.

The file-path `addImage` runs an image pipeline before it appends anything:
1. Load the image.
2. Replace a non-positive width or height with the full one.
3. Check the requested pixel count plus `offset` against the image's pixel count.
4. Cut out the sub-region that starts at row-major position `offset`, but only when the size differs from the full size.
5. Mirror it on x and/or y.
6. Overwrite the first colour-table entries with the palette.
7. Optionally make entry 0 transparent.

It fails without touching the list when the image is null or the check fails.

The project has three modules:

- `wrappers.dfy` (`Wrappers`): `Option` and `Result`.
- `image_pipeline.dfy` (`ImagePipeline`):
  - An image is a value: `width`, `height`, `rows` (row `r`, column `c` is `rows[r][c]`), an `indexed` flag and a `colorTable`.
  - Each pipeline step is a function whose contract says what the step does to pixels and colour entries.
  - The palette loop is a method, `ApplyPalette`. Its loop is proved against the specification function `WithPalette`.
  - `Pipeline` composes the steps. Its contract gives the success condition and the shape of the result.
- `overlay.dfy` (`ScriptOverlay`):
  - `Item` and the painter `Command`s.
  - The per-item `render` bodies as `RenderItem`.
  - The class `Overlay`, whose methods change `items` and `hidden` in place.
  - Rendering returns the trace of painter commands. A decoder proves that the trace determines the item list: every item is rendered once, in order.

## Model

| member | source | states |
|---|---|---|
| `ScriptOverlay.RenderItem` | src/ui/overlay.cpp:5-24 | Each item issues one to three commands, of which exactly one is a drawing call (text, fill, outline or image), and it comes last; only font and pen setters come before it. Which commands they are, and with which arguments, is pinned by `DecodeRenderAll`, not by this contract. |
| `ScriptOverlay.RenderAll` | src/ui/overlay.cpp:29-30 | The trace of the render loop: empty exactly when there are no items, between one and three commands per item, and a non-empty trace ends with a drawing call. |
| `ScriptOverlay.Overlay.RenderItems` | src/ui/overlay.cpp:26-31 | While hidden, no command at all. Otherwise the concatenation of every item's commands in list order. The method has no `modifies` clause, so `items` cannot change during the walk. |
| `ScriptOverlay.DrawCountIsItemCount` | src/ui/overlay.cpp:26-31 | The trace of a list contains exactly one drawing call per item. |
| `ScriptOverlay.DecodeRenderAll` | src/ui/overlay.cpp:26-31 | The trace of a list decodes back to that same list. So every item is rendered exactly once, in list order, and nothing else is drawn. |
| `ScriptOverlay.HiddenRendersNothing` | src/ui/overlay.cpp:26-27 | `setHidden(true)` followed by `renderItems` issues no command, however many items there are. |
| `ScriptOverlay.Overlay.ClearItems` | src/ui/overlay.cpp:33-38 | Every item is released exactly once, in list order, and the list is then empty. On an already empty overlay nothing is released and nothing changes, so the call is idempotent. `hidden` is outside the frame. |
| `ScriptOverlay.Overlay.GetItems` | src/ui/overlay.cpp:40-42 | Returns the current list in order and changes nothing. |
| `ScriptOverlay.Overlay.SetHidden` | src/ui/overlay.cpp:44-46 | Only the flag changes, to the given value; `items` is outside the frame. |
| `ScriptOverlay.Overlay.AddText` | src/ui/overlay.cpp:48-50 | Always appends exactly one text item at the end; earlier items and `hidden` are unchanged. |
| `ScriptOverlay.Overlay.AddRect` | src/ui/overlay.cpp:52-54 | Always appends exactly one rectangle item at the end; earlier items and `hidden` are unchanged. |
| `ScriptOverlay.Overlay.AddImage` | src/ui/overlay.cpp:56-95 | Returns true exactly when the pipeline succeeds, and then appends exactly one image item at (x, y) holding the pipeline's image. Otherwise (null image or failed bounds check) returns false and leaves `items` unchanged. The bounds check is the corrected, exact-arithmetic one; on the wrapping input of the Findings row it returns false where the C++ proceeds. |
| `ScriptOverlay.Overlay.AddCustomImage` | src/ui/overlay.cpp:97-104 | Fails with `items` unchanged for a null image. Otherwise appends that image, untransformed, at (x, y). |
| `ImagePipeline.Pipeline` | src/ui/overlay.cpp:56-94 | A null image gives `LoadError` and nothing else does. For a loaded image, success holds iff `w*h + offset <= fullWidth*fullHeight`, with w and h the resolved sizes. Every other failure is `OutOfBoundsError`, and a success has size w by h. The check is the exact-arithmetic one, not the modulo-2^32 sum of overlay.cpp:71, so the wrapping input of the Findings row is an `OutOfBoundsError` here. |
| `ImagePipeline.Process` | src/ui/overlay.cpp:63-94 | Success holds iff the bounds check passes, and the result is then a valid w by h image of the source's format. For an indexed source: the table has max(\|palette\|, \|source table\|) entries, or 1 when both are empty and transparency is requested; entries 1..\|palette\|-1 are the palette's; entry 0 is `palette[0]`, or transparent when transparency is requested (even if the palette set it); entries at or beyond \|palette\| keep the source's colour. A non-indexed source keeps its table. |
| `ImagePipeline.ProcessRaster` | src/ui/overlay.cpp:80-85 | After a passed check, the result's raster is the resolved-size region anchored at `Origin(offset)`, mirrored as requested; the colour-table steps leave pixels alone. |
| `ImagePipeline.Resolve` | src/ui/overlay.cpp:66-69 | A non-positive requested dimension becomes the full one, and a positive one is kept. The result is always positive. |
| `ImagePipeline.ResolveAsFull` | src/ui/overlay.cpp:63-69 | A call with a non-positive width or height gives exactly the result of the same call with the full width or height. |
| `ImagePipeline.InBounds` | src/ui/overlay.cpp:71-78 | The check as it is meant, in exact arithmetic: a non-empty region that passes it starts at a row-major position inside the source, and an offset beyond the source's pixel count always fails. |
| `ImagePipeline.InBoundsAsWritten` | src/ui/overlay.cpp:71 | The check as the C++ computes it, with `unsigned` conversion and the sum taken modulo 2^32; whenever neither side reaches 2^32 it accepts exactly when `w*h + offset <= fullWidth*fullHeight`. |
| `ImagePipeline.OffsetWrapPassesCheck` | src/ui/overlay.cpp:71 | On a 2x2 image, a 1x1 region at offset 2^32-1 passes the check as written. The intended check rejects it, and the region would start on row 2^31-1. |
| `ImagePipeline.AsWrittenAgreesWithoutWrap` | src/ui/overlay.cpp:71 | When `w*h + offset` and `fullWidth*fullHeight` both stay below 2^32, the check as written and the intended check agree. |
| `ImagePipeline.InBoundsStartsInside` | src/ui/overlay.cpp:71-78 | A region that passes the intended check starts at a pixel of the source: its origin row is below `fullHeight`. |
| `ImagePipeline.FullWidthStripInside` | src/ui/overlay.cpp:71-82 | A full-width region starting at column 0 (a vertical sprite-sheet frame) that passes the check lies entirely inside the source. |
| `ImagePipeline.LinearCheckAllowsOverhang` | src/ui/overlay.cpp:71-82 | The linear check does not keep the rectangle inside the source. On a 4x4 image, 3x1 at offset 3 passes but starts at column 3. |
| `ImagePipeline.Origin` | src/ui/overlay.cpp:82 | The origin is the unique (column, row) with column < fullWidth and row*fullWidth + column = offset. That is the pixel at row-major position `offset`. |
| `ImagePipeline.Copy` | src/ui/overlay.cpp:82 | The copy is w by h, with the source's format and colour table. Its pixel (c, r) is source pixel (x0+c, y0+r), or the padding value where that lies outside the source. |
| `ImagePipeline.Extract` | src/ui/overlay.cpp:80-82 | The result has the resolved size. When that equals the full size, it is the source itself, unmodified. |
| `ImagePipeline.CopyWholeIsIdentity` | src/ui/overlay.cpp:80-82 | Copying the whole image from (0, 0) returns the image. |
| `ImagePipeline.ExtractIsAnchoredCopy` | src/ui/overlay.cpp:71-82 | After a passed check, the extracted image is always the copy anchored at `Origin(offset)`. A full-size request passes only at offset 0, so skipping the copy changes nothing. |
| `ImagePipeline.PlainRequestIsRegion` | src/ui/overlay.cpp:63-82 | With no flip, palette or transparency, a request that passes the check yields the resolved-size region anchored at `Origin(offset)`. |
| `ImagePipeline.Example4x4Offset12` | src/ui/overlay.cpp:71-82 | On a 4x4 image, 2x2 at offset 12 succeeds with the region at column 0, row 3. |
| `ImagePipeline.Example4x4Offset13` | src/ui/overlay.cpp:71-78 | On a 4x4 image, 2x2 at offset 13 fails with `OutOfBoundsError`. |
| `ImagePipeline.ExampleWholeImage` | src/ui/overlay.cpp:63-82 | Width 0, height 0, offset 0 with no transform yields the whole image unmodified. |
| `ImagePipeline.Mirror` | src/ui/overlay.cpp:84-85 | Size, format and colour table are kept. Pixel (c, r) moves to (w-1-c, r) with xflip, to (c, h-1-r) with yflip, to (w-1-c, h-1-r) with both, and stays put with neither. |
| `ImagePipeline.MirrorNeitherIsIdentity` | src/ui/overlay.cpp:84-85 | Mirroring on neither axis is the identity, so skipping the transform when no flip is requested changes nothing. |
| `ImagePipeline.MirrorCompose` | src/ui/overlay.cpp:85 | Two mirrorings compose to one on every axis flipped an odd number of times; x then y is the point reflection. |
| `ImagePipeline.MirrorInvolution` | src/ui/overlay.cpp:85 | Mirroring twice with the same flags restores the image. |
| `ImagePipeline.SetColor` | src/ui/overlay.cpp:88 | On an indexed image, entry i becomes c and every other entry is kept; the table grows by one when i is its length. A non-indexed image is unchanged. The raster is never touched. |
| `ImagePipeline.WithPalette` | src/ui/overlay.cpp:87-88 | On an indexed image, entry i is `palette[i]` for every i < \|palette\|, entries at or beyond \|palette\| are the old ones, and the table is long enough for both. An empty palette, or a non-indexed image, changes nothing. |
| `ImagePipeline.WithPaletteStep` | src/ui/overlay.cpp:87-88 | One more loop iteration, `setColor(i, palette[i])`, extends the specification by one palette entry. |
| `ImagePipeline.ApplyPalette` | src/ui/overlay.cpp:87-88 | The in-order loop of `setColor` calls yields exactly `WithPalette(image, palette)`. |
| `ImagePipeline.WithTransparency` | src/ui/overlay.cpp:90-91 | On an indexed image, entry 0 becomes transparent and all other entries are kept. A non-indexed image is unchanged. |
| `ImagePipeline.TransparentIsClear` | src/ui/overlay.cpp:91 | The colour written is `qRgba(0, 0, 0, 0)`, whose alpha is 0. |
| `ImagePipeline.QRgba` | src/ui/overlay.cpp:91 | A colour packed from four channels has the given alpha. |

## Left out

- Image loading (`Scripting::getImage`, overlay.cpp:57) is file I/O and decoding. Its result is a parameter: `None` for a null image, otherwise a valid image. Positive size and a full raster are what a non-null QImage always has.
- The QPainter primitives (fonts, pens, rasterisation) are not modelled. Rendering is the trace of painter calls, and `setFont(font with pixel size n)` is one `SetFontPixelSize(n)` command.
- The `logError` messages are left out. A failure is the `false` result, and `Pipeline` records which of the two errors occurred.
- `QColor(QString)` parsing is left out. A colour is the string it was built from.
- `new`/`delete` ownership is left out: items are values. `ClearItems` returns the sequence of released items, so each is released once and in order.
- QImage::copy's padding is the abstract `pad` parameter; Qt's actual fill value is not modelled. Pixel-format conversions are left out.
- `ScriptOverlay.Overlay.AddImage`: uses the corrected, exact-arithmetic bounds check, not the wrapping one of overlay.cpp:71. On the wrapping input (2x2 image, 1x1 request, offset 2^32-1) it returns false where the C++ lets the call through; see Findings.
- `ImagePipeline.Pipeline`: same as `AddImage`: its success condition is the corrected exact-arithmetic check, so on the wrapping input it returns `OutOfBoundsError` where the C++ proceeds; see Findings.
- `ImagePipeline.SetColor`: Qt ignores indices at or above 2^depth of the image format (for example 256 for 8-bit). That cap is not modelled. Indices more than one past the table's end never occur in `addImage`, so the case is excluded by a precondition.
- A non-indexed (32-bit) image ignores `setColor` in Qt. The model keeps that, and the palette and transparency guarantees are stated for indexed images only.
- Signed `int` overflow of `width * height` is undefined behaviour in C++. `InBoundsAsWritten` treats it as wrap-around, like the `unsigned` sum.
- `overlay.h` is not part of this model. The constructor's initial state (empty and visible) follows the overlay's documented lifecycle.
- A render callback that re-enters the overlay during `renderItems` cannot occur in the model, because `RenderItems` changes nothing.
- `include/config.h` (settings persistence) holds no overlay logic and is not part of this model.

## Findings

| source | as written | input that shows it | evidently intended | confidence | as-written member | corrected member |
|---|---|---|---|---|---|---|
| src/ui/overlay.cpp:71 | `(unsigned)(width*height) + offset` is computed modulo 2^32, so a large `offset` wraps the sum to a small value and passes the check | 2x2 image, width 1, height 1, offset 4294967295: 1 + 4294967295 wraps to 0 <= 4, so the call succeeds. The copy then starts at row 2147483647, entirely outside the image. | reject any request with `width*height + offset > fullWidth*fullHeight` in exact arithmetic, as the error message "exceeds the image size" says | medium (not executed) | `ImagePipeline.InBoundsAsWritten`, exhibited by `ImagePipeline.OffsetWrapPassesCheck` | `ImagePipeline.InBounds`, proved by `ImagePipeline.InBoundsStartsInside` and used by `Process` and `Overlay.AddImage` |
