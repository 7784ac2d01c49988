# ILI9341 frame buffer and double-buffer presentation, in Dafny

This project models the software-rendered side of an STM32 ILI9341 display driver:

- **Pixel encoding** (`pixels.dfy`, module `Pixels`). The `Pixel` union is a 16-bit RGB565 value. Its
  5/6/5 channel view is derived by shift and mask. The bit-fields are allocated from the least
  significant bit upwards, as under the ARM EABI, so the value is `blue | green << 5 | red << 11`.
- **Font resource** (`fonts.dfy`, module `Fonts`). `sFONT` is reduced to a glyph width, a glyph
  height and a byte table. The module holds the glyph addressing arithmetic of `putChar`.
- **Frame buffer** (`framebuffer.dfy`, module `FrameBuffers`). A `FrameBuffer` is a row-major
  `width x height` grid of pixels. Each drawing operation has a reference function stated per pixel
  coordinate: `Fill` for `drawRectangle`, `PutGlyph` for `putChar`, `PutText` for `putText`, `Copy` for
  `copyBuffer` and `New` for the clearing constructor.
- **Drawing loops** (`raster.dfy`, module `Raster`). `DrawRectangle`, `PutChar` and `PutText` are the
  loops of the source, one `at(x, y) = color` per pixel. `CopyBuffer` writes the `memcpy` of
  `copyBuffer` out as an element-wise loop. Each loop is proved to return exactly the surface its
  reference function describes.
- **Presentation state machine** (`display.dfy`, module `Ili9341`). The driver state is the two slots,
  `_selectedFrameBuffer`, `_hasBackFrame`, `_isUpdatedRecently`, and what layer 0 shows.
  The operations are `initalize`, `setBackFrameBuffer`, the three draw calls and `updateFrame`.
- **Call sequences** (`sessions.dfy`, module `Sessions`). A run of driver calls stops with `None` at
  the first call whose behaviour is undefined, or that draws without being pre-clipped to the surface.
  The lemmas here follow the selection index, the back-buffer flag and the slot shapes across whole
  runs.

Frame buffers are immutable values. Each operation returns the new surface. `setLayer` binds layer 0
to a buffer's storage, not to a slot. The driver state records this binding in its `layer` field:
- `Unbound`: the layer is not bound yet.
- `ShowsSlot(i)`: the layer reads the storage that slot `i` currently owns.
- `ShowsDetached(frame)`: slot 1 was rebound while shown, so the layer reads storage that no slot owns
  any more. It keeps showing the last frame that storage held.

The model keeps three behaviours of the driver that a reader might not expect:

- `_selectedFrameBuffer` starts at `uint32_t(-1)`. It is only ever changed by logical `!`.
  - Without a back buffer, a draw therefore indexes slot `0xFFFFFFFF` of a two-slot array.
    `Sessions.FreshSingleBufferedDrawFaults` proves that every single-buffered draw after
    construction is outside the slot array.
  - With a back buffer, the first draws go to slot `!0xFFFFFFFF == 0`. That is the slot `initalize`
    bound to the layer, so those draws land on the visible slot (`Ili9341.FirstDrawsTargetShownSlot`).
- `setBackFrameBuffer` may be called again. It just rebinds slot 1 to a cleared buffer, and the
  selection does not change. It never calls `setLayer`. So if slot 1 was on the panel and the call is given
  different storage, the panel keeps showing the old buffer's last frame
  (`Ili9341.SetBackFrameBufferKeepsPicture`).
- `_isUpdatedRecently` has no initial value in the headers. `Ili9341.Fresh` takes it as a parameter.

## Model

| member | source | states |
|---|---|---|
| Pixels.FromChannels | Inc/FrameBuffer.hpp:15-24 | The channel constructor stores blue mod 32, green mod 64 and red mod 32, read back through the channel view. |
| Pixels.Blue | Inc/FrameBuffer.hpp:16 | Blue is the value modulo 32, its lowest 5 bits. |
| Pixels.Green | Inc/FrameBuffer.hpp:17 | Green is the value divided by 32, modulo 64: bits 5-10. |
| Pixels.Red | Inc/FrameBuffer.hpp:18 | Red is the value divided by 2048: bits 11-15. |
| Pixels.PrimariesLayout | Inc/FrameBuffer.hpp:15-24 | The full-intensity primaries pack to blue `0x001F`, green `0x07E0` and red `0xF800`, and each reads back at full intensity. This is the RGB565 layout, with red high. |
| Pixels.ChannelsRoundTrip | Inc/FrameBuffer.hpp:12-24 | Packing channels that fit their fields and then unpacking returns the same three channels. |
| Pixels.RepackIdentity | Inc/FrameBuffer.hpp:12-28 | For every 16-bit value, re-packing its three channel fields gives the value back. The value and channel views are bit-identical. |
| Arith.LogicalNot | Src/ILI9341.cpp:385 | `!v` on a `uint32_t` is 1 exactly when `v` is 0, and 0 otherwise. |
| Fonts.WidthBytes | Src/FrameBuffer.cpp:84 | The bytes per glyph row is the least byte count that holds `Width` bits, and at least 1. |
| Fonts.GlyphByte | Src/FrameBuffer.cpp:85-93 | A glyph in range starts at `CharBytes * (c - ' ')`. All its byte reads stay inside the table, and `c` is not below the space character. |
| Fonts.BitCellRoundTrip | Src/FrameBuffer.cpp:91-97 | Bit `b` of glyph byte `j` paints a position inside the glyph cell. Reading that position back names the same byte and bit. |
| Fonts.CellBitRoundTrip | Src/FrameBuffer.cpp:91-97 | Every position of the glyph cell is painted by exactly one glyph bit. |
| FrameBuffers.AtAddressesRowMajor | Src/FrameBuffer.cpp:31-33 | For `x < width` and `y < height`, the 32-bit index `y*width + x` does not wrap and is below `width*height`. |
| FrameBuffers.AtInjective | Src/FrameBuffer.cpp:31-33 | Distinct coordinates on the surface address distinct elements. |
| FrameBuffers.Set | Src/FrameBuffer.cpp:31-33 | Writing through `at(x, y)` changes that pixel and no other. |
| FrameBuffers.DefaultIsEmpty | Inc/FrameBuffer.hpp:38-44 | A default surface has no storage, zero geometry and format, and a copy into it moves nothing. |
| FrameBuffers.New | Src/FrameBuffer.cpp:9-13 | Constructing over any memory gives a `width x height` RGB565 surface whose every pixel is `0x0000`. |
| FrameBuffers.CopiedPixels | Src/FrameBuffer.cpp:50-51 | The byte count `height*width*pixelFormat` is computed in `uint32_t`. For storage that fits the 32-bit address space it does not wrap. It covers the whole storage for RGB565 (2 bytes per pixel) and nothing for a default surface. |
| FrameBuffers.Copy | Src/FrameBuffer.cpp:47-52 | After the copy, the destination's first copied pixels equal the source's and the rest are unchanged. For RGB565 the whole destination equals the source prefix. The geometry is kept. |
| FrameBuffers.Fill | Src/FrameBuffer.cpp:69-75 | Every pixel in `[x,x+w) x [y,y+h)` becomes the colour and every other pixel keeps its value. `w = 0` or `h = 0` changes nothing. |
| FrameBuffers.PutGlyph | Src/FrameBuffer.cpp:83-101 | A pixel becomes the colour exactly when its glyph bit is set. Clear bits and pixels outside the cell keep their value. |
| FrameBuffers.TextStep | Src/FrameBuffer.cpp:77-81 | Drawing one more character over the already drawn prefix paints exactly the pixels of the longer prefix. Every other pixel keeps its original value. |
| FrameBuffers.PutTextPrefix | Src/FrameBuffer.cpp:77-81 | After the first `n` characters are drawn at `x + i*Width`, a pixel is the colour exactly when one of their glyphs paints it. Otherwise it is unchanged. |
| FrameBuffers.PutText | Src/FrameBuffer.cpp:77-81 | The same pixel-wise characterisation for the whole text. |
| FrameBuffers.PutGlyphBitwise | Src/FrameBuffer.cpp:91-100 | A set bit `b` of byte `j` paints `(x + (j%wb)*8 + b, y + j/wb)`, which lies on the surface. A clear bit leaves that pixel as it was. |
| FrameBuffers.PutGlyphStaysInCell | Src/FrameBuffer.cpp:84-97 | Pixels outside `[x, x+8*wb) x [y, y+Height)` are never touched. Padding bits inside the cell may be drawn. |
| FrameBuffers.TextPitch | Src/FrameBuffer.cpp:77-81 | Drawing a two-character text is the first glyph at `x` and then the second at `x + Width`, whatever the first glyph's bitmap. |
| FrameBuffers.FourByFourScenario | Src/FrameBuffer.cpp:69-75 | On a 4x4 surface, a full clear followed by a white 2x2 fill at (1,1) leaves the border black and the inner block white. |
| Raster.DrawRectangle | Src/FrameBuffer.cpp:69-75 | The row-by-row, column-by-column loop gives exactly `Fill`. |
| Raster.PutChar | Src/FrameBuffer.cpp:83-101 | The byte-by-byte, most-significant-bit-first loop gives exactly `PutGlyph`. |
| Raster.PutText | Src/FrameBuffer.cpp:77-81 | The character loop gives exactly `PutText`. |
| Raster.CopyBuffer | Src/FrameBuffer.cpp:47-52 | The element-wise linear copy gives exactly `Copy`. |
| Ili9341.PanelGeometry | Inc/ILI9341.hpp:41-43 | A slot is 240x320 = 76800 pixels and 153600 bytes. The byte count per pixel equals the RGB565 format tag 2. |
| Ili9341.Fresh | Inc/ILI9341.hpp:138-144 | A new driver has two default slots and no back buffer, and the layer is unbound. The selection is exactly `uint32_t(-1)`, outside the slot array. `_isUpdatedRecently` is whatever value it is given. |
| Ili9341.Initialize | Src/ILI9341.cpp:338-341 | Slot 0 becomes a cleared 240x320 RGB565 surface and is shown. Slot 1, the selection and the flags are unchanged. |
| Ili9341.SetBackFrameBuffer | Src/ILI9341.cpp:344-350 | Slot 1 becomes a cleared 240x320 surface and double buffering is on. Slot 0, the selection and `_isUpdatedRecently` are unchanged. The layer is not rebound: if it showed slot 1, it now shows slot 1's old storage with its last frame. Otherwise its binding is unchanged. |
| Ili9341.ShownFrame | Src/ILI9341.cpp:352-361 | The panel shows nothing while the layer is unbound. When the layer is bound to a slot, it shows that slot's current surface. When it is detached, it shows the frame its storage last held. |
| Ili9341.SetBackFrameBufferKeepsPicture | Src/ILI9341.cpp:344-350 | `setBackFrameBuffer` given different storage leaves the picture on the panel unchanged, even when it rebinds the slot being shown. |
| Ili9341.DrawTarget | Src/ILI9341.cpp:382-386 | Without a back buffer the target is the selection itself. With one it is always a slot index: slot 0 while the selection is still out of range (`!0xFFFFFFFF`), and the other slot once the selection is normalised. |
| Ili9341.UpdateFrame | Src/ILI9341.cpp:426-443 | Reports false and changes nothing without a back buffer or when already presented. Otherwise it negates the selection, shows that slot, copies it into the other slot, sets `_isUpdatedRecently` and reports true. |
| Ili9341.Commit | Src/ILI9341.cpp:388-393 | The target slot holds the drawn surface. With a back buffer and `update`, the frame is presented from that slot. Otherwise the frame is marked not presented and nothing else changes, so `update` has no effect without a back buffer. |
| Ili9341.DrawRectangle | Src/ILI9341.cpp:381-394 | The rectangle is filled on the draw target and then committed. |
| Ili9341.PutText | Src/ILI9341.cpp:396-409 | The text is drawn on the draw target and then committed. |
| Ili9341.PutChar | Src/ILI9341.cpp:411-424 | The glyph is drawn on the draw target and then committed. |
| Ili9341.FreshCannotPresent | Inc/ILI9341.hpp:144 | `updateFrame` on a fresh driver reports false and changes nothing. |
| Ili9341.UpdateFrameTwice | Src/ILI9341.cpp:431-440 | A second `updateFrame` with no draw in between reports false and changes nothing. |
| Ili9341.PresentSynchronizesSlots | Src/ILI9341.cpp:435-439 | After a successful presentation both slots hold identical pixels. The layer shows the slot the preceding draws targeted, with their pixels. |
| Ili9341.PresentNormalisesSelection | Src/ILI9341.cpp:435 | After a successful presentation the selection is 0 or 1. |
| Ili9341.FirstDrawsTargetShownSlot | Src/ILI9341.cpp:338-350 | After `initalize` and `setBackFrameBuffer` the selection is still `uint32_t(-1)`. So the first draws target slot 0, which is the slot shown on the layer. |
| Ili9341.DefaultDrawPresents | Inc/ILI9341.hpp:161-164 | With a back buffer, a draw with the default `update = true` shows the drawn slot at once, and both slots then hold the same pixels. |
| Sessions.Step | Src/ILI9341.cpp:344-443 | A call gives a new state exactly when its behaviour is defined and its drawing is pre-clipped to the surface. Otherwise it gives `None`. Only `setBackFrameBuffer` changes the back-buffer flag. The selection either stays or becomes a slot index. |
| Sessions.SingleBufferedDrawFaults | Src/ILI9341.cpp:382-388 | Without a back buffer and with the selection out of range, any run that reaches a draw without calling `setBackFrameBuffer` indexes outside the slot array. |
| Sessions.FreshSingleBufferedDrawFaults | Inc/ILI9341.hpp:138-144 | From construction, any run that draws without calling `setBackFrameBuffer` first indexes slot `0xFFFFFFFF`. |
| Sessions.SingleBufferedNeverPresents | Src/ILI9341.cpp:426-429 | Until `setBackFrameBuffer` is called there is no back buffer, and `updateFrame` reports false and changes nothing. |
| Sessions.SelectionStaysNormalised | Src/ILI9341.cpp:435 | Once the selection is 0 or 1 it stays 0 or 1 across every run. |
| Ili9341.PresentFindsPanels | Src/ILI9341.cpp:426-439 | In a state with the slot shapes reachable from construction, a presentation that can run finds both slots to be 240x320 RGB565 surfaces. The first presentation selects slot 0 and copies it into slot 1 with slot 1's full byte count, so slot 0 must already have been bound by `initalize`. |
| Sessions.StepKeepsShape | Src/ILI9341.cpp:338-443 | Every allowed call keeps each slot default or a 240x320 RGB565 surface. Slot 1 is a panel surface once double buffering is on, and both are once the selection is a slot index. |
| Sessions.RunKeepsShape | Src/ILI9341.cpp:338-443 | Whole runs keep those slot shapes. |
| Sessions.PresentFromFreshSynchronizes | Src/ILI9341.cpp:426-443 | After any run from construction, an `updateFrame` that reports true leaves both slots with identical pixels. The layer shows the slot the preceding draws targeted. |
| Sessions.DrawPresentFromFreshSynchronizes | Src/ILI9341.cpp:381-443 | After any run from construction, a double-buffered draw with `update` set (any of the three draw calls) leaves both slots with identical pixels. The layer shows the slot that was drawn on. |

## Left out

- SPI/GPIO byte transport (`writeCommand`, `writeData`, `writeRegister`) and the register bring-up sequence with its delays: hardware I/O with no state the model keeps. The register enumeration goes with them.
- `setLayer`'s LTDC configuration and dithering: a call into the HAL. The model records only what layer 0 is bound to (the `layer` field). A failed configuration is fatal in the source and is not modelled.
- The DMA2D branch of `copyBuffer`: a foreign, blocking HAL transfer. It is taken to be equivalent to the linear copy.
- The constructor's configuration null checks, `FatalError`, `ASSERT_PARAM` and the FreeRTOS macros: configuration and halting, with no effect on drawing state.
- Font table contents: `font/fonts.hpp` is not part of this model. A font is an arbitrary width, height and byte table.
- Fonts.WidthBytes: assumes `sFONT.Width` is a 16-bit unsigned field (the usual STM32 font layout), so `Width - 1` is computed in `int` and a zero width gives one byte per row.
- Raw addresses and aliasing: each slot owns distinct storage, so a copy's source and destination never overlap. `operator=` is Dafny value assignment, which also makes its self-assignment check moot.
- `copyBuffer` leaving its source unchanged holds by construction, since surfaces are values.
- `setBuffer`, `setWidth` and `setHeight`: the driver never calls them, and they can break the `width*height` storage invariant. `getWidth`, `getHeight` and `getBufferAddress` are the datatype's fields.
- Raster.DrawRectangle, Raster.PutChar and Raster.PutText do not model 32-bit wrap-around of `x + ix`, `x + pixelX` or `x + idx*Width`. Their preconditions require the unwrapped coordinates to lie on the surface, so inputs that reach the surface only through wrap-around are excluded. The wrap-around of the `at` index itself is modelled and shown not to occur on the surface.
- FrameBuffers.Fill: requires the rectangle to lie on the surface, because callers pre-clip. In the source, an off-surface coordinate whose index `y*width + x` stays inside the buffer is a defined write that wraps into the next row. For example, `drawRectangle(230, 0, 20, 1, c)` on a 240-wide surface also paints `(0..9, 1)`. Such inputs are excluded, and the model promises nothing about them.
- FrameBuffers.PutGlyph: requires every set glyph bit to land on the surface, for the same reason. A glyph that overhangs the right edge but stays inside the buffer wraps into the next rows in the source and is excluded.
- FrameBuffers.PutText: requires every character's glyph to fit as for `PutGlyph`. A text that runs past the right edge wraps into the next rows in the source and is excluded.
- Out-of-range accesses are undefined behaviour in the source: an index past the storage, a glyph outside the table, and a slot index of 2 or more. They are preconditions here. The command layer (`Sessions.Step`) reports them as `None`.
- Sessions.Step: `None` also marks draws that are defined in the source but not pre-clipped, such as `drawRectangle(230, 0, 20, 1, c, false)` on the 240x320 panel, which wraps into row 1. The run lemmas say nothing about what happens after such a call.
- FrameBuffers.Valid: requires the RGB565 storage of a surface to be smaller than 2^32 bytes, since it must fit the 32-bit address space. The `uint32_t` byte count of `copyBuffer` is computed modulo 2^32 and shown not to wrap for such surfaces. Larger geometries, for which the count would wrap (to 0 for 65536x32768), are not modelled.
- Layer binding by address: the model treats every buffer given to `setBackFrameBuffer` as different storage. In the source, re-calling it with the storage the layer already shows clears that storage through the constructor, so the panel goes black. Storage aliasing slot 0 is likewise treated as separate.
- Concurrency: the driver is single-context code with no locking, and calls are modelled one at a time.
