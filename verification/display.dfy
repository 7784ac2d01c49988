/**
 * The presentation state of the `ILI9341` driver: two frame buffer slots, the selected slot index
 * `_selectedFrameBuffer`, the `_hasBackFrame` and `_isUpdatedRecently` flags, and what layer 0 of the
 * display controller is currently showing (the storage `setLayer` bound it to).
 */
module Ili9341 {
  import opened Arith
  import opened Pixels
  import opened Fonts
  import opened Wrappers
  import FB = FrameBuffers

  const LCD_WIDTH: nat := 240
  const LCD_HEIGHT: nat := 320
  const PIXEL_BYTE_COUNT: nat := 2
  const FRAME_BUFFER_COUNT: nat := 2

  /** `uint32_t(-1)`, the initial `_selectedFrameBuffer`. */
  const INITIAL_SELECTION: nat := 0xFFFF_FFFF

  /** The default of the `update` argument of every draw call. */
  const DEFAULT_UPDATE: bool := true

  /** A slot is 240 x 320 RGB565 pixels: 76800 pixels, 153600 bytes. */
  lemma PanelGeometry()
    ensures LCD_WIDTH * LCD_HEIGHT == 76800
    ensures LCD_WIDTH * LCD_HEIGHT * PIXEL_BYTE_COUNT == 153600
    ensures PIXEL_BYTE_COUNT == FB.RGB565
    ensures LCD_WIDTH * LCD_HEIGHT <= U32
  {
  }

  /**
   * What layer 0 shows. `setLayer` binds the layer to a buffer's storage, not to a slot: `ShowsSlot(i)`
   * means the layer reads the storage slot `i` currently owns. When that slot is rebound to other
   * storage the layer keeps reading the old storage, which no slot owns any more and nothing draws
   * into, so it shows the frame it last held: `ShowsDetached(frame)`.
   */
  datatype Layer = Unbound | ShowsSlot(slot: nat) | ShowsDetached(frame: FB.FrameBuffer)

  datatype Display = Display(
    slots: seq<FB.FrameBuffer>,
    selectedFrameBuffer: nat,
    hasBackFrame: bool,
    isUpdatedRecently: bool,
    layer: Layer)

  /** Two slots, each a valid surface, a selection that fits a `uint32_t`, and a layer bound to a slot that exists. */
  predicate Valid(d: Display)
  {
    |d.slots| == FRAME_BUFFER_COUNT && d.selectedFrameBuffer < U32 &&
    (forall i | 0 <= i < |d.slots| :: FB.Valid(d.slots[i])) &&
    (d.layer.ShowsSlot? ==> d.layer.slot < FRAME_BUFFER_COUNT)
  }

  /** The picture on the panel: the surface whose storage layer 0 reads, if it is bound at all. */
  function ShownFrame(d: Display): (f: Option<FB.FrameBuffer>)
    requires Valid(d)
    ensures f.None? <==> d.layer == Unbound
    ensures d.layer.ShowsSlot? ==> f == Some(d.slots[d.layer.slot])
    ensures d.layer.ShowsDetached? ==> f == Some(d.layer.frame)
  {
    match d.layer
    case Unbound => None
    case ShowsSlot(i) => Some(d.slots[i])
    case ShowsDetached(frame) => Some(frame)
  }

  /**
   * A freshly constructed driver: default slots, selection `uint32_t(-1)`, no back buffer, nothing
   * bound to the layer. `_isUpdatedRecently` has no declared initial value, so it is a parameter.
   */
  function Fresh(isUpdatedRecently: bool): (d: Display)
    ensures Valid(d)
    ensures !d.hasBackFrame && d.layer == Unbound
    ensures d.selectedFrameBuffer == INITIAL_SELECTION && d.selectedFrameBuffer >= FRAME_BUFFER_COUNT
    ensures d.isUpdatedRecently == isUpdatedRecently
    ensures forall i | 0 <= i < |d.slots| :: d.slots[i] == FB.DEFAULT
  {
    Display([FB.DEFAULT, FB.DEFAULT], INITIAL_SELECTION, false, isUpdatedRecently, Unbound)
  }

  /**
   * The tail of `initalize`: slot 0 becomes a cleared 240 x 320 surface over `mem` and layer 0 is
   * bound to it. The register bring-up before it is panel I/O.
   */
  function Initialize(d: Display, mem: seq<Pixel>): (r: Display)
    requires Valid(d) && |mem| == LCD_WIDTH * LCD_HEIGHT
    ensures Valid(r)
    ensures r.slots[0].width == LCD_WIDTH && r.slots[0].height == LCD_HEIGHT
    ensures r.slots[0].pixelFormat == FB.RGB565
    ensures forall i | 0 <= i < |r.slots[0].pixels| :: r.slots[0].pixels[i] == BLACK
    ensures r.slots[1] == d.slots[1] && r.layer == ShowsSlot(0)
    ensures r.selectedFrameBuffer == d.selectedFrameBuffer && r.hasBackFrame == d.hasBackFrame
    ensures r.isUpdatedRecently == d.isUpdatedRecently
  {
    d.(slots := d.slots[0 := FB.New(mem, LCD_WIDTH, LCD_HEIGHT)], layer := ShowsSlot(0))
  }

  /**
   * `setBackFrameBuffer`: slot 1 becomes a cleared 240 x 320 surface over `mem` and double buffering
   * is on. `setLayer` is not called: if layer 0 was showing slot 1, it keeps showing the storage slot 1
   * owned before, with the frame that storage held. Calling it again just rebinds slot 1.
   */
  function SetBackFrameBuffer(d: Display, mem: seq<Pixel>): (r: Display)
    requires Valid(d) && |mem| == LCD_WIDTH * LCD_HEIGHT
    ensures Valid(r) && r.hasBackFrame
    ensures r.slots[1].width == LCD_WIDTH && r.slots[1].height == LCD_HEIGHT
    ensures r.slots[1].pixelFormat == FB.RGB565
    ensures forall i | 0 <= i < |r.slots[1].pixels| :: r.slots[1].pixels[i] == BLACK
    ensures r.slots[0] == d.slots[0]
    ensures r.layer == if d.layer == ShowsSlot(1) then ShowsDetached(d.slots[1]) else d.layer
    ensures r.selectedFrameBuffer == d.selectedFrameBuffer
    ensures r.isUpdatedRecently == d.isUpdatedRecently
  {
    var layer := if d.layer == ShowsSlot(1) then ShowsDetached(d.slots[1]) else d.layer;
    d.(slots := d.slots[1 := FB.New(mem, LCD_WIDTH, LCD_HEIGHT)], hasBackFrame := true, layer := layer)
  }

  /**
   * The slot a draw call writes: `_selectedFrameBuffer` itself without a back buffer, its logical
   * negation with one. Only the latter is guaranteed to be a slot index.
   */
  function DrawTarget(d: Display): (t: nat)
    ensures !d.hasBackFrame ==> t == d.selectedFrameBuffer
    ensures d.hasBackFrame ==> t < FRAME_BUFFER_COUNT
    ensures d.hasBackFrame && d.selectedFrameBuffer >= FRAME_BUFFER_COUNT ==> t == 0
    ensures d.hasBackFrame && d.selectedFrameBuffer < FRAME_BUFFER_COUNT ==>
              t == FRAME_BUFFER_COUNT - 1 - d.selectedFrameBuffer
  {
    if d.hasBackFrame then LogicalNot(d.selectedFrameBuffer) else d.selectedFrameBuffer
  }

  /** `_FrameBuffer[DrawTarget]` indexes inside the slot array. */
  predicate CanDraw(d: Display)
  {
    Valid(d) && DrawTarget(d) < FRAME_BUFFER_COUNT
  }

  /**
   * The copy a presentation would make, from the slot about to be shown into the other one, reads
   * only pixels the shown slot holds.
   */
  predicate PresentReady(d: Display)
    requires Valid(d)
  {
    var shown := LogicalNot(d.selectedFrameBuffer);
    FB.CopiedPixels(d.slots[LogicalNot(shown)]) <= |d.slots[shown].pixels|
  }

  /**
   * `updateFrame`: without a back buffer, or when nothing was drawn since the last presentation, it
   * reports false and changes nothing. Otherwise it negates the selection, binds layer 0 to the newly
   * selected slot, copies that slot into the other one, marks the frame presented and reports true.
   */
  function UpdateFrame(d: Display): (res: (Display, bool))
    requires Valid(d) && (d.hasBackFrame && !d.isUpdatedRecently ==> PresentReady(d))
    ensures Valid(res.0)
    ensures res.1 <==> d.hasBackFrame && !d.isUpdatedRecently
    ensures !res.1 ==> res.0 == d
    ensures res.1 ==>
              var s := res.0.selectedFrameBuffer;
              s == LogicalNot(d.selectedFrameBuffer) && res.0.layer == ShowsSlot(s) &&
              res.0.slots[s] == d.slots[s] &&
              res.0.slots[LogicalNot(s)] == FB.Copy(d.slots[LogicalNot(s)], d.slots[s]) &&
              res.0.isUpdatedRecently && res.0.hasBackFrame
  {
    if !d.hasBackFrame then (d, false)
    else if d.isUpdatedRecently then (d, false)
    else
      var selected := LogicalNot(d.selectedFrameBuffer);
      var hidden := LogicalNot(selected);
      var copy := FB.Copy(d.slots[hidden], d.slots[selected]);
      (d.(selectedFrameBuffer := selected, layer := ShowsSlot(selected),
          slots := d.slots[hidden := copy], isUpdatedRecently := true), true)
  }

  /**
   * What the common tail of a draw call leaves behind, given the surface `drawn` that the draw
   * produced on the target slot: the target slot holds `drawn`. With a back buffer and `update` set
   * the frame is presented at once: the target slot is selected and shown, and the other slot
   * receives a copy of it. Otherwise only the target slot changed and the frame is marked not
   * presented; in particular without a back buffer `update` has no effect.
   */
  predicate Committed(d: Display, r: Display, drawn: FB.FrameBuffer, update: bool)
    requires CanDraw(d)
  {
    var t := DrawTarget(d);
    Valid(r) && r.hasBackFrame == d.hasBackFrame && |r.slots| == FRAME_BUFFER_COUNT && r.slots[t] == drawn &&
    (if d.hasBackFrame && update then
       r.selectedFrameBuffer == t && r.layer == ShowsSlot(t) && r.isUpdatedRecently &&
       FB.CopiedPixels(d.slots[LogicalNot(t)]) <= |drawn.pixels| &&
       r.slots[LogicalNot(t)] == FB.Copy(d.slots[LogicalNot(t)], drawn)
     else
       r.slots == d.slots[t := drawn] && !r.isUpdatedRecently &&
       r.selectedFrameBuffer == d.selectedFrameBuffer && r.layer == d.layer)
  }

  /**
   * The common tail of every draw call: the drawn surface replaces the target slot, the frame is
   * marked not presented, and with a back buffer and `update` set `updateFrame` runs.
   */
  function Commit(d: Display, drawn: FB.FrameBuffer, update: bool): (r: Display)
    requires CanDraw(d) && FB.Valid(drawn) && FB.SameShape(drawn, d.slots[DrawTarget(d)])
    requires d.hasBackFrame && update ==> PresentReady(d)
    ensures Committed(d, r, drawn, update)
  {
    var t := DrawTarget(d);
    var drawnState := d.(slots := d.slots[t := drawn], isUpdatedRecently := false);
    if d.hasBackFrame && update then UpdateFrame(drawnState).0 else drawnState
  }

  /** `ILI9341::drawRectangle`: fills the rectangle on the draw target, then commits. */
  function DrawRectangle(d: Display, x: nat, y: nat, w: nat, h: nat, color: Pixel, update: bool): (r: Display)
    requires CanDraw(d) && FB.RectFits(d.slots[DrawTarget(d)], x, y, w, h)
    requires d.hasBackFrame && update ==> PresentReady(d)
    ensures Committed(d, r, FB.Fill(d.slots[DrawTarget(d)], x, y, w, h, color), update)
  {
    Commit(d, FB.Fill(d.slots[DrawTarget(d)], x, y, w, h, color), update)
  }

  /** `ILI9341::putText`: draws the text on the draw target, then commits. */
  function PutText(d: Display, text: seq<bv8>, x: nat, y: nat, f: Font, color: Pixel, update: bool): (r: Display)
    requires CanDraw(d)
    requires FB.TextFits(d.slots[DrawTarget(d)].width, d.slots[DrawTarget(d)].height, text, x, y, f)
    requires d.hasBackFrame && update ==> PresentReady(d)
    ensures Committed(d, r, FB.PutText(d.slots[DrawTarget(d)], text, x, y, f, color), update)
  {
    Commit(d, FB.PutText(d.slots[DrawTarget(d)], text, x, y, f, color), update)
  }

  /** `ILI9341::putChar`: draws the glyph on the draw target, then commits. */
  function PutChar(d: Display, c: bv8, x: nat, y: nat, f: Font, color: Pixel, update: bool): (r: Display)
    requires CanDraw(d)
    requires FB.GlyphFits(d.slots[DrawTarget(d)].width, d.slots[DrawTarget(d)].height, f, c, x, y)
    requires d.hasBackFrame && update ==> PresentReady(d)
    ensures Committed(d, r, FB.PutGlyph(d.slots[DrawTarget(d)], c, x, y, f, color), update)
  {
    Commit(d, FB.PutGlyph(d.slots[DrawTarget(d)], c, x, y, f, color), update)
  }

  // ---------------------------------------------------------------- properties

  /** A fresh driver has no back buffer, so presenting does nothing. */
  lemma FreshCannotPresent(isUpdatedRecently: bool)
    ensures UpdateFrame(Fresh(isUpdatedRecently)) == (Fresh(isUpdatedRecently), false)
  {
  }

  /**
   * Presenting twice with no draw in between: the second call reports false and changes nothing,
   * whatever the first did.
   */
  lemma UpdateFrameTwice(d: Display)
    requires Valid(d) && (d.hasBackFrame && !d.isUpdatedRecently ==> PresentReady(d))
    ensures UpdateFrame(UpdateFrame(d).0) == (UpdateFrame(d).0, false)
  {
  }

  /**
   * After a presentation that reports true both slots hold the same pixels, and the slot now shown
   * is the one the preceding double-buffered draws targeted, with the pixels they left in it.
   */
  lemma PresentSynchronizesSlots(d: Display)
    requires Valid(d) && d.hasBackFrame && !d.isUpdatedRecently && PresentReady(d)
    requires FB.SameShape(d.slots[0], d.slots[1]) && d.slots[0].pixelFormat == FB.RGB565
    ensures UpdateFrame(d).1
    ensures UpdateFrame(d).0.slots[0].pixels == UpdateFrame(d).0.slots[1].pixels
    ensures UpdateFrame(d).0.layer == ShowsSlot(DrawTarget(d))
    ensures UpdateFrame(d).0.slots[DrawTarget(d)] == d.slots[DrawTarget(d)]
  {
    var r := UpdateFrame(d).0;
    var s := r.selectedFrameBuffer;
    assert r.slots[LogicalNot(s)].pixels == d.slots[s].pixels[..|d.slots[LogicalNot(s)].pixels|];
    assert |d.slots[s].pixels| == |d.slots[LogicalNot(s)].pixels|;
  }

  /** A presentation that reports true leaves the selection inside the slot array. */
  lemma PresentNormalisesSelection(d: Display)
    requires Valid(d) && (d.hasBackFrame && !d.isUpdatedRecently ==> PresentReady(d))
    ensures UpdateFrame(d).1 ==> UpdateFrame(d).0.selectedFrameBuffer < FRAME_BUFFER_COUNT
  {
  }

  /**
   * Initializing and then adding a back buffer leaves the selection at `uint32_t(-1)`, so the first
   * double-buffered draws go to slot 0, the very slot `initalize` bound to the layer.
   */
  lemma FirstDrawsTargetShownSlot(isUpdatedRecently: bool, front: seq<Pixel>, back: seq<Pixel>)
    requires |front| == LCD_WIDTH * LCD_HEIGHT && |back| == LCD_WIDTH * LCD_HEIGHT
    ensures var d := SetBackFrameBuffer(Initialize(Fresh(isUpdatedRecently), front), back);
            DrawTarget(d) == 0 && d.layer == ShowsSlot(0)
  {
  }

  /**
   * `setBackFrameBuffer` never calls `setLayer`, so it never changes the picture on the panel: even
   * when the slot it rebinds is the one shown, the layer keeps showing the frame of the old storage.
   */
  lemma SetBackFrameBufferKeepsPicture(d: Display, mem: seq<Pixel>)
    requires Valid(d) && |mem| == LCD_WIDTH * LCD_HEIGHT
    ensures ShownFrame(SetBackFrameBuffer(d, mem)) == ShownFrame(d)
  {
  }

  /** A surface over a whole panel: 240 x 320 RGB565. */
  predicate PanelSurface(fb: FB.FrameBuffer)
  {
    fb.width == LCD_WIDTH && fb.height == LCD_HEIGHT && fb.pixelFormat == FB.RGB565
  }

  /**
   * The slot shapes every state reachable from construction has: each slot is still default (no
   * storage) or a panel surface, slot 1 is a panel surface once double buffering is on, and both are
   * once the selection has been normalised by a presentation.
   */
  predicate WellShaped(d: Display)
  {
    Valid(d) &&
    (forall i | 0 <= i < |d.slots| ::
       PanelSurface(d.slots[i]) ||
       (d.slots[i].width == 0 && d.slots[i].height == 0 && d.slots[i].pixelFormat == 0)) &&
    (d.hasBackFrame ==> PanelSurface(d.slots[1])) &&
    (d.selectedFrameBuffer < FRAME_BUFFER_COUNT ==> PanelSurface(d.slots[0]) && PanelSurface(d.slots[1]))
  }

  /**
   * In a well-shaped state a presentation that can run finds two panel surfaces: the first one selects
   * slot 0 and copies it into slot 1 with slot 1's full byte count, so slot 0 must already have been
   * bound by `initalize`.
   */
  lemma {:induction false} PresentFindsPanels(d: Display)
    requires WellShaped(d) && d.hasBackFrame && PresentReady(d)
    ensures PanelSurface(d.slots[0]) && PanelSurface(d.slots[1])
  {
    if d.selectedFrameBuffer >= FRAME_BUFFER_COUNT {
      var one := d.slots[1];
      PanelGeometry();
      assert FB.CopiedPixels(one) == LCD_WIDTH * LCD_HEIGHT;
      assert |d.slots[0].pixels| >= LCD_WIDTH * LCD_HEIGHT;
    }
  }

  /**
   * With a back buffer, a draw with the default `update` presents what it drew: the target slot is
   * shown, holds the drawn surface, and both slots hold the same pixels.
   */
  lemma DefaultDrawPresents(d: Display, x: nat, y: nat, w: nat, h: nat, color: Pixel)
    requires CanDraw(d) && d.hasBackFrame && PresentReady(d)
    requires FB.RectFits(d.slots[DrawTarget(d)], x, y, w, h)
    requires FB.SameShape(d.slots[0], d.slots[1]) && d.slots[0].pixelFormat == FB.RGB565
    ensures var r := DrawRectangle(d, x, y, w, h, color, DEFAULT_UPDATE);
            r.layer == ShowsSlot(DrawTarget(d)) && r.isUpdatedRecently &&
            r.slots[DrawTarget(d)] == FB.Fill(d.slots[DrawTarget(d)], x, y, w, h, color) &&
            r.slots[0].pixels == r.slots[1].pixels
  {
    var t := DrawTarget(d);
    var drawn := FB.Fill(d.slots[t], x, y, w, h, color);
    var r := DrawRectangle(d, x, y, w, h, color, DEFAULT_UPDATE);
    assert r.slots[LogicalNot(t)].pixels == drawn.pixels[..|d.slots[LogicalNot(t)].pixels|];
    assert |drawn.pixels| == |d.slots[LogicalNot(t)].pixels|;
  }
}
