/**
 * Sequences of driver calls. A run stops with `None` at the first call outside the modelled domain:
 * either its behaviour is undefined in the driver (an out-of-range slot index, an index past the
 * storage, a glyph outside the font table), or it is a draw that callers must pre-clip to the surface.
 * The lemmas follow the selection, the back-buffer flag and the slot shapes across whole runs.
 */
module Sessions {
  import opened Pixels
  import opened Fonts
  import opened Arith
  import opened Wrappers
  import FB = FrameBuffers
  import D = Ili9341

  datatype Command =
    | Initialize(mem: seq<Pixel>)
    | SetBackFrameBuffer(mem: seq<Pixel>)
    | DrawRectangle(x: nat, y: nat, w: nat, h: nat, color: Pixel, update: bool)
    | PutText(text: seq<bv8>, x: nat, y: nat, font: Font, color: Pixel, update: bool)
    | PutChar(c: bv8, x: nat, y: nat, font: Font, color: Pixel, update: bool)
    | UpdateFrame
  {
    predicate IsDraw()
    {
      DrawRectangle? || PutText? || PutChar?
    }
  }

  /**
   * The caller's obligations for `cmd` in state `d`: the driver's behaviour is defined and every draw is
   * pre-clipped to the target surface.
   */
  predicate Allowed(d: D.Display, cmd: Command)
    requires D.Valid(d)
  {
    match cmd
    case Initialize(mem) => |mem| == D.LCD_WIDTH * D.LCD_HEIGHT
    case SetBackFrameBuffer(mem) => |mem| == D.LCD_WIDTH * D.LCD_HEIGHT
    case DrawRectangle(x, y, w, h, _, update) =>
      D.CanDraw(d) && FB.RectFits(d.slots[D.DrawTarget(d)], x, y, w, h) &&
      (d.hasBackFrame && update ==> D.PresentReady(d))
    case PutText(text, x, y, font, _, update) =>
      D.CanDraw(d) &&
      FB.TextFits(d.slots[D.DrawTarget(d)].width, d.slots[D.DrawTarget(d)].height, text, x, y, font) &&
      (d.hasBackFrame && update ==> D.PresentReady(d))
    case PutChar(c, x, y, font, _, update) =>
      D.CanDraw(d) &&
      FB.GlyphFits(d.slots[D.DrawTarget(d)].width, d.slots[D.DrawTarget(d)].height, font, c, x, y) &&
      (d.hasBackFrame && update ==> D.PresentReady(d))
    case UpdateFrame => d.hasBackFrame && !d.isUpdatedRecently ==> D.PresentReady(d)
  }

  /** One call: its effect when allowed, `None` when it is undefined or not pre-clipped. */
  function Step(d: D.Display, cmd: Command): (r: Option<D.Display>)
    requires D.Valid(d)
    ensures r.Some? <==> Allowed(d, cmd)
    ensures r.Some? ==> D.Valid(r.value)
    ensures r.Some? && !cmd.SetBackFrameBuffer? ==> r.value.hasBackFrame == d.hasBackFrame
    ensures r.Some? && cmd.IsDraw() ==> D.CanDraw(d)
    ensures r.Some? ==> r.value.selectedFrameBuffer == d.selectedFrameBuffer ||
                        r.value.selectedFrameBuffer < D.FRAME_BUFFER_COUNT
  {
    if !Allowed(d, cmd) then None
    else
      match cmd
      case Initialize(mem) => Some(D.Initialize(d, mem))
      case SetBackFrameBuffer(mem) => Some(D.SetBackFrameBuffer(d, mem))
      case DrawRectangle(x, y, w, h, color, update) => Some(D.DrawRectangle(d, x, y, w, h, color, update))
      case PutText(text, x, y, font, color, update) => Some(D.PutText(d, text, x, y, font, color, update))
      case PutChar(c, x, y, font, color, update) => Some(D.PutChar(d, c, x, y, font, color, update))
      case UpdateFrame => Some(D.UpdateFrame(d).0)
  }

  /** The calls one after another, stopping at the first whose behaviour is undefined. */
  function Run(d: D.Display, cmds: seq<Command>): (r: Option<D.Display>)
    requires D.Valid(d)
    ensures r.Some? ==> D.Valid(r.value)
    decreases |cmds|
  {
    if |cmds| == 0 then Some(d)
    else
      match Step(d, cmds[0])
      case None => None
      case Some(next) => Run(next, cmds[1..])
  }

  /**
   * Without a back buffer the selection is never normalised: while it is outside the slot array, any
   * run without `setBackFrameBuffer` that reaches a draw call indexes slot `_selectedFrameBuffer` out
   * of range and is undefined.
   */
  lemma {:induction false} SingleBufferedDrawFaults(d: D.Display, cmds: seq<Command>)
    requires D.Valid(d) && !d.hasBackFrame && d.selectedFrameBuffer >= D.FRAME_BUFFER_COUNT
    requires forall i | 0 <= i < |cmds| :: !cmds[i].SetBackFrameBuffer?
    requires exists i | 0 <= i < |cmds| :: cmds[i].IsDraw()
    ensures Run(d, cmds) == None
    decreases |cmds|
  {
    var i :| 0 <= i < |cmds| && cmds[i].IsDraw();
    match Step(d, cmds[0])
    case None =>
    case Some(next) =>
      assert !cmds[0].IsDraw();
      assert i > 0 && cmds[1..][i - 1] == cmds[i];
      assert next.selectedFrameBuffer == d.selectedFrameBuffer by {
        if cmds[0].UpdateFrame? {
          assert next == D.UpdateFrame(d).0;
        }
      }
      SingleBufferedDrawFaults(next, cmds[1..]);
  }

  /** The same starting from a freshly constructed driver: single-buffered drawing is undefined. */
  lemma FreshSingleBufferedDrawFaults(isUpdatedRecently: bool, cmds: seq<Command>)
    requires forall i | 0 <= i < |cmds| :: !cmds[i].SetBackFrameBuffer?
    requires exists i | 0 <= i < |cmds| :: cmds[i].IsDraw()
    ensures Run(D.Fresh(isUpdatedRecently), cmds) == None
  {
    SingleBufferedDrawFaults(D.Fresh(isUpdatedRecently), cmds);
  }

  /** Until `setBackFrameBuffer` is called there is no back buffer and `updateFrame` reports false. */
  lemma {:induction false} SingleBufferedNeverPresents(d: D.Display, cmds: seq<Command>)
    requires D.Valid(d) && !d.hasBackFrame
    requires forall i | 0 <= i < |cmds| :: !cmds[i].SetBackFrameBuffer?
    ensures Run(d, cmds).Some? ==> !Run(d, cmds).value.hasBackFrame
    ensures Run(d, cmds).Some? ==> D.UpdateFrame(Run(d, cmds).value) == (Run(d, cmds).value, false)
    decreases |cmds|
  {
    if |cmds| > 0 {
      match Step(d, cmds[0])
      case None =>
      case Some(next) =>
        assert forall i | 0 <= i < |cmds[1..]| :: cmds[1..][i] == cmds[i + 1];
        SingleBufferedNeverPresents(next, cmds[1..]);
    }
  }

  /** Once the selection is a slot index (after the first negation) every run keeps it one. */
  lemma {:induction false} SelectionStaysNormalised(d: D.Display, cmds: seq<Command>)
    requires D.Valid(d) && d.selectedFrameBuffer < D.FRAME_BUFFER_COUNT
    ensures Run(d, cmds).Some? ==> Run(d, cmds).value.selectedFrameBuffer < D.FRAME_BUFFER_COUNT
    decreases |cmds|
  {
    if |cmds| > 0 {
      match Step(d, cmds[0])
      case None =>
      case Some(next) => SelectionStaysNormalised(next, cmds[1..]);
    }
  }

  /** Every allowed call keeps the slot shapes of a state reachable from construction. */
  lemma StepKeepsShape(d: D.Display, cmd: Command)
    requires D.WellShaped(d) && Step(d, cmd).Some?
    ensures D.WellShaped(Step(d, cmd).value)
  {
    var r := Step(d, cmd).value;
    match cmd
    case Initialize(_) =>
    case SetBackFrameBuffer(_) =>
    case UpdateFrame =>
      if d.hasBackFrame && !d.isUpdatedRecently {
        D.PresentFindsPanels(d);
      }
    case _ =>
      var t := D.DrawTarget(d);
      if d.hasBackFrame && cmd.update {
        D.PresentFindsPanels(d);
      }
      assert FB.SameShape(r.slots[t], d.slots[t]);
  }

  /** Runs keep the slot shapes too. */
  lemma {:induction false} RunKeepsShape(d: D.Display, cmds: seq<Command>)
    requires D.WellShaped(d)
    ensures Run(d, cmds).Some? ==> D.WellShaped(Run(d, cmds).value)
    decreases |cmds|
  {
    if |cmds| > 0 {
      match Step(d, cmds[0])
      case None =>
      case Some(next) =>
        StepKeepsShape(d, cmds[0]);
        RunKeepsShape(next, cmds[1..]);
    }
  }

  /**
   * From construction, whatever calls came before, an `updateFrame` that reports true leaves both
   * slots holding the same pixels, with the layer showing the slot the preceding draws targeted.
   */
  lemma PresentFromFreshSynchronizes(isUpdatedRecently: bool, cmds: seq<Command>)
    requires Run(D.Fresh(isUpdatedRecently), cmds).Some?
    requires Allowed(Run(D.Fresh(isUpdatedRecently), cmds).value, UpdateFrame)
    ensures var d := Run(D.Fresh(isUpdatedRecently), cmds).value;
            D.UpdateFrame(d).1 ==>
              D.UpdateFrame(d).0.slots[0].pixels == D.UpdateFrame(d).0.slots[1].pixels &&
              D.UpdateFrame(d).0.layer == D.ShowsSlot(D.DrawTarget(d))
  {
    var d := Run(D.Fresh(isUpdatedRecently), cmds).value;
    RunKeepsShape(D.Fresh(isUpdatedRecently), cmds);
    if D.UpdateFrame(d).1 {
      D.PresentFindsPanels(d);
      D.PresentSynchronizesSlots(d);
    }
  }

  /**
   * From construction, whatever calls came before, a double-buffered draw with `update` set presents
   * at once: both slots then hold the same pixels, and the layer shows the slot that was drawn on.
   */
  lemma DrawPresentFromFreshSynchronizes(isUpdatedRecently: bool, cmds: seq<Command>, cmd: Command)
    requires cmd.IsDraw() && cmd.update
    ensures var run := Run(D.Fresh(isUpdatedRecently), cmds);
            run.Some? && run.value.hasBackFrame && Step(run.value, cmd).Some? ==>
              var r := Step(run.value, cmd).value;
              r.slots[0].pixels == r.slots[1].pixels && r.layer == D.ShowsSlot(D.DrawTarget(run.value))
  {
    var run := Run(D.Fresh(isUpdatedRecently), cmds);
    if run.Some? && run.value.hasBackFrame && Step(run.value, cmd).Some? {
      var d := run.value;
      var r := Step(d, cmd).value;
      RunKeepsShape(D.Fresh(isUpdatedRecently), cmds);
      D.PresentFindsPanels(d);
      var t := D.DrawTarget(d);
      var hidden := LogicalNot(t);
      assert FB.SameShape(r.slots[t], d.slots[t]);
      assert r.slots[hidden].pixels == r.slots[t].pixels[..|d.slots[hidden].pixels|];
      assert |r.slots[t].pixels| == |d.slots[hidden].pixels|;
    }
  }
}
