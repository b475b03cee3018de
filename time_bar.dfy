/**
 * The TimeBar component (src/components/TimeBar/index.tsx), the earlier
 * version of the scrubber: one mark whose left offset is state, moved by
 * pressing and dragging, and a tip above it that shows the cell number
 * under the mark.  The DOM measurements a handler reads (the cursor, the
 * content's left edge and width, the rendered width of the mark) are
 * parameters.
 */
module TimeBarComponent {
  import opened Timeline
  import opened Wrappers

  /** Default `total`. */
  const DefaultTotal: int := 60
  /** Default `frameMax`: up to this many frames a cell stands for one frame. */
  const DefaultFrameMax: int := 60

  /** `frameMode`: one frame per cell until `total` exceeds `frameMax`. */
  function FrameModeFor(total: int, frameMax: int): (mode: FrameMode)
    ensures mode == Multiple <==> frameMax < total
  {
    if total <= frameMax then Single else Multiple
  }

  /**
   * `tickWidth`, `(width / total).toFixed(2)`; the string is turned back
   * into a number wherever it is divided.  The `total` cells span the bar
   * up to the rounding.
   */
  function TickWidth(width: real, total: int): (w: real)
    requires total >= 1
    ensures -0.005 * total as real <= width - w * total as real <= 0.005 * total as real
    ensures width >= 0.0 ==> w >= 0.0
  {
    ToFixed2Spans(width, total);
    ToFixed2(width / total as real)
  }

  /**
   * The new mark offset `handleMouseEventForMark` sets, or `None` when it
   * sets none.  The switch falls through from `move` to `down`: a drag past
   * either end is ignored, while a press there puts the mark at that end.
   * Otherwise the mark snaps to the left edge of the cell under the cursor
   * in single mode and is centred on the cursor in multiple mode, and in
   * both it stays on the content.  An event of a kind the switch does not
   * name skips the boundary handling.
   */
  function MarkLeftUpdate(mode: MouseMode, frameMode: FrameMode, cursorLeft: real, contentLeft: real,
                          contentWidth: real, markWidth: real): (r: Option<real>)
    requires frameMode == Single ==> markWidth > 0.0
    ensures (mode == Down && OverflowLeft(cursorLeft, contentLeft, markWidth)) ==> r == Some(0.0)
    ensures (mode == Down && !OverflowLeft(cursorLeft, contentLeft, markWidth)
             && OverflowRight(cursorLeft, contentLeft, contentWidth, markWidth)) ==> r == Some(contentWidth - markWidth)
    ensures (mode == Move && (OverflowLeft(cursorLeft, contentLeft, markWidth)
             || OverflowRight(cursorLeft, contentLeft, contentWidth, markWidth))) ==> r == None
    ensures r.None? ==> mode == Move
    ensures (mode == Hover || (!OverflowLeft(cursorLeft, contentLeft, markWidth)
             && !OverflowRight(cursorLeft, contentLeft, contentWidth, markWidth))) && frameMode == Single ==>
              && r == Some(FrameLeft(CellIndex(cursorLeft - contentLeft, markWidth), markWidth))
              && r.value <= cursorLeft - contentLeft < r.value + markWidth
    ensures (mode == Hover || (!OverflowLeft(cursorLeft, contentLeft, markWidth)
             && !OverflowRight(cursorLeft, contentLeft, contentWidth, markWidth))) && frameMode == Multiple ==>
              r.Some? && r.value + markWidth / 2.0 == cursorLeft - contentLeft
    ensures (!OverflowLeft(cursorLeft, contentLeft, markWidth)
             && !OverflowRight(cursorLeft, contentLeft, contentWidth, markWidth)) ==>
              && r.Some? && 0.0 <= r.value
              && (frameMode == Multiple ==> r.value <= contentWidth - markWidth)
  {
    var isOverflowLeft := OverflowLeft(cursorLeft, contentLeft, markWidth);
    var isOverflowRight := OverflowRight(cursorLeft, contentLeft, contentWidth, markWidth);
    if mode == Move && (isOverflowLeft || isOverflowRight) then None
    else if mode != Hover && isOverflowLeft then Some(0.0)
    else if mode != Hover && isOverflowRight then Some(contentWidth - markWidth)
    else if frameMode == Single then
      var offsetLeft := cursorLeft - contentLeft;
      var offsetCount := (offsetLeft / markWidth).Floor;
      assert 0.0 <= offsetLeft ==> 0 <= offsetCount;
      ProductSign(offsetCount, markWidth);
      assert CellIndex(offsetLeft, markWidth) == offsetCount + 1;
      assert FrameLeft(offsetCount + 1, markWidth) == offsetCount as real * markWidth;
      Some(offsetCount as real * markWidth)
    else Some(cursorLeft - contentLeft - markWidth / 2.0)
  }

  /**
   * A pointer event never puts the mark off the content when the mark fits
   * on it and, in single mode, the content is a whole number of marks wide.
   */
  lemma {:induction false} MarkStaysOnContent(mode: MouseMode, frameMode: FrameMode, cursorLeft: real, contentLeft: real,
                                              contentWidth: real, markWidth: real, marks: int)
    requires mode != Hover && 0.0 < markWidth <= contentWidth
    requires frameMode == Single ==> contentWidth == marks as real * markWidth
    ensures var r := MarkLeftUpdate(mode, frameMode, cursorLeft, contentLeft, contentWidth, markWidth);
            r.Some? ==> 0.0 <= r.value <= contentWidth - markWidth
  {
    var r := MarkLeftUpdate(mode, frameMode, cursorLeft, contentLeft, contentWidth, markWidth);
    if frameMode == Single && !OverflowLeft(cursorLeft, contentLeft, markWidth)
       && !OverflowRight(cursorLeft, contentLeft, contentWidth, markWidth) {
      var offsetLeft := cursorLeft - contentLeft;
      var k := CellIndex(offsetLeft, markWidth) - 1;
      assert r.value == k as real * markWidth;
      LastWholeMark(k, marks, markWidth, offsetLeft, contentWidth);
    }
  }

  /** A mark `k` whole widths in that starts at most half a width before the end ends on the bar. */
  lemma LastWholeMark(k: int, marks: int, markWidth: real, offsetLeft: real, contentWidth: real)
    requires markWidth > 0.0 && contentWidth == marks as real * markWidth
    requires k as real * markWidth <= offsetLeft <= contentWidth - markWidth / 2.0
    ensures k as real * markWidth <= contentWidth - markWidth
  {
    MulCancelLess(k, marks, markWidth);
    MulMonotone(k as real, (marks - 1) as real, markWidth);
    assert (marks - 1) as real * markWidth == marks as real * markWidth - markWidth;
  }

  /** On cells at least one pixel wide, a mark `k` cells from the start has tip `k + 1`. */
  lemma {:induction false} TipOfCell(k: int, tickWidth: real)
    requires tickWidth >= 1.0
    ensures CellNumber(k as real * tickWidth, tickWidth) == k + 1
  {
    assert FrameLeft(k + 1, tickWidth) == k as real * tickWidth;
    CellNumberRoundTrip(k + 1, tickWidth);
  }

  /**
   * In single mode, once a press or drag inside the content has moved a
   * mark one cell wide, the tip shows the number of the cell under the
   * cursor, provided a cell is at least a pixel wide.
   */
  lemma {:induction false} TipShowsCellUnderCursor(mode: MouseMode, cursorLeft: real, contentLeft: real,
                                                   contentWidth: real, tickWidth: real)
    requires tickWidth >= 1.0
    requires !OverflowLeft(cursorLeft, contentLeft, tickWidth)
    requires !OverflowRight(cursorLeft, contentLeft, contentWidth, tickWidth)
    ensures var r := MarkLeftUpdate(mode, Single, cursorLeft, contentLeft, contentWidth, tickWidth);
            CellNumber(r.value, tickWidth) == CellIndex(cursorLeft - contentLeft, tickWidth)
  {
    CellNumberRoundTrip(CellIndex(cursorLeft - contentLeft, tickWidth), tickWidth);
  }

  /**
   * A 50-pixel bar of 60 frames has cells 0.83 pixels wide, and the tip of
   * the mark at the start reads 2.
   */
  lemma NarrowTimeBarTipShowsTwo()
    ensures TickWidth(50.0, DefaultTotal) == 0.83
    ensures CellNumber(0.0, 0.83) == 2
  {
    var x := 50.0 / 60.0;
    assert x * 100.0 + 0.5 == 83.0 + 5.0 / 6.0;
    assert RoundHalfUp(x * 100.0) == 83;
    assert (0.0 + 1.0) / 0.83 <= 2.0;
  }

  /** Width of the mark box: the `markWidth` prop unless it is absent or 0, then a cell. */
  function MarkBoxWidth(markWidth: Option<real>, tickWidth: real): real
  {
    if markWidth.Some? && markWidth.value != 0.0 then markWidth.value else tickWidth
  }

  /** `tipLeft`: the tip is centred on the mark box. */
  function TipLeft(markLeft: real, tipWidth: real, markWidth: Option<real>, tickWidth: real): real
  {
    markLeft - tipWidth / 2.0 + MarkBoxWidth(markWidth, tickWidth) / 2.0
  }

  /**
   * On cells at least one pixel wide, the tip of a mark `k` cells from the
   * start is centred inside the cell whose number the tip shows.
   */
  lemma {:induction false} TipCentredOnShownCell(k: int, tipWidth: real, tickWidth: real)
    requires tickWidth >= 1.0
    ensures var shown := CellNumber(k as real * tickWidth, tickWidth);
            var centre := TipLeft(k as real * tickWidth, tipWidth, None, tickWidth) + tipWidth / 2.0;
            FrameLeft(shown, tickWidth) < centre < FrameLeft(shown + 1, tickWidth)
  {
    TipOfCell(k, tickWidth);
    assert FrameLeft(k + 1, tickWidth) == k as real * tickWidth;
    assert FrameLeft(k + 2, tickWidth) == k as real * tickWidth + tickWidth;
  }

  class TimeBar {
    // props
    const total: int
    const frameMax: int
    const width: real

    // state
    var markLeft: real
    var isMouseDown: bool

    constructor (total: Option<int>, frameMax: Option<int>, width: real)
      requires total.GetOr(DefaultTotal) >= 1
      ensures this.total == total.GetOr(DefaultTotal) && this.frameMax == frameMax.GetOr(DefaultFrameMax)
      ensures this.width == width
      ensures markLeft == 0.0 && !isMouseDown
    {
      this.total := total.GetOr(DefaultTotal);
      this.frameMax := frameMax.GetOr(DefaultFrameMax);
      this.width := width;
      markLeft := 0.0;
      isMouseDown := false;
    }

    /** `frameMode` of the current render. */
    function Mode(): FrameMode
    {
      FrameModeFor(total, frameMax)
    }

    /** `tickWidth` of the current render. */
    function CurrentTickWidth(): real
      requires total >= 1
    {
      TickWidth(width, total)
    }

    /** `tipValue`, the number in the tip: the cell read off the mark. */
    function TipValue(): int
      requires total >= 1 && CurrentTickWidth() > 0.0
      reads this`markLeft
    {
      CellNumber(markLeft, CurrentTickWidth())
    }

    /**
     * With the mark `k >= 0` cells from the start and cells at least one
     * pixel wide, the tip value and the number displayed are both `k + 1`.
     */
    lemma {:induction false} TipValueNamesCell(k: int)
      requires total >= 1 && CurrentTickWidth() >= 1.0 && k >= 0
      requires markLeft == k as real * CurrentTickWidth()
      ensures TipValue() == k + 1
      ensures ShownTip(TipValue()) == k + 1
    {
      TipOfCell(k, CurrentTickWidth());
    }

    /** `handleMouseEventForMark`: sets the mark offset `MarkLeftUpdate` gives, if any. */
    method HandleMouseEventForMark(mode: MouseMode, cursorLeft: real, contentLeft: real, contentWidth: real,
                                   markWidth: real)
      requires Mode() == Single ==> markWidth > 0.0
      modifies this`markLeft
      ensures markLeft == MarkLeftUpdate(mode, Mode(), cursorLeft, contentLeft, contentWidth, markWidth).GetOr(old(markLeft))
    {
      var offsetLeft := cursorLeft - contentLeft - markWidth / 2.0;
      var isOverflowLeft := OverflowLeft(cursorLeft, contentLeft, markWidth);
      var isOverflowRight := OverflowRight(cursorLeft, contentLeft, contentWidth, markWidth);

      // case "move": falling through to case "down"
      if mode == Move {
        if isOverflowLeft || isOverflowRight {
          return;
        }
      }
      if mode == Move || mode == Down {
        if isOverflowLeft {
          markLeft := 0.0;
          return;
        }
        if isOverflowRight {
          markLeft := contentWidth - markWidth;
          return;
        }
      }

      if Mode() == Single {
        offsetLeft := cursorLeft - contentLeft;
        var offsetCount := (offsetLeft / markWidth).Floor;
        offsetLeft := offsetCount as real * markWidth;
      }
      markLeft := offsetLeft;
    }

    /** `handleMouseDown`: the mouse is down and the mark jumps to the cursor. */
    method MouseDown(cursorLeft: real, contentLeft: real, contentWidth: real, markWidth: real)
      requires Mode() == Single ==> markWidth > 0.0
      modifies this`isMouseDown, this`markLeft
      ensures isMouseDown
      ensures markLeft == MarkLeftUpdate(Down, Mode(), cursorLeft, contentLeft, contentWidth, markWidth).GetOr(old(markLeft))
    {
      isMouseDown := true;
      HandleMouseEventForMark(Down, cursorLeft, contentLeft, contentWidth, markWidth);
    }

    /** `handleMouseMove`: the mark follows the cursor only while the mouse is down. */
    method MouseMove(cursorLeft: real, contentLeft: real, contentWidth: real, markWidth: real)
      requires Mode() == Single ==> markWidth > 0.0
      modifies this`markLeft
      ensures !isMouseDown ==> markLeft == old(markLeft)
      ensures isMouseDown ==>
                markLeft == MarkLeftUpdate(Move, Mode(), cursorLeft, contentLeft, contentWidth, markWidth).GetOr(old(markLeft))
    {
      if !isMouseDown {
        return;
      }
      HandleMouseEventForMark(Move, cursorLeft, contentLeft, contentWidth, markWidth);
    }

    /** `handleMouseUp`. */
    method MouseUp()
      modifies this`isMouseDown
      ensures !isMouseDown
    {
      isMouseDown := false;
    }

    /** `handleMouseLeave`: only the mouse-down flag is cleared. */
    method MouseLeave()
      modifies this`isMouseDown
      ensures !isMouseDown
    {
      isMouseDown := false;
    }
  }
}
