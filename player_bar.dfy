/**
 * The PlayerBar component (src/components/PlayerBar/index.tsx) as a state
 * machine.  Each React state variable, each prop that can change and the
 * `playSetTimeoutFnId` ref is a field; every `setX` is an assignment to
 * that field.  A public method is one event handler followed by the React
 * commit it causes: the effects whose dependencies changed run in their
 * order of declaration with the values of the render they belong to, and a
 * state update made by an effect causes one more render and commit.
 *
 * The rendering, the DOM refs and the callbacks into the parent
 * (`seekToFrame`, `onStart`, `onPause`, `onPlaybackRateChange`) are not
 * fields; the DOM measurements a mouse handler reads are its parameters.
 */
module PlayerBarComponent {
  import opened Timeline
  import opened Wrappers
  import opened PlayerBarCalc

  class PlayerBar {
    // props
    var frameTotal: int
    var frameRate: real
    var parentWidth: real
    const splitCount: int
    const markMiddleWidth: real
    const tailWidthPercent: real

    // state
    var frameIndex: int
    var frameMode: FrameMode
    var isPause: bool
    var isLoop: bool
    var barWidth: real
    var markLeft: real
    var markHoverLeft: real
    var isClickForSet: bool
    var isMouseDown: bool
    var isMouseHover: bool

    /** `playSetTimeoutFnId.current`: the running interval, with the values its callback closed over. */
    var timer: Option<Interval>

    /**
     * The current frame is one of the `frameTotal` frames, the frame mode
     * agrees with `frameTotal`, and no committed state of multiple mode has
     * `isClickForSet` set (see `Render`).
     */
    ghost predicate Valid()
      reads this`frameTotal, this`frameIndex, this`frameMode, this`isClickForSet
    {
      && frameTotal >= 1 && splitCount >= 1
      && 1 <= frameIndex <= frameTotal
      && frameMode == FrameModeFor(frameTotal)
      && (frameMode == Multiple ==> !isClickForSet)
    }

    /** `tickWidth` of the current render. */
    function CurrentTickWidth(): real
      requires frameTotal >= 1 && splitCount >= 1
      reads this`frameMode, this`barWidth, this`frameTotal
    {
      TickWidth(frameMode, barWidth, frameTotal, splitCount)
    }

    /** `frameWidth` of the current render. */
    function CurrentFrameWidth(): real
      requires frameTotal >= 1 && splitCount >= 1
      reads this`frameMode, this`barWidth, this`frameTotal
    {
      FrameWidth(frameMode, CurrentTickWidth(), frameTotal, splitCount)
    }

    /** The left edge of the current frame in a render whose frame mode is `mode`; 0 for frame 1. */
    function FrameMarkLeft(mode: FrameMode): (left: real)
      requires frameTotal >= 1 && splitCount >= 1
      reads this`frameIndex, this`frameTotal, this`barWidth
      ensures frameIndex == 1 ==> left == 0.0
      ensures frameIndex >= 1 && FrameWidth(mode, TickWidth(mode, barWidth, frameTotal, splitCount), frameTotal, splitCount) > 0.0
              ==> left >= 0.0
    {
      FrameLeft(frameIndex, FrameWidth(mode, TickWidth(mode, barWidth, frameTotal, splitCount), frameTotal, splitCount))
    }

    /**
     * The offset `calculateMarkLeft` gives in a render whose frame mode is
     * `mode` and whose `isClickForSet` is `click`: the hover mark's offset
     * when the flag is set in multiple mode, and otherwise the left edge of
     * the current frame.
     */
    function MarkLeftIn(mode: FrameMode, click: bool): (left: real)
      requires frameTotal >= 1 && splitCount >= 1
      reads this`frameIndex, this`frameTotal, this`barWidth, this`markHoverLeft
      ensures mode == Multiple && click ==> left == markHoverLeft
      ensures !(mode == Multiple && click) ==> left == FrameMarkLeft(mode)
    {
      if mode == Multiple && click then markHoverLeft
      else FrameMarkLeft(mode)
    }

    /**
     * The offset, frame and `isClickForSet` flag a commit leaves after a
     * handler moved the frame from `before` to `handled` and left the flag at
     * `click0`: the frame is clamped to `frameTotal`, the render clears the
     * flag in multiple mode, and the play mark is placed on the left edge of
     * the frame exactly when the frame changed.
     */
    ghost predicate Committed(before: int, handled: int, markLeft0: real, click0: bool)
      reads this`frameIndex, this`frameTotal, this`frameMode, this`barWidth, this`markLeft, this`isClickForSet
    {
      && frameTotal >= 1 && splitCount >= 1
      && frameIndex == (if handled > frameTotal then frameTotal else handled)
      && isClickForSet == (click0 && frameMode == Single)
      && (if handled == before then markLeft == markLeft0 else markLeft == FrameMarkLeft(frameMode))
    }

    /** The state `handleMouseEventForMark` leaves, for the update `u` the pure model computes. */
    ghost predicate Applied(u: MarkUpdate, index0: int, click0: bool, hover0: real)
      reads this`frameIndex, this`isClickForSet, this`markHoverLeft
    {
      match u
      case Unchanged => frameIndex == index0 && isClickForSet == click0 && markHoverLeft == hover0
      case SetFrame(i) => frameIndex == i && isClickForSet == click0 && markHoverLeft == hover0
      case SetHover(h) => frameIndex == index0 && isClickForSet && markHoverLeft == h
    }

    /**
     * Mounting the component: the initial state, the first placement of the
     * mark, then the width effect, which replaces the initial bar width and
     * so places the mark once more.
     */
    constructor (frameTotal: int, frameRate: real, splitCount: Option<int>, markMiddleWidth: Option<real>,
                 tailWidthPercent: Option<real>, parentWidth: real)
      requires frameTotal >= 1 && splitCount.GetOr(DefaultSplitCount) >= 1
      ensures Valid()
      ensures this.frameTotal == frameTotal && this.frameRate == frameRate && this.parentWidth == parentWidth
      ensures this.splitCount == splitCount.GetOr(DefaultSplitCount)
      ensures this.markMiddleWidth == markMiddleWidth.GetOr(DefaultMarkMiddleWidth)
      ensures this.tailWidthPercent == tailWidthPercent.GetOr(DefaultTailWidthPercent)
      ensures frameIndex == 1 && frameMode == FrameModeFor(frameTotal)
      ensures isPause && isLoop && timer == None
      ensures !isClickForSet && !isMouseDown && !isMouseHover
      ensures barWidth == parentWidth * ((100.0 - this.tailWidthPercent) / 100.0)
      ensures markLeft == 0.0 && markHoverLeft == InitialMarkHoverLeft
    {
      this.frameTotal := frameTotal;
      this.frameRate := frameRate;
      this.parentWidth := parentWidth;
      this.splitCount := splitCount.GetOr(DefaultSplitCount);
      this.markMiddleWidth := markMiddleWidth.GetOr(DefaultMarkMiddleWidth);
      this.tailWidthPercent := tailWidthPercent.GetOr(DefaultTailWidthPercent);
      frameIndex := 1;
      frameMode := FrameModeFor(frameTotal);
      isPause := true;
      isLoop := true;
      barWidth := InitialBarWidth;
      markHoverLeft := InitialMarkHoverLeft;
      isClickForSet := false;
      isMouseDown := false;
      isMouseHover := false;
      timer := None;
      markLeft := 0.0;
      new;
      markLeft := CalculateMarkLeft();
      var clamped := FrameIndexEffect();
      var width := parentWidth * ((100.0 - this.tailWidthPercent) / 100.0);
      if width != barWidth {
        barWidth := width;
        clamped := FrameIndexEffect();
      }
    }

    /**
     * `calculateMarkLeft` on the current render: the offset `MarkLeftIn`
     * gives, and in multiple mode a pending hover flag is consumed.  The
     * offset it assigns for the last frame is overwritten straight away.
     */
    method CalculateMarkLeft() returns (left: real)
      requires frameTotal >= 1 && splitCount >= 1
      modifies this`isClickForSet
      ensures left == MarkLeftIn(frameMode, old(isClickForSet))
      ensures isClickForSet == (old(isClickForSet) && frameMode == Single)
    {
      var tickWidth := CurrentTickWidth();
      if frameMode == Multiple {
        if isClickForSet {
          isClickForSet := false;
          return markHoverLeft;
        }
        var scale := splitCount as real / frameTotal as real;
        if frameIndex == frameTotal {
          left := barWidth - markMiddleWidth;
        }
        left := (frameIndex - 1) as real * (tickWidth * scale);
        return left;
      }
      left := (frameIndex - 1) as real * tickWidth;
    }

    /**
     * The effect on `[frameIndex, frameTotal, barWidth]`: a frame past the
     * end is moved back to the last frame, and otherwise the mark is placed.
     */
    method FrameIndexEffect() returns (clamped: bool)
      requires frameTotal >= 1 && splitCount >= 1
      modifies this`frameIndex, this`markLeft, this`isClickForSet
      ensures clamped <==> old(frameTotal < frameIndex)
      ensures clamped ==> frameIndex == frameTotal && markLeft == old(markLeft) && isClickForSet == old(isClickForSet)
      ensures !clamped ==> frameIndex == old(frameIndex) && markLeft == MarkLeftIn(frameMode, old(isClickForSet))
                           && isClickForSet == (old(isClickForSet) && frameMode == Single)
    {
      if frameTotal < frameIndex {
        frameIndex := frameTotal;
        return true;
      }
      markLeft := CalculateMarkLeft();
      return false;
    }

    /**
     * A render.  `useState(calculateMarkLeft(...))` evaluates its argument on
     * every render and drops the value, but in multiple mode with
     * `isClickForSet` set the call clears the flag, and React renders once
     * more before it commits.  So no effect sees the flag set in multiple mode.
     */
    method Render()
      modifies this`isClickForSet
      ensures isClickForSet == (old(isClickForSet) && frameMode == Single)
    {
      if frameMode == Multiple && isClickForSet {
        isClickForSet := false;
      }
    }

    /**
     * The render and commit after a handler left the frame at `frameIndex`,
     * having found it at `before`: the effect runs if the frame changed, and
     * after one more render once more if it clamped the frame.
     */
    method Commit(before: int)
      requires frameTotal >= 1 && splitCount >= 1 && frameIndex >= 1 && before <= frameTotal
      modifies this`frameIndex, this`markLeft, this`isClickForSet
      ensures Committed(before, old(frameIndex), old(markLeft), old(isClickForSet))
      ensures 1 <= frameIndex <= frameTotal
    {
      Render();
      if frameIndex != before {
        var clamped := FrameIndexEffect();
        if clamped {
          Render();
          clamped := FrameIndexEffect();
        }
      }
    }

    /** `handlePrev`: one frame back, staying at frame 1. */
    method Prev()
      requires Valid()
      modifies this`frameIndex, this`markLeft, this`isClickForSet
      ensures Valid()
      ensures frameIndex == PrevFrame(old(frameIndex))
      ensures Committed(old(frameIndex), PrevFrame(old(frameIndex)), old(markLeft), old(isClickForSet))
    {
      var before := frameIndex;
      if frameIndex != 1 {
        frameIndex := frameIndex - 1;
      }
      Commit(before);
    }

    /** `handleNext`: one frame on, staying at the last frame. */
    method Next()
      requires Valid()
      modifies this`frameIndex, this`markLeft, this`isClickForSet
      ensures Valid()
      ensures frameIndex == NextFrame(old(frameIndex), frameTotal)
      ensures Committed(old(frameIndex), NextFrame(old(frameIndex), frameTotal), old(markLeft), old(isClickForSet))
    {
      var before := frameIndex;
      if frameIndex != frameTotal {
        frameIndex := frameIndex + 1;
      }
      Commit(before);
    }

    /**
     * One firing of the interval callback.  It reads the frame total and the
     * loop flag it closed over when `handlePlay` ran, which need not be the
     * current ones; a frame it moves past the current end is clamped back.
     * At its last frame without looping it pauses and drops the interval.
     */
    method Tick()
      requires Valid() && timer.Some?
      modifies this`isPause, this`timer, this`frameIndex, this`markLeft, this`isClickForSet
      ensures Valid()
      ensures Committed(old(frameIndex), PlaybackStep(old(frameIndex), old(timer).value), old(markLeft), old(isClickForSet))
      ensures PlaybackHalts(old(frameIndex), old(timer).value) ==> frameIndex == old(frameIndex) && isPause && timer == None
      ensures !PlaybackHalts(old(frameIndex), old(timer).value) ==> !isPause && timer == old(timer)
      ensures old(timer).value.frameTotal == frameTotal ==> frameIndex == PlaybackStep(old(frameIndex), old(timer).value)
    {
      var closure := timer.value;
      var prev := frameIndex;
      isPause := false;
      if prev == closure.frameTotal {
        if closure.loop {
          frameIndex := 1;
        } else {
          Pause();
        }
      } else {
        frameIndex := prev + 1;
      }
      Commit(prev);
    }

    /** `handlePlay`: starts an interval over the current settings unless one is already running. */
    method Play()
      modifies this`timer
      ensures old(timer).Some? ==> timer == old(timer)
      ensures old(timer).None? ==> timer == Some(Interval(frameTotal, isLoop, frameRate))
    {
      if timer.Some? {
        return;
      }
      timer := Some(Interval(frameTotal, isLoop, frameRate));
    }

    /** `handlePause`: drops the interval and marks the bar paused. */
    method Pause()
      modifies this`timer, this`isPause
      ensures timer == None && isPause
    {
      timer := None;
      isPause := true;
    }

    /**
     * The effect on `[frameRate, frameTotal, isLoop]`: while playing, the
     * interval is restarted over the current settings, and the bar shows as
     * paused until the new interval first fires.
     */
    method PlaybackSettingsEffect()
      modifies this`timer, this`isPause
      ensures old(isPause) ==> timer == old(timer) && isPause
      ensures !old(isPause) ==> timer == Some(Interval(frameTotal, isLoop, frameRate)) && isPause
    {
      if isPause {
        return;
      }
      Pause();
      Play();
    }

    /** The loop toggle `setIsLoop(!isLoop)`, followed by the playback settings effect. */
    method ToggleLoop()
      modifies this`isLoop, this`timer, this`isPause
      ensures isLoop == !old(isLoop)
      ensures old(isPause) ==> timer == old(timer) && isPause
      ensures !old(isPause) ==> timer == Some(Interval(frameTotal, isLoop, frameRate)) && isPause
    {
      isLoop := !isLoop;
      PlaybackSettingsEffect();
    }

    /** A new `frameRate` prop, followed by the playback settings effect when it differs. */
    method SetFrameRate(rate: real)
      modifies this`frameRate, this`timer, this`isPause
      ensures frameRate == rate
      ensures (rate == old(frameRate) || old(isPause)) ==> timer == old(timer) && isPause == old(isPause)
      ensures rate != old(frameRate) && !old(isPause) ==> timer == Some(Interval(frameTotal, isLoop, rate)) && isPause
    {
      if rate == frameRate {
        return;
      }
      frameRate := rate;
      PlaybackSettingsEffect();
    }

    /**
     * A new `frameTotal` prop.  In the first commit the frame-mode effect
     * only schedules the new mode, so the clamp effect still places the mark
     * with the old mode; then the playback settings effect runs.  The next
     * render has the new mode, and a clamped frame makes its commit place the
     * mark with the new mode.
     */
    method SetFrameTotal(n: int)
      requires Valid() && n >= 1
      modifies this`frameTotal, this`frameMode, this`frameIndex, this`markLeft, this`isClickForSet,
               this`timer, this`isPause
      ensures Valid()
      ensures frameTotal == n && frameMode == FrameModeFor(n)
      ensures frameIndex == if old(frameIndex) > n then n else old(frameIndex)
      ensures isClickForSet == (old(isClickForSet) && frameMode == Single)
      ensures n == old(frameTotal) ==> markLeft == old(markLeft) && isClickForSet == old(isClickForSet)
      ensures n != old(frameTotal) && old(frameIndex) > n ==> markLeft == FrameMarkLeft(frameMode)
      ensures n != old(frameTotal) && old(frameIndex) <= n ==> markLeft == FrameMarkLeft(old(frameMode))
      ensures (n == old(frameTotal) || old(isPause)) ==> timer == old(timer) && isPause == old(isPause)
      ensures n != old(frameTotal) && !old(isPause) ==> timer == Some(Interval(n, isLoop, frameRate)) && isPause
    {
      if n == frameTotal {
        return;
      }
      frameTotal := n;
      Render();
      var clamped := FrameIndexEffect();
      PlaybackSettingsEffect();
      frameMode := FrameModeFor(n);
      Render();
      if clamped {
        clamped := FrameIndexEffect();
      }
    }

    /**
     * A new `parentWidth` prop: the width effect sets the bar to the share
     * of the parent the tail leaves, and a changed bar width places the mark
     * again.
     */
    method SetParentWidth(width: real)
      requires Valid()
      modifies this`parentWidth, this`barWidth, this`frameIndex, this`markLeft, this`isClickForSet
      ensures Valid()
      ensures parentWidth == width && frameIndex == old(frameIndex)
      ensures width != old(parentWidth) ==> barWidth == width * ((100.0 - tailWidthPercent) / 100.0)
      ensures width == old(parentWidth) ==> barWidth == old(barWidth)
      ensures isClickForSet == old(isClickForSet)
      ensures barWidth != old(barWidth) ==> markLeft == FrameMarkLeft(frameMode)
      ensures barWidth == old(barWidth) ==> markLeft == old(markLeft)
    {
      if width == parentWidth {
        return;
      }
      parentWidth := width;
      Render();
      var newWidth := width * ((100.0 - tailWidthPercent) / 100.0);
      if newWidth == barWidth {
        return;
      }
      barWidth := newWidth;
      var clamped := FrameIndexEffect();
    }

    /**
     * `handleMouseEventForMark` for a cursor at `cursorLeft` over content
     * starting at `contentLeft` and `contentWidth` wide.  Its state change is
     * the update `MarkEventUpdate` describes.
     */
    method HandleMouseEventForMark(mode: MouseMode, cursorLeft: real, contentLeft: real, contentWidth: real)
      requires frameTotal >= 1 && splitCount >= 1 && CurrentFrameWidth() > 0.0
      modifies this`frameIndex, this`isClickForSet, this`markHoverLeft
      ensures Applied(MarkEventUpdate(mode, frameMode, cursorLeft, contentLeft, contentWidth, CurrentFrameWidth(), frameTotal),
                      old(frameIndex), old(isClickForSet), old(markHoverLeft))
    {
      MarkEventWith(mode, cursorLeft, contentLeft, contentWidth, CurrentFrameWidth());
    }

    /** The body of `handleMouseEventForMark`, for the `frameWidth` of the render it belongs to. */
    method MarkEventWith(mode: MouseMode, cursorLeft: real, contentLeft: real, contentWidth: real, frameWidth: real)
      requires frameWidth > 0.0
      modifies this`frameIndex, this`isClickForSet, this`markHoverLeft
      ensures Applied(MarkEventUpdate(mode, frameMode, cursorLeft, contentLeft, contentWidth, frameWidth, frameTotal),
                      old(frameIndex), old(isClickForSet), old(markHoverLeft))
    {
      ghost var u := MarkEventUpdate(mode, frameMode, cursorLeft, contentLeft, contentWidth, frameWidth, frameTotal);
      var isOverflowLeft := OverflowLeft(cursorLeft, contentLeft, frameWidth);
      var isOverflowRight := OverflowRight(cursorLeft, contentLeft, contentWidth, frameWidth);

      // case 'move': case 'hover': falling through to case 'down'
      if mode == Move || mode == Hover {
        if isOverflowLeft || isOverflowRight {
          assert u == Unchanged;
          return;
        }
      }
      if isOverflowLeft {
        assert u == SetFrame(1);
        frameIndex := 1;
        return;
      }
      if isOverflowRight {
        assert u == SetFrame(frameTotal);
        frameIndex := frameTotal;
        return;
      }

      var offsetLeft := cursorLeft - contentLeft;
      var offsetCount := OffsetCount(offsetLeft, frameWidth);
      if mode != Hover {
        assert u == SetFrame(SnappedFrame(offsetCount, frameWidth));
        offsetLeft := offsetCount as real * frameWidth;
        ProductQuotient(offsetCount, frameWidth);
        frameIndex := ToFixed0(offsetLeft / frameWidth);
        return;
      }
      if frameMode == Single {
        assert u == SetHover(FrameLeft(offsetCount, frameWidth));
        offsetLeft := (offsetCount - 1) as real * frameWidth;
      } else {
        assert u == SetHover(offsetLeft);
      }
      isClickForSet := true;
      markHoverLeft := offsetLeft;
    }

    /** `handleMouseDown`: the mouse is down and the frame under the cursor is selected. */
    method MouseDown(cursorLeft: real, contentLeft: real, contentWidth: real)
      requires Valid() && CurrentFrameWidth() > 0.0
      modifies this`isMouseDown, this`frameIndex, this`isClickForSet, this`markHoverLeft, this`markLeft
      ensures Valid()
      ensures isMouseDown && markHoverLeft == old(markHoverLeft)
      ensures Committed(old(frameIndex),
                        MarkEventUpdate(Down, frameMode, cursorLeft, contentLeft, contentWidth, CurrentFrameWidth(), frameTotal).frameIndex,
                        old(markLeft), old(isClickForSet))
    {
      isMouseDown := true;
      var before := frameIndex;
      HandleMouseEventForMark(Down, cursorLeft, contentLeft, contentWidth);
      Commit(before);
    }

    /**
     * `handleMouseMove`: the bar is hovered, the hover mark follows the
     * cursor, and while the mouse is down the frame under the cursor is
     * selected too.  Both updates reach the same commit.
     */
    method MouseMove(cursorLeft: real, contentLeft: real, contentWidth: real)
      requires Valid() && CurrentFrameWidth() > 0.0
      modifies this`isMouseHover, this`frameIndex, this`isClickForSet, this`markHoverLeft, this`markLeft
      ensures Valid()
      ensures isMouseHover
      ensures var h := MarkEventUpdate(Hover, frameMode, cursorLeft, contentLeft, contentWidth, CurrentFrameWidth(), frameTotal);
              var m := MarkEventUpdate(Move, frameMode, cursorLeft, contentLeft, contentWidth, CurrentFrameWidth(), frameTotal);
              && markHoverLeft == (if h.SetHover? then h.hoverLeft else old(markHoverLeft))
              && Committed(old(frameIndex), if isMouseDown && m.SetFrame? then m.frameIndex else old(frameIndex),
                           old(markLeft), h.SetHover? || old(isClickForSet))
    {
      if !isMouseHover {
        isMouseHover := true;
      }
      var before := frameIndex;
      HandleMouseEventForMark(Hover, cursorLeft, contentLeft, contentWidth);
      if isMouseDown {
        HandleMouseEventForMark(Move, cursorLeft, contentLeft, contentWidth);
      }
      Commit(before);
    }

    /** `handleMouseUp`. */
    method MouseUp()
      modifies this`isMouseDown
      ensures !isMouseDown
    {
      isMouseDown := false;
    }

    /** `handleMouseLeave`. */
    method MouseLeave()
      modifies this`isMouseDown, this`isMouseHover
      ensures !isMouseDown && !isMouseHover
    {
      isMouseDown := false;
      isMouseHover := false;
    }
  }
}
