/**
 * The calculations of the PlayerBar component (src/components/PlayerBar/index.tsx)
 * that are plain expressions: the widths derived on every render, the
 * frame-to-offset and offset-to-frame maps, the mark placement for a pointer
 * event, one firing of the playback interval, the prev/next steps, the tip
 * position, and the two small utilities `arrToMap` and `handleBeforeConfirm`.
 */
module PlayerBarCalc {
  import opened Timeline
  import opened Wrappers

  /** From this many frames on, one cell of the bar stands for several frames. */
  const MultipleFrameThreshold: int := 1000
  /** Default number of cells in multiple mode (`splitCount`). */
  const DefaultSplitCount: int := 20
  /** Default share of the parent width, in percent, taken by the tail (`tailWidthPercent`). */
  const DefaultTailWidthPercent: real := 8.0
  /** Default width of the middle line of a mark in multiple mode (`markMiddleWidth`). */
  const DefaultMarkMiddleWidth: real := 2.0
  /** Initial `barWidth` state, replaced by the first run of the width effect. */
  const InitialBarWidth: real := 1000.0
  /** Initial `markHoverLeft` state. */
  const InitialMarkHoverLeft: real := 60.0

  /** `frameMode`: one cell per frame below the threshold, blocks of frames from it on. */
  function FrameModeFor(frameTotal: int): (mode: FrameMode)
    ensures mode == Single <==> frameTotal < MultipleFrameThreshold
  {
    if frameTotal >= MultipleFrameThreshold then Multiple else Single
  }

  /**
   * `tickWidth`, the width of one cell.  In single mode there are
   * `frameTotal` cells that span the bar up to the rounding of `toFixed(2)`;
   * in multiple mode there are `splitCount` cells of a whole number of
   * pixels that cover the bar with less than one pixel per cell to spare.
   */
  function TickWidth(mode: FrameMode, barWidth: real, frameTotal: int, splitCount: int): (w: real)
    requires frameTotal >= 1 && splitCount >= 1
    ensures mode == Single ==>
      -0.005 * frameTotal as real <= barWidth - w * frameTotal as real <= 0.005 * frameTotal as real
    ensures mode == Multiple ==> w == w.Floor as real
    ensures mode == Multiple ==> barWidth <= w * splitCount as real < barWidth + splitCount as real
  {
    match mode
    case Single =>
      ToFixed2Spans(barWidth, frameTotal);
      ToFixed2(barWidth / frameTotal as real)
    case Multiple =>
      CeilSpans(barWidth, splitCount);
      Ceil(barWidth / splitCount as real) as real
  }

  /** `n` cells of width `Math.ceil(a / n)` cover `a`, with less than one unit per cell to spare. */
  lemma CeilSpans(a: real, n: int)
    requires n >= 1
    ensures a <= Ceil(a / n as real) as real * n as real < a + n as real
  {
    ScaledCeil(a, n as real, Ceil(a / n as real));
  }

  /** `s` cells of width `ceil(a / s)` cover `a`, with less than one unit per cell to spare. */
  lemma ScaledCeil(a: real, s: real, c: int)
    requires s > 0.0 && c as real - 1.0 < a / s <= c as real
    ensures a <= c as real * s < a + s
  {
    var x := a / s;
    var d := c as real - x;
    FractionScaled(d, s);
    var cs := c as real * s;
    assert d * s == cs - x * s;
    assert x * s == a;
  }

  /** A fraction of `s` stays below `s`. */
  lemma FractionScaled(d: real, s: real)
    requires s > 0.0 && 0.0 <= d < 1.0
    ensures 0.0 <= d * s < s
  {
    assert d * s < 1.0 * s;
  }

  /**
   * `frameWidth`, the width taken by one frame: a cell in single mode, and in
   * multiple mode the share of the `splitCount` cells that one of the
   * `frameTotal` frames gets.
   */
  function FrameWidth(mode: FrameMode, tickWidth: real, frameTotal: int, splitCount: int): (w: real)
    requires frameTotal >= 1
    ensures mode == Single ==> w == tickWidth
    ensures mode == Multiple ==> w * frameTotal as real == tickWidth * splitCount as real
  {
    match mode
    case Single => tickWidth
    case Multiple => tickWidth * (splitCount as real / frameTotal as real)
  }

  /**
   * `calculateFrameIndex`: the frame read off the hover mark while paused and
   * off the play mark otherwise.  Both modes divide by the frame width.
   */
  function CalculateFrameIndex(markLeft: real, markHoverLeft: real, isPause: bool, mode: FrameMode,
                               tickWidth: real, splitCount: int, frameTotal: int): int
    requires frameTotal >= 1 && FrameWidth(mode, tickWidth, frameTotal, splitCount) > 0.0
  {
    var shownLeft := if isPause then markHoverLeft else markLeft;
    CellNumber(shownLeft, FrameWidth(mode, tickWidth, frameTotal, splitCount))
  }

  /**
   * While playing, the tip reads back the frame the play mark was placed at,
   * provided one frame is at least a pixel wide.
   */
  lemma {:induction false} PlayingTipShowsCurrentFrame(frameIndex: int, markHoverLeft: real, mode: FrameMode,
                                                       tickWidth: real, splitCount: int, frameTotal: int)
    requires frameTotal >= 1 && FrameWidth(mode, tickWidth, frameTotal, splitCount) >= 1.0
    ensures CalculateFrameIndex(FrameLeft(frameIndex, FrameWidth(mode, tickWidth, frameTotal, splitCount)),
                                markHoverLeft, false, mode, tickWidth, splitCount, frameTotal) == frameIndex
  {
    CellNumberRoundTrip(frameIndex, FrameWidth(mode, tickWidth, frameTotal, splitCount));
  }

  /**
   * With 960 frames on a 920-pixel bar (a 1000-pixel parent less the 8% tail)
   * a cell is 0.96 pixels wide, and the tip at frame 1 reads 2.
   */
  lemma NarrowBarTipShowsNextFrame()
    ensures TickWidth(Single, 920.0, 960, DefaultSplitCount) == 0.96
    ensures CalculateFrameIndex(FrameLeft(1, 0.96), InitialMarkHoverLeft, false, Single, 0.96, DefaultSplitCount, 960) == 2
  {
    var x := 920.0 / 960.0;
    assert x * 100.0 + 0.5 == 96.0 + 1.0 / 3.0;
    assert RoundHalfUp(x * 100.0) == 96;
    NarrowCellOverCounts(1, 0.96);
    assert (0.0 + 1.0) / 0.96 <= 2.0;
  }

  /** What one call of `handleMouseEventForMark` does to the state. */
  datatype MarkUpdate = Unchanged | SetFrame(frameIndex: int) | SetHover(hoverLeft: real)

  /**
   * `handleMouseEventForMark`.  The switch falls through: `move` and `hover`
   * give up on an overflow, and only `down` reaches the clamping to the first
   * or last frame.  Inside the bounds, `down` and `move` select the frame
   * whose span `(FrameLeft(i), FrameLeft(i + 1)]` holds the cursor offset, and
   * `hover` places the hover mark (snapped to that frame's left edge in
   * single mode, at the cursor in multiple mode), never outside the content.
   */
  function MarkEventUpdate(mode: MouseMode, frameMode: FrameMode, cursorLeft: real, contentLeft: real,
                           contentWidth: real, frameWidth: real, frameTotal: int): (u: MarkUpdate)
    requires frameWidth > 0.0
    ensures (mode == Down && OverflowLeft(cursorLeft, contentLeft, frameWidth)) ==> u == SetFrame(1)
    ensures (mode == Down && !OverflowLeft(cursorLeft, contentLeft, frameWidth)
             && OverflowRight(cursorLeft, contentLeft, contentWidth, frameWidth)) ==> u == SetFrame(frameTotal)
    ensures (mode != Down && (OverflowLeft(cursorLeft, contentLeft, frameWidth)
             || OverflowRight(cursorLeft, contentLeft, contentWidth, frameWidth))) ==> u == Unchanged
    ensures (mode != Hover && !OverflowLeft(cursorLeft, contentLeft, frameWidth)
             && !OverflowRight(cursorLeft, contentLeft, contentWidth, frameWidth)) ==>
              u.SetFrame? && u.frameIndex >= 1
              && FrameLeft(u.frameIndex, frameWidth) < cursorLeft - contentLeft <= FrameLeft(u.frameIndex + 1, frameWidth)
    ensures (mode == Hover && !OverflowLeft(cursorLeft, contentLeft, frameWidth)
             && !OverflowRight(cursorLeft, contentLeft, contentWidth, frameWidth)) ==>
              u.SetHover? && 0.0 <= u.hoverLeft <= contentWidth
              && (frameMode == Multiple ==> u.hoverLeft == cursorLeft - contentLeft)
              && (frameMode == Single ==> u.hoverLeft < cursorLeft - contentLeft <= u.hoverLeft + frameWidth)
    ensures mode == Down ==> u.SetFrame?
  {
    var isOverflowLeft := OverflowLeft(cursorLeft, contentLeft, frameWidth);
    var isOverflowRight := OverflowRight(cursorLeft, contentLeft, contentWidth, frameWidth);
    if mode != Down && (isOverflowLeft || isOverflowRight) then Unchanged  // case 'move': case 'hover':
    else if isOverflowLeft then SetFrame(1)
    else if isOverflowRight then SetFrame(frameTotal)
    else
      var offsetLeft := cursorLeft - contentLeft;
      var offsetCount := OffsetCount(offsetLeft, frameWidth);
      if mode != Hover then SetFrame(SnappedFrame(offsetCount, frameWidth))
      else if frameMode == Single then SetHover(FrameLeft(offsetCount, frameWidth))
      else SetHover(offsetLeft)
  }

  /** `Math.ceil(offsetLeft / frameWidth)`: the frame whose span holds a positive offset. */
  function OffsetCount(offsetLeft: real, frameWidth: real): (count: int)
    requires frameWidth > 0.0
    ensures offsetLeft > 0.0 ==> count >= 1
    ensures FrameLeft(count, frameWidth) < offsetLeft <= FrameLeft(count + 1, frameWidth)
  {
    var q := offsetLeft / frameWidth;
    var c := Ceil(q);
    assert q * frameWidth == offsetLeft;
    assert (c - 1) as real * frameWidth < q * frameWidth;
    assert q * frameWidth <= c as real * frameWidth;
    c
  }

  /** Multiplying a count by a positive width and dividing by it again gives the count back. */
  lemma ProductQuotient(count: int, width: real)
    requires width > 0.0
    ensures count as real * width / width == count as real
  {
  }

  /** `Number((offsetCount * frameWidth / frameWidth).toFixed(0))`, which is `offsetCount` again. */
  function SnappedFrame(offsetCount: int, frameWidth: real): (frameIndex: int)
    requires frameWidth > 0.0
    ensures frameIndex == offsetCount
  {
    var x := offsetCount as real * frameWidth / frameWidth;
    assert x == offsetCount as real;
    ToFixed0(x)
  }

  /**
   * Hovering and pressing at the same cursor position agree: in single mode
   * the hover mark sits on the left edge of the frame a press selects, and
   * in multiple mode it lies inside that frame's span.
   */
  lemma {:induction false} HoverMarksSelectedFrame(frameMode: FrameMode, cursorLeft: real, contentLeft: real,
                                                   contentWidth: real, frameWidth: real, frameTotal: int)
    requires frameWidth > 0.0
    requires !OverflowLeft(cursorLeft, contentLeft, frameWidth)
    requires !OverflowRight(cursorLeft, contentLeft, contentWidth, frameWidth)
    ensures var hover := MarkEventUpdate(Hover, frameMode, cursorLeft, contentLeft, contentWidth, frameWidth, frameTotal);
            var press := MarkEventUpdate(Down, frameMode, cursorLeft, contentLeft, contentWidth, frameWidth, frameTotal);
            && (frameMode == Single ==> hover.hoverLeft == FrameLeft(press.frameIndex, frameWidth))
            && (frameMode == Multiple ==>
                  FrameLeft(press.frameIndex, frameWidth) < hover.hoverLeft <= FrameLeft(press.frameIndex + 1, frameWidth))
  {
    var count := OffsetCount(cursorLeft - contentLeft, frameWidth);
    assert MarkEventUpdate(Down, frameMode, cursorLeft, contentLeft, contentWidth, frameWidth, frameTotal) == SetFrame(count);
  }

  /**
   * When the content is no wider than `frameTotal` frames, every frame a
   * pointer event selects lies in `[1, frameTotal]`.
   */
  lemma {:induction false} SelectedFrameInRange(mode: MouseMode, frameMode: FrameMode, cursorLeft: real, contentLeft: real,
                                                contentWidth: real, frameWidth: real, frameTotal: int)
    requires frameWidth > 0.0 && frameTotal >= 1
    requires contentWidth <= frameTotal as real * frameWidth
    ensures var u := MarkEventUpdate(mode, frameMode, cursorLeft, contentLeft, contentWidth, frameWidth, frameTotal);
            u.SetFrame? ==> 1 <= u.frameIndex <= frameTotal
  {
    var u := MarkEventUpdate(mode, frameMode, cursorLeft, contentLeft, contentWidth, frameWidth, frameTotal);
    if u.SetFrame? && !OverflowLeft(cursorLeft, contentLeft, frameWidth)
       && !OverflowRight(cursorLeft, contentLeft, contentWidth, frameWidth) {
      var i := u.frameIndex;
      assert FrameLeft(frameTotal + 1, frameWidth) == frameTotal as real * frameWidth;
      if i > frameTotal + 1 {
        FrameLeftStrictlyIncreasing(frameTotal + 1, i, frameWidth);
      }
    }
  }

  /** The closure a running `setInterval` callback holds: the props and state it read when `handlePlay` ran. */
  datatype Interval = Interval(frameTotal: int, loop: bool, frameRate: real)

  /** The interval callback pauses playback: it is at its last frame and not looping. */
  predicate PlaybackHalts(prev: int, timer: Interval)
  {
    prev == timer.frameTotal && !timer.loop
  }

  /**
   * The frame index one firing of the interval callback leaves behind.  Below
   * the last frame it advances by one; at the last frame it wraps to 1 when
   * looping and stays otherwise; a valid index stays valid.
   */
  function PlaybackStep(prev: int, timer: Interval): (next: int)
    ensures prev != timer.frameTotal ==> next == prev + 1
    ensures prev == timer.frameTotal ==> next == (if timer.loop then 1 else prev)
    ensures prev >= 1 ==> next >= 1
    ensures 1 <= prev <= timer.frameTotal ==> 1 <= next <= timer.frameTotal
  {
    if prev == timer.frameTotal then
      if timer.loop then 1 else prev
    else prev + 1
  }

  /** The frame index after `n` firings of one interval; once it has paused no firing follows. */
  function Played(start: int, timer: Interval, n: nat): int
    decreases n
  {
    if n == 0 || PlaybackHalts(start, timer) then start
    else Played(PlaybackStep(start, timer), timer, n - 1)
  }

  /** Looping playback from any valid frame cycles through the frames in order. */
  lemma {:induction false} LoopingPlaybackCycles(start: int, timer: Interval, n: nat)
    requires timer.loop && 1 <= start <= timer.frameTotal
    ensures Played(start, timer, n) == (start - 1 + n) % timer.frameTotal + 1
    decreases n
  {
    var total := timer.frameTotal;
    if n == 0 {
      ModUnique(start - 1, total, 0, start - 1);
    } else {
      var next := PlaybackStep(start, timer);
      LoopingPlaybackCycles(next, timer, n - 1);
      if start == total {
        var a := n - 1;
        ModUnique(a, total, a / total, a % total);
        ModUnique(a + total, total, a / total + 1, a % total);
      }
    }
  }

  /** The remainder is determined by any quotient-remainder decomposition. */
  lemma ModUnique(a: int, m: int, q: int, r: int)
    requires m >= 1 && a == q * m + r && 0 <= r < m
    ensures a % m == r
  {
    var d := q - a / m;
    assert d * m == a % m - r;
  }

  /** Playback without looping advances one frame per firing and stops at the last frame. */
  lemma {:induction false} OneShotPlaybackStops(start: int, timer: Interval, n: nat)
    requires !timer.loop && 1 <= start <= timer.frameTotal
    ensures Played(start, timer, n) == if start + n < timer.frameTotal then start + n else timer.frameTotal
    decreases n
  {
    if n > 0 && start < timer.frameTotal {
      OneShotPlaybackStops(start + 1, timer, n - 1);
    }
  }

  /** `handlePrev`'s update: stays at frame 1, otherwise one frame back. */
  function PrevFrame(frameIndex: int): (r: int)
    ensures frameIndex >= 1 ==> 1 <= r <= frameIndex
    ensures frameIndex - 1 <= r
    ensures r == frameIndex <==> frameIndex == 1
  {
    if frameIndex == 1 then frameIndex else frameIndex - 1
  }

  /** `handleNext`'s update: stays at the last frame, otherwise one frame on. */
  function NextFrame(frameIndex: int, frameTotal: int): (r: int)
    ensures frameIndex <= frameTotal ==> frameIndex <= r <= frameTotal
    ensures r <= frameIndex + 1
    ensures r == frameIndex <==> frameIndex == frameTotal
  {
    if frameIndex == frameTotal then frameIndex else frameIndex + 1
  }

  function PrevTimes(frameIndex: int, n: nat): int
    decreases n
  {
    if n == 0 then frameIndex else PrevTimes(PrevFrame(frameIndex), n - 1)
  }

  function NextTimes(frameIndex: int, frameTotal: int, n: nat): int
    decreases n
  {
    if n == 0 then frameIndex else NextTimes(NextFrame(frameIndex, frameTotal), frameTotal, n - 1)
  }

  /** Pressing "previous" `n` times from a valid frame goes `n` frames back, but not below frame 1. */
  lemma {:induction false} PrevTimesFloorsAtFirst(frameIndex: int, n: nat)
    requires frameIndex >= 1
    ensures PrevTimes(frameIndex, n) == if frameIndex - n > 1 then frameIndex - n else 1
    decreases n
  {
    if n > 0 {
      PrevTimesFloorsAtFirst(PrevFrame(frameIndex), n - 1);
    }
  }

  /** Pressing "next" `n` times from a valid frame goes `n` frames on, but not past the last frame. */
  lemma {:induction false} NextTimesCapsAtLast(frameIndex: int, frameTotal: int, n: nat)
    requires 1 <= frameIndex <= frameTotal
    ensures NextTimes(frameIndex, frameTotal, n) == if frameIndex + n < frameTotal then frameIndex + n else frameTotal
    decreases n
  {
    if n > 0 {
      NextTimesCapsAtLast(NextFrame(frameIndex, frameTotal), frameTotal, n - 1);
    }
  }

  /**
   * Width of the mark box (`markStyle`): a cell in single mode, the middle
   * line in multiple mode.
   */
  function MarkBoxWidth(mode: FrameMode, tickWidth: real, markMiddleWidth: real): real
  {
    match mode
    case Single => tickWidth
    case Multiple => markMiddleWidth
  }

  /**
   * `left` of the tip (`tipStyle`): the tip is centred on the mark box of the
   * hover mark while paused and of the play mark otherwise.
   */
  function TipLeft(markLeft: real, markHoverLeft: real, isPause: bool, tipWidth: real, tickWidth: real,
                   mode: FrameMode, markMiddleWidth: real): real
  {
    var shownLeft := if isPause then markHoverLeft else markLeft;
    shownLeft - tipWidth / 2.0 + MarkBoxWidth(mode, tickWidth, markMiddleWidth) / 2.0
  }

  /**
   * In single mode on cells at least one pixel wide, with the shown mark (the
   * hover mark while paused, the play mark otherwise) on frame `i`'s left
   * edge, the tip is centred strictly inside the cell of the frame it shows.
   */
  lemma {:induction false} TipCentredOnShownFrame(i: int, markLeft: real, markHoverLeft: real, isPause: bool,
                                                  tipWidth: real, tickWidth: real, markMiddleWidth: real,
                                                  splitCount: int, frameTotal: int)
    requires frameTotal >= 1 && tickWidth >= 1.0
    requires (if isPause then markHoverLeft else markLeft) == FrameLeft(i, tickWidth)
    ensures var shown := CalculateFrameIndex(markLeft, markHoverLeft, isPause, Single, tickWidth, splitCount, frameTotal);
            var centre := TipLeft(markLeft, markHoverLeft, isPause, tipWidth, tickWidth, Single, markMiddleWidth) + tipWidth / 2.0;
            FrameLeft(shown, tickWidth) < centre < FrameLeft(shown + 1, tickWidth)
  {
    CellNumberRoundTrip(i, tickWidth);
    assert FrameLeft(i + 1, tickWidth) == FrameLeft(i, tickWidth) + tickWidth;
  }

  /**
   * `handleBeforeConfirm`: the value the callback is called with, or `None`
   * when it is not called.  It is called exactly when a value is present and
   * at least `min`, and then with that value.
   */
  function BeforeConfirm(value: Option<real>, min: real): (arg: Option<real>)
    ensures arg.Some? <==> value.Some? && value.value >= min
    ensures arg.Some? ==> arg == value
  {
    if value.None? then None
    else if value.value < min then None
    else value
  }

  /** Item `v` is the last one in `items` whose key is `k`. */
  ghost predicate LastWithKey<K, V>(items: seq<V>, key: V -> K, k: K, v: V)
  {
    exists i :: 0 <= i < |items| && items[i] == v && key(v) == k
      && forall j :: i < j < |items| ==> key(items[j]) != k
  }

  /** `arrToMap`: a map from each item's key to an item, built left to right. */
  function ArrToMap<K, V>(items: seq<V>, key: V -> K): map<K, V>
    decreases |items|
  {
    if |items| == 0 then map[]
    else ArrToMap(items[..|items| - 1], key)[key(items[|items| - 1]) := items[|items| - 1]]
  }

  /**
   * The map `arrToMap` builds holds the key of every item and no other key,
   * and maps each key to the last item carrying it: a later item with the
   * same key overwrites an earlier one.
   */
  lemma {:induction false} ArrToMapLastWins<K, V>(items: seq<V>, key: V -> K)
    ensures forall i :: 0 <= i < |items| ==> key(items[i]) in ArrToMap(items, key)
    ensures forall k :: k in ArrToMap(items, key) ==> LastWithKey(items, key, k, ArrToMap(items, key)[k])
    decreases |items|
  {
    if |items| > 0 {
      var n := |items| - 1;
      var prefix := items[..n];
      ArrToMapLastWins(prefix, key);
      var m0 := ArrToMap(prefix, key);
      var m := ArrToMap(items, key);
      assert m == m0[key(items[n]) := items[n]];
      forall i | 0 <= i < |items|
        ensures key(items[i]) in m
      {
        if i < n {
          assert items[i] == prefix[i];
        }
      }
      forall k | k in m
        ensures LastWithKey(items, key, k, m[k])
      {
        if k == key(items[n]) {
          assert items[n] == m[k];
        } else {
          assert LastWithKey(prefix, key, k, m0[k]);
          var i :| 0 <= i < n && prefix[i] == m0[k] && key(m0[k]) == k
                   && forall j :: i < j < n ==> key(prefix[j]) != k;
          assert items[i] == m[k];
          forall j | i < j < |items|
            ensures key(items[j]) != k
          {
            if j < n {
              assert items[j] == prefix[j];
            }
          }
        }
      }
    }
  }
}
