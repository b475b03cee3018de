# Frame scrubber model

This project models the two scrubber widgets of a React demo application in Dafny.

- **PlayerBar** (`src/components/PlayerBar/index.tsx`) is a bar of cells with a play mark and a hover mark. It steps back and forward, plays frames on a repeating timer, and is moved by pressing, dragging and hovering.
- **TimeBar** (`src/components/TimeBar/index.tsx`) is its earlier version: one mark moved by pressing and dragging, with a tip showing the cell the mark is on.

Pixel offsets are exact rationals (`real`). `Math.ceil`, `Math.floor` and `toFixed` are written out exactly.

Files:

- `wrappers.dfy`: `Option`, used for optional props and absent values.
- `timeline.dfy` (module `Timeline`): arithmetic the two widgets share.
  - JavaScript rounding: `Ceil`, `ToFixed0`, `ToFixed2`.
  - The left edge of a frame: `FrameLeft`.
  - The tip's reading of a mark, `CellNumber`, which is `ceil((left + 1) / width)`.
  - The reading it is meant to give, `CellIndex`.
  - The overflow tests of the mouse handlers.
- `player_bar_calc.dfy` (module `PlayerBarCalc`): the PlayerBar code that consists of expressions.
  - The derived widths.
  - The frame read off a mark.
  - The effect of one mouse event on the marks.
  - One firing of the timer.
  - The prev and next steps and the tip position.
  - `arrToMap` and `handleBeforeConfirm`.
- `player_bar.dfy` (module `PlayerBarComponent`): `class PlayerBar`.
  - Its fields are the component's state, its changeable props and the timer ref.
  - Each method is one handler followed by the React render and commit it causes. The effects whose dependencies changed run in declaration order, with the values of their render. An effect that sets state causes one more render and commit.
  - A render is `Render`. `useState(calculateMarkLeft(...))` at `index.tsx:434` evaluates its argument on every render. In multiple mode with `isClickForSet` set, that call clears the flag, and React renders again before it commits. So no effect sees the flag set in multiple mode, and the branch of `calculateMarkLeft` that returns `markHoverLeft` (`index.tsx:297-300`) is never taken by the effect at `index.tsx:468-474`. `Valid()` records this: in multiple mode the flag is clear. After every commit that moves the frame, the play mark is on that frame's left edge.
- `time_bar.dfy` (module `TimeBarComponent`): the TimeBar functions and `class TimeBar`.

Two points about the timer in the model:

- The timer ref holds an `Interval`: the frame total, loop flag and frame rate that the callback closed over when `handlePlay` ran. `Tick` therefore uses those values, which may be stale, exactly as the closure does.
- Between `handlePlay` and the first firing the bar still reads as paused. A change of settings in that window does not restart the timer. A frame that a stale timer moves past a shrunken total is then clamped back by the effect.

Behaviour of the code that the model keeps:

- The tip's `ceil((left + 1) / width)` reads a frame's left edge back as that frame only on cells at least one pixel wide (see Findings).
- Positions past the ends of the content:
  - In PlayerBar, a drag or hover past either end is ignored. Only a press is clamped, to the first or last frame.
  - A selected frame beyond `frameTotal` is possible when the content is wider than the frames. The effect at `index.tsx:468-474` then clamps it.
  - In TimeBar, a press past the left end sets the mark to 0, and a press past the right end sets it to `contentWidth - markWidth`. A press inside the content in single mode snaps to a whole number of marks, which can lie past `contentWidth - markWidth` when the content is not a whole number of marks wide.
- Playback halts at the `frameTotal` the timer closed over, which may differ from the current one.

## Model

| member | source | states |
|---|---|---|
| Timeline.Ceil | src/components/PlayerBar/index.tsx:322 | `Math.ceil`: the least integer at or above its argument |
| Timeline.RoundHalfUp | src/components/PlayerBar/index.tsx:406 | rounding to the nearest integer, ties upwards, as `toFixed` does for non-negative values |
| Timeline.ToFixed0 | src/components/PlayerBar/index.tsx:536 | `Number(x.toFixed(0))` is within 0.5 of `x` and leaves whole numbers unchanged |
| Timeline.ToFixed2 | src/components/PlayerBar/index.tsx:406 | `Number(x.toFixed(2))` is a whole number of hundredths within 0.005 of `x`, and keeps a non-negative value non-negative |
| Timeline.ToFixed2Spans | src/components/TimeBar/index.tsx:148 | `n` cells of width `(a / n).toFixed(2)` add up to `a` give or take 0.005 per cell |
| Timeline.FrameLeft | src/components/PlayerBar/index.tsx:307-311 | frame 1 starts at offset 0, and on positive widths an offset is non-negative exactly for frames from 1 on |
| Timeline.FrameLeftStrictlyIncreasing | src/components/PlayerBar/index.tsx:307-311 | the frame-to-offset map is strictly increasing, one frame width per frame |
| Timeline.CellNumberRoundTrip | src/components/PlayerBar/index.tsx:322 | on cells at least one pixel wide, `ceil((left + 1) / width)` of a frame's left edge gives back that frame |
| Timeline.NarrowCellOverCounts | src/components/PlayerBar/index.tsx:322 | on cells narrower than one pixel, the same reading of any frame's left edge is a later frame |
| Timeline.CellIndex | src/components/TimeBar/index.tsx:126-127 | the reading the `+ 1` is meant to give: the frame whose span `[left edge, next left edge)` holds the offset |
| Timeline.CellIndexRoundTrip | src/components/TimeBar/index.tsx:126-127 | the intended reading gives back every frame on cells of any positive width |
| Timeline.ShownTip | src/components/PlayerBar/index.tsx:260 | `tipValue \|\| '1'` shows 1 for a tip value of 0 and every other value as it is |
| PlayerBarCalc.FrameModeFor | src/components/PlayerBar/index.tsx:394 | single mode exactly when `frameTotal` is below 1000 |
| PlayerBarCalc.TickWidth | src/components/PlayerBar/index.tsx:406-407 | single mode: `frameTotal` cells span the bar to within 0.005 each; multiple mode: a whole number of pixels, with `splitCount` cells covering the bar and less than a pixel per cell to spare |
| PlayerBarCalc.CeilSpans | src/components/PlayerBar/index.tsx:407 | `n` cells of width `ceil(a / n)` cover `a`, with less than one unit per cell to spare |
| PlayerBarCalc.FrameWidth | src/components/PlayerBar/index.tsx:410-414 | a frame is one cell in single mode; in multiple mode `frameTotal` frames take up the `splitCount` cells |
| PlayerBarCalc.PlayingTipShowsCurrentFrame | src/components/PlayerBar/index.tsx:316-330 | while playing, the tip reads back the frame the play mark was placed at, if a frame is at least one pixel wide |
| PlayerBarCalc.NarrowBarTipShowsNextFrame | src/components/PlayerBar/index.tsx:316-330 | 960 frames on a 920-pixel bar give 0.96-pixel cells, and the tip at frame 1 reads 2 |
| PlayerBarCalc.MarkEventUpdate | src/components/PlayerBar/index.tsx:507-546 | a press past an end selects frame 1 or `frameTotal`; a drag or hover past an end changes nothing; inside, a press or drag selects the frame whose span holds the cursor offset, and a hover places the hover mark inside the content at that frame's left edge (single mode) or at the cursor (multiple mode) |
| PlayerBarCalc.OffsetCount | src/components/PlayerBar/index.tsx:532 | `ceil(offset / frameWidth)` is the frame whose span `(left edge, next left edge]` holds the offset, and at least 1 for a positive offset |
| PlayerBarCalc.SnappedFrame | src/components/PlayerBar/index.tsx:535-536 | snapping the offset to the frame's right edge and reading back with `toFixed(0)` gives the same frame count |
| PlayerBarCalc.HoverMarksSelectedFrame | src/components/PlayerBar/index.tsx:531-545 | at one cursor position the hover mark sits on the left edge of the frame a press would select (single mode) or within its span (multiple mode) |
| PlayerBarCalc.SelectedFrameInRange | src/components/PlayerBar/index.tsx:512-537 | when the content is no wider than `frameTotal` frames, every frame a mouse event selects lies in `[1, frameTotal]` |
| PlayerBarCalc.PlaybackStep | src/components/PlayerBar/index.tsx:554-563 | one firing advances by exactly 1 below the last frame; at it, it goes to 1 when looping and stays put otherwise; a valid frame stays valid |
| PlayerBarCalc.LoopingPlaybackCycles | src/components/PlayerBar/index.tsx:552-564 | `n` looping firings from frame `s` reach frame `(s - 1 + n) mod frameTotal + 1` |
| PlayerBarCalc.OneShotPlaybackStops | src/components/PlayerBar/index.tsx:552-564 | `n` firings without looping reach `min(s + n, frameTotal)` and then stop |
| PlayerBarCalc.PrevFrame | src/components/PlayerBar/index.tsx:577-582 | frame 1 is left as it is, any other frame goes back by exactly 1, and a valid frame never drops below 1 |
| PlayerBarCalc.NextFrame | src/components/PlayerBar/index.tsx:584-589 | the last frame is left as it is, any other frame goes on by exactly 1, and a valid frame never passes `frameTotal` |
| PlayerBarCalc.PrevTimesFloorsAtFirst | src/components/PlayerBar/index.tsx:577-582 | `n` presses of "previous" from frame `i` reach `max(i - n, 1)` |
| PlayerBarCalc.NextTimesCapsAtLast | src/components/PlayerBar/index.tsx:584-589 | `n` presses of "next" from frame `i` reach `min(i + n, frameTotal)` |
| PlayerBarCalc.TipCentredOnShownFrame | src/components/PlayerBar/index.tsx:218-224 | in single mode on cells at least one pixel wide, with the hover mark (paused) or the play mark (playing) on a frame's left edge, the tip's centre lies strictly inside the cell of the frame the tip shows |
| PlayerBarCalc.BeforeConfirm | src/components/PlayerBar/index.tsx:595-601 | the callback is called exactly when a value is present and at least `min`, and then with that value |
| PlayerBarCalc.ArrToMapLastWins | src/components/PlayerBar/index.tsx:345-351 | the map holds the key of every item and no other key, each mapped to the last item with that key |
| PlayerBarComponent.PlayerBar.constructor | src/components/PlayerBar/index.tsx:355-461 | after mounting: frame 1, paused, looping, no timer, no mouse flags, mode from `frameTotal`, bar width the parent's width less the tail share, play mark at 0, hover mark at 60, absent props take their defaults |
| PlayerBarComponent.PlayerBar.FrameMarkLeft | src/components/PlayerBar/index.tsx:307-311 | the current frame's left edge in a given mode: 0 for frame 1, never negative on positive frame widths |
| PlayerBarComponent.PlayerBar.MarkLeftIn | src/components/PlayerBar/index.tsx:281-314 | the offset `calculateMarkLeft` returns: `markHoverLeft` when the flag is set in multiple mode, which no effect reaches since `Render` clears it; otherwise the current frame's left edge |
| PlayerBarComponent.PlayerBar.CalculateMarkLeft | src/components/PlayerBar/index.tsx:281-314 | returns that offset, and consumes a pending hover flag in multiple mode only |
| PlayerBarComponent.PlayerBar.Render | src/components/PlayerBar/index.tsx:297-298 | a render leaves `isClickForSet` set only in single mode, because the call at line 434 clears it in multiple mode |
| PlayerBarComponent.PlayerBar.FrameIndexEffect | src/components/PlayerBar/index.tsx:468-474 | a frame past `frameTotal` is set to `frameTotal` with the mark untouched; otherwise the mark is placed |
| PlayerBarComponent.PlayerBar.Commit | src/components/PlayerBar/index.tsx:468-474 | after a handler and its render, the frame ends clamped into `[1, frameTotal]`, the flag is clear in multiple mode, and the play mark moves to the frame's left edge exactly when the frame changed |
| PlayerBarComponent.PlayerBar.Prev | src/components/PlayerBar/index.tsx:577-582 | the frame becomes `PrevFrame` of the old one, the invariant holds, and the mark follows a changed frame |
| PlayerBarComponent.PlayerBar.Next | src/components/PlayerBar/index.tsx:584-589 | the frame becomes `NextFrame` of the old one, the invariant holds, and the mark follows a changed frame |
| PlayerBarComponent.PlayerBar.Tick | src/components/PlayerBar/index.tsx:552-563 | the frame becomes `PlaybackStep` under the timer's captured settings, clamped to the current total; the bar plays on, or at the captured end without looping it pauses with no timer and the frame unchanged; the invariant holds |
| PlayerBarComponent.PlayerBar.Play | src/components/PlayerBar/index.tsx:549-567 | with a timer already held nothing changes; otherwise a timer over the current total, loop flag and rate is held |
| PlayerBarComponent.PlayerBar.Pause | src/components/PlayerBar/index.tsx:569-575 | the timer is dropped and the bar is paused |
| PlayerBarComponent.PlayerBar.PlaybackSettingsEffect | src/components/PlayerBar/index.tsx:476-482 | while paused nothing changes; while playing the timer is replaced by one over the current settings and the bar reads as paused |
| PlayerBarComponent.PlayerBar.ToggleLoop | src/components/PlayerBar/index.tsx:672 | the loop flag flips, then the playback settings effect runs |
| PlayerBarComponent.PlayerBar.SetFrameRate | src/components/PlayerBar/index.tsx:476-482 | a changed rate restarts a running timer at that rate; an unchanged rate changes nothing |
| PlayerBarComponent.PlayerBar.SetFrameTotal | src/components/PlayerBar/index.tsx:463-482 | the frame is clamped to the new total and the mode follows it; the play mark moves to the frame's left edge measured with the old mode, or with the new mode when the frame was clamped; a switch to multiple mode clears `isClickForSet`; a running timer restarts over the new total |
| PlayerBarComponent.PlayerBar.SetParentWidth | src/components/PlayerBar/index.tsx:458-461 | a changed parent width sets the bar to `(100 - tailWidthPercent)%` of it, and a changed bar width places the mark again |
| PlayerBarComponent.PlayerBar.HandleMouseEventForMark | src/components/PlayerBar/index.tsx:507-546 | the state change is exactly the `MarkEventUpdate` for the current frame width |
| PlayerBarComponent.PlayerBar.MarkEventWith | src/components/PlayerBar/index.tsx:511-546 | the fall-through switch and placement, for a given frame width, make the `MarkEventUpdate` change |
| PlayerBarComponent.PlayerBar.MouseDown | src/components/PlayerBar/index.tsx:493-496 | the mouse is down, the pressed frame is selected and committed, and the hover mark stays |
| PlayerBarComponent.PlayerBar.MouseMove | src/components/PlayerBar/index.tsx:498-504 | the bar is hovered, the hover mark follows the cursor, and only while the mouse is down the frame under the cursor is selected, in one commit; the hover flag survives that commit in single mode only, and a moved play mark sits on the selected frame's left edge |
| PlayerBarComponent.PlayerBar.MouseUp | src/components/PlayerBar/index.tsx:484-486 | the mouse-down flag is cleared |
| PlayerBarComponent.PlayerBar.MouseLeave | src/components/PlayerBar/index.tsx:488-491 | the mouse-down and hover flags are cleared |
| TimeBarComponent.FrameModeFor | src/components/TimeBar/index.tsx:147 | multiple mode exactly when `total` exceeds `frameMax` |
| TimeBarComponent.TickWidth | src/components/TimeBar/index.tsx:148 | `total` cells span the bar to within 0.005 each, and the width is non-negative for a non-negative bar |
| TimeBarComponent.MarkLeftUpdate | src/components/TimeBar/index.tsx:185-214 | a press past the left end sets 0 and past the right end `contentWidth - markWidth`; a drag past either end sets nothing; inside, the mark snaps to the left edge of the cell under the cursor (single mode, a non-negative whole multiple of the mark width not beyond the cursor) or is centred on the cursor within `[0, contentWidth - markWidth]` (multiple mode) |
| TimeBarComponent.MarkStaysOnContent | src/components/TimeBar/index.tsx:190-213 | a press or drag never puts the mark off the content, given a mark no wider than the content and, in single mode, content a whole number of marks wide |
| TimeBarComponent.TipOfCell | src/components/TimeBar/index.tsx:126-127 | a mark `k` cells from the start has tip `k + 1` on cells at least one pixel wide |
| TimeBarComponent.TipShowsCellUnderCursor | src/components/TimeBar/index.tsx:127 | in single mode, after a press or drag inside the content with a mark one cell wide, the tip shows the cell under the cursor, on cells at least one pixel wide |
| TimeBarComponent.NarrowTimeBarTipShowsTwo | src/components/TimeBar/index.tsx:127 | a 50-pixel bar of 60 frames has 0.83-pixel cells and the tip of the mark at 0 reads 2 |
| TimeBarComponent.TipCentredOnShownCell | src/components/TimeBar/index.tsx:115-127 | on cells at least one pixel wide, the tip of a mark `k` cells in is centred strictly inside the cell whose number it shows |
| TimeBarComponent.TimeBar.constructor | src/components/TimeBar/index.tsx:142-146 | `total` and `frameMax` default to 60, the mark starts at 0 and the mouse is up |
| TimeBarComponent.TimeBar.HandleMouseEventForMark | src/components/TimeBar/index.tsx:185-214 | the mark offset becomes the one `MarkLeftUpdate` gives, or stays when it gives none |
| TimeBarComponent.TimeBar.TipValueNamesCell | src/components/TimeBar/index.tsx:127-137 | with the mark `k >= 0` cells in and cells at least one pixel wide, `tipValue` and the number displayed, `tipValue \|\| "1"`, are both `k + 1` |
| TimeBarComponent.TimeBar.MouseDown | src/components/TimeBar/index.tsx:158-169 | the mouse is down and the mark moves as for a press |
| TimeBarComponent.TimeBar.MouseMove | src/components/TimeBar/index.tsx:171-182 | nothing changes unless the mouse is down; then the mark moves as for a drag |
| TimeBarComponent.TimeBar.MouseUp | src/components/TimeBar/index.tsx:150-152 | the mouse-down flag is cleared |
| TimeBarComponent.TimeBar.MouseLeave | src/components/TimeBar/index.tsx:154-156 | the mouse-down flag is cleared |

## Left out

- Rendering is not modelled: the style builders, the JSX, antd widgets, the tooltip with review counts, the dropdown, the volume slider and full screen. Only the tip position and the tip's number are modelled.
- `calculateTime` is left out. It relies on the dayjs duration plugin, which is not part of this model, and on floating-point seconds.
- The parent callbacks `seekToFrame`, `onStart`, `onPause`, `onPlaybackRateChange` and `onSetFrameRate` are left out. They are calls into code outside the component and change none of its state. A new frame rate arrives as the `SetFrameRate` prop change.
- Timer timing is abstracted. `setInterval` and its `1000 / frameRate` period become the captured `Interval` value. One firing becomes one `Tick` call.
- IEEE-754 rounding is not modelled. Pixel values are exact rationals, and `toFixed` is modelled as exact decimal rounding.
- JavaScript coercions are not modelled: NaN and Infinity from a division by zero.
  - PlayerBar requires `frameTotal >= 1` and `splitCount >= 1`. Its mouse handlers require a positive frame width.
  - TimeBar requires `total >= 1`. In single mode it requires a positive rendered mark width.
- DOM measurements are parameters: `pageX`, `offsetLeft` and `offsetWidth`. TimeBar's rendered mark width is not derived from its CSS width.
- PlayerBar's `dataSource`, `onLoad`, `onFrameIndexChange` and `dropdownOpen` are not modelled. They feed only the rendering or nothing at all.
- `frameRateInput` is not a field. It is the value the confirm handlers (`index.tsx:723-727`, `:742-746`) check with `handleBeforeConfirm` before passing it to `onSetFrameRate`. PlayerBarCalc.BeforeConfirm takes it as `value`, and None stands for its initial `null` (`index.tsx:396`).
- TimeBar's props `total`, `frameMax` and `width` are constants of the object. TimeBar has no effects, so a prop change would only change what the next render derives.
- React's double invocation of state updaters in strict mode is not modelled.
- The rendered component has no caller for most playback handlers. The model keeps them as operations of the class, so what it proves about them holds for any caller the code may gain.
  - The play/pause icons (`index.tsx:633-637`) are commented out, and so are the prev, next and loop icons (`index.tsx:657-677`).
  - So `handlePlay`, `handlePrev` and `handleNext` are never called from the rendered component, and `isLoop` stays true.
  - `handlePause` is reached only from the settings effect (`index.tsx:476-482`) and from the timer at `index.tsx:558`. Both need a timer that has already fired.
  - PlayerBarComponent.PlayerBar.ToggleLoop models the commented-out loop button's `onClick`.
- PlayerBar's props `splitCount`, `markMiddleWidth` and `tailWidthPercent` are constants of the object. No operation models a change to them.
  - A changed `splitCount` would change `tickWidth` and `frameWidth` in the next render. It would not place the mark again, because the effect at `index.tsx:468-474` does not depend on it.
  - A changed `tailWidthPercent` would not change `barWidth` until `parentWidth` changes, because the width effect at `index.tsx:458-461` depends only on `parentWidth`.
- Several members that model source expressions carry no contract of their own. The lemmas in the table state what is proved about them.
  - PlayerBarCalc.CalculateFrameIndex (`index.tsx:316-330`): see PlayingTipShowsCurrentFrame, NarrowBarTipShowsNextFrame and TipCentredOnShownFrame.
  - PlayerBarCalc.TipLeft and PlayerBarCalc.MarkBoxWidth (`index.tsx:159-224`): see PlayerBarCalc.TipCentredOnShownFrame.
  - TimeBarComponent.TipLeft and TimeBarComponent.MarkBoxWidth (TimeBar `index.tsx:102-115`): see TimeBarComponent.TipCentredOnShownCell.
  - Timeline.CellNumber (`index.tsx:322`, TimeBar `index.tsx:127`): see CellNumberRoundTrip, NarrowCellOverCounts and TipOfCell.
  - Timeline.OverflowLeft and Timeline.OverflowRight (`index.tsx:512-513`, TimeBar `index.tsx:192-194`): see MarkEventUpdate and MarkLeftUpdate.
  - PlayerBarComponent.PlayerBar.CurrentTickWidth and PlayerBarComponent.PlayerBar.CurrentFrameWidth (`index.tsx:406-414`): they apply PlayerBarCalc.TickWidth and PlayerBarCalc.FrameWidth, which carry the contracts.
  - TimeBarComponent.TimeBar.Mode and TimeBarComponent.TimeBar.CurrentTickWidth (TimeBar `index.tsx:147-148`): they apply TimeBarComponent.FrameModeFor and TimeBarComponent.TickWidth, which carry the contracts.
  - PlayerBarCalc.ArrToMap (`index.tsx:345-351`): see PlayerBarCalc.ArrToMapLastWins.
  - PlayerBarCalc.PlaybackHalts (`index.tsx:555-558`): see PlayerBarCalc.PlaybackStep, PlayerBarCalc.OneShotPlaybackStops and PlayerBarComponent.PlayerBar.Tick.
- TimeBarComponent.TimeBar.TipValue carries no contract of its own. TimeBarComponent.TimeBar.TipValueNamesCell states what is proved about it.

## Findings

| source | as written | input that shows it | evidently intended | confidence | as-written member | corrected member |
|---|---|---|---|---|---|---|
| src/components/PlayerBar/index.tsx:322 | the tip reads a mark at `left` as frame `ceil((left + 1) / width)` | 960 frames on a 920-pixel bar (1000-pixel parent, 8% tail) give 0.96-pixel cells; the tip at frame 1 shows 2. TimeBar (`src/components/TimeBar/index.tsx:127`) reads 2 at the start of a 50-pixel bar of 60 frames. In multiple mode a frame is `ceil(barWidth / 20) * 20 / frameTotal` wide, 0.46 pixels for 2000 frames on 920 pixels, so the same over-count applies there | the frame whose cell holds `left`, `floor(left / width) + 1`, which gives back every frame for any cell width | not executed | Timeline.NarrowCellOverCounts | Timeline.CellIndexRoundTrip |
