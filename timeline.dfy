/**
 * Arithmetic shared by the two scrubber widgets (PlayerBar and its earlier
 * version TimeBar): a bar of equal cells, one per frame or one per block of
 * frames, a mark whose left offset says which frame is current, and the
 * JavaScript rounding the components apply.  Pixel offsets are exact
 * rationals (`real`); IEEE-754 rounding is not modelled.
 */
module Timeline {

  /** Whether one cell of the bar stands for one frame or for a block of frames. */
  datatype FrameMode = Single | Multiple

  /** The kind of pointer event a mark handler is called for. */
  datatype MouseMode = Down | Move | Hover

  /** `Math.ceil` on an exact rational. */
  function Ceil(x: real): (r: int)
    ensures r as real - 1.0 < x <= r as real
  {
    -((-x).Floor)
  }

  /** Rounding to the nearest integer, ties going up: how `toFixed` rounds a non-negative value. */
  function RoundHalfUp(x: real): (n: int)
    ensures n as real - 0.5 <= x < n as real + 0.5
  {
    (x + 0.5).Floor
  }

  /**
   * `Number(x.toFixed(0))`.  `toFixed` rounds the magnitude (ties away from
   * zero) and puts the sign back.
   */
  function ToFixed0(x: real): (n: int)
    ensures -0.5 <= x - n as real <= 0.5
    ensures x == x.Floor as real ==> n == x.Floor
  {
    if x < 0.0 then -RoundHalfUp(-x) else RoundHalfUp(x)
  }

  /** `Number(x.toFixed(2))`: the nearest multiple of 0.01, ties away from zero. */
  function ToFixed2(x: real): (r: real)
    ensures -0.005 <= x - r <= 0.005
    ensures (r * 100.0).Floor as real == r * 100.0
    ensures x >= 0.0 ==> r >= 0.0
  {
    var n := if x < 0.0 then -RoundHalfUp(-x * 100.0) else RoundHalfUp(x * 100.0);
    assert n as real - 0.5 <= x * 100.0 <= n as real + 0.5;
    assert x >= 0.0 ==> n >= 0;
    var r := Hundredths(n);
    assert (r * 100.0).Floor == n;
    r
  }

  /** `n` hundredths. */
  function Hundredths(n: int): (r: real)
    ensures r * 100.0 == n as real
  {
    n as real / 100.0
  }

  /** Left offset of frame `frameIndex` (counted from 1) on a bar whose frames are `frameWidth` pixels wide. */
  function FrameLeft(frameIndex: int, frameWidth: real): (left: real)
    ensures frameIndex == 1 ==> left == 0.0
    ensures frameWidth > 0.0 ==> (left >= 0.0 <==> frameIndex >= 1)
  {
    ProductSign(frameIndex - 1, frameWidth);
    (frameIndex - 1) as real * frameWidth
  }

  lemma ProductSign(k: int, w: real)
    ensures w > 0.0 ==> (k >= 0 <==> k as real * w >= 0.0)
  {
    if k < 0 && w > 0.0 {
      assert k as real * w <= -1.0 * w;
    }
  }

  /** Frames further right start further right, exactly one frame width per frame. */
  lemma FrameLeftStrictlyIncreasing(i: int, j: int, frameWidth: real)
    requires frameWidth > 0.0 && i < j
    ensures FrameLeft(j, frameWidth) - FrameLeft(i, frameWidth) == (j - i) as real * frameWidth
    ensures FrameLeft(i, frameWidth) < FrameLeft(j, frameWidth)
  {
    assert (j - 1) as real * frameWidth - (i - 1) as real * frameWidth == (j - i) as real * frameWidth;
    assert (j - i) as real * frameWidth >= 1.0 * frameWidth;
  }

  /**
   * The frame both components read off a mark at `left`:
   * `Math.ceil((left + 1) / cellWidth)`.  The `+ 1` is meant to make the left
   * edge of a cell count as part of that cell.
   */
  function CellNumber(left: real, cellWidth: real): int
    requires cellWidth > 0.0
  {
    Ceil((left + 1.0) / cellWidth)
  }

  lemma ShiftedQuotient(k: int, w: real)
    requires w > 0.0
    ensures (k as real * w + 1.0) / w == k as real + 1.0 / w
  {
  }

  /** On cells at least one pixel wide, reading a frame's left edge gives back that frame. */
  lemma {:induction false} CellNumberRoundTrip(frameIndex: int, cellWidth: real)
    requires cellWidth >= 1.0
    ensures CellNumber(FrameLeft(frameIndex, cellWidth), cellWidth) == frameIndex
  {
    var k := frameIndex - 1;
    ShiftedQuotient(k, cellWidth);
    var f := 1.0 / cellWidth;
    assert 0.0 < f <= 1.0;
    var r := Ceil(k as real + f);
    assert r == frameIndex;
  }

  /**
   * On cells narrower than one pixel the `+ 1` spills into the next cell:
   * every frame's left edge reads as a later frame.
   */
  lemma {:induction false} NarrowCellOverCounts(frameIndex: int, cellWidth: real)
    requires 0.0 < cellWidth < 1.0
    ensures CellNumber(FrameLeft(frameIndex, cellWidth), cellWidth) >= frameIndex + 1
  {
    var k := frameIndex - 1;
    ShiftedQuotient(k, cellWidth);
    var f := 1.0 / cellWidth;
    assert f * cellWidth == 1.0;
    assert f > 1.0;
  }

  /** The frame whose cell contains `left`: the reading the `+ 1` is meant to give, on cells of any width. */
  function CellIndex(left: real, cellWidth: real): (frameIndex: int)
    requires cellWidth > 0.0
    ensures FrameLeft(frameIndex, cellWidth) <= left < FrameLeft(frameIndex + 1, cellWidth)
  {
    var q := left / cellWidth;
    var f := q.Floor;
    assert q * cellWidth == left;
    MulMonotone(f as real, q, cellWidth);
    MulStrict(q, (f + 1) as real, cellWidth);
    var r := f + 1;
    assert FrameLeft(r, cellWidth) == f as real * cellWidth;
    assert FrameLeft(r + 1, cellWidth) == (f + 1) as real * cellWidth;
    assert left < FrameLeft(r + 1, cellWidth);
    r
  }

  /** Reading a frame's left edge with `CellIndex` gives back that frame whatever the cell width. */
  lemma {:induction false} CellIndexRoundTrip(frameIndex: int, cellWidth: real)
    requires cellWidth > 0.0
    ensures CellIndex(FrameLeft(frameIndex, cellWidth), cellWidth) == frameIndex
  {
    var left := FrameLeft(frameIndex, cellWidth);
    var r := CellIndex(left, cellWidth);
    if r + 1 < frameIndex {
      FrameLeftStrictlyIncreasing(r + 1, frameIndex, cellWidth);
    } else if r > frameIndex {
      FrameLeftStrictlyIncreasing(frameIndex, r, cellWidth);
    }
  }

  /** A quotient `a / s` known to within `e` gives `a` to within `e * s`. */
  lemma ScaledError(a: real, s: real, w: real, e: real)
    requires s > 0.0 && -e <= a / s - w <= e
    ensures -e * s <= a - w * s <= e * s
  {
    var d := a / s - w;
    assert d * s == a - w * s;
    MulMonotone(-e, d, s);
    MulMonotone(d, e, s);
  }

  /** `n` cells of width `Number((a / n).toFixed(2))` span `a` to within half a hundredth per cell. */
  lemma ToFixed2Spans(a: real, n: int)
    requires n >= 1
    ensures -0.005 * n as real <= a - ToFixed2(a / n as real) * n as real <= 0.005 * n as real
  {
    var w := ToFixed2(a / n as real);
    ScaledError(a, n as real, w, 0.005);
  }

  /** Multiplying by a positive factor keeps the order. */
  lemma MulMonotone(a: real, b: real, s: real)
    requires s > 0.0 && a <= b
    ensures a * s <= b * s
  {
    assert (b - a) * s >= 0.0;
  }

  /** Multiplying by a positive factor keeps the strict order. */
  lemma MulStrict(a: real, b: real, s: real)
    requires s > 0.0 && a < b
    ensures a * s < b * s
  {
    assert (b - a) * s > 0.0;
  }

  /** A smaller multiple of a positive factor has the smaller whole coefficient. */
  lemma MulCancelLess(k: int, m: int, s: real)
    requires s > 0.0 && k as real * s < m as real * s
    ensures k < m
  {
    if k >= m {
      MulMonotone(m as real, k as real, s);
    }
  }

  /** The cursor is left of the point half a `width` inside the content's left edge. */
  predicate OverflowLeft(cursorLeft: real, contentLeft: real, width: real)
  {
    cursorLeft < contentLeft + width / 2.0
  }

  /** The cursor is right of the point half a `width` inside the content's right edge. */
  predicate OverflowRight(cursorLeft: real, contentLeft: real, contentWidth: real, width: real)
  {
    cursorLeft > contentLeft + (contentWidth - width / 2.0)
  }

  /** `value || '1'`: a tip value of 0 (falsy) is displayed as 1. */
  function ShownTip(value: int): (shown: int)
    ensures value == 0 ==> shown == 1
    ensures value != 0 ==> shown == value
  {
    if value == 0 then 1 else value
  }
}
