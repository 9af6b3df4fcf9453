/**
 * Region-of-interest resolution in the OCR worker (streamlit_app.py:70-82): the
 * four slider percentages are turned into a pixel rectangle of the current
 * frame, clamped to the frame, with the whole frame used when the rectangle is
 * empty.
 */
module Roi {

  /** What the worker hands to OCR: a sub-rectangle `[x1, x2) x [y1, y2)` of the
      frame, or the frame itself. */
  datatype Region = FullFrame | Crop(x1: int, y1: int, x2: int, y2: int)

  /** The ranges the four ROI sliders allow (streamlit_app.py:35-38). */
  predicate SliderRanges(x0: nat, y0: nat, wPct: nat, hPct: nat) {
    x0 <= 90 && y0 <= 90 && 1 <= wPct <= 100 - x0 && 1 <= hPct <= 100 - y0
  }

  /** `int(size * (pct / 100.0))`. This idealises the floating-point product as
      exact arithmetic: for non-negative operands `int` truncates, which is the
      floor taken here. */
  function Scale(size: nat, pct: nat): (px: nat)
    ensures 100 * px <= size * pct < 100 * (px + 1)
  {
    size * pct / 100
  }

  function Max(a: int, b: int): int { if a < b then b else a }
  function Min(a: int, b: int): int { if a < b then a else b }

  /** The ROI conversion for a frame of `w` by `h` pixels. The clamp keeps any
      crop inside the frame whatever the percentages are. */
  function ResolveRoi(w: nat, h: nat, x0: nat, y0: nat, wPct: nat, hPct: nat): (r: Region)
    ensures r.Crop? ==> 0 <= r.x1 < r.x2 <= w && 0 <= r.y1 < r.y2 <= h
  {
    var x1 := Scale(w, x0);
    var y1 := Scale(h, y0);
    var x2 := x1 + Scale(w, wPct);
    var y2 := y1 + Scale(h, hPct);
    var cx1, cy1 := Max(0, x1), Max(0, y1);
    var cx2, cy2 := Min(w, x2), Min(h, y2);
    if cx2 <= cx1 || cy2 <= cy1 then FullFrame else Crop(cx1, cy1, cx2, cy2)
  }

  /** Floors of two non-negative quotients add up to at most the floor of the sum. */
  lemma {:induction false} ScaleSum(size: nat, a: nat, b: nat)
    ensures Scale(size, a) + Scale(size, b) <= Scale(size, a + b)
  {
    var p, q := size * a, size * b;
    assert size * (a + b) == p + q;
    assert p == 100 * (p / 100) + p % 100;
    assert q == 100 * (q / 100) + q % 100;
    assert p + q == 100 * (p / 100 + q / 100) + (p % 100 + q % 100);
  }

  /** Scaling by at most 100 percent stays within the size. */
  lemma {:induction false} ScaleBounded(size: nat, pct: nat)
    requires pct <= 100
    ensures Scale(size, pct) <= size
    ensures pct < 100 && size > 0 ==> Scale(size, pct) < size
  {
    assert size * pct <= size * 100;
    if pct < 100 && size > 0 {
      assert size * pct < size * 100;
    }
  }

  /** Within the slider ranges the unclamped rectangle already lies inside the
      frame, so the clamp never moves a corner: when the requested width and
      height are at least one pixel, the crop is exactly the requested
      percentages of the frame. */
  lemma {:induction false} ClampIsNoOp(w: nat, h: nat, x0: nat, y0: nat, wPct: nat, hPct: nat)
    requires SliderRanges(x0, y0, wPct, hPct)
    requires Scale(w, wPct) > 0 && Scale(h, hPct) > 0
    ensures ResolveRoi(w, h, x0, y0, wPct, hPct)
      == Crop(Scale(w, x0), Scale(h, y0), Scale(w, x0) + Scale(w, wPct), Scale(h, y0) + Scale(h, hPct))
  {
    ScaleSum(w, x0, wPct);
    ScaleBounded(w, x0 + wPct);
    ScaleSum(h, y0, hPct);
    ScaleBounded(h, y0 + hPct);
  }

  /** Within the slider ranges the frame is used whole exactly when the requested
      width or height rounds down to zero pixels. */
  lemma {:induction false} FullFrameIff(w: nat, h: nat, x0: nat, y0: nat, wPct: nat, hPct: nat)
    requires SliderRanges(x0, y0, wPct, hPct)
    ensures ResolveRoi(w, h, x0, y0, wPct, hPct) == FullFrame
        <==> Scale(w, wPct) == 0 || Scale(h, hPct) == 0
  {
    ScaleSum(w, x0, wPct);
    ScaleBounded(w, x0 + wPct);
    ScaleBounded(w, x0);
    ScaleSum(h, y0, hPct);
    ScaleBounded(h, y0 + hPct);
    ScaleBounded(h, y0);
  }
}
