/**
 * Alpha blending (cloak.py lines 99-116): the feathered mask, scaled to
 * [0, 1], weighs the background against the live frame, channel by channel,
 * and the sum is cut back to uint8. The arithmetic is the exact real formula;
 * `astype(np.uint8)` truncates, which for these non-negative sums is Floor.
 */
module Compositing {
  import opened Wrappers
  import opened Images

  /** Why the script would raise before producing an output frame. */
  datatype BlendError =
    | NoBackground  // `bg` is None: `bg.astype` fails (line 109)
    | SizeMismatch  // mask, background and frame differ in shape: `cv2.multiply` fails (lines 112-113)

  function Min(a: int, b: int): (m: int) { if a <= b then a else b }
  function Max(a: int, b: int): (m: int) { if a <= b then b else a }

  /** A weighted mean of two values with weight in [0, 1] lies between them. */
  lemma ConvexBetween(w: real, x: int, y: int)
    requires 0.0 <= w <= 1.0
    ensures Min(x, y) as real <= w * x as real + (1.0 - w) * y as real <= Max(x, y) as real
  {
    var d := (x - y) as real;
    assert x as real == y as real + d;
    assert w * x as real + (1.0 - w) * y as real == y as real + w * d;
    if d >= 0.0 {
      assert Min(x, y) == y && Max(x, y) == x;
      assert 0.0 <= w * d;
      assert (1.0 - w) * d >= 0.0;
    } else {
      assert Min(x, y) == x && Max(x, y) == y;
      assert w * d <= 0.0;
      assert (1.0 - w) * d <= 0.0;
    }
  }

  /**
   * One output channel: `trunc(m/255 * back + (1 - m/255) * live)`. A mask
   * value of 0 keeps the live channel, 255 gives the background channel, and
   * every output lies between the two inputs.
   */
  function BlendChannel(m: Byte, back: Byte, live: Byte): (out: Byte)
    ensures m == 0 ==> out == live
    ensures m == 255 ==> out == back
    ensures Min(back, live) <= out <= Max(back, live)
  {
    var w := m as real / 255.0;
    var x := w * back as real + (1.0 - w) * live as real;
    ConvexBetween(w, back, live);
    x.Floor
  }

  function BlendPixel(m: Byte, back: Bgr, live: Bgr): (out: Bgr)
    ensures m == 0 ==> out == live
    ensures m == 255 ==> out == back
  {
    Bgr(BlendChannel(m, back.b, live.b), BlendChannel(m, back.g, live.g), BlendChannel(m, back.r, live.r))
  }

  /** Every channel of `out` lies between the background's and the live frame's channel. */
  predicate Between(out: Bgr, back: Bgr, live: Bgr)
  {
    && Min(back.b, live.b) <= out.b <= Max(back.b, live.b)
    && Min(back.g, live.g) <= out.g <= Max(back.g, live.g)
    && Min(back.r, live.r) <= out.r <= Max(back.r, live.r)
  }

  /** Lines 99-116: the composited frame, or the error the script would raise. */
  function BlendFrame(soft: Mask, bg: Option<Frame>, frame: Frame): (r: Result<Frame, BlendError>)
    ensures r == Err(NoBackground) <==> bg.None?
    ensures r.Ok? <==> bg.Some? && SameShape(soft, bg.value) && SameShape(soft, frame)
    ensures r.Ok? ==> SameShape(r.value, frame) && forall i, j :: 0 <= i < |frame| && 0 <= j < |frame[i]| ==>
      && (soft[i][j] == 0 ==> r.value[i][j] == frame[i][j])
      && (soft[i][j] == 255 ==> r.value[i][j] == bg.value[i][j])
      && Between(r.value[i][j], bg.value[i][j], frame[i][j])
  {
    if bg.None? then Err(NoBackground)
    else if !(SameShape(soft, bg.value) && SameShape(soft, frame)) then Err(SizeMismatch)
    else
      var back := bg.value;
      Ok(seq(|frame|, i requires 0 <= i < |frame| =>
        seq(|frame[i]|, j requires 0 <= j < |frame[i]| => BlendPixel(soft[i][j], back[i][j], frame[i][j]))))
  }

  /** With an all-zero mask the output is the live frame itself. */
  lemma ClearMaskShowsLiveFrame(soft: Mask, bg: Frame, frame: Frame)
    requires IsZero(soft) && SameShape(soft, bg) && SameShape(soft, frame)
    ensures BlendFrame(soft, Some(bg), frame) == Ok(frame)
  {
    var r := BlendFrame(soft, Some(bg), frame);
    assert r.Ok?;
    var out := r.value;
    assert |out| == |frame|;
    forall i | 0 <= i < |frame|
      ensures out[i] == frame[i]
    {
      forall j | 0 <= j < |frame[i]|
        ensures out[i][j] == frame[i][j]
      {
        assert soft[i][j] == 0;
      }
    }
    assert out == frame;
  }

  /** With an all-255 mask the output is the background. */
  lemma FullMaskShowsBackground(soft: Mask, bg: Frame, frame: Frame)
    requires IsFull(soft) && SameShape(soft, bg) && SameShape(soft, frame)
    ensures BlendFrame(soft, Some(bg), frame) == Ok(bg)
  {
    var out := BlendFrame(soft, Some(bg), frame).value;
    forall i | 0 <= i < |frame|
      ensures out[i] == bg[i]
    {
      forall j | 0 <= j < |frame[i]|
        ensures out[i][j] == bg[i][j]
      {
        assert soft[i][j] == 255;
      }
    }
    assert out == bg;
  }
}
