/**
 * Colour segmentation (cloak.py lines 64-77): the six slider bounds define a
 * box in HSV space, tested with `cv2.inRange`; when the lower hue bound is
 * above the upper one the hue test wraps around red, and the two masks of the
 * sub-ranges are added as uint8 arrays.
 */
module Segmentation {
  import opened Images

  /** The largest 8-bit OpenCV hue. */
  const HueMax := 179

  /** The six slider positions: lower and upper hue, saturation, value. */
  datatype HsvRange = HsvRange(lh: Byte, ls: Byte, lv: Byte, uh: Byte, us: Byte, uv: Byte)

  /** Initial slider positions (cloak.py lines 11-16). */
  const DefaultRange := HsvRange(0, 120, 70, 10, 255, 255)

  /** The hue sliders run up to 179, the others up to 255 (the Byte type). */
  predicate FromSliders(r: HsvRange)
  {
    r.lh <= HueMax && r.uh <= HueMax
  }

  /** Every channel of `p` lies in its closed interval between `lo` and `hi`. */
  predicate Within(p: Hsv, lo: Hsv, hi: Hsv)
  {
    lo.h <= p.h <= hi.h && lo.s <= p.s <= hi.s && lo.v <= p.v <= hi.v
  }

  /** `cv2.inRange` on one pixel. */
  function InRange(p: Hsv, lo: Hsv, hi: Hsv): (r: Byte)
    ensures r == 255 <==> Within(p, lo, hi)
    ensures r == 0 <==> !Within(p, lo, hi)
  {
    if Within(p, lo, hi) then 255 else 0
  }

  /** `cv2.inRange` on an image: a 0/255 mask of the pixels inside the box. */
  function InRangeMask(img: HsvImage, lo: Hsv, hi: Hsv): (m: Mask)
    ensures SameShape(m, img)
    ensures forall i, j :: 0 <= i < |img| && 0 <= j < |img[i]| ==>
      (m[i][j] == 255 <==> Within(img[i][j], lo, hi)) && (m[i][j] == 0 <==> !Within(img[i][j], lo, hi))
  {
    seq(|img|, i requires 0 <= i < |img| =>
      seq(|img[i]|, j requires 0 <= j < |img[i]| => InRange(img[i][j], lo, hi)))
  }

  /** numpy `+` on two uint8 values: the sum modulo 256. */
  function AddU8(a: Byte, b: Byte): (r: Byte)
    ensures a as int + b < 256 ==> r == a as int + b
    ensures a as int + b >= 256 ==> r == a as int + b - 256
  {
    (a as int + b) % 256
  }

  /** numpy `+` on two uint8 masks of one shape, cell by cell. */
  function AddMasks(m1: Mask, m2: Mask): (m: Mask)
    requires SameShape(m1, m2)
    ensures SameShape(m, m1)
    ensures forall i, j :: 0 <= i < |m1| && 0 <= j < |m1[i]| ==> m[i][j] == (m1[i][j] as int + m2[i][j]) % 256
  {
    seq(|m1|, i requires 0 <= i < |m1| =>
      seq(|m1[i]|, j requires 0 <= j < |m1[i]| => AddU8(m1[i][j], m2[i][j])))
  }

  /** Lower and upper corners of the hue sub-range [0, uh] used when the hue wraps (lines 69-70). */
  function LowArcLo(r: HsvRange): (corner: Hsv) { Hsv(0, r.ls, r.lv) }
  function LowArcHi(r: HsvRange): (corner: Hsv) { Hsv(r.uh, r.us, r.uv) }

  /** Lower and upper corners of the hue sub-range [lh, 179] (lines 72-73). */
  function HighArcLo(r: HsvRange): (corner: Hsv) { Hsv(r.lh, r.ls, r.lv) }
  function HighArcHi(r: HsvRange): (corner: Hsv) { Hsv(HueMax, r.us, r.uv) }

  /**
   * The pixels the script means to select: saturation and value within their
   * bounds, and the hue within [lh, uh], or, when lh > uh, within [0, uh] or [lh, 179].
   */
  predicate Selected(p: Hsv, r: HsvRange)
  {
    && r.ls <= p.s <= r.us
    && r.lv <= p.v <= r.uv
    && if r.lh <= r.uh then r.lh <= p.h <= r.uh
       else p.h <= r.uh || r.lh <= p.h <= HueMax
  }

  /** In the wrap case the two sub-range masks are never both 255 at one pixel, so their uint8 sum never wraps. */
  lemma WrapMasksNeverOverlap(p: Hsv, r: HsvRange)
    requires r.lh > r.uh
    ensures InRange(p, LowArcLo(r), LowArcHi(r)) as int + InRange(p, HighArcLo(r), HighArcHi(r)) <= 255
  {
  }

  /** The mask of lines 67-77, `initial_mask`. */
  function InitialMask(hsv: HsvImage, r: HsvRange): (m: Mask)
    ensures SameShape(m, hsv)
    ensures forall i, j :: 0 <= i < |hsv| && 0 <= j < |hsv[i]| ==>
      m[i][j] == if Selected(hsv[i][j], r) then 255 else 0
  {
    if r.lh > r.uh then
      var mask1 := InRangeMask(hsv, LowArcLo(r), LowArcHi(r));
      var mask2 := InRangeMask(hsv, HighArcLo(r), HighArcHi(r));
      var m := AddMasks(mask1, mask2);
      assert forall i, j :: 0 <= i < |hsv| && 0 <= j < |hsv[i]| ==>
        m[i][j] == if Selected(hsv[i][j], r) then 255 else 0 by {
        forall i, j | 0 <= i < |hsv| && 0 <= j < |hsv[i]|
          ensures m[i][j] == if Selected(hsv[i][j], r) then 255 else 0
        {
          WrapMasksNeverOverlap(hsv[i][j], r);
        }
      }
      m
    else
      InRangeMask(hsv, Hsv(r.lh, r.ls, r.lv), Hsv(r.uh, r.us, r.uv))
  }

  /**
   * Hue is circular: `h` lies on the arc that runs upward from `lh` to `uh`,
   * wrapping from 179 to 0, when its distance above `lh` (mod 180) is at most
   * the arc's length.
   */
  predicate HueOnArc(h: int, lh: int, uh: int)
  {
    (h - lh) % (HueMax + 1) <= (uh - lh) % (HueMax + 1)
  }

  /** Both branches of the hue test are one test: membership of the circular arc from lh to uh. */
  lemma SelectedIsHueArc(p: Hsv, r: HsvRange)
    requires FromSliders(r) && p.h <= HueMax
    ensures Selected(p, r) <==> HueOnArc(p.h, r.lh, r.uh) && r.ls <= p.s <= r.us && r.lv <= p.v <= r.uv
  {
  }

  /** Mask-level form: a cell of `initial_mask` is 255 exactly when its hue is on the arc and S, V are in bounds, else 0. */
  lemma InitialMaskIsHueArc(hsv: HsvImage, r: HsvRange)
    requires FromSliders(r)
    requires forall i, j :: 0 <= i < |hsv| && 0 <= j < |hsv[i]| ==> hsv[i][j].h <= HueMax
    ensures forall i, j :: 0 <= i < |hsv| && 0 <= j < |hsv[i]| ==>
      var p := hsv[i][j];
      InitialMask(hsv, r)[i][j] == if HueOnArc(p.h, r.lh, r.uh) && r.ls <= p.s <= r.us && r.lv <= p.v <= r.uv then 255 else 0
  {
  }

  /** Whatever the hue bounds, every cell of `initial_mask` is 0 or 255. */
  lemma InitialMaskIsBinary(hsv: HsvImage, r: HsvRange)
    ensures forall i, j :: 0 <= i < |hsv| && 0 <= j < |hsv[i]| ==>
      InitialMask(hsv, r)[i][j] == 0 || InitialMask(hsv, r)[i][j] == 255
  {
  }

  /** A box with lower saturation or value above the upper one selects nothing. */
  lemma InvertedSatOrValSelectsNothing(hsv: HsvImage, r: HsvRange)
    requires r.ls > r.us || r.lv > r.uv
    ensures IsZero(InitialMask(hsv, r))
  {
  }

  /** With the hue bounds 170 and 10, hues 175 and 5 are selected and hue 90 is not. */
  lemma RedWrapExample()
    ensures var r := HsvRange(170, 120, 70, 10, 255, 255);
      InitialMask([[Hsv(175, 200, 200), Hsv(5, 200, 200), Hsv(90, 200, 200)]], r) == [[255, 255, 0]]
  {
    var r := HsvRange(170, 120, 70, 10, 255, 255);
    var hsv := [[Hsv(175, 200, 200), Hsv(5, 200, 200), Hsv(90, 200, 200)]];
    var m := InitialMask(hsv, r);
    assert m[0][0] == 255 && m[0][1] == 255 && m[0][2] == 0;
    assert m[0] == [255, 255, 0];
  }
}
