/**
 * Largest-region selection (cloak.py lines 85-90): among the outer contours
 * found in the refined mask, take the one with the largest area (Python's
 * `max`, which keeps the first of equal maxima) and, when its area is above
 * 500, draw it filled into an otherwise zero mask.
 */
module RegionSelection {
  import opened Wrappers
  import opened Images

  /** The area a contour must strictly exceed to be drawn (line 89). */
  const MinArea: real := 500.0

  /**
   * An outer contour as OpenCV reports it: the area of its polygon
   * (`cv2.contourArea`) and the (row, column) cells that drawing it filled covers.
   */
  datatype Contour = Contour(area: real, cells: set<(int, int)>)

  /** `k` is where Python's `max(contours, key=area)` stops: a largest area, and the first such. */
  predicate IsFirstMax(cs: seq<Contour>, k: nat)
  {
    && k < |cs|
    && (forall j :: 0 <= j < |cs| ==> cs[j].area <= cs[k].area)
    && (forall j :: 0 <= j < k ==> cs[j].area < cs[k].area)
  }

  /**
   * Python's `max` as a left fold: `best` is the maximum of `cs[..i]`, and it
   * is replaced only by a strictly larger area.
   */
  function MaxFrom(cs: seq<Contour>, best: nat, i: nat): (k: nat)
    requires best < i <= |cs|
    requires forall j :: 0 <= j < i ==> cs[j].area <= cs[best].area
    requires forall j :: 0 <= j < best ==> cs[j].area < cs[best].area
    ensures IsFirstMax(cs, k)
    decreases |cs| - i
  {
    if i == |cs| then best
    else if cs[i].area > cs[best].area then MaxFrom(cs, i, i + 1)
    else MaxFrom(cs, best, i + 1)
  }

  /** `max(contours, key=cv2.contourArea)` (line 88), as an index into the list. */
  function Largest(cs: seq<Contour>): (k: nat)
    requires |cs| > 0
    ensures IsFirstMax(cs, k)
  {
    MaxFrom(cs, 0, 1)
  }

  /** There is one first maximum, so the choice is determined by the list alone. */
  lemma FirstMaxIsUnique(cs: seq<Contour>, k1: nat, k2: nat)
    requires IsFirstMax(cs, k1) && IsFirstMax(cs, k2)
    ensures k1 == k2
  {
    // Each is at least as large as the other, so neither comes strictly before the other.
    assert cs[k1].area == cs[k2].area;
  }

  /** The contour that gets drawn (lines 87-89), if any. */
  function Accepted(cs: seq<Contour>): (r: Option<nat>)
    ensures r.None? <==> forall j :: 0 <= j < |cs| ==> cs[j].area <= MinArea
    ensures r.Some? ==> IsFirstMax(cs, r.value) && cs[r.value].area > MinArea
  {
    if |cs| == 0 then None
    else
      var k := Largest(cs);
      if cs[k].area > MinArea then Some(k) else None
  }

  /**
   * The mask after lines 86-90: zero everywhere except the cells of the
   * accepted contour, which are 255. Cells outside the mask are clipped.
   */
  function SelectMask(refined: Mask, cs: seq<Contour>): (m: Mask)
    ensures SameShape(m, refined)
    ensures Accepted(cs).None? ==> IsZero(m)
    ensures Accepted(cs).Some? ==> forall i, j :: 0 <= i < |refined| && 0 <= j < |refined[i]| ==>
      (m[i][j] == 255 <==> (i, j) in cs[Accepted(cs).value].cells) &&
      (m[i][j] == 0 <==> (i, j) !in cs[Accepted(cs).value].cells)
  {
    var chosen := Accepted(cs);
    seq(|refined|, i requires 0 <= i < |refined| =>
      seq(|refined[i]|, j requires 0 <= j < |refined[i]| =>
        if chosen.Some? && (i, j) in cs[chosen.value].cells then 255 else 0))
  }

  /** The threshold is strict: a lone contour of area 500 is dropped, one of area 501 is drawn. */
  lemma ThresholdIsStrict(cells: set<(int, int)>)
    ensures Accepted([Contour(500.0, cells)]) == None
    ensures Accepted([Contour(501.0, cells)]) == Some(0)
  {
  }

  /** Of two contours of equal area the first is drawn (line 88). */
  lemma TieGoesToFirst(a: real, c1: set<(int, int)>, c2: set<(int, int)>, rest: seq<Contour>)
    requires forall j :: 0 <= j < |rest| ==> rest[j].area <= a
    ensures Largest([Contour(a, c1), Contour(a, c2)] + rest) == 0
  {
  }
}
