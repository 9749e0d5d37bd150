/**
 * One pass of the main loop's image work (cloak.py lines 60-116). The OpenCV
 * primitives whose code is not part of this model are supplied as functions:
 * the model fixes only how the script wires them together and the decision
 * logic between them.
 */
module Pipeline {
  import opened Wrappers
  import opened Images
  import opened Segmentation
  import opened RegionSelection
  import opened Compositing

  /** The OpenCV calls of one frame, each as an opaque function of its input. */
  datatype Library = Library(
    medianBlur: Frame -> Frame,            // cv2.medianBlur(frame, 5)
    toHsv: Frame -> HsvImage,              // cv2.cvtColor(..., COLOR_BGR2HSV)
    open: Mask -> Mask,                    // cv2.morphologyEx(MORPH_OPEN, 7x7 ones, iterations=2)
    close: Mask -> Mask,                   // cv2.morphologyEx(MORPH_CLOSE, 7x7 ones, iterations=2)
    findContours: Mask -> seq<Contour>,    // cv2.findContours(RETR_EXTERNAL) with each contour's area and fill
    gaussianBlur: Mask -> Mask)            // cv2.GaussianBlur(mask, (15, 15), 0)

  /** Lines 60-82: the refined `initial_mask` of a (mirrored) frame. */
  function Refined(lib: Library, frame: Frame, r: HsvRange): (refined: Mask)
  {
    var hsv := lib.toHsv(lib.medianBlur(frame));
    lib.close(lib.open(InitialMask(hsv, r)))
  }

  /** Lines 84-95: the feathered mask of the accepted region. */
  function Feathered(lib: Library, frame: Frame, r: HsvRange): (soft: Mask)
  {
    var refined := Refined(lib, frame, r);
    lib.gaussianBlur(SelectMask(refined, lib.findContours(refined)))
  }

  /**
   * Lines 60-116: the composited frame and the debug mask shown beside it, or
   * the error the script would raise.
   */
  function ProcessFrame(lib: Library, frame: Frame, bg: Option<Frame>, r: HsvRange): (res: Result<(Frame, Mask), BlendError>)
    ensures bg.None? <==> res == Err(NoBackground)
    ensures res.Ok? <==> bg.Some? && SameShape(Feathered(lib, frame, r), bg.value) && SameShape(Feathered(lib, frame, r), frame)
    ensures res.Ok? ==> SameShape(res.value.0, frame) && res.value.1 == Feathered(lib, frame, r)
    ensures res.Ok? ==> BlendFrame(res.value.1, bg, frame) == Ok(res.value.0)
    ensures res.Ok? ==> forall i, j :: 0 <= i < |frame| && 0 <= j < |frame[i]| ==>
      && (res.value.1[i][j] == 0 ==> res.value.0[i][j] == frame[i][j])
      && (res.value.1[i][j] == 255 ==> res.value.0[i][j] == bg.value[i][j])
  {
    var soft := Feathered(lib, frame, r);
    match BlendFrame(soft, bg, frame)
    case Ok(out) => Ok((out, soft))
    case Err(e) => Err(e)
  }

  /**
   * When no contour is larger than 500 and blurring an empty mask leaves it
   * empty (as a Gaussian kernel does), the output is the live frame unchanged.
   */
  lemma NothingDetectedShowsLiveFrame(lib: Library, frame: Frame, bg: Frame, r: HsvRange)
    requires forall c :: c in lib.findContours(Refined(lib, frame, r)) ==> c.area <= MinArea
    requires lib.gaussianBlur(ZerosLike(Refined(lib, frame, r))) == ZerosLike(Refined(lib, frame, r))
    requires SameShape(Refined(lib, frame, r), frame) && SameShape(frame, bg)
    ensures ProcessFrame(lib, frame, Some(bg), r) == Ok((frame, ZerosLike(frame)))
  {
    var refined := Refined(lib, frame, r);
    var cs := lib.findContours(refined);
    assert forall j :: 0 <= j < |cs| ==> cs[j] in cs;
    var selected := SelectMask(refined, cs);
    ZeroMaskIsZerosLike(selected, refined);
    ZeroMaskIsZerosLike(ZerosLike(refined), frame);
    ClearMaskShowsLiveFrame(ZerosLike(frame), bg, frame);
  }
}
