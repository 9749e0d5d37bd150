# Invisibility cloak: a Dafny model of `cloak.py`

`cloak.py` turns a webcam feed into a "see-through" effect. It captures a
background, then for every live frame it does the following:

- it finds the pixels whose HSV colour lies in a box set by six sliders;
- it keeps the largest such region when that region is big enough;
- it feathers the region's edge;
- it blends the background in over that region.

The keyboard controls the run: ESC quits and `b` captures the background again.
Most of the script is calls into OpenCV. This project models the logic the
script itself decides and proves properties of it:

- `Segmentation` covers the HSV box test as `cv2.inRange` applies it, the
  hue wrap-around for red, and the uint8 addition of the two sub-range masks.
  The proofs show that the addition never overflows and that both hue branches
  are one test: membership of a circular arc of hue.
- `RegionSelection` covers Python's `max` by contour area, which keeps the
  first of equal maxima, and the strict `> 500` area threshold. It also covers
  the mask in which only the accepted contour is drawn, filled.
- `Compositing` covers the per-channel blend `trunc(m/255·bg + (1−m/255)·frame)`.
  It is written as the exact real formula. The proofs cover the two endpoints
  (mask 0 gives the live frame, mask 255 gives the background) and the errors
  the script would raise.
- `Pipeline` wires one frame through these steps. The OpenCV primitives are
  supplied as opaque functions.
- `Session` holds the class `Cloak`. Its constant fields are the inputs: the
  OpenCV stand-ins (`lib`), the camera recording, the key presses and the
  slider positions. Its mutable fields are the number of reads served so far
  (`served`), the background `bg`, and the output and debug mask of every
  frame shown so far (`shown`). The
  90-read capture loop and the whole run are methods with loop invariants.
  One pass of the main loop is a method whose contract gives the new state
  for every branch.

Pixels are `Bgr`/`Hsv` records of `Byte`s (0..255). Frames and masks are
`seq<seq<…>>` grids of rows.

Two behaviours of the code are worth stating outright:

- The capture keeps the result of the LAST read, not the last successful one.
  A failed 90th read sets `bg` to None (lines 36-38, 133-135), and the next
  composite then raises at line 109. `FailedFinalReadLosesBackground` states this.
- Of contours with equal, largest area, Python's `max` keeps the first one
  (`TieGoesToFirst`).

## Model

| member | source | states |
|---|---|---|
| Images.ZerosLike | cloak.py:86 | `np.zeros_like`: an all-zero mask of the same shape |
| Images.Mirror | cloak.py:38 | `cv2.flip(…, 1)`: same shape, and column j of each row lands in column width−1−j |
| Images.MirrorTwice | cloak.py:48 | mirroring is an involution: flipping twice gives the frame back |
| Segmentation.InRange | cloak.py:71 | `cv2.inRange` on a pixel: 255 exactly when every channel is within its bounds, else 0 |
| Segmentation.InRangeMask | cloak.py:77 | `cv2.inRange` on an image: same shape, each cell 255 iff its pixel is in the box and 0 iff not |
| Segmentation.AddU8 | cloak.py:75 | uint8 `+`: the plain sum below 256, the sum minus 256 from 256 up |
| Segmentation.AddMasks | cloak.py:75 | uint8 mask `+`: same shape, each cell the sum modulo 256 |
| Segmentation.WrapMasksNeverOverlap | cloak.py:68-75 | when lower hue > upper hue, the masks of [0,u_h] and [l_h,179] sum to at most 255 at every pixel, so `mask1 + mask2` never wraps |
| Segmentation.InitialMask | cloak.py:64-77 | `initial_mask` has the image's shape and is 255 exactly at the pixels with S and V in bounds and hue in [l_h,u_h], or in [0,u_h] ∪ [l_h,179] when l_h > u_h, and 0 elsewhere |
| Segmentation.SelectedIsHueArc | cloak.py:67-77 | for slider values and hues up to 179, the two-branch hue test is the single test "hue on the circular arc from l_h up to u_h" |
| Segmentation.InitialMaskIsHueArc | cloak.py:64-77 | each cell of `initial_mask` is 255 iff its hue is on that arc and S, V are in bounds, else 0 |
| Segmentation.InitialMaskIsBinary | cloak.py:75-77 | every cell of `initial_mask` is 0 or 255, in both branches |
| Segmentation.InvertedSatOrValSelectsNothing | cloak.py:64-77 | lower S above upper S, or lower V above upper V, gives an all-zero mask |
| Segmentation.RedWrapExample | cloak.py:68-75 | with hue bounds 170/10, hues 175 and 5 are selected and hue 90 is not |
| RegionSelection.MaxFrom | cloak.py:88 | the left fold of Python's `max` returns an index of a largest area, and no earlier contour is as large |
| RegionSelection.Largest | cloak.py:88 | `max(contours, key=contourArea)` picks a largest contour, the first of equal ones |
| RegionSelection.FirstMaxIsUnique | cloak.py:88 | there is only one "first largest" index, so the choice is determined |
| RegionSelection.Accepted | cloak.py:87-89 | a contour is drawn iff some contour's area exceeds 500; the drawn one is the first largest and its area is above 500 |
| RegionSelection.SelectMask | cloak.py:86-90 | the mask keeps the refined mask's shape; it is all zero when nothing is accepted, and otherwise 255 exactly on the accepted contour's cells and 0 elsewhere |
| RegionSelection.ThresholdIsStrict | cloak.py:89 | a lone contour of area 500 is rejected and one of area 501 is drawn |
| RegionSelection.TieGoesToFirst | cloak.py:88 | of two leading contours of equal, maximal area the first is chosen |
| Compositing.ConvexBetween | cloak.py:99-116 | a weighted mean with weight in [0,1] lies between its two values |
| Compositing.BlendChannel | cloak.py:99-116 | per channel: mask 0 gives the live value, 255 gives the background value, and the result lies between the two |
| Compositing.BlendPixel | cloak.py:104-116 | per pixel: mask 0 gives the live pixel, 255 gives the background pixel |
| Compositing.BlendFrame | cloak.py:99-116 | it fails with NoBackground exactly when `bg` is None. It succeeds exactly when mask, background and frame share a shape. On success each pixel is the live pixel under mask 0, the background pixel under mask 255, and between the two otherwise |
| Compositing.ClearMaskShowsLiveFrame | cloak.py:99-116 | an all-zero mask composites to exactly the live frame |
| Compositing.FullMaskShowsBackground | cloak.py:99-116 | an all-255 mask composites to exactly the background |
| Pipeline.ProcessFrame | cloak.py:60-116 | one frame's composite, built from the helpers `Pipeline.Refined` (lines 60-82: median blur, HSV, `initial_mask`, open, close) and `Pipeline.Feathered` (lines 84-95: contours, filled selection, Gaussian blur): it fails with NoBackground iff there is no background. It succeeds iff the shapes agree. Then the debug mask is the feathered selection, the output is the blend of background and frame under that mask, and each pixel is the live pixel under mask 0 and the background pixel under mask 255 |
| Pipeline.NothingDetectedShowsLiveFrame | cloak.py:84-116 | when no contour exceeds 500 and blurring keeps an empty mask empty, the output is the live frame and the debug mask is all zero |
| Session.AfterRead | cloak.py:36-38 | a failed read leaves None, a good one leaves the frame mirrored |
| Session.FailedFinalReadLosesBackground | cloak.py:35-38 | a failed 90th read leaves no background, whatever the earlier reads gave |
| Session.CaptureIgnoresEarlierReads | cloak.py:35-38 | the captured background depends only on the last of the 90 reads |
| Session.Control | cloak.py:127-130 | the low byte 27 quits, the low byte 98 (`b`) recaptures, and anything else goes on |
| Session.KeyLowByteOnly | cloak.py:127 | no key (−1) goes on, and bits above the low byte never change the action |
| Session.Cloak.constructor | cloak.py:34 | a run starts with the given library and inputs, no reads, no background and nothing shown |
| Session.Cloak.Read | cloak.py:36 | a read returns the next recorded result and advances the camera by one |
| Session.Cloak.CaptureBackground | cloak.py:35-38 | after exactly 90 reads, `bg` is the mirrored last read, or None if that read failed |
| Session.Cloak.Step | cloak.py:44-136 | a failed read stops the loop with `bg` unchanged. Otherwise the mirrored frame is composited and a failure stops the loop. Then ESC stops it, `b` does exactly the capture above on the following 90 reads, and any other key keeps `bg` and goes on |
| Session.Cloak.Run | cloak.py:34-136 | after the capture, the loop stops only on a failed read, on ESC (the last key's low byte is 27), or on a compositing error, which is NoBackground exactly when `bg` is None. No key before the last processed frame's was ESC, so ESC stops the loop at once |

## Left out

- Windows, sliders, full screen, `imshow`, `putText`, the console messages, `time.sleep`, opening and releasing the camera (lines 5-30, 119-124, 139-140) are GUI and device I/O. Slider positions and `waitKey` results are plain inputs.
- `cap.isOpened()` (line 43) is taken to stay true. The loop ends through a failed read instead. Reads past the end of the given recording fail.
- `cv2.medianBlur`, `cv2.cvtColor` to HSV, the two `cv2.morphologyEx` passes, `cv2.findContours` with `cv2.contourArea` and the filled drawing, and `cv2.GaussianBlur` (lines 60-61, 80-82, 85-90, 95) are OpenCV code. They enter as the opaque functions of `Pipeline.Library`. A contour enters as its polygon area and the cells its filled drawing covers.
- Compositing.BlendChannel, Compositing.BlendFrame: their "between the two inputs" bound is proved for the exact real formula. The float32 products of lines 112-116 can round just below an integer, so truncation may give one less. Only the endpoints 0 and 255 are exact in float32.
- A blend weight of exactly one half is not modelled: the uint8 Gaussian output never gives m/255 = 0.5.
- Selecting twice is not modelled as idempotent, because contours are re-found by OpenCV between two selections.
- Session.Cloak.Run: its contract states why the loop stopped and what that implies. The frame-by-frame trace is stated by Session.Cloak.Step, which Run repeats.
