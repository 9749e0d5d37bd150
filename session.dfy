/**
 * The script's control flow (cloak.py lines 34-48 and 127-136): a 90-read
 * background capture, then a loop that reads a frame, composites it, and acts
 * on the key pressed: ESC quits, `b` repeats the capture, anything else goes on.
 * The camera, the keyboard and the sliders are inputs given up front.
 */
module Session {
  import opened Wrappers
  import opened Images
  import opened Segmentation
  import opened Compositing
  import opened Pipeline

  /** Reads per background capture (lines 35 and 132). */
  const CaptureReads := 90

  const EscKey := 27
  /** `ord('b')`. */
  const RecaptureKey := 98
  /** What `cv2.waitKey` returns when no key was pressed. */
  const NoKey := -1

  /** The result of the camera's k-th read; reads past the end of the recording fail. */
  function ReadAt(camera: seq<Option<Frame>>, k: nat): (f: Option<Frame>)
  {
    if k < |camera| then camera[k] else None
  }

  /** The raw `cv2.waitKey(1)` result after the k-th processed frame; no key once the list runs out. */
  function KeyAt(keys: seq<int>, k: nat): (raw: int)
  {
    if k < |keys| then keys[k] else NoKey
  }

  /** The slider positions for the k-th processed frame; once the list runs out they stay where they last were. */
  function SlidersAt(sliders: seq<HsvRange>, k: nat): (r: HsvRange)
  {
    if k < |sliders| then sliders[k]
    else if sliders == [] then DefaultRange
    else sliders[|sliders| - 1]
  }

  /** Lines 36-38: `bg` after one read, mirrored when the read succeeded and None when it failed. */
  function AfterRead(f: Option<Frame>): (bg: Option<Frame>)
    ensures bg.None? <==> f.None?
    ensures bg.Some? ==> Mirror(bg.value) == f.value
  {
    match f
    case Some(img) => MirrorTwice(img); Some(Mirror(img))
    case None => None
  }

  /** What a capture whose first read is read number `start` leaves in `bg`: only its last read matters. */
  function Captured(camera: seq<Option<Frame>>, start: nat): (bg: Option<Frame>)
  {
    AfterRead(ReadAt(camera, start + CaptureReads - 1))
  }

  /**
   * The capture keeps the last read, not the last good one: good frames
   * followed by a failed final read leave no background at all.
   */
  lemma FailedFinalReadLosesBackground(camera: seq<Option<Frame>>, start: nat)
    requires start + CaptureReads <= |camera|
    requires camera[start + CaptureReads - 1].None?
    ensures Captured(camera, start) == None
  {
  }

  /** A capture depends on nothing but the last of its 90 reads. */
  lemma CaptureIgnoresEarlierReads(c1: seq<Option<Frame>>, c2: seq<Option<Frame>>, start: nat)
    requires ReadAt(c1, start + CaptureReads - 1) == ReadAt(c2, start + CaptureReads - 1)
    ensures Captured(c1, start) == Captured(c2, start)
  {
  }

  datatype Command = Quit | Recapture | Proceed

  /** Lines 127-130: the action for a raw `waitKey` result, of which only the low byte counts. */
  function Control(raw: int): (c: Command)
    ensures c == Quit <==> raw % 256 == EscKey
    ensures c == Recapture <==> raw % 256 == RecaptureKey
  {
    var key := raw % 256;
    if key == EscKey then Quit
    else if key == RecaptureKey then Recapture
    else Proceed
  }

  /**
   * `& 0xFF` keeps the low byte, which for every integer, negative ones
   * included, is the Euclidean remainder by 256: no key (-1) is 255, so the
   * loop goes on, and modifier bits above the low byte are ignored.
   */
  lemma KeyLowByteOnly(raw: int, high: int)
    ensures Control(NoKey) == Proceed
    ensures Control(raw + 256 * high) == Control(raw)
  {
  }

  /** Why the main loop ended. */
  datatype StopReason =
    | CameraFailed           // lines 45-46
    | Escaped                // lines 128-129
    | Crashed(error: BlendError)  // an exception raised while compositing

  /** One run of the script: its inputs, and the state its loops update. */
  class Cloak {
    const lib: Library
    /** Every read's result, in order. */
    const camera: seq<Option<Frame>>
    /** The `waitKey` result after each processed frame. */
    const keys: seq<int>
    /** The slider positions read for each processed frame. */
    const sliders: seq<HsvRange>

    /** How many reads the camera has served. */
    var served: nat
    var bg: Option<Frame>
    /** Each processed frame's output and debug mask, as shown on screen. */
    var shown: seq<(Frame, Mask)>

    /** Line 34: before the capture there is no background. */
    constructor (lib: Library, camera: seq<Option<Frame>>, keys: seq<int>, sliders: seq<HsvRange>)
      ensures this.lib == lib && this.camera == camera && this.keys == keys && this.sliders == sliders
      ensures served == 0 && bg == None && shown == []
    {
      this.lib := lib;
      this.camera := camera;
      this.keys := keys;
      this.sliders := sliders;
      served := 0;
      bg := None;
      shown := [];
    }

    /** `cap.read()`. */
    method Read() returns (f: Option<Frame>)
      modifies this`served
      ensures f == ReadAt(camera, old(served)) && served == old(served) + 1
    {
      f := ReadAt(camera, served);
      served := served + 1;
    }

    /** Lines 35-38 and 132-135: 90 reads, each overwriting `bg`. */
    method CaptureBackground()
      modifies this`served, this`bg
      ensures served == old(served) + CaptureReads
      ensures bg == Captured(camera, old(served))
    {
      var i := 0;
      while i < CaptureReads
        invariant 0 <= i <= CaptureReads
        invariant served == old(served) + i
        invariant i > 0 ==> bg == AfterRead(ReadAt(camera, served - 1))
      {
        var f := Read();
        bg := f;
        if f.Some? {
          bg := Some(Mirror(f.value));
        }
        i := i + 1;
      }
    }

    /**
     * One pass of the main loop (lines 44-136). Returns the reason to stop,
     * or None to go round again.
     */
    method Step() returns (stop: Option<StopReason>)
      modifies this`served, this`bg, this`shown
      ensures ReadAt(camera, old(served)).None? ==>
        stop == Some(CameraFailed) && served == old(served) + 1 && bg == old(bg) && shown == old(shown)
      ensures ReadAt(camera, old(served)).Some? ==>
        var frame := Mirror(ReadAt(camera, old(served)).value);
        var res := ProcessFrame(lib, frame, old(bg), SlidersAt(sliders, |old(shown)|));
        if res.Err? then
          stop == Some(Crashed(res.error)) && served == old(served) + 1 && bg == old(bg) && shown == old(shown)
        else
          && shown == old(shown) + [res.value]
          && match Control(KeyAt(keys, |old(shown)|))
             case Quit => stop == Some(Escaped) && served == old(served) + 1 && bg == old(bg)
             case Recapture => stop == None && served == old(served) + 1 + CaptureReads && bg == Captured(camera, old(served) + 1)
             case Proceed => stop == None && served == old(served) + 1 && bg == old(bg)
    {
      var f := Read();
      if f.None? {
        return Some(CameraFailed);
      }
      var frame := Mirror(f.value);
      var res := ProcessFrame(lib, frame, bg, SlidersAt(sliders, |shown|));
      if res.Err? {
        return Some(Crashed(res.error));
      }
      var key := KeyAt(keys, |shown|) % 256;
      shown := shown + [res.value];
      if key == EscKey {
        return Some(Escaped);
      } else if key == RecaptureKey {
        CaptureBackground();
      }
      stop := None;
    }

    /** Lines 34-136: capture a background, then loop until a read fails, ESC is pressed, or compositing raises. */
    method Run() returns (why: StopReason)
      modifies this`served, this`bg, this`shown
      ensures served > old(served) + CaptureReads
      ensures old(shown) <= shown
      ensures why == CameraFailed ==> ReadAt(camera, served - 1).None?
      ensures why == Escaped ==> |shown| > |old(shown)| && Control(KeyAt(keys, |shown| - 1)) == Quit
      ensures forall k :: |old(shown)| <= k < |shown| - 1 ==> Control(KeyAt(keys, k)) != Quit
      ensures why.Crashed? ==> (why.error == NoBackground <==> bg.None?)
    {
      CaptureBackground();
      while true
        invariant served >= old(served) + CaptureReads
        invariant old(shown) <= shown
        invariant forall k :: |old(shown)| <= k < |shown| ==> Control(KeyAt(keys, k)) != Quit
        decreases if served < |camera| then |camera| - served else 0
      {
        var stop := Step();
        if stop.Some? {
          return stop.value;
        }
      }
    }
  }
}
