/**
 * `SegmentationProcessor`: the per-frame controller that runs segmentation
 * and replaces the background. Each frame goes through a gate (effect off,
 * 50 ms throttle, 5-failure circuit breaker with a 2 s retry), then an attempt
 * (I420 to bitmap, segmentation, compositing, bitmap back to I420) whose
 * failures and successes are counted. The clock and everything Android draws
 * are parameters: `now`, the pixels of the downscaled frame, and the outcome
 * of compositing.
 */
module Processor {
  import opened Wrappers
  import opened Argb
  import opened Graphics
  import opened FrameUtils
  import opened Segmenter
  import opened BoxBlur

  /** `Mode.NONE`, `Mode.BLUR`, `Mode.VIRTUAL_BACKGROUND`. */
  datatype Mode = Off | Blur | VirtualBackground

  /** `PROCESS_INTERVAL_MS`: at most one attempt per 50 ms. */
  const ProcessIntervalMs: int := 50
  /** `MAX_CONSECUTIVE_FAILURES`: the breaker opens at 5 failures in a row. */
  const MaxConsecutiveFailures: nat := 5
  /** After 2000 ms without an attempt an open breaker lets one through. */
  const BreakerRetryMs: int := 2000
  /** `frameSkipCount` is cleared by a successful replacement once it exceeds 100. */
  const SkipReportThreshold: nat := 100
  /** `applyBoxBlur(smallBitmap, 2)`. */
  const BlurRadius: nat := 2

  /** The fields `onFrame` reads and writes. */
  datatype State = State(mode: Mode, lastProcessTime: int, consecutiveFailures: nat, frameSkipCount: nat)

  // ---------------------------------------------------------------------------
  // The pure state machine
  // ---------------------------------------------------------------------------

  /** How the gate at the top of `onFrame` treats a frame arriving at `now`. */
  datatype Gate = PassThrough | Throttled | Blocked | Proceed

  function GateOf(s: State, now: int): Gate
  {
    if s.mode == Off then PassThrough
    else if now - s.lastProcessTime < ProcessIntervalMs then Throttled
    else if s.consecutiveFailures >= MaxConsecutiveFailures && !(now - s.lastProcessTime > BreakerRetryMs) then Blocked
    else Proceed
  }

  /**
   * How an attempt ends: no bitmap from the frame, no mask from the
   * segmenter, an exception while compositing (out of memory or not) or an
   * `OutOfMemoryError` while converting, the
   * effect leaving the input bitmap as it was, or a replacement bitmap whose
   * conversion back to a frame gave `replacement` (None for null).
   */
  datatype Attempt = NoBitmap | NoMask | Failed(outOfMemory: bool) | Unprocessed | Replaced(replacement: Option<VideoFrame>)

  /**
   * `onFrame`: the new state and the frame returned, given how the attempt
   * would end if the gate lets one through.
   */
  function Step(s: State, now: int, frame: VideoFrame, attempt: Attempt): (State, VideoFrame)
  {
    match GateOf(s, now)
    case PassThrough => (s, frame)
    case Throttled => (s.(frameSkipCount := s.frameSkipCount + 1), frame)
    case Blocked => (s, frame)
    case Proceed =>
      var failures := if s.consecutiveFailures >= MaxConsecutiveFailures then 0 else s.consecutiveFailures;
      Settle(s.(lastProcessTime := now, consecutiveFailures := failures), frame, attempt)
  }

  /** The bookkeeping after an attempt, from the state it started in. */
  function Settle(t: State, frame: VideoFrame, attempt: Attempt): (State, VideoFrame)
  {
    match attempt
    case NoBitmap => (t.(consecutiveFailures := t.consecutiveFailures + 1), frame)
    case NoMask => (t.(consecutiveFailures := t.consecutiveFailures + 1), frame)
    case Failed(outOfMemory) =>
      (t.(consecutiveFailures := if outOfMemory then MaxConsecutiveFailures else t.consecutiveFailures + 1), frame)
    case Unprocessed => (t.(consecutiveFailures := 0), frame)
    case Replaced(replacement) =>
      var skips := if t.frameSkipCount > SkipReportThreshold then 0 else t.frameSkipCount;
      (t.(consecutiveFailures := 0, frameSkipCount := skips), if replacement.Some? then replacement.value else frame)
  }

  /** Whether an attempt ended as a failure. */
  predicate IsFailure(attempt: Attempt)
  {
    attempt.NoBitmap? || attempt.NoMask? || attempt.Failed?
  }

  /** With the effect off, the frame is returned and nothing changes. */
  lemma OffPassesThrough(s: State, now: int, frame: VideoFrame, attempt: Attempt)
    requires s.mode == Off
    ensures Step(s, now, frame, attempt) == (s, frame)
  {
  }

  /** A frame within 50 ms of the last attempt is returned as is, and only the skip counter moves. */
  lemma ThrottleOnlyCountsSkips(s: State, now: int, frame: VideoFrame, attempt: Attempt)
    requires s.mode != Off && now - s.lastProcessTime < ProcessIntervalMs
    ensures Step(s, now, frame, attempt) == (s.(frameSkipCount := s.frameSkipCount + 1), frame)
  {
  }

  /**
   * With 5 or more failures the breaker returns the frame and changes nothing
   * until more than 2000 ms have passed since the last attempt; then the
   * counter restarts from 0 and an attempt is made.
   */
  lemma CircuitBreaker(s: State, now: int, frame: VideoFrame, attempt: Attempt)
    requires s.mode != Off && now - s.lastProcessTime >= ProcessIntervalMs
    requires s.consecutiveFailures >= MaxConsecutiveFailures
    ensures now - s.lastProcessTime <= BreakerRetryMs ==> Step(s, now, frame, attempt) == (s, frame)
    ensures now - s.lastProcessTime > BreakerRetryMs ==>
      var (t, _) := Step(s, now, frame, attempt);
      t.lastProcessTime == now
      && t.consecutiveFailures == (if IsFailure(attempt) then (if attempt.Failed? && attempt.outOfMemory then 5 else 1) else 0)
  {
  }

  /**
   * Every attempt records its time; a failed one returns the original frame
   * and adds exactly one failure to the count it started from (the breaker
   * having restarted it from 0 if it was open), except running out of memory,
   * which sets the count to 5.
   */
  lemma FailureCounting(s: State, now: int, frame: VideoFrame, attempt: Attempt)
    requires GateOf(s, now) == Proceed && IsFailure(attempt)
    ensures var (t, out) := Step(s, now, frame, attempt);
      var before := if s.consecutiveFailures >= MaxConsecutiveFailures then 0 else s.consecutiveFailures;
      && out == frame
      && t.lastProcessTime == now && t.mode == s.mode && t.frameSkipCount == s.frameSkipCount
      && t.consecutiveFailures == (if attempt.Failed? && attempt.outOfMemory then MaxConsecutiveFailures else before + 1)
  {
  }

  /**
   * A successful attempt clears the failure count and returns the replacement
   * frame, or the original when there is none.
   */
  lemma SuccessResetsFailures(s: State, now: int, frame: VideoFrame, attempt: Attempt)
    requires GateOf(s, now) == Proceed && !IsFailure(attempt)
    ensures var (t, out) := Step(s, now, frame, attempt);
      && t.consecutiveFailures == 0 && t.lastProcessTime == now && t.mode == s.mode
      && out == (if attempt.Replaced? && attempt.replacement.Some? then attempt.replacement.value else frame)
      && t.frameSkipCount == (if attempt.Replaced? && s.frameSkipCount > SkipReportThreshold then 0 else s.frameSkipCount)
  {
  }

  /** `onFrame` never changes the mode, and keeps the failure count at most 5. */
  lemma FailuresStayBounded(s: State, now: int, frame: VideoFrame, attempt: Attempt)
    requires s.consecutiveFailures <= MaxConsecutiveFailures
    ensures var (t, _) := Step(s, now, frame, attempt);
      t.mode == s.mode && t.consecutiveFailures <= MaxConsecutiveFailures
  {
  }

  /** Only an attempt moves `lastProcessTime`, and it moves it to `now`. */
  lemma OnlyAttemptsRecordTime(s: State, now: int, frame: VideoFrame, attempt: Attempt)
    ensures var (t, _) := Step(s, now, frame, attempt);
      t.lastProcessTime == (if GateOf(s, now) == Proceed then now else s.lastProcessTime)
  {
  }

  // ---------------------------------------------------------------------------
  // How an attempt ends
  // ---------------------------------------------------------------------------

  /** What Android's drawing does when compositing a frame: the pixels it leaves, or the error it throws. */
  datatype Composite = Drawn(pixels: seq<Pixel>) | Crashed(outOfMemory: bool)

  /**
   * What the mode asks for: the background blurred, the background replaced by
   * an image, or (the `default` branch, which the mode check before it rules
   * out) the input kept.
   */
  datatype Effect = Unchanged | BackgroundBlur | ReplaceBackground(background: Image)

  /** `applyVirtualBackground`: with no background image it falls back to `applyBackgroundBlur`. */
  function VirtualBackgroundEffect(background: Option<Image>): Effect
  {
    if background.None? then BackgroundBlur else ReplaceBackground(background.value)
  }

  /** The `switch (currentMode)` of `onFrame`. */
  function EffectOf(mode: Mode, background: Option<Image>): Effect
  {
    match mode
    case Blur => BackgroundBlur
    case VirtualBackground => VirtualBackgroundEffect(background)
    case Off => Unchanged
  }

  /** Virtual background with no image set composites exactly as blur does. */
  lemma VirtualBackgroundWithoutImageBlurs(background: Option<Image>)
    ensures EffectOf(VirtualBackground, None) == EffectOf(Blur, background)
    ensures background.Some? ==> EffectOf(VirtualBackground, background) != EffectOf(Blur, background)
  {
  }

  /**
   * `createBlurredBitmapLegacy` shrinks the frame to (w / 4, h / 4) before
   * blurring; `createScaledBitmap` throws for a zero size, so that is None.
   */
  function BlurSize(width: nat, height: nat): Option<(nat, nat)>
  {
    if width / 4 == 0 || height / 4 == 0 then None else Some((width / 4, height / 4))
  }

  /** The downscale is possible exactly from 4 x 4 up, and is a quarter size rounded down. */
  lemma BlurSizeBounds(width: nat, height: nat)
    ensures BlurSize(width, height).Some? <==> width >= 4 && height >= 4
    ensures BlurSize(width, height).Some? ==>
      var (w, h) := BlurSize(width, height).value;
      && 4 * w <= width < 4 * w + 4 && 4 * h <= height < 4 * h + 4
      && 1 <= w && 1 <= h
  {
  }

  /**
   * Whether the heap runs out while `toI420` and `convertI420ToBitmap` turn
   * the frame into a bitmap, or while `convertBitmapToVideoFrame` turns the
   * composited bitmap back into a frame. The conversions catch `Exception`
   * only, so an `OutOfMemoryError` there reaches `onFrame`'s own handler.
   */
  datatype Heap = Sufficient | ExhaustedToBitmap | ExhaustedToFrame

  /**
   * How an attempt on `frame` ends with the segmenter `ready` (initialised),
   * the given heap, effect and compositing outcome. The input bitmap is
   * new, so never recycled; the segmenter then yields null only when it is
   * not initialised.
   */
  function AttemptOf(frame: VideoFrame, ready: bool, heap: Heap, effect: Effect, composite: Composite): Attempt
    requires composite.Drawn? ==> |composite.pixels| == frame.buffer.width * frame.buffer.height
  {
    var width, height := frame.buffer.width, frame.buffer.height;
    if heap.ExhaustedToBitmap? then Failed(true)
    else if width == 0 || height == 0 then NoBitmap
    else if !ready then NoMask
    else if effect.Unchanged? then Unprocessed
    else if effect.BackgroundBlur? && BlurSize(width, height).None? then Failed(false)
    else match composite
      case Crashed(outOfMemory) => Failed(outOfMemory)
      case Drawn(pixels) =>
        if heap.ExhaustedToFrame? then Failed(true)
        else Replaced(FrameOf(Image(width, height, pixels), frame.timestampNs, 0))
  }

  /**
   * Whether an attempt reaches `runSegmentation` with a new (unrecycled) input
   * bitmap and the classifier is invoked, so the segmenter takes a timestamp.
   */
  predicate Segments(frame: VideoFrame, ready: bool, heap: Heap, memoryPressure: bool, invocation: Invocation)
  {
    !heap.ExhaustedToBitmap? && frame.buffer.width > 0 && frame.buffer.height > 0
    && Invokes(ready, false, memoryPressure, invocation)
  }

  /**
   * An attempt that takes a timestamp has a mask, and one that never gets a
   * bitmap or a mask takes none.
   */
  lemma SegmentingAttemptsHaveMask(frame: VideoFrame, ready: bool, heap: Heap, memoryPressure: bool,
                                   invocation: Invocation, effect: Effect, composite: Composite)
    requires composite.Drawn? ==> |composite.pixels| == frame.buffer.width * frame.buffer.height
    ensures Segments(frame, ready, heap, memoryPressure, invocation) ==>
      var a := AttemptOf(frame, ready, heap, effect, composite);
      !a.NoBitmap? && !a.NoMask?
    ensures var a := AttemptOf(frame, ready, heap, effect, composite);
      a.NoBitmap? || a.NoMask? || heap.ExhaustedToBitmap? ==> !Segments(frame, ready, heap, memoryPressure, invocation)
  {
  }

  /**
   * Running out of memory in either conversion disables processing: the
   * attempt fails as out of memory whatever the effect and the drawing.
   */
  lemma ExhaustedConversionFailsOutOfMemory(frame: VideoFrame, ready: bool, heap: Heap, effect: Effect, composite: Composite)
    requires composite.Drawn? ==> |composite.pixels| == frame.buffer.width * frame.buffer.height
    requires heap.ExhaustedToBitmap? || (heap.ExhaustedToFrame? && composite.Drawn? && ready
      && 0 < frame.buffer.width && 0 < frame.buffer.height && !effect.Unchanged?
      && (effect.BackgroundBlur? ==> BlurSize(frame.buffer.width, frame.buffer.height).Some?))
    ensures AttemptOf(frame, ready, heap, effect, composite) == Failed(true)
  {
  }

  /**
   * A replacement frame keeps the input's timestamp and has rotation 0, and
   * carries the I420 planes of the composited bitmap.
   */
  lemma ReplacementKeepsTimestamp(frame: VideoFrame, ready: bool, heap: Heap, effect: Effect, composite: Composite)
    requires composite.Drawn? ==> |composite.pixels| == frame.buffer.width * frame.buffer.height
    requires var a := AttemptOf(frame, ready, heap, effect, composite); a.Replaced? && a.replacement.Some?
    ensures var f := AttemptOf(frame, ready, heap, effect, composite).replacement.value;
      && composite.Drawn? && heap.Sufficient?
      && f.timestampNs == frame.timestampNs && f.rotation == 0
      && Some(f.buffer) == I420Of(Image(frame.buffer.width, frame.buffer.height, composite.pixels))
  {
  }

  /** Blurring a frame smaller than 4 pixels in either direction always fails. */
  lemma TinyFramesCannotBlur(frame: VideoFrame, heap: Heap, composite: Composite)
    requires composite.Drawn? ==> |composite.pixels| == frame.buffer.width * frame.buffer.height
    requires 0 < frame.buffer.width && 0 < frame.buffer.height
    requires frame.buffer.width < 4 || frame.buffer.height < 4
    requires !heap.ExhaustedToBitmap?
    ensures AttemptOf(frame, true, heap, BackgroundBlur, composite) == Failed(false)
  {
  }

  // ---------------------------------------------------------------------------
  // The processor object
  // ---------------------------------------------------------------------------

  /** The outcome of a compositing method: the bitmap drawn, or the error thrown. */
  datatype Drawing = Done(bitmap: Bitmap) | Raised(outOfMemory: bool)

  class SegmentationProcessor {
    const segmenter: MediaPipeSegmenter
    var currentMode: Mode
    var virtualBackgroundBitmap: Bitmap?
    var lastProcessTime: int
    var consecutiveFailures: nat
    var frameSkipCount: nat

    function StateOf(): State
      reads this
    {
      State(currentMode, lastProcessTime, consecutiveFailures, frameSkipCount)
    }

    /** The background image `applyVirtualBackground` would use, if any. */
    function Background(): Option<Image>
      reads this
    {
      if virtualBackgroundBitmap == null then None else Some(virtualBackgroundBitmap.image)
    }

    ghost predicate Valid()
      reads this, segmenter
    {
      segmenter.Valid()
    }

    constructor ()
      ensures Valid() && fresh(segmenter) && !segmenter.initialized && segmenter.frameCount == 0
      ensures StateOf() == State(Off, 0, 0, 0) && virtualBackgroundBitmap == null
    {
      segmenter := new MediaPipeSegmenter();
      currentMode := Off;
      virtualBackgroundBitmap := null;
      lastProcessTime := 0;
      consecutiveFailures := 0;
      frameSkipCount := 0;
    }

    /** `initialize(modelPath)`: delegates to the segmenter. */
    method Initialize(modelExists: bool, created: bool) returns (ok: bool)
      requires Valid()
      modifies segmenter
      ensures Valid()
      ensures ok == (modelExists && created) && segmenter.initialized == (ok || old(segmenter.initialized))
      ensures segmenter.frameCount == old(segmenter.frameCount)
    {
      ok := segmenter.Initialize(modelExists, created);
    }

    /** `setMode(mode)`: also clears the failure count. */
    method SetMode(mode: Mode)
      modifies this
      ensures StateOf() == old(StateOf()).(mode := mode, consecutiveFailures := 0)
      ensures virtualBackgroundBitmap == old(virtualBackgroundBitmap)
    {
      currentMode := mode;
      consecutiveFailures := 0;
    }

    /** `resetFailures()`. */
    method ResetFailures()
      modifies this
      ensures StateOf() == old(StateOf()).(consecutiveFailures := 0)
      ensures virtualBackgroundBitmap == old(virtualBackgroundBitmap)
    {
      consecutiveFailures := 0;
    }

    /**
     * `setVirtualBackground(bitmap)`: a bitmap switches the mode to virtual
     * background; null clears the image and leaves the mode (and the failure
     * count) as they were.
     */
    method SetVirtualBackground(bitmap: Bitmap?)
      modifies this
      ensures virtualBackgroundBitmap == bitmap
      ensures StateOf() == old(StateOf()).(mode := if bitmap != null then VirtualBackground else old(currentMode))
    {
      virtualBackgroundBitmap := bitmap;
      if bitmap != null {
        currentMode := VirtualBackground;
      }
    }

    /** `cleanupBitmap(bitmap)`: recycles a bitmap that is there and not yet recycled. */
    static method CleanupBitmap(bitmap: Bitmap?)
      modifies bitmap
      ensures bitmap != null ==> bitmap.recycled
    {
      if bitmap != null && !bitmap.recycled {
        bitmap.Recycle();
      }
    }

    /**
     * `release()`: releases the segmenter, and recycles and forgets the
     * background image when it is there and not yet recycled (one already
     * recycled stays referenced).
     */
    method Release()
      requires Valid()
      modifies this, segmenter, virtualBackgroundBitmap
      ensures Valid() && !segmenter.initialized
      ensures segmenter.frameCount == old(segmenter.frameCount)
      ensures StateOf() == old(StateOf())
      ensures old(virtualBackgroundBitmap) != null && !old(virtualBackgroundBitmap.recycled) ==>
        old(virtualBackgroundBitmap).recycled && virtualBackgroundBitmap == null
      ensures old(virtualBackgroundBitmap) == null || old(virtualBackgroundBitmap.recycled) ==>
        virtualBackgroundBitmap == old(virtualBackgroundBitmap)
    {
      segmenter.Release();
      if virtualBackgroundBitmap != null && !virtualBackgroundBitmap.recycled {
        virtualBackgroundBitmap.Recycle();
        virtualBackgroundBitmap := null;
      }
    }

    /**
     * `createBlurredBitmapLegacy(input)` up to the scale back up: the frame
     * shrunk to (w / 4, h / 4) (`scaledDown` is what `createScaledBitmap`
     * draws) and blurred with radius 2; None when the shrink throws.
     */
    static method CreateBlurredBitmapLegacy(input: Image, scaledDown: seq<Pixel>) returns (blurredSmall: Option<Image>)
      requires input.Valid()
      requires BlurSize(input.width, input.height).Some? ==>
        |scaledDown| == BlurSize(input.width, input.height).value.0 * BlurSize(input.width, input.height).value.1
      ensures blurredSmall.Some? <==> BlurSize(input.width, input.height).Some?
      ensures blurredSmall.Some? ==>
        var (w, h) := BlurSize(input.width, input.height).value;
        && blurredSmall.value.width == w && blurredSmall.value.height == h
        && BoxBlurred(blurredSmall.value.pixels, scaledDown, w, h, BlurRadius)
    {
      var size := BlurSize(input.width, input.height);
      if size.None? {
        return None;
      }
      var (w, h) := size.value;
      var small := Image(w, h, scaledDown);
      var blurred := ApplyBoxBlur(small, BlurRadius);
      blurredSmall := Some(blurred);
    }

    /**
     * `applyBackgroundBlur(input, mask)`: the blurred background is built
     * first, so a frame too small to shrink throws before anything is drawn.
     */
    static method ApplyBackgroundBlur(input: Bitmap, scaledDown: seq<Pixel>, composite: Composite) returns (r: Drawing)
      requires input.image.Valid()
      requires BlurSize(input.image.width, input.image.height).Some? ==>
        |scaledDown| == BlurSize(input.image.width, input.image.height).value.0 * BlurSize(input.image.width, input.image.height).value.1
      requires composite.Drawn? ==> |composite.pixels| == input.image.width * input.image.height
      ensures BlurSize(input.image.width, input.image.height).None? ==> r == Raised(false)
      ensures BlurSize(input.image.width, input.image.height).Some? ==> DrawnAs(r, input.image, composite)
      ensures r.Done? ==> fresh(r.bitmap)
    {
      var blurredSmall := CreateBlurredBitmapLegacy(input.image, scaledDown);
      if blurredSmall.None? {
        return Raised(false);
      }
      r := Draw(input.image, composite);
    }

    /** `applyVirtualBackground(input, mask)`: blur when no background image is set. */
    method ApplyVirtualBackground(input: Bitmap, scaledDown: seq<Pixel>, composite: Composite) returns (r: Drawing)
      requires input.image.Valid()
      requires BlurSize(input.image.width, input.image.height).Some? ==>
        |scaledDown| == BlurSize(input.image.width, input.image.height).value.0 * BlurSize(input.image.width, input.image.height).value.1
      requires composite.Drawn? ==> |composite.pixels| == input.image.width * input.image.height
      ensures virtualBackgroundBitmap == null && BlurSize(input.image.width, input.image.height).None? ==> r == Raised(false)
      ensures virtualBackgroundBitmap != null || BlurSize(input.image.width, input.image.height).Some? ==>
        DrawnAs(r, input.image, composite)
      ensures r.Done? ==> fresh(r.bitmap)
    {
      if virtualBackgroundBitmap == null {
        r := ApplyBackgroundBlur(input, scaledDown, composite);
        return;
      }
      r := Draw(input.image, composite);
    }

    /** The compositing itself: a new bitmap of the input's size holding what Android drew, or the error. */
    static method Draw(input: Image, composite: Composite) returns (r: Drawing)
      requires input.Valid()
      requires composite.Drawn? ==> |composite.pixels| == input.width * input.height
      ensures DrawnAs(r, input, composite)
      ensures r.Done? ==> fresh(r.bitmap)
    {
      match composite {
        case Crashed(outOfMemory) =>
          r := Raised(outOfMemory);
        case Drawn(pixels) =>
          var bitmap := new Bitmap(Image(input.width, input.height, pixels));
          r := Done(bitmap);
      }
    }

    /** `r` is what compositing `input` with the given outcome produces: a fresh bitmap or the error. */
    static ghost predicate DrawnAs(r: Drawing, input: Image, composite: Composite)
      reads if r.Done? then {r.bitmap} else {}
    {
      match composite
      case Crashed(outOfMemory) => r == Raised(outOfMemory)
      case Drawn(pixels) =>
        r.Done? && r.bitmap.image == Image(input.width, input.height, pixels) && !r.bitmap.recycled
    }

    /**
     * The body of `onFrame`'s `try` block after `lastProcessTime` is set: the
     * frame converted to a bitmap, segmented, composited and converted back,
     * with the intermediate bitmaps recycled; the result says which of its
     * returns (or which `catch`) is taken.
     */
    method TryProcess(frame: VideoFrame, heap: Heap, memoryPressure: bool, invocation: Invocation,
                      scaledDown: seq<Pixel>, composite: Composite) returns (attempt: Attempt)
      requires Valid()
      requires var (w, h) := (frame.buffer.width, frame.buffer.height);
        BlurSize(w, h).Some? ==> |scaledDown| == BlurSize(w, h).value.0 * BlurSize(w, h).value.1
      requires composite.Drawn? ==> |composite.pixels| == frame.buffer.width * frame.buffer.height
      modifies segmenter
      ensures Valid() && segmenter.initialized == old(segmenter.initialized)
      ensures attempt == AttemptOf(frame, old(segmenter.initialized), heap, EffectOf(currentMode, Background()), composite)
      ensures segmenter.frameCount ==
        old(segmenter.frameCount) + if Segments(frame, old(segmenter.initialized), heap, memoryPressure, invocation) then 1 else 0
    {
      if heap.ExhaustedToBitmap? {
        return Failed(true);
      }
      var image := I420ToBitmap(frame.buffer);
      if image.None? {
        return NoBitmap;
      }
      var inputBitmap := new Bitmap(image.value);
      var mask := segmenter.RunSegmentation(inputBitmap, memoryPressure, invocation);
      if mask.None? {
        CleanupBitmap(inputBitmap);
        return NoMask;
      }
      var drawing: Drawing;
      match currentMode {
        case Blur =>
          drawing := ApplyBackgroundBlur(inputBitmap, scaledDown, composite);
        case VirtualBackground =>
          drawing := ApplyVirtualBackground(inputBitmap, scaledDown, composite);
        case Off =>
          drawing := Done(inputBitmap);
      }
      if drawing.Raised? {
        return Failed(drawing.outOfMemory);
      }
      var processedBitmap := drawing.bitmap;
      if processedBitmap != inputBitmap {
        if heap.ExhaustedToFrame? {
          return Failed(true);
        }
        var processedFrame := CreateVideoFrameFromBitmap(processedBitmap.image, frame.timestampNs, 0);
        CleanupBitmap(inputBitmap);
        CleanupBitmap(processedBitmap);
        return Replaced(processedFrame);
      }
      CleanupBitmap(inputBitmap);
      attempt := Unprocessed;
    }

    /**
     * `onFrame(frame)` at time `now`. `memoryPressure` and `invocation` are
     * what the segmenter's environment and classifier give; `scaledDown` and
     * `composite` are what Android draws when blurring and compositing.
     */
    method OnFrame(frame: VideoFrame, now: int, heap: Heap, memoryPressure: bool, invocation: Invocation,
                   scaledDown: seq<Pixel>, composite: Composite) returns (out: VideoFrame)
      requires Valid()
      requires var (w, h) := (frame.buffer.width, frame.buffer.height);
        BlurSize(w, h).Some? ==> |scaledDown| == BlurSize(w, h).value.0 * BlurSize(w, h).value.1
      requires composite.Drawn? ==> |composite.pixels| == frame.buffer.width * frame.buffer.height
      modifies this, segmenter
      ensures Valid()
      ensures (StateOf(), out) ==
        Step(old(StateOf()), now, frame,
             AttemptOf(frame, old(segmenter.initialized), heap, EffectOf(old(currentMode), old(Background())), composite))
      ensures virtualBackgroundBitmap == old(virtualBackgroundBitmap)
      ensures segmenter.initialized == old(segmenter.initialized)
      ensures segmenter.frameCount == old(segmenter.frameCount) +
        if GateOf(old(StateOf()), now) == Proceed && Segments(frame, old(segmenter.initialized), heap, memoryPressure, invocation)
        then 1 else 0
    {
      if currentMode == Off {
        return frame;
      }
      if now - lastProcessTime < ProcessIntervalMs {
        frameSkipCount := frameSkipCount + 1;
        return frame;
      }
      if consecutiveFailures >= MaxConsecutiveFailures {
        if now - lastProcessTime > BreakerRetryMs {
          consecutiveFailures := 0;
        } else {
          return frame;
        }
      }
      lastProcessTime := now;
      var attempt := TryProcess(frame, heap, memoryPressure, invocation, scaledDown, composite);
      out := Record(frame, attempt);
    }

    /** The failure and success bookkeeping of `onFrame` once an attempt has ended. */
    method Record(frame: VideoFrame, attempt: Attempt) returns (out: VideoFrame)
      modifies this
      ensures (StateOf(), out) == Settle(old(StateOf()), frame, attempt)
      ensures virtualBackgroundBitmap == old(virtualBackgroundBitmap)
    {
      out := frame;
      match attempt {
        case NoBitmap =>
          consecutiveFailures := consecutiveFailures + 1;
        case NoMask =>
          consecutiveFailures := consecutiveFailures + 1;
        case Failed(outOfMemory) =>
          consecutiveFailures := if outOfMemory then MaxConsecutiveFailures else consecutiveFailures + 1;
        case Unprocessed =>
          consecutiveFailures := 0;
        case Replaced(processedFrame) =>
          if frameSkipCount > SkipReportThreshold {
            frameSkipCount := 0;
          }
          consecutiveFailures := 0;
          if processedFrame.Some? {
            out := processedFrame.value;
          }
      }
    }
  }
}
