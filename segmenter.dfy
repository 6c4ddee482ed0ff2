/**
 * `MediaPipeSegmenter`: the wrapper around MediaPipe's selfie segmenter. The
 * classifier, the buffer extractor, the memory query and the file system are
 * outside the model: what they return is handed in as an `Invocation`, a
 * `MaskImage` and plain booleans. What is modelled is the wrapper's own logic:
 * the order in which it falls back, the video timestamps it hands to the
 * classifier, the grey packing of extracted masks and the fallback ellipse.
 */
module Segmenter {
  import opened Wrappers
  import opened Argb
  import opened Graphics

  // ---------------------------------------------------------------------------
  // What MediaPipe hands back
  // ---------------------------------------------------------------------------

  /**
   * A mask image returned by the classifier, as the extractor sees it.
   * `values` is the sequence of integers the read loop of
   * `extractBitmapFromMPImage` obtains from the extracted buffer, one per
   * read of the loop (four bytes read as a float times 255 cast to int while
   * four or more remain, then single unsigned bytes), or None when
   * every extraction format fails. `floats` is the buffer extracted as 32-bit
   * floats, or None when that extraction throws.
   */
  datatype MaskImage = MaskImage(width: nat, height: nat, values: Option<seq<int>>, floats: Option<seq<real>>)

  /** An `ImageSegmenterResult`: an optional category mask and the confidence masks (absent = empty). */
  datatype SegmenterResult = SegmenterResult(categoryMask: Option<MaskImage>, confidenceMasks: seq<MaskImage>)

  /** How one attempt to run the classifier ends. */
  datatype Invocation =
    | BuildFailed              // building the MPImage from the bitmap threw
    | Threw                    // `segmentForVideo` threw (an exception or out of memory)
    | NoResult                 // `segmentForVideo` returned null
    | Returned(result: SegmenterResult)

  /** The oval `createFallbackMask` paints white on black. */
  datatype Ellipse = Ellipse(centerX: real, centerY: real, radiusX: real, radiusY: real)

  /**
   * A mask bitmap of width x height: the fallback oval, or `createProcessedMask`
   * drawing the extracted `raw` mask scaled to that size.
   */
  datatype Mask =
    | Fallback(width: nat, height: nat, oval: Ellipse)
    | Processed(width: nat, height: nat, raw: Image)

  // ---------------------------------------------------------------------------
  // createFallbackMask
  // ---------------------------------------------------------------------------

  function Min(a: real, b: real): real { if a <= b then a else b }

  function Max(a: real, b: real): real { if a >= b then a else b }

  /**
   * The oval of `createFallbackMask(width, height)`: centred at (0.5 w, 0.4 h)
   * with radius 0.35 min(w, h), narrowed (0.8) and stretched (1.2) for
   * landscape frames, then clamped to [0.25 w, 0.4 w] and [0.3 h, 0.5 h].
   */
  function FallbackEllipse(width: nat, height: nat): Ellipse
    requires height > 0
  {
    var w, h := width as real, height as real;
    var aspectRatio := w / h;
    var baseRadius := Min(w, h) * 0.35;
    var radiusX := baseRadius * (if aspectRatio > 1.0 then 0.8 else 1.0);
    var radiusY := baseRadius * (if aspectRatio > 1.0 then 1.2 else 1.0);
    Ellipse(w * 0.5, h * 0.4, Max(w * 0.25, Min(w * 0.4, radiusX)), Max(h * 0.3, Min(h * 0.5, radiusY)))
  }

  /** The clamps of `createFallbackMask` always land inside their bounds. */
  lemma FallbackEllipseBounds(width: nat, height: nat)
    requires height > 0
    ensures var e, w, h := FallbackEllipse(width, height), width as real, height as real;
      && e.centerX == 0.5 * w && e.centerY == 0.4 * h
      && 0.25 * w <= e.radiusX <= 0.4 * w
      && 0.3 * h <= e.radiusY <= 0.5 * h
  {
  }

  /**
   * The oval stays inside the frame horizontally. Vertically the radius never
   * exceeds 0.42 h (the landscape value 0.35 h * 1.2), so the oval ends at most
   * 0.82 h down and its top edge lies at most 0.02 h above the frame, which
   * happens exactly for landscape frames.
   */
  lemma FallbackEllipseExtent(width: nat, height: nat)
    requires height > 0
    ensures var e, w, h := FallbackEllipse(width, height), width as real, height as real;
      && 0.0 <= e.centerX - e.radiusX && e.centerX + e.radiusX <= w
      && e.radiusY <= 0.42 * h
      && e.centerY + e.radiusY <= 0.82 * h
      && -0.02 * h <= e.centerY - e.radiusY
      && (e.centerY - e.radiusY < 0.0 <==> width > height)
  {
    FallbackEllipseBounds(width, height);
    var w, h := width as real, height as real;
    var e := FallbackEllipse(width, height);
    if width > height {
      QuotientAboveOne(w, h);
      assert e.radiusY == 0.42 * h;
    } else {
      QuotientAtMostOne(w, h);
      assert e.radiusY <= 0.35 * h;
    }
  }

  lemma QuotientAboveOne(w: real, h: real)
    requires 0.0 < h < w
    ensures w / h > 1.0
  {
    var q := w / h;
    assert q * h == w;
  }

  lemma QuotientAtMostOne(w: real, h: real)
    requires 0.0 < h && 0.0 <= w <= h
    ensures w / h <= 1.0
  {
    var q := w / h;
    assert q * h == w;
  }

  /** A portrait or square frame keeps the full radius 0.35 w across. */
  lemma PortraitFallbackRadius(width: nat, height: nat)
    requires 0 < width <= height
    ensures FallbackEllipse(width, height).radiusX == 0.35 * (width as real)
  {
    var w, h := width as real, height as real;
    assert w / h <= 1.0 by {
      assert w <= h;
    }
  }

  /** `createFallbackMask(width, height)`. */
  function FallbackMask(width: nat, height: nat): Mask
    requires height > 0
  {
    Fallback(width, height, FallbackEllipse(width, height))
  }

  // ---------------------------------------------------------------------------
  // extractBitmapFromMPImage
  // ---------------------------------------------------------------------------

  /**
   * The bitmap `extractBitmapFromMPImage` builds: the i-th value read, clamped
   * to 0..255, becomes the opaque grey pixel i; pixels past the values read
   * stay 0. None when no extraction format succeeds or Android refuses a
   * bitmap with a zero dimension.
   */
  function ExtractedOf(mask: MaskImage): Option<Image>
  {
    var n := mask.width * mask.height;
    if mask.values.None? || mask.width == 0 || mask.height == 0 then None
    else Some(Image(mask.width, mask.height,
                    seq(n, i requires 0 <= i < n => if i < |mask.values.value| then Grey(Clamp(mask.values.value[i])) else 0)))
  }

  /**
   * `extractBitmapFromMPImage`: reads values while both pixels are left to fill
   * and the buffer has values remaining.
   */
  method ExtractBitmapFromMPImage(mask: MaskImage) returns (r: Option<Image>)
    ensures r == ExtractedOf(mask)
  {
    if mask.values.None? || mask.width == 0 || mask.height == 0 {
      return None;
    }
    var values := mask.values.value;
    var n := mask.width * mask.height;
    var pixels := new Pixel[n](_ => 0);
    var i := 0;
    while i < n && i < |values|
      invariant 0 <= i <= n && i <= |values|
      invariant forall k | 0 <= k < n :: pixels[k] == if k < i then Grey(Clamp(values[k])) else 0
    {
      var value := Clamp(values[i]);
      pixels[i] := Grey(value);
      i := i + 1;
    }
    assert pixels[..] == ExtractedOf(mask).value.pixels;
    r := Some(Image(mask.width, mask.height, pixels[..]));
  }

  /**
   * An extracted mask has the mask image's size; its first
   * min(w * h, values read) pixels are opaque grey with the clamped value in
   * every channel, and the rest are never written.
   */
  lemma ExtractedIsGrey(mask: MaskImage)
    requires ExtractedOf(mask).Some?
    ensures var image := ExtractedOf(mask).value;
      && image.Valid() && image.width == mask.width && image.height == mask.height
      && forall i | 0 <= i < |image.pixels| ::
           if i < |mask.values.value| then
             var v := Clamp(mask.values.value[i]);
             AlphaOf(image.pixels[i]) == 0xFF && RedOf(image.pixels[i]) == v
             && GreenOf(image.pixels[i]) == v && BlueOf(image.pixels[i]) == v
           else image.pixels[i] == 0
  {
    var image := ExtractedOf(mask).value;
    forall i | 0 <= i < |image.pixels| && i < |mask.values.value|
      ensures var v := Clamp(mask.values.value[i]);
        AlphaOf(image.pixels[i]) == 0xFF && RedOf(image.pixels[i]) == v
        && GreenOf(image.pixels[i]) == v && BlueOf(image.pixels[i]) == v
    {
      var v := Clamp(mask.values.value[i]);
      assert image.pixels[i] == Grey(v);
      GreyChannels(v);
    }
  }

  /** A grey pixel is opaque with the same value in every colour channel. */
  lemma GreyChannels(v: Byte)
    ensures AlphaOf(Grey(v)) == 0xFF && RedOf(Grey(v)) == v && GreenOf(Grey(v)) == v && BlueOf(Grey(v)) == v
  {
    Unpack(0xFF, v, v, v);
  }

  /** The confidence floats `runSegmentationForConfidenceMask` copies: exactly w * h, or null on underflow. */
  function ConfidenceArrayOf(mask: MaskImage): (r: Option<seq<real>>)
  {
    var n := mask.width * mask.height;
    match mask.floats
    case None => None
    case Some(floats) => if |floats| >= n then Some(floats[..n]) else None
  }

  // ---------------------------------------------------------------------------
  // The decision ladders
  // ---------------------------------------------------------------------------

  /**
   * The mask built from a classifier result for an input of the given size:
   * the category mask when it can be extracted, otherwise the first confidence
   * mask when it can, otherwise the fallback oval.
   */
  function MaskFor(width: nat, height: nat, result: SegmenterResult): Mask
    requires height > 0
  {
    var category := if result.categoryMask.Some? then ExtractedOf(result.categoryMask.value) else None;
    var confidence := if |result.confidenceMasks| > 0 then ExtractedOf(result.confidenceMasks[0]) else None;
    if category.Some? then Processed(width, height, category.value)
    else if confidence.Some? then Processed(width, height, confidence.value)
    else FallbackMask(width, height)
  }

  /** Whether an attempt reaches the classifier, and so takes a timestamp. */
  predicate Invokes(initialized: bool, recycled: bool, memoryPressure: bool, invocation: Invocation)
  {
    initialized && !recycled && !memoryPressure && !invocation.BuildFailed?
  }

  /**
   * `runSegmentation(input)`: null while the segmenter is not initialised or
   * the input is recycled; the fallback oval under memory pressure (more than
   * 95% of the heap in use), when the build or the classifier throws, or when
   * it returns null; otherwise `MaskFor` the result.
   */
  function SegmentationOf(initialized: bool, recycled: bool, input: Image, memoryPressure: bool,
                          invocation: Invocation): Option<Mask>
    requires input.Valid()
  {
    if !initialized || recycled then None
    else if memoryPressure then Some(FallbackMask(input.width, input.height))
    else match invocation
      case Returned(result) => Some(MaskFor(input.width, input.height, result))
      case _ => Some(FallbackMask(input.width, input.height))
  }

  /**
   * `runSegmentationForConfidenceMask(input)`: no fallback here; every failure
   * is null, and otherwise the floats of the first confidence mask.
   */
  function ConfidenceOf(initialized: bool, recycled: bool, memoryPressure: bool, invocation: Invocation): Option<seq<real>>
  {
    if Invokes(initialized, recycled, memoryPressure, invocation) && invocation.Returned?
       && |invocation.result.confidenceMasks| > 0
    then ConfidenceArrayOf(invocation.result.confidenceMasks[0])
    else None
  }

  /** `runSegmentation` gives null exactly when the segmenter is not initialised or the input is recycled. */
  lemma NullOnlyWhenUnavailable(initialized: bool, recycled: bool, input: Image, memoryPressure: bool,
                                invocation: Invocation)
    requires input.Valid()
    ensures SegmentationOf(initialized, recycled, input, memoryPressure, invocation).None? <==> !initialized || recycled
  {
  }

  /** Every mask `runSegmentation` returns has the input's width and height. */
  lemma MaskHasInputSize(initialized: bool, recycled: bool, input: Image, memoryPressure: bool,
                         invocation: Invocation)
    requires input.Valid()
    requires SegmentationOf(initialized, recycled, input, memoryPressure, invocation).Some?
    ensures var mask := SegmentationOf(initialized, recycled, input, memoryPressure, invocation).value;
      mask.width == input.width && mask.height == input.height
  {
  }

  /**
   * A category mask that can be extracted wins over any confidence mask; a
   * confidence mask is used only when the category mask is absent or cannot be
   * extracted; with neither, the fallback oval is used.
   */
  lemma CategoryMaskPreferred(width: nat, height: nat, result: SegmenterResult)
    requires height > 0
    ensures var m := MaskFor(width, height, result);
      && (result.categoryMask.Some? && ExtractedOf(result.categoryMask.value).Some? ==>
            m == Processed(width, height, ExtractedOf(result.categoryMask.value).value))
      && (m.Processed? && (result.categoryMask.None? || ExtractedOf(result.categoryMask.value).None?) ==>
            |result.confidenceMasks| > 0 && Some(m.raw) == ExtractedOf(result.confidenceMasks[0]))
      && (m.Fallback? <==>
            (result.categoryMask.None? || ExtractedOf(result.categoryMask.value).None?)
            && (|result.confidenceMasks| == 0 || ExtractedOf(result.confidenceMasks[0]).None?))
  {
  }

  /** A confidence array, when there is one, holds exactly one float per mask pixel. */
  lemma ConfidenceArrayLength(initialized: bool, recycled: bool, memoryPressure: bool, invocation: Invocation)
    requires ConfidenceOf(initialized, recycled, memoryPressure, invocation).Some?
    ensures invocation.Returned? && |invocation.result.confidenceMasks| > 0
    ensures var mask := invocation.result.confidenceMasks[0];
      |ConfidenceOf(initialized, recycled, memoryPressure, invocation).value| == mask.width * mask.height
  {
  }

  // ---------------------------------------------------------------------------
  // The segmenter object
  // ---------------------------------------------------------------------------

  /**
   * The segmenter's state: whether an `ImageSegmenter` is held, the frame
   * counter shared by both entry points, and the timestamps handed to the
   * classifier so far, in order.
   */
  class MediaPipeSegmenter {
    var initialized: bool
    var frameCount: nat
    ghost var timestamps: seq<int>

    /** Call k to the classifier got timestamp 150 k: one per counted frame. */
    ghost predicate Valid()
      reads this
    {
      |timestamps| == frameCount && forall i | 0 <= i < |timestamps| :: timestamps[i] == i * 150
    }

    constructor ()
      ensures Valid() && !initialized && frameCount == 0 && timestamps == []
    {
      initialized := false;
      frameCount := 0;
      timestamps := [];
    }

    /**
     * `initialize(modelPath)`: false when the model file is absent or the
     * segmenter cannot be created (which leaves any previous one in place).
     */
    method Initialize(modelExists: bool, created: bool) returns (ok: bool)
      requires Valid()
      modifies this
      ensures Valid()
      ensures ok == (modelExists && created)
      ensures initialized == (ok || old(initialized))
      ensures frameCount == old(frameCount) && timestamps == old(timestamps)
    {
      if !modelExists {
        return false;
      }
      if !created {
        return false;
      }
      initialized := true;
      ok := true;
    }

    /** Takes the next video timestamp, `frameCount * 150`, and advances the counter. */
    method NextTimestamp() returns (timestampMs: int)
      requires Valid()
      modifies this
      ensures Valid()
      ensures timestampMs == old(frameCount) * 150
      ensures frameCount == old(frameCount) + 1 && timestamps == old(timestamps) + [timestampMs]
      ensures initialized == old(initialized)
    {
      timestampMs := frameCount * 150;
      frameCount := frameCount + 1;
      timestamps := timestamps + [timestampMs];
    }

    /** `runSegmentation(input)`. */
    method RunSegmentation(input: Bitmap, memoryPressure: bool, invocation: Invocation) returns (mask: Option<Mask>)
      requires Valid() && input.image.Valid()
      modifies this
      ensures Valid()
      ensures mask == SegmentationOf(old(initialized), input.recycled, input.image, memoryPressure, invocation)
      ensures initialized == old(initialized)
      ensures frameCount == old(frameCount) + if Invokes(old(initialized), input.recycled, memoryPressure, invocation) then 1 else 0
    {
      var width, height := input.image.width, input.image.height;
      if !initialized {
        return None;
      }
      if input.recycled {
        return None;
      }
      if memoryPressure {
        return Some(FallbackMask(width, height));
      }
      if invocation.BuildFailed? {
        return Some(FallbackMask(width, height));
      }
      var timestampMs := NextTimestamp();
      if invocation.Returned? {
        var result := invocation.result;
        if result.categoryMask.Some? {
          var raw := ExtractBitmapFromMPImage(result.categoryMask.value);
          if raw.Some? {
            return Some(Processed(width, height, raw.value));
          }
        }
        if |result.confidenceMasks| > 0 {
          var raw := ExtractBitmapFromMPImage(result.confidenceMasks[0]);
          if raw.Some? {
            return Some(Processed(width, height, raw.value));
          }
        }
      }
      mask := Some(FallbackMask(width, height));
    }

    /** `runSegmentationForConfidenceMask(input)`. */
    method RunSegmentationForConfidenceMask(input: Bitmap, memoryPressure: bool, invocation: Invocation)
      returns (alpha: Option<seq<real>>)
      requires Valid()
      modifies this
      ensures Valid()
      ensures alpha == ConfidenceOf(old(initialized), input.recycled, memoryPressure, invocation)
      ensures initialized == old(initialized)
      ensures frameCount == old(frameCount) + if Invokes(old(initialized), input.recycled, memoryPressure, invocation) then 1 else 0
    {
      if !initialized || input.recycled || memoryPressure || invocation.BuildFailed? {
        return None;
      }
      var timestampMs := NextTimestamp();
      alpha := None;
      if invocation.Returned? && |invocation.result.confidenceMasks| > 0 {
        alpha := ConfidenceArrayOf(invocation.result.confidenceMasks[0]);
      }
    }

    /** `release()`: drops the segmenter; a second call finds none and does nothing. */
    method Release()
      modifies this
      ensures !initialized
      ensures frameCount == old(frameCount) && timestamps == old(timestamps)
      ensures !old(initialized) ==> unchanged(this)
    {
      if initialized {
        initialized := false;
      }
    }
  }

  /** The timestamps the classifier receives go up by exactly 150 ms from one call to the next. */
  lemma TimestampsIncrease(s: MediaPipeSegmenter, i: nat)
    requires s.Valid() && i + 1 < |s.timestamps|
    ensures s.timestamps[i + 1] == s.timestamps[i] + 150
    ensures s.timestamps[i] < s.timestamps[i + 1]
  {
    assert s.timestamps[i + 1] == (i + 1) * 150;
  }
}
