# Segmentation pipeline of the flutter-webrtc Android plugin, in Dafny

This project models the Android side of flutter-webrtc's background
segmentation. Four parts are covered:

- `VideoFrameUtils` converts frames between I420 (planar YUV 4:2:0) and ARGB bitmaps, and between I420 and NV21.
- `MediaPipeSegmenter` wraps the MediaPipe image segmenter. It turns a frame bitmap into a person mask, or returns null while it is not initialised or the input is recycled. It falls back to an oval under memory pressure, when building the MediaPipe image or running the classifier throws, when the classifier returns null, and when no mask can be extracted from the result.
- `SegmentationProcessor` is the per-frame controller. It applies a 50 ms throttle and a 5-failure circuit breaker that retries after 2 s. It runs segmentation and replaces the background by a box blur or a virtual image, then converts the result back to a frame.
- `SurfaceTextureRenderer` covers the layout bookkeeping of the Flutter texture renderer: pause, first-frame report, and resolution reports with the rotation forced to 0.

Modules, in dependency order:

| module | file | models |
|---|---|---|
| `Wrappers` | wrappers.dfy | `Option` |
| `Argb` | argb.dfy | packed `0xAARRGGBB` pixels, clamping to 0..255, `(int)` truncation, row-major offsets |
| `Graphics` | graphics.dfy | bitmap contents (`Image`) and the recyclable `Bitmap` object |
| `ByteBuffers` | bytebuffers.dfy | the part of `java.nio.ByteBuffer` the conversions use (`allocateDirect`, `clear`, `put`, `flip`) |
| `Planes` | planes.dfy | the luma and subsampled chroma planes that the RGB to I420 loop writes |
| `FrameUtils` | frame_utils.dfy | `VideoFrameUtils` |
| `BoxBlur` | box_blur.dfy | `applyBoxBlur` and its specification |
| `Segmenter` | segmenter.dfy | `MediaPipeSegmenter` |
| `Processor` | processor.dfy | `SegmentationProcessor` |
| `Renderer` | renderer.dfy | `SurfaceTextureRenderer` |

## How the model is built

- A byte is its unsigned value, 0..255.
- A packed pixel is the unsigned reading of its 32 bits, so `>> 16 & 0xFF` becomes `/ 0x1_0000 % 0x100`.
- The colour coefficients are exact rationals, for example `1.164f` is 1164/1000.
- A `(int)` cast truncates toward zero, and `Math.max(0, Math.min(255, v))` becomes `Clamp`.

Loops that fill arrays or buffers are Dafny methods with loop invariants. Each
is proved against a function of its inputs:

- `ConvertYuv420ToRgb` against `Stored`;
- `ConvertRgbToYuv420` against `EachPixel` and `ChromaRows`;
- `ApplyBoxBlur` against `BoxBlurred`;
- `ExtractBitmapFromMPImage` against `ExtractedOf`;
- `I420ToNv21` against `Interleave`.

Classes whose fields change become Dafny classes. Each public method is proved
against a pure step function, and the behaviour the source promises is proved
about those functions:

- `MediaPipeSegmenter` has `initialized` and `frameCount`, plus a ghost log of the timestamps it sent.
- `SegmentationProcessor` has the mode, throttle time, failure and skip counters, and the virtual background.
- `SurfaceTextureRenderer` has the pause flag, the first-frame flag, the recorded size and rotation, and the log of listener events.

Everything outside the process is a parameter of the operation that uses it:

- for the segmenter: whether the model file exists, whether MediaPipe builds, what `segmentForVideo` returns or throws, and whether memory use is above 95 %;
- for the processor: the clock, whether the heap runs out in either frame conversion (`Heap`), the pixels `createScaledBitmap` produces, and the outcome of the Canvas compositing;
- for the renderer: whether a listener is registered.

### Behaviour of the code worth knowing

- The RGB to I420 conversion does not average a chroma block. It takes U and V from the pixel at even x and y (`I420ChromaReadBack`).
- A bitmap with an odd width or height cannot be converted back. The chroma buffers hold `w*h/4` bytes, but the loop writes `ceil(w/2)*ceil(h/2)`, so `put` overflows and `bitmapToI420` returns null (`I420OfSucceedsIffEven`). The processor then returns the original frame and still counts a success.
- No last good frame is cached. Every failure returns the incoming frame unchanged.
- The fallback oval's centre is at 0.4 of the height. Its vertical radius is at most 0.42 of the height, reached on landscape frames, so on exactly those frames the oval extends above the top edge, by at most 0.02 of the height (`FallbackEllipseExtent`).

## Model

| member | source | states |
|---|---|---|
| Argb.ClampNearest | android/src/main/java/com/cloudwebrtc/webrtc/segmentation/VideoFrameUtils.java:222-224 | the clamped value is the byte nearest the input; exactly the values in 0..255 are kept; clamping keeps the order of two values and clamping twice is clamping once |
| Argb.Trunc | android/src/main/java/com/cloudwebrtc/webrtc/segmentation/VideoFrameUtils.java:217-219 | the Java `(int)` cast of a quotient: rounds toward zero on both sides of 0 |
| Argb.ClampTruncIsClampFloor | android/src/main/java/com/cloudwebrtc/webrtc/segmentation/VideoFrameUtils.java:217-224 | after clamping, truncation and flooring agree, so the negative side of the cast never shows in a channel |
| Argb.Unpack | android/src/main/java/com/cloudwebrtc/webrtc/segmentation/VideoFrameUtils.java:227-249 | packing four bytes as `0xAARRGGBB` and reading them back with shifts and masks gives the same bytes |
| ByteBuffers.ByteBuffer.AllocateDirect | android/src/main/java/com/cloudwebrtc/webrtc/segmentation/VideoFrameUtils.java:85-87 | a zeroed buffer of the given capacity, position 0, limit at capacity |
| ByteBuffers.ByteBuffer.Clear | android/src/main/java/com/cloudwebrtc/webrtc/segmentation/VideoFrameUtils.java:239-241 | position 0 and limit at capacity, contents unchanged, nothing written yet |
| ByteBuffers.ByteBuffer.Put | android/src/main/java/com/cloudwebrtc/webrtc/segmentation/VideoFrameUtils.java:262-267 | overflows exactly when the position is at the limit; otherwise stores the byte at the position and advances it |
| ByteBuffers.ByteBuffer.Flip | android/src/main/java/com/cloudwebrtc/webrtc/segmentation/VideoFrameUtils.java:272-274 | what is readable afterwards is exactly what was written before |
| FrameUtils.YuvToArgbChannels | android/src/main/java/com/cloudwebrtc/webrtc/segmentation/VideoFrameUtils.java:212-227 | a converted pixel is opaque, and its red, green and blue are the clamped, truncated BT.601 sums |
| FrameUtils.NeutralChromaIsGrey | android/src/main/java/com/cloudwebrtc/webrtc/segmentation/VideoFrameUtils.java:212-227 | with U = V = 128 the pixel is grey |
| FrameUtils.NeutralChromaSaturates | android/src/main/java/com/cloudwebrtc/webrtc/segmentation/VideoFrameUtils.java:212-224 | with neutral chroma, luma 16 or below is black and luma 236 or above is white |
| FrameUtils.BlockSharesChroma | android/src/main/java/com/cloudwebrtc/webrtc/segmentation/VideoFrameUtils.java:205-206 | the four pixels of a 2x2 block read the same chroma sample |
| FrameUtils.SampleInRowAt | android/src/main/java/com/cloudwebrtc/webrtc/segmentation/VideoFrameUtils.java:203-214 | the row-wise read matches the index computation `y*yStride+x` and `(y/2)*uStride+x/2` |
| FrameUtils.ConvertYuv420ToRgb | android/src/main/java/com/cloudwebrtc/webrtc/segmentation/VideoFrameUtils.java:199-230 | every pixel of the output is the converted sample when its indices are inside the planes; otherwise the pixel keeps its old value (the `continue`) |
| FrameUtils.I420ToBitmap | android/src/main/java/com/cloudwebrtc/webrtc/segmentation/VideoFrameUtils.java:33-67 | a bitmap exactly when both dimensions are positive, of the buffer's size, each pixel converted or 0 when out of range |
| FrameUtils.ConvertRowToYuv | android/src/main/java/com/cloudwebrtc/webrtc/segmentation/VideoFrameUtils.java:244-269 | one row appends its luma bytes, and on an even row the chroma of every even column; overflows exactly when a buffer runs out |
| FrameUtils.ConvertFrameRow | android/src/main/java/com/cloudwebrtc/webrtc/segmentation/VideoFrameUtils.java:243-270 | after row y, the written bytes are the luma of rows 0..y and the chroma rows built so far |
| FrameUtils.ConvertRgbToYuv420 | android/src/main/java/com/cloudwebrtc/webrtc/segmentation/VideoFrameUtils.java:236-275 | overflows exactly when a plane is larger than its buffer; otherwise the readable contents are the luma plane and the subsampled U and V planes |
| FrameUtils.BitmapToI420 | android/src/main/java/com/cloudwebrtc/webrtc/segmentation/VideoFrameUtils.java:75-161 | the buffer `I420Of` describes, or null when a `put` overflows |
| FrameUtils.I420OfSucceedsIffEven | android/src/main/java/com/cloudwebrtc/webrtc/segmentation/VideoFrameUtils.java:85-89 | the conversion to I420 succeeds if and only if width and height are both even |
| FrameUtils.ChromaFits | android/src/main/java/com/cloudwebrtc/webrtc/segmentation/VideoFrameUtils.java:86-87 | the subsampled plane fits the `w*h/4` allocation if and only if both dimensions are even |
| FrameUtils.I420Layout | android/src/main/java/com/cloudwebrtc/webrtc/segmentation/VideoFrameUtils.java:92-131 | the buffer's dimensions, strides (`w`, `w/2`, `w/2`) and plane sizes |
| FrameUtils.I420LumaAt | android/src/main/java/com/cloudwebrtc/webrtc/segmentation/VideoFrameUtils.java:245-262 | each luma byte is RgbToY of the pixel at the same offset |
| FrameUtils.I420ChromaAt | android/src/main/java/com/cloudwebrtc/webrtc/segmentation/VideoFrameUtils.java:245-268 | chroma sample (cx, cy) is RgbToU/V of the pixel at (2cx, 2cy) |
| FrameUtils.I420ChromaReadBack | android/src/main/java/com/cloudwebrtc/webrtc/segmentation/VideoFrameUtils.java:203-268 | reading a converted buffer with its own chroma stride finds, for every pixel, the chroma of the top-left pixel of its 2x2 block |
| FrameUtils.I420OfSampledBack | android/src/main/java/com/cloudwebrtc/webrtc/segmentation/VideoFrameUtils.java:203-210 | converting back to RGB never takes the skip branch for a buffer this conversion produced |
| FrameUtils.CreateVideoFrameFromBitmap | android/src/main/java/com/cloudwebrtc/webrtc/segmentation/VideoFrameUtils.java:171-193 | a frame carrying the converted buffer, the given rotation and the timestamp, or null when conversion fails |
| FrameUtils.I420ToNv21 | android/src/main/java/com/cloudwebrtc/webrtc/segmentation/VideoFrameUtils.java:311-345 | the NV21 bytes `Nv21Of` describes, or null when a plane is too short |
| FrameUtils.InterleaveChroma | android/src/main/java/com/cloudwebrtc/webrtc/segmentation/VideoFrameUtils.java:334-337 | the luma part is untouched and the chroma part is V and U interleaved |
| FrameUtils.Nv21Layout | android/src/main/java/com/cloudwebrtc/webrtc/segmentation/VideoFrameUtils.java:320-337 | NV21 is the luma plane followed by V at even and U at odd positions |
| FrameUtils.DeinterleaveInterleave | android/src/main/java/com/cloudwebrtc/webrtc/segmentation/VideoFrameUtils.java:334-337 | splitting the interleaved chroma gives back V and U |
| FrameUtils.InterleaveDeinterleave | android/src/main/java/com/cloudwebrtc/webrtc/segmentation/VideoFrameUtils.java:334-337 | interleaving the two halves of a split gives back the sequence |
| FrameUtils.Nv21ChromaSplits | android/src/main/java/com/cloudwebrtc/webrtc/segmentation/VideoFrameUtils.java:320-337 | the NV21 chroma part splits back into the I420 V and U planes |
| FrameUtils.I420OfConvertsToNv21 | android/src/main/java/com/cloudwebrtc/webrtc/segmentation/VideoFrameUtils.java:311-337 | every buffer the bitmap conversion produces converts to NV21 |
| BoxBlur.MeanChannels | android/src/main/java/com/cloudwebrtc/webrtc/segmentation/SegmentationProcessor.java:365-382 | the window holds at least one pixel; the mean pixel is opaque, and each channel is the integer mean of that channel over the in-range neighbours |
| BoxBlur.WindowMean | android/src/main/java/com/cloudwebrtc/webrtc/segmentation/SegmentationProcessor.java:365-382 | the summing loop computes `Mean` of the line through the pixel |
| BoxBlur.BlurRow | android/src/main/java/com/cloudwebrtc/webrtc/segmentation/SegmentationProcessor.java:364-383 | one row of the output is the row-wise mean of the input and nothing else changes |
| BoxBlur.HorizontalPass | android/src/main/java/com/cloudwebrtc/webrtc/segmentation/SegmentationProcessor.java:362-384 | every pixel of `temp` is the mean over its row window |
| BoxBlur.BlurColumn | android/src/main/java/com/cloudwebrtc/webrtc/segmentation/SegmentationProcessor.java:388-407 | one column of the output is the column-wise mean of `temp` and nothing else changes |
| BoxBlur.VerticalPass | android/src/main/java/com/cloudwebrtc/webrtc/segmentation/SegmentationProcessor.java:387-408 | every output pixel is the mean over its column window of `temp` |
| BoxBlur.ApplyBoxBlur | android/src/main/java/com/cloudwebrtc/webrtc/segmentation/SegmentationProcessor.java:354-413 | a bitmap of the same size that is the vertical pass over the horizontal pass of the input |
| BoxBlur.BlurredIsOpaque | android/src/main/java/com/cloudwebrtc/webrtc/segmentation/SegmentationProcessor.java:382-406 | every blurred pixel is opaque (`0xFF000000 \|`) |
| BoxBlur.ConstantIsFixedPoint | android/src/main/java/com/cloudwebrtc/webrtc/segmentation/SegmentationProcessor.java:354-413 | an opaque single-colour image blurs to itself |
| BoxBlur.PassIsUnique | android/src/main/java/com/cloudwebrtc/webrtc/segmentation/SegmentationProcessor.java:362-408 | each pass determines its output |
| BoxBlur.BoxBlurIsDeterministic | android/src/main/java/com/cloudwebrtc/webrtc/segmentation/SegmentationProcessor.java:354-413 | two blurs of the same image with the same radius are equal |
| BoxBlur.RadiusZeroIsIdentity | android/src/main/java/com/cloudwebrtc/webrtc/segmentation/SegmentationProcessor.java:367-406 | with radius 0 an opaque image is unchanged |
| Segmenter.FallbackEllipseBounds | android/src/main/java/com/cloudwebrtc/webrtc/segmentation/MediaPipeSegmenter.java:362-373 | centre at (0.5w, 0.4h); radii clamped into [0.25w, 0.4w] and [0.3h, 0.5h] |
| Segmenter.PortraitFallbackRadius | android/src/main/java/com/cloudwebrtc/webrtc/segmentation/MediaPipeSegmenter.java:362-372 | a portrait or square frame gets horizontal radius 0.35w |
| Segmenter.FallbackEllipseExtent | android/src/main/java/com/cloudwebrtc/webrtc/segmentation/MediaPipeSegmenter.java:362-376 | the oval stays inside the frame horizontally; its vertical radius is at most 0.42h, so it ends by 0.82h down; its top edge lies at most 0.02h above the frame, and above it at all exactly for landscape frames |
| Segmenter.ExtractBitmapFromMPImage | android/src/main/java/com/cloudwebrtc/webrtc/segmentation/MediaPipeSegmenter.java:286-341 | the filling loop computes `ExtractedOf` of the mask |
| Segmenter.ExtractedIsGrey | android/src/main/java/com/cloudwebrtc/webrtc/segmentation/MediaPipeSegmenter.java:310-336 | the extracted bitmap has the mask's size; each pixel with a value is opaque grey at the clamped value, and each pixel past the data is 0 |
| Segmenter.CategoryMaskPreferred | android/src/main/java/com/cloudwebrtc/webrtc/segmentation/MediaPipeSegmenter.java:190-206 | the category mask wins when it extracts; otherwise the first confidence mask; the fallback is used exactly when neither extracts |
| Segmenter.NullOnlyWhenUnavailable | android/src/main/java/com/cloudwebrtc/webrtc/segmentation/MediaPipeSegmenter.java:151-216 | `runSegmentation` returns null if and only if the segmenter is not initialized or the input is recycled |
| Segmenter.MaskHasInputSize | android/src/main/java/com/cloudwebrtc/webrtc/segmentation/MediaPipeSegmenter.java:172-213 | every mask returned, processed or fallback, has the input's size |
| Segmenter.ConfidenceArrayLength | android/src/main/java/com/cloudwebrtc/webrtc/segmentation/MediaPipeSegmenter.java:115-132 | a confidence array comes only from a returned result with a confidence mask, and holds width times height values |
| Segmenter.MediaPipeSegmenter.constructor | android/src/main/java/com/cloudwebrtc/webrtc/segmentation/MediaPipeSegmenter.java:35-42 | not initialized, frame count 0, no timestamps sent |
| Segmenter.MediaPipeSegmenter.Initialize | android/src/main/java/com/cloudwebrtc/webrtc/segmentation/MediaPipeSegmenter.java:49-79 | succeeds exactly when the model file exists and the segmenter builds; a failure keeps the previous segmenter |
| Segmenter.MediaPipeSegmenter.NextTimestamp | android/src/main/java/com/cloudwebrtc/webrtc/segmentation/MediaPipeSegmenter.java:178-181 | the timestamp is 150 ms times the frame count, and the count goes up by one |
| Segmenter.MediaPipeSegmenter.RunSegmentation | android/src/main/java/com/cloudwebrtc/webrtc/segmentation/MediaPipeSegmenter.java:151-216 | the mask `SegmentationOf` describes; the frame count goes up exactly when MediaPipe is invoked |
| Segmenter.MediaPipeSegmenter.RunSegmentationForConfidenceMask | android/src/main/java/com/cloudwebrtc/webrtc/segmentation/MediaPipeSegmenter.java:82-149 | the array `ConfidenceOf` describes (null on every failure, with no fallback); the same frame counting |
| Segmenter.MediaPipeSegmenter.Release | android/src/main/java/com/cloudwebrtc/webrtc/segmentation/MediaPipeSegmenter.java:390-397 | not initialized afterwards; a second release changes nothing |
| Segmenter.TimestampsIncrease | android/src/main/java/com/cloudwebrtc/webrtc/segmentation/MediaPipeSegmenter.java:178-184 | the timestamps sent to MediaPipe increase strictly, by 150 ms per invocation |
| Processor.OffPassesThrough | android/src/main/java/com/cloudwebrtc/webrtc/segmentation/SegmentationProcessor.java:111-113 | with mode NONE the frame is returned and no field changes |
| Processor.ThrottleOnlyCountsSkips | android/src/main/java/com/cloudwebrtc/webrtc/segmentation/SegmentationProcessor.java:116-120 | within 50 ms of the last attempt the frame is returned and only the skip count changes, by one |
| Processor.CircuitBreaker | android/src/main/java/com/cloudwebrtc/webrtc/segmentation/SegmentationProcessor.java:122-132 | at 5 failures, frames within 2 s of the last attempt pass untouched; after that one attempt runs from a counter of 0 |
| Processor.FailureCounting | android/src/main/java/com/cloudwebrtc/webrtc/segmentation/SegmentationProcessor.java:139-155 | a failed attempt returns the original frame and adds one failure; out of memory sets the counter to 5 |
| Processor.SuccessResetsFailures | android/src/main/java/com/cloudwebrtc/webrtc/segmentation/SegmentationProcessor.java:181-210 | a successful attempt clears the failure counter and returns the replacement frame, or the original when the conversion back gave null; a replacement clears a skip count above 100 |
| Processor.FailuresStayBounded | android/src/main/java/com/cloudwebrtc/webrtc/segmentation/SegmentationProcessor.java:110-222 | a frame never changes the mode, and the failure counter never passes 5 |
| Processor.OnlyAttemptsRecordTime | android/src/main/java/com/cloudwebrtc/webrtc/segmentation/SegmentationProcessor.java:134-135 | the last processing time moves to now exactly when the gate lets an attempt through |
| Processor.VirtualBackgroundWithoutImageBlurs | android/src/main/java/com/cloudwebrtc/webrtc/segmentation/SegmentationProcessor.java:161-171 | VIRTUAL_BACKGROUND without an image has the same effect as BLUR, and differs from it when there is one |
| Processor.BlurSizeBounds | android/src/main/java/com/cloudwebrtc/webrtc/segmentation/SegmentationProcessor.java:334-337 | the downscaled size is `w/4` by `h/4`, and it exists exactly when both dimensions are at least 4 |
| Processor.ReplacementKeepsTimestamp | android/src/main/java/com/cloudwebrtc/webrtc/segmentation/SegmentationProcessor.java:182-202 | a replacement frame carries the original timestamp, rotation 0 and the I420 conversion of the composited pixels |
| Processor.SegmentingAttemptsHaveMask | android/src/main/java/com/cloudwebrtc/webrtc/segmentation/SegmentationProcessor.java:139-155 | an attempt that advances the segmenter's frame count gets a mask; one that ends without a bitmap or mask, or runs out of memory converting the frame, does not advance it |
| Processor.ExhaustedConversionFailsOutOfMemory | android/src/main/java/com/cloudwebrtc/webrtc/segmentation/SegmentationProcessor.java:212-215 | running out of memory converting the frame to a bitmap, or converting a composited bitmap back, ends the attempt as out of memory, for a frame of any positive size and either effect (for blur, once the frame is large enough to shrink) |
| Processor.TinyFramesCannotBlur | android/src/main/java/com/cloudwebrtc/webrtc/segmentation/SegmentationProcessor.java:334-338 | a frame narrower or shorter than 4 pixels fails to blur (the zero-sized scale throws) |
| Processor.SegmentationProcessor.constructor | android/src/main/java/com/cloudwebrtc/webrtc/segmentation/SegmentationProcessor.java:35-54 | mode NONE, all counters 0, no background, a fresh uninitialized segmenter whose frame count is 0 |
| Processor.SegmentationProcessor.Initialize | android/src/main/java/com/cloudwebrtc/webrtc/segmentation/SegmentationProcessor.java:61-63 | the segmenter's initialization result; the segmenter's frame count is kept, so timestamps keep counting up across a re-initialise |
| Processor.SegmentationProcessor.SetMode | android/src/main/java/com/cloudwebrtc/webrtc/segmentation/SegmentationProcessor.java:69-74 | the mode is set and the failure counter cleared |
| Processor.SegmentationProcessor.ResetFailures | android/src/main/java/com/cloudwebrtc/webrtc/segmentation/SegmentationProcessor.java:87-90 | only the failure counter changes, to 0 |
| Processor.SegmentationProcessor.SetVirtualBackground | android/src/main/java/com/cloudwebrtc/webrtc/segmentation/SegmentationProcessor.java:96-101 | the background is stored; a non-null one switches the mode to VIRTUAL_BACKGROUND |
| Processor.SegmentationProcessor.CleanupBitmap | android/src/main/java/com/cloudwebrtc/webrtc/segmentation/SegmentationProcessor.java:227-235 | a non-null bitmap ends up recycled |
| Processor.SegmentationProcessor.CreateBlurredBitmapLegacy | android/src/main/java/com/cloudwebrtc/webrtc/segmentation/SegmentationProcessor.java:326-348 | for frames of at least 4x4, the box blur with radius 2 of the quarter-size image; otherwise the scale fails |
| Processor.SegmentationProcessor.ApplyBackgroundBlur | android/src/main/java/com/cloudwebrtc/webrtc/segmentation/SegmentationProcessor.java:241-269 | a fresh result bitmap of the input's size, or the exception compositing raised; fails when the frame is too small to blur |
| Processor.SegmentationProcessor.ApplyVirtualBackground | android/src/main/java/com/cloudwebrtc/webrtc/segmentation/SegmentationProcessor.java:275-308 | without a background, the blur path; with one, the compositing result |
| Processor.SegmentationProcessor.TryProcess | android/src/main/java/com/cloudwebrtc/webrtc/segmentation/SegmentationProcessor.java:139-218 | the attempt ends as `AttemptOf` says for the current mode, background and heap, an `OutOfMemoryError` in either conversion ending it as out of memory; the segmenter's frame count goes up by one exactly when the attempt reaches `runSegmentation` and MediaPipe is invoked (`Segments`), and is otherwise unchanged |
| Processor.SegmentationProcessor.Record | android/src/main/java/com/cloudwebrtc/webrtc/segmentation/SegmentationProcessor.java:142-219 | the counters and the returned frame after an attempt are as `Settle` says |
| Processor.SegmentationProcessor.OnFrame | android/src/main/java/com/cloudwebrtc/webrtc/segmentation/SegmentationProcessor.java:110-222 | the new state and returned frame are `Step` of the old state; the background and the segmenter's initialization are kept; the segmenter's frame count goes up by one exactly when the gate lets an attempt through and that attempt `Segments`, and is otherwise unchanged |
| Processor.SegmentationProcessor.Release | android/src/main/java/com/cloudwebrtc/webrtc/segmentation/SegmentationProcessor.java:434-443 | the segmenter is released with its frame count kept; a live background is recycled and dropped, and a recycled one is kept |
| Renderer.PausedUpdateIsQuiet | android/src/main/java/com/cloudwebrtc/webrtc/SurfaceTextureRenderer.java:144-146 | while paused an update changes nothing and reports nothing |
| Renderer.UpdateRecordsSize | android/src/main/java/com/cloudwebrtc/webrtc/SurfaceTextureRenderer.java:147-168 | an unpaused update records the buffer's size with rotation 0 and marks the first frame rendered |
| Renderer.ResolutionEventIff | android/src/main/java/com/cloudwebrtc/webrtc/SurfaceTextureRenderer.java:158-164 | a resolution report is sent exactly when there is a listener, rendering is not paused and the size or rotation differs; it always reports rotation 0 |
| Renderer.RepeatedSizeIsQuiet | android/src/main/java/com/cloudwebrtc/webrtc/SurfaceTextureRenderer.java:147-168 | a second frame of the same size reports nothing and changes nothing |
| Renderer.FirstFrameAfterInitReports | android/src/main/java/com/cloudwebrtc/webrtc/SurfaceTextureRenderer.java:58-63 | after `init` the next unpaused frame reports first-frame and then its resolution, whatever its size |
| Renderer.FirstFrameAtMostOnce | android/src/main/java/com/cloudwebrtc/webrtc/SurfaceTextureRenderer.java:147-152 | between two `init` calls, the first-frame report is sent at most once, and never when the first frame was already on record |
| Renderer.SurfaceTextureRenderer.constructor | android/src/main/java/com/cloudwebrtc/webrtc/SurfaceTextureRenderer.java:27-40 | not paused, no first frame, size 0x0, rotation 0, no listener |
| Renderer.SurfaceTextureRenderer.Init | android/src/main/java/com/cloudwebrtc/webrtc/SurfaceTextureRenderer.java:53-63 | the listener is stored, the first-frame flag and size are cleared, the rotation becomes -1, and the pause flag is kept |
| Renderer.SurfaceTextureRenderer.SetFpsReduction | android/src/main/java/com/cloudwebrtc/webrtc/SurfaceTextureRenderer.java:78-81 | paused exactly when the rate is 0 |
| Renderer.SurfaceTextureRenderer.DisableFpsReduction | android/src/main/java/com/cloudwebrtc/webrtc/SurfaceTextureRenderer.java:85-88 | rendering resumes |
| Renderer.SurfaceTextureRenderer.PauseVideo | android/src/main/java/com/cloudwebrtc/webrtc/SurfaceTextureRenderer.java:92-95 | rendering pauses |
| Renderer.SurfaceTextureRenderer.UpdateFrameDimensionsAndReportEvents | android/src/main/java/com/cloudwebrtc/webrtc/SurfaceTextureRenderer.java:142-171 | the new layout and the events appended to the log are `Update` of the old layout and the buffer's size |

## Left out

- Canvas drawing is not modelled. This covers `drawBitmap` with the `DST_OUT`/`DST_OVER` transfer modes and `drawOval`. The composited pixels are a parameter of `onFrame`, and the fallback mask is described by its oval (`FallbackMask`), not by pixels.
- `Bitmap.createScaledBitmap` resampling is not modelled. The downscaled pixels are a parameter. The model captures only the sizes involved and the exception on a zero size.
- `createProcessedMask` (scaling the raw mask to the frame size) is not modelled. The processed mask is the raw extracted bitmap together with the target size.
- Mask bitmaps are values (`Mask`), not `Bitmap` objects, so their recycling in `onFrame` is not modelled.
- MediaPipe, `ByteBufferExtractor`, `Runtime` memory figures and `File.exists` are foreign calls. Their outcomes are parameters (`Invocation`, `memoryPressure`, `modelExists`, `created`).
- The byte-cursor fallback inside `extractBitmapFromMPImage` (`getFloat` failing and re-reading single bytes) is not modelled. The mask's values are given as one sequence of integers.
- `applyMaskSmoothing` is not modelled: it is never called, and it uses `Math.exp` in floating point.
- `i420ToBitmapUsingYuvImage` is not modelled: it calls the JPEG encoder and decoder. Its NV21 step `i420ToNv21` is modelled.
- The EGL surface and `producer.setSize`, `onFrame`'s surface creation, `surfaceCreated`/`surfaceDestroyed` and all locking are not modelled. Concurrency is out of scope, so methods are atomic.
- `SurfaceTextureRenderer.onFrame` is not a separate member. It creates the surface, which is out of scope, and then calls `UpdateFrameDimensionsAndReportEvents`.
- The iOS headers are not modelled: they only declare interfaces.
- Logging, `System.gc()`, and the timing figures in the statistics log line are left out.
- Float arithmetic is exact rational arithmetic. Rounding of the `float` colour coefficients and of the fallback geometry is not modelled.
- `SetFpsReduction`: the rate is a real, so NaN and negative zero are not modelled.
- `Processor.SegmentationProcessor.OnFrame`: Java `int`/`long` wrap-around of `frameSkipCount` and the clock difference is not modelled, because the counters are unbounded.
- `Segmenter.MediaPipeSegmenter.NextTimestamp`: wrap-around of `frameCount * 150` is not modelled.
- `Processor.SegmentationProcessor.TryProcess`: intermediate bitmaps on the exception paths (compositing, and an `OutOfMemoryError` converting the result back) are not recycled, matching the code. Which bitmaps leak is not stated.
- `OutOfMemoryError` is modelled only in the two frame conversions (`Heap`) and the compositing (`Composite`). The segmenter catches its own, and the box blur's arrays are assumed to fit.
- Java `int` overflow of `width * height` in the array and buffer sizes is not modelled (`VideoFrameUtils.java:57`, `:81`, `:85-87`; `SegmentationProcessor.java:358`, `:362`; `MediaPipeSegmenter.java:129`, `:312`). Sizes are unbounded, so a frame of more than 2^31 - 1 pixels is treated like any other.
- The `ALPHA_8` last-resort catch in `createFallbackMask` and exceptions inside `createProcessedMask` are not modelled. In the model, creating a mask never throws.
- A recycled virtual background handed to `createScaledBitmap` is treated like a live one. Android would throw there.
- The null check on `processedBitmap` and the `default` branch of the mode switch are unreachable in the code and are not modelled separately. Both `apply…` methods are `@NonNull`, and the switch runs only for BLUR and VIRTUAL_BACKGROUND.
- The `ByteBuffer` position side effects on the caller's I420 planes (`yBuffer.get(yBytes)`) are not modelled. A plane is the sequence of its remaining bytes.
- The two blur passes share one window method (`WindowMean`), which takes the line's origin and step.
