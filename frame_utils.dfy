/**
 * Conversions between WebRTC's planar I420 frames and packed ARGB bitmap
 * contents, and the I420-to-NV21 interleaving (`VideoFrameUtils`).
 */
module FrameUtils {
  import opened Wrappers
  import opened Argb
  import opened Graphics
  import opened ByteBuffers
  import opened Planes

  /**
   * An I420 buffer: a full-resolution luma plane, two chroma planes, and the
   * distance between rows of each plane.
   */
  datatype I420Buffer = I420Buffer(
    width: nat, height: nat,
    dataY: seq<Byte>, dataU: seq<Byte>, dataV: seq<Byte>,
    strideY: nat, strideU: nat, strideV: nat)

  /** A WebRTC video frame: a buffer, a rotation in degrees, a timestamp. */
  datatype VideoFrame = VideoFrame(buffer: I420Buffer, rotation: int, timestampNs: int)

  // ---------------------------------------------------------------------------
  // I420 -> ARGB (convertYuv420ToRgb, i420ToBitmap)
  // ---------------------------------------------------------------------------

  /** `R = (int) (1.164 (Y - 16) + 1.596 (V - 128))`, clamped to 0..255. */
  function YuvRed(luma: Byte, cb: Byte, cr: Byte): Byte
  {
    Clamp(Trunc(1164 * (luma - 16) + 1596 * (cr - 128), 1000))
  }

  /** `G = (int) (1.164 (Y - 16) - 0.392 (U - 128) - 0.813 (V - 128))`, clamped to 0..255. */
  function YuvGreen(luma: Byte, cb: Byte, cr: Byte): Byte
  {
    Clamp(Trunc(1164 * (luma - 16) - 392 * (cb - 128) - 813 * (cr - 128), 1000))
  }

  /** `B = (int) (1.164 (Y - 16) + 2.017 (U - 128))`, clamped to 0..255. */
  function YuvBlue(luma: Byte, cb: Byte, cr: Byte): Byte
  {
    Clamp(Trunc(1164 * (luma - 16) + 2017 * (cb - 128), 1000))
  }

  /** The packed, always opaque pixel for one luma sample and its chroma pair. */
  function YuvToArgb(luma: Byte, cb: Byte, cr: Byte): Pixel
  {
    Pack(0xFF, YuvRed(luma, cb, cr), YuvGreen(luma, cb, cr), YuvBlue(luma, cb, cr))
  }

  /**
   * Where pixel (x, y) takes its chroma: the sample of its 2x2 block, at
   * `(y / 2) * stride + x / 2`.
   */
  function ChromaIndex(x: nat, y: nat, stride: nat): nat
  {
    Offset(x / 2, y / 2, stride)
  }

  /**
   * The pixel the conversion computes for column x, row y, or None when the
   * luma index or the chroma index is past the end of its plane. The V plane
   * is addressed with the U plane's stride, as in the code.
   */
  function SampleAt(dataY: seq<Byte>, dataU: seq<Byte>, dataV: seq<Byte>,
                    strideY: nat, strideU: nat, x: nat, y: nat): Option<Pixel>
  {
    var yi, ci := Offset(x, y, strideY), ChromaIndex(x, y, strideU);
    if yi >= |dataY| || ci >= |dataU| || ci >= |dataV| then None
    else Some(YuvToArgb(dataY[yi], dataU[ci], dataV[ci]))
  }

  /**
   * The pixel `convert` makes for column x of a row whose luma samples start
   * at `lumaStart` and whose chroma samples start at `chromaStart`, or None
   * when an index is past the end of its plane.
   */
  function SampleInRow(convert: (Byte, Byte, Byte) -> Pixel,
                       dataY: seq<Byte>, dataU: seq<Byte>, dataV: seq<Byte>,
                       lumaStart: nat, chromaStart: nat, x: nat): Option<Pixel>
  {
    var yi, ci := lumaStart + x, chromaStart + x / 2;
    if yi >= |dataY| || ci >= |dataU| || ci >= |dataV| then None
    else Some(convert(dataY[yi], dataU[ci], dataV[ci]))
  }

  /** What ends up in an output entry that held `previous` before. */
  function Keep(sample: Option<Pixel>, previous: int): int
  {
    match sample
    case Some(p) => p
    case None => previous
  }

  /** What ends up in the output entry of pixel (x, y) if it held `previous` before. */
  function Stored(dataY: seq<Byte>, dataU: seq<Byte>, dataV: seq<Byte>,
                  strideY: nat, strideU: nat, x: nat, y: nat, previous: int): int
  {
    Keep(SampleAt(dataY, dataU, dataV, strideY, strideU, x, y), previous)
  }

  /** A row's samples are the pixel samples of that row. */
  lemma SampleInRowAt(dataY: seq<Byte>, dataU: seq<Byte>, dataV: seq<Byte>,
                      strideY: nat, strideU: nat, x: nat, y: nat)
    ensures SampleInRow(YuvToArgb, dataY, dataU, dataV, Offset(0, y, strideY), Offset(0, y / 2, strideU), x)
         == SampleAt(dataY, dataU, dataV, strideY, strideU, x, y)
  {
  }

  /**
   * `convertYuv420ToRgb`: fills `rgb[y * width + x]` for every pixel whose
   * luma and chroma indices are inside their planes and leaves every other
   * entry as it was. `strideV` is accepted and never used, as in the code.
   */
  method ConvertYuv420ToRgb(dataY: seq<Byte>, dataU: seq<Byte>, dataV: seq<Byte>,
                            width: nat, height: nat, strideY: nat, strideU: nat, strideV: nat,
                            rgb: array<Pixel>)
    requires rgb.Length == width * height
    modifies rgb
    ensures forall y: nat, x: nat | y < height && x < width ::
      At(rgb[..], width, height, x, y) ==
        Stored(dataY, dataU, dataV, strideY, strideU, x, y, At(old(rgb[..]), width, height, x, y))
  {
    var y := 0;
    while y < height
      invariant 0 <= y <= height
      invariant Offset(0, y, width) <= rgb.Length
      invariant forall y': nat, x': nat | y' < y && x' < width ::
        At(rgb[..], width, height, x', y') ==
          Stored(dataY, dataU, dataV, strideY, strideU, x', y', At(old(rgb[..]), width, height, x', y'))
      invariant forall j | Offset(0, y, width) <= j < rgb.Length :: rgb[j] == old(rgb[j])
    {
      RowInPlane(y, width, height);
      ConvertRowAt(dataY, dataU, dataV, width, height, strideY, strideU, y, rgb);
      RowsBefore(y, width);
      NextRow(y, width);
      y := y + 1;
    }
  }

  /** One pass of the outer loop of `convertYuv420ToRgb`: row y is converted, no other entry changes. */
  method ConvertRowAt(dataY: seq<Byte>, dataU: seq<Byte>, dataV: seq<Byte>,
                      width: nat, height: nat, strideY: nat, strideU: nat, y: nat,
                      rgb: array<Pixel>)
    requires rgb.Length == width * height && y < height
    modifies rgb
    ensures forall x: nat | x < width ::
      At(rgb[..], width, height, x, y) ==
        Stored(dataY, dataU, dataV, strideY, strideU, x, y, At(old(rgb[..]), width, height, x, y))
    ensures forall j | 0 <= j < Offset(0, y, width) :: rgb[j] == old(rgb[j])
    ensures forall j | Offset(width, y, width) <= j < rgb.Length :: rgb[j] == old(rgb[j])
  {
    RowInPlane(y, width, height);
    ghost var before := rgb[..];
    ConvertRow(YuvToArgb, dataY, dataU, dataV, width, Offset(0, y, strideY), Offset(0, y / 2, strideU),
               Offset(0, y, width), rgb);
    RowConverted(rgb[..], before, dataY, dataU, dataV, width, height, strideY, strideU, y);
  }

  /** The row ConvertRow writes, read back pixel by pixel through At and Stored. */
  lemma RowConverted(after: seq<Pixel>, before: seq<Pixel>, dataY: seq<Byte>, dataU: seq<Byte>, dataV: seq<Byte>,
                     width: nat, height: nat, strideY: nat, strideU: nat, y: nat)
    requires |after| == |before| == width * height && y < height
    requires Offset(0, y, width) + width <= |after|
    requires forall j | Offset(0, y, width) <= j < Offset(0, y, width) + width ::
      after[j] == Keep(SampleInRow(YuvToArgb, dataY, dataU, dataV, Offset(0, y, strideY), Offset(0, y / 2, strideU),
                                   j - Offset(0, y, width)), before[j])
    ensures forall x: nat | x < width ::
      At(after, width, height, x, y) == Stored(dataY, dataU, dataV, strideY, strideU, x, y, At(before, width, height, x, y))
  {
    forall x: nat | x < width
      ensures At(after, width, height, x, y) == Stored(dataY, dataU, dataV, strideY, strideU, x, y, At(before, width, height, x, y))
    {
      var j := Offset(0, y, width) + x;
      PixelConverted(after[j], before[j], dataY, dataU, dataV, strideY, strideU, x, y);
      assert Offset(x, y, width) == j;
    }
  }

  /** `RowConverted` for the one entry of column x. */
  lemma PixelConverted(stored: Pixel, previous: Pixel, dataY: seq<Byte>, dataU: seq<Byte>, dataV: seq<Byte>,
                       strideY: nat, strideU: nat, x: nat, y: nat)
    requires stored == Keep(SampleInRow(YuvToArgb, dataY, dataU, dataV, Offset(0, y, strideY), Offset(0, y / 2, strideU), x),
                            previous)
    ensures stored == Stored(dataY, dataU, dataV, strideY, strideU, x, y, previous)
  {
    SampleInRowAt(dataY, dataU, dataV, strideY, strideU, x, y);
  }

  /**
   * The inner loop of `convertYuv420ToRgb` over one row, with the row's
   * starting indices `y * width`, `y * yStride` and `(y / 2) * uvStride`
   * computed once and the colour conversion `convert` passed in: that row is
   * converted, no other entry changes.
   */
  method ConvertRow(convert: (Byte, Byte, Byte) -> Pixel,
                    dataY: seq<Byte>, dataU: seq<Byte>, dataV: seq<Byte>,
                    width: nat, lumaStart: nat, chromaStart: nat, rowStart: nat,
                    rgb: array<Pixel>)
    requires rowStart + width <= rgb.Length
    modifies rgb
    ensures forall j | rowStart <= j < rowStart + width ::
      rgb[j] == Keep(SampleInRow(convert, dataY, dataU, dataV, lumaStart, chromaStart, j - rowStart), old(rgb[j]))
    ensures forall j | 0 <= j < rowStart :: rgb[j] == old(rgb[j])
    ensures forall j | rowStart + width <= j < rgb.Length :: rgb[j] == old(rgb[j])
  {
    var x := 0;
    while x < width
      invariant 0 <= x <= width
      invariant forall j | rowStart <= j < rowStart + x ::
        rgb[j] == Keep(SampleInRow(convert, dataY, dataU, dataV, lumaStart, chromaStart, j - rowStart), old(rgb[j]))
      invariant forall j | 0 <= j < rowStart :: rgb[j] == old(rgb[j])
      invariant forall j | rowStart + x <= j < rgb.Length :: rgb[j] == old(rgb[j])
    {
      var yIndex := lumaStart + x;
      var uvIndex := chromaStart + x / 2;
      if yIndex >= |dataY| || uvIndex >= |dataU| || uvIndex >= |dataV| {
        // continue: this entry is left as it was
      } else {
        rgb[rowStart + x] := convert(dataY[yIndex], dataU[uvIndex], dataV[uvIndex]);
      }
      x := x + 1;
    }
  }

  /**
   * `i420ToBitmap`: the contents of the bitmap built from a zero-filled
   * `int[width * height]` after conversion; None when Android would refuse the
   * bitmap because a dimension is 0.
   */
  method I420ToBitmap(buffer: I420Buffer) returns (r: Option<Image>)
    ensures r.Some? <==> buffer.width > 0 && buffer.height > 0
    ensures r.Some? ==> r.value.Valid() && r.value.width == buffer.width && r.value.height == buffer.height
    ensures r.Some? ==> forall y: nat, x: nat | y < buffer.height && x < buffer.width ::
      At(r.value.pixels, buffer.width, buffer.height, x, y) ==
        Stored(buffer.dataY, buffer.dataU, buffer.dataV, buffer.strideY, buffer.strideU, x, y, 0)
  {
    var width, height := buffer.width, buffer.height;
    var rgbArray := new Pixel[width * height](_ => 0);
    ConvertYuv420ToRgb(buffer.dataY, buffer.dataU, buffer.dataV, width, height,
                       buffer.strideY, buffer.strideU, buffer.strideV, rgbArray);
    if width == 0 || height == 0 {
      return None;
    }
    r := Some(Image(width, height, rgbArray[..]));
  }

  /** Grey input (U = V = 128) gives grey output: R = G = B for every luma. */
  lemma NeutralChromaIsGrey(luma: Byte)
    ensures YuvToArgb(luma, 128, 128) == Grey(YuvRed(luma, 128, 128))
  {
  }

  /** Every converted pixel is opaque and unpacks to its three clamped channels. */
  lemma YuvToArgbChannels(luma: Byte, cb: Byte, cr: Byte)
    ensures var p := YuvToArgb(luma, cb, cr);
      && AlphaOf(p) == 0xFF
      && RedOf(p) == YuvRed(luma, cb, cr)
      && GreenOf(p) == YuvGreen(luma, cb, cr)
      && BlueOf(p) == YuvBlue(luma, cb, cr)
  {
    Unpack(0xFF, YuvRed(luma, cb, cr), YuvGreen(luma, cb, cr), YuvBlue(luma, cb, cr));
  }

  /**
   * The clamp at work on grey input: luma at or below the video black level
   * 16 gives black, luma from 236 on gives full white.
   */
  lemma NeutralChromaSaturates(luma: Byte)
    ensures luma <= 16 ==> YuvToArgb(luma, 128, 128) == Grey(0)
    ensures luma >= 236 ==> YuvToArgb(luma, 128, 128) == Grey(0xFF)
  {
  }

  /** Every luma entry of a 2x2 block reads the same chroma sample. */
  lemma BlockSharesChroma(cx: nat, cy: nat, dx: nat, dy: nat, stride: nat)
    requires dx < 2 && dy < 2
    ensures ChromaIndex(2 * cx + dx, 2 * cy + dy, stride) == Offset(cx, cy, stride)
  {
  }

  // ---------------------------------------------------------------------------
  // ARGB -> I420 (convertRgbToYuv420, bitmapToI420, createVideoFrameFromBitmap)
  // ---------------------------------------------------------------------------

  /** `Y = (int) (0.257 R + 0.504 G + 0.098 B + 16)`, clamped to 0..255. */
  function RgbToY(p: Pixel): Byte
  {
    Clamp(Trunc(257 * RedOf(p) + 504 * GreenOf(p) + 98 * BlueOf(p) + 16000, 1000))
  }

  /** `U = (int) (-0.148 R - 0.291 G + 0.439 B + 128)`, clamped to 0..255. */
  function RgbToU(p: Pixel): Byte
  {
    Clamp(Trunc(-148 * RedOf(p) - 291 * GreenOf(p) + 439 * BlueOf(p) + 128000, 1000))
  }

  /** `V = (int) (0.439 R - 0.368 G - 0.071 B + 128)`, clamped to 0..255. */
  function RgbToV(p: Pixel): Byte
  {
    Clamp(Trunc(439 * RedOf(p) - 368 * GreenOf(p) - 71 * BlueOf(p) + 128000, 1000))
  }

  /**
   * The subsampled half of the inner loop's body: `toU` then `toV` of one
   * pixel, each put at its buffer's cursor; true when either `put` meets its
   * limit.
   */
  method PutChroma(toU: Pixel -> Byte, toV: Pixel -> Byte, rgb: Pixel, uBuffer: ByteBuffer, vBuffer: ByteBuffer)
    returns (overflow: bool)
    requires uBuffer.Valid() && vBuffer.Valid() && uBuffer != vBuffer
    modifies uBuffer, vBuffer
    ensures uBuffer.Valid() && vBuffer.Valid()
    ensures uBuffer.limit == old(uBuffer.limit) && vBuffer.limit == old(vBuffer.limit)
    ensures overflow <==> old(uBuffer.position) == uBuffer.limit || old(vBuffer.position) == vBuffer.limit
    ensures !overflow ==>
      && uBuffer.position == old(uBuffer.position) + 1 && vBuffer.position == old(vBuffer.position) + 1
      && uBuffer.data == old(uBuffer.data)[old(uBuffer.position) := toU(rgb)]
      && vBuffer.data == old(vBuffer.data)[old(vBuffer.position) := toV(rgb)]
  {
    overflow := uBuffer.Put(toU(rgb));
    if !overflow {
      overflow := vBuffer.Put(toV(rgb));
    }
  }

  /**
   * The inner loop of `convertRgbToYuv420` over the row of `width` pixels
   * starting at `rowStart`, with the colour conversions passed in: one `toY`
   * byte per pixel, and on an even row one `toU` and one `toV` byte per even
   * column, each put at its buffer's cursor. The result is true when a `put`
   * meets its limit (`BufferOverflowException`).
   */
  method ConvertRowToYuv(toY: Pixel -> Byte, toU: Pixel -> Byte, toV: Pixel -> Byte,
                         pixels: seq<Pixel>, rowStart: nat, width: nat, evenRow: bool,
                         yBuffer: ByteBuffer, uBuffer: ByteBuffer, vBuffer: ByteBuffer)
    returns (overflow: bool)
    requires rowStart + width <= |pixels|
    requires yBuffer.Valid() && uBuffer.Valid() && vBuffer.Valid()
    requires yBuffer != uBuffer && yBuffer != vBuffer && uBuffer != vBuffer
    modifies yBuffer, uBuffer, vBuffer
    ensures yBuffer.Valid() && uBuffer.Valid() && vBuffer.Valid()
    ensures yBuffer.limit == old(yBuffer.limit) && uBuffer.limit == old(uBuffer.limit)
         && vBuffer.limit == old(vBuffer.limit)
    ensures overflow <==>
      old(yBuffer.position) + width > yBuffer.limit
      || (evenRow && (old(uBuffer.position) + (width + 1) / 2 > uBuffer.limit
                      || old(vBuffer.position) + (width + 1) / 2 > vBuffer.limit))
    ensures !overflow ==>
      && yBuffer.Written() == old(yBuffer.Written()) + EachPixel(toY, pixels[rowStart..rowStart + width])
      && uBuffer.Written() == old(uBuffer.Written())
         + (if evenRow then EvenColumns(toU, pixels[rowStart..rowStart + width]) else [])
      && vBuffer.Written() == old(vBuffer.Written())
         + (if evenRow then EvenColumns(toV, pixels[rowStart..rowStart + width]) else [])
  {
    ghost var dy, du, dv := yBuffer.data, uBuffer.data, vBuffer.data;
    ghost var py, pu, pv := yBuffer.position, uBuffer.position, vBuffer.position;
    overflow := PutRow(toY, toU, toV, pixels, rowStart, width, evenRow, yBuffer, uBuffer, vBuffer);
    if !overflow {
      LumaRunWritten(toY, pixels, rowStart, width, yBuffer.data, yBuffer.position, dy, py);
      if evenRow {
        ChromaRunWritten(toU, pixels, rowStart, width, uBuffer.data, uBuffer.position, du, pu);
        ChromaRunWritten(toV, pixels, rowStart, width, vBuffer.data, vBuffer.position, dv, pv);
      } else {
        EmptyRunWritten(uBuffer.data, du, pu);
        EmptyRunWritten(vBuffer.data, dv, pv);
      }
    }
  }

  /** The loop of `ConvertRowToYuv`, stated byte by byte. */
  method PutRow(toY: Pixel -> Byte, toU: Pixel -> Byte, toV: Pixel -> Byte,
                pixels: seq<Pixel>, rowStart: nat, width: nat, evenRow: bool,
                yBuffer: ByteBuffer, uBuffer: ByteBuffer, vBuffer: ByteBuffer)
    returns (overflow: bool)
    requires rowStart + width <= |pixels|
    requires yBuffer.Valid() && uBuffer.Valid() && vBuffer.Valid()
    requires yBuffer != uBuffer && yBuffer != vBuffer && uBuffer != vBuffer
    modifies yBuffer, uBuffer, vBuffer
    ensures yBuffer.Valid() && uBuffer.Valid() && vBuffer.Valid()
    ensures yBuffer.limit == old(yBuffer.limit) && uBuffer.limit == old(uBuffer.limit)
         && vBuffer.limit == old(vBuffer.limit)
    ensures overflow <==>
      old(yBuffer.position) + width > yBuffer.limit
      || (evenRow && (old(uBuffer.position) + (width + 1) / 2 > uBuffer.limit
                      || old(vBuffer.position) + (width + 1) / 2 > vBuffer.limit))
    ensures !overflow ==>
      && yBuffer.position == old(yBuffer.position) + width
      && uBuffer.position == old(uBuffer.position) + (if evenRow then (width + 1) / 2 else 0)
      && vBuffer.position == old(vBuffer.position) + (if evenRow then (width + 1) / 2 else 0)
      && LumaRun(yBuffer.data, yBuffer.position, old(yBuffer.data), old(yBuffer.position), toY, pixels, rowStart)
      && ChromaRun(uBuffer.data, uBuffer.position, old(uBuffer.data), old(uBuffer.position), toU, pixels, rowStart)
      && ChromaRun(vBuffer.data, vBuffer.position, old(vBuffer.data), old(vBuffer.position), toV, pixels, rowStart)
  {
    ghost var py, pu, pv := yBuffer.position, uBuffer.position, vBuffer.position;
    ghost var dy, du, dv := yBuffer.data, uBuffer.data, vBuffer.data;
    var x := 0;
    ghost var k := 0;
    while x < width
      invariant x <= width
      invariant x == 2 * k || x + 1 == 2 * k
      invariant yBuffer.Valid() && uBuffer.Valid() && vBuffer.Valid()
      invariant yBuffer.limit == old(yBuffer.limit) && uBuffer.limit == old(uBuffer.limit)
             && vBuffer.limit == old(vBuffer.limit)
      invariant yBuffer.position == py + x
      invariant uBuffer.position == pu + (if evenRow then k else 0)
      invariant vBuffer.position == pv + (if evenRow then k else 0)
      invariant LumaRun(yBuffer.data, yBuffer.position, dy, py, toY, pixels, rowStart)
      invariant ChromaRun(uBuffer.data, uBuffer.position, du, pu, toU, pixels, rowStart)
      invariant ChromaRun(vBuffer.data, vBuffer.position, dv, pv, toV, pixels, rowStart)
    {
      overflow := PutPixel(toY, toU, toV, pixels, rowStart, x, k, evenRow, py, pu, pv, dy, du, dv,
                           yBuffer, uBuffer, vBuffer);
      if overflow {
        return;
      }
      if x % 2 == 0 {
        k := k + 1;
      }
      x := x + 1;
    }
    overflow := false;
  }

  /**
   * The body of the inner loop for pixel x of the row: its luma `put`, then
   * on an even row and an even column its U and V `put`s. k counts the even
   * columns before x; p and d are the cursors and contents the row began with.
   */
  method PutPixel(toY: Pixel -> Byte, toU: Pixel -> Byte, toV: Pixel -> Byte,
                  pixels: seq<Pixel>, rowStart: nat, x: nat, ghost k: nat, evenRow: bool,
                  ghost py: nat, ghost pu: nat, ghost pv: nat,
                  ghost dy: seq<Byte>, ghost du: seq<Byte>, ghost dv: seq<Byte>,
                  yBuffer: ByteBuffer, uBuffer: ByteBuffer, vBuffer: ByteBuffer)
    returns (overflow: bool)
    requires rowStart + x < |pixels| && (x == 2 * k || x + 1 == 2 * k)
    requires yBuffer.Valid() && uBuffer.Valid() && vBuffer.Valid()
    requires yBuffer != uBuffer && yBuffer != vBuffer && uBuffer != vBuffer
    requires yBuffer.position == py + x
    requires uBuffer.position == pu + (if evenRow then k else 0)
    requires vBuffer.position == pv + (if evenRow then k else 0)
    requires LumaRun(yBuffer.data, yBuffer.position, dy, py, toY, pixels, rowStart)
    requires ChromaRun(uBuffer.data, uBuffer.position, du, pu, toU, pixels, rowStart)
    requires ChromaRun(vBuffer.data, vBuffer.position, dv, pv, toV, pixels, rowStart)
    modifies yBuffer, uBuffer, vBuffer
    ensures yBuffer.Valid() && uBuffer.Valid() && vBuffer.Valid()
    ensures yBuffer.limit == old(yBuffer.limit) && uBuffer.limit == old(uBuffer.limit)
         && vBuffer.limit == old(vBuffer.limit)
    ensures overflow <==>
      old(yBuffer.position) == yBuffer.limit
      || (evenRow && x % 2 == 0
          && (old(uBuffer.position) == uBuffer.limit || old(vBuffer.position) == vBuffer.limit))
    ensures !overflow ==>
      var k' := if x % 2 == 0 then k + 1 else k;
      && yBuffer.position == py + x + 1
      && uBuffer.position == pu + (if evenRow then k' else 0)
      && vBuffer.position == pv + (if evenRow then k' else 0)
      && LumaRun(yBuffer.data, yBuffer.position, dy, py, toY, pixels, rowStart)
      && ChromaRun(uBuffer.data, uBuffer.position, du, pu, toU, pixels, rowStart)
      && ChromaRun(vBuffer.data, vBuffer.position, dv, pv, toV, pixels, rowStart)
  {
    var rgb := pixels[rowStart + x];
    ghost var y1, u1, v1 := yBuffer.data, uBuffer.data, vBuffer.data;
    overflow := yBuffer.Put(toY(rgb));
    if overflow {
      return;
    }
    LumaPutExtends(toY, pixels, rowStart, dy, y1, yBuffer.data, py, py + x);
    if x % 2 == 0 && evenRow {
      assert x == 2 * k;
      overflow := PutChroma(toU, toV, rgb, uBuffer, vBuffer);
      if overflow {
        return;
      }
      ChromaPutExtends(toU, pixels, rowStart, du, u1, uBuffer.data, pu, pu + k);
      ChromaPutExtends(toV, pixels, rowStart, dv, v1, vBuffer.data, pv, pv + k);
    }
  }

  /**
   * `convertRgbToYuv420`: clears the three buffers, walks the pixels row by
   * row putting luma for every pixel and U, V for every even column of every
   * even row, then flips the buffers. True when some `put` overflows.
   */
  method ConvertRgbToYuv420(pixels: seq<Pixel>, width: nat, height: nat,
                            yBuffer: ByteBuffer, uBuffer: ByteBuffer, vBuffer: ByteBuffer)
    returns (overflow: bool)
    requires |pixels| == width * height
    requires yBuffer.Valid() && uBuffer.Valid() && vBuffer.Valid()
    requires yBuffer != uBuffer && yBuffer != vBuffer && uBuffer != vBuffer
    modifies yBuffer, uBuffer, vBuffer
    ensures RowStart(height, width) == |pixels|
    ensures overflow <==>
      || |pixels| > old(|yBuffer.data|)
      || |ChromaRows(RgbToU, pixels, width, height)| > old(|uBuffer.data|)
      || |ChromaRows(RgbToV, pixels, width, height)| > old(|vBuffer.data|)
    ensures !overflow ==>
      && yBuffer.Valid() && uBuffer.Valid() && vBuffer.Valid()
      && yBuffer.Remaining() == EachPixel(RgbToY, pixels)
      && uBuffer.Remaining() == ChromaRows(RgbToU, pixels, width, height)
      && vBuffer.Remaining() == ChromaRows(RgbToV, pixels, width, height)
  {
    yBuffer.Clear();
    uBuffer.Clear();
    vBuffer.Clear();
    RowStartIsOffset(height, width);
    var y := 0;
    while y < height
      invariant y <= height
      invariant yBuffer.Valid() && uBuffer.Valid() && vBuffer.Valid()
      invariant yBuffer.limit == old(|yBuffer.data|) && uBuffer.limit == old(|uBuffer.data|)
             && vBuffer.limit == old(|vBuffer.data|)
      invariant RowStart(y, width) <= |pixels|
      invariant yBuffer.Written() == EachPixel(RgbToY, pixels[..RowStart(y, width)])
      invariant uBuffer.Written() == ChromaRows(RgbToU, pixels, width, y)
      invariant vBuffer.Written() == ChromaRows(RgbToV, pixels, width, y)
    {
      RowStartMonotone(y + 1, height, width);
      overflow := ConvertFrameRow(RgbToY, RgbToU, RgbToV, pixels, width, y, yBuffer, uBuffer, vBuffer);
      if overflow {
        ChromaRowsMonotone(RgbToU, pixels, width, y + 1, height);
        ChromaRowsMonotone(RgbToV, pixels, width, y + 1, height);
        return;
      }
      y := y + 1;
    }
    assert pixels[..RowStart(height, width)] == pixels;
    yBuffer.Flip();
    uBuffer.Flip();
    vBuffer.Flip();
    overflow := false;
  }

  /**
   * Row y of `convertRgbToYuv420`, given that the rows before it are in the
   * buffers: either row y is appended too, or a `put` overflows, which
   * happens only when the first y + 1 rows do not fit.
   */
  method ConvertFrameRow(toY: Pixel -> Byte, toU: Pixel -> Byte, toV: Pixel -> Byte,
                         pixels: seq<Pixel>, width: nat, y: nat,
                         yBuffer: ByteBuffer, uBuffer: ByteBuffer, vBuffer: ByteBuffer)
    returns (overflow: bool)
    requires RowStart(y + 1, width) <= |pixels|
    requires yBuffer.Valid() && uBuffer.Valid() && vBuffer.Valid()
    requires yBuffer != uBuffer && yBuffer != vBuffer && uBuffer != vBuffer
    requires yBuffer.Written() == EachPixel(toY, pixels[..RowStart(y, width)])
    requires uBuffer.Written() == ChromaRows(toU, pixels, width, y)
    requires vBuffer.Written() == ChromaRows(toV, pixels, width, y)
    modifies yBuffer, uBuffer, vBuffer
    ensures yBuffer.Valid() && uBuffer.Valid() && vBuffer.Valid()
    ensures yBuffer.limit == old(yBuffer.limit) && uBuffer.limit == old(uBuffer.limit)
         && vBuffer.limit == old(vBuffer.limit)
    ensures overflow ==>
      || RowStart(y + 1, width) > yBuffer.limit
      || |ChromaRows(toU, pixels, width, y + 1)| > uBuffer.limit
      || |ChromaRows(toV, pixels, width, y + 1)| > vBuffer.limit
    ensures !overflow ==>
      && yBuffer.Written() == EachPixel(toY, pixels[..RowStart(y + 1, width)])
      && uBuffer.Written() == ChromaRows(toU, pixels, width, y + 1)
      && vBuffer.Written() == ChromaRows(toV, pixels, width, y + 1)
  {
    var rowStart := RowStart(y, width);
    RowStartMonotone(y, y + 1, width);
    LumaRowsStep(toY, pixels, width, y);
    ChromaRowAppended(toU, pixels, width, y, rowStart, y % 2 == 0);
    ChromaRowAppended(toV, pixels, width, y, rowStart, y % 2 == 0);
    overflow := ConvertRowToYuv(toY, toU, toV, pixels, rowStart, width, y % 2 == 0,
                                yBuffer, uBuffer, vBuffer);
  }

  /** What row y appends to a chroma plane: its even columns on an even row, nothing on an odd one. */
  lemma ChromaRowAppended(f: Pixel -> Byte, pixels: seq<Pixel>, width: nat, y: nat, start: nat, evenRow: bool)
    requires RowStart(y + 1, width) <= |pixels| && start == RowStart(y, width) && evenRow == (y % 2 == 0)
    ensures start + width <= |pixels|
    ensures ChromaRows(f, pixels, width, y + 1)
         == ChromaRows(f, pixels, width, y) + (if evenRow then EvenColumns(f, pixels[start..start + width]) else [])
  {
    var next := y + 1;
    assert RowStart(next, width) == start + width;
    assert next - 1 == y;
    assert ChromaRows(f, pixels, width, next)
        == ChromaRows(f, pixels, width, y)
           + (if y % 2 == 0 then EvenColumns(f, pixels[RowStart(y, width)..RowStart(next, width)]) else []);
  }

  /**
   * What `bitmapToI420` returns for a bitmap with these contents: the
   * planes `convertRgbToYuv420` leaves in buffers of `w * h`, `w * h / 4` and
   * `w * h / 4` bytes, with strides `w`, `w / 2`, `w / 2`, or None when a
   * chroma plane does not fit its buffer (the overflow is caught and null
   * returned).
   */
  function I420Of(image: Image): Option<I420Buffer>
    requires image.Valid()
  {
    var w, h := image.width, image.height;
    RowStartIsOffset(h, w);
    var planeU := ChromaRows(RgbToU, image.pixels, w, h);
    var planeV := ChromaRows(RgbToV, image.pixels, w, h);
    if |planeU| <= w * h / 4 && |planeV| <= w * h / 4
    then Some(I420Buffer(w, h, EachPixel(RgbToY, image.pixels), planeU, planeV, w, w / 2, w / 2))
    else None
  }

  /** `bitmapToI420`: allocates the three direct buffers, converts into them, wraps them. */
  method BitmapToI420(image: Image) returns (r: Option<I420Buffer>)
    requires image.Valid()
    ensures r == I420Of(image)
  {
    var width, height := image.width, image.height;
    var rgbArray := image.pixels;
    var yBuffer := new ByteBuffer.AllocateDirect(width * height);
    var uBuffer := new ByteBuffer.AllocateDirect(width * height / 4);
    var vBuffer := new ByteBuffer.AllocateDirect(width * height / 4);
    var overflow := ConvertRgbToYuv420(rgbArray, width, height, yBuffer, uBuffer, vBuffer);
    if overflow {
      return None;
    }
    r := Some(I420Buffer(width, height, yBuffer.Remaining(), uBuffer.Remaining(), vBuffer.Remaining(),
                         width, width / 2, width / 2));
  }

  /** The frame `createVideoFrameFromBitmap` builds, or None when `bitmapToI420` fails. */
  function FrameOf(image: Image, timestampNs: int, rotation: int): Option<VideoFrame>
    requires image.Valid()
  {
    match I420Of(image)
    case None => None
    case Some(buffer) => Some(VideoFrame(buffer, rotation, timestampNs))
  }

  /** `createVideoFrameFromBitmap(bitmap, timestampNs, originalRotation)`. */
  method CreateVideoFrameFromBitmap(image: Image, timestampNs: int, rotation: int) returns (r: Option<VideoFrame>)
    requires image.Valid()
    ensures r == FrameOf(image, timestampNs, rotation)
  {
    var buffer := BitmapToI420(image);
    if buffer.None? {
      return None;
    }
    r := Some(VideoFrame(buffer.value, rotation, timestampNs));
  }

  /** ceil(h / 2) * ceil(w / 2) samples fit in w * h / 4 bytes exactly when both dimensions are even. */
  lemma ChromaFits(width: nat, height: nat)
    requires width > 0 && height > 0
    ensures ((height + 1) / 2) * ((width + 1) / 2) <= width * height / 4
        <==> width % 2 == 0 && height % 2 == 0
  {
    var a, r := width / 2, width % 2;
    var b, s := height / 2, height % 2;
    assert width == 2 * a + r && (width + 1) / 2 == a + r;
    assert height == 2 * b + s && (height + 1) / 2 == b + s;
    if r == 0 && s == 0 {
      EvenAreaSplits(a, b);
    } else {
      OddAreaOverflows(a, b, r, s);
    }
  }

  /** Even dimensions: the area is exactly four times the sample count. */
  lemma EvenAreaSplits(a: nat, b: nat)
    ensures (b + 0) * (a + 0) == (2 * a + 0) * (2 * b + 0) / 4
  {
    assert (2 * a) * (2 * b) == 4 * (a * b);
    assert b * a == a * b;
  }

  /** An odd dimension: four times the sample count exceeds the area, so a quarter of it is too small. */
  lemma OddAreaOverflows(a: nat, b: nat, r: nat, s: nat)
    requires r <= 1 && s <= 1 && r + s > 0
    requires 2 * a + r > 0 && 2 * b + s > 0
    ensures (b + s) * (a + r) > (2 * a + r) * (2 * b + s) / 4
  {
    var samples := (b + s) * (a + r);
    var area := (2 * a + r) * (2 * b + s);
    Distribute(b, s, a, r);
    Distribute(2 * a, r, 2 * b, s);
    assert (2 * a) * (2 * b) == 4 * (a * b) && r * (2 * b) == 2 * (r * b) && (2 * a) * s == 2 * (a * s);
    assert b * a == a * b && s * a == a * s && b * r == r * b && s * r == r * s;
    assert 4 * samples > area by {
      if r == 0 {
        assert s == 1 && a > 0 && r * b == 0 && r * s == 0 && a * s == a;
      } else if s == 0 {
        assert b > 0 && a * s == 0 && r * s == 0 && r * b == b;
      } else {
        assert a * s == a && r * b == b && r * s == 1;
      }
    }
    assert 4 * (area / 4) <= area;
  }

  /** (x + y)(z + w) multiplied out. */
  lemma Distribute(x: int, y: int, z: int, w: int)
    ensures (x + y) * (z + w) == x * z + x * w + y * z + y * w
  {
  }

  /**
   * `bitmapToI420` succeeds exactly when both dimensions are even: odd ones
   * make one chroma `put` too many (the chroma sample of the last, odd column
   * or row).
   */
  lemma I420OfSucceedsIffEven(image: Image)
    requires image.Valid()
    ensures I420Of(image).Some? <==> image.width % 2 == 0 && image.height % 2 == 0
  {
    RowStartIsOffset(image.height, image.width);
    ChromaRowsLength(RgbToU, image.pixels, image.width, image.height);
    ChromaRowsLength(RgbToV, image.pixels, image.width, image.height);
    ChromaFits(image.width, image.height);
  }

  // ---------------------------------------------------------------------
  // I420 -> NV21
  // ---------------------------------------------------------------------

  /** Alternates the bytes of two equally long planes, `v[0], u[0], v[1], u[1], ...`. */
  function Interleave(v: seq<Byte>, u: seq<Byte>): (r: seq<Byte>)
    requires |v| == |u|
    ensures |r| == 2 * |v|
  {
    if |v| == 0 then [] else Interleave(v[..|v| - 1], u[..|u| - 1]) + [v[|v| - 1], u[|u| - 1]]
  }

  /** Splits an interleaved plane back into the bytes at even and at odd positions. */
  function Deinterleave(s: seq<Byte>): (r: (seq<Byte>, seq<Byte>))
    requires |s| % 2 == 0
    ensures |r.0| == |r.1| == |s| / 2
  {
    if |s| == 0 then ([], [])
    else
      var rest := Deinterleave(s[..|s| - 2]);
      (rest.0 + [s[|s| - 2]], rest.1 + [s[|s| - 1]])
  }

  /** Where each byte of the two planes lands in the interleaving. */
  lemma {:induction false} InterleaveAt(v: seq<Byte>, u: seq<Byte>, i: nat)
    requires |v| == |u| && i < |v|
    ensures Interleave(v, u)[2 * i] == v[i] && Interleave(v, u)[2 * i + 1] == u[i]
  {
    if i < |v| - 1 {
      InterleaveAt(v[..|v| - 1], u[..|u| - 1], i);
    }
  }

  /** Interleaving ends with the last byte of each plane, V first. */
  lemma InterleaveLast(v: seq<Byte>, u: seq<Byte>)
    requires |v| == |u| && |v| > 0
    ensures var s := Interleave(v, u);
      && s[..|s| - 2] == Interleave(v[..|v| - 1], u[..|u| - 1])
      && s[|s| - 2] == v[|v| - 1] && s[|s| - 1] == u[|u| - 1]
  {
    var s' := Interleave(v[..|v| - 1], u[..|u| - 1]);
    assert Interleave(v, u) == s' + [v[|v| - 1], u[|u| - 1]];
  }

  /** A sequence is its prefix followed by its last element. */
  lemma Snoc<T>(s: seq<T>)
    requires |s| > 0
    ensures s[..|s| - 1] + [s[|s| - 1]] == s
  {
  }

  /** A sequence is its prefix followed by its last two elements. */
  lemma SnocPair<T>(s: seq<T>)
    requires |s| >= 2
    ensures s[..|s| - 2] + [s[|s| - 2], s[|s| - 1]] == s
  {
  }

  /** Splitting an interleaving gives back the two planes. */
  lemma {:induction false} DeinterleaveInterleave(v: seq<Byte>, u: seq<Byte>)
    requires |v| == |u|
    ensures Deinterleave(Interleave(v, u)) == (v, u)
  {
    if |v| > 0 {
      InterleaveLast(v, u);
      DeinterleaveInterleave(v[..|v| - 1], u[..|u| - 1]);
      Snoc(v);
      Snoc(u);
    }
  }

  /** Appending one byte to each plane appends the pair to the interleaving. */
  lemma InterleaveSnoc(v: seq<Byte>, u: seq<Byte>, a: Byte, b: Byte)
    requires |v| == |u|
    ensures Interleave(v + [a], u + [b]) == Interleave(v, u) + [a, b]
  {
    assert (v + [a])[..|v|] == v && (u + [b])[..|u|] == u;
  }

  /** Interleaving the two halves of a split gives back the plane. */
  lemma {:induction false} InterleaveDeinterleave(s: seq<Byte>)
    requires |s| % 2 == 0
    ensures Interleave(Deinterleave(s).0, Deinterleave(s).1) == s
  {
    if |s| > 0 {
      var front, a, b := s[..|s| - 2], s[|s| - 2], s[|s| - 1];
      var rest, r := Deinterleave(front), Deinterleave(s);
      assert r.0 == rest.0 + [a] && r.1 == rest.1 + [b];
      InterleaveSnoc(rest.0, rest.1, a, b);
      InterleaveDeinterleave(front);
      SnocPair(s);
    }
  }

  /**
   * What `i420ToNv21` returns: the first `w * h` luma bytes followed by the
   * first `w * h / 4` bytes of V and of U, interleaved V first; None when a
   * plane holds fewer bytes than that (the buffer underflow is caught and
   * null returned).
   */
  function Nv21Of(buffer: I420Buffer): Option<seq<Byte>>
  {
    var ySize := buffer.width * buffer.height;
    var uvSize := buffer.width * buffer.height / 4;
    if |buffer.dataY| < ySize || |buffer.dataU| < uvSize || |buffer.dataV| < uvSize then None
    else Some(buffer.dataY[..ySize] + Interleave(buffer.dataV[..uvSize], buffer.dataU[..uvSize]))
  }

  /** `i420ToNv21`: copies the luma plane, then writes V and U alternately after it. */
  method I420ToNv21(buffer: I420Buffer) returns (r: Option<seq<Byte>>)
    ensures r == Nv21Of(buffer)
  {
    var width, height := buffer.width, buffer.height;
    var ySize := width * height;
    var uvSize := width * height / 4;
    if |buffer.dataY| < ySize || |buffer.dataU| < uvSize || |buffer.dataV| < uvSize {
      return None;
    }
    var nv21 := Nv21Bytes(buffer.dataY, buffer.dataU, buffer.dataV, ySize, uvSize);
    r := Some(nv21);
  }

  /**
   * The copying part of `i420ToNv21`, once the planes are known to be long
   * enough: the luma prefix, then the interleaved chroma prefixes.
   */
  method Nv21Bytes(dataY: seq<Byte>, dataU: seq<Byte>, dataV: seq<Byte>, ySize: nat, uvSize: nat)
    returns (r: seq<Byte>)
    requires ySize <= |dataY| && uvSize <= |dataU| && uvSize <= |dataV|
    ensures r == dataY[..ySize] + Interleave(dataV[..uvSize], dataU[..uvSize])
  {
    var nv21 := new Byte[ySize + uvSize * 2];
    forall j | 0 <= j < ySize {
      nv21[j] := dataY[j];
    }
    assert nv21[..ySize] == dataY[..ySize];
    var uBytes := dataU[..uvSize];
    var vBytes := dataV[..uvSize];
    InterleaveChroma(nv21, ySize, vBytes, uBytes);
    assert nv21[..] == nv21[..ySize] + nv21[ySize..];
    r := nv21[..];
  }

  /** The loop of `i420ToNv21`: V and U alternately into the bytes after the luma plane. */
  method InterleaveChroma(nv21: array<Byte>, ySize: nat, vBytes: seq<Byte>, uBytes: seq<Byte>)
    requires |vBytes| == |uBytes| && nv21.Length == ySize + |vBytes| * 2
    modifies nv21
    ensures nv21[..ySize] == old(nv21[..ySize])
    ensures nv21[ySize..] == Interleave(vBytes, uBytes)
  {
    var uvSize := |vBytes|;
    var i := 0;
    while i < uvSize
      invariant 0 <= i <= uvSize
      invariant nv21[..ySize] == old(nv21[..ySize])
      invariant nv21[ySize..ySize + i * 2] == Interleave(vBytes[..i], uBytes[..i])
    {
      nv21[ySize + i * 2] := vBytes[i];
      nv21[ySize + i * 2 + 1] := uBytes[i];
      InterleaveStep(vBytes, uBytes, i);
      i := i + 1;
    }
    assert vBytes[..uvSize] == vBytes && uBytes[..uvSize] == uBytes;
  }

  /** Interleaving one more byte of each plane appends the pair. */
  lemma InterleaveStep(v: seq<Byte>, u: seq<Byte>, i: nat)
    requires |v| == |u| && i < |v|
    ensures Interleave(v[..i + 1], u[..i + 1]) == Interleave(v[..i], u[..i]) + [v[i], u[i]]
  {
    assert v[..i + 1][..i] == v[..i] && u[..i + 1][..i] == u[..i];
  }

  /**
   * The NV21 layout: `w * h + 2 * (w * h / 4)` bytes, luma first, then V[i] at
   * `w * h + 2i` and U[i] at `w * h + 2i + 1`.
   */
  lemma Nv21Layout(buffer: I420Buffer)
    requires Nv21Of(buffer).Some?
    ensures var ySize, uvSize := buffer.width * buffer.height, buffer.width * buffer.height / 4;
      var nv21 := Nv21Of(buffer).value;
      && |nv21| == ySize + 2 * uvSize
      && nv21[..ySize] == buffer.dataY[..ySize]
      && (forall i | 0 <= i < uvSize :: nv21[ySize + 2 * i] == buffer.dataV[i])
      && (forall i | 0 <= i < uvSize :: nv21[ySize + 2 * i + 1] == buffer.dataU[i])
  {
    var ySize, uvSize := buffer.width * buffer.height, buffer.width * buffer.height / 4;
    var v, u := buffer.dataV[..uvSize], buffer.dataU[..uvSize];
    var nv21 := Nv21Of(buffer).value;
    forall i | 0 <= i < uvSize
      ensures nv21[ySize + 2 * i] == buffer.dataV[i] && nv21[ySize + 2 * i + 1] == buffer.dataU[i]
    {
      InterleaveAt(v, u, i);
    }
  }

  /** The chroma half of an NV21 result splits back into the V and U planes it came from. */
  lemma Nv21ChromaSplits(buffer: I420Buffer)
    requires Nv21Of(buffer).Some?
    ensures var ySize, uvSize := buffer.width * buffer.height, buffer.width * buffer.height / 4;
      Deinterleave(Nv21Of(buffer).value[ySize..]) == (buffer.dataV[..uvSize], buffer.dataU[..uvSize])
  {
    var ySize, uvSize := buffer.width * buffer.height, buffer.width * buffer.height / 4;
    var v, u := buffer.dataV[..uvSize], buffer.dataU[..uvSize];
    assert Nv21Of(buffer).value[ySize..] == Interleave(v, u);
    DeinterleaveInterleave(v, u);
  }

  /** Every buffer `bitmapToI420` produces converts to NV21. */
  lemma I420OfConvertsToNv21(image: Image)
    requires image.Valid() && I420Of(image).Some?
    ensures Nv21Of(I420Of(image).value).Some?
  {
    I420Layout(image);
  }

  // ---------------------------------------------------------------------------
  // The planes bitmapToI420 produces, entry by entry
  // ---------------------------------------------------------------------------

  /**
   * A buffer from `bitmapToI420` has the bitmap's dimensions, strides `w`,
   * `w / 2`, `w / 2`, and planes of exactly `w * h`, `w * h / 4` and `w * h / 4`
   * bytes.
   */
  lemma I420Layout(image: Image)
    requires image.Valid() && I420Of(image).Some?
    ensures var buffer, w, h := I420Of(image).value, image.width, image.height;
      && buffer.width == w && buffer.height == h
      && buffer.strideY == w && buffer.strideU == w / 2 && buffer.strideV == w / 2
      && |buffer.dataY| == w * h && |buffer.dataU| == w * h / 4 && |buffer.dataV| == w * h / 4
  {
    var w, h := image.width, image.height;
    RowStartIsOffset(h, w);
    I420OfSucceedsIffEven(image);
    var buffer := I420Of(image).value;
    assert buffer.dataU == ChromaRows(RgbToU, image.pixels, w, h);
    assert buffer.dataV == ChromaRows(RgbToV, image.pixels, w, h);
    ChromaRowsLength(RgbToU, image.pixels, w, h);
    ChromaRowsLength(RgbToV, image.pixels, w, h);
    var a, b := w / 2, h / 2;
    assert w == 2 * a + 0 && h == 2 * b + 0 && (w + 1) / 2 == a + 0 && (h + 1) / 2 == b + 0;
    EvenAreaSplits(a, b);
  }

  /** Luma entry `y * w + x` is the luma of pixel (x, y). */
  lemma I420LumaAt(image: Image, x: nat, y: nat)
    requires image.Valid() && I420Of(image).Some? && x < image.width && y < image.height
    ensures var buffer, i := I420Of(image).value, Offset(x, y, image.width);
      0 <= i < |image.pixels| && i < |buffer.dataY| && buffer.dataY[i] == RgbToY(image.pixels[i])
  {
    OffsetInPlane(x, y, image.width, image.height);
    RowStartIsOffset(image.height, image.width);
    EachPixelAt(RgbToY, image.pixels, Offset(x, y, image.width));
  }

  /** The strides of a `bitmapToI420` buffer. */
  lemma I420Strides(image: Image)
    requires image.Valid() && I420Of(image).Some?
    ensures var buffer := I420Of(image).value;
      buffer.strideY == image.width && buffer.strideU == image.width / 2 && buffer.strideV == image.width / 2
  {
  }

  /**
   * Chroma entry i = `cy * (w / 2) + cx` of both chroma planes comes from pixel
   * p = (2 cx, 2 cy) alone, the top-left pixel of its 2x2 block.
   */
  lemma I420ChromaAt(image: Image, cx: nat, cy: nat, i: nat, p: nat)
    requires image.Valid() && I420Of(image).Some?
    requires cx < image.width / 2 && cy < image.height / 2
    requires i == Offset(cx, cy, image.width / 2) && p == Offset(2 * cx, 2 * cy, image.width)
    ensures p < |image.pixels|
    ensures var buffer := I420Of(image).value;
      && i < |buffer.dataU| && buffer.dataU[i] == RgbToU(image.pixels[p])
      && i < |buffer.dataV| && buffer.dataV[i] == RgbToV(image.pixels[p])
  {
    I420OfSucceedsIffEven(image);
    RowStartIsOffset(image.height, image.width);
    ChromaPlaneAt(RgbToU, image.pixels, image.width, image.height, cx, cy, i, p);
    ChromaPlaneAt(RgbToV, image.pixels, image.width, image.height, cx, cy, i, p);
  }

  /** `I420ChromaAt` for one chroma plane of an even-width plane of pixels. */
  lemma ChromaPlaneAt(f: Pixel -> Byte, pixels: seq<Pixel>, w: nat, h: nat, cx: nat, cy: nat, i: nat, p: nat)
    requires |pixels| == RowStart(h, w) && w % 2 == 0
    requires cx < w / 2 && cy < h / 2
    requires i == Offset(cx, cy, w / 2) && p == Offset(2 * cx, 2 * cy, w)
    ensures p < |pixels|
    ensures i < |ChromaRows(f, pixels, w, h)| && ChromaRows(f, pixels, w, h)[i] == f(pixels[p])
  {
    var x, y := 2 * cx, 2 * cy;
    var start, base := RowStart(y, w), RowStart(cy, (w + 1) / 2);
    RowStartIsOffset(y, w);
    RowStartIsOffset(cy, (w + 1) / 2);
    assert (w + 1) / 2 == w / 2;
    ChromaRowsAt(f, pixels, w, h, ChromaRows(f, pixels, w, h), x, y, cx, cy, start, base);
  }

  /**
   * Reading a `bitmapToI420` buffer back with `convertYuv420ToRgb`'s chroma
   * indexing `(y / 2) * strideU + x / 2`: for pixel (x, y) the index is inside
   * both chroma planes, which hold the chroma of the top-left pixel of the
   * pixel's 2x2 block. With `I420LumaAt` (luma index `y * w + x`, stride `w`
   * by `I420Strides`) the two directions agree on where every sample lives.
   */
  lemma I420ChromaReadBack(image: Image, x: nat, y: nat)
    requires image.Valid() && I420Of(image).Some? && x < image.width && y < image.height
    ensures var buffer, w, h := I420Of(image).value, image.width, image.height;
      var ci := ChromaIndex(x, y, buffer.strideU);
      && x - x % 2 < w && y - y % 2 < h
      && ci < |buffer.dataU| && buffer.dataU[ci] == RgbToU(At(image.pixels, w, h, x - x % 2, y - y % 2))
      && ci < |buffer.dataV| && buffer.dataV[ci] == RgbToV(At(image.pixels, w, h, x - x % 2, y - y % 2))
  {
    var w, h := image.width, image.height;
    I420OfSucceedsIffEven(image);
    var cx, cy := x / 2, y / 2;
    assert 2 * cx == x - x % 2 < w && 2 * cy == y - y % 2 < h;
    assert cx < w / 2 && cy < h / 2;
    var i, p := Offset(cx, cy, w / 2), Offset(2 * cx, 2 * cy, w);
    I420ChromaAt(image, cx, cy, i, p);
    assert ChromaIndex(x, y, I420Of(image).value.strideU) == i;
    assert At(image.pixels, w, h, 2 * cx, 2 * cy) == image.pixels[p];
  }

  /** Hence `i420ToBitmap`'s per-pixel rule finds a sample for every pixel of such a buffer. */
  lemma I420OfSampledBack(image: Image, x: nat, y: nat)
    requires image.Valid() && I420Of(image).Some? && x < image.width && y < image.height
    ensures var buffer := I420Of(image).value;
      SampleAt(buffer.dataY, buffer.dataU, buffer.dataV, buffer.strideY, buffer.strideU, x, y).Some?
  {
    I420Strides(image);
    I420LumaAt(image, x, y);
    I420ChromaReadBack(image, x, y);
  }
}
