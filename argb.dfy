/**
 * Packed 32-bit ARGB pixels and 8-bit samples, as the Android code keeps them in
 * `int[]` and `byte[]` arrays, with the clamping and float-to-int conversions it
 * applies to colour values.
 */
module Argb {

  /** An 8-bit sample as the code reads it back, `b & 0xFF`. */
  type Byte = x: int | 0 <= x < 0x100

  /** The bits of a packed `0xAARRGGBB` Java int, read as an unsigned number. */
  type Pixel = x: int | 0 <= x < 0x1_0000_0000

  /** The colour channels the box blur averages separately. */
  datatype Channel = Red | Green | Blue

  /** `(a << 24) | (r << 16) | (g << 8) | b` for channel values that fit in 8 bits. */
  function Pack(a: Byte, r: Byte, g: Byte, b: Byte): Pixel
  {
    a * 0x100_0000 + r * 0x1_0000 + g * 0x100 + b
  }

  /** Unpacking a packed pixel gives back its four channels. */
  lemma Unpack(a: Byte, r: Byte, g: Byte, b: Byte)
    ensures var p := Pack(a, r, g, b);
      AlphaOf(p) == a && RedOf(p) == r && GreenOf(p) == g && BlueOf(p) == b
  {
    var p := Pack(a, r, g, b);
    var low := g * 0x100 + b;
    DivModOf(p, 0x100_0000, a, r * 0x1_0000 + low);
    DivModOf(p, 0x1_0000, a * 0x100 + r, low);
    DivModOf(a * 0x100 + r, 0x100, a, r);
    DivModOf(p, 0x100, a * 0x1_0000 + r * 0x100 + g, b);
    DivModOf(a * 0x1_0000 + r * 0x100 + g, 0x100, a * 0x100 + r, g);
  }

  /** Quotient and remainder are determined by any decomposition `n == q * d + m` with `0 <= m < d`. */
  lemma DivModOf(n: int, d: int, q: int, m: int)
    requires d > 0 && 0 <= m < d && n == q * d + m
    ensures n / d == q && n % d == m
  {
    var q', m' := n / d, n % d;
    assert q' * d + m' == n && 0 <= m' < d;
    if q' > q {
      MulLeq(q + 1, q', d);
      MulSucc(q, d);
    } else if q' < q {
      MulLeq(q' + 1, q, d);
      MulSucc(q', d);
    }
  }

  /** `(p >> 24) & 0xFF` */
  function AlphaOf(p: Pixel): Byte { p / 0x100_0000 }

  /** `(p >> 16) & 0xFF` */
  function RedOf(p: Pixel): Byte { p / 0x1_0000 % 0x100 }

  /** `(p >> 8) & 0xFF` */
  function GreenOf(p: Pixel): Byte { p / 0x100 % 0x100 }

  /** `p & 0xFF` */
  function BlueOf(p: Pixel): Byte { p % 0x100 }

  function ChannelOf(p: Pixel, c: Channel): Byte
  {
    match c
    case Red => RedOf(p)
    case Green => GreenOf(p)
    case Blue => BlueOf(p)
  }

  /** An opaque grey pixel, `0xFF000000 | (v << 16) | (v << 8) | v`. */
  function Grey(v: Byte): Pixel
  {
    Pack(0xFF, v, v, v)
  }

  /** `Math.max(0, Math.min(255, v))` */
  function Clamp(v: int): Byte
  {
    if v < 0 then 0 else if v > 0xFF then 0xFF else v
  }

  function Distance(a: int, b: int): nat
  {
    if a <= b then b - a else a - b
  }

  /**
   * Clamping picks the byte nearest to `v`, leaves exactly the bytes
   * unchanged, and never reverses the order of two values.
   */
  lemma ClampNearest(v: int, w: int)
    ensures forall b: Byte :: Distance(Clamp(v), v) <= Distance(b, v)
    ensures Clamp(v) == v <==> 0 <= v <= 0xFF
    ensures v <= w ==> Clamp(v) <= Clamp(w)
    ensures Clamp(Clamp(v)) == Clamp(v)
  {
  }

  /**
   * Java's `(int)` cast of the exact rational `n / d`: the quotient rounded toward
   * zero (Dafny's own `/` rounds toward minus infinity for negative `n`).
   */
  function Trunc(n: int, d: int): (q: int)
    requires d > 0
    ensures n >= 0 ==> 0 <= q && q * d <= n < q * d + d
    ensures n < 0 ==> q <= 0 && -n - d < -q * d <= -n
  {
    if n >= 0 then
      DivBounds(n, d);
      n / d
    else
      DivBounds(-n, d);
      -((-n) / d)
  }

  lemma DivBounds(n: int, d: int)
    requires n >= 0 && d > 0
    ensures 0 <= n / d && (n / d) * d <= n < (n / d) * d + d
  {
    assert n == (n / d) * d + n % d;
  }

  /**
   * Once the result is clamped to 0..255, truncating toward zero and rounding
   * down give the same sample: they differ only on negative quotients, which
   * both clamp to 0.
   */
  lemma ClampTruncIsClampFloor(n: int, d: int)
    requires d > 0
    ensures Clamp(Trunc(n, d)) == Clamp(n / d)
  {
    if n < 0 {
      assert n / d < 0 by {
        assert n == (n / d) * d + n % d;
      }
    }
  }

  lemma MulSucc(a: int, c: int)
    ensures (a + 1) * c == a * c + c
  {
  }

  /** Row-major offset of column `x`, row `y` in a plane whose rows are `stride` entries apart. */
  function Offset(x: int, y: int, stride: int): int
  {
    y * stride + x
  }

  lemma MulLeq(a: int, b: int, c: nat)
    requires a <= b
    ensures a * c <= b * c
  {
  }

  /** Each entry of a `width` x `height` row-major plane lies inside it. */
  lemma OffsetInPlane(x: int, y: int, width: int, height: int)
    requires 0 <= x < width && 0 <= y < height
    ensures 0 <= Offset(x, y, width) < width * height
  {
    MulLeq(y + 1, height, width);
  }

  /** The entry for column x, row y of a `width` x `height` row-major plane. */
  function At<T>(plane: seq<T>, width: nat, height: nat, x: nat, y: nat): (v: T)
    requires |plane| == width * height && x < width && y < height
    ensures 0 <= Offset(x, y, width) < |plane| && v == plane[Offset(x, y, width)]
  {
    OffsetInPlane(x, y, width, height);
    plane[Offset(x, y, width)]
  }

  /** Row y + 1 starts where row y ends. */
  lemma NextRow(y: int, width: int)
    ensures Offset(0, y + 1, width) == Offset(width, y, width)
  {
  }

  /** A whole row of the plane, up to its end, lies inside it. */
  lemma RowInPlane(y: int, width: int, height: int)
    requires 0 <= y < height && 0 <= width
    ensures 0 <= Offset(0, y, width) <= Offset(width, y, width) <= width * height
  {
    MulLeq(y + 1, height, width);
  }

  /** OffsetInPlane for every entry at once. */
  lemma OffsetsInPlane(width: int, height: int)
    ensures forall y, x | 0 <= y < height && 0 <= x < width :: 0 <= Offset(x, y, width) < width * height
  {
    forall y, x | 0 <= y < height && 0 <= x < width
      ensures 0 <= Offset(x, y, width) < width * height
    {
      OffsetInPlane(x, y, width, height);
    }
  }

  /** Every entry of the rows above row y comes before row y starts. */
  lemma RowsBefore(y: int, width: int)
    requires 0 <= y && 0 <= width
    ensures forall y', x' | 0 <= y' < y && 0 <= x' < width :: Offset(x', y', width) < Offset(0, y, width)
  {
    forall y', x' | 0 <= y' < y && 0 <= x' < width
      ensures Offset(x', y', width) < Offset(0, y, width)
    {
      MulLeq(y' + 1, y, width);
    }
  }

  /** Row-major offsets recover their column and row. */
  lemma OffsetDivMod(x: int, y: int, width: int)
    requires 0 <= x < width && 0 <= y
    ensures Offset(x, y, width) / width == y && Offset(x, y, width) % width == x
  {
    var k := Offset(x, y, width);
    var q, r := k / width, k % width;
    assert k == q * width + r;
    if q < y {
      MulLeq(q + 1, y, width);
      assert false;
    } else if q > y {
      MulLeq(y + 1, q, width);
      assert false;
    }
  }
}
