/**
 * `applyBoxBlur`: a separable box blur over a packed ARGB buffer. A
 * horizontal pass writes each pixel's row-window mean into `temp`, then a
 * vertical pass writes each pixel's column-window mean of `temp` back into
 * `pixels`. A window holds the in-bounds neighbours within `radius`, and
 * each channel is the integer mean over it; alpha is forced to 0xFF.
 */
module BoxBlur {
  import opened Argb
  import opened Graphics

  // ---------------------------------------------------------------------------
  // The arithmetic of one window
  // ---------------------------------------------------------------------------

  /**
   * The entries `s[origin + j * step]` for j in 0..len: a row of a row-major
   * plane (step 1) or a column (step = width).
   */
  function LineOf(s: seq<Pixel>, origin: nat, step: nat, len: nat): (line: seq<Pixel>)
    requires len == 0 || origin + (len - 1) * step < |s|
    ensures |line| == len
  {
    seq(len, j requires 0 <= j < len => MulLeq(j, len - 1, step); s[origin + j * step])
  }

  /** The sum of channel c over the entries of `line` whose positions in lo..hi are in bounds. */
  function WindowSum(line: seq<Pixel>, c: Channel, lo: int, hi: int): nat
    decreases hi - lo
  {
    if hi <= lo then 0
    else WindowSum(line, c, lo, hi - 1) + (if 0 <= hi - 1 < |line| then ChannelOf(line[hi - 1], c) else 0)
  }

  /** How many of the positions lo..hi lie in 0..n. */
  function WindowCount(n: nat, lo: int, hi: int): nat
    decreases hi - lo
  {
    if hi <= lo then 0
    else WindowCount(n, lo, hi - 1) + (if 0 <= hi - 1 < n then 1 else 0)
  }

  /** A window around an in-bounds position holds at least that position. */
  lemma {:induction false} WindowCountPositive(n: nat, lo: int, i: int, hi: int)
    requires lo <= i < hi && 0 <= i < n
    ensures WindowCount(n, lo, hi) >= 1
  {
    if hi - 1 > i {
      WindowCountPositive(n, lo, i, hi - 1);
    }
  }

  /** A channel sum is at most 255 per counted entry. */
  lemma {:induction false} WindowSumBound(line: seq<Pixel>, c: Channel, lo: int, hi: int)
    ensures WindowSum(line, c, lo, hi) <= 0xFF * WindowCount(|line|, lo, hi)
    decreases hi - lo
  {
    if hi > lo {
      WindowSumBound(line, c, lo, hi - 1);
    }
  }

  /** An integer mean of values at most 255 is at most 255. */
  lemma MeanBound(sum: nat, count: nat)
    requires count >= 1 && sum <= 0xFF * count
    ensures sum / count <= 0xFF
  {
    var q := sum / count;
    assert q * count <= sum;
    assert (0xFF - q) * count >= 0;
  }

  /** `sum / count`: Java's integer division of non-negative values, a channel value again. */
  function Avg(sum: nat, count: nat): Byte
    requires count >= 1 && sum <= 0xFF * count
  {
    MeanBound(sum, count);
    sum / count
  }

  /**
   * The pixel one pass writes for position i of `line`:
   * `0xFF000000 | (r << 16) | (g << 8) | b` with r, g, b the integer means of
   * the channels over the window i - radius .. i + radius.
   */
  function Mean(line: seq<Pixel>, i: nat, radius: nat): (p: Pixel)
    requires i < |line|
  {
    var lo, hi := i - radius, i + radius + 1;
    WindowCountPositive(|line|, lo, i, hi);
    WindowSumBound(line, Red, lo, hi);
    WindowSumBound(line, Green, lo, hi);
    WindowSumBound(line, Blue, lo, hi);
    var count := WindowCount(|line|, lo, hi);
    Pack(0xFF, Avg(WindowSum(line, Red, lo, hi), count), Avg(WindowSum(line, Green, lo, hi), count),
         Avg(WindowSum(line, Blue, lo, hi), count))
  }

  /**
   * A pass's pixel is opaque and each channel is the integer mean over the
   * window, which holds at least the pixel itself.
   */
  lemma MeanChannels(line: seq<Pixel>, i: nat, radius: nat)
    requires i < |line|
    ensures var lo, hi := i - radius, i + radius + 1;
      var count, p := WindowCount(|line|, lo, hi), Mean(line, i, radius);
      && count >= 1
      && AlphaOf(p) == 0xFF
      && RedOf(p) == WindowSum(line, Red, lo, hi) / count
      && GreenOf(p) == WindowSum(line, Green, lo, hi) / count
      && BlueOf(p) == WindowSum(line, Blue, lo, hi) / count
  {
    var lo, hi := i - radius, i + radius + 1;
    WindowCountPositive(|line|, lo, i, hi);
    WindowSumBound(line, Red, lo, hi);
    WindowSumBound(line, Green, lo, hi);
    WindowSumBound(line, Blue, lo, hi);
    var count := WindowCount(|line|, lo, hi);
    var red, green, blue :=
      Avg(WindowSum(line, Red, lo, hi), count), Avg(WindowSum(line, Green, lo, hi), count),
      Avg(WindowSum(line, Blue, lo, hi), count);
    assert Mean(line, i, radius) == Pack(0xFF, red, green, blue);
    Unpack(0xFF, red, green, blue);
  }

  /** Over a line of one colour each channel sum is that channel times the count. */
  lemma {:induction false} ConstantWindowSum(line: seq<Pixel>, c: Channel, v: Pixel, lo: int, hi: int)
    requires forall j | 0 <= j < |line| :: line[j] == v
    ensures WindowSum(line, c, lo, hi) == ChannelOf(v, c) * WindowCount(|line|, lo, hi)
    decreases hi - lo
  {
    if hi > lo {
      ConstantWindowSum(line, c, v, lo, hi - 1);
      MulSucc(WindowCount(|line|, lo, hi - 1), ChannelOf(v, c));
      assert ChannelOf(v, c) * (WindowCount(|line|, lo, hi - 1) + 1)
          == ChannelOf(v, c) * WindowCount(|line|, lo, hi - 1) + ChannelOf(v, c);
    }
  }

  /** The opaque pixels are the ones packing their own channels gives back. */
  lemma Repack(p: Pixel)
    requires AlphaOf(p) == 0xFF
    ensures Pack(0xFF, RedOf(p), GreenOf(p), BlueOf(p)) == p
  {
  }

  /** The mean of a window of one opaque colour is that colour. */
  lemma ConstantMean(line: seq<Pixel>, v: Pixel, i: nat, radius: nat)
    requires i < |line| && AlphaOf(v) == 0xFF
    requires forall j | 0 <= j < |line| :: line[j] == v
    ensures Mean(line, i, radius) == v
  {
    var lo, hi := i - radius, i + radius + 1;
    var count := WindowCount(|line|, lo, hi);
    WindowCountPositive(|line|, lo, i, hi);
    forall c: Channel
      ensures WindowSum(line, c, lo, hi) / count == ChannelOf(v, c)
    {
      ConstantWindowSum(line, c, v, lo, hi);
      MulDiv(ChannelOf(v, c), count);
    }
    assert WindowSum(line, Red, lo, hi) / count == RedOf(v);
    assert WindowSum(line, Green, lo, hi) / count == GreenOf(v);
    assert WindowSum(line, Blue, lo, hi) / count == BlueOf(v);
    Repack(v);
  }

  /** (a * k) / k == a for k >= 1. */
  lemma MulDiv(a: nat, k: nat)
    requires k >= 1
    ensures (a * k) / k == a
  {
    var q := (a * k) / k;
    assert a * k == q * k + (a * k) % k;
    if q < a {
      MulLeq(q + 1, a, k);
    } else if q > a {
      MulLeq(a + 1, q, k);
    }
  }

  // ---------------------------------------------------------------------------
  // The two passes
  // ---------------------------------------------------------------------------

  /** Row y of a row-major plane. */
  ghost function Row(s: seq<Pixel>, y: nat, width: nat, height: nat): (row: seq<Pixel>)
    requires |s| == width * height && y < height
    ensures |row| == width
  {
    RowInPlane(y, width, height);
    LineOf(s, Offset(0, y, width), 1, width)
  }

  /** Column x of a row-major plane. */
  ghost function Column(s: seq<Pixel>, x: nat, width: nat, height: nat): (column: seq<Pixel>)
    requires |s| == width * height && x < width
    ensures |column| == height
  {
    ColumnInPlane(x, width, height);
    LineOf(s, x, width, height)
  }

  /** Rows 0..rows of `dst` hold the horizontal pass over `src`: pixel (x, y) is the mean of its row window. */
  ghost predicate RowsBlurred(dst: seq<Pixel>, src: seq<Pixel>, width: nat, height: nat, rows: nat, radius: nat)
    requires |src| == |dst| == width * height && rows <= height
  {
    forall y: nat, x: nat | y < rows && x < width ::
      OffsetInPlane(x, y, width, height);
      dst[Offset(x, y, width)] == Mean(Row(src, y, width, height), x, radius)
  }

  /** Columns 0..columns of `dst` hold the vertical pass over `src`: pixel (x, y) is the mean of its column window. */
  ghost predicate ColumnsBlurred(dst: seq<Pixel>, src: seq<Pixel>, width: nat, height: nat, columns: nat, radius: nat)
    requires |src| == |dst| == width * height && columns <= width
  {
    forall y: nat, x: nat | y < height && x < columns ::
      OffsetInPlane(x, y, width, height);
      dst[Offset(x, y, width)] == Mean(Column(src, x, width, height), y, radius)
  }

  /** `dst` is the horizontal pass over `src`. */
  ghost predicate HorizontallyBlurred(dst: seq<Pixel>, src: seq<Pixel>, width: nat, height: nat, radius: nat)
    requires |src| == width * height
  {
    |dst| == width * height && RowsBlurred(dst, src, width, height, height, radius)
  }

  /** `dst` is the vertical pass over `src`. */
  ghost predicate VerticallyBlurred(dst: seq<Pixel>, src: seq<Pixel>, width: nat, height: nat, radius: nat)
    requires |src| == width * height
  {
    |dst| == width * height && ColumnsBlurred(dst, src, width, height, width, radius)
  }

  /** `dst` is `applyBoxBlur(src, radius)`: the vertical pass over the horizontal pass. */
  ghost predicate BoxBlurred(dst: seq<Pixel>, src: seq<Pixel>, width: nat, height: nat, radius: nat)
    requires |src| == width * height
  {
    exists temp: seq<Pixel> ::
      HorizontallyBlurred(temp, src, width, height, radius) && VerticallyBlurred(dst, temp, width, height, radius)
  }

  /** The last entry of column x lies inside the plane. */
  lemma ColumnInPlane(x: nat, width: nat, height: nat)
    requires x < width
    ensures height == 0 || x + (height - 1) * width < width * height
  {
    if height > 0 {
      OffsetInPlane(x, height - 1, width, height);
    }
  }

  /** Writing row y, and nothing else, extends the rows already blurred by one. */
  lemma RowsBlurredStep(before: seq<Pixel>, after: seq<Pixel>, src: seq<Pixel>, width: nat, height: nat,
                        y: nat, base: nat, radius: nat)
    requires |src| == |before| == |after| == width * height && y < height
    requires base == Offset(0, y, width) && base + width <= |after|
    requires RowsBlurred(before, src, width, height, y, radius)
    requires forall x | 0 <= x < width :: after[base + x] == Mean(LineOf(src, base, 1, width), x, radius)
    requires forall k | 0 <= k < |after| && !(base <= k < base + width) :: after[k] == before[k]
    ensures RowsBlurred(after, src, width, height, y + 1, radius)
  {
    RowsBefore(y, width);
  }

  /** Writing column x, and nothing else, extends the columns already blurred by one. */
  lemma ColumnsBlurredStep(before: seq<Pixel>, after: seq<Pixel>, src: seq<Pixel>, width: nat, height: nat,
                           x: nat, radius: nat)
    requires |src| == |before| == |after| == width * height && x < width
    requires ColumnsBlurred(before, src, width, height, x, radius)
    requires forall y | 0 <= y < height ::
      0 <= Offset(x, y, width) < |after| && after[Offset(x, y, width)] == Mean(Column(src, x, width, height), y, radius)
    requires forall k | 0 <= k < |after| && k % width != x :: after[k] == before[k]
    ensures ColumnsBlurred(after, src, width, height, x + 1, radius)
  {
    forall y: nat, x': nat | y < height && x' < x + 1
      ensures 0 <= Offset(x', y, width) < |after|
      ensures after[Offset(x', y, width)] == Mean(Column(src, x', width, height), y, radius)
    {
      OffsetInPlane(x', y, width, height);
      if x' < x {
        var k := Offset(x', y, width);
        OffsetDivMod(x', y, width);
        assert after[k] == before[k];
      }
    }
  }

  /** One window's worth of the inner `dx` / `dy` loop: the mean of position i of a line. */
  method WindowMean(a: array<Pixel>, origin: nat, step: nat, len: nat, i: nat, radius: nat)
    returns (p: Pixel)
    requires i < len && origin + (len - 1) * step < a.Length
    ensures p == Mean(LineOf(a[..], origin, step, len), i, radius)
  {
    ghost var line := LineOf(a[..], origin, step, len);
    var r, g, b, count := 0, 0, 0, 0;
    var d: int := -(radius as int);
    while d <= radius
      invariant -(radius as int) <= d <= radius + 1
      invariant r == WindowSum(line, Red, i - radius, i + d)
      invariant g == WindowSum(line, Green, i - radius, i + d)
      invariant b == WindowSum(line, Blue, i - radius, i + d)
      invariant count == WindowCount(len, i - radius, i + d)
    {
      var n := i + d;
      WindowStep(line, i - radius, n);
      if n >= 0 && n < len {
        MulLeq(n, len - 1, step);
        var pixel := a[origin + n * step];
        assert pixel == line[n];
        r := r + RedOf(pixel);
        g := g + GreenOf(pixel);
        b := b + BlueOf(pixel);
        count := count + 1;
      }
      d := d + 1;
    }
    MeanOfSums(line, i, radius, r, g, b, count);
    r := r / count;
    g := g / count;
    b := b / count;
    p := Pack(0xFF, r, g, b);
  }

  /** Widening a window by position hi adds that position's channels and one to the count when it is in bounds. */
  lemma WindowStep(line: seq<Pixel>, lo: int, hi: int)
    requires lo <= hi
    ensures var inside := 0 <= hi < |line|;
      && WindowSum(line, Red, lo, hi + 1) == WindowSum(line, Red, lo, hi) + (if inside then RedOf(line[hi]) else 0)
      && WindowSum(line, Green, lo, hi + 1) == WindowSum(line, Green, lo, hi) + (if inside then GreenOf(line[hi]) else 0)
      && WindowSum(line, Blue, lo, hi + 1) == WindowSum(line, Blue, lo, hi) + (if inside then BlueOf(line[hi]) else 0)
      && WindowCount(|line|, lo, hi + 1) == WindowCount(|line|, lo, hi) + (if inside then 1 else 0)
  {
  }

  /** The full window's sums and count, divided and packed, are the pass's pixel. */
  lemma MeanOfSums(line: seq<Pixel>, i: nat, radius: nat, r: int, g: int, b: int, count: int)
    requires i < |line|
    requires var lo, hi := i - radius, i + radius + 1;
      && r == WindowSum(line, Red, lo, hi) && g == WindowSum(line, Green, lo, hi)
      && b == WindowSum(line, Blue, lo, hi) && count == WindowCount(|line|, lo, hi)
    ensures count >= 1 && 0 <= r / count <= 0xFF && 0 <= g / count <= 0xFF && 0 <= b / count <= 0xFF
    ensures Pack(0xFF, r / count, g / count, b / count) == Mean(line, i, radius)
  {
    var lo, hi := i - radius, i + radius + 1;
    WindowCountPositive(|line|, lo, i, hi);
    WindowSumBound(line, Red, lo, hi);
    WindowSumBound(line, Green, lo, hi);
    WindowSumBound(line, Blue, lo, hi);
    assert Mean(line, i, radius) == Pack(0xFF, Avg(r, count), Avg(g, count), Avg(b, count));
  }

  /**
   * The first x entries of the row at `base` in `d` hold the row pass over
   * `line`, and every entry outside them is as in `d0`.
   */
  ghost predicate RowPrefixBlurred(d: seq<Pixel>, d0: seq<Pixel>, base: nat, line: seq<Pixel>, x: nat, radius: nat)
  {
    && |d| == |d0| && base + x <= |d| && x <= |line|
    && (forall x' | 0 <= x' < x :: d[base + x'] == Mean(line, x', radius))
    && (forall k | 0 <= k < |d| && !(base <= k < base + x) :: d[k] == d0[k])
  }

  lemma RowPrefixStep(d: seq<Pixel>, d0: seq<Pixel>, base: nat, line: seq<Pixel>, x: nat, radius: nat, p: Pixel)
    requires RowPrefixBlurred(d, d0, base, line, x, radius) && x < |line| && base + x < |d|
    requires p == Mean(line, x, radius)
    ensures RowPrefixBlurred(d[base + x := p], d0, base, line, x + 1, radius)
  {
  }

  /** The row pass for one row starting at `base`: the inner `x` loop of the horizontal blur. */
  method BlurRow(src: array<Pixel>, dst: array<Pixel>, base: nat, width: nat, radius: nat)
    requires src != dst && src.Length == dst.Length && base + width <= src.Length
    modifies dst
    ensures forall x | 0 <= x < width :: dst[base + x] == Mean(LineOf(src[..], base, 1, width), x, radius)
    ensures forall k | 0 <= k < dst.Length && !(base <= k < base + width) :: dst[k] == old(dst[k])
  {
    ghost var line := LineOf(src[..], base, 1, width);
    var x := 0;
    while x < width
      invariant 0 <= x <= width
      invariant RowPrefixBlurred(dst[..], old(dst[..]), base, line, x, radius)
    {
      var p := WindowMean(src, base, 1, width, x, radius);
      RowPrefixStep(dst[..], old(dst[..]), base, line, x, radius, p);
      dst[base + x] := p;
      x := x + 1;
    }
  }

  /** The horizontal pass: every row of `dst` is the row pass over the same row of `src`. */
  method HorizontalPass(src: array<Pixel>, dst: array<Pixel>, width: nat, height: nat, radius: nat)
    requires src != dst && src.Length == dst.Length == width * height
    modifies dst
    ensures HorizontallyBlurred(dst[..], src[..], width, height, radius)
  {
    var y := 0;
    while y < height
      invariant 0 <= y <= height
      invariant RowsBlurred(dst[..], src[..], width, height, y, radius)
    {
      RowInPlane(y, width, height);
      ghost var before := dst[..];
      var base := Offset(0, y, width);
      BlurRow(src, dst, base, width, radius);
      RowsBlurredStep(before, dst[..], src[..], width, height, y, base, radius);
      y := y + 1;
    }
  }

  /** The column pass for column x: the inner `y` loop of the vertical blur. */
  method BlurColumn(src: array<Pixel>, dst: array<Pixel>, x: nat, width: nat, height: nat, radius: nat)
    requires src != dst && src.Length == dst.Length == width * height && x < width
    modifies dst
    ensures forall y | 0 <= y < height ::
      0 <= Offset(x, y, width) < dst.Length && dst[Offset(x, y, width)] == Mean(Column(src[..], x, width, height), y, radius)
    ensures forall k | 0 <= k < dst.Length && k % width != x :: dst[k] == old(dst[k])
  {
    ColumnInPlane(x, width, height);
    var y := 0;
    while y < height
      invariant 0 <= y <= height
      invariant forall y' | 0 <= y' < y ::
        0 <= Offset(x, y', width) < dst.Length && dst[Offset(x, y', width)] == Mean(Column(src[..], x, width, height), y', radius)
      invariant forall k | 0 <= k < dst.Length && k % width != x :: dst[k] == old(dst[k])
    {
      OffsetInPlane(x, y, width, height);
      OffsetDivMod(x, y, width);
      forall y' | 0 <= y' < y
        ensures Offset(x, y', width) / width == y'
      {
        OffsetDivMod(x, y', width);
      }
      var p := WindowMean(src, x, width, height, y, radius);
      dst[Offset(x, y, width)] := p;
      y := y + 1;
    }
  }

  /** The vertical pass: every column of `dst` is the column pass over the same column of `src`. */
  method VerticalPass(src: array<Pixel>, dst: array<Pixel>, width: nat, height: nat, radius: nat)
    requires src != dst && src.Length == dst.Length == width * height
    modifies dst
    ensures VerticallyBlurred(dst[..], src[..], width, height, radius)
  {
    var x := 0;
    while x < width
      invariant 0 <= x <= width
      invariant ColumnsBlurred(dst[..], src[..], width, height, x, radius)
    {
      ghost var before := dst[..];
      BlurColumn(src, dst, x, width, height, radius);
      ColumnsBlurredStep(before, dst[..], src[..], width, height, x, radius);
      x := x + 1;
    }
  }

  /**
   * `applyBoxBlur(input, radius)`: the pixels are copied out, blurred along
   * rows into `temp`, then along columns back into the copy, which becomes a
   * new bitmap of the same size.
   */
  method ApplyBoxBlur(input: Image, radius: nat) returns (result: Image)
    requires input.Valid()
    ensures result.width == input.width && result.height == input.height
    ensures BoxBlurred(result.pixels, input.pixels, input.width, input.height, radius)
    ensures result.Valid()
  {
    var width, height := input.width, input.height;
    var size := width * height;
    var pixels := new Pixel[size](i requires 0 <= i < size => input.pixels[i]);
    assert pixels[..] == input.pixels;
    var temp := new Pixel[size];
    HorizontalPass(pixels, temp, width, height, radius);
    ghost var horizontal := temp[..];
    VerticalPass(temp, pixels, width, height, radius);
    assert HorizontallyBlurred(horizontal, input.pixels, width, height, radius);
    result := Image(width, height, pixels[..]);
  }

  // ---------------------------------------------------------------------------
  // What the blur promises
  // ---------------------------------------------------------------------------

  /** Every index of a width x height plane is the offset of one pixel (x, y). */
  lemma Cell(k: nat, width: nat, height: nat)
    requires k < width * height
    ensures width > 0 && k % width < width && k / width < height
    ensures Offset(k % width, k / width, width) == k
  {
    assert width != 0;
    var y, x := k / width, k % width;
    assert k == y * width + x;
    assert (height - y) * width == width * height - y * width;
    assert (height - y) * width > 0;
  }

  /** Every pixel the blur writes is opaque: alpha is forced to 0xFF. */
  lemma BlurredIsOpaque(dst: seq<Pixel>, src: seq<Pixel>, width: nat, height: nat, radius: nat)
    requires |src| == width * height && BoxBlurred(dst, src, width, height, radius)
    ensures |dst| == width * height
    ensures forall k | 0 <= k < |dst| :: AlphaOf(dst[k]) == 0xFF
  {
    var temp :| HorizontallyBlurred(temp, src, width, height, radius) && VerticallyBlurred(dst, temp, width, height, radius);
    forall k | 0 <= k < |dst|
      ensures AlphaOf(dst[k]) == 0xFF
    {
      Cell(k, width, height);
      var x, y := k % width, k / width;
      MeanChannels(Column(temp, x, width, height), y, radius);
    }
  }

  /** A line drawn from a plane of one colour is of that colour. */
  lemma ConstantLine(s: seq<Pixel>, v: Pixel, origin: nat, step: nat, len: nat)
    requires len == 0 || origin + (len - 1) * step < |s|
    requires forall k | 0 <= k < |s| :: s[k] == v
    ensures forall j | 0 <= j < len :: LineOf(s, origin, step, len)[j] == v
  {
  }

  /** One pass over a plane of one opaque colour gives that plane back. */
  lemma ConstantPass(dst: seq<Pixel>, src: seq<Pixel>, width: nat, height: nat, radius: nat, v: Pixel, vertical: bool)
    requires |src| == width * height && AlphaOf(v) == 0xFF
    requires forall k | 0 <= k < |src| :: src[k] == v
    requires if vertical then VerticallyBlurred(dst, src, width, height, radius)
             else HorizontallyBlurred(dst, src, width, height, radius)
    ensures |dst| == |src| && forall k | 0 <= k < |dst| :: dst[k] == v
  {
    forall k | 0 <= k < |dst|
      ensures dst[k] == v
    {
      Cell(k, width, height);
      var x, y := k % width, k / width;
      if vertical {
        ColumnInPlane(x, width, height);
        ConstantLine(src, v, x, width, height);
        ConstantMean(Column(src, x, width, height), v, y, radius);
      } else {
        RowInPlane(y, width, height);
        ConstantLine(src, v, Offset(0, y, width), 1, width);
        ConstantMean(Row(src, y, width, height), v, x, radius);
      }
    }
  }

  /** Blurring an image of one opaque colour leaves it unchanged. */
  lemma ConstantIsFixedPoint(dst: seq<Pixel>, src: seq<Pixel>, width: nat, height: nat, radius: nat, v: Pixel)
    requires |src| == width * height && AlphaOf(v) == 0xFF
    requires forall k | 0 <= k < |src| :: src[k] == v
    requires BoxBlurred(dst, src, width, height, radius)
    ensures dst == src
  {
    var temp :| HorizontallyBlurred(temp, src, width, height, radius) && VerticallyBlurred(dst, temp, width, height, radius);
    ConstantPass(temp, src, width, height, radius, v, false);
    ConstantPass(dst, temp, width, height, radius, v, true);
  }

  /** Two planes that both satisfy one pass's description over the same source are equal. */
  lemma PassIsUnique(d1: seq<Pixel>, d2: seq<Pixel>, src: seq<Pixel>, width: nat, height: nat, radius: nat, vertical: bool)
    requires |src| == width * height
    requires if vertical then VerticallyBlurred(d1, src, width, height, radius) && VerticallyBlurred(d2, src, width, height, radius)
             else HorizontallyBlurred(d1, src, width, height, radius) && HorizontallyBlurred(d2, src, width, height, radius)
    ensures d1 == d2
  {
    forall k | 0 <= k < |d1|
      ensures d1[k] == d2[k]
    {
      Cell(k, width, height);
    }
  }

  /** The blur is a function of its input: `BoxBlurred` pins down one result. */
  lemma BoxBlurIsDeterministic(d1: seq<Pixel>, d2: seq<Pixel>, src: seq<Pixel>, width: nat, height: nat, radius: nat)
    requires |src| == width * height
    requires BoxBlurred(d1, src, width, height, radius) && BoxBlurred(d2, src, width, height, radius)
    ensures d1 == d2
  {
    var t1 :| HorizontallyBlurred(t1, src, width, height, radius) && VerticallyBlurred(d1, t1, width, height, radius);
    var t2 :| HorizontallyBlurred(t2, src, width, height, radius) && VerticallyBlurred(d2, t2, width, height, radius);
    PassIsUnique(t1, t2, src, width, height, radius, false);
    PassIsUnique(d1, d2, t1, width, height, radius, true);
  }

  /** With radius 0 a window is the pixel alone, so an opaque pixel is its own mean. */
  lemma RadiusZeroMean(line: seq<Pixel>, i: nat)
    requires i < |line| && AlphaOf(line[i]) == 0xFF
    ensures Mean(line, i, 0) == line[i]
  {
    assert WindowCount(|line|, i, i + 1) == 1;
    forall c: Channel
      ensures WindowSum(line, c, i, i + 1) / 1 == ChannelOf(line[i], c)
    {
    }
    assert WindowSum(line, Red, i, i + 1) / 1 == RedOf(line[i]);
    assert WindowSum(line, Green, i, i + 1) / 1 == GreenOf(line[i]);
    assert WindowSum(line, Blue, i, i + 1) / 1 == BlueOf(line[i]);
    Repack(line[i]);
  }

  /** With radius 0 the horizontal pass keeps pixel k of an opaque plane. */
  lemma RadiusZeroRowAt(dst: seq<Pixel>, src: seq<Pixel>, width: nat, height: nat, k: nat)
    requires |src| == width * height && k < |src| && AlphaOf(src[k]) == 0xFF
    requires HorizontallyBlurred(dst, src, width, height, 0)
    ensures dst[k] == src[k]
  {
    Cell(k, width, height);
    var x, y := k % width, k / width;
    RowInPlane(y, width, height);
    RadiusZeroMean(Row(src, y, width, height), x);
  }

  /** With radius 0 the vertical pass keeps pixel k of an opaque plane. */
  lemma RadiusZeroColumnAt(dst: seq<Pixel>, src: seq<Pixel>, width: nat, height: nat, k: nat)
    requires |src| == width * height && k < |src| && AlphaOf(src[k]) == 0xFF
    requires VerticallyBlurred(dst, src, width, height, 0)
    ensures dst[k] == src[k]
  {
    Cell(k, width, height);
    var x, y := k % width, k / width;
    ColumnInPlane(x, width, height);
    MulLeq(y, height - 1, width);
    RadiusZeroMean(Column(src, x, width, height), y);
  }

  /** A pass with radius 0 over an opaque plane gives that plane back. */
  lemma RadiusZeroPass(dst: seq<Pixel>, src: seq<Pixel>, width: nat, height: nat, vertical: bool)
    requires |src| == width * height
    requires forall k | 0 <= k < |src| :: AlphaOf(src[k]) == 0xFF
    requires if vertical then VerticallyBlurred(dst, src, width, height, 0)
             else HorizontallyBlurred(dst, src, width, height, 0)
    ensures dst == src
  {
    forall k | 0 <= k < |dst|
      ensures dst[k] == src[k]
    {
      if vertical {
        RadiusZeroColumnAt(dst, src, width, height, k);
      } else {
        RadiusZeroRowAt(dst, src, width, height, k);
      }
    }
  }

  /** `applyBoxBlur(bitmap, 0)` returns an opaque bitmap's own pixels. */
  lemma RadiusZeroIsIdentity(dst: seq<Pixel>, src: seq<Pixel>, width: nat, height: nat)
    requires |src| == width * height
    requires forall k | 0 <= k < |src| :: AlphaOf(src[k]) == 0xFF
    requires BoxBlurred(dst, src, width, height, 0)
    ensures dst == src
  {
    var temp :| HorizontallyBlurred(temp, src, width, height, 0) && VerticallyBlurred(dst, temp, width, height, 0);
    RadiusZeroPass(temp, src, width, height, false);
    RadiusZeroPass(dst, temp, width, height, true);
  }
}
