/**
 * The byte planes the ARGB -> I420 conversion produces, as functions of the
 * pixels: one byte per pixel for luma, one per even column of every even row
 * for each chroma plane (the chroma of a 2x2 block comes from its top-left
 * pixel alone).
 */
module Planes {
  import opened Argb

  /** The bytes `f` makes of a run of pixels, in order: one per pixel (the luma plane for `RgbToY`). */
  function EachPixel(f: Pixel -> Byte, run: seq<Pixel>): (r: seq<Byte>)
    ensures |r| == |run|
  {
    if |run| == 0 then [] else EachPixel(f, run[..|run| - 1]) + [f(run[|run| - 1])]
  }

  /** The chroma bytes `f` makes of one row: one for each even column, from that pixel alone. */
  function EvenColumns(f: Pixel -> Byte, row: seq<Pixel>): (r: seq<Byte>)
    ensures |r| == (|row| + 1) / 2
  {
    if |row| == 0 then []
    else EvenColumns(f, row[..|row| - 1]) + (if (|row| - 1) % 2 == 0 then [f(row[|row| - 1])] else [])
  }

  /**
   * Where row y of a row-major plane of this width starts: y * width, counted
   * one row at a time, so that a step to the next row needs no multiplication.
   */
  function RowStart(y: nat, width: nat): nat
  {
    if y == 0 then 0 else RowStart(y - 1, width) + width
  }

  /** `RowStart` is the row-major offset of column 0. */
  lemma {:induction false} RowStartIsOffset(y: nat, width: nat)
    ensures RowStart(y, width) == Offset(0, y, width)
  {
    if y > 0 {
      RowStartIsOffset(y - 1, width);
      MulSucc(y - 1, width);
    }
  }

  /** The next row starts one width further on. */
  lemma RowStartSucc(y: nat, width: nat)
    ensures RowStart(y + 1, width) == RowStart(y, width) + width
  {
  }

  /** Later rows start no earlier. */
  lemma {:induction false} RowStartMonotone(y: nat, more: nat, width: nat)
    requires y <= more
    ensures RowStart(y, width) <= RowStart(more, width)
  {
    if y < more {
      RowStartMonotone(y, more - 1, width);
    }
  }

  /** The chroma bytes `f` makes of the first `rows` rows: the even columns of each even row. */
  function ChromaRows(f: Pixel -> Byte, pixels: seq<Pixel>, width: nat, rows: nat): seq<Byte>
    requires RowStart(rows, width) <= |pixels|
  {
    if rows == 0 then []
    else
      ChromaRows(f, pixels, width, rows - 1)
      + (if (rows - 1) % 2 == 0
         then EvenColumns(f, pixels[RowStart(rows - 1, width)..RowStart(rows, width)])
         else [])
  }

  /**
   * How many chroma samples the first `rows` rows give, counted as rows of
   * ceil(width / 2) samples: ceil(rows / 2) of them.
   */
  lemma {:induction false} ChromaRowsStart(f: Pixel -> Byte, pixels: seq<Pixel>, width: nat, rows: nat)
    requires RowStart(rows, width) <= |pixels|
    ensures |ChromaRows(f, pixels, width, rows)| == RowStart((rows + 1) / 2, (width + 1) / 2)
  {
    if rows > 0 {
      var y := rows - 1;
      RowStartSucc(y, width);
      ChromaRowsStart(f, pixels, width, y);
      if y % 2 == 0 {
        ChromaRowsEvenLength(f, pixels, width, y);
        assert (y + 2) / 2 == (y + 1) / 2 + 1;
      } else {
        ChromaRowsOddStep(f, pixels, width, y);
        assert (y + 2) / 2 == (y + 1) / 2;
      }
    }
  }

  /** How many chroma samples the first `rows` rows give: ceil(rows / 2) * ceil(width / 2). */
  lemma ChromaRowsLength(f: Pixel -> Byte, pixels: seq<Pixel>, width: nat, rows: nat)
    requires RowStart(rows, width) <= |pixels|
    ensures |ChromaRows(f, pixels, width, rows)| == ((rows + 1) / 2) * ((width + 1) / 2)
  {
    ChromaRowsStart(f, pixels, width, rows);
    RowStartIsOffset((rows + 1) / 2, (width + 1) / 2);
  }

  /** The chroma of fewer rows is a prefix of the chroma of more rows. */
  lemma {:induction false} ChromaRowsPrefix(f: Pixel -> Byte, pixels: seq<Pixel>, width: nat, rows: nat, more: nat)
    requires rows <= more && RowStart(more, width) <= |pixels|
    ensures RowStart(rows, width) <= |pixels|
    ensures ChromaRows(f, pixels, width, rows) <= ChromaRows(f, pixels, width, more)
  {
    RowStartMonotone(rows, more, width);
    if rows < more {
      RowStartMonotone(more - 1, more, width);
      ChromaRowsPrefix(f, pixels, width, rows, more - 1);
    }
  }

  /** An even row adds its even columns to the chroma of the rows before it. */
  lemma ChromaRowsEvenStep(f: Pixel -> Byte, pixels: seq<Pixel>, width: nat, y: nat)
    requires RowStart(y + 1, width) <= |pixels| && y % 2 == 0
    ensures RowStart(y, width) + width <= |pixels|
    ensures ChromaRows(f, pixels, width, y + 1)
         == ChromaRows(f, pixels, width, y) + EvenColumns(f, pixels[RowStart(y, width)..RowStart(y, width) + width])
  {
    RowStartSucc(y, width);
  }

  /** An even row adds ceil(width / 2) chroma samples. */
  lemma ChromaRowsEvenLength(f: Pixel -> Byte, pixels: seq<Pixel>, width: nat, y: nat)
    requires RowStart(y + 1, width) <= |pixels| && y % 2 == 0
    ensures RowStart(y, width) <= |pixels|
    ensures |ChromaRows(f, pixels, width, y + 1)| == |ChromaRows(f, pixels, width, y)| + (width + 1) / 2
  {
    ChromaRowsEvenStep(f, pixels, width, y);
  }

  /** Chroma sample cx of a row starting at `start` is `f` of its pixel x = 2 * cx. */
  lemma RowChromaAt(f: Pixel -> Byte, pixels: seq<Pixel>, start: nat, width: nat, x: nat, cx: nat)
    requires start + width <= |pixels| && x == 2 * cx && x < width
    ensures cx < |EvenColumns(f, pixels[start..start + width])|
    ensures EvenColumns(f, pixels[start..start + width])[cx] == f(pixels[start + x])
  {
    EvenColumnsAt(f, pixels[start..start + width], cx);
  }

  /** Entry |a| + k of a + b is entry k of b. */
  lemma ConcatAt<T>(a: seq<T>, b: seq<T>, k: nat)
    requires k < |b|
    ensures (a + b)[|a| + k] == b[k]
  {
  }

  /** An odd row adds no chroma. */
  lemma ChromaRowsOddStep(f: Pixel -> Byte, pixels: seq<Pixel>, width: nat, y: nat)
    requires RowStart(y + 1, width) <= |pixels| && y % 2 == 1
    ensures RowStart(y, width) <= |pixels|
    ensures ChromaRows(f, pixels, width, y + 1) == ChromaRows(f, pixels, width, y)
  {
    RowStartSucc(y, width);
  }

  /**
   * Sample cx of the chroma an even row y starting at `start` appends to
   * `previous`, the chroma of the rows before it, is `f` of its pixel x = 2 * cx.
   */
  lemma ChromaRowsAppendedAt(f: Pixel -> Byte, pixels: seq<Pixel>, width: nat, y: nat,
                             previous: seq<Byte>, chroma: seq<Byte>, start: nat, x: nat, cx: nat)
    requires RowStart(y + 1, width) <= |pixels| && y % 2 == 0 && start == RowStart(y, width)
    requires RowStart(y, width) <= |pixels| && previous == ChromaRows(f, pixels, width, y)
    requires chroma == ChromaRows(f, pixels, width, y + 1)
    requires x == 2 * cx && x < width
    ensures start + x < |pixels|
    ensures |previous| + cx < |chroma| && chroma[|previous| + cx] == f(pixels[start + x])
  {
    ChromaRowsEvenStep(f, pixels, width, y);
    ConcatAt(previous, EvenColumns(f, pixels[start..start + width]), cx);
    RowChromaAt(f, pixels, start, width, x, cx);
  }

  /** The chroma of the rows before row y = 2 * cy holds cy rows of ceil(width / 2) samples. */
  lemma ChromaRowsBefore(f: Pixel -> Byte, pixels: seq<Pixel>, width: nat, y: nat, cy: nat, base: nat)
    requires RowStart(y, width) <= |pixels| && y == 2 * cy && base == RowStart(cy, (width + 1) / 2)
    ensures |ChromaRows(f, pixels, width, y)| == base
  {
    assert (y + 1) / 2 == cy;
    ChromaRowsStart(f, pixels, width, y);
  }

  /** Entry k of a prefix is entry k of the whole. */
  lemma PrefixAt<T>(a: seq<T>, b: seq<T>, k: nat)
    requires a <= b && k < |a|
    ensures k < |b| && b[k] == a[k]
  {
  }

  /**
   * Sample cx of chroma row cy, for an even row y = 2 * cy among the first
   * `rows`, is `f` of pixel (2 * cx, 2 * cy), the top-left pixel of its 2x2
   * block; `start` is where row y starts, `base` where chroma row cy does,
   * and `chroma` the chroma of the first `rows` rows.
   */
  lemma ChromaRowsAt(f: Pixel -> Byte, pixels: seq<Pixel>, width: nat, rows: nat, chroma: seq<Byte>,
                     x: nat, y: nat, cx: nat, cy: nat, start: nat, base: nat)
    requires RowStart(rows, width) <= |pixels| && chroma == ChromaRows(f, pixels, width, rows)
    requires y < rows && x < width && y == 2 * cy && x == 2 * cx
    requires start == RowStart(y, width) && base == RowStart(cy, (width + 1) / 2)
    ensures start + x < |pixels|
    ensures base + cx < |chroma| && chroma[base + cx] == f(pixels[start + x])
  {
    ChromaRowsPrefix(f, pixels, width, y + 1, rows);
    var upTo := ChromaRows(f, pixels, width, y + 1);
    ChromaRowAt(f, pixels, width, upTo, x, y, cx, cy, start, base);
    PrefixAt(upTo, chroma, base + cx);
  }

  /** `ChromaRowsAt` for the chroma of exactly the rows 0..y. */
  lemma ChromaRowAt(f: Pixel -> Byte, pixels: seq<Pixel>, width: nat, chroma: seq<Byte>,
                    x: nat, y: nat, cx: nat, cy: nat, start: nat, base: nat)
    requires RowStart(y + 1, width) <= |pixels| && chroma == ChromaRows(f, pixels, width, y + 1)
    requires x < width && y == 2 * cy && x == 2 * cx
    requires start == RowStart(y, width) && base == RowStart(cy, (width + 1) / 2)
    ensures start + x < |pixels|
    ensures base + cx < |chroma| && chroma[base + cx] == f(pixels[start + x])
  {
    RowStartMonotone(y, y + 1, width);
    var previous := ChromaRows(f, pixels, width, y);
    ChromaRowsBefore(f, pixels, width, y, cy, base);
    assert y % 2 == 0;
    ChromaRowsAppendedAt(f, pixels, width, y, previous, chroma, start, x, cx);
  }

  /** More rows never give fewer chroma samples. */
  lemma ChromaRowsMonotone(f: Pixel -> Byte, pixels: seq<Pixel>, width: nat, rows: nat, more: nat)
    requires rows <= more && RowStart(more, width) <= |pixels|
    ensures RowStart(rows, width) <= |pixels|
    ensures |ChromaRows(f, pixels, width, rows)| <= |ChromaRows(f, pixels, width, more)|
  {
    RowStartMonotone(rows, more, width);
    ChromaRowsLength(f, pixels, width, rows);
    ChromaRowsLength(f, pixels, width, more);
    MulLeq((rows + 1) / 2, (more + 1) / 2, (width + 1) / 2);
  }

  /** The luma of the first y + 1 rows is that of the first y rows, then of row y. */
  lemma LumaRowsStep(f: Pixel -> Byte, pixels: seq<Pixel>, width: nat, y: nat)
    requires RowStart(y + 1, width) <= |pixels|
    ensures EachPixel(f, pixels[..RowStart(y + 1, width)])
         == EachPixel(f, pixels[..RowStart(y, width)])
            + EachPixel(f, pixels[RowStart(y, width)..RowStart(y + 1, width)])
  {
    EachPixelSplit(f, pixels, RowStart(y, width), width, RowStart(y + 1, width));
  }

  /** Entry i of `EachPixel` is `f` of pixel i. */
  lemma {:induction false} EachPixelAt(f: Pixel -> Byte, run: seq<Pixel>, i: nat)
    requires i < |run|
    ensures EachPixel(f, run)[i] == f(run[i])
  {
    if i < |run| - 1 {
      EachPixelAt(f, run[..|run| - 1], i);
    }
  }

  /** `EachPixel` of two runs one after the other is the concatenation of their bytes. */
  lemma {:induction false} EachPixelAppend(f: Pixel -> Byte, a: seq<Pixel>, b: seq<Pixel>)
    ensures EachPixel(f, a + b) == EachPixel(f, a) + EachPixel(f, b)
  {
    if |b| > 0 {
      var front := b[..|b| - 1];
      assert (a + b)[..|a + b| - 1] == a + front;
      EachPixelAppend(f, a, front);
      calc {
        EachPixel(f, a + b);
        EachPixel(f, a + front) + [f(b[|b| - 1])];
        (EachPixel(f, a) + EachPixel(f, front)) + [f(b[|b| - 1])];
        EachPixel(f, a) + (EachPixel(f, front) + [f(b[|b| - 1])]);
        EachPixel(f, a) + EachPixel(f, b);
      }
    } else {
      assert a + b == a;
    }
  }

  /** Entry i of a row's chroma run is `f` of column 2i. */
  lemma {:induction false} EvenColumnsAt(f: Pixel -> Byte, row: seq<Pixel>, i: nat)
    requires 2 * i < |row|
    ensures EvenColumns(f, row)[i] == f(row[2 * i])
  {
    if 2 * i < |row| - 1 {
      EvenColumnsAt(f, row[..|row| - 1], i);
    }
  }

  /** Below ceil(n / 2), twice the index is still below n. */
  lemma HalfBound(i: int, n: int)
    requires 0 <= i < (n + 1) / 2
    ensures 2 * i < n
  {
  }

  /** A sequence that starts with `w0` and then holds `tail` entry by entry is `w0 + tail`. */
  lemma Appended(w: seq<Byte>, w0: seq<Byte>, tail: seq<Byte>)
    requires |w| == |w0| + |tail|
    requires forall j | 0 <= j < |w0| :: w[j] == w0[j]
    requires forall j | |w0| <= j < |w| :: w[j] == tail[j - |w0|]
    ensures w == w0 + tail
  {
  }

  /** Bytes after `w0` that are `f` of each pixel of the row, in order, are `w0 + EachPixel(f, row)`. */
  lemma LumaWritten(f: Pixel -> Byte, w: seq<Byte>, w0: seq<Byte>, row: seq<Pixel>)
    requires |w| == |w0| + |row| && forall j | 0 <= j < |w0| :: w[j] == w0[j]
    requires forall j | |w0| <= j < |w| :: w[j] == f(row[j - |w0|])
    ensures w == w0 + EachPixel(f, row)
  {
    forall j | |w0| <= j < |w| ensures w[j] == EachPixel(f, row)[j - |w0|] {
      EachPixelAt(f, row, j - |w0|);
    }
    Appended(w, w0, EachPixel(f, row));
  }

  /** Bytes after `w0` that are `f` of each even column of the row, in order, are `w0 + EvenColumns(f, row)`. */
  lemma ChromaWritten(f: Pixel -> Byte, w: seq<Byte>, w0: seq<Byte>, row: seq<Pixel>)
    requires |w| == |w0| + (|row| + 1) / 2 && forall j | 0 <= j < |w0| :: w[j] == w0[j]
    requires forall j | |w0| <= j < |w| :: w[j] == f(row[2 * (j - |w0|)])
    ensures w == w0 + EvenColumns(f, row)
  {
    forall j | |w0| <= j < |w| ensures w[j] == EvenColumns(f, row)[j - |w0|] {
      HalfBound(j - |w0|, |row|);
      EvenColumnsAt(f, row, j - |w0|);
    }
    Appended(w, w0, EvenColumns(f, row));
  }

  /** `EachPixel` of a prefix of length b = a + w splits into the first a pixels and the next w. */
  lemma EachPixelSplit(f: Pixel -> Byte, s: seq<Pixel>, a: nat, w: nat, b: nat)
    requires a + w == b <= |s|
    ensures EachPixel(f, s[..b]) == EachPixel(f, s[..a]) + EachPixel(f, s[a..a + w])
  {
    EachPixelAppend(f, s[..a], s[a..b]);
    assert s[..a] + s[a..b] == s[..b];
  }

  /**
   * The bytes of `d` before cursor `p`, in a buffer that held `d0` when the
   * run began at p0: those before p0 are unchanged, those from p0 on are `f`
   * of the pixels from `start` on, one per pixel.
   */
  ghost predicate LumaRun(d: seq<Byte>, p: nat, d0: seq<Byte>, p0: nat,
                          f: Pixel -> Byte, pixels: seq<Pixel>, start: nat)
  {
    && |d| == |d0| && p0 <= p <= |d|
    && (forall j | 0 <= j < p0 :: d[j] == d0[j])
    && (forall j | p0 <= j < p :: start + (j - p0) < |pixels| && d[j] == f(pixels[start + (j - p0)]))
  }

  /** `LumaRun` for a chroma run, which takes every other pixel. */
  ghost predicate ChromaRun(d: seq<Byte>, p: nat, d0: seq<Byte>, p0: nat,
                            f: Pixel -> Byte, pixels: seq<Pixel>, start: nat)
  {
    && |d| == |d0| && p0 <= p <= |d|
    && (forall j | 0 <= j < p0 :: d[j] == d0[j])
    && (forall j | p0 <= j < p :: start + 2 * (j - p0) < |pixels| && d[j] == f(pixels[start + 2 * (j - p0)]))
  }

  /** A byte put at the cursor for the next pixel extends a `LumaRun`. */
  lemma LumaPutExtends(f: Pixel -> Byte, pixels: seq<Pixel>, start: nat,
                       d0: seq<Byte>, d: seq<Byte>, d1: seq<Byte>, p0: nat, p: nat)
    requires LumaRun(d, p, d0, p0, f, pixels, start)
    requires p < |d| && start + (p - p0) < |pixels|
    requires d1 == d[p := f(pixels[start + (p - p0)])]
    ensures LumaRun(d1, p + 1, d0, p0, f, pixels, start)
  {
  }

  /** A byte put at the cursor for the next even column extends a `ChromaRun`. */
  lemma ChromaPutExtends(f: Pixel -> Byte, pixels: seq<Pixel>, start: nat,
                         d0: seq<Byte>, d: seq<Byte>, d1: seq<Byte>, p0: nat, p: nat)
    requires ChromaRun(d, p, d0, p0, f, pixels, start)
    requires p < |d| && start + 2 * (p - p0) < |pixels|
    requires d1 == d[p := f(pixels[start + 2 * (p - p0)])]
    ensures ChromaRun(d1, p + 1, d0, p0, f, pixels, start)
  {
  }
  /** A complete luma run over `width` pixels from `start`: the bytes written are `d0`'s followed by the row's luma. */
  lemma LumaRunWritten(f: Pixel -> Byte, pixels: seq<Pixel>, start: nat, width: nat,
                       d: seq<Byte>, p: nat, d0: seq<Byte>, p0: nat)
    requires LumaRun(d, p, d0, p0, f, pixels, start) && p == p0 + width && start + width <= |pixels|
    ensures d[..p] == d0[..p0] + EachPixel(f, pixels[start..start + width])
  {
    LumaWritten(f, d[..p], d0[..p0], pixels[start..start + width]);
  }

  /** A complete chroma run over the even columns of `width` pixels from `start`. */
  lemma ChromaRunWritten(f: Pixel -> Byte, pixels: seq<Pixel>, start: nat, width: nat,
                         d: seq<Byte>, p: nat, d0: seq<Byte>, p0: nat)
    requires ChromaRun(d, p, d0, p0, f, pixels, start) && p == p0 + (width + 1) / 2 && start + width <= |pixels|
    ensures d[..p] == d0[..p0] + EvenColumns(f, pixels[start..start + width])
  {
    var row := pixels[start..start + width];
    forall j | p0 <= j < p ensures 2 * (j - p0) < |row| && d[..p][j] == f(row[2 * (j - p0)]) {
      HalfBound(j - p0, width);
    }
    ChromaWritten(f, d[..p], d0[..p0], row);
  }

  /** An empty run leaves the bytes before the cursor as they were. */
  lemma EmptyRunWritten(d: seq<Byte>, d0: seq<Byte>, p0: nat)
    requires |d| == |d0| && p0 <= |d| && forall j | 0 <= j < p0 :: d[j] == d0[j]
    ensures d[..p0] == d0[..p0]
  {
  }
}
