/**
 * The parts of `android.graphics.Bitmap` the pipeline relies on: an ARGB_8888
 * bitmap's size and pixels, and whether it has been recycled.
 */
module Graphics {
  import opened Argb

  /**
   * The contents of an ARGB_8888 bitmap: `pixels[Offset(x, y, width)]` is the
   * pixel in column x of row y. Android refuses to create a bitmap with a zero
   * dimension, so every bitmap the code builds is Valid.
   */
  datatype Image = Image(width: nat, height: nat, pixels: seq<Pixel>)
  {
    ghost predicate Valid()
    {
      width > 0 && height > 0 && |pixels| == width * height
    }
  }

  /** A bitmap object: its contents never change, but `recycle()` frees it. */
  class Bitmap {
    const image: Image
    var recycled: bool

    constructor (image: Image)
      requires image.Valid()
      ensures this.image == image && !recycled
    {
      this.image := image;
      recycled := false;
    }

    /** `Bitmap.recycle()`. */
    method Recycle()
      modifies this
      ensures recycled
    {
      recycled := true;
    }
  }
}
