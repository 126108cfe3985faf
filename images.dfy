/** Decoded images as `cv2.imread` gives them: a height x width grid of
    pixels, each holding blue, green and red intensities of one byte. */
module Images {

  datatype Option<T> = None | Some(value: T)

  type byte = x: int | 0 <= x < 256

  /** The three planes that `cv2.split` separates, in OpenCV's order. */
  datatype Channel = Blue | Green | Red

  datatype Pixel = Pixel(b: byte, g: byte, r: byte)
  {
    function At(c: Channel): byte
    {
      match c
      case Blue => b
      case Green => g
      case Red => r
    }
  }

  datatype Raster = Raster(height: nat, width: nat, rows: seq<seq<Pixel>>)
  {
    /** Every one of the `height` rows holds exactly `width` pixels. */
    predicate WellFormed()
    {
      |rows| == height && forall i :: 0 <= i < |rows| ==> |rows[i]| == width
    }
  }

  type Image = img: Raster | img.WellFormed() witness Raster(0, 0, [])

  /** The numpy `shape` tuple `(height, width, channels)`. */
  datatype Shape = Shape(height: nat, width: nat, channels: nat)

  /** A colour image always has three channels. */
  function ShapeOf(img: Image): Shape
  {
    Shape(img.height, img.width, 3)
  }
}
