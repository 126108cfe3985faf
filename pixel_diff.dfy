/** The pixel-difference classifier of `temp.py` (`compare_images`): the
    two images are subtracted channel by channel, the non-zero entries of
    the blue, green and red planes are counted and the counts added up. */
module PixelDiff {
  import opened Images

  /** Verdict when either image has no readable shape (decoding failed). */
  const ShapeUnreadable: int := -2
  /** Verdict when the shapes differ. */
  const ShapeMismatch: int := -1

  /** `Saturating` is `cv2.subtract` on `uint8` planes (`max(x - y, 0)`);
      `Absolute` is `cv2.absdiff` (`|x - y|`). */
  datatype Subtraction = Saturating | Absolute

  function ChannelDiff(op: Subtraction, x: byte, y: byte): (d: byte)
    ensures op.Saturating? ==> (d == 0 <==> x <= y)
    ensures op.Absolute? ==> (d == 0 <==> x == y)
  {
    match op
    case Saturating => if x > y then x - y else 0
    case Absolute => if x > y then x - y else y - x
  }

  function PixelDifference(op: Subtraction, p: Pixel, q: Pixel): Pixel
  {
    Pixel(ChannelDiff(op, p.b, q.b), ChannelDiff(op, p.g, q.g), ChannelDiff(op, p.r, q.r))
  }

  /** The difference image, pixel by pixel. */
  function Subtract(op: Subtraction, a: Image, b: Image): (d: Image)
    requires ShapeOf(a) == ShapeOf(b)
    ensures ShapeOf(d) == ShapeOf(a)
  {
    Raster(a.height, a.width,
      seq(a.height, i requires 0 <= i < a.height =>
        seq(a.width, j requires 0 <= j < a.width => PixelDifference(op, a.rows[i][j], b.rows[i][j]))))
  }

  /** One plane of `cv2.split`. */
  function Plane(img: Image, c: Channel): (plane: seq<seq<byte>>)
    ensures |plane| == img.height
    ensures forall i :: 0 <= i < img.height ==> |plane[i]| == img.width
  {
    seq(img.height, i requires 0 <= i < img.height =>
      seq(img.width, j requires 0 <= j < img.width => img.rows[i][j].At(c)))
  }

  function RowNonZero(row: seq<byte>): (n: nat)
    ensures n <= |row|
  {
    if row == [] then 0 else (if row[0] != 0 then 1 else 0) + RowNonZero(row[1..])
  }

  /** `cv2.countNonZero` on one plane. */
  function CountNonZero(plane: seq<seq<byte>>): nat
  {
    if plane == [] then 0 else RowNonZero(plane[0]) + CountNonZero(plane[1..])
  }

  /** The summed non-zero counts of the three planes of the difference. */
  function Difference(op: Subtraction, a: Image, b: Image): (n: nat)
    requires ShapeOf(a) == ShapeOf(b)
    ensures n <= 3 * a.height * a.width
  {
    var d := Subtract(op, a, b);
    var blue, green, red := CountNonZero(Plane(d, Blue)), CountNonZero(Plane(d, Green)), CountNonZero(Plane(d, Red));
    PlaneBound(d, Blue);
    PlaneBound(d, Green);
    PlaneBound(d, Red);
    SumBound(blue, green, red, a.height, a.width);
    blue + green + red
  }

  lemma SumBound(x: nat, y: nat, z: nat, h: nat, w: nat)
    requires x <= h * w && y <= h * w && z <= h * w
    ensures x + y + z <= 3 * h * w
  {
  }

  /** The classifier with the subtraction as a parameter: `-2` when a
      shape cannot be read, `-1` when the shapes differ, otherwise the
      summed count, where `0` means "same". */
  function Classify(op: Subtraction, one: Option<Image>, two: Option<Image>): (r: int)
    ensures r == ShapeUnreadable <==> one.None? || two.None?
    ensures r == ShapeMismatch <==> one.Some? && two.Some? && ShapeOf(one.value) != ShapeOf(two.value)
    ensures r >= 0 <==> one.Some? && two.Some? && ShapeOf(one.value) == ShapeOf(two.value)
  {
    if one.None? || two.None? then ShapeUnreadable
    else if ShapeOf(one.value) != ShapeOf(two.value) then ShapeMismatch
    else Difference(op, one.value, two.value)
  }

  /** `compare_images` as written, with `cv2.subtract`. `None` stands for
      an image `cv2.imread` could not decode. */
  function CompareImages(one: Option<Image>, two: Option<Image>): (r: int)
    ensures r == ShapeUnreadable <==> one.None? || two.None?
    ensures r == ShapeMismatch <==> one.Some? && two.Some? && ShapeOf(one.value) != ShapeOf(two.value)
    ensures r >= ShapeUnreadable
    ensures r >= 0 ==> one.Some? && two.Some? && r <= 3 * one.value.height * one.value.width
  {
    Classify(Saturating, one, two)
  }

  /** `compare_images` with `cv2.absdiff` in place of `cv2.subtract`. */
  function CompareImagesCorrected(one: Option<Image>, two: Option<Image>): (r: int)
    ensures r == ShapeUnreadable <==> one.None? || two.None?
    ensures r == ShapeMismatch <==> one.Some? && two.Some? && ShapeOf(one.value) != ShapeOf(two.value)
    ensures r >= ShapeUnreadable
    ensures r >= 0 ==> one.Some? && two.Some? && r <= 3 * one.value.height * one.value.width
  {
    Classify(Absolute, one, two)
  }

  /** Every channel of every pixel of `a` is at most that of `b`. */
  predicate Dominated(a: Image, b: Image)
    requires ShapeOf(a) == ShapeOf(b)
  {
    forall i, j, c :: 0 <= i < a.height && 0 <= j < a.width ==> a.rows[i][j].At(c) <= b.rows[i][j].At(c)
  }

  lemma {:induction false} RowNonZeroZero(row: seq<byte>)
    ensures RowNonZero(row) == 0 <==> forall j :: 0 <= j < |row| ==> row[j] == 0
  {
    if row != [] {
      RowNonZeroZero(row[1..]);
      assert forall j :: 1 <= j < |row| ==> row[j] == row[1..][j - 1];
    }
  }

  lemma {:induction false} CountNonZeroZero(plane: seq<seq<byte>>)
    ensures CountNonZero(plane) == 0 <==> forall i, j :: 0 <= i < |plane| && 0 <= j < |plane[i]| ==> plane[i][j] == 0
  {
    if plane != [] {
      RowNonZeroZero(plane[0]);
      CountNonZeroZero(plane[1..]);
      assert forall i :: 1 <= i < |plane| ==> plane[i] == plane[1..][i - 1];
    }
  }

  /** A plane of `h` rows of `w` entries has at most `h * w` non-zero ones. */
  lemma {:induction false} CountNonZeroBound(plane: seq<seq<byte>>, w: nat)
    requires forall i :: 0 <= i < |plane| ==> |plane[i]| == w
    ensures CountNonZero(plane) <= |plane| * w
  {
    if plane != [] {
      CountNonZeroBound(plane[1..], w);
      assert |plane| * w == w + |plane[1..]| * w;
    }
  }

  /** One plane has at most `height * width` non-zero entries. */
  lemma PlaneBound(img: Image, c: Channel)
    ensures CountNonZero(Plane(img, c)) <= img.height * img.width
  {
    CountNonZeroBound(Plane(img, c), img.width);
  }

  /** One plane counts zero exactly when that channel is zero everywhere. */
  lemma PlaneZeroIff(img: Image, c: Channel)
    ensures CountNonZero(Plane(img, c)) == 0 <==>
      forall i, j :: 0 <= i < img.height && 0 <= j < img.width ==> img.rows[i][j].At(c) == 0
  {
    var plane := Plane(img, c);
    CountNonZeroZero(plane);
    assert forall i, j :: 0 <= i < img.height && 0 <= j < img.width ==> plane[i][j] == img.rows[i][j].At(c);
  }

  /** Every channel difference of every pixel is zero. */
  predicate NoChannelDiffers(op: Subtraction, a: Image, b: Image)
    requires ShapeOf(a) == ShapeOf(b)
  {
    forall i, j, c :: 0 <= i < a.height && 0 <= j < a.width ==> ChannelDiff(op, a.rows[i][j].At(c), b.rows[i][j].At(c)) == 0
  }

  lemma DifferenceZeroMeansNoChannelDiffers(op: Subtraction, a: Image, b: Image)
    requires ShapeOf(a) == ShapeOf(b)
    requires Difference(op, a, b) == 0
    ensures NoChannelDiffers(op, a, b)
  {
    var d := Subtract(op, a, b);
    PlaneZeroIff(d, Blue);
    PlaneZeroIff(d, Green);
    PlaneZeroIff(d, Red);
    forall i, j, c | 0 <= i < a.height && 0 <= j < a.width
      ensures ChannelDiff(op, a.rows[i][j].At(c), b.rows[i][j].At(c)) == 0
    {
      assert d.rows[i][j] == PixelDifference(op, a.rows[i][j], b.rows[i][j]);
      assert d.rows[i][j].At(c) == 0;
    }
  }

  lemma NoChannelDiffersMeansDifferenceZero(op: Subtraction, a: Image, b: Image)
    requires ShapeOf(a) == ShapeOf(b)
    requires NoChannelDiffers(op, a, b)
    ensures Difference(op, a, b) == 0
  {
    var d := Subtract(op, a, b);
    forall i, j | 0 <= i < a.height && 0 <= j < a.width
      ensures d.rows[i][j] == Pixel(0, 0, 0)
    {
      assert d.rows[i][j] == PixelDifference(op, a.rows[i][j], b.rows[i][j]);
      assert ChannelDiff(op, a.rows[i][j].At(Blue), b.rows[i][j].At(Blue)) == 0;
      assert ChannelDiff(op, a.rows[i][j].At(Green), b.rows[i][j].At(Green)) == 0;
      assert ChannelDiff(op, a.rows[i][j].At(Red), b.rows[i][j].At(Red)) == 0;
    }
    PlaneZeroIff(d, Blue);
    PlaneZeroIff(d, Green);
    PlaneZeroIff(d, Red);
  }

  /** The summed count is zero exactly when every channel difference is. */
  lemma DifferenceZeroIff(op: Subtraction, a: Image, b: Image)
    requires ShapeOf(a) == ShapeOf(b)
    ensures Difference(op, a, b) == 0 <==>
      forall i, j, c :: 0 <= i < a.height && 0 <= j < a.width ==> ChannelDiff(op, a.rows[i][j].At(c), b.rows[i][j].At(c)) == 0
  {
    if Difference(op, a, b) == 0 {
      DifferenceZeroMeansNoChannelDiffers(op, a, b);
    }
    if NoChannelDiffers(op, a, b) {
      NoChannelDiffersMeansDifferenceZero(op, a, b);
    }
  }

  /** As written, the verdict on two images of one shape is `0` exactly
      when no channel of the first image exceeds that of the second. */
  lemma CompareImagesSameIff(a: Image, b: Image)
    requires ShapeOf(a) == ShapeOf(b)
    ensures CompareImages(Some(a), Some(b)) == 0 <==> Dominated(a, b)
  {
    DifferenceZeroIff(Saturating, a, b);
  }

  /** A positive verdict is the summed count of the difference planes. */
  lemma CompareImagesPositive(one: Option<Image>, two: Option<Image>)
    requires CompareImages(one, two) > 0
    ensures one.Some? && two.Some? && ShapeOf(one.value) == ShapeOf(two.value)
    ensures CompareImages(one, two) == Difference(Saturating, one.value, two.value)
    ensures !Dominated(one.value, two.value)
  {
    CompareImagesSameIff(one.value, two.value);
  }

  /** An image compared with itself is "same". */
  lemma CompareImagesSelf(a: Image)
    ensures CompareImages(Some(a), Some(a)) == 0
  {
    CompareImagesSameIff(a, a);
  }

  const Black: Image := Raster(1, 1, [[Pixel(0, 0, 0)]])
  const White: Image := Raster(1, 1, [[Pixel(255, 255, 255)]])

  /** A screen that turns from black to white is reported "same": the
      saturating subtraction is zero wherever the second image is brighter. */
  lemma CompareImagesMissesBrightening()
    ensures Black != White
    ensures CompareImages(Some(Black), Some(White)) == 0
  {
    assert Black.rows[0][0] != White.rows[0][0];
    CompareImagesSameIff(Black, White);
  }

  /** With the absolute difference, the verdict on two images of one shape
      is `0` exactly when they are equal. */
  lemma CompareImagesCorrectedSameIff(a: Image, b: Image)
    requires ShapeOf(a) == ShapeOf(b)
    ensures CompareImagesCorrected(Some(a), Some(b)) == 0 <==> a == b
  {
    DifferenceZeroIff(Absolute, a, b);
    if CompareImagesCorrected(Some(a), Some(b)) == 0 {
      forall i | 0 <= i < a.height
        ensures a.rows[i] == b.rows[i]
      {
        forall j | 0 <= j < a.width
          ensures a.rows[i][j] == b.rows[i][j]
        {
          assert ChannelDiff(Absolute, a.rows[i][j].At(Blue), b.rows[i][j].At(Blue)) == 0;
          assert ChannelDiff(Absolute, a.rows[i][j].At(Green), b.rows[i][j].At(Green)) == 0;
          assert ChannelDiff(Absolute, a.rows[i][j].At(Red), b.rows[i][j].At(Red)) == 0;
        }
      }
      assert a.rows == b.rows;
    }
  }
}
