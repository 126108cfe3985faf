/** The result record of `__compare_images` in `__init__.py`. The
    similarity score and the bounding rectangles of the difference contours
    come from SSIM, Otsu thresholding and contour extraction, and are taken
    as inputs; what is modelled is which keys the record carries, the area
    filter on the rectangles, the running difference counter and the name
    of the annotated image. */
module StructuralCompare {
  import opened Images
  import opened Naming

  /** A value stored in the result dictionary. */
  datatype Value = Text(text: string) | Flag(flag: bool) | Score(score: real) | Count(count: int)

  const ImageOneKey: string := "image_one"
  const ImageTwoKey: string := "image_two"
  const SameSizeKey: string := "is_same_size"
  const ScoreKey: string := "similarity_score"
  const DifferencesKey: string := "num_differences"
  const ComparedKey: string := "compared_image"

  /** The only keys the record can carry. */
  const ResultKeys: set<string> := {ImageOneKey, ImageTwoKey, SameSizeKey, ScoreKey, DifferencesKey, ComparedKey}

  /** `cv2.boundingRect` of one contour. */
  datatype Rect = Rect(x: int, y: int, w: int, h: int)

  /** Rectangles of this area or less are noise. */
  const NoiseFloor: int := 10

  /** A rectangle counted as a difference. */
  predicate IsRegion(r: Rect)
  {
    r.w * r.h > NoiseFloor
  }

  /** How many rectangles pass the area filter. */
  function CountRegions(boxes: seq<Rect>): (n: nat)
    ensures n <= |boxes|
  {
    if boxes == [] then 0
    else CountRegions(boxes[..|boxes| - 1]) + (if IsRegion(boxes[|boxes| - 1]) then 1 else 0)
  }

  /** The positions of the rectangles that pass the area filter. */
  function RegionIndices(boxes: seq<Rect>): set<int>
  {
    set i | 0 <= i < |boxes| && IsRegion(boxes[i])
  }

  /** `is_same_size`: both shapes could be read and they are equal. Reading
      the shape of an image `cv2.imread` could not decode raises, and the
      flag keeps its initial `False`. */
  predicate SameSize(shapeOne: Option<Shape>, shapeTwo: Option<Shape>)
  {
    shapeOne.Some? && shapeTwo.Some? && shapeOne.value == shapeTwo.value
  }

  /** `__compare_images(image_one, image_two)` run against the folder
      contents `files0`: `shapeOne` and `shapeTwo` are the shapes of the
      decoded images (`None` when decoding failed), `score` the SSIM score
      and `boxes` the bounding rectangles of the difference contours. Every
      rectangle that passes the filter writes the annotated image, so the
      folder gains that file exactly when one does. */
  method CompareImages(imageOne: string, imageTwo: string, shapeOne: Option<Shape>, shapeTwo: Option<Shape>,
                       score: real, boxes: seq<Rect>, files0: set<string>)
    returns (results: map<string, Value>, files: set<string>)
    ensures ImageOneKey in results && results[ImageOneKey] == Text(imageOne)
    ensures ImageTwoKey in results && results[ImageTwoKey] == Text(imageTwo)
    ensures SameSizeKey in results && results[SameSizeKey] == Flag(SameSize(shapeOne, shapeTwo))
    ensures ScoreKey in results <==> SameSize(shapeOne, shapeTwo)
    ensures ScoreKey in results ==> results[ScoreKey] == Score(score)
    ensures DifferencesKey in results <==> SameSize(shapeOne, shapeTwo) && CountRegions(boxes) > 0
    ensures ComparedKey in results <==> DifferencesKey in results
    ensures DifferencesKey in results ==>
      results[DifferencesKey] == Count(CountRegions(boxes)) && results[ComparedKey] == Text(DiffName(imageTwo))
    ensures results.Keys <= ResultKeys
    ensures files == if DifferencesKey in results then files0 + {DiffName(imageTwo)} else files0
  {
    results := map[ImageOneKey := Text(imageOne), ImageTwoKey := Text(imageTwo)];
    var isSameSize := false;
    if shapeOne.Some? && shapeTwo.Some? {
      isSameSize := shapeOne.value == shapeTwo.value;
    }
    results := results[SameSizeKey := Flag(isSameSize)];
    files := files0;
    if isSameSize {
      results := results[ScoreKey := Score(score)];
      ghost var base := results;
      var numDifferences := 0;
      for k := 0 to |boxes|
        invariant numDifferences == CountRegions(boxes[..k])
        invariant numDifferences == 0 ==> results == base && files == files0
        invariant numDifferences > 0 ==>
          results == base[DifferencesKey := Count(numDifferences)][ComparedKey := Text(DiffName(imageTwo))] &&
          files == files0 + {DiffName(imageTwo)}
      {
        assert boxes[..k + 1][..k] == boxes[..k];
        var box := boxes[k];
        var rectArea := box.w * box.h;
        if rectArea > NoiseFloor {
          numDifferences := numDifferences + 1;
          var fileName := DiffName(imageTwo);
          files := files + {fileName};
          results := results[DifferencesKey := Count(numDifferences)];
          results := results[ComparedKey := Text(fileName)];
        }
      }
      assert boxes[..|boxes|] == boxes;
    }
  }

  /** The running counter is the number of rectangles that pass the filter. */
  lemma {:induction false} CountRegionsIsCardinality(boxes: seq<Rect>)
    ensures CountRegions(boxes) == |RegionIndices(boxes)|
  {
    if boxes != [] {
      var init := boxes[..|boxes| - 1];
      CountRegionsIsCardinality(init);
      assert forall i :: 0 <= i < |init| ==> init[i] == boxes[i];
      var last := |boxes| - 1;
      if IsRegion(boxes[last]) {
        assert RegionIndices(boxes) == RegionIndices(init) + {last};
        assert last !in RegionIndices(init);
      } else {
        assert RegionIndices(boxes) == RegionIndices(init);
      }
    }
  }

  /** The counter stays zero exactly when every rectangle is noise. */
  lemma {:induction false} CountRegionsZeroIff(boxes: seq<Rect>)
    ensures CountRegions(boxes) == 0 <==> forall i :: 0 <= i < |boxes| ==> !IsRegion(boxes[i])
  {
    if boxes != [] {
      var init := boxes[..|boxes| - 1];
      CountRegionsZeroIff(init);
      assert forall i :: 0 <= i < |init| ==> init[i] == boxes[i];
    }
  }

  /** Counting the contours in two batches adds up. */
  lemma {:induction false} CountRegionsAppend(a: seq<Rect>, b: seq<Rect>)
    ensures CountRegions(a + b) == CountRegions(a) + CountRegions(b)
  {
    if b != [] {
      var init := b[..|b| - 1];
      CountRegionsAppend(a, init);
      assert (a + b)[..|a + b| - 1] == a + init;
    } else {
      assert a + b == a;
    }
  }
}
