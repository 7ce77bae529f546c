/** The per-job algorithm of a diff worker: bring the two inputs to a
    common height, then assemble the three-panel composite (first input,
    diff, second input).

    Decoding and encoding are not modelled: the worker receives the images
    already decoded, and what it would encode is returned. */
module Worker {
  import opened Streams
  import opened Paths
  import opened Raster

  /** Which input, if either, is padded to the other's bounds. */
  datatype Padding = PadSecond | PadFirst | NoPadding

  /** The padding decision compares heights only; width plays no part. */
  function PaddingFor(height1: int, height2: int): (p: Padding)
    ensures p == PadSecond <==> height1 > height2
    ensures p == PadFirst <==> height2 > height1
    ensures p == NoPadding <==> height1 == height2
  {
    if height1 > height2 then PadSecond
    else if height2 > height1 then PadFirst
    else NoPadding
  }

  /** Brings `img1` (decoded from `in1`) and `img2` (decoded from `in2`) to a
      common height. The shorter one is drawn onto a canvas with the taller
      one's full bounds, which is returned as `padded` (the image written to
      `out`), and `out` replaces the shorter one's path; on equal heights
      nothing is padded and both paths go on unchanged. */
  method CommonSizeImageLengths(in1: Path, in2: Path, out: Path, img1: array2<Rgba>, img2: array2<Rgba>)
    returns (inA: Path, inB: Path, padded: Option<array2<Rgba>>)
    ensures padded.Some? ==> fresh(padded.value)
    ensures img1.Length1 > img2.Length1 ==>
      inA == in1 && inB == out && padded.Some? && IsPadded(padded.value, img2, img1.Length0, img1.Length1)
    ensures img2.Length1 > img1.Length1 ==>
      inA == out && inB == in2 && padded.Some? && IsPadded(padded.value, img1, img2.Length0, img2.Length1)
    ensures img1.Length1 == img2.Length1 ==> inA == in1 && inB == in2 && padded == None
  {
    match PaddingFor(img1.Length1, img2.Length1)
    case PadSecond =>
      var canvas := ResizeImage(img2, img1.Length0, img1.Length1);
      inA, inB, padded := in1, out, Some(canvas);
    case PadFirst =>
      var canvas := ResizeImage(img1, img2.Length0, img2.Length1);
      inA, inB, padded := out, in2, Some(canvas);
    case NoPadding =>
      inA, inB, padded := in1, in2, None;
  }

  /** The worker for one job with output path `outFile`. `img1` and `img2`
      are the decoded inputs and `diffImg` the decoded image the external
      comparison tool wrote. Returns the temporary path, the two paths handed
      to the comparison tool, the padded image (if any) and the composite
      written to `outFile`. */
  method CompareFiles(in1: Path, in2: Path, outFile: Path, img1: array2<Rgba>, img2: array2<Rgba>, diffImg: array2<Rgba>)
    returns (resize: Path, inA: Path, inB: Path, padded: Option<array2<Rgba>>, composite: array2<Rgba>)
    ensures resize == outFile + "tmp"
    ensures fresh(composite)
    ensures padded.Some? ==> fresh(padded.value)
    ensures padded.Some? <==> img1.Length1 != img2.Length1
    ensures img1.Length1 > img2.Length1 ==> inA == in1 && inB == resize
    ensures img2.Length1 > img1.Length1 ==> inA == resize && inB == in2
    ensures img1.Length1 == img2.Length1 ==> inA == in1 && inB == in2
    ensures img1.Length1 > img2.Length1 ==>
      padded.Some? && IsPadded(padded.value, img2, img1.Length0, img1.Length1) &&
      IsComposite(composite, img1, diffImg, padded.value)
    ensures img2.Length1 > img1.Length1 ==>
      padded.Some? && IsPadded(padded.value, img1, img2.Length0, img2.Length1) &&
      IsComposite(composite, padded.value, diffImg, img2)
    ensures img1.Length1 == img2.Length1 ==> IsComposite(composite, img1, diffImg, img2)
    ensures composite.Length1 == IntMax(IntMax(img1.Length1, img2.Length1), diffImg.Length1)
    ensures composite.Length0 == diffImg.Length0 +
      if img1.Length1 > img2.Length1 then 2 * img1.Length0
      else if img2.Length1 > img1.Length1 then 2 * img2.Length0
      else img1.Length0 + img2.Length0
  {
    resize := TempPath(outFile);
    inA, inB, padded := CommonSizeImageLengths(in1, in2, resize, img1, img2);
    var left := if img2.Length1 > img1.Length1 then padded.value else img1;
    var right := if img1.Length1 > img2.Length1 then padded.value else img2;
    composite := CombineImages(left, diffImg, right);
  }
}
