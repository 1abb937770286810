/**
 * The image view that loads a card's picture from a URL: the size it thinks it has, and
 * the sample size it decodes the bitmap with.
 */
module ImageView {
  import opened JavaLang

  /** The first positive candidate, or `fallback` when there is none. */
  function FirstPositiveOr(candidates: seq<int>, fallback: int): (r: int)
    ensures (exists i :: 0 <= i < |candidates| && candidates[i] > 0) ==>
      exists i :: 0 <= i < |candidates| && candidates[i] > 0 && r == candidates[i]
                  && forall j :: 0 <= j < i ==> candidates[j] <= 0
    ensures (forall i :: 0 <= i < |candidates| ==> candidates[i] <= 0) ==> r == fallback
  {
    if candidates == [] then fallback
    else if candidates[0] > 0 then candidates[0]
    else
      var r := FirstPositiveOr(candidates[1..], fallback);
      assert forall i :: 1 <= i < |candidates| ==> candidates[i] == candidates[1..][i - 1];
      r
  }

  /** The sizes a view can report along one axis, in the order they are consulted. */
  datatype AxisSizes = AxisSizes(measured: int, layoutParam: int, maxSize: int, screen: int)

  /** Whether the decoded image must be sampled down to fit, and by how much; a zero view size throws. */
  function InSampleSize(outWidth: int, outHeight: int, viewWidth: int, viewHeight: int): (r: Result<int>)
    ensures !(outWidth > viewWidth || outHeight > viewHeight) ==> r == Ok(1)
    ensures r.Err? <==> (outWidth > viewWidth || outHeight > viewHeight) && (viewWidth == 0 || viewHeight == 0)
    ensures r.Err? ==> r.error == Arithmetic
    ensures r.Ok? && (outWidth > viewWidth || outHeight > viewHeight) ==>
      r.value == Max(Wrap32(JavaDiv(outWidth, viewWidth)), Wrap32(JavaDiv(outHeight, viewHeight)))
  {
    if outWidth > viewWidth || outHeight > viewHeight then
      if viewWidth == 0 || viewHeight == 0 then Err(Arithmetic)
      else Ok(Max(Wrap32(JavaDiv(outWidth, viewWidth)), Wrap32(JavaDiv(outHeight, viewHeight))))
    else Ok(1)
  }

  function Max(a: int, b: int): int {
    if a > b then a else b
  }

  /**
   * For a view of positive size the sample size is at least 1; an image larger than the
   * view along an axis is sampled by at least that axis's whole ratio, and never by more
   * than the larger of its dimensions.
   */
  lemma InSampleSizeBounds(outWidth: int, outHeight: int, viewWidth: int, viewHeight: int)
    requires IsInt32(outWidth) && IsInt32(outHeight)
    requires 0 < viewWidth <= INT_MAX && 0 < viewHeight <= INT_MAX
    ensures InSampleSize(outWidth, outHeight, viewWidth, viewHeight).Ok?
    ensures InSampleSize(outWidth, outHeight, viewWidth, viewHeight).value >= 1
    ensures outWidth > viewWidth ==>
      InSampleSize(outWidth, outHeight, viewWidth, viewHeight).value >= outWidth / viewWidth
    ensures outWidth > viewWidth || outHeight > viewHeight ==>
      InSampleSize(outWidth, outHeight, viewWidth, viewHeight).value <= Max(outWidth, outHeight)
  {
    if outWidth > viewWidth || outHeight > viewHeight {
      QuotientBounds(outWidth, viewWidth);
      QuotientBounds(outHeight, viewHeight);
    }
  }

  /** Truncating division of an `int` by a positive `int` stays in range and does not grow the magnitude. */
  lemma QuotientBounds(a: int, b: int)
    requires IsInt32(a) && 0 < b <= INT_MAX
    ensures Wrap32(JavaDiv(a, b)) == JavaDiv(a, b)
    ensures a >= 0 ==> 0 <= JavaDiv(a, b) <= a
    ensures a > b ==> JavaDiv(a, b) >= 1
    ensures a < 0 ==> a <= JavaDiv(a, b) <= 0
  {
    if a >= 0 {
      DivBounds(a, b);
    } else {
      DivBounds(-a, b);
    }
  }

  lemma DivBounds(a: int, b: int)
    requires a >= 0 && b > 0
    ensures 0 <= a / b <= a
    ensures a >= b ==> a / b >= 1
  {
    if a >= b {
      assert a / b * b + a % b == a;
      assert a % b < b;
    }
  }

  class OnlineImageView {
    /** The size of the last decoded image; zero until one is decoded. */
    var imageWidth: int
    var imageHeight: int

    constructor ()
      ensures imageWidth == 0 && imageHeight == 0
    {
      imageWidth := 0;
      imageHeight := 0;
    }

    function GetImageWidth(): (w: int)
      reads this
      ensures w == imageWidth
    {
      imageWidth
    }

    function GetImageHeight(): (h: int)
      reads this
      ensures h == imageHeight
    {
      imageHeight
    }

    /**
     * The view's real size along one axis: the measured size, else the layout
     * parameter, else the maximum size, else the screen size.
     */
    method RealImageViewSize(sizes: AxisSizes) returns (size: int)
      ensures size == FirstPositiveOr([sizes.measured, sizes.layoutParam, sizes.maxSize], sizes.screen)
      ensures size > 0 || size == sizes.screen
    {
      size := sizes.measured;
      if size <= 0 {
        size := sizes.layoutParam;
      }
      if size <= 0 {
        size := sizes.maxSize;
      }
      if size <= 0 {
        size := sizes.screen;
      }
      ghost var candidates := [sizes.measured, sizes.layoutParam, sizes.maxSize];
      assert candidates[1..] == [sizes.layoutParam, sizes.maxSize];
      assert candidates[1..][1..] == [sizes.maxSize];
      assert [sizes.maxSize][1..] == [];
      assert FirstPositiveOr([sizes.maxSize], sizes.screen) == if sizes.maxSize > 0 then sizes.maxSize else sizes.screen;
      assert FirstPositiveOr([sizes.layoutParam, sizes.maxSize], sizes.screen) ==
        if sizes.layoutParam > 0 then sizes.layoutParam else FirstPositiveOr([sizes.maxSize], sizes.screen);
    }

    /**
     * `getInSampleSize`: records the decoded image's size, then compares it with the
     * view's real width and height.
     */
    method GetInSampleSize(outWidth: int, outHeight: int, width: AxisSizes, height: AxisSizes)
      returns (r: Result<int>)
      modifies this
      ensures imageWidth == outWidth && imageHeight == outHeight
      ensures r == InSampleSize(outWidth, outHeight,
                                FirstPositiveOr([width.measured, width.layoutParam, width.maxSize], width.screen),
                                FirstPositiveOr([height.measured, height.layoutParam, height.maxSize], height.screen))
    {
      var realWidth := RealImageViewSize(width);
      var realHeight := RealImageViewSize(height);
      imageWidth := outWidth;
      imageHeight := outHeight;
      r := InSampleSize(outWidth, outHeight, realWidth, realHeight);
    }
  }
}
