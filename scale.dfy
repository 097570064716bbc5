/** The display scale chosen when the image finishes loading. */
module Scale {

  /**
   * The width the image is fitted to when scaling is responsive: the configured maxWidth, or
   * 80% of the viewport width when maxWidth is falsy (0).
   */
  function WidthLimit(maxWidth: real, viewportWidth: real): (limit: real)
    requires viewportWidth >= 0.0
    ensures maxWidth != 0.0 ==> limit == maxWidth
    ensures maxWidth == 0.0 ==> 0.0 <= limit <= viewportWidth
    ensures maxWidth == 0.0 ==> limit == 0.8 * viewportWidth
  {
    if maxWidth != 0.0 then maxWidth else viewportWidth * 0.8
  }

  /**
   * The factor the image width and height are multiplied by before sampling. The image is
   * never enlarged, and when scaling is responsive the scaled width never exceeds the limit:
   * a wider image is shrunk to exactly the limit, a narrower one is kept as it is.
   */
  function DisplayScale(responsive: bool, maxWidth: real, viewportWidth: real, imgWidth: real): (scale: real)
    requires imgWidth >= 0.0 && viewportWidth >= 0.0
    requires responsive ==> imgWidth > 0.0 || maxWidth >= 0.0
    ensures !responsive ==> scale == 1.0
    ensures scale <= 1.0
    ensures responsive ==> imgWidth * scale <= WidthLimit(maxWidth, viewportWidth)
    ensures responsive && imgWidth <= WidthLimit(maxWidth, viewportWidth) ==> scale == 1.0
    ensures responsive && imgWidth > WidthLimit(maxWidth, viewportWidth) ==>
              imgWidth * scale == WidthLimit(maxWidth, viewportWidth)
    ensures responsive && WidthLimit(maxWidth, viewportWidth) > 0.0 ==> 0.0 < scale
    ensures maxWidth >= 0.0 ==> 0.0 <= scale
  {
    if !responsive then 1.0
    else
      var limit := WidthLimit(maxWidth, viewportWidth);
      if imgWidth > limit then limit / imgWidth else 1.0
  }

  /** With the default limit of 800 pixels, a 1600-pixel image is halved and a 400-pixel one kept. */
  lemma DefaultLimitExamples(viewportWidth: real)
    requires viewportWidth >= 0.0
    ensures DisplayScale(true, 800.0, viewportWidth, 1600.0) == 0.5
    ensures 1600.0 * DisplayScale(true, 800.0, viewportWidth, 1600.0) == 800.0
    ensures DisplayScale(true, 800.0, viewportWidth, 400.0) == 1.0
  {
  }
}
