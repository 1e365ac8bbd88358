/**
 * piece.js `fitGraphicsToCanvas`: the size and position at which an offscreen graphics
 * buffer is drawn onto the canvas, computed in exact real arithmetic.
 */
module CanvasFit {
  import opened Wrappers

  /** Width and height of a canvas or of a graphics buffer. */
  datatype Size = Size(width: real, height: real) {
    predicate Positive() {
      width > 0.0 && height > 0.0
    }
  }

  /** What is passed to `image(graphics, x, y, w, h)` under `imageMode(CENTER)`. */
  datatype Placement = Placement(centerX: real, centerY: real, width: real, height: real)

  /** The canvas minus the padding on every side; with the default padding of 0, the whole canvas. */
  function Available(canvas: Size, padding: real): (available: Size)
    ensures padding == 0.0 ==> available == canvas
    ensures padding >= 0.0 ==> available.width <= canvas.width && available.height <= canvas.height
  {
    Size(canvas.width - padding * 2.0, canvas.height - padding * 2.0)
  }

  /**
   * The test `graphicsRatio > canvasRatio` with `canvasRatio = availableWidth / availableHeight`
   * in JavaScript arithmetic. Over a zero height the ratio is +Infinity (width > 0), -Infinity
   * (width < 0) or NaN (width 0, the 0x0 canvas), and only -Infinity lies below a finite ratio.
   * Over a positive height it says the graphics, scaled to the available height, overflow the
   * available width.
   */
  function WiderThanAvailable(graphicsRatio: real, available: Size): (wider: bool)
    ensures available.height > 0.0 ==> (wider <==> graphicsRatio * available.height > available.width)
  {
    if available.height != 0.0 then
      var canvasRatio := available.width / available.height;
      assert canvasRatio * available.height == available.width;
      graphicsRatio > canvasRatio
    else
      available.width < 0.0
  }

  /**
   * The placement `fitGraphicsToCanvas(graphics, padding)` draws with; `None` when `graphics`
   * is null and nothing is drawn. The image is centred on the canvas.
   */
  function FitGraphicsToCanvas(graphics: Option<Size>, canvas: Size, padding: real): (p: Option<Placement>)
    requires graphics.Some? ==> graphics.value.Positive()
    ensures p.None? <==> graphics.None?
    ensures p.Some? ==> p.value.centerX == canvas.width / 2.0 && p.value.centerY == canvas.height / 2.0
  {
    if graphics.None? then None
    else
      var available := Available(canvas, padding);
      var graphicsRatio := graphics.value.width / graphics.value.height;
      if WiderThanAvailable(graphicsRatio, available) then
        Some(Placement(canvas.width / 2.0, canvas.height / 2.0, available.width, available.width / graphicsRatio))
      else
        Some(Placement(canvas.width / 2.0, canvas.height / 2.0, available.height * graphicsRatio, available.height))
  }

  /**
   * A canvas with no area left (`createCanvas(0, 0)` when the computed canvas size rounds down
   * to 0) gets a 0x0 image, whichever branch the ratio test takes.
   */
  lemma FitEmptyCanvas(graphics: Size, canvas: Size, padding: real)
    requires graphics.Positive()
    requires Available(canvas, padding).width >= 0.0 && Available(canvas, padding).height >= 0.0
    requires Available(canvas, padding).width == 0.0 || Available(canvas, padding).height == 0.0
    ensures var p := FitGraphicsToCanvas(Some(graphics), canvas, padding).value;
      p.width == 0.0 && p.height == 0.0
  {
  }

  /** A drawn size that fits the available area and keeps the graphics' aspect ratio. */
  predicate FitsUndistorted(w: real, h: real, graphics: Size, available: Size) {
    0.0 < w <= available.width && 0.0 < h <= available.height &&
    w * graphics.height == h * graphics.width
  }

  /**
   * The fit is undistorted (draw width over draw height equals the graphics' ratio), stays
   * inside the available area and touches it on at least one side.
   */
  lemma FitIsUndistorted(graphics: Size, canvas: Size, padding: real)
    requires graphics.Positive() && Available(canvas, padding).Positive()
    ensures var p := FitGraphicsToCanvas(Some(graphics), canvas, padding).value;
      var available := Available(canvas, padding);
      FitsUndistorted(p.width, p.height, graphics, available) &&
      p.width / p.height == graphics.width / graphics.height &&
      (p.width == available.width || p.height == available.height)
  {
  }

  /**
   * The fit is the largest undistorted size: any other size that fits the available area
   * with the graphics' aspect ratio is no wider and no taller.
   */
  lemma FitIsLargest(graphics: Size, canvas: Size, padding: real, w: real, h: real)
    requires graphics.Positive() && Available(canvas, padding).Positive()
    requires FitsUndistorted(w, h, graphics, Available(canvas, padding))
    ensures var p := FitGraphicsToCanvas(Some(graphics), canvas, padding).value;
      w <= p.width && h <= p.height
  {
  }
}
