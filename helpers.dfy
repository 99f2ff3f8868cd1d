/**
 * Frame-dimension arithmetic of `rescale_frame` (src/helpers.py).
 *
 * The pixels themselves are resampled by OpenCV; here a frame's image is a
 * symbolic term, so a rescaled frame records which image it was resampled
 * from and to what size. `int(dim * percent / 100)` is floating-point
 * division followed by truncation; for the non-negative dimensions of a
 * video (far below 2^53) it equals integer floor division, which is what
 * the model uses.
 */
module Helpers {
  import opened Wrappers

  /** The default `percent` of `rescale_frame`. */
  const DefaultPercent: nat := 10

  /** Pixel data, kept abstract. */
  datatype Image = Captured(id: nat) | AreaResampled(source: Image, width: nat, height: nat)

  /** A decoded frame; `height` is `shape[0]` and `width` is `shape[1]`. */
  datatype Frame = Frame(height: nat, width: nat, image: Image)

  /** OpenCV's `dsize`, which lists the width first. */
  datatype Size = Size(width: nat, height: nat)

  /** One output dimension: the floor of `dim * percent / 100`. */
  function ScaledDimension(dim: nat, percent: nat): (r: nat)
    ensures r * 100 <= dim * percent < r * 100 + 100
  {
    dim * percent / 100
  }

  /**
   * The `dim` tuple built from a frame's `(h, w)` shape: the width comes from
   * `shape[1]` and goes first, the height from `shape[0]` and goes second.
   */
  function TargetSize(frame: Frame, percent: nat := DefaultPercent): (r: Size)
    ensures r.width * 100 <= frame.width * percent < r.width * 100 + 100
    ensures r.height * 100 <= frame.height * percent < r.height * 100 + 100
  {
    Size(ScaledDimension(frame.width, percent), ScaledDimension(frame.height, percent))
  }

  /**
   * `rescale_frame`: `cv2.resize` to the target size with area resampling.
   * OpenCV refuses an empty target size when no scale factors are given, so
   * a zero width or height makes the call raise (`None` here).
   */
  function RescaleFrame(frame: Frame, percent: nat := DefaultPercent): (r: Option<Frame>)
  {
    var size := TargetSize(frame, percent);
    if size.width == 0 || size.height == 0 then None
    else Some(Frame(size.height, size.width, AreaResampled(frame.image, size.width, size.height)))
  }

  /**
   * The target size follows the shape's fields, not their order: swapping a
   * frame's height and width swaps the two fields of its target size, so
   * `dim`'s first field always comes from `shape[1]`.
   */
  lemma TargetSizeReversesShape(frame: Frame, percent: nat)
    ensures var t := TargetSize(Frame(frame.width, frame.height, frame.image), percent);
      t == Size(TargetSize(frame, percent).height, TargetSize(frame, percent).width)
    ensures frame.height == frame.width ==> TargetSize(frame, percent).width == TargetSize(frame, percent).height
  {
  }

  /** For a percent in 1..99 a dimension never grows, and a positive one shrinks. */
  lemma ScaledDimensionShrinks(dim: nat, percent: nat)
    requires 1 <= percent <= 99
    ensures ScaledDimension(dim, percent) <= dim
    ensures dim > 0 ==> ScaledDimension(dim, percent) < dim
  {
    if dim > 0 {
      assert ScaledDimension(dim, percent) * 100 <= dim * 99 < dim * 100;
    }
  }

  /** A dimension scales to 0 exactly when `dim * percent` is below 100. */
  lemma ScaledDimensionZero(dim: nat, percent: nat)
    ensures ScaledDimension(dim, percent) == 0 <==> dim * percent < 100
  {
  }

  /** The scaled dimension is monotone in the dimension and in the percent. */
  lemma ScaledDimensionMonotone(dim1: nat, dim2: nat, percent1: nat, percent2: nat)
    requires dim1 <= dim2 && percent1 <= percent2
    ensures ScaledDimension(dim1, percent1) <= ScaledDimension(dim2, percent2)
  {
    assert dim1 * percent1 <= dim2 * percent1 <= dim2 * percent2;
  }

  /** At 100 percent the dimensions stay as they are. */
  lemma FullScaleIsIdentity(frame: Frame)
    ensures TargetSize(frame, 100) == Size(frame.width, frame.height)
  {
  }

  /** Omitting the percent means 10 percent. */
  lemma DefaultIsTenPercent(frame: Frame)
    ensures TargetSize(frame) == TargetSize(frame, 10)
    ensures RescaleFrame(frame) == RescaleFrame(frame, 10)
  {
  }

  /**
   * The rescaled frame has the target size as its shape, is resampled from
   * the input, and exists exactly when both dimensions times the percent
   * reach 100.
   */
  lemma RescaleFrameShape(frame: Frame, percent: nat)
    ensures RescaleFrame(frame, percent).Some? <==> frame.width * percent >= 100 && frame.height * percent >= 100
    ensures RescaleFrame(frame, percent).Some? ==>
      var r := RescaleFrame(frame, percent).value;
      Size(r.width, r.height) == TargetSize(frame, percent) &&
      r.image == AreaResampled(frame.image, r.width, r.height)
  {
    ScaledDimensionZero(frame.width, percent);
    ScaledDimensionZero(frame.height, percent);
  }

  /** For a percent in 1..99 a rescaled frame is strictly smaller in both dimensions. */
  lemma RescaleFrameShrinks(frame: Frame, percent: nat)
    requires 1 <= percent <= 99
    requires RescaleFrame(frame, percent).Some?
    ensures RescaleFrame(frame, percent).value.width < frame.width
    ensures RescaleFrame(frame, percent).value.height < frame.height
  {
    ScaledDimensionShrinks(frame.width, percent);
    ScaledDimensionShrinks(frame.height, percent);
  }

  /** Frames of equal shape rescale alike: either both fail or both get the same size. */
  lemma RescaleDependsOnShapeOnly(f: Frame, g: Frame, percent: nat)
    requires f.height == g.height && f.width == g.width
    ensures RescaleFrame(f, percent).Some? == RescaleFrame(g, percent).Some?
    ensures RescaleFrame(f, percent).Some? ==>
      RescaleFrame(f, percent).value.width == RescaleFrame(g, percent).value.width &&
      RescaleFrame(f, percent).value.height == RescaleFrame(g, percent).value.height
  {
  }
}
