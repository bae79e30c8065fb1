/**
 * A coded-mask camera: its patterns and response, and the shape and sum
 * conditions that make the reconstruction formulas defined.
 */
module Cameras {
  import opened Grids

  /**
   * One coded-mask camera: mask and decoder patterns, detector bulk response,
   * the balancing constant, the open fraction of the mask, and its shapes.
   */
  datatype Camera = Camera(mask: Matrix, decoder: Matrix, bulk: Matrix, balancing: real,
                           openFraction: real, maskShape: Shape, detectorShape: Shape, skyShape: Shape)

  /**
   * Decoder and mask share the mask shape, the bulk has the detector shape,
   * and the sky is the full-correlation support of the two (`mask + detector - 1`
   * on each axis).
   */
  predicate ShapesAgree(cam: Camera)
  {
    cam.maskShape.rows >= 1 && cam.maskShape.cols >= 1 &&
    cam.detectorShape.rows >= 1 && cam.detectorShape.cols >= 1 &&
    HasShape(cam.mask, cam.maskShape) && HasShape(cam.decoder, cam.maskShape) &&
    HasShape(cam.bulk, cam.detectorShape) &&
    cam.skyShape == Shape(cam.maskShape.rows + cam.detectorShape.rows - 1,
                          cam.maskShape.cols + cam.detectorShape.cols - 1)
  }

  /** The sums the reconstruction divides by are not zero, and the mask has open elements. */
  predicate SumsDefined(cam: Camera)
  {
    Sum(cam.mask) > 0.0 && Sum(cam.bulk) != 0.0
  }
}
