/** The value types of util.h, over mathematical numbers. */
module Types {

  /** `box_t`: centre and size, normalised to the model input. */
  datatype Box = Box(x: real, y: real, w: real, h: real)

  /** `landmarks_t`: five points, stored as x0, y0, x1, y1, ... */
  datatype Landmarks = Landmarks(points: seq<real>)

  /** `face_coordinate`: corner coordinates in model-input pixels. */
  datatype FaceCoordinate = FaceCoordinate(x1: int, y1: int, x2: int, y2: int)

  /** One row of the `anchors320` table: centre and size. */
  datatype Anchor = Anchor(cx: real, cy: real, w: real, h: real)

  const LocSize: nat := 4
  const LandSize: nat := 10
  const PointCount: nat := 5
}
