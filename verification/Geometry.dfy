/** Points and rectangles over unsigned pixel coordinates (aperturec-graphics/src/geometry.rs). */
module Geometry {
  datatype Point = Point(x: nat, y: nat) {
    function Plus(o: Point): Point { Point(x + o.x, y + o.y) }
  }

  datatype Size = Size(width: nat, height: nat)

  datatype Rect = Rect(origin: Point, size: Size)
}
