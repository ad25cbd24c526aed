/** Points, sizes and rectangles of the graphics library. */
module Geometry {

  datatype Point = Point(x: int, y: int)

  datatype Size = Size(width: int, height: int)

  datatype Rect = Rect(x: int, y: int, width: int, height: int)
}
