/** Axis-aligned rectangles in user space; borb's `Decimal` coordinates are exact rationals here. */
module Geometry {

  /** Lower-left corner (x, y), width and height, as borb's `Rectangle` stores them. */
  datatype Rectangle = Rectangle(x: real, y: real, width: real, height: real)
}
