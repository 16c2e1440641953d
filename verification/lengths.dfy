/** Text extents: byte counts paired with row/column extents (length.h, point.h).

    Bytes, rows and columns are mathematical integers.  A column can only become negative where the
    C code would wrap around, namely when the points of an edit contradict its byte offsets. */
module Lengths {
  datatype Point = Point(row: nat, column: int)

  datatype Length = Length(bytes: nat, extent: Point)

  const UINT32_MAX := 0xFFFF_FFFF

  const LENGTH_ZERO := Length(0, Point(0, 0))

  function PointAdd(a: Point, b: Point): Point {
    if b.row > 0 then Point(a.row + b.row, b.column) else Point(a.row, a.column + b.column)
  }

  function PointSub(a: Point, b: Point): Point {
    if a.row > b.row then Point(a.row - b.row, a.column) else Point(0, a.column - b.column)
  }

  function LengthAdd(a: Length, b: Length): Length {
    Length(a.bytes + b.bytes, PointAdd(a.extent, b.extent))
  }

  function LengthSub(a: Length, b: Length): Length
    requires b.bytes <= a.bytes
  {
    Length(a.bytes - b.bytes, PointSub(a.extent, b.extent))
  }

  function LengthSaturatingSub(a: Length, b: Length): (r: Length)
    ensures r.bytes == Monus(a.bytes, b.bytes)
  {
    if a.bytes > b.bytes then LengthSub(a, b) else LENGTH_ZERO
  }

  /** It undoes adding a prefix too, unless nothing but a prefix is left: then the extent is forgotten. */
  lemma SaturatingSubUndoesAdd(a: Length, b: Length)
    ensures LengthSaturatingSub(LengthAdd(a, b), a) == b <==> b.bytes > 0 || b == LENGTH_ZERO
    ensures a.bytes <= b.bytes ==> LengthSaturatingSub(a, b) == LENGTH_ZERO
    ensures a.bytes > b.bytes ==> LengthSaturatingSub(a, b) == LengthSub(a, b)
  {
    SubUndoesAdd(a, b);
  }

  /** Subtraction of byte counts cut off at zero. */
  function Monus(a: nat, b: nat): nat {
    if a > b then a - b else 0
  }

  /** Extents form a monoid: measuring a text piece by piece gives one answer however it is cut. */
  lemma LengthMonoid(a: Length, b: Length, c: Length)
    ensures LengthAdd(LengthAdd(a, b), c) == LengthAdd(a, LengthAdd(b, c))
    ensures LengthAdd(LENGTH_ZERO, a) == a == LengthAdd(a, LENGTH_ZERO)
  {
  }

  /** Subtracting a prefix undoes adding it, for all extents.  Adding a prefix back after subtracting it
      gives the original exactly when the prefix does not have more rows. */
  lemma SubUndoesAdd(a: Length, b: Length)
    ensures LengthSub(LengthAdd(a, b), a) == b
    ensures a.bytes <= b.bytes ==> (LengthAdd(a, LengthSub(b, a)) == b <==> a.extent.row <= b.extent.row)
  {
  }
}
