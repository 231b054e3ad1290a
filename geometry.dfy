/**
 * Points and cutting planes. The library's `CPoint` and `CPlane` hold doubles;
 * here coordinates are exact reals, so rounding is not modelled.
 */
module Geometry {

  /** A point (or vector) of 3-space. */
  datatype Point = Point(x: real, y: real, z: real)

  /** A cutting plane: its normal and its offset `d` along that normal. */
  datatype Plane = Plane(normal: Point, d: real)

  function Dot(a: Point, b: Point): real
  {
    a.x * b.x + a.y * b.y + a.z * b.z
  }

  /** The plane's side test: the signed offset of `p` from the plane. */
  function Side(pl: Plane, p: Point): real
  {
    Dot(pl.normal, p) - pl.d
  }

  /** A vertex is classified "outside" when it lies on the plane or on its positive side. */
  predicate IsOutside(pl: Plane, p: Point)
  {
    Side(pl, p) >= 0.0
  }

  const XAxis: Point := Point(1.0, 0.0, 0.0)
  const YAxis: Point := Point(0.0, 1.0, 0.0)
  const ZAxis: Point := Point(0.0, 0.0, 1.0)

  /** An axis-aligned plane classifies by one coordinate against the offset. */
  lemma AxisPlaneSides(p: Point, d: real)
    ensures IsOutside(Plane(XAxis, d), p) <==> p.x >= d
    ensures IsOutside(Plane(YAxis, d), p) <==> p.y >= d
    ensures IsOutside(Plane(ZAxis, d), p) <==> p.z >= d
  {
  }
}
