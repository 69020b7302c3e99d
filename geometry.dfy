/**
 * The geometry engine, abstracted to finite sets of grid cells.
 *
 * A region is the set of cells it occupies; its area is the number of
 * cells. Both `contains` and `covers` become the subset test on a
 * non-empty argument: the boundary distinction a floating-point engine
 * draws between the two has no counterpart on cells, and, as in GEOS, no
 * geometry contains or covers an empty one. `buffer(0)`, which the catalog
 * applies to repair polygons, is the identity here.
 */
module Geometry {

  type Cell = (int, int)

  type Region = set<Cell>

  function Area(r: Region): nat
  {
    |r|
  }

  /** `a.contains(b)` */
  predicate Contains(a: Region, b: Region)
  {
    b != {} && b <= a
  }

  /** `a.covers(b)` */
  predicate Covers(a: Region, b: Region)
  {
    b != {} && b <= a
  }

  /** `a.intersects(b)` */
  predicate Intersects(a: Region, b: Region)
  {
    a * b != {}
  }

  function Intersection(a: Region, b: Region): Region
  {
    a * b
  }

  function Difference(a: Region, b: Region): Region
  {
    a - b
  }
}
