/**
 * The entities of slices.py as values: a vertex, a slice (one closed loop of
 * vertices) and a triangle (three vertices, counter-clockwise seen from
 * outside). Vertices are compared by value (coordinates and successor),
 * not by object identity.
 */
module Slices {
  import opened Wrappers
  import opened Geometry

  /**
   * A vertex: its coordinates and `nextV`, the position of the next vertex
   * around its slice (None until the loader links the loop).
   */
  datatype Vertex = Vertex(coords: Point, next: Option<nat>)

  /** One cross-section: its vertices in right-hand order around the stacking axis. */
  datatype Slice = Slice(verts: seq<Vertex>)

  datatype Triangle = Triangle(a: Vertex, b: Vertex, c: Vertex)

  /** The move recorded in a cell of the direction table. */
  datatype Dir = PrevRow | PrevCol

  /** The area the stitching charges for a triangle. */
  function TriangleArea(area: Area, t: Triangle): real
  {
    area(t.a.coords, t.b.coords, t.c.coords)
  }

  /**
   * The direction of a triangle's normal: the cross product of its two edges
   * leaving the first corner, before normalisation.
   */
  function NormalDirection(t: Triangle): (n: Point)
    ensures DotProduct(n, Subtract(t.b.coords, t.a.coords)) == 0.0
    ensures DotProduct(n, Subtract(t.c.coords, t.a.coords)) == 0.0
  {
    var e1 := Subtract(t.b.coords, t.a.coords);
    var e2 := Subtract(t.c.coords, t.a.coords);
    CrossProduct(e1, e2)
  }

  /** Sum of the areas of a list of triangles. */
  function TotalArea(area: Area, ts: seq<Triangle>): real
  {
    if ts == [] then 0.0 else TriangleArea(area, ts[0]) + TotalArea(area, ts[1..])
  }
}
