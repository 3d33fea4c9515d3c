// The two primitive types of the Delaunay library that the boundary
// extraction touches. Only the members the extraction reads or writes are
// modelled: the coordinates of a vertex are never read by it.

module Primitives {

  /** A vertex of the triangulation: its one mutable member is the scratch `tag`. */
  class Vertex3 {
    var tag: int

    constructor (tag: int)
      ensures this.tag == tag
    {
      this.tag := tag;
    }
  }

  /**
   * A tetrahedral cell: its vertices, its neighbours (one slot per face,
   * `null` where the face lies on the convex hull) and its `tag`. The
   * vertex and neighbour lists are filled in by the triangulation and only
   * read afterwards.
   */
  class Simplex {
    var vertices: seq<Vertex3>
    var adjacent: seq<Simplex?>
    var tag: int

    constructor (vertices: seq<Vertex3>, adjacent: seq<Simplex?>)
      ensures this.vertices == vertices && this.adjacent == adjacent
      ensures tag == 0
    {
      this.vertices := vertices;
      this.adjacent := adjacent;
      tag := 0;
    }
  }
}
