# Boundary faces of a labelled Delaunay tetrahedralization

This project models the `ExampleDelaunay3D` behaviour of the Hull-Delaunay-Voronoi
Unity project. The behaviour runs after the Delaunay library has built a 3D
tetrahedralization. Its pipeline has three steps:

1. **Tagging.** `TagCells` writes each cell's position in the cell list into
   that cell's `Tag`.
2. **Labelling.** One boolean per cell comes from the inclusion test
   `ShouldInclude`, which is still a placeholder that rejects every cell.
3. **Extraction.** `GetBoundaryTriangles` walks every adjacency slot of every
   cell. It skips hull slots (`null`) and neighbours with the same label. For
   every other slot it emits the face the two cells share, computed by
   `Intersection`.

`Intersection` finds the shared vertices by marking the vertices' own scratch
`Tag` field. Every vertex of `a` gets 0, every vertex of `b` gets 1, and then the
vertices of `a` marked 1 are kept.

Two modules make up the model:

- `Primitives` (`primitives.dfy`) holds `Vertex3` and `Simplex`. These are the
  library types the behaviour touches, reduced to the fields it reads and writes.
- `ExampleDelaunay` (`example_delaunay3d.dfy`) holds the specification functions,
  the lemmas, and the class `ExampleDelaunay3D` with the behaviour's methods.

The specification side reads the complex as a value. A `Complex` maps each cell
to a `CellView`, which holds its vertices, its neighbours and its tag. Over that
value:

- `BoundarySlots` is the sequence of (cell position, slot index) pairs the
  extraction emits, in emission order.
- `Faces` maps those slots to the shared vertices.
- `GetBoundaryTriangles` is proved to return exactly `Faces` of `BoundarySlots`,
  taken over the complex and labels as they were on entry.
- The lemmas then state what that sequence contains and in which order.

## Model

| member | source | states |
|---|---|---|
| ExampleDelaunay.ExampleDelaunay3D.TagCells | Assets/HullDelaunayVoronoi/Scripts/ExampleDelaunay3D.cs:93-102 | every cell's tag is a position at which that cell stands in the list, namely the last one; only simplex tags are written |
| ExampleDelaunay.TagsAreIndices | Assets/HullDelaunayVoronoi/Scripts/ExampleDelaunay3D.cs:98-101 | for a list without repeated cells, tagging gives `cells[i].tag == i` for every position, so the tags are exactly 0 .. N-1 |
| ExampleDelaunay.ShouldInclude | Assets/HullDelaunayVoronoi/Scripts/ExampleDelaunay3D.cs:110-114 | the placeholder inclusion test rejects every cell |
| ExampleDelaunay.Labels | Assets/HullDelaunayVoronoi/Scripts/ExampleDelaunay3D.cs:59 | one label per cell, and label `i` is the inclusion test applied to cell `i` |
| ExampleDelaunay.ExampleDelaunay3D.LabelCells | Assets/HullDelaunayVoronoi/Scripts/ExampleDelaunay3D.cs:59 | the label array is a new array holding exactly `Labels(cells)` |
| ExampleDelaunay.LabelThroughTag | Assets/HullDelaunayVoronoi/Scripts/ExampleDelaunay3D.cs:58-59 | after tagging, a cell's tag is in bounds for the labels and the label found through it is that cell's own label, repeated cells included |
| ExampleDelaunay.CommonMembers | Assets/HullDelaunayVoronoi/Scripts/ExampleDelaunay3D.cs:117-123 | every kept vertex lies in both sequences, and a vertex of `a` is kept exactly when it also lies in `b` |
| ExampleDelaunay.CommonAppend | Assets/HullDelaunayVoronoi/Scripts/ExampleDelaunay3D.cs:131 | intersecting a concatenation is the concatenation of the intersections, so `a`'s order is kept |
| ExampleDelaunay.CommonCount | Assets/HullDelaunayVoronoi/Scripts/ExampleDelaunay3D.cs:131 | a vertex of `a` found in `b` is kept as many times as `a` holds it, and any other vertex is not kept |
| ExampleDelaunay.CommonSize | Assets/HullDelaunayVoronoi/Scripts/ExampleDelaunay3D.cs:131 | when `a` has no repeats, the result has none either and its length is the number of vertices the two share |
| ExampleDelaunay.Marked | Assets/HullDelaunayVoronoi/Scripts/ExampleDelaunay3D.cs:131 | the filter keeps exactly the vertices of `a` whose mark is 1 |
| ExampleDelaunay.MarkedIsCommon | Assets/HullDelaunayVoronoi/Scripts/ExampleDelaunay3D.cs:125-131 | suppose every vertex of `b` is marked 1 and no other vertex of `a` is. Then filtering `a` on the mark gives the intersection, even though the two sequences share vertex objects |
| ExampleDelaunay.ExampleDelaunay3D.Intersection | Assets/HullDelaunayVoronoi/Scripts/ExampleDelaunay3D.cs:123-132 | the result is the vertices of `a` that also occur in `b`, in `a`'s order. Afterwards every vertex of `b` is marked 1 and every vertex of `a` not in `b` is marked 0; only those marks are written |
| ExampleDelaunay.ExampleDelaunay3D.GetBoundaryTriangles | Assets/HullDelaunayVoronoi/Scripts/ExampleDelaunay3D.cs:139-153 | the faces returned are the faces of the boundary slots, computed over the cells and labels as they were on entry; only vertex marks are written |
| ExampleDelaunay.ExampleDelaunay3D.AllFaces | Assets/HullDelaunayVoronoi/Scripts/ExampleDelaunay3D.cs:141-152 | the loop over the cells yields the faces of all boundary slots |
| ExampleDelaunay.ExampleDelaunay3D.CellFaces | Assets/HullDelaunayVoronoi/Scripts/ExampleDelaunay3D.cs:145-151 | the loop over one cell's slots appends the faces of that cell's emitting slots, in slot order |
| ExampleDelaunay.ExampleDelaunay3D.SlotFace | Assets/HullDelaunayVoronoi/Scripts/ExampleDelaunay3D.cs:147-150 | a hull slot or an equally labelled neighbour adds nothing; any other slot adds the shared vertices |
| ExampleDelaunay.EmittedBeforeNext | Assets/HullDelaunayVoronoi/Scripts/ExampleDelaunay3D.cs:147-150 | examining one slot appends that slot exactly when it holds a neighbour with a different label |
| ExampleDelaunay.FacesNext | Assets/HullDelaunayVoronoi/Scripts/ExampleDelaunay3D.cs:149-150 | examining one slot appends the shared vertices exactly when it holds a neighbour with a different label |
| ExampleDelaunay.BoundarySlotsExactly | Assets/HullDelaunayVoronoi/Scripts/ExampleDelaunay3D.cs:147-150 | a slot is emitted if and only if it holds a neighbour whose label, found through the tags, differs from the cell's own |
| ExampleDelaunay.BoundarySlotsOrdered | Assets/HullDelaunayVoronoi/Scripts/ExampleDelaunay3D.cs:143-151 | slots are emitted strictly in cell order, then slot order, so none is emitted twice |
| ExampleDelaunay.FacesMatchSlots | Assets/HullDelaunayVoronoi/Scripts/ExampleDelaunay3D.cs:150 | one face per emitted slot, and face `j` is the vertices shared across slot `j` |
| ExampleDelaunay.EmittedFromBothSides | Assets/HullDelaunayVoronoi/Scripts/ExampleDelaunay3D.cs:143-150 | with mutual adjacency, every emitted slot has a distinct partner slot leading back from the neighbour. That slot is emitted too, and its face holds the same vertices, so each differing pair yields its face twice |
| ExampleDelaunay.FaceArity | Assets/HullDelaunayVoronoi/Scripts/ExampleDelaunay3D.cs:150 | when two tetrahedra share exactly three vertices, the face emitted between them has three vertices |
| ExampleDelaunay.UniformLabelsNoBoundary | Assets/HullDelaunayVoronoi/Scripts/ExampleDelaunay3D.cs:149 | when all labels are equal, no slot is emitted and no face is returned |
| ExampleDelaunay.NoBoundaryWithPlaceholder | Assets/HullDelaunayVoronoi/Scripts/ExampleDelaunay3D.cs:110-114 | with the placeholder inclusion test, the boundary is empty for every complex |
| ExampleDelaunay.LinkedReady | Assets/HullDelaunayVoronoi/Scripts/ExampleDelaunay3D.cs:58-62 | take cells that are tagged and labelled and whose neighbours are all in the list. Then the extraction's precondition holds: every tag it looks up is an index of the labels |
| ExampleDelaunay.ExampleDelaunay3D.Start | Assets/HullDelaunayVoronoi/Scripts/ExampleDelaunay3D.cs:58-62 | after the pipeline, the cells are tagged by position and the labels are one per cell. Only tags changed, so the neighbours are still all in the list |

## Left out

- Random point generation in `Start`, `DelaunayTriangulation3.Generate` and the
  library's `DelaunayCell` wrapper are not part of this model. The cell list
  (`cells`, one `Simplex` per cell) is an input, with the vertices and
  neighbours the library gave it.
- Vertex coordinates, `VertexToVector` and the `Mesh`: no modelled step reads a
  coordinate, and the mesh is built empty.
- `Update`, `OnGUI`, `OnPostRender` and `DrawSimplex`: input handling,
  trigonometry on floats and GL rendering.
- `CheckVertices`, `CheckCells` and `CheckCell`: debug logging only.
- The `GetFilteredCells`/`Filter` block at lines 261-286 is commented out.
- A simplex's vertex and neighbour arrays are `seq` fields. The behaviour only
  reads them after the library fills them, so no update in place is lost.
  Aliasing between the vertex objects of different cells is kept: the
  vertices are shared `Vertex3` objects.
- ExampleDelaunay.ExampleDelaunay3D.GetBoundaryTriangles: the `yield` iterator
  and the lazy `Where` are materialised. Each face is read right after its own
  marking pass, as in an enumeration that reads every face before asking for
  the next. In C#, a face read after the outer sequence has moved on would see
  marks overwritten by later passes. That deferred order is not modelled.
- ExampleDelaunay.ExampleDelaunay3D.GetBoundaryTriangles: requires every
  neighbour to be a listed cell and every listed cell's tag to index the
  labels. This excludes two behaviours of the C# code, which are not modelled.
  - An unlisted neighbour is never tagged by `TagCells`, so line 149 reads
    whatever tag it still carries. If that stale tag is in range, nothing is
    thrown: the code compares against another cell's label and may yield a
    face for it.
  - A tag out of range makes line 149 throw an index exception.

  The tag requirement covers every listed cell, including cells whose slots
  are all hull slots. Line 149 never reads such a cell's tag, because the
  `null` test short-circuits. `LinkedReady` shows the pipeline establishes
  the whole precondition for the library's closed adjacency.
- ExampleDelaunay.ExampleDelaunay3D.Start: the boundary sequence is lazy and is
  never enumerated, so `Start` does not run the extraction. What it would yield
  is stated by `NoBoundaryWithPlaceholder`: nothing.
- ExampleDelaunay.ExampleDelaunay3D.TagCells: states that each tag is the last
  position of its cell. That is what the code computes even for a list with
  repeats. `cells[i].tag == i` is the separate lemma `TagsAreIndices`, which
  needs the cells to be distinct, as the library's cells are.
- The loops of `GetBoundaryTriangles` are split into three methods:
  - `AllFaces`, the loop over cells;
  - `CellFaces`, the loop over one cell's slots;
  - `SlotFace`, the loop body.

  This is the same nested loop, written with one method per level.
