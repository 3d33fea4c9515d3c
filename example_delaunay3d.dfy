// Cell tagging, cell labelling and boundary-face extraction over a finished
// 3D Delaunay tetrahedralization (the `ExampleDelaunay3D` behaviour).
//
// The triangulation is an input: `cells` is the library's cell list, each
// cell's vertex and adjacency arrays are as the library built them.

module ExampleDelaunay {
  import opened Primitives

  // ---------------------------------------------------------------------
  // Sequences
  // ---------------------------------------------------------------------

  /** No element occurs twice in `s`. */
  predicate Distinct<T(==)>(s: seq<T>)
  {
    forall p, q :: 0 <= p < q < |s| ==> s[p] != s[q]
  }

  /** `k` is the last position of `x` among the first `n` elements of `s`. */
  predicate LastPositionBelow<T(==)>(s: seq<T>, n: int, x: T, k: int)
  {
    0 <= k < n <= |s| && s[k] == x && forall m :: k < m < n ==> s[m] != x
  }

  // ---------------------------------------------------------------------
  // Cell tagging
  // ---------------------------------------------------------------------

  /**
   * The state `TagCells` leaves behind: each cell's tag is the last position
   * at which that cell occurs in the list (its only position when the cells
   * are distinct).
   */
  ghost predicate TaggedByPosition(cells: seq<Simplex>)
    reads cells
  {
    forall i :: 0 <= i < |cells| ==> LastPositionBelow(cells, |cells|, cells[i], cells[i].tag)
  }

  /**
   * For the distinct cells of a triangulation, tagging by position gives
   * `cells[i].tag == i`: the tags are exactly 0 .. N-1 with no repeats.
   */
  lemma TagsAreIndices(cells: seq<Simplex>)
    requires Distinct(cells) && TaggedByPosition(cells)
    ensures forall i :: 0 <= i < |cells| ==> cells[i].tag == i
  {
    forall i | 0 <= i < |cells|
      ensures cells[i].tag == i
    {
      assert LastPositionBelow(cells, |cells|, cells[i], cells[i].tag);
    }
  }

  // ---------------------------------------------------------------------
  // Labelling
  // ---------------------------------------------------------------------

  /** The inclusion test: a placeholder that includes no cell. */
  function ShouldInclude(cell: Simplex): (r: bool)
    ensures !r
  {
    false
  }

  /** `Cells.Select(ShouldInclude)`: one label per cell, in cell order. */
  function Labels(cells: seq<Simplex>): (r: seq<bool>)
    ensures |r| == |cells|
    ensures forall i :: 0 <= i < |r| ==> r[i] == ShouldInclude(cells[i])
  {
    if cells == [] then [] else [ShouldInclude(cells[0])] + Labels(cells[1..])
  }

  /**
   * After tagging, looking a cell's label up through its tag is in bounds and
   * yields that cell's own label, duplicated cells included.
   */
  lemma LabelThroughTag(cells: seq<Simplex>, i: int)
    requires TaggedByPosition(cells) && 0 <= i < |cells|
    ensures 0 <= cells[i].tag < |Labels(cells)|
    ensures Labels(cells)[cells[i].tag] == ShouldInclude(cells[i])
  {
    assert LastPositionBelow(cells, |cells|, cells[i], cells[i].tag);
  }

  // ---------------------------------------------------------------------
  // Shared vertices of two cells
  // ---------------------------------------------------------------------

  /** The elements of `a` that also occur in `b`, in `a`'s order. */
  function Common<T(==)>(a: seq<T>, b: seq<T>): seq<T>
  {
    if a == [] then [] else (if a[0] in b then [a[0]] else []) + Common(a[1..], b)
  }

  /** An element is kept exactly when it occurs in both sequences. */
  lemma {:induction false} CommonMembers<T>(a: seq<T>, b: seq<T>)
    ensures forall x :: x in Common(a, b) ==> x in a && x in b
    ensures forall x :: x in a ==> (x in Common(a, b) <==> x in b)
  {
    if a != [] {
      CommonMembers(a[1..], b);
      assert a == [a[0]] + a[1..];
    }
  }

  /** Selecting from a concatenation selects from each part, keeping the order. */
  lemma {:induction false} CommonAppend<T>(a1: seq<T>, a2: seq<T>, b: seq<T>)
    ensures Common(a1 + a2, b) == Common(a1, b) + Common(a2, b)
  {
    if a1 == [] {
      assert a1 + a2 == a2;
    } else {
      var a := a1 + a2;
      var head := if a1[0] in b then [a1[0]] else [];
      assert a[0] == a1[0] && a[1..] == a1[1..] + a2;
      assert Common(a, b) == head + Common(a1[1..] + a2, b);
      CommonAppend(a1[1..], a2, b);
      assert Common(a1, b) == head + Common(a1[1..], b);
    }
  }

  /** Each element of `a` that occurs in `b` is kept as often as `a` holds it; nothing else is kept. */
  lemma {:induction false} CommonCount<T>(a: seq<T>, b: seq<T>, x: T)
    ensures multiset(Common(a, b))[x] == if x in b then multiset(a)[x] else 0
  {
    if a != [] {
      CommonCount(a[1..], b, x);
      assert a == [a[0]] + a[1..];
    }
  }

  /** A sequence without repetitions is as long as the set of its elements. */
  lemma {:induction false} DistinctCardinality<T>(s: seq<T>)
    requires Distinct(s)
    ensures |set x | x in s| == |s|
  {
    if s != [] {
      DistinctCardinality(s[1..]);
      assert (set x | x in s) == {s[0]} + (set x | x in s[1..]);
      assert s[0] !in s[1..];
    }
  }

  /**
   * When `a` has no repeated vertex, the intersection is exactly as long as
   * the set of vertices the two sequences share (three for two tetrahedra
   * meeting across a face).
   */
  lemma {:induction false} CommonSize<T>(a: seq<T>, b: seq<T>)
    requires Distinct(a)
    ensures Distinct(Common(a, b))
    ensures |Common(a, b)| == |set x | x in a && x in b|
  {
    if a != [] {
      CommonSize(a[1..], b);
      assert a[0] !in a[1..];
      CommonMembers(a[1..], b);
      assert a[0] !in Common(a[1..], b);
    }
    var r := Common(a, b);
    DistinctCardinality(r);
    CommonMembers(a, b);
    assert (set x | x in r) == (set x | x in a && x in b);
  }

  /** `a.Where(v => v.Tag == 1)`, read in the current heap. */
  function Marked(a: seq<Vertex3>): (r: seq<Vertex3>)
    reads a
    ensures forall v :: v in r ==> v in a && v.tag == 1
    ensures forall v :: v in a ==> (v in r <==> v.tag == 1)
  {
    if a == [] then [] else (if a[0].tag == 1 then [a[0]] else []) + Marked(a[1..])
  }

  /**
   * Once every vertex of `b` is marked 1 and every other vertex of `a` is
   * not, filtering `a` on the mark is the intersection of `a` with `b`.
   */
  lemma {:induction false} MarkedIsCommon(a: seq<Vertex3>, b: seq<Vertex3>)
    requires forall v :: v in b ==> v.tag == 1
    requires forall v :: v in a && v !in b ==> v.tag != 1
    ensures Marked(a) == Common(a, b)
  {
    if a != [] {
      MarkedIsCommon(a[1..], b);
    }
  }

  // ---------------------------------------------------------------------
  // The complex as the extraction reads it
  // ---------------------------------------------------------------------

  /** What the extraction reads of one cell: its vertices, its neighbours, its tag. */
  datatype CellView = CellView(vertices: seq<Vertex3>, adjacent: seq<Simplex?>, tag: int)

  /** The complex, each cell mapped to what the extraction reads of it. */
  type Complex = map<Simplex, CellView>

  /** All vertex objects of all cells: the marks the extraction may write. */
  function VertexObjects(cells: seq<Simplex>): set<Vertex3>
    reads cells
  {
    set c, v | c in cells && v in c.vertices :: v
  }

  /** `marks` holds every vertex of every cell of the complex. */
  ghost predicate Covers(m: Complex, marks: set<Vertex3>)
  {
    forall c, j :: c in m && 0 <= j < |m[c].vertices| ==> m[c].vertices[j] in marks
  }

  function ViewOf(c: Simplex): CellView
    reads c
  {
    CellView(c.vertices, c.adjacent, c.tag)
  }

  /** The current state of every listed cell. */
  function Snapshot(cells: seq<Simplex>): (m: Complex)
    reads cells
  {
    map c | c in cells :: ViewOf(c)
  }

  lemma SnapshotCovers(cells: seq<Simplex>)
    ensures Covers(Snapshot(cells), VertexObjects(cells))
  {
    forall c, j | c in Snapshot(cells) && 0 <= j < |Snapshot(cells)[c].vertices|
      ensures Snapshot(cells)[c].vertices[j] in VertexObjects(cells)
    {
      assert c.vertices[j] in c.vertices;
    }
  }

  /** Every cell is in the complex and every occupied slot refers to a cell of it. */
  ghost predicate Closed(cells: seq<Simplex>, m: Complex)
  {
    (forall i :: 0 <= i < |cells| ==> cells[i] in m)
    && forall c, k :: c in m && 0 <= k < |m[c].adjacent| && m[c].adjacent[k] != null ==> m[c].adjacent[k] in m
  }

  /** What the extraction needs: a closed complex whose tags all index the labels. */
  ghost predicate Ready(cells: seq<Simplex>, m: Complex, labels: seq<bool>)
  {
    Closed(cells, m) && forall c :: c in m ==> 0 <= m[c].tag < |labels|
  }

  /** A slot of the adjacency array of one cell: (cell position, face index). */
  datatype Slot = Slot(cell: nat, side: nat)

  /** The number of adjacency slots of the cell at position `i`; 0 past the list. */
  ghost function Arity(cells: seq<Simplex>, m: Complex, i: nat): nat
  {
    if i < |cells| && cells[i] in m then |m[cells[i]].adjacent| else 0
  }

  /** `s` names an adjacency slot that holds a neighbouring cell of the complex. */
  ghost predicate Occupied(cells: seq<Simplex>, m: Complex, s: Slot)
  {
    s.cell < |cells| && cells[s.cell] in m
    && s.side < |m[cells[s.cell]].adjacent|
    && m[cells[s.cell]].adjacent[s.side] != null
    && m[cells[s.cell]].adjacent[s.side] in m
  }

  ghost function Neighbour(cells: seq<Simplex>, m: Complex, s: Slot): Simplex
    requires Occupied(cells, m, s)
  {
    m[cells[s.cell]].adjacent[s.side]
  }

  /**
   * Slot `s` yields a boundary face: it holds a neighbour, and the labels
   * found through the two cells' tags differ.
   */
  ghost predicate Emits(cells: seq<Simplex>, m: Complex, labels: seq<bool>, s: Slot)
  {
    Occupied(cells, m, s)
    && 0 <= m[cells[s.cell]].tag < |labels|
    && 0 <= m[Neighbour(cells, m, s)].tag < |labels|
    && labels[m[cells[s.cell]].tag] != labels[m[Neighbour(cells, m, s)].tag]
  }

  /** The emitting slots among the first `k` slots of cell `i`, in slot order. */
  ghost function CellSlots(cells: seq<Simplex>, m: Complex, labels: seq<bool>, i: nat, k: nat): seq<Slot>
  {
    if k == 0 then []
    else CellSlots(cells, m, labels, i, k - 1)
         + (if Emits(cells, m, labels, Slot(i, k - 1)) then [Slot(i, k - 1)] else [])
  }

  /** The emitting slots of the first `n` cells, in cell order, then slot order. */
  ghost function SlotsUpTo(cells: seq<Simplex>, m: Complex, labels: seq<bool>, n: nat): seq<Slot>
  {
    if n == 0 then []
    else SlotsUpTo(cells, m, labels, n - 1) + CellSlots(cells, m, labels, n - 1, Arity(cells, m, n - 1))
  }

  lemma {:induction false} CellSlotsSound(cells: seq<Simplex>, m: Complex, labels: seq<bool>, i: nat, k: nat)
    ensures forall s :: s in CellSlots(cells, m, labels, i, k) ==> s.cell == i && s.side < k && Emits(cells, m, labels, s)
  {
    if k > 0 {
      CellSlotsSound(cells, m, labels, i, k - 1);
    }
  }

  lemma {:induction false} SlotsUpToSound(cells: seq<Simplex>, m: Complex, labels: seq<bool>, n: nat)
    ensures forall s :: s in SlotsUpTo(cells, m, labels, n) ==> s.cell < n && Emits(cells, m, labels, s)
  {
    if n > 0 {
      SlotsUpToSound(cells, m, labels, n - 1);
      CellSlotsSound(cells, m, labels, n - 1, Arity(cells, m, n - 1));
    }
  }

  /** The slots the extraction emits a face for, in emission order. */
  ghost function BoundarySlots(cells: seq<Simplex>, m: Complex, labels: seq<bool>): seq<Slot>
  {
    SlotsUpTo(cells, m, labels, |cells|)
  }

  /** The slots emitted before slot `k` of cell `i` is examined. */
  ghost function EmittedBefore(cells: seq<Simplex>, m: Complex, labels: seq<bool>, i: nat, k: nat): seq<Slot>
  {
    SlotsUpTo(cells, m, labels, i) + CellSlots(cells, m, labels, i, k)
  }

  lemma EmittedBeforeFirst(cells: seq<Simplex>, m: Complex, labels: seq<bool>, i: nat)
    ensures EmittedBefore(cells, m, labels, i, 0) == SlotsUpTo(cells, m, labels, i)
    ensures EmittedBefore(cells, m, labels, i, Arity(cells, m, i)) == SlotsUpTo(cells, m, labels, i + 1)
  {
    assert SlotsUpTo(cells, m, labels, i) + [] == SlotsUpTo(cells, m, labels, i);
  }

  /**
   * Slot `k` of cell `i` can be examined: the cell and the neighbour in the
   * slot, if any, are in the complex and their tags index the labels.
   */
  ghost predicate SlotReady(cells: seq<Simplex>, m: Complex, labels: seq<bool>, i: nat, k: nat)
  {
    i < |cells| && cells[i] in m && k < |m[cells[i]].adjacent| && 0 <= m[cells[i]].tag < |labels|
    && (m[cells[i]].adjacent[k] != null ==>
          m[cells[i]].adjacent[k] in m && 0 <= m[m[cells[i]].adjacent[k]].tag < |labels|)
  }

  /** In a closed complex whose tags index the labels, every slot can be examined. */
  lemma ReadySlot(cells: seq<Simplex>, m: Complex, labels: seq<bool>, i: nat, k: nat)
    requires Ready(cells, m, labels) && i < |cells| && k < |m[cells[i]].adjacent|
    ensures SlotReady(cells, m, labels, i, k)
  {
  }

  /**
   * Examining slot `k` of cell `i`: a null slot is skipped, a neighbour with
   * the same label is skipped, and any other slot is appended.
   */
  lemma EmittedBeforeNext(cells: seq<Simplex>, m: Complex, labels: seq<bool>, i: nat, k: nat)
    requires SlotReady(cells, m, labels, i, k)
    ensures EmittedBefore(cells, m, labels, i, k + 1) ==
              if m[cells[i]].adjacent[k] == null
                 || labels[m[cells[i]].tag] == labels[m[m[cells[i]].adjacent[k]].tag]
              then EmittedBefore(cells, m, labels, i, k)
              else EmittedBefore(cells, m, labels, i, k) + [Slot(i, k)]
  {
    if m[cells[i]].adjacent[k] != null {
      assert Occupied(cells, m, Slot(i, k));
    }
  }

  /** The face emitted for slot `s`: the cell's vertices shared with the neighbour. */
  ghost function FaceAt(cells: seq<Simplex>, m: Complex, s: Slot): seq<Vertex3>
  {
    if Occupied(cells, m, s) then Common(m[cells[s.cell]].vertices, m[Neighbour(cells, m, s)].vertices)
    else []
  }

  /** The faces emitted for a sequence of slots, in order. */
  ghost function Faces(cells: seq<Simplex>, m: Complex, slots: seq<Slot>): seq<seq<Vertex3>>
  {
    if slots == [] then []
    else Faces(cells, m, slots[..|slots| - 1]) + [FaceAt(cells, m, slots[|slots| - 1])]
  }

  /** Emitting one more slot appends its face. */
  lemma FacesSnoc(cells: seq<Simplex>, m: Complex, slots: seq<Slot>, s: Slot)
    ensures Faces(cells, m, slots + [s]) == Faces(cells, m, slots) + [FaceAt(cells, m, s)]
  {
    assert (slots + [s])[..|slots|] == slots;
  }

  /**
   * Examining slot `k` of cell `i` appends the face it shares with its
   * neighbour when the slot emits, and nothing otherwise.
   */
  lemma FacesNext(cells: seq<Simplex>, m: Complex, labels: seq<bool>, i: nat, k: nat)
    requires SlotReady(cells, m, labels, i, k)
    ensures Faces(cells, m, EmittedBefore(cells, m, labels, i, k + 1)) ==
              if m[cells[i]].adjacent[k] == null
                 || labels[m[cells[i]].tag] == labels[m[m[cells[i]].adjacent[k]].tag]
              then Faces(cells, m, EmittedBefore(cells, m, labels, i, k))
              else Faces(cells, m, EmittedBefore(cells, m, labels, i, k))
                   + [Common(m[cells[i]].vertices, m[m[cells[i]].adjacent[k]].vertices)]
  {
    EmittedBeforeNext(cells, m, labels, i, k);
    if m[cells[i]].adjacent[k] != null {
      assert Occupied(cells, m, Slot(i, k));
      FacesSnoc(cells, m, EmittedBefore(cells, m, labels, i, k), Slot(i, k));
    }
  }

  /** One face per slot, face `j` belonging to slot `j`. */
  lemma {:induction false} FacesMatchSlots(cells: seq<Simplex>, m: Complex, slots: seq<Slot>)
    ensures |Faces(cells, m, slots)| == |slots|
    ensures forall j :: 0 <= j < |slots| ==> Faces(cells, m, slots)[j] == FaceAt(cells, m, slots[j])
  {
    if slots != [] {
      var init := slots[..|slots| - 1];
      FacesMatchSlots(cells, m, init);
      var faces := Faces(cells, m, slots);
      assert faces == Faces(cells, m, init) + [FaceAt(cells, m, slots[|slots| - 1])];
      forall j | 0 <= j < |slots|
        ensures faces[j] == FaceAt(cells, m, slots[j])
      {
        if j < |init| {
          assert slots[j] == init[j] && faces[j] == Faces(cells, m, init)[j];
        }
      }
    }
  }

  lemma {:induction false} CellSlotsComplete(cells: seq<Simplex>, m: Complex, labels: seq<bool>, i: nat, k: nat, s: Slot)
    requires s.cell == i && s.side < k && Emits(cells, m, labels, s)
    ensures s in CellSlots(cells, m, labels, i, k)
  {
    if s.side < k - 1 {
      CellSlotsComplete(cells, m, labels, i, k - 1, s);
    }
  }

  lemma {:induction false} SlotsUpToComplete(cells: seq<Simplex>, m: Complex, labels: seq<bool>, n: nat, s: Slot)
    requires s.cell < n && Emits(cells, m, labels, s)
    ensures s in SlotsUpTo(cells, m, labels, n)
  {
    if s.cell < n - 1 {
      SlotsUpToComplete(cells, m, labels, n - 1, s);
    } else {
      CellSlotsComplete(cells, m, labels, n - 1, Arity(cells, m, n - 1), s);
    }
  }

  /**
   * A slot is emitted exactly when it holds a neighbour whose label differs:
   * hull slots (`null`) and equally labelled neighbours are skipped, and
   * every other slot of every cell is emitted.
   */
  lemma BoundarySlotsExactly(cells: seq<Simplex>, m: Complex, labels: seq<bool>, s: Slot)
    ensures s in BoundarySlots(cells, m, labels) <==> Emits(cells, m, labels, s)
  {
    SlotsUpToSound(cells, m, labels, |cells|);
    if Emits(cells, m, labels, s) {
      SlotsUpToComplete(cells, m, labels, |cells|, s);
    }
  }

  /** Emission order: by cell position, then by slot index. */
  predicate Before(s: Slot, t: Slot)
  {
    s.cell < t.cell || (s.cell == t.cell && s.side < t.side)
  }

  lemma {:induction false} CellSlotsOrdered(cells: seq<Simplex>, m: Complex, labels: seq<bool>, i: nat, k: nat)
    ensures forall p, q :: 0 <= p < q < |CellSlots(cells, m, labels, i, k)| ==>
              Before(CellSlots(cells, m, labels, i, k)[p], CellSlots(cells, m, labels, i, k)[q])
  {
    if k > 0 {
      CellSlotsOrdered(cells, m, labels, i, k - 1);
      CellSlotsSound(cells, m, labels, i, k - 1);
      var prev := CellSlots(cells, m, labels, i, k - 1);
      assert forall p :: 0 <= p < |prev| ==> prev[p] in prev;
    }
  }

  lemma {:induction false} SlotsUpToOrdered(cells: seq<Simplex>, m: Complex, labels: seq<bool>, n: nat)
    ensures forall p, q :: 0 <= p < q < |SlotsUpTo(cells, m, labels, n)| ==>
              Before(SlotsUpTo(cells, m, labels, n)[p], SlotsUpTo(cells, m, labels, n)[q])
  {
    if n > 0 {
      SlotsUpToOrdered(cells, m, labels, n - 1);
      var prev := SlotsUpTo(cells, m, labels, n - 1);
      var last := CellSlots(cells, m, labels, n - 1, Arity(cells, m, n - 1));
      CellSlotsOrdered(cells, m, labels, n - 1, Arity(cells, m, n - 1));
      SlotsUpToSound(cells, m, labels, n - 1);
      CellSlotsSound(cells, m, labels, n - 1, Arity(cells, m, n - 1));
      assert forall p :: 0 <= p < |prev| ==> prev[p] in prev;
      assert forall q :: 0 <= q < |last| ==> last[q] in last;
    }
  }

  /**
   * The boundary slots come strictly in cell order, then slot order; in
   * particular no slot is emitted twice.
   */
  lemma BoundarySlotsOrdered(cells: seq<Simplex>, m: Complex, labels: seq<bool>)
    ensures forall p, q :: 0 <= p < q < |BoundarySlots(cells, m, labels)| ==>
              Before(BoundarySlots(cells, m, labels)[p], BoundarySlots(cells, m, labels)[q])
  {
    SlotsUpToOrdered(cells, m, labels, |cells|);
  }

  /** All labels are equal. */
  predicate Uniform(labels: seq<bool>)
  {
    forall i, j :: 0 <= i < |labels| && 0 <= j < |labels| ==> labels[i] == labels[j]
  }

  lemma {:induction false} UniformCellSlots(cells: seq<Simplex>, m: Complex, labels: seq<bool>, i: nat, k: nat)
    requires Uniform(labels)
    ensures CellSlots(cells, m, labels, i, k) == []
  {
    if k > 0 {
      UniformCellSlots(cells, m, labels, i, k - 1);
    }
  }

  lemma {:induction false} UniformSlotsUpTo(cells: seq<Simplex>, m: Complex, labels: seq<bool>, n: nat)
    requires Uniform(labels)
    ensures SlotsUpTo(cells, m, labels, n) == []
  {
    if n > 0 {
      UniformSlotsUpTo(cells, m, labels, n - 1);
      UniformCellSlots(cells, m, labels, n - 1, Arity(cells, m, n - 1));
    }
  }

  /** When all labels agree there is no boundary: nothing is emitted. */
  lemma UniformLabelsNoBoundary(cells: seq<Simplex>, m: Complex, labels: seq<bool>)
    requires Uniform(labels)
    ensures BoundarySlots(cells, m, labels) == []
    ensures Faces(cells, m, BoundarySlots(cells, m, labels)) == []
  {
    UniformSlotsUpTo(cells, m, labels, |cells|);
  }

  /** With the placeholder inclusion test the boundary is empty for every complex. */
  lemma NoBoundaryWithPlaceholder(cells: seq<Simplex>, m: Complex)
    ensures BoundarySlots(cells, m, Labels(cells)) == []
    ensures Faces(cells, m, BoundarySlots(cells, m, Labels(cells))) == []
  {
    UniformLabelsNoBoundary(cells, m, Labels(cells));
  }

  /** Adjacency is mutual: a neighbour lists the cell back in one of its slots. */
  ghost predicate Symmetric(m: Complex)
  {
    forall c, k :: c in m && 0 <= k < |m[c].adjacent| && m[c].adjacent[k] != null ==>
      m[c].adjacent[k] in m && c in m[m[c].adjacent[k]].adjacent
  }

  /**
   * With mutual adjacency every boundary slot has a partner: the neighbour's
   * slot back to the cell, which is emitted too, with a face holding the
   * same vertices.
   */
  lemma EmittedFromBothSides(cells: seq<Simplex>, m: Complex, labels: seq<bool>, s: Slot)
    requires Symmetric(m)
    requires forall c :: c in m ==> c in cells
    requires s in BoundarySlots(cells, m, labels)
    ensures Emits(cells, m, labels, s)
    ensures exists t :: t in BoundarySlots(cells, m, labels) && t != s
              && Occupied(cells, m, t)
              && cells[t.cell] == Neighbour(cells, m, s) && Neighbour(cells, m, t) == cells[s.cell]
              && forall v :: v in FaceAt(cells, m, t) <==> v in FaceAt(cells, m, s)
  {
    BoundarySlotsExactly(cells, m, labels, s);
    var c := cells[s.cell];
    var n := Neighbour(cells, m, s);
    var j :| 0 <= j < |cells| && cells[j] == n;
    var k :| 0 <= k < |m[n].adjacent| && m[n].adjacent[k] == c;
    var t := Slot(j, k);
    assert Occupied(cells, m, t);
    assert Emits(cells, m, labels, t);
    BoundarySlotsExactly(cells, m, labels, t);
    CommonMembers(m[c].vertices, m[n].vertices);
    CommonMembers(m[n].vertices, m[c].vertices);
  }

  /**
   * Two tetrahedra meeting across a face share three vertices; the face
   * emitted between them then has exactly those three.
   */
  lemma FaceArity(cells: seq<Simplex>, m: Complex, s: Slot)
    requires Occupied(cells, m, s)
    requires Distinct(m[cells[s.cell]].vertices)
    requires |set v | v in m[cells[s.cell]].vertices && v in m[Neighbour(cells, m, s)].vertices| == 3
    ensures |FaceAt(cells, m, s)| == 3
  {
    CommonSize(m[cells[s.cell]].vertices, m[Neighbour(cells, m, s)].vertices);
  }

  /** Every neighbour of a listed cell is listed too, read in the current heap. */
  ghost predicate Linked(cells: seq<Simplex>)
    reads cells
  {
    forall c, k :: c in cells && 0 <= k < |c.adjacent| && c.adjacent[k] != null ==> c.adjacent[k] in cells
  }

  /**
   * Once the cells are tagged by position and labelled one per cell, every
   * tag the extraction looks up is an index of the labels.
   */
  lemma LinkedReady(cells: seq<Simplex>, labels: seq<bool>)
    requires Linked(cells) && TaggedByPosition(cells) && labels == Labels(cells)
    ensures Ready(cells, Snapshot(cells), labels)
  {
    var m := Snapshot(cells);
    forall c | c in m
      ensures 0 <= m[c].tag < |labels|
    {
      var i :| 0 <= i < |cells| && cells[i] == c;
      LabelThroughTag(cells, i);
    }
  }

  // ---------------------------------------------------------------------
  // The behaviour object
  // ---------------------------------------------------------------------

  class ExampleDelaunay3D {
    /** The triangulation's cell list (`delaunay.Cells`). */
    const cells: seq<Simplex>
    /** One label per cell, indexed by tag; `null` until the cells are labelled. */
    var cellLabels: array?<bool>

    constructor (cells: seq<Simplex>)
      ensures this.cells == cells && cellLabels == null
    {
      this.cells := cells;
      cellLabels := null;
    }

    /** Tags each cell with its position in the cell list. */
    method TagCells()
      modifies cells`tag
      ensures TaggedByPosition(cells)
    {
      for i := 0 to |cells|
        invariant forall j :: 0 <= j < i ==> LastPositionBelow(cells, i, cells[j], cells[j].tag)
      {
        cells[i].tag := i;
      }
    }

    /** Labels the cells with the inclusion test, one array entry per cell. */
    method LabelCells()
      modifies this
      ensures cellLabels != null && fresh(cellLabels)
      ensures cellLabels[..] == Labels(cells)
    {
      var labels := Labels(cells);
      cellLabels := new bool[|labels|](i requires 0 <= i < |labels| => labels[i]);
    }

    /**
     * The vertices of `a` that also occur in `b`, found by marking: every
     * vertex of `a` gets 0, then every vertex of `b` gets 1, then the vertices
     * of `a` marked 1 are kept. Only the marks of those vertices change.
     */
    static method Intersection(a: seq<Vertex3>, b: seq<Vertex3>) returns (r: seq<Vertex3>)
      modifies a, b
      ensures r == Common(a, b)
      ensures forall j :: 0 <= j < |b| ==> b[j].tag == 1
      ensures forall j :: 0 <= j < |a| && a[j] !in b ==> a[j].tag == 0
    {
      for i := 0 to |a|
        invariant forall j :: 0 <= j < i ==> a[j].tag == 0
      {
        a[i].tag := 0;
      }
      for i := 0 to |b|
        invariant forall j :: 0 <= j < i ==> b[j].tag == 1
        invariant forall j :: 0 <= j < |a| && a[j] !in b[..i] ==> a[j].tag == 0
      {
        b[i].tag := 1;
        assert b[..i + 1] == b[..i] + [b[i]];
      }
      assert b[..|b|] == b;
      MarkedIsCommon(a, b);
      r := Marked(a);
    }

    /**
     * The faces between differently labelled neighbours, cell by cell and
     * slot by slot, each computed right after its own marking pass.
     */
    method GetBoundaryTriangles() returns (faces: seq<seq<Vertex3>>)
      requires cellLabels != null && Ready(cells, Snapshot(cells), cellLabels[..])
      modifies VertexObjects(cells)
      ensures faces == Faces(cells, old(Snapshot(cells)), BoundarySlots(cells, old(Snapshot(cells)), old(cellLabels[..])))
    {
      var labels := cellLabels;
      ghost var m := Snapshot(cells);
      ghost var marks := VertexObjects(cells);
      SnapshotCovers(cells);
      faces := AllFaces(labels, m, labels[..], marks);
    }

    /** The outer loop of the extraction: every cell, in list order. */
    method AllFaces(labels: array<bool>, ghost m: Complex, ghost L: seq<bool>, ghost marks: set<Vertex3>)
      returns (faces: seq<seq<Vertex3>>)
      requires forall c :: c in m ==> ViewOf(c) == m[c]
      requires labels[..] == L && Covers(m, marks) && Ready(cells, m, L)
      modifies marks
      ensures faces == Faces(cells, m, BoundarySlots(cells, m, L))
    {
      faces := [];
      for i := 0 to |cells|
        invariant forall c :: c in m ==> ViewOf(c) == m[c]
        invariant labels[..] == L
        invariant faces == Faces(cells, m, SlotsUpTo(cells, m, L, i))
      {
        faces := CellFaces(labels, i, m, L, marks, faces);
      }
    }

    /** The inner loop of the extraction: the slots of the cell at position `i`, in order. */
    method CellFaces(labels: array<bool>, i: nat, ghost m: Complex, ghost L: seq<bool>,
                     ghost marks: set<Vertex3>, faces: seq<seq<Vertex3>>)
      returns (faces': seq<seq<Vertex3>>)
      requires forall c :: c in m ==> ViewOf(c) == m[c]
      requires labels[..] == L && Covers(m, marks) && Ready(cells, m, L) && i < |cells|
      requires faces == Faces(cells, m, SlotsUpTo(cells, m, L, i))
      modifies marks
      ensures faces' == Faces(cells, m, SlotsUpTo(cells, m, L, i + 1))
    {
      var s0 := cells[i];
      EmittedBeforeFirst(cells, m, L, i);
      faces' := faces;
      for k := 0 to |s0.adjacent|
        invariant forall c :: c in m ==> ViewOf(c) == m[c]
        invariant labels[..] == L
        invariant faces' == Faces(cells, m, EmittedBefore(cells, m, L, i, k))
      {
        ReadySlot(cells, m, L, i, k);
        faces' := SlotFace(labels, i, k, m, L, marks, faces');
      }
    }

    /**
     * The loop body of the extraction for slot `k` of the cell at position
     * `i`: a hull slot or an equally labelled neighbour is skipped, any
     * other neighbour adds the face the two cells share.
     */
    method SlotFace(labels: array<bool>, i: nat, k: nat, ghost m: Complex, ghost L: seq<bool>,
                    ghost marks: set<Vertex3>, faces: seq<seq<Vertex3>>)
      returns (faces': seq<seq<Vertex3>>)
      requires labels[..] == L && SlotReady(cells, m, L, i, k) && Covers(m, marks)
      requires ViewOf(cells[i]) == m[cells[i]]
      requires m[cells[i]].adjacent[k] != null ==> ViewOf(m[cells[i]].adjacent[k]) == m[m[cells[i]].adjacent[k]]
      requires faces == Faces(cells, m, EmittedBefore(cells, m, L, i, k))
      modifies marks
      ensures faces' == Faces(cells, m, EmittedBefore(cells, m, L, i, k + 1))
    {
      var s0 := cells[i];
      var s1 := s0.adjacent[k];
      FacesNext(cells, m, L, i, k);
      if s1 == null || labels[s0.tag] == labels[s1.tag] {
        return faces;
      }
      var face := Intersection(s0.vertices, s1.vertices);
      faces' := faces + [face];
    }

    /**
     * The extraction pipeline run once the triangulation is built: tag the
     * cells, then label them. The boundary sequence it then asks for is
     * lazy and never enumerated, so no vertex mark changes. Only the tags
     * change, so the adjacency stays linked, and `LinkedReady` then gives
     * the extraction's precondition; `NoBoundaryWithPlaceholder` states
     * that the sequence would be empty.
     */
    method Start()
      requires Linked(cells)
      modifies this, cells`tag
      ensures TaggedByPosition(cells)
      ensures cellLabels != null && cellLabels[..] == Labels(cells)
      ensures Linked(cells)
    {
      TagCells();
      LabelCells();
    }
  }
}
