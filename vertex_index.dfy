/**
 * Vertex and edge indexing of the voxel mesher (src/vertex_index.rs): the
 * table of edges on each cube face, the renumbering of those edges as seen
 * from the cell across a face, cell-coordinate offsets, and the vertex index
 * with its `neighbor` operation.
 */
module VertexIndexing {

  import opened BitSets
  import opened Wrappers
  import opened CubeGeometry

  /** The edges on each face, in the face order X0, X1, Y0, Y1, Z0, Z1. */
  const EdgesOnFace: seq<BitSet> := [
    FromFourBits(1, 2, 7, 8),
    FromFourBits(4, 5, 10, 11),
    FromFourBits(0, 2, 5, 6),
    FromFourBits(3, 8, 9, 11),
    FromFourBits(0, 1, 3, 4),
    FromFourBits(6, 7, 9, 10)
  ]

  /** All twelve edges of a cell (bits 0 to 11). */
  const AllEdges: BitSet := BitSet(0xfff)

  /** The face-specific shift that renumbers the edges on `face` as edges of the neighbour. */
  function Renumber(face: nat, bits: bv32): bv32
    requires IsFace(face)
  {
    match face
    case 0 => bits << 3
    case 1 => bits >> 3
    case 2 => ((bits & 0x41) << 3) | ((bits & 0x24) << 6)
    case 3 => ((bits & 0x208) >> 3) | ((bits & 0x900) >> 6)
    case 4 => bits << 6
    case 5 => bits >> 6
  }

  /**
   * `egdes_on_neighbor`: the edges of `edges` that lie on `face`, numbered as
   * the cell on the other side of that face numbers them.
   */
  function EdgesOnNeighbor(face: nat, edges: BitSet): BitSet
    requires IsFace(face)
  {
    BitSet(Renumber(face, edges.Intersect(EdgesOnFace[face]).AsU32()))
  }

  /** A cell coordinate, `[usize; 3]`. */
  type Index = s: seq<nat> | |s| == 3 witness [0, 0, 0]

  /** `offset`: the component-wise sum. */
  function Offset(idx: Index, delta: Index): (r: Index)
    ensures forall k | 0 <= k < 3 :: r[k] == idx[k] + delta[k]
  {
    [idx[0] + delta[0], idx[1] + delta[1], idx[2] + delta[2]]
  }

  /** No component of `delta` exceeds that of `idx`, so `usize` subtraction does not underflow. */
  predicate NoUnderflow(idx: Index, delta: Index)
  {
    delta[0] <= idx[0] && delta[1] <= idx[1] && delta[2] <= idx[2]
  }

  /** `neg_offset`: the component-wise difference; adding `delta` back gives `idx`. */
  function NegOffset(idx: Index, delta: Index): (r: Index)
    requires NoUnderflow(idx, delta)
    ensures forall k | 0 <= k < 3 :: r[k] + delta[k] == idx[k]
  {
    [idx[0] - delta[0], idx[1] - delta[1], idx[2] - delta[2]]
  }

  /**
   * A step of one cell along the axis of `face`, towards it: up for a face
   * on the high side, down for one on the low side.
   */
  function Step(index: Index, face: nat): (r: Index)
    requires IsFace(face) && (Side(face) == 1 || index[Normal(face)] >= 1)
    ensures Side(face) == 1 ==> r[Normal(face)] == index[Normal(face)] + 1
    ensures Side(face) == 0 ==> r[Normal(face)] + 1 == index[Normal(face)]
    ensures forall k | 0 <= k < 3 && k != Normal(face) :: r[k] == index[k]
  {
    var a := Normal(face);
    index[a := if Side(face) == 1 then index[a] + 1 else index[a] - 1]
  }

  /** The vertex formed by the crossings on `edges`, as seen from cell `index`. */
  datatype VertexIndex = VertexIndex(edges: BitSet, index: Index) {

    /**
     * Crossing `face` does not step a coordinate below 0: the face is on the
     * high side, or no edge lies on it (no step is taken), or the coordinate
     * on its axis is positive.
     */
    predicate CanCross(face: nat)
      requires IsFace(face)
    {
      Side(face) == 1 || EdgesOnNeighbor(face, edges).Empty() || index[Normal(face)] >= 1
    }

    /**
     * This vertex as the cell across `face` sees it: `None` when none of its
     * edges lies on that face; otherwise the renumbered edges, and the
     * cell one step along the face's axis, towards the face.
     */
    function Across(face: nat): (r: Option<VertexIndex>)
      requires IsFace(face) && CanCross(face)
      ensures r.None? <==> edges.Intersect(EdgesOnFace[face]).Empty()
      ensures r.Some? ==> r.value.edges == EdgesOnNeighbor(face, edges)
      ensures r.Some? ==> r.value.index == Step(index, face)
    {
      var moved := EdgesOnNeighbor(face, edges);
      Renumbering(face, edges);
      if moved.Empty() then None
      else Some(VertexIndex(moved, Step(index, face)))
    }

    /** `VertexIndex::neighbor`. */
    method Neighbor(face: nat) returns (r: Option<VertexIndex>)
      requires IsFace(face) && CanCross(face)
      ensures r == Across(face)
    {
      var neighborEdgeSet := EdgesOnNeighbor(face, edges);
      if neighborEdgeSet.Empty() {
        return None;
      }
      var off := new nat[3](_ => 0);
      off[face / 2] := 1;
      var neighborIndex: Index;
      if face % 2 == 1 {
        neighborIndex := Offset(index, off[..]);
      } else {
        neighborIndex := NegOffset(index, off[..]);
      }
      assert neighborIndex == Step(index, face);
      return Some(VertexIndex(neighborEdgeSet, neighborIndex));
    }
  }

  /** `VarIndex`: a vertex index, or a plain index into the output. */
  datatype VarIndex = VertexIdx(vertex: VertexIndex) | PlainIdx(index: nat)

  // ----- The face table -----

  /** The table agrees with the cube diagram: edge `e` is listed for face `f` exactly when it bounds that face. */
  lemma FaceTableMatchesDiagram(f: nat, e: nat)
    requires IsFace(f) && IsEdge(e)
    ensures EdgesOnFace[f].Contains(e) <==> OnFace(e, f)
  {
  }

  /** Each entry holds exactly four edges, and no bit above 11. */
  lemma FaceTableEntriesHaveFourEdges(f: nat)
    requires IsFace(f)
    ensures EdgesOnFace[f].SubsetOf(AllEdges)
    ensures EdgesOnFace[f].CountBelow(12) == 4
  {
  }

  /** The number of entries among the first `n` faces that list edge `e`. */
  function FacesListing(e: nat, n: nat): nat
    requires IsEdge(e) && n <= 6
  {
    if n == 0 then 0 else FacesListing(e, n - 1) + (if EdgesOnFace[n - 1].Contains(e) then 1 else 0)
  }

  /** The entries among the first `n` that list `e` are those of the faces `e` bounds. */
  lemma {:induction false} ListingCountsFaces(e: nat, n: nat)
    requires IsEdge(e) && n <= 6
    ensures FacesListing(e, n) == |FacesBelow(e, n)|
  {
    if n > 0 {
      ListingCountsFaces(e, n - 1);
      FaceTableMatchesDiagram(n - 1, e);
      FacesBelowStep(e, n);
    }
  }

  /** Every edge 0..11 is listed in exactly two entries: each cube edge borders two faces. */
  lemma EveryEdgeListedTwice(e: nat)
    requires IsEdge(e)
    ensures FacesListing(e, 6) == 2
  {
    ListingCountsFaces(e, 6);
    EdgeBoundsTwoFaces(e);
  }

  // ----- The renumbering across a face -----

  /** Face X0: its edges land on face X1, and face X1's renumbering brings them back. */
  lemma RenumberX0(edges: BitSet)
    ensures EdgesOnNeighbor(0, edges).SubsetOf(EdgesOnFace[1])
    ensures EdgesOnNeighbor(1, EdgesOnNeighbor(0, edges)) == edges.Intersect(EdgesOnFace[0])
    ensures EdgesOnNeighbor(0, edges) == EdgesOnNeighbor(0, edges.Intersect(EdgesOnFace[0]))
    ensures EdgesOnNeighbor(0, edges).Empty() <==> edges.Intersect(EdgesOnFace[0]).Empty()
  {
  }

  /** Face X1: its edges land on face X0, and face X0's renumbering brings them back. */
  lemma RenumberX1(edges: BitSet)
    ensures EdgesOnNeighbor(1, edges).SubsetOf(EdgesOnFace[0])
    ensures EdgesOnNeighbor(0, EdgesOnNeighbor(1, edges)) == edges.Intersect(EdgesOnFace[1])
    ensures EdgesOnNeighbor(1, edges) == EdgesOnNeighbor(1, edges.Intersect(EdgesOnFace[1]))
    ensures EdgesOnNeighbor(1, edges).Empty() <==> edges.Intersect(EdgesOnFace[1]).Empty()
  {
  }

  /** Face Y0: its edges land on face Y1, and face Y1's renumbering brings them back. */
  lemma RenumberY0(edges: BitSet)
    ensures EdgesOnNeighbor(2, edges).SubsetOf(EdgesOnFace[3])
    ensures EdgesOnNeighbor(3, EdgesOnNeighbor(2, edges)) == edges.Intersect(EdgesOnFace[2])
    ensures EdgesOnNeighbor(2, edges) == EdgesOnNeighbor(2, edges.Intersect(EdgesOnFace[2]))
    ensures EdgesOnNeighbor(2, edges).Empty() <==> edges.Intersect(EdgesOnFace[2]).Empty()
  {
  }

  /** Face Y1: its edges land on face Y0, and face Y0's renumbering brings them back. */
  lemma RenumberY1(edges: BitSet)
    ensures EdgesOnNeighbor(3, edges).SubsetOf(EdgesOnFace[2])
    ensures EdgesOnNeighbor(2, EdgesOnNeighbor(3, edges)) == edges.Intersect(EdgesOnFace[3])
    ensures EdgesOnNeighbor(3, edges) == EdgesOnNeighbor(3, edges.Intersect(EdgesOnFace[3]))
    ensures EdgesOnNeighbor(3, edges).Empty() <==> edges.Intersect(EdgesOnFace[3]).Empty()
  {
  }

  /** Face Z0: its edges land on face Z1, and face Z1's renumbering brings them back. */
  lemma RenumberZ0(edges: BitSet)
    ensures EdgesOnNeighbor(4, edges).SubsetOf(EdgesOnFace[5])
    ensures EdgesOnNeighbor(5, EdgesOnNeighbor(4, edges)) == edges.Intersect(EdgesOnFace[4])
    ensures EdgesOnNeighbor(4, edges) == EdgesOnNeighbor(4, edges.Intersect(EdgesOnFace[4]))
    ensures EdgesOnNeighbor(4, edges).Empty() <==> edges.Intersect(EdgesOnFace[4]).Empty()
  {
  }

  /** Face Z1: its edges land on face Z0, and face Z0's renumbering brings them back. */
  lemma RenumberZ1(edges: BitSet)
    ensures EdgesOnNeighbor(5, edges).SubsetOf(EdgesOnFace[4])
    ensures EdgesOnNeighbor(4, EdgesOnNeighbor(5, edges)) == edges.Intersect(EdgesOnFace[5])
    ensures EdgesOnNeighbor(5, edges) == EdgesOnNeighbor(5, edges.Intersect(EdgesOnFace[5]))
    ensures EdgesOnNeighbor(5, edges).Empty() <==> edges.Intersect(EdgesOnFace[5]).Empty()
  {
  }

  /**
   * Across any face: the renumbered edges lie on the neighbour's opposite
   * face; renumbering them back across that face gives the edges on the
   * face; only the edges on the face matter; and the result is empty
   * exactly when no edge lies on the face.
   */
  lemma Renumbering(face: nat, edges: BitSet)
    requires IsFace(face)
    ensures EdgesOnNeighbor(face, edges).SubsetOf(EdgesOnFace[Opposite(face)])
    ensures EdgesOnNeighbor(Opposite(face), EdgesOnNeighbor(face, edges)) == edges.Intersect(EdgesOnFace[face])
    ensures EdgesOnNeighbor(face, edges) == EdgesOnNeighbor(face, edges.Intersect(EdgesOnFace[face]))
    ensures EdgesOnNeighbor(face, edges).Empty() <==> edges.Intersect(EdgesOnFace[face]).Empty()
  {
    if face == 0 {
      RenumberX0(edges);
    } else if face == 1 {
      RenumberX1(edges);
    } else if face == 2 {
      RenumberY0(edges);
    } else if face == 3 {
      RenumberY1(edges);
    } else if face == 4 {
      RenumberZ0(edges);
    } else {
      RenumberZ1(edges);
    }
  }

  /** No bit above 11 is ever produced. */
  lemma NeighborWithinCube(face: nat, edges: BitSet)
    requires IsFace(face)
    ensures EdgesOnNeighbor(face, edges).SubsetOf(AllEdges)
  {
    Renumbering(face, edges);
    FaceTableEntriesHaveFourEdges(Opposite(face));
  }

  /** A full face is renumbered to the full opposite face. */
  lemma NeighborOfFullFace(face: nat)
    requires IsFace(face)
    ensures EdgesOnNeighbor(face, EdgesOnFace[face]) == EdgesOnFace[Opposite(face)]
  {
  }

  /** Two edge sets are renumbered alike exactly when they agree on the face. */
  lemma NeighborSameIff(face: nat, a: BitSet, b: BitSet)
    requires IsFace(face)
    ensures EdgesOnNeighbor(face, a) == EdgesOnNeighbor(face, b)
        <==> a.Intersect(EdgesOnFace[face]) == b.Intersect(EdgesOnFace[face])
  {
    Renumbering(face, a);
    Renumbering(face, b);
  }

  // ----- The renumbering follows the cube diagram -----

  /**
   * The neighbour across `face` holds the mirror image of edge `e` along
   * the face's axis exactly when this cell holds `e`.
   */
  predicate SeesMirror(face: nat, e: nat, edges: BitSet)
    requires IsFace(face) && IsEdge(e) && OnFace(e, face)
  {
    EdgesOnNeighbor(face, edges).Contains(Mirror(e, Normal(face))) <==> edges.Contains(e)
  }

  /** Across face X0, an edge on the face is seen as its mirror image along axis 0. */
  lemma CrossingX0(e: nat, edges: BitSet)
    requires IsEdge(e) && OnFace(e, 0)
    ensures SeesMirror(0, e, edges)
  {
  }

  /** Across face X1, an edge on the face is seen as its mirror image along axis 0. */
  lemma CrossingX1(e: nat, edges: BitSet)
    requires IsEdge(e) && OnFace(e, 1)
    ensures SeesMirror(1, e, edges)
  {
  }

  /** Across face Y0, an edge on the face is seen as its mirror image along axis 1. */
  lemma CrossingY0(e: nat, edges: BitSet)
    requires IsEdge(e) && OnFace(e, 2)
    ensures SeesMirror(2, e, edges)
  {
  }

  /** Across face Y1, an edge on the face is seen as its mirror image along axis 1. */
  lemma CrossingY1(e: nat, edges: BitSet)
    requires IsEdge(e) && OnFace(e, 3)
    ensures SeesMirror(3, e, edges)
  {
  }

  /** Across face Z0, an edge on the face is seen as its mirror image along axis 2. */
  lemma CrossingZ0(e: nat, edges: BitSet)
    requires IsEdge(e) && OnFace(e, 4)
    ensures SeesMirror(4, e, edges)
  {
  }

  /** Across face Z1, an edge on the face is seen as its mirror image along axis 2. */
  lemma CrossingZ1(e: nat, edges: BitSet)
    requires IsEdge(e) && OnFace(e, 5)
    ensures SeesMirror(5, e, edges)
  {
  }

  /**
   * Across any face, an edge on the face is seen as its mirror image along
   * the face's axis, which lies on the opposite face: the neighbour holds
   * that mirror image exactly when this cell holds the edge.
   */
  lemma Crossing(face: nat, e: nat, edges: BitSet)
    requires IsFace(face) && IsEdge(e) && OnFace(e, face)
    ensures OnFace(Mirror(e, Normal(face)), Opposite(face))
    ensures SeesMirror(face, e, edges)
  {
    MirrorOntoOppositeFace(e, face);
    if face == 0 {
      CrossingX0(e, edges);
    } else if face == 1 {
      CrossingX1(e, edges);
    } else if face == 2 {
      CrossingY0(e, edges);
    } else if face == 3 {
      CrossingY1(e, edges);
    } else if face == 4 {
      CrossingZ0(e, edges);
    } else {
      CrossingZ1(e, edges);
    }
  }

  // ----- Offsets -----

  /** `neg_offset` undoes `offset`, and never underflows doing so. */
  lemma OffsetThenNegOffset(idx: Index, delta: Index)
    ensures NoUnderflow(Offset(idx, delta), delta)
    ensures NegOffset(Offset(idx, delta), delta) == idx
  {
    var r := NegOffset(Offset(idx, delta), delta);
    assert r[0] == idx[0] && r[1] == idx[1] && r[2] == idx[2];
  }

  /** `offset` undoes `neg_offset` wherever the latter is defined. */
  lemma NegOffsetThenOffset(idx: Index, delta: Index)
    requires NoUnderflow(idx, delta)
    ensures Offset(NegOffset(idx, delta), delta) == idx
  {
    var r := Offset(NegOffset(idx, delta), delta);
    assert r[0] == idx[0] && r[1] == idx[1] && r[2] == idx[2];
  }

  // ----- Stepping to a neighbouring cell -----

  /** Stepping back through the opposite face is allowed and returns to the cell. */
  lemma StepBack(index: Index, face: nat)
    requires IsFace(face) && (Side(face) == 1 || index[Normal(face)] >= 1)
    ensures Side(Opposite(face)) == 1 || Step(index, face)[Normal(face)] >= 1
    ensures Step(Step(index, face), Opposite(face)) == index
  {
    var r := Step(Step(index, face), Opposite(face));
    assert forall k | 0 <= k < 3 :: r[k] == index[k];
  }

  /**
   * Stepping back from the neighbour, through the opposite face, is always
   * allowed and returns to the original cell, with the edges of the vertex
   * that lie on the shared face.
   */
  lemma AcrossRoundTrip(v: VertexIndex, face: nat)
    requires IsFace(face) && v.CanCross(face) && v.Across(face).Some?
    ensures v.Across(face).value.CanCross(Opposite(face))
    ensures v.Across(face).value.Across(Opposite(face))
         == Some(VertexIndex(v.edges.Intersect(EdgesOnFace[face]), v.index))
  {
    var o := Opposite(face);
    var w := v.Across(face).value;
    var kept := v.edges.Intersect(EdgesOnFace[face]);
    Renumbering(face, v.edges);
    assert EdgesOnNeighbor(o, w.edges) == kept;
    assert !kept.Empty();
    Renumbering(o, w.edges);
    assert !w.edges.Intersect(EdgesOnFace[o]).Empty();
    var back := w.Across(o);
    assert back.Some? && back.value.edges == kept;
    StepBack(v.index, face);
  }

  /**
   * A vertex holding every edge of `face` is seen across it holding every
   * edge of the opposite face.
   */
  lemma AcrossFullFace(v: VertexIndex, face: nat)
    requires IsFace(face) && EdgesOnFace[face].SubsetOf(v.edges) && v.CanCross(face)
    ensures v.Across(face).Some?
    ensures v.Across(face).value.edges == EdgesOnFace[Opposite(face)]
  {
    v.edges.IntersectWithSubset(EdgesOnFace[face]);
    Renumbering(face, v.edges);
    NeighborOfFullFace(face);
  }

  /** The vertex holding all twelve edges of cell [17, 35, 8], stepped across each face in turn. */
  lemma AllEdgesVertexNeighbors()
    ensures VertexIndex(AllEdges, [17, 35, 8]).Across(0) == Some(VertexIndex(EdgesOnFace[1], [16, 35, 8]))
    ensures VertexIndex(AllEdges, [17, 35, 8]).Across(1) == Some(VertexIndex(EdgesOnFace[0], [18, 35, 8]))
    ensures VertexIndex(AllEdges, [17, 35, 8]).Across(2) == Some(VertexIndex(EdgesOnFace[3], [17, 34, 8]))
    ensures VertexIndex(AllEdges, [17, 35, 8]).Across(3) == Some(VertexIndex(EdgesOnFace[2], [17, 36, 8]))
    ensures VertexIndex(AllEdges, [17, 35, 8]).Across(4) == Some(VertexIndex(EdgesOnFace[5], [17, 35, 7]))
    ensures VertexIndex(AllEdges, [17, 35, 8]).Across(5) == Some(VertexIndex(EdgesOnFace[4], [17, 35, 9]))
  {
    var v := VertexIndex(AllEdges, [17, 35, 8]);
    AcrossFullFace(v, 0);
    AcrossFullFace(v, 1);
    AcrossFullFace(v, 2);
    AcrossFullFace(v, 3);
    AcrossFullFace(v, 4);
    AcrossFullFace(v, 5);
    assert Step([17, 35, 8], 0) == [16, 35, 8];
    assert Step([17, 35, 8], 1) == [18, 35, 8];
    assert Step([17, 35, 8], 2) == [17, 34, 8];
    assert Step([17, 35, 8], 3) == [17, 36, 8];
    assert Step([17, 35, 8], 4) == [17, 35, 7];
    assert Step([17, 35, 8], 5) == [17, 35, 9];
  }
}
