# Vertex indexing of the tessellation mesher

This project models `src/vertex_index.rs` of the `tessellation` voxel mesher.
The mesher puts a vertex on the crossings of the surface with the twelve edges of
each grid cell. Two cells that share a face also share the four edges of that
face. `src/vertex_index.rs` works out how a vertex, given as a set of edges of
one cell, is named by the cell on the other side of a face.

The model has four modules:

- `BitSets` (`bitset.dfy`): the part of `crate::bitset::BitSet` that the file
  uses. That is a 32-bit word with construction from four members
  (`from_4bits`), `intersect`, `empty` and `as_u32`.
- `CubeGeometry` (`cube.dfy`): the cell cube read off the edge diagram at
  `src/vertex_index.rs:3-15`. It describes edges and faces by axis and
  position rather than by bit pattern. The face table and the renumbering are checked against that description.
- `VertexIndexing` (`vertex_index.dfy`) holds the rest of the file:
  - the `EDGES_ON_FACE` table (`EdgesOnFace`);
  - `egdes_on_neighbor`, spelled correctly here as `EdgesOnNeighbor`;
  - the type `Index` with `offset` and `neg_offset`;
  - the `VertexIndex` record with `neighbor`;
  - the `VarIndex` enum, a plain two-case datatype with no operations.
- `Wrappers` (`wrappers.dfy`): the `Option` that `neighbor` returns.

`neighbor` is a method, because the source builds the step vector in a mutable
local array (`off[face / 2] = 1`). It is proved equal to the function
`VertexIndex.Across`, and all lemmas are stated about `Across`.

## Model

The neighbouring cell across `face` sees the shared face as its own face `Opposite(face)`, that is `face ^ 1`.

| member | source | states |
|---|---|---|
| BitSets.BitSet.Intersect | src/vertex_index.rs:31 | the intersection is a subset of both operands |
| BitSets.BitSet.IntersectIsGreatest | src/vertex_index.rs:31 | every set contained in both operands is contained in the intersection, the other half of the characterisation |
| BitSets.BitSet.IntersectWithSubset | src/vertex_index.rs:31 | intersecting with a subset gives that subset |
| CubeGeometry.Opposite | src/vertex_index.rs:17 | the opposite face is a different face on the same axis, at the other end |
| CubeGeometry.Position | src/vertex_index.rs:3-15 | an edge sits at position 0 or 1 on each axis it does not run along |
| CubeGeometry.Mirror | src/vertex_index.rs:3-15 | the mirrored edge has the same direction, the other position on the mirror axis, and the same position on the third axis |
| CubeGeometry.FacesBelowStep | src/vertex_index.rs:3-17 | counting the faces an edge bounds face by face: face `n - 1` adds one exactly when the edge bounds it |
| CubeGeometry.MirrorOntoOppositeFace | src/vertex_index.rs:3-17 | an edge on a face mirrors onto the opposite face, and mirroring twice gives the edge back |
| CubeGeometry.EdgeBoundsTwoFaces | src/vertex_index.rs:3-17 | every edge bounds exactly two faces, and neither is perpendicular to it |
| VertexIndexing.FaceTableMatchesDiagram | src/vertex_index.rs:3-28 | `EDGES_ON_FACE[f]` holds edge `e` exactly when `e` bounds face `f` in the diagram |
| VertexIndexing.FaceTableEntriesHaveFourEdges | src/vertex_index.rs:19-28 | each table entry has exactly four members, all below bit 12 |
| VertexIndexing.ListingCountsFaces | src/vertex_index.rs:3-28 | the number of table entries among the first `n` that list an edge equals the number of those faces it bounds in the diagram |
| VertexIndexing.EveryEdgeListedTwice | src/vertex_index.rs:19-28 | each edge 0..11 is listed by exactly two of the six entries, derived from the diagram's two faces per edge |
| VertexIndexing.RenumberX0 | src/vertex_index.rs:30-38 | for face X0, the renumbered edges lie on X1; renumbering back across X1 gives the edges on X0; only the edges on X0 matter; the result is empty exactly when no edge lies on X0 |
| VertexIndexing.RenumberX1 | src/vertex_index.rs:30-38 | the same four facts for face X1, which maps onto X0 |
| VertexIndexing.RenumberY0 | src/vertex_index.rs:30-38 | the same four facts for face Y0, which maps onto Y1 |
| VertexIndexing.RenumberY1 | src/vertex_index.rs:30-38 | the same four facts for face Y1, which maps onto Y0 |
| VertexIndexing.RenumberZ0 | src/vertex_index.rs:30-38 | the same four facts for face Z0, which maps onto Z1 |
| VertexIndexing.RenumberZ1 | src/vertex_index.rs:30-38 | the same four facts for face Z1, which maps onto Z0 |
| VertexIndexing.Renumbering | src/vertex_index.rs:30-38 | for every face: the map lands on the opposite face; the opposite face's map inverts it on the face's edges; it depends only on `edges ∩ EDGES_ON_FACE[face]`; it is empty exactly when that intersection is empty |
| VertexIndexing.NeighborWithinCube | src/vertex_index.rs:30-38 | no bit above 11 is ever produced |
| VertexIndexing.NeighborOfFullFace | src/vertex_index.rs:30-38 | a full face maps to the full opposite face |
| VertexIndexing.NeighborSameIff | src/vertex_index.rs:30-38 | two edge sets map alike exactly when they agree on the face |
| VertexIndexing.Crossing | src/vertex_index.rs:3-15 | across any face, an edge on the face mirrors along the face's axis onto the opposite face, and the neighbour holds that mirror image exactly when this cell holds the edge |
| VertexIndexing.CrossingX0 | src/vertex_index.rs:3-15 | across X0, the neighbour holds the mirror image along x of an edge on X0 exactly when this cell holds that edge |
| VertexIndexing.CrossingX1 | src/vertex_index.rs:3-15 | the same across X1 |
| VertexIndexing.CrossingY0 | src/vertex_index.rs:3-15 | the same across Y0, mirroring along y |
| VertexIndexing.CrossingY1 | src/vertex_index.rs:3-15 | the same across Y1 |
| VertexIndexing.CrossingZ0 | src/vertex_index.rs:3-15 | the same across Z0, mirroring along z |
| VertexIndexing.CrossingZ1 | src/vertex_index.rs:3-15 | the same across Z1 |
| VertexIndexing.Offset | src/vertex_index.rs:45-47 | each component of the result is the sum of the components |
| VertexIndexing.NegOffset | src/vertex_index.rs:49-51 | adding `delta` back to each component of the result gives `idx`; defined only where no component underflows |
| VertexIndexing.OffsetThenNegOffset | src/vertex_index.rs:45-51 | `neg_offset(offset(i, d), d) == i`, with no underflow |
| VertexIndexing.NegOffsetThenOffset | src/vertex_index.rs:45-51 | `offset(neg_offset(i, d), d) == i` wherever `neg_offset` is defined |
| VertexIndexing.Step | src/vertex_index.rs:65-71 | coordinate `face / 2` goes up by one for an odd face and down by one for an even face; the other two are unchanged |
| VertexIndexing.StepBack | src/vertex_index.rs:65-71 | stepping back through the opposite face is allowed and returns to the cell |
| VertexIndexing.VertexIndex.Across | src/vertex_index.rs:60-76 | `None` exactly when no edge of the vertex lies on the face; otherwise the edges are `egdes_on_neighbor(face, edges)` and the cell is stepped towards the face |
| VertexIndexing.VertexIndex.Neighbor | src/vertex_index.rs:60-76 | the method, which writes `off` in place, returns exactly `Across(face)` |
| VertexIndexing.AcrossRoundTrip | src/vertex_index.rs:60-76 | if `neighbor(v, f) == Some(w)`, then `w` may step back through `f ^ 1`, and doing so gives `v.index` with `v.edges ∩ EDGES_ON_FACE[f]` |
| VertexIndexing.AcrossFullFace | src/vertex_index.rs:60-76 | a vertex holding every edge of the face is seen holding every edge of the opposite face |
| VertexIndexing.AllEdgesVertexNeighbors | src/vertex_index.rs:90-109 | the vertex 0xfff at [17, 35, 8] is seen across faces 0..5 at [16,35,8], [18,35,8], [17,34,8], [17,36,8], [17,35,7], [17,35,9], holding the opposite face's edges |

## Left out

- The `Lazy` one-time, thread-safe initialisation of `EDGES_ON_FACE` (src/vertex_index.rs:18-19). The table is a constant here.
- The internals of `crate::bitset::BitSet`. That file is not part of this model. It is modelled as a wrapper around a 32-bit word, as its uses in this file imply.
- BitSets.FromFourBits: has no contract of its own. The contents of the table are checked entry by entry through `FaceTableMatchesDiagram` and `FaceTableEntriesHaveFourEdges`.
- BitSets.BitSet.Intersect: membership of a single bit `i` in the intersection is not stated for a symbolic `i`. The intersection is characterised instead by set inclusion: it is a subset of both operands (`Intersect`), and every common subset is a subset of it (`IntersectIsGreatest`). A per-bit statement with a symbolic shift amount exceeds the verifier's resource limit once it is also checked for contradictory assumptions.
- BitSets.BitSet.Contains and BitSets.BitSet.CountBelow: used only at constant or case-split positions, for the same reason.
- The panic on a face index of 6 or more. It happens at src/vertex_index.rs:31, where `EDGES_ON_FACE[neighbor_index]` is a bounds-checked index into a six-element array; the `x => panic!` arm at src/vertex_index.rs:39 is therefore unreachable. Every operation that takes a face requires `face < 6`. The message text is not modelled.
- `usize` overflow in `offset` (src/vertex_index.rs:45-47). Coordinates are unbounded naturals.
- VertexIndexing.NegOffset: underflow in `neg_offset` is a precondition, not wrap-around. For `neighbor`, the precondition `CanCross` asks for coordinate `face / 2` to be at least 1 only when an even face would actually be crossed.
- The `Clone`, `Copy`, `Debug`, `Hash` and `PartialEq` derives. Dafny datatypes have structural equality.
- The test at src/vertex_index.rs:90-109 is restated as the lemma `AllEdgesVertexNeighbors`. It is not executed.

## Notes on the source

- The second mask for face Y1, `0b1001_0000_0000`, selects bits 11 and 8: Y1's edges 8 and 11 from `from_4bits(3, 8, 9, 11)`.
- Stepping back across the opposite face recovers only the edges on the shared face, `v.edges ∩ EDGES_ON_FACE[f]`. For the vertex 0xfff of the test, that is the four edges of the face, not all twelve. The model states this (`AcrossRoundTrip`).
