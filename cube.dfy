/**
 * The unit cube of one grid cell, read off the edge diagram at the top of
 * vertex_index.rs. Axes are numbered 0 (x), 1 (y) and 2 (z); each edge and
 * each face is described by its position, independently of any bit pattern.
 *
 *  - Edge `e` (0 to 11) runs along axis `e % 3`. Its position on the two
 *    other axes is given by `e / 3`: bit 0 of it is the position on the
 *    lower of the two other axes, bit 1 the position on the higher one.
 *    So edges 0, 3, 6, 9 run along x; 1, 4, 7, 10 along y; 2, 5, 8, 11
 *    along z; edge 0 passes through the cell's origin.
 *  - Face `f` (0 to 5) is perpendicular to axis `f / 2`, at the low end of
 *    that axis when `f` is even and at the high end when it is odd
 *    (X0, X1, Y0, Y1, Z0, Z1).
 */
module CubeGeometry {

  predicate IsEdge(e: nat) { e < 12 }

  predicate IsFace(f: nat) { f < 6 }

  predicate IsAxis(a: nat) { a < 3 }

  /** The axis an edge runs along. */
  function Direction(e: nat): nat
  {
    e % 3
  }

  /** The axis a face is perpendicular to. */
  function Normal(f: nat): nat
  {
    f / 2
  }

  /** 0 for the face at the low end of its axis, 1 for the high end. */
  function Side(f: nat): nat
  {
    f % 2
  }

  /** The face across the cell, on the same axis (`f ^ 1`). */
  function Opposite(f: nat): (r: nat)
    requires IsFace(f)
    ensures IsFace(r) && r != f
    ensures Normal(r) == Normal(f) && Side(r) == 1 - Side(f)
  {
    if f % 2 == 0 then f + 1 else f - 1
  }

  /** The lower of the two axes other than `a`. */
  function LowerOther(a: nat): nat
  {
    if a == 0 then 1 else 0
  }

  /** The higher of the two axes other than `a`. */
  function UpperOther(a: nat): nat
  {
    if a == 2 then 1 else 2
  }

  /** The position (0 or 1) of edge `e` on axis `b`, which it does not run along. */
  function Position(e: nat, b: nat): (p: nat)
    requires IsEdge(e) && IsAxis(b) && b != Direction(e)
    ensures p < 2
  {
    if b == LowerOther(Direction(e)) then (e / 3) % 2 else (e / 3) / 2
  }

  /** Whether edge `e` is one of the four edges bounding face `f`. */
  predicate OnFace(e: nat, f: nat)
    requires IsEdge(e) && IsFace(f)
  {
    Normal(f) != Direction(e) && Position(e, Normal(f)) == Side(f)
  }

  /**
   * The edge of the neighbouring cell across axis `b` that coincides with
   * edge `e` of this cell: same direction, same position on the third
   * axis, the other end of axis `b`.
   */
  function Mirror(e: nat, b: nat): (r: nat)
    requires IsEdge(e) && IsAxis(b) && b != Direction(e)
    ensures IsEdge(r) && Direction(r) == Direction(e)
    ensures Position(r, b) == 1 - Position(e, b)
    ensures forall c | IsAxis(c) && c != b && c != Direction(e) :: Position(r, c) == Position(e, c)
  {
    var k := e / 3;
    if b == LowerOther(Direction(e)) then
      (if k % 2 == 0 then e + 3 else e - 3)
    else
      (if k / 2 == 0 then e + 6 else e - 6)
  }

  /** An edge on face `f` becomes, across that face, an edge on the opposite face; mirroring twice is the identity. */
  lemma MirrorOntoOppositeFace(e: nat, f: nat)
    requires IsEdge(e) && IsFace(f) && OnFace(e, f)
    ensures OnFace(Mirror(e, Normal(f)), Opposite(f))
    ensures Mirror(Mirror(e, Normal(f)), Normal(f)) == e
  {
  }

  /** The faces among the first `n` that edge `e` bounds. */
  function FacesBelow(e: nat, n: nat): set<nat>
    requires IsEdge(e) && n <= 6
  {
    set f | 0 <= f < n && OnFace(e, f)
  }

  /** The two faces an edge bounds: one on each axis it does not run along. */
  function FacesOfEdge(e: nat): set<nat>
    requires IsEdge(e)
  {
    FacesBelow(e, 6)
  }

  /** Face `n - 1` joins the faces below it exactly when the edge bounds it. */
  lemma FacesBelowStep(e: nat, n: nat)
    requires IsEdge(e) && 0 < n <= 6
    ensures |FacesBelow(e, n)| == |FacesBelow(e, n - 1)| + (if OnFace(e, n - 1) then 1 else 0)
  {
    var here: set<nat> := if OnFace(e, n - 1) then {n - 1} else {};
    assert FacesBelow(e, n) == FacesBelow(e, n - 1) + here;
    assert FacesBelow(e, n - 1) !! here;
  }

  /** Every edge bounds exactly two faces, neither of them perpendicular to it. */
  lemma EdgeBoundsTwoFaces(e: nat)
    requires IsEdge(e)
    ensures |FacesOfEdge(e)| == 2
    ensures forall f | f in FacesOfEdge(e) :: Normal(f) != Direction(e)
  {
    var a := Direction(e);
    var lo, hi := LowerOther(a), UpperOther(a);
    var f1, f2 := 2 * lo + Position(e, lo), 2 * hi + Position(e, hi);
    forall f | 0 <= f < 6
      ensures f in FacesOfEdge(e) <==> f == f1 || f == f2
    {
    }
    assert FacesOfEdge(e) == {f1, f2};
  }
}
