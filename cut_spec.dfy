/**
 * What a plane cut computes, shared by the tetrahedral and the hexahedral
 * viewer meshes: vertex and cell classification, the cut-face list, the cut
 * vertices and the Above/Below half-face lists, each as a function of the
 * topology, the vertex positions and the plane.
 */
module CutSpec {
  import opened Wrappers
  import opened Geometry
  import opened HalfFaceMesh

  /** A cell is outside only when every one of its vertices is outside. */
  predicate AllOutside(cell: seq<nat>, vOut: seq<bool>)
    requires forall j :: 0 <= j < |cell| ==> cell[j] < |vOut|
  {
    forall j :: 0 <= j < |cell| ==> vOut[cell[j]]
  }

  /** Half-face `h` has a dual, and the two cells on either side are classified differently. */
  predicate Disagrees(t: Topology, cOut: seq<bool>, h: nat)
    requires Linked(t) && |cOut| == |t.cells| && h < |t.halfFaces|
  {
    var hf := t.halfFaces[h];
    hf.dual.Some? && cOut[hf.cell] != cOut[t.halfFaces[hf.dual.value].cell]
  }

  /** The cut-face list after visiting the first `n` half-faces: one entry per disagreeing half-face. */
  function CutFaces(t: Topology, cOut: seq<bool>, n: nat): (r: seq<nat>)
    requires Linked(t) && |cOut| == |t.cells| && n <= |t.halfFaces|
    ensures forall i :: 0 <= i < |r| ==> r[i] < |t.faceLeft|
    ensures |r| <= n
  {
    if n == 0 then []
    else CutFaces(t, cOut, n - 1) + (if Disagrees(t, cOut, n - 1) then [t.halfFaces[n - 1].face] else [])
  }

  /** Some half-face of face `f` disagrees with its dual. */
  ghost predicate FaceSeesDisagreement(t: Topology, cOut: seq<bool>, f: nat)
    requires Linked(t) && |cOut| == |t.cells|
  {
    exists h :: 0 <= h < |t.halfFaces| && t.halfFaces[h].face == f && Disagrees(t, cOut, h)
  }

  /** Above gets a boundary half-face of an outside cell, or an outside-cell half-face whose dual's cell is inside. */
  predicate RoutedAbove(t: Topology, cOut: seq<bool>, h: nat)
    requires Linked(t) && |cOut| == |t.cells| && h < |t.halfFaces|
  {
    var hf := t.halfFaces[h];
    match hf.dual
    case None => cOut[hf.cell]
    case Some(d) => cOut[hf.cell] && !cOut[t.halfFaces[d].cell]
  }

  /** Below gets a boundary half-face of an inside cell, or an inside-cell half-face whose dual's cell is outside. */
  predicate RoutedBelow(t: Topology, cOut: seq<bool>, h: nat)
    requires Linked(t) && |cOut| == |t.cells| && h < |t.halfFaces|
  {
    var hf := t.halfFaces[h];
    match hf.dual
    case None => !cOut[hf.cell]
    case Some(d) => !cOut[hf.cell] && cOut[t.halfFaces[d].cell]
  }

  /** The Above list after visiting the first `n` half-faces. */
  function AboveUpTo(t: Topology, cOut: seq<bool>, n: nat): (r: seq<nat>)
    requires Linked(t) && |cOut| == |t.cells| && n <= |t.halfFaces|
    ensures forall i :: 0 <= i < |r| ==> r[i] < n
  {
    if n == 0 then []
    else AboveUpTo(t, cOut, n - 1) + (if RoutedAbove(t, cOut, n - 1) then [n - 1] else [])
  }

  /** The Below list after visiting the first `n` half-faces. */
  function BelowUpTo(t: Topology, cOut: seq<bool>, n: nat): (r: seq<nat>)
    requires Linked(t) && |cOut| == |t.cells| && n <= |t.halfFaces|
    ensures forall i :: 0 <= i < |r| ==> r[i] < n
  {
    if n == 0 then []
    else BelowUpTo(t, cOut, n - 1) + (if RoutedBelow(t, cOut, n - 1) then [n - 1] else [])
  }

  /** Vertex `v` is among the three vertices marked for some entry of the cut-face list. */
  ghost predicate IsCutVertex(t: Topology, cutFaces: seq<nat>, v: nat)
    requires Linked(t) && forall i :: 0 <= i < |cutFaces| ==> cutFaces[i] < |t.faceLeft|
  {
    exists j :: 0 <= j < |cutFaces| && v in CutMarks(t, cutFaces[j])
  }

  /** Everything a cut derives, in the order the mesh stores it. */
  datatype Classification = Classification(
    vOutside: seq<bool>,
    cellOutside: seq<bool>,
    faceCut: seq<bool>,
    cutFaces: seq<nat>,
    vCut: seq<bool>,
    above: seq<nat>,
    below: seq<nat>)

  /** Vertex classification against the plane. */
  function VertexSides(pos: seq<Point>, p: Plane): (r: seq<bool>)
  {
    seq(|pos|, v requires 0 <= v < |pos| => IsOutside(p, pos[v]))
  }

  /** Cell classification from the vertex classification. */
  function CellSides(t: Topology, vOut: seq<bool>): (r: seq<bool>)
    requires Indexed(t, |vOut|)
  {
    seq(|t.cells|, c requires 0 <= c < |t.cells| => AllOutside(t.cells[c], vOut))
  }

  /** Face cut flags: one per face, set when some half-face of it disagrees with its dual. */
  ghost function FaceCutFlags(t: Topology, cOut: seq<bool>): (r: seq<bool>)
    requires Linked(t) && |cOut| == |t.cells|
  {
    seq(|t.faceLeft|, f requires 0 <= f < |t.faceLeft| => FaceSeesDisagreement(t, cOut, f))
  }

  /** Vertex cut flags for `nV` vertices: set on the vertices marked by some entry of the cut-face list. */
  ghost function CutVertexFlags(t: Topology, cutFaces: seq<nat>, nV: nat): (r: seq<bool>)
    requires Linked(t) && forall i :: 0 <= i < |cutFaces| ==> cutFaces[i] < |t.faceLeft|
  {
    seq(nV, v requires 0 <= v < nV => IsCutVertex(t, cutFaces, v))
  }

  /**
   * The state a cut with plane `p` leaves behind. It depends on the topology,
   * the positions and the plane only, never on an earlier cut.
   */
  ghost function Classify(t: Topology, pos: seq<Point>, p: Plane): Classification
    requires Indexed(t, |pos|)
  {
    var vOut := VertexSides(pos, p);
    var cOut := CellSides(t, vOut);
    var cf := CutFaces(t, cOut, |t.halfFaces|);
    Classification(
      vOut,
      cOut,
      FaceCutFlags(t, cOut),
      cf,
      CutVertexFlags(t, cf, |pos|),
      AboveUpTo(t, cOut, |t.halfFaces|),
      BelowUpTo(t, cOut, |t.halfFaces|))
  }

  /** A classification whose parts are computed one after the other, each from the ones before, is the cut's. */
  lemma ClassifyByParts(t: Topology, pos: seq<Point>, p: Plane, c: Classification)
    requires Indexed(t, |pos|)
    requires c.vOutside == VertexSides(pos, p)
    requires c.cellOutside == CellSides(t, c.vOutside)
    requires c.faceCut == FaceCutFlags(t, c.cellOutside)
    requires c.cutFaces == CutFaces(t, c.cellOutside, |t.halfFaces|)
    requires c.vCut == CutVertexFlags(t, c.cutFaces, |pos|)
    requires c.above == AboveUpTo(t, c.cellOutside, |t.halfFaces|)
    requires c.below == BelowUpTo(t, c.cellOutside, |t.halfFaces|)
    ensures c == Classify(t, pos, p)
  {
  }

  // ---------------------------------------------------------------------------
  // Properties of the cut-face list

  /** A face is in the cut-face list exactly when one of the visited half-faces of that face disagrees with its dual. */
  lemma {:induction false} CutFacesMembership(t: Topology, cOut: seq<bool>, n: nat, f: nat)
    requires Linked(t) && |cOut| == |t.cells| && n <= |t.halfFaces|
    ensures f in CutFaces(t, cOut, n) <==>
            exists h :: 0 <= h < n && t.halfFaces[h].face == f && Disagrees(t, cOut, h)
  {
    if n > 0 {
      CutFacesMembership(t, cOut, n - 1, f);
      var h := n - 1;
      if t.halfFaces[h].face == f && Disagrees(t, cOut, h) {
        assert f in CutFaces(t, cOut, n);
      }
    }
  }

  /** Disagreement is symmetric across a dual pair. */
  lemma DisagreesSymmetric(t: Topology, cOut: seq<bool>, h: nat)
    requires Linked(t) && Paired(t) && |cOut| == |t.cells| && h < |t.halfFaces|
    requires t.halfFaces[h].dual.Some?
    ensures Disagrees(t, cOut, t.halfFaces[h].dual.value) == Disagrees(t, cOut, h)
  {
    assert DualPaired(t, h);
  }

  /** How often face `f` has been appended after `n` half-faces: once for its left half-face and once for that one's dual, each if visited and disagreeing. */
  lemma {:induction false} CutFacesCountUpTo(t: Topology, cOut: seq<bool>, n: nat, f: nat)
    requires Linked(t) && Paired(t) && |cOut| == |t.cells| && n <= |t.halfFaces| && f < |t.faceLeft|
    ensures var l := t.faceLeft[f];
            var dl := t.halfFaces[l].dual;
            multiset(CutFaces(t, cOut, n))[f] ==
              (if l < n && Disagrees(t, cOut, l) then 1 else 0) +
              (if dl.Some? && dl.value < n && Disagrees(t, cOut, dl.value) then 1 else 0)
  {
    if n > 0 {
      CutFacesCountUpTo(t, cOut, n - 1, f);
      var h := n - 1;
      var l := t.faceLeft[f];
      assert OnItsFace(t, h);
      assert DualPaired(t, l);
      if t.halfFaces[h].face == f {
        assert h == l || t.halfFaces[l].dual == Some(h);
      }
    }
  }

  /**
   * No duplicate guard: after a full pass every face whose two cells disagree is
   * listed exactly twice, once from each side, and every other face not at all.
   */
  lemma CutFaceListedTwice(t: Topology, cOut: seq<bool>, f: nat)
    requires Linked(t) && Paired(t) && |cOut| == |t.cells| && f < |t.faceLeft|
    ensures FaceSeesDisagreement(t, cOut, f) <==> Disagrees(t, cOut, t.faceLeft[f])
    ensures multiset(CutFaces(t, cOut, |t.halfFaces|))[f] == if FaceSeesDisagreement(t, cOut, f) then 2 else 0
  {
    var l := t.faceLeft[f];
    CutFacesCountUpTo(t, cOut, |t.halfFaces|, f);
    assert t.halfFaces[l].face == f;
    if FaceSeesDisagreement(t, cOut, f) {
      var h :| 0 <= h < |t.halfFaces| && t.halfFaces[h].face == f && Disagrees(t, cOut, h);
      assert OnItsFace(t, h);
      if h != l {
        DisagreesSymmetric(t, cOut, h);
        assert DualPaired(t, h);
      }
    }
    if Disagrees(t, cOut, l) {
      DisagreesSymmetric(t, cOut, l);
      assert DualPaired(t, l);
    }
  }

  // ---------------------------------------------------------------------------
  // Properties of the Above/Below lists

  /** Above holds, in increasing order, exactly the visited half-faces routed above; Below likewise. */
  lemma {:induction false} AboveBelowMembership(t: Topology, cOut: seq<bool>, n: nat)
    requires Linked(t) && |cOut| == |t.cells| && n <= |t.halfFaces|
    ensures forall h: nat :: h in AboveUpTo(t, cOut, n) <==> h < n && RoutedAbove(t, cOut, h)
    ensures forall h: nat :: h in BelowUpTo(t, cOut, n) <==> h < n && RoutedBelow(t, cOut, h)
    ensures forall i, j :: 0 <= i < j < |AboveUpTo(t, cOut, n)| ==> AboveUpTo(t, cOut, n)[i] < AboveUpTo(t, cOut, n)[j]
    ensures forall i, j :: 0 <= i < j < |BelowUpTo(t, cOut, n)| ==> BelowUpTo(t, cOut, n)[i] < BelowUpTo(t, cOut, n)[j]
  {
    if n > 0 {
      AboveBelowMembership(t, cOut, n - 1);
    }
  }

  /** No half-face is routed both ways, so no half-face lands in both lists. */
  lemma AboveBelowDisjoint(t: Topology, cOut: seq<bool>)
    requires Linked(t) && |cOut| == |t.cells|
    ensures forall h :: !(h in AboveUpTo(t, cOut, |t.halfFaces|) && h in BelowUpTo(t, cOut, |t.halfFaces|))
  {
    AboveBelowMembership(t, cOut, |t.halfFaces|);
  }

  /**
   * An interior half-face is drawn (in either list) exactly when it disagrees
   * with its dual; it is in Above exactly when its dual is in Below.
   */
  lemma InteriorRouting(t: Topology, cOut: seq<bool>, h: nat)
    requires Linked(t) && Paired(t) && |cOut| == |t.cells| && h < |t.halfFaces|
    requires t.halfFaces[h].dual.Some?
    ensures var n := |t.halfFaces|;
            var d := t.halfFaces[h].dual.value;
            (h in AboveUpTo(t, cOut, n) || h in BelowUpTo(t, cOut, n) <==> Disagrees(t, cOut, h)) &&
            (h in AboveUpTo(t, cOut, n) <==> d in BelowUpTo(t, cOut, n)) &&
            (h in BelowUpTo(t, cOut, n) <==> d in AboveUpTo(t, cOut, n))
  {
    AboveBelowMembership(t, cOut, |t.halfFaces|);
    assert DualPaired(t, h);
  }

  /** A boundary half-face is always drawn: in Above when its cell is outside, else in Below. */
  lemma BoundaryRouting(t: Topology, cOut: seq<bool>, h: nat)
    requires Linked(t) && |cOut| == |t.cells| && h < |t.halfFaces|
    requires t.halfFaces[h].dual.None?
    ensures var n := |t.halfFaces|;
            (h in AboveUpTo(t, cOut, n) <==> cOut[t.halfFaces[h].cell]) &&
            (h in BelowUpTo(t, cOut, n) <==> !cOut[t.halfFaces[h].cell])
  {
    AboveBelowMembership(t, cOut, |t.halfFaces|);
  }

  // ---------------------------------------------------------------------------
  // Properties of cut-vertex marking

  /** With triangular loops the three marked vertices are the whole face: every vertex of a listed face is cut. */
  lemma TriangleFacesFullyMarked(t: Topology, cutFaces: seq<nat>, j: nat, k: nat)
    requires Linked(t) && forall i :: 0 <= i < |cutFaces| ==> cutFaces[i] < |t.faceLeft|
    requires j < |cutFaces| && k < |FaceVertices(t, cutFaces[j])|
    requires |FaceVertices(t, cutFaces[j])| == 3
    ensures IsCutVertex(t, cutFaces, FaceVertices(t, cutFaces[j])[k])
  {
    var fv := FaceVertices(t, cutFaces[j]);
    assert CutMarks(t, cutFaces[j]) == fv;
    assert fv[k] in CutMarks(t, cutFaces[j]);
  }

  /**
   * A quad's fourth loop vertex is never marked by its own face: when the loop's
   * vertices are distinct it is cut exactly when a listed face other than `f` marks it.
   */
  lemma FourthVertexNeedsAnotherFace(t: Topology, cutFaces: seq<nat>, f: nat)
    requires Linked(t) && forall i :: 0 <= i < |cutFaces| ==> cutFaces[i] < |t.faceLeft|
    requires f < |t.faceLeft| && |FaceVertices(t, f)| == 4
    requires forall a, b :: 0 <= a < b < 4 ==> FaceVertices(t, f)[a] != FaceVertices(t, f)[b]
    ensures IsCutVertex(t, cutFaces, FaceVertices(t, f)[3]) <==>
            exists j :: 0 <= j < |cutFaces| && cutFaces[j] != f && FaceVertices(t, f)[3] in CutMarks(t, cutFaces[j])
  {
    var fv := FaceVertices(t, f);
    assert CutMarks(t, f) == [fv[0], fv[1], fv[2]];
    assert fv[3] !in CutMarks(t, f);
  }

  /** Marking the faces of a longer prefix of the cut-face list adds the marks of the next entry. */
  lemma CutVertexPrefix(t: Topology, cutFaces: seq<nat>, i: nat, v: nat)
    requires Linked(t) && forall j :: 0 <= j < |cutFaces| ==> cutFaces[j] < |t.faceLeft|
    requires i < |cutFaces|
    ensures IsCutVertex(t, cutFaces[..i + 1], v) <==> IsCutVertex(t, cutFaces[..i], v) || v in CutMarks(t, cutFaces[i])
  {
    var next := cutFaces[..i + 1];
    assert next[i] == cutFaces[i];
    if IsCutVertex(t, cutFaces[..i], v) {
      var j :| 0 <= j < i && v in CutMarks(t, cutFaces[..i][j]);
      assert next[j] == cutFaces[..i][j];
    }
    if IsCutVertex(t, next, v) {
      var j :| 0 <= j < i + 1 && v in CutMarks(t, next[j]);
      if j < i {
        assert cutFaces[..i][j] == next[j];
      }
    }
  }
}
