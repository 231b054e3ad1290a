/**
 * The hexahedral viewer mesh: per-vertex, per-hex and per-face flags over a
 * fixed half-face topology with 8-vertex cells and 4-vertex loops, and the
 * lists a plane cut derives from them.
 *
 * The cut methods below mirror those of the tetrahedral mesh step for step,
 * as the two meshes' own cut routines do; they differ only in the cell and
 * loop sizes. What is shared is the specification, CutSpec.Classify.
 */
module ViewerHMesh {
  import opened Geometry
  import opened HalfFaceMesh
  import opened CutSpec

  class HexMesh {
    /** Hexes (8 vertex handles each), half-faces (4-vertex loops) and faces. */
    const topo: Topology
    /** Vertex positions, one per vertex handle. */
    const vPos: seq<Point>

    var vOutside: seq<bool>
    var vCut: seq<bool>
    var cellOutside: seq<bool>
    var faceCut: seq<bool>

    /** Face handles, one per half-face that disagrees with its dual. */
    var cutFaces: seq<nat>
    /** Half-face handles drawn on either side of the cut. */
    var above: seq<nat>
    var below: seq<nat>

    /** The topology invariant, and one flag per vertex, hex and face. */
    ghost predicate Shaped()
      reads this
    {
      WellFormed(topo, |vPos|, 8, 4) &&
      |vOutside| == |vPos| && |vCut| == |vPos| &&
      |cellOutside| == |topo.cells| && |faceCut| == |topo.faceLeft|
    }

    ghost predicate Valid()
      reads this
    {
      Shaped() && (forall i :: 0 <= i < |cutFaces| ==> cutFaces[i] < |topo.faceLeft|)
    }

    /** What the last cut left behind. */
    function Classified(): Classification
      reads this
    {
      Classification(vOutside, cellOutside, faceCut, cutFaces, vCut, above, below)
    }

    /** The mesh is valid and holds what a cut with plane `p` computes. */
    ghost predicate HoldsCut(p: Plane)
      reads this
    {
      Valid() && Classified() == Classify(topo, vPos, p)
    }

    /** A mesh over a given topology and positions, before any cut. */
    constructor (t: Topology, pos: seq<Point>)
      requires WellFormed(t, |pos|, 8, 4)
      ensures Valid() && topo == t && vPos == pos && cutFaces == [] && above == [] && below == []
    {
      topo, vPos := t, pos;
      vOutside, vCut := seq(|pos|, _ => false), seq(|pos|, _ => false);
      cellOutside := seq(|t.cells|, _ => false);
      faceCut := seq(|t.faceLeft|, _ => false);
      cutFaces, above, below := [], [], [];
    }

    /**
     * Cut with plane `p`: clear the three lists, classify vertices and hexes,
     * recompute face cut flags and the cut-face list, mark cut vertices and
     * route half-faces to Above or Below. Everything it sets is a function of
     * the topology, the positions and `p`.
     */
    method Cut(p: Plane)
      requires Valid()
      modifies this`vOutside, this`vCut, this`cellOutside, this`faceCut, this`cutFaces, this`above, this`below
      ensures Valid()
      ensures Classified() == Classify(topo, vPos, p)
    {
      above, below, cutFaces := [], [], [];
      ClassifySides(p);
      ListAndRoute();
      ClassifyByParts(topo, vPos, p, Classified());
    }

    /** The vertex and hex halves of a cut. */
    method ClassifySides(p: Plane)
      requires Shaped()
      modifies this`vOutside, this`vCut, this`cellOutside
      ensures Shaped()
      ensures vOutside == VertexSides(vPos, p) && cellOutside == CellSides(topo, vOutside)
      ensures forall u :: 0 <= u < |vCut| ==> !vCut[u]
    {
      ClassifyVertices(p);
      ClassifyCells();
    }

    /** The face, cut-vertex and half-face halves of a cut, from the hex sides. */
    method ListAndRoute()
      requires Shaped() && cutFaces == [] && above == [] && below == []
      requires forall u :: 0 <= u < |vCut| ==> !vCut[u]
      modifies this`vCut, this`faceCut, this`cutFaces, this`above, this`below
      ensures Shaped()
      ensures faceCut == FaceCutFlags(topo, cellOutside)
      ensures cutFaces == CutFaces(topo, cellOutside, |topo.halfFaces|)
      ensures vCut == CutVertexFlags(topo, cutFaces, |vPos|)
      ensures above == AboveUpTo(topo, cellOutside, |topo.halfFaces|)
      ensures below == BelowUpTo(topo, cellOutside, |topo.halfFaces|)
    {
      ListCutFaces();
      MarkCutVertices();
      RouteHalfFaces();
    }

    /** Reset every vertex's cut flag and set its outside flag from the plane. */
    method ClassifyVertices(p: Plane)
      requires Shaped()
      modifies this`vOutside, this`vCut
      ensures Shaped()
      ensures vOutside == VertexSides(vPos, p)
      ensures forall u :: 0 <= u < |vCut| ==> !vCut[u]
    {
      var v := 0;
      while v < |vPos|
        invariant 0 <= v <= |vPos| && |vOutside| == |vPos| && |vCut| == |vPos|
        invariant forall u :: 0 <= u < v ==> vOutside[u] == IsOutside(p, vPos[u]) && !vCut[u]
      {
        vCut := vCut[v := false];
        vOutside := vOutside[v := IsOutside(p, vPos[v])];
        v := v + 1;
      }
    }

    /** A hex starts outside and turns inside at its first vertex that is not outside. */
    method ClassifyCells()
      requires Shaped()
      modifies this`cellOutside
      ensures Shaped()
      ensures cellOutside == CellSides(topo, vOutside)
    {
      var c := 0;
      while c < |topo.cells|
        invariant 0 <= c <= |topo.cells| && |cellOutside| == |topo.cells|
        invariant forall d :: 0 <= d < c ==> cellOutside[d] == AllOutside(topo.cells[d], vOutside)
      {
        var cell := topo.cells[c];
        cellOutside := cellOutside[c := true];
        var j := 0;
        while j < 8
          invariant 0 <= j <= 8 && |cellOutside| == |topo.cells|
          invariant forall d :: 0 <= d < c ==> cellOutside[d] == AllOutside(topo.cells[d], vOutside)
          invariant cellOutside[c] && forall i :: 0 <= i < j ==> vOutside[cell[i]]
        {
          if !vOutside[cell[j]] {
            cellOutside := cellOutside[c := false];
            break;
          }
          j := j + 1;
        }
        c := c + 1;
      }
    }

    /** Clear every face's cut flag, then list and flag the face of each half-face whose hex disagrees with its dual's. */
    method ListCutFaces()
      requires Shaped() && cutFaces == []
      modifies this`faceCut, this`cutFaces
      ensures Shaped()
      ensures cutFaces == CutFaces(topo, cellOutside, |topo.halfFaces|)
      ensures faceCut == FaceCutFlags(topo, cellOutside)
    {
      var f := 0;
      while f < |topo.faceLeft|
        modifies this`faceCut
        invariant 0 <= f <= |topo.faceLeft| && |faceCut| == |topo.faceLeft|
        invariant forall g :: 0 <= g < f ==> !faceCut[g]
      {
        faceCut := faceCut[f := false];
        f := f + 1;
      }

      var h := 0;
      while h < |topo.halfFaces|
        modifies this`faceCut, this`cutFaces
        invariant 0 <= h <= |topo.halfFaces| && |faceCut| == |topo.faceLeft|
        invariant cutFaces == CutFaces(topo, cellOutside, h)
        invariant forall g :: 0 <= g < |topo.faceLeft| ==> (faceCut[g] <==> g in cutFaces)
      {
        var hf := topo.halfFaces[h];
        if hf.dual.Some? {
          var d := hf.dual.value;
          if cellOutside[hf.cell] != cellOutside[topo.halfFaces[d].cell] {
            cutFaces := cutFaces + [hf.face];
            faceCut := faceCut[hf.face := true];
          }
        }
        h := h + 1;
      }
      forall g | 0 <= g < |topo.faceLeft|
        ensures faceCut[g] == FaceSeesDisagreement(topo, cellOutside, g)
      {
        CutFacesMembership(topo, cellOutside, |topo.halfFaces|, g);
      }
    }

    /** Mark the targets of the first three half-edges of each listed face's left half-face as cut. */
    method MarkCutVertices()
      requires Shaped() && forall u :: 0 <= u < |vCut| ==> !vCut[u]
      requires forall i :: 0 <= i < |cutFaces| ==> cutFaces[i] < |topo.faceLeft|
      modifies this`vCut
      ensures Shaped()
      ensures vCut == CutVertexFlags(topo, cutFaces, |vPos|)
    {
      var i := 0;
      while i < |cutFaces|
        invariant 0 <= i <= |cutFaces| && |vCut| == |vPos|
        invariant forall u :: 0 <= u < |vPos| ==> (vCut[u] <==> IsCutVertex(topo, cutFaces[..i], u))
      {
        var fv := FaceVertices(topo, cutFaces[i]);
        vCut := vCut[fv[0] := true][fv[1] := true][fv[2] := true];
        forall u | 0 <= u < |vPos|
          ensures vCut[u] <==> IsCutVertex(topo, cutFaces[..i + 1], u)
        {
          CutVertexPrefix(topo, cutFaces, i, u);
          assert CutMarks(topo, cutFaces[i]) == [fv[0], fv[1], fv[2]];
        }
        i := i + 1;
      }
      assert cutFaces[..|cutFaces|] == cutFaces;
    }

    /** Route each half-face to Above, Below or neither by its hex's side and its dual's. */
    method RouteHalfFaces()
      requires Shaped() && above == [] && below == []
      modifies this`above, this`below
      ensures Shaped()
      ensures above == AboveUpTo(topo, cellOutside, |topo.halfFaces|)
      ensures below == BelowUpTo(topo, cellOutside, |topo.halfFaces|)
    {
      var h := 0;
      while h < |topo.halfFaces|
        invariant 0 <= h <= |topo.halfFaces|
        invariant above == AboveUpTo(topo, cellOutside, h) && below == BelowUpTo(topo, cellOutside, h)
      {
        var hf := topo.halfFaces[h];
        var out := cellOutside[hf.cell];
        if hf.dual.None? {
          if out {
            above := above + [h];
          } else {
            below := below + [h];
          }
        } else {
          var dOut := cellOutside[topo.halfFaces[hf.dual.value].cell];
          if out && !dOut {
            above := above + [h];
          } else if !out && dOut {
            below := below + [h];
          }
        }
        h := h + 1;
      }
    }

  }
}
