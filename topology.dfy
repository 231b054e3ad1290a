/**
 * The half-face topology the viewer meshes run on, as handle maps.
 *
 * Every entity is addressed by its position in the mesh's list of that kind.
 * A half-face knows its cell, its face, its (nullable) dual across that face
 * and its vertex loop: the targets of the half-edges met by starting at the
 * half-face's first half-edge and following `next`. A face knows its left
 * half-face. Tetrahedral meshes have 4-vertex cells and 3-vertex loops,
 * hexahedral meshes 8-vertex cells and 4-vertex loops.
 */
module HalfFaceMesh {
  import opened Wrappers

  datatype HalfFace = HalfFace(cell: nat, face: nat, dual: Option<nat>, loop: seq<nat>)

  datatype Topology = Topology(cells: seq<seq<nat>>, halfFaces: seq<HalfFace>, faceLeft: seq<nat>)

  /** Half-face and face handles point into the right lists, and every loop has at least three vertices. */
  ghost predicate Linked(t: Topology)
  {
    (forall h :: 0 <= h < |t.halfFaces| ==> HalfFaceLinked(t, t.halfFaces[h])) &&
    (forall f :: 0 <= f < |t.faceLeft| ==> t.faceLeft[f] < |t.halfFaces|)
  }

  ghost predicate HalfFaceLinked(t: Topology, hf: HalfFace)
  {
    hf.cell < |t.cells| && hf.face < |t.faceLeft| && |hf.loop| >= 3 &&
    (hf.dual.Some? ==> hf.dual.value < |t.halfFaces|)
  }

  /** Every vertex handle used by a cell or a loop is below `nV`. */
  ghost predicate Indexed(t: Topology, nV: nat)
  {
    Linked(t) &&
    (forall c, j :: 0 <= c < |t.cells| && 0 <= j < |t.cells[c]| ==> t.cells[c][j] < nV) &&
    (forall h, k :: 0 <= h < |t.halfFaces| && 0 <= k < |t.halfFaces[h].loop| ==> t.halfFaces[h].loop[k] < nV)
  }

  /**
   * The dual relation is an involution between the two half-faces of one face,
   * and a face has no half-faces besides its left one and that one's dual.
   */
  ghost predicate Paired(t: Topology)
    requires Linked(t)
  {
    (forall h :: 0 <= h < |t.halfFaces| ==> DualPaired(t, h)) &&
    (forall f :: 0 <= f < |t.faceLeft| ==> t.halfFaces[t.faceLeft[f]].face == f) &&
    (forall h :: 0 <= h < |t.halfFaces| ==> OnItsFace(t, h))
  }

  ghost predicate DualPaired(t: Topology, h: nat)
    requires Linked(t) && h < |t.halfFaces|
  {
    var hf := t.halfFaces[h];
    hf.dual.Some? ==>
      var d := hf.dual.value;
      d != h && t.halfFaces[d].dual == Some(h) && t.halfFaces[d].face == hf.face
  }

  ghost predicate OnItsFace(t: Topology, h: nat)
    requires Linked(t) && h < |t.halfFaces|
  {
    var l := t.faceLeft[t.halfFaces[h].face];
    h == l || t.halfFaces[l].dual == Some(h)
  }

  /** The full topology invariant for cells of `cellSize` vertices and loops of `loopSize`. */
  ghost predicate WellFormed(t: Topology, nV: nat, cellSize: nat, loopSize: nat)
  {
    Indexed(t, nV) && Paired(t) &&
    (forall c :: 0 <= c < |t.cells| ==> |t.cells[c]| == cellSize) &&
    (forall h :: 0 <= h < |t.halfFaces| ==> |t.halfFaces[h].loop| == loopSize)
  }

  /** The vertices a face iterator visits: the loop of the face's left half-face. */
  function FaceVertices(t: Topology, f: nat): seq<nat>
    requires Linked(t) && f < |t.faceLeft|
  {
    t.halfFaces[t.faceLeft[f]].loop
  }

  /** The vertices that cut-vertex marking reaches: targets of the first three half-edges. */
  function CutMarks(t: Topology, f: nat): seq<nat>
    requires Linked(t) && f < |t.faceLeft|
  {
    FaceVertices(t, f)[..3]
  }

  /** Adding vertices keeps every handle in range. */
  lemma WellFormedGrow(t: Topology, nV: nat, nV': nat, cellSize: nat, loopSize: nat)
    requires WellFormed(t, nV, cellSize, loopSize) && nV <= nV'
    ensures WellFormed(t, nV', cellSize, loopSize)
  {
  }
}
