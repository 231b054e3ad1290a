/**
 * The tetrahedral viewer mesh: per-vertex, per-tet and per-face flags over a
 * fixed half-face topology, the lists the plane cut and the selection derive
 * from them, the duplicate-vertex bookkeeping of cutting the volume, and the
 * fibers read from a fiber file.
 */
module ViewerTMesh {
  import opened Wrappers
  import opened Geometry
  import opened HalfFaceMesh
  import opened CutSpec
  import opened Selection
  import opened LineInput
  import opened FiberFile
  import opened CutVolume

  /** The part of a tetrahedral mesh's state that a plane cut leaves alone. */
  datatype Untouched = Untouched(ids: seq<int>, pos: seq<Point>, traits: seq<string>, selected: seq<bool>,
                                 adj: seq<seq<nat>>, faceSelected: seq<bool>, selectedFaces: seq<nat>,
                                 maxVertexId: int, nVertices: int, idMap: map<int, nat>, dupOf: map<int, int>,
                                 fibers: seq<Fiber>)

  class TetMesh {
    /** Tets (4 vertex handles each), half-faces (3-vertex loops) and faces. */
    const topo: Topology
    /** Tet ids, in tet-list order. */
    const tetIds: seq<int>
    /** The tet count the `.tet` writer prints. */
    const nTets: int

    // Vertex list, one entry per vertex handle.
    var vId: seq<int>
    var vPos: seq<Point>
    var vTraits: seq<string>
    var vOutside: seq<bool>
    var vCut: seq<bool>
    var vSelected: seq<bool>
    /** Neighbours each vertex-vertex iteration visits. */
    var adj: seq<seq<nat>>

    var cellOutside: seq<bool>
    var faceCut: seq<bool>
    var faceSelected: seq<bool>

    /** Face handles, one per half-face that disagrees with its dual. */
    var cutFaces: seq<nat>
    /** Half-face handles drawn on either side of the cut. */
    var above: seq<nat>
    var below: seq<nat>
    /** Cut-face entries whose vertices are all selected. */
    var selectedFaces: seq<nat>

    var maxVertexId: int
    var nVertices: int
    /** Vertex id to vertex handle. */
    var idMap: map<int, nat>
    /** Original vertex id to the id of its duplicate, kept across volume cuts. */
    var dupOf: map<int, int>

    var fibers: seq<Fiber>

    /** The topology invariant, and one flag per vertex, tet and face. */
    ghost predicate Shaped()
      reads this
    {
      WellFormed(topo, |vId|, 4, 3) &&
      |vPos| == |vId| && |vTraits| == |vId| && |vOutside| == |vId| && |vCut| == |vId| &&
      |vSelected| == |vId| && |adj| == |vId| &&
      |cellOutside| == |topo.cells| && |tetIds| == |topo.cells| &&
      |faceCut| == |topo.faceLeft| && |faceSelected| == |topo.faceLeft|
    }

    /** Neighbour lists and vertex ids, which neither cutting nor selecting touches. */
    ghost predicate Linkage()
      reads this`adj, this`vId, this`maxVertexId, this`idMap, this`dupOf
    {
      |adj| == |vId| && AdjIndexed(adj) && IdsConsistent(vId, maxVertexId, idMap, dupOf)
    }

    ghost predicate Valid()
      reads this
    {
      Shaped() && Linkage() &&
      (forall i :: 0 <= i < |cutFaces| ==> cutFaces[i] < |topo.faceLeft|)
    }

    /** What the last cut left behind. */
    function Classified(): Classification
      reads this
    {
      Classification(vOutside, cellOutside, faceCut, cutFaces, vCut, above, below)
    }

    /** Everything but the cut's flags and lists. */
    function UncutState(): Untouched
      reads this
    {
      Untouched(vId, vPos, vTraits, vSelected, adj, faceSelected, selectedFaces,
                maxVertexId, nVertices, idMap, dupOf, fibers)
    }

    /** The mesh is valid and holds what a cut with plane `p` computes. */
    ghost predicate HoldsCut(p: Plane)
      reads this
    {
      Valid() && Classified() == Classify(topo, vPos, p)
    }

    /** A mesh with nothing loaded. */
    constructor Empty()
      ensures Valid()
      ensures vId == [] && fibers == [] && cutFaces == [] && selectedFaces == []
    {
      topo := Topology([], [], []);
      tetIds := [];
      nTets := 0;
      vId, vPos, vTraits, vOutside, vCut, vSelected, adj := [], [], [], [], [], [], [];
      cellOutside, faceCut, faceSelected := [], [], [];
      cutFaces, above, below, selectedFaces := [], [], [], [];
      maxVertexId, nVertices := 0, 0;
      idMap, dupOf := map[], map[];
      fibers := [];
    }

    /**
     * A mesh as the mesh library's loader leaves it: the given topology,
     * vertices and tets, every flag cleared, no cut, no selection, no
     * duplicates and no fibers.
     */
    constructor FromFile(t: Topology, ids: seq<int>, pos: seq<Point>, traits: seq<string>, neighbours: seq<seq<nat>>,
                       tIds: seq<int>, maxId: int, handles: map<int, nat>)
      requires WellFormed(t, |ids|, 4, 3)
      requires |pos| == |ids| && |traits| == |ids| && |neighbours| == |ids| && AdjIndexed(neighbours)
      requires |tIds| == |t.cells|
      requires IdsConsistent(ids, maxId, handles, map[])
      ensures Valid()
      ensures topo == t && vId == ids && vPos == pos && vTraits == traits && adj == neighbours && tetIds == tIds
      ensures maxVertexId == maxId && idMap == handles && dupOf == map[]
      ensures nVertices == |ids| && nTets == |tIds|
      ensures (forall v :: 0 <= v < |ids| ==> !vOutside[v] && !vCut[v] && !vSelected[v]) &&
              (forall c :: 0 <= c < |tIds| ==> !cellOutside[c]) &&
              (forall f :: 0 <= f < |t.faceLeft| ==> !faceCut[f] && !faceSelected[f])
      ensures cutFaces == [] && above == [] && below == [] && selectedFaces == [] && fibers == []
    {
      topo := t;
      tetIds := tIds;
      nTets := |tIds|;
      vId, vPos, vTraits, adj := ids, pos, traits, neighbours;
      vOutside, vCut, vSelected := seq(|ids|, _ => false), seq(|ids|, _ => false), seq(|ids|, _ => false);
      cellOutside := seq(|t.cells|, _ => false);
      faceCut, faceSelected := seq(|t.faceLeft|, _ => false), seq(|t.faceLeft|, _ => false);
      cutFaces, above, below, selectedFaces := [], [], [], [];
      maxVertexId, nVertices := maxId, |ids|;
      idMap, dupOf := handles, map[];
      fibers := [];
    }

    /**
     * Cut with plane `p`: clear the three lists, classify vertices and tets,
     * recompute face cut flags and the cut-face list, mark cut vertices and
     * route half-faces to Above or Below. Everything it sets is a function of
     * the topology, the positions and `p`.
     */
    method Cut(p: Plane)
      requires Valid()
      modifies this`vOutside, this`vCut, this`cellOutside, this`faceCut, this`cutFaces, this`above, this`below
      ensures Valid()
      ensures Classified() == Classify(topo, vPos, p)
    {
      above, below, cutFaces := [], [], [];
      ClassifySides(p);
      ListAndRoute();
      ClassifyByParts(topo, vPos, p, Classified());
      assert unchanged(this`adj, this`vId, this`maxVertexId, this`idMap, this`dupOf);
    }

    /** The vertex and tet halves of a cut. */
    method ClassifySides(p: Plane)
      requires Shaped()
      modifies this`vOutside, this`vCut, this`cellOutside
      ensures Shaped()
      ensures vOutside == VertexSides(vPos, p) && cellOutside == CellSides(topo, vOutside)
      ensures forall u :: 0 <= u < |vCut| ==> !vCut[u]
    {
      ClassifyVertices(p);
      ClassifyCells();
    }

    /** The face, cut-vertex and half-face halves of a cut, from the tet sides. */
    method ListAndRoute()
      requires Shaped() && cutFaces == [] && above == [] && below == []
      requires forall u :: 0 <= u < |vCut| ==> !vCut[u]
      modifies this`vCut, this`faceCut, this`cutFaces, this`above, this`below
      ensures Shaped()
      ensures faceCut == FaceCutFlags(topo, cellOutside)
      ensures cutFaces == CutFaces(topo, cellOutside, |topo.halfFaces|)
      ensures vCut == CutVertexFlags(topo, cutFaces, |vId|)
      ensures above == AboveUpTo(topo, cellOutside, |topo.halfFaces|)
      ensures below == BelowUpTo(topo, cellOutside, |topo.halfFaces|)
    {
      ListCutFaces();
      MarkCutVertices();
      RouteHalfFaces();
    }

    /** Reset every vertex's cut flag and set its outside flag from the plane. */
    method ClassifyVertices(p: Plane)
      requires Shaped()
      modifies this`vOutside, this`vCut
      ensures Shaped()
      ensures vOutside == VertexSides(vPos, p)
      ensures forall u :: 0 <= u < |vCut| ==> !vCut[u]
    {
      var v := 0;
      while v < |vId|
        invariant 0 <= v <= |vId| && |vOutside| == |vId| && |vCut| == |vId|
        invariant forall u :: 0 <= u < v ==> vOutside[u] == IsOutside(p, vPos[u]) && !vCut[u]
      {
        vCut := vCut[v := false];
        vOutside := vOutside[v := IsOutside(p, vPos[v])];
        v := v + 1;
      }
    }

    /** A tet starts outside and turns inside at its first vertex that is not outside. */
    method ClassifyCells()
      requires Shaped()
      modifies this`cellOutside
      ensures Shaped()
      ensures cellOutside == CellSides(topo, vOutside)
    {
      var c := 0;
      while c < |topo.cells|
        invariant 0 <= c <= |topo.cells| && |cellOutside| == |topo.cells|
        invariant forall d :: 0 <= d < c ==> cellOutside[d] == AllOutside(topo.cells[d], vOutside)
      {
        var cell := topo.cells[c];
        cellOutside := cellOutside[c := true];
        var j := 0;
        while j < 4
          invariant 0 <= j <= 4 && |cellOutside| == |topo.cells|
          invariant forall d :: 0 <= d < c ==> cellOutside[d] == AllOutside(topo.cells[d], vOutside)
          invariant cellOutside[c] && forall i :: 0 <= i < j ==> vOutside[cell[i]]
        {
          if !vOutside[cell[j]] {
            cellOutside := cellOutside[c := false];
            break;
          }
          j := j + 1;
        }
        c := c + 1;
      }
    }

    /** Clear every face's cut flag, then list and flag the face of each half-face whose tet disagrees with its dual's. */
    method ListCutFaces()
      requires Shaped() && cutFaces == []
      modifies this`faceCut, this`cutFaces
      ensures Shaped()
      ensures cutFaces == CutFaces(topo, cellOutside, |topo.halfFaces|)
      ensures faceCut == FaceCutFlags(topo, cellOutside)
    {
      var f := 0;
      while f < |topo.faceLeft|
        modifies this`faceCut
        invariant 0 <= f <= |topo.faceLeft| && |faceCut| == |topo.faceLeft|
        invariant forall g :: 0 <= g < f ==> !faceCut[g]
      {
        faceCut := faceCut[f := false];
        f := f + 1;
      }

      var h := 0;
      while h < |topo.halfFaces|
        modifies this`faceCut, this`cutFaces
        invariant 0 <= h <= |topo.halfFaces| && |faceCut| == |topo.faceLeft|
        invariant cutFaces == CutFaces(topo, cellOutside, h)
        invariant forall g :: 0 <= g < |topo.faceLeft| ==> (faceCut[g] <==> g in cutFaces)
      {
        var hf := topo.halfFaces[h];
        if hf.dual.Some? {
          var d := hf.dual.value;
          if cellOutside[hf.cell] != cellOutside[topo.halfFaces[d].cell] {
            cutFaces := cutFaces + [hf.face];
            faceCut := faceCut[hf.face := true];
          }
        }
        h := h + 1;
      }
      forall g | 0 <= g < |topo.faceLeft|
        ensures faceCut[g] == FaceSeesDisagreement(topo, cellOutside, g)
      {
        CutFacesMembership(topo, cellOutside, |topo.halfFaces|, g);
      }
    }

    /** Mark the targets of the first three half-edges of each listed face's left half-face as cut. */
    method MarkCutVertices()
      requires Shaped() && forall u :: 0 <= u < |vCut| ==> !vCut[u]
      requires forall i :: 0 <= i < |cutFaces| ==> cutFaces[i] < |topo.faceLeft|
      modifies this`vCut
      ensures Shaped()
      ensures vCut == CutVertexFlags(topo, cutFaces, |vId|)
    {
      var i := 0;
      while i < |cutFaces|
        invariant 0 <= i <= |cutFaces| && |vCut| == |vId|
        invariant forall u :: 0 <= u < |vId| ==> (vCut[u] <==> IsCutVertex(topo, cutFaces[..i], u))
      {
        var fv := FaceVertices(topo, cutFaces[i]);
        vCut := vCut[fv[0] := true][fv[1] := true][fv[2] := true];
        forall u | 0 <= u < |vId|
          ensures vCut[u] <==> IsCutVertex(topo, cutFaces[..i + 1], u)
        {
          CutVertexPrefix(topo, cutFaces, i, u);
          assert CutMarks(topo, cutFaces[i]) == [fv[0], fv[1], fv[2]];
        }
        i := i + 1;
      }
      assert cutFaces[..|cutFaces|] == cutFaces;
    }

    /** Route each half-face to Above, Below or neither by its tet's side and its dual's. */
    method RouteHalfFaces()
      requires Shaped() && above == [] && below == []
      modifies this`above, this`below
      ensures Shaped()
      ensures above == AboveUpTo(topo, cellOutside, |topo.halfFaces|)
      ensures below == BelowUpTo(topo, cellOutside, |topo.halfFaces|)
    {
      var h := 0;
      while h < |topo.halfFaces|
        invariant 0 <= h <= |topo.halfFaces|
        invariant above == AboveUpTo(topo, cellOutside, h) && below == BelowUpTo(topo, cellOutside, h)
      {
        var hf := topo.halfFaces[h];
        var out := cellOutside[hf.cell];
        if hf.dual.None? {
          if out {
            above := above + [h];
          } else {
            below := below + [h];
          }
        } else {
          var dOut := cellOutside[topo.halfFaces[hf.dual.value].cell];
          if out && !dOut {
            above := above + [h];
          } else if !out && dOut {
            below := below + [h];
          }
        }
        h := h + 1;
      }
    }

    // -------------------------------------------------------------------------
    // Selected faces

    /**
     * Rebuild the selected-face list from the vertex selection: each listed cut
     * face is cleared, then selected and appended exactly when all of its
     * vertices are selected. Faces off the cut-face list keep their flag.
     */
    method UpdateSelectedFaces()
      requires Valid()
      modifies this`faceSelected, this`selectedFaces
      ensures Valid()
      ensures selectedFaces == SelectedFaces(topo, vSelected, cutFaces)
      ensures forall f :: 0 <= f < |topo.faceLeft| ==>
                faceSelected[f] == if f in cutFaces then FaceSelected(topo, vSelected, f) else old(faceSelected)[f]
    {
      ReselectCutFaces();
    }

    /** Vertex `v` is visited by the face iterator of some listed cut face: the only vertices the nearest-vertex pick can return. */
    ghost predicate OnCutFace(v: nat)
      requires Valid()
      reads this
    {
      exists i, k :: 0 <= i < |cutFaces| && 0 <= k < |FaceVertices(topo, cutFaces[i])| &&
                     FaceVertices(topo, cutFaces[i])[k] == v
    }

    /** A vertex on a listed cut face is a vertex of the mesh. */
    lemma PickIsVertex(v: nat)
      requires Valid() && OnCutFace(v)
      ensures v < |vSelected|
    {
      var i, k :| 0 <= i < |cutFaces| && 0 <= k < |FaceVertices(topo, cutFaces[i])| &&
                  FaceVertices(topo, cutFaces[i])[k] == v;
      assert topo.faceLeft[cutFaces[i]] < |topo.halfFaces|;
    }

    /** Set one vertex's selected flag. */
    method SetSelected(v: nat, b: bool)
      requires Valid() && v < |vSelected|
      modifies this`vSelected
      ensures Valid() && vSelected == old(vSelected)[v := b]
    {
      vSelected := vSelected[v := b];
    }

    /** Replace the vertex selection flags, one per vertex. */
    method SetSelection(sel: seq<bool>)
      requires Valid() && |sel| == |vSelected|
      modifies this`vSelected
      ensures Valid() && vSelected == sel
    {
      vSelected := sel;
    }

    /** The loop of `UpdateSelectedFaces`, needing only the face flags and the cut-face list to line up with the topology. */
    method ReselectCutFaces()
      requires Indexed(topo, |vSelected|) && |faceSelected| == |topo.faceLeft|
      requires forall i :: 0 <= i < |cutFaces| ==> cutFaces[i] < |topo.faceLeft|
      modifies this`faceSelected, this`selectedFaces
      ensures |faceSelected| == |topo.faceLeft|
      ensures selectedFaces == SelectedFaces(topo, vSelected, cutFaces)
      ensures forall f :: 0 <= f < |topo.faceLeft| ==>
                faceSelected[f] == if f in cutFaces then FaceSelected(topo, vSelected, f) else old(faceSelected)[f]
    {
      selectedFaces := [];
      var i := 0;
      while i < |cutFaces|
        invariant 0 <= i <= |cutFaces| && |faceSelected| == |topo.faceLeft|
        invariant Reselected(i, old(faceSelected))
      {
        ReselectOne(i, old(faceSelected));
        i := i + 1;
      }
      assert cutFaces[..i] == cutFaces;
    }

    /** The first `i` cut faces have been redone, starting from the flags `before`. */
    ghost predicate Reselected(i: nat, before: seq<bool>)
      requires Indexed(topo, |vSelected|) && i <= |cutFaces|
      requires forall j :: 0 <= j < |cutFaces| ==> cutFaces[j] < |topo.faceLeft|
      reads this
    {
      selectedFaces == SelectedFaces(topo, vSelected, cutFaces[..i]) &&
      forall f :: 0 <= f < |topo.faceLeft| && f < |faceSelected| && f < |before| ==>
        faceSelected[f] == if f in cutFaces[..i] then FaceSelected(topo, vSelected, f) else before[f]
    }

    /** One pass of the loop of `UpdateSelectedFaces`: clear the `i`-th cut face, then select and list it when all its vertices are selected. */
    method ReselectOne(i: nat, ghost before: seq<bool>)
      requires Indexed(topo, |vSelected|) && |faceSelected| == |topo.faceLeft| == |before|
      requires forall j :: 0 <= j < |cutFaces| ==> cutFaces[j] < |topo.faceLeft|
      requires i < |cutFaces| && Reselected(i, before)
      modifies this`faceSelected, this`selectedFaces
      ensures |faceSelected| == |topo.faceLeft| && Reselected(i + 1, before)
    {
      var f := cutFaces[i];
      faceSelected := faceSelected[f := false];
      var all := AllVerticesSelected(f);
      if all {
        faceSelected := faceSelected[f := true];
        selectedFaces := selectedFaces + [f];
      }
      assert cutFaces[..i + 1] == cutFaces[..i] + [f];
    }

    /** Visit every vertex of face `f`, noting whether one of them is not selected. */
    method AllVerticesSelected(f: nat) returns (all: bool)
      requires Indexed(topo, |vSelected|) && f < |topo.faceLeft|
      ensures all == FaceSelected(topo, vSelected, f)
    {
      var loop := FaceVertices(topo, f);
      all := true;
      var k := 0;
      while k < |loop|
        invariant 0 <= k <= |loop|
        invariant all == forall j :: 0 <= j < k ==> vSelected[loop[j]]
      {
        if !vSelected[loop[k]] {
          all := false;
        }
        k := k + 1;
      }
    }

    // -------------------------------------------------------------------------
    // Cutting the volume along the selected vertices

    /** The state the volume writer reads. */
    function Snapshot(): Volume
      reads this
    {
      Volume(vId, vPos, vTraits, vSelected, topo.cells, tetIds, cellOutside, idMap, dupOf, nVertices, nTets)
    }

    /**
     * Give every selected vertex a duplicate: the new vertices (same position,
     * no traits, no flags, no neighbours) are appended after the old ones with
     * the next ids after the largest, the largest id and the vertex count grow
     * by their number, and the duplicate map records them except for vertices
     * that already had one.
     */
    method DuplicateSelected()
      requires Valid()
      modifies this`vId, this`vPos, this`vTraits, this`vOutside, this`vCut, this`vSelected, this`adj
      modifies this`maxVertexId, this`nVertices, this`idMap, this`dupOf
      ensures Valid()
      ensures var hs := SelectedVertices(old(vSelected));
              var n := |hs|;
              vId == old(vId) + FreshIds(old(maxVertexId), n) &&
              vPos == old(vPos) + Pick(old(vPos), hs) &&
              vTraits == old(vTraits) + Repeat("", n) &&
              vOutside == old(vOutside) + Repeat(false, n) &&
              vCut == old(vCut) + Repeat(false, n) &&
              vSelected == old(vSelected) + Repeat(false, n) &&
              adj == old(adj) + Repeat([], n) &&
              maxVertexId == old(maxVertexId) + n && nVertices == old(nVertices) + n &&
              dupOf == AddDuplicates(old(dupOf), Pick(old(vId), hs), old(maxVertexId)) &&
              idMap == AddHandles(old(idMap), old(maxVertexId), |old(vId)|, n)
      ensures forall u :: 0 <= u < |vId| && vSelected[u] ==> vId[u] in dupOf
    {
      IdsBelowMax(vId, maxVertexId, idMap, dupOf);
      DuplicationKeepsIds(vId, maxVertexId, idMap, dupOf, vSelected);
      var newIds, newPos, dups, handles := CollectDuplicates(vId, vPos, vSelected, maxVertexId, idMap, dupOf);
      ghost var oldIds, oldSel := vId, vSelected;
      AppendDuplicates(newIds, newPos, dups, handles);
      forall u | 0 <= u < |vId| && vSelected[u]
        ensures vId[u] in dupOf
      {
        assert u < |oldIds| && oldSel[u] && vId[u] == oldIds[u];
      }
    }

    /**
     * Append the new vertices with the given ids and positions, cleared flags
     * and no neighbours, and install the grown id map and duplicate map.
     */
    method AppendDuplicates(newIds: seq<int>, newPos: seq<Point>, dups: map<int, int>, handles: map<int, nat>)
      requires Valid() && |newPos| == |newIds|
      requires IdsConsistent(vId + newIds, maxVertexId + |newIds|, handles, dups)
      modifies this`vId, this`vPos, this`vTraits, this`vOutside, this`vCut, this`vSelected, this`adj
      modifies this`maxVertexId, this`nVertices, this`idMap, this`dupOf
      ensures Valid()
      ensures var n := |newIds|;
              vId == old(vId) + newIds && vPos == old(vPos) + newPos && vTraits == old(vTraits) + Repeat("", n) &&
              vOutside == old(vOutside) + Repeat(false, n) && vCut == old(vCut) + Repeat(false, n) &&
              vSelected == old(vSelected) + Repeat(false, n) && adj == old(adj) + Repeat([], n) &&
              maxVertexId == old(maxVertexId) + n && nVertices == old(nVertices) + n &&
              dupOf == dups && idMap == handles
    {
      var n := |newIds|;
      WellFormedGrow(topo, |vId|, |vId| + n, 4, 3);
      AdjIndexedGrow(adj, n);
      AppendVertices(newIds, newPos);
      SetIds(maxVertexId + n, nVertices + n, dups, handles);
    }

    /**
     * `_cutVolumeWrite`: duplicate the selected vertices, then write the file
     * for extension `ext` when it can be opened. The duplicates stay in the mesh
     * whether or not the file opens.
     */
    method CutVolumeWrite(ext: string, canOpen: bool) returns (written: Option<seq<CutRecord>>)
      requires Valid()
      modifies this`vId, this`vPos, this`vTraits, this`vOutside, this`vCut, this`vSelected, this`adj
      modifies this`maxVertexId, this`nVertices, this`idMap, this`dupOf
      ensures Valid() && Writable(Snapshot())
      ensures var hs := SelectedVertices(old(vSelected));
              var n := |hs|;
              vId == old(vId) + FreshIds(old(maxVertexId), n) &&
              vPos == old(vPos) + Pick(old(vPos), hs) &&
              vTraits == old(vTraits) + Repeat("", n) &&
              vOutside == old(vOutside) + Repeat(false, n) &&
              vCut == old(vCut) + Repeat(false, n) &&
              vSelected == old(vSelected) + Repeat(false, n) &&
              adj == old(adj) + Repeat([], n) &&
              maxVertexId == old(maxVertexId) + n && nVertices == old(nVertices) + n &&
              dupOf == AddDuplicates(old(dupOf), Pick(old(vId), hs), old(maxVertexId)) &&
              idMap == AddHandles(old(idMap), old(maxVertexId), |old(vId)|, n)
      ensures written == if canOpen then Some(CutFile(Snapshot(), ext)) else None
    {
      DuplicateSelected();
      if !canOpen {
        return None;
      }
      var recs := WriteFile(ext);
      written := Some(recs);
    }

    /** The records written for extension `ext`: `.t` and `.tet` layouts, nothing for any other extension. */
    method WriteFile(ext: string) returns (recs: seq<CutRecord>)
      requires Valid() && forall u :: 0 <= u < |vId| && vSelected[u] ==> vId[u] in dupOf
      ensures Writable(Snapshot()) && recs == CutFile(Snapshot(), ext)
    {
      assert Writable(Snapshot());
      recs := [];
      if ext == "t" {
        var vertexLines := WriteVertexLines();
        var tetLines := WriteTetLines();
        recs := vertexLines + tetLines;
      } else if ext == "tet" {
        var pointLines := WritePointLines();
        var cellLines := WriteCellLines();
        recs := [CountLine(nVertices, "vertices"), CountLine(nTets, "tets")] + pointLines + cellLines;
      }
    }

    /** `.t`: one `Vertex` line per vertex, in vertex-list order. */
    method WriteVertexLines() returns (recs: seq<CutRecord>)
      requires Writable(Snapshot())
      ensures recs == VertexRecords(Snapshot())
    {
      ghost var w := Snapshot();
      recs := [];
      var v := 0;
      while v < |vId|
        invariant 0 <= v <= |vId| && recs == VertexRecords(w)[..v]
      {
        recs := recs + [VertexLine(vId[v], vPos[v], vTraits[v])];
        assert VertexRecords(w)[..v + 1] == VertexRecords(w)[..v] + [VertexRecords(w)[v]];
        v := v + 1;
      }
      assert VertexRecords(w)[..v] == VertexRecords(w);
    }

    /** `.t`: one `Tet` line per tet, in tet-list order. */
    method WriteTetLines() returns (recs: seq<CutRecord>)
      requires Writable(Snapshot())
      ensures recs == TetRecords(Snapshot())
    {
      ghost var w := Snapshot();
      recs := [];
      var c := 0;
      while c < |topo.cells|
        invariant 0 <= c <= |topo.cells| && recs == TetRecords(w)[..c]
      {
        var verts := TetEntries(c);
        recs := recs + [TetLine(tetIds[c], verts)];
        assert TetRecords(w)[..c + 1] == TetRecords(w)[..c] + [TetRecords(w)[c]];
        c := c + 1;
      }
      assert TetRecords(w)[..c] == TetRecords(w);
    }

    /** `.tet`: one point line per vertex, in vertex-list order. */
    method WritePointLines() returns (recs: seq<CutRecord>)
      requires Writable(Snapshot())
      ensures recs == PointRecords(Snapshot())
    {
      ghost var w := Snapshot();
      recs := [];
      var v := 0;
      while v < |vId|
        invariant 0 <= v <= |vId| && recs == PointRecords(w)[..v]
      {
        recs := recs + [PointLine(vPos[v], vTraits[v])];
        assert PointRecords(w)[..v + 1] == PointRecords(w)[..v] + [PointRecords(w)[v]];
        v := v + 1;
      }
      assert PointRecords(w)[..v] == PointRecords(w);
    }

    /** `.tet`: one 4-vertex cell line per tet, in tet-list order. */
    method WriteCellLines() returns (recs: seq<CutRecord>)
      requires Writable(Snapshot())
      ensures recs == CellRecords(Snapshot())
    {
      ghost var w := Snapshot();
      recs := [];
      var c := 0;
      while c < |topo.cells|
        invariant 0 <= c <= |topo.cells| && recs == CellRecords(w)[..c]
      {
        var verts := TetEntries(c);
        recs := recs + [CellLine(4, verts)];
        assert CellRecords(w)[..c + 1] == CellRecords(w)[..c] + [CellRecords(w)[c]];
        c := c + 1;
      }
      assert CellRecords(w)[..c] == CellRecords(w);
    }

    /**
     * The vertex ids written for tet `c`: in an outside tet each selected vertex
     * is looked up through its duplicate id; otherwise the tet's own vertex ids.
     */
    method TetEntries(c: nat) returns (verts: seq<int>)
      requires Writable(Snapshot()) && c < |topo.cells|
      ensures verts == TetVerts(Snapshot(), c)
    {
      ghost var w := Snapshot();
      var cell := topo.cells[c];
      verts := [];
      var j := 0;
      if cellOutside[c] {
        while j < |cell|
          invariant 0 <= j <= |cell| && verts == TetVerts(w, c)[..j]
        {
          var u := cell[j];
          if vSelected[u] {
            var newId := dupOf[vId[u]];
            assert newId in idMap by {
              assert forall k :: k in w.dupOf ==> w.dupOf[k] in w.idMap;
            }
            verts := verts + [vId[idMap[newId]]];
          } else {
            verts := verts + [vId[u]];
          }
          assert TetVerts(w, c)[..j + 1] == TetVerts(w, c)[..j] + [EntryId(w, c, j)];
          j := j + 1;
        }
      } else {
        while j < |cell|
          invariant 0 <= j <= |cell| && verts == TetVerts(w, c)[..j]
        {
          verts := verts + [vId[cell[j]]];
          assert TetVerts(w, c)[..j + 1] == TetVerts(w, c)[..j] + [EntryId(w, c, j)];
          j := j + 1;
        }
      }
      assert TetVerts(w, c)[..j] == TetVerts(w, c);
    }

    /**
     * `_write_cut_vertices`: one `<id> <duplicate id>` pair per entry of the
     * duplicate map, in increasing id order; nothing when the file cannot be opened.
     */
    method WriteCutVertices(canOpen: bool) returns (lines: seq<(int, int)>)
      ensures !canOpen ==> lines == []
      ensures canOpen ==>
                (forall i, j :: 0 <= i < j < |lines| ==> lines[i].0 < lines[j].0) &&
                (forall i :: 0 <= i < |lines| ==> lines[i].0 in dupOf && lines[i].1 == dupOf[lines[i].0]) &&
                (forall k :: k in dupOf ==> exists i :: 0 <= i < |lines| && lines[i].0 == k)
    {
      lines := [];
      if !canOpen {
        return;
      }
      var rest := dupOf.Keys;
      while rest != {}
        invariant rest <= dupOf.Keys
        invariant forall i, j :: 0 <= i < j < |lines| ==> lines[i].0 < lines[j].0
        invariant forall i :: 0 <= i < |lines| ==> lines[i].0 in dupOf && lines[i].1 == dupOf[lines[i].0]
        invariant forall i, k :: 0 <= i < |lines| && k in rest ==> lines[i].0 < k
        invariant forall k :: k in dupOf && k !in rest ==> exists i :: 0 <= i < |lines| && lines[i].0 == k
        decreases |rest|
      {
        var k := SmallestKey(rest);
        ghost var before := lines;
        lines := lines + [(k, dupOf[k])];
        rest := rest - {k};
        forall x | x in dupOf && x !in rest
          ensures exists i :: 0 <= i < |lines| && lines[i].0 == x
        {
          if x == k {
            assert lines[|before|].0 == x;
          } else {
            var i :| 0 <= i < |before| && before[i].0 == x;
            assert lines[i].0 == x;
          }
        }
      }
    }

    // -------------------------------------------------------------------------
    // Loading fibers

    /**
     * `_load_f`: read fibers from the file while it is not at its end and
     * append each to the fiber list. A file that cannot be opened changes
     * nothing; a bad closed flag or a line that is not a fiber header stops
     * the load, keeping the fibers read so far.
     */
    method LoadF(file: Option<seq<Line>>, parseInt: string -> int) returns (status: LoadStatus)
      requires Valid()
      modifies this`fibers
      ensures Valid()
      ensures file.None? ==> status == CannotOpen && fibers == old(fibers)
      ensures file.Some? ==>
                var r := FiberStream(file.value, parseInt);
                fibers == old(fibers) + r.0 && status == r.1
    {
      if file.None? {
        return CannotOpen;
      }
      var rest := file.value;
      var eof := false;
      ghost var done: seq<Fiber> := [];
      status := Loaded;
      while !eof
        invariant fibers == old(fibers) + done
        invariant !eof ==> Resumes(done, rest, file.value, parseInt)
        invariant eof ==> FiberStream(file.value, parseInt) == (done, status)
        decreases |rest|, !eof
      {
        var fiber, failure, after := ReadFiber(rest, parseInt);
        if fiber.None? {
          assert done + [] == done;
          return failure;
        }
        ResumesStep(done, fiber.value, rest, after, file.value, parseInt);
        fibers := fibers + [fiber.value];
        done := done + [fiber.value];
        rest := after;
        eof := rest == [];
      }
    }

    /**
     * One pass of the loop of `_load_f`: read a header line and, when it is a
     * valid fiber header, the point lines it announces. `None` when reading
     * stops at this header, with the status it stops with.
     */
    static method ReadFiber(s: seq<Line>, parseInt: string -> int)
      returns (fiber: Option<Fiber>, failure: LoadStatus, rest: seq<Line>)
      ensures fiber.None? ==> FiberStream(s, parseInt) == ([], failure)
      ensures fiber.Some? ==>
                (rest == [] || |rest| < |s|) &&
                FiberStream(s, parseInt) ==
                  if rest == [] then ([fiber.value], Loaded)
                  else ([fiber.value] + FiberStream(rest, parseInt).0, FiberStream(rest, parseInt).1)
    {
      var line := Head(s);
      rest := Rest(s);
      failure := Loaded;
      if Token(line, 0) != "fiber" {
        return None, FormatError, rest;
      }
      var c := parseInt(Token(line, 1));
      var closed: bool;
      if c == 1 {
        closed := true;
      } else if c == 0 {
        closed := false;
      } else {
        return None, BadClosedFlag, rest;
      }
      FiberStreamStep(s, parseInt);
      var pts, after, eof := ReadPointLines(rest, rest == [], parseInt(Token(line, 2)));
      fiber, rest := Some(Fiber(pts, closed)), after;
    }

    /** The point loop of `_load_f`: read up to `count` lines while not at end of file. */
    static method ReadPointLines(s: seq<Line>, eof: bool, count: int) returns (pts: seq<Coords>, rest: seq<Line>, eof': bool)
      requires eof == (s == [])
      ensures pts == ReadPoints(s, count) && rest == s[|pts|..] && eof' == (rest == [])
    {
      pts, rest, eof' := [], s, eof;
      var i := 0;
      while i < count && !eof'
        invariant 0 <= i <= |s| && |pts| == i && rest == s[i..] && eof' == (rest == [])
        invariant pts + ReadPoints(rest, count - i) == ReadPoints(s, count)
      {
        ReadPointsStep(rest, count - i);
        assert (pts + [CoordsOf(rest[0])]) + ReadPoints(rest[1..], count - i - 1) == pts + ReadPoints(rest, count - i);
        assert s[i + 1..] == rest[1..];
        pts := pts + [CoordsOf(Head(rest))];
        rest := Rest(rest);
        eof' := rest == [];
        i := i + 1;
      }
    }

    /** Record the new largest id, vertex count, duplicate map and id map. */
    method SetIds(maxId: int, count: int, dups: map<int, int>, handles: map<int, nat>)
      modifies this`maxVertexId, this`nVertices, this`idMap, this`dupOf
      ensures maxVertexId == maxId && nVertices == count && dupOf == dups && idMap == handles
    {
      maxVertexId, nVertices, dupOf, idMap := maxId, count, dups, handles;
    }

    /** Append vertices with the given ids and positions, no traits, cleared flags and no neighbours. */
    method AppendVertices(newIds: seq<int>, newPos: seq<Point>)
      modifies this`vId, this`vPos, this`vTraits, this`vOutside, this`vCut, this`vSelected, this`adj
      ensures var n := |newIds|;
              vId == old(vId) + newIds && vPos == old(vPos) + newPos && vTraits == old(vTraits) + Repeat("", n) &&
              vOutside == old(vOutside) + Repeat(false, n) && vCut == old(vCut) + Repeat(false, n) &&
              vSelected == old(vSelected) + Repeat(false, n) && adj == old(adj) + Repeat([], n)
    {
      var n := |newIds|;
      vId, vPos, vTraits := vId + newIds, vPos + newPos, vTraits + Repeat("", n);
      vOutside, vCut, vSelected := vOutside + Repeat(false, n), vCut + Repeat(false, n), vSelected + Repeat(false, n);
      adj := adj + Repeat([], n);
    }
  }
}
