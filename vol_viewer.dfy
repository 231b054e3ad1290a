/**
 * The volume viewer widget, reduced to what it does to its meshes: toggling
 * and flood-selecting cut vertices of the current tetrahedral mesh, clearing
 * the selection, and re-cutting every loaded mesh with an axis-aligned plane.
 * The nearest-vertex pick is an input: the vertex the pick returns.
 */
module VolView {
  import opened Geometry
  import opened HalfFaceMesh
  import opened CutSpec
  import opened Selection
  import opened ViewerTMesh
  import opened ViewerHMesh

  /** How far one plus or minus move shifts the cutting plane. */
  const MoveStep: real := 0.05

  class VolViewer {
    /** The tetrahedral mesh the selection tools work on. */
    const mesh: TetMesh
    /** Every loaded tetrahedral and hexahedral mesh; a cut applies to all of them. */
    const tmeshlist: seq<TetMesh>
    const hmeshlist: seq<HexMesh>
    var cutPlane: Plane
    var cutDistance: real

    ghost predicate MeshesValid()
      reads tmeshlist, hmeshlist
    {
      (forall a, b :: 0 <= a < b < |tmeshlist| ==> tmeshlist[a] != tmeshlist[b]) &&
      (forall a, b :: 0 <= a < b < |hmeshlist| ==> hmeshlist[a] != hmeshlist[b]) &&
      (forall i :: 0 <= i < |tmeshlist| ==> tmeshlist[i].Valid()) &&
      (forall i :: 0 <= i < |hmeshlist| ==> hmeshlist[i].Valid())
    }

    ghost predicate Valid()
      reads mesh, tmeshlist, hmeshlist
    {
      mesh.Valid() && MeshesValid()
    }

    /** Every listed mesh holds what a cut with plane `p` computes from its own positions. */
    ghost predicate AllCutWith(p: Plane)
      reads tmeshlist, hmeshlist
    {
      (forall i :: 0 <= i < |tmeshlist| ==> tmeshlist[i].HoldsCut(p)) &&
      (forall i :: 0 <= i < |hmeshlist| ==> hmeshlist[i].HoldsCut(p))
    }

    /** A cut left every listed tetrahedral mesh's positions, selection, ids and fibers as they were. */
    twostate predicate UncutKept()
      reads tmeshlist
    {
      forall i :: 0 <= i < |tmeshlist| ==> tmeshlist[i].UncutState() == old(tmeshlist[i].UncutState())
    }

    /** A viewer showing `m` among the loaded meshes `ts` and `hs`, with the plane z = 0. */
    constructor (m: TetMesh, ts: seq<TetMesh>, hs: seq<HexMesh>)
      requires m.Valid()
      requires forall a, b :: 0 <= a < b < |ts| ==> ts[a] != ts[b]
      requires forall a, b :: 0 <= a < b < |hs| ==> hs[a] != hs[b]
      requires forall i :: 0 <= i < |ts| ==> ts[i].Valid()
      requires forall i :: 0 <= i < |hs| ==> hs[i].Valid()
      ensures Valid() && mesh == m && tmeshlist == ts && hmeshlist == hs
      ensures cutDistance == 0.0 && cutPlane == Plane(ZAxis, 0.0)
    {
      mesh, tmeshlist, hmeshlist := m, ts, hs;
      cutDistance := 0.0;
      cutPlane := Plane(ZAxis, 0.0);
    }

    // -------------------------------------------------------------------------
    // Selection

    /**
     * Flip the selected flag of the picked vertex, leaving every other vertex
     * flag alone, then recompute the face selection.
     */
    method SelectCutFace(pick: nat)
      requires Valid() && mesh.OnCutFace(pick)
      modifies mesh`vSelected, mesh`faceSelected, mesh`selectedFaces
      ensures Valid()
      ensures pick < |old(mesh.vSelected)| && mesh.vSelected == old(mesh.vSelected)[pick := !old(mesh.vSelected)[pick]]
      ensures mesh.selectedFaces == SelectedFaces(mesh.topo, mesh.vSelected, mesh.cutFaces)
      ensures forall f :: 0 <= f < |mesh.topo.faceLeft| ==>
                mesh.faceSelected[f] == if f in mesh.cutFaces then FaceSelected(mesh.topo, mesh.vSelected, f)
                                        else old(mesh.faceSelected)[f]
    {
      mesh.PickIsVertex(pick);
      if mesh.vSelected[pick] {
        mesh.SetSelected(pick, false);
      } else {
        mesh.SetSelected(pick, true);
      }
      mesh.UpdateSelectedFaces();
      forall i | 0 <= i < |tmeshlist|
        ensures tmeshlist[i].Valid()
      {
        if tmeshlist[i] != mesh {
          assert unchanged(tmeshlist[i]);
        }
      }
    }

    /**
     * Select the picked vertex and flood from it over cut vertices that are
     * not yet selected, then recompute the face selection.
     */
    method SelectAllCutFaces(pick: nat)
      requires Valid() && mesh.OnCutFace(pick)
      modifies mesh`vSelected, mesh`faceSelected, mesh`selectedFaces
      ensures Valid()
      ensures |mesh.vSelected| == |old(mesh.vSelected)|
      ensures forall v :: 0 <= v < |mesh.vSelected| ==>
                (mesh.vSelected[v] <==> old(mesh.vSelected)[v] || v == pick ||
                                        Flooded(mesh.adj, mesh.vCut, old(mesh.vSelected), pick, v))
      ensures forall v :: 0 <= v < |mesh.vSelected| && mesh.vSelected[v] && !old(mesh.vSelected)[v] && v != pick ==>
                mesh.vCut[v]
      ensures mesh.selectedFaces == SelectedFaces(mesh.topo, mesh.vSelected, mesh.cutFaces)
      ensures forall f :: 0 <= f < |mesh.topo.faceLeft| ==>
                mesh.faceSelected[f] == if f in mesh.cutFaces then FaceSelected(mesh.topo, mesh.vSelected, f)
                                        else old(mesh.faceSelected)[f]
    {
      mesh.PickIsVertex(pick);
      var sel;
      ghost var visited;
      sel, visited := FloodSelect(mesh.adj, mesh.vCut, mesh.vSelected, pick);
      mesh.SetSelection(sel);
      mesh.UpdateSelectedFaces();
      forall i | 0 <= i < |tmeshlist|
        ensures tmeshlist[i].Valid()
      {
        if tmeshlist[i] != mesh {
          assert unchanged(tmeshlist[i]);
        }
      }
    }

    /** Unselect every vertex, then recompute the face selection: no cut face stays selected. */
    method ClearSelectedVF()
      requires Valid()
      modifies mesh`vSelected, mesh`faceSelected, mesh`selectedFaces
      ensures Valid()
      ensures |mesh.vSelected| == |old(mesh.vSelected)| && forall v :: 0 <= v < |mesh.vSelected| ==> !mesh.vSelected[v]
      ensures mesh.selectedFaces == []
      ensures forall i :: 0 <= i < |mesh.cutFaces| ==> !mesh.faceSelected[mesh.cutFaces[i]]
      ensures forall f :: 0 <= f < |mesh.topo.faceLeft| ==>
                mesh.faceSelected[f] == if f in mesh.cutFaces then false else old(mesh.faceSelected)[f]
    {
      var v := 0;
      while v < |mesh.vSelected|
        invariant 0 <= v <= |mesh.vSelected| == |old(mesh.vSelected)| && mesh.Valid()
        invariant forall u :: 0 <= u < v ==> !mesh.vSelected[u]
        invariant mesh.faceSelected == old(mesh.faceSelected)
      {
        mesh.SetSelected(v, false);
        v := v + 1;
      }
      mesh.UpdateSelectedFaces();
      NoSelectionNoFaces(mesh.topo, mesh.vSelected, mesh.cutFaces);
      forall f | 0 <= f < |mesh.topo.faceLeft| && f in mesh.cutFaces
        ensures !FaceSelected(mesh.topo, mesh.vSelected, f)
      {
        var i :| 0 <= i < |mesh.cutFaces| && mesh.cutFaces[i] == f;
      }
      forall i | 0 <= i < |tmeshlist|
        ensures tmeshlist[i].Valid()
      {
        if tmeshlist[i] != mesh {
          assert unchanged(tmeshlist[i]);
        }
      }
    }

    // -------------------------------------------------------------------------
    // Cutting

    /** Cut with the plane x = `cutDistance`. */
    method XCut()
      requires Valid()
      modifies this`cutPlane
      modifies tmeshlist, hmeshlist
      ensures cutPlane == Plane(XAxis, cutDistance)
      ensures Valid() && AllCutWith(cutPlane) && UncutKept()
    {
      cutPlane := Plane(XAxis, cutDistance);
      CutAll(cutPlane);
    }

    /** Cut with the plane y = `cutDistance`. */
    method YCut()
      requires Valid()
      modifies this`cutPlane
      modifies tmeshlist, hmeshlist
      ensures cutPlane == Plane(YAxis, cutDistance)
      ensures Valid() && AllCutWith(cutPlane) && UncutKept()
    {
      cutPlane := Plane(YAxis, cutDistance);
      CutAll(cutPlane);
    }

    /** Cut with the plane z = `cutDistance`. */
    method ZCut()
      requires Valid()
      modifies this`cutPlane
      modifies tmeshlist, hmeshlist
      ensures cutPlane == Plane(ZAxis, cutDistance)
      ensures Valid() && AllCutWith(cutPlane) && UncutKept()
    {
      cutPlane := Plane(ZAxis, cutDistance);
      CutAll(cutPlane);
    }

    /** Move the plane one step along its normal and cut again. */
    method PlusMove()
      requires Valid()
      modifies this`cutPlane, this`cutDistance
      modifies tmeshlist, hmeshlist
      ensures cutDistance == old(cutDistance) + MoveStep
      ensures cutPlane == Plane(old(cutPlane).normal, cutDistance)
      ensures Valid() && AllCutWith(cutPlane) && UncutKept()
    {
      cutDistance := cutDistance + MoveStep;
      cutPlane := cutPlane.(d := cutDistance);
      CutAll(cutPlane);
    }

    /** Move the plane one step against its normal and cut again. */
    method MinusMove()
      requires Valid()
      modifies this`cutPlane, this`cutDistance
      modifies tmeshlist, hmeshlist
      ensures cutDistance == old(cutDistance) - MoveStep
      ensures cutPlane == Plane(old(cutPlane).normal, cutDistance)
      ensures Valid() && AllCutWith(cutPlane) && UncutKept()
    {
      cutDistance := cutDistance - MoveStep;
      cutPlane := cutPlane.(d := cutDistance);
      CutAll(cutPlane);
    }

    /** Cut every listed tetrahedral mesh, then every listed hexahedral mesh, with `p`. */
    method CutAll(p: Plane)
      requires Valid()
      modifies tmeshlist, hmeshlist
      ensures Valid() && AllCutWith(p) && UncutKept()
    {
      CutTetMeshes(tmeshlist, p);
      label tets:
      CutHexMeshes(hmeshlist, p);
      forall i | 0 <= i < |tmeshlist|
        ensures tmeshlist[i].HoldsCut(p) && tmeshlist[i].UncutState() == old(tmeshlist[i].UncutState())
      {
        var t := tmeshlist[i];
        assert unchanged@tets(t);
      }
    }

    /** Cut every listed tetrahedral mesh with `p`, in list order. */
    static method CutTetMeshes(ms: seq<TetMesh>, p: Plane)
      requires forall a, b :: 0 <= a < b < |ms| ==> ms[a] != ms[b]
      requires forall i :: 0 <= i < |ms| ==> ms[i].Valid()
      modifies ms
      ensures forall i :: 0 <= i < |ms| ==>
                ms[i].HoldsCut(p) && ms[i].UncutState() == old(ms[i].UncutState())
    {
      var i := 0;
      while i < |ms|
        invariant 0 <= i <= |ms|
        invariant forall j :: i <= j < |ms| ==> unchanged(ms[j])
        invariant forall j :: 0 <= j < i ==> ms[j].UncutState() == old(ms[j].UncutState())
        invariant forall j :: 0 <= j < i ==> ms[j].HoldsCut(p)
      {
        CutOne(ms[i], p);
        i := i + 1;
      }
    }

    /** Cut one tetrahedral mesh, which touches only its cut flags and lists. */
    static method CutOne(m: TetMesh, p: Plane)
      requires m.Valid()
      modifies m
      ensures m.HoldsCut(p) && m.UncutState() == old(m.UncutState())
    {
      m.Cut(p);
    }

    /** Cut every listed hexahedral mesh with `p`, in list order. */
    static method CutHexMeshes(ms: seq<HexMesh>, p: Plane)
      requires forall a, b :: 0 <= a < b < |ms| ==> ms[a] != ms[b]
      requires forall i :: 0 <= i < |ms| ==> ms[i].Valid()
      modifies ms
      ensures forall i :: 0 <= i < |ms| ==>
                ms[i].HoldsCut(p)
    {
      var i := 0;
      while i < |ms|
        invariant 0 <= i <= |ms|
        invariant forall j :: i <= j < |ms| ==> unchanged(ms[j])
        invariant forall j :: 0 <= j < i ==>
                    ms[j].HoldsCut(p)
      {
        ms[i].Cut(p);
        i := i + 1;
      }
    }
  }
}
