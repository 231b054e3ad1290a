/**
 * The tetrahedral viewer widget, reduced to what it does to its state:
 * toggling and flood-selecting cut vertices, clearing the selection, and
 * loading a fiber file or a VASP position file. The nearest-vertex pick is an
 * input: the vertex the pick returns.
 */
module TetView {
  import opened Wrappers
  import opened LineInput
  import opened FiberFile
  import opened VaspFile
  import opened Selection
  import opened ViewerTMesh

  /** The largest value the minimal-fiber-length dialog accepts (INT_MAX). */
  const IntMax: int := 0x7fff_ffff

  class TetViewer {
    var mesh: TetMesh
    var isMeshLoaded: bool
    var isFiber: bool
    var isVASP: bool
    /** Fibers with fewer points than this are not drawn. */
    var fiberMinLength: int
    /** The points read from VASP files, in reading order. */
    var vaspVertexList: seq<Coords>

    ghost predicate Valid()
      reads this, mesh
    {
      mesh.Valid()
    }

    /** A viewer with an empty mesh and nothing loaded. */
    constructor ()
      ensures Valid() && fresh(mesh)
      ensures mesh.vId == [] && mesh.fibers == []
      ensures !isMeshLoaded && !isFiber && !isVASP && fiberMinLength == 0 && vaspVertexList == []
    {
      mesh := new TetMesh.Empty();
      isMeshLoaded, isFiber, isVASP := false, false, false;
      fiberMinLength := 0;
      vaspVertexList := [];
    }

    // -------------------------------------------------------------------------
    // Selection

    /**
     * Flip the selected flag of the picked vertex, leaving every other vertex
     * flag alone, then recompute the face selection.
     */
    method SelectCutFace(pick: nat)
      requires Valid() && mesh.OnCutFace(pick)
      modifies mesh`vSelected, mesh`faceSelected, mesh`selectedFaces
      ensures Valid()
      ensures pick < |old(mesh.vSelected)| && mesh.vSelected == old(mesh.vSelected)[pick := !old(mesh.vSelected)[pick]]
      ensures mesh.selectedFaces == SelectedFaces(mesh.topo, mesh.vSelected, mesh.cutFaces)
      ensures forall f :: 0 <= f < |mesh.topo.faceLeft| ==>
                mesh.faceSelected[f] == if f in mesh.cutFaces then FaceSelected(mesh.topo, mesh.vSelected, f)
                                        else old(mesh.faceSelected)[f]
    {
      mesh.PickIsVertex(pick);
      if mesh.vSelected[pick] {
        mesh.SetSelected(pick, false);
      } else {
        mesh.SetSelected(pick, true);
      }
      mesh.UpdateSelectedFaces();
    }

    /**
     * Select the picked vertex and flood from it over cut vertices that are
     * not yet selected, then recompute the face selection.
     */
    method SelectAllCutFaces(pick: nat)
      requires Valid() && mesh.OnCutFace(pick)
      modifies mesh`vSelected, mesh`faceSelected, mesh`selectedFaces
      ensures Valid()
      ensures |mesh.vSelected| == |old(mesh.vSelected)|
      ensures forall v :: 0 <= v < |mesh.vSelected| ==>
                (mesh.vSelected[v] <==> old(mesh.vSelected)[v] || v == pick ||
                                        Flooded(mesh.adj, mesh.vCut, old(mesh.vSelected), pick, v))
      ensures forall v :: 0 <= v < |mesh.vSelected| && mesh.vSelected[v] && !old(mesh.vSelected)[v] && v != pick ==>
                mesh.vCut[v]
      ensures mesh.selectedFaces == SelectedFaces(mesh.topo, mesh.vSelected, mesh.cutFaces)
      ensures forall f :: 0 <= f < |mesh.topo.faceLeft| ==>
                mesh.faceSelected[f] == if f in mesh.cutFaces then FaceSelected(mesh.topo, mesh.vSelected, f)
                                        else old(mesh.faceSelected)[f]
    {
      mesh.PickIsVertex(pick);
      var sel;
      ghost var visited;
      sel, visited := FloodSelect(mesh.adj, mesh.vCut, mesh.vSelected, pick);
      mesh.SetSelection(sel);
      mesh.UpdateSelectedFaces();
    }

    /** Unselect every vertex, then recompute the face selection: no cut face stays selected. */
    method ClearSelectedVF()
      requires Valid()
      modifies mesh`vSelected, mesh`faceSelected, mesh`selectedFaces
      ensures Valid()
      ensures |mesh.vSelected| == |old(mesh.vSelected)| && forall v :: 0 <= v < |mesh.vSelected| ==> !mesh.vSelected[v]
      ensures mesh.selectedFaces == []
      ensures forall i :: 0 <= i < |mesh.cutFaces| ==> !mesh.faceSelected[mesh.cutFaces[i]]
      ensures forall f :: 0 <= f < |mesh.topo.faceLeft| ==>
                mesh.faceSelected[f] == if f in mesh.cutFaces then false else old(mesh.faceSelected)[f]
    {
      var v := 0;
      while v < |mesh.vSelected|
        invariant 0 <= v <= |mesh.vSelected| == |old(mesh.vSelected)| && mesh.Valid()
        invariant forall u :: 0 <= u < v ==> !mesh.vSelected[u]
        invariant mesh.faceSelected == old(mesh.faceSelected)
      {
        mesh.SetSelected(v, false);
        v := v + 1;
      }
      mesh.UpdateSelectedFaces();
      NoSelectionNoFaces(mesh.topo, mesh.vSelected, mesh.cutFaces);
      forall f | 0 <= f < |mesh.topo.faceLeft| && f in mesh.cutFaces
        ensures !FaceSelected(mesh.topo, mesh.vSelected, f)
      {
        var i :| 0 <= i < |mesh.cutFaces| && mesh.cutFaces[i] == f;
      }
    }

    // -------------------------------------------------------------------------
    // Loading

    /** Loading any file first replaces a loaded mesh by an empty one; the loaded flag stays as it was. */
    method ResetMesh()
      requires Valid()
      modifies this`mesh
      ensures Valid()
      ensures old(isMeshLoaded) ==> fresh(mesh) && mesh.vId == [] && mesh.fibers == []
      ensures !old(isMeshLoaded) ==> mesh == old(mesh)
    {
      if isMeshLoaded {
        mesh := new TetMesh.Empty();
      }
    }

    /**
     * Load a fiber file: reset the mesh, keep the minimal length the user
     * entered, append the file's fibers to the mesh and switch to fiber
     * drawing, whether or not the file could be read.
     */
    method LoadFiberFile(file: Option<seq<Line>>, parseInt: string -> int, minLength: int)
      requires Valid()
      requires 0 <= minLength <= IntMax
      modifies this`mesh, this`fiberMinLength, this`isFiber, mesh`fibers
      ensures Valid() && isMeshLoaded == old(isMeshLoaded)
      ensures old(isMeshLoaded) ==> fresh(mesh) && mesh.vId == []
      ensures !old(isMeshLoaded) ==> mesh == old(mesh)
      ensures fiberMinLength == minLength && isFiber
      ensures var before := if old(isMeshLoaded) then [] else old(mesh.fibers);
              mesh.fibers == before + (if file.None? then [] else FiberStream(file.value, parseInt).0)
    {
      ResetMesh();
      fiberMinLength := minLength;
      var status := mesh.LoadF(file, parseInt);
      isFiber := true;
    }

    /**
     * Load a VASP position file. When it cannot be opened nothing else
     * changes; otherwise the viewer switches to VASP drawing and appends the
     * file's points.
     */
    method LoadVaspFile(file: Option<seq<Line>>)
      requires Valid()
      requires file.Some? ==> file.value != []
      modifies this`mesh, this`isVASP, this`vaspVertexList
      ensures Valid() && isMeshLoaded == old(isMeshLoaded)
      ensures old(isMeshLoaded) ==> fresh(mesh) && mesh.vId == [] && mesh.fibers == []
      ensures !old(isMeshLoaded) ==> mesh == old(mesh)
      ensures file.None? ==> isVASP == old(isVASP) && vaspVertexList == old(vaspVertexList)
      ensures file.Some? ==> isVASP && vaspVertexList == old(vaspVertexList) + VaspPoints(file.value)
    {
      ResetMesh();
      if file.None? {
        return;
      }
      isVASP := true;
      var points := ReadVasp(file.value);
      vaspVertexList := vaspVertexList + points;
    }

    /**
     * The read loop of the VASP branch: skip lines until one starts with
     * `Cartesian`, then read one point per line until end of file.
     */
    static method ReadVasp(s: seq<Line>) returns (points: seq<Coords>)
      requires s != []
      ensures points == VaspPoints(s)
    {
      points := [];
      var rest := s;
      var eof := false;
      var flag := false;
      var line: Line := [];
      while !eof
        invariant eof == (rest == []) && |rest| <= |s|
        invariant !flag ==> points == [] &&
                            (rest != [] ==> VaspPoints(rest) == VaspPoints(s)) &&
                            (rest == [] ==> VaspPoints(s) == [])
        invariant flag ==> points + AllCoords(rest) == VaspPoints(s)
        decreases |rest|
      {
        if !flag {
          if Token(rest[0], 0) != "Cartesian" {
            SkipLine(rest);
          } else {
            StartPoints(rest);
          }
          line, rest := rest[0], rest[1..];
          eof := rest == [];
          if Token(line, 0) != "Cartesian" {
            continue;
          }
          flag := true;
        }
        // a read at end of file fails and leaves `line` as it was
        if !eof {
          AllCoordsStep(rest);
          line, rest := rest[0], rest[1..];
          eof := rest == [];
        }
        points := points + [CoordsOf(line)];
      }
    }
  }
}
