# VolumeViewerQt: plane cuts, cut-face selection and file I/O, modelled in Dafny

VolumeViewerQt is a Qt/OpenGL viewer for tetrahedral and hexahedral volume
meshes. This project models the part of it that computes things rather than
drawing them:

- **Plane cut** (`_cut` of the tetrahedral and the hexahedral viewer mesh). Every
  vertex is classified by the side of the cutting plane it lies on. A cell is
  "outside" when all of its vertices are. A half-face whose cell disagrees with
  its dual's cell puts its face on the cut-face list; boundary half-faces are
  never listed, only routed. The first three vertices of each listed face's loop
  are marked as cut: every vertex of a triangle, three of a quad's four. A
  boundary half-face, or one that disagrees with its dual, is routed to the
  "above" or "below" drawing list. Both meshes share
  one specification, `CutSpec.Classify`. Each mesh class's `Cut` method is
  proved to leave exactly that classification in its fields.
- **Cut-face selection** (`selectCutFace`, `selectAllCutFaces`, `clearSelectedVF`
  of both viewer widgets, and the mesh's `_updateSelectedFaces`):
  - toggling the picked vertex;
  - a breadth-first flood over cut, unselected neighbours, proved to select
    exactly the vertices reachable by such paths;
  - clearing;
  - recomputing which cut faces have every vertex selected.
- **Volume cut export** (`_cutVolumeWrite`, `_write_cut_vertices`):
  - every selected vertex gets a duplicate with the next fresh id;
  - the `.t` or `.tet` file rewrites the vertices of outside tetrahedra that are
    selected to their duplicates;
  - the duplicate map is written in ascending key order.
- **Readers**:
  - the fiber file (`_load_f`): a header line `fiber <closed> <n>` followed by up
    to n point lines, with three failure outcomes;
  - the VASP branch of the tetrahedral viewer's `loadFile`: skip to the line that
    starts with `Cartesian`, then read one point per line.

  Both come with round-trip lemmas against a writer of the same format.
- **Axis cuts** (`xCut`, `yCut`, `zCut`, `plusMove`, `minusMove`). The plane is set
  or shifted by 0.05, then every loaded tetrahedral and hexahedral mesh is cut
  with it.

### How the model is organised

| file | contents |
|---|---|
| `geometry.dfy` | points, planes and the side test |
| `topology.dfy` | the half-face topology shared by both mesh kinds |
| `cut_spec.dfy` | the cut as functions, and its properties |
| `selection.dfy` | face selection and the flood as functions and value-level methods |
| `cut_volume.dfy` | duplication, the file records, and their properties |
| `line_input.dfy`, `fiber_file.dfy`, `vasp_file.dfy` | the two text formats |
| `viewer_tmesh.dfy`, `viewer_hmesh.dfy` | the mesh classes, whose methods update their fields in loops as the C++ does |
| `vol_viewer.dfy`, `tet_viewer.dfy` | the two widgets |

A text file is modelled as the sequence of its newline-separated segments, each
already split into tokens. Reading a segment sets end-of-file exactly when it is
the last one. So even an empty file is one (empty) segment, which is why
`LoadVaspFile` requires an opened file to have at least one segment. A file that
cannot be opened is `None`.

## Model

| member | source | states |
|---|---|---|
| `Geometry.AxisPlaneSides` | VolViewer.cpp:1251-1317 | a one-step fact that explains what the axis cuts do: a vertex is outside the plane x = d (resp. y, z) iff its x (resp. y, z) coordinate is at least d |
| `HalfFaceMesh.WellFormedGrow` | ViewerTFiberMesh.h:341-348 | a one-step helper for duplication: appending vertices keeps every cell and half-face index valid |
| `CutSpec.CutFaces` | ViewerTFiberMesh.h:608-626 | every listed cut face is a face of the mesh, and there are at most as many as half-faces scanned |
| `CutSpec.AboveUpTo` | ViewerTFiberMesh.h:644-675 | the "above" list holds only half-faces already scanned |
| `CutSpec.BelowUpTo` | ViewerTFiberMesh.h:644-675 | the "below" list holds only half-faces already scanned |
| `CutSpec.ClassifyByParts` | ViewerTFiberMesh.h:566-676 | the per-stage results of the vertex, cell, face, cut-vertex and routing passes together make up exactly the cut's classification |
| `CutSpec.CutFacesMembership` | ViewerTFiberMesh.h:608-626 | a face is on the cut list iff one of its scanned half-faces has a dual and lies in a cell whose side differs from its dual's cell; boundary faces are never listed |
| `CutSpec.DisagreesSymmetric` | ViewerTFiberMesh.h:614-624 | an interior half-face disagrees exactly when its dual does |
| `CutSpec.CutFacesCountUpTo` | ViewerTFiberMesh.h:608-626 | a face's number of occurrences on the cut list is the number of its two half-faces that disagree |
| `CutSpec.CutFaceListedTwice` | ViewerTFiberMesh.h:608-626 | an interior face that separates inside from outside appears on the cut list exactly twice; any other interior face does not appear |
| `CutSpec.AboveBelowMembership` | ViewerTFiberMesh.h:644-675 | a half-face is on the above (below) list iff it is routed there, and both lists are strictly increasing, so they have no repeats |
| `CutSpec.AboveBelowDisjoint` | ViewerTFiberMesh.h:644-675 | no half-face is routed both above and below |
| `CutSpec.InteriorRouting` | ViewerTFiberMesh.h:660-674 | an interior half-face is routed somewhere iff it disagrees with its dual, and it goes above exactly when its dual goes below |
| `CutSpec.BoundaryRouting` | ViewerTFiberMesh.h:648-659 | a boundary half-face goes above iff its cell is outside, and below otherwise |
| `CutSpec.TriangleFacesFullyMarked` | ViewerTFiberMesh.h:628-642 | every vertex of a triangular cut face is marked as cut |
| `CutSpec.FourthVertexNeedsAnotherFace` | ViewerHMesh.h:326-340 | the fourth vertex of a quad cut face is marked only when another listed face marks it, because the marking loop visits three vertices per face |
| `CutSpec.CutVertexPrefix` | ViewerTFiberMesh.h:628-642 | the marks after i+1 cut faces are the marks after i faces plus the marks of face i |
| `ViewerTMesh.TetMesh.Empty` | TetViewer.cpp:8 | a mesh with nothing loaded: no vertices, no fibers, no cut and no selected faces |
| `ViewerTMesh.TetMesh.FromFile` | TetViewer.cpp:933-941 | the state the `.tet` and `.t` loaders leave: a loaded mesh with the given topology, vertices, tets and id lookup, every flag cleared, no cut, no selection, no duplicates and no fibers, satisfying the mesh invariant |
| `ViewerTMesh.TetMesh.Cut` | ViewerTFiberMesh.h:566-676 | after a cut, the vertex, cell and face flags and the cut, above and below lists are exactly `Classify` of the mesh's positions and the plane, and the mesh invariant still holds |
| `ViewerTMesh.TetMesh.ClassifySides` | ViewerTFiberMesh.h:569-600 | vertex sides follow the plane, cell sides follow the vertex sides, and every cut mark is cleared |
| `ViewerTMesh.TetMesh.ListAndRoute` | ViewerTFiberMesh.h:602-675 | starting from cleared lists, the face flags, the cut list, the cut marks and the above/below lists equal their specifications |
| `ViewerTMesh.TetMesh.ClassifyVertices` | ViewerTFiberMesh.h:571-579 | each vertex's outside flag is the plane side test of its position, and its cut mark is cleared |
| `ViewerTMesh.TetMesh.ClassifyCells` | ViewerTFiberMesh.h:581-600 | a tetrahedron is outside iff all four of its vertices are |
| `ViewerTMesh.TetMesh.ListCutFaces` | ViewerTFiberMesh.h:602-626 | face flags are reset and then set on disagreeing faces, and the cut list is the specified list, in half-face order |
| `ViewerTMesh.TetMesh.MarkCutVertices` | ViewerTFiberMesh.h:628-642 | a vertex is marked cut iff some cut face marks it |
| `ViewerTMesh.TetMesh.RouteHalfFaces` | ViewerTFiberMesh.h:644-675 | the above and below lists are the specified routing of every half-face, in order |
| `ViewerTMesh.TetMesh.UpdateSelectedFaces` | ViewerTFiberMesh.h:474-499 | the selected-face list is the cut faces whose vertices are all selected; a cut face's flag is set iff all its vertices are selected; flags of faces not on the cut list are untouched |
| `ViewerTMesh.TetMesh.ReselectCutFaces` | ViewerTFiberMesh.h:476-498 | the loop over the cut list yields the selected-face list and the face flags stated for `UpdateSelectedFaces` |
| `ViewerTMesh.TetMesh.ReselectOne` | ViewerTFiberMesh.h:480-497 | one more cut face processed keeps the loop's invariant: flags and list agree with the specification on the processed prefix |
| `ViewerTMesh.TetMesh.AllVerticesSelected` | ViewerTFiberMesh.h:483-491 | the answer is true iff every vertex of the face is selected |
| `ViewerTMesh.TetMesh.PickIsVertex` | VolViewer.cpp:684-703 | a vertex picked from a cut face is a vertex of the mesh |
| `ViewerTMesh.TetMesh.SetSelected` | VolViewer.cpp:704-711 | only the given vertex's selected flag changes, and the mesh invariant holds |
| `ViewerTMesh.TetMesh.SetSelection` | VolViewer.cpp:749-772 | the selection flags become the given ones, and the mesh invariant holds |
| `ViewerTMesh.TetMesh.DuplicateSelected` | ViewerTFiberMesh.h:321-348 | each selected vertex, in list order, gets a vertex at the same position with id max+1, max+2, …; the duplicate map gains original id ↦ new id for ids not already mapped; the vertex count and the maximal id grow by the number of duplicates; afterwards every selected vertex has a duplicate |
| `ViewerTMesh.TetMesh.AppendDuplicates` | ViewerTFiberMesh.h:341-348 | the new vertices are appended after the old ones with empty traits and cleared flags, and the id bookkeeping is replaced by the given consistent maps |
| `ViewerTMesh.TetMesh.CutVolumeWrite` | ViewerTFiberMesh.h:318-459 | duplicates are added whether or not the output opens; when it opens the file holds exactly `CutFile` of the new mesh state, otherwise nothing is written |
| `ViewerTMesh.TetMesh.WriteFile` | ViewerTFiberMesh.h:357-456 | the records written are `CutFile` for the extension: `.t` vertex and tet lines, `.tet` counts, point and cell lines, any other extension nothing |
| `ViewerTMesh.TetMesh.WriteVertexLines` | ViewerTFiberMesh.h:359-373 | one `Vertex` record per vertex, in order, with its id, position and traits |
| `ViewerTMesh.TetMesh.WriteTetLines` | ViewerTFiberMesh.h:375-404 | one `Tet` record per tetrahedron, in order, with its four vertex ids |
| `ViewerTMesh.TetMesh.WritePointLines` | ViewerTFiberMesh.h:411-424 | one point record per vertex, in order, with position and traits |
| `ViewerTMesh.TetMesh.WriteCellLines` | ViewerTFiberMesh.h:426-455 | one `4 a b c d` record per tetrahedron, in order |
| `ViewerTMesh.TetMesh.TetEntries` | ViewerTFiberMesh.h:379-402 | the four ids written for a tetrahedron are those of `TetVerts` |
| `ViewerTMesh.TetMesh.WriteCutVertices` | ViewerTFiberMesh.h:461-471 | when the file opens, the lines list every entry of the duplicate map exactly once, with strictly increasing original ids; otherwise nothing is written |
| `ViewerTMesh.TetMesh.LoadF` | ViewerTFiberMesh.h:245-315 | an unopenable file leaves the fibers unchanged and reports it; otherwise the fibers read before the first error are appended and the outcome is reported |
| `ViewerTMesh.TetMesh.ReadFiber` | ViewerTFiberMesh.h:258-306 | one header and its point lines are consumed; the result is the first fiber of `FiberStream` and the rest of the stream continues from what is left |
| `ViewerTMesh.TetMesh.ReadPointLines` | ViewerTFiberMesh.h:289-304 | up to `count` point lines are read, stopping at end of file, and the unread segments are returned |
| `ViewerHMesh.HexMesh.Cut` | ViewerHMesh.h:264-374 | after a cut, the hexahedral mesh's flags and lists are exactly `Classify` of its positions and the plane |
| `ViewerHMesh.HexMesh.ClassifySides` | ViewerHMesh.h:267-298 | vertex sides follow the plane, hexahedron sides follow the vertex sides, and every cut mark is cleared |
| `ViewerHMesh.HexMesh.ListAndRoute` | ViewerHMesh.h:300-373 | starting from cleared lists, face flags, cut list, cut marks and routing equal their specifications |
| `ViewerHMesh.HexMesh.ClassifyVertices` | ViewerHMesh.h:269-277 | each vertex's outside flag is the plane side test, and its cut mark is cleared |
| `ViewerHMesh.HexMesh.ClassifyCells` | ViewerHMesh.h:279-298 | a hexahedron is outside iff all eight of its vertices are |
| `ViewerHMesh.HexMesh.ListCutFaces` | ViewerHMesh.h:300-324 | face flags are reset and set on disagreeing faces, and the cut list is the specified list |
| `ViewerHMesh.HexMesh.MarkCutVertices` | ViewerHMesh.h:326-340 | a vertex is marked cut iff some cut face marks it (three loop vertices per face) |
| `ViewerHMesh.HexMesh.RouteHalfFaces` | ViewerHMesh.h:342-373 | the above and below lists are the specified routing of every half-face |
| `Selection.SelectedFaces` | ViewerTFiberMesh.h:474-499 | bounds only: the selected faces are faces of the mesh, no more of them than cut faces; what they are is `SelectedFacesMembership` |
| `Selection.SelectedFacesMembership` | ViewerTFiberMesh.h:474-499 | a face is in the selected-face list iff it is a cut face and all its vertices are selected |
| `Selection.NoSelectionNoFaces` | VolViewer.cpp:1384-1395 | with no vertex selected, no cut face is selected and the selected-face list is empty |
| `Selection.AdjIndexedGrow` | ViewerTFiberMesh.h:341-348 | new vertices without neighbours keep the adjacency well indexed |
| `Selection.Unselected` | VolViewer.cpp:754-772 | the flood's termination measure, bounded by the number of vertices; its decrease is `SelectOneMore` |
| `Selection.SelectOneMore` | VolViewer.cpp:768 | selecting one unselected vertex lowers that number by one, so the flood terminates |
| `Selection.Enqueue` | VolViewer.cpp:762-770 | selecting and enqueuing an unselected cut neighbour keeps the flood invariant: every queued vertex is reached by a path of cut, originally unselected vertices |
| `Selection.ExpandVertex` | VolViewer.cpp:756-771 | after expanding a queued vertex, each of its cut neighbours is selected, the queue only grows at its end, no flag is cleared, and the invariant holds |
| `Selection.VisitNeighbour` | VolViewer.cpp:761-770 | after visiting one neighbour, it is selected if it is cut, and the invariant holds |
| `Selection.FloodSelect` | VolViewer.cpp:749-772 | the result selects exactly the previously selected vertices, the start and the vertices reachable from the start through cut vertices that were unselected; every newly selected vertex other than the start is cut; each vertex is visited at most once |
| `Selection.FloodStart` | VolViewer.cpp:749-752 | selecting and queuing the start establishes the flood invariant |
| `Selection.ExpandedStep` | VolViewer.cpp:754-772 | once a queued vertex's cut neighbours are selected, that prefix of the queue stays expanded as the flood goes on |
| `Selection.FloodOutcome` | VolViewer.cpp:749-772 | when every queued vertex is expanded, the selection is exactly the old selection, the start and the flood-reachable vertices |
| `Selection.ClosedUnderFlood` | VolViewer.cpp:754-772 | a selection closed under expanding its queue contains the end of every flood path |
| `LineInput.PointLines` | TetViewer.cpp:987-998 | the writer used by the round-trip lemmas: one line per point |
| `LineInput.Rest` | ViewerTFiberMesh.h:256-258 | reading one segment leaves one segment fewer, and nothing from an exhausted file |
| `FiberFile.ReadPoints` | ViewerTFiberMesh.h:289-304 | a header asking for n points yields n of them, or fewer when the file ends first, and none when n is not positive |
| `FiberFile.ReadPointsAt` | ViewerTFiberMesh.h:289-304 | the i-th point read comes from the i-th segment after the header |
| `FiberFile.ReadPointsStep` | ViewerTFiberMesh.h:289-304 | reading points takes the first segment and continues with one fewer to read |
| `FiberFile.FiberStreamStep` | ViewerTFiberMesh.h:256-313 | a valid header yields one fiber from the following point lines, and reading continues after them unless the file has ended |
| `FiberFile.ResumesStep` | ViewerTFiberMesh.h:256-313 | the fibers read so far followed by what the rest of the stream yields are what the whole file yields |
| `FiberFile.FirstFiberFromHeader` | ViewerTFiberMesh.h:264-306 | an opened file never reports "cannot open"; the first fiber read comes from a `fiber` header, takes its closed flag from the header, and has at most as many points as announced |
| `FiberFile.FiberLines` | ViewerTFiberMesh.h:264-304 | a fiber is written as a header plus one line per point |
| `FiberFile.ReadPointsOfLines` | ViewerTFiberMesh.h:289-304 | reading back |pts| written point lines yields the points |
| `FiberFile.ReadOneFiber` | ViewerTFiberMesh.h:258-307 | a written fiber followed by more lines is read back as that fiber, then whatever the rest yields |
| `FiberFile.LoadOneMore` | ViewerTFiberMesh.h:256-313 | reading back a written fiber list extends by one fiber |
| `FiberFile.LoadSerializedThen` | ViewerTFiberMesh.h:256-313 | a written fiber list followed by more lines is read back as that list, then whatever the rest yields |
| `FiberFile.LoadSerialized` | ViewerTFiberMesh.h:245-315 | round trip: a non-empty fiber list written without a trailing newline is read back exactly, with a successful outcome |
| `FiberFile.ReadLastFiber` | ViewerTFiberMesh.h:258-313 | a single written fiber is read back exactly, with a successful outcome |
| `FiberFile.SerializeSplit` | ViewerTFiberMesh.h:256-313 | writing a list and a last fiber is writing the list, then that fiber |
| `FiberFile.TrailingNewlineIsFormatError` | ViewerTFiberMesh.h:308-312 | a written fiber list followed by a final newline reads every fiber, then reports a format error for the empty last line |
| `FiberFile.BadClosedFlagStops` | ViewerTFiberMesh.h:268-283 | a header whose closed flag is neither 0 nor 1 stops the load with the fibers read before it |
| `VaspFile.AllCoords` | TetViewer.cpp:987-998 | once the `Cartesian` line has been seen, each later segment yields the point of its first three tokens |
| `VaspFile.AllCoordsStep` | TetViewer.cpp:987-998 | reading points takes the first segment, then the rest |
| `VaspFile.SkipLine` | TetViewer.cpp:972-983 | a line that does not start with `Cartesian` is skipped |
| `VaspFile.StartPoints` | TetViewer.cpp:980-998 | the first point is read from the segment after the `Cartesian` line, or from that line again when the file ends with it |
| `VaspFile.SkipHeader` | TetViewer.cpp:969-985 | header lines without `Cartesian` do not change the points read |
| `VaspFile.NoCartesianNoPoints` | TetViewer.cpp:969-985 | a file without a `Cartesian` line yields no points |
| `VaspFile.PointsRoundTrip` | TetViewer.cpp:956-1004 | round trip: a header, a `Cartesian` line and written points, without a trailing newline, read back as exactly those points |
| `VaspFile.TrailingNewlineAddsEmptyPoint` | TetViewer.cpp:970-998 | a final newline after the points adds one extra point of empty coordinates |
| `VaspFile.CartesianLastIsReadAgain` | TetViewer.cpp:984-998 | when `Cartesian` is the last line, the failed read leaves it in place and it is read as one point |
| `CutVolume.SelectedVertices` | ViewerTFiberMesh.h:325-339 | every listed vertex is selected |
| `CutVolume.SelectedVerticesComplete` | ViewerTFiberMesh.h:325-339 | every selected vertex is listed |
| `CutVolume.AddDuplicatesKeys` | ViewerTFiberMesh.h:331 | the duplicate map gains exactly the selected ids as keys, and existing entries are kept |
| `CutVolume.AddDuplicatesFresh` | ViewerTFiberMesh.h:330-331 | for distinct ids not yet mapped, the i-th selected id maps to max + i + 1 |
| `CutVolume.FreshIds` | ViewerTFiberMesh.h:330 | bookkeeping: one fresh id per duplicate; the ids' meaning is in `AddHandlesLookup` |
| `CutVolume.Pick` | ViewerTFiberMesh.h:334 | the duplicates' positions are those of the selected vertices, in order |
| `CutVolume.AddHandlesLookup` | ViewerTFiberMesh.h:336 | the id lookup gains exactly the ids max+1 … max+n, each naming the corresponding appended vertex, and keeps its other entries |
| `CutVolume.AddDuplicatesValues` | ViewerTFiberMesh.h:331 | each map value is either an old value or one of the new ids |
| `CutVolume.AddDuplicatesOrigin` | ViewerTFiberMesh.h:331 | a new key is a selected id, mapped to the new id of its position among the selected vertices |
| `CutVolume.RepeatedDuplicateIsOrphan` | ViewerTFiberMesh.h:328-337 | exporting a vertex that already had a duplicate keeps its old duplicate, and the vertex created for it this time is named by no entry of the map |
| `CutVolume.IdsBelowMax` | ViewerTFiberMesh.h:330 | every id in the lookup is at most the maximal id |
| `CutVolume.DuplicationKeepsIds` | ViewerTFiberMesh.h:321-348 | after duplication the ids stay distinct and consistent with the lookup, the duplicate map and the maximal id, and every selected vertex has a duplicate |
| `CutVolume.TetVerts` | ViewerTFiberMesh.h:379-402 | one id per vertex of the tetrahedron: a selected vertex of an outside tetrahedron is written as its duplicate, any other as itself, and the id written always names a vertex |
| `CutVolume.VertexRecords` | ViewerTFiberMesh.h:359-373 | shape only: one record per vertex; the contents are `TetFileLayout` and `TetLinesNameVertexLines` |
| `CutVolume.TetRecords` | ViewerTFiberMesh.h:375-404 | shape only: one record per tetrahedron; the contents are `TetFileLayout` and `TetLinesNameVertexLines` |
| `CutVolume.PointRecords` | ViewerTFiberMesh.h:411-424 | shape only: one record per vertex; the contents are `TetFileLayout` and `TetLinesNameVertexLines` |
| `CutVolume.CellRecords` | ViewerTFiberMesh.h:426-455 | shape only: one record per tetrahedron; the contents are `TetFileLayout` and `TetLinesNameVertexLines` |
| `CutVolume.EntryId` | ViewerTFiberMesh.h:379-402 | the id written at one place of a tetrahedron, looked up through the id map, is the vertex's duplicate id when the tetrahedron is outside and the vertex selected, its own id otherwise, and always names a vertex |
| `CutVolume.TetLinesNameVertexLines` | ViewerTFiberMesh.h:357-404 | in a `.t` file every id on a `Tet` line is the id of some `Vertex` line of the same file |
| `CutVolume.TetFileLayout` | ViewerTFiberMesh.h:406-456 | a `.tet` file is the two count lines, one point line per vertex, and one cell line per tetrahedron carrying the same ids as the `.t` file |
| `CutVolume.SmallestKey` | ViewerTFiberMesh.h:466 | the next key written is the smallest one left |
| `CutVolume.Repeat` | ViewerTFiberMesh.h:332-335 | bookkeeping: n copies of the default value, one per new vertex |
| `CutVolume.CollectOne` | ViewerTFiberMesh.h:325-339 | one more vertex scanned keeps the collection invariant: the pass state's fresh ids, positions, duplicate map and lookup match the selected prefix, and its offset is one more than the number taken |
| `CutVolume.CollectDuplicates` | ViewerTFiberMesh.h:321-339 | the collected new ids, positions, duplicate map and lookup are those specified for the selected vertices |
| `VolView.VolViewer.constructor` | VolViewer.cpp:6-14 | a new viewer cuts at distance 0 with the plane z = 0 |
| `VolView.VolViewer.SelectCutFace` | VolViewer.cpp:673-716 | only the picked vertex's selection flips; the selected faces are recomputed as `UpdateSelectedFaces` states |
| `VolView.VolViewer.SelectAllCutFaces` | VolViewer.cpp:718-777 | the new selection is the old one plus the pick plus every vertex the flood reaches, all of them cut; the selected-face list is recomputed, a cut face's flag is set iff all its vertices are selected, and faces off the cut list keep their flag |
| `VolView.VolViewer.ClearSelectedVF` | VolViewer.cpp:1384-1395 | no vertex stays selected, no cut face stays selected, faces off the cut list keep their flag, and the selected-face list is empty |
| `VolView.VolViewer.XCut` | VolViewer.cpp:1251-1271 | the plane becomes x = cutDistance, every listed mesh holds the cut with it, and every tetrahedral mesh keeps its positions, selection, ids, duplicates and fibers |
| `VolView.VolViewer.YCut` | VolViewer.cpp:1273-1294 | the plane becomes y = cutDistance, every listed mesh holds the cut with it, and every tetrahedral mesh keeps its positions, selection, ids, duplicates and fibers |
| `VolView.VolViewer.ZCut` | VolViewer.cpp:1296-1317 | the plane becomes z = cutDistance, every listed mesh holds the cut with it, and every tetrahedral mesh keeps its positions, selection, ids, duplicates and fibers |
| `VolView.VolViewer.PlusMove` | VolViewer.cpp:1319-1341 | the distance grows by 0.05, the plane keeps its normal and takes the new distance, every listed mesh holds the cut with it, and nothing but the cut state of the tetrahedral meshes changes |
| `VolView.VolViewer.MinusMove` | VolViewer.cpp:1343-1365 | the distance shrinks by 0.05, the plane keeps its normal and takes the new distance, every listed mesh holds the cut with it, and nothing but the cut state of the tetrahedral meshes changes |
| `VolView.VolViewer.CutAll` | VolViewer.cpp:1259-1269 | after cutting the tetrahedral list and then the hexahedral list, every mesh of both lists holds the cut with the plane, and each tetrahedral mesh's positions, selection, ids, duplicates and fibers are as before |
| `VolView.VolViewer.CutTetMeshes` | VolViewer.cpp:1259-1263 | every tetrahedral mesh of the list holds the cut with the plane and keeps its positions, selection, ids, duplicates and fibers |
| `VolView.VolViewer.CutOne` | VolViewer.cpp:1261-1262 | one mesh holds the cut with the plane; its positions, selection, ids, duplicates and fibers are as before, as `_cut` writes only the cut fields |
| `VolView.VolViewer.CutHexMeshes` | VolViewer.cpp:1265-1269 | every hexahedral mesh of the list holds the cut with the plane (its topology and positions are constant, so only the cut state changes) |
| `TetView.TetViewer.constructor` | TetViewer.cpp:6-22 | a new viewer has an empty mesh, no fibers, no VASP points, minimal fiber length 0, and nothing loaded |
| `TetView.TetViewer.SelectCutFace` | TetViewer.cpp:594-637 | only the picked vertex's selection flips; the selected faces are recomputed |
| `TetView.TetViewer.SelectAllCutFaces` | TetViewer.cpp:639-698 | the new selection is the old one plus the pick plus every flood-reachable vertex, all of them cut; the selected-face list is recomputed, a cut face's flag is set iff all its vertices are selected, and faces off the cut list keep their flag |
| `TetView.TetViewer.ClearSelectedVF` | TetViewer.cpp:1212-1223 | no vertex and no cut face stays selected, faces off the cut list keep their flag, and the selected-face list is empty |
| `TetView.TetViewer.ResetMesh` | TetViewer.cpp:927-931 | a loaded mesh is replaced by a fresh empty one; otherwise the mesh is kept |
| `TetView.TetViewer.LoadFiberFile` | TetViewer.cpp:943-954 | the minimal length entered is stored, fiber drawing is switched on, and the mesh's fibers become those kept by the reset followed by the fibers the file yields |
| `TetView.TetViewer.LoadVaspFile` | TetViewer.cpp:956-1004 | an unopenable file changes nothing but the reset; otherwise VASP drawing is switched on and the file's points are appended to the VASP list |
| `TetView.TetViewer.ReadVasp` | TetViewer.cpp:969-999 | the skip-then-read loop yields exactly `VaspPoints` of the file |

## Left out

- Floating point: coordinates and plane distances are exact reals, so the 0.05 step accumulates without rounding. Parsed point coordinates are kept as their text tokens, because `parseString<double>` is not part of this model.
- The nearest-vertex pick (ray casting and `acos`) is not modelled; the picked vertex is an input. `SelectCutFace` and `SelectAllCutFaces` require it to lie on a cut face, because with an empty cut list the C++ dereferences an uninitialised pointer.
- The tokenizer, `strutil::trim` and `parseString<int>` are not modelled: lines arrive already split into tokens, and the integer parser is a function parameter. The header tokenizer's missing tab delimiter is therefore not modelled.
- File opening and the input dialog are parameters: a file is `Some(lines)` or `None`, an output stream is the `canOpen` flag, and the dialog's value is an argument whose `ok` flag the C++ ignores.
- The `.t`, `.tet` and hexahedral loaders (a loaded mesh is built with `TetMesh.FromFile` from their results), trait parsing, normalisation, drawing, `updateGL` and console output are not part of this model.
- `loadFile` branches for `.t` and `.tet`, and its final `isMeshLoaded = true`, are not part of this model; the `.f` and `.vasp` branches return before reaching it.
- Memory management (`free`, leaked fibers and vertices) is not modelled; a reset allocates a new empty mesh.
- `FaceVertexIterator` is modelled as the vertex loop of the face's left half-face, since the mesh library's iterator is not part of this model.
- `_write_cut_vertices` walks a `std::map`; the model writes the keys in ascending order through `SmallestKey` instead.
- The flood in `selectAllCutFaces` works on a copy of the selection flags that is then stored back into the mesh, rather than on the vertex objects themselves.
- VolView.VolViewer.XCut: the mesh lists are fixed when the viewer is built, and their meshes are distinct objects (each load in the C++ allocates a new mesh), so adding meshes to the lists is not modelled.
- TetView.TetViewer.LoadVaspFile: the points are read into a local list and then appended, rather than pushed one by one onto the viewer's list.
- TetView.TetViewer.ResetMesh: `isMeshLoaded` is never set by the modelled branches, matching the C++, where it only becomes true at the end of `loadFile`.
