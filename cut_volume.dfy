/**
 * Cutting the volume along the selected vertices: each selected vertex gets a
 * duplicate with a fresh id, and the written mesh lets outside tets use the
 * duplicates. This module holds the id bookkeeping and the record shapes.
 */
module CutVolume {
  import opened Geometry

  /** The id map sends every vertex id to its vertex and nothing else. */
  ghost predicate IdMapExact(vId: seq<int>, idMap: map<int, nat>)
  {
    (forall v :: 0 <= v < |vId| ==> vId[v] in idMap && idMap[vId[v]] == v) &&
    (forall k :: k in idMap ==> idMap[k] < |vId| && vId[idMap[k]] == k)
  }

  /**
   * Vertex ids stay at or below the largest id, the id map is exact, and every
   * recorded duplicate id is a vertex id.
   */
  ghost predicate IdsConsistent(vId: seq<int>, maxId: int, idMap: map<int, nat>, dupOf: map<int, int>)
  {
    (forall v :: 0 <= v < |vId| ==> vId[v] <= maxId) &&
    IdMapExact(vId, idMap) &&
    (forall k :: k in dupOf ==> dupOf[k] in idMap)
  }

  /** One record of a written mesh file; the text layout of each is left to the writer. */
  datatype CutRecord =
    | VertexLine(id: int, pos: Point, traits: string)   // `.t`: Vertex <id> <x> <y> <z> [{traits}]
    | TetLine(id: int, verts: seq<int>)                  // `.t`: Tet <id> <v0> <v1> <v2> <v3>
    | CountLine(count: int, noun: string)                // `.tet`: <n> vertices / <n> tets
    | PointLine(pos: Point, traits: string)              // `.tet`: <x> <y> <z> [{traits}]
    | CellLine(size: int, verts: seq<int>)               // `.tet`: 4 <v0> <v1> <v2> <v3>

  /** Handles of the selected vertices, in list order. */
  function SelectedVertices(sel: seq<bool>): (r: seq<nat>)
    ensures forall i :: 0 <= i < |r| ==> r[i] < |sel| && sel[r[i]]
  {
    if sel == [] then []
    else SelectedVertices(sel[..|sel| - 1]) + (if sel[|sel| - 1] then [|sel| - 1] else [])
  }

  /** Every selected vertex is listed. */
  lemma {:induction false} SelectedVerticesComplete(sel: seq<bool>, v: nat)
    requires v < |sel| && sel[v]
    ensures v in SelectedVertices(sel)
  {
    var last := |sel| - 1;
    if v < last {
      SelectedVerticesComplete(sel[..last], v);
    }
  }

  /**
   * The duplicate map after offering `ids[i] -> base + i + 1` for each `i` in
   * order; an id that already has a duplicate keeps it.
   */
  function AddDuplicates(m: map<int, int>, ids: seq<int>, base: int): (r: map<int, int>)
  {
    if ids == [] then m
    else
      var earlier := AddDuplicates(m, ids[..|ids| - 1], base);
      var k := ids[|ids| - 1];
      if k in earlier then earlier else earlier[k := base + |ids|]
  }

  /** The duplicate map gains exactly the offered ids, and an id that had a duplicate keeps it. */
  lemma {:induction false} AddDuplicatesKeys(m: map<int, int>, ids: seq<int>, base: int)
    ensures AddDuplicates(m, ids, base).Keys == m.Keys + (set k | k in ids)
    ensures forall k :: k in m ==> AddDuplicates(m, ids, base)[k] == m[k]
  {
    if ids != [] {
      var init := ids[..|ids| - 1];
      AddDuplicatesKeys(m, init, base);
      assert ids == init + [ids[|ids| - 1]];
      assert (set k | k in ids) == (set k | k in init) + {ids[|ids| - 1]};
    }
  }

  /**
   * When no offered id had a duplicate and the offered ids are distinct, the
   * `i`-th offered id gets the `i`-th fresh id.
   */
  lemma {:induction false} AddDuplicatesFresh(m: map<int, int>, ids: seq<int>, base: int, i: nat)
    requires forall j :: 0 <= j < |ids| ==> ids[j] !in m
    requires forall j, k :: 0 <= j < k < |ids| ==> ids[j] != ids[k]
    requires i < |ids|
    ensures ids[i] in AddDuplicates(m, ids, base)
    ensures AddDuplicates(m, ids, base)[ids[i]] == base + i + 1
  {
    var init := ids[..|ids| - 1];
    if i < |init| {
      AddDuplicatesFresh(m, init, base, i);
    } else {
      AddDuplicatesKeys(m, init, base);
      assert ids[i] !in init;
    }
  }

  /** The ids the `n` duplicates receive: the next `n` ids after the largest. */
  function FreshIds(maxId: int, n: nat): (r: seq<int>)
    ensures |r| == n
  {
    seq(n, i requires 0 <= i < n => maxId + i + 1)
  }

  /** The entries of `xs` at the handles `hs`, in order. */
  function Pick<T>(xs: seq<T>, hs: seq<nat>): (r: seq<T>)
    requires forall i :: 0 <= i < |hs| ==> hs[i] < |xs|
    ensures |r| == |hs| && forall i :: 0 <= i < |hs| ==> r[i] == xs[hs[i]]
  {
    seq(|hs|, i requires 0 <= i < |hs| => xs[hs[i]])
  }

  lemma PickSnoc<T>(xs: seq<T>, hs: seq<nat>, h: nat)
    requires forall i :: 0 <= i < |hs| ==> hs[i] < |xs|
    requires h < |xs|
    ensures Pick(xs, hs + [h]) == Pick(xs, hs) + [xs[h]]
  {
  }

  /** Listing one more handle: the selected list grows by it exactly when it is selected. */
  lemma SelectedVerticesSnoc(sel: seq<bool>, v: nat)
    requires v < |sel|
    ensures sel[v] ==> SelectedVertices(sel[..v + 1]) == SelectedVertices(sel[..v]) + [v]
    ensures !sel[v] ==> SelectedVertices(sel[..v + 1]) == SelectedVertices(sel[..v])
  {
    assert sel[..v + 1][..v] == sel[..v];
    if !sel[v] {
      assert SelectedVertices(sel[..v]) + [] == SelectedVertices(sel[..v]);
    }
  }

  /** Offering one more id: it gets the next fresh id unless it already has a duplicate. */
  lemma AddDuplicatesSnoc(m: map<int, int>, ids: seq<int>, x: int, base: int)
    ensures var earlier := AddDuplicates(m, ids, base);
            AddDuplicates(m, ids + [x], base) == if x in earlier then earlier else earlier[x := base + |ids| + 1]
  {
    assert (ids + [x])[..|ids|] == ids;
  }

  /** The id map after registering the `n` new vertices: id `maxId + i + 1` at handle `base + i`. */
  function AddHandles(m: map<int, nat>, maxId: int, base: nat, n: nat): map<int, nat>
  {
    if n == 0 then m else AddHandles(m, maxId, base, n - 1)[maxId + n := base + n - 1]
  }

  lemma AddHandlesSnoc(m: map<int, nat>, maxId: int, base: nat, n: nat)
    ensures AddHandles(m, maxId, base, n + 1) == AddHandles(m, maxId, base, n)[maxId + n + 1 := base + n]
  {
  }

  /** The new ids are registered at their handles and every other entry is kept. */
  lemma {:induction false} AddHandlesLookup(m: map<int, nat>, maxId: int, base: nat, n: nat, k: int)
    ensures k in AddHandles(m, maxId, base, n) <==> k in m || maxId < k <= maxId + n
    ensures maxId < k <= maxId + n ==> AddHandles(m, maxId, base, n)[k] == base + (k - maxId - 1)
    ensures k in m && !(maxId < k <= maxId + n) ==> AddHandles(m, maxId, base, n)[k] == m[k]
  {
    if n > 0 {
      AddHandlesLookup(m, maxId, base, n - 1, k);
    }
  }

  /** A duplicate is either one the map already had or one of the fresh ids offered. */
  lemma {:induction false} AddDuplicatesValues(m: map<int, int>, ids: seq<int>, base: int, k: int)
    requires k in AddDuplicates(m, ids, base)
    ensures (k in m && AddDuplicates(m, ids, base)[k] == m[k]) ||
            base < AddDuplicates(m, ids, base)[k] <= base + |ids|
  {
    if ids != [] {
      var init := ids[..|ids| - 1];
      if k in AddDuplicates(m, init, base) {
        AddDuplicatesValues(m, init, base, k);
      }
    }
  }

  /** A duplicate the map did not have before is the fresh id of a position where its vertex id was offered. */
  lemma {:induction false} AddDuplicatesOrigin(m: map<int, int>, ids: seq<int>, base: int, k: int)
    requires k in AddDuplicates(m, ids, base) && k !in m
    ensures exists j :: 0 <= j < |ids| && ids[j] == k && AddDuplicates(m, ids, base)[k] == base + j + 1
  {
    var init := ids[..|ids| - 1];
    var earlier := AddDuplicates(m, init, base);
    if k in earlier {
      AddDuplicatesOrigin(m, init, base, k);
      var j :| 0 <= j < |init| && init[j] == k && earlier[k] == base + j + 1;
      assert ids[j] == k;
    } else {
      assert ids[|ids| - 1] == k;
    }
  }

  /**
   * A vertex that already had a duplicate keeps it when selected again, so the
   * vertex created for it in this round is nobody's duplicate.
   */
  lemma RepeatedDuplicateIsOrphan(vId: seq<int>, maxId: int, idMap: map<int, nat>, dupOf: map<int, int>,
                                  hs: seq<nat>, i: nat)
    requires IdsConsistent(vId, maxId, idMap, dupOf)
    requires forall j :: 0 <= j < |hs| ==> hs[j] < |vId|
    requires i < |hs| && vId[hs[i]] in dupOf
    ensures var dupOf' := AddDuplicates(dupOf, Pick(vId, hs), maxId);
            vId[hs[i]] in dupOf' && dupOf'[vId[hs[i]]] == dupOf[vId[hs[i]]] <= maxId &&
            forall k :: k in dupOf' ==> dupOf'[k] != maxId + i + 1
  {
    var ids := Pick(vId, hs);
    var dupOf' := AddDuplicates(dupOf, ids, maxId);
    AddDuplicatesKeys(dupOf, ids, maxId);
    assert forall k :: k in dupOf ==> dupOf[k] in idMap;
    assert forall k :: k in idMap ==> k <= maxId;
    forall k | k in dupOf'
      ensures dupOf'[k] != maxId + i + 1
    {
      if k !in dupOf {
        AddDuplicatesOrigin(dupOf, ids, maxId, k);
        var j :| 0 <= j < |ids| && ids[j] == k && dupOf'[k] == maxId + j + 1;
        assert j != i;
      }
    }
  }

  /** Every id the id map knows is at most the largest id. */
  lemma IdsBelowMax(vId: seq<int>, maxId: int, idMap: map<int, nat>, dupOf: map<int, int>)
    requires IdsConsistent(vId, maxId, idMap, dupOf)
    ensures forall k :: k in idMap ==> k <= maxId
  {
    forall k | k in idMap
      ensures k <= maxId
    {
      assert vId[idMap[k]] == k;
    }
  }

  /**
   * Duplicating the selected vertices keeps the id bookkeeping consistent: the
   * new vertices take the next ids after the largest and are registered at the
   * handles after the old ones, and every selected vertex has a duplicate.
   */
  lemma DuplicationKeepsIds(vId: seq<int>, maxId: int, idMap: map<int, nat>, dupOf: map<int, int>, sel: seq<bool>)
    requires IdsConsistent(vId, maxId, idMap, dupOf) && |sel| == |vId|
    ensures var hs := SelectedVertices(sel);
            var n := |hs|;
            var dupOf' := AddDuplicates(dupOf, Pick(vId, hs), maxId);
            IdsConsistent(vId + FreshIds(maxId, n), maxId + n, AddHandles(idMap, maxId, |vId|, n), dupOf') &&
            forall u :: 0 <= u < |vId| && sel[u] ==> vId[u] in dupOf'
  {
    var hs := SelectedVertices(sel);
    var n := |hs|;
    var newIds := FreshIds(maxId, n);
    var vId' := vId + newIds;
    var idMap' := AddHandles(idMap, maxId, |vId|, n);
    var ids := Pick(vId, hs);
    var dupOf' := AddDuplicates(dupOf, ids, maxId);
    forall v | 0 <= v < |vId'|
      ensures vId'[v] <= maxId + n && vId'[v] in idMap' && idMap'[vId'[v]] == v
    {
      AddHandlesLookup(idMap, maxId, |vId|, n, vId'[v]);
    }
    forall k | k in idMap'
      ensures idMap'[k] < |vId'| && vId'[idMap'[k]] == k
    {
      AddHandlesLookup(idMap, maxId, |vId|, n, k);
    }
    forall k | k in dupOf'
      ensures dupOf'[k] in idMap'
    {
      AddDuplicatesValues(dupOf, ids, maxId, k);
      AddHandlesLookup(idMap, maxId, |vId|, n, dupOf'[k]);
    }
    AddDuplicatesKeys(dupOf, ids, maxId);
    forall u | 0 <= u < |vId| && sel[u]
      ensures vId[u] in dupOf'
    {
      SelectedVerticesComplete(sel, u);
      var i :| 0 <= i < n && hs[i] == u;
      assert ids[i] == vId[u];
    }
  }

  // ---------------------------------------------------------------------------
  // The written file

  /** What the writer reads from the mesh after the duplicates are added. */
  datatype Volume = Volume(ids: seq<int>, pos: seq<Point>, traits: seq<string>, selected: seq<bool>,
                           cells: seq<seq<nat>>, tetIds: seq<int>, outside: seq<bool>,
                           idMap: map<int, nat>, dupOf: map<int, int>, nVertices: int, nTets: int)

  /** The lists line up, tets name vertices, ids resolve, and every selected vertex has a duplicate. */
  ghost predicate Writable(w: Volume)
  {
    |w.pos| == |w.ids| && |w.traits| == |w.ids| && |w.selected| == |w.ids| &&
    |w.tetIds| == |w.cells| && |w.outside| == |w.cells| &&
    (forall c, j :: 0 <= c < |w.cells| && 0 <= j < |w.cells[c]| ==> w.cells[c][j] < |w.ids|) &&
    IdMapExact(w.ids, w.idMap) &&
    (forall k :: k in w.dupOf ==> w.dupOf[k] in w.idMap) &&
    (forall u :: 0 <= u < |w.ids| && w.selected[u] ==> w.ids[u] in w.dupOf)
  }

  /**
   * The vertex ids written for tet `c`: in an outside tet a selected vertex is
   * written as its duplicate id, any other vertex as its own id; either way
   * the id names a vertex of the mesh.
   */
  function TetVerts(w: Volume, c: nat): (r: seq<int>)
    requires Writable(w) && c < |w.cells|
    ensures |r| == |w.cells[c]|
    ensures forall j :: 0 <= j < |r| ==>
              var u := w.cells[c][j];
              r[j] == (if w.outside[c] && w.selected[u] then w.dupOf[w.ids[u]] else w.ids[u]) &&
              r[j] in w.idMap
  {
    seq(|w.cells[c]|, j requires 0 <= j < |w.cells[c]| => EntryId(w, c, j))
  }

  /** The id written at place `j` of tet `c`, looked up through the id map as the writer does. */
  function EntryId(w: Volume, c: nat, j: nat): (x: int)
    requires Writable(w) && c < |w.cells| && j < |w.cells[c]|
    ensures var u := w.cells[c][j];
            x == (if w.outside[c] && w.selected[u] then w.dupOf[w.ids[u]] else w.ids[u]) &&
            x in w.idMap
  {
    var u := w.cells[c][j];
    assert u < |w.ids|;
    assert w.ids[u] in w.idMap;
    if w.outside[c] && w.selected[u] then
      assert w.ids[u] in w.dupOf;
      var d := w.dupOf[w.ids[u]];
      assert forall k :: k in w.dupOf ==> w.dupOf[k] in w.idMap;
      assert d in w.idMap;
      w.ids[w.idMap[d]]
    else w.ids[u]
  }

  function VertexRecords(w: Volume): (r: seq<CutRecord>)
    requires Writable(w)
    ensures |r| == |w.ids|
  {
    seq(|w.ids|, v requires 0 <= v < |w.ids| => VertexLine(w.ids[v], w.pos[v], w.traits[v]))
  }

  function TetRecords(w: Volume): (r: seq<CutRecord>)
    requires Writable(w)
    ensures |r| == |w.cells|
  {
    seq(|w.cells|, c requires 0 <= c < |w.cells| => TetLine(w.tetIds[c], TetVerts(w, c)))
  }

  function PointRecords(w: Volume): (r: seq<CutRecord>)
    requires Writable(w)
    ensures |r| == |w.ids|
  {
    seq(|w.ids|, v requires 0 <= v < |w.ids| => PointLine(w.pos[v], w.traits[v]))
  }

  function CellRecords(w: Volume): (r: seq<CutRecord>)
    requires Writable(w)
    ensures |r| == |w.cells|
  {
    seq(|w.cells|, c requires 0 <= c < |w.cells| => CellLine(4, TetVerts(w, c)))
  }

  /** The records of the file written for extension `ext`; an unknown extension writes nothing. */
  function CutFile(w: Volume, ext: string): seq<CutRecord>
    requires Writable(w)
  {
    if ext == "t" then VertexRecords(w) + TetRecords(w)
    else if ext == "tet" then [CountLine(w.nVertices, "vertices"), CountLine(w.nTets, "tets")] + PointRecords(w) + CellRecords(w)
    else []
  }

  /** In a `.t` file every id a tet line names is the id of a vertex line of the same file. */
  lemma TetLinesNameVertexLines(w: Volume, c: nat, j: nat)
    requires Writable(w) && c < |w.cells| && j < |w.cells[c]|
    ensures var file := CutFile(w, "t");
            |file| == |w.ids| + |w.cells| && file[|w.ids| + c].TetLine? &&
            var x := file[|w.ids| + c].verts[j];
            exists v :: 0 <= v < |w.ids| && file[v] == VertexLine(x, w.pos[v], w.traits[v])
  {
    var file := CutFile(w, "t");
    var x := TetVerts(w, c)[j];
    var v := w.idMap[x];
    assert file[|w.ids| + c] == TetLine(w.tetIds[c], TetVerts(w, c));
    assert file[v] == VertexLine(x, w.pos[v], w.traits[v]);
  }

  /** A `.tet` file: the two counts, one point line per vertex, one 4-cell line per tet in the same order as a `.t` file's tet lines. */
  lemma TetFileLayout(w: Volume)
    requires Writable(w)
    ensures var file := CutFile(w, "tet");
            |file| == 2 + |w.ids| + |w.cells| &&
            file[0] == CountLine(w.nVertices, "vertices") && file[1] == CountLine(w.nTets, "tets") &&
            (forall k :: 2 <= k < 2 + |w.ids| ==> file[k] == PointLine(w.pos[k - 2], w.traits[k - 2])) &&
            (forall k :: 2 + |w.ids| <= k < |file| ==>
               file[k] == CellLine(4, CutFile(w, "t")[k - 2].verts))
  {
    var file := CutFile(w, "tet");
    var tFile := CutFile(w, "t");
    forall k | 2 + |w.ids| <= k < |file|
      ensures file[k] == CellLine(4, tFile[k - 2].verts)
    {
      assert file[k] == CellRecords(w)[k - 2 - |w.ids|];
      assert tFile[k - 2] == TetRecords(w)[k - 2 - |w.ids|];
    }
  }

  lemma FreshIdsSnoc(maxId: int, n: nat)
    ensures FreshIds(maxId, n + 1) == FreshIds(maxId, n) + [maxId + n + 1]
  {
  }

  /** The least element of a non-empty set of ids: the next key an ordered map walk visits. */
  method SmallestKey(s: set<int>) returns (m: int)
    requires s != {}
    ensures m in s && forall y :: y in s ==> m <= y
  {
    if forall x :: x !in s {
      assert false;
    }
    m :| m in s;
    var others := s - {m};
    while others != {}
      invariant others <= s && m in s
      invariant forall y :: y in s && y !in others ==> m <= y
      decreases |others|
    {
      if forall x :: x !in others {
        assert false;
      }
      var y :| y in others;
      if y < m {
        m := y;
      }
      others := others - {y};
    }
  }

  /** `n` copies of `x`: the flags, traits and neighbour lists of new vertices. */
  function Repeat<T>(x: T, n: nat): (r: seq<T>)
    ensures |r| == n && forall i :: 0 <= i < n ==> r[i] == x
  {
    seq(n, _ => x)
  }

  /**
   * The running state of the duplicate pass: `hs` lists the selected vertices
   * scanned so far, `k` is the next offset from the maximal id, and the other
   * four are what the pass has built.
   */
  datatype Pass = Pass(hs: seq<nat>, k: int, newIds: seq<int>, newPos: seq<Point>,
                       dups: map<int, int>, handles: map<int, nat>)

  /**
   * The pass after the first `v` vertices: each selected one has been offered
   * the next fresh id, and each new vertex id is registered at the handle it
   * will take.
   */
  ghost predicate Collected(vId: seq<int>, vPos: seq<Point>, sel: seq<bool>, maxId: int,
                            idMap: map<int, nat>, dupOf: map<int, int>, v: nat, s: Pass)
    requires |vPos| == |vId| && |sel| == |vId| && v <= |vId|
  {
    s.hs == SelectedVertices(sel[..v]) && s.k == |s.hs| + 1 &&
    s.newIds == FreshIds(maxId, |s.hs|) && s.newPos == Pick(vPos, s.hs) &&
    s.dups == AddDuplicates(dupOf, Pick(vId, s.hs), maxId) &&
    s.handles == AddHandles(idMap, maxId, |vId|, |s.hs|)
  }

  lemma CollectSkip(vId: seq<int>, vPos: seq<Point>, sel: seq<bool>, maxId: int,
                    idMap: map<int, nat>, dupOf: map<int, int>, v: nat, s: Pass)
    requires |vPos| == |vId| && |sel| == |vId| && v < |vId| && !sel[v]
    requires Collected(vId, vPos, sel, maxId, idMap, dupOf, v, s)
    ensures Collected(vId, vPos, sel, maxId, idMap, dupOf, v + 1, s)
  {
    SelectedVerticesSnoc(sel, v);
  }

  /**
   * The pass after taking vertex `v` as the next selected one: its id is
   * offered the next fresh id (an id already duplicated keeps its duplicate),
   * and the fresh id is registered at the handle the new vertex will take.
   */
  function Take(vId: seq<int>, vPos: seq<Point>, maxId: int, v: nat, s: Pass): Pass
    requires |vPos| == |vId| && v < |vId| && s.k == |s.hs| + 1
  {
    var newId := maxId + s.k;
    Pass(s.hs + [v], s.k + 1, s.newIds + [newId], s.newPos + [vPos[v]],
         if vId[v] in s.dups then s.dups else s.dups[vId[v] := newId],
         s.handles[newId := |vId| + s.k - 1])
  }

  lemma CollectTake(vId: seq<int>, vPos: seq<Point>, sel: seq<bool>, maxId: int,
                    idMap: map<int, nat>, dupOf: map<int, int>, v: nat, s: Pass)
    requires |vPos| == |vId| && |sel| == |vId| && v < |vId| && sel[v]
    requires forall key :: key in idMap ==> key <= maxId
    requires Collected(vId, vPos, sel, maxId, idMap, dupOf, v, s)
    ensures maxId + s.k !in s.handles
    ensures Collected(vId, vPos, sel, maxId, idMap, dupOf, v + 1, Take(vId, vPos, maxId, v, s))
  {
    var hs, k := s.hs, s.k;
    var t := Take(vId, vPos, maxId, v, s);
    assert t.hs == hs + [v] && t.k == k + 1;
    SelectedVerticesSnoc(sel, v);
    assert t.hs == SelectedVertices(sel[..v + 1]);
    FreshIdsSnoc(maxId, |hs|);
    assert t.newIds == FreshIds(maxId, |t.hs|);
    PickSnoc(vPos, hs, v);
    assert t.newPos == Pick(vPos, t.hs);
    PickSnoc(vId, hs, v);
    TakeDuplicate(dupOf, Pick(vId, hs), vId[v], maxId, s.dups, k);
    assert t.dups == AddDuplicates(dupOf, Pick(vId, t.hs), maxId);
    TakeHandle(idMap, maxId, |vId|, |hs|, s.handles, k);
    assert t.handles == AddHandles(idMap, maxId, |vId|, |t.hs|);
  }

  lemma TakeDuplicate(m: map<int, int>, ids: seq<int>, x: int, base: int, dups: map<int, int>, k: int)
    requires dups == AddDuplicates(m, ids, base) && k == |ids| + 1
    ensures (if x in dups then dups else dups[x := base + k]) == AddDuplicates(m, ids + [x], base)
  {
    AddDuplicatesSnoc(m, ids, x, base);
  }

  lemma TakeHandle(m: map<int, nat>, maxId: int, base: nat, n: nat, handles: map<int, nat>, k: int)
    requires handles == AddHandles(m, maxId, base, n) && k == n + 1
    requires forall key :: key in m ==> key <= maxId
    ensures maxId + k !in handles
    ensures handles[maxId + k := base + k - 1] == AddHandles(m, maxId, base, n + 1)
  {
    AddHandlesLookup(m, maxId, base, n, maxId + k);
    AddHandlesSnoc(m, maxId, base, n);
  }

  method CollectOne(vId: seq<int>, vPos: seq<Point>, sel: seq<bool>, maxId: int,
                    idMap: map<int, nat>, dupOf: map<int, int>, v: nat, s: Pass)
    returns (s': Pass)
    requires |vPos| == |vId| && |sel| == |vId| && v < |vId|
    requires forall key :: key in idMap ==> key <= maxId
    requires Collected(vId, vPos, sel, maxId, idMap, dupOf, v, s)
    ensures Collected(vId, vPos, sel, maxId, idMap, dupOf, v + 1, s')
  {
    if sel[v] {
      CollectTake(vId, vPos, sel, maxId, idMap, dupOf, v, s);
      s' := Take(vId, vPos, maxId, v, s);
    } else {
      CollectSkip(vId, vPos, sel, maxId, idMap, dupOf, v, s);
      s' := s;
    }
  }

  /**
   * One pass over the vertex list: each selected vertex, in list order, is
   * offered the next fresh id as its duplicate (an id that already has a
   * duplicate keeps it) and the new vertex is registered under that id at the
   * handle it will take when appended.
   */
  method CollectDuplicates(vId: seq<int>, vPos: seq<Point>, vSelected: seq<bool>, maxVertexId: int,
                           idMap: map<int, nat>, dupOf: map<int, int>)
    returns (newIds: seq<int>, newPos: seq<Point>, dups: map<int, int>, handles: map<int, nat>)
    requires |vPos| == |vId| && |vSelected| == |vId|
    requires forall k :: k in idMap ==> k <= maxVertexId
    ensures var hs := SelectedVertices(vSelected);
            newIds == FreshIds(maxVertexId, |hs|) && newPos == Pick(vPos, hs) &&
            dups == AddDuplicates(dupOf, Pick(vId, hs), maxVertexId) &&
            handles == AddHandles(idMap, maxVertexId, |vId|, |hs|)
  {
    var s := Pass([], 1, [], [], dupOf, idMap);
    var v := 0;
    while v < |vId|
      invariant 0 <= v <= |vId|
      invariant Collected(vId, vPos, vSelected, maxVertexId, idMap, dupOf, v, s)
    {
      s := CollectOne(vId, vPos, vSelected, maxVertexId, idMap, dupOf, v, s);
      v := v + 1;
    }
    newIds, newPos, dups, handles := s.newIds, s.newPos, s.dups, s.handles;
    assert vSelected[..|vId|] == vSelected;
  }
}
