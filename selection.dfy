/**
 * Vertex and face selection on a viewer mesh: which cut faces count as
 * selected, and the breadth-first flood that selects the connected cut
 * vertices around a picked one.
 */
module Selection {
  import opened HalfFaceMesh

  // ---------------------------------------------------------------------------
  // Face selection derived from vertex selection

  /** Every vertex the face iterator visits on face `f` is selected. */
  predicate FaceSelected(t: Topology, sel: seq<bool>, f: nat)
    requires Indexed(t, |sel|) && f < |t.faceLeft|
  {
    forall k :: 0 <= k < |FaceVertices(t, f)| ==> sel[FaceVertices(t, f)[k]]
  }

  /** The entries of the cut-face list whose face is selected, in list order. */
  function SelectedFaces(t: Topology, sel: seq<bool>, cf: seq<nat>): (r: seq<nat>)
    requires Indexed(t, |sel|)
    requires forall i :: 0 <= i < |cf| ==> cf[i] < |t.faceLeft|
    ensures |r| <= |cf|
    ensures forall i :: 0 <= i < |r| ==> r[i] < |t.faceLeft|
  {
    if cf == [] then []
    else
      var init := cf[..|cf| - 1];
      var f := cf[|cf| - 1];
      SelectedFaces(t, sel, init) + (if FaceSelected(t, sel, f) then [f] else [])
  }

  /** A face is in the selected-face list exactly when it is a listed cut face all of whose vertices are selected. */
  lemma {:induction false} SelectedFacesMembership(t: Topology, sel: seq<bool>, cf: seq<nat>, f: nat)
    requires Indexed(t, |sel|)
    requires forall i :: 0 <= i < |cf| ==> cf[i] < |t.faceLeft|
    ensures f in SelectedFaces(t, sel, cf) <==> f in cf && FaceSelected(t, sel, f)
  {
    if cf != [] {
      var init := cf[..|cf| - 1];
      assert cf == init + [cf[|cf| - 1]];
      SelectedFacesMembership(t, sel, init, f);
    }
  }

  /** With no vertex selected, no face is selected and the selected-face list is empty. */
  lemma {:induction false} NoSelectionNoFaces(t: Topology, sel: seq<bool>, cf: seq<nat>)
    requires Indexed(t, |sel|)
    requires forall i :: 0 <= i < |cf| ==> cf[i] < |t.faceLeft|
    requires forall v :: 0 <= v < |sel| ==> !sel[v]
    ensures forall i :: 0 <= i < |cf| ==> !FaceSelected(t, sel, cf[i])
    ensures SelectedFaces(t, sel, cf) == []
  {
    forall i | 0 <= i < |cf| ensures !FaceSelected(t, sel, cf[i]) {
      assert |FaceVertices(t, cf[i])| >= 3;
      assert !sel[FaceVertices(t, cf[i])[0]];
    }
    if cf != [] {
      NoSelectionNoFaces(t, sel, cf[..|cf| - 1]);
    }
  }

  // ---------------------------------------------------------------------------
  // The flood over cut vertices

  /** Every neighbour handle is a vertex. */
  ghost predicate AdjIndexed(adj: seq<seq<nat>>)
  {
    forall v, k :: 0 <= v < |adj| && 0 <= k < |adj[v]| ==> adj[v][k] < |adj|
  }

  /** Vertices appended with no neighbours keep every neighbour handle in range. */
  lemma AdjIndexedGrow(adj: seq<seq<nat>>, n: nat)
    requires AdjIndexed(adj)
    ensures AdjIndexed(adj + seq(n, _ => []))
  {
  }

  /**
   * A path the flood can follow: it starts at `start`, each step goes to a
   * neighbour, and every vertex after the start is a cut vertex that was not
   * selected before the flood.
   */
  ghost predicate FloodPath(adj: seq<seq<nat>>, cut: seq<bool>, sel0: seq<bool>, start: nat, path: seq<nat>)
    requires |cut| == |adj| && |sel0| == |adj|
  {
    |path| > 0 && path[0] == start &&
    (forall i :: 0 <= i < |path| ==> path[i] < |adj|) &&
    (forall i :: 0 <= i < |path| - 1 ==> path[i + 1] in adj[path[i]]) &&
    (forall i :: 1 <= i < |path| ==> cut[path[i]] && !sel0[path[i]])
  }

  /** `v` is reached by the flood from `start`. */
  ghost predicate Flooded(adj: seq<seq<nat>>, cut: seq<bool>, sel0: seq<bool>, start: nat, v: nat)
    requires |cut| == |adj| && |sel0| == |adj|
  {
    exists path :: FloodPath(adj, cut, sel0, start, path) && path[|path| - 1] == v
  }

  /** Number of unselected vertices. */
  function Unselected(sel: seq<bool>): (r: nat)
    ensures r <= |sel|
  {
    if sel == [] then 0 else Unselected(sel[..|sel| - 1]) + (if sel[|sel| - 1] then 0 else 1)
  }

  /** Selecting an unselected vertex lowers the count by one. */
  lemma {:induction false} SelectOneMore(sel: seq<bool>, v: nat)
    requires v < |sel| && !sel[v]
    ensures Unselected(sel[v := true]) == Unselected(sel) - 1
  {
    var last := |sel| - 1;
    if v < last {
      assert sel[v := true][..last] == sel[..last][v := true];
      SelectOneMore(sel[..last], v);
    } else {
      assert sel[v := true][..last] == sel[..last];
    }
  }

  /** A queue of vertices, each at most once. */
  ghost predicate Distinct(q: seq<nat>)
  {
    forall i, j :: 0 <= i < j < |q| ==> q[i] != q[j]
  }

  /**
   * The bookkeeping of the flood: `queue` holds, once each, `start` and the
   * vertices the flood has newly selected, and `paths[i]` is a flood path to
   * `queue[i]`.
   */
  ghost predicate FloodInv(adj: seq<seq<nat>>, cut: seq<bool>, sel0: seq<bool>, start: nat,
                           sel: seq<bool>, queue: seq<nat>, paths: seq<seq<nat>>)
  {
    |cut| == |adj| && |sel0| == |adj| && |sel| == |adj| && start < |adj| &&
    |paths| == |queue| && |queue| > 0 && queue[0] == start && sel[start] &&
    (forall i :: 0 <= i < |queue| ==> queue[i] < |adj|) &&
    Distinct(queue) &&
    (forall v :: 0 <= v < |adj| && sel0[v] ==> sel[v]) &&
    (forall v :: 0 <= v < |adj| ==> (v in queue <==> v == start || (sel[v] && !sel0[v]))) &&
    (forall i :: 0 <= i < |queue| ==> FloodPath(adj, cut, sel0, start, paths[i]) && paths[i][|paths[i]| - 1] == queue[i])
  }

  /** The first queue entries have had every cut neighbour selected. */
  ghost predicate Expanded(adj: seq<seq<nat>>, cut: seq<bool>, sel: seq<bool>, queue: seq<nat>, n: nat)
    requires |cut| == |adj| && |sel| == |adj| && n <= |queue|
    requires forall i :: 0 <= i < |queue| ==> queue[i] < |adj|
    requires AdjIndexed(adj)
  {
    forall i, k :: 0 <= i < n && 0 <= k < |adj[queue[i]]| && cut[adj[queue[i]][k]] ==> sel[adj[queue[i]][k]]
  }

  /** Selecting and enqueueing an unselected cut neighbour of an enqueued vertex keeps the bookkeeping. */
  lemma Enqueue(adj: seq<seq<nat>>, cut: seq<bool>, sel0: seq<bool>, start: nat,
                sel: seq<bool>, queue: seq<nat>, paths: seq<seq<nat>>, i: nat, w: nat)
    requires AdjIndexed(adj) && FloodInv(adj, cut, sel0, start, sel, queue, paths)
    requires i < |queue| && w in adj[queue[i]] && cut[w] && !sel[w]
    ensures FloodInv(adj, cut, sel0, start, sel[w := true], queue + [w], paths + [paths[i] + [w]])
    ensures Unselected(sel[w := true]) == Unselected(sel) - 1
  {
    SelectOneMore(sel, w);
    var p := paths[i] + [w];
    assert FloodPath(adj, cut, sel0, start, paths[i]);
    assert FloodPath(adj, cut, sel0, start, p);
    assert w !in queue;
  }

  /**
   * Visit the neighbours of `queue[i]` in order, selecting and enqueueing
   * each one that is cut and not yet selected.
   */
  method ExpandVertex(adj: seq<seq<nat>>, cut: seq<bool>, ghost sel0: seq<bool>, start: nat,
                      sel: seq<bool>, queue: seq<nat>, ghost paths: seq<seq<nat>>, i: nat)
    returns (sel': seq<bool>, queue': seq<nat>, ghost paths': seq<seq<nat>>)
    requires AdjIndexed(adj) && FloodInv(adj, cut, sel0, start, sel, queue, paths) && i < |queue|
    ensures FloodInv(adj, cut, sel0, start, sel', queue', paths')
    ensures |queue| <= |queue'| && queue'[..|queue|] == queue
    ensures Grows(sel, sel')
    ensures forall k :: 0 <= k < |adj[queue[i]]| && cut[adj[queue[i]][k]] ==> sel'[adj[queue[i]][k]]
    ensures Unselected(sel') + |queue'| == Unselected(sel) + |queue|
  {
    sel', queue', paths' := sel, queue, paths;
    var nbrs := adj[queue[i]];
    var k := 0;
    while k < |nbrs|
      invariant 0 <= k <= |nbrs|
      invariant FloodInv(adj, cut, sel0, start, sel', queue', paths')
      invariant |queue| <= |queue'| && queue'[..|queue|] == queue
      invariant Grows(sel, sel')
      invariant Covered(nbrs, cut, sel', k)
      invariant Unselected(sel') + |queue'| == Unselected(sel) + |queue|
    {
      assert queue'[i] == queue[i];
      ghost var sel1, queue1 := sel', queue';
      sel', queue', paths' := VisitNeighbour(adj, cut, sel0, start, sel', queue', paths', i, nbrs[k]);
      assert queue'[..|queue|] == queue1[..|queue1|][..|queue|];
      GrowsTrans(sel, sel1, sel');
      CoveredStep(nbrs, cut, sel1, sel', k);
      k := k + 1;
    }
  }

  /** Every vertex selected in `a` is selected in `b`. */
  ghost predicate Grows(a: seq<bool>, b: seq<bool>)
  {
    |a| == |b| && forall v :: 0 <= v < |a| && a[v] ==> b[v]
  }

  lemma GrowsTrans(a: seq<bool>, b: seq<bool>, c: seq<bool>)
    requires Grows(a, b) && Grows(b, c)
    ensures Grows(a, c)
  {
  }

  /** The first `k` of `nbrs` that are cut are selected. */
  ghost predicate Covered(nbrs: seq<nat>, cut: seq<bool>, sel: seq<bool>, k: nat)
  {
    k <= |nbrs| && forall j :: 0 <= j < k && nbrs[j] < |cut| && nbrs[j] < |sel| && cut[nbrs[j]] ==> sel[nbrs[j]]
  }

  lemma CoveredStep(nbrs: seq<nat>, cut: seq<bool>, sel: seq<bool>, sel': seq<bool>, k: nat)
    requires Covered(nbrs, cut, sel, k) && k < |nbrs| && Grows(sel, sel')
    requires nbrs[k] < |cut| && nbrs[k] < |sel'| && cut[nbrs[k]] ==> sel'[nbrs[k]]
    ensures Covered(nbrs, cut, sel', k + 1)
  {
  }

  /** Select and enqueue neighbour `w` of `queue[i]` when it is cut and not yet selected. */
  method VisitNeighbour(adj: seq<seq<nat>>, cut: seq<bool>, ghost sel0: seq<bool>, start: nat,
                        sel: seq<bool>, queue: seq<nat>, ghost paths: seq<seq<nat>>, i: nat, w: nat)
    returns (sel': seq<bool>, queue': seq<nat>, ghost paths': seq<seq<nat>>)
    requires AdjIndexed(adj) && FloodInv(adj, cut, sel0, start, sel, queue, paths)
    requires i < |queue| && w in adj[queue[i]]
    ensures FloodInv(adj, cut, sel0, start, sel', queue', paths')
    ensures |queue| <= |queue'| && queue'[..|queue|] == queue
    ensures Grows(sel, sel')
    ensures cut[w] ==> sel'[w]
    ensures Unselected(sel') + |queue'| == Unselected(sel) + |queue|
  {
    sel', queue', paths' := sel, queue, paths;
    if cut[w] && !sel[w] {
      Enqueue(adj, cut, sel0, start, sel, queue, paths, i, w);
      paths' := paths + [paths[i] + [w]];
      sel' := sel[w := true];
      queue' := queue + [w];
    }
  }

  /**
   * Breadth-first flood from `start`: mark it selected, then repeatedly take
   * the front vertex of the queue and select and enqueue each neighbour that
   * is cut and not yet selected. Already selected vertices are skipped and
   * therefore not expanded. `visited` lists the enqueued vertices in order.
   */
  method FloodSelect(adj: seq<seq<nat>>, cut: seq<bool>, sel0: seq<bool>, start: nat)
    returns (sel: seq<bool>, ghost visited: seq<nat>)
    requires AdjIndexed(adj) && |cut| == |adj| && |sel0| == |adj| && start < |adj|
    ensures |sel| == |sel0|
    ensures forall v :: 0 <= v < |sel| ==> (sel[v] <==> sel0[v] || v == start || Flooded(adj, cut, sel0, start, v))
    ensures forall v :: 0 <= v < |sel| && sel0[v] ==> sel[v]
    ensures sel[start]
    ensures forall v :: 0 <= v < |sel| && sel[v] && !sel0[v] && v != start ==> cut[v]
    ensures Distinct(visited) && |visited| > 0 && visited[0] == start
    ensures forall v :: 0 <= v < |sel| ==> (v in visited <==> v == start || (sel[v] && !sel0[v]))
  {
    sel := sel0[start := true];
    var queue: seq<nat> := [start];
    ghost var paths: seq<seq<nat>> := [[start]];
    FloodStart(adj, cut, sel0, start);
    var head := 0;
    while head < |queue|
      invariant FloodInv(adj, cut, sel0, start, sel, queue, paths)
      invariant 0 <= head <= |queue|
      invariant Expanded(adj, cut, sel, queue, head)
      decreases Unselected(sel), |queue| - head
    {
      ghost var sel1, queue1 := sel, queue;
      sel, queue, paths := ExpandVertex(adj, cut, sel0, start, sel, queue, paths, head);
      ExpandedStep(adj, cut, sel1, queue1, sel, queue, head);
      head := head + 1;
    }
    visited := queue;
    FloodOutcome(adj, cut, sel0, start, sel, queue, paths);
  }

  /** The flood starts with only `start` selected anew and enqueued. */
  lemma FloodStart(adj: seq<seq<nat>>, cut: seq<bool>, sel0: seq<bool>, start: nat)
    requires |cut| == |adj| && |sel0| == |adj| && start < |adj|
    ensures FloodInv(adj, cut, sel0, start, sel0[start := true], [start], [[start]])
  {
    assert FloodPath(adj, cut, sel0, start, [start]);
  }

  /** Expanding the next queue entry extends the expanded prefix by one. */
  lemma ExpandedStep(adj: seq<seq<nat>>, cut: seq<bool>, sel1: seq<bool>, queue1: seq<nat>,
                     sel: seq<bool>, queue: seq<nat>, head: nat)
    requires AdjIndexed(adj) && |cut| == |adj| && |sel1| == |adj| && |sel| == |adj|
    requires head < |queue1| <= |queue| && queue[..|queue1|] == queue1
    requires forall i :: 0 <= i < |queue| ==> queue[i] < |adj|
    requires Expanded(adj, cut, sel1, queue1, head)
    requires Grows(sel1, sel)
    requires forall k :: 0 <= k < |adj[queue1[head]]| && cut[adj[queue1[head]][k]] ==> sel[adj[queue1[head]][k]]
    ensures Expanded(adj, cut, sel, queue, head + 1)
  {
    forall i, k | 0 <= i <= head && 0 <= k < |adj[queue[i]]| && cut[adj[queue[i]][k]]
      ensures sel[adj[queue[i]][k]]
    {
      assert queue[i] == queue1[i];
    }
  }

  /** Once every enqueued vertex is expanded, the selection is exactly the prior one, the start, and the flooded vertices. */
  lemma FloodOutcome(adj: seq<seq<nat>>, cut: seq<bool>, sel0: seq<bool>, start: nat,
                     sel: seq<bool>, queue: seq<nat>, paths: seq<seq<nat>>)
    requires AdjIndexed(adj) && FloodInv(adj, cut, sel0, start, sel, queue, paths)
    requires Expanded(adj, cut, sel, queue, |queue|)
    ensures forall v :: 0 <= v < |sel| ==> (sel[v] <==> sel0[v] || v == start || Flooded(adj, cut, sel0, start, v))
    ensures forall v :: 0 <= v < |sel| && sel[v] && !sel0[v] && v != start ==> cut[v]
  {
    forall v | 0 <= v < |sel| && Flooded(adj, cut, sel0, start, v)
      ensures sel[v]
    {
      var path :| FloodPath(adj, cut, sel0, start, path) && path[|path| - 1] == v;
      ClosedUnderFlood(adj, cut, sel0, start, sel, queue, path);
    }
    forall v | 0 <= v < |sel| && sel[v] && !sel0[v] && v != start
      ensures Flooded(adj, cut, sel0, start, v) && cut[v]
    {
      var i :| 0 <= i < |queue| && queue[i] == v;
      assert FloodPath(adj, cut, sel0, start, paths[i]);
      assert |paths[i]| > 1;
    }
  }

  /**
   * When every vertex the flood enqueued has had its cut neighbours selected,
   * every vertex along a flood path is selected.
   */
  lemma {:induction false} ClosedUnderFlood(adj: seq<seq<nat>>, cut: seq<bool>, sel0: seq<bool>, start: nat,
                                            sel: seq<bool>, queue: seq<nat>, path: seq<nat>)
    requires AdjIndexed(adj) && |cut| == |adj| && |sel0| == |adj| && |sel| == |adj| && start < |adj|
    requires sel[start] && start in queue
    requires forall i :: 0 <= i < |queue| ==> queue[i] < |adj|
    requires forall v :: 0 <= v < |adj| ==> (v in queue <==> v == start || (sel[v] && !sel0[v]))
    requires forall i, k :: 0 <= i < |queue| && 0 <= k < |adj[queue[i]]| && cut[adj[queue[i]][k]] ==> sel[adj[queue[i]][k]]
    requires FloodPath(adj, cut, sel0, start, path)
    ensures sel[path[|path| - 1]]
    decreases |path|
  {
    if |path| > 1 {
      var init := path[..|path| - 1];
      assert FloodPath(adj, cut, sel0, start, init);
      ClosedUnderFlood(adj, cut, sel0, start, sel, queue, init);
      var u := path[|path| - 2];
      var w := path[|path| - 1];
      assert u in queue by {
        if u != start {
          assert |path| - 2 >= 1;
          assert !sel0[u];
        }
      }
      var i :| 0 <= i < |queue| && queue[i] == u;
      assert w in adj[u];
      var k :| 0 <= k < |adj[u]| && adj[u][k] == w;
      assert cut[w];
    }
  }
}
