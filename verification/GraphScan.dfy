/**
  The directed graph with named vertices, and its two scans. The linked list of the targets of a
  vertex is a sequence, and what a scan prints is collected in a sequence.
*/
module GraphScan {
  type Adjacency = map<string, seq<string>>

  /** Every edge names an inserted vertex. */
  ghost predicate Closed(g: Adjacency) {
    forall u, i :: u in g && 0 <= i < |g[u]| ==> g[u][i] in g
  }

  /** There is a walk of n edges from s to v. */
  ghost predicate Walk(g: Adjacency, s: string, v: string, n: nat)
    decreases n
  {
    if n == 0 then s == v && s in g
    else exists u :: u in g && Walk(g, s, u, n - 1) && v in g[u]
  }

  ghost predicate Reachable(g: Adjacency, s: string, v: string) {
    exists n: nat :: Walk(g, s, v, n)
  }

  /** The length of a shortest walk. */
  ghost predicate IsDistance(g: Adjacency, s: string, v: string, n: nat) {
    Walk(g, s, v, n) && forall m :: 0 <= m < n ==> !Walk(g, s, v, m)
  }

  ghost predicate Distinct(a: seq<string>) {
    forall i, j :: 0 <= i < j < |a| ==> a[i] != a[j]
  }

  class Graph {
    var vertexs: Adjacency

    constructor ()
      ensures vertexs == map[]
    {
      vertexs := map[];
    }

    method InsertVertex(vertex: string) returns (added: bool)
      modifies this
      ensures added <==> vertex !in old(vertexs)
      ensures vertexs == if added then old(vertexs)[vertex := []] else old(vertexs)
      ensures Closed(old(vertexs)) ==> Closed(vertexs)
    {
      added := vertex !in vertexs;
      if added {
        vertexs := vertexs[vertex := []];
      }
    }

    /** An unknown source vertex throws. */
    method InsertEdge(from: string, to: string) returns (ok: bool)
      modifies this
      ensures ok <==> from in old(vertexs)
      ensures vertexs == if ok then old(vertexs)[from := old(vertexs)[from] + [to]] else old(vertexs)
      ensures Closed(old(vertexs)) && to in old(vertexs) ==> Closed(vertexs)
    {
      ok := from in vertexs;
      if ok {
        vertexs := vertexs[from := vertexs[from] + [to]];
      }
    }
  }

  // ---------------------------------------------------------------- the order of a scan

  ghost predicate IsPrinted(targets: seq<string>, printed: seq<string>) {
    forall w :: w in targets ==> w in printed
  }

  /** The first target of the i-th printed vertex that is not printed yet. */
  ghost predicate FirstNew(g: Adjacency, printed: seq<string>, i: nat, j: nat, w: string) {
    && i < |printed| && printed[i] in g && j < |g[printed[i]]| && g[printed[i]][j] == w
    && w !in printed && IsPrinted(g[printed[i]][..j], printed)
  }

  /** All targets of the vertices printed from position n on are printed. */
  ghost predicate CompleteFrom(g: Adjacency, printed: seq<string>, n: nat) {
    forall i :: n <= i < |printed| && printed[i] in g ==> IsPrinted(g[printed[i]], printed)
  }

  /** All targets of the vertices printed before position n are printed. */
  ghost predicate CompleteBelow(g: Adjacency, printed: seq<string>, n: nat) {
    forall i :: 0 <= i < |printed| && i < n && printed[i] in g ==> IsPrinted(g[printed[i]], printed)
  }

  /** The vertex that was printed last and still has a new target gives the next one. */
  ghost predicate NextInDepth(g: Adjacency, printed: seq<string>, w: string) {
    exists i: nat, j: nat :: FirstNew(g, printed, i, j, w) && CompleteFrom(g, printed, i + 1)
  }

  /** The vertex that was printed first and still has a new target gives the next one. */
  ghost predicate NextInBreadth(g: Adjacency, printed: seq<string>, w: string) {
    exists i: nat, j: nat :: FirstNew(g, printed, i, j, w) && CompleteBelow(g, printed, i)
  }

  ghost predicate DepthOrder(g: Adjacency, printed: seq<string>, n: nat) {
    forall k :: n <= k < |printed| ==> NextInDepth(g, printed[..k], printed[k])
  }

  ghost predicate BreadthOrder(g: Adjacency, printed: seq<string>, n: nat) {
    forall k :: n <= k < |printed| ==> NextInBreadth(g, printed[..k], printed[k])
  }

  // ---------------------------------------------------------------- breadth first

  /** Every queued vertex has a walk of its level, and the levels are in order. */
  ghost predicate Levelled(g: Adjacency, s: string, order: seq<string>, level: map<string, nat>) {
    && Distinct(order) && (forall x :: x in order <==> x in level)
    && (forall x :: x in level ==> Walk(g, s, x, level[x]))
    && (forall i, j :: 0 <= i < j < |order| ==> level[order[i]] <= level[order[j]])
  }

  ghost predicate Below(level: map<string, nat>, n: nat) {
    forall x :: x in level ==> level[x] <= n
  }

  /** The targets of a vertex are queued, at most one level later. */
  ghost predicate Expanded(targets: seq<string>, level: map<string, nat>, n: nat) {
    forall w :: w in targets ==> w in level && level[w] <= n + 1
  }

  ghost predicate AllExpanded(g: Adjacency, done: seq<string>, level: map<string, nat>) {
    forall u :: u in done ==> u in g && u in level && Expanded(g[u], level, level[u])
  }

  ghost predicate MarksExactly(visited: map<string, bool>, g: Adjacency, level: map<string, nat>) {
    && visited.Keys == g.Keys && (forall x :: x in level ==> x in g)
    && forall x :: x in visited ==> (visited[x] <==> x in level)
  }

  lemma {:induction false} WalkIsLevelled(g: Adjacency, s: string, order: seq<string>, level: map<string, nat>,
                                          v: string, n: nat)
    requires s in level && level[s] == 0 && (forall x :: x in level ==> x in order) && AllExpanded(g, order, level)
    requires Walk(g, s, v, n)
    ensures v in level && level[v] <= n
    decreases n
  {
    if n > 0 {
      var u :| u in g && Walk(g, s, u, n - 1) && v in g[u];
      WalkIsLevelled(g, s, order, level, u, n - 1);
      assert u in order;
    }
  }

  /** An empty queue: the levels are the distances. */
  lemma LevelsAreDistances(g: Adjacency, s: string, order: seq<string>, level: map<string, nat>)
    requires Levelled(g, s, order, level) && AllExpanded(g, order, level) && s in level && level[s] == 0
    ensures forall v :: v in order <==> Reachable(g, s, v)
    ensures forall v :: v in order ==> IsDistance(g, s, v, level[v])
  {
    forall v ensures v in order <==> Reachable(g, s, v) {
      if v in order {
        assert Walk(g, s, v, level[v]);
      }
      if Reachable(g, s, v) {
        var n: nat :| Walk(g, s, v, n);
        WalkIsLevelled(g, s, order, level, v, n);
      }
    }
    forall v | v in order ensures IsDistance(g, s, v, level[v]) {
      forall m | 0 <= m < level[v] ensures !Walk(g, s, v, m) {
        if Walk(g, s, v, m) {
          WalkIsLevelled(g, s, order, level, v, m);
        }
      }
    }
  }

  ghost predicate Grows(level: map<string, nat>, level': map<string, nat>) {
    forall x :: x in level ==> x in level' && level'[x] == level[x]
  }

  lemma ExpandedSnoc(targets: seq<string>, i: nat, level: map<string, nat>, level': map<string, nat>, n: nat)
    requires i < |targets| && Expanded(targets[..i], level, n) && Grows(level, level')
    requires targets[i] in level' && level'[targets[i]] <= n + 1
    ensures Expanded(targets[..i + 1], level', n)
  {
    assert targets[..i + 1] == targets[..i] + [targets[i]];
  }

  lemma Enqueued(g: Adjacency, s: string, order: seq<string>, level: map<string, nat>, n: nat, u: string, w: string)
    requires Levelled(g, s, order, level) && Below(level, n + 1)
    requires u in g && u in level && level[u] == n && w in g[u] && w !in level
    ensures Levelled(g, s, order + [w], level[w := n + 1]) && Below(level[w := n + 1], n + 1)
  {
    var level' := level[w := n + 1];
    assert Walk(g, s, w, n + 1);
    forall x ensures x in order + [w] <==> x in level' {
    }
  }

  lemma {:induction false} DistinctFits(a: seq<string>, keys: set<string>)
    requires Distinct(a) && forall x :: x in a ==> x in keys
    ensures |a| <= |keys|
    decreases |a|
  {
    if a != [] {
      var front, x := a[..|a| - 1], a[|a| - 1];
      forall y | y in front ensures y in keys - {x} {
        assert y in a;
      }
      DistinctFits(front, keys - {x});
    }
  }

  lemma PrintedFits(g: Adjacency, s: string, printed: seq<string>, queue: seq<string>, level: map<string, nat>)
    requires Levelled(g, s, printed + queue, level) && forall x :: x in level ==> x in g
    ensures |printed| <= |g.Keys| && (queue != [] ==> |printed| < |g.Keys|)
  {
    DistinctFits(printed + queue, g.Keys);
  }

  /** What was expanded stays expanded. */
  lemma StillExpanded(g: Adjacency, printed: seq<string>, vtx: string, level: map<string, nat>,
                      level': map<string, nat>)
    requires AllExpanded(g, printed, level) && Grows(level, level')
    requires vtx in g && vtx in level && Expanded(g[vtx], level', level[vtx])
    ensures AllExpanded(g, printed + [vtx], level')
  {
  }

  lemma Rearranged(printed: seq<string>, queue: seq<string>)
    requires queue != []
    ensures printed + queue == printed + [queue[0]] + queue[1..]
  {
  }

  /** The first of the queue has the least level, and the next one is not lower. */
  lemma NextLevel(g: Adjacency, s: string, printed: seq<string>, vtx: string, queue: seq<string>,
                  level: map<string, nat>)
    requires Levelled(g, s, printed + [vtx] + queue, level) && vtx in level && Below(level, level[vtx] + 1)
    requires queue != []
    ensures queue[0] in level && Below(level, level[queue[0]] + 1)
  {
    var order := printed + [vtx] + queue;
    assert order[|printed|] == vtx && order[|printed| + 1] == queue[0];
    assert queue[0] in order;
  }

  lemma BreadthSnoc(g: Adjacency, order: seq<string>, w: string)
    requires BreadthOrder(g, order, 1) && (order != [] ==> NextInBreadth(g, order, w))
    ensures BreadthOrder(g, order + [w], 1)
  {
    var order' := order + [w];
    forall k | 1 <= k < |order'| ensures NextInBreadth(g, order'[..k], order'[k]) {
      if k < |order| {
        assert order'[..k] == order[..k] && order'[k] == order[k];
      } else {
        assert order'[..k] == order;
      }
    }
  }

  /** A new target of the vertex whose turn it is comes next. */
  lemma QueuedNext(g: Adjacency, printed: seq<string>, vtx: string, queue: seq<string>, level: map<string, nat>, i: nat,
                   n: nat)
    requires vtx in g && i < |g[vtx]| && g[vtx][i] !in level
    requires (forall x :: x in printed + [vtx] + queue <==> x in level)
    requires AllExpanded(g, printed, level) && Expanded(g[vtx][..i], level, n)
    ensures NextInBreadth(g, printed + [vtx] + queue, g[vtx][i])
  {
    var order := printed + [vtx] + queue;
    assert order[|printed|] == vtx;
    forall k | 0 <= k < |printed| && order[k] in g ensures IsPrinted(g[order[k]], order) {
      assert order[k] == printed[k];
      assert printed[k] in printed;
    }
    assert FirstNew(g, order, |printed|, i, g[vtx][i]);
  }

  lemma NewTarget(g: Adjacency, s: string, printed: seq<string>, done: seq<string>, vtx: string, queue: seq<string>,
                  level: map<string, nat>, i: nat, n: nat)
    requires vtx in g && i < |g[vtx]| && g[vtx][i] !in level && vtx in level && level[vtx] == n
    requires done == printed + [vtx] && Levelled(g, s, done + queue, level) && Below(level, n + 1)
    requires AllExpanded(g, printed, level) && Expanded(g[vtx][..i], level, n) && BreadthOrder(g, done + queue, 1)
    ensures var w := g[vtx][i];
            && Levelled(g, s, done + (queue + [w]), level[w := n + 1]) && Below(level[w := n + 1], n + 1)
            && BreadthOrder(g, done + (queue + [w]), 1)
  {
    var w := g[vtx][i];
    Enqueued(g, s, done + queue, level, n, vtx, w);
    QueuedNext(g, printed, vtx, queue, level, i, n);
    BreadthSnoc(g, done + queue, w);
    assert done + (queue + [w]) == done + queue + [w];
  }

  lemma ExpandedStays(g: Adjacency, printed: seq<string>, level: map<string, nat>, level': map<string, nat>)
    requires AllExpanded(g, printed, level) && Grows(level, level')
    ensures AllExpanded(g, printed, level')
  {
  }

  class BFS {
    const graph: Graph

    constructor (graph: Graph)
      ensures this.graph == graph
    {
      this.graph := graph;
    }

    /** The scan prints every reachable vertex once, in the order of the distances. */
    method Scan(vertex: string) returns (printed: seq<string>, ghost level: map<string, nat>)
      requires Closed(graph.vertexs) && vertex in graph.vertexs
      ensures Distinct(printed) && forall v :: v in printed <==> Reachable(graph.vertexs, vertex, v)
      ensures forall v :: v in printed ==> v in level && IsDistance(graph.vertexs, vertex, v, level[v])
      ensures forall i, j :: 0 <= i < j < |printed| ==> level[printed[i]] <= level[printed[j]]
      ensures printed != [] && printed[0] == vertex && BreadthOrder(graph.vertexs, printed, 1)
    {
      var g := graph.vertexs;
      var visited := map x | x in g :: false;
      visited := visited[vertex := true];
      var queue := [vertex];
      printed, level := [], map[vertex := 0];
      assert Walk(g, vertex, vertex, 0);
      assert printed + queue == [vertex];
      PrintedFits(g, vertex, printed, queue, level);
      while queue != []
        invariant Levelled(g, vertex, printed + queue, level) && AllExpanded(g, printed, level)
        invariant MarksExactly(visited, g, level) && vertex in level && level[vertex] == 0
        invariant BreadthOrder(g, printed + queue, 1)
        invariant if printed == [] then queue == [vertex] else printed[0] == vertex
        invariant queue != [] ==> queue[0] in level && Below(level, level[queue[0]] + 1)
        invariant |printed| <= |g.Keys| && (queue != [] ==> |printed| < |g.Keys|)
        decreases |g.Keys| - |printed|
      {
        var vtx := queue[0];
        visited, queue, level := Expand(g, vertex, vtx, visited, queue, printed, level);
        printed := printed + [vtx];
        PrintedFits(g, vertex, printed, queue, level);
      }
      assert printed + queue == printed;
      LevelsAreDistances(g, vertex, printed, level);
    }

    /** The loop over the targets of the first vertex of the queue. */
    method Expand(g: Adjacency, ghost s: string, vtx: string, visited0: map<string, bool>, queue0: seq<string>,
                  ghost printed: seq<string>, ghost level0: map<string, nat>)
      returns (visited: map<string, bool>, queue: seq<string>, ghost level: map<string, nat>)
      requires Closed(g) && Levelled(g, s, printed + queue0, level0) && MarksExactly(visited0, g, level0)
      requires AllExpanded(g, printed, level0) && queue0 != [] && queue0[0] == vtx
      requires vtx in level0 && Below(level0, level0[vtx] + 1) && BreadthOrder(g, printed + queue0, 1)
      ensures BreadthOrder(g, printed + [vtx] + queue, 1)
      ensures Levelled(g, s, printed + [vtx] + queue, level) && MarksExactly(visited, g, level)
      ensures AllExpanded(g, printed + [vtx], level) && Grows(level0, level)
      ensures queue != [] ==> queue[0] in level && Below(level, level[queue[0]] + 1)
    {
      Rearranged(printed, queue0);
      visited, queue, level := Targets(g, s, vtx, visited0, queue0[1..], printed, printed + [vtx], level0);
      StillExpanded(g, printed, vtx, level0, level);
      if queue != [] {
        NextLevel(g, s, printed, vtx, queue, level);
      }
    }

    method Targets(g: Adjacency, ghost s: string, vtx: string, visited0: map<string, bool>, queue0: seq<string>,
                   ghost printed: seq<string>, ghost done: seq<string>, ghost level0: map<string, nat>)
      returns (visited: map<string, bool>, queue: seq<string>, ghost level: map<string, nat>)
      requires Closed(g) && done == printed + [vtx] && vtx in g && vtx in level0
      requires Levelled(g, s, done + queue0, level0) && MarksExactly(visited0, g, level0)
      requires AllExpanded(g, printed, level0) && Below(level0, level0[vtx] + 1) && BreadthOrder(g, done + queue0, 1)
      ensures Levelled(g, s, done + queue, level) && MarksExactly(visited, g, level)
      ensures Expanded(g[vtx], level, level0[vtx]) && Below(level, level0[vtx] + 1) && Grows(level0, level)
      ensures BreadthOrder(g, done + queue, 1)
    {
      visited, queue, level := visited0, queue0, level0;
      ghost var n := level0[vtx];
      for i := 0 to |g[vtx]|
        invariant Levelled(g, s, done + queue, level) && MarksExactly(visited, g, level)
        invariant BreadthOrder(g, done + queue, 1)
        invariant Expanded(g[vtx][..i], level, n) && Below(level, n + 1) && Grows(level0, level)
      {
        ExpandedStays(g, printed, level0, level);
        visited, queue, level := Target(g, s, vtx, i, visited, queue, printed, done, level, n);
      }
      assert g[vtx][..|g[vtx]|] == g[vtx];
    }

    /** The body of this loop. */
    method Target(g: Adjacency, ghost s: string, vtx: string, i: nat, visited0: map<string, bool>,
                  queue0: seq<string>, ghost printed: seq<string>, ghost done: seq<string>,
                  ghost level0: map<string, nat>, ghost n: nat)
      returns (visited: map<string, bool>, queue: seq<string>, ghost level: map<string, nat>)
      requires vtx in g && i < |g[vtx]| && g[vtx][i] in g && vtx in level0 && level0[vtx] == n
      requires Levelled(g, s, done + queue0, level0) && MarksExactly(visited0, g, level0)
      requires Expanded(g[vtx][..i], level0, n) && Below(level0, n + 1)
      requires done == printed + [vtx] && AllExpanded(g, printed, level0) && BreadthOrder(g, done + queue0, 1)
      ensures BreadthOrder(g, done + queue, 1)
      ensures Levelled(g, s, done + queue, level) && MarksExactly(visited, g, level)
      ensures Expanded(g[vtx][..i + 1], level, n) && Below(level, n + 1) && Grows(level0, level)
    {
      var w := g[vtx][i];
      visited, queue, level := visited0, queue0, level0;
      if !visited[w] {
        NewTarget(g, s, printed, done, vtx, queue, level, i, n);
        queue := queue + [w];
        level := level[w := n + 1];
      }
      visited := visited[w := true];
      ExpandedSnoc(g[vtx], i, level0, level, n);
    }
  }

  // ---------------------------------------------------------------- depth first

  /** Exactly the printed vertices are marked; a vertex that is about to be printed may be marked already. */
  ghost predicate Marks(visited: map<string, bool>, g: Adjacency, printed: seq<string>, next: set<string>) {
    && visited.Keys == g.Keys && (forall x :: x in printed ==> x in g)
    && forall x :: x in visited && x !in next ==> (visited[x] <==> x in printed)
  }

  ghost predicate AllReachable(g: Adjacency, s: string, printed: seq<string>) {
    forall x :: x in printed ==> Reachable(g, s, x)
  }

  lemma ReachableNext(g: Adjacency, s: string, u: string, w: string)
    requires Reachable(g, s, u) && u in g && w in g[u]
    ensures Reachable(g, s, w)
  {
    var n: nat :| Walk(g, s, u, n);
    assert Walk(g, s, w, n + 1);
  }

  /** A complete list that holds the start holds everything that can be reached. */
  lemma {:induction false} CompleteHoldsWalks(g: Adjacency, s: string, printed: seq<string>, v: string, n: nat)
    requires CompleteFrom(g, printed, 0) && s in printed && Walk(g, s, v, n)
    ensures v in printed
    decreases n
  {
    if n > 0 {
      var u :| u in g && Walk(g, s, u, n - 1) && v in g[u];
      CompleteHoldsWalks(g, s, printed, u, n - 1);
      var i :| 0 <= i < |printed| && printed[i] == u;
      assert IsPrinted(g[printed[i]], printed);
    }
  }

  /** Printing more keeps what is complete. */
  lemma StaysComplete(g: Adjacency, printed: seq<string>, n: nat, printed': seq<string>)
    requires CompleteFrom(g, printed, n) && printed <= printed' && CompleteFrom(g, printed', |printed|)
    ensures CompleteFrom(g, printed', n)
  {
    forall i | n <= i < |printed'| && printed'[i] in g ensures IsPrinted(g[printed'[i]], printed') {
      if i < |printed| {
        assert printed'[i] == printed[i];
        assert IsPrinted(g[printed[i]], printed);
      }
    }
  }

  lemma PrintedSnoc(targets: seq<string>, i: nat, printed: seq<string>, printed': seq<string>)
    requires i < |targets| && IsPrinted(targets[..i], printed) && printed <= printed' && targets[i] in printed'
    ensures IsPrinted(targets[..i + 1], printed')
  {
    assert targets[..i + 1] == targets[..i] + [targets[i]];
  }

  /** The subtree of a new vertex is printed in order, right behind it. */
  lemma DepthExtends(g: Adjacency, a: seq<string>, b: seq<string>, n: nat)
    requires a < b && DepthOrder(g, a, n) && NextInDepth(g, a, b[|a|]) && DepthOrder(g, b, |a| + 1)
    ensures DepthOrder(g, b, n)
  {
    forall k | n <= k < |b| ensures NextInDepth(g, b[..k], b[k]) {
      if k < |a| {
        assert b[..k] == a[..k] && b[k] == a[k];
      } else if k == |a| {
        assert b[..k] == a;
      }
    }
  }

  class DFS {
    const graph: Graph
    var visited: map<string, bool>
    var printed: seq<string>

    constructor (graph: Graph)
      ensures this.graph == graph
    {
      this.graph := graph;
      visited, printed := map[], [];
    }

    /** The scan prints every reachable vertex once. */
    method Scan(vertex: string)
      requires Closed(graph.vertexs) && vertex in graph.vertexs && graph as object != this
      modifies this
      ensures Distinct(printed) && forall v :: v in printed <==> Reachable(graph.vertexs, vertex, v)
      ensures printed != [] && printed[0] == vertex && DepthOrder(graph.vertexs, printed, 1)
    {
      ghost var g := graph.vertexs;
      visited := map x | x in graph.vertexs :: false;
      printed := [];
      assert Walk(g, vertex, vertex, 0);
      ScanFrom(vertex, g, vertex);
      assert printed[0] == vertex;
      forall v | Reachable(g, vertex, v) ensures v in printed {
        var n: nat :| Walk(g, vertex, v, n);
        CompleteHoldsWalks(g, vertex, printed, v, n);
      }
    }

    method ScanFrom(vertex: string, ghost g: Adjacency, ghost s: string)
      requires graph.vertexs == g && Closed(g) && vertex in g && Reachable(g, s, vertex)
      requires Marks(visited, g, printed, {vertex}) && vertex !in printed
      requires Distinct(printed) && AllReachable(g, s, printed)
      modifies this
      ensures Marks(visited, g, printed, {}) && Distinct(printed) && AllReachable(g, s, printed)
      ensures old(printed) + [vertex] <= printed && CompleteFrom(g, printed, |old(printed)|)
      ensures DepthOrder(g, printed, |old(printed)| + 1)
      decreases |g.Keys| - |printed|, 0
    {
      ghost var n := |printed|;
      DistinctFits(printed, g.Keys);
      printed := printed + [vertex];
      DistinctFits(printed, g.Keys);
      var targets := graph.vertexs[vertex];
      visited := visited[vertex := true];
      for i := 0 to |targets|
        invariant graph.vertexs == g && Marks(visited, g, printed, {}) && Distinct(printed)
        invariant AllReachable(g, s, printed)
        invariant old(printed) + [vertex] <= printed && CompleteFrom(g, printed, n + 1)
        invariant IsPrinted(targets[..i], printed) && DepthOrder(g, printed, n + 1)
      {
        ReachableNext(g, s, vertex, targets[i]);
        ghost var before := printed;
        assert printed[n] == vertex;
        Target(targets[i], g, s, n, i);
        PrintedSnoc(targets, i, before, printed);
      }
      assert targets[..|targets|] == targets;
      assert printed[n] == vertex;
    }

    /** The body of this loop. */
    method Target(w: string, ghost g: Adjacency, ghost s: string, ghost n: nat, ghost j: nat)
      requires graph.vertexs == g && Closed(g) && w in g && Reachable(g, s, w)
      requires Marks(visited, g, printed, {}) && Distinct(printed) && AllReachable(g, s, printed)
      requires CompleteFrom(g, printed, n + 1) && DepthOrder(g, printed, n + 1) && n < |printed|
      requires printed[n] in g && j < |g[printed[n]]| && g[printed[n]][j] == w && IsPrinted(g[printed[n]][..j], printed)
      modifies this
      ensures Marks(visited, g, printed, {}) && Distinct(printed) && AllReachable(g, s, printed)
      ensures old(printed) <= printed && CompleteFrom(g, printed, n + 1) && w in printed
      ensures DepthOrder(g, printed, n + 1)
      decreases |g.Keys| - |printed|, 1
    {
      if !visited[w] {
        ghost var before := printed;
        visited := visited[w := true];
        ScanFrom(w, g, s);
        assert printed[|before|] == w;
        StaysComplete(g, before, n + 1, printed);
        assert FirstNew(g, before, n, j, w);
        DepthExtends(g, before, printed, n + 1);
      }
    }
  }
}
