/**
  The named-graph search: instead of distances it returns, for every vertex, the vertex it was
  last improved from.
*/
module PredecessorTree {
  import opened Wrappers
  import opened ShortestPath

  // ---------------------------------------------------------------- predecessors

  ghost predicate Distinct<T>(s: seq<T>) {
    forall i, j :: 0 <= i < j < |s| ==> s[i] != s[j]
  }

  /** Edge from u to v that accounts exactly for the difference of their labels. */
  ghost predicate Joined(edges: seq<Edge>, f: Search, u: Vertex, v: Vertex) {
    u in f.dist && v in f.dist && Edge(u, v, f.dist[v] - f.dist[u]) in edges
  }

  ghost predicate Before(order: seq<Vertex>, u: Vertex, v: Vertex) {
    exists i, j :: 0 <= i < j < |order| && order[i] == u && order[j] == v
  }

  ghost predicate HasParent(edges: seq<Edge>, f: Search, pred: map<Vertex, Vertex>, order: seq<Vertex>, v: Vertex) {
    && v in pred && pred[v] in f.visited && Joined(edges, f, pred[v], v)
    && (v in f.visited ==> Before(order, pred[v], v))
  }

  /** `order` lists the visited vertices; every reached one but the source has a visited parent. */
  ghost predicate IsTree(edges: seq<Edge>, src: Vertex, f: Search, pred: map<Vertex, Vertex>, order: seq<Vertex>) {
    && Distinct(order) && (forall v :: v in order <==> v in f.visited)
    && (forall v :: Reached(f, v) && v != src ==> HasParent(edges, f, pred, order, v))
    && (forall v :: v in pred ==> Reached(f, v)) && src !in pred
  }

  lemma BeforeGrows(order: seq<Vertex>, w: Vertex)
    ensures forall u, v :: Before(order, u, v) ==> Before(order + [w], u, v)
    ensures forall u :: u in order ==> Before(order + [w], u, w)
  {
    forall u, v | Before(order, u, v) ensures Before(order + [w], u, v) {
      var i, j :| 0 <= i < j < |order| && order[i] == u && order[j] == v;
      assert (order + [w])[i] == u && (order + [w])[j] == v;
    }
    forall u | u in order ensures Before(order + [w], u, w) {
      var i :| 0 <= i < |order| && order[i] == u;
      assert (order + [w])[i] == u && (order + [w])[|order|] == w;
    }
  }

  lemma PopKeepsTree(edges: seq<Edge>, src: Vertex, f: Search, pred: map<Vertex, Vertex>, order: seq<Vertex>,
                     u: Vertex, d: int, f': Search)
    requires IsTree(edges, src, f, pred, order) && Reached(f, u) && f' == AfterPop(f, u, d)
    ensures IsTree(edges, src, f', pred, if u in f.visited then order else order + [u])
  {
    if u !in f.visited {
      FirstPopKeepsTree(edges, src, f, pred, order, u, f');
    } else {
      assert f'.visited == f.visited;
      forall v | Reached(f', v) && v != src ensures HasParent(edges, f', pred, order, v) {
        assert Reached(f, v) && HasParent(edges, f, pred, order, v);
      }
    }
  }

  lemma FirstPopKeepsTree(edges: seq<Edge>, src: Vertex, f: Search, pred: map<Vertex, Vertex>, order: seq<Vertex>,
                          u: Vertex, f': Search)
    requires IsTree(edges, src, f, pred, order) && u !in f.visited
    requires f'.dist == f.dist && f'.visited == f.visited + {u}
    ensures IsTree(edges, src, f', pred, order + [u])
  {
    var order' := order + [u];
    BeforeGrows(order, u);
    forall v | Reached(f', v) && v != src ensures HasParent(edges, f', pred, order', v) {
      assert Reached(f, v) && HasParent(edges, f, pred, order, v);
    }
    forall v ensures v in order' <==> v in f'.visited {
    }
  }

  function PredAfterEdge(f: Search, pred: map<Vertex, Vertex>, e: Edge): map<Vertex, Vertex>
    requires e.to in f.dist
  {
    if Improves(f, e) then pred[e.to := e.from] else pred
  }

  /** The edges of a popped vertex, one after the other, with the predecessors they set. */
  function PredAfterEdges(f: Search, pred: map<Vertex, Vertex>, out: seq<Edge>): map<Vertex, Vertex>
    requires forall i :: 0 <= i < |out| ==> out[i].to in f.dist
  {
    if out == [] then pred
    else
      var n := |out| - 1;
      PredAfterEdge(AfterEdges(f, out[..n]), PredAfterEdges(f, pred, out[..n]), out[n])
  }

  lemma EdgeKeepsTree(edges: seq<Edge>, src: Vertex, f: Search, pred: map<Vertex, Vertex>, order: seq<Vertex>,
                      e: Edge, f': Search, pred': map<Vertex, Vertex>)
    requires IsTree(edges, src, f, pred, order) && e in edges && e.to in f.dist && e.to != src
    requires Improves(f, e) && f.dist[e.to] <= MAX && e.from in f.visited && e.from in f.dist
    requires f.dist[e.from] == f.last
    requires f' == AfterEdge(f, e) && pred' == PredAfterEdge(f, pred, e)
    ensures IsTree(edges, src, f', pred', order)
  {
    assert Edge(e.from, e.to, f'.dist[e.to] - f'.dist[e.from]) == e;
    forall v | Reached(f', v) && v != src ensures HasParent(edges, f', pred', order, v) {
      if v != e.to {
        assert Reached(f, v) && HasParent(edges, f, pred, order, v);
        assert pred[v] != e.to;
      } else {
        assert Joined(edges, f', e.from, v);
      }
    }
    forall v | v in pred' ensures Reached(f', v) {
      assert v != e.to ==> Reached(f, v);
    }
  }

  lemma OneEdgeMore(f: Search, pred: map<Vertex, Vertex>, out: seq<Edge>, k: nat)
    requires 1 <= k <= |out| && Targets(f, out)
    ensures AfterEdges(f, out[..k]) == AfterEdge(AfterEdges(f, out[..k - 1]), out[k - 1])
    ensures PredAfterEdges(f, pred, out[..k])
         == PredAfterEdge(AfterEdges(f, out[..k - 1]), PredAfterEdges(f, pred, out[..k - 1]), out[k - 1])
  {
    assert out[..k][..k - 1] == out[..k - 1];
  }

  /** Using e in the search g improves, if anything, a vertex other than the source by its full weight. */
  ghost predicate SafeEdge(edges: seq<Edge>, src: Vertex, g: Search, e: Edge) {
    && e in edges && e.to in g.dist && e.from in g.visited && e.from in g.dist
    && (Improves(g, e) ==> g.dist[e.from] == g.last && e.to != src && g.dist[e.to] <= MAX)
  }

  /** Only the first pop of a vertex improves anything, and never the source. */
  lemma EdgesAreSafe(edges: seq<Edge>, src: Vertex, f: Search, cur: Vertex, d: int, n: nat, first: bool, cap: int,
                     g: Search)
    requires NonNegative(edges) && Relaxing(edges, src, f, cur, d, 0, first) && RoomFor(edges, cur, d, cap)
    requires Targets(f, OutEdges(edges, cur)) && src in f.visited
    requires n < |OutEdges(edges, cur)| && g == AfterEdges(f, OutEdges(edges, cur)[..n])
    ensures SafeEdge(edges, src, g, OutEdges(edges, cur)[n])
  {
    OutEdgeAt(edges, cur, n);
    RelaxSteps(edges, src, f, cur, d, n, first, cap);
    if !first {
      RelaxStale(edges, src, g, cur, d, n);
    }
  }

  /** After the first k edges of a popped vertex. */
  lemma {:induction false} EdgesKeepTree(edges: seq<Edge>, src: Vertex, f: Search, pred: map<Vertex, Vertex>,
                                         order: seq<Vertex>, out: seq<Edge>, k: nat)
    requires IsTree(edges, src, f, pred, order) && k <= |out| && Targets(f, out)
    requires forall n :: 0 <= n < |out| ==> SafeEdge(edges, src, AfterEdges(f, out[..n]), out[n])
    ensures IsTree(edges, src, AfterEdges(f, out[..k]), PredAfterEdges(f, pred, out[..k]), order)
  {
    if k > 0 {
      EdgesKeepTree(edges, src, f, pred, order, out, k - 1);
      var g, p, e := AfterEdges(f, out[..k - 1]), PredAfterEdges(f, pred, out[..k - 1]), out[k - 1];
      assert SafeEdge(edges, src, g, e);
      OneEdgeMore(f, pred, out, k);
      if Improves(g, e) {
        EdgeKeepsTree(edges, src, g, p, order, e, AfterEdges(f, out[..k]), PredAfterEdges(f, pred, out[..k]));
      }
    }
  }

  lemma AllEdgesKeepTree(edges: seq<Edge>, src: Vertex, f: Search, pred: map<Vertex, Vertex>, order: seq<Vertex>,
                         cur: Vertex, d: int, first: bool, cap: int)
    requires NonNegative(edges) && Relaxing(edges, src, f, cur, d, 0, first) && RoomFor(edges, cur, d, cap)
    requires Targets(f, OutEdges(edges, cur)) && IsTree(edges, src, f, pred, order) && src in f.visited
    ensures IsTree(edges, src, AfterEdges(f, OutEdges(edges, cur)), PredAfterEdges(f, pred, OutEdges(edges, cur)),
                   order)
  {
    var out := OutEdges(edges, cur);
    forall n | 0 <= n < |out| ensures SafeEdge(edges, src, AfterEdges(f, out[..n]), out[n]) {
      EdgesAreSafe(edges, src, f, cur, d, n, first, cap, AfterEdges(f, out[..n]));
    }
    EdgesKeepTree(edges, src, f, pred, order, out, |out|);
    assert out[..|out|] == out;
  }

  // ---------------------------------------------------------------- following predecessors

  /** Following the predecessors of the last vertex leads back to the source through exactly c. */
  ghost predicate Follows(pred: map<Vertex, Vertex>, src: Vertex, c: seq<Vertex>) {
    && c != [] && c[0] == src
    && forall i :: 0 < i < |c| ==> c[i] != src && c[i] in pred && pred[c[i]] == c[i - 1]
  }

  ghost predicate Spells(c: seq<Vertex>, path: seq<Edge>) {
    |c| == |path| + 1 && forall i :: 0 <= i < |path| ==> path[i].from == c[i] && path[i].to == c[i + 1]
  }

  /** From c the predecessors lead to the source without repetition, along a walk of weight d. */
  ghost predicate LeadsBack(edges: seq<Edge>, src: Vertex, pred: map<Vertex, Vertex>, c: seq<Vertex>, path: seq<Edge>,
                            d: int) {
    && Follows(pred, src, c) && Distinct(c) && Spells(c, path)
    && IsWalk(edges, src, c[|c| - 1], path) && Weight(path) == d
  }

  lemma {:induction false} FollowBack(edges: seq<Edge>, src: Vertex, f: Search, pred: map<Vertex, Vertex>,
                                      order: seq<Vertex>, j: nat)
    returns (c: seq<Vertex>, path: seq<Edge>)
    requires IsTree(edges, src, f, pred, order) && src in f.dist && f.dist[src] == 0
    requires forall v :: v in f.visited ==> Reached(f, v)
    requires j < |order|
    ensures order[j] in f.dist && LeadsBack(edges, src, pred, c, path, f.dist[order[j]]) && c[|c| - 1] == order[j]
    ensures forall x :: x in c ==> Among(order, j, x)
    decreases j
  {
    var v := order[j];
    assert v in order && Reached(f, v);
    if v == src {
      c, path := [v], [];
      assert Among(order, j, v);
    } else {
      assert HasParent(edges, f, pred, order, v);
      var i := EarlierIndex(order, pred[v], j);
      var c0, path0 := FollowBack(edges, src, f, pred, order, i);
      PrefixesGrow(order, i, j);
      var e := Edge(pred[v], v, f.dist[v] - f.dist[pred[v]]);
      c, path := c0 + [v], path0 + [e];
      FollowOneMore(edges, src, pred, c0, path0, f.dist[pred[v]], e);
    }
  }

  lemma FollowOneMore(edges: seq<Edge>, src: Vertex, pred: map<Vertex, Vertex>, c: seq<Vertex>, path: seq<Edge>,
                      d: int, e: Edge)
    requires LeadsBack(edges, src, pred, c, path, d) && e in edges
    requires c[|c| - 1] == e.from && e.to !in c && e.to != src && e.to in pred && pred[e.to] == e.from
    ensures LeadsBack(edges, src, pred, c + [e.to], path + [e], d + e.weight)
  {
    Extend(edges, src, path, e);
  }

  /** x is one of order[0], ..., order[j]. */
  ghost predicate Among(order: seq<Vertex>, j: nat, x: Vertex) {
    exists k :: 0 <= k <= j && k < |order| && order[k] == x
  }

  lemma PrefixesGrow(order: seq<Vertex>, i: nat, j: nat)
    requires i < j < |order| && Distinct(order)
    ensures !Among(order, i, order[j]) && Among(order, j, order[j])
    ensures forall x :: Among(order, i, x) ==> Among(order, j, x)
  {
  }

  lemma EarlierIndex(order: seq<Vertex>, u: Vertex, j: nat) returns (i: nat)
    requires j < |order| && Distinct(order) && Before(order, u, order[j])
    ensures i < j && order[i] == u
  {
    var i', j' :| 0 <= i' < j' < |order| && order[i'] == u && order[j'] == order[j];
    i := i';
  }

  // ---------------------------------------------------------------- the search

  /** A graph node; an entry of `next` carries the name of the neighbour and the edge's weight. */
  datatype TreeNode = TreeNode(name: string, val: int, next: seq<TreeNode>)

  function EdgesOf(from: string, next: seq<TreeNode>): (es: seq<Edge>)
    ensures |es| == |next|
    ensures forall i :: 0 <= i < |next| ==> es[i] == Edge(Name(from), Name(next[i].name), next[i].val)
  {
    if next == [] then [] else [Edge(Name(from), Name(next[0].name), next[0].val)] + EdgesOf(from, next[1..])
  }

  /** `edges` lists the edges of the graph, and every name in it is a key with that name. */
  ghost predicate Lists(graph: map<string, TreeNode>, edges: seq<Edge>) {
    && (forall k :: k in graph ==> graph[k].name == k && OutEdges(edges, Name(k)) == EdgesOf(k, graph[k].next))
    && forall e :: e in edges ==> e.from.Name? && e.from.name in graph && e.to.Name? && e.to.name in graph
  }

  /** The program's table of predecessors, with the empty string for none. */
  ghost predicate Shows(res: map<string, string>, pred: map<Vertex, Vertex>, f: Search) {
    && (forall v :: v in f.dist <==> v.Name? && v.name in res)
    && (forall v :: v in pred ==> v in f.dist && pred[v].Name?)
    && forall k :: k in res ==> res[k] == if Name(k) in pred then pred[Name(k)].name else ""
  }

  lemma OneMoreNeighbour(f: Search, pred: map<Vertex, Vertex>, out: seq<Edge>, k: nat, g: Search,
                         p: map<Vertex, Vertex>, g': Search, p': map<Vertex, Vertex>)
    requires k < |out| && Targets(f, out)
    requires g == AfterEdges(f, out[..k]) && p == PredAfterEdges(f, pred, out[..k])
    requires g' == AfterEdge(g, out[k]) && p' == PredAfterEdge(g, p, out[k])
    ensures g' == AfterEdges(f, out[..k + 1]) && p' == PredAfterEdges(f, pred, out[..k + 1])
  {
    OneEdgeMore(f, pred, out, k + 1);
  }

  /** Search and predecessors after the first k edges. */
  ghost predicate Progress(f: Search, pred: map<Vertex, Vertex>, out: seq<Edge>, k: nat, g: Search,
                           p: map<Vertex, Vertex>)
    requires k <= |out| && Targets(f, out)
  {
    g == AfterEdges(f, out[..k]) && p == PredAfterEdges(f, pred, out[..k])
  }

  /** The foreach over the neighbours of a popped node. */
  method RelaxNeighbours(ghost f: Search, ghost pred0: map<Vertex, Vertex>, ghost out: seq<Edge>, node: TreeNode,
                         dist: int, distance0: map<Vertex, int>, res0: map<string, string>, visited: set<Vertex>,
                         q0: multiset<(Vertex, int)>)
    returns (distance: map<Vertex, int>, res: map<string, string>, q: multiset<(Vertex, int)>,
             ghost pred: map<Vertex, Vertex>, ghost f': Search)
    requires f == Search(distance0, visited, q0, dist) && Shows(res0, pred0, f)
    requires out == EdgesOf(node.name, node.next) && Targets(f, out)
    requires forall i :: 0 <= i < |out| ==> 0 <= dist + out[i].weight < MAX
    ensures f' == Search(distance, visited, q, dist) && Shows(res, pred, f')
    ensures Progress(f, pred0, out, |out|, f', pred)
  {
    distance, res, q, pred, f' := distance0, res0, q0, pred0, f;
    for k := 0 to |node.next|
      invariant f' == Search(distance, visited, q, dist) && Shows(res, pred, f')
      invariant Progress(f, pred0, out, k, f', pred)
    {
      distance, res, q, pred, f' :=
        RelaxNeighbour(f, pred0, out, k, f', pred, node.name, node.next[k], dist, distance, res, visited, q);
    }
  }

  method RelaxNeighbour(ghost f0: Search, ghost first: map<Vertex, Vertex>, ghost out: seq<Edge>, ghost k: nat,
                        ghost f: Search, ghost pred0: map<Vertex, Vertex>, name: string, n: TreeNode,
                        dist: int, distance0: map<Vertex, int>, res0: map<string, string>, visited: set<Vertex>,
                        q0: multiset<(Vertex, int)>)
    returns (distance: map<Vertex, int>, res: map<string, string>, q: multiset<(Vertex, int)>,
             ghost pred: map<Vertex, Vertex>, ghost f': Search)
    requires f == Search(distance0, visited, q0, dist) && Shows(res0, pred0, f)
    requires Targets(f0, out) && k < |out| && out[k] == Edge(Name(name), Name(n.name), n.val)
    requires Progress(f0, first, out, k, f, pred0) && 0 <= dist + n.val < MAX
    ensures f' == Search(distance, visited, q, dist) && Shows(res, pred, f')
    ensures Progress(f0, first, out, k + 1, f', pred)
  {
    distance, res, q, pred, f' := RecordBetter(f, pred0, out[k], name, n, dist, distance0, res0, visited, q0);
    OneMoreNeighbour(f0, first, out, k, f, pred0, f', pred);
  }

  /** A better label is queued and the popped node becomes the neighbour's predecessor. */
  method RecordBetter(ghost f: Search, ghost pred0: map<Vertex, Vertex>, ghost e: Edge, name: string, n: TreeNode,
                      dist: int, distance0: map<Vertex, int>, res0: map<string, string>, visited: set<Vertex>,
                      q0: multiset<(Vertex, int)>)
    returns (distance: map<Vertex, int>, res: map<string, string>, q: multiset<(Vertex, int)>,
             ghost pred: map<Vertex, Vertex>, ghost f': Search)
    requires f == Search(distance0, visited, q0, dist) && Shows(res0, pred0, f)
    requires e == Edge(Name(name), Name(n.name), n.val) && e.to in f.dist && 0 <= dist + n.val < MAX
    ensures f' == Search(distance, visited, q, dist) && f' == AfterEdge(f, e) && pred == PredAfterEdge(f, pred0, e)
    ensures Shows(res, pred, f')
  {
    distance, res, q, pred := distance0, res0, q0, pred0;
    if Name(n.name) !in visited {
      var via := Add32(dist, n.val);
      assert via == dist + n.val;
      if via < distance[Name(n.name)] {
        q := q + multiset{(Name(n.name), via)};
        distance := distance[Name(n.name) := via];
        res := res[n.name := name];
        pred := pred[e.to := e.from];
      }
    }
    f' := Search(distance, visited, q, dist);
  }

  /** One entry popped: its vertex is visited and its neighbours are looked at. */
  method PopOne(ghost edges: seq<Edge>, ghost src: Vertex, ghost f: Search, ghost pred0: map<Vertex, Vertex>,
                ghost order0: seq<Vertex>, graph: map<string, TreeNode>,
                distance0: map<Vertex, int>, res0: map<string, string>, visited0: set<Vertex>,
                q0: multiset<(Vertex, int)>)
    returns (distance: map<Vertex, int>, res: map<string, string>, visited: set<Vertex>, q: multiset<(Vertex, int)>,
             ghost pred: map<Vertex, Vertex>, ghost order: seq<Vertex>, ghost f': Search)
    requires NonNegative(edges) && Total(edges) < MAX && Lists(graph, edges) && KnowsGraph(f, graph)
    requires f == Search(distance0, visited0, q0, f.last) && q0 != multiset{}
    requires Inv(edges, src, f, None) && Fits(edges, f) && Shows(res0, pred0, f)
    requires IsTree(edges, src, f, pred0, order0) && StartsAt(src, f)
    ensures f' == Search(distance, visited, q, f'.last) && KnowsGraph(f', graph)
    ensures Inv(edges, src, f', None) && Fits(edges, f') && Shows(res, pred, f')
    ensures IsTree(edges, src, f', pred, order) && StartsAt(src, f')
    ensures |q| + CountFrom(edges, visited0) + 1 <= |q0| + CountFrom(edges, visited) && |q| >= |q0| - 1
  {
    var cur, dist, rest := Dequeue(q0);
    ghost var first, out := cur !in visited0, OutEdges(edges, cur);
    ghost var g := AfterPop(f, cur, dist);
    order := if first then order0 + [cur] else order0;
    visited := visited0 + {cur};
    PopTargets(edges, src, f, cur, dist, g, graph);
    distance, res, q, pred, f' :=
      RelaxNeighbours(g, pred0, out, graph[cur.name], dist, distance0, res0, visited, rest);
    NothingLeft(g, pred0, out, f', pred);
    UseKeepsAll(edges, src, f, pred0, order0, cur, dist, first, g, order, f', pred);
  }

  lemma PopTargets(edges: seq<Edge>, src: Vertex, f: Search, cur: Vertex, d: int, g: Search,
                   graph: map<string, TreeNode>)
    requires NonNegative(edges) && Total(edges) < MAX && Inv(edges, src, f, None) && Fits(edges, f)
    requires (cur, d) in f.queue && g == AfterPop(f, cur, d) && Lists(graph, edges) && KnowsGraph(f, graph)
    ensures cur.Name? && cur.name in graph && Targets(g, OutEdges(edges, cur))
    ensures graph[cur.name].name == cur.name && OutEdges(edges, cur) == EdgesOf(cur.name, graph[cur.name].next)
    ensures forall i :: 0 <= i < |OutEdges(edges, cur)| ==> 0 <= d + OutEdges(edges, cur)[i].weight < MAX
  {
    assert GoodEntry(f, cur, d);
    PopFits(edges, f, cur, d, g);
    PoppedHasRoom(edges, g.visited, cur, d);
    OutEdgesFit(edges, g, cur);
  }

  lemma NothingLeft(f: Search, pred: map<Vertex, Vertex>, out: seq<Edge>, g: Search, p: map<Vertex, Vertex>)
    requires Targets(f, out) && Progress(f, pred, out, |out|, g, p)
    ensures g == AfterEdges(f, out) && p == PredAfterEdges(f, pred, out)
  {
    assert out[..|out|] == out;
  }

  ghost predicate KnowsGraph(f: Search, graph: map<string, TreeNode>) {
    forall v :: v in f.dist <==> v.Name? && v.name in graph
  }

  /** The source is the first vertex to be popped. */
  ghost predicate StartsAt(src: Vertex, f: Search) {
    src in f.visited || f.queue == multiset{(src, 0)}
  }

  /** The popped entry and its vertex, before its neighbours are looked at. */
  lemma PopKeepsAll(edges: seq<Edge>, src: Vertex, f: Search, pred: map<Vertex, Vertex>, order: seq<Vertex>,
                    cur: Vertex, d: int, first: bool, g: Search, order': seq<Vertex>)
    requires NonNegative(edges) && Inv(edges, src, f, None) && Fits(edges, f) && Smallest(f.queue, cur, d)
    requires IsTree(edges, src, f, pred, order) && StartsAt(src, f)
    requires g == AfterPop(f, cur, d) && first == (cur !in f.visited)
      && order' == if first then order + [cur] else order
    ensures Relaxing(edges, src, g, cur, d, 0, first) && Fits(edges, g) && 0 <= d <= SumFrom(edges, g.visited - {cur})
    ensures IsTree(edges, src, g, pred, order') && src in g.visited && cur in g.dist
  {
    assert GoodEntry(f, cur, d);
    PopStep(edges, src, f, cur, d, g, first);
    PopFits(edges, f, cur, d, g);
    PopKeepsTree(edges, src, f, pred, order, cur, d, g);
  }

  /** The popped vertex and its neighbours together. */
  lemma UseKeepsAll(edges: seq<Edge>, src: Vertex, f: Search, pred: map<Vertex, Vertex>, order: seq<Vertex>,
                    cur: Vertex, d: int, first: bool, g: Search, order': seq<Vertex>, f': Search,
                    pred': map<Vertex, Vertex>)
    requires NonNegative(edges) && Total(edges) < MAX && Inv(edges, src, f, None) && Fits(edges, f)
    requires Smallest(f.queue, cur, d) && IsTree(edges, src, f, pred, order) && StartsAt(src, f)
    requires g == AfterPop(f, cur, d) && first == (cur !in f.visited)
      && order' == if first then order + [cur] else order
    requires Targets(g, OutEdges(edges, cur)) && f' == AfterEdges(g, OutEdges(edges, cur))
    requires pred' == PredAfterEdges(g, pred, OutEdges(edges, cur))
    ensures Inv(edges, src, f', None) && Fits(edges, f') && IsTree(edges, src, f', pred', order') && StartsAt(src, f')
    ensures |f'.queue| + CountFrom(edges, f.visited) + 1 <= |f.queue| + CountFrom(edges, f'.visited)
    ensures |f'.queue| >= |f.queue| - 1
  {
    PopKeepsAll(edges, src, f, pred, order, cur, d, first, g, order');
    PoppedHasRoom(edges, g.visited, cur, d);
    OutEdgesFit(edges, g, cur);
    RelaxAllEdges(edges, src, g, cur, d, first, SumFrom(edges, g.visited));
    PopCounts(edges, f, cur, d, g, f');
    AllEdgesKeepTree(edges, src, g, pred, order', cur, d, first, SumFrom(edges, g.visited));
  }

  /** The distance is at hand: the predecessors of x spell a shortest walk. */
  ghost predicate ShortestBack(edges: seq<Edge>, src: Vertex, pred: map<Vertex, Vertex>, x: Vertex) {
    exists c, path, d :: LeadsBack(edges, src, pred, c, path, d) && c[|c| - 1] == x && IsDistance(edges, src, x, d)
  }

  lemma FinalTree(edges: seq<Edge>, src: Vertex, f: Search, pred: map<Vertex, Vertex>, order: seq<Vertex>, x: Vertex)
    requires Inv(edges, src, f, None) && f.queue == multiset{} && IsTree(edges, src, f, pred, order) && x in f.dist
    ensures Reachable(edges, src, x) ==> ShortestBack(edges, src, pred, x)
    ensures !Reachable(edges, src, x) ==> x !in pred
  {
    EmptyQueueIsFinal(edges, src, f, x);
    if Reachable(edges, src, x) {
      assert x in order;
      var j :| 0 <= j < |order| && order[j] == x;
      forall v | v in f.visited ensures Reached(f, v) {}
      var c, path := FollowBack(edges, src, f, pred, order, j);
    }
  }

  // ---------------------------------------------------------------- the result

  function Vertices(names: seq<string>): (vs: seq<Vertex>)
    ensures |vs| == |names|
    ensures forall i :: 0 <= i < |names| ==> vs[i] == Name(names[i])
  {
    if names == [] then [] else [Name(names[0])] + Vertices(names[1..])
  }

  /** Looking up predecessors from the last name leads back to s through exactly these names. */
  ghost predicate LooksBack(res: map<string, string>, s: string, names: seq<string>) {
    && names != [] && names[0] == s && Distinct(names)
    && forall i :: 0 < i < |names| ==> names[i] != s && names[i] in res && res[names[i]] == names[i - 1]
  }

  /** The names found on the way from x back to s spell a walk of the smallest weight. */
  ghost predicate SpellsShortest(edges: seq<Edge>, res: map<string, string>, s: string, x: string) {
    exists names, path ::
      && LooksBack(res, s, names) && names[|names| - 1] == x && Spells(Vertices(names), path)
      && IsWalk(edges, Name(s), Name(x), path) && IsDistance(edges, Name(s), Name(x), Weight(path))
  }

  lemma TableSpellsShortest(edges: seq<Edge>, res: map<string, string>, f: Search, pred: map<Vertex, Vertex>,
                            s: string, x: string)
    requires Shows(res, pred, f) && ShortestBack(edges, Name(s), pred, Name(x))
    ensures SpellsShortest(edges, res, s, x)
  {
    var c: seq<Vertex>, path, d :| LeadsBack(edges, Name(s), pred, c, path, d) && c[|c| - 1] == Name(x)
                      && IsDistance(edges, Name(s), Name(x), d);
    assert forall i :: 0 <= i < |c| ==> c[i].Name?;
    var names: seq<string> := seq(|c|, i requires 0 <= i < |c| => c[i].name);
    assert Vertices(names) == c;
    forall i | 0 < i < |names| ensures names[i] != s && names[i] in res && res[names[i]] == names[i - 1] {
      assert c[i] == Name(names[i]) && c[i] in pred && pred[c[i]] == c[i - 1];
    }
    forall i, j | 0 <= i < j < |names| ensures names[i] != names[j] {
      assert c[i] != c[j];
    }
    assert LooksBack(res, s, names);
  }

  /** Every key gets an entry: MAX and no predecessor, but 0 for the start. */
  method Initialise(graph: map<string, TreeNode>, s: string)
    returns (distance: map<Vertex, int>, res: map<string, string>)
    requires s in graph
    ensures forall v :: v in distance <==> v.Name? && v.name in graph
    ensures distance[Name(s)] == 0 && forall v :: v in distance && v != Name(s) ==> distance[v] == MAX
    ensures res.Keys == graph.Keys && forall k :: k in res ==> res[k] == ""
  {
    distance, res := map[], map[];
    var keys := graph.Keys;
    while keys != {}
      invariant keys <= graph.Keys && res.Keys == graph.Keys - keys
      invariant forall v :: v in distance <==> v.Name? && v.name in res
      invariant forall v :: v in distance ==> distance[v] == if v == Name(s) then 0 else MAX
      invariant forall k :: k in res ==> res[k] == ""
      decreases |keys|
    {
      var k :| k in keys;
      distance := distance[Name(k) := if k == s then 0 else MAX];
      res := res[k := ""];
      keys := keys - {k};
    }
  }

  lemma StartTree(edges: seq<Edge>, src: Vertex, f: Search, res: map<string, string>)
    requires NonNegative(edges) && f.visited == {} && f.queue == multiset{(src, 0)} && f.last == 0
    requires src in f.dist && f.dist[src] == 0 && forall v :: v in f.dist && v != src ==> f.dist[v] == MAX
    requires forall e :: e in edges ==> e.to in f.dist
    requires (forall v :: v in f.dist <==> v.Name? && v.name in res) && forall k :: k in res ==> res[k] == ""
    ensures Inv(edges, src, f, None) && Fits(edges, f) && IsTree(edges, src, f, map[], []) && Shows(res, map[], f)
  {
    StartInv(edges, src, f);
  }

  lemma FinalTable(edges: seq<Edge>, res: map<string, string>, f: Search, pred: map<Vertex, Vertex>,
                   order: seq<Vertex>, s: string)
    requires Inv(edges, Name(s), f, None) && f.queue == multiset{} && IsTree(edges, Name(s), f, pred, order)
    requires Shows(res, pred, f)
    ensures forall x :: x in res ==>
              if Reachable(edges, Name(s), Name(x)) then SpellsShortest(edges, res, s, x) else res[x] == ""
  {
    forall x | x in res
      ensures if Reachable(edges, Name(s), Name(x)) then SpellsShortest(edges, res, s, x) else res[x] == ""
    {
      FinalTree(edges, Name(s), f, pred, order, Name(x));
      if Reachable(edges, Name(s), Name(x)) {
        TableSpellsShortest(edges, res, f, pred, s, x);
      }
    }
  }

  lemma SameKeys(res: map<string, string>, f: Search, pred: map<Vertex, Vertex>, graph: map<string, TreeNode>)
    requires Shows(res, pred, f) && KnowsGraph(f, graph)
    ensures res.Keys == graph.Keys
  {
    forall x ensures x in res <==> x in graph {
      assert Name(x) in f.dist <==> x in res;
    }
  }

  /** A start that is not a key would throw, and so would an edge to a name that is not a key. */
  method Predecessors(graph: map<string, TreeNode>, s: string, ghost edges: seq<Edge>)
    returns (res: map<string, string>)
    requires s in graph && Lists(graph, edges) && NonNegative(edges) && Total(edges) < MAX
    ensures res.Keys == graph.Keys
    ensures forall x :: x in res ==>
              if Reachable(edges, Name(s), Name(x)) then SpellsShortest(edges, res, s, x) else res[x] == ""
    ensures res[s] == ""
  {
    var distance: map<Vertex, int>;
    distance, res := Initialise(graph, s);
    var visited: set<Vertex> := {};
    var q: multiset<(Vertex, int)> := multiset{(Name(s), 0)};
    ghost var pred: map<Vertex, Vertex>, order: seq<Vertex> := map[], [];
    ghost var src, f := Name(s), Search(distance, visited, q, 0);
    ghost var popped: nat := 0;
    StartTree(edges, src, f, res);
    CountFromBound(edges, visited);
    while |q| > 0
      invariant f == Search(distance, visited, q, f.last) && Ready(edges, src, f, pred, order, graph, res)
      invariant popped + |q| <= 1 + CountFrom(edges, visited)
      decreases 1 + |edges| - popped
    {
      CountFromBound(edges, visited);
      var cnt := |q|;
      distance, res, visited, q, pred, order, f :=
        PopBatch(edges, src, f, pred, order, graph, cnt, distance, res, visited, q);
      popped := popped + cnt;
      CountFromBound(edges, visited);
    }
    SameKeys(res, f, pred, graph);
    FinalTable(edges, res, f, pred, order, s);
  }

  /** Between two pops. */
  ghost predicate Ready(edges: seq<Edge>, src: Vertex, f: Search, pred: map<Vertex, Vertex>, order: seq<Vertex>,
                        graph: map<string, TreeNode>, res: map<string, string>) {
    && KnowsGraph(f, graph) && Inv(edges, src, f, None) && Fits(edges, f) && Shows(res, pred, f)
    && IsTree(edges, src, f, pred, order) && StartsAt(src, f)
  }

  /** As many pops as the queue had entries at the start of the round. */
  method PopBatch(ghost edges: seq<Edge>, ghost src: Vertex, ghost f0: Search, ghost pred0: map<Vertex, Vertex>,
                  ghost order0: seq<Vertex>, graph: map<string, TreeNode>, cnt: nat,
                  distance0: map<Vertex, int>, res0: map<string, string>, visited0: set<Vertex>,
                  q0: multiset<(Vertex, int)>)
    returns (distance: map<Vertex, int>, res: map<string, string>, visited: set<Vertex>, q: multiset<(Vertex, int)>,
             ghost pred: map<Vertex, Vertex>, ghost order: seq<Vertex>, ghost f: Search)
    requires NonNegative(edges) && Total(edges) < MAX && Lists(graph, edges) && cnt == |q0|
    requires f0 == Search(distance0, visited0, q0, f0.last) && Ready(edges, src, f0, pred0, order0, graph, res0)
    ensures f == Search(distance, visited, q, f.last) && Ready(edges, src, f, pred, order, graph, res)
    ensures |q| + CountFrom(edges, visited0) + cnt <= |q0| + CountFrom(edges, visited)
  {
    distance, res, visited, q, pred, order, f := distance0, res0, visited0, q0, pred0, order0, f0;
    for i := 0 to cnt
      invariant f == Search(distance, visited, q, f.last) && Ready(edges, src, f, pred, order, graph, res)
      invariant |q| + CountFrom(edges, visited0) + i <= |q0| + CountFrom(edges, visited) && |q| >= cnt - i
    {
      distance, res, visited, q, pred, order, f := PopOne(edges, src, f, pred, order, graph, distance, res, visited, q);
    }
  }
}
