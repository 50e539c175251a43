/** The search over numbered vertices, which returns the distances. */
module Dijkstra {
  import opened Wrappers
  import opened Helpers
  import opened ShortestPath

  // ---------------------------------------------------------------- numbered vertices

  function Pairs(edges: seq<Edge>): (ps: seq<(Vertex, int)>)
    ensures |ps| == |edges|
    ensures forall i :: 0 <= i < |edges| ==> ps[i] == (edges[i].to, edges[i].weight)
  {
    if edges == [] then [] else [(edges[0].to, edges[0].weight)] + Pairs(edges[1..])
  }

  lemma {:induction false} OutEdgesSnoc(edges: seq<Edge>, e: Edge, u: Vertex)
    ensures OutEdges(edges + [e], u) == OutEdges(edges, u) + if e.from == u then [e] else []
  {
    if edges == [] {
      assert [] + [e] == [e] && [e][1..] == [];
    } else {
      OutEdgesSnoc(edges[1..], e, u);
      assert (edges + [e])[1..] == edges[1..] + [e];
    }
  }

  /** A vertex that has a list has all of its edges in it, in order; the others have no edges. */
  ghost predicate Adjacency(nextMap: map<Vertex, seq<(Vertex, int)>>, edges: seq<Edge>) {
    forall u :: (if u in nextMap then nextMap[u] else []) == Pairs(OutEdges(edges, u))
  }

  /** The adjacency lists, built edge by edge; a vertex without edges has no list. */
  method BuildNextMap(edges: seq<Edge>) returns (nextMap: map<Vertex, seq<(Vertex, int)>>)
    ensures Adjacency(nextMap, edges)
  {
    nextMap := map[];
    for i := 0 to |edges|
      invariant Adjacency(nextMap, edges[..i])
    {
      nextMap := AddTarget(nextMap, edges[..i], edges[i]);
      assert edges[..i + 1] == edges[..i] + [edges[i]];
    }
    assert edges[..|edges|] == edges;
  }

  /** The body of this loop. */
  method AddTarget(nextMap0: map<Vertex, seq<(Vertex, int)>>, ghost edges: seq<Edge>, e: Edge)
    returns (nextMap: map<Vertex, seq<(Vertex, int)>>)
    requires Adjacency(nextMap0, edges)
    ensures Adjacency(nextMap, edges + [e])
  {
    nextMap := nextMap0;
    if e.from !in nextMap {
      nextMap := nextMap[e.from := []];
    }
    nextMap := nextMap[e.from := nextMap[e.from] + [(e.to, e.weight)]];
    forall u ensures (if u in nextMap then nextMap[u] else []) == Pairs(OutEdges(edges + [e], u)) {
      OutEdgesSnoc(edges, e, u);
    }
  }

  /** Reached vertices show their distance, the others -1. */
  ghost predicate Reports(res: map<Vertex, int>, dist: map<Vertex, int>) {
    res.Keys == dist.Keys && forall v :: v in dist ==> res[v] == if dist[v] == MAX then -1 else dist[v]
  }

  /** One neighbour of a popped vertex: a better label is recorded and queued. */
  method RelaxEdge(ghost f: Search, ghost e: Edge, val: int, next: Vertex, w: int, dist0: map<Vertex, int>,
                   res0: map<Vertex, int>, visited: set<Vertex>, q0: multiset<(Vertex, int)>)
    returns (dist: map<Vertex, int>, res: map<Vertex, int>, q: multiset<(Vertex, int)>)
    requires f == Search(dist0, visited, q0, val) && next == e.to && w == e.weight
    requires 0 <= val + w < MAX && next in dist0 && Reports(res0, dist0)
    ensures Search(dist, visited, q, val) == AfterEdge(f, e)
    ensures Reports(res, dist)
  {
    dist, res, q := dist0, res0, q0;
    if next !in visited {
      var via := Add32(val, w);
      assert via == val + w;
      if via < dist[next] {
        dist := dist[next := via];
        q := q + multiset{(next, via)};
        res := res[next := via];
      }
    }
  }

  /** The foreach over the edges `out` of a popped vertex. */
  method RelaxAll(ghost f: Search, ghost out: seq<Edge>, val: int, nexts: seq<(Vertex, int)>,
                  dist0: map<Vertex, int>, res0: map<Vertex, int>, visited: set<Vertex>, q0: multiset<(Vertex, int)>)
    returns (dist: map<Vertex, int>, res: map<Vertex, int>, q: multiset<(Vertex, int)>)
    requires f == Search(dist0, visited, q0, val) && nexts == Pairs(out) && Targets(f, out)
    requires (forall e :: e in out ==> 0 <= val + e.weight < MAX) && Reports(res0, dist0)
    ensures Search(dist, visited, q, val) == AfterEdges(f, out) && Reports(res, dist)
  {
    dist, res, q := dist0, res0, q0;
    for k := 0 to |nexts|
      invariant Search(dist, visited, q, val) == AfterEdges(f, out[..k]) && Reports(res, dist)
    {
      var (next, w) := nexts[k];
      assert out[..k + 1][..k] == out[..k];
      dist, res, q := RelaxEdge(Search(dist, visited, q, val), out[k], val, next, w, dist, res, visited, q);
    }
    assert out[..|out|] == out;
  }

  predicate Numbered(v: Vertex, n: int) {
    v.Number? && 0 <= v.n < n
  }

  /** Everything unreached except the source, and one entry in the queue. */
  method Initialise(n: int, src: Vertex) returns (dist: map<Vertex, int>, res: map<Vertex, int>)
    ensures forall v :: v in dist <==> Numbered(v, n) || v == src
    ensures dist[src] == 0 && forall v :: v in dist && v != src ==> dist[v] == MAX
    ensures Reports(res, dist)
  {
    dist, res := map[], map[];
    var i := 0;
    while i < n
      invariant 0 <= i && (i <= n || i == 0)
      invariant forall v :: v in dist <==> Numbered(v, i)
      invariant forall v :: v in dist ==> dist[v] == MAX
      invariant Reports(res, dist)
    {
      dist := dist[Number(i) := MAX];
      res := res[Number(i) := -1];
      i := i + 1;
    }
    dist := dist[src := 0];
    res := res[src := 0];
  }

  /** One entry popped: its vertex is visited and its edges are used. */
  method PopOne(ghost edges: seq<Edge>, ghost src: Vertex, ghost f: Search, nextMap: map<Vertex, seq<(Vertex, int)>>,
                dist0: map<Vertex, int>, res0: map<Vertex, int>, visited0: set<Vertex>, q0: multiset<(Vertex, int)>)
    returns (dist: map<Vertex, int>, res: map<Vertex, int>, visited: set<Vertex>, q: multiset<(Vertex, int)>,
             ghost f': Search, ghost popped: (Vertex, int))
    requires NonNegative(edges) && Total(edges) < MAX && Adjacency(nextMap, edges)
    requires f.dist == dist0 && f.visited == visited0 && f.queue == q0 && q0 != multiset{}
    requires Inv(edges, src, f, None) && Fits(edges, f) && Reports(res0, dist0)
    ensures f' == Search(dist, visited, q, f'.last) && OnePop(edges, f, popped.0, popped.1, f')
    ensures Reports(res, dist) && |q| >= |q0| - 1
  {
    var cur, val, rest := Dequeue(q0);
    popped := (cur, val);
    ghost var out := OutEdges(edges, cur);
    ghost var g := AfterPop(f, cur, val);
    PopFits(edges, f, cur, val, g);
    visited := visited0 + {cur};
    PoppedHasRoom(edges, visited, cur, val);
    OutEdgesFit(edges, g, cur);
    EdgesFit(edges, g, out);
    var nexts := if cur in nextMap then nextMap[cur] else [];
    f' := AfterEdges(g, out);
    dist, res, q := RelaxAll(g, out, val, nexts, dist0, res0, visited, rest);
  }

  /**
    Shortest distances from `src`, -1 for the unreachable. `pops` are the entries that are taken out
    of the queue, up to the end, where it is empty. An edge into a vertex that is not numbered would throw.
  */
  method ShortestDistances(n: int, edges: seq<Edge>, src: Vertex)
    returns (res: map<Vertex, int>, ghost start: Search, ghost pops: seq<(Vertex, int)>, ghost f: Search)
    requires NonNegative(edges) && Total(edges) < MAX
    requires forall e :: e in edges ==> Numbered(e.to, n) || e.to == src
    ensures forall v :: v in res <==> Numbered(v, n) || v == src
    ensures forall v :: v in res ==>
              if res[v] == -1 then !Reachable(edges, src, v) else IsDistance(edges, src, v, res[v])
    ensures Starts(edges, src, start) && PopsTo(edges, start, pops, f) && f.queue == multiset{}
    ensures Reports(res, f.dist) && |pops| <= 1 + |edges|
  {
    var dist: map<Vertex, int>;
    dist, res := Initialise(n, src);
    var nextMap := BuildNextMap(edges);
    var visited: set<Vertex> := {};
    var q: multiset<(Vertex, int)> := multiset{(src, 0)};
    f, pops := Search(dist, visited, q, 0), [];
    start := f;
    EveryRun(edges, src, start, pops, f);
    while |q| > 0
      invariant f == Search(dist, visited, q, f.last) && PopsTo(edges, start, pops, f) && Reports(res, dist)
      invariant |pops| + |q| <= 1 + |edges|
      decreases 1 + |edges| - |pops|
    {
      var cnt := |q|;
      ghost var before := |pops|;
      for i := 0 to cnt
        invariant f == Search(dist, visited, q, f.last) && PopsTo(edges, start, pops, f) && Reports(res, dist)
        invariant |pops| + |q| <= 1 + |edges| && |pops| == before + i && |q| >= cnt - i
      {
        dist, res, visited, q, f, pops := PopNext(edges, src, start, pops, f, nextMap, dist, res, visited, q);
      }
    }
    FinalReport(edges, src, start, pops, f, res);
  }

  /** The body of these loops: the run goes on by one entry. */
  method PopNext(ghost edges: seq<Edge>, ghost src: Vertex, ghost start: Search, ghost pops0: seq<(Vertex, int)>,
                 ghost f0: Search, nextMap: map<Vertex, seq<(Vertex, int)>>, dist0: map<Vertex, int>,
                 res0: map<Vertex, int>, visited0: set<Vertex>, q0: multiset<(Vertex, int)>)
    returns (dist: map<Vertex, int>, res: map<Vertex, int>, visited: set<Vertex>, q: multiset<(Vertex, int)>,
             ghost f: Search, ghost pops: seq<(Vertex, int)>)
    requires NonNegative(edges) && Total(edges) < MAX && Adjacency(nextMap, edges)
    requires Starts(edges, src, start) && PopsTo(edges, start, pops0, f0)
    requires f0 == Search(dist0, visited0, q0, f0.last) && q0 != multiset{} && Reports(res0, dist0)
    ensures f == Search(dist, visited, q, f.last) && PopsTo(edges, start, pops, f) && Reports(res, dist)
    ensures |pops| == |pops0| + 1 && |pops| + |q| <= 1 + |edges| && |q| >= |q0| - 1
  {
    ghost var popped;
    RunKeepsInv(edges, src, start, pops0, f0);
    dist, res, visited, q, f, popped := PopOne(edges, src, f0, nextMap, dist0, res0, visited0, q0);
    LongerRun(edges, start, pops0, f0, popped, f);
    pops := pops0 + [popped];
    EveryRun(edges, src, start, pops, f);
  }

  lemma FinalReport(edges: seq<Edge>, src: Vertex, start: Search, pops: seq<(Vertex, int)>, f: Search,
                    res: map<Vertex, int>)
    requires NonNegative(edges) && Total(edges) < MAX && Starts(edges, src, start) && PopsTo(edges, start, pops, f)
    requires f.queue == multiset{} && Reports(res, f.dist)
    ensures res.Keys == start.dist.Keys
    ensures forall v :: v in res ==>
              if res[v] == -1 then !Reachable(edges, src, v) else IsDistance(edges, src, v, res[v])
  {
    RunKeepsInv(edges, src, start, pops, f);
    EveryRun(edges, src, start, pops, f);
    forall v | v in res ensures if res[v] == -1 then !Reachable(edges, src, v) else IsDistance(edges, src, v, res[v]) {
      LabelIsNatural(edges, src, f, v);
    }
  }

  lemma LongerRun(edges: seq<Edge>, start: Search, pops: seq<(Vertex, int)>, g: Search, popped: (Vertex, int),
                  f: Search)
    requires PopsTo(edges, start, pops, g) && OnePop(edges, g, popped.0, popped.1, f)
    ensures PopsTo(edges, start, pops + [popped], f)
  {
    assert Front(pops + [popped]) == pops && Last(pops + [popped]) == popped;
  }
}
