/**
  What both searches of the sample share: weighted walks, and the invariant of a label-correcting
  search whose priority queue may hold several entries for one vertex. An entry left over from an
  earlier, larger distance is popped like any other.
*/
module ShortestPath {
  import opened Wrappers
  import opened Helpers

  /** int.MaxValue, the distance of a vertex that was never reached. */
  const MAX := 0x7FFF_FFFF

  /** One overload numbers its vertices, the other names them. */
  datatype Vertex = Number(n: int) | Name(name: string)

  datatype Edge = Edge(from: Vertex, to: Vertex, weight: int)

  // ---------------------------------------------------------------- walks

  ghost predicate IsWalk(edges: seq<Edge>, src: Vertex, v: Vertex, path: seq<Edge>)
    decreases |path|
  {
    if path == [] then src == v
    else
      var last := path[|path| - 1];
      last in edges && last.to == v && IsWalk(edges, src, last.from, path[..|path| - 1])
  }

  function Weight(path: seq<Edge>): int {
    if path == [] then 0 else Weight(path[..|path| - 1]) + path[|path| - 1].weight
  }

  ghost predicate Reachable(edges: seq<Edge>, src: Vertex, v: Vertex) {
    exists path :: IsWalk(edges, src, v, path)
  }

  ghost predicate IsDistance(edges: seq<Edge>, src: Vertex, v: Vertex, d: int) {
    && (exists path :: IsWalk(edges, src, v, path) && Weight(path) == d)
    && forall path :: IsWalk(edges, src, v, path) ==> d <= Weight(path)
  }

  lemma Extend(edges: seq<Edge>, src: Vertex, path: seq<Edge>, e: Edge)
    requires IsWalk(edges, src, e.from, path) && e in edges
    ensures IsWalk(edges, src, e.to, path + [e]) && Weight(path + [e]) == Weight(path) + e.weight
  {
    assert (path + [e])[..|path|] == path;
  }

  // ---------------------------------------------------------------- sums over edges

  /** Total weight of the edges that leave a set of vertices. */
  function SumFrom(edges: seq<Edge>, xs: set<Vertex>): int {
    if edges == [] then 0
    else (if edges[0].from in xs then edges[0].weight else 0) + SumFrom(edges[1..], xs)
  }

  function CountFrom(edges: seq<Edge>, xs: set<Vertex>): nat {
    if edges == [] then 0 else (if edges[0].from in xs then 1 else 0) + CountFrom(edges[1..], xs)
  }

  function OutEdges(edges: seq<Edge>, u: Vertex): seq<Edge> {
    if edges == [] then []
    else if edges[0].from == u then [edges[0]] + OutEdges(edges[1..], u)
    else OutEdges(edges[1..], u)
  }

  ghost predicate NonNegative(edges: seq<Edge>) {
    forall e :: e in edges ==> e.weight >= 0
  }

  function Total(edges: seq<Edge>): int {
    if edges == [] then 0 else edges[0].weight + Total(edges[1..])
  }

  lemma {:induction false} SumFromGrows(edges: seq<Edge>, xs: set<Vertex>, ys: set<Vertex>)
    requires NonNegative(edges) && xs <= ys
    ensures 0 <= SumFrom(edges, xs) <= SumFrom(edges, ys) <= Total(edges)
  {
    if edges != [] {
      assert edges[0] in edges;
      SumFromGrows(edges[1..], xs, ys);
    }
  }

  /** One more vertex adds at least the weight of each of its edges. */
  lemma {:induction false} SumFromAdds(edges: seq<Edge>, xs: set<Vertex>, e: Edge)
    requires NonNegative(edges) && e in edges && e.from !in xs
    ensures SumFrom(edges, xs) + e.weight <= SumFrom(edges, xs + {e.from})
  {
    assert edges[0] in edges;
    if edges[0] == e {
      SumFromGrows(edges[1..], xs, xs + {e.from});
    } else {
      SumFromAdds(edges[1..], xs, e);
    }
  }

  lemma {:induction false} CountFromAdds(edges: seq<Edge>, xs: set<Vertex>, u: Vertex)
    requires u !in xs
    ensures CountFrom(edges, xs + {u}) == CountFrom(edges, xs) + |OutEdges(edges, u)|
    ensures CountFrom(edges, xs + {u}) <= |edges|
  {
    if edges != [] {
      CountFromAdds(edges[1..], xs, u);
    }
  }

  lemma {:induction false} CountFromBound(edges: seq<Edge>, xs: set<Vertex>)
    ensures CountFrom(edges, xs) <= |edges|
  {
    if edges != [] {
      CountFromBound(edges[1..], xs);
    }
  }

  lemma {:induction false} OutEdgesMember(edges: seq<Edge>, u: Vertex)
    ensures forall e :: e in OutEdges(edges, u) <==> e in edges && e.from == u
  {
    if edges != [] {
      OutEdgesMember(edges[1..], u);
    }
  }

  // ---------------------------------------------------------------- the search

  /** `last` is the label popped last: settled distances are at most that, entries at least. */
  datatype Search = Search(dist: map<Vertex, int>, visited: set<Vertex>, queue: multiset<(Vertex, int)>, last: int)

  /** Every edge out of u has been used. */
  ghost predicate Relaxed(edges: seq<Edge>, f: Search, u: Vertex)
    requires u in f.dist
  {
    forall e :: e in edges && e.from == u ==>
      e.to in f.dist && f.dist[e.to] < MAX && f.dist[e.to] <= f.dist[u] + e.weight
  }

  /** An entry's label is no better than the vertex's and no better than the last one popped. */
  ghost predicate GoodEntry(f: Search, u: Vertex, d: int) {
    u in f.dist && f.dist[u] <= d < MAX && f.last <= d
  }

  ghost predicate HasPath(edges: seq<Edge>, src: Vertex, v: Vertex, d: int) {
    exists path :: IsWalk(edges, src, v, path) && Weight(path) == d
  }

  ghost predicate Reached(f: Search, v: Vertex) {
    v in f.dist && f.dist[v] < MAX
  }

  /** Every label is the weight of some walk, or MAX. */
  ghost predicate Labels(edges: seq<Edge>, src: Vertex, f: Search) {
    && src in f.dist && f.dist[src] == 0
    && (forall e :: e in edges ==> e.to in f.dist)
    && (forall v :: v in f.dist ==> f.dist[v] <= MAX)
    && (forall v :: Reached(f, v) ==> HasPath(edges, src, v, f.dist[v]))
  }

  /** The queue holds the label of every reached vertex that is not settled. */
  ghost predicate Queued(f: Search) {
    && (forall v :: v in f.dist && f.dist[v] < MAX && v !in f.visited ==> (v, f.dist[v]) in f.queue)
    && (forall u, d :: (u, d) in f.queue ==> GoodEntry(f, u, d))
  }

  /** The vertex `open`, if any, is visited but not all of its edges have been used yet. */
  ghost predicate Settled(edges: seq<Edge>, f: Search, open: Option<Vertex>) {
    && (forall u :: u in f.visited ==> u in f.dist && f.dist[u] < MAX && f.dist[u] <= f.last)
    && (forall u :: u in f.visited && open != Some(u) ==> Relaxed(edges, f, u))
  }

  ghost predicate Inv(edges: seq<Edge>, src: Vertex, f: Search, open: Option<Vertex>) {
    Labels(edges, src, f) && Queued(f) && Settled(edges, f, open)
  }

  ghost predicate Smallest(queue: multiset<(Vertex, int)>, u: Vertex, d: int) {
    (u, d) in queue && forall v, d' :: (v, d') in queue ==> d <= d'
  }

  function AfterPop(f: Search, u: Vertex, d: int): Search {
    f.(visited := f.visited + {u}, queue := f.queue - multiset{(u, d)}, last := d)
  }

  /** The first entry popped for a vertex carries its distance, and no settled one exceeds it. */
  lemma FirstPop(edges: seq<Edge>, src: Vertex, f: Search, u: Vertex, d: int)
    requires NonNegative(edges) && Inv(edges, src, f, None) && Smallest(f.queue, u, d) && u !in f.visited
    ensures d == f.dist[u]
    ensures Inv(edges, src, f.(visited := f.visited + {u}, queue := f.queue - multiset{(u, d)}, last := d), Some(u))
  {
    assert GoodEntry(f, u, d);
    assert (u, f.dist[u]) in f.queue;
    var f' := f.(visited := f.visited + {u}, queue := f.queue - multiset{(u, d)}, last := d);
    forall v, c | (v, c) in f'.queue ensures GoodEntry(f', v, c) {
      assert (v, c) in f.queue;
      assert GoodEntry(f, v, c);
    }
    forall x | x in f'.visited && x != u ensures Relaxed(edges, f', x) {
      assert Relaxed(edges, f, x);
    }
  }

  /** A later entry for a settled vertex: nothing is left to improve. */
  lemma StalePop(edges: seq<Edge>, src: Vertex, f: Search, u: Vertex, d: int)
    requires Inv(edges, src, f, None) && Smallest(f.queue, u, d) && u in f.visited
    ensures Inv(edges, src, f.(queue := f.queue - multiset{(u, d)}, last := d), None)
    ensures forall e :: e in edges && e.from == u ==> e.to in f.dist && f.dist[e.to] <= d + e.weight
  {
    assert GoodEntry(f, u, d);
    assert Relaxed(edges, f, u);
    var f' := f.(queue := f.queue - multiset{(u, d)}, last := d);
    forall v, c | (v, c) in f'.queue ensures GoodEntry(f', v, c) {
      assert (v, c) in f.queue;
      assert GoodEntry(f, v, c);
    }
    forall x | x in f'.visited ensures Relaxed(edges, f', x) {
      assert Relaxed(edges, f, x);
    }
  }

  /** The sum of two 32-bit integers, with wrap-around. */
  function Add32(a: int, b: int): int {
    if a + b > MAX then a + b - 0x1_0000_0000 else if a + b < -0x8000_0000 then a + b + 0x1_0000_0000 else a + b
  }

  /** The label through an edge never wraps around: its walk uses no edge twice. */
  lemma LabelFits(edges: seq<Edge>, xs: set<Vertex>, u: Vertex, d: int, e: Edge)
    requires NonNegative(edges) && Total(edges) < MAX && u in xs
    requires e in edges && e.from == u && 0 <= d <= SumFrom(edges, xs - {u})
    ensures e.weight >= 0 && 0 <= d + e.weight < MAX
    ensures d + e.weight <= SumFrom(edges, xs)
  {
    SumFromAdds(edges, xs - {u}, e);
    assert xs - {u} + {u} == xs;
    SumFromGrows(edges, xs, xs);
  }

  /** What using an edge of the vertex popped last does: an unvisited target may get a better label. */
  function AfterEdge(f: Search, e: Edge): Search
    requires e.to in f.dist
  {
    var c := f.last + e.weight;
    if Improves(f, e) then f.(dist := f.dist[e.to := c], queue := f.queue + multiset{(e.to, c)}) else f
  }

  predicate Improves(f: Search, e: Edge)
    requires e.to in f.dist
  {
    e.to !in f.visited && f.last + e.weight < f.dist[e.to]
  }

  lemma ImproveLabels(edges: seq<Edge>, src: Vertex, f: Search, e: Edge, f': Search)
    requires NonNegative(edges) && Labels(edges, src, f)
    requires e in edges && Reached(f, e.from) && f.last == f.dist[e.from]
    requires Improves(f, e) && 0 <= f.last + e.weight && f' == AfterEdge(f, e)
    ensures Labels(edges, src, f')
  {
    var path :| IsWalk(edges, src, e.from, path) && Weight(path) == f.dist[e.from];
    Extend(edges, src, path, e);
    forall v | Reached(f', v) ensures HasPath(edges, src, v, f'.dist[v]) {
      assert v != e.to ==> Reached(f, v);
    }
  }

  lemma ImproveQueued(f: Search, e: Edge, f': Search)
    requires Queued(f) && e.to in f.dist && Improves(f, e) && f.dist[e.to] <= MAX && e.weight >= 0
    requires f' == AfterEdge(f, e)
    ensures Queued(f')
  {
    forall u, d | (u, d) in f'.queue ensures GoodEntry(f', u, d) {
      if (u, d) in f.queue {
        assert GoodEntry(f, u, d);
      } else {
        assert u == e.to && d == f.last + e.weight;
      }
    }
  }

  lemma ImproveSettled(edges: seq<Edge>, f: Search, e: Edge, open: Option<Vertex>, f': Search)
    requires Settled(edges, f, open) && e.to in f.dist && Improves(f, e) && f.dist[e.to] <= MAX
    requires f' == AfterEdge(f, e)
    ensures Settled(edges, f', open)
  {
    forall u | u in f.visited && open != Some(u) ensures Relaxed(edges, f', u) {
      assert Relaxed(edges, f, u);
    }
  }

  /** Using an edge out of the freshly popped vertex to a better label keeps the invariant. */
  lemma ImproveVertex(edges: seq<Edge>, src: Vertex, f: Search, cur: Vertex, e: Edge, f': Search)
    requires NonNegative(edges) && Inv(edges, src, f, Some(cur))
    requires e in edges && e.from == cur && cur in f.visited && f.last == f.dist[cur]
    requires Improves(f, e) && 0 <= f.last + e.weight && f' == AfterEdge(f, e)
    ensures Inv(edges, src, f', Some(cur))
  {
    assert Reached(f, cur);
    ImproveLabels(edges, src, f, e, f');
    ImproveQueued(f, e, f');
    ImproveSettled(edges, f, e, Some(cur), f');
  }

  /** What using several edges of the vertex popped last does, one after the other. */
  function AfterEdges(f: Search, out: seq<Edge>): (f': Search)
    requires forall i :: 0 <= i < |out| ==> out[i].to in f.dist
    ensures f'.dist.Keys == f.dist.Keys && f'.visited == f.visited && f'.last == f.last
  {
    if out == [] then f else AfterEdge(AfterEdges(f, out[..|out| - 1]), out[|out| - 1])
  }

  // ---------------------------------------------------------------- labels stay small

  /** Every queued label is the weight of edges that leave other visited vertices. */
  ghost predicate Fits(edges: seq<Edge>, f: Search) {
    forall u, d :: (u, d) in f.queue ==> 0 <= d <= SumFrom(edges, f.visited - {u})
  }

  lemma PopFits(edges: seq<Edge>, f: Search, u: Vertex, d: int, f': Search)
    requires NonNegative(edges) && Fits(edges, f) && (u, d) in f.queue && f' == AfterPop(f, u, d)
    ensures Fits(edges, f') && 0 <= d <= SumFrom(edges, f'.visited - {u})
  {
    assert f'.visited - {u} == f.visited - {u};
    forall v, c | (v, c) in f'.queue ensures 0 <= c <= SumFrom(edges, f'.visited - {v}) {
      assert (v, c) in f.queue;
      SumFromGrows(edges, f.visited - {v}, f'.visited - {v});
    }
  }

  /** Labels through the edges of a popped vertex do not overflow and stay below a common cap. */
  ghost predicate RoomFor(edges: seq<Edge>, cur: Vertex, d: int, cap: int) {
    forall e :: e in edges && e.from == cur ==> 0 <= d + e.weight < MAX && d + e.weight <= cap
  }

  lemma PoppedHasRoom(edges: seq<Edge>, visited: set<Vertex>, cur: Vertex, d: int)
    requires NonNegative(edges) && Total(edges) < MAX && cur in visited
    requires 0 <= d <= SumFrom(edges, visited - {cur})
    ensures RoomFor(edges, cur, d, SumFrom(edges, visited))
  {
    forall e | e in edges && e.from == cur
      ensures 0 <= d + e.weight < MAX && d + e.weight <= SumFrom(edges, visited)
    {
      LabelFits(edges, visited, cur, d, e);
    }
  }

  // ---------------------------------------------------------------- one popped vertex

  /** The popped vertex `cur` with label `d`; at its first pop the label is its distance. */
  ghost predicate Popped(f: Search, cur: Vertex, d: int, first: bool) {
    && cur in f.visited && cur in f.dist && (first ==> d == f.dist[cur])
    && f.last == d
  }

  /** The first k edges out of `cur` are used. */
  ghost predicate UsedUpTo(edges: seq<Edge>, f: Search, cur: Vertex, k: nat) {
    && k <= |OutEdges(edges, cur)|
    && forall i :: 0 <= i < k ==> Used(f, cur, OutEdges(edges, cur)[i])
  }

  ghost predicate Used(f: Search, cur: Vertex, e: Edge) {
    cur in f.dist && e.to in f.dist && f.dist[e.to] < MAX && f.dist[e.to] <= f.dist[cur] + e.weight
  }

  /** Between two edges of a popped vertex. At a later pop all of its edges were used before. */
  ghost predicate Relaxing(edges: seq<Edge>, src: Vertex, f: Search, cur: Vertex, d: int, k: nat, first: bool) {
    && (if first then Inv(edges, src, f, Some(cur)) else Inv(edges, src, f, None))
    && Popped(f, cur, d, first)
    && UsedUpTo(edges, f, cur, k)
  }

  lemma {:induction false} OutEdgeAt(edges: seq<Edge>, u: Vertex, k: nat)
    requires k < |OutEdges(edges, u)|
    ensures OutEdges(edges, u)[k] in edges && OutEdges(edges, u)[k].from == u
  {
    if edges[0].from != u {
      OutEdgeAt(edges[1..], u, k);
    } else if k > 0 {
      OutEdgeAt(edges[1..], u, k - 1);
    }
  }

  /** An edge that improves nothing was already used, in effect. */
  lemma RelaxSkip(edges: seq<Edge>, src: Vertex, f: Search, cur: Vertex, d: int, k: nat, first: bool, e: Edge)
    requires NonNegative(edges) && Relaxing(edges, src, f, cur, d, k, first) && k < |OutEdges(edges, cur)|
    requires e == OutEdges(edges, cur)[k] && e in edges && e.from == cur
    requires e.to in f.dist && d + e.weight < MAX && (e.to in f.visited || d + e.weight >= f.dist[e.to])
    ensures UsedUpTo(edges, f, cur, k + 1)
  {
    if !first {
      assert Relaxed(edges, f, cur);
    }
    assert Used(f, cur, e);
  }

  /** At a stale pop no edge improves anything. */
  lemma RelaxStale(edges: seq<Edge>, src: Vertex, f: Search, cur: Vertex, d: int, k: nat)
    requires Relaxing(edges, src, f, cur, d, k, false) && k < |OutEdges(edges, cur)|
    ensures var e := OutEdges(edges, cur)[k]; e.to in f.dist && f.dist[e.to] <= d + e.weight
  {
    OutEdgeAt(edges, cur, k);
    assert Relaxed(edges, f, cur);
  }

  lemma ImproveUsed(edges: seq<Edge>, f: Search, cur: Vertex, k: nat, e: Edge, f': Search)
    requires UsedUpTo(edges, f, cur, k) && k < |OutEdges(edges, cur)| && e == OutEdges(edges, cur)[k]
    requires cur in f.dist && cur in f.visited && f.last == f.dist[cur]
    requires e.to in f.dist && Improves(f, e) && f.dist[e.to] <= MAX && f' == AfterEdge(f, e)
    ensures UsedUpTo(edges, f', cur, k + 1)
  {
    forall i | 0 <= i < k + 1 ensures Used(f', cur, OutEdges(edges, cur)[i]) {
      if i < k {
        assert Used(f, cur, OutEdges(edges, cur)[i]);
      }
    }
  }

  lemma RelaxImprove(edges: seq<Edge>, src: Vertex, f: Search, cur: Vertex, d: int, k: nat, e: Edge, f': Search)
    requires NonNegative(edges) && Relaxing(edges, src, f, cur, d, k, true) && k < |OutEdges(edges, cur)|
    requires e == OutEdges(edges, cur)[k] && e in edges && e.from == cur && 0 <= d + e.weight
    requires e.to in f.dist && Improves(f, e) && f' == AfterEdge(f, e)
    ensures Relaxing(edges, src, f', cur, d, k + 1, true)
  {
    ImproveVertex(edges, src, f, cur, e, f');
    ImproveUsed(edges, f, cur, k, e, f');
  }

  /** One iteration over the edges of a popped vertex; at a later pop nothing changes. */
  lemma RelaxStep(edges: seq<Edge>, src: Vertex, f: Search, cur: Vertex, d: int, k: nat, first: bool, e: Edge,
                  f': Search)
    requires NonNegative(edges) && Relaxing(edges, src, f, cur, d, k, first) && k < |OutEdges(edges, cur)|
    requires e == OutEdges(edges, cur)[k] && 0 <= d + e.weight < MAX && e.to in f.dist
    requires f' == AfterEdge(f, e)
    ensures Relaxing(edges, src, f', cur, d, k + 1, first)
    ensures !first ==> f' == f
  {
    OutEdgeAt(edges, cur, k);
    if !Improves(f, e) {
      RelaxSkip(edges, src, f, cur, d, k, first, e);
    } else if first {
      RelaxImprove(edges, src, f, cur, d, k, e, f');
    } else {
      RelaxStale(edges, src, f, cur, d, k);
    }
  }

  /** Using all the edges of a popped vertex, whatever the method does in between. */
  lemma {:induction false} RelaxSteps(edges: seq<Edge>, src: Vertex, f: Search, cur: Vertex, d: int, k: nat,
                                      first: bool, cap: int)
    requires NonNegative(edges) && Relaxing(edges, src, f, cur, d, 0, first) && RoomFor(edges, cur, d, cap)
    requires k <= |OutEdges(edges, cur)| && Targets(f, OutEdges(edges, cur))
    ensures Relaxing(edges, src, AfterEdges(f, OutEdges(edges, cur)[..k]), cur, d, k, first)
    ensures !first ==> AfterEdges(f, OutEdges(edges, cur)[..k]) == f
  {
    var out := OutEdges(edges, cur);
    if k > 0 {
      RelaxSteps(edges, src, f, cur, d, k - 1, first, cap);
      assert out[..k][..k - 1] == out[..k - 1];
      OutEdgeAt(edges, cur, k - 1);
      RelaxStep(edges, src, AfterEdges(f, out[..k - 1]), cur, d, k - 1, first, out[k - 1], AfterEdges(f, out[..k]));
    }
  }

  ghost predicate Targets(f: Search, out: seq<Edge>) {
    forall i :: 0 <= i < |out| ==> out[i].to in f.dist
  }

  lemma RelaxDone(edges: seq<Edge>, src: Vertex, f: Search, cur: Vertex, d: int, first: bool)
    requires Relaxing(edges, src, f, cur, d, |OutEdges(edges, cur)|, first)
    ensures Inv(edges, src, f, None)
  {
    OutEdgesMember(edges, cur);
    if first {
      forall e | e in edges && e.from == cur ensures Used(f, cur, e) {
        var i :| 0 <= i < |OutEdges(edges, cur)| && OutEdges(edges, cur)[i] == e;
        assert Used(f, cur, OutEdges(edges, cur)[i]);
      }
      assert Relaxed(edges, f, cur);
    }
  }

  /** After all edges of a popped vertex the invariant is closed again. */
  lemma RelaxAllEdges(edges: seq<Edge>, src: Vertex, f: Search, cur: Vertex, d: int, first: bool, cap: int)
    requires NonNegative(edges) && Relaxing(edges, src, f, cur, d, 0, first) && RoomFor(edges, cur, d, cap)
    requires Targets(f, OutEdges(edges, cur))
    ensures Inv(edges, src, AfterEdges(f, OutEdges(edges, cur)), None)
    ensures !first ==> AfterEdges(f, OutEdges(edges, cur)) == f
  {
    var out := OutEdges(edges, cur);
    assert out[..|out|] == out;
    RelaxSteps(edges, src, f, cur, d, |out|, first, cap);
    RelaxDone(edges, src, AfterEdges(f, out), cur, d, first);
  }

  /** The edges of a popped vertex add at most one entry each, all of them small. */
  lemma {:induction false} EdgesFit(edges: seq<Edge>, f: Search, out: seq<Edge>)
    requires Fits(edges, f) && Targets(f, out)
    requires forall e :: e in out ==> 0 <= f.last + e.weight <= SumFrom(edges, f.visited)
    ensures Fits(edges, AfterEdges(f, out)) && |f.queue| <= |AfterEdges(f, out).queue| <= |f.queue| + |out|
  {
    if out != [] {
      var n := |out| - 1;
      var g, e := AfterEdges(f, out[..n]), out[n];
      EdgesFit(edges, f, out[..n]);
      EdgeFits(edges, g, e, AfterEdge(g, e));
    }
  }

  lemma EdgeFits(edges: seq<Edge>, f: Search, e: Edge, f': Search)
    requires Fits(edges, f) && e.to in f.dist && f' == AfterEdge(f, e)
    requires 0 <= f.last + e.weight <= SumFrom(edges, f.visited)
    ensures Fits(edges, f') && |f.queue| <= |f'.queue| <= |f.queue| + 1
  {
    forall u, d | (u, d) in f'.queue ensures 0 <= d <= SumFrom(edges, f'.visited - {u}) {
      if (u, d) !in f.queue {
        assert f.visited - {u} == f.visited;
      }
    }
  }

  /** After popping the smallest entry the search is ready to use the vertex's edges. */
  lemma PopStep(edges: seq<Edge>, src: Vertex, f: Search, u: Vertex, d: int, f': Search, first: bool)
    requires NonNegative(edges) && Inv(edges, src, f, None) && Smallest(f.queue, u, d)
    requires f' == AfterPop(f, u, d) && first == (u !in f.visited)
    ensures Relaxing(edges, src, f', u, d, 0, first)
  {
    assert GoodEntry(f, u, d);
    if u in f.visited {
      StalePop(edges, src, f, u, d);
      assert f.visited + {u} == f.visited;
      assert f' == f.(queue := f.queue - multiset{(u, d)}, last := d);
    } else {
      FirstPop(edges, src, f, u, d);
    }
  }

  lemma {:induction false} WalkWeight(edges: seq<Edge>, src: Vertex, v: Vertex, path: seq<Edge>)
    requires NonNegative(edges) && IsWalk(edges, src, v, path)
    ensures Weight(path) >= 0
    decreases |path|
  {
    if path != [] {
      WalkWeight(edges, src, path[|path| - 1].from, path[..|path| - 1]);
    }
  }

  lemma LabelIsNatural(edges: seq<Edge>, src: Vertex, f: Search, v: Vertex)
    requires NonNegative(edges) && Labels(edges, src, f) && v in f.dist
    ensures f.dist[v] >= 0
  {
    if f.dist[v] < MAX {
      assert Reached(f, v);
      var path :| IsWalk(edges, src, v, path) && Weight(path) == f.dist[v];
      WalkWeight(edges, src, v, path);
    }
  }

  // ---------------------------------------------------------------- the end of the search

  lemma {:induction false} WalkIsNoShorter(edges: seq<Edge>, src: Vertex, f: Search, v: Vertex, path: seq<Edge>)
    requires Inv(edges, src, f, None) && f.queue == multiset{} && IsWalk(edges, src, v, path)
    ensures v in f.dist && f.dist[v] < MAX && f.dist[v] <= Weight(path)
    decreases |path|
  {
    if path != [] {
      var e := path[|path| - 1];
      WalkIsNoShorter(edges, src, f, e.from, path[..|path| - 1]);
      assert e.from in f.visited;
      assert Relaxed(edges, f, e.from);
    }
  }

  /** Once the queue is empty every distance is final, and unreached means unreachable. */
  lemma EmptyQueueIsFinal(edges: seq<Edge>, src: Vertex, f: Search, v: Vertex)
    requires Inv(edges, src, f, None) && f.queue == multiset{} && v in f.dist
    ensures f.dist[v] < MAX ==> IsDistance(edges, src, v, f.dist[v]) && v in f.visited
    ensures f.dist[v] == MAX <==> !Reachable(edges, src, v)
  {
    forall path | IsWalk(edges, src, v, path) ensures f.dist[v] < MAX && f.dist[v] <= Weight(path) {
      WalkIsNoShorter(edges, src, f, v, path);
    }
    if f.dist[v] < MAX {
      assert Reached(f, v);
    }
  }

  // ---------------------------------------------------------------- around one pop

  lemma OutEdgesFit(edges: seq<Edge>, f: Search, cur: Vertex)
    requires RoomFor(edges, cur, f.last, SumFrom(edges, f.visited)) && forall e :: e in edges ==> e.to in f.dist
    ensures Targets(f, OutEdges(edges, cur))
    ensures forall e :: e in OutEdges(edges, cur) ==>
              0 <= f.last + e.weight < MAX && f.last + e.weight <= SumFrom(edges, f.visited)
  {
    OutEdgesMember(edges, cur);
    forall i | 0 <= i < |OutEdges(edges, cur)| ensures OutEdges(edges, cur)[i].to in f.dist {
      OutEdgeAt(edges, cur, i);
    }
  }

  lemma CountAfterPop(edges: seq<Edge>, visited: set<Vertex>, u: Vertex)
    ensures CountFrom(edges, visited + {u}) ==
            CountFrom(edges, visited) + if u in visited then 0 else |OutEdges(edges, u)|
  {
    if u in visited {
      assert visited + {u} == visited;
    } else {
      CountFromAdds(edges, visited, u);
    }
  }

  lemma StartInv(edges: seq<Edge>, src: Vertex, f: Search)
    requires NonNegative(edges)
    requires f.visited == {} && f.queue == multiset{(src, 0)} && f.last == 0
    requires src in f.dist && f.dist[src] == 0 && forall v :: v in f.dist && v != src ==> f.dist[v] == MAX
    requires forall e :: e in edges ==> e.to in f.dist
    ensures Inv(edges, src, f, None) && Fits(edges, f)
  {
    assert IsWalk(edges, src, src, []) && Weight([]) == 0;
    SumFromGrows(edges, {}, f.visited - {src});
    assert GoodEntry(f, src, 0);
  }

  /** A pop takes one entry and adds at most one per edge of a vertex popped for the first time. */
  lemma PopCounts(edges: seq<Edge>, f: Search, cur: Vertex, d: int, g: Search, f': Search)
    requires Fits(edges, g) && g == AfterPop(f, cur, d) && (cur, d) in f.queue
    requires Targets(g, OutEdges(edges, cur)) && f' == AfterEdges(g, OutEdges(edges, cur))
    requires cur in f.visited ==> f' == g
    requires forall e :: e in OutEdges(edges, cur) ==> 0 <= d + e.weight <= SumFrom(edges, g.visited)
    ensures Fits(edges, f') && |f'.queue| >= |f.queue| - 1
    ensures |f'.queue| + CountFrom(edges, f.visited) + 1 <= |f.queue| + CountFrom(edges, f'.visited)
  {
    CountAfterPop(edges, f.visited, cur);
    EdgesFit(edges, g, OutEdges(edges, cur));
    assert |g.queue| == |f.queue| - 1;
  }

  // ---------------------------------------------------------------- whole runs

  /** One entry is popped and the edges of its vertex are used. */
  ghost predicate OnePop(edges: seq<Edge>, f: Search, u: Vertex, d: int, f': Search) {
    && Smallest(f.queue, u, d) && Targets(AfterPop(f, u, d), OutEdges(edges, u))
    && f' == AfterEdges(AfterPop(f, u, d), OutEdges(edges, u))
  }

  lemma OnePopKeeps(edges: seq<Edge>, src: Vertex, f: Search, u: Vertex, d: int, f': Search)
    requires NonNegative(edges) && Total(edges) < MAX && Inv(edges, src, f, None) && Fits(edges, f)
    requires OnePop(edges, f, u, d, f')
    ensures Inv(edges, src, f', None) && Fits(edges, f') && f'.dist.Keys == f.dist.Keys
    ensures |f'.queue| + CountFrom(edges, f.visited) + 1 <= |f.queue| + CountFrom(edges, f'.visited)
  {
    var g, first, cap := AfterPop(f, u, d), u !in f.visited, SumFrom(edges, f.visited + {u});
    PopStep(edges, src, f, u, d, g, first);
    PopFits(edges, f, u, d, g);
    PoppedHasRoom(edges, g.visited, u, d);
    OutEdgesFit(edges, g, u);
    RelaxAllEdges(edges, src, g, u, d, first, cap);
    PopCounts(edges, f, u, d, g, f');
  }

  /** A run: the popped entries in their order, with ties broken in any way. */
  ghost predicate PopsTo(edges: seq<Edge>, start: Search, pops: seq<(Vertex, int)>, f: Search)
    decreases |pops|
  {
    if pops == [] then f == start
    else exists g ::
      PopsTo(edges, start, Front(pops), g) && OnePop(edges, g, Last(pops).0, Last(pops).1, f)
  }

  /** Everything is unreached except the source, which is the only entry of the queue. */
  ghost predicate Starts(edges: seq<Edge>, src: Vertex, f: Search) {
    && f.visited == {} && f.queue == multiset{(src, 0)} && f.last == 0
    && src in f.dist && f.dist[src] == 0 && (forall v :: v in f.dist && v != src ==> f.dist[v] == MAX)
    && forall e :: e in edges ==> e.to in f.dist
  }

  lemma {:induction false} RunKeepsInv(edges: seq<Edge>, src: Vertex, start: Search, pops: seq<(Vertex, int)>,
                                       f: Search)
    requires NonNegative(edges) && Total(edges) < MAX && Starts(edges, src, start) && PopsTo(edges, start, pops, f)
    ensures Inv(edges, src, f, None) && Fits(edges, f) && f.dist.Keys == start.dist.Keys
    ensures |pops| + |f.queue| <= 1 + CountFrom(edges, f.visited)
    decreases |pops|
  {
    if pops == [] {
      StartInv(edges, src, f);
    } else {
      var g :| PopsTo(edges, start, Front(pops), g) && OnePop(edges, g, Last(pops).0, Last(pops).1, f);
      RunKeepsInv(edges, src, start, Front(pops), g);
      OnePopKeeps(edges, src, g, Last(pops).0, Last(pops).1, f);
    }
  }

  /**
    In every run the entries popped and those still in the queue, stale ones included, are at most
    one more than the edges; and when none is left, the labels are the distances.
  */
  lemma EveryRun(edges: seq<Edge>, src: Vertex, start: Search, pops: seq<(Vertex, int)>, f: Search)
    requires NonNegative(edges) && Total(edges) < MAX && Starts(edges, src, start) && PopsTo(edges, start, pops, f)
    ensures |pops| + |f.queue| <= 1 + |edges|
    ensures f.queue == multiset{} ==> forall v :: v in f.dist ==>
              if f.dist[v] == MAX then !Reachable(edges, src, v) else IsDistance(edges, src, v, f.dist[v])
  {
    RunKeepsInv(edges, src, start, pops, f);
    CountFromBound(edges, f.visited);
    if f.queue == multiset{} {
      forall v | v in f.dist
        ensures if f.dist[v] == MAX then !Reachable(edges, src, v) else IsDistance(edges, src, v, f.dist[v]) {
        EmptyQueueIsFinal(edges, src, f, v);
      }
    }
  }

  // ---------------------------------------------------------------- the priority queue

  lemma SmallestExists(queue: multiset<(Vertex, int)>) returns (u: Vertex, d: int)
    requires queue != multiset{}
    ensures Smallest(queue, u, d)
    decreases |queue|
  {
    var e :| e in queue;
    u, d := e.0, e.1;
    var rest := queue - multiset{e};
    if rest != multiset{} {
      var v, c := SmallestExists(rest);
      if c < d {
        u, d := v, c;
      }
    }
    forall v, c | (v, c) in queue ensures d <= c {
      if (v, c) != e {
        assert (v, c) in rest;
      }
    }
  }

  /** Takes out an entry with the smallest label; which one of several is left open. */
  method Dequeue(queue: multiset<(Vertex, int)>) returns (u: Vertex, d: int, rest: multiset<(Vertex, int)>)
    requires queue != multiset{}
    ensures Smallest(queue, u, d) && rest == queue - multiset{(u, d)}
  {
    ghost var u0, d0 := SmallestExists(queue);
    assert (u0, d0) in queue && forall x :: x in queue ==> d0 <= x.1 by {
      forall x | x in queue ensures d0 <= x.1 {
        assert (x.0, x.1) in queue;
      }
    }
    var e :| e in queue && forall x :: x in queue ==> e.1 <= x.1;
    forall v, c | (v, c) in queue ensures e.1 <= c {
      assert e.1 <= (v, c).1;
    }
    u, d := e.0, e.1;
    rest := queue - multiset{e};
  }
}
