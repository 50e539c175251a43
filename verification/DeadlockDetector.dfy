/**
  The deadlock detector: the resource graph, and the search for a cycle over global buffers of a
  fixed size. The chain of targets of a vertex is a sequence here.
*/
module DeadlockDetector {
  import opened Helpers
  import opened DeadlockSearch
  import opened DeadlockReports

  const MAX := 64

  datatype Type = Process | Resource

  datatype SourceNode = SourceNode(id: int, kind: Type)

  /** The first position of a node, or -1. */
  ghost function PositionOf(nodes: seq<SourceNode>, node: SourceNode): (r: int)
    ensures -1 <= r < |nodes| && (r >= 0 ==> nodes[r] == node)
    ensures r == -1 <==> node !in nodes
  {
    if nodes == [] then -1
    else if nodes[0] == node then 0
    else
      var r := PositionOf(nodes[1..], node);
      if r == -1 then -1 else r + 1
  }

  ghost predicate NodesDistinct(nodes: seq<SourceNode>) {
    forall i, j :: 0 <= i < j < |nodes| ==> nodes[i] != nodes[j]
  }

  /** The graph on positions, g, and the graph on nodes are the same. */
  ghost predicate Numbered(nodes: seq<SourceNode>, next: seq<seq<SourceNode>>, g: Graph) {
    && |g| == |next| == |nodes|
    && (forall u :: 0 <= u < |g| ==> |g[u]| == |next[u]|)
    && (forall u, j :: 0 <= u < |g| && 0 <= j < |g[u]| ==> g[u][j] < |nodes| && nodes[g[u][j]] == next[u][j])
  }

  /** A vertex is added unless it is there. */
  ghost function WithVertex(nodes: seq<SourceNode>, node: SourceNode): seq<SourceNode> {
    if node in nodes then nodes else nodes + [node]
  }

  lemma NumberedVertex(nodes: seq<SourceNode>, next: seq<seq<SourceNode>>, g: Graph, node: SourceNode)
    requires Numbered(nodes, next, g)
    ensures Numbered(nodes + [node], next + [[]], g + [[]])
  {
  }

  lemma NumberedEdge(nodes: seq<SourceNode>, next: seq<seq<SourceNode>>, g: Graph, u: nat, w: nat)
    requires Numbered(nodes, next, g) && u < |nodes| && w < |nodes|
    ensures Numbered(nodes, next[u := next[u] + [nodes[w]]], g[u := g[u] + [w]])
  {
  }

  lemma MoreLists(a: seq<seq<SourceNode>>, b: seq<seq<SourceNode>>, c: seq<seq<SourceNode>>)
    requires a <= b <= c
    requires forall u :: |a| <= u < |b| ==> b[u] == []
    requires forall u :: |b| <= u < |c| ==> c[u] == []
    ensures a <= c && forall u :: |a| <= u < |c| ==> c[u] == []
  {
    forall u | |a| <= u < |c| ensures c[u] == [] {
      assert u < |b| ==> c[u] == b[u];
    }
  }

  lemma OneListGrows(nodes: seq<SourceNode>, next: seq<seq<SourceNode>>, u: nat, target: SourceNode)
    requires NodesDistinct(nodes) && |next| == |nodes| && u < |nodes|
    ensures forall v :: 0 <= v < |nodes| ==>
              next[u := next[u] + [target]][v] == next[v] + if nodes[v] == nodes[u] then [target] else []
  {
    forall v | 0 <= v < |nodes|
      ensures next[u := next[u] + [target]][v] == next[v] + if nodes[v] == nodes[u] then [target] else []
    {
      assert v < u ==> nodes[v] != nodes[u];
      assert u < v ==> nodes[u] != nodes[v];
    }
  }

  lemma NumberedIsGraph(nodes: seq<SourceNode>, next: seq<seq<SourceNode>>, g: Graph)
    requires Numbered(nodes, next, g)
    ensures IsGraph(g)
  {
  }

  // ---------------------------------------------------------------- the calls

  /** One call of add_edge. */
  datatype Call = Call(from: SourceNode, to: SourceNode)

  /** The targets that were given for a node, in the order of the calls. */
  ghost function Targets(calls: seq<Call>, node: SourceNode): seq<SourceNode>
    decreases |calls|
  {
    if calls == [] then []
    else
      var c := Last(calls);
      Targets(Front(calls), node) + if c.from == node then [c.to] else []
  }

  /** Every vertex has exactly the targets of the calls, and every node of a call is a vertex. */
  ghost predicate Records(nodes: seq<SourceNode>, next: seq<seq<SourceNode>>, calls: seq<Call>) {
    && |next| == |nodes|
    && (forall u :: 0 <= u < |nodes| ==> next[u] == Targets(calls, nodes[u]))
    && (forall i :: 0 <= i < |calls| ==> calls[i].from in nodes && calls[i].to in nodes)
  }

  lemma {:induction false} NoTargets(calls: seq<Call>, node: SourceNode)
    requires forall i :: 0 <= i < |calls| ==> calls[i].from != node
    ensures Targets(calls, node) == []
    decreases |calls|
  {
    if calls != [] {
      NoTargets(Front(calls), node);
    }
  }

  lemma RecordsVertex(nodes: seq<SourceNode>, next: seq<seq<SourceNode>>, calls: seq<Call>, node: SourceNode)
    requires Records(nodes, next, calls) && node !in nodes
    ensures Records(nodes + [node], next + [[]], calls)
  {
    NoTargets(calls, node);
  }

  lemma RecordsEdge(nodes: seq<SourceNode>, next: seq<seq<SourceNode>>, calls: seq<Call>, u: nat, c: Call)
    requires Records(nodes, next, calls) && NodesDistinct(nodes)
    requires u < |nodes| && nodes[u] == c.from && c.to in nodes
    ensures Records(nodes, next[u := next[u] + [c.to]], calls + [c])
  {
    var next' := next[u := next[u] + [c.to]];
    assert Last(calls + [c]) == c && Front(calls + [c]) == calls;
    forall v | 0 <= v < |nodes| ensures next'[v] == Targets(calls + [c], nodes[v]) {
      assert next[v] == Targets(calls, nodes[v]);
      assert v != u ==> nodes[v] != nodes[u];
    }
  }

  /** The calls with these numbers lead from one node to another. */
  ghost predicate CallWalk(calls: seq<Call>, a: SourceNode, p: seq<nat>, b: SourceNode)
    decreases |p|
  {
    if p == [] then a == b
    else p[0] < |calls| && calls[p[0]].from == a && CallWalk(calls, calls[p[0]].to, p[1..], b)
  }

  ghost predicate HasCycle(calls: seq<Call>) {
    exists a, p :: p != [] && CallWalk(calls, a, p, a)
  }

  lemma {:induction false} TargetOfCall(calls: seq<Call>, i: nat) returns (j: nat)
    requires i < |calls|
    ensures j < |Targets(calls, calls[i].from)| && Targets(calls, calls[i].from)[j] == calls[i].to
    decreases |calls|
  {
    var node := calls[i].from;
    if i == |calls| - 1 {
      j := |Targets(Front(calls), node)|;
    } else {
      assert Front(calls)[i] == calls[i];
      j := TargetOfCall(Front(calls), i);
    }
  }

  lemma {:induction false} CallOfTarget(calls: seq<Call>, node: SourceNode, j: nat) returns (i: nat)
    requires j < |Targets(calls, node)|
    ensures i < |calls| && calls[i] == Call(node, Targets(calls, node)[j])
    decreases |calls|
  {
    if j < |Targets(Front(calls), node)| {
      i := CallOfTarget(Front(calls), node, j);
    } else {
      i := |calls| - 1;
    }
  }

  ghost predicate Graphed(nodes: seq<SourceNode>, next: seq<seq<SourceNode>>, g: Graph, calls: seq<Call>) {
    Numbered(nodes, next, g) && NodesDistinct(nodes) && Records(nodes, next, calls) && IsGraph(g)
  }

  lemma {:induction false} RouteOfWalk(nodes: seq<SourceNode>, next: seq<seq<SourceNode>>, g: Graph, calls: seq<Call>,
                                       u: nat, p: seq<nat>, b: SourceNode)
    returns (r: seq<nat>, w: nat)
    requires Graphed(nodes, next, g, calls) && u < |nodes| && CallWalk(calls, nodes[u], p, b)
    ensures |r| == |p| && w < |g| && nodes[w] == b && Route(g, u, r, w)
    decreases |p|
  {
    if p == [] {
      r, w := [], u;
    } else {
      var j := TargetOfCall(calls, p[0]);
      assert next[u] == Targets(calls, nodes[u]);
      var rest;
      rest, w := RouteOfWalk(nodes, next, g, calls, g[u][j], p[1..], b);
      r := [j] + rest;
      RouteCons(g, u, j, rest, w);
    }
  }

  lemma {:induction false} WalkOfRoute(nodes: seq<SourceNode>, next: seq<seq<SourceNode>>, g: Graph, calls: seq<Call>,
                                       u: nat, r: seq<nat>, w: nat)
    returns (p: seq<nat>)
    requires Graphed(nodes, next, g, calls) && u < |g| && w < |g| && Route(g, u, r, w)
    ensures |p| == |r| && CallWalk(calls, nodes[u], p, nodes[w])
    decreases |r|
  {
    if r == [] {
      p := [];
    } else {
      assert next[u] == Targets(calls, nodes[u]);
      var i := CallOfTarget(calls, nodes[u], r[0]);
      var rest := WalkOfRoute(nodes, next, g, calls, g[u][r[0]], r[1..], w);
      p := [i] + rest;
      assert p[1..] == rest;
    }
  }

  /** The graph has a cycle exactly when the calls have one. */
  lemma CyclesOfCalls(nodes: seq<SourceNode>, next: seq<seq<SourceNode>>, g: Graph, calls: seq<Call>)
    requires Graphed(nodes, next, g, calls)
    ensures HasCycle(calls) <==> exists v :: 0 <= v < |g| && OnCycle(g, v)
  {
    if HasCycle(calls) {
      var a, p :| p != [] && CallWalk(calls, a, p, a);
      assert calls[p[0]].from in nodes;
      var u :| 0 <= u < |nodes| && nodes[u] == a;
      var r, w := RouteOfWalk(nodes, next, g, calls, u, p, a);
      assert OnCycle(g, u);
    }
    if v :| 0 <= v < |g| && OnCycle(g, v) {
      var r :| r != [] && Route(g, v, r, v);
      var p := WalkOfRoute(nodes, next, g, calls, v, r, v);
    }
  }

  /** No node is the source of two calls. */
  ghost predicate SourcesDistinct(calls: seq<Call>) {
    forall i, j :: 0 <= i < j < |calls| ==> calls[i].from != calls[j].from
  }

  lemma {:induction false} OneTargetEach(calls: seq<Call>, node: SourceNode)
    requires SourcesDistinct(calls)
    ensures |Targets(calls, node)| <= 1
    decreases |calls|
  {
    if calls != [] {
      OneTargetEach(Front(calls), node);
      if Last(calls).from == node {
        NoTargets(Front(calls), node);
      }
    }
  }

  /** What the searches find, said of the calls. */
  lemma FlaggedByCalls(nodes: seq<SourceNode>, next: seq<seq<SourceNode>>, g: Graph, calls: seq<Call>)
    requires Graphed(nodes, next, g, calls)
    ensures HasCycle(calls) ==> Flagged(g)
    ensures SourcesDistinct(calls) && Flagged(g) ==> HasCycle(calls)
  {
    CyclesOfCalls(nodes, next, g, calls);
    if v :| 0 <= v < |g| && OnCycle(g, v) {
      CycleIsFlagged(g, v);
    }
    if SourcesDistinct(calls) {
      SingleEdges(nodes, next, g, calls);
      FlaggedIffCycle(g);
    }
  }

  lemma SingleEdges(nodes: seq<SourceNode>, next: seq<seq<SourceNode>>, g: Graph, calls: seq<Call>)
    requires Graphed(nodes, next, g, calls)
    ensures SourcesDistinct(calls) ==> forall u :: 0 <= u < |g| ==> |g[u]| <= 1
  {
    if SourcesDistinct(calls) {
      forall u | 0 <= u < |g| ensures |g[u]| <= 1 {
        OneTargetEach(calls, nodes[u]);
      }
    }
  }

  // ---------------------------------------------------------------- buffers

  ghost function MarkedBelow(visited: array<int>, n: nat): (r: set<nat>)
    requires n <= visited.Length
    reads visited
    ensures forall u: nat :: u in r <==> u < n && visited[u] == 1
    ensures r <= NaturalsBelow(n)
  {
    set u: nat | u in NaturalsBelow(n) && visited[u] == 1
  }

  /** The search from one of the first n vertices runs into something seen. */
  ghost predicate FlaggedBefore(g: Graph, n: nat)
    requires IsGraph(g) && n <= |g|
  {
    exists v :: 0 <= v < n && HitsFrom(g, v)
  }

  lemma OneMoreVertex(g: Graph, n: nat)
    requires IsGraph(g) && n < |g|
    ensures FlaggedBefore(g, n + 1) <==> FlaggedBefore(g, n) || HitsFrom(g, n)
  {
  }

  lemma FlaggedInTheEnd(g: Graph, flagged: bool)
    requires IsGraph(g) && (FlaggedBefore(g, |g|) ==> flagged)
    requires flagged ==> exists n :: 0 <= n <= |g| && FlaggedBefore(g, n)
    ensures flagged <==> Flagged(g)
  {
  }

  class Detector {
    var nodes: seq<SourceNode>
    var next: seq<seq<SourceNode>>
    const visited: array<int>
    const path: array<int>
    var k: int
    var deadlock: int
    /** What print_deadlock has printed in the current check. */
    var printed: seq<seq<int>>
    /** The vertices as numbers. */
    ghost var g: Graph
    /** The calls of AddEdge so far. */
    ghost var calls: seq<Call>

    ghost predicate Valid()
      reads this`nodes, this`next, this`g
    {
      && visited.Length == MAX && path.Length == MAX + 1 && visited != path
      && |nodes| <= MAX && NodesDistinct(nodes) && Numbered(nodes, next, g)
    }

    constructor ()
      ensures Valid() && Records(nodes, next, calls) && calls == [] && deadlock == 0
    {
      nodes, next, g, calls := [], [], [], [];
      visited := new int[MAX];
      path := new int[MAX + 1];
      k, deadlock, printed := 0, 0, [];
    }

    method SearchVertex(node: SourceNode) returns (r: int)
      ensures r == PositionOf(nodes, node)
    {
      for i := 0 to |nodes|
        invariant PositionOf(nodes, node) ==
                  if PositionOf(nodes[i..], node) == -1 then -1 else PositionOf(nodes[i..], node) + i
      {
        assert nodes[i..][1..] == nodes[i + 1..];
        if nodes[i].kind == node.kind && nodes[i].id == node.id {
          return i;
        }
      }
      return -1;
    }

    method AddVertex(node: SourceNode)
      requires Valid() && Records(nodes, next, calls) && (node !in nodes ==> |nodes| < MAX)
      modifies this`nodes, this`next, this`g
      ensures Valid() && Records(nodes, next, calls) && nodes == WithVertex(old(nodes), node)
      ensures old(next) <= next && forall u :: |old(next)| <= u < |next| ==> next[u] == []
    {
      var i := SearchVertex(node);
      if i == -1 {
        NumberedVertex(nodes, next, g, node);
        RecordsVertex(nodes, next, calls, node);
        nodes, next, g := nodes + [node], next + [[]], g + [[]];
      }
    }

    /** Both ends become vertices, and the target is added to the end of the list of the source. */
    method AddEdge(from: SourceNode, to: SourceNode)
      requires Valid() && Records(nodes, next, calls) && |WithVertex(WithVertex(nodes, from), to)| <= MAX
      modifies this`nodes, this`next, this`g, this`calls
      ensures Valid() && Records(nodes, next, calls) && calls == old(calls) + [Call(from, to)]
      ensures nodes == WithVertex(WithVertex(old(nodes), from), to) && from in nodes && to in nodes
      ensures forall u :: 0 <= u < |nodes| ==>
                next[u] == (if u < |old(nodes)| then old(next)[u] else []) + if nodes[u] == from then [to] else []
    {
      AddEnds(from, to);
      AddOut(from, to);
    }

    method AddEnds(from: SourceNode, to: SourceNode)
      requires Valid() && Records(nodes, next, calls) && |WithVertex(WithVertex(nodes, from), to)| <= MAX
      modifies this`nodes, this`next, this`g
      ensures Valid() && Records(nodes, next, calls) && nodes == WithVertex(WithVertex(old(nodes), from), to)
      ensures old(next) <= next && forall u :: |old(next)| <= u < |next| ==> next[u] == []
    {
      ghost var next0 := next;
      AddVertex(from);
      ghost var next1 := next;
      AddVertex(to);
      MoreLists(next0, next1, next);
    }

    /** The walk to the end of the list of from, and the new entry there. */
    method AddOut(from: SourceNode, to: SourceNode)
      requires Valid() && Records(nodes, next, calls) && from in nodes && to in nodes
      modifies this`next, this`g, this`calls
      ensures Valid() && Records(nodes, next, calls) && calls == old(calls) + [Call(from, to)]
      ensures forall u :: 0 <= u < |nodes| ==> next[u] == old(next)[u] + if nodes[u] == from then [to] else []
    {
      var u: nat := SearchVertex(from);
      ghost var w: nat, c := PositionOf(nodes, to), Call(from, to);
      NumberedEdge(nodes, next, g, u, w);
      RecordsEdge(nodes, next, calls, u, c);
      OneListGrows(nodes, next, u, to);
      next, g := next[u := next[u] + [to]], g[u := g[u] + [w]];
      calls := calls + [c];
    }

    // ---------------------------------------------------------------- the search

    /** The vertices that are marked as visited. */
    ghost function Marked(): (r: set<nat>)
      requires Valid()
      reads this`nodes, this`next, this`g, visited
      ensures r <= Vertices(g)
    {
      MarkedBelow(visited, |nodes|)
    }

    /** The path buffer holds this route. */
    ghost predicate Holds(route: seq<int>)
      reads this`k, path
    {
      k == |route| <= path.Length && path[..k] == route
    }

    /** One call of DFS: marks what the search sees, and reports what it hits. */
    method DFS(idx: nat, ghost route: seq<int>)
      requires Valid() && IsGraph(g) && idx < |nodes| && 1 <= |route| <= |Marked()|
      requires Holds(route)
      modifies visited, path, this`k, this`deadlock, this`printed
      ensures Marked() == Explore(g, idx, old(Marked())).seen
      ensures deadlock == if Explore(g, idx, old(Marked())).hit then 1 else old(deadlock)
      ensures Holds(route + [idx]) && printed == old(printed) + Reports(g, idx, route, old(Marked()))
      decreases |Vertices(g) - Marked()|, 0
    {
      ghost var seen := Marked();
      Fewer(Vertices(g), seen);
      if visited[idx] == 1 {
        Hit(idx, route);
      } else {
        FewerLeft(g, seen, seen + {idx}, idx);
        Enter(idx, route);
        Children(idx, route + [idx]);
      }
    }

    method Hit(idx: nat, ghost route: seq<int>)
      requires Valid() && Holds(route) && |route| < path.Length
      modifies path, this`k, this`deadlock, this`printed
      ensures Marked() == old(Marked()) && deadlock == 1 && Holds(route + [idx])
      ensures printed == old(printed) + [route + [idx]]
    {
      Push(idx, route);
      PrintDeadlock(route + [idx]);
      deadlock := 1;
    }

    method PrintDeadlock(ghost route: seq<int>)
      requires Holds(route)
      modifies this`printed
      ensures printed == old(printed) + [route]
    {
      printed := printed + [path[..k]];
    }

    method Enter(idx: nat, ghost route: seq<int>)
      requires Valid() && idx < |nodes| && idx !in Marked() && Holds(route) && |route| < path.Length
      modifies visited, path, this`k
      ensures Marked() == old(Marked()) + {idx} && Holds(route + [idx])
    {
      visited[idx] := 1;
      assert Marked() == old(Marked()) + {idx};
      Push(idx, route);
    }

    method Push(idx: nat, ghost route: seq<int>)
      requires Valid() && Holds(route) && |route| < path.Length
      modifies path, this`k
      ensures Holds(route + [idx]) && Marked() == old(Marked())
    {
      path[k] := idx;
      k := k + 1;
      assert path[..k] == route + [idx];
    }

    /** The loop over the outgoing edges. */
    method Children(idx: nat, ghost route: seq<int>)
      requires Valid() && IsGraph(g) && idx < |nodes| && 1 <= |route| <= |Marked()|
      requires Holds(route)
      modifies visited, path, this`k, this`deadlock, this`printed
      ensures var r := ExploreTo(g, idx, |g[idx]|, old(Marked()));
              Marked() == r.seen && deadlock == if r.hit then 1 else old(deadlock)
      ensures Holds(route) && printed == old(printed) + ReportsTo(g, idx, |g[idx]|, route, old(Marked()))
      decreases |Vertices(g) - Marked()|, 3
    {
      ghost var g0, seen, deadlock0, printed0 := g, Marked(), deadlock, printed;
      ghost var found, reports := Found(seen, false), [];
      for j := 0 to |next[idx]|
        invariant g == g0 && Holds(route) && printed == printed0 + reports
        invariant reports == ReportsTo(g0, idx, j, route, seen)
        invariant found == ExploreTo(g0, idx, j, seen) && Marked() == found.seen
        invariant deadlock == if found.hit then 1 else deadlock0
      {
        Fewer(Vertices(g0) - seen, Vertices(g0) - found.seen);
        ghost var more := Reports(g0, g0[idx][j], route, found.seen);
        found := Child(idx, j, seen, deadlock0, route, found);
        Regroup(printed0, reports, more);
        reports := reports + more;
      }
    }

    /** The body of this loop. */
    method Child(idx: nat, j: nat, ghost seen: set<nat>, ghost deadlock0: int, ghost route: seq<int>,
                 ghost found: Found)
      returns (ghost found': Found)
      requires Valid() && IsGraph(g) && idx < |nodes| && j < |next[idx]| && 1 <= |route| <= |seen|
      requires Holds(route)
      requires seen <= Vertices(g) && found == ExploreTo(g, idx, j, seen) && Marked() == found.seen
      requires deadlock == if found.hit then 1 else deadlock0
      modifies visited, path, this`k, this`deadlock, this`printed
      ensures Holds(route) && printed == old(printed) + Reports(g, g[idx][j], route, old(Marked()))
      ensures found' == ExploreTo(g, idx, j + 1, seen) && Marked() == found'.seen
      ensures deadlock == if found'.hit then 1 else deadlock0
      decreases |Vertices(g) - Marked()|, 2
    {
      Fewer(found.seen, seen);
      var c := Target(idx, j);
      found' := ExploreTo(g, idx, j + 1, seen);
      Visit(c, route);
    }

    method Visit(c: nat, ghost route: seq<int>)
      requires Valid() && IsGraph(g) && c < |nodes| && 1 <= |route| <= |Marked()|
      requires Holds(route)
      modifies visited, path, this`k, this`deadlock, this`printed
      ensures Marked() == Explore(g, c, old(Marked())).seen
      ensures deadlock == if Explore(g, c, old(Marked())).hit then 1 else old(deadlock)
      ensures Holds(route) && printed == old(printed) + Reports(g, c, route, old(Marked()))
      decreases |Vertices(g) - Marked()|, 1
    {
      DFS(c, route);
      Back(route, c);
    }

    method Target(idx: nat, j: nat) returns (c: nat)
      requires Valid() && idx < |nodes| && j < |next[idx]|
      ensures c < |nodes| && c == g[idx][j]
    {
      c := SearchVertex(next[idx][j]);
      assert c == g[idx][j];
    }

    method Back(ghost route: seq<int>, ghost idx: int)
      requires Holds(route + [idx])
      modifies this`k
      ensures Holds(route)
    {
      k := k - 1;
      assert path[..k] == (route + [idx])[..k];
    }

    // ---------------------------------------------------------------- all searches

    /** One search for each outgoing edge, with only the start marked. */
    method SearchForCycle(idx: nat)
      requires Valid() && IsGraph(g) && idx < |nodes| && deadlock == 0
      modifies visited, path, this`k, this`deadlock, this`printed
      ensures deadlock == (if HitsFrom(g, idx) then 1 else 0)
      ensures printed == old(printed) + ReportsBefore(g, idx, |g[idx]|)
    {
      ghost var g0, printed0 := g, printed;
      visited[idx] := 1;
      k := 0;
      path[k] := idx;
      k := k + 1;
      for j := 0 to |next[idx]|
        invariant g == g0 && printed == printed0 + ReportsBefore(g0, idx, j) && visited[idx] == 1 && path[0] == idx
        invariant deadlock == if HitsBefore(g0, idx, j) then 1 else 0
      {
        OneMoreEdge(g0, idx, j);
        ghost var printed1 := printed;
        SearchEdge(idx, j);
        OneMoreStart(g0, idx, j, printed0, printed1, printed);
      }
    }

    method SearchEdge(idx: nat, j: nat)
      requires Valid() && IsGraph(g) && idx < |nodes| && j < |next[idx]|
      requires visited[idx] == 1 && path[0] == idx
      modifies visited, path, this`k, this`deadlock, this`printed
      ensures deadlock == if Explore(g, g[idx][j], {idx}).hit then 1 else old(deadlock)
      ensures printed == old(printed) + Reports(g, g[idx][j], [idx], {idx})
      ensures visited[idx] == 1 && path[0] == idx
    {
      Reset(idx);
      k := 1;
      var c := Target(idx, j);
      assert path[..1] == [idx];
      DFS(c, [idx]);
      assert path[..2][0] == path[0] && ([idx] + [c])[0] == idx;
      assert idx in Marked();
    }

    method Reset(idx: nat)
      requires Valid() && idx < |nodes| && visited[idx] == 1 && path[0] == idx
      modifies visited, path
      ensures Marked() == {idx} && path[0] == idx
    {
      for i := 0 to |nodes|
        invariant path[0] == idx && visited[idx] == 1 && forall u :: 0 <= u < i && u != idx ==> visited[u] == 0
      {
        if i != idx {
          visited[i] := 0;
        }
      }
      assert Marked() == {idx};
      for i := 1 to MAX + 1
        invariant path[0] == idx && Marked() == {idx}
      {
        path[i] := -1;
      }
    }

    /**
      The whole check. Deadlock is set exactly when some search runs into something seen. So it is set
      whenever the calls of AddEdge contain a cycle, and only then if no node is the source of two calls.
    */
    method CheckDeadLock()
      requires Valid() && Records(nodes, next, calls)
      modifies visited, path, this`k, this`deadlock, this`printed
      ensures IsGraph(g) && deadlock == (if Flagged(g) then 1 else 0)
      ensures HasCycle(calls) ==> deadlock == 1
      ensures SourcesDistinct(calls) && deadlock == 1 ==> HasCycle(calls)
      ensures (printed != [] <==> deadlock == 1) && forall i :: 0 <= i < |printed| ==> IsAlarm(g, printed[i])
      ensures SourcesDistinct(calls) ==> AllShowCycles(printed)
    {
      SearchAll();
      WhatIsPrinted(g, 0);
      FlaggedByCalls(nodes, next, g, calls);
      SingleEdges(nodes, next, g, calls);
    }

    /** The loop over the vertices. */
    method SearchAll()
      requires Valid()
      modifies visited, path, this`k, this`deadlock, this`printed
      ensures IsGraph(g) && deadlock == (if Flagged(g) then 1 else 0) && printed == FirstReports(g, 0)
    {
      NumberedIsGraph(nodes, next, g);
      ghost var g0, flagged := g, false;
      deadlock, printed := 0, [];
      for i := 0 to |nodes|
        invariant g == g0 && FirstReports(g0, 0) == if flagged then printed else FirstReports(g0, i)
        invariant !flagged ==> printed == []
        invariant flagged == FlaggedBefore(g0, i) && deadlock == if flagged then 1 else 0
      {
        if deadlock == 1 {
          break;
        }
        OneMoreVertex(g0, i);
        flagged := HitsFrom(g0, i);
        ReportedBefore(g0, i, |g0[i]|);
        SearchForCycle(i);
      }
      FlaggedInTheEnd(g0, flagged);
    }
  }
}
