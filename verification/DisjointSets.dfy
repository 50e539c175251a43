/**
  The disjoint sets: a forest in an array of parents, and the check for a circle in an undirected
  list of edges. The ghost forest gives the root of every vertex and its distance from it.
*/
module DisjointSets {
  import opened Helpers

  type Edge = (nat, nat)

  datatype Forest = Forest(root: seq<nat>, depth: seq<nat>)

  ghost predicate WellFormed(f: Forest, n: nat) {
    && |f.root| == |f.depth| == n
    && forall v :: 0 <= v < n ==> f.root[v] < n && f.root[f.root[v]] == f.root[v]
  }

  /** Following the parents leads to the root, in as many steps as the depth says. */
  ghost predicate Represents(parent: seq<int>, f: Forest) {
    && WellFormed(f, |parent|)
    && forall v :: 0 <= v < |parent| ==> Attached(parent, f, v)
  }

  ghost predicate Attached(parent: seq<int>, f: Forest, v: nat)
    requires |f.root| == |f.depth| == |parent| && v < |parent|
  {
    if parent[v] == -1 then f.root[v] == v && f.depth[v] == 0
    else
      && 0 <= parent[v] < |parent| && f.root[v] == f.root[parent[v]] && f.root[v] != v
      && f.depth[v] == f.depth[parent[v]] + 1
  }

  ghost function Singletons(n: nat): Forest {
    Forest(seq(n, v requires 0 <= v < n => v), seq(n, v => 0))
  }

  /** The tree of root b hangs below root a. */
  ghost function Hung(f: Forest, a: nat, b: nat): Forest
    requires |f.root| == |f.depth|
  {
    Forest(seq(|f.root|, v requires 0 <= v < |f.root| => if f.root[v] == b then a else f.root[v]),
           seq(|f.root|, v requires 0 <= v < |f.root| => if f.root[v] == b then f.depth[v] + 1 else f.depth[v]))
  }

  ghost predicate InRange(es: seq<Edge>, n: nat) {
    forall i :: 0 <= i < |es| ==> es[i].0 < n && es[i].1 < n
  }

  /** The union of the trees of both ends of an edge. */
  ghost function Merged(f: Forest, e: Edge): Forest
    requires e.0 < |f.root| == |f.depth| && e.1 < |f.root|
  {
    if f.root[e.0] == f.root[e.1] then f else Hung(f, f.root[e.0], f.root[e.1])
  }

  lemma MergedIsWellFormed(f: Forest, e: Edge, n: nat)
    requires WellFormed(f, n) && e.0 < n && e.1 < n
    ensures WellFormed(Merged(f, e), n)
  {
  }

  ghost function AllMerged(n: nat, es: seq<Edge>): (f: Forest)
    requires InRange(es, n)
    ensures WellFormed(f, n)
    decreases |es|
  {
    if es == [] then Singletons(n)
    else
      var f := AllMerged(n, es[..|es| - 1]);
      MergedIsWellFormed(f, es[|es| - 1], n);
      Merged(f, es[|es| - 1])
  }

  lemma SingletonsRepresented(parent: seq<int>)
    requires forall v :: 0 <= v < |parent| ==> parent[v] == -1
    ensures Represents(parent, Singletons(|parent|))
  {
    forall v | 0 <= v < |parent| ensures Attached(parent, Singletons(|parent|), v) {
    }
  }

  lemma HungRepresents(parent: seq<int>, f: Forest, a: nat, b: nat)
    requires Represents(parent, f) && a < |parent| && b < |parent| && a != b && f.root[a] == a && f.root[b] == b
    ensures Represents(parent[b := a], Hung(f, a, b))
  {
    var parent', f' := parent[b := a], Hung(f, a, b);
    forall v | 0 <= v < |parent| ensures Attached(parent', f', v) {
      assert Attached(parent, f, v);
      assert Attached(parent, f, a);
    }
  }

  // ---------------------------------------------------------------- walks

  /** One edge of the list, in one of its directions. */
  datatype Step = Step(edge: nat, forward: bool)

  ghost function From(es: seq<Edge>, s: Step): nat
    requires s.edge < |es|
  {
    if s.forward then es[s.edge].0 else es[s.edge].1
  }

  ghost function To(es: seq<Edge>, s: Step): nat
    requires s.edge < |es|
  {
    if s.forward then es[s.edge].1 else es[s.edge].0
  }

  ghost predicate Walk(es: seq<Edge>, u: nat, p: seq<Step>, v: nat)
    decreases |p|
  {
    if p == [] then u == v
    else p[0].edge < |es| && From(es, p[0]) == u && Walk(es, To(es, p[0]), p[1..], v)
  }

  ghost predicate Connected(es: seq<Edge>, u: nat, v: nat) {
    exists p :: Walk(es, u, p, v)
  }

  ghost predicate EdgesDistinct(p: seq<Step>) {
    forall i, j :: 0 <= i < j < |p| ==> p[i].edge != p[j].edge
  }

  /** A closed walk that uses no edge twice. A loop is one, and so are two parallel edges. */
  ghost predicate HasCircle(es: seq<Edge>) {
    exists u, p :: p != [] && Walk(es, u, p, u) && EdgesDistinct(p)
  }

  lemma {:induction false} WalkConcat(es: seq<Edge>, u: nat, p: seq<Step>, v: nat, q: seq<Step>, w: nat)
    requires Walk(es, u, p, v) && Walk(es, v, q, w)
    ensures Walk(es, u, p + q, w)
    decreases |p|
  {
    if p == [] {
      assert p + q == q;
    } else {
      assert (p + q)[1..] == p[1..] + q;
      WalkConcat(es, To(es, p[0]), p[1..], v, q, w);
    }
  }

  lemma {:induction false} WalkSplit(es: seq<Edge>, u: nat, p: seq<Step>, q: seq<Step>, w: nat) returns (v: nat)
    requires Walk(es, u, p + q, w)
    ensures Walk(es, u, p, v) && Walk(es, v, q, w)
    decreases |p|
  {
    if p == [] {
      assert p + q == q;
      v := u;
    } else {
      assert (p + q)[1..] == p[1..] + q;
      v := WalkSplit(es, To(es, p[0]), p[1..], q, w);
    }
  }

  lemma StepIsWalk(es: seq<Edge>, s: Step)
    requires s.edge < |es|
    ensures Walk(es, From(es, s), [s], To(es, s))
  {
    assert [s][1..] == [];
  }

  lemma {:induction false} WalkReversed(es: seq<Edge>, u: nat, p: seq<Step>, v: nat) returns (q: seq<Step>)
    requires Walk(es, u, p, v)
    ensures Walk(es, v, q, u)
    decreases |p|
  {
    if p == [] {
      q := [];
    } else {
      var s := p[0];
      var rest := WalkReversed(es, To(es, s), p[1..], v);
      var back := s.(forward := !s.forward);
      StepIsWalk(es, back);
      WalkConcat(es, v, rest, To(es, s), [back], u);
      q := rest + [back];
    }
  }

  lemma {:induction false} WalkStays(es: seq<Edge>, es': seq<Edge>, u: nat, p: seq<Step>, v: nat)
    requires Walk(es, u, p, v) && (forall s :: s in p ==> s.edge < |es'|)
    requires forall i :: 0 <= i < |es| && i < |es'| ==> es[i] == es'[i]
    ensures Walk(es', u, p, v)
    decreases |p|
  {
    if p != [] {
      assert p[0] in p;
      assert forall s :: s in p[1..] ==> s in p;
      WalkStays(es, es', To(es, p[0]), p[1..], v);
    }
  }

  lemma {:induction false} WalkInRange(es: seq<Edge>, u: nat, p: seq<Step>, v: nat)
    requires Walk(es, u, p, v)
    ensures forall s :: s in p ==> s.edge < |es|
    decreases |p|
  {
    if p != [] {
      WalkInRange(es, To(es, p[0]), p[1..], v);
      assert p == [p[0]] + p[1..];
    }
  }

  lemma ConnectedThrough(es: seq<Edge>, u: nat, v: nat, w: nat)
    requires Connected(es, u, v) && Connected(es, v, w)
    ensures Connected(es, u, w)
  {
    var p, q :| Walk(es, u, p, v) && Walk(es, v, q, w);
    WalkConcat(es, u, p, v, q, w);
  }

  lemma ConnectedBack(es: seq<Edge>, u: nat, v: nat)
    requires Connected(es, u, v)
    ensures Connected(es, v, u)
  {
    var p :| Walk(es, u, p, v);
    var q := WalkReversed(es, u, p, v);
  }

  lemma ConnectedStill(es: seq<Edge>, e: Edge, u: nat, v: nat)
    requires Connected(es, u, v)
    ensures Connected(es + [e], u, v)
  {
    var p :| Walk(es, u, p, v);
    WalkInRange(es, u, p, v);
    WalkStays(es, es + [e], u, p, v);
  }

  // ---------------------------------------------------------------- roots and connections

  /** Every vertex is connected to its root. */
  lemma {:induction false} RootIsConnected(n: nat, es: seq<Edge>, v: nat)
    requires InRange(es, n) && v < n
    ensures Connected(es, v, AllMerged(n, es).root[v])
    decreases |es|
  {
    if es == [] {
      assert Walk(es, v, [], v);
    } else {
      var front, e := es[..|es| - 1], es[|es| - 1];
      var f := AllMerged(n, front);
      assert es == front + [e];
      RootIsConnected(n, front, v);
      ConnectedStill(front, e, v, f.root[v]);
      if f.root[e.0] != f.root[e.1] && f.root[v] == f.root[e.1] {
        RootIsConnected(n, front, e.0);
        RootIsConnected(n, front, e.1);
        ConnectedStill(front, e, e.0, f.root[e.0]);
        ConnectedStill(front, e, e.1, f.root[e.1]);
        ConnectedBack(es, e.1, f.root[e.1]);
        ConnectedThrough(es, v, f.root[v], e.1);
        StepIsWalk(es, Step(|es| - 1, false));
        ConnectedThrough(es, v, e.1, e.0);
        ConnectedThrough(es, v, e.0, f.root[e.0]);
      }
    }
  }

  lemma {:induction false} EdgeSharesRoot(n: nat, es: seq<Edge>, i: nat)
    requires InRange(es, n) && i < |es|
    ensures AllMerged(n, es).root[es[i].0] == AllMerged(n, es).root[es[i].1]
    decreases |es|
  {
    if i < |es| - 1 {
      EdgeSharesRoot(n, es[..|es| - 1], i);
    }
  }

  lemma {:induction false} WalkSharesRoot(n: nat, es: seq<Edge>, u: nat, p: seq<Step>, v: nat)
    requires InRange(es, n) && u < n && Walk(es, u, p, v)
    ensures v < n && AllMerged(n, es).root[u] == AllMerged(n, es).root[v]
    decreases |p|
  {
    if p != [] {
      EdgeSharesRoot(n, es, p[0].edge);
      WalkSharesRoot(n, es, To(es, p[0]), p[1..], v);
    }
  }

  /** Two vertices share a root exactly when the edges connect them. */
  lemma SameRootIffConnected(n: nat, es: seq<Edge>, u: nat, v: nat)
    requires InRange(es, n) && u < n && v < n
    ensures AllMerged(n, es).root[u] == AllMerged(n, es).root[v] <==> Connected(es, u, v)
  {
    var f := AllMerged(n, es);
    if f.root[u] == f.root[v] {
      RootIsConnected(n, es, u);
      RootIsConnected(n, es, v);
      ConnectedBack(es, v, f.root[v]);
      ConnectedThrough(es, u, f.root[u], v);
    }
    if Connected(es, u, v) {
      var p :| Walk(es, u, p, v);
      WalkSharesRoot(n, es, u, p, v);
    }
  }

  // ---------------------------------------------------------------- counting the roots

  ghost function Roots(f: Forest): set<nat> {
    set v | v in f.root && v < |f.root| && f.root[v] == v
  }

  /** The unions that joined two trees. */
  ghost function Unions(n: nat, es: seq<Edge>): nat
    requires InRange(es, n)
    decreases |es|
  {
    if es == [] then 0
    else
      var front, e := es[..|es| - 1], es[|es| - 1];
      var f := AllMerged(n, front);
      Unions(n, front) + if f.root[e.0] == f.root[e.1] then 0 else 1
  }

  /** Every union that succeeds removes one root. */
  lemma {:induction false} RootsAndUnions(n: nat, es: seq<Edge>)
    requires InRange(es, n)
    ensures |Roots(AllMerged(n, es))| + Unions(n, es) == n
    decreases |es|
  {
    if es == [] {
      var f := Singletons(n);
      forall v: nat ensures v in Roots(f) <==> v in NaturalsBelow(n) {
        if v < n {
          assert f.root[v] == v;
        }
      }
      assert Roots(f) == NaturalsBelow(n);
    } else {
      var front, e := es[..|es| - 1], es[|es| - 1];
      var f := AllMerged(n, front);
      RootsAndUnions(n, front);
      if f.root[e.0] != f.root[e.1] {
        HungLosesRoot(f, n, f.root[e.0], f.root[e.1]);
      }
    }
  }

  lemma HungLosesRoot(f: Forest, n: nat, a: nat, b: nat)
    requires WellFormed(f, n) && a < n && b < n && a != b && f.root[a] == a && f.root[b] == b
    ensures Roots(Hung(f, a, b)) == Roots(f) - {b} && b in Roots(f)
  {
    var f' := Hung(f, a, b);
    forall v: nat ensures v in Roots(f') <==> v in Roots(f) - {b} {
      if v < n && f.root[v] == v && v != b {
        assert f'.root[v] == v;
      }
    }
  }

  // ---------------------------------------------------------------- circles

  lemma WalkCut(es: seq<Edge>, u: nat, p: seq<Step>, v: nat, i: nat, j: nat) returns (q: seq<Step>)
    requires Walk(es, u, p, v) && i < j < |p| && p[i].edge == p[j].edge
    ensures Walk(es, u, q, v) && |q| < |p| && forall s :: s in q ==> s in p
  {
    var a, b, c := p[..i], p[i..j], p[j..];
    assert p == a + (b + c);
    var x := WalkSplit(es, u, a, b + c, v);
    var y := WalkSplit(es, x, b, c, v);
    assert b[0] == p[i] && c[0] == p[j];
    if x == y {
      q := a + c;
      WalkConcat(es, u, a, x, c, v);
    } else {
      q := a + c[1..];
      WalkConcat(es, u, a, x, c[1..], v);
    }
  }

  /** A connection needs no edge twice. */
  lemma {:induction false} WalkWithDistinctEdges(es: seq<Edge>, u: nat, p: seq<Step>, v: nat) returns (q: seq<Step>)
    requires Walk(es, u, p, v)
    ensures Walk(es, u, q, v) && EdgesDistinct(q) && forall s :: s in q ==> s in p
    decreases |p|
  {
    if EdgesDistinct(p) {
      q := p;
    } else {
      var i, j :| 0 <= i < j < |p| && p[i].edge == p[j].edge;
      var shorter := WalkCut(es, u, p, v, i, j);
      q := WalkWithDistinctEdges(es, u, shorter, v);
    }
  }

  /** The first k edges already connect the ends of edge k. */
  ghost predicate Closes(n: nat, es: seq<Edge>, k: nat)
    requires InRange(es, n) && k < |es|
  {
    AllMerged(n, es[..k]).root[es[k].0] == AllMerged(n, es[..k]).root[es[k].1]
  }

  lemma ClosingMakesACircle(n: nat, es: seq<Edge>, k: nat)
    requires InRange(es, n) && k < |es| && Closes(n, es, k)
    ensures HasCircle(es)
  {
    var front, e, s := es[..k], es[k], Step(k, false);
    SameRootIffConnected(n, front, e.0, e.1);
    var p :| Walk(front, e.0, p, e.1);
    var q := WalkWithDistinctEdges(front, e.0, p, e.1);
    WalkInRange(front, e.0, q, e.1);
    WalkStays(front, es, e.0, q, e.1);
    StepIsWalk(es, s);
    WalkConcat(es, e.0, q, e.1, [s], e.0);
    assert q + [s] != [];
  }

  /** The last edge of a closed walk, and where the walk uses it. */
  lemma {:induction false} LatestEdge(p: seq<Step>) returns (i: nat)
    requires p != []
    ensures i < |p| && forall j :: 0 <= j < |p| ==> p[j].edge <= p[i].edge
    decreases |p|
  {
    var n := |p| - 1;
    i := n;
    if n > 0 {
      var i' := LatestEdge(p[..n]);
      if p[i'].edge > p[n].edge {
        i := i';
      }
      forall j | 0 <= j < |p| ensures p[j].edge <= p[i].edge {
        assert j < n ==> p[..n][j] == p[j];
      }
    }
  }

  lemma RestOfCircle(es: seq<Edge>, u: nat, p: seq<Step>, i: nat)
    requires Walk(es, u, p, u) && i < |p|
    ensures p[i].edge < |es| && Walk(es, To(es, p[i]), p[i + 1..] + p[..i], From(es, p[i]))
  {
    var a, c := p[..i], p[i + 1..];
    assert p == a + ([p[i]] + c);
    var x := WalkSplit(es, u, a, [p[i]] + c, u);
    assert ([p[i]] + c)[1..] == c;
    WalkConcat(es, To(es, p[i]), c, u, a, x);
  }

  lemma CircleIsClosed(n: nat, es: seq<Edge>, u: nat, p: seq<Step>) returns (k: nat)
    requires InRange(es, n) && p != [] && Walk(es, u, p, u) && EdgesDistinct(p)
    ensures k < |es| && Closes(n, es, k)
  {
    var i := LatestEdge(p);
    k := p[i].edge;
    RestOfCircle(es, u, p, i);
    var rest, v, w := p[i + 1..] + p[..i], To(es, p[i]), From(es, p[i]);
    forall s: Step | s in rest ensures s.edge < k {
      OthersAreEarlier(p, i, s);
    }
    WalkStays(es, es[..k], v, rest, w);
    SameRootIffConnected(n, es[..k], v, w);
  }

  lemma OthersAreEarlier(p: seq<Step>, i: nat, s: Step)
    requires EdgesDistinct(p) && i < |p| && (forall j :: 0 <= j < |p| ==> p[j].edge <= p[i].edge)
    requires s in p[i + 1..] + p[..i]
    ensures s.edge < p[i].edge
  {
    var m :| 0 <= m < |p| - 1 && (p[i + 1..] + p[..i])[m] == s;
    var j := if m < |p| - 1 - i then i + 1 + m else m - (|p| - 1 - i);
    assert p[j] == s;
  }

  /** Some union fails exactly when the edges contain a circle. */
  lemma ClosesIffCircle(n: nat, es: seq<Edge>)
    requires InRange(es, n)
    ensures (exists k :: 0 <= k < |es| && Closes(n, es, k)) <==> HasCircle(es)
  {
    if k :| 0 <= k < |es| && Closes(n, es, k) {
      ClosingMakesACircle(n, es, k);
    }
    if HasCircle(es) {
      var u, p :| p != [] && Walk(es, u, p, u) && EdgesDistinct(p);
      var k := CircleIsClosed(n, es, u, p);
    }
  }

  // ---------------------------------------------------------------- the arrays

  ghost function RankAfter(rank: seq<int>, x: nat, y: nat): seq<int>
    requires x < |rank| && y < |rank|
  {
    if rank[x] > rank[y] then rank else rank[x := rank[x] + 1]
  }

  class DisjointSets {
    constructor () {
    }

    method FindRoot(x: nat, parent: array<int>, ghost f: Forest) returns (xRoot: nat)
      requires Represents(parent[..], f) && x < parent.Length
      ensures xRoot == f.root[x] && parent[xRoot] == -1
    {
      xRoot := x;
      assert Attached(parent[..], f, xRoot);
      while parent[xRoot] != -1
        invariant xRoot < parent.Length && f.root[xRoot] == f.root[x] && Attached(parent[..], f, xRoot)
        decreases f.depth[xRoot]
      {
        xRoot := parent[xRoot];
        assert Attached(parent[..], f, xRoot);
      }
    }

    /**
      1 if two trees were joined, 0 if both vertices are in the same one. The root of y always hangs
      below the root of x, whose rank grows unless it was the greater one.
    */
    method UnionVertices(x: nat, y: nat, parent: array<int>, rank: array<int>, ghost f: Forest)
      returns (r: int, ghost f': Forest)
      requires Represents(parent[..], f) && x < parent.Length && y < parent.Length
      requires rank.Length == parent.Length && rank != parent
      modifies parent, rank
      ensures f' == Merged(f, (x, y)) && Represents(parent[..], f')
      ensures r == if f.root[x] == f.root[y] then 0 else 1
      ensures r == 0 ==> parent[..] == old(parent[..]) && rank[..] == old(rank[..])
      ensures r == 1 ==> parent[..] == old(parent[..])[f.root[y] := f.root[x]]
      ensures r == 1 ==> rank[..] == RankAfter(old(rank[..]), f.root[x], f.root[y])
    {
      var xRoot := FindRoot(x, parent, f);
      var yRoot := FindRoot(y, parent, f);
      f' := Merged(f, (x, y));
      if xRoot == yRoot {
        return 0, f';
      }
      HungRepresents(parent[..], f, xRoot, yRoot);
      if rank[xRoot] > rank[yRoot] {
        parent[yRoot] := xRoot;
      } else if rank[xRoot] > rank[yRoot] {
        // The test is the one above.
        assert false;
      } else {
        rank[xRoot] := rank[xRoot] + 1;
        parent[yRoot] := xRoot;
      }
      assert parent[..] == old(parent[..])[yRoot := xRoot];
      assert rank[..] == RankAfter(old(rank[..]), xRoot, yRoot);
      r := 1;
    }

    /** The loop that looks for a circle. */
    method DetectCircle(n: nat, edges: seq<Edge>) returns (circle: bool)
      requires InRange(edges, n)
      ensures circle <==> HasCircle(edges)
    {
      var rank := new int[n](i => 0);
      var parent := new int[n](i => -1);
      ghost var f := Singletons(n);
      SingletonsRepresented(parent[..]);
      ClosesIffCircle(n, edges);
      assert edges[..0] == [];
      for k := 0 to |edges|
        invariant Represents(parent[..], f) && f == AllMerged(n, edges[..k])
        invariant forall i :: 0 <= i < k ==> !Closes(n, edges, i)
      {
        var closes;
        closes, f := Take(n, edges, k, parent, rank, f);
        if closes {
          return true;
        }
      }
      return false;
    }

    /** The body of this loop. */
    method Take(n: nat, edges: seq<Edge>, k: nat, parent: array<int>, rank: array<int>, ghost f: Forest)
      returns (closes: bool, ghost f': Forest)
      requires InRange(edges, n) && k < |edges| && f == AllMerged(n, edges[..k])
      requires Represents(parent[..], f) && parent.Length == n == rank.Length && rank != parent
      modifies parent, rank
      ensures closes <==> Closes(n, edges, k)
      ensures f' == AllMerged(n, edges[..k + 1]) && Represents(parent[..], f')
    {
      assert edges[..k + 1][..k] == edges[..k];
      var r;
      r, f' := UnionVertices(edges[k].0, edges[k].1, parent, rank, f);
      closes := r == 0;
    }
  }
}
