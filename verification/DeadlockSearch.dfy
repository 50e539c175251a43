/**
  What the depth-first search of the deadlock detector finds in a graph. A vertex is a number, its
  outgoing edges are listed in order, and parallel edges are allowed. A route is the list of the
  edge numbers that are taken.
*/
module DeadlockSearch {
  import opened Helpers

  type Graph = seq<seq<nat>>

  ghost predicate IsGraph(g: Graph) {
    forall u, j :: 0 <= u < |g| && 0 <= j < |g[u]| ==> g[u][j] < |g|
  }

  ghost function Vertices(g: Graph): set<nat> {
    NaturalsBelow(|g|)
  }

  ghost predicate Route(g: Graph, v: nat, p: seq<nat>, w: nat)
    requires IsGraph(g) && v < |g|
    decreases |p|
  {
    if p == [] then v == w else p[0] < |g[v]| && Route(g, g[v][p[0]], p[1..], w)
  }

  /** Two different routes from v end in the same vertex. */
  ghost predicate TwoRoutes(g: Graph, v: nat)
    requires IsGraph(g) && v < |g|
  {
    exists p, q, w :: p != q && Route(g, v, p, w) && Route(g, v, q, w)
  }

  ghost predicate OnCycle(g: Graph, v: nat)
    requires IsGraph(g) && v < |g|
  {
    exists p :: p != [] && Route(g, v, p, v)
  }

  // ---------------------------------------------------------------- the search

  datatype Found = Found(seen: set<nat>, hit: bool)

  /** The search from v: what has been seen after it, and whether it ran into something seen. */
  ghost function Explore(g: Graph, v: nat, seen: set<nat>): (r: Found)
    requires IsGraph(g) && v < |g| && seen <= Vertices(g)
    ensures seen <= r.seen <= Vertices(g) && v in r.seen
    decreases |Vertices(g) - seen|, 0
  {
    if v in seen then Found(seen, true)
    else
      Fewer(Vertices(g) - seen, Vertices(g) - (seen + {v}));
      ExploreTo(g, v, |g[v]|, seen + {v})
  }

  /** The same after the first j edges of v. */
  ghost function ExploreTo(g: Graph, v: nat, j: nat, seen: set<nat>): (r: Found)
    requires IsGraph(g) && v < |g| && seen <= Vertices(g) && j <= |g[v]|
    ensures seen <= r.seen <= Vertices(g)
    decreases |Vertices(g) - seen|, j
  {
    if j == 0 then Found(seen, false)
    else
      var before := ExploreTo(g, v, j - 1, seen);
      Fewer(Vertices(g) - seen, Vertices(g) - before.seen);
      var after := Explore(g, g[v][j - 1], before.seen);
      Found(after.seen, before.hit || after.hit)
  }

  lemma {:induction false} Fewer(a: set<nat>, b: set<nat>)
    requires b <= a
    ensures |b| <= |a| && (b != a ==> |b| < |a|)
    decreases |b|
  {
    if b != {} {
      var x :| x in b;
      Fewer(a - {x}, b - {x});
      assert b == a ==> b - {x} == a - {x};
      assert a == a - {x} + {x} && b == b - {x} + {x};
    }
  }

  lemma {:induction false} ExploreToGrows(g: Graph, v: nat, i: nat, j: nat, seen: set<nat>)
    requires IsGraph(g) && v < |g| && seen <= Vertices(g) && i <= j <= |g[v]|
    ensures ExploreTo(g, v, i, seen).seen <= ExploreTo(g, v, j, seen).seen
    ensures ExploreTo(g, v, i, seen).hit ==> ExploreTo(g, v, j, seen).hit
    decreases j
  {
    if i < j {
      ExploreToGrows(g, v, i, j - 1, seen);
    }
  }

  /** A search without a hit leaves the first edge of a route to a search without a hit. */
  lemma ChildWithoutHit(g: Graph, v: nat, j: nat, seen: set<nat>) returns (before: set<nat>)
    requires IsGraph(g) && v < |g| && seen <= Vertices(g) && j < |g[v]|
    requires !Explore(g, v, seen).hit
    ensures v !in seen && seen + {v} <= before <= Vertices(g) && before == ExploreTo(g, v, j, seen + {v}).seen
    ensures !Explore(g, g[v][j], before).hit
    ensures Explore(g, g[v][j], before).seen == ExploreTo(g, v, j + 1, seen + {v}).seen
    ensures Explore(g, g[v][j], before).seen <= Explore(g, v, seen).seen
  {
    before := ExploreTo(g, v, j, seen + {v}).seen;
    ExploreToGrows(g, v, j + 1, |g[v]|, seen + {v});
  }

  /** Without a hit, every route ends in a vertex that this search saw first. */
  lemma {:induction false} RouteStays(g: Graph, v: nat, seen: set<nat>, p: seq<nat>, w: nat)
    requires IsGraph(g) && v < |g| && seen <= Vertices(g) && !Explore(g, v, seen).hit && Route(g, v, p, w)
    ensures w in Explore(g, v, seen).seen && w !in seen
    decreases |p|
  {
    if p != [] {
      var before := ChildWithoutHit(g, v, p[0], seen);
      RouteStays(g, g[v][p[0]], before, p[1..], w);
    }
  }

  /** Without a hit, no two routes end in the same vertex. */
  lemma {:induction false} RouteIsUnique(g: Graph, v: nat, seen: set<nat>, p: seq<nat>, q: seq<nat>, w: nat)
    requires IsGraph(g) && v < |g| && seen <= Vertices(g) && !Explore(g, v, seen).hit
    requires Route(g, v, p, w) && Route(g, v, q, w)
    ensures p == q
    decreases |p| + |q|
  {
    if p == [] && q == [] {
    } else if p == [] {
      var before := ChildWithoutHit(g, v, q[0], seen);
      RouteStays(g, g[v][q[0]], before, q[1..], w);
    } else if q == [] {
      var before := ChildWithoutHit(g, v, p[0], seen);
      RouteStays(g, g[v][p[0]], before, p[1..], w);
    } else {
      SameFirstEdge(g, v, seen, p, q, w);
      var before := ChildWithoutHit(g, v, p[0], seen);
      RouteIsUnique(g, g[v][p[0]], before, p[1..], q[1..], w);
      assert p == [p[0]] + p[1..] && q == [q[0]] + q[1..];
    }
  }

  lemma SeenAfterEdge(g: Graph, v: nat, i: nat, j: nat, seen: set<nat>, p: seq<nat>, w: nat)
    requires IsGraph(g) && v < |g| && seen <= Vertices(g) && !Explore(g, v, seen).hit
    requires i < j < |g[v]| && Route(g, g[v][i], p, w)
    ensures w in ExploreTo(g, v, j, seen + {v}).seen
  {
    var before := ChildWithoutHit(g, v, i, seen);
    RouteStays(g, g[v][i], before, p, w);
    ExploreToGrows(g, v, i + 1, j, seen + {v});
  }

  lemma NotSeenBeforeEdge(g: Graph, v: nat, j: nat, seen: set<nat>, p: seq<nat>, w: nat)
    requires IsGraph(g) && v < |g| && seen <= Vertices(g) && !Explore(g, v, seen).hit
    requires j < |g[v]| && Route(g, g[v][j], p, w)
    ensures w !in ExploreTo(g, v, j, seen + {v}).seen
  {
    var before := ChildWithoutHit(g, v, j, seen);
    RouteStays(g, g[v][j], before, p, w);
  }

  lemma SameFirstEdge(g: Graph, v: nat, seen: set<nat>, p: seq<nat>, q: seq<nat>, w: nat)
    requires IsGraph(g) && v < |g| && seen <= Vertices(g) && !Explore(g, v, seen).hit
    requires p != [] && q != [] && Route(g, v, p, w) && Route(g, v, q, w)
    ensures p[0] == q[0]
  {
    NotSeenBeforeEdge(g, v, p[0], seen, p[1..], w);
    NotSeenBeforeEdge(g, v, q[0], seen, q[1..], w);
    if p[0] < q[0] {
      SeenAfterEdge(g, v, p[0], q[0], seen, p[1..], w);
    } else if q[0] < p[0] {
      SeenAfterEdge(g, v, q[0], p[0], seen, q[1..], w);
    }
  }

  /** What the search sees can be reached. */
  lemma {:induction false} SeenIsReached(g: Graph, v: nat, seen: set<nat>, w: nat) returns (p: seq<nat>)
    requires IsGraph(g) && v < |g| && seen <= Vertices(g)
    requires w in Explore(g, v, seen).seen && w !in seen
    ensures Route(g, v, p, w)
    decreases |Vertices(g) - seen|, 0
  {
    if w == v {
      p := [];
    } else {
      Fewer(Vertices(g) - seen, Vertices(g) - (seen + {v}));
      p := SeenToIsReached(g, v, |g[v]|, seen + {v}, w);
    }
  }

  lemma {:induction false} SeenToIsReached(g: Graph, v: nat, j: nat, seen: set<nat>, w: nat) returns (p: seq<nat>)
    requires IsGraph(g) && v < |g| && seen <= Vertices(g) && j <= |g[v]|
    requires w in ExploreTo(g, v, j, seen).seen && w !in seen
    ensures p != [] && p[0] < j && Route(g, v, p, w)
    decreases |Vertices(g) - seen|, j
  {
    var before := ExploreTo(g, v, j - 1, seen).seen;
    if w in before {
      p := SeenToIsReached(g, v, j - 1, seen, w);
    } else {
      Fewer(Vertices(g) - seen, Vertices(g) - before);
      var rest := SeenIsReached(g, g[v][j - 1], before, w);
      p := [j - 1] + rest;
      assert p[1..] == rest;
    }
  }

  /** A hit: a route into what was seen before, or two routes to the same vertex. */
  ghost predicate Collides(g: Graph, v: nat, seen: set<nat>)
    requires IsGraph(g) && v < |g|
  {
    TwoRoutes(g, v) || exists p, w :: w in seen && Route(g, v, p, w)
  }

  lemma {:induction false} HitCollides(g: Graph, v: nat, seen: set<nat>)
    requires IsGraph(g) && v < |g| && seen <= Vertices(g) && Explore(g, v, seen).hit
    ensures Collides(g, v, seen)
    decreases |Vertices(g) - seen|, 0
  {
    if v in seen {
      assert Route(g, v, [], v);
    } else {
      Fewer(Vertices(g) - seen, Vertices(g) - (seen + {v}));
      HitToCollides(g, v, |g[v]|, seen);
    }
  }

  lemma {:induction false} HitToCollides(g: Graph, v: nat, j: nat, seen: set<nat>)
    requires IsGraph(g) && v < |g| && seen <= Vertices(g) && v !in seen && j <= |g[v]|
    requires ExploreTo(g, v, j, seen + {v}).hit
    ensures Collides(g, v, seen)
    decreases |Vertices(g) - (seen + {v})|, j
  {
    var before := ExploreTo(g, v, j - 1, seen + {v});
    if before.hit {
      HitToCollides(g, v, j - 1, seen);
    } else {
      Fewer(Vertices(g) - (seen + {v}), Vertices(g) - before.seen);
      HitCollides(g, g[v][j - 1], before.seen);
      EdgeCollides(g, v, j - 1, seen);
    }
  }

  lemma EdgeCollides(g: Graph, v: nat, j: nat, seen: set<nat>)
    requires IsGraph(g) && v < |g| && seen <= Vertices(g) && v !in seen && j < |g[v]|
    requires Collides(g, g[v][j], ExploreTo(g, v, j, seen + {v}).seen)
    ensures Collides(g, v, seen)
  {
    var c, before := g[v][j], ExploreTo(g, v, j, seen + {v}).seen;
    if TwoRoutes(g, c) {
      var p, q, w :| p != q && Route(g, c, p, w) && Route(g, c, q, w);
      RouteCons(g, v, j, p, w);
      RouteCons(g, v, j, q, w);
      assert ([j] + p)[1..] == p && ([j] + q)[1..] == q;
    } else {
      var p, w :| w in before && Route(g, c, p, w);
      RouteCons(g, v, j, p, w);
      if w == v {
        assert Route(g, v, [], w);
      } else if w !in seen {
        var q := SeenToIsReached(g, v, j, seen + {v}, w);
        assert q != [j] + p;
      }
    }
  }

  lemma RouteCons(g: Graph, v: nat, j: nat, p: seq<nat>, w: nat)
    requires IsGraph(g) && v < |g| && j < |g[v]| && Route(g, g[v][j], p, w)
    ensures Route(g, v, [j] + p, w)
  {
    assert ([j] + p)[1..] == p;
  }

  lemma FewerLeft(g: Graph, seen: set<nat>, more: set<nat>, v: nat)
    requires v < |g| && v !in seen && seen + {v} <= more
    ensures |Vertices(g) - more| < |Vertices(g) - seen|
  {
    Fewer(Vertices(g) - seen, Vertices(g) - more);
  }

  // ---------------------------------------------------------------- all searches

  /** The search along some edge of v, with v itself marked as seen, runs into something seen. */
  ghost predicate HitsFrom(g: Graph, v: nat)
    requires IsGraph(g) && v < |g|
  {
    exists j :: 0 <= j < |g[v]| && Explore(g, g[v][j], {v}).hit
  }

  ghost predicate Flagged(g: Graph)
    requires IsGraph(g)
  {
    exists v :: 0 <= v < |g| && HitsFrom(g, v)
  }

  ghost predicate Entered(g: Graph, w: nat)
    requires IsGraph(g)
  {
    exists u, j :: 0 <= u < |g| && 0 <= j < |g[u]| && g[u][j] == w
  }

  lemma {:induction false} RouteConcat(g: Graph, v: nat, p: seq<nat>, u: nat, q: seq<nat>, w: nat)
    requires IsGraph(g) && v < |g| && u < |g| && Route(g, v, p, u) && Route(g, u, q, w)
    ensures Route(g, v, p + q, w)
    decreases |p|
  {
    if p == [] {
      assert p + q == q;
    } else {
      assert (p + q)[1..] == p[1..] + q;
      RouteConcat(g, g[v][p[0]], p[1..], u, q, w);
    }
  }

  lemma {:induction false} RouteSplit(g: Graph, v: nat, p: seq<nat>, q: seq<nat>, w: nat) returns (u: nat)
    requires IsGraph(g) && v < |g| && Route(g, v, p + q, w)
    ensures u < |g| && Route(g, v, p, u) && Route(g, u, q, w)
    decreases |p|
  {
    if p == [] {
      assert p + q == q;
      u := v;
    } else {
      assert (p + q)[1..] == p[1..] + q;
      u := RouteSplit(g, g[v][p[0]], p[1..], q, w);
    }
  }

  lemma EdgeIsRoute(g: Graph, u: nat, j: nat)
    requires IsGraph(g) && u < |g| && j < |g[u]|
    ensures Route(g, u, [j], g[u][j])
  {
    assert [j][1..] == [];
  }

  /** The searches hit something exactly when two different routes lead from an entered vertex to the same vertex. */
  lemma FlaggedIffTwoRoutes(g: Graph)
    requires IsGraph(g)
    ensures Flagged(g) <==> exists w :: 0 <= w < |g| && Entered(g, w) && TwoRoutes(g, w)
  {
    if Flagged(g) {
      var v :| 0 <= v < |g| && HitsFrom(g, v);
      var j :| 0 <= j < |g[v]| && Explore(g, g[v][j], {v}).hit;
      HitMeansTwoRoutes(g, v, j);
      assert Entered(g, g[v][j]);
    }
    if w :| 0 <= w < |g| && Entered(g, w) && TwoRoutes(g, w) {
      var v, j :| 0 <= v < |g| && 0 <= j < |g[v]| && g[v][j] == w;
      var p, q, x :| p != q && Route(g, w, p, x) && Route(g, w, q, x);
      if !Explore(g, w, {v}).hit {
        RouteIsUnique(g, w, {v}, p, q, x);
      }
      assert HitsFrom(g, v);
    }
  }

  lemma HitMeansTwoRoutes(g: Graph, v: nat, j: nat)
    requires IsGraph(g) && v < |g| && j < |g[v]| && Explore(g, g[v][j], {v}).hit
    ensures TwoRoutes(g, g[v][j])
  {
    var c := g[v][j];
    HitCollides(g, c, {v});
    if p, w :| w in {v} && Route(g, c, p, w) {
      EdgeIsRoute(g, v, j);
      RouteConcat(g, c, p, v, [j], c);
      assert Route(g, c, [], c) && p + [j] != [];
    }
  }

  /** Every cycle is found. */
  lemma CycleIsFlagged(g: Graph, v: nat)
    requires IsGraph(g) && v < |g| && OnCycle(g, v)
    ensures Flagged(g)
  {
    var p :| p != [] && Route(g, v, p, v);
    var front, j := p[..|p| - 1], p[|p| - 1];
    assert p == front + [j];
    var u := RouteSplit(g, v, front, [j], v);
    assert [j][1..] == [];
    assert g[u][j] == v;
    assert Entered(g, v);
    assert Route(g, v, [], v);
    FlaggedIffTwoRoutes(g);
  }

  lemma {:induction false} OneRouteEach(g: Graph, v: nat, p: seq<nat>, w: nat, q: seq<nat>, x: nat)
    requires IsGraph(g) && v < |g| && (forall u :: 0 <= u < |g| ==> |g[u]| <= 1)
    requires Route(g, v, p, w) && Route(g, v, q, x) && |p| <= |q|
    ensures p == q[..|p|]
    decreases |p|
  {
    if p != [] {
      OneRouteEach(g, g[v][p[0]], p[1..], w, q[1..], x);
      assert p[0] == q[0];
      assert q[..|p|] == [q[0]] + q[1..][..|p| - 1];
    }
  }

  lemma {:induction false} SameEnd(g: Graph, v: nat, p: seq<nat>, w: nat, x: nat)
    requires IsGraph(g) && v < |g| && Route(g, v, p, w) && Route(g, v, p, x)
    ensures w == x
    decreases |p|
  {
    if p != [] {
      SameEnd(g, g[v][p[0]], p[1..], w, x);
    }
  }

  lemma TwoRoutesMakeACycle(g: Graph, v: nat, p: seq<nat>, q: seq<nat>, w: nat)
    requires IsGraph(g) && v < |g| && (forall u :: 0 <= u < |g| ==> |g[u]| <= 1)
    requires Route(g, v, p, w) && Route(g, v, q, w) && p != q && |p| <= |q|
    ensures w < |g| && OnCycle(g, w)
  {
    OneRouteEach(g, v, p, w, q, w);
    var rest := q[|p|..];
    assert q == p + rest;
    var u := RouteSplit(g, v, p, rest, w);
    SameEnd(g, v, p, u, w);
  }

  /** With at most one outgoing edge each, a hit means a cycle. */
  lemma FlaggedIffCycle(g: Graph)
    requires IsGraph(g) && forall u :: 0 <= u < |g| ==> |g[u]| <= 1
    ensures Flagged(g) <==> exists v :: 0 <= v < |g| && OnCycle(g, v)
  {
    FlaggedIffTwoRoutes(g);
    if Flagged(g) {
      var v :| 0 <= v < |g| && Entered(g, v) && TwoRoutes(g, v);
      var p, q, w :| p != q && Route(g, v, p, w) && Route(g, v, q, w);
      if |p| <= |q| {
        TwoRoutesMakeACycle(g, v, p, q, w);
      } else {
        TwoRoutesMakeACycle(g, v, q, p, w);
      }
    }
    if v :| 0 <= v < |g| && OnCycle(g, v) {
      CycleIsFlagged(g, v);
    }
  }

  /** Two ways around without a cycle are reported as well. */
  lemma DiamondIsFlagged()
    ensures IsGraph([[1], [2, 3], [4], [4], []]) && Flagged([[1], [2, 3], [4], [4], []])
    ensures forall v :: 0 <= v < 5 ==> !OnCycle([[1], [2, 3], [4], [4], []], v)
  {
    var g: Graph := [[1], [2, 3], [4], [4], []];
    EdgeIsRoute(g, 2, 0);
    EdgeIsRoute(g, 3, 0);
    RouteCons(g, 1, 0, [0], 4);
    RouteCons(g, 1, 1, [0], 4);
    assert [0] + [0] != [1] + [0] by {
      assert ([0] + [0])[0] != ([1] + [0])[0];
    }
    assert g[0][0] == 1;
    assert Entered(g, 1);
    FlaggedIffTwoRoutes(g);
    forall v | 0 <= v < 5 ensures !OnCycle(g, v) {
      if p :| p != [] && Route(g, v, p, v) {
        DiamondAscends(p, v, v);
      }
    }
  }

  lemma {:induction false} DiamondAscends(p: seq<nat>, v: nat, w: nat)
    requires v < 5 && IsGraph([[1], [2, 3], [4], [4], []]) && Route([[1], [2, 3], [4], [4], []], v, p, w)
    ensures v <= w && (p != [] ==> v < w)
    decreases |p|
  {
    if p != [] {
      var g: Graph := [[1], [2, 3], [4], [4], []];
      DiamondAscends(p[1..], g[v][p[0]], w);
    }
  }
}
