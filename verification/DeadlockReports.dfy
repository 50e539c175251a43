/**
  What the detector prints: the path to every vertex that a search runs into, in the order of the
  searches, up to the first vertex with such a search.
*/
module DeadlockReports {
  import opened Helpers
  import opened DeadlockSearch

  /** Every entry is followed by the target of one of its edges. */
  ghost predicate IsChain(g: Graph, s: seq<int>) {
    && (forall i :: 0 <= i < |s| ==> 0 <= s[i] < |g|)
    && (forall i :: 0 < i < |s| ==> s[i] in g[s[i - 1]])
  }

  /** The reports of the search from v, which the route leads to. */
  ghost function Reports(g: Graph, v: nat, route: seq<int>, seen: set<nat>): seq<seq<int>>
    requires IsGraph(g) && v < |g| && seen <= Vertices(g)
    decreases |Vertices(g) - seen|, 0
  {
    if v in seen then [route + [v]]
    else
      Fewer(Vertices(g) - seen, Vertices(g) - (seen + {v}));
      ReportsTo(g, v, |g[v]|, route + [v], seen + {v})
  }

  /** The same after the first j edges of v. */
  ghost function ReportsTo(g: Graph, v: nat, j: nat, route: seq<int>, seen: set<nat>): seq<seq<int>>
    requires IsGraph(g) && v < |g| && seen <= Vertices(g) && j <= |g[v]|
    decreases |Vertices(g) - seen|, j
  {
    if j == 0 then []
    else
      var before := ExploreTo(g, v, j - 1, seen).seen;
      Fewer(Vertices(g) - seen, Vertices(g) - before);
      ReportsTo(g, v, j - 1, route, seen) + Reports(g, g[v][j - 1], route, before)
  }

  /** The reports of the searches along the first n edges of v, with only v seen. */
  ghost function ReportsBefore(g: Graph, v: nat, n: nat): seq<seq<int>>
    requires IsGraph(g) && v < |g| && n <= |g[v]|
  {
    if n == 0 then [] else ReportsBefore(g, v, n - 1) + Reports(g, g[v][n - 1], [v], {v})
  }

  /** The reports of the first vertex, from u on, that has some. */
  ghost function FirstReports(g: Graph, u: nat): seq<seq<int>>
    requires IsGraph(g) && u <= |g|
    decreases |g| - u
  {
    if u == |g| then []
    else if ReportsBefore(g, u, |g[u]|) != [] then ReportsBefore(g, u, |g[u]|)
    else FirstReports(g, u + 1)
  }

  lemma Regroup(a: seq<seq<int>>, b: seq<seq<int>>, c: seq<seq<int>>)
    ensures a + b + c == a + (b + c)
  {
  }

  lemma OneMoreStart(g: Graph, v: nat, n: nat, before: seq<seq<int>>, printed: seq<seq<int>>, printed': seq<seq<int>>)
    requires IsGraph(g) && v < |g| && n < |g[v]|
    requires printed == before + ReportsBefore(g, v, n) && printed' == printed + Reports(g, g[v][n], [v], {v})
    ensures printed' == before + ReportsBefore(g, v, n + 1)
  {
  }

  // ---------------------------------------------------------------- one report for each hit

  lemma {:induction false} ReportedIffHit(g: Graph, v: nat, route: seq<int>, seen: set<nat>)
    requires IsGraph(g) && v < |g| && seen <= Vertices(g)
    ensures Reports(g, v, route, seen) != [] <==> Explore(g, v, seen).hit
    decreases |Vertices(g) - seen|, 0
  {
    if v !in seen {
      Fewer(Vertices(g) - seen, Vertices(g) - (seen + {v}));
      ReportedToIffHit(g, v, |g[v]|, route + [v], seen + {v});
    }
  }

  lemma {:induction false} ReportedToIffHit(g: Graph, v: nat, j: nat, route: seq<int>, seen: set<nat>)
    requires IsGraph(g) && v < |g| && seen <= Vertices(g) && j <= |g[v]|
    ensures ReportsTo(g, v, j, route, seen) != [] <==> ExploreTo(g, v, j, seen).hit
    decreases |Vertices(g) - seen|, j
  {
    if j > 0 {
      var before := ExploreTo(g, v, j - 1, seen).seen;
      Fewer(Vertices(g) - seen, Vertices(g) - before);
      ReportedToIffHit(g, v, j - 1, route, seen);
      ReportedIffHit(g, g[v][j - 1], route, before);
    }
  }

  /** Some search along the first n edges runs into something seen. */
  ghost predicate HitsBefore(g: Graph, v: nat, n: nat)
    requires IsGraph(g) && v < |g| && n <= |g[v]|
  {
    exists j :: 0 <= j < n && Explore(g, g[v][j], {v}).hit
  }

  lemma OneMoreEdge(g: Graph, v: nat, n: nat)
    requires IsGraph(g) && v < |g| && n < |g[v]|
    ensures HitsBefore(g, v, n + 1) <==> HitsBefore(g, v, n) || Explore(g, g[v][n], {v}).hit
  {
  }

  lemma {:induction false} ReportedBefore(g: Graph, v: nat, n: nat)
    requires IsGraph(g) && v < |g| && n <= |g[v]|
    ensures ReportsBefore(g, v, n) != [] <==> HitsBefore(g, v, n)
  {
    if n > 0 {
      ReportedBefore(g, v, n - 1);
      OneMoreEdge(g, v, n - 1);
      ReportedIffHit(g, g[v][n - 1], [v], {v});
    }
  }

  // ---------------------------------------------------------------- what a report shows

  ghost predicate Distinct(s: seq<int>) {
    forall i, j :: 0 <= i < j < |s| ==> s[i] != s[j]
  }

  /** A chain of edges that goes on from the route, and repeats no vertex before its last one. */
  ghost predicate IsReport(g: Graph, route: seq<int>, p: seq<int>) {
    |p| > |route| && route <= p && IsChain(g, p) && Distinct(p[..|p| - 1])
  }

  ghost predicate AreReports(g: Graph, route: seq<int>, ps: seq<seq<int>>) {
    forall i :: 0 <= i < |ps| ==> IsReport(g, route, ps[i])
  }

  /** A route that has not run into anything. */
  ghost predicate IsFresh(g: Graph, route: seq<int>, seen: set<nat>) {
    IsChain(g, route) && Distinct(route) && forall i :: 0 <= i < |route| ==> route[i] in seen
  }

  lemma Longer(g: Graph, route: seq<int>, v: nat, ps: seq<seq<int>>)
    requires AreReports(g, route + [v], ps)
    ensures AreReports(g, route, ps)
  {
    forall i | 0 <= i < |ps| ensures IsReport(g, route, ps[i]) {
      assert route + [v] <= ps[i];
    }
  }

  lemma {:induction false} ReportsAreReports(g: Graph, v: nat, route: seq<int>, seen: set<nat>)
    requires IsGraph(g) && v < |g| && seen <= Vertices(g)
    requires IsFresh(g, route, seen) && IsChain(g, route + [v])
    ensures AreReports(g, route, Reports(g, v, route, seen))
    decreases |Vertices(g) - seen|, 0
  {
    var route' := route + [v];
    if v in seen {
      assert route'[..|route|] == route;
    } else {
      Fewer(Vertices(g) - seen, Vertices(g) - (seen + {v}));
      assert IsFresh(g, route', seen + {v});
      ReportsToAreReports(g, v, |g[v]|, route', seen + {v});
      Longer(g, route, v, Reports(g, v, route, seen));
    }
  }

  lemma {:induction false} ReportsToAreReports(g: Graph, v: nat, j: nat, route: seq<int>, seen: set<nat>)
    requires IsGraph(g) && v < |g| && seen <= Vertices(g) && j <= |g[v]|
    requires IsFresh(g, route, seen) && route != [] && route[|route| - 1] == v
    ensures AreReports(g, route, ReportsTo(g, v, j, route, seen))
    decreases |Vertices(g) - seen|, j
  {
    if j > 0 {
      var before, c := ExploreTo(g, v, j - 1, seen).seen, g[v][j - 1];
      Fewer(Vertices(g) - seen, Vertices(g) - before);
      ReportsToAreReports(g, v, j - 1, route, seen);
      assert IsChain(g, route + [c]);
      ReportsAreReports(g, c, route, before);
    }
  }

  lemma {:induction false} ReportsBeforeAreReports(g: Graph, v: nat, n: nat)
    requires IsGraph(g) && v < |g| && n <= |g[v]|
    ensures AreReports(g, [v], ReportsBefore(g, v, n))
  {
    if n > 0 {
      ReportsBeforeAreReports(g, v, n - 1);
      assert IsChain(g, [v] + [g[v][n - 1]]);
      ReportsAreReports(g, g[v][n - 1], [v], {v});
    }
  }

  // ---------------------------------------------------------------- with one edge for each vertex

  /** The last vertex of a report has occurred before, so the report shows a cycle. */
  ghost predicate ShowsCycle(p: seq<int>) {
    p != [] && Last(p) in Front(p)
  }

  ghost predicate AllShowCycles(ps: seq<seq<int>>) {
    forall i :: 0 <= i < |ps| ==> ShowsCycle(ps[i])
  }

  lemma {:induction false} OnlyCyclesReported(g: Graph, v: nat, route: seq<int>, seen: set<nat>)
    requires IsGraph(g) && v < |g| && seen <= Vertices(g) && forall u :: 0 <= u < |g| ==> |g[u]| <= 1
    requires forall u :: u in seen ==> u in route
    ensures AllShowCycles(Reports(g, v, route, seen))
    decreases |Vertices(g) - seen|
  {
    var route' := route + [v];
    assert Last(route') == v && Front(route') == route;
    if v !in seen && g[v] != [] {
      Fewer(Vertices(g) - seen, Vertices(g) - (seen + {v}));
      assert forall u :: u in route ==> u in route';
      assert v in route';
      OnlyCyclesReported(g, g[v][0], route', seen + {v});
      assert ReportsTo(g, v, 0, route', seen + {v}) == [];
      assert Reports(g, v, route, seen) == [] + Reports(g, g[v][0], route', seen + {v});
    }
  }

  lemma OnlyCyclesBefore(g: Graph, v: nat)
    requires IsGraph(g) && v < |g| && forall u :: 0 <= u < |g| ==> |g[u]| <= 1
    ensures AllShowCycles(ReportsBefore(g, v, |g[v]|))
  {
    if g[v] != [] {
      OnlyCyclesReported(g, g[v][0], [v], {v});
      assert ReportsBefore(g, v, 0) == [];
      assert ReportsBefore(g, v, 1) == [] + Reports(g, g[v][0], [v], {v});
    }
  }

  // ---------------------------------------------------------------- all reports

  /** A report starts somewhere. */
  ghost predicate IsAlarm(g: Graph, p: seq<int>) {
    p != [] && IsReport(g, p[..1], p)
  }

  /**
    Something is printed exactly if the flag is set. All that is printed are chains of at least one
    edge that repeat no vertex before the last one; and if no vertex has two edges, the last one
    repeats, so each report shows a cycle.
  */
  lemma {:induction false} WhatIsPrinted(g: Graph, u: nat)
    requires IsGraph(g) && u <= |g|
    ensures FirstReports(g, u) != [] <==> exists v :: u <= v < |g| && HitsFrom(g, v)
    ensures forall i :: 0 <= i < |FirstReports(g, u)| ==> IsAlarm(g, FirstReports(g, u)[i])
    ensures (forall v :: 0 <= v < |g| ==> |g[v]| <= 1) ==> AllShowCycles(FirstReports(g, u))
    decreases |g| - u
  {
    if u < |g| {
      ReportedBefore(g, u, |g[u]|);
      assert HitsFrom(g, u) <==> HitsBefore(g, u, |g[u]|);
      if ReportsBefore(g, u, |g[u]|) != [] {
        ReportsBeforeAreReports(g, u, |g[u]|);
        if forall v :: 0 <= v < |g| ==> |g[v]| <= 1 {
          OnlyCyclesBefore(g, u);
        }
        forall i | 0 <= i < |FirstReports(g, u)| ensures IsAlarm(g, FirstReports(g, u)[i]) {
          assert FirstReports(g, u)[i][..1] == [u];
        }
      } else {
        WhatIsPrinted(g, u + 1);
      }
    }
  }
}
