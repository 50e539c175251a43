/**
  Building the tree: byte counts become leaves, the list is sorted and its two lightest nodes are
  merged until one is left. The sort is not stable, so nothing here depends on how it orders
  nodes of equal weight.
*/
module HuffmanForest {
  import opened Wrappers
  import opened HuffmanTree
  import opened HuffmanBits
  import opened HuffmanOptimal

  // ---------------------------------------------------------------- counting bytes

  /** One entry per distinct byte, in order of first occurrence, with its number of occurrences. */
  type Tally = seq<(Byte, nat)>

  function AddOccurrence(tally: Tally, b: Byte): Tally {
    if tally == [] then [(b, 1)]
    else if tally[0].0 == b then [(b, tally[0].1 + 1)] + tally[1..]
    else [tally[0]] + AddOccurrence(tally[1..], b)
  }

  function GroupBy(tally: Tally, buffer: seq<Byte>): Tally
    decreases |buffer|
  {
    if buffer == [] then tally else GroupBy(AddOccurrence(tally, buffer[0]), buffer[1..])
  }

  function Occurrences(buffer: seq<Byte>, b: Byte): nat {
    if buffer == [] then 0 else (if buffer[0] == b then 1 else 0) + Occurrences(buffer[1..], b)
  }

  function Entries(tally: Tally, b: Byte): nat {
    if tally == [] then 0 else (if tally[0].0 == b then 1 else 0) + Entries(tally[1..], b)
  }

  function Tallied(tally: Tally, b: Byte): nat {
    if tally == [] then 0 else (if tally[0].0 == b then tally[0].1 else 0) + Tallied(tally[1..], b)
  }

  lemma {:induction false} AddOccurrenceCounts(tally: Tally, x: Byte, b: Byte)
    requires Entries(tally, x) <= 1
    ensures Tallied(AddOccurrence(tally, x), b) == Tallied(tally, b) + if x == b then 1 else 0
    ensures Entries(AddOccurrence(tally, x), b) == if x == b then 1 else Entries(tally, b)
  {
    var after := AddOccurrence(tally, x);
    if tally == [] {
      assert after[1..] == [];
    } else if tally[0].0 == x {
      assert after[1..] == tally[1..];
    } else {
      AddOccurrenceCounts(tally[1..], x, b);
      assert after[1..] == AddOccurrence(tally[1..], x);
    }
  }

  lemma {:induction false} GroupByCounts(tally: Tally, buffer: seq<Byte>, b: Byte)
    requires forall x :: Entries(tally, x) <= 1
    ensures Tallied(GroupBy(tally, buffer), b) == Tallied(tally, b) + Occurrences(buffer, b)
    ensures Entries(GroupBy(tally, buffer), b) ==
            if Entries(tally, b) == 1 || Occurrences(buffer, b) >= 1 then 1 else 0
    decreases |buffer|
  {
    if buffer != [] {
      forall x ensures Entries(AddOccurrence(tally, buffer[0]), x) <= 1 {
        AddOccurrenceCounts(tally, buffer[0], x);
      }
      AddOccurrenceCounts(tally, buffer[0], b);
      GroupByCounts(AddOccurrence(tally, buffer[0]), buffer[1..], b);
    }
  }

  lemma {:induction false} OccurrencesMember(buffer: seq<Byte>, b: Byte)
    ensures Occurrences(buffer, b) >= 1 <==> b in buffer
  {
    if buffer != [] {
      OccurrencesMember(buffer[1..], b);
    }
  }

  // ---------------------------------------------------------------- what a code costs

  ghost predicate Covers(codes: map<Byte, Bits>, tally: Tally) {
    forall e :: e in tally ==> e.0 in codes
  }

  function Counts(tally: Tally): (ws: seq<nat>)
    ensures |ws| == |tally|
  {
    if tally == [] then [] else [tally[0].1] + Counts(tally[1..])
  }

  function CodesOf(codes: map<Byte, Bits>, tally: Tally): (cs: seq<Bits>)
    requires Covers(codes, tally)
    ensures |cs| == |tally|
    ensures forall c :: c in cs ==> exists e :: e in tally && codes[e.0] == c
  {
    if tally == [] then [] else [codes[tally[0].0]] + CodesOf(codes, tally[1..])
  }

  function CodeCost(codes: map<Byte, Bits>, tally: Tally): nat
    requires Covers(codes, tally)
  {
    Cost(Counts(tally), Lengths(CodesOf(codes, tally)))
  }

  lemma CodeCostCons(codes: map<Byte, Bits>, e: (Byte, nat), tally: Tally)
    requires Covers(codes, [e] + tally) && Covers(codes, tally)
    ensures CodeCost(codes, [e] + tally) == e.1 * |codes[e.0]| + CodeCost(codes, tally)
  {
    var t := [e] + tally;
    assert t[1..] == tally;
    var ws, cs := Counts(t), CodesOf(codes, t);
    assert ws[1..] == Counts(tally) && cs[1..] == CodesOf(codes, tally);
    assert Lengths(cs)[1..] == Lengths(cs[1..]);
  }

  lemma {:induction false} AddOccurrenceCost(codes: map<Byte, Bits>, tally: Tally, x: Byte)
    requires Covers(codes, tally) && x in codes
    ensures Covers(codes, AddOccurrence(tally, x))
    ensures CodeCost(codes, AddOccurrence(tally, x)) == CodeCost(codes, tally) + |codes[x]|
  {
    if tally == [] {
      CodeCostCons(codes, (x, 1), []);
      assert [(x, 1)] + [] == [(x, 1)];
    } else {
      var e, rest := tally[0], tally[1..];
      assert tally == [e] + rest;
      CodeCostCons(codes, e, rest);
      if e.0 == x {
        CodeCostCons(codes, (x, e.1 + 1), rest);
        assert (e.1 + 1) * |codes[x]| == e.1 * |codes[x]| + |codes[x]|;
      } else {
        AddOccurrenceCost(codes, rest, x);
        CodeCostCons(codes, e, AddOccurrence(rest, x));
      }
    }
  }

  /** The cost of a code over the tally is the length of the encoded buffer. */
  lemma {:induction false} GroupByCost(codes: map<Byte, Bits>, tally: Tally, buffer: seq<Byte>)
    requires Covers(codes, tally) && forall b :: b in buffer ==> b in codes
    ensures Covers(codes, GroupBy(tally, buffer))
    ensures CodeCost(codes, GroupBy(tally, buffer)) == CodeCost(codes, tally) + |Encode(codes, buffer)|
    decreases |buffer|
  {
    if buffer != [] {
      AddOccurrenceCost(codes, tally, buffer[0]);
      GroupByCost(codes, AddOccurrence(tally, buffer[0]), buffer[1..]);
    }
  }

  lemma {:induction false} EntriesMember(tally: Tally, e: (Byte, nat))
    requires e in tally
    ensures Entries(tally, e.0) >= 1
  {
    if e != tally[0] {
      EntriesMember(tally[1..], e);
    }
  }

  lemma {:induction false} CodesOfPrefixFree(codes: map<Byte, Bits>, tally: Tally)
    requires PrefixFree(codes) && Covers(codes, tally) && forall b :: Entries(tally, b) <= 1
    ensures PrefixFreeSeq(CodesOf(codes, tally))
  {
    if tally != [] {
      var rest, cs := tally[1..], CodesOf(codes, tally);
      forall b ensures Entries(rest, b) <= 1 {
        assert Entries(tally, b) <= 1;
      }
      CodesOfPrefixFree(codes, rest);
      assert cs[1..] == CodesOf(codes, rest);
      forall c | c in cs[1..] ensures !(cs[0] <= c) && !(c <= cs[0]) {
        var e :| e in rest && codes[e.0] == c;
        EntriesMember(rest, e);
        assert Entries(tally, e.0) <= 1;
        assert e.0 != tally[0].0;
        assert !IsPrefix(codes[e.0], codes[tally[0].0]) && !IsPrefix(codes[tally[0].0], codes[e.0]);
      }
    }
  }

  // ---------------------------------------------------------------- trees over a buffer

  /** Sum over all leaves of weight times depth, added up merge by merge. */
  function PathLength(t: Node): nat {
    match t
    case Leaf(_, _) => 0
    case Inner(l, r, _) =>
      (if l.Some? then PathLength(l.value) + l.value.weight else 0) + PathLength(r) + r.weight
  }

  /** A leaf weighs its occurrences and an inner node its children. */
  ghost predicate WellWeighted(t: Node, buffer: seq<Byte>) {
    match t
    case Leaf(c, w) => w == Occurrences(buffer, c)
    case Inner(l, r, w) =>
      && WellWeighted(r, buffer)
      && (l.Some? ==> WellWeighted(l.value, buffer))
      && w == r.weight + if l.Some? then l.value.weight else 0
  }

  /** Positions of the buffer whose byte is in the tree. */
  function Inside(t: Node, buffer: seq<Byte>): nat {
    if buffer == [] then 0 else (if buffer[0] in Symbols(t) then 1 else 0) + Inside(t, buffer[1..])
  }

  /** Turns taken below t over all those positions. */
  function Turns(t: Node, buffer: seq<Byte>): nat {
    if buffer == [] then 0
    else (if buffer[0] in Symbols(t) then |Path(t, buffer[0])| else 0) + Turns(t, buffer[1..])
  }

  lemma {:induction false} TurnsSplit(t: Node, buffer: seq<Byte>)
    requires t.Inner? && DistinctLeaves(t)
    ensures Inside(t, buffer) == Inside(t.right, buffer) + if t.left.Some? then Inside(t.left.value, buffer) else 0
    ensures Turns(t, buffer) == Turns(t.right, buffer) + Inside(t.right, buffer)
              + if t.left.Some? then Turns(t.left.value, buffer) + Inside(t.left.value, buffer) else 0
  {
    BranchesAreDisjoint(t);
    if buffer != [] {
      TurnsSplit(t, buffer[1..]);
    }
  }

  lemma {:induction false} LeafInside(c: Byte, w: nat, buffer: seq<Byte>)
    ensures Inside(Leaf(c, w), buffer) == Occurrences(buffer, c) && Turns(Leaf(c, w), buffer) == 0
  {
    if buffer != [] {
      LeafInside(c, w, buffer[1..]);
    }
  }

  lemma {:induction false} PathLengthIsTurns(t: Node, buffer: seq<Byte>)
    requires DistinctLeaves(t) && WellWeighted(t, buffer)
    ensures t.weight == Inside(t, buffer) && PathLength(t) == Turns(t, buffer)
  {
    match t
    case Leaf(c, w) => LeafInside(c, w, buffer);
    case Inner(l, r, _) =>
      BranchesAreDisjoint(t);
      TurnsSplit(t, buffer);
      PathLengthIsTurns(r, buffer);
      if l.Some? {
        PathLengthIsTurns(l.value, buffer);
      }
  }

  lemma {:induction false} EncodedLength(t: Node, buffer: seq<Byte>)
    requires forall b :: b in buffer ==> b in Symbols(t)
    ensures |Encode(Codes(t), buffer)| == Turns(t, buffer)
  {
    if buffer != [] {
      EncodedLength(t, buffer[1..]);
    }
  }

  // ---------------------------------------------------------------- lists of nodes

  datatype Measure = LeavesWith(b: Byte) | Length

  function Measured(t: Node, m: Measure): nat {
    match m
    case LeavesWith(b) => LeafCount(t, b)
    case Length => PathLength(t)
  }

  function Total(nodes: seq<Node>, m: Measure): nat {
    if nodes == [] then 0 else Measured(nodes[0], m) + Total(nodes[1..], m)
  }

  function Weights(nodes: seq<Node>): (ws: seq<nat>)
    ensures |ws| == |nodes|
    ensures forall i :: 0 <= i < |nodes| ==> ws[i] == nodes[i].weight
  {
    if nodes == [] then [] else [nodes[0].weight] + Weights(nodes[1..])
  }

  function RemoveAt<T>(s: seq<T>, i: nat): (r: seq<T>)
    requires i < |s|
    ensures |r| == |s| - 1
  {
    s[..i] + s[i + 1..]
  }

  lemma {:induction false} TotalRemove(nodes: seq<Node>, i: nat, m: Measure)
    requires i < |nodes|
    ensures Total(nodes, m) == Measured(nodes[i], m) + Total(RemoveAt(nodes, i), m)
  {
    if i == 0 {
      assert RemoveAt(nodes, 0) == nodes[1..];
    } else {
      TotalRemove(nodes[1..], i - 1, m);
      assert RemoveAt(nodes, i)[1..] == RemoveAt(nodes[1..], i - 1);
    }
  }

  lemma MultisetRemove<T>(s: seq<T>, i: nat)
    requires i < |s|
    ensures multiset(s) == multiset(RemoveAt(s, i)) + multiset{s[i]}
  {
    assert s == s[..i] + [s[i]] + s[i + 1..];
  }

  lemma RemoveSame<T>(a: seq<T>, b: seq<T>) returns (i: nat)
    requires multiset(a) == multiset(b) && b != []
    ensures i < |a| && a[i] == b[0]
    ensures multiset(RemoveAt(a, i)) == multiset(b[1..])
  {
    assert b[0] in multiset(a);
    i :| 0 <= i < |a| && a[i] == b[0];
    MultisetRemove(a, i);
    MultisetRemove(b, 0);
    assert RemoveAt(b, 0) == b[1..];
    assert multiset(RemoveAt(a, i)) == multiset(a) - multiset{b[0]};
  }

  lemma {:induction false} TotalPermutation(a: seq<Node>, b: seq<Node>, m: Measure)
    requires multiset(a) == multiset(b)
    ensures Total(a, m) == Total(b, m)
    decreases |b|
  {
    if b == [] {
      assert |multiset(a)| == 0;
    } else {
      var i := RemoveSame(a, b);
      TotalRemove(a, i, m);
      TotalPermutation(RemoveAt(a, i), b[1..], m);
    }
  }

  lemma {:induction false} RemoveCost(ws: seq<nat>, ds: seq<nat>, i: nat)
    requires |ws| == |ds| && i < |ds|
    ensures Cost(ws, ds) == ws[i] * ds[i] + Cost(RemoveAt(ws, i), RemoveAt(ds, i))
  {
    if i == 0 {
      assert RemoveAt(ds, 0) == ds[1..] && RemoveAt(ws, 0) == ws[1..];
    } else {
      RemoveCost(ws[1..], ds[1..], i - 1);
      assert RemoveAt(ds, i)[1..] == RemoveAt(ds[1..], i - 1);
      assert RemoveAt(ws, i)[1..] == RemoveAt(ws[1..], i - 1);
    }
  }

  lemma {:induction false} RemoveDepth(ds: seq<nat>, i: nat, depth: nat)
    requires i < |ds| && Within(ds, depth)
    ensures Within(RemoveAt(ds, i), depth)
    ensures Kraft(ds, depth) == Pow2(depth - ds[i]) + Kraft(RemoveAt(ds, i), depth)
  {
    if i == 0 {
      assert RemoveAt(ds, 0) == ds[1..];
    } else {
      RemoveDepth(ds[1..], i - 1, depth);
      assert RemoveAt(ds, i)[1..] == RemoveAt(ds[1..], i - 1);
    }
  }

  /** Reordering the nodes and their depths together changes neither cost nor Kraft sum. */
  lemma {:induction false} DepthsPermutation(a: seq<Node>, b: seq<Node>, ds: seq<nat>, depth: nat)
    returns (es: seq<nat>)
    requires multiset(a) == multiset(b) && |ds| == |a| && Within(ds, depth)
    ensures |es| == |b| && Within(es, depth)
    ensures Cost(Weights(b), es) == Cost(Weights(a), ds) && Kraft(es, depth) == Kraft(ds, depth)
    decreases |b|
  {
    if b == [] {
      assert |multiset(a)| == 0;
      es := [];
    } else {
      var i := RemoveSame(a, b);
      RemoveCost(Weights(a), ds, i);
      RemoveDepth(ds, i, depth);
      assert RemoveAt(Weights(a), i) == Weights(RemoveAt(a, i));
      var rest := DepthsPermutation(RemoveAt(a, i), b[1..], RemoveAt(ds, i), depth);
      es := [ds[i]] + rest;
      assert es[1..] == rest;
    }
  }

  // ---------------------------------------------------------------- the greedy merge

  /** No feasible assignment of depths to the first weights costs less than what the merges made so far. */
  ghost predicate BoundedBelow(start: seq<nat>, nodes: seq<Node>) {
    forall ds, depth :: |ds| == |start| && Feasible(ds, depth) ==> StillDearer(Cost(start, ds), nodes)
  }

  ghost predicate StillDearer(cost: nat, nodes: seq<Node>) {
    exists ds, depth ::
      |ds| == |nodes| && Feasible(ds, depth) && cost >= Cost(Weights(nodes), ds) + Total(nodes, Length)
  }

  lemma SortingKeepsBound(start: seq<nat>, nodes: seq<Node>, sorted: seq<Node>)
    requires BoundedBelow(start, nodes) && multiset(nodes) == multiset(sorted)
    ensures BoundedBelow(start, sorted)
  {
    TotalPermutation(nodes, sorted, Length);
    forall ds, depth | |ds| == |start| && Feasible(ds, depth) ensures StillDearer(Cost(start, ds), sorted) {
      assert StillDearer(Cost(start, ds), nodes);
      var es, d' :| |es| == |nodes| && Feasible(es, d')
                    && Cost(start, ds) >= Cost(Weights(nodes), es) + Total(nodes, Length);
      var fs := DepthsPermutation(nodes, sorted, es, d');
      assert Feasible(fs, d');
    }
  }

  function Merge(nodes: seq<Node>): seq<Node>
    requires |nodes| >= 2
  {
    nodes[2..] + [Inner(Some(nodes[1]), nodes[0], nodes[0].weight + nodes[1].weight)]
  }

  lemma {:induction false} TotalSnoc(nodes: seq<Node>, t: Node, m: Measure)
    ensures Total(nodes + [t], m) == Total(nodes, m) + Measured(t, m)
  {
    if nodes == [] {
      assert [t][1..] == [];
      assert [] + [t] == [t];
    } else {
      TotalSnoc(nodes[1..], t, m);
      assert (nodes + [t])[1..] == nodes[1..] + [t];
    }
  }

  lemma TotalMerge(nodes: seq<Node>, m: Measure)
    requires |nodes| >= 2
    ensures Total(Merge(nodes), m) ==
            Total(nodes, m) + if m == Length then nodes[0].weight + nodes[1].weight else 0
  {
    var t := Inner(Some(nodes[1]), nodes[0], nodes[0].weight + nodes[1].weight);
    TotalSnoc(nodes[2..], t, m);
    assert nodes[1..][1..] == nodes[2..];
  }

  lemma MergingKeepsBound(start: seq<nat>, nodes: seq<Node>)
    requires BoundedBelow(start, nodes) && TwoSmallestFirst(Weights(nodes))
    ensures BoundedBelow(start, Merge(nodes))
  {
    var ws := Weights(nodes);
    TotalMerge(nodes, Length);
    assert Weights(Merge(nodes)) == ws[2..] + [ws[0] + ws[1]];
    forall ds, depth | |ds| == |start| && Feasible(ds, depth) ensures StillDearer(Cost(start, ds), Merge(nodes)) {
      assert StillDearer(Cost(start, ds), nodes);
      var es, d' :| |es| == |nodes| && Feasible(es, d')
                    && Cost(start, ds) >= Cost(ws, es) + Total(nodes, Length);
      var fs, d2 := GreedyStep(ws, es, d');
      assert Feasible(fs, d2);
    }
  }

  ghost predicate SortedByWeight(nodes: seq<Node>) {
    nodes != [] ==>
      SortedByWeight(nodes[1..]) && forall t :: t in nodes[1..] ==> nodes[0].weight <= t.weight
  }

  function Insert(sorted: seq<Node>, t: Node): seq<Node> {
    if sorted == [] || t.weight <= sorted[0].weight then [t] + sorted
    else [sorted[0]] + Insert(sorted[1..], t)
  }

  lemma {:induction false} InsertPermutes(sorted: seq<Node>, t: Node)
    ensures multiset(Insert(sorted, t)) == multiset(sorted) + multiset{t}
  {
    if sorted != [] && t.weight > sorted[0].weight {
      InsertPermutes(sorted[1..], t);
      assert sorted == [sorted[0]] + sorted[1..];
    }
  }

  lemma {:induction false} InsertSorts(sorted: seq<Node>, t: Node)
    requires SortedByWeight(sorted)
    ensures SortedByWeight(Insert(sorted, t))
  {
    var r := Insert(sorted, t);
    if sorted == [] || t.weight <= sorted[0].weight {
      assert r[1..] == sorted;
    } else {
      InsertSorts(sorted[1..], t);
      InsertPermutes(sorted[1..], t);
      assert r[1..] == Insert(sorted[1..], t);
      forall u | u in r[1..] ensures sorted[0].weight <= u.weight {
        assert u in multiset(r[1..]);
      }
    }
  }

  lemma SortedStartsSmallest(nodes: seq<Node>)
    requires SortedByWeight(nodes) && |nodes| >= 2
    ensures TwoSmallestFirst(Weights(nodes))
  {
    assert nodes[1] in nodes[1..];
    forall i | 2 <= i < |nodes| ensures nodes[1].weight <= nodes[i].weight {
      assert nodes[1..][1..][i - 2] == nodes[i];
    }
  }

  /** Sorts by weight; the contract leaves open how nodes of equal weight are ordered. */
  method SortNodes(nodes: seq<Node>) returns (sorted: seq<Node>)
    ensures multiset(sorted) == multiset(nodes) && SortedByWeight(sorted)
  {
    sorted := [];
    for n := 0 to |nodes|
      invariant multiset(sorted) == multiset(nodes[..n]) && SortedByWeight(sorted)
    {
      assert nodes[..n + 1] == nodes[..n] + [nodes[n]];
      InsertPermutes(sorted, nodes[n]);
      InsertSorts(sorted, nodes[n]);
      sorted := Insert(sorted, nodes[n]);
    }
    assert nodes[..|nodes|] == nodes;
  }

  /** Both children are there, and the right one is no heavier than its sibling. */
  ghost predicate LighterRight(t: Node) {
    t.Inner? ==>
      && t.left.Some? && t.right.weight <= t.left.value.weight
      && LighterRight(t.left.value) && LighterRight(t.right)
  }

  /** An empty list makes the final indexing throw. */
  method CreateHuffmanTree(leaves: seq<Node>, ghost buffer: seq<Byte>) returns (r: Result<Node>)
    requires forall t :: t in leaves ==> t.Leaf? && WellWeighted(t, buffer)
    ensures r.Err? <==> leaves == []
    ensures r.Ok? ==> r.value.Inner? && WellWeighted(r.value, buffer)
    ensures r.Ok? ==> forall b :: LeafCount(r.value, b) == Total(leaves, LeavesWith(b))
    ensures |leaves| >= 2 ==> BoundedBelow(Weights(leaves), [r.value]) && LighterRight(r.value)
    ensures |leaves| == 1 ==> r.value.left.None? && r.value.right == leaves[0]
  {
    if leaves == [] {
      return Err;
    }
    var nodes := leaves;
    if |nodes| == 1 {
      var right := nodes[0];
      nodes := [Inner(None, right, right.weight)];
      return Ok(nodes[0]);
    }
    LeavesBound(leaves);
    while |nodes| > 1
      invariant |nodes| >= 1 && (|nodes| == 1 ==> nodes[0].Inner?)
      invariant forall t :: t in nodes ==> WellWeighted(t, buffer) && LighterRight(t)
      invariant forall b :: Total(nodes, LeavesWith(b)) == Total(leaves, LeavesWith(b))
      invariant BoundedBelow(Weights(leaves), nodes)
      decreases |nodes|
    {
      var sorted := SortNodes(nodes);
      SortingKeepsBound(Weights(leaves), nodes, sorted);
      assert |multiset(sorted)| == |multiset(nodes)|;
      forall b ensures Total(Merge(sorted), LeavesWith(b)) == Total(leaves, LeavesWith(b)) {
        TotalPermutation(nodes, sorted, LeavesWith(b));
        TotalMerge(sorted, LeavesWith(b));
      }
      forall t | t in sorted ensures WellWeighted(t, buffer) && LighterRight(t) {
        assert t in multiset(sorted);
      }
      SortedStartsSmallest(sorted);
      MergingKeepsBound(Weights(leaves), sorted);
      var right := sorted[0];
      var left := sorted[1];
      var parentNode := Inner(Some(left), right, right.weight + left.weight);
      nodes := sorted[2..] + [parentNode];
      assert nodes == Merge(sorted);
    }
    assert nodes == [nodes[0]];
    forall b ensures LeafCount(nodes[0], b) == Total(leaves, LeavesWith(b)) {
      assert nodes[1..] == [];
      assert Total(nodes, LeavesWith(b)) == LeafCount(nodes[0], b);
    }
    return Ok(nodes[0]);
  }

  lemma LeavesBound(leaves: seq<Node>)
    requires forall t :: t in leaves ==> t.Leaf?
    ensures BoundedBelow(Weights(leaves), leaves)
  {
    LeavesHaveNoLength(leaves);
    forall ds, depth | |ds| == |leaves| && Feasible(ds, depth)
      ensures StillDearer(Cost(Weights(leaves), ds), leaves)
    {
    }
  }

  lemma {:induction false} LeavesHaveNoLength(leaves: seq<Node>)
    requires forall t :: t in leaves ==> t.Leaf?
    ensures Total(leaves, Length) == 0
  {
    if leaves != [] {
      LeavesHaveNoLength(leaves[1..]);
    }
  }
}