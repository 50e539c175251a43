/**
  Why the greedy merge is optimal. Depth assignments stand for codes: a sequence of code lengths
  is feasible when it satisfies Kraft's inequality. Every feasible assignment for the current
  weights yields a feasible one for the weights after a greedy merge that is cheaper by the
  merged weight, so no prefix-free code beats the sum of all merges.
*/
module HuffmanOptimal {
  import opened HuffmanTree
  import opened HuffmanBits

  // ---------------------------------------------------------------- cost and Kraft sum

  function Cost(ws: seq<nat>, ds: seq<nat>): nat
    requires |ws| == |ds|
  {
    if ws == [] then 0 else ws[0] * ds[0] + Cost(ws[1..], ds[1..])
  }

  ghost predicate Within(ds: seq<nat>, depth: nat) {
    forall i :: 0 <= i < |ds| ==> ds[i] <= depth
  }

  function Kraft(ds: seq<nat>, depth: nat): nat
    requires Within(ds, depth)
  {
    if ds == [] then 0 else Pow2(depth - ds[0]) + Kraft(ds[1..], depth)
  }

  ghost predicate Feasible(ds: seq<nat>, depth: nat) {
    Within(ds, depth) && Kraft(ds, depth) <= Pow2(depth)
  }

  lemma {:induction false} CostUpdate(ws: seq<nat>, ds: seq<nat>, i: nat, d: nat)
    requires |ws| == |ds| && i < |ds|
    ensures Cost(ws, ds[i := d]) + ws[i] * ds[i] == Cost(ws, ds) + ws[i] * d
  {
    if i > 0 {
      CostUpdate(ws[1..], ds[1..], i - 1, d);
      assert ds[i := d][1..] == ds[1..][i - 1 := d];
    } else {
      assert ds[i := d][1..] == ds[1..];
    }
  }

  lemma {:induction false} KraftUpdate(ds: seq<nat>, i: nat, d: nat, depth: nat)
    requires i < |ds| && Within(ds, depth) && d <= depth
    ensures Within(ds[i := d], depth)
    ensures Kraft(ds[i := d], depth) + Pow2(depth - ds[i]) == Kraft(ds, depth) + Pow2(depth - d)
  {
    if i > 0 {
      KraftUpdate(ds[1..], i - 1, d, depth);
      assert ds[i := d][1..] == ds[1..][i - 1 := d];
    } else {
      assert ds[i := d][1..] == ds[1..];
    }
  }

  lemma {:induction false} CostConcat(ws: seq<nat>, ds: seq<nat>, vs: seq<nat>, es: seq<nat>)
    requires |ws| == |ds| && |vs| == |es|
    ensures Cost(ws + vs, ds + es) == Cost(ws, ds) + Cost(vs, es)
  {
    if ws == [] {
      assert ws + vs == vs && ds + es == es;
    } else {
      CostConcat(ws[1..], ds[1..], vs, es);
      assert (ws + vs)[1..] == ws[1..] + vs && (ds + es)[1..] == ds[1..] + es;
    }
  }

  lemma {:induction false} KraftConcat(ds: seq<nat>, es: seq<nat>, depth: nat)
    requires Within(ds, depth) && Within(es, depth)
    ensures Within(ds + es, depth)
    ensures Kraft(ds + es, depth) == Kraft(ds, depth) + Kraft(es, depth)
  {
    if ds == [] {
      assert ds + es == es;
    } else {
      KraftConcat(ds[1..], es, depth);
      assert (ds + es)[1..] == ds[1..] + es;
    }
  }

  // ---------------------------------------------------------------- the deepest leaves

  function DeepCount(ds: seq<nat>, depth: nat): nat {
    if ds == [] then 0 else (if ds[0] == depth then 1 else 0) + DeepCount(ds[1..], depth)
  }

  lemma {:induction false} KraftParity(ds: seq<nat>, depth: nat)
    requires Within(ds, depth)
    ensures Kraft(ds, depth) % 2 == DeepCount(ds, depth) % 2
  {
    if ds != [] {
      KraftParity(ds[1..], depth);
    }
  }

  lemma {:induction false} NoneDeep(ds: seq<nat>, depth: nat)
    requires Within(ds, depth) && DeepCount(ds, depth) == 0
    ensures forall i :: 0 <= i < |ds| ==> ds[i] < depth
    ensures depth >= 1 ==> Within(ds, depth - 1) && Kraft(ds, depth) == 2 * Kraft(ds, depth - 1)
  {
    if ds != [] {
      NoneDeep(ds[1..], depth);
    }
  }

  lemma {:induction false} FindDeep(ds: seq<nat>, depth: nat, from: nat) returns (i: nat)
    requires from <= |ds| && DeepCount(ds[from..], depth) >= 1
    ensures from <= i < |ds| && ds[i] == depth
    ensures DeepCount(ds[i + 1..], depth) == DeepCount(ds[from..], depth) - 1
    decreases |ds| - from
  {
    if ds[from] == depth {
      i := from;
      assert ds[from..][1..] == ds[from + 1..];
    } else {
      assert ds[from..][1..] == ds[from + 1..];
      i := FindDeep(ds, depth, from + 1);
    }
  }

  lemma {:induction false} DeepCountUpdate(ds: seq<nat>, i: nat, d: nat, depth: nat)
    requires i < |ds| && ds[i] == depth && d != depth
    ensures DeepCount(ds[i := d], depth) == DeepCount(ds, depth) - 1
  {
    if i > 0 {
      DeepCountUpdate(ds[1..], i - 1, d, depth);
      assert ds[i := d][1..] == ds[1..][i - 1 := d];
    } else {
      assert ds[i := d][1..] == ds[1..];
    }
  }

  // ---------------------------------------------------------------- exchange and merge

  function Swap(ds: seq<nat>, i: nat, j: nat): (r: seq<nat>)
    requires i < |ds| && j < |ds|
    ensures |r| == |ds|
  {
    ds[i := ds[j]][j := ds[i]]
  }

  /** Giving the deeper place to the lighter weight costs nothing. */
  lemma SwapIsNoDearer(ws: seq<nat>, ds: seq<nat>, i: nat, j: nat, depth: nat)
    requires |ws| == |ds| && i < |ds| && j < |ds|
    requires ws[i] <= ws[j] && ds[i] <= ds[j] && Feasible(ds, depth)
    ensures Feasible(Swap(ds, i, j), depth) && Cost(ws, Swap(ds, i, j)) <= Cost(ws, ds)
  {
    if i != j {
      var es := ds[i := ds[j]];
      CostUpdate(ws, ds, i, ds[j]);
      CostUpdate(ws, es, j, ds[i]);
      KraftUpdate(ds, i, ds[j], depth);
      KraftUpdate(es, j, ds[i], depth);
      Rearrangement(ws[i], ws[j], ds[i], ds[j]);
    } else {
      assert Swap(ds, i, j) == ds;
    }
  }

  lemma Rearrangement(a: nat, b: nat, d: nat, e: nat)
    requires a <= b && d <= e
    ensures a * e + b * d <= a * d + b * e
  {
    assert (b - a) * (e - d) >= 0;
    assert (b - a) * (e - d) == b * e - b * d - a * e + a * d;
  }

  lemma CostSnoc(ws: seq<nat>, ds: seq<nat>, w: nat, d: nat)
    requires |ws| == |ds|
    ensures Cost(ws + [w], ds + [d]) == Cost(ws, ds) + w * d
  {
    CostConcat(ws, ds, [w], [d]);
    assert Cost([w], [d]) == w * d + Cost([w][1..], [d][1..]);
  }

  lemma CostTwoLevels(ws: seq<nat>, ds: seq<nat>, up: nat)
    requires |ws| == |ds| && |ws| >= 2 && ds[0] == up + 1 && ds[1] == up + 1
    ensures Cost(ws, ds) == (ws[0] + ws[1]) * up + ws[0] + ws[1] + Cost(ws[2..], ds[2..])
  {
    assert ws[1..][1..] == ws[2..] && ds[1..][1..] == ds[2..];
    assert Cost(ws[1..], ds[1..]) == ws[1] * ds[1] + Cost(ws[2..], ds[2..]);
    OneLevelUp(ws[0], ws[1], up);
  }

  lemma OneLevelUp(a: nat, b: nat, up: nat)
    ensures a * (up + 1) + b * (up + 1) == (a + b) * up + a + b
  {
  }

  lemma MergeCost(ws: seq<nat>, ds: seq<nat>, up: nat)
    requires |ws| == |ds| && |ws| >= 2 && ds[0] == up + 1 && ds[1] == up + 1
    ensures Cost(ws, ds) == Cost(ws[2..] + [ws[0] + ws[1]], ds[2..] + [up]) + ws[0] + ws[1]
  {
    CostTwoLevels(ws, ds, up);
    CostSnoc(ws[2..], ds[2..], ws[0] + ws[1], up);
  }

  /** Two entries on one level become one entry a level up. */
  lemma MergeKraft(ds: seq<nat>, up: nat)
    requires |ds| >= 2 && ds[0] == up + 1 && ds[1] == up + 1 && Feasible(ds, up + 1)
    ensures Feasible(ds[2..] + [up], up + 1)
  {
    var depth, rest := up + 1, ds[2..];
    KraftConcat(rest, [up], depth);
    assert Kraft([up], depth) == Pow2(1) + Kraft([up][1..], depth);
    assert ds[1..][1..] == rest;
    assert Kraft(ds, depth) == Pow2(0) + (Pow2(0) + Kraft(rest, depth));
  }

  ghost predicate TwoSmallestFirst(ws: seq<nat>) {
    |ws| >= 2 && ws[0] <= ws[1] && forall i :: 2 <= i < |ws| ==> ws[1] <= ws[i]
  }

  lemma NotAllAtRoot(ds: seq<nat>, depth: nat)
    requires |ds| >= 2 && Feasible(ds, depth)
    ensures depth >= 1
  {
    assert Kraft(ds, depth) == Pow2(depth - ds[0]) + (Pow2(depth - ds[1]) + Kraft(ds[1..][1..], depth));
  }

  /** A single deepest entry may move one level up: the Kraft sum was odd. */
  lemma ShortenDeepest(ws: seq<nat>, ds: seq<nat>, depth: nat) returns (es: seq<nat>)
    requires |ws| == |ds| && depth >= 1 && Feasible(ds, depth) && DeepCount(ds, depth) == 1
    ensures |es| == |ds| && Feasible(es, depth) && DeepCount(es, depth) == 0
    ensures Cost(ws, es) <= Cost(ws, ds)
  {
    assert ds[0..] == ds;
    var i := FindDeep(ds, depth, 0);
    KraftParity(ds, depth);
    KraftUpdate(ds, i, depth - 1, depth);
    CostUpdate(ws, ds, i, depth - 1);
    DeepCountUpdate(ds, i, depth - 1, depth);
    assert Pow2(1) == 2 && Pow2(0) == 1;
    assert ws[i] * (depth - 1) <= ws[i] * depth;
    es := ds[i := depth - 1];
  }

  /** Two deepest entries can change places with the first two, the lightest. */
  lemma DeepestFirst(ws: seq<nat>, ds: seq<nat>, depth: nat) returns (es: seq<nat>)
    requires TwoSmallestFirst(ws) && |ws| == |ds| && Feasible(ds, depth) && DeepCount(ds, depth) >= 2
    ensures |es| == |ds| && Feasible(es, depth) && es[0] == depth && es[1] == depth
    ensures Cost(ws, es) <= Cost(ws, ds)
  {
    assert ds[0..] == ds;
    var i := FindDeep(ds, depth, 0);
    var j := FindDeep(ds, depth, i + 1);
    SwapIsNoDearer(ws, ds, 0, i, depth);
    var swapped := Swap(ds, 0, i);
    SwapIsNoDearer(ws, swapped, 1, j, depth);
    es := Swap(swapped, 1, j);
  }

  /** Any feasible assignment leads to one for the merged weights that saves the merged weight. */
  lemma {:induction false} GreedyStep(ws: seq<nat>, ds: seq<nat>, depth: nat) returns (es: seq<nat>, depth': nat)
    requires TwoSmallestFirst(ws) && |ws| == |ds| && Feasible(ds, depth)
    ensures |es| == |ws| - 1 && Feasible(es, depth')
    ensures Cost(ws, ds) >= Cost(ws[2..] + [ws[0] + ws[1]], es) + ws[0] + ws[1]
    decreases depth, DeepCount(ds, depth)
  {
    NotAllAtRoot(ds, depth);
    if DeepCount(ds, depth) == 0 {
      NoneDeep(ds, depth);
      es, depth' := GreedyStep(ws, ds, depth - 1);
    } else if DeepCount(ds, depth) == 1 {
      var shorter := ShortenDeepest(ws, ds, depth);
      es, depth' := GreedyStep(ws, shorter, depth);
    } else {
      var paired := DeepestFirst(ws, ds, depth);
      MergeCost(ws, paired, depth - 1);
      MergeKraft(paired, depth - 1);
      es, depth' := paired[2..] + [depth - 1], depth;
    }
  }

  // ---------------------------------------------------------------- prefix-free codes

  ghost predicate PrefixFreeSeq(cs: seq<Bits>) {
    cs == [] || (PrefixFreeSeq(cs[1..]) && forall c :: c in cs[1..] ==> !(cs[0] <= c) && !(c <= cs[0]))
  }

  function Lengths(cs: seq<Bits>): (ds: seq<nat>)
    ensures |ds| == |cs|
  {
    if cs == [] then [] else [|cs[0]|] + Lengths(cs[1..])
  }

  /** The codes that start with bit b, without that bit. */
  function Tails(cs: seq<Bits>, b: bool): seq<Bits> {
    if cs == [] then []
    else if cs[0] != [] && cs[0][0] == b then [cs[0][1..]] + Tails(cs[1..], b)
    else Tails(cs[1..], b)
  }

  lemma {:induction false} TailsMembers(cs: seq<Bits>, b: bool)
    ensures forall c :: c in Tails(cs, b) ==> [b] + c in cs
  {
    if cs != [] {
      TailsMembers(cs[1..], b);
      if cs[0] != [] && cs[0][0] == b {
        assert cs[0] == [b] + cs[0][1..];
      }
    }
  }

  lemma {:induction false} TailsPrefixFree(cs: seq<Bits>, b: bool)
    requires PrefixFreeSeq(cs)
    ensures PrefixFreeSeq(Tails(cs, b))
  {
    if cs != [] {
      TailsPrefixFree(cs[1..], b);
      if cs[0] != [] && cs[0][0] == b {
        TailsMembers(cs[1..], b);
        var t, rest := cs[0][1..], Tails(cs[1..], b);
        forall c | c in rest ensures !(t <= c) && !(c <= t) {
          assert cs[0] == [b] + t && [b] + c in cs[1..];
        }
        assert ([t] + rest)[1..] == rest;
      }
    }
  }

  lemma {:induction false} LengthsWithin(cs: seq<Bits>, depth: nat)
    requires forall c :: c in cs ==> |c| <= depth
    ensures Within(Lengths(cs), depth)
  {
    if cs != [] {
      LengthsWithin(cs[1..], depth);
    }
  }

  lemma {:induction false} TailsShorter(cs: seq<Bits>, b: bool, depth: nat)
    requires depth >= 1 && forall c :: c in cs ==> 1 <= |c| <= depth
    ensures forall c :: c in Tails(cs, b) ==> |c| <= depth - 1
    ensures Within(Lengths(Tails(cs, b)), depth - 1)
  {
    TailsMembers(cs, b);
    forall c | c in Tails(cs, b) ensures |c| <= depth - 1 {
      assert |[b] + c| <= depth;
    }
    LengthsWithin(Tails(cs, b), depth - 1);
  }

  lemma KraftCons(c: Bits, cs: seq<Bits>, depth: nat)
    requires |c| <= depth && Within(Lengths(cs), depth)
    ensures Within(Lengths([c] + cs), depth)
    ensures Kraft(Lengths([c] + cs), depth) == Pow2(depth - |c|) + Kraft(Lengths(cs), depth)
  {
    assert ([c] + cs)[1..] == cs;
    assert Lengths([c] + cs) == [|c|] + Lengths(cs);
    assert Lengths([c] + cs)[1..] == Lengths(cs);
  }

  lemma TailsCons(c: Bits, cs: seq<Bits>, b: bool)
    requires c != []
    ensures Tails([c] + cs, b) == if c[0] == b then [c[1..]] + Tails(cs, b) else Tails(cs, b)
  {
    assert ([c] + cs)[1..] == cs;
  }

  lemma {:induction false} KraftSplits(cs: seq<Bits>, b: bool, depth: nat)
    requires depth >= 1 && forall c :: c in cs ==> 1 <= |c| <= depth
    requires Within(Lengths(cs), depth)
    requires Within(Lengths(Tails(cs, b)), depth - 1) && Within(Lengths(Tails(cs, !b)), depth - 1)
    ensures Kraft(Lengths(cs), depth)
         == Kraft(Lengths(Tails(cs, b)), depth - 1) + Kraft(Lengths(Tails(cs, !b)), depth - 1)
    decreases |cs|
  {
    if cs != [] {
      var c, rest := cs[0], cs[1..];
      assert cs == [c] + rest && c in cs;
      LengthsWithin(rest, depth);
      TailsShorter(rest, b, depth);
      TailsShorter(rest, !b, depth);
      KraftSplits(rest, b, depth);
      KraftCons(c, rest, depth);
      TailsKraft(c, rest, b, depth);
      TailsKraft(c, rest, !b, depth);
    }
  }

  lemma TailsKraft(c: Bits, cs: seq<Bits>, b: bool, depth: nat)
    requires 1 <= |c| <= depth && Within(Lengths(Tails(cs, b)), depth - 1)
    ensures Within(Lengths(Tails([c] + cs, b)), depth - 1)
    ensures Kraft(Lengths(Tails([c] + cs, b)), depth - 1) ==
            Kraft(Lengths(Tails(cs, b)), depth - 1) + if c[0] == b then Pow2(depth - |c|) else 0
  {
    TailsCons(c, cs, b);
    if c[0] == b {
      KraftCons(c[1..], Tails(cs, b), depth - 1);
    }
  }

  /** Kraft's inequality. */
  lemma {:induction false} KraftInequality(cs: seq<Bits>, depth: nat)
    requires PrefixFreeSeq(cs) && forall c :: c in cs ==> |c| <= depth
    ensures Feasible(Lengths(cs), depth)
    decreases depth
  {
    LengthsWithin(cs, depth);
    if |cs| == 1 {
      assert cs[0] in cs;
      assert Lengths(cs)[1..] == [];
      Pow2Monotonic(depth - |cs[0]|, depth);
    } else if |cs| >= 2 {
      SomeDepth(cs, depth);
      TailsShorter(cs, false, depth);
      TailsShorter(cs, true, depth);
      TailsPrefixFree(cs, false);
      TailsPrefixFree(cs, true);
      KraftInequality(Tails(cs, false), depth - 1);
      KraftInequality(Tails(cs, true), depth - 1);
      KraftOfTwo(cs, depth);
    }
  }

  lemma SomeDepth(cs: seq<Bits>, depth: nat)
    requires PrefixFreeSeq(cs) && |cs| >= 2 && forall c :: c in cs ==> |c| <= depth
    ensures depth >= 1 && forall c :: c in cs ==> |c| >= 1
  {
    NoEmptyCode(cs);
    assert cs[0] in cs;
  }

  /** The codes that start with a zero and those that start with a one add up. */
  lemma KraftOfTwo(cs: seq<Bits>, depth: nat)
    requires depth >= 1 && (forall c :: c in cs ==> 1 <= |c| <= depth)
    requires Feasible(Lengths(Tails(cs, false)), depth - 1) && Feasible(Lengths(Tails(cs, true)), depth - 1)
    ensures Feasible(Lengths(cs), depth)
  {
    LengthsWithin(cs, depth);
    KraftSplits(cs, false, depth);
  }

  lemma NoEmptyCode(cs: seq<Bits>)
    requires PrefixFreeSeq(cs) && |cs| >= 2
    ensures forall c :: c in cs ==> |c| >= 1
  {
    assert cs[1] in cs[1..];
    forall c | c in cs ensures |c| >= 1 {
      if c != cs[0] {
        assert c in cs[1..];
      }
    }
  }
}
