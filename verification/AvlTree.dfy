/**
  The balanced search tree: insertion with rotations. A node that is inserted goes to the right
  of a node with an equal value. A ghost tree describes the shape and the contents of the linked
  nodes; the operations on nodes are specified by what they do to that tree.
*/
module AvlTree {
  import opened Helpers

  datatype Tree = Leaf | Branch(left: Tree, node: Node, value: int, right: Tree)

  datatype Entry = Entry(node: Node, value: int)

  ghost function Repr(t: Tree): set<Node> {
    match t
    case Leaf => {}
    case Branch(l, n, _, r) => {n} + Repr(l) + Repr(r)
  }

  /** No node occurs twice. */
  ghost predicate Distinct(t: Tree) {
    match t
    case Leaf => true
    case Branch(l, n, _, r) => Distinct(l) && Distinct(r) && n !in Repr(l) && n !in Repr(r) && Repr(l) !! Repr(r)
  }

  /** The nodes linked from n are those of t, with its values and its shape. */
  ghost predicate Is(n: Node?, t: Tree)
    reads Repr(t)
    ensures Is(n, t) ==> (n == null <==> t.Leaf?) && (t.Branch? ==> n == t.node && n in Repr(t))
  {
    match t
    case Leaf => n == null
    case Branch(l, m, v, r) => n == m && m.Value == v && Is(m.Left, l) && Is(m.Right, r)
  }

  lemma {:induction false} NodesExist(t: Tree)
    ensures forall o <- Repr(t) :: allocated(o)
  {
    if t.Branch? {
      NodesExist(t.left);
      NodesExist(t.right);
    }
  }

  ghost function HeightOf(t: Tree): nat {
    if t.Leaf? then 0 else Max(HeightOf(t.left), HeightOf(t.right)) + 1
  }

  ghost function Size(t: Tree): nat {
    if t.Leaf? then 0 else Size(t.left) + 1 + Size(t.right)
  }

  ghost function Inorder(t: Tree): seq<Entry> {
    match t
    case Leaf => []
    case Branch(l, n, v, r) => Inorder(l) + [Entry(n, v)] + Inorder(r)
  }

  ghost predicate Sorted(s: seq<Entry>) {
    forall i, j :: 0 <= i < j < |s| ==> s[i].value <= s[j].value
  }

  ghost predicate Balanced(t: Tree) {
    match t
    case Leaf => true
    case Branch(l, _, _, r) => Balanced(l) && Balanced(r) && -1 <= HeightOf(l) - HeightOf(r) <= 1
  }

  // ---------------------------------------------------------------- rotations

  ghost function RotatedLeft(t: Tree): Tree
    requires t.Branch? && t.right.Branch?
  {
    t.right.(left := t.(right := t.right.left))
  }

  ghost function RotatedRight(t: Tree): Tree
    requires t.Branch? && t.left.Branch?
  {
    t.left.(right := t.(left := t.left.right))
  }

  /** The same entries in the same order, in the same nodes. */
  ghost predicate SameNodes(t: Tree, t': Tree) {
    Inorder(t) == Inorder(t') && Repr(t) == Repr(t') && (Distinct(t) <==> Distinct(t'))
  }

  lemma RotationOrder(a: Tree, m: Node, v: int, b: Tree, n: Node, w: int, c: Tree)
    ensures Inorder(Branch(a, m, v, Branch(b, n, w, c))) == Inorder(Branch(Branch(a, m, v, b), n, w, c))
  {
    var x, y := [Entry(m, v)], [Entry(n, w)];
    assert Inorder(Branch(b, n, w, c)) == Inorder(b) + y + Inorder(c);
    assert Inorder(Branch(a, m, v, b)) == Inorder(a) + x + Inorder(b);
    assert Inorder(a) + x + (Inorder(b) + y + Inorder(c)) == (Inorder(a) + x + Inorder(b)) + y + Inorder(c);
  }

  lemma RotationRepr(a: Tree, m: Node, v: int, b: Tree, n: Node, w: int, c: Tree)
    ensures Repr(Branch(a, m, v, Branch(b, n, w, c))) == Repr(Branch(Branch(a, m, v, b), n, w, c))
    ensures Distinct(Branch(a, m, v, Branch(b, n, w, c))) <==> Distinct(Branch(Branch(a, m, v, b), n, w, c))
  {
    var low, high := Branch(a, m, v, b), Branch(b, n, w, c);
    assert Repr(high) == {n} + Repr(b) + Repr(c);
    assert Repr(low) == {m} + Repr(a) + Repr(b);
    assert Distinct(high) == (Distinct(b) && Distinct(c) && n !in Repr(b) && n !in Repr(c) && Repr(b) !! Repr(c));
    assert Distinct(low) == (Distinct(a) && Distinct(b) && m !in Repr(a) && m !in Repr(b) && Repr(a) !! Repr(b));
  }

  lemma RotatedLeftKeeps(t: Tree)
    requires t.Branch? && t.right.Branch?
    ensures SameNodes(RotatedLeft(t), t)
  {
    RotationOrder(t.left, t.node, t.value, t.right.left, t.right.node, t.right.value, t.right.right);
    RotationRepr(t.left, t.node, t.value, t.right.left, t.right.node, t.right.value, t.right.right);
  }

  lemma RotatedRightKeeps(t: Tree)
    requires t.Branch? && t.left.Branch?
    ensures SameNodes(RotatedRight(t), t)
  {
    RotationOrder(t.left.left, t.left.node, t.left.value, t.left.right, t.node, t.value, t.right);
    RotationRepr(t.left.left, t.left.node, t.left.value, t.left.right, t.node, t.value, t.right);
  }

  lemma SameInBranch(t: Tree, l: Tree, r: Tree)
    requires t.Branch? && SameNodes(l, t.left) && SameNodes(r, t.right)
    ensures SameNodes(t.(left := l, right := r), t)
  {
  }

  /** The rebalancing at one node, after an insertion below it. */
  ghost function Rebalanced(t: Tree): Tree
    requires t.Branch?
  {
    var l, r := t.left, t.right;
    if HeightOf(r) - HeightOf(l) > 1 then
      RotatedLeft(if HeightOf(r.right) < HeightOf(r.left) then t.(right := RotatedRight(r)) else t)
    else if HeightOf(l) - HeightOf(r) > 1 then
      RotatedRight(if HeightOf(l.left) < HeightOf(l.right) then t.(left := RotatedLeft(l)) else t)
    else t
  }

  ghost function Inserted(t: Tree, node: Node, value: int): Tree {
    match t
    case Leaf => Branch(Leaf, node, value, Leaf)
    case Branch(l, n, v, r) =>
      Rebalanced(if value < v then t.(left := Inserted(l, node, value)) else t.(right := Inserted(r, node, value)))
  }

  lemma RebalancedKeeps(t: Tree)
    requires t.Branch?
    ensures SameNodes(Rebalanced(t), t)
  {
    if HeightOf(t.right) - HeightOf(t.left) > 1 {
      if HeightOf(t.right.right) < HeightOf(t.right.left) {
        RotatedRightKeeps(t.right);
        SameInBranch(t, t.left, RotatedRight(t.right));
        RotatedLeftKeeps(t.(right := RotatedRight(t.right)));
      } else {
        RotatedLeftKeeps(t);
      }
    } else if HeightOf(t.left) - HeightOf(t.right) > 1 {
      if HeightOf(t.left.left) < HeightOf(t.left.right) {
        RotatedLeftKeeps(t.left);
        SameInBranch(t, RotatedLeft(t.left), t.right);
        RotatedRightKeeps(t.(left := RotatedLeft(t.left)));
      } else {
        RotatedRightKeeps(t);
      }
    }
  }

  // ---------------------------------------------------------------- the order of the entries

  /** Sorted insertion, after all entries with an equal value. */
  ghost function InsertedAfterEquals(s: seq<Entry>, x: Entry): seq<Entry> {
    if s == [] then [x]
    else if x.value < s[0].value then [x] + s
    else [s[0]] + InsertedAfterEquals(s[1..], x)
  }

  /** The entries with one value, in their order. */
  ghost function WithValue(s: seq<Entry>, v: int): seq<Entry> {
    if s == [] then []
    else if s[0].value == v then [s[0]] + WithValue(s[1..], v)
    else WithValue(s[1..], v)
  }

  lemma {:induction false} InsertionKeepsEntries(s: seq<Entry>, x: Entry)
    ensures multiset(InsertedAfterEquals(s, x)) == multiset(s) + multiset{x}
  {
    if s != [] {
      assert s == [s[0]] + s[1..];
      if s[0].value <= x.value {
        InsertionKeepsEntries(s[1..], x);
      }
    }
  }

  lemma {:induction false} InsertionSorts(s: seq<Entry>, x: Entry)
    requires Sorted(s)
    ensures Sorted(InsertedAfterEquals(s, x))
  {
    if s != [] && s[0].value <= x.value {
      var rest := InsertedAfterEquals(s[1..], x);
      InsertionSorts(s[1..], x);
      InsertionKeepsEntries(s[1..], x);
      forall i | 0 <= i < |rest| ensures s[0].value <= rest[i].value {
        assert rest[i] in multiset(s[1..]) + multiset{x};
      }
    }
  }

  /** The insertion splits the sequence at the first larger value. */
  lemma {:induction false} InsertionPoint(s: seq<Entry>, x: Entry) returns (k: nat)
    ensures k <= |s| && InsertedAfterEquals(s, x) == s[..k] + [x] + s[k..] && (k < |s| ==> x.value < s[k].value)
  {
    if s == [] || x.value < s[0].value {
      k := 0;
    } else {
      var k' := InsertionPoint(s[1..], x);
      k := k' + 1;
      assert s[..k] == [s[0]] + s[1..][..k'] && s[k..] == s[1..][k'..];
    }
  }

  lemma {:induction false} WithValueConcat(a: seq<Entry>, b: seq<Entry>, v: int)
    ensures WithValue(a + b, v) == WithValue(a, v) + WithValue(b, v)
  {
    if a == [] {
      assert a + b == b;
    } else {
      assert (a + b)[1..] == a[1..] + b;
      WithValueConcat(a[1..], b, v);
    }
  }

  lemma WithValueOne(x: Entry, v: int)
    ensures WithValue([x], v) == if x.value == v then [x] else []
  {
    assert [x][1..] == [];
  }

  /** Insertion keeps the order among equal values. */
  lemma InsertionIsStable(s: seq<Entry>, x: Entry, v: int)
    requires Sorted(s)
    ensures WithValue(InsertedAfterEquals(s, x), v) == WithValue(s + [x], v)
  {
    var k := InsertionPoint(s, x);
    assert s == s[..k] + s[k..];
    WithValueConcat(s, [x], v);
    WithValueOne(x, v);
    if x.value == v {
      SortedTail(s, k, v);
      LargerHasNone(s[k..], v);
    }
    PlacedAnywhere(s[..k], x, s[k..], v);
  }

  /** A value has its own entries in their order, wherever an entry of it stands before larger ones. */
  lemma PlacedAnywhere(a: seq<Entry>, x: Entry, b: seq<Entry>, v: int)
    requires x.value == v ==> WithValue(b, v) == []
    ensures WithValue(a + [x] + b, v) == WithValue(a + b, v) + WithValue([x], v)
  {
    WithValueConcat(a + [x], b, v);
    WithValueConcat(a, [x], v);
    WithValueConcat(a, b, v);
    WithValueOne(x, v);
  }

  lemma SortedTail(s: seq<Entry>, k: nat, v: int)
    requires Sorted(s) && k <= |s| && (k < |s| ==> v < s[k].value)
    ensures forall i :: 0 <= i < |s[k..]| ==> v < s[k..][i].value
  {
  }

  lemma {:induction false} LargerHasNone(s: seq<Entry>, v: int)
    requires forall i :: 0 <= i < |s| ==> v < s[i].value
    ensures WithValue(s, v) == []
  {
    if s != [] {
      LargerHasNone(s[1..], v);
    }
  }

  lemma {:induction false} InsertIntoConcat(a: seq<Entry>, y: Entry, b: seq<Entry>, x: Entry)
    requires forall i :: 0 <= i < |a| ==> a[i].value <= y.value
    ensures InsertedAfterEquals(a + [y] + b, x) ==
            if x.value < y.value then InsertedAfterEquals(a, x) + [y] + b
            else a + [y] + InsertedAfterEquals(b, x)
  {
    var s := a + [y] + b;
    if a == [] {
      assert s[0] == y && s[1..] == b;
      assert a + [y] == [y];
    } else {
      assert s[0] == a[0] && s[1..] == a[1..] + [y] + b;
      InsertIntoConcat(a[1..], y, b, x);
    }
  }

  lemma SortedParts(a: seq<Entry>, y: Entry, b: seq<Entry>)
    requires Sorted(a + [y] + b)
    ensures Sorted(a) && Sorted(b)
    ensures forall i :: 0 <= i < |a| ==> a[i].value <= y.value
    ensures forall i :: 0 <= i < |b| ==> y.value <= b[i].value
  {
    var s := a + [y] + b;
    assert forall i :: 0 <= i < |a| ==> s[i] == a[i];
    assert s[|a|] == y;
    assert forall i :: 0 <= i < |b| ==> s[|a| + 1 + i] == b[i];
  }

  /** Insertion into the tree is sorted insertion into its in-order sequence. */
  lemma {:induction false} InsertedInorder(t: Tree, node: Node, value: int)
    requires Sorted(Inorder(t))
    ensures Inorder(Inserted(t, node, value)) == InsertedAfterEquals(Inorder(t), Entry(node, value))
  {
    match t
    case Leaf =>
    case Branch(l, n, v, r) =>
      SortedParts(Inorder(l), Entry(n, v), Inorder(r));
      InsertIntoConcat(Inorder(l), Entry(n, v), Inorder(r), Entry(node, value));
      if value < v {
        InsertedInorder(l, node, value);
        RebalancedKeeps(t.(left := Inserted(l, node, value)));
      } else {
        InsertedInorder(r, node, value);
        RebalancedKeeps(t.(right := Inserted(r, node, value)));
      }
  }

  lemma {:induction false} InsertedRepr(t: Tree, node: Node, value: int)
    requires Distinct(t) && node !in Repr(t)
    ensures Distinct(Inserted(t, node, value)) && Repr(Inserted(t, node, value)) == Repr(t) + {node}
  {
    match t
    case Leaf =>
    case Branch(l, _, v, r) =>
      if value < v {
        InsertedRepr(l, node, value);
        RebalancedKeeps(t.(left := Inserted(l, node, value)));
      } else {
        InsertedRepr(r, node, value);
        RebalancedKeeps(t.(right := Inserted(r, node, value)));
      }
  }

  // ---------------------------------------------------------------- the balance

  /** A subtree that grew by one level leans to one side; otherwise one rotation could not repair its parent. */
  ghost predicate Grew(t: Tree, t': Tree) {
    && t'.Branch? && Balanced(t')
    && (HeightOf(t') == HeightOf(t)
        || (HeightOf(t') == HeightOf(t) + 1 && (t.Leaf? || HeightOf(t'.left) != HeightOf(t'.right))))
  }

  lemma RebalancedRight(t: Tree, r': Tree)
    requires t.Branch? && Balanced(t) && Grew(t.right, r')
    ensures Grew(t, Rebalanced(t.(right := r')))
  {
    if HeightOf(r') - HeightOf(t.left) > 1 {
      if HeightOf(r'.right) < HeightOf(r'.left) {
        DoubleLeft(t, r');
      } else {
        SingleLeft(t, r');
      }
    }
  }

  lemma SingleLeft(t: Tree, r': Tree)
    requires t.Branch? && Balanced(t) && Grew(t.right, r')
    requires HeightOf(r') - HeightOf(t.left) > 1 && HeightOf(r'.right) >= HeightOf(r'.left)
    ensures Grew(t, RotatedLeft(t.(right := r')))
  {
    var low := t.(right := r'.left);
    assert Balanced(low) && HeightOf(low) == HeightOf(t.left) + 1;
  }

  /** Both halves of a doubly rotated subtree are equally high. */
  lemma Halved(t': Tree, h: nat)
    requires t'.Branch? && Balanced(t'.left) && Balanced(t'.right)
    requires HeightOf(t'.left) == h && HeightOf(t'.right) == h
    ensures Balanced(t') && HeightOf(t') == h + 1
  {
  }

  lemma Heights(t: Tree)
    requires t.Branch? && Balanced(t)
    ensures HeightOf(t.left) < HeightOf(t) <= HeightOf(t.left) + 2
    ensures HeightOf(t.right) < HeightOf(t) <= HeightOf(t.right) + 2
    ensures HeightOf(t.left) == HeightOf(t) - 1 || HeightOf(t.right) == HeightOf(t) - 1
  {
  }

  lemma DoubleLeft(t: Tree, r': Tree)
    requires t.Branch? && Balanced(t) && Grew(t.right, r')
    requires HeightOf(r') - HeightOf(t.left) > 1 && HeightOf(r'.right) < HeightOf(r'.left)
    ensures Grew(t, RotatedLeft(t.(right := RotatedRight(r'))))
  {
    var h, m := HeightOf(t.left), r'.left;
    var low, high := t.(right := m.left), r'.(left := m.right);
    Heights(t);
    Heights(r');
    Heights(m);
    assert HeightOf(t) == h + 2 && HeightOf(r') == h + 2 && HeightOf(m) == h + 1 && HeightOf(r'.right) == h;
    assert Balanced(low) && HeightOf(low) == h + 1;
    assert Balanced(high) && HeightOf(high) == h + 1;
    Halved(m.(left := low, right := high), h + 1);
  }

  lemma SingleRight(t: Tree, l': Tree)
    requires t.Branch? && Balanced(t) && Grew(t.left, l')
    requires HeightOf(l') - HeightOf(t.right) > 1 && HeightOf(l'.left) >= HeightOf(l'.right)
    ensures Grew(t, RotatedRight(t.(left := l')))
  {
    var low := t.(left := l'.right);
    assert Balanced(low) && HeightOf(low) == HeightOf(t.right) + 1;
  }

  lemma DoubleRight(t: Tree, l': Tree)
    requires t.Branch? && Balanced(t) && Grew(t.left, l')
    requires HeightOf(l') - HeightOf(t.right) > 1 && HeightOf(l'.left) < HeightOf(l'.right)
    ensures Grew(t, RotatedRight(t.(left := RotatedLeft(l'))))
  {
    var h, m := HeightOf(t.right), l'.right;
    var low, high := l'.(right := m.left), t.(left := m.right);
    Heights(t);
    Heights(l');
    Heights(m);
    assert HeightOf(t) == h + 2 && HeightOf(l') == h + 2 && HeightOf(m) == h + 1 && HeightOf(l'.left) == h;
    assert Balanced(low) && HeightOf(low) == h + 1;
    assert Balanced(high) && HeightOf(high) == h + 1;
    Halved(m.(left := low, right := high), h + 1);
  }

  lemma RebalancedLeft(t: Tree, l': Tree)
    requires t.Branch? && Balanced(t) && Grew(t.left, l')
    ensures Grew(t, Rebalanced(t.(left := l')))
  {
    if HeightOf(l') - HeightOf(t.right) > 1 {
      if HeightOf(l'.left) < HeightOf(l'.right) {
        DoubleRight(t, l');
      } else {
        SingleRight(t, l');
      }
    }
  }

  lemma {:induction false} InsertedGrows(t: Tree, node: Node, value: int)
    requires Balanced(t)
    ensures Grew(t, Inserted(t, node, value))
  {
    match t
    case Leaf =>
    case Branch(l, _, v, r) =>
      if value < v {
        InsertedGrows(l, node, value);
        RebalancedLeft(t, Inserted(l, node, value));
      } else {
        InsertedGrows(r, node, value);
        RebalancedRight(t, Inserted(r, node, value));
      }
  }

  ghost function Fib(n: nat): nat {
    if n < 2 then n else Fib(n - 1) + Fib(n - 2)
  }

  lemma {:induction false} FibGrows(m: nat, n: nat)
    requires m <= n
    ensures Fib(m) <= Fib(n)
    decreases n
  {
    if m < n && n >= 2 {
      FibGrows(if m == n - 1 then m else m, n - 1);
    }
  }

  lemma FibOfHalves(a: nat, b: nat)
    requires -1 <= a - b <= 1
    ensures Fib(Max(a, b) + 3) <= Fib(a + 2) + Fib(b + 2)
  {
    var h := Max(a, b);
    assert Fib(h + 3) == Fib(h + 2) + Fib(h + 1);
    FibGrows(h + 1, a + 2);
    FibGrows(h + 1, b + 2);
  }

  /** A balanced tree of height h has at least Fib(h + 2) - 1 nodes. */
  lemma {:induction false} BalancedIsFull(t: Tree)
    requires Balanced(t)
    ensures Size(t) + 1 >= Fib(HeightOf(t) + 2)
  {
    if t.Branch? {
      BalancedIsFull(t.left);
      BalancedIsFull(t.right);
      FibOfHalves(HeightOf(t.left), HeightOf(t.right));
    }
  }

  lemma {:induction false} InorderSize(t: Tree)
    ensures |Inorder(t)| == Size(t)
    ensures forall x :: x in Inorder(t) ==> x.node in Repr(t)
  {
    if t.Branch? {
      InorderSize(t.left);
      InorderSize(t.right);
    }
  }

  // ---------------------------------------------------------------- any sequence of insertions

  ghost function InsertedAll(t: Tree, xs: seq<Entry>): Tree
    decreases |xs|
  {
    if xs == [] then t
    else
      var x := xs[|xs| - 1];
      Inserted(InsertedAll(t, xs[..|xs| - 1]), x.node, x.value)
  }

  lemma {:induction false} AllBalanced(xs: seq<Entry>)
    ensures Balanced(InsertedAll(Leaf, xs))
    decreases |xs|
  {
    if xs != [] {
      var front, x := xs[..|xs| - 1], xs[|xs| - 1];
      AllBalanced(front);
      InsertedGrows(InsertedAll(Leaf, front), x.node, x.value);
    }
  }

  lemma {:induction false} AllSorted(xs: seq<Entry>)
    ensures Sorted(Inorder(InsertedAll(Leaf, xs)))
    decreases |xs|
  {
    if xs != [] {
      var front, x := xs[..|xs| - 1], xs[|xs| - 1];
      var t0 := InsertedAll(Leaf, front);
      AllSorted(front);
      InsertedInorder(t0, x.node, x.value);
      InsertionSorts(Inorder(t0), x);
    }
  }

  lemma {:induction false} WithValueCounts(s: seq<Entry>, e: Entry)
    ensures multiset(s)[e] == multiset(WithValue(s, e.value))[e]
  {
    if s != [] {
      WithValueCounts(s[1..], e);
      assert s == [s[0]] + s[1..];
    }
  }

  /** Sequences with the same entries of each value have the same entries. */
  lemma SameByValue(a: seq<Entry>, b: seq<Entry>)
    requires forall v :: WithValue(a, v) == WithValue(b, v)
    ensures multiset(a) == multiset(b)
  {
    forall e: Entry ensures multiset(a)[e] == multiset(b)[e] {
      WithValueCounts(a, e);
      WithValueCounts(b, e);
    }
  }

  lemma {:induction false} AllStable(xs: seq<Entry>, v: int)
    ensures WithValue(Inorder(InsertedAll(Leaf, xs)), v) == WithValue(xs, v)
    decreases |xs|
  {
    if xs != [] {
      var front, x := xs[..|xs| - 1], xs[|xs| - 1];
      var s := Inorder(InsertedAll(Leaf, front));
      AllStable(front, v);
      AllSorted(front);
      InsertedInorder(InsertedAll(Leaf, front), x.node, x.value);
      InsertionIsStable(s, x, v);
      WithValueConcat(s, [x], v);
      WithValueConcat(front, [x], v);
      assert xs == front + [x];
    }
  }

  /**
    After any sequence of insertions into the empty tree: the tree is balanced, has one node for
    each insertion and few levels, and its in-order sequence is the stable sort of the insertions.
  */
  lemma AllInsertions(xs: seq<Entry>, t: Tree)
    requires t == InsertedAll(Leaf, xs)
    ensures Balanced(t) && Size(t) == |xs| && Fib(HeightOf(t) + 2) <= |xs| + 1
    ensures Sorted(Inorder(t)) && multiset(Inorder(t)) == multiset(xs)
    ensures forall v :: WithValue(Inorder(t), v) == WithValue(xs, v)
  {
    AllBalanced(xs);
    AllSorted(xs);
    BalancedIsFull(t);
    forall v ensures WithValue(Inorder(t), v) == WithValue(xs, v) {
      AllStable(xs, v);
    }
    SameByValue(Inorder(t), xs);
    InorderSize(t);
    assert |multiset(Inorder(t))| == |multiset(xs)|;
  }

  // ---------------------------------------------------------------- nodes

  class Node {
    var Left: Node?
    var Right: Node?
    var Value: int

    constructor (val: int)
      ensures Left == null && Right == null && Value == val
    {
      Value, Left, Right := val, null, null;
    }

    function Height(ghost t: Tree): (h: int)
      requires Is(this, t)
      reads this, Repr(t)
      ensures h == HeightOf(t)
      decreases t
    {
      Max(if Left == null then 0 else Left.Height(t.left), if Right == null then 0 else Right.Height(t.right)) + 1
    }

    function LeftHeight(ghost t: Tree): (h: int)
      requires Is(this, t)
      reads this, Repr(t)
      ensures h == HeightOf(t.left)
    {
      if Left == null then 0 else Left.Height(t.left)
    }

    function RightHeight(ghost t: Tree): (h: int)
      requires Is(this, t)
      reads this, Repr(t)
      ensures h == HeightOf(t.right)
    {
      if Right == null then 0 else Right.Height(t.right)
    }

    method LeftRotate(ghost t: Tree) returns (newRoot: Node)
      requires Is(this, t) && Distinct(t) && t.right.Branch?
      modifies this`Right, Right`Left
      ensures Is(newRoot, RotatedLeft(t))
    {
      newRoot := Right;
      Right := newRoot.Left;
      newRoot.Left := this;
    }

    method RightRotate(ghost t: Tree) returns (newRoot: Node)
      requires Is(this, t) && Distinct(t) && t.left.Branch?
      modifies this`Left, Left`Right
      ensures Is(newRoot, RotatedRight(t))
    {
      newRoot := Left;
      Left := newRoot.Right;
      newRoot.Right := this;
    }

    /** Succeeds exactly when some node below holds the value, and returns such a node. */
    function Search(value: int, ghost t: Tree): (r: Node?)
      requires Is(this, t) && Sorted(Inorder(t))
      reads this, Repr(t)
      ensures r != null ==> Entry(r, value) in Inorder(t)
      ensures r == null ==> forall x :: x in Inorder(t) ==> x.value != value
      decreases t
    {
      ghost var y := Entry(this, Value);
      SortedParts(Inorder(t.left), y, Inorder(t.right));
      if Value == value then this
      else if Value > value then
        if Left == null then null else Left.Search(value, t.left)
      else
        if Right == null then null else Right.Search(value, t.right)
    }
  }

  class BST {
    var root: Node?
    ghost var tree: Tree

    ghost predicate Valid()
      reads this, Repr(tree)
    {
      Is(root, tree) && Distinct(tree) && Balanced(tree) && Sorted(Inorder(tree))
    }

    constructor (r: Node?, ghost t: Tree)
      requires Is(r, t) && Distinct(t) && Balanced(t) && Sorted(Inorder(t))
      ensures Valid() && tree == t
    {
      root, tree := r, t;
    }

    method Search(value: int) returns (r: Node?)
      requires Valid()
      ensures r != null ==> Entry(r, value) in Inorder(tree)
      ensures r == null ==> forall x :: x in Inorder(tree) ==> x.value != value
    {
      if root == null {
        r := null;
      } else {
        r := root.Search(value, tree);
      }
    }

    method AddNode(node: Node)
      requires Valid() && node !in Repr(tree) && node.Left == null && node.Right == null
      modifies this, Repr(tree)`Left, Repr(tree)`Right, node`Left, node`Right
      ensures Valid() && Repr(tree) == Repr(old(tree)) + {node}
      ensures tree == Inserted(old(tree), node, node.Value)
      ensures Inorder(tree) == InsertedAfterEquals(Inorder(old(tree)), Entry(node, node.Value))
    {
      InsertedInorder(tree, node, node.Value);
      InsertedRepr(tree, node, node.Value);
      InsertedGrows(tree, node, node.Value);
      InsertionSorts(Inorder(tree), Entry(node, node.Value));
      ghost var t' := Inserted(tree, node, node.Value);
      if root == null {
        root := node;
      } else {
        root := Add(root, node, tree);
      }
      tree := t';
    }

    method Add(pNode: Node?, node: Node, ghost t: Tree) returns (p: Node)
      requires Is(pNode, t) && Distinct(t) && node !in Repr(t) && node.Left == null && node.Right == null
      modifies Repr(t)`Left, Repr(t)`Right, node`Left, node`Right
      ensures Is(p, Inserted(t, node, node.Value))
      decreases t, 1
    {
      if pNode == null {
        return node;
      }
      ghost var t1 := AddBelow(pNode, node, t);
      p := Rebalance(pNode, t1);
    }

    /** The first half of Add: the recursion into one of the subtrees. */
    method AddBelow(pNode: Node, node: Node, ghost t: Tree) returns (ghost t1: Tree)
      requires Is(pNode, t) && Distinct(t) && node !in Repr(t) && node.Left == null && node.Right == null
      modifies Repr(t)`Left, Repr(t)`Right, node`Left, node`Right
      ensures t1.Branch? && Inserted(t, node, node.Value) == Rebalanced(t1)
      ensures Is(pNode, t1) && Distinct(t1) && Repr(t1) == Repr(t) + {node}
      decreases t, 0
    {
      if node.Value < pNode.Value {
        t1 := t.(left := Inserted(t.left, node, node.Value));
        InsertedRepr(t.left, node, node.Value);
        NodesExist(t.right);
        var l := Add(pNode.Left, node, t.left);
        assert Is(pNode.Right, t.right);
        pNode.Left := l;
      } else {
        t1 := t.(right := Inserted(t.right, node, node.Value));
        InsertedRepr(t.right, node, node.Value);
        NodesExist(t.left);
        var r := Add(pNode.Right, node, t.right);
        assert Is(pNode.Left, t.left);
        pNode.Right := r;
      }
    }

    /** The second half of Add: at most two rotations. */
    method Rebalance(pNode: Node, ghost t: Tree) returns (p: Node)
      requires Is(pNode, t) && Distinct(t)
      modifies Repr(t)`Left, Repr(t)`Right
      ensures Is(p, Rebalanced(t))
    {
      if pNode.RightHeight(t) - pNode.LeftHeight(t) > 1 {
        p := LiftRight(pNode, t);
      } else if pNode.LeftHeight(t) - pNode.RightHeight(t) > 1 {
        p := LiftLeft(pNode, t);
      } else {
        p := pNode;
      }
    }

    method LiftRight(pNode: Node, ghost t: Tree) returns (p: Node)
      requires Is(pNode, t) && Distinct(t) && HeightOf(t.right) - HeightOf(t.left) > 1
      modifies Repr(t)`Left, Repr(t)`Right
      ensures Is(p, Rebalanced(t))
    {
      ghost var t1 := t;
      if pNode.Right != null && pNode.Right.RightHeight(t.right) < pNode.Right.LeftHeight(t.right) {
        t1 := t.(right := RotatedRight(t.right));
        RotatedRightKeeps(t.right);
        assert pNode.Right in Repr(t.right) && pNode.Right.Left in Repr(t.right);
        NodesExist(t.left);
        var r := pNode.Right.RightRotate(t.right);
        assert Is(pNode.Left, t.left) && Is(r, t1.right);
        pNode.Right := r;
        assert Is(pNode, t1) && Distinct(t1);
      }
      p := pNode.LeftRotate(t1);
    }

    method LiftLeft(pNode: Node, ghost t: Tree) returns (p: Node)
      requires Is(pNode, t) && Distinct(t) && HeightOf(t.left) - HeightOf(t.right) > 1
      modifies Repr(t)`Left, Repr(t)`Right
      ensures Is(p, Rebalanced(t))
    {
      ghost var t1 := t;
      if pNode.Left != null && pNode.Left.LeftHeight(t.left) < pNode.Left.RightHeight(t.left) {
        t1 := t.(left := RotatedLeft(t.left));
        RotatedLeftKeeps(t.left);
        assert pNode.Left in Repr(t.left) && pNode.Left.Right in Repr(t.left);
        NodesExist(t.right);
        var l := pNode.Left.LeftRotate(t.left);
        assert Is(pNode.Right, t.right) && Is(l, t1.left);
        pNode.Left := l;
        assert Is(pNode, t1) && Distinct(t1);
      }
      p := pNode.RightRotate(t1);
    }
  }
}
