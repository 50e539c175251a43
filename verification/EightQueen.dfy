/**
  Counting the placements of queens: a search over a board that sets and clears one cell per row.
  The placement of the first rows is a sequence of columns.
*/
module EightQueen {
  import opened Helpers

  type Placement = seq<nat>

  ghost predicate Attacks(i: nat, a: nat, j: nat, b: nat) {
    a == b || a - b == i - j || a - b == j - i
  }

  /** One queen in each of the first rows, and no two attack each other. */
  ghost predicate Peaceful(q: Placement) {
    forall i, j :: 0 <= i < j < |q| ==> !Attacks(i, q[i], j, q[j])
  }

  /** The queens of the rows before attack column x of the next row. */
  ghost predicate Attacked(q: Placement, x: nat) {
    exists i :: 0 <= i < |q| && Attacks(i, q[i], |q|, x)
  }

  /** One column below n for each of k rows. */
  ghost function Placements(n: nat, k: nat): set<Placement> {
    if k == 0 then {[]} else set q, x | q in Placements(n, k - 1) && x in NaturalsBelow(n) :: q + [x]
  }

  lemma {:induction false} PlacementsAreAll(n: nat, k: nat, q: Placement)
    ensures q in Placements(n, k) <==> |q| == k && forall i :: 0 <= i < k ==> q[i] < n
    decreases k
  {
    if k > 0 {
      if |q| == k {
        var front := q[..k - 1];
        assert q == front + [q[k - 1]];
        PlacementsAreAll(n, k - 1, front);
      }
      if q in Placements(n, k) {
        var front, x :| front in Placements(n, k - 1) && x in NaturalsBelow(n) && q == front + [x];
        PlacementsAreAll(n, k - 1, front);
      }
    }
  }

  /** All peaceful placements on the whole board. */
  ghost function Solutions(n: nat): set<Placement> {
    set q | q in Placements(n, n) && Peaceful(q)
  }

  /** Those that begin with the rows placed so far. */
  ghost function Completions(n: nat, prefix: Placement): set<Placement> {
    set q | q in Solutions(n) && prefix <= q
  }

  /** Those that put the next queen into a column below x. */
  ghost function CompletionsBelow(n: nat, prefix: Placement, x: nat): set<Placement>
    requires |prefix| < n
  {
    set q | q in Completions(n, prefix) && |prefix| < |q| && q[|prefix|] < x
  }

  lemma NextColumn(n: nat, prefix: Placement, x: nat)
    requires |prefix| < n
    ensures |CompletionsBelow(n, prefix, x + 1)| == |CompletionsBelow(n, prefix, x)| + |Completions(n, prefix + [x])|
  {
    var all, before := CompletionsBelow(n, prefix, x + 1), CompletionsBelow(n, prefix, x);
    var now := Completions(n, prefix + [x]);
    forall q ensures q in all <==> q in before || q in now {
      PlacementsAreAll(n, n, q);
      if q in now {
        assert prefix == (prefix + [x])[..|prefix|];
        assert q[|prefix|] == x;
      }
      if q in all && q[|prefix|] == x {
        assert q[..|prefix| + 1] == prefix + [x];
      }
    }
    forall q ensures !(q in before && q in now) {
      if q in now {
        assert q[|prefix|] == x;
      }
    }
    assert all == before + now && before !! now;
  }

  lemma AllColumns(n: nat, prefix: Placement)
    requires |prefix| < n
    ensures CompletionsBelow(n, prefix, n) == Completions(n, prefix) && CompletionsBelow(n, prefix, 0) == {}
  {
    forall q | q in Completions(n, prefix) ensures q in CompletionsBelow(n, prefix, n) {
      PlacementsAreAll(n, n, q);
    }
  }

  /** A row without a peaceful continuation leads to no solution. */
  lemma AttackedHasNone(n: nat, prefix: Placement, x: nat)
    requires Attacked(prefix, x)
    ensures Completions(n, prefix + [x]) == {}
  {
    var next := prefix + [x];
    forall q | next <= q ensures !Peaceful(q) {
      var i :| 0 <= i < |prefix| && Attacks(i, prefix[i], |prefix|, x);
      assert q[i] == next[i] && q[|prefix|] == next[|prefix|];
    }
  }

  lemma NotAttackedIsPeaceful(prefix: Placement, x: nat)
    requires Peaceful(prefix)
    ensures Peaceful(prefix + [x]) <==> !Attacked(prefix, x)
  {
    var next := prefix + [x];
    if !Attacked(prefix, x) {
      forall i, j | 0 <= i < j < |next| ensures !Attacks(i, next[i], j, next[j]) {
      }
    } else {
      var i :| 0 <= i < |prefix| && Attacks(i, prefix[i], |prefix|, x);
      assert Attacks(i, next[i], |prefix|, next[|prefix|]);
    }
  }

  lemma FullBoard(n: nat, q: Placement)
    requires |q| == n && Peaceful(q) && forall i :: 0 <= i < n ==> q[i] < n
    ensures Completions(n, q) == {q}
  {
    PlacementsAreAll(n, n, q);
    forall p | p in Completions(n, q) ensures p == q {
      PlacementsAreAll(n, n, p);
      assert p == p[..n];
    }
  }

  lemma EmptyBoard(n: nat)
    ensures Completions(n, []) == Solutions(n)
  {
  }

  /** The board holds the queens of the placed rows, and nothing else. */
  ghost predicate Holds(board: array2<bool>, prefix: Placement)
    reads board
  {
    && board.Length0 == board.Length1 >= |prefix|
    && (forall i :: 0 <= i < |prefix| ==> prefix[i] < board.Length1)
    && (forall y, x :: 0 <= y < board.Length0 && 0 <= x < board.Length1 ==>
          (board[y, x] <==> y < |prefix| && prefix[y] == x))
  }

  class Solution {
    constructor () {
    }

    method TotalNQueens(n: nat) returns (count: nat)
      ensures count == |Solutions(n)|
    {
      var board := new bool[n, n]((y, x) => false);
      EmptyBoard(n);
      count := SearchQueen(board, 0, 0, 0, []);
    }

    method IsContaineQueens(board: array2<bool>, xPos: nat, yPos: nat, ghost prefix: Placement) returns (r: bool)
      requires Holds(board, prefix) && |prefix| == yPos < board.Length0 && xPos < board.Length1
      ensures r <==> Attacked(prefix, xPos)
    {
      var n := board.Length0;
      var x: int, y: int := xPos, yPos;
      while x >= 0
        invariant -1 <= x <= xPos
      {
        if board[yPos, x] { return true; }
        x := x - 1;
      }
      while y >= 0
        invariant -1 <= y <= yPos && forall i :: y < i < yPos ==> prefix[i] != xPos
      {
        if board[y, xPos] {
          assert Attacks(y, prefix[y], yPos, xPos);
          return true;
        }
        y := y - 1;
      }
      y, x := yPos, xPos;
      while y >= 0 && x >= 0
        invariant -1 <= y <= yPos && -1 <= x && x - y == xPos - yPos
        invariant forall i :: y < i < yPos ==> prefix[i] != xPos - (yPos - i)
      {
        if board[y, x] {
          assert Attacks(y, prefix[y], yPos, xPos);
          return true;
        }
        y, x := y - 1, x - 1;
      }
      assert forall i :: 0 <= i < yPos ==> prefix[i] != xPos - (yPos - i);
      y, x := yPos, xPos;
      while y >= 0 && x < n
        invariant -1 <= y <= yPos && 0 <= x <= n && x + y == xPos + yPos
        invariant forall i :: y < i < yPos ==> prefix[i] != xPos + (yPos - i)
      {
        if board[y, x] {
          assert Attacks(y, prefix[y], yPos, xPos);
          return true;
        }
        y, x := y - 1, x + 1;
      }
      assert forall i :: 0 <= i < yPos ==> prefix[i] != xPos + (yPos - i);
      return false;
    }

    /** Counts the completions of the placed rows, and leaves the board as it was. */
    method SearchQueen(board: array2<bool>, xPos: nat, yPos: nat, count0: nat, ghost prefix: Placement)
      returns (count: nat)
      requires Holds(board, prefix) && |prefix| == yPos && Peaceful(prefix)
      modifies board
      ensures Holds(board, prefix) && count == count0 + |Completions(board.Length0, prefix)|
      decreases board.Length0 - yPos, 1
    {
      var n := board.Length0;
      count := count0;
      if yPos == n {
        FullBoard(n, prefix);
        return count + 1;
      }
      AllColumns(n, prefix);
      for x := 0 to n
        invariant Holds(board, prefix) && count == count0 + |CompletionsBelow(n, prefix, x)|
      {
        count := TryColumn(board, x, yPos, count, prefix);
        NextColumn(n, prefix, x);
      }
    }

    /** The body of this loop: the cell is set for the rows below, and cleared. */
    method TryColumn(board: array2<bool>, x: nat, yPos: nat, count0: nat, ghost prefix: Placement) returns (count: nat)
      requires Holds(board, prefix) && |prefix| == yPos < board.Length0 && Peaceful(prefix) && x < board.Length0
      modifies board
      ensures Holds(board, prefix) && count == count0 + |Completions(board.Length0, prefix + [x])|
      decreases board.Length0 - yPos, 0
    {
      count := count0;
      NotAttackedIsPeaceful(prefix, x);
      var attacked := IsContaineQueens(board, x, yPos, prefix);
      if !attacked {
        board[yPos, x] := true;
        assert Holds(board, prefix + [x]);
        count := SearchQueen(board, x, yPos + 1, count, prefix + [x]);
        board[yPos, x] := false;
      } else {
        AttackedHasNone(board.Length0, prefix, x);
      }
    }
  }
}
