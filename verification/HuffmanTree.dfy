/**
  Huffman trees: the codes a scan assigns to the leaves, and decoding by walking the tree.
  A bit string is a sequence of booleans; `true` is the character '1' and goes right.
*/
module HuffmanTree {
  import opened Wrappers

  type Byte = b: int | 0 <= b < 256 witness 0

  type Bits = seq<bool>

  /** A node carries a byte exactly when it is a leaf. An inner node may lack its left child. */
  datatype Node =
    | Leaf(c: Byte, weight: nat)
    | Inner(left: Option<Node>, right: Node, weight: nat)

  function Symbols(t: Node): set<Byte> {
    match t
    case Leaf(c, _) => {c}
    case Inner(l, r, _) => (if l.Some? then Symbols(l.value) else {}) + Symbols(r)
  }

  /** How many leaves carry byte b. */
  function LeafCount(t: Node, b: Byte): nat {
    match t
    case Leaf(c, _) => if c == b then 1 else 0
    case Inner(l, r, _) => (if l.Some? then LeafCount(l.value, b) else 0) + LeafCount(r, b)
  }

  ghost predicate DistinctLeaves(t: Node) {
    forall b :: LeafCount(t, b) <= 1
  }

  lemma {:induction false} SymbolsAreCounted(t: Node, b: Byte)
    ensures b in Symbols(t) <==> LeafCount(t, b) >= 1
  {
    match t
    case Leaf(_, _) =>
    case Inner(l, r, _) =>
      if l.Some? {
        SymbolsAreCounted(l.value, b);
      }
      SymbolsAreCounted(r, b);
  }

  // ---------------------------------------------------------------- codes

  /** The turns from the node to the leaf of b. */
  function Path(t: Node, b: Byte): Bits
    requires b in Symbols(t)
  {
    match t
    case Leaf(_, _) => []
    case Inner(l, r, _) =>
      if l.Some? && b in Symbols(l.value) then [false] + Path(l.value, b) else [true] + Path(r, b)
  }

  /** The scan of a tree: it adds one entry per leaf, and adding a byte twice would throw. */
  method ScanTree(node: Node, code: Bits, known: map<Byte, Bits>) returns (codes: map<Byte, Bits>)
    requires DistinctLeaves(node) && known.Keys !! Symbols(node)
    ensures codes.Keys == known.Keys + Symbols(node)
    ensures forall b :: b in known ==> codes[b] == known[b]
    ensures forall b :: b in Symbols(node) ==> codes[b] == code + Path(node, b)
    decreases node
  {
    match node
    case Leaf(c, _) =>
      codes := known[c := code];
      assert code + [] == code;
    case Inner(l, r, _) =>
      codes := known;
      BranchesAreDisjoint(node);
      if l.Some? {
        codes := ScanTree(l.value, code + [false], codes);
      }
      codes := ScanTree(r, code + [true], codes);
      forall b | b in Symbols(node) ensures codes[b] == code + Path(node, b) {
        if l.Some? && b in Symbols(l.value) {
          OneTurn(code, false, Path(l.value, b));
        } else {
          OneTurn(code, true, Path(r, b));
        }
      }
  }

  lemma OneTurn(code: Bits, turn: bool, rest: Bits)
    ensures code + [turn] + rest == code + ([turn] + rest)
  {
  }

  lemma BranchesAreDisjoint(t: Node)
    requires t.Inner? && DistinctLeaves(t)
    ensures DistinctLeaves(t.right)
    ensures t.left.Some? ==> DistinctLeaves(t.left.value) && Symbols(t.left.value) !! Symbols(t.right)
  {
    forall b ensures LeafCount(t.right, b) <= 1 && (t.left.Some? ==> LeafCount(t.left.value, b) <= 1) {
      assert LeafCount(t, b) <= 1;
    }
    if t.left.Some? {
      forall b | b in Symbols(t.left.value) ensures b !in Symbols(t.right) {
        assert LeafCount(t, b) <= 1;
        SymbolsAreCounted(t.left.value, b);
        SymbolsAreCounted(t.right, b);
      }
    }
  }

  ghost predicate IsPrefix(p: Bits, q: Bits) {
    p <= q
  }

  ghost predicate PrefixFree(codes: map<Byte, Bits>) {
    forall a, b :: a in codes && b in codes && a != b ==> !IsPrefix(codes[a], codes[b])
  }

  lemma {:induction false} PathsPrefixFree(t: Node, a: Byte, b: Byte)
    requires DistinctLeaves(t) && a in Symbols(t) && b in Symbols(t) && a != b
    ensures !(Path(t, a) <= Path(t, b))
  {
    if t.Inner? {
      BranchesAreDisjoint(t);
      var l, r := t.left, t.right;
      var aLeft, bLeft := l.Some? && a in Symbols(l.value), l.Some? && b in Symbols(l.value);
      assert Path(t, a)[0] == !aLeft && Path(t, b)[0] == !bLeft;
      if aLeft == bLeft {
        var child := if aLeft then l.value else r;
        PathsPrefixFree(child, a, b);
        assert Path(t, a)[1..] == Path(child, a) && Path(t, b)[1..] == Path(child, b);
      }
    }
  }

  // ---------------------------------------------------------------- encoding and decoding

  function Encode(codes: map<Byte, Bits>, buffer: seq<Byte>): Bits
    requires forall b :: b in buffer ==> b in codes
  {
    if buffer == [] then [] else codes[buffer[0]] + Encode(codes, buffer[1..])
  }

  /** The codes a complete scan yields. */
  function Codes(t: Node): map<Byte, Bits> {
    map b | b in Symbols(t) :: Path(t, b)
  }

  /** Walk from `cur`, restarting at the root after each leaf; leaving the tree throws. */
  function Decode(root: Node, cur: Node, bits: Bits): Result<seq<Byte>>
    decreases |bits|
  {
    if bits == [] then Ok([])
    else if cur.Leaf? || (!bits[0] && cur.left.None?) then Err
    else
      var next := if bits[0] then cur.right else cur.left.value;
      if next.Inner? then Decode(root, next, bits[1..])
      else
        match Decode(root, root, bits[1..])
        case Ok(rest) => Ok([next.c] + rest)
        case Err => Err
  }

  lemma {:induction false} DecodeOneCode(root: Node, cur: Node, b: Byte, rest: Bits)
    requires cur.Inner? && b in Symbols(cur)
    ensures Decode(root, cur, Path(cur, b) + rest) ==
            match Decode(root, root, rest)
            case Ok(out) => Ok([b] + out)
            case Err => Err
    decreases cur
  {
    var goLeft := cur.left.Some? && b in Symbols(cur.left.value);
    var next := if goLeft then cur.left.value else cur.right;
    var bits := Path(cur, b) + rest;
    assert bits == [!goLeft] + (Path(next, b) + rest);
    assert bits[1..] == Path(next, b) + rest;
    if next.Inner? {
      DecodeOneCode(root, next, b, rest);
    } else {
      assert Path(next, b) + rest == rest;
    }
  }

  /** A walk that reaches no leaf and never leaves the tree. */
  ghost predicate StaysInside(n: Node, path: Bits)
    decreases |path|
  {
    && n.Inner?
    && (path != [] ==> if path[0] then StaysInside(n.right, path[1..])
                       else n.left.Some? && StaysInside(n.left.value, path[1..]))
  }

  lemma {:induction false} NoLeafNoOutput(root: Node, cur: Node, tail: Bits)
    requires StaysInside(cur, tail)
    ensures Decode(root, cur, tail) == Ok([])
    decreases |tail|
  {
    if tail != [] {
      NoLeafNoOutput(root, if tail[0] then cur.right else cur.left.value, tail[1..]);
    }
  }

  lemma {:induction false} DecodeWithTail(root: Node, buffer: seq<Byte>, tail: Bits)
    requires StaysInside(root, tail) && forall b :: b in buffer ==> b in Symbols(root)
    ensures Decode(root, root, Encode(Codes(root), buffer) + tail) == Ok(buffer)
  {
    if buffer == [] {
      NoLeafNoOutput(root, root, tail);
      assert [] + tail == tail;
    } else {
      var code, rest := Path(root, buffer[0]), Encode(Codes(root), buffer[1..]);
      DecodeWithTail(root, buffer[1..], tail);
      DecodeOneCode(root, root, buffer[0], rest + tail);
      assert code + rest + tail == code + (rest + tail);
      assert [buffer[0]] + buffer[1..] == buffer;
    }
  }

  /** Decoding an encoded buffer gives the buffer back. */
  lemma DecodeEncode(root: Node, buffer: seq<Byte>)
    requires root.Inner? && forall b :: b in buffer ==> b in Symbols(root)
    ensures Decode(root, root, Encode(Codes(root), buffer)) == Ok(buffer)
  {
    var bits := Encode(Codes(root), buffer);
    DecodeWithTail(root, buffer, []);
    assert bits + [] == bits;
  }

  /** What a decoding started at `cur` has read, according to its output. */
  function Consumed(root: Node, cur: Node, out: seq<Byte>): Bits
    requires forall b :: b in out ==> b in Symbols(root)
    requires out != [] ==> out[0] in Symbols(cur)
  {
    if out == [] then [] else Path(cur, out[0]) + Encode(Codes(root), out[1..])
  }

  /** A decoding started at `cur` reads the codes of its output, and then bits that stay inside the tree. */
  ghost predicate Reads(root: Node, cur: Node, bits: Bits, out: seq<Byte>, tail: Bits) {
    && (forall b :: b in out ==> b in Symbols(root)) && (out != [] ==> out[0] in Symbols(cur))
    && bits == Consumed(root, cur, out) + tail && StaysInside(if out == [] then cur else root, tail)
  }

  lemma {:induction false} DecodeReadsItsOutput(root: Node, cur: Node, bits: Bits, out: seq<Byte>) returns (tail: Bits)
    requires DistinctLeaves(cur) && DistinctLeaves(root) && root.Inner? && cur.Inner? && Symbols(cur) <= Symbols(root)
    requires Decode(root, cur, bits) == Ok(out)
    ensures Reads(root, cur, bits, out, tail)
    decreases |bits|
  {
    tail := [];
    if bits != [] {
      var next := if bits[0] then cur.right else cur.left.value;
      BranchesAreDisjoint(cur);
      if next.Inner? {
        tail := DecodeReadsItsOutput(root, next, bits[1..], out);
        if out == [] {
          assert tail == bits[1..];
          tail := bits;
          assert [] + bits == bits;
        } else {
          TurnRead(root, cur, next, bits, out, tail);
        }
      } else {
        var rest := Decode(root, root, bits[1..]).value;
        tail := DecodeReadsItsOutput(root, root, bits[1..], rest);
        assert rest != [] ==> Consumed(root, root, rest) == Encode(Codes(root), rest);
        LeafRead(root, cur, next, bits, rest, tail);
      }
    }
  }

  /** The child that the first bit leads to. */
  ghost predicate Turns(cur: Node, next: Node, bits: Bits) {
    && bits != [] && cur.Inner? && DistinctLeaves(cur)
    && if bits[0] then next == cur.right else cur.left == Some(next)
  }

  lemma FirstTurn(cur: Node, next: Node, bits: Bits, b: Byte)
    requires Turns(cur, next, bits) && b in Symbols(next)
    ensures b in Symbols(cur) && Path(cur, b) == [bits[0]] + Path(next, b)
  {
    BranchesAreDisjoint(cur);
  }

  lemma TurnRead(root: Node, cur: Node, next: Node, bits: Bits, out: seq<Byte>, tail: Bits)
    requires Turns(cur, next, bits) && out != [] && Reads(root, next, bits[1..], out, tail)
    ensures Reads(root, cur, bits, out, tail)
  {
    FirstTurn(cur, next, bits, out[0]);
    assert bits == [bits[0]] + bits[1..];
  }

  lemma LeafRead(root: Node, cur: Node, next: Node, bits: Bits, rest: seq<Byte>, tail: Bits)
    requires Turns(cur, next, bits) && next.Leaf? && next.c in Symbols(root)
    requires Reads(root, root, bits[1..], rest, tail)
    ensures Reads(root, cur, bits, [next.c] + rest, tail)
  {
    FirstTurn(cur, next, bits, next.c);
    var out := [next.c] + rest;
    assert out[1..] == rest && bits == [bits[0]] + bits[1..];
    assert Consumed(root, root, rest) == Encode(Codes(root), rest);
  }

  /** The bits are the encoding of a buffer, and bits that lead to no further leaf. */
  ghost predicate Spells(root: Node, bits: Bits, buffer: seq<Byte>) {
    && (forall b :: b in buffer ==> b in Symbols(root))
    && Encode(Codes(root), buffer) <= bits && StaysInside(root, bits[|Encode(Codes(root), buffer)|..])
  }

  /** Any bits at all: they are decoded to a buffer exactly if they spell it, and throw if they spell none. */
  lemma DecodedIffSpelled(root: Node, bits: Bits, buffer: seq<Byte>)
    requires DistinctLeaves(root) && root.Inner?
    ensures Decode(root, root, bits) == Ok(buffer) <==> Spells(root, bits, buffer)
  {
    if Decode(root, root, bits) == Ok(buffer) {
      var tail := DecodeReadsItsOutput(root, root, bits, buffer);
      assert Consumed(root, root, buffer) == Encode(Codes(root), buffer);
    }
    if Spells(root, bits, buffer) {
      var code := Encode(Codes(root), buffer);
      DecodeWithTail(root, buffer, bits[|code|..]);
      assert bits == code + bits[|code|..];
    }
  }
}
