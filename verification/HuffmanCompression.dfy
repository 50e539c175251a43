/**
  The compressor: `Zip` builds the tree and packs the codes, `UnZip` unpacks the bytes and walks
  the tree that the last `Zip` left behind.
*/
module HuffmanCompression {
  import opened Wrappers
  import opened HuffmanTree
  import opened HuffmanBits
  import opened HuffmanOptimal
  import opened HuffmanForest

  /** What `Zip` leaves behind: a tree over exactly the bytes of the buffer. */
  ghost predicate BuiltFor(tree: Node, buffer: seq<Byte>) {
    && tree.Inner? && DistinctLeaves(tree) && WellWeighted(tree, buffer)
    && forall b :: b in Symbols(tree) <==> b in buffer
  }

  ghost predicate Encodes(codes: map<Byte, Bits>, buffer: seq<Byte>) {
    forall b :: b in buffer ==> b in codes
  }

  /** No prefix-free code for the bytes of the buffer encodes it in fewer bits. */
  ghost predicate Shortest(bitLength: nat, buffer: seq<Byte>) {
    forall codes :: PrefixFree(codes) && Encodes(codes, buffer) ==> |Encode(codes, buffer)| >= bitLength
  }

  /** No such code without empty words does. */
  ghost predicate ShortestWithWords(bitLength: nat, buffer: seq<Byte>) {
    forall codes :: PrefixFree(codes) && Encodes(codes, buffer) && HasWords(codes, buffer) ==>
      |Encode(codes, buffer)| >= bitLength
  }

  ghost predicate HasWords(codes: map<Byte, Bits>, buffer: seq<Byte>)
    requires Encodes(codes, buffer)
  {
    forall b :: b in buffer ==> codes[b] != []
  }

  /** One bit for each byte, all of them one. */
  ghost predicate AllOnes(bits: Bits, n: nat) {
    |bits| == n && forall i :: 0 <= i < |bits| ==> bits[i]
  }

  ghost predicate TwoDistinctBytes(buffer: seq<Byte>) {
    exists i, j :: 0 <= i < j < |buffer| && buffer[i] != buffer[j]
  }

  function Leaves(tally: Tally): (nodes: seq<Node>)
    ensures |nodes| == |tally|
    ensures forall i :: 0 <= i < |tally| ==> nodes[i] == Leaf(tally[i].0, tally[i].1)
  {
    if tally == [] then [] else [Leaf(tally[0].0, tally[0].1)] + Leaves(tally[1..])
  }

  lemma {:induction false} LeavesCount(tally: Tally, b: Byte)
    ensures Total(Leaves(tally), LeavesWith(b)) == Entries(tally, b)
    ensures Weights(Leaves(tally)) == Counts(tally)
  {
    if tally != [] {
      LeavesCount(tally[1..], b);
      assert Leaves(tally)[1..] == Leaves(tally[1..]);
    }
  }

  lemma {:induction false} TalliedMember(tally: Tally, e: (Byte, nat))
    requires e in tally && forall b :: Entries(tally, b) <= 1
    ensures Tallied(tally, e.0) == e.1
  {
    var rest := tally[1..];
    forall b ensures Entries(rest, b) <= 1 {
      assert Entries(tally, b) <= 1;
    }
    if e in rest {
      EntriesMember(rest, e);
      assert Entries(tally, e.0) <= 1;
      TalliedMember(rest, e);
    } else {
      assert Entries(tally, e.0) <= 1;
      NotTallied(rest, e.0);
    }
  }

  lemma {:induction false} NotTallied(tally: Tally, b: Byte)
    ensures Entries(tally, b) == 0 ==> Tallied(tally, b) == 0
  {
    if tally != [] {
      NotTallied(tally[1..], b);
    }
  }

  /** The grouped leaves carry the byte counts of the buffer, each byte once. */
  lemma GroupedLeaves(buffer: seq<Byte>)
    ensures var leaves := Leaves(GroupBy([], buffer));
            && (forall t :: t in leaves ==> t.Leaf? && WellWeighted(t, buffer))
            && (forall b :: Total(leaves, LeavesWith(b)) == if b in buffer then 1 else 0)
            && (leaves == [] <==> buffer == [])
  {
    var tally := GroupBy([], buffer);
    forall b ensures Entries(tally, b) == if b in buffer then 1 else 0 {
      GroupByCounts([], buffer, b);
      OccurrencesMember(buffer, b);
    }
    forall b ensures Total(Leaves(tally), LeavesWith(b)) == if b in buffer then 1 else 0 {
      LeavesCount(tally, b);
    }
    forall i | 0 <= i < |tally| ensures WellWeighted(Leaves(tally)[i], buffer) {
      TalliedMember(tally, tally[i]);
      GroupByCounts([], buffer, tally[i].0);
    }
    if buffer != [] {
      assert Entries(tally, buffer[0]) == 1;
    } else {
      assert tally == [];
    }
  }

  lemma {:induction false} TwoEntries(tally: Tally, a: Byte, b: Byte)
    requires a != b
    ensures Entries(tally, a) + Entries(tally, b) <= |tally|
  {
    if tally != [] {
      TwoEntries(tally[1..], a, b);
    }
  }

  /** The lengths of a prefix-free code are a feasible assignment of depths to the counts. */
  lemma CodeIsFeasible(codes: map<Byte, Bits>, buffer: seq<Byte>) returns (ds: seq<nat>, depth: nat)
    requires PrefixFree(codes) && Encodes(codes, buffer)
    ensures |ds| == |GroupBy([], buffer)| && Feasible(ds, depth)
    ensures Cost(Counts(GroupBy([], buffer)), ds) == |Encode(codes, buffer)|
  {
    var tally := GroupBy([], buffer);
    GroupByCost(codes, [], buffer);
    forall b ensures Entries(tally, b) <= 1 {
      GroupByCounts([], buffer, b);
    }
    var cs := CodesOf(codes, tally);
    CodesOfPrefixFree(codes, tally);
    ds, depth := Lengths(cs), MaxLength(cs);
    KraftInequality(cs, depth);
  }

  /** The greedy tree's bit length is minimal over all prefix-free codes. */
  lemma BoundMeansShortest(tree: Node, buffer: seq<Byte>)
    requires BoundedBelow(Weights(Leaves(GroupBy([], buffer))), [tree])
    ensures Shortest(PathLength(tree), buffer)
  {
    var tally := GroupBy([], buffer);
    LeavesCount(tally, 0);
    forall codes | PrefixFree(codes) && Encodes(codes, buffer)
      ensures |Encode(codes, buffer)| >= PathLength(tree)
    {
      var ds, depth := CodeIsFeasible(codes, buffer);
      assert StillDearer(Cost(Counts(tally), ds), [tree]);
      assert [tree][1..] == [];
      assert Total([tree], Length) == PathLength(tree);
    }
  }

  function MaxLength(cs: seq<Bits>): (m: nat)
    ensures forall c :: c in cs ==> |c| <= m
  {
    if cs == [] then 0
    else
      var rest := MaxLength(cs[1..]);
      if |cs[0]| > rest then |cs[0]| else rest
  }

  lemma BuiltBitLength(tree: Node, buffer: seq<Byte>)
    requires BuiltFor(tree, buffer)
    ensures |Encode(Codes(tree), buffer)| == PathLength(tree)
    ensures PrefixFree(Codes(tree))
  {
    PathLengthIsTurns(tree, buffer);
    EncodedLength(tree, buffer);
    forall a, b | a in Symbols(tree) && b in Symbols(tree) && a != b
      ensures !IsPrefix(Codes(tree)[a], Codes(tree)[b])
    {
      PathsPrefixFree(tree, a, b);
    }
  }

  // ---------------------------------------------------------------- a single byte

  /** The tree for a buffer with one distinct byte: a leaf on the right of the root. */
  ghost predicate OneLeafTree(tree: Node) {
    tree.Inner? && tree.left.None? && tree.right.Leaf?
  }

  lemma SeveralLeaves(buffer: seq<Byte>, tally: Tally)
    requires tally == GroupBy([], buffer) && |tally| >= 2
    ensures TwoDistinctBytes(buffer)
  {
    var a, b := tally[0].0, tally[1].0;
    GroupByCounts([], buffer, a);
    GroupByCounts([], buffer, b);
    OccurrencesMember(buffer, a);
    OccurrencesMember(buffer, b);
    assert tally[1] in tally[1..];
    EntriesMember(tally[1..], tally[1]);
    var i, j :| 0 <= i < |buffer| && 0 <= j < |buffer| && buffer[i] == a && buffer[j] == b;
    assert i < j || j < i;
  }

  lemma OneLeaf(buffer: seq<Byte>)
    requires buffer != [] && !TwoDistinctBytes(buffer)
    ensures |Leaves(GroupBy([], buffer))| == 1
  {
    GroupedLeaves(buffer);
    if |GroupBy([], buffer)| >= 2 {
      SeveralLeaves(buffer, GroupBy([], buffer));
    }
  }

  /** One byte, one bit. */
  lemma {:induction false} OneBitEach(tree: Node, buffer: seq<Byte>)
    requires OneLeafTree(tree) && forall b :: b in buffer ==> b in Symbols(tree)
    ensures AllOnes(Encode(Codes(tree), buffer), |buffer|)
  {
    if buffer != [] {
      OneBitEach(tree, buffer[1..]);
      assert buffer[0] in buffer;
      assert Path(tree, buffer[0]) == [true] + Path(tree.right, buffer[0]);
      assert Codes(tree)[buffer[0]] == [true];
    }
  }

  lemma {:induction false} WordsAddUp(codes: map<Byte, Bits>, buffer: seq<Byte>)
    requires Encodes(codes, buffer) && HasWords(codes, buffer)
    ensures |Encode(codes, buffer)| >= |buffer|
  {
    if buffer != [] {
      assert buffer[0] in buffer;
      WordsAddUp(codes, buffer[1..]);
    }
  }

  lemma ZippedLength(tree: Node, buffer: seq<Byte>, bits: Bits)
    requires BuiltFor(tree, buffer) && bits == Encode(Codes(tree), buffer)
    requires if TwoDistinctBytes(buffer) then Shortest(PathLength(tree), buffer) else OneLeafTree(tree)
    ensures ShortestWithWords(|bits|, buffer)
    ensures if TwoDistinctBytes(buffer) then Shortest(|bits|, buffer) else AllOnes(bits, |buffer|)
  {
    BuiltBitLength(tree, buffer);
    if !TwoDistinctBytes(buffer) {
      OneBitEach(tree, buffer);
      OneBitEachIsShortest(buffer);
    }
  }

  lemma OneBitEachIsShortest(buffer: seq<Byte>)
    ensures ShortestWithWords(|buffer|, buffer)
  {
    forall codes | PrefixFree(codes) && Encodes(codes, buffer) && HasWords(codes, buffer)
      ensures |Encode(codes, buffer)| >= |buffer|
    {
      WordsAddUp(codes, buffer);
    }
  }

  // ---------------------------------------------------------------- unpacking

  /** What `UnZip` does with a given tree. */
  function Unzipped(tree: Option<Node>, bytes: seq<Byte>, bitLength: int): Result<seq<Byte>> {
    match Unpack(bytes, bitLength)
    case Err => Err
    case Ok(bits) =>
      if bits == [] then Ok([])
      else if tree.None? then Err
      else Decode(tree.value, tree.value, bits)
  }

  lemma {:induction false} CodesNotEmpty(tree: Node, buffer: seq<Byte>)
    requires BuiltFor(tree, buffer) && buffer != []
    ensures Encode(Codes(tree), buffer) != []
  {
    assert Path(tree, buffer[0]) != [];
  }

  /**
    Unpacking a packed buffer gives it back exactly when the encoding does not fill its last byte
    or starts with a one; otherwise leading zero bits of the encoding are lost.
  */
  lemma RoundTrip(tree: Node, buffer: seq<Byte>)
    requires BuiltFor(tree, buffer) && buffer != []
    ensures var bits := Encode(Codes(tree), buffer);
            bits != [] &&
            (Unzipped(Some(tree), Pack(Reverse(bits)), |bits|) == Ok(buffer)
             <==> |bits| % 8 != 0 || bits[0])
  {
    var bits := Encode(Codes(tree), buffer);
    CodesNotEmpty(tree, buffer);
    UnpackPack(Reverse(bits), |bits|);
    ReverseTwice(bits);
    PackedBitsRecovered(bits);
    DecodeEncode(tree, buffer);
    var got := Recovered(bits);
    assert got != [];
    if Decode(tree, tree, got) == Ok(buffer) {
      DecodedIffSpelled(tree, got, buffer);
    }
  }

  /** Every inner node separates at least two bytes. */
  lemma {:induction false} InnerHasTwo(t: Node)
    requires LighterRight(t) && DistinctLeaves(t)
    ensures |Symbols(t)| >= if t.Inner? then 2 else 1
  {
    if t.Inner? {
      BranchesAreDisjoint(t);
      InnerHasTwo(t.left.value);
      InnerHasTwo(t.right);
      assert |Symbols(t)| == |Symbols(t.left.value)| + |Symbols(t.right)|;
    }
  }

  const LOSSY: seq<Byte> := [1, 1, 1, 1, 1, 2, 2, 2]

  /** Of two bytes, the rarer one goes to the right. */
  lemma TwoLeafTree(tree: Node, buffer: seq<Byte>)
    requires BuiltFor(tree, buffer) && LighterRight(tree) && forall b :: b in buffer <==> b == 1 || b == 2
    requires Occurrences(buffer, 1) == 5 && Occurrences(buffer, 2) == 3
    ensures tree == Inner(Some(Leaf(1, 5)), Leaf(2, 3), 8)
  {
    var l, r := tree.left.value, tree.right;
    assert Symbols(tree) == {1, 2};
    BranchesAreDisjoint(tree);
    InnerHasTwo(l);
    InnerHasTwo(r);
    assert |Symbols(tree)| == |Symbols(l)| + |Symbols(r)|;
    assert l.Leaf? && r.Leaf?;
    assert Symbols(l) == {l.c} && Symbols(r) == {r.c} && l.c != r.c;
    assert l.c in Symbols(tree) && r.c in Symbols(tree);
    assert WellWeighted(l, buffer) && WellWeighted(r, buffer);
    assert l.weight == Occurrences(buffer, l.c) && r.weight == Occurrences(buffer, r.c);
  }

  lemma LossyCounts()
    ensures Occurrences(LOSSY, 1) == 5 && Occurrences(LOSSY, 2) == 3 && forall b :: b in LOSSY <==> b == 1 || b == 2
  {
    assert LOSSY[0] == 1 && LOSSY[5] == 2;
    assert LOSSY == [1, 1, 1, 1, 1] + [2, 2, 2];
    OccurrencesConcat([1, 1, 1, 1, 1], [2, 2, 2], 1);
    OccurrencesConcat([1, 1, 1, 1, 1], [2, 2, 2], 2);
  }

  /** The lossy case is real: whatever tree is left behind for this buffer, it does not come back. */
  lemma RoundTripFails(tree: Node)
    requires BuiltFor(tree, LOSSY) && LighterRight(tree)
    ensures var bits := Encode(Codes(tree), LOSSY);
            Unzipped(Some(tree), Pack(Reverse(bits)), |bits|) != Ok(LOSSY)
  {
    LossyCounts();
    TwoLeafTree(tree, LOSSY);
    BuiltBitLength(tree, LOSSY);
    assert PathLength(tree) == 8;
    RoundTrip(tree, LOSSY);
    assert Path(tree, 1)[0] == false;
  }

  lemma {:induction false} OccurrencesConcat(a: seq<Byte>, b: seq<Byte>, x: Byte)
    ensures Occurrences(a + b, x) == Occurrences(a, x) + Occurrences(b, x)
  {
    if a == [] {
      assert a + b == b;
    } else {
      OccurrencesConcat(a[1..], b, x);
      assert (a + b)[1..] == a[1..] + b;
    }
  }

  // ---------------------------------------------------------------- the class

  class Compression {
    var huffmanCodes: map<Byte, Bits>
    var huffmanTree: Option<Node>

    constructor ()
      ensures huffmanTree == None
    {
      huffmanCodes, huffmanTree := map[], None;
    }

    /** An empty buffer throws before any field is written. */
    method Zip(buffer: seq<Byte>) returns (r: Result<(seq<Byte>, nat)>)
      modifies this
      ensures r.Err? <==> buffer == []
      ensures r.Err? ==> huffmanTree == old(huffmanTree) && huffmanCodes == old(huffmanCodes)
      ensures r.Ok? ==> huffmanTree.Some? && BuiltFor(huffmanTree.value, buffer)
      ensures r.Ok? ==> huffmanCodes == Codes(huffmanTree.value)
      ensures r.Ok? ==> var bits := Encode(Codes(huffmanTree.value), buffer);
                        r.value == (Pack(Reverse(bits)), |bits|)
      ensures r.Ok? ==> ShortestWithWords(r.value.1, buffer)
      ensures r.Ok? && TwoDistinctBytes(buffer) ==> Shortest(r.value.1, buffer) && LighterRight(huffmanTree.value)
      ensures r.Ok? && !TwoDistinctBytes(buffer) ==> AllOnes(Encode(huffmanCodes, buffer), |buffer|)
    {
      var created := BuildTree(buffer);
      if created.Err? {
        return Err;
      }
      var tree := created.value;
      huffmanTree := Some(tree);
      huffmanCodes := ScanTree(tree, [], map[]);
      ScannedCodes(tree, huffmanCodes);
      var bits := Encode(huffmanCodes, buffer);
      ZippedLength(tree, buffer, bits);
      return Ok((Pack(Reverse(bits)), |bits|));
    }

    static lemma ScannedCodes(tree: Node, codes: map<Byte, Bits>)
      requires codes.Keys == Symbols(tree) && forall b :: b in Symbols(tree) ==> codes[b] == [] + Path(tree, b)
      ensures codes == Codes(tree)
    {
      forall b | b in Symbols(tree) ensures codes[b] == Path(tree, b) {
        assert [] + Path(tree, b) == Path(tree, b);
      }
    }

    /** Group, count and merge. */
    method BuildTree(buffer: seq<Byte>) returns (r: Result<Node>)
      ensures r.Err? <==> buffer == []
      ensures r.Ok? ==> BuiltFor(r.value, buffer)
      ensures r.Ok? && TwoDistinctBytes(buffer) ==> Shortest(PathLength(r.value), buffer) && LighterRight(r.value)
      ensures r.Ok? && !TwoDistinctBytes(buffer) ==> OneLeafTree(r.value)
    {
      GroupedLeaves(buffer);
      var nodeList := Leaves(GroupBy([], buffer));
      r := CreateHuffmanTree(nodeList, buffer);
      if r.Ok? {
        forall b ensures LeafCount(r.value, b) <= 1 && (b in Symbols(r.value) <==> b in buffer) {
          SymbolsAreCounted(r.value, b);
        }
        if TwoDistinctBytes(buffer) {
          TwoLeaves(buffer);
          BoundMeansShortest(r.value, buffer);
        } else {
          OneLeaf(buffer);
        }
      }
    }

    static lemma TwoLeaves(buffer: seq<Byte>)
      requires TwoDistinctBytes(buffer)
      ensures |Leaves(GroupBy([], buffer))| >= 2
    {
      var i, j :| 0 <= i < j < |buffer| && buffer[i] != buffer[j];
      GroupByCounts([], buffer, buffer[i]);
      GroupByCounts([], buffer, buffer[j]);
      OccurrencesMember(buffer, buffer[i]);
      OccurrencesMember(buffer, buffer[j]);
      TwoEntries(GroupBy([], buffer), buffer[i], buffer[j]);
    }

    /** Moves a cursor down the tree; a missing tree or child throws. */
    method UnZip(bytes: seq<Byte>, bitLength: int) returns (r: Result<seq<Byte>>)
      ensures r == Unzipped(huffmanTree, bytes, bitLength)
    {
      var text := Unpack(bytes, bitLength);
      if text.Err? {
        return Err;
      }
      var bitString := text.value;
      var output: seq<Byte> := [];
      var cur := huffmanTree;
      assert bitString[0..] == bitString && forall out: seq<Byte> :: [] + out == out;
      for i := 0 to |bitString|
        invariant cur.Some? || (i == 0 && output == [])
        invariant huffmanTree.Some? <==> cur.Some?
        invariant huffmanTree.None? || OnTrack(huffmanTree.value, cur.value, bitString, i, output)
      {
        if cur.None? || cur.value.Leaf? || (!bitString[i] && cur.value.left.None?) {
          return Err;
        }
        assert bitString[i..][1..] == bitString[i + 1..];
        var root := huffmanTree.value;
        cur := if bitString[i] then Some(cur.value.right) else cur.value.left;
        if cur.value.Leaf? {
          PrependOne(output, cur.value.c, Decode(root, root, bitString[i + 1..]));
          output := output + [cur.value.c];
          cur := huffmanTree;
        }
      }
      assert bitString[|bitString|..] == [];
      assert output + [] == output;
      return Ok(output);
    }

    static function Prepend(output: seq<Byte>, rest: Result<seq<Byte>>): Result<seq<Byte>> {
      match rest
      case Ok(out) => Ok(output + out)
      case Err => Err
    }

    /** The output so far and what is still to be decoded make up the whole result. */
    static ghost predicate OnTrack(root: Node, cur: Node, bits: Bits, i: nat, output: seq<Byte>)
      requires i <= |bits|
    {
      Prepend(output, Decode(root, cur, bits[i..])) == Decode(root, root, bits)
    }

    static lemma PrependOne(output: seq<Byte>, c: Byte, rest: Result<seq<Byte>>)
      ensures Prepend(output + [c], rest) == Prepend(output, Prepend([c], rest))
    {
      if rest.Ok? {
        assert output + [c] + rest.value == output + ([c] + rest.value);
      }
    }
  }
}
