/**
  Bit packing. The encoder reverses the bit string and copies it into bytes, lowest bit first;
  the decoder prints each byte in binary and joins the texts in reverse order. Only the text of
  the last byte is not of fixed width.
*/
module HuffmanBits {
  import opened Wrappers
  import opened HuffmanTree

  function Reverse<T>(s: seq<T>): (r: seq<T>)
    ensures |r| == |s|
  {
    if s == [] then [] else Reverse(s[1..]) + [s[0]]
  }

  lemma {:induction false} ReverseConcat<T>(a: seq<T>, b: seq<T>)
    ensures Reverse(a + b) == Reverse(b) + Reverse(a)
  {
    if a == [] {
      assert a + b == b;
    } else {
      ReverseConcat(a[1..], b);
      var x, y, z := Reverse(b), Reverse(a[1..]), [a[0]];
      assert (a + b)[1..] == a[1..] + b && (a + b)[0] == a[0];
      assert x + y + z == x + (y + z);
    }
  }

  lemma {:induction false} ReverseTwice<T>(s: seq<T>)
    ensures Reverse(Reverse(s)) == s
  {
    if s != [] {
      ReverseTwice(s[1..]);
      ReverseConcat(Reverse(s[1..]), [s[0]]);
      assert [s[0]][1..] == [];
      assert Reverse([s[0]]) == [s[0]];
    }
  }

  function Pow2(n: nat): nat {
    if n == 0 then 1 else 2 * Pow2(n - 1)
  }

  /** The number a bit string spells, most significant bit first. */
  function Value(bits: Bits): nat {
    if bits == [] then 0 else 2 * Value(bits[..|bits| - 1]) + if bits[|bits| - 1] then 1 else 0
  }

  lemma {:induction false} ValueBound(bits: Bits)
    ensures Value(bits) < Pow2(|bits|)
  {
    if bits != [] {
      ValueBound(bits[..|bits| - 1]);
    }
  }

  /** Bit strings of one width are told apart by their values. */
  lemma {:induction false} ValueInjective(a: Bits, b: Bits)
    requires |a| == |b| && Value(a) == Value(b)
    ensures a == b
  {
    if a != [] {
      var m := |a| - 1;
      ValueInjective(a[..m], b[..m]);
      assert a == a[..m] + [a[m]] && b == b[..m] + [b[m]];
    }
  }

  // ---------------------------------------------------------------- bytes to text

  /** Conversion to base 2 without leading zeros; zero is the single digit 0. */
  function ToBinary(n: nat): (bits: Bits)
    ensures |bits| >= 1
  {
    if n < 2 then [n == 1] else ToBinary(n / 2) + [n % 2 == 1]
  }

  lemma {:induction false} ToBinaryIsExact(n: nat)
    ensures Value(ToBinary(n)) == n
    ensures n >= 1 ==> ToBinary(n)[0] && Pow2(|ToBinary(n)| - 1) <= n
  {
    if n < 2 {
      assert ToBinary(n)[..0] == [];
    } else {
      ToBinaryIsExact(n / 2);
      var high := ToBinary(n / 2);
      assert ToBinary(n)[..|high|] == high;
    }
  }

  function Zeros(n: nat): (z: Bits)
    ensures |z| == n
  {
    seq(n, _ => false)
  }

  function PadLeft(bits: Bits, width: nat): Bits {
    if |bits| >= width then bits else Zeros(width - |bits|) + bits
  }

  lemma {:induction false} LeadingZeros(k: nat, bits: Bits)
    ensures Value(Zeros(k) + bits) == Value(bits)
  {
    var s := Zeros(k) + bits;
    if bits != [] {
      assert s[..|s| - 1] == Zeros(k) + bits[..|bits| - 1];
      LeadingZeros(k, bits[..|bits| - 1]);
    } else if k > 0 {
      assert s[..k - 1] == Zeros(k - 1) + [];
      LeadingZeros(k - 1, []);
    }
  }

  lemma {:induction false} Pow2Monotonic(a: nat, b: nat)
    requires a <= b
    ensures Pow2(a) <= Pow2(b)
  {
    if a < b {
      Pow2Monotonic(a, b - 1);
    }
  }

  lemma BinaryWidth(bits: Bits)
    requires bits != []
    ensures |ToBinary(Value(bits))| <= |bits|
  {
    var t := ToBinary(Value(bits));
    ValueBound(bits);
    if Value(bits) >= 1 && |t| > |bits| {
      ToBinaryIsExact(Value(bits));
      Pow2Monotonic(|bits|, |t| - 1);
    } else if Value(bits) == 0 {
      assert |t| == 1;
    }
  }

  /** Padding the digits back to the width they had restores the bit string. */
  lemma PaddedBinary(bits: Bits)
    requires bits != []
    ensures PadLeft(ToBinary(Value(bits)), |bits|) == bits
  {
    var t := ToBinary(Value(bits));
    BinaryWidth(bits);
    ToBinaryIsExact(Value(bits));
    LeadingZeros(|bits| - |t|, t);
    assert |t| == |bits| ==> Zeros(0) + t == t;
    ValueInjective(PadLeft(t, |bits|), bits);
  }

  /** Without padding the digits are the bit string exactly when it starts with a one. */
  lemma UnpaddedBinary(bits: Bits)
    requires |bits| >= 2
    ensures bits[0] ==> ToBinary(Value(bits)) == bits
    ensures !bits[0] ==> |ToBinary(Value(bits))| < |bits|
  {
    var t := ToBinary(Value(bits));
    BinaryWidth(bits);
    PaddedBinary(bits);
    ToBinaryIsExact(Value(bits));
    if |t| < |bits| {
      assert PadLeft(t, |bits|)[0] == false;
    }
  }

  // ---------------------------------------------------------------- packing

  /** Copying a bit array into bytes: bit i goes to bit i mod 8 of byte i div 8. */
  function Pack(bits: Bits): (bytes: seq<Byte>)
    ensures |bytes| == (|bits| + 7) / 8
    decreases |bits|
  {
    if bits == [] then []
    else
      var low := if |bits| <= 8 then bits else bits[..8];
      ByteOf(low);
      [Value(Reverse(low))] + Pack(bits[|low|..])
  }

  lemma ByteOf(low: Bits)
    requires |low| <= 8
    ensures Value(Reverse(low)) < 256
  {
    ValueBound(Reverse(low));
    Pow2Monotonic(|low|, 8);
    assert Pow2(8) == 256 by {
      assert Pow2(4) == 16;
    }
  }

  /** The binary digit of weight 2 to the k. */
  function Digit(n: nat, k: nat): nat {
    if k == 0 then n % 2 else Digit(n / 2, k - 1)
  }

  lemma {:induction false} NoDigits(k: nat)
    ensures Digit(0, k) == 0
  {
    if k > 0 {
      NoDigits(k - 1);
    }
  }

  lemma {:induction false} ReversedDigit(low: Bits, k: nat)
    ensures Digit(Value(Reverse(low)), k) == if k < |low| && low[k] then 1 else 0
    decreases |low|
  {
    if low == [] {
      NoDigits(k);
    } else {
      var front := Reverse(low[1..]);
      assert Reverse(low) == front + [low[0]];
      assert (front + [low[0]])[..|front|] == front;
      if k > 0 {
        ReversedDigit(low[1..], k - 1);
        assert Value(Reverse(low)) / 2 == Value(front);
      }
    }
  }

  /** Bit 8j + k is the digit of weight 2 to the k of byte j, and there are no other digits. */
  lemma {:induction false} PackedBit(bits: Bits, j: nat, k: nat)
    requires j < |Pack(bits)| && k < 8
    ensures Digit(Pack(bits)[j], k) == if 8 * j + k < |bits| && bits[8 * j + k] then 1 else 0
    decreases |bits|
  {
    if j == 0 {
      ReversedDigit(if |bits| <= 8 then bits else bits[..8], k);
    } else {
      PackedBit(bits[8..], j - 1, k);
    }
  }

  /** The remainder of C#, which truncates toward zero. */
  function Rem(a: int, b: int): int
    requires b > 0
  {
    if a >= 0 then a % b else -((-a) % b)
  }

  /** The text of one byte. A negative width makes the padding throw. */
  function ByteToBitString(b: Byte, isLast: bool, bitLength: int): Result<Bits> {
    if isLast then
      if Rem(bitLength, 8) < 0 then Err else Ok(PadLeft(ToBinary(b), Rem(bitLength, 8)))
    else
      var t := ToBinary(b + 256);
      if |t| < 8 then Err else Ok(t[|t| - 8..])
  }

  /** The texts of all bytes, last byte first. */
  function Unpack(bytes: seq<Byte>, bitLength: int): Result<Bits> {
    if bytes == [] then Ok([])
    else
      match (Unpack(bytes[1..], bitLength), ByteToBitString(bytes[0], |bytes| == 1, bitLength))
      case (Ok(high), Ok(low)) => Ok(high + low)
      case _ => Err
  }

  lemma WideBinary(bits: Bits)
    requires |bits| == 8
    ensures ToBinary(Value(bits) + 256) == [true] + bits
  {
    WideValue(bits);
    UnpaddedBinary([true] + bits);
  }

  lemma FullByteText(bits: Bits, b: Byte, bitLength: int)
    requires |bits| == 8 && b == Value(bits)
    ensures ByteToBitString(b, false, bitLength) == Ok(bits)
  {
    WideBinary(bits);
    assert ([true] + bits)[1..] == bits;
  }

  lemma {:induction false} WideValue(bits: Bits)
    ensures Value([true] + bits) == Pow2(|bits|) + Value(bits)
    ensures |bits| == 8 ==> Pow2(|bits|) == 256
  {
    var wide := [true] + bits;
    if bits == [] {
      assert wide[..0] == [];
    } else {
      WideValue(bits[..|bits| - 1]);
      assert wide[..|wide| - 1] == [true] + bits[..|bits| - 1];
    }
    if |bits| == 8 {
      assert Pow2(4) == 16;
    }
  }

  /** What unpacking a packed bit string of n bits yields. */
  function Recovered(bits: Bits): Bits
    requires bits != []
  {
    if |bits| % 8 == 0 then ToBinary(Value(bits[..8])) + bits[8..] else bits
  }

  lemma PackOne(rev: Bits)
    requires 1 <= |rev| <= 8
    ensures Pack(rev) == [Value(Reverse(rev))]
  {
    assert rev[|rev|..] == [];
  }

  lemma UnpackOne(b: Byte, bitLength: nat)
    ensures Unpack([b], bitLength) == Ok(PadLeft(ToBinary(b), bitLength % 8))
  {
    var text := PadLeft(ToBinary(b), bitLength % 8);
    assert [b][1..] == [];
    assert [] + text == text;
  }

  lemma UnpackLast(rev: Bits, bitLength: nat)
    requires 1 <= |rev| <= 8 && |rev| % 8 == bitLength % 8
    ensures Unpack(Pack(rev), bitLength) == Ok(Recovered(Reverse(rev)))
  {
    var bits := Reverse(rev);
    PackOne(rev);
    UnpackOne(Pack(rev)[0], bitLength);
    if |rev| < 8 {
      PaddedBinary(bits);
    } else {
      assert bits[..8] == bits && bits[8..] == [];
      ConcatNothing(ToBinary(Value(bits)));
    }
  }

  lemma ConcatNothing(a: Bits)
    ensures a + [] == a
  {
  }

  lemma RecoveredConcat(high: Bits, low: Bits)
    requires high != [] && |low| == 8
    ensures Recovered(high + low) == Recovered(high) + low
  {
    if |high| % 8 == 0 {
      SplitConcat(high, low, 8);
      ConcatAssociative(ToBinary(Value(high[..8])), high[8..], low);
    }
  }

  lemma SplitConcat(a: Bits, b: Bits, k: nat)
    requires k <= |a|
    ensures (a + b)[..k] == a[..k] && (a + b)[k..] == a[k..] + b
  {
  }

  lemma ConcatAssociative(a: Bits, b: Bits, c: Bits)
    ensures a + (b + c) == a + b + c
  {
  }

  lemma {:induction false} UnpackPack(rev: Bits, bitLength: nat)
    requires rev != [] && |rev| % 8 == bitLength % 8
    ensures Unpack(Pack(rev), bitLength) == Ok(Recovered(Reverse(rev)))
    decreases |rev|
  {
    if |rev| <= 8 {
      UnpackLast(rev, bitLength);
    } else {
      var low, tail, bytes := rev[..8], rev[8..], Pack(rev);
      UnpackPack(tail, bitLength);
      assert bytes[1..] == Pack(tail) && bytes[0] == Value(Reverse(low));
      FullByteText(Reverse(low), bytes[0], bitLength);
      assert rev == low + tail;
      ReverseConcat(low, tail);
      RecoveredConcat(Reverse(tail), Reverse(low));
    }
  }

  /** Packing loses bits exactly when there are whole bytes only and the first bit is zero. */
  lemma PackedBitsRecovered(bits: Bits)
    requires bits != []
    ensures |bits| % 8 != 0 || bits[0] ==> Recovered(bits) == bits
    ensures |bits| % 8 == 0 && !bits[0] ==> |Recovered(bits)| < |bits|
  {
    if |bits| % 8 == 0 {
      UnpaddedBinary(bits[..8]);
      assert bits == bits[..8] + bits[8..];
    }
  }
}
