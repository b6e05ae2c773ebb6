/** Bytes and machine words as sequences of bits. */
module Bits {
  import opened Words

  /** A byte is its eight bits, the most significant one first. */
  datatype Byte = Byte(b0: bool, b1: bool, b2: bool, b3: bool, b4: bool, b5: bool, b6: bool, b7: bool)

  const ZERO_BYTE := Byte(false, false, false, false, false, false, false, false)

  function Xor(a: Byte, b: Byte): Byte {
    Byte(a.b0 != b.b0, a.b1 != b.b1, a.b2 != b.b2, a.b3 != b.b3, a.b4 != b.b4, a.b5 != b.b5, a.b6 != b.b6, a.b7 != b.b7)
  }

  lemma XorAssociative(a: Byte, b: Byte, c: Byte)
    ensures Xor(Xor(a, b), c) == Xor(a, Xor(b, c))
  {
  }

  lemma XorInverse(a: Byte, b: Byte)
    ensures Xor(a, b) == Xor(b, a)
    ensures Xor(a, ZERO_BYTE) == a && Xor(a, a) == ZERO_BYTE
  {
  }

  /** What is folded in twice disappears. */
  lemma XorCancels(a: Byte, b: Byte)
    ensures Xor(Xor(a, b), b) == a
  {
    XorAssociative(a, b, b);
    XorInverse(b, b);
    XorInverse(a, b);
  }

  /** A machine word is its bits, the most significant one first. */
  type Word = seq<bool>

  function Zeros(n: nat): (w: Word)
    ensures |w| == n && forall k :: 0 <= k < n ==> !w[k]
  {
    seq(n, _ => false)
  }

  type Word64 = w: Word | |w| == 64 witness Zeros(64)

  function Shl(w: Word, n: nat): (r: Word)
    requires n <= |w|
    ensures |r| == |w| && forall k :: 0 <= k < |w| ==> r[k] == (k + n < |w| && w[k + n])
  {
    w[n..] + Zeros(n)
  }

  function Shr(w: Word, n: nat): (r: Word)
    requires n <= |w|
    ensures |r| == |w| && forall k :: 0 <= k < |w| ==> r[k] == (k >= n && w[k - n])
  {
    Zeros(n) + w[..|w| - n]
  }

  function Or(a: Word, b: Word): (r: Word)
    requires |a| == |b|
    ensures |r| == |a| && forall k :: 0 <= k < |a| ==> r[k] == (a[k] || b[k])
  {
    seq(|a|, k requires 0 <= k < |a| => a[k] || b[k])
  }

  function And(a: Word, b: Word): (r: Word)
    requires |a| == |b|
    ensures |r| == |a| && forall k :: 0 <= k < |a| ==> r[k] == (a[k] && b[k])
  {
    seq(|a|, k requires 0 <= k < |a| => a[k] && b[k])
  }

  /** The bits of a that are not in b. */
  function AndNot(a: Word, b: Word): (r: Word)
    requires |a| == |b|
    ensures |r| == |a| && forall k :: 0 <= k < |a| ==> r[k] == (a[k] && !b[k])
  {
    seq(|a|, k requires 0 <= k < |a| => a[k] && !b[k])
  }

  predicate IsZero(w: Word) {
    forall k :: 0 <= k < |w| ==> !w[k]
  }

  /** The word of n bits whose value is 1. */
  function One(n: nat): (w: Word)
    requires n > 0
    ensures |w| == n && forall k :: 0 <= k < n ==> w[k] == (k == n - 1)
  {
    Zeros(n - 1) + [true]
  }

  function Pow2(k: nat): nat {
    if k == 0 then 1 else 2 * Pow2(k - 1)
  }

  // -- Words as bytes, big-endian

  function ByteOf(w: Word): Byte
    requires |w| == 8
  {
    Byte(w[0], w[1], w[2], w[3], w[4], w[5], w[6], w[7])
  }

  function BitsOf(b: Byte): (w: Word)
    ensures |w| == 8
  {
    [b.b0, b.b1, b.b2, b.b3, b.b4, b.b5, b.b6, b.b7]
  }

  lemma ByteRoundTrip(w: Word)
    requires |w| == 8
    ensures BitsOf(ByteOf(w)) == w
  {
  }

  function WordBytes(w: Word): (b: seq<Byte>)
    requires |w| % 8 == 0
    ensures |b| == |w| / 8
    decreases |w|
  {
    if w == [] then [] else [ByteOf(w[..8])] + WordBytes(w[8..])
  }

  function BytesWord(b: seq<Byte>): (w: Word)
    ensures |w| == 8 * |b|
  {
    if b == [] then [] else BitsOf(b[0]) + BytesWord(b[1..])
  }

  lemma {:induction false} WordRoundTrip(w: Word)
    requires |w| % 8 == 0
    ensures BytesWord(WordBytes(w)) == w
    decreases |w|
  {
    hide ByteOf, BitsOf;
    if w != [] {
      WordRoundTrip(w[8..]);
      ByteRoundTrip(w[..8]);
      assert WordBytes(w)[1..] == WordBytes(w[8..]);
    }
  }

  // -- Numbers as words

  function NumberBits(n: nat, width: nat): (w: Word)
    ensures |w| == width
    decreases width
  {
    if width == 0 then [] else NumberBits(n / 2, width - 1) + [n % 2 == 1]
  }

  function BitsNumber(w: Word): nat
    decreases |w|
  {
    if w == [] then 0 else 2 * BitsNumber(w[..|w| - 1]) + (if w[|w| - 1] then 1 else 0)
  }

  lemma {:induction false} NumberRoundTrip(n: nat, width: nat)
    requires n < Pow2(width)
    ensures BitsNumber(NumberBits(n, width)) == n
    decreases width
  {
    if width > 0 {
      NumberRoundTrip(n / 2, width - 1);
      assert NumberBits(n, width)[..width - 1] == NumberBits(n / 2, width - 1);
    }
  }

  lemma {:induction false} BitsNumberBound(w: Word)
    ensures BitsNumber(w) < Pow2(|w|)
    decreases |w|
  {
    if w != [] {
      BitsNumberBound(w[..|w| - 1]);
    }
  }

  lemma Pow2Of16()
    ensures Pow2(16) == 0x1_0000
  {
    assert Pow2(4) == 16 && Pow2(8) == 0x100 && Pow2(12) == 0x1000;
  }

  function Uint16Bytes(n: Uint16): (b: seq<Byte>)
    ensures |b| == 2
  {
    WordBytes(NumberBits(n, 16))
  }

  function BytesUint16(b: seq<Byte>): Uint16
    requires |b| == 2
  {
    BitsNumberBound(BytesWord(b));
    Pow2Of16();
    BitsNumber(BytesWord(b))
  }

  lemma Uint16RoundTrip(n: Uint16)
    ensures BytesUint16(Uint16Bytes(n)) == n
  {
    hide BytesWord, WordBytes, NumberBits, BitsNumber;
    WordRoundTrip(NumberBits(n, 16));
    Pow2Of16();
    NumberRoundTrip(n, 16);
  }

  lemma {:induction false} BytesRoundTrip(b: seq<Byte>)
    ensures WordBytes(BytesWord(b)) == b
  {
    if b != [] {
      BytesRoundTrip(b[1..]);
      var w := BytesWord(b);
      assert w[..8] == BitsOf(b[0]) && w[8..] == BytesWord(b[1..]);
    }
  }

  lemma {:induction false} BitsRoundTrip(w: Word)
    ensures NumberBits(BitsNumber(w), |w|) == w
    decreases |w|
  {
    if w != [] {
      BitsRoundTrip(w[..|w| - 1]);
    }
  }

  /** Two bytes are determined by their number. */
  lemma Uint16Inverse(b: seq<Byte>)
    requires |b| == 2
    ensures Uint16Bytes(BytesUint16(b)) == b
  {
    hide BytesWord, WordBytes, NumberBits, BitsNumber;
    BitsRoundTrip(BytesWord(b));
    BytesRoundTrip(b);
  }

  // -- Values

  /** The value of four bits. */
  function HalfValue(a: bool, b: bool, c: bool, d: bool): (n: nat)
    ensures n < 16
  {
    (if a then 8 else 0) + (if b then 4 else 0) + (if c then 2 else 0) + (if d then 1 else 0)
  }

  /** The value of a byte. */
  function ByteValue(b: Byte): (n: nat)
    ensures n < 256
  {
    16 * HalfValue(b.b0, b.b1, b.b2, b.b3) + HalfValue(b.b4, b.b5, b.b6, b.b7)
  }

  lemma AppendBit(w: Word, a: bool)
    ensures BitsNumber(w + [a]) == 2 * BitsNumber(w) + (if a then 1 else 0)
  {
    assert (w + [a])[..|w|] == w;
  }

  lemma AppendFour(w: Word, a: bool, b: bool, c: bool, d: bool)
    ensures BitsNumber(w + [a, b, c, d]) == 16 * BitsNumber(w) + HalfValue(a, b, c, d)
  {
    hide BitsNumber;
    AppendBit(w, a);
    AppendBit(w + [a], b);
    AppendBit(w + [a] + [b], c);
    AppendBit(w + [a] + [b] + [c], d);
    assert w + [a, b, c, d] == w + [a] + [b] + [c] + [d];
  }

  /** Appending the bits of a byte. */
  lemma AppendByte(w: Word, b: Byte)
    ensures BitsNumber(w + BitsOf(b)) == 256 * BitsNumber(w) + ByteValue(b)
  {
    hide BitsNumber, HalfValue;
    var half := w + [b.b0, b.b1, b.b2, b.b3];
    AppendFour(w, b.b0, b.b1, b.b2, b.b3);
    AppendFour(half, b.b4, b.b5, b.b6, b.b7);
    assert w + BitsOf(b) == half + [b.b4, b.b5, b.b6, b.b7];
  }

  /** Two bytes are a number with the more significant byte first. */
  lemma BytesUint16Value(a: Byte, b: Byte)
    ensures BytesUint16([a, b]) == 256 * ByteValue(a) + ByteValue(b)
  {
    hide BitsOf, ByteValue, BitsNumber;
    AppendByte([], a);
    AppendByte(BitsOf(a), b);
    assert BitsNumber([]) == 0 by {
      NoBits();
    }
    assert [] + BitsOf(a) == BitsOf(a);
    assert [a, b][1..] == [b] && [b][1..] == [];
    assert BytesWord([b]) == BitsOf(b) + BytesWord([]);
    assert BytesWord([b]) == BitsOf(b);
    assert BytesWord([a, b]) == BitsOf(a) + BytesWord([b]);
  }

  lemma NoBits()
    ensures BitsNumber([]) == 0
  {
  }

  /** The bytes of a number are those with its value. */
  lemma Uint16BytesValue(n: Uint16)
    ensures var b := Uint16Bytes(n); ByteValue(b[0]) == n / 256 && ByteValue(b[1]) == n % 256
  {
    hide Uint16Bytes, BytesUint16, ByteValue;
    var b := Uint16Bytes(n);
    Uint16RoundTrip(n);
    assert b == [b[0], b[1]];
    BytesUint16Value(b[0], b[1]);
  }

  /** Bit k of the word of these bytes. */
  lemma {:induction false} BitOfBytes(b: seq<Byte>, k: nat)
    requires k < 8 * |b|
    ensures BytesWord(b)[k] == BitsOf(b[k / 8])[k % 8]
  {
    hide BitsOf;
    if k >= 8 {
      BitOfBytes(b[1..], k - 8);
      assert (k - 8) / 8 == k / 8 - 1 && (k - 8) % 8 == k % 8;
    }
  }
}
