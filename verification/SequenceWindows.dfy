/** Rings indexed by sequence numbers, and the true numbers behind wrapped ones. */
module SequenceWindows {
  import opened Words

  /** The slot of a number in a ring of `size` slots. */
  function Pos(n: int, size: int): (p: int)
    requires size > 0
    ensures 0 <= p < size
  {
    n % size
  }

  lemma {:induction false} Pow2Divides(a: int, b: int) returns (q: int)
    requires IsPow2(a) && IsPow2(b) && a <= b
    ensures b == q * a
    decreases a
  {
    if a == 1 {
      q := b;
    } else {
      q := Pow2Divides(a / 2, b / 2);
      assert b == 2 * (b / 2) && a == 2 * (a / 2);
      assert b == q * a;
    }
  }

  lemma TimesAssociative(a: int, b: int, c: int)
    ensures a * (b * c) == (a * b) * c
  {
  }

  /** Since the size divides 65536, a wrapped number has the same slot as the true one. */
  lemma PosOfWrapped(n: int, size: int)
    requires 0 < size <= UINT16_SIZE && IsPow2(size)
    ensures Pos(Wrap16(n), size) == Pos(n, size)
  {
    hide IsPow2;
    NumberSpaceIsPow2();
    var q := Pow2Divides(size, UINT16_SIZE);
    var k := n / UINT16_SIZE;
    var w := Wrap16(n);
    TimesAssociative(k, q, size);
    assert n == w + (k * q) * size;
    AddModulus(w, k * q, size);
  }

  lemma NumberSpaceIsPow2()
    ensures IsPow2(UINT16_SIZE)
  {
    assert IsPow2(0x100) && IsPow2(0x1000);
  }

  /** Different numbers of a window that fits the ring have different slots. */
  lemma PosDistinct(lo: int, hi: int, size: int)
    requires size > 0 && hi - lo <= size
    ensures forall a, b :: lo < a <= hi && lo < b <= hi && Pos(a, size) == Pos(b, size) ==> a == b
  {
    forall a, b | lo < a <= hi && lo < b <= hi && Pos(a, size) == Pos(b, size)
      ensures a == b
    {
      SameSlot(a, b, size);
    }
  }

  /** The number a wrapped one stands for: the one nearest to the newest, ahead of it by less than half the range. */
  function Nearest(end: int, seqNum: Uint16): (n: int)
    ensures Wrap16(n) == seqNum && -UINT16_HALF <= n - end < UINT16_HALF
  {
    var diff := Sub16(seqNum, Wrap16(end));
    if diff < UINT16_HALF then end + diff else end + diff - UINT16_SIZE
  }

  /** Wrapped numbers whose true values are less than 65536 apart are equal only if the true values are. */
  lemma WrapInjective(a: int, b: int)
    requires -UINT16_SIZE < a - b < UINT16_SIZE
    ensures Wrap16(a) == Wrap16(b) <==> a == b
  {
  }

  lemma NearestByDifference(end: int, seqNum: Uint16)
    ensures var diff := Sub16(seqNum, Wrap16(end));
            Nearest(end, seqNum) == if diff < UINT16_HALF then end + diff else end + diff - UINT16_SIZE
  {
  }

  lemma BackFrom(end: int, seqNum: Uint16)
    ensures Wrap16(end - Sub16(Wrap16(end), seqNum)) == seqNum
  {
  }

  lemma WrapPeriod(n: int)
    ensures Wrap16(n + UINT16_SIZE) == Wrap16(n)
  {
  }

  /** Between a power of two and its double there is none. */
  lemma NextPow2(p: int)
    requires IsPow2(p)
    ensures IsPow2(p * 2) && p > 0
    ensures forall q :: IsPow2(q) && p < q ==> q >= p * 2
  {
    assert p * 2 / 2 == p;
    forall q | IsPow2(q) && p < q
      ensures q >= p * 2
    {
      Pow2Gap(p, q);
    }
  }

  /** The sizes a ring may have: the powers of two from the smallest allowed up to 32768. */
  method IsAllowedSize(size: Uint16, smallest: int) returns (correctSize: bool)
    requires IsPow2(smallest) && smallest <= UINT16_HALF
    ensures correctSize <==> IsPow2(size) && smallest <= size <= UINT16_HALF
  {
    hide IsPow2;
    var p := smallest;
    while p <= UINT16_HALF
      invariant IsPow2(p) && smallest <= p
      invariant forall q :: IsPow2(q) && smallest <= q < p ==> q != size
      decreases UINT16_HALF - p
    {
      if size == p {
        return true;
      }
      NextPow2(p);
      p := p * 2;
    }
    return false;
  }
}
