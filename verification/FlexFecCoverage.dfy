/**
 Which FEC packet protects which media packet (pkg/flexfec/flexfec_coverage.go, over the bit arrays
 of pkg/flexfec/util/bitarray.go), and the masks that say so in a FlexFEC-03 header.
 */
module FlexFecCoverage {
  import opened Words
  import opened Bits

  const MAX_MEDIA_PACKETS := 110
  const MAX_FEC_PACKETS := 110
  /** The last media packet the three masks of a FlexFEC-03 header have a bit for. */
  const LAST_MASKED := 108

  // -- Bit arrays

  datatype BitArray = BitArray(lo: Word64, hi: Word64) {
    predicate At(i: nat)
      requires i < 128
    {
      if i < 64 then lo[i] else hi[i - 64]
    }
  }

  const EMPTY_ARRAY := BitArray(Zeros(64), Zeros(64))

  function SetBit(b: BitArray, i: nat): (r: BitArray)
    requires i < 128
    ensures forall j :: 0 <= j < 128 ==> (r.At(j) <==> j == i || b.At(j))
  {
    if i < 64 then
      b.(lo := Or(b.lo, Shl(One(64), 63 - i)))
    else
      b.(hi := Or(b.hi, Shl(One(64), 63 - (i - 64))))
  }

  function GetBit(b: BitArray, i: nat): (r: nat)
    requires i < 128
    ensures r == if b.At(i) then 1 else 0
  {
    var result := if i < 64 then And(b.lo, Shl(One(64), 63 - i)) else And(b.hi, Shl(One(64), 63 - (i - 64)));
    assert result[if i < 64 then i else i - 64] == b.At(i);
    if !IsZero(result) then 1 else 0
  }

  // -- The positions of the set bits, in ascending order

  function Marked(w: Word): (at: seq<nat>)
    ensures forall k :: 0 <= k < |at| ==> at[k] < |w| && w[at[k]]
    ensures forall j, k :: 0 <= j < k < |at| ==> at[j] < at[k]
    decreases |w|
  {
    if w == [] then []
    else Marked(w[..|w| - 1]) + (if w[|w| - 1] then [|w| - 1] else [])
  }

  lemma {:induction false} MarkedComplete(w: Word, i: nat)
    requires i < |w|
    ensures i in Marked(w) <==> w[i]
    decreases |w|
  {
    if i < |w| - 1 {
      MarkedComplete(w[..|w| - 1], i);
    }
  }

  function Shifted(at: seq<nat>, n: nat): (r: seq<nat>)
    ensures |r| == |at| && forall k :: 0 <= k < |at| ==> r[k] == at[k] + n
  {
    seq(|at|, k requires 0 <= k < |at| => at[k] + n)
  }

  lemma {:induction false} MarkedConcat(a: Word, b: Word)
    ensures Marked(a + b) == Marked(a) + Shifted(Marked(b), |a|)
    decreases |b|
  {
    if b == [] {
      assert a + b == a;
    } else {
      var n := |b| - 1;
      MarkedConcat(a, b[..n]);
      assert (a + b)[..|a + b| - 1] == a + b[..n];
      assert Shifted(Marked(b), |a|) == Shifted(Marked(b[..n]), |a|) + (if b[n] then [|a| + n] else []);
    }
  }

  lemma {:induction false} MarkedZeros(w: Word)
    requires IsZero(w)
    ensures Marked(w) == []
    decreases |w|
  {
    if w != [] {
      MarkedZeros(w[..|w| - 1]);
    }
  }

  /** Bits past the last set one mark nothing. */
  lemma MarkedTail(w: Word, n: nat)
    requires n <= |w| && forall k :: n <= k < |w| ==> !w[k]
    ensures Marked(w) == Marked(w[..n])
  {
    MarkedZeros(w[n..]);
    MarkedConcat(w[..n], w[n..]);
    assert w[..n] + w[n..] == w;
  }

  /** The sequence numbers at these positions after a base. */
  function Numbered(base: int, at: seq<nat>): (r: seq<Uint16>)
    ensures |r| == |at| && forall k :: 0 <= k < |at| ==> r[k] == Wrap16(base + at[k])
  {
    seq(|at|, k requires 0 <= k < |at| => Wrap16(base + at[k]))
  }

  // -- The three masks of a header

  /** The first n bits of an array. */
  function FirstBits(b: BitArray, n: nat): (w: Word)
    requires n <= 128
    ensures |w| == n && forall k :: 0 <= k < n ==> w[k] == b.At(k)
  {
    (b.lo + b.hi)[..n]
  }

  function ExtractMask1(mask: BitArray): (m: Word)
    ensures |m| == 16 && m == [false] + FirstBits(mask, 15)
  {
    var shifted := Shr(mask.lo, 49);
    assert forall k :: 0 <= k < 16 ==> shifted[48..][k] == shifted[48 + k];
    assert forall k :: 0 < k < 16 ==> shifted[48..][k] == mask.At(k - 1);
    shifted[48..]
  }

  function ExtractMask2(mask: BitArray): (m: Word)
    ensures |m| == 32 && m == [false] + FirstBits(mask, 46)[15..]
  {
    var shifted := Shr(Shl(mask.lo, 15), 33);
    assert forall k :: 0 <= k < 32 ==> shifted[32..][k] == shifted[32 + k];
    assert forall k :: 0 < k < 32 ==> shifted[32..][k] == mask.At(14 + k);
    shifted[32..]
  }

  lemma ThirdMaskBits(mask: BitArray)
    ensures Shr(Or(Shl(mask.lo, 46), Shr(mask.hi, 18)), 1) == [false] + FirstBits(mask, LAST_MASKED + 1)[46..]
  {
    var joined := Or(Shl(mask.lo, 46), Shr(mask.hi, 18));
    var bits := FirstBits(mask, LAST_MASKED + 1)[46..];
    forall j | 0 <= j < 63
      ensures joined[j] == bits[j]
    {
      assert bits[j] == mask.At(46 + j);
      assert Shl(mask.lo, 46)[j] == (j + 46 < 64 && mask.lo[j + 46]);
      assert Shr(mask.hi, 18)[j] == (j >= 18 && mask.hi[j - 18]);
    }
    var m := Shr(joined, 1);
    forall k | 0 < k < 64
      ensures m[k] == bits[k - 1]
    {
      assert m[k] == joined[k - 1];
    }
  }

  function ExtractMask3(mask: BitArray): (m: Word)
    ensures |m| == 64 && m == [false] + FirstBits(mask, LAST_MASKED + 1)[46..]
  {
    ThirdMaskBits(mask);
    Shr(Or(Shl(mask.lo, 46), Shr(mask.hi, 18)), 1)
  }

  /** Shifting a bit of the mask down and masking it tells whether it is set. */
  lemma LowBit(mask: Word, bitCount: nat, i: nat)
    requires |mask| == 64 && i < bitCount <= 63
    ensures And(Shr(mask, bitCount - 1 - i), One(64)) == One(64) <==> mask[64 - bitCount + i]
  {
    hide And, Shr, One;
    var shifted := Shr(mask, bitCount - 1 - i);
    assert shifted[63] == mask[64 - bitCount + i];
    var masked := And(shifted, One(64));
    assert masked[63] == shifted[63];
    assert forall k :: 0 <= k < 63 ==> masked[k] == One(64)[k];
  }

  lemma NumberedNext(base: Uint16, w: Word, i: nat)
    requires i < |w|
    ensures Numbered(base, Marked(w[..i + 1])) ==
            if w[i] then Numbered(base, Marked(w[..i])) + [Wrap16(base + i)] else Numbered(base, Marked(w[..i]))
  {
    hide Wrap16;
    assert w[..i + 1][..i] == w[..i];
  }

  /** The numbers a mask of `bitCount` bits stands for, as the decoder reads it. */
  method DecodeMask(mask: Word, bitCount: nat, seqNumBase: Uint16) returns (res: seq<Uint16>)
    requires |mask| == 64 && bitCount <= 63
    ensures res == Numbered(seqNumBase, Marked(mask[64 - bitCount..]))
  {
    hide And, Shr, One, Marked, Numbered, Wrap16;
    ghost var w := mask[64 - bitCount..];
    res := [];
    NumberedNothing(seqNumBase, w);
    for i := 0 to bitCount
      invariant res == Numbered(seqNumBase, Marked(w[..i]))
    {
      LowBit(mask, bitCount, i);
      NumberedNext(seqNumBase, w, i);
      if And(Shr(mask, bitCount - 1 - i), One(64)) == One(64) {
        res := res + [Wrap16(seqNumBase + i)];
      }
    }
    assert w[..bitCount] == w;
  }

  lemma NumberedNothing(base: Uint16, w: Word)
    ensures Numbered(base, Marked(w[..0])) == []
  {
  }

  /** Read one after the other, the masks give back the positions set in the array up to the last masked one. */
  lemma MasksCoverArray(mask: BitArray)
    ensures Marked(ExtractMask1(mask)[1..]) + Shifted(Marked(ExtractMask2(mask)[1..]), 15) +
            Shifted(Marked(ExtractMask3(mask)[1..]), 46) == Marked(FirstBits(mask, LAST_MASKED + 1))
  {
    var a, b, c := ExtractMask1(mask)[1..], ExtractMask2(mask)[1..], ExtractMask3(mask)[1..];
    MarkedConcat(a, b);
    MarkedConcat(a + b, c);
    assert a + b + c == FirstBits(mask, LAST_MASKED + 1);
  }

  // -- Coverage

  /** Interleaved protection: media packet i is protected by FEC packet i modulo the number of FEC packets. */
  predicate Protects(numFec: nat, numMedia: nat, fec: nat, i: nat) {
    fec < numFec && i < numMedia && i % numFec == fec
  }

  class ProtectionCoverage<P> {
    const packetMasks: array<BitArray>
    var numFecPackets: nat
    var numMediaPackets: nat
    var mediaPackets: seq<P>

    /** The masks belong to the latest counts, whatever came before. */
    ghost predicate Valid()
      reads this, packetMasks
    {
      && packetMasks.Length == MAX_FEC_PACKETS
      && numMediaPackets <= MAX_MEDIA_PACKETS && |mediaPackets| == numMediaPackets
      && (forall f, i :: 0 <= f < MAX_FEC_PACKETS && 0 <= i < 128 ==>
            (packetMasks[f].At(i) <==> Protects(numFecPackets, numMediaPackets, f, i)))
    }

    /** NewCoverage without its check of the number of packets, which its caller repeats. */
    constructor ()
      ensures Valid() && fresh(packetMasks) && numFecPackets == 0 && numMediaPackets == 0
    {
      packetMasks := new BitArray[MAX_FEC_PACKETS](_ => EMPTY_ARRAY);
      numFecPackets, numMediaPackets, mediaPackets := 0, 0, [];
    }

    method ResetCoverage()
      requires packetMasks.Length == MAX_FEC_PACKETS
      modifies packetMasks
      ensures forall f :: 0 <= f < MAX_FEC_PACKETS ==> packetMasks[f] == EMPTY_ARRAY
    {
      for i := 0 to MAX_FEC_PACKETS
        invariant forall f :: 0 <= f < i ==> packetMasks[f] == EMPTY_ARRAY
      {
        packetMasks[i] := EMPTY_ARRAY;
      }
    }

    /**
     Sets the bits of one FEC packet: every numFec-th media packet from its own index on. An index past the last
     mask is past the last media packet too, and sets nothing.
     */
    method CoverRow(fec: nat, numFec: nat, numMedia: nat)
      requires packetMasks.Length == MAX_FEC_PACKETS && fec < numFec && numMedia <= MAX_MEDIA_PACKETS
      requires fec < MAX_FEC_PACKETS ==> packetMasks[fec] == EMPTY_ARRAY
      modifies packetMasks
      ensures fec < MAX_FEC_PACKETS ==>
                forall i :: 0 <= i < 128 ==> (packetMasks[fec].At(i) <==> Protects(numFec, numMedia, fec, i))
      ensures forall f :: 0 <= f < MAX_FEC_PACKETS && f != fec ==> packetMasks[f] == old(packetMasks[f])
    {
      hide Protects;
      var covered := fec;
      ghost var rounds := 0;
      RowStart(numFec, numMedia, fec);
      while covered < numMedia
        invariant covered == fec + rounds * numFec && fec <= covered
        invariant fec < MAX_FEC_PACKETS ==> forall i :: 0 <= i < 128 ==>
                    (packetMasks[fec].At(i) <==> i < covered && Protects(numFec, numMedia, fec, i))
        invariant forall f :: 0 <= f < MAX_FEC_PACKETS && f != fec ==> packetMasks[f] == old(packetMasks[f])
        decreases numMedia - covered
      {
        packetMasks[fec] := SetBit(packetMasks[fec], covered);
        RowStep(numFec, numMedia, fec, rounds);
        rounds := rounds + 1;
        covered := covered + numFec;
      }
      RowEnd(numFec, numMedia, fec);
    }

    /** Every media packet is protected by exactly one FEC packet, that of its residue, which has a mask. */
    lemma ProtectedOnce(i: nat)
      requires Valid() && 0 < numFecPackets && i < numMediaPackets
      ensures i % numFecPackets < MAX_FEC_PACKETS
      ensures forall f :: 0 <= f < MAX_FEC_PACKETS ==> (packetMasks[f].At(i) <==> f == i % numFecPackets)
    {
      ResidueBelow(i, numFecPackets);
      forall f | 0 <= f < MAX_FEC_PACKETS
        ensures packetMasks[f].At(i) <==> Protects(numFecPackets, numMediaPackets, f, i)
      {
      }
    }

    /**
     Adopts a batch. A batch of an unsupported size changes nothing; equal counts reuse the masks.
     */
    method UpdateCoverage(media: seq<P>, numFec: nat)
      requires Valid()
      modifies this, packetMasks
      ensures Valid()
      ensures if 0 < |media| <= MAX_MEDIA_PACKETS then
                mediaPackets == media && numFecPackets == numFec && numMediaPackets == |media|
              else
                unchanged(this) && unchanged(packetMasks)
    {
      hide Protects;
      var numMedia := |media|;
      if numMedia <= 0 || numMedia > MAX_MEDIA_PACKETS {
        return;
      }
      mediaPackets := media;
      if numFec == numFecPackets && numMedia == numMediaPackets {
        return;
      }
      numFecPackets := numFec;
      numMediaPackets := numMedia;
      ResetCoverage();
      for fec := 0 to numFec
        invariant forall f, i :: 0 <= f < fec && f < MAX_FEC_PACKETS && 0 <= i < 128 ==>
                    (packetMasks[f].At(i) <==> Protects(numFec, numMedia, f, i))
        invariant forall f :: fec <= f < MAX_FEC_PACKETS ==> packetMasks[f] == EMPTY_ARRAY
        modifies packetMasks
      {
        CoverRow(fec, numFec, numMedia);
      }
      NoRow(numFec, numMedia);
    }

    /** The indices of the media packets a FEC packet protects, in ascending order. */
    method GetCoveredBy(fec: nat) returns (coverage: seq<nat>)
      requires Valid() && fec < MAX_FEC_PACKETS
      ensures coverage == Marked(FirstBits(packetMasks[fec], numMediaPackets))
    {
      ghost var w := FirstBits(packetMasks[fec], numMediaPackets);
      coverage := [];
      for i := 0 to numMediaPackets
        invariant coverage == Marked(w[..i])
      {
        assert w[..i + 1][..i] == w[..i];
        if GetBit(packetMasks[fec], i) == 1 {
          coverage := coverage + [i];
        }
      }
      assert w[..numMediaPackets] == w;
    }
  }

  lemma Residue(fec: nat, rounds: nat, numFec: nat)
    requires fec < numFec
    ensures (fec + rounds * numFec) % numFec == fec
  {
    RemainderIs(fec + rounds * numFec, rounds, fec, numFec);
  }

  lemma RowStart(numFec: nat, numMedia: nat, fec: nat)
    requires fec < numFec
    ensures forall i :: 0 <= i < fec ==> !Protects(numFec, numMedia, fec, i)
  {
    forall i | 0 <= i < fec
      ensures !Protects(numFec, numMedia, fec, i)
    {
      RemainderIs(i, 0, i, numFec);
    }
  }

  lemma NoRow(numFec: nat, numMedia: nat)
    ensures forall f: nat, i: nat :: numFec <= f ==> !Protects(numFec, numMedia, f, i)
  {
  }

  lemma ResidueBelow(i: nat, m: nat)
    requires m > 0
    ensures 0 <= i % m <= i && i % m < m
  {
  }

  lemma RowEnd(numFec: nat, numMedia: nat, fec: nat)
    ensures forall i: nat :: Protects(numFec, numMedia, fec, i) ==> i < numMedia
  {
  }

  /** From one protected packet to the next there is none in between. */
  lemma RowStep(numFec: nat, numMedia: nat, fec: nat, rounds: nat)
    requires fec < numFec && fec + rounds * numFec < numMedia
    ensures Protects(numFec, numMedia, fec, fec + rounds * numFec)
    ensures forall i :: fec + rounds * numFec < i < fec + (rounds + 1) * numFec ==> !Protects(numFec, numMedia, fec, i)
    ensures fec + (rounds + 1) * numFec == fec + rounds * numFec + numFec
  {
    var c := fec + rounds * numFec;
    Residue(fec, rounds, numFec);
    forall i | c < i < c + numFec
      ensures !Protects(numFec, numMedia, fec, i)
    {
      if i % numFec == fec {
        SameSlot(i, c, numFec);
      }
    }
  }

  /** The masks of a coverage stand for exactly the protected indices, provided the masks have a bit for each. */
  lemma MasksAreExact(mask: BitArray, numFec: nat, numMedia: nat, fec: nat)
    requires fec < numFec && numMedia <= MAX_MEDIA_PACKETS
    requires forall i :: 0 <= i < 128 ==> (mask.At(i) <==> Protects(numFec, numMedia, fec, i))
    ensures Marked(FirstBits(mask, LAST_MASKED + 1)) == Marked(FirstBits(mask, numMedia)) <==>
            !Protects(numFec, numMedia, fec, LAST_MASKED + 1)
  {
    var all := FirstBits(mask, MAX_MEDIA_PACKETS);
    var masked := FirstBits(mask, LAST_MASKED + 1);
    assert all[..LAST_MASKED + 1] == masked;
    assert all[..numMedia] == FirstBits(mask, numMedia);
    MarkedTail(all, numMedia);
    if Protects(numFec, numMedia, fec, LAST_MASKED + 1) {
      MarkedComplete(all, LAST_MASKED + 1);
      assert LAST_MASKED + 1 in Marked(all) && LAST_MASKED + 1 !in Marked(masked);
    } else {
      MarkedTail(all, LAST_MASKED + 1);
    }
  }
}
