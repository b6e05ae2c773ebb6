/**
 From the encoder through packet loss to the decoder (pkg/flexfec/flexfec_encoder_03.go and
 pkg/flexfec/flexfec_decoder_03.go).
 */
module FlexFecRoundTrip {
  import opened Words
  import opened Bits
  import opened FlexFecCoverage
  import opened FlexFecCodec
  import opened FlexFecDecoder

  /** The number of packet i of a batch. */
  function Nth(base: Uint16, i: int): Uint16 {
    Wrap16(base + i)
  }

  /** A batch of consecutive packets of one stream, as the encoder takes it. */
  ghost predicate Batch(media: seq<Packet>, base: Uint16, ssrc: seq<Byte>) {
    |ssrc| == 4 && forall i :: 0 <= i < |media| ==> Protectable(media[i], Nth(base, i), ssrc)
  }

  /** The encoder's order check makes the numbers of a batch count up from the first. */
  lemma {:induction false} ConsecutiveNumbers(media: seq<Packet>, i: nat)
    requires Consecutive(media) && i < |media|
    ensures SequenceNumberOf(media[i]) == Wrap16(SequenceNumberOf(media[0]) + i)
    decreases i
  {
    hide SequenceNumberOf, Wrap16;
    if i > 0 {
      ConsecutiveNumbers(media, i - 1);
      WrapSum(SequenceNumberOf(media[0]) + i - 1, 1);
    } else {
      WrapIdentity(SequenceNumberOf(media[0]));
    }
  }

  /** The mask is the one the coverage keeps for this FEC index. */
  ghost predicate MaskFor(mask: BitArray, numFec: nat, numMedia: nat, fec: nat) {
    forall i :: 0 <= i < 128 ==> (mask.At(i) <==> Protects(numFec, numMedia, fec, i))
  }

  /** What the decoder reads off a parsed header, as ProtectedNumbers computes it. */
  function NumbersOf(fec: FlexFec): seq<Uint16>
    requires |fec.mask0| == 16 && |fec.mask1| == 32 && |fec.mask2| == 64
  {
    Numbered(fec.seqNumBase, Marked(fec.mask0[1..]) + Shifted(Marked(fec.mask1[1..]), 15) +
        Shifted(Marked(fec.mask2[1..]), 46))
  }

  lemma NumbersAreMasked(base: Uint16, mask: BitArray, ssrc: seq<Byte>, payload: seq<Byte>)
    ensures NumbersOf(FlexFec(ssrc, base, ExtractMask1(mask), ExtractMask2(mask), ExtractMask3(mask), payload)) ==
            Numbered(base, Marked(FirstBits(mask, LAST_MASKED + 1)))
  {
    hide Marked, Shifted, Numbered, ExtractMask1, ExtractMask2, ExtractMask3;
    MasksCoverArray(mask);
  }

  /**
   The header round trip: parsing what the encoder wrote gives back the repair payload, and the masks give back
   the numbers of exactly the protected packets, in order, if and only if packet 109 is not among them, for
   which the masks have no bit.
   */
  lemma HeaderRoundTrip(media: seq<Packet>, base: Uint16, numFec: nat, fec: nat, mask: BitArray)
    requires fec < numFec && fec < |media| <= MAX_MEDIA_PACKETS && MaskFor(mask, numFec, |media|, fec)
    ensures var at := ProtectedIndices(numFec, |media|, fec);
            var ps := Select(media, at);
            ps != [] &&
            var r := ParseFlexFec03Header(FecPayload(ps, base, mask));
            && r.Parsed? && r.fec.payload == Repair(ps) && r.fec.protectedSSRC == SsrcOf(ps[0])
            && |r.fec.mask0| == 16 && |r.fec.mask1| == 32 && |r.fec.mask2| == 64
            && (NumbersOf(r.fec) == Numbered(base, at) <==> !Protects(numFec, |media|, fec, LAST_MASKED + 1))
  {
    hide Marked, ParseFlexFec03Header, FecPayload, NumbersOf, Repair, Protects, ExtractMask1, ExtractMask2;
    hide ExtractMask3, Wrap16;
    var n := |media|;
    var at := ProtectedIndices(numFec, n, fec);
    ProtectsSomething(numFec, n, fec);
    var ps := Select(media, at);
    ParseRoundTrip(ps, base, mask);
    NumbersAreMasked(base, mask, SsrcOf(ps[0]), Repair(ps));
    assert FirstBits(mask, n) == ProtectedWord(numFec, n, fec);
    MasksAreExact(mask, numFec, n, fec);
    if Protects(numFec, n, fec, LAST_MASKED + 1) {
      MaskedLength(mask, numFec, n, fec);
    }
  }

  lemma MaskedLength(mask: BitArray, numFec: nat, numMedia: nat, fec: nat)
    requires numMedia <= MAX_MEDIA_PACKETS && MaskFor(mask, numFec, numMedia, fec)
    requires Protects(numFec, numMedia, fec, LAST_MASKED + 1)
    ensures |Marked(FirstBits(mask, LAST_MASKED + 1))| != |Marked(FirstBits(mask, numMedia))|
  {
    var all := FirstBits(mask, numMedia);
    assert all[..LAST_MASKED + 1] == FirstBits(mask, LAST_MASKED + 1);
    assert all[|all| - 1] && |all| - 1 == LAST_MASKED + 1;
  }

  // -- Loss and recovery

  ghost function Truth(media: seq<Packet>, base: Uint16): (t: map<Uint16, Packet>)
    requires |media| <= MAX_MEDIA_PACKETS
    ensures forall i :: 0 <= i < |media| ==> Nth(base, i) in t && t[Nth(base, i)] == media[i]
  {
    NumbersDistinct(base, |media|);
    map n: Uint16 | Sub16(n, base) < |media| :: media[Sub16(n, base)]
  }

  lemma NumbersDistinct(base: Uint16, n: nat)
    requires n <= MAX_MEDIA_PACKETS
    ensures forall i :: 0 <= i < n ==> Sub16(Nth(base, i), base) == i
  {
    forall i | 0 <= i < n
      ensures Sub16(Nth(base, i), base) == i
    {
      WrapDifference(base + i, base);
      WrapIdentity(base);
    }
  }

  /** The slots of a FEC packet after the packets in `lost` did not arrive. */
  function SlotsAfterLoss(media: seq<Packet>, base: Uint16, at: seq<nat>, lost: set<nat>): (slots: seq<Slot>)
    requires forall k :: 0 <= k < |at| ==> at[k] < |media|
    ensures |slots| == |at|
    ensures forall k :: 0 <= k < |at| ==>
            slots[k] == Slot(Nth(base, at[k]), if at[k] in lost then None else Some(media[at[k]]))
  {
    seq(|at|, k requires 0 <= k < |at| => Slot(Nth(base, at[k]), if at[k] in lost then None else Some(media[at[k]])))
  }

  /** What the decoder holds of FEC packet `fec` after the packets in `lost` did not arrive. */
  ghost function Received(media: seq<Packet>, base: Uint16, numFec: nat, fec: nat, mask: BitArray,
                          lost: set<nat>): (f: Fec)
    requires fec < numFec && fec < |media|
  {
    ProtectsSomething(numFec, |media|, fec);
    var at := ProtectedIndices(numFec, |media|, fec);
    var ps := Select(media, at);
    PayloadLongEnough(ps, base, mask);
    FecState(FecPayload(ps, base, mask), Repair(ps), SlotsAfterLoss(media, base, at, lost))
  }

  lemma PayloadLongEnough(ps: seq<Packet>, base: Uint16, mask: BitArray)
    requires ps != []
    ensures |FecPayload(ps, base, mask)| >= 20 && FecPayload(ps, base, mask)[..8] == FoldedHeader(ps)
  {
    hide FoldedHeader, MaskBytes, Repair, SsrcOf, Uint16Bytes;
  }

  /** Whatever is lost, a FEC packet of the encoder is honest about the batch. */
  lemma EncodedIsHonest(media: seq<Packet>, base: Uint16, ssrc: seq<Byte>, numFec: nat, fec: nat, mask: BitArray,
                        lost: set<nat>)
    requires Batch(media, base, ssrc) && fec < numFec && fec < |media| <= MAX_MEDIA_PACKETS
    ensures Honest(Received(media, base, numFec, fec, mask, lost), Truth(media, base), ssrc)
  {
    hide FecPayload, FoldedHeader, Repair, Nth, Protectable, ProtectedIndices, Truth;
    ProtectsSomething(numFec, |media|, fec);
    var at := ProtectedIndices(numFec, |media|, fec);
    var ps := Select(media, at);
    PayloadLongEnough(ps, base, mask);
    var f := Received(media, base, numFec, fec, mask, lost);
    assert Originals(f.slots, Truth(media, base)) == ps;
  }

  /** The slots are those the decoder makes: one for each number that the parsed masks give, in order. */
  ghost predicate SlotsAsParsed(f: Fec) {
    var r := ParseFlexFec03Header(f.payload);
    && r.Parsed? && |r.fec.mask0| == 16 && |r.fec.mask1| == 32 && |r.fec.mask2| == 64
    && r.fec.payload == f.repair
    && |NumbersOf(r.fec)| == |f.slots|
    && forall k :: 0 <= k < |f.slots| ==> f.slots[k].number == NumbersOf(r.fec)[k]
  }

  lemma ReceivedAsParsed(media: seq<Packet>, base: Uint16, numFec: nat, fec: nat, mask: BitArray, lost: set<nat>)
    requires fec < numFec && fec < |media| <= MAX_MEDIA_PACKETS && MaskFor(mask, numFec, |media|, fec)
    requires !Protects(numFec, |media|, fec, LAST_MASKED + 1)
    ensures SlotsAsParsed(Received(media, base, numFec, fec, mask, lost))
  {
    hide ParseFlexFec03Header, FecPayload, NumbersOf, Repair, ProtectedIndices, Wrap16, Protects, MaskFor;
    HeaderRoundTrip(media, base, numFec, fec, mask);
  }

  /**
   Recovery through loss: if exactly one packet of a residue class is lost, the decoder rebuilds it byte for
   byte from the FEC packet of the class, as its header is parsed, and the surviving members.
   */
  lemma LostPacketComesBack(media: seq<Packet>, base: Uint16, ssrc: seq<Byte>, numFec: nat, mask: BitArray,
                            lost: set<nat>, i: nat)
    requires Batch(media, base, ssrc) && 0 < numFec && |media| <= MAX_MEDIA_PACKETS
    requires i < |media| && i in lost
    requires forall j :: j in lost && j < |media| && j % numFec == i % numFec ==> j == i
    requires MaskFor(mask, numFec, |media|, i % numFec) && !Protects(numFec, |media|, i % numFec, LAST_MASKED + 1)
    ensures i % numFec < |media|
    ensures var f := Received(media, base, numFec, i % numFec, mask, lost);
            SlotsAsParsed(f) && Recovered(f, ssrc) == media[i]
  {
    hide FecPayload, Repair, Nth, Protectable, Recovered, Honest, Truth, SlotsAsParsed, MaskFor;
    var fec := i % numFec;
    ResidueBelow(i, numFec);
    var at := ProtectedIndices(numFec, |media|, fec);
    MarkedComplete(ProtectedWord(numFec, |media|, fec), i);
    var k :| 0 <= k < |at| && at[k] == i;
    var f := Received(media, base, numFec, fec, mask, lost);
    assert OnlyMissing(f.slots, k);
    EncodedIsHonest(media, base, ssrc, numFec, fec, mask, lost);
    HonestRecovery(f, Truth(media, base), ssrc, k);
    ReceivedAsParsed(media, base, numFec, fec, mask, lost);
  }

  /** The packet of the batch with this number, unless it is lost. */
  function AtHand(media: seq<Packet>, base: Uint16, lost: set<nat>, n: Uint16): Option<Packet> {
    var i := Sub16(n, base);
    if i < |media| && i !in lost then Some(media[i]) else None
  }

  function SlotsFor(numbers: seq<Uint16>, media: seq<Packet>, base: Uint16, lost: set<nat>): (slots: seq<Slot>)
    ensures |slots| == |numbers|
    ensures forall k :: 0 <= k < |slots| ==> slots[k] == Slot(numbers[k], AtHand(media, base, lost, numbers[k]))
  {
    seq(|numbers|, k requires 0 <= k < |numbers| => Slot(numbers[k], AtHand(media, base, lost, numbers[k])))
  }

  /**
   What a FEC packet is for: its payload parses, and what was parsed, filled with the packets that are not lost,
   rebuilds packet i of the batch byte for byte.
   */
  ghost predicate RebuildsLost(payload: seq<Byte>, media: seq<Packet>, ssrc: seq<Byte>, lost: set<nat>, i: nat)
    requires i < |media| && |ssrc| == 4
  {
    var r := ParseFlexFec03Header(payload);
    && r.Parsed? && |payload| >= 20 && r.fec.protectedSSRC == ssrc
    && |r.fec.mask0| == 16 && |r.fec.mask1| == 32 && |r.fec.mask2| == 64
    && var slots := SlotsFor(NumbersOf(r.fec), media, SequenceNumberOf(media[0]), lost);
       Recovered(FecState(payload, r.fec.payload, slots), ssrc) == media[i]
  }

  /** Of the packets with the residue of i, packet i is the one that is lost. */
  ghost predicate OnlyLoss(lost: set<nat>, numMedia: nat, numFec: nat, i: nat): (b: bool)
    requires numFec > 0
    ensures b ==> i < numMedia
  {
    && i < numMedia && i in lost
    && forall j :: j in lost && j < numMedia && j % numFec == i % numFec ==> j == i
  }

  lemma SlotsAgree(media: seq<Packet>, base: Uint16, at: seq<nat>, lost: set<nat>)
    requires |media| <= MAX_MEDIA_PACKETS && forall k :: 0 <= k < |at| ==> at[k] < |media|
    ensures SlotsFor(Numbered(base, at), media, base, lost) == SlotsAfterLoss(media, base, at, lost)
  {
    hide Sub16, Wrap16;
    NumbersDistinct(base, |media|);
    forall k | 0 <= k < |at|
      ensures AtHand(media, base, lost, Nth(base, at[k])) == if at[k] in lost then None else Some(media[at[k]])
    {
      assert Sub16(Nth(base, at[k]), base) == at[k];
    }
  }

  /** The same on what is sent: the payload of the FEC packet of the class rebuilds the lost packet. */
  lemma PayloadRebuilds(media: seq<Packet>, ssrc: seq<Byte>, numFec: nat, mask: BitArray, lost: set<nat>, i: nat)
    requires 0 < |media| <= MAX_MEDIA_PACKETS && Batch(media, SequenceNumberOf(media[0]), ssrc)
    requires 0 < numFec && OnlyLoss(lost, |media|, numFec, i)
    requires MaskFor(mask, numFec, |media|, i % numFec) && !Protects(numFec, |media|, i % numFec, LAST_MASKED + 1)
    ensures i % numFec < |media|
    ensures var ps := Select(media, ProtectedIndices(numFec, |media|, i % numFec));
            ps != [] && RebuildsLost(FecPayload(ps, SequenceNumberOf(media[0]), mask), media, ssrc, lost, i)
  {
    hide FecPayload, Repair, Protectable, Recovered, ParseFlexFec03Header, NumbersOf, ProtectedIndices, MaskFor;
    hide SequenceNumberOf, Wrap16, Sub16;
    var base, fec := SequenceNumberOf(media[0]), i % numFec;
    LostPacketComesBack(media, base, ssrc, numFec, mask, lost, i);
    HeaderRoundTrip(media, base, numFec, fec, mask);
    var at := ProtectedIndices(numFec, |media|, fec);
    SlotsAgree(media, base, at, lost);
    assert SsrcOf(media[at[0]]) == ssrc by {
      BatchSsrc(media, base, ssrc, at[0]);
    }
  }

  lemma BatchSsrc(media: seq<Packet>, base: Uint16, ssrc: seq<Byte>, i: nat)
    requires Batch(media, base, ssrc) && i < |media|
    ensures SsrcOf(media[i]) == ssrc
  {
    assert Protectable(media[i], Nth(base, i), ssrc);
  }

  // -- A packet that cannot be unmarshalled

  /** The header has room for as many contributing sources as its CSRC count says (section 5.1 of RFC 3550). */
  predicate CsrcsFit(p: Packet) {
    RTP_HEADER_SIZE + 4 * BitsNumber([p[0].b4, p[0].b5, p[0].b6, p[0].b7]) <= |p|
  }

  const CSRC_COUNT_15 := Byte(false, false, false, false, true, true, true, true)
  const LAST_MASK_FIRST_BIT := Byte(true, true, false, false, false, false, false, false)

  /** A FEC packet that protects number 5 only and says that the packet has 15 contributing sources and no payload. */
  function CrammedFec(ssrc: Ssrc): Fec {
    var zeros := [ZERO_BYTE, ZERO_BYTE, ZERO_BYTE, ZERO_BYTE, ZERO_BYTE, ZERO_BYTE, ZERO_BYTE];
    FecState([CSRC_COUNT_15] + zeros + SSRC_COUNT_FIELD + ssrc + Uint16Bytes(5) + [LAST_MASK_FIRST_BIT, ZERO_BYTE],
             [], [Slot(5, None)])
  }

  lemma CrammedMask()
    ensures MaskField([LAST_MASK_FIRST_BIT, ZERO_BYTE])[1..] == [true] + Zeros(14)
  {
    var b := [LAST_MASK_FIRST_BIT, ZERO_BYTE];
    assert b[1..] == [ZERO_BYTE] && [ZERO_BYTE][1..] == [];
    assert BytesWord([ZERO_BYTE]) == BitsOf(ZERO_BYTE) + [];
    assert BytesWord(b) == BitsOf(b[0]) + BytesWord(b[1..]);
  }

  lemma CrammedParses(ssrc: Ssrc)
    ensures SlotsAsParsed(CrammedFec(ssrc))
  {
    hide Uint16Bytes, BytesUint16, MaskField, Marked;
    var f := CrammedFec(ssrc);
    var raw := f.payload[18..];
    assert raw == [LAST_MASK_FIRST_BIT, ZERO_BYTE] && raw[0..2] == raw && raw[2..] == [];
    assert f.payload[16..18] == Uint16Bytes(5);
    Uint16RoundTrip(5);
    CrammedMask();
    OneMarked(14);
    MarkedZeros(Zeros(32)[1..]);
    MarkedZeros(Zeros(64)[1..]);
    WrapIdentity(5);
  }

  lemma OneMarked(n: nat)
    ensures Marked([true] + Zeros(n)) == [0]
  {
    MarkedTail([true] + Zeros(n), 1);
    assert ([true] + Zeros(n))[..1] == [true];
    assert [true][..0] == [] && Marked([true]) == [] + [0];
  }

  lemma CrammedRebuilt(ssrc: Ssrc)
    ensures !CsrcsFit(Recovered(CrammedFec(ssrc), ssrc))
  {
    hide Uint16Bytes, Xor;
    var f := CrammedFec(ssrc);
    assert f.slots[..0] == [];
    assert Present(f.slots) == [] && MissingNumber(f.slots) == 5;
    var h := MissingHeader(f.payload, []);
    forall j | 0 <= j < 8 ensures h[j] == f.payload[j] {
      XorInverse(f.payload[j], ZERO_BYTE);
    }
    assert h[2..4] == [ZERO_BYTE, ZERO_BYTE] == EMPTY_PACKET[2..4];
    EmptyNumber();
    Fifteen();
  }

  lemma Fifteen()
    ensures BitsNumber([true, true, true, true]) == 15
  {
    assert [true, true, true, true][..3] == [true, true, true] && [true, true, true][..2] == [true, true];
    assert [true, true][..1] == [true] && [true][..0] == [];
  }

  /**
   An input on which the decoder's loop never ends: one FEC packet, as it comes off the wire, whose only protected
   packet is missing and would be rebuilt with more contributing sources than it has bytes for.
   */
  lemma CrammedFecStalls(stream: Stream)
    requires forall p :: stream.unmarshals(p) ==> CsrcsFit(p)
    ensures var f := CrammedFec(stream.ssrc);
            SlotsAsParsed(f) && Stalled([f], stream) && !Ends([f], stream)
  {
    hide Recovered, SlotsAsParsed, CsrcsFit, Ends, Passes;
    var f := CrammedFec(stream.ssrc);
    CrammedParses(stream.ssrc);
    CrammedRebuilt(stream.ssrc);
    assert f.slots[..0] == [] && SingleLoss([f][0]);
    assert Stalled([f], stream);
    StallsAtOnce([f], stream);
  }

  lemma StallsAtOnce(fecs: seq<Fec>, stream: Stream)
    requires Stalled(fecs, stream)
    ensures !Ends(fecs, stream)
  {
    hide Stalled;
    assert Passes(fecs, 0, stream) == fecs;
    EndsIff(fecs, stream);
  }
}
