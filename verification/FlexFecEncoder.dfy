/** The FlexFEC-03 encoder (pkg/flexfec/flexfec_encoder_03.go), which folds packets in place into its buffer. */
module FlexFecEncoder {
  import opened Words
  import opened Bits
  import opened FlexFecCoverage
  import opened FlexFecCodec
  import opened FlexFecDecoder
  import opened FlexFecRoundTrip

  datatype FecPacket = FecPacket(
    payloadType: int,
    sequenceNumber: Uint16,
    timestamp: int,
    ssrc: int,
    payload: seq<Byte>)

  const FEC_TIMESTAMP := 54243243

  // -- Folding into the buffer

  /** The buffer holds the folds of these packets, around a header that is still empty. */
  ghost predicate Folded(b: seq<Byte>, headerSize: nat, ps: seq<Packet>) {
    && BASE_HEADER_SIZE <= headerSize <= |b|
    && b[0] == WithoutVersion(Fold(ps, 0))
    && (forall j :: 1 <= j < 8 ==> b[j] == Fold(ps, j))
    && (forall j :: 8 <= j < headerSize ==> b[j] == ZERO_BYTE)
    && (forall j :: headerSize <= j < |b| ==> b[j] == Fold(ps, 8 + (j - headerSize)))
  }

  lemma VersionStaysClear(a: Byte, c: Byte)
    ensures WithoutVersion(Xor(WithoutVersion(a), c)) == WithoutVersion(Xor(a, c))
  {
  }

  method FoldHeader(buffer: array<Byte>, headerSize: nat, p: Packet, ghost ps: seq<Packet>)
    requires Folded(buffer[..], headerSize, ps)
    modifies buffer
    ensures buffer[0] == WithoutVersion(Fold(ps + [p], 0)) && forall j :: 1 <= j < 8 ==> buffer[j] == Fold(ps + [p], j)
    ensures forall j :: 8 <= j < buffer.Length ==> buffer[j] == old(buffer[j])
  {
    hide Xor, Fold, Uint16Bytes;
    buffer[0] := Xor(buffer[0], p[0]);
    buffer[1] := Xor(buffer[1], p[1]);
    buffer[0] := WithoutVersion(buffer[0]);
    var lengthRecovery := Uint16Bytes(Wrap16(PayloadSize(p)));
    buffer[2] := Xor(buffer[2], lengthRecovery[0]);
    buffer[3] := Xor(buffer[3], lengthRecovery[1]);
    buffer[4] := Xor(buffer[4], p[4]);
    buffer[5] := Xor(buffer[5], p[5]);
    buffer[6] := Xor(buffer[6], p[6]);
    buffer[7] := Xor(buffer[7], p[7]);
    VersionStaysClear(Fold(ps, 0), p[0]);
    forall j | 0 <= j < 8
      ensures Fold(ps + [p], j) == Xor(Fold(ps, j), Column(p, j))
    {
      FoldAppend(ps, p, j);
    }
    assert Column(p, 2) == lengthRecovery[0] && Column(p, 3) == lengthRecovery[1];
  }

  method FoldPayload(buffer: array<Byte>, headerSize: nat, p: Packet)
    requires BASE_HEADER_SIZE <= headerSize && headerSize + PayloadSize(p) <= buffer.Length
    modifies buffer
    ensures forall j :: 0 <= j < headerSize ==> buffer[j] == old(buffer[j])
    ensures forall j :: headerSize <= j < buffer.Length ==>
            buffer[j] == Xor(old(buffer[j]), Column(p, 8 + (j - headerSize)))
  {
    hide Xor;
    var n := PayloadSize(p);
    for i := 0 to n
      invariant forall j :: 0 <= j < buffer.Length && !(headerSize <= j < headerSize + i) ==>
                buffer[j] == old(buffer[j])
      invariant forall j :: headerSize <= j < headerSize + i ==>
                buffer[j] == Xor(old(buffer[j]), Column(p, 8 + (j - headerSize)))
    {
      buffer[headerSize + i] := Xor(buffer[headerSize + i], p[RTP_HEADER_SIZE + i]);
    }
    forall j | headerSize + n <= j < buffer.Length
      ensures buffer[j] == Xor(old(buffer[j]), Column(p, 8 + (j - headerSize)))
    {
      XorInverse(buffer[j], ZERO_BYTE);
    }
  }

  /** Folds one more packet in. */
  method FoldIn(buffer: array<Byte>, headerSize: nat, p: Packet, ghost ps: seq<Packet>)
    requires Folded(buffer[..], headerSize, ps) && headerSize + PayloadSize(p) <= buffer.Length
    modifies buffer
    ensures Folded(buffer[..], headerSize, ps + [p])
  {
    hide Xor, Fold, Column;
    FoldHeader(buffer, headerSize, p, ps);
    FoldPayload(buffer, headerSize, p);
    forall j | headerSize <= j < buffer.Length
      ensures buffer[j] == Fold(ps + [p], 8 + (j - headerSize))
    {
      FoldAppend(ps, p, 8 + (j - headerSize));
    }
  }

  /** The bytes with some of them overwritten. */
  function Written(s: seq<Byte>, at: nat, bytes: seq<Byte>): (r: seq<Byte>)
    requires at + |bytes| <= |s|
    ensures |r| == |s|
  {
    s[..at] + bytes + s[at + |bytes|..]
  }

  lemma WrittenTwice(s: seq<Byte>, at: nat, a: seq<Byte>, b: seq<Byte>)
    requires at + |a| + |b| <= |s|
    ensures Written(Written(s, at, a), at + |a|, b) == Written(s, at, a + b)
  {
  }

  method Put(buffer: array<Byte>, at: nat, bytes: seq<Byte>)
    requires at + |bytes| <= buffer.Length
    modifies buffer
    ensures buffer[..] == Written(old(buffer[..]), at, bytes)
  {
    for i := 0 to |bytes|
      invariant forall j :: 0 <= j < at || at + i <= j < buffer.Length ==> buffer[j] == old(buffer[j])
      invariant forall j :: at <= j < at + i ==> buffer[j] == bytes[j - at]
    {
      buffer[at + i] := bytes[i];
    }
    assert buffer[..] == Written(old(buffer[..]), at, bytes);
  }

  /** Writes a mask field and sets its k-bit. */
  method PutLastMask(buffer: array<Byte>, at: nat, m: Word)
    requires |m| > 0 && |m| % 8 == 0 && at + |m| / 8 <= buffer.Length
    modifies buffer
    ensures buffer[..] == Written(old(buffer[..]), at, LastMask(m))
  {
    hide WordBytes;
    Put(buffer, at, WordBytes(m));
    buffer[at] := WithTopBit(buffer[at]);
  }

  /** Writes the masks, each optional one only when it or a later one is needed, and the k-bit of the last. */
  method PutMasks(buffer: array<Byte>, mask: BitArray)
    requires 18 + |MaskBytes(mask)| <= buffer.Length
    modifies buffer
    ensures buffer[..] == Written(old(buffer[..]), 18, MaskBytes(mask))
  {
    hide WordBytes, LastMask, ExtractMask1, ExtractMask2, ExtractMask3, IsZero, Written;
    ghost var before := buffer[..];
    var mask1, mask2, mask3 := ExtractMask1(mask), ExtractMask2(mask), ExtractMask3(mask);
    if IsZero(mask2) && IsZero(mask3) {
      PutLastMask(buffer, 18, mask1);
    } else {
      Put(buffer, 18, WordBytes(mask1));
      if IsZero(mask3) {
        PutLastMask(buffer, 20, mask2);
        WrittenTwice(before, 18, WordBytes(mask1), LastMask(mask2));
      } else {
        Put(buffer, 20, WordBytes(mask2));
        WrittenTwice(before, 18, WordBytes(mask1), WordBytes(mask2));
        PutLastMask(buffer, 24, mask3);
        WrittenTwice(before, 18, WordBytes(mask1) + WordBytes(mask2), LastMask(mask3));
      }
    }
  }

  /** Folds all the packets into a new buffer. */
  method FoldAll(ps: seq<Packet>, headerSize: nat) returns (buffer: array<Byte>)
    requires headerSize >= BASE_HEADER_SIZE
    ensures fresh(buffer) && buffer.Length == headerSize + MaxPayloadSize(ps) && Folded(buffer[..], headerSize, ps)
  {
    hide Fold, Xor, MaxPayloadSize, Column, Folded;
    var maxPayloadSize := FindMaxPayloadSize(ps);
    buffer := new Byte[headerSize + maxPayloadSize](_ => ZERO_BYTE);
    FoldedNothing(buffer[..], headerSize);
    for k := 0 to |ps|
      invariant Folded(buffer[..], headerSize, ps[..k])
    {
      assert ps[..k + 1] == ps[..k] + [ps[k]];
      MaxPayloadCovers(ps, k);
      FoldIn(buffer, headerSize, ps[k], ps[..k]);
    }
    assert ps[..|ps|] == ps;
  }

  /** Folds the packets and writes the header of the FEC packet that protects them. */
  method FillFecPayload(ps: seq<Packet>, mediaBaseSn: Uint16, mask: BitArray) returns (payload: seq<Byte>)
    requires ps != []
    ensures payload == FecPayload(ps, mediaBaseSn, mask)
  {
    hide MaxPayloadSize, FecPayload, Folded, ExtractMask2, ExtractMask3, Uint16Bytes, LastMask, WordBytes, SsrcOf;
    hide Written;
    var headerSize := BASE_HEADER_SIZE;
    if !IsZero(ExtractMask2(mask)) || !IsZero(ExtractMask3(mask)) {
      headerSize := headerSize + 4;
    }
    if !IsZero(ExtractMask3(mask)) {
      headerSize := headerSize + 8;
    }
    assert headerSize == 18 + |MaskBytes(mask)|;
    var buffer := FoldAll(ps, headerSize);
    ghost var folded := buffer[..];
    ghost var fixed := SSRC_COUNT_FIELD + SsrcOf(ps[0]);
    Put(buffer, 8, SSRC_COUNT_FIELD);
    Put(buffer, 12, SsrcOf(ps[0]));
    WrittenTwice(folded, 8, SSRC_COUNT_FIELD, SsrcOf(ps[0]));
    Put(buffer, 16, Uint16Bytes(mediaBaseSn));
    WrittenTwice(folded, 8, fixed, Uint16Bytes(mediaBaseSn));
    PutMasks(buffer, mask);
    WrittenTwice(folded, 8, fixed + Uint16Bytes(mediaBaseSn), MaskBytes(mask));
    payload := buffer[..];
    AssembledPayload(folded, headerSize, ps, mediaBaseSn, mask);
  }

  lemma FoldedNothing(b: seq<Byte>, headerSize: nat)
    requires BASE_HEADER_SIZE <= headerSize <= |b| && forall j :: 0 <= j < |b| ==> b[j] == ZERO_BYTE
    ensures Folded(b, headerSize, [])
  {
  }

  lemma AssembledPayload(folded: seq<Byte>, headerSize: nat, ps: seq<Packet>, base: Uint16, mask: BitArray)
    requires ps != [] && Folded(folded, headerSize, ps) && |folded| == headerSize + MaxPayloadSize(ps)
    requires headerSize == 18 + |MaskBytes(mask)|
    ensures Written(folded, 8, SSRC_COUNT_FIELD + SsrcOf(ps[0]) + Uint16Bytes(base) + MaskBytes(mask)) ==
            FecPayload(ps, base, mask)
  {
    hide Fold, MaxPayloadSize, MaskBytes, Uint16Bytes;
    assert folded[..8] == FoldedHeader(ps);
    var repair := folded[headerSize..];
    forall j | 0 <= j < |repair|
      ensures repair[j] == Repair(ps)[j]
    {
      assert folded[headerSize + j] == Fold(ps, 8 + (headerSize + j - headerSize));
    }
    assert repair == Repair(ps);
  }

  method FindMaxPayloadSize(ps: seq<Packet>) returns (m: nat)
    ensures m == MaxPayloadSize(ps)
  {
    m := 0;
    for k := 0 to |ps|
      invariant m == MaxPayloadSize(ps[..k])
    {
      assert ps[..k + 1][..k] == ps[..k];
      m := Max(m, PayloadSize(ps[k]));
    }
    assert ps[..|ps|] == ps;
  }

  // -- The encoder

  /**
   Whatever is lost of a batch of one stream: a packet that is the only loss of its residue is rebuilt from the
   payload of the FEC packet of that residue, unless packet 109, for which the header has no bit, has it too.
   */
  ghost predicate RepairsClass(payload: seq<Byte>, media: seq<Packet>, numFec: nat, fec: nat)
    requires media != [] && numFec > 0
  {
    Batch(media, SequenceNumberOf(media[0]), SsrcOf(media[0])) && (|media| < 110 || 109 % numFec != fec) ==>
      forall lost: set<nat>, i: nat :: OnlyLoss(lost, |media|, numFec, i) && i % numFec == fec ==>
        RebuildsLost(payload, media, SsrcOf(media[0]), lost, i)
  }

  class FlexEncoder03 {
    var fecBaseSn: Uint16
    const payloadType: int
    const ssrc: int
    var coverage: ProtectionCoverage?<Packet>

    ghost predicate Valid()
      reads this, coverage, if coverage == null then {} else {coverage.packetMasks}
    {
      coverage != null ==> coverage.Valid()
    }

    constructor (payloadType: int, ssrc: int)
      ensures Valid() && coverage == null && fecBaseSn == 1000 && this.payloadType == payloadType && this.ssrc == ssrc
    {
      this.payloadType, this.ssrc, fecBaseSn, coverage := payloadType, ssrc, 1000, null;
    }

    /** What the encoder sends for FEC index `fec` of the batch its coverage holds. */
    ghost function FecFor(fec: nat, base: Uint16, sequenceNumber: Uint16): FecPacket
      requires coverage != null && coverage.Valid() && fec < coverage.numFecPackets && fec < coverage.numMediaPackets
      reads this`coverage, coverage, coverage.packetMasks
    {
      ProtectsSomething(coverage.numFecPackets, coverage.numMediaPackets, fec);
      var ps := Select(coverage.mediaPackets, ProtectedIndices(coverage.numFecPackets, coverage.numMediaPackets, fec));
      FecPacket(payloadType, sequenceNumber, FEC_TIMESTAMP, ssrc, FecPayload(ps, base, coverage.packetMasks[fec]))
    }

    /** What is sent for a batch under its own base repairs its part of the batch. */
    lemma AnswerRepairs(fec: nat, sequenceNumber: Uint16)
      requires coverage != null && coverage.Valid() && fec < coverage.numFecPackets && fec < coverage.numMediaPackets
      ensures var media := coverage.mediaPackets;
              RepairsClass(FecFor(fec, SequenceNumberOf(media[0]), sequenceNumber).payload, media,
                           coverage.numFecPackets, fec)
    {
      hide FecPayload, RebuildsLost, SequenceNumberOf, ProtectedIndices, Protectable, OnlyLoss;
      var media, numFec := coverage.mediaPackets, coverage.numFecPackets;
      if Batch(media, SequenceNumberOf(media[0]), SsrcOf(media[0])) && (|media| < 110 || 109 % numFec != fec) {
        forall lost: set<nat>, i: nat | OnlyLoss(lost, |media|, numFec, i) && i % numFec == fec
          ensures RebuildsLost(FecFor(fec, SequenceNumberOf(media[0]), sequenceNumber).payload, media,
                               SsrcOf(media[0]), lost, i)
        {
          PayloadRebuilds(media, SsrcOf(media[0]), numFec, coverage.packetMasks[fec], lost, i);
        }
      }
    }

    /**
     The FEC packet of one residue. It repairs the batch the coverage holds, if that is the batch the base number
     belongs to.
     */
    method EncodeFlexFecPacket(fec: nat, mediaBaseSn: Uint16) returns (packet: Option<FecPacket>)
      requires coverage != null && coverage.Valid() && fec < MAX_FEC_PACKETS
      modifies this`fecBaseSn
      ensures packet.Some? <==> fec < coverage.numFecPackets && fec < coverage.numMediaPackets
      ensures packet.Some? ==> packet.value == FecFor(fec, mediaBaseSn, old(fecBaseSn))
      ensures packet.Some? ==>
                && packet.value.payloadType == payloadType && packet.value.ssrc == ssrc
                && packet.value.sequenceNumber == old(fecBaseSn) && packet.value.timestamp == 54243243
                && (mediaBaseSn == SequenceNumberOf(coverage.mediaPackets[0]) ==>
                      RepairsClass(packet.value.payload, coverage.mediaPackets, coverage.numFecPackets, fec))
      ensures packet.Some? ==> fecBaseSn == Wrap16(old(fecBaseSn) + 1)
      ensures packet.None? ==> fecBaseSn == old(fecBaseSn)
    {
      hide FecPayload, Wrap16, Marked, RepairsClass, SequenceNumberOf;
      var covered := coverage.GetCoveredBy(fec);
      assert FirstBits(coverage.packetMasks[fec], coverage.numMediaPackets) ==
             ProtectedWord(coverage.numFecPackets, coverage.numMediaPackets, fec);
      ProtectsSomething(coverage.numFecPackets, coverage.numMediaPackets, fec);
      if |covered| == 0 {
        return None;
      }
      var ps := Select(coverage.mediaPackets, covered);
      var payload := FillFecPayload(ps, mediaBaseSn, coverage.packetMasks[fec]);
      packet := Some(FecPacket(payloadType, fecBaseSn, FEC_TIMESTAMP, ssrc, payload));
      fecBaseSn := Wrap16(fecBaseSn + 1);
      AnswerRepairs(fec, old(fecBaseSn));
    }

    /** Whether the packets follow each other without a gap. */
    method InOrder(media: seq<Packet>) returns (ok: bool)
      requires media != []
      ensures ok <==> Consecutive(media)
    {
      hide SequenceNumberOf, Wrap16;
      for i := 1 to |media|
        invariant forall k :: 1 <= k < i && k < |media| ==>
                  SequenceNumberOf(media[k]) == Wrap16(SequenceNumberOf(media[k - 1]) + 1)
      {
        if SequenceNumberOf(media[i]) != Wrap16(SequenceNumberOf(media[i - 1]) + 1) {
          return false;
        }
      }
      return true;
    }

    /**
     Encodes a batch. Nothing is sent for an empty batch or one with a gap, nor for a first batch that is too
     large. Otherwise there is one packet for every FEC index below both counts, in order and with
     consecutive numbers, encoding the batch the coverage holds: the new one, unless it is too large. Each packet
     repairs its part of the new batch.
     */
    method EncodeFec(media: seq<Packet>, numFec: nat) returns (packets: seq<FecPacket>)
      requires Valid() && numFec <= MAX_FEC_PACKETS
      modifies this, coverage, if coverage == null then {} else {coverage.packetMasks}
      ensures Valid()
      ensures media == [] || !Consecutive(media) || (old(coverage) == null && |media| > MAX_MEDIA_PACKETS) ==>
              packets == []
      ensures media != [] && Consecutive(media) && |media| <= MAX_MEDIA_PACKETS ==>
                && coverage != null && coverage.mediaPackets == media && coverage.numFecPackets == numFec
                && |packets| == Min(numFec, |media|)
                && forall f :: 0 <= f < |packets| ==> RepairsClass(packets[f].payload, media, numFec, f)
      ensures forall f :: 0 <= f < |packets| ==>
                && packets[f].payloadType == payloadType && packets[f].ssrc == ssrc
                && packets[f].sequenceNumber == Wrap16(old(fecBaseSn) + f) && packets[f].timestamp == 54243243
      ensures fecBaseSn == Wrap16(old(fecBaseSn) + |packets|)
      ensures media != [] && Consecutive(media) && (old(coverage) != null || |media| <= MAX_MEDIA_PACKETS) ==>
                && coverage != null && coverage.Valid()
                && |packets| == Min(numFec, Min(coverage.numFecPackets, coverage.numMediaPackets))
                && forall f :: 0 <= f < |packets| ==>
                     packets[f] == FecFor(f, SequenceNumberOf(media[0]), Wrap16(old(fecBaseSn) + f))
      ensures old(coverage) != null && |media| > MAX_MEDIA_PACKETS ==>
                coverage == old(coverage) && coverage.mediaPackets == old(coverage.mediaPackets)
    {
      hide FlexEncoder03.FecFor, ProtectionCoverage.Valid, Wrap16, SequenceNumberOf, Consecutive, RepairsClass;
      WrapIdentity(fecBaseSn);
      if |media| == 0 {
        return [];
      }
      var ordered := InOrder(media);
      if !ordered {
        return [];
      }
      if coverage == null {
        if |media| > MAX_MEDIA_PACKETS {
          return [];
        }
        coverage := new ProtectionCoverage<Packet>();
      }
      coverage.UpdateCoverage(media, numFec);
      packets := SendAll(numFec, SequenceNumberOf(media[0]));
      if |media| <= MAX_MEDIA_PACKETS {
        forall f | 0 <= f < |packets|
          ensures RepairsClass(packets[f].payload, media, numFec, f)
        {
          AnswerRepairs(f, Wrap16(old(fecBaseSn) + f));
        }
      }
    }

    method SendAll(numFec: nat, base: Uint16) returns (packets: seq<FecPacket>)
      requires coverage != null && coverage.Valid() && numFec <= MAX_FEC_PACKETS
      modifies this`fecBaseSn
      ensures |packets| == Min(numFec, Min(coverage.numFecPackets, coverage.numMediaPackets))
      ensures forall f :: 0 <= f < |packets| ==> packets[f] == FecFor(f, base, Wrap16(old(fecBaseSn) + f))
      ensures forall f :: 0 <= f < |packets| ==>
                && packets[f].payloadType == payloadType && packets[f].ssrc == ssrc
                && packets[f].sequenceNumber == Wrap16(old(fecBaseSn) + f) && packets[f].timestamp == 54243243
      ensures fecBaseSn == Wrap16(old(fecBaseSn) + |packets|)
    {
      hide Wrap16, FlexEncoder03.FecFor, RepairsClass, ProtectionCoverage.Valid, SequenceNumberOf;
      packets := [];
      ghost var limit := Min(coverage.numFecPackets, coverage.numMediaPackets);
      WrapSum(fecBaseSn, 0);
      WrapIdentity(fecBaseSn);
      for fec := 0 to numFec
        invariant |packets| == Min(fec, limit) && fecBaseSn == Wrap16(old(fecBaseSn) + |packets|)
        invariant forall f :: 0 <= f < |packets| ==> packets[f] == FecFor(f, base, Wrap16(old(fecBaseSn) + f))
        invariant forall f :: 0 <= f < |packets| ==>
                    && packets[f].payloadType == payloadType && packets[f].ssrc == ssrc
                    && packets[f].sequenceNumber == Wrap16(old(fecBaseSn) + f) && packets[f].timestamp == 54243243
      {
        var packet := EncodeFlexFecPacket(fec, base);
        WrapSum(old(fecBaseSn) + |packets|, 1);
        if packet.Some? {
          packets := packets + [packet.value];
        }
      }
    }
  }
}
