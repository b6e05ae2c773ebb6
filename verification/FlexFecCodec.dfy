/**
 The FlexFEC-03 codec (pkg/flexfec/flexfec_encoder_03.go and pkg/flexfec/flexfec_decoder_03.go): repair
 packets as exclusive-or folds, their header (section 4.2 of draft-ietf-payload-flexible-fec-scheme-03)
 and the recovery of one lost packet (section 6.3.2).
 */
module FlexFecCodec {
  import opened Words
  import opened Bits
  import opened FlexFecCoverage

  const RTP_HEADER_SIZE := 12
  const BASE_HEADER_SIZE := 20

  /** A media packet as it is marshalled: at least the fixed RTP header. */
  type Packet = p: seq<Byte> | |p| >= 12 witness seq(12, _ => ZERO_BYTE)

  function SequenceNumberOf(p: Packet): Uint16 {
    BytesUint16(p[2..4])
  }

  function SsrcOf(p: Packet): (s: seq<Byte>)
    ensures |s| == 4
  {
    p[8..12]
  }

  function PayloadSize(p: Packet): nat {
    |p| - RTP_HEADER_SIZE
  }

  // -- Folds

  /**
   The bytes of a packet that are folded: its first eight header bytes, with the payload size in place
   of the sequence number, and then its payload, continued with zeros.
   */
  function Column(p: Packet, j: nat): Byte {
    if j == 2 || j == 3 then Uint16Bytes(Wrap16(PayloadSize(p)))[j - 2]
    else if j < 8 then p[j]
    else if j - 8 < PayloadSize(p) then p[RTP_HEADER_SIZE + (j - 8)]
    else ZERO_BYTE
  }

  function Fold(ps: seq<Packet>, j: nat): Byte
    decreases |ps|
  {
    if ps == [] then ZERO_BYTE else Xor(Fold(ps[..|ps| - 1], j), Column(ps[|ps| - 1], j))
  }

  lemma FoldAppend(ps: seq<Packet>, p: Packet, j: nat)
    ensures Fold(ps + [p], j) == Xor(Fold(ps, j), Column(p, j))
  {
    assert (ps + [p])[..|ps|] == ps;
  }

  /** Folding everything is folding the survivors and then the lost packet. */
  lemma {:induction false} FoldWithout(ps: seq<Packet>, i: nat, j: nat)
    requires i < |ps|
    ensures Fold(ps, j) == Xor(Fold(ps[..i] + ps[i + 1..], j), Column(ps[i], j))
    decreases |ps|
  {
    hide Column, Xor;
    var n := |ps| - 1;
    if i == n {
      assert ps[..i] + ps[i + 1..] == ps[..n];
    } else {
      FoldWithout(ps[..n], i, j);
      var rest := ps[..n][..i] + ps[..n][i + 1..];
      assert ps[..i] + ps[i + 1..] == rest + [ps[n]];
      FoldAppend(rest, ps[n], j);
      var f, a, b := Fold(rest, j), Column(ps[i], j), Column(ps[n], j);
      XorAssociative(f, a, b);
      XorInverse(a, b);
      XorAssociative(f, b, a);
    }
  }

  function MaxPayloadSize(ps: seq<Packet>): (m: nat)
    ensures forall k :: 0 <= k < |ps| ==> PayloadSize(ps[k]) <= m
    decreases |ps|
  {
    if ps == [] then 0 else Max(MaxPayloadSize(ps[..|ps| - 1]), PayloadSize(ps[|ps| - 1]))
  }

  // -- Which packets a repair packet protects

  /** The encoder's order check: the packets follow each other without a gap. */
  ghost predicate Consecutive(media: seq<Packet>) {
    forall i :: 1 <= i < |media| ==> SequenceNumberOf(media[i]) == Wrap16(SequenceNumberOf(media[i - 1]) + 1)
  }

  /** The packets at these positions. */
  function Select(media: seq<Packet>, at: seq<nat>): (ps: seq<Packet>)
    requires forall k :: 0 <= k < |at| ==> at[k] < |media|
    ensures |ps| == |at| && forall k :: 0 <= k < |at| ==> ps[k] == media[at[k]]
  {
    seq(|at|, k requires 0 <= k < |at| => media[at[k]])
  }

  function ProtectedWord(numFec: nat, numMedia: nat, fec: nat): (w: Word)
    ensures |w| == numMedia && forall i :: 0 <= i < numMedia ==> w[i] == Protects(numFec, numMedia, fec, i)
  {
    seq(numMedia, i requires 0 <= i < numMedia => Protects(numFec, numMedia, fec, i))
  }

  /** The positions FEC packet `fec` protects, in ascending order. */
  function ProtectedIndices(numFec: nat, numMedia: nat, fec: nat): (at: seq<nat>)
    ensures forall k :: 0 <= k < |at| ==> Protects(numFec, numMedia, fec, at[k])
    ensures forall j, k :: 0 <= j < k < |at| ==> at[j] < at[k]
  {
    Marked(ProtectedWord(numFec, numMedia, fec))
  }

  /** A FEC packet protects something exactly when its own index is that of a media packet. */
  lemma ProtectsSomething(numFec: nat, numMedia: nat, fec: nat)
    ensures ProtectedIndices(numFec, numMedia, fec) != [] <==> fec < numFec && fec < numMedia
  {
    if fec < numFec && fec < numMedia {
      RemainderIs(fec, 0, fec, numFec);
      MarkedComplete(ProtectedWord(numFec, numMedia, fec), fec);
    } else if ProtectedIndices(numFec, numMedia, fec) != [] {
      var i := ProtectedIndices(numFec, numMedia, fec)[0];
      assert Protects(numFec, numMedia, fec, i);
      if fec >= numMedia {
        RowStart(numFec, numMedia, fec);
      }
    }
  }

  // -- What a repair packet contains

  /** Clears the two version bits. */
  function WithoutVersion(b: Byte): Byte {
    b.(b0 := false, b1 := false)
  }

  /** Sets the version to 2. */
  function WithVersion2(b: Byte): Byte {
    b.(b0 := true, b1 := false)
  }

  function WithTopBit(b: Byte): Byte {
    b.(b0 := true)
  }

  const ONE_BYTE := Byte(false, false, false, false, false, false, false, true)

  /** A mask field with its k-bit, which tells that no further mask follows. */
  function LastMask(m: Word): (b: seq<Byte>)
    requires |m| > 0 && |m| % 8 == 0
    ensures |b| == |m| / 8
  {
    var b := WordBytes(m);
    b[0 := WithTopBit(b[0])]
  }

  function MaskBytes(mask: BitArray): (b: seq<Byte>)
    ensures |b| == 2 || |b| == 6 || |b| == 14
  {
    var m1, m2, m3 := ExtractMask1(mask), ExtractMask2(mask), ExtractMask3(mask);
    if IsZero(m2) && IsZero(m3) then LastMask(m1)
    else if IsZero(m3) then WordBytes(m1) + LastMask(m2)
    else WordBytes(m1) + WordBytes(m2) + LastMask(m3)
  }

  function FoldedHeader(ps: seq<Packet>): (b: seq<Byte>)
    ensures |b| == 8 && b[0] == WithoutVersion(Fold(ps, 0)) && forall j :: 0 < j < 8 ==> b[j] == Fold(ps, j)
  {
    seq(8, j requires 0 <= j < 8 => if j == 0 then WithoutVersion(Fold(ps, 0)) else Fold(ps, j))
  }

  function Repair(ps: seq<Packet>): (b: seq<Byte>)
    ensures |b| == MaxPayloadSize(ps) && forall j :: 0 <= j < |b| ==> b[j] == Fold(ps, 8 + j)
  {
    seq(MaxPayloadSize(ps), j requires 0 <= j < MaxPayloadSize(ps) => Fold(ps, 8 + j))
  }

  const SSRC_COUNT_FIELD := [ONE_BYTE, ZERO_BYTE, ZERO_BYTE, ZERO_BYTE]

  /** The payload of the FEC packet with this mask that protects these packets. */
  function FecPayload(ps: seq<Packet>, base: Uint16, mask: BitArray): seq<Byte>
    requires ps != []
  {
    FoldedHeader(ps) + SSRC_COUNT_FIELD + SsrcOf(ps[0]) + Uint16Bytes(base) + MaskBytes(mask) + Repair(ps)
  }

  // -- Parsing

  datatype ParseError =
    | PacketTruncated
    | RetransmissionBitSet
    | InflexibleGeneratorMatrix
    | MultipleSsrcProtection
    | LastKBitFalse

  datatype FlexFec = FlexFec(
    protectedSSRC: seq<Byte>,
    seqNumBase: Uint16,
    mask0: Word,
    mask1: Word,
    mask2: Word,
    payload: seq<Byte>)

  datatype ParseResult = Parsed(fec: FlexFec) | ParseFailed(error: ParseError)

  /** The word of these bytes with its top bit, the k-bit, cleared. */
  function MaskField(b: seq<Byte>): (m: Word)
    requires |b| > 0
    ensures |m| == 8 * |b|
  {
    [false] + BytesWord(b)[1..]
  }

  function ParseFlexFec03Header(data: seq<Byte>): ParseResult {
    if |data| < 20 then ParseFailed(PacketTruncated)
    else if data[0].b0 then ParseFailed(RetransmissionBitSet)
    else if data[0].b1 then ParseFailed(InflexibleGeneratorMatrix)
    else if data[8] != ONE_BYTE then ParseFailed(MultipleSsrcProtection)
    else
      var ssrc, base, raw := data[12..16], BytesUint16(data[16..18]), data[18..];
      var mask0 := MaskField(raw[0..2]);
      if raw[0].b0 then Parsed(FlexFec(ssrc, base, mask0, Zeros(32), Zeros(64), raw[2..]))
      else if |data| < 24 then ParseFailed(PacketTruncated)
      else
        var mask1 := MaskField(raw[2..6]);
        if raw[2].b0 then Parsed(FlexFec(ssrc, base, mask0, mask1, Zeros(64), raw[6..]))
        else if |data| < 32 then ParseFailed(PacketTruncated)
        else if raw[6].b0 then Parsed(FlexFec(ssrc, base, mask0, mask1, MaskField(raw[6..14]), raw[14..]))
        else ParseFailed(LastKBitFalse)
  }

  /** Bit n of the header, counted from its first byte. */
  function BitAt(data: seq<Byte>, n: nat): bool
    requires n < 8 * |data|
  {
    BitsOf(data[n / 8])[n % 8]
  }

  /** The mask has the bits of the field that begins with byte `at`, without the k-bit. */
  ghost predicate IsField(mask: Word, data: seq<Byte>, at: nat) {
    && |mask| > 0 && 8 * at + |mask| <= 8 * |data| && !mask[0]
    && forall k :: 1 <= k < |mask| ==> mask[k] == BitAt(data, 8 * at + k)
  }

  lemma FieldBits(data: seq<Byte>, at: nat, size: nat)
    requires size > 0 && at + size <= |data|
    ensures IsField(MaskField(data[at..at + size]), data, at)
  {
    hide BitsOf;
    var b := data[at..at + size];
    forall k | 1 <= k < 8 * size
      ensures MaskField(b)[k] == BitAt(data, 8 * at + k)
    {
      BitOfBytes(b, k);
      assert (8 * at + k) / 8 == at + k / 8 && (8 * at + k) % 8 == k % 8;
    }
  }

  /** The first thing wrong with a header, if any. */
  ghost predicate FailsWith(data: seq<Byte>, error: ParseError) {
    var short := |data| < 20;
    var second := !short && !data[0].b0 && !data[0].b1 && ByteValue(data[8]) == 1 && !data[18].b0;
    var third := second && |data| >= 24 && !data[20].b0;
    match error
    case PacketTruncated => short || (second && |data| < 24) || (third && |data| < 32)
    case RetransmissionBitSet => !short && data[0].b0
    case InflexibleGeneratorMatrix => !short && !data[0].b0 && data[0].b1
    case MultipleSsrcProtection => !short && !data[0].b0 && !data[0].b1 && ByteValue(data[8]) != 1
    case LastKBitFalse => third && |data| >= 32 && !data[24].b0
  }

  /**
   Exactly which headers parse, and as what: 20 bytes with no R and no F bit, one SSRC, and a k-bit in the first,
   second or third mask field; a mask field that is not there is zero, and the repair payload follows the last one.
   */
  lemma ParsesIff(data: seq<Byte>)
    ensures var r := ParseFlexFec03Header(data);
            var last := if |data| < 20 then 0 else if data[18].b0 then 20
                        else if |data| < 24 then 0 else if data[20].b0 then 24
                        else if |data| < 32 || !data[24].b0 then 0 else 32;
            && (r.Parsed? <==> last > 0 && !data[0].b0 && !data[0].b1 && ByteValue(data[8]) == 1)
            && (r.Parsed? ==>
                  && r.fec.protectedSSRC == data[12..16]
                  && r.fec.seqNumBase == 256 * ByteValue(data[16]) + ByteValue(data[17])
                  && IsField(r.fec.mask0, data, 18) && |r.fec.mask0| == 16
                  && (if last > 20 then IsField(r.fec.mask1, data, 20) else IsZero(r.fec.mask1)) && |r.fec.mask1| == 32
                  && (if last > 24 then IsField(r.fec.mask2, data, 24) else IsZero(r.fec.mask2)) && |r.fec.mask2| == 64
                  && r.fec.payload == data[last..])
            && (r.ParseFailed? ==> FailsWith(data, r.error))
  {
    hide MaskField, BytesUint16, IsField, ByteValue;
    if |data| >= 20 {
      OneByteValue(data[8]);
      BytesUint16Value(data[16], data[17]);
      assert data[16..18] == [data[16], data[17]];
      FieldBits(data, 18, 2);
      var raw := data[18..];
      assert raw[0..2] == data[18..20] && raw[2..] == data[20..];
      if |data| >= 24 {
        FieldBits(data, 20, 4);
        assert raw[2..6] == data[20..24] && raw[6..] == data[24..];
      }
      if |data| >= 32 {
        FieldBits(data, 24, 8);
        assert raw[6..14] == data[24..32] && raw[14..] == data[32..];
      }
    }
  }

  lemma OneByteValue(b: Byte)
    ensures b == ONE_BYTE <==> ByteValue(b) == 1
  {
  }

  lemma FirstByte(b: seq<Byte>)
    requires b != []
    ensures BytesWord(b) == BitsOf(b[0]) + BytesWord(b[1..])
    ensures BytesWord(b)[0] == b[0].b0
    ensures BitsOf(WithTopBit(b[0]))[1..] == BitsOf(b[0])[1..]
  {
  }

  lemma FieldRoundTrip(m: Word)
    requires |m| > 0 && |m| % 8 == 0 && !m[0]
    ensures MaskField(WordBytes(m)) == m && !WordBytes(m)[0].b0
    ensures MaskField(LastMask(m)) == m && LastMask(m)[0].b0
  {
    hide WordBytes, BytesWord, BitsOf;
    WordRoundTrip(m);
    var b, last := WordBytes(m), LastMask(m);
    FirstByte(b);
    FirstByte(last);
    assert m == [false] + m[1..];
    assert last[1..] == b[1..];
    var rest := BytesWord(b[1..]);
    assert BytesWord(b)[1..] == BitsOf(b[0])[1..] + rest;
    assert BytesWord(last)[1..] == BitsOf(last[0])[1..] + rest;
  }

  /** Parsing undoes writing: the SSRC, the base, the three masks and the repair payload come back. */
  lemma ParseRoundTrip(ps: seq<Packet>, base: Uint16, mask: BitArray)
    requires ps != []
    ensures ParseFlexFec03Header(FecPayload(ps, base, mask)) ==
            Parsed(FlexFec(SsrcOf(ps[0]), base, ExtractMask1(mask), ExtractMask2(mask), ExtractMask3(mask), Repair(ps)))
  {
    hide ExtractMask1, ExtractMask2, ExtractMask3, Repair, LastMask, WordBytes, MaskField, Uint16Bytes, BytesUint16;
    hide Fold;
    var data := FecPayload(ps, base, mask);
    var m1, m2, m3 := ExtractMask1(mask), ExtractMask2(mask), ExtractMask3(mask);
    FieldRoundTrip(m1);
    FieldRoundTrip(m2);
    FieldRoundTrip(m3);
    Uint16RoundTrip(base);
    var raw := MaskBytes(mask) + Repair(ps);
    assert data == FoldedHeader(ps) + SSRC_COUNT_FIELD + SsrcOf(ps[0]) + Uint16Bytes(base) + raw;
    assert data[12..16] == SsrcOf(ps[0]) && data[16..18] == Uint16Bytes(base) && data[18..] == raw &&
           data[8] == ONE_BYTE;
    if IsZero(m2) && IsZero(m3) {
      assert raw[0..2] == LastMask(m1) && raw[2..] == Repair(ps);
      assert m2 == Zeros(32) && m3 == Zeros(64);
    } else if IsZero(m3) {
      assert raw[0..2] == WordBytes(m1) && raw[2..6] == LastMask(m2) && raw[6..] == Repair(ps);
      assert m3 == Zeros(64);
    } else {
      assert raw[0..2] == WordBytes(m1) && raw[2..6] == WordBytes(m2) && raw[6..14] == LastMask(m3) &&
             raw[14..] == Repair(ps);
    }
  }

  /** The numbers a parsed header protects. */
  method ProtectedNumbers(fec: FlexFec) returns (seqs: seq<Uint16>)
    requires |fec.mask0| == 16 && |fec.mask1| == 32 && |fec.mask2| == 64
    ensures seqs == Numbered(fec.seqNumBase, Marked(fec.mask0[1..]) + Shifted(Marked(fec.mask1[1..]), 15) +
            Shifted(Marked(fec.mask2[1..]), 46))
  {
    hide Marked, Shifted, Numbered, Wrap16, Zeros;
    ghost var at0, at1 := Marked(fec.mask0[1..]), Shifted(Marked(fec.mask1[1..]), 15);
    ghost var at2 := Shifted(Marked(fec.mask2[1..]), 46);
    NumberedConcat(fec.seqNumBase, at0, at1);
    NumberedConcat(fec.seqNumBase, at0 + at1, at2);
    seqs := DecodeMask(Zeros(48) + fec.mask0, 15, fec.seqNumBase);
    assert (Zeros(48) + fec.mask0)[49..] == fec.mask0[1..];
    if !IsZero(fec.mask1) {
      var more := DecodeMask(Zeros(32) + fec.mask1, 31, Wrap16(fec.seqNumBase + 15));
      assert (Zeros(32) + fec.mask1)[33..] == fec.mask1[1..];
      NumberedShift(fec.seqNumBase, Marked(fec.mask1[1..]), 15);
      seqs := seqs + more;
    } else {
      MarkedZeros(fec.mask1[1..]);
      assert Numbered(fec.seqNumBase, at1) == [];
    }
    if !IsZero(fec.mask2) {
      var more := DecodeMask(fec.mask2, 63, Wrap16(fec.seqNumBase + 46));
      NumberedShift(fec.seqNumBase, Marked(fec.mask2[1..]), 46);
      seqs := seqs + more;
    } else {
      MarkedZeros(fec.mask2[1..]);
      assert Numbered(fec.seqNumBase, at2) == [];
    }
  }

  lemma NumberedConcat(base: int, a: seq<nat>, b: seq<nat>)
    ensures Numbered(base, a + b) == Numbered(base, a) + Numbered(base, b)
  {
    hide Wrap16;
  }

  lemma NumberedShift(base: int, at: seq<nat>, n: nat)
    ensures Numbered(Wrap16(base + n), at) == Numbered(base, Shifted(at, n))
  {
    forall k | 0 <= k < |at|
      ensures Wrap16(Wrap16(base + n) + at[k]) == Wrap16(base + (at[k] + n))
    {
      WrapSum(base + n, at[k]);
    }
  }

  // -- Recovery

  function RepairAt(repair: seq<Byte>, j: nat): Byte {
    if j < |repair| then repair[j] else ZERO_BYTE
  }

  /** The first eight header bytes of the missing packet, with its payload size in place of its number. */
  function MissingHeader(fec: seq<Byte>, present: seq<Packet>): (h: seq<Byte>)
    requires |fec| >= 8
    ensures |h| == 8 && forall j :: 0 <= j < 8 ==> h[j] == Xor(fec[j], Fold(present, j))
  {
    seq(8, j requires 0 <= j < 8 => Xor(fec[j], Fold(present, j)))
  }

  /** The bytes rebuilt for the missing packet `seqNum` from the others a FEC packet protects. */
  function Rebuilt(fec: seq<Byte>, repair: seq<Byte>, present: seq<Packet>, seqNum: Uint16, ssrc: seq<Byte>): seq<Byte>
    requires |fec| >= 8
  {
    var h := MissingHeader(fec, present);
    [WithVersion2(h[0]), h[1]] + Uint16Bytes(seqNum) + h[4..8] + ssrc +
    seq(BytesUint16(h[2..4]), j requires j >= 0 => Xor(RepairAt(repair, j), Fold(present, 8 + j)))
  }

  lemma MissingColumn(ps: seq<Packet>, i: nat, j: nat)
    requires i < |ps|
    ensures Xor(Fold(ps, j), Fold(ps[..i] + ps[i + 1..], j)) == Column(ps[i], j)
  {
    hide Column, Xor, Fold;
    FoldWithout(ps, i, j);
    var f, c := Fold(ps[..i] + ps[i + 1..], j), Column(ps[i], j);
    XorInverse(f, c);
    XorCancels(c, f);
  }

  lemma VersionRestored(all: Byte, others: Byte, lost: Byte)
    requires Xor(all, others) == lost && lost.b0 && !lost.b1
    ensures WithVersion2(Xor(WithoutVersion(all), others)) == lost
  {
  }

  lemma MaxPayloadCovers(ps: seq<Packet>, i: nat)
    requires i < |ps|
    ensures PayloadSize(ps[i]) <= |Repair(ps)|
  {
  }

  /**
   Recovery. Whatever the sizes of the protected packets, if all but one of them are at hand the missing
   one is rebuilt byte for byte.
   */
  lemma RecoversLostPacket(ps: seq<Packet>, i: nat, fec: seq<Byte>, seqNum: Uint16)
    requires i < |ps| && PayloadSize(ps[i]) < UINT16_SIZE
    requires ps[i][0].b0 && !ps[i][0].b1 && ps[i][2..4] == Uint16Bytes(seqNum)
    requires |fec| >= 8 && fec[..8] == FoldedHeader(ps)
    ensures Rebuilt(fec, Repair(ps), ps[..i] + ps[i + 1..], seqNum, SsrcOf(ps[i])) == ps[i]
  {
    hide Column, Xor, Fold, Uint16Bytes, BytesUint16, MaxPayloadSize;
    var lost, present, repair := ps[i], ps[..i] + ps[i + 1..], Repair(ps);
    var h := MissingHeader(fec, present);
    forall j | 0 < j < 8
      ensures h[j] == Column(lost, j)
    {
      assert fec[j] == fec[..8][j];
      MissingColumn(ps, i, j);
    }
    assert fec[0] == fec[..8][0];
    MissingColumn(ps, i, 0);
    HeaderColumns(lost);
    VersionRestored(Fold(ps, 0), Fold(present, 0), lost[0]);
    assert h[2..4] == Uint16Bytes(Wrap16(PayloadSize(lost)));
    Uint16RoundTrip(PayloadSize(lost));
    MaxPayloadCovers(ps, i);
    var payload := seq(PayloadSize(lost), j requires j >= 0 => Xor(RepairAt(repair, j), Fold(present, 8 + j)));
    forall j | 0 <= j < PayloadSize(lost)
      ensures payload[j] == lost[12 + j]
    {
      MissingColumn(ps, i, 8 + j);
      PayloadColumn(lost, j);
    }
    assert lost[12..] == payload;
    assert lost == [lost[0], lost[1]] + lost[2..4] + lost[4..8] + lost[8..12] + lost[12..];
    assert h[4..8] == lost[4..8];
  }

  lemma HeaderColumns(p: Packet)
    ensures Column(p, 0) == p[0] && Column(p, 1) == p[1]
    ensures forall j :: 4 <= j < 8 ==> Column(p, j) == p[j]
    ensures [Column(p, 2), Column(p, 3)] == Uint16Bytes(Wrap16(PayloadSize(p)))
  {
  }

  lemma PayloadColumn(p: Packet, j: nat)
    requires j < PayloadSize(p)
    ensures Column(p, 8 + j) == p[12 + j]
  {
  }
}
