/**
 The FlexFEC-03 decoder (pkg/flexfec/flexfec_decoder_03.go): rebuilding one packet, and peeling, which
 repeats that until no FEC packet misses exactly one of the packets it protects.
 */
module FlexFecDecoder {
  import opened Words
  import opened Bits
  import opened FlexFecCoverage
  import opened FlexFecCodec

  /** A protected packet: its number and, once it is known, its bytes. */
  datatype Slot = Slot(number: Uint16, packet: Option<Packet>)

  /** A received FEC packet, with at least the header bytes its parsing has checked. */
  datatype FecState = FecState(payload: seq<Byte>, repair: seq<Byte>, slots: seq<Slot>)

  type Fec = f: FecState | |f.payload| >= 20 witness FecState(seq(20, _ => ZERO_BYTE), [], [])

  // -- One FEC packet

  /** The packets at hand, in order. */
  function Present(slots: seq<Slot>): seq<Packet>
    decreases |slots|
  {
    if slots == [] then []
    else
      var n := |slots| - 1;
      Present(slots[..n]) + (if slots[n].packet.Some? then [slots[n].packet.value] else [])
  }

  /** The number of the last slot that is missing. */
  function MissingNumber(slots: seq<Slot>): Uint16
    decreases |slots|
  {
    if slots == [] then 0
    else if slots[|slots| - 1].packet.None? then slots[|slots| - 1].number
    else MissingNumber(slots[..|slots| - 1])
  }

  ghost predicate OnlyMissing(slots: seq<Slot>, k: nat) {
    && k < |slots| && slots[k].packet.None?
    && forall j :: 0 <= j < |slots| && j != k ==> slots[j].packet.Some?
  }

  lemma {:induction false} AllPresent(slots: seq<Slot>, ps: seq<Packet>)
    requires |slots| == |ps| && forall j :: 0 <= j < |slots| ==> slots[j].packet == Some(ps[j])
    ensures Present(slots) == ps
    decreases |slots|
  {
    if slots != [] {
      AllPresent(slots[..|slots| - 1], ps[..|ps| - 1]);
      assert ps == ps[..|ps| - 1] + [ps[|ps| - 1]];
    }
  }

  /** With one slot missing, what is present is everything else, and the missing number is that slot's. */
  lemma {:induction false} PresentWithout(slots: seq<Slot>, k: nat, ps: seq<Packet>)
    requires OnlyMissing(slots, k) && |ps| == |slots|
    requires forall j :: 0 <= j < |slots| && j != k ==> slots[j].packet == Some(ps[j])
    ensures Present(slots) == ps[..k] + ps[k + 1..] && MissingNumber(slots) == slots[k].number
    decreases |slots|
  {
    var n := |slots| - 1;
    if k == n {
      AllPresent(slots[..n], ps[..n]);
      assert ps[..n] + ps[n + 1..] == ps[..n];
    } else {
      PresentWithout(slots[..n], k, ps[..n]);
      assert ps[..k] + ps[k + 1..] == (ps[..n][..k] + ps[..n][k + 1..]) + [ps[n]];
    }
  }

  lemma PresentNext(slots: seq<Slot>, n: nat)
    requires n < |slots|
    ensures Present(slots[..n + 1]) ==
            if slots[n].packet.Some? then Present(slots[..n]) + [slots[n].packet.value] else Present(slots[..n])
    ensures MissingNumber(slots[..n + 1]) ==
            if slots[n].packet.None? then slots[n].number else MissingNumber(slots[..n])
  {
    assert slots[..n + 1][..n] == slots[..n];
  }

  /** What the code rebuilds from a FEC packet. */
  function Recovered(f: Fec, ssrc: seq<Byte>): (p: Packet)
    requires |ssrc| == 4
  {
    Rebuilt(f.payload, f.repair, Present(f.slots), MissingNumber(f.slots), ssrc)
  }

  /** Whatever the FEC packet says, what is rebuilt carries the number of the missing slot. */
  lemma RecoveredNumber(f: Fec, ssrc: seq<Byte>, k: nat)
    requires |ssrc| == 4 && OnlyMissing(f.slots, k)
    ensures SequenceNumberOf(Recovered(f, ssrc)) == f.slots[k].number
  {
    hide Uint16Bytes, BytesUint16, Fold, Xor;
    var p := Recovered(f, ssrc);
    MissingIs(f.slots, k);
    assert p[2..4] == Uint16Bytes(MissingNumber(f.slots));
    Uint16RoundTrip(MissingNumber(f.slots));
  }

  lemma {:induction false} MissingIs(slots: seq<Slot>, k: nat)
    requires OnlyMissing(slots, k)
    ensures MissingNumber(slots) == slots[k].number
    decreases |slots|
  {
    if k < |slots| - 1 {
      MissingIs(slots[..|slots| - 1], k);
    }
  }

  /** Folds the header bytes and the payload size of a packet at hand into the header being recovered. */
  method FoldPresentHeader(header: array<Byte>, p: Packet, ghost fec: seq<Byte>, ghost ps: seq<Packet>)
    requires header.Length == 12 && |fec| >= 8 && forall j :: 0 <= j < 8 ==> header[j] == Xor(fec[j], Fold(ps, j))
    modifies header
    ensures forall j :: 0 <= j < 8 ==> header[j] == Xor(fec[j], Fold(ps + [p], j))
  {
    hide Xor, Fold, Uint16Bytes;
    var received := p[..2] + Uint16Bytes(Wrap16(PayloadSize(p))) + p[4..8];
    for i := 0 to 8
      invariant forall j :: 0 <= j < i ==> header[j] == Xor(fec[j], Fold(ps + [p], j))
      invariant forall j :: i <= j < 8 ==> header[j] == Xor(fec[j], Fold(ps, j))
    {
      assert received[i] == Column(p, i);
      header[i] := Xor(header[i], received[i]);
      XorAssociative(fec[i], Fold(ps, i), Column(p, i));
      FoldAppend(ps, p, i);
    }
  }

  method FoldPresentPayload(payload: array<Byte>, p: Packet, ghost repair: seq<Byte>, ghost ps: seq<Packet>)
    requires forall j :: 0 <= j < payload.Length ==> payload[j] == Xor(RepairAt(repair, j), Fold(ps, 8 + j))
    modifies payload
    ensures forall j :: 0 <= j < payload.Length ==> payload[j] == Xor(RepairAt(repair, j), Fold(ps + [p], 8 + j))
  {
    hide Xor, Fold, RepairAt;
    var n := Min(payload.Length, PayloadSize(p));
    for i := 0 to n
      invariant forall j :: 0 <= j < i ==> payload[j] == Xor(RepairAt(repair, j), Fold(ps + [p], 8 + j))
      invariant forall j :: i <= j < payload.Length ==> payload[j] == Xor(RepairAt(repair, j), Fold(ps, 8 + j))
    {
      payload[i] := Xor(payload[i], p[RTP_HEADER_SIZE + i]);
      XorAssociative(RepairAt(repair, i), Fold(ps, 8 + i), Column(p, 8 + i));
      FoldAppend(ps, p, 8 + i);
    }
    forall j | n <= j < payload.Length
      ensures payload[j] == Xor(RepairAt(repair, j), Fold(ps + [p], 8 + j))
    {
      FoldAppend(ps, p, 8 + j);
      XorInverse(Fold(ps, 8 + j), ZERO_BYTE);
    }
  }

  /** The recovered header, before its number and its version are put in, and the number of the missing slot. */
  method RecoverHeader(f: Fec) returns (header: array<Byte>, seqnum: Uint16)
    ensures fresh(header) && header.Length == 12 && seqnum == MissingNumber(f.slots)
    ensures header[..8] == MissingHeader(f.payload, Present(f.slots))
  {
    hide Xor, Fold, Present, MissingNumber;
    header := new Byte[12](i requires 0 <= i < 12 => if i < 10 then f.payload[i] else ZERO_BYTE);
    seqnum := 0;
    NothingPresent(f.slots, f.payload);
    for i := 0 to |f.slots|
      invariant forall j :: 0 <= j < 8 ==> header[j] == Xor(f.payload[j], Fold(Present(f.slots[..i]), j))
      invariant seqnum == MissingNumber(f.slots[..i])
    {
      PresentNext(f.slots, i);
      if f.slots[i].packet.Some? {
        FoldPresentHeader(header, f.slots[i].packet.value, f.payload, Present(f.slots[..i]));
      } else {
        seqnum := f.slots[i].number;
      }
    }
    assert f.slots[..|f.slots|] == f.slots;
  }

  lemma NothingPresent(slots: seq<Slot>, bytes: seq<Byte>)
    ensures Present(slots[..0]) == [] && MissingNumber(slots[..0]) == 0
    ensures forall j :: 0 <= j < |bytes| ==> bytes[j] == Xor(bytes[j], Fold([], j))
    ensures forall j: nat {:trigger Fold([], 8 + j)} :: Xor(RepairAt(bytes, j), Fold([], 8 + j)) == RepairAt(bytes, j)
  {
    forall b: Byte
      ensures Xor(b, ZERO_BYTE) == b
    {
      XorInverse(b, b);
    }
  }

  method RecoverPayload(f: Fec, length: nat) returns (payload: array<Byte>)
    ensures fresh(payload) && payload.Length == length
    ensures forall j :: 0 <= j < length ==> payload[j] == Xor(RepairAt(f.repair, j), Fold(Present(f.slots), 8 + j))
  {
    hide Xor, Fold, Present;
    var repair := f.repair;
    payload := new Byte[length](i requires 0 <= i => RepairAt(repair, i));
    NothingPresent(f.slots, f.repair);
    for i := 0 to |f.slots|
      invariant forall j :: 0 <= j < length ==>
                payload[j] == Xor(RepairAt(f.repair, j), Fold(Present(f.slots[..i]), 8 + j))
    {
      PresentNext(f.slots, i);
      if f.slots[i].packet.Some? {
        FoldPresentPayload(payload, f.slots[i].packet.value, f.repair, Present(f.slots[..i]));
      }
    }
    assert f.slots[..|f.slots|] == f.slots;
  }

  /**
   The protected stream: its SSRC, and which bytes the RTP library accepts as a packet. The bytes of an accepted
   packet are the packet.
   */
  datatype Stream = Stream(ssrc: Ssrc, unmarshals: Packet -> bool)

  type Ssrc = s: seq<Byte> | |s| == 4 witness seq(4, _ => ZERO_BYTE)

  /** The packet without contents that the code goes on with when it cannot unmarshal what it rebuilt. */
  const EMPTY_PACKET: Packet := [
    ZERO_BYTE, ZERO_BYTE, ZERO_BYTE, ZERO_BYTE, ZERO_BYTE, ZERO_BYTE,
    ZERO_BYTE, ZERO_BYTE, ZERO_BYTE, ZERO_BYTE, ZERO_BYTE, ZERO_BYTE]

  /** What the code enters for the missing packet of a FEC packet. */
  function Entered(f: Fec, stream: Stream): (p: Packet) {
    if stream.unmarshals(Recovered(f, stream.ssrc)) then Recovered(f, stream.ssrc) else EMPTY_PACKET
  }

  method RecoverPacket(f: Fec, stream: Stream) returns (packet: Packet, err: bool)
    ensures packet == Entered(f, stream)
    ensures err <==> !stream.unmarshals(Recovered(f, stream.ssrc))
  {
    hide Xor, Fold, Present, MissingNumber, Uint16Bytes, BytesUint16;
    var header, seqnum := RecoverHeader(f);
    ghost var h := header[..8];
    header[0] := WithVersion2(header[0]);
    var payloadLength := BytesUint16(header[2..4]);
    assert header[2..4] == h[2..4];
    var number := Uint16Bytes(seqnum);
    var fixed := [header[0], header[1]] + number + header[4..8] + stream.ssrc;
    assert header[4..8] == h[4..8];
    var payload := RecoverPayload(f, payloadLength);
    ghost var expected := seq(payloadLength,
                              j requires j >= 0 => Xor(RepairAt(f.repair, j), Fold(Present(f.slots), 8 + j)));
    assert payload[..] == expected;
    var rebuilt := fixed + payload[..];
    assert rebuilt == Recovered(f, stream.ssrc);
    if !stream.unmarshals(rebuilt) {
      return EMPTY_PACKET, true;
    }
    return rebuilt, false;
  }

  // -- Peeling

  function FillSlot(s: Slot, p: Packet): Slot {
    if s.number == SequenceNumberOf(p) then s.(packet := Some(p)) else s
  }

  function FillSlots(slots: seq<Slot>, p: Packet): (r: seq<Slot>)
    ensures |r| == |slots| && forall k :: 0 <= k < |slots| ==> r[k] == FillSlot(slots[k], p)
  {
    seq(|slots|, k requires 0 <= k < |slots| => FillSlot(slots[k], p))
  }

  function FillFec(f: Fec, p: Packet): Fec {
    f.(slots := FillSlots(f.slots, p))
  }

  /** A newly known packet is entered in every slot that waits for its number. */
  function FillAll(fecs: seq<Fec>, p: Packet): (r: seq<Fec>)
    ensures |r| == |fecs| && forall i :: 0 <= i < |fecs| ==> r[i] == FillFec(fecs[i], p)
  {
    seq(|fecs|, i requires 0 <= i < |fecs| => FillFec(fecs[i], p))
  }

  predicate IsSlot(fecs: seq<Fec>, f: int, k: int) {
    0 <= f < |fecs| && 0 <= k < |fecs[f].slots|
  }

  predicate Known(fecs: seq<Fec>, f: int, k: int)
    requires IsSlot(fecs, f, k)
  {
    fecs[f].slots[k].packet.Some?
  }

  function NumberAt(fecs: seq<Fec>, f: int, k: int): Uint16
    requires IsSlot(fecs, f, k)
  {
    fecs[f].slots[k].number
  }

  function MissingIn(slots: seq<Slot>): (n: nat)
    ensures n == 0 <==> forall k :: 0 <= k < |slots| ==> slots[k].packet.Some?
    decreases |slots|
  {
    if slots == [] then 0
    else
      var m := |slots| - 1;
      MissingIn(slots[..m]) + (if slots[m].packet.None? then 1 else 0)
  }

  function MissingInAll(fecs: seq<Fec>): nat
    decreases |fecs|
  {
    if fecs == [] then 0 else MissingInAll(fecs[..|fecs| - 1]) + MissingIn(fecs[|fecs| - 1].slots)
  }

  lemma {:induction false} OneMissing(slots: seq<Slot>) returns (k: nat)
    requires MissingIn(slots) == 1
    ensures OnlyMissing(slots, k)
    decreases |slots|
  {
    var m := |slots| - 1;
    if slots[m].packet.None? {
      k := m;
      assert forall j :: 0 <= j < m ==> slots[..m][j] == slots[j];
    } else {
      k := OneMissing(slots[..m]);
      assert forall j :: 0 <= j < m ==> slots[..m][j] == slots[j];
    }
  }

  lemma {:induction false} OnlyMissingCounts(slots: seq<Slot>, k: nat)
    requires OnlyMissing(slots, k)
    ensures MissingIn(slots) == 1
    decreases |slots|
  {
    var m := |slots| - 1;
    if k < m {
      OnlyMissingCounts(slots[..m], k);
    } else {
      assert forall j :: 0 <= j < m ==> slots[..m][j] == slots[j];
    }
  }

  ghost predicate MissesNumber(slots: seq<Slot>, n: Uint16) {
    exists k :: 0 <= k < |slots| && slots[k].packet.None? && slots[k].number == n
  }

  lemma MissesNumberPrefix(slots: seq<Slot>, n: Uint16)
    requires slots != []
    ensures var last := slots[|slots| - 1];
            MissesNumber(slots, n) <==>
            MissesNumber(slots[..|slots| - 1], n) || (last.packet.None? && last.number == n)
  {
    assert forall k :: 0 <= k < |slots| - 1 ==> slots[..|slots| - 1][k] == slots[k];
  }

  lemma {:induction false} FillNeverLoses(slots: seq<Slot>, p: Packet)
    ensures MissingIn(FillSlots(slots, p)) <= MissingIn(slots)
    ensures MissesNumber(slots, SequenceNumberOf(p)) ==> MissingIn(FillSlots(slots, p)) < MissingIn(slots)
    decreases |slots|
  {
    hide SequenceNumberOf, MissesNumber;
    if slots != [] {
      var m := |slots| - 1;
      FillNeverLoses(slots[..m], p);
      MissesNumberPrefix(slots, SequenceNumberOf(p));
      assert FillSlots(slots, p)[..m] == FillSlots(slots[..m], p);
    } else {
      NoSlotsMissing(slots, SequenceNumberOf(p));
    }
  }

  lemma NoSlotsMissing(slots: seq<Slot>, n: Uint16)
    requires slots == []
    ensures !MissesNumber(slots, n)
  {
  }

  /** Every recovery leaves fewer slots missing, so peeling ends. */
  lemma {:induction false} FillProgress(fecs: seq<Fec>, p: Packet, i: nat, k: nat)
    requires IsSlot(fecs, i, k) && !Known(fecs, i, k) && NumberAt(fecs, i, k) == SequenceNumberOf(p)
    ensures MissingInAll(FillAll(fecs, p)) < MissingInAll(fecs)
    decreases |fecs|
  {
    hide SequenceNumberOf, MissingIn, FillSlots, FillSlot;
    var m := |fecs| - 1;
    assert FillAll(fecs, p)[..m] == FillAll(fecs[..m], p);
    FillNeverLoses(fecs[m].slots, p);
    assert i == m ==> MissesNumber(fecs[m].slots, SequenceNumberOf(p));
    if i < m {
      FillProgress(fecs[..m], p, i, k);
    } else {
      FillAllNeverLoses(fecs[..m], p);
    }
  }

  lemma {:induction false} FillAllNeverLoses(fecs: seq<Fec>, p: Packet)
    ensures MissingInAll(FillAll(fecs, p)) <= MissingInAll(fecs)
    decreases |fecs|
  {
    hide SequenceNumberOf;
    if fecs != [] {
      var m := |fecs| - 1;
      assert FillAll(fecs, p)[..m] == FillAll(fecs[..m], p);
      FillNeverLoses(fecs[m].slots, p);
      FillAllNeverLoses(fecs[..m], p);
    }
  }

  // -- The least set closed under repair

  /** The same FEC packets over the same numbers; only what is known may differ. */
  ghost predicate SameNumbers(a: seq<Fec>, b: seq<Fec>) {
    && (forall f, k :: IsSlot(a, f, k) <==> IsSlot(b, f, k))
    && (forall f, k :: IsSlot(a, f, k) ==> NumberAt(a, f, k) == NumberAt(b, f, k))
  }

  /** The set holds every slot that is known. */
  ghost predicate Includes(P: set<(int, int)>, fecs: seq<Fec>) {
    forall f, k :: IsSlot(fecs, f, k) && Known(fecs, f, k) ==> (f, k) in P
  }

  ghost predicate OthersIn(P: set<(int, int)>, fecs: seq<Fec>, f: int, k: int) {
    forall j :: IsSlot(fecs, f, j) && j != k ==> (f, j) in P
  }

  ghost predicate NumberIn(P: set<(int, int)>, fecs: seq<Fec>, n: Uint16) {
    forall g, m :: IsSlot(fecs, g, m) && NumberAt(fecs, g, m) == n ==> (g, m) in P
  }

  /**
   Closed under single-erasure repair: when a slot was missing at the start and all others of its FEC packet
   are in the set, so are all slots with its number.
   */
  ghost predicate ClosedUnderRepair(P: set<(int, int)>, start: seq<Fec>) {
    forall f, k :: IsSlot(start, f, k) && !Known(start, f, k) && OthersIn(P, start, f, k) ==>
      NumberIn(P, start, NumberAt(start, f, k))
  }

  /** The slots that are known. */
  ghost function KnownSet(fecs: seq<Fec>): (P: set<(int, int)>)
    ensures forall f, k :: (f, k) in P <==> IsSlot(fecs, f, k) && Known(fecs, f, k)
  {
    set f, k | 0 <= f < |fecs| && 0 <= k < |fecs[f].slots| && Known(fecs, f, k) :: (f, k)
  }

  /** The known slots are the least set that holds those known at the start and is closed under repair. */
  ghost predicate IsLeastClosure(start: seq<Fec>, fecs: seq<Fec>) {
    && Includes(KnownSet(fecs), start) && ClosedUnderRepair(KnownSet(fecs), start)
    && forall P :: Includes(P, start) && ClosedUnderRepair(P, start) ==> KnownSet(fecs) <= P
  }

  /** A slot that became known did so in every FEC packet that has its number. */
  ghost predicate EnteredEverywhere(start: seq<Fec>, fecs: seq<Fec>)
    requires SameNumbers(start, fecs)
  {
    forall f, k :: IsSlot(start, f, k) && !Known(start, f, k) && Known(fecs, f, k) ==>
      NumberIn(KnownSet(fecs), start, NumberAt(start, f, k))
  }

  /** What every step of peeling keeps. */
  ghost predicate Peeling(start: seq<Fec>, fecs: seq<Fec>) {
    && SameNumbers(start, fecs)
    && Includes(KnownSet(fecs), start)
    && EnteredEverywhere(start, fecs)
    && forall P :: Includes(P, start) && ClosedUnderRepair(P, start) ==> KnownSet(fecs) <= P
  }

  lemma FillKnown(fecs: seq<Fec>, p: Packet, f: int, k: int)
    ensures IsSlot(FillAll(fecs, p), f, k) <==> IsSlot(fecs, f, k)
    ensures IsSlot(fecs, f, k) ==>
              && NumberAt(FillAll(fecs, p), f, k) == NumberAt(fecs, f, k)
              && (Known(FillAll(fecs, p), f, k) <==> Known(fecs, f, k) || NumberAt(fecs, f, k) == SequenceNumberOf(p))
  {
    hide SequenceNumberOf;
  }

  lemma FillKnownAll(fecs: seq<Fec>, p: Packet)
    ensures SameNumbers(fecs, FillAll(fecs, p))
    ensures KnownSet(fecs) <= KnownSet(FillAll(fecs, p))
    ensures NumberIn(KnownSet(FillAll(fecs, p)), fecs, SequenceNumberOf(p))
    ensures forall f, k :: (f, k) in KnownSet(FillAll(fecs, p)) ==>
              (f, k) in KnownSet(fecs) || (IsSlot(fecs, f, k) && NumberAt(fecs, f, k) == SequenceNumberOf(p))
  {
    hide FillAll, SequenceNumberOf, NumberAt, Known, IsSlot;
    forall f, k
      ensures IsSlot(FillAll(fecs, p), f, k) <==> IsSlot(fecs, f, k)
      ensures IsSlot(fecs, f, k) ==>
                && NumberAt(FillAll(fecs, p), f, k) == NumberAt(fecs, f, k)
                && (Known(FillAll(fecs, p), f, k) <==> Known(fecs, f, k) || NumberAt(fecs, f, k) == SequenceNumberOf(p))
    {
      FillKnown(fecs, p, f, k);
    }
  }

  /** Entering a rebuilt packet keeps the invariant. */
  lemma PeelingStep(start: seq<Fec>, fecs: seq<Fec>, f: int, k: int, p: Packet)
    requires Peeling(start, fecs) && IsSlot(fecs, f, k) && !Known(fecs, f, k) && OthersIn(KnownSet(fecs), fecs, f, k)
    requires SequenceNumberOf(p) == NumberAt(fecs, f, k)
    ensures Peeling(start, FillAll(fecs, p))
  {
    hide FillAll, SequenceNumberOf, NumberAt, Known, IsSlot, KnownSet;
    var more := FillAll(fecs, p);
    FillKnownAll(fecs, p);
    assert !Known(start, f, k);
    forall P | Includes(P, start) && ClosedUnderRepair(P, start)
      ensures KnownSet(more) <= P
    {
      assert OthersIn(P, start, f, k);
      assert NumberIn(P, start, NumberAt(start, f, k));
      forall x | x in KnownSet(more)
        ensures x in P
      {
        var (g, m) := x;
        assert (g, m) in KnownSet(fecs) || (IsSlot(start, g, m) && NumberAt(start, g, m) == NumberAt(start, f, k));
      }
    }
  }

  /** When no FEC packet misses exactly one slot, the known slots are the least closed set. */
  lemma PeelingDone(start: seq<Fec>, fecs: seq<Fec>)
    requires Peeling(start, fecs)
    requires forall f, k :: IsSlot(fecs, f, k) && !Known(fecs, f, k) ==> !OthersIn(KnownSet(fecs), fecs, f, k)
    ensures IsLeastClosure(start, fecs)
  {
    hide NumberAt, Known, IsSlot, KnownSet;
    var P := KnownSet(fecs);
    forall f, k | IsSlot(start, f, k) && !Known(start, f, k) && OthersIn(P, start, f, k)
      ensures NumberIn(P, start, NumberAt(start, f, k))
    {
      assert OthersIn(P, fecs, f, k);
      assert Known(fecs, f, k);
    }
  }

  /** b holds the FEC packets of a in another order, or some of them. */
  ghost predicate Reordered(a: seq<Fec>, b: seq<Fec>, from: seq<int>) {
    |from| == |b| && forall f :: 0 <= f < |b| ==> 0 <= from[f] < |a| && b[f] == a[from[f]]
  }

  /** What can be repaired with some of the FEC packets can be repaired with all of them. */
  lemma RepairsCarryOver(a: seq<Fec>, b: seq<Fec>, from: seq<int>, a': seq<Fec>, b': seq<Fec>)
    requires Reordered(a, b, from) && IsLeastClosure(a, a') && IsLeastClosure(b, b')
    ensures forall f, k :: (f, k) in KnownSet(b') ==> 0 <= f < |b| && (from[f], k) in KnownSet(a')
  {
    hide KnownSet;
    var Q := KnownSet(a');
    var P := set f, k | 0 <= f < |b| && 0 <= k < |b[f].slots| && (from[f], k) in Q :: (f, k);
    forall f, k | IsSlot(b, f, k) && Known(b, f, k)
      ensures (f, k) in P
    {
      assert IsSlot(a, from[f], k) && Known(a, from[f], k);
    }
    forall f, k | IsSlot(b, f, k) && !Known(b, f, k) && OthersIn(P, b, f, k)
      ensures NumberIn(P, b, NumberAt(b, f, k))
    {
      forall j | IsSlot(a, from[f], j) && j != k
        ensures (from[f], j) in Q
      {
        assert IsSlot(b, f, j) && (f, j) in P;
      }
      assert OthersIn(Q, a, from[f], k) && IsSlot(a, from[f], k);
      assert NumberIn(Q, a, NumberAt(a, from[f], k));
      forall g, m | IsSlot(b, g, m) && NumberAt(b, g, m) == NumberAt(b, f, k)
        ensures (g, m) in P
      {
        assert IsSlot(a, from[g], m) && NumberAt(a, from[g], m) == NumberAt(a, from[f], k);
      }
    }
    assert Includes(P, b) && ClosedUnderRepair(P, b);
  }

  /** Receiving the FEC packets in another order makes no difference to what is known in the end. */
  lemma OrderIrrelevant(a: seq<Fec>, b: seq<Fec>, from: seq<int>, back: seq<int>, a': seq<Fec>, b': seq<Fec>)
    requires Reordered(a, b, from) && Reordered(b, a, back) && forall f :: 0 <= f < |b| ==> back[from[f]] == f
    requires IsLeastClosure(a, a') && IsLeastClosure(b, b')
    ensures forall f, k :: 0 <= f < |b| ==> ((f, k) in KnownSet(b') <==> (from[f], k) in KnownSet(a'))
  {
    hide KnownSet, IsLeastClosure;
    RepairsCarryOver(a, b, from, a', b');
    RepairsCarryOver(b, a, back, b', a');
  }

  // -- Truth

  /** The packet is one the encoder accepts: of the protected stream, version 2, with a size that fits its field. */
  ghost predicate Protectable(p: Packet, number: Uint16, ssrc: seq<Byte>) {
    p[0].b0 && !p[0].b1 && PayloadSize(p) < UINT16_SIZE && SequenceNumberOf(p) == number && SsrcOf(p) == ssrc
  }

  /** The packet each slot stands for, if `truth` is what was sent. */
  ghost function Originals(slots: seq<Slot>, truth: map<Uint16, Packet>): (ps: seq<Packet>)
    requires forall k :: 0 <= k < |slots| ==> slots[k].number in truth
    ensures |ps| == |slots| && forall k :: 0 <= k < |slots| ==> ps[k] == truth[slots[k].number]
  {
    seq(|slots|, k requires 0 <= k < |slots| => truth[slots[k].number])
  }

  /** A FEC packet as the encoder made it for the original packets, with no wrong packet entered. */
  ghost predicate Honest(f: Fec, truth: map<Uint16, Packet>, ssrc: seq<Byte>) {
    && (forall k :: 0 <= k < |f.slots| ==>
         f.slots[k].number in truth && Protectable(truth[f.slots[k].number], f.slots[k].number, ssrc))
    && f.payload[..8] == FoldedHeader(Originals(f.slots, truth))
    && f.repair == Repair(Originals(f.slots, truth))
    && (forall k :: 0 <= k < |f.slots| && f.slots[k].packet.Some? ==>
         f.slots[k].packet.value == truth[f.slots[k].number])
  }

  /** From an honest FEC packet the original comes back, byte for byte. */
  lemma HonestRecovery(f: Fec, truth: map<Uint16, Packet>, ssrc: seq<Byte>, k: nat)
    requires |ssrc| == 4 && Honest(f, truth, ssrc) && OnlyMissing(f.slots, k)
    ensures Recovered(f, ssrc) == truth[f.slots[k].number]
  {
    hide Rebuilt, FoldedHeader, Repair, Uint16Bytes, BytesUint16, Present, MissingNumber;
    var ps := Originals(f.slots, truth);
    PresentWithout(f.slots, k, ps);
    Uint16Inverse(ps[k][2..4]);
    RecoversLostPacket(ps, k, f.payload, f.slots[k].number);
  }

  lemma HonestFill(f: Fec, truth: map<Uint16, Packet>, ssrc: seq<Byte>, p: Packet)
    requires Honest(f, truth, ssrc) && SequenceNumberOf(p) in truth && truth[SequenceNumberOf(p)] == p
    ensures Honest(FillFec(f, p), truth, ssrc)
  {
    hide FoldedHeader, Repair, SequenceNumberOf, Protectable;
    assert Originals(FillFec(f, p).slots, truth) == Originals(f.slots, truth);
  }

  ghost predicate AllHonest(fecs: seq<Fec>, truth: map<Uint16, Packet>, ssrc: seq<Byte>) {
    forall f :: 0 <= f < |fecs| ==> Honest(fecs[f], truth, ssrc)
  }

  lemma AllHonestFill(fecs: seq<Fec>, truth: map<Uint16, Packet>, ssrc: seq<Byte>, p: Packet)
    requires AllHonest(fecs, truth, ssrc) && SequenceNumberOf(p) in truth && truth[SequenceNumberOf(p)] == p
    ensures AllHonest(FillAll(fecs, p), truth, ssrc)
  {
    hide Honest, FillFec, SequenceNumberOf;
    forall f | 0 <= f < |fecs|
      ensures Honest(FillAll(fecs, p)[f], truth, ssrc)
    {
      HonestFill(fecs[f], truth, ssrc, p);
    }
  }

  /** Every slot that became known holds one of the recovered packets. */
  ghost predicate HoldsRecovered(start: seq<Fec>, fecs: seq<Fec>, recovered: seq<Packet>) {
    forall f, k :: IsSlot(start, f, k) && IsSlot(fecs, f, k) && !Known(start, f, k) && Known(fecs, f, k) ==>
      fecs[f].slots[k].packet.value in recovered
  }

  lemma HoldsRecoveredStep(start: seq<Fec>, fecs: seq<Fec>, recovered: seq<Packet>, p: Packet)
    requires HoldsRecovered(start, fecs, recovered)
    ensures HoldsRecovered(start, FillAll(fecs, p), recovered + [p])
  {
    hide SequenceNumberOf;
    var more := FillAll(fecs, p);
    forall f, k | IsSlot(start, f, k) && IsSlot(more, f, k) && !Known(start, f, k) && Known(more, f, k)
      ensures more[f].slots[k].packet.value in recovered + [p]
    {
      assert more[f].slots[k] == FillSlot(fecs[f].slots[k], p);
      assert IsSlot(fecs, f, k);
    }
  }

  // -- Passes over the FEC packets

  lemma OnlyMissingOthers(fecs: seq<Fec>, f: int, k: int)
    requires 0 <= f < |fecs| && 0 <= k
    ensures OnlyMissing(fecs[f].slots, k) <==>
            IsSlot(fecs, f, k) && !Known(fecs, f, k) && OthersIn(KnownSet(fecs), fecs, f, k)
  {
    assert forall j :: IsSlot(fecs, f, j) ==> ((f, j) in KnownSet(fecs) <==> fecs[f].slots[j].packet.Some?);
  }

  /** The FEC packet misses exactly one of the packets it protects. */
  predicate SingleLoss(f: Fec) {
    MissingIn(f.slots) == 1
  }

  function AfterOne(fecs: seq<Fec>, i: nat, stream: Stream): (r: seq<Fec>)
    requires i < |fecs|
    ensures |r| == |fecs|
  {
    if SingleLoss(fecs[i]) then FillAll(fecs, Entered(fecs[i], stream)) else fecs
  }

  /** The state after one pass has looked at the first n FEC packets. */
  ghost function PassTo(fecs: seq<Fec>, n: nat, stream: Stream): (r: seq<Fec>)
    requires n <= |fecs|
    ensures |r| == |fecs|
  {
    if n == 0 then fecs else AfterOne(PassTo(fecs, n - 1, stream), n - 1, stream)
  }

  /** What that part of the pass counted as recovered. */
  ghost function PassPackets(fecs: seq<Fec>, n: nat, stream: Stream): seq<Packet>
    requires n <= |fecs|
  {
    if n == 0 then []
    else
      var f := PassTo(fecs, n - 1, stream)[n - 1];
      PassPackets(fecs, n - 1, stream) + (if SingleLoss(f) then [Entered(f, stream)] else [])
  }

  ghost function Pass(fecs: seq<Fec>, stream: Stream): (r: seq<Fec>)
    ensures |r| == |fecs|
  {
    PassTo(fecs, |fecs|, stream)
  }

  ghost function Repairs(fecs: seq<Fec>, stream: Stream): nat {
    |PassPackets(fecs, |fecs|, stream)|
  }

  /** The state after k passes. */
  ghost function Passes(fecs: seq<Fec>, k: nat, stream: Stream): seq<Fec>
    decreases k
  {
    if k == 0 then fecs else Passes(Pass(fecs, stream), k - 1, stream)
  }

  /** The code's loop ends: some pass counts no recovery. */
  ghost predicate Ends(fecs: seq<Fec>, stream: Stream) {
    exists k: nat :: Repairs(Passes(fecs, k, stream), stream) == 0
  }

  ghost predicate ZeroSlotsEmpty(fecs: seq<Fec>) {
    forall f, k :: IsSlot(fecs, f, k) && NumberAt(fecs, f, k) == 0 ==> fecs[f].slots[k].packet == Some(EMPTY_PACKET)
  }

  /**
   Some FEC packet misses exactly one packet, no such FEC packet rebuilds to bytes that can be unmarshalled, and
   entering the empty packet, whose number is 0, changes nothing.
   */
  ghost predicate Stalled(fecs: seq<Fec>, stream: Stream) {
    && (exists i :: 0 <= i < |fecs| && SingleLoss(fecs[i]))
    && (forall i :: 0 <= i < |fecs| && SingleLoss(fecs[i]) ==> !stream.unmarshals(Recovered(fecs[i], stream.ssrc)))
    && ZeroSlotsEmpty(fecs)
  }

  lemma EmptyNumber()
    ensures SequenceNumberOf(EMPTY_PACKET) == 0
  {
    assert EMPTY_PACKET[2..4] == [ZERO_BYTE, ZERO_BYTE];
    assert BytesWord([ZERO_BYTE]) == BitsOf(ZERO_BYTE) + BytesWord([]);
    assert [ZERO_BYTE, ZERO_BYTE][1..] == [ZERO_BYTE];
    assert BytesWord([ZERO_BYTE, ZERO_BYTE]) == Zeros(16);
    ZeroNumber(16);
  }

  lemma {:induction false} ZeroNumber(n: nat)
    ensures BitsNumber(Zeros(n)) == 0
  {
    if n > 0 {
      ZeroNumber(n - 1);
      assert Zeros(n)[..n - 1] == Zeros(n - 1);
    }
  }

  lemma PassNext(fecs: seq<Fec>, i: nat, stream: Stream)
    requires i < |fecs|
    ensures var f := PassTo(fecs, i, stream)[i];
            && PassTo(fecs, i + 1, stream) == AfterOne(PassTo(fecs, i, stream), i, stream)
            && PassPackets(fecs, i + 1, stream) ==
               PassPackets(fecs, i, stream) + (if SingleLoss(f) then [Entered(f, stream)] else [])
  {
    hide AfterOne, SingleLoss, Entered;
  }

  lemma NothingPassed(fecs: seq<Fec>, stream: Stream)
    ensures PassTo(fecs, 0, stream) == fecs && PassPackets(fecs, 0, stream) == []
  {
  }

  /** A recovery that can be unmarshalled leaves fewer slots missing; one that cannot enters the empty packet. */
  lemma OneStep(fecs: seq<Fec>, i: nat, stream: Stream)
    requires i < |fecs|
    ensures MissingInAll(AfterOne(fecs, i, stream)) <= MissingInAll(fecs)
    ensures SingleLoss(fecs[i]) && stream.unmarshals(Recovered(fecs[i], stream.ssrc)) ==>
              MissingInAll(AfterOne(fecs, i, stream)) < MissingInAll(fecs)
    ensures SingleLoss(fecs[i]) && !stream.unmarshals(Recovered(fecs[i], stream.ssrc)) ==>
              AfterOne(fecs, i, stream) == FillAll(fecs, EMPTY_PACKET)
  {
    hide MissingIn, MissingInAll, Recovered, SequenceNumberOf, FillAll;
    if SingleLoss(fecs[i]) {
      var p := Entered(fecs[i], stream);
      FillAllNeverLoses(fecs, p);
      if stream.unmarshals(Recovered(fecs[i], stream.ssrc)) {
        var k := OneMissing(fecs[i].slots);
        RecoveredNumber(fecs[i], stream.ssrc, k);
        FillProgress(fecs, p, i, k);
      }
    }
  }

  lemma FillEmpty(fecs: seq<Fec>)
    ensures ZeroSlotsEmpty(FillAll(fecs, EMPTY_PACKET))
    ensures ZeroSlotsEmpty(fecs) ==> FillAll(fecs, EMPTY_PACKET) == fecs
  {
    hide SequenceNumberOf;
    EmptyNumber();
    var r := FillAll(fecs, EMPTY_PACKET);
    if ZeroSlotsEmpty(fecs) {
      forall f | 0 <= f < |fecs| ensures r[f] == fecs[f] {
        forall k | 0 <= k < |fecs[f].slots| ensures FillSlot(fecs[f].slots[k], EMPTY_PACKET) == fecs[f].slots[k] {
          assert IsSlot(fecs, f, k) && NumberAt(fecs, f, k) == fecs[f].slots[k].number;
        }
        assert FillSlots(fecs[f].slots, EMPTY_PACKET) == fecs[f].slots;
      }
    }
  }

  /** A pass that leaves as many slots missing entered nothing but the empty packet. */
  lemma {:induction false} IdlePass(fecs: seq<Fec>, n: nat, stream: Stream)
    requires n <= |fecs|
    ensures MissingInAll(PassTo(fecs, n, stream)) <= MissingInAll(fecs)
    ensures MissingInAll(PassTo(fecs, n, stream)) == MissingInAll(fecs) ==>
              if PassPackets(fecs, n, stream) == [] then PassTo(fecs, n, stream) == fecs
              else ZeroSlotsEmpty(PassTo(fecs, n, stream))
    ensures MissingInAll(PassTo(fecs, n, stream)) == MissingInAll(fecs) && ZeroSlotsEmpty(fecs) ==>
              PassTo(fecs, n, stream) == fecs
    decreases n
  {
    hide MissingInAll, SingleLoss, Recovered, ZeroSlotsEmpty, FillAll;
    if n > 0 {
      IdlePass(fecs, n - 1, stream);
      var before := PassTo(fecs, n - 1, stream);
      OneStep(before, n - 1, stream);
      FillEmpty(before);
    }
  }

  /** In a stalled state a pass changes nothing and counts every FEC packet that misses one packet. */
  lemma {:induction false} StalledPass(fecs: seq<Fec>, n: nat, stream: Stream)
    requires n <= |fecs| && Stalled(fecs, stream)
    ensures PassTo(fecs, n, stream) == fecs
    ensures PassPackets(fecs, n, stream) == [] ==> forall i :: 0 <= i < n ==> !SingleLoss(fecs[i])
    decreases n
  {
    hide SingleLoss, Recovered, ZeroSlotsEmpty, FillAll;
    if n > 0 {
      StalledPass(fecs, n - 1, stream);
      FillEmpty(fecs);
    }
  }

  /** A pass that counts no recovery met no FEC packet that misses exactly one packet, and changed nothing. */
  lemma {:induction false} QuietPass(fecs: seq<Fec>, n: nat, stream: Stream)
    requires n <= |fecs|
    ensures PassPackets(fecs, n, stream) == [] <==> forall i :: 0 <= i < n ==> !SingleLoss(fecs[i])
    ensures PassPackets(fecs, n, stream) == [] ==> PassTo(fecs, n, stream) == fecs
    decreases n
  {
    hide SingleLoss, FillAll;
    if n > 0 {
      QuietPass(fecs, n - 1, stream);
    }
  }

  /** If a pass changes nothing, no FEC packet of it rebuilt to bytes that can be unmarshalled. */
  lemma {:induction false} FixedPass(fecs: seq<Fec>, n: nat, stream: Stream)
    requires n <= |fecs| && ZeroSlotsEmpty(fecs) && MissingInAll(PassTo(fecs, n, stream)) == MissingInAll(fecs)
    ensures forall i :: 0 <= i < n && SingleLoss(fecs[i]) ==> !stream.unmarshals(Recovered(fecs[i], stream.ssrc))
    decreases n
  {
    hide MissingInAll, SingleLoss, Recovered, ZeroSlotsEmpty, FillAll;
    if n > 0 {
      IdlePass(fecs, n - 1, stream);
      OneStep(PassTo(fecs, n - 1, stream), n - 1, stream);
      FixedPass(fecs, n - 1, stream);
    }
  }

  /**
   When a pass counts a recovery and still leaves everything as it was: exactly when some FEC packet misses one
   packet, none of these can be unmarshalled, and the slots with number 0, if there are any, hold the empty packet
   already.
   */
  lemma StalledIff(fecs: seq<Fec>, stream: Stream)
    ensures Repairs(fecs, stream) > 0 && Pass(fecs, stream) == fecs <==> Stalled(fecs, stream)
  {
    hide MissingInAll, SingleLoss, Recovered, ZeroSlotsEmpty, PassTo, PassPackets;
    var n := |fecs|;
    QuietPass(fecs, n, stream);
    if Stalled(fecs, stream) {
      StalledPass(fecs, n, stream);
    }
    if Repairs(fecs, stream) > 0 && Pass(fecs, stream) == fecs {
      IdlePass(fecs, n, stream);
      FixedPass(fecs, n, stream);
    }
  }

  // -- When the loop ends

  ghost function Unsettled(fecs: seq<Fec>): nat {
    if ZeroSlotsEmpty(fecs) then 0 else 1
  }

  /** Short of a stall, every pass that counts a recovery makes progress. */
  lemma PassProgress(fecs: seq<Fec>, stream: Stream)
    requires Repairs(fecs, stream) > 0 && !Stalled(fecs, stream)
    ensures var next := Pass(fecs, stream);
            || MissingInAll(next) < MissingInAll(fecs)
            || (MissingInAll(next) == MissingInAll(fecs) && Unsettled(next) < Unsettled(fecs))
  {
    hide MissingInAll, SingleLoss, Recovered, ZeroSlotsEmpty, PassTo, PassPackets, Stalled;
    IdlePass(fecs, |fecs|, stream);
    StalledIff(fecs, stream);
  }

  lemma {:induction false} PassesEnd(fecs: seq<Fec>, stream: Stream) returns (k: nat)
    requires forall j: nat :: !Stalled(Passes(fecs, j, stream), stream)
    ensures Repairs(Passes(fecs, k, stream), stream) == 0
    decreases MissingInAll(fecs), Unsettled(fecs)
  {
    hide MissingInAll, Unsettled, Stalled, Repairs, Pass;
    assert Passes(fecs, 0, stream) == fecs;
    if Repairs(fecs, stream) == 0 {
      k := 0;
    } else {
      PassProgress(fecs, stream);
      forall j: nat ensures !Stalled(Passes(Pass(fecs, stream), j, stream), stream) {
        assert Passes(fecs, j + 1, stream) == Passes(Pass(fecs, stream), j, stream);
      }
      k := PassesEnd(Pass(fecs, stream), stream);
      k := k + 1;
    }
  }

  lemma {:induction false} Stays(fecs: seq<Fec>, k: nat, stream: Stream)
    requires Pass(fecs, stream) == fecs
    ensures Passes(fecs, k, stream) == fecs
    decreases k
  {
    hide Pass;
    if k > 0 {
      Stays(fecs, k - 1, stream);
    }
  }

  lemma {:induction false} EndedNeverStalls(fecs: seq<Fec>, k: nat, m: nat, stream: Stream)
    requires Repairs(Passes(fecs, k, stream), stream) == 0
    ensures !Stalled(Passes(fecs, m, stream), stream)
    decreases k + m
  {
    hide Pass, Repairs, Stalled;
    StalledIff(fecs, stream);
    if k == 0 {
      QuietStays(fecs, stream);
      Stays(fecs, m, stream);
    } else if m == 0 {
      if Stalled(fecs, stream) {
        Stays(fecs, k, stream);
      }
    } else {
      EndedNeverStalls(Pass(fecs, stream), k - 1, m - 1, stream);
    }
  }

  lemma QuietStays(fecs: seq<Fec>, stream: Stream)
    requires Repairs(fecs, stream) == 0
    ensures Pass(fecs, stream) == fecs
  {
    QuietPass(fecs, |fecs|, stream);
  }

  ghost predicate ReachesStall(fecs: seq<Fec>, stream: Stream) {
    exists k: nat :: Stalled(Passes(fecs, k, stream), stream)
  }

  /** The loop ends exactly when it never reaches a stalled state. */
  lemma EndsIff(fecs: seq<Fec>, stream: Stream)
    ensures Ends(fecs, stream) <==> !ReachesStall(fecs, stream)
  {
    hide Repairs, Stalled, Pass;
    if !ReachesStall(fecs, stream) {
      var k := PassesEnd(fecs, stream);
    }
    if Ends(fecs, stream) {
      var k: nat :| Repairs(Passes(fecs, k, stream), stream) == 0;
      forall m: nat ensures !Stalled(Passes(fecs, m, stream), stream) {
        EndedNeverStalls(fecs, k, m, stream);
      }
    }
  }

  lemma {:induction false} PassesNext(fecs: seq<Fec>, k: nat, stream: Stream)
    ensures Passes(fecs, k + 1, stream) == Pass(Passes(fecs, k, stream), stream)
    decreases k
  {
    hide Pass;
    if k > 0 {
      PassesNext(Pass(fecs, stream), k - 1, stream);
    }
  }

  // -- What a pass keeps

  ghost predicate NoZeroSlot(fecs: seq<Fec>) {
    forall f, k :: IsSlot(fecs, f, k) ==> NumberAt(fecs, f, k) != 0
  }

  /** The FEC packets are the encoder's and the packets it protected can be unmarshalled. */
  ghost predicate Genuine(fecs: seq<Fec>, truth: map<Uint16, Packet>, stream: Stream) {
    AllHonest(fecs, truth, stream.ssrc) && forall n :: n in truth ==> stream.unmarshals(truth[n])
  }

  /** Everything that is rebuilt can be unmarshalled. */
  ghost predicate AlwaysUnmarshals(fecs: seq<Fec>, truth: map<Uint16, Packet>, stream: Stream) {
    (forall p :: stream.unmarshals(p)) || Genuine(fecs, truth, stream)
  }

  ghost predicate AllOriginal(ps: seq<Packet>, truth: map<Uint16, Packet>) {
    forall p :: p in ps ==> SequenceNumberOf(p) in truth && truth[SequenceNumberOf(p)] == p
  }

  lemma HonestHolds(f: Fec, truth: map<Uint16, Packet>, ssrc: seq<Byte>, k: nat)
    requires Honest(f, truth, ssrc) && k < |f.slots|
    ensures f.slots[k].number in truth
  {
  }

  /** From genuine FEC packets the original packet is entered, and they stay genuine. */
  lemma GenuineStep(fecs: seq<Fec>, i: nat, truth: map<Uint16, Packet>, stream: Stream)
    requires i < |fecs| && SingleLoss(fecs[i]) && Genuine(fecs, truth, stream)
    ensures stream.unmarshals(Recovered(fecs[i], stream.ssrc))
    ensures Genuine(AfterOne(fecs, i, stream), truth, stream) && AllOriginal([Entered(fecs[i], stream)], truth)
  {
    hide SequenceNumberOf, MissingIn, Honest, Recovered, FillAll;
    var k := OneMissing(fecs[i].slots);
    RecoveredNumber(fecs[i], stream.ssrc, k);
    HonestRecovery(fecs[i], truth, stream.ssrc, k);
    HonestHolds(fecs[i], truth, stream.ssrc, k);
    AllHonestFill(fecs, truth, stream.ssrc, Entered(fecs[i], stream));
  }

  /** A packet that can be unmarshalled, or an empty one that fills no slot, keeps the invariant of peeling. */
  lemma PeelingOne(start: seq<Fec>, fecs: seq<Fec>, i: nat, stream: Stream)
    requires i < |fecs| && Peeling(start, fecs)
    requires NoZeroSlot(start) || (SingleLoss(fecs[i]) ==> stream.unmarshals(Recovered(fecs[i], stream.ssrc)))
    ensures Peeling(start, AfterOne(fecs, i, stream))
  {
    hide SequenceNumberOf, MissingIn, Recovered, FillAll, Peeling;
    if SingleLoss(fecs[i]) {
      if stream.unmarshals(Recovered(fecs[i], stream.ssrc)) {
        var k := OneMissing(fecs[i].slots);
        OnlyMissingOthers(fecs, i, k);
        RecoveredNumber(fecs[i], stream.ssrc, k);
        PeelingStep(start, fecs, i, k, Recovered(fecs[i], stream.ssrc));
      } else {
        NoZeroKept(start, fecs);
        FillEmpty(fecs);
      }
    }
  }

  lemma NoZeroKept(start: seq<Fec>, fecs: seq<Fec>)
    requires Peeling(start, fecs) && NoZeroSlot(start)
    ensures NoZeroSlot(fecs) && ZeroSlotsEmpty(fecs)
  {
  }

  lemma {:induction false} PassKeeps(start: seq<Fec>, fecs: seq<Fec>, n: nat, truth: map<Uint16, Packet>,
      stream: Stream)
    requires n <= |fecs| && Peeling(start, fecs)
    requires NoZeroSlot(start) || (forall p :: stream.unmarshals(p)) || Genuine(fecs, truth, stream)
    ensures Peeling(start, PassTo(fecs, n, stream))
    ensures Genuine(fecs, truth, stream) ==>
              Genuine(PassTo(fecs, n, stream), truth, stream) && AllOriginal(PassPackets(fecs, n, stream), truth)
    decreases n
  {
    hide SequenceNumberOf, SingleLoss, Recovered, FillAll, Peeling, NoZeroSlot, AllHonest, AfterOne;
    if n > 0 {
      PassKeeps(start, fecs, n - 1, truth, stream);
      var before := PassTo(fecs, n - 1, stream);
      if SingleLoss(before[n - 1]) {
        if Genuine(fecs, truth, stream) {
          GenuineStep(before, n - 1, truth, stream);
        }
      } else {
        NoLossNoChange(before, n - 1, stream);
      }
      PeelingOne(start, before, n - 1, stream);
    }
  }

  lemma NoLossNoChange(fecs: seq<Fec>, i: nat, stream: Stream)
    requires i < |fecs| && !SingleLoss(fecs[i])
    ensures AfterOne(fecs, i, stream) == fecs
  {
  }

  /** Entering packets loses no number and no packet. */
  lemma {:induction false} PassHolds(start: seq<Fec>, fecs: seq<Fec>, n: nat, recovered: seq<Packet>, stream: Stream)
    requires n <= |fecs| && HoldsRecovered(start, fecs, recovered) && SameNumbers(start, fecs)
    ensures SameNumbers(start, PassTo(fecs, n, stream))
    ensures HoldsRecovered(start, PassTo(fecs, n, stream), recovered + PassPackets(fecs, n, stream))
    decreases n
  {
    hide SequenceNumberOf, SingleLoss, Recovered, FillAll, HoldsRecovered, Known, NumberAt, IsSlot;
    if n == 0 {
      assert recovered + [] == recovered;
    } else {
      PassHolds(start, fecs, n - 1, recovered, stream);
      var before := PassTo(fecs, n - 1, stream);
      if SingleLoss(before[n - 1]) {
        var p := Entered(before[n - 1], stream);
        var so := recovered + PassPackets(fecs, n - 1, stream);
        HoldsRecoveredStep(start, before, so, p);
        FillKnownAll(before, p);
        assert so + [p] == recovered + PassPackets(fecs, n, stream);
      } else {
        assert PassPackets(fecs, n, stream) == PassPackets(fecs, n - 1, stream);
      }
    }
  }

  /** Where everything can be unmarshalled there is no stall. */
  lemma NoStall(fecs: seq<Fec>, truth: map<Uint16, Packet>, stream: Stream)
    requires AlwaysUnmarshals(fecs, truth, stream)
    ensures !Stalled(fecs, stream)
  {
    hide SingleLoss, Recovered, ZeroSlotsEmpty;
    if i: nat :| i < |fecs| && SingleLoss(fecs[i]) {
      if Genuine(fecs, truth, stream) {
        GenuineStep(fecs, i, truth, stream);
      }
    }
  }

  /** Without a slot numbered 0 only the FEC packets that miss one packet matter. */
  lemma StalledWithoutZero(fecs: seq<Fec>, stream: Stream)
    requires NoZeroSlot(fecs)
    ensures Repairs(fecs, stream) > 0 && Pass(fecs, stream) == fecs <==>
            && (exists i :: 0 <= i < |fecs| && SingleLoss(fecs[i]))
            && (forall i :: 0 <= i < |fecs| && SingleLoss(fecs[i]) ==>
                  !stream.unmarshals(Recovered(fecs[i], stream.ssrc)))
  {
    hide SingleLoss, Recovered, Repairs, Pass;
    StalledIff(fecs, stream);
  }

  // -- How often a packet is recovered

  /** Some slot with this number is missing. */
  ghost predicate Misses(fecs: seq<Fec>, n: Uint16) {
    exists f, k :: IsSlot(fecs, f, k) && NumberAt(fecs, f, k) == n && !Known(fecs, f, k)
  }

  /** Some slot with this number is known. */
  ghost predicate Holds(fecs: seq<Fec>, n: Uint16) {
    exists f, k :: IsSlot(fecs, f, k) && NumberAt(fecs, f, k) == n && Known(fecs, f, k)
  }

  /** Every slot with the number of the packet holds the packet. */
  ghost predicate HeldEverywhere(fecs: seq<Fec>, p: Packet) {
    forall f, k :: IsSlot(fecs, f, k) && NumberAt(fecs, f, k) == SequenceNumberOf(p) ==>
      fecs[f].slots[k].packet == Some(p)
  }

  /** No number is known in one slot and missing in another. */
  ghost predicate Consistent(fecs: seq<Fec>) {
    forall n :: !(Misses(fecs, n) && Holds(fecs, n))
  }

  /**
   Each number is recovered once: it was missing at the start, and is known in all its slots by now. As long as
   nothing failed to unmarshal, those slots hold the packet that was recovered.
   */
  ghost predicate RecoveredOnce(start: seq<Fec>, fecs: seq<Fec>, recovered: seq<Packet>) {
    && (forall i :: 0 <= i < |recovered| && recovered[i] != EMPTY_PACKET ==>
          && Misses(start, SequenceNumberOf(recovered[i]))
          && NumberIn(KnownSet(fecs), fecs, SequenceNumberOf(recovered[i])))
    && (forall i, j :: 0 <= i < j < |recovered| && recovered[i] != EMPTY_PACKET && recovered[j] != EMPTY_PACKET ==>
          SequenceNumberOf(recovered[i]) != SequenceNumberOf(recovered[j]))
    && (EMPTY_PACKET !in recovered ==> forall p :: p in recovered ==> HeldEverywhere(fecs, p))
  }

  /** What is rebuilt has version 2, so it is not the empty packet. */
  lemma RecoveredNotEmpty(f: Fec, ssrc: seq<Byte>)
    requires |ssrc| == 4
    ensures Recovered(f, ssrc) != EMPTY_PACKET
  {
    hide Uint16Bytes, BytesUint16, Fold, Xor, Present, MissingNumber;
    assert Recovered(f, ssrc)[0].b0;
  }

  lemma NumberStaysKnown(fecs: seq<Fec>, p: Packet, n: Uint16)
    requires NumberIn(KnownSet(fecs), fecs, n)
    ensures NumberIn(KnownSet(FillAll(fecs, p)), FillAll(fecs, p), n)
  {
    hide FillAll, SequenceNumberOf, NumberAt, Known, IsSlot, KnownSet;
    FillKnownAll(fecs, p);
  }

  lemma HeldStays(fecs: seq<Fec>, p: Packet, q: Packet)
    requires HeldEverywhere(fecs, q) && SequenceNumberOf(p) != SequenceNumberOf(q)
    ensures HeldEverywhere(FillAll(fecs, p), q)
  {
    hide SequenceNumberOf;
  }

  lemma HeldWhenFilled(fecs: seq<Fec>, p: Packet)
    ensures HeldEverywhere(FillAll(fecs, p), p)
  {
    hide SequenceNumberOf;
  }

  /** Entering a packet whose number a slot still misses keeps that each number is recovered once. */
  lemma OnceStep(start: seq<Fec>, fecs: seq<Fec>, recovered: seq<Packet>, f: int, k: int, p: Packet)
    requires SameNumbers(start, fecs) && KnownSet(start) <= KnownSet(fecs) && RecoveredOnce(start, fecs, recovered)
    requires IsSlot(fecs, f, k) && !Known(fecs, f, k) && SequenceNumberOf(p) == NumberAt(fecs, f, k)
    ensures RecoveredOnce(start, FillAll(fecs, p), recovered + [p])
  {
    hide FillAll, SequenceNumberOf, NumberAt, Known, IsSlot, KnownSet, HeldEverywhere;
    var more := FillAll(fecs, p);
    FillKnownAll(fecs, p);
    HeldWhenFilled(fecs, p);
    assert Misses(start, SequenceNumberOf(p)) by {
      assert IsSlot(start, f, k) && NumberAt(start, f, k) == SequenceNumberOf(p) && !Known(start, f, k);
    }
    forall i | 0 <= i < |recovered| && recovered[i] != EMPTY_PACKET
      ensures SequenceNumberOf(recovered[i]) != SequenceNumberOf(p)
      ensures NumberIn(KnownSet(more), more, SequenceNumberOf(recovered[i]))
      ensures HeldEverywhere(fecs, recovered[i]) ==> HeldEverywhere(more, recovered[i])
    {
      NumberStaysKnown(fecs, p, SequenceNumberOf(recovered[i]));
      if HeldEverywhere(fecs, recovered[i]) {
        HeldStays(fecs, p, recovered[i]);
      }
    }
  }

  lemma EmptyStep(start: seq<Fec>, fecs: seq<Fec>, recovered: seq<Packet>)
    requires RecoveredOnce(start, fecs, recovered)
    ensures RecoveredOnce(start, FillAll(fecs, EMPTY_PACKET), recovered + [EMPTY_PACKET])
  {
    hide FillAll, SequenceNumberOf, NumberAt, Known, IsSlot, KnownSet, HeldEverywhere, Misses;
    var more := recovered + [EMPTY_PACKET];
    assert more[|recovered|] == EMPTY_PACKET;
    forall i | 0 <= i < |recovered| && recovered[i] != EMPTY_PACKET
      ensures NumberIn(KnownSet(FillAll(fecs, EMPTY_PACKET)), FillAll(fecs, EMPTY_PACKET),
                       SequenceNumberOf(recovered[i]))
    {
      NumberStaysKnown(fecs, EMPTY_PACKET, SequenceNumberOf(recovered[i]));
    }
  }

  lemma ConsistentStep(fecs: seq<Fec>, p: Packet)
    requires Consistent(fecs)
    ensures Consistent(FillAll(fecs, p))
  {
    hide FillAll, SequenceNumberOf, NumberAt, Known, IsSlot, KnownSet;
    FillKnownAll(fecs, p);
    forall n
      ensures !(Misses(FillAll(fecs, p), n) && Holds(FillAll(fecs, p), n))
    {
      assert !(Misses(fecs, n) && Holds(fecs, n));
    }
  }

  lemma OnceOne(start: seq<Fec>, fecs: seq<Fec>, recovered: seq<Packet>, i: nat, stream: Stream)
    requires SameNumbers(start, fecs) && KnownSet(start) <= KnownSet(fecs) && RecoveredOnce(start, fecs, recovered)
    requires i < |fecs| && SingleLoss(fecs[i])
    ensures RecoveredOnce(start, AfterOne(fecs, i, stream), recovered + [Entered(fecs[i], stream)])
  {
    hide FillAll, SequenceNumberOf, MissingIn, Recovered, RecoveredOnce, KnownSet, SameNumbers;
    var k := OneMissing(fecs[i].slots);
    if stream.unmarshals(Recovered(fecs[i], stream.ssrc)) {
      RecoveredNumber(fecs[i], stream.ssrc, k);
      OnceStep(start, fecs, recovered, i, k, Recovered(fecs[i], stream.ssrc));
    } else {
      EmptyStep(start, fecs, recovered);
    }
  }

  /** A pass recovers no number a second time. */
  lemma {:induction false} PassOnce(start: seq<Fec>, fecs: seq<Fec>, n: nat, recovered: seq<Packet>, stream: Stream)
    requires n <= |fecs| && SameNumbers(start, fecs) && KnownSet(start) <= KnownSet(fecs)
    requires RecoveredOnce(start, fecs, recovered)
    ensures SameNumbers(start, PassTo(fecs, n, stream)) && KnownSet(start) <= KnownSet(PassTo(fecs, n, stream))
    ensures RecoveredOnce(start, PassTo(fecs, n, stream), recovered + PassPackets(fecs, n, stream))
    ensures Consistent(fecs) ==> Consistent(PassTo(fecs, n, stream))
    decreases n
  {
    hide SequenceNumberOf, SingleLoss, Recovered, FillAll, RecoveredOnce, Known, NumberAt, IsSlot, KnownSet, Consistent;
    if n == 0 {
      assert recovered + [] == recovered;
    } else {
      PassOnce(start, fecs, n - 1, recovered, stream);
      var before := PassTo(fecs, n - 1, stream);
      if SingleLoss(before[n - 1]) {
        var p := Entered(before[n - 1], stream);
        var so := recovered + PassPackets(fecs, n - 1, stream);
        OnceOne(start, before, so, n - 1, stream);
        FillKnownAll(before, p);
        if Consistent(fecs) {
          ConsistentStep(before, p);
        }
        assert so + [p] == recovered + PassPackets(fecs, n, stream);
      } else {
        assert PassPackets(fecs, n, stream) == PassPackets(fecs, n - 1, stream);
      }
    }
  }

  /** Where everything can be unmarshalled, no empty packet is counted. */
  lemma {:induction false} PassNoEmpty(fecs: seq<Fec>, n: nat, truth: map<Uint16, Packet>, stream: Stream)
    requires n <= |fecs| && AlwaysUnmarshals(fecs, truth, stream)
    ensures AlwaysUnmarshals(PassTo(fecs, n, stream), truth, stream)
    ensures EMPTY_PACKET !in PassPackets(fecs, n, stream)
    decreases n
  {
    hide SequenceNumberOf, SingleLoss, Recovered, AllHonest, AfterOne;
    if n > 0 {
      PassNoEmpty(fecs, n - 1, truth, stream);
      var before := PassTo(fecs, n - 1, stream);
      if SingleLoss(before[n - 1]) {
        RecoveredNotEmpty(before[n - 1], stream.ssrc);
        if Genuine(before, truth, stream) {
          GenuineStep(before, n - 1, truth, stream);
        }
      } else {
        NoLossNoChange(before, n - 1, stream);
      }
    }
  }

  /**
   The input without consistency: a number that one FEC packet has and another still misses is recovered although
   it is known.
   */
  lemma KnownIsRecoveredAgain(has: Fec, lacks: Fec, n: Uint16, p: Packet, stream: Stream)
    requires has.slots == [Slot(n, Some(p))] && lacks.slots == [Slot(n, None)]
    requires stream.unmarshals(Recovered(lacks, stream.ssrc))
    ensures Holds([has, lacks], n) && !Consistent([has, lacks])
    ensures PassPackets([has, lacks], 2, stream) == [Recovered(lacks, stream.ssrc)]
    ensures SequenceNumberOf(Recovered(lacks, stream.ssrc)) == n
  {
    hide SequenceNumberOf, Recovered;
    var fecs := [has, lacks];
    assert IsSlot(fecs, 0, 0) && NumberAt(fecs, 0, 0) == n && Known(fecs, 0, 0);
    assert IsSlot(fecs, 1, 0) && NumberAt(fecs, 1, 0) == n && !Known(fecs, 1, 0);
    assert MissingIn(has.slots) == 0;
    OnlyMissingCounts(lacks.slots, 0);
    RecoveredNumber(lacks, stream.ssrc, 0);
    PassNext(fecs, 0, stream);
    PassNext(fecs, 1, stream);
  }

  // -- A run of passes

  ghost predicate Sound(start: seq<Fec>, truth: map<Uint16, Packet>, stream: Stream) {
    NoZeroSlot(start) || AlwaysUnmarshals(start, truth, stream)
  }

  /** What holds between passes. */
  ghost predicate InRun(start: seq<Fec>, fecs: seq<Fec>, recovered: seq<Packet>, truth: map<Uint16, Packet>,
                        stream: Stream)
  {
    && SameNumbers(start, fecs) && HoldsRecovered(start, fecs, recovered)
    && KnownSet(start) <= KnownSet(fecs) && RecoveredOnce(start, fecs, recovered)
    && (Consistent(start) ==> Consistent(fecs))
    && (AlwaysUnmarshals(start, truth, stream) ==> EMPTY_PACKET !in recovered)
    && (Sound(start, truth, stream) ==> Peeling(start, fecs))
    && (Genuine(start, truth, stream) ==> Genuine(fecs, truth, stream) && AllOriginal(recovered, truth))
  }

  lemma RunStarts(fecs: seq<Fec>, truth: map<Uint16, Packet>, stream: Stream)
    ensures InRun(fecs, fecs, [], truth, stream) && Passes(fecs, 0, stream) == fecs
  {
    hide Genuine, Sound;
  }

  lemma RunContinues(start: seq<Fec>, fecs: seq<Fec>, recovered: seq<Packet>, truth: map<Uint16, Packet>,
                     stream: Stream)
    requires InRun(start, fecs, recovered, truth, stream)
    ensures InRun(start, Pass(fecs, stream), recovered + PassPackets(fecs, |fecs|, stream), truth, stream)
  {
    hide PassTo, PassPackets, Peeling, HoldsRecovered, SameNumbers, NoZeroSlot, SequenceNumberOf, AllHonest;
    hide KnownSet, RecoveredOnce, Consistent;
    PassHolds(start, fecs, |fecs|, recovered, stream);
    PassOnce(start, fecs, |fecs|, recovered, stream);
    if AlwaysUnmarshals(start, truth, stream) {
      PassNoEmpty(fecs, |fecs|, truth, stream);
    }
    if Sound(start, truth, stream) {
      PassKeeps(start, fecs, |fecs|, truth, stream);
    }
  }

  lemma RunEnds(start: seq<Fec>, fecs: seq<Fec>, recovered: seq<Packet>, truth: map<Uint16, Packet>, stream: Stream)
    requires InRun(start, fecs, recovered, truth, stream) && Repairs(fecs, stream) == 0
    ensures Sound(start, truth, stream) ==> IsLeastClosure(start, fecs)
    ensures Pass(fecs, stream) == fecs
  {
    hide Peeling, HoldsRecovered, SameNumbers, Sound, Genuine, PassTo, PassPackets, IsLeastClosure;
    QuietPass(fecs, |fecs|, stream);
    NothingToRepair(fecs);
    if Sound(start, truth, stream) {
      PeelingDone(start, fecs);
    }
  }

  lemma RunStalls(start: seq<Fec>, fecs: seq<Fec>, k: nat, recovered: seq<Packet>, truth: map<Uint16, Packet>,
                  stream: Stream)
    requires InRun(start, fecs, recovered, truth, stream) && fecs == Passes(start, k, stream)
    requires Stalled(fecs, stream)
    ensures !Ends(start, stream) && !AlwaysUnmarshals(start, truth, stream)
  {
    hide Peeling, HoldsRecovered, SameNumbers, Genuine, Stalled, Passes, Ends;
    EndsIff(start, stream);
    if AlwaysUnmarshals(start, truth, stream) {
      NoStall(fecs, truth, stream);
    }
  }

  // -- The code

  class FecDecoder {
    const stream: Stream
    var receivedFECPackets: seq<Fec>

    constructor (stream: Stream)
      ensures this.stream == stream && receivedFECPackets == []
    {
      this.stream := stream;
      receivedFECPackets := [];
    }

    method UpdateCoveringFecPackets(p: Packet)
      modifies this
      ensures receivedFECPackets == FillAll(old(receivedFECPackets), p)
    {
      hide SequenceNumberOf;
      var n := |receivedFECPackets|;
      for i := 0 to n
        invariant |receivedFECPackets| == n
        invariant forall j :: 0 <= j < i ==> receivedFECPackets[j] == FillFec(old(receivedFECPackets)[j], p)
        invariant forall j :: i <= j < n ==> receivedFECPackets[j] == old(receivedFECPackets)[j]
      {
        var slots := receivedFECPackets[i].slots;
        for k := 0 to |slots|
          invariant |slots| == |old(receivedFECPackets)[i].slots|
          invariant forall j :: 0 <= j < k ==> slots[j] == FillSlot(old(receivedFECPackets)[i].slots[j], p)
          invariant forall j :: k <= j < |slots| ==> slots[j] == old(receivedFECPackets)[i].slots[j]
        {
          if slots[k].number == SequenceNumberOf(p) {
            slots := slots[k := slots[k].(packet := Some(p))];
          }
        }
        assert slots == FillSlots(old(receivedFECPackets)[i].slots, p);
        receivedFECPackets := receivedFECPackets[i := receivedFECPackets[i].(slots := slots)];
      }
    }

    /** Counts the missing slots, stopping at the second. */
    method CountMissing(f: Fec) returns (missing: nat)
      ensures missing == 1 <==> MissingIn(f.slots) == 1
    {
      hide MissingIn;
      missing := 0;
      NoneMissingYet(f.slots);
      for k := 0 to |f.slots|
        invariant missing == MissingIn(f.slots[..k]) <= 1
      {
        MissingNext(f.slots, k);
        if f.slots[k].packet.None? {
          missing := missing + 1;
          if missing > 1 {
            MissingGrows(f.slots, k + 1);
            break;
          }
        }
      }
      assert missing <= 1 ==> f.slots[..|f.slots|] == f.slots;
    }

    /** One pass over the FEC packets. */
    method RecoveryPass() returns (recovered: seq<Packet>)
      modifies this
      ensures receivedFECPackets == Pass(old(receivedFECPackets), stream)
      ensures recovered == PassPackets(old(receivedFECPackets), |old(receivedFECPackets)|, stream)
    {
      hide MissingIn, FillAll, Entered, PassTo, PassPackets, Recovered;
      recovered := [];
      ghost var start := receivedFECPackets;
      var n := |receivedFECPackets|;
      NothingPassed(start, stream);
      for i := 0 to n
        invariant receivedFECPackets == PassTo(start, i, stream)
        invariant recovered == PassPackets(start, i, stream)
      {
        PassNext(start, i, stream);
        var missing := CountMissing(receivedFECPackets[i]);
        if missing != 1 {
          continue;
        }
        var p, err := RecoverPacket(receivedFECPackets[i], stream);
        recovered := recovered + [p];
        UpdateCoveringFecPackets(p);
      }
    }

    /**
     Peeling. The code's loop goes on until a pass counts no recovery; `stalled` tells that it never ends, which is
     the case exactly when it reaches a stalled state. If it ends, and everything rebuilt could be unmarshalled or
     no slot has the number 0 of the empty packet, then what is known is the least set closed under single-erasure
     repair, whatever the order of the FEC packets. With the encoder's FEC packets it ends and all that was
     recovered is original.
     */
    method AttemptRecovery(ghost truth: map<Uint16, Packet>) returns (recovered: seq<Packet>, stalled: bool)
      modifies this
      ensures stalled <==> !Ends(old(receivedFECPackets), stream)
      ensures SameNumbers(old(receivedFECPackets), receivedFECPackets)
      ensures HoldsRecovered(old(receivedFECPackets), receivedFECPackets, recovered)
      ensures old(AlwaysUnmarshals(receivedFECPackets, truth, stream)) ==> !stalled
      ensures !stalled && old(NoZeroSlot(receivedFECPackets) || AlwaysUnmarshals(receivedFECPackets, truth, stream)) ==>
                IsLeastClosure(old(receivedFECPackets), receivedFECPackets)
      ensures old(Genuine(receivedFECPackets, truth, stream)) ==>
                Genuine(receivedFECPackets, truth, stream) && AllOriginal(recovered, truth)
      ensures RecoveredOnce(old(receivedFECPackets), receivedFECPackets, recovered)
      ensures old(AlwaysUnmarshals(receivedFECPackets, truth, stream)) ==>
                && (forall i, j :: 0 <= i < j < |recovered| ==>
                      SequenceNumberOf(recovered[i]) != SequenceNumberOf(recovered[j]))
                && forall p :: p in recovered ==>
                     Misses(old(receivedFECPackets), SequenceNumberOf(p)) && HeldEverywhere(receivedFECPackets, p)
      ensures old(AlwaysUnmarshals(receivedFECPackets, truth, stream) && Consistent(receivedFECPackets)) ==>
                && Consistent(receivedFECPackets)
                && forall p :: p in recovered ==> !Holds(old(receivedFECPackets), SequenceNumberOf(p))
    {
      hide Pass, PassPackets, Peeling, Genuine, AllOriginal, HoldsRecovered, SameNumbers, NoZeroSlot, Stalled;
      hide MissingInAll, Unsettled, AlwaysUnmarshals, IsLeastClosure;
      recovered, stalled := [], false;
      ghost var start, k := receivedFECPackets, 0;
      RunStarts(start, truth, stream);
      while true
        invariant receivedFECPackets == Passes(start, k, stream)
        invariant InRun(start, receivedFECPackets, recovered, truth, stream)
        decreases MissingInAll(receivedFECPackets), Unsettled(receivedFECPackets)
      {
        var before := receivedFECPackets;
        var found := RecoveryPass();
        if |found| == 0 {
          RunEnds(start, before, recovered, truth, stream);
          break;
        }
        RunContinues(start, before, recovered, truth, stream);
        ghost var was := recovered;
        recovered := recovered + found;
        StalledIff(before, stream);
        // Nothing has changed and nothing will: the code goes round from here on without end.
        if receivedFECPackets == before {
          RunStalls(start, before, k, was, truth, stream);
          stalled := true;
          break;
        }
        PassProgress(before, stream);
        PassesNext(start, k, stream);
        k := k + 1;
      }
    }
  }

  lemma PeelingStarts(fecs: seq<Fec>)
    ensures Peeling(fecs, fecs) && HoldsRecovered(fecs, fecs, [])
  {
  }

  lemma NothingToRepair(fecs: seq<Fec>)
    requires forall f :: 0 <= f < |fecs| ==> MissingIn(fecs[f].slots) != 1
    ensures forall f, k :: IsSlot(fecs, f, k) && !Known(fecs, f, k) ==> !OthersIn(KnownSet(fecs), fecs, f, k)
  {
    hide MissingIn, KnownSet;
    forall f, k | IsSlot(fecs, f, k) && !Known(fecs, f, k)
      ensures !OthersIn(KnownSet(fecs), fecs, f, k)
    {
      OnlyMissingOthers(fecs, f, k);
      if OnlyMissing(fecs[f].slots, k) {
        OnlyMissingCounts(fecs[f].slots, k);
      }
    }
  }

  lemma NoneMissingYet(slots: seq<Slot>)
    ensures MissingIn(slots[..0]) == 0
  {
  }

  lemma MissingNext(slots: seq<Slot>, k: nat)
    requires k < |slots|
    ensures MissingIn(slots[..k + 1]) == MissingIn(slots[..k]) + if slots[k].packet.None? then 1 else 0
  {
    assert slots[..k + 1][..k] == slots[..k];
  }

  lemma {:induction false} MissingGrows(slots: seq<Slot>, k: nat)
    requires k <= |slots|
    ensures MissingIn(slots[..k]) <= MissingIn(slots)
    decreases |slots|
  {
    if k < |slots| {
      var m := |slots| - 1;
      MissingGrows(slots[..m], k);
      assert slots[..m][..k] == slots[..k];
    } else {
      assert slots[..k] == slots;
    }
  }
}
