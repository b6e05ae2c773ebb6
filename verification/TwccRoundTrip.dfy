/**
 The whole feedback path: what the receiver recorded (pkg/twcc/twcc.go) against what the sender
 concludes from the packet (internal/cc/feedback_adapter.go).
 */
module TwccRoundTrip {
  import opened Words
  import opened StatusChunks
  import opened FeedbackPackets
  import opened SendHistory
  import opened FeedbackAdapters
  import opened ArrivalTimes
  import opened TwccRecorder

  /** The time rebuilt for the arrival at position k. */
  function RebuiltTime(tick: int, arrivals: seq<int>, k: nat): int
    requires k < |arrivals|
  {
    Code(tick * REFERENCE_UNIT, arrivals[..k + 1]).clock
  }

  /** No drift: however many packets come before, a rebuilt time is off by at most 125 microseconds. */
  lemma RebuiltTimeAccurate(tick: int, arrivals: seq<int>, k: nat)
    requires k < |arrivals| && arrivals[k] >= 0
    ensures -125 <= RebuiltTime(tick, arrivals, k) - arrivals[k] <= 125
  {
    assert arrivals[..k + 1] == arrivals[..k] + [arrivals[k]];
    var c := Code(tick * REFERENCE_UNIT, arrivals[..k]);
    CodeAppend(tick * REFERENCE_UNIT, arrivals[..k], arrivals[k]);
    RoundingError(arrivals[k] - c.clock);
  }

  /** The acknowledgment a number should get. */
  function ExpectedAck(list: seq<Acknowledgment>, base: int, tick: int, arrivals: seq<int>, k: nat): Acknowledgment
    requires k < |arrivals|
  {
    match KnownAs(list, base + k)
    case None => NO_ACK
    case Some(a) => if arrivals[k] < 0 then a else a.(arrival := RebuiltTime(tick, arrivals, k))
  }

  ghost predicate ReceivedKnown(list: seq<Acknowledgment>, base: int, arrivals: seq<int>) {
    forall k :: 0 <= k < |arrivals| && arrivals[k] >= 0 ==> KnownAs(list, base + k).Some?
  }

  lemma CodeDeltasPrefix(start: int, arrivals: seq<int>, n: nat)
    requires n <= |arrivals|
    ensures Code(start, arrivals[..n]).deltas <= Code(start, arrivals).deltas
    decreases |arrivals|
  {
    if n == |arrivals| {
      assert arrivals[..n] == arrivals;
    } else {
      var front := arrivals[..|arrivals| - 1];
      CodeDeltasPrefix(start, front, n);
      assert front[..n] == arrivals[..n];
    }
  }

  /** The decoder is where the coder was: same time, and as many deltas used as were written. */
  ghost predicate InStep(u: Unpacked, c: Coding) {
    u.ok && u.consumed == |c.deltas| && u.refTime == c.clock && |u.acks| == |c.symbols|
  }

  lemma StepFollows(u: Unpacked, c: Coding, time: int, known: Option<Acknowledgment>, deltas: seq<RecvDelta>)
    requires InStep(u, c) && CodeNext(c, time).deltas <= deltas && (time >= 0 ==> known.Some?)
    ensures var d := CodeNext(c, time);
            var v := UnpackNext(u, known, d.symbols[|c.symbols|], deltas);
            && d.symbols == c.symbols + [d.symbols[|c.symbols|]]
            && InStep(v, d)
            && v.acks == u.acks + [match known
                                   case None => NO_ACK
                                   case Some(a) => if time < 0 then a else a.(arrival := d.clock)]
  {
    hide Rounded;
  }

  ghost predicate AcksExpected(acks: seq<Acknowledgment>, list: seq<Acknowledgment>, base: int, tick: int,
                               arrivals: seq<int>) {
    |acks| <= |arrivals| && forall k :: 0 <= k < |acks| ==> acks[k] == ExpectedAck(list, base, tick, arrivals, k)
  }

  lemma DecoderStarts(list: seq<Acknowledgment>, base: int, tick: int, arrivals: seq<int>)
    ensures var start := tick * REFERENCE_UNIT;
            var u := Unpack(list, base, start, Code(start, arrivals[..0]).symbols, Code(start, arrivals).deltas);
            InStep(u, Code(start, arrivals[..0])) && AcksExpected(u.acks, list, base, tick, arrivals)
  {
  }

  lemma KnownUnarrived(list: seq<Acknowledgment>)
    ensures Unarrived(list) ==> forall n: int :: Unreceived(list, n).arrival == 0
  {
  }

  /** Symbol by symbol, the decoder's time is the coder's time and no delta is left over or missing. */
  lemma {:induction false} DecoderFollows(list: seq<Acknowledgment>, base: int, tick: int, arrivals: seq<int>, n: nat)
    requires n <= |arrivals| && ReceivedKnown(list, base, arrivals)
    ensures var start := tick * REFERENCE_UNIT;
            var u := Unpack(list, base, start, Code(start, arrivals[..n]).symbols, Code(start, arrivals).deltas);
            InStep(u, Code(start, arrivals[..n])) && AcksExpected(u.acks, list, base, tick, arrivals)
    decreases n
  {
    hide Unpack, UnpackNext, Code, CodeNext, KnownAs;
    if n > 0 {
      var start, m := tick * REFERENCE_UNIT, n - 1;
      DecoderFollows(list, base, tick, arrivals, m);
      assert arrivals[..n] == arrivals[..m] + [arrivals[m]];
      CodeAppend(start, arrivals[..m], arrivals[m]);
      CodeDeltasPrefix(start, arrivals, n);
      var c, deltas := Code(start, arrivals[..m]), Code(start, arrivals).deltas;
      var u := Unpack(list, base, start, c.symbols, deltas);
      StepFollows(u, c, arrivals[m], KnownAs(list, base + m), deltas);
      UnpackAppend(list, base, start, c.symbols, Code(start, arrivals[..n]).symbols[m], deltas);
    } else {
      DecoderStarts(list, base, tick, arrivals);
    }
  }

  /**
   The round trip. For a packet the receiver built, whose received numbers the sender still knows, the
   sender reports no error and gives one acknowledgment per number, in order: a lost packet keeps its
   history entry, whose arrival is zero, and a received one gets the coder's clock, which is within
   125 microseconds of the recorded arrival.
   */
  lemma RoundTrip(r: Report, base: int, arrivals: seq<int>, tick: int, list: seq<Acknowledgment>)
    requires Describes(r, base, arrivals, tick) && 0 <= tick < UINT32_SIZE
    requires ReceivedKnown(list, base, arrivals)
    ensures var u := Unpack(list, r.base, r.referenceTime * REFERENCE_UNIT, Expand(r.chunks), r.deltas);
            && u.ok && |u.acks| == |arrivals|
            && (forall k :: 0 <= k < |arrivals| ==> u.acks[k] == ExpectedAck(list, base, tick, arrivals, k))
            && (forall k :: 0 <= k < |arrivals| && arrivals[k] >= 0 ==>
                  -125 <= u.acks[k].arrival - arrivals[k] <= 125)
            && (Unarrived(list) ==> forall k :: 0 <= k < |arrivals| && arrivals[k] < 0 ==> u.acks[k].arrival == 0)
  {
    hide Unpack, Code, Wrap16, Closed, Expand, KnownAs;
    KnownUnarrived(list);
    var start := tick * REFERENCE_UNIT;
    assert arrivals[..|arrivals|] == arrivals;
    DecoderFollows(list, base, tick, arrivals, |arrivals|);
    WrapSum(base, 0);
    ShiftStart(list, r.base, base, start, Expand(r.chunks), r.deltas);
    var u := Unpack(list, r.base, r.referenceTime * REFERENCE_UNIT, Expand(r.chunks), r.deltas);
    forall k | 0 <= k < |arrivals| && arrivals[k] >= 0
      ensures -125 <= u.acks[k].arrival - arrivals[k] <= 125
    {
      RebuiltTimeAccurate(tick, arrivals, k);
      assert KnownAs(list, base + k).Some?;
    }
    assert forall k :: 0 <= k < |arrivals| && arrivals[k] < 0 ==> u.acks[k] == Unreceived(list, base + k);
  }

  /**
   The same from the recorder's window to the sender: for a packet of a build, every received number of
   its stretch is acknowledged in its place with its recorded arrival time, give or take 125 microseconds.
   */
  lemma WindowToSender(r: Report, w: Window, seg: Segment, sender: int, media: int, count: int,
                       list: seq<Acknowledgment>, sn: int)
    requires Reported(r, w, seg, sender, media, count)
    requires forall k :: seg.base <= k < seg.next && Received(w, k) ==>
             TimeOf(w, k) < UINT32_SIZE * REFERENCE_UNIT && KnownAs(list, k).Some?
    requires seg.base <= sn < seg.next && Received(w, sn)
    ensures var u := Unpack(list, r.base, r.referenceTime * REFERENCE_UNIT, Expand(r.chunks), r.deltas);
            && u.ok && |u.acks| == seg.next - seg.base && KnownAs(list, sn).Some?
            && u.acks[sn - seg.base].(arrival := 0) == KnownAs(list, sn).value.(arrival := 0)
            && -125 <= u.acks[sn - seg.base].arrival - TimeOf(w, sn) <= 125
  {
    hide Unpack, Code, Wrap16, Closed, KnownAs, Expand, Received, TimeOf;
    var arrivals := TimesOf(w, seg.base, seg.next);
    StretchKnown(w, seg, list);
    RoundTrip(r, seg.base, arrivals, seg.tick, list);
    ReceivedTime(w, sn);
    assert arrivals[sn - seg.base] == TimeOf(w, seg.base + (sn - seg.base));
  }

  /** A number with a "not received" symbol gets its history entry as it is. */
  function Unreceived(list: seq<Acknowledgment>, sn: int): Acknowledgment {
    match KnownAs(list, sn)
    case None => NO_ACK
    case Some(a) => a
  }

  lemma {:induction false} FillersUseNothing(list: seq<Acknowledgment>, start: int, refTime: int, n: nat,
                                             deltas: seq<RecvDelta>)
    ensures var u := Unpack(list, start, refTime, Repeat(NotReceived, n), deltas);
            && u.ok && u.consumed == 0 && u.refTime == refTime && |u.acks| == n
            && forall k :: 0 <= k < n ==> u.acks[k] == Unreceived(list, start + k)
  {
    hide Unpack, KnownAs;
    if n == 0 {
      UnpackStart(list, start, refTime, [], deltas, 0);
      assert Repeat(NotReceived, 0) == [][..0];
    } else {
      FillersUseNothing(list, start, refTime, n - 1, deltas);
      assert Repeat(NotReceived, n) == Repeat(NotReceived, n - 1) + [NotReceived];
      UnpackAppend(list, start, refTime, Repeat(NotReceived, n - 1), NotReceived, deltas);
    }
  }

  /**
   The round trip over the wire, where a two-bit vector always has seven symbols. The adapter does not look at the
   status count: after the acknowledgments of the reported numbers it gives one more for every symbol the last
   chunk is short of seven, with the history entry of the number that follows and no arrival. So there is one
   acknowledgment per reported number if and only if the last chunk is not a short two-bit vector.
   */
  lemma WireRoundTrip(r: Report, base: int, arrivals: seq<int>, tick: int, list: seq<Acknowledgment>)
    requires Describes(r, base, arrivals, tick) && 0 <= tick < UINT32_SIZE
    requires ReceivedKnown(list, base, arrivals)
    ensures forall k :: 0 <= k < |r.chunks| ==> FitsLayout(r.chunks[k])
    ensures var ref := r.referenceTime * REFERENCE_UNIT;
            var u := Unpack(list, r.base, ref, Expand(r.chunks), r.deltas);
            var v := Unpack(list, r.base, ref, Expand(AllFixedWidth(r.chunks)), r.deltas);
            && v.ok && |v.acks| == |arrivals| + Fillers(r.chunks)
            && (|v.acks| == |arrivals| <==> r.chunks == [] || FullLayout(r.chunks[|r.chunks| - 1]))
            && v.acks[..|arrivals|] == u.acks
            && (forall k :: |arrivals| <= k < |v.acks| ==> v.acks[k] == Unreceived(list, base + k))
            && (Unarrived(list) ==> forall k :: |arrivals| <= k < |v.acks| ==> v.acks[k].arrival == 0)
  {
    hide Unpack, Code, Wrap16, Closed, Expand, KnownAs, FullLayout, FitsLayout;
    RoundTrip(r, base, arrivals, tick, list);
    StatusCountSuffices(r.chunks);
    KnownUnarrived(list);
    var ref, symbols := r.referenceTime * REFERENCE_UNIT, Expand(r.chunks);
    var extra := Fillers(r.chunks);
    var u := Unpack(list, r.base, ref, symbols, r.deltas);
    var fillers, rest := Repeat(NotReceived, extra), r.deltas[u.consumed..];
    UnpackSplit(list, r.base, ref, symbols, fillers, r.deltas);
    WrapSum(base, |symbols|);
    ShiftStart(list, r.base + |symbols|, base + |symbols|, u.refTime, fillers, rest);
    FillersUseNothing(list, base + |symbols|, u.refTime, extra, rest);
    var more := Unpack(list, base + |symbols|, u.refTime, fillers, rest).acks;
    assert forall k :: |arrivals| <= k < |arrivals| + extra ==>
        (u.acks + more)[k] == more[k - |arrivals|] == Unreceived(list, base + k);
  }

  lemma CodedGap()
    ensures Code(0, [0, -1, 0]) == Coding(0, [SmallDelta, NotReceived, SmallDelta],
                                          [RecvDelta(SmallDelta, 0), RecvDelta(SmallDelta, 0)], true)
  {
    assert [0, -1, 0][..2] == [0, -1] && [0, -1][..1] == [0] && [0][..0] == [];
    assert Code(0, [0]) == Coding(0, [SmallDelta], [RecvDelta(SmallDelta, 0)], true);
    assert Code(0, [0, -1]) == Coding(0, [SmallDelta, NotReceived], [RecvDelta(SmallDelta, 0)], true);
  }

  /** A packet of three numbers, the middle one lost, for which the sender gives seven acknowledgments. */
  lemma SurplusAcknowledgments(a: Acknowledgment, b: Acknowledgment)
    requires KeyOf(a) == Key(0, 0) && KeyOf(b) == Key(0, 2)
    ensures var symbols := [SmallDelta, NotReceived, SmallDelta];
            var r := Report(1, 2, 0, 0, 3, 0, [TwoBit(symbols)], [RecvDelta(SmallDelta, 0), RecvDelta(SmallDelta, 0)],
                            false, 5);
            && Describes(r, 0, [0, -1, 0], 0) && ReceivedKnown([a, b], 0, [0, -1, 0])
            && FitsLayout(r.chunks[0])
            && |Unpack([a, b], 0, 0, Expand(AllFixedWidth(r.chunks)), r.deltas).acks| == 7
  {
    hide Unpack, Code;
    var symbols, arrivals := [SmallDelta, NotReceived, SmallDelta], [0, -1, 0];
    var r := Report(1, 2, 0, 0, 3, 0, [TwoBit(symbols)], [RecvDelta(SmallDelta, 0), RecvDelta(SmallDelta, 0)],
                            false, 5);
    CodedGap();
    assert r.chunks[..0] == [] && Expand(r.chunks) == [] + symbols;
    assert [a, b][1..] == [b];
    WireRoundTrip(r, 0, arrivals, 0, [a, b]);
  }

  lemma ReceivedTime(w: Window, sn: int)
    ensures Received(w, sn) <==> TimeOf(w, sn) >= 0
  {
  }

  lemma StretchKnown(w: Window, seg: Segment, list: seq<Acknowledgment>)
    requires FirstTick(w, seg)
    requires forall k :: seg.base <= k < seg.next && Received(w, k) ==>
             TimeOf(w, k) < UINT32_SIZE * REFERENCE_UNIT && KnownAs(list, k).Some?
    ensures ReceivedKnown(list, seg.base, TimesOf(w, seg.base, seg.next)) && 0 <= seg.tick < UINT32_SIZE
  {
    hide KnownAs, TimesOf;
    var arrivals := TimesOf(w, seg.base, seg.next);
    forall k | 0 <= k < |arrivals| && arrivals[k] >= 0
      ensures KnownAs(list, seg.base + k).Some?
    {
      assert Received(w, seg.base + k);
    }
  }

  // -- A received number the sender has forgotten

  /** How many of the arrivals were received, counting only the numbers the sender knows. */
  function KnownCount(list: seq<Acknowledgment>, base: int, arrivals: seq<int>): (n: nat)
    ensures n <= ReceivedCount(arrivals)
    decreases |arrivals|
  {
    if arrivals == [] then 0
    else
      var m := |arrivals| - 1;
      KnownCount(list, base, arrivals[..m]) + (if arrivals[m] >= 0 && KnownAs(list, base + m).Some? then 1 else 0)
  }

  function ReceivedCount(arrivals: seq<int>): nat
    decreases |arrivals|
  {
    if arrivals == [] then 0
    else ReceivedCount(arrivals[..|arrivals| - 1]) + (if arrivals[|arrivals| - 1] >= 0 then 1 else 0)
  }

  /** The coder's clock is the reference time plus every delta it wrote. */
  lemma {:induction false} ClockIsSum(start: int, arrivals: seq<int>)
    ensures var c := Code(start, arrivals);
            |c.deltas| == ReceivedCount(arrivals) && c.clock == start + SumOf(c.deltas)
    decreases |arrivals|
  {
    if arrivals != [] {
      hide Rounded;
      var n := |arrivals| - 1;
      ClockIsSum(start, arrivals[..n]);
      var c, d := Code(start, arrivals[..n]), Code(start, arrivals);
      if arrivals[n] >= 0 {
        assert d.deltas[..|d.deltas| - 1] == c.deltas;
      }
    }
  }

  lemma KnownNext(list: seq<Acknowledgment>, base: int, arrivals: seq<int>, m: nat)
    requires m < |arrivals|
    ensures KnownCount(list, base, arrivals[..m + 1]) ==
            KnownCount(list, base, arrivals[..m]) + (if arrivals[m] >= 0 && KnownAs(list, base + m).Some? then 1 else 0)
    ensures ReceivedCount(arrivals[..m + 1]) == ReceivedCount(arrivals[..m]) + (if arrivals[m] >= 0 then 1 else 0)
  {
    assert arrivals[..m + 1][..m] == arrivals[..m];
  }

  /** Whatever the sender knows, it uses one delta per known received number, in order. */
  lemma {:induction false} DecoderUsesKnown(list: seq<Acknowledgment>, base: int, tick: int, arrivals: seq<int>, n: nat)
    requires n <= |arrivals|
    ensures var start := tick * REFERENCE_UNIT;
            var deltas := Code(start, arrivals).deltas;
            var m := KnownCount(list, base, arrivals[..n]);
            var u := Unpack(list, base, start, Code(start, arrivals[..n]).symbols, deltas);
            && m <= |deltas| && u.ok && u.consumed == m && u.refTime == start + SumOf(deltas[..m])
            && (n > 0 && arrivals[n - 1] >= 0 && KnownAs(list, base + n - 1).Some? ==>
                 u.acks[n - 1].arrival == u.refTime)
    decreases n
  {
    hide Unpack, Code, CodeNext, KnownAs, KnownCount, ReceivedCount, SumOf;
    var start := tick * REFERENCE_UNIT;
    var deltas := Code(start, arrivals).deltas;
    if n == 0 {
      NothingDecoded(list, base, tick, arrivals);
    } else {
      var m := n - 1;
      DecoderUsesKnown(list, base, tick, arrivals, m);
      KnownNext(list, base, arrivals, m);
      CodeDeltasPrefix(start, arrivals, n);
      ClockIsSum(start, arrivals[..n]);
      assert arrivals[..n] == arrivals[..m] + [arrivals[m]];
      CodeAppend(start, arrivals[..m], arrivals[m]);
      CodeSymbol(Code(start, arrivals[..m]), arrivals[m]);
      UnpackAppend(list, base, start, Code(start, arrivals[..m]).symbols, Code(start, arrivals[..n]).symbols[m],
          deltas);
      SumNext(deltas, KnownCount(list, base, arrivals[..m]));
    }
  }

  lemma NothingDecoded(list: seq<Acknowledgment>, base: int, tick: int, arrivals: seq<int>)
    ensures var start := tick * REFERENCE_UNIT;
            var deltas := Code(start, arrivals).deltas;
            && KnownCount(list, base, arrivals[..0]) == 0
            && Unpack(list, base, start, Code(start, arrivals[..0]).symbols, deltas) == Unpacked(0, start, [], true)
            && SumOf(deltas[..0]) == 0
  {
  }

  lemma CodeSymbol(c: Coding, time: int)
    ensures CodeNext(c, time).symbols == c.symbols + [CodeNext(c, time).symbols[|c.symbols|]]
    ensures CodeNext(c, time).symbols[|c.symbols|] == NotReceived <==> time < 0
  {
  }

  lemma {:induction false} SumSplit(deltas: seq<RecvDelta>, m: nat, n: nat)
    requires m <= n <= |deltas|
    ensures SumOf(deltas[..n]) == SumOf(deltas[..m]) + SumOf(deltas[m..n])
    decreases n
  {
    if m < n {
      SumSplit(deltas, m, n - 1);
      assert deltas[m..n][..n - 1 - m] == deltas[m..n - 1];
      SumNext(deltas, n - 1);
    }
  }

  /**
   A received number that has left the history leaves its delta to the next known one, and so on. With n received
   numbers up to k, m of them known, the arrival of k is the reference time plus the first m deltas: it falls short
   by the sum of the last n - m of the n deltas, and is right if and only if that sum is zero.
   */
  lemma ArrivalRightIff(r: Report, base: int, arrivals: seq<int>, tick: int, list: seq<Acknowledgment>, k: nat)
    requires Describes(r, base, arrivals, tick) && 0 <= tick < UINT32_SIZE
    requires k < |arrivals| && arrivals[k] >= 0 && KnownAs(list, base + k).Some?
    ensures var u := Unpack(list, r.base, r.referenceTime * REFERENCE_UNIT, Expand(r.chunks), r.deltas);
            var m, n := KnownCount(list, base, arrivals[..k + 1]), ReceivedCount(arrivals[..k + 1]);
            && u.ok && |u.acks| == |arrivals| && m <= n <= |r.deltas|
            && u.acks[k].arrival == RebuiltTime(tick, arrivals, k) - SumOf(r.deltas[m..n])
            && (u.acks[k].arrival == RebuiltTime(tick, arrivals, k) <==> SumOf(r.deltas[m..n]) == 0)
  {
    hide Unpack, Code, Wrap16, Closed, KnownAs, KnownCount, ReceivedCount, SumOf;
    var start := tick * REFERENCE_UNIT;
    var symbols := Expand(r.chunks);
    SymbolsPrefix(start, arrivals, k + 1);
    DecoderUsesKnown(list, base, tick, arrivals, k + 1);
    assert arrivals[..|arrivals|] == arrivals;
    DecoderUsesKnown(list, base, tick, arrivals, |arrivals|);
    WrapSum(base, 0);
    ShiftStart(list, r.base, base, start, symbols, r.deltas);
    UnpackSplit(list, base, start, symbols[..k + 1], symbols[k + 1..], r.deltas);
    assert symbols[..k + 1] + symbols[k + 1..] == symbols;
    CodeDeltasPrefix(start, arrivals, k + 1);
    ClockIsSum(start, arrivals[..k + 1]);
    var m, n := KnownCount(list, base, arrivals[..k + 1]), ReceivedCount(arrivals[..k + 1]);
    assert r.deltas[..n] == Code(start, arrivals[..k + 1]).deltas;
    SumSplit(r.deltas, m, n);
  }

  lemma {:induction false} SymbolsPrefix(start: int, arrivals: seq<int>, n: nat)
    requires n <= |arrivals|
    ensures Code(start, arrivals[..n]).symbols == Code(start, arrivals).symbols[..n]
    decreases |arrivals|
  {
    if n == |arrivals| {
      assert arrivals[..n] == arrivals;
    } else {
      var front := arrivals[..|arrivals| - 1];
      SymbolsPrefix(start, front, n);
      assert front[..n] == arrivals[..n];
    }
  }

  lemma CodedPair()
    ensures Code(0, [0, 1000]) ==
            Coding(1000, [SmallDelta, SmallDelta], [RecvDelta(SmallDelta, 0), RecvDelta(SmallDelta, 1000)], true)
  {
    assert Rounded(0) == 0 && Rounded(1000) == 4;
    assert [0, 1000][..1] == [0] && [0][..0] == [];
    assert Code(0, [0]) == Coding(0, [SmallDelta], [RecvDelta(SmallDelta, 0)], true);
  }

  lemma OnlySecondKnown(a: Acknowledgment)
    requires KeyOf(a) == Key(0, 1)
    ensures KnownAs([a], 0) == None && KnownAs([a], 1) == Some(a)
  {
    assert [a][1..] == [];
  }

  /** The sender knows number 1 but not number 0: the packet that arrived at 1000 is taken to have arrived at 0. */
  lemma ForgottenNumberShiftsArrival(a: Acknowledgment)
    requires KeyOf(a) == Key(0, 1)
    ensures var arrivals := [0, 1000];
            var c := Code(0, arrivals);
            var u := Unpack([a], 0, 0, c.symbols, c.deltas);
            u.ok && |u.acks| == 2 && RebuiltTime(0, arrivals, 1) == 1000 && u.acks[1].arrival == 0
  {
    hide KnownAs, Code, CodeNext, Rounded;
    CodedPair();
    OnlySecondKnown(a);
    var c := Code(0, [0, 1000]);
    assert [0, 1000][..2] == [0, 1000];
    assert c.symbols[..1] == [SmallDelta] && [SmallDelta][..0] == [];
    assert Unpack([a], 0, 0, [SmallDelta], c.deltas) == Unpacked(0, 0, [NO_ACK], true);
  }
}
