/**
 One transport-wide feedback packet under construction (pkg/twcc/twcc.go, type feedback).
 Arrival times are coded as rounded differences from the time a decoder has rebuilt so far,
 so the rounding error of one packet never reaches the next.
 */
module FeedbackPackets {
  import opened Words
  import opened StatusChunks

  const DELTA_SCALE := 250
  const REFERENCE_UNIT := 64_000
  const UINT32_SIZE := 0x1_0000_0000

  datatype RecvDelta = RecvDelta(kind: Symbol, delta: int)

  /** A finished packet, with the padding flag and the length field of its RTCP header. */
  datatype Report = Report(
    senderSSRC: int,
    mediaSSRC: int,
    fbPktCount: int,
    base: Uint16,
    statusCount: Uint16,
    referenceTime: int,
    chunks: seq<StatusChunk>,
    deltas: seq<RecvDelta>,
    padding: bool,
    length: Uint16)

  // -- What a packet says, as functions of the arrival times it covers
  //    (one entry per sequence number, negative for "not received")

  /** A time difference in units of 250 microseconds, rounded half away from zero. */
  function Rounded(deltaUS: int): int {
    if deltaUS >= 0 then
      TruncatedQuotient(deltaUS + DELTA_SCALE / 2, DELTA_SCALE)
    else
      TruncatedQuotient(deltaUS - DELTA_SCALE / 2, DELTA_SCALE)
  }

  predicate FitsInt16(n: int) {
    -0x8000 <= n <= 0x7fff
  }

  function SymbolFor(delta250US: int): Symbol {
    if 0 <= delta250US <= 0xff then SmallDelta else LargeDelta
  }

  /**
   What has been said so far: the time a decoder has rebuilt, the symbols and the time differences,
   and whether every difference fits the 16 bits of a large delta.
   */
  datatype Coding = Coding(clock: int, symbols: seq<Symbol>, deltas: seq<RecvDelta>, fits: bool)

  function CodeNext(c: Coding, time: int): Coding {
    if time < 0 then
      c.(symbols := c.symbols + [NotReceived])
    else
      var d := Rounded(time - c.clock);
      Coding(c.clock + DELTA_SCALE * d,
             c.symbols + [SymbolFor(d)],
             c.deltas + [RecvDelta(SymbolFor(d), DELTA_SCALE * d)],
             c.fits && FitsInt16(d))
  }

  /** The coding of these arrivals, starting from the reference time. */
  function Code(start: int, arrivals: seq<int>): (c: Coding)
    ensures |c.symbols| == |arrivals|
    decreases |arrivals|
  {
    if arrivals == [] then Coding(start, [], [], true)
    else CodeNext(Code(start, arrivals[..|arrivals| - 1]), arrivals[|arrivals| - 1])
  }

  /** Rounding is off by at most half a unit, and by that much only away from zero. */
  lemma RoundingError(deltaUS: int)
    ensures -125 <= 250 * Rounded(deltaUS) - deltaUS <= 125
    ensures 250 * Rounded(deltaUS) - deltaUS == 125 ==> deltaUS > 0
    ensures 250 * Rounded(deltaUS) - deltaUS == -125 ==> deltaUS < 0
  {
  }

  /** Which time differences round to 16 bits. */
  lemma FitsIff(deltaUS: int)
    ensures FitsInt16(Rounded(deltaUS)) <==> -32768 * 250 - 125 < deltaUS < 32767 * 250 + 125
  {
  }

  lemma CodeAppend(start: int, arrivals: seq<int>, time: int)
    ensures Code(start, arrivals + [time]) == CodeNext(Code(start, arrivals), time)
  {
    assert (arrivals + [time])[..|arrivals|] == arrivals;
  }

  /** The reference time is the 64 ms tick at or before the first arrival. */
  function ReferenceTick(time: int): int {
    TruncatedQuotient(time, REFERENCE_UNIT)
  }

  /** The report covers exactly these arrivals of consecutive numbers from `base` on. */
  ghost predicate Describes(r: Report, base: int, arrivals: seq<int>, tick: int) {
    var start := tick * REFERENCE_UNIT;
    && r.base == Wrap16(base)
    && r.statusCount == |arrivals|
    && r.referenceTime == tick % UINT32_SIZE
    && Closed(r.chunks) && Code(start, arrivals).fits
    && Expand(r.chunks) == Code(start, arrivals).symbols
    && r.deltas == Code(start, arrivals).deltas
  }

  // -- What the wire makes of it

  /** The symbols of the numbers that were received, in order. */
  function ReceivedSymbols(symbols: seq<Symbol>): seq<Symbol>
    decreases |symbols|
  {
    if symbols == [] then []
    else
      var n := |symbols| - 1;
      ReceivedSymbols(symbols[..n]) + (if symbols[n] == NotReceived then [] else [symbols[n]])
  }

  function Kinds(deltas: seq<RecvDelta>): (kinds: seq<Symbol>)
    ensures |kinds| == |deltas| && forall k :: 0 <= k < |deltas| ==> kinds[k] == deltas[k].kind
  {
    seq(|deltas|, k requires 0 <= k < |deltas| => deltas[k].kind)
  }

  /**
   A delta is a whole number of units of 250 microseconds. It is small exactly when that number fits an unsigned
   byte; any other is large, and the number fits 16 bits with a sign.
   */
  ghost predicate WellSized(d: RecvDelta) {
    && d.delta % 250 == 0
    && (d.kind == SmallDelta <==> 0 <= d.delta <= 255 * 250)
    && (d.kind != SmallDelta ==> d.kind == LargeDelta && -32768 * 250 <= d.delta <= 32767 * 250)
  }

  /** There is one delta for each number received, in order and of the size its symbol says. */
  ghost predicate WellCoded(r: Report) {
    ReceivedSymbols(Expand(r.chunks)) == Kinds(r.deltas) && forall k :: 0 <= k < |r.deltas| ==> WellSized(r.deltas[k])
  }

  lemma SymbolNext(symbols: seq<Symbol>, s: Symbol)
    ensures ReceivedSymbols(symbols + [s]) == ReceivedSymbols(symbols) + (if s == NotReceived then [] else [s])
  {
    assert (symbols + [s])[..|symbols|] == symbols;
  }

  lemma UnitsWellSized(units: int)
    requires FitsInt16(units)
    ensures WellSized(RecvDelta(SymbolFor(units), DELTA_SCALE * units))
  {
  }

  lemma NextWellSized(c: Coding, time: int)
    requires ReceivedSymbols(c.symbols) == Kinds(c.deltas)
    requires c.fits ==> forall k :: 0 <= k < |c.deltas| ==> WellSized(c.deltas[k])
    ensures var d := CodeNext(c, time);
            && ReceivedSymbols(d.symbols) == Kinds(d.deltas)
            && (d.fits ==> forall k :: 0 <= k < |d.deltas| ==> WellSized(d.deltas[k]))
  {
    hide Rounded, WellSized, ReceivedSymbols, FitsInt16;
    var units := Rounded(time - c.clock);
    if time < 0 {
      SymbolNext(c.symbols, NotReceived);
    } else {
      SymbolNext(c.symbols, SymbolFor(units));
      if FitsInt16(units) {
        UnitsWellSized(units);
      }
    }
  }

  lemma {:induction false} CodeWellSized(start: int, arrivals: seq<int>)
    ensures var c := Code(start, arrivals);
            && ReceivedSymbols(c.symbols) == Kinds(c.deltas)
            && (c.fits ==> forall k :: 0 <= k < |c.deltas| ==> WellSized(c.deltas[k]))
    decreases |arrivals|
  {
    hide WellSized, CodeNext, Kinds;
    if arrivals == [] {
      assert Kinds([]) == [];
    } else {
      var n := |arrivals| - 1;
      CodeWellSized(start, arrivals[..n]);
      NextWellSized(Code(start, arrivals[..n]), arrivals[n]);
    }
  }

  /** In a report that covers its arrivals every delta is in its place and has its size. */
  lemma DescribedIsWellCoded(r: Report, base: int, arrivals: seq<int>, tick: int)
    requires Describes(r, base, arrivals, tick)
    ensures WellCoded(r)
  {
    hide Code, WellSized, Closed, Expand, Wrap16;
    CodeWellSized(tick * REFERENCE_UNIT, arrivals);
  }

  /** A small delta takes one byte on the wire, a large one two. */
  function DeltaBytes(deltas: seq<RecvDelta>): nat
    decreases |deltas|
  {
    if deltas == [] then 0
    else DeltaBytes(deltas[..|deltas| - 1]) + (if deltas[|deltas| - 1].kind == SmallDelta then 1 else 2)
  }

  lemma DeltaBytesAppend(deltas: seq<RecvDelta>, d: RecvDelta)
    ensures DeltaBytes(deltas + [d]) == DeltaBytes(deltas) + (if d.kind == SmallDelta then 1 else 2)
  {
    assert (deltas + [d])[..|deltas|] == deltas;
  }

  /** The deltas whose number of units does not fit an unsigned byte. */
  ghost function Wide(deltas: seq<RecvDelta>): set<int> {
    set k | 0 <= k < |deltas| && !(0 <= deltas[k].delta <= 255 * 250)
  }

  lemma WideNext(deltas: seq<RecvDelta>)
    requires deltas != [] && WellSized(deltas[|deltas| - 1])
    ensures var n := |deltas| - 1;
            && Wide(deltas) == Wide(deltas[..n]) + (if deltas[n].kind == SmallDelta then {} else {n})
            && n !in Wide(deltas[..n])
  {
  }

  /** One byte for each delta and a second one for each that needs it. */
  lemma {:induction false} DeltaBytesAre(deltas: seq<RecvDelta>)
    requires forall k :: 0 <= k < |deltas| ==> WellSized(deltas[k])
    ensures DeltaBytes(deltas) == |deltas| + |Wide(deltas)|
    decreases |deltas|
  {
    hide WellSized;
    if deltas == [] {
      assert Wide(deltas) == {};
    } else {
      var n := |deltas| - 1;
      DeltaBytesAre(deltas[..n]);
      WideNext(deltas);
    }
  }

  /**
   The header says that the packet is padded exactly when its bytes are not whole words, and its length, in words
   less one and in 16 bits, is that of the packet filled up to whole words. The bytes are 20 for both headers, two
   for each chunk, and one or two for each delta.
   */
  ghost predicate Framed(r: Report) {
    var bytes := 20 + 2 * |r.chunks| + |r.deltas| + |Wide(r.deltas)|;
    && (r.padding <==> bytes % 4 != 0)
    && exists words: nat :: bytes <= 4 * words < bytes + 4 && r.length == Wrap16(words - 1)
  }

  lemma FullIsClosed(chunks: seq<StatusChunk>)
    ensures AllFull(chunks) ==> Closed(chunks)
  {
  }

  /** The least number of whole words. */
  lemma WholeWords(bytes: nat) returns (words: nat)
    ensures bytes <= 4 * words < bytes + 4
  {
    words := (bytes + 3) / 4;
  }

  lemma WordsEnd(n: nat, words: nat)
    requires n <= 4 * words
    ensures n % 4 != 0 ==> n < 4 * words
    ensures n % 4 == 0 ==> n == 4 * (n / 4)
  {
  }

  lemma CountFits(n: nat)
    ensures n < UINT16_SIZE ==> Wrap16(n) == n
  {
  }

  class Feedback {
    var senderSSRC: int
    var mediaSSRC: int
    var fbPktCount: int
    var baseSequenceNumber: Uint16
    var refTimestamp64MS: int
    var lastTimestampUS: int
    var nextSequenceNumber: Uint16
    var sequenceNumberCount: Uint16
    var len: nat
    var lastChunk: Chunk
    var chunks: seq<StatusChunk>
    var deltas: seq<RecvDelta>
    /** The arrivals recorded so far, one per number from the base on. */
    ghost var arrivals: seq<int>

    ghost predicate Valid()
      reads this, lastChunk
    {
      var start := refTimestamp64MS * REFERENCE_UNIT;
      && lastChunk.Valid() && AllFull(chunks)
      && Code(start, arrivals) == Coding(lastTimestampUS, Expand(chunks) + lastChunk.deltas, deltas, true)
      && sequenceNumberCount == Wrap16(|arrivals|) && len == DeltaBytes(deltas)
      && nextSequenceNumber == Wrap16(baseSequenceNumber + |arrivals|)
    }

    lemma NextNumber()
      requires Valid()
      ensures nextSequenceNumber == Wrap16(baseSequenceNumber + |arrivals|)
    {
    }

    constructor (senderSSRC: int, mediaSSRC: int, count: int)
      ensures Valid() && fresh(lastChunk) && arrivals == []
      ensures this.senderSSRC == senderSSRC && this.mediaSSRC == mediaSSRC && this.fbPktCount == count
    {
      this.senderSSRC, this.mediaSSRC, this.fbPktCount := senderSSRC, mediaSSRC, count;
      baseSequenceNumber, nextSequenceNumber, sequenceNumberCount := 0, 0, 0;
      refTimestamp64MS, lastTimestampUS, len := 0, 0, 0;
      lastChunk := new Chunk();
      chunks, deltas, arrivals := [], [], [];
    }

    method SetBase(sequenceNumber: Uint16, timeUS: int)
      requires Valid() && arrivals == []
      modifies this
      ensures Valid() && arrivals == [] && lastChunk == old(lastChunk)
      ensures baseSequenceNumber == sequenceNumber && refTimestamp64MS == ReferenceTick(timeUS)
      ensures (senderSSRC, mediaSSRC, fbPktCount) == old((senderSSRC, mediaSSRC, fbPktCount))
    {
      baseSequenceNumber := sequenceNumber;
      nextSequenceNumber := baseSequenceNumber;
      refTimestamp64MS := TruncatedQuotient(timeUS, REFERENCE_UNIT);
      lastTimestampUS := refTimestamp64MS * REFERENCE_UNIT;
    }

    /** Writes out the next chunk of the pending symbols. */
    method CloseChunk()
      requires lastChunk.Valid() && lastChunk.deltas != [] && AllFull(chunks)
      modifies this`chunks, lastChunk
      ensures lastChunk.Valid() && |lastChunk.deltas| < MAX_TWO_BIT_CAP && Closed(chunks)
      ensures |lastChunk.deltas| < |old(lastChunk.deltas)| && |chunks| == |old(chunks)| + 1
      ensures |old(lastChunk.deltas)| >= MAX_TWO_BIT_CAP || lastChunk.deltas != [] ==> AllFull(chunks)
      ensures Expand(chunks) + lastChunk.deltas == old(Expand(chunks) + lastChunk.deltas)
    {
      var c := lastChunk.Encode();
      CloseNext(chunks, c, lastChunk.deltas);
      chunks := chunks + [c];
    }

    /** Adds a status symbol, closing the current chunk first exactly when the symbol does not fit. */
    method AddSymbol(symbol: Symbol)
      requires lastChunk.Valid() && AllFull(chunks)
      modifies this`chunks, lastChunk
      ensures lastChunk.Valid() && AllFull(chunks)
      ensures Expand(chunks) + lastChunk.deltas == old(Expand(chunks) + lastChunk.deltas) + [symbol]
      ensures |chunks| == |old(chunks)| + if FitsOneChunk(old(lastChunk.deltas) + [symbol]) then 0 else 1
    {
      hide FitsOneChunk;
      lastChunk.CanAddIff(symbol);
      if !lastChunk.CanAdd(symbol) {
        CloseChunk();
      }
      ghost var pending := lastChunk.deltas;
      lastChunk.Add(symbol);
      assert Expand(chunks) + (pending + [symbol]) == (Expand(chunks) + pending) + [symbol];
    }

    /** Records that the next number was not received. */
    method AddMissing()
      requires Valid()
      modifies this`chunks, this`arrivals, this`sequenceNumberCount, this`nextSequenceNumber, lastChunk
      ensures Valid() && arrivals == old(arrivals) + [-1]
      ensures nextSequenceNumber == Wrap16(old(nextSequenceNumber) + 1)
    {
      hide Wrap16, Rounded, Code, Expand, AllFull, Chunk.Valid;
      AddSymbol(NotReceived);
      CodeAppend(refTimestamp64MS * REFERENCE_UNIT, arrivals, -1);
      WrapSum(|arrivals|, 1);
      WrapSum(baseSequenceNumber + |arrivals|, 1);
      arrivals := arrivals + [-1];
      sequenceNumberCount := Wrap16(sequenceNumberCount + 1);
      nextSequenceNumber := Wrap16(nextSequenceNumber + 1);
    }

    /** Records that the next number arrived; the caller has checked that the difference fits. */
    method AddArrival(timestampUS: int, delta250US: int)
      requires Valid() && timestampUS >= 0
      requires delta250US == Rounded(timestampUS - lastTimestampUS) && FitsInt16(delta250US)
      modifies this`chunks, this`deltas, this`arrivals, this`len, lastChunk
      modifies this`lastTimestampUS, this`sequenceNumberCount, this`nextSequenceNumber
      ensures Valid() && arrivals == old(arrivals) + [timestampUS]
      ensures deltas == old(deltas) + [RecvDelta(SymbolFor(delta250US), DELTA_SCALE * delta250US)]
      ensures lastTimestampUS == old(lastTimestampUS) + DELTA_SCALE * delta250US
    {
      hide Wrap16, Rounded, Code, Expand, AllFull, Chunk.Valid, DeltaBytes;
      var deltaUSRounded := delta250US * DELTA_SCALE;
      var recvDelta := if delta250US >= 0 && delta250US <= 0xff then SmallDelta else LargeDelta;
      len := len + if recvDelta == SmallDelta then 1 else 2;
      AddSymbol(recvDelta);
      CodeAppend(refTimestamp64MS * REFERENCE_UNIT, arrivals, timestampUS);
      WrapSum(|arrivals|, 1);
      WrapSum(baseSequenceNumber + |arrivals|, 1);
      arrivals := arrivals + [timestampUS];
      DeltaBytesAppend(deltas, RecvDelta(recvDelta, deltaUSRounded));
      deltas := deltas + [RecvDelta(recvDelta, deltaUSRounded)];
      lastTimestampUS := lastTimestampUS + deltaUSRounded;
      sequenceNumberCount := Wrap16(sequenceNumberCount + 1);
      nextSequenceNumber := Wrap16(nextSequenceNumber + 1);
    }

    /**
     Adds the arrival of `sequenceNumber`, after one "not received" for each number skipped.
     Refuses, changing nothing, exactly when the time difference does not round to 16 bits. Otherwise it writes one
     more delta, of the size its value needs, which takes the time rebuilt so far to within half a unit of the arrival.
     */
    method AddReceived(sequenceNumber: Uint16, timestampUS: int) returns (ok: bool)
      requires Valid() && timestampUS >= 0
      modifies this`chunks, this`deltas, this`arrivals, this`len, lastChunk
      modifies this`lastTimestampUS, this`sequenceNumberCount, this`nextSequenceNumber
      ensures Valid()
      ensures ok <==> FitsInt16(Rounded(timestampUS - old(Code(refTimestamp64MS * REFERENCE_UNIT, arrivals).clock)))
      ensures ok <==> -32768 * 250 - 125 < timestampUS - old(lastTimestampUS) < 32767 * 250 + 125
      ensures !ok ==> unchanged(this) && unchanged(lastChunk)
      ensures ok ==>
                && |deltas| == |old(deltas)| + 1 && deltas[..|old(deltas)|] == old(deltas)
                && WellSized(deltas[|old(deltas)|])
                && lastTimestampUS == old(lastTimestampUS) + deltas[|old(deltas)|].delta
                && -125 <= lastTimestampUS - timestampUS <= 125
      ensures var skipped := Sub16(sequenceNumber, old(nextSequenceNumber));
              ok ==> arrivals == old(arrivals) + Repeat(-1, skipped) + [timestampUS]
    {
      hide Rounded, Code, Expand, AllFull, Chunk.Valid, Wrap16, Sub16, WellSized;
      FitsIff(timestampUS - lastTimestampUS);
      RoundingError(timestampUS - lastTimestampUS);
      var delta250US := Rounded(timestampUS - lastTimestampUS);
      if delta250US < -0x8000 || delta250US > 0x7fff {
        return false;
      }
      ghost var gap: int := Sub16(sequenceNumber, nextSequenceNumber);
      ghost var skipped: nat := 0;
      while nextSequenceNumber != sequenceNumber
        invariant Valid()
        invariant Sub16(sequenceNumber, nextSequenceNumber) == gap - skipped
        invariant arrivals == old(arrivals) + Repeat(-1, skipped)
        decreases gap - skipped
        modifies this`chunks, this`arrivals, this`sequenceNumberCount, this`nextSequenceNumber, lastChunk
      {
        CountUp(sequenceNumber, nextSequenceNumber);
        AddMissing();
        skipped := skipped + 1;
      }
      CountUp(sequenceNumber, nextSequenceNumber);
      AddArrival(timestampUS, delta250US);
      UnitsWellSized(delta250US);
      return true;
    }

    /** The padding flag and the length field for the chunks and deltas there are. */
    method FrameLength() returns (padding: bool, length: Uint16)
      requires len == DeltaBytes(deltas)
      ensures var bytes := 20 + 2 * |chunks| + DeltaBytes(deltas);
              && (padding <==> bytes % 4 != 0)
              && exists words: nat :: bytes <= 4 * words < bytes + 4 && length == Wrap16(words - 1)
    {
      hide Wrap16, DeltaBytes;
      ghost var bytes: nat := 20 + 2 * |chunks| + DeltaBytes(deltas);
      var padLen: nat := 20 + |chunks| * 2 + len;
      padding := padLen % 4 != 0;
      ghost var top := WholeWords(bytes);
      while padLen % 4 != 0
        invariant bytes <= padLen <= 4 * top
        decreases 4 * top - padLen
      {
        WordsEnd(padLen, top);
        padLen := padLen + 1;
      }
      length := Wrap16(padLen / 4 - 1);
      WordsEnd(padLen, top);
      ghost var words: nat := padLen / 4;
      assert bytes <= 4 * words < bytes + 4;
    }

    /** Closes the pending chunks and hands out the packet. */
    method GetRTCP(ghost base: int) returns (r: Report)
      requires Valid() && |arrivals| < UINT16_SIZE && baseSequenceNumber == Wrap16(base)
      modifies this`chunks, lastChunk
      ensures Describes(r, base, old(arrivals), old(refTimestamp64MS)) && Framed(r) && WellCoded(r)
      ensures (r.senderSSRC, r.mediaSSRC, r.fbPktCount) == (senderSSRC, mediaSSRC, fbPktCount)
    {
      hide Code, Expand, Closed, AllFull, Chunk.Valid, DeltaBytes, Wrap16, WellSized, ReceivedSymbols, Kinds, Wide;
      ghost var all := Expand(chunks) + lastChunk.deltas;
      FullIsClosed(chunks);
      CountFits(|arrivals|);
      while lastChunk.deltas != []
        invariant lastChunk.Valid() && Closed(chunks) && Expand(chunks) + lastChunk.deltas == all
        invariant lastChunk.deltas != [] ==> AllFull(chunks)
        decreases |lastChunk.deltas|
      {
        CloseChunk();
      }
      assert Expand(chunks) + [] == Expand(chunks);
      var padding, length := FrameLength();
      r := Report(senderSSRC, mediaSSRC, fbPktCount, baseSequenceNumber, sequenceNumberCount,
                  refTimestamp64MS % UINT32_SIZE, chunks, deltas, padding, length);
      DescribedIsWellCoded(r, base, arrivals, refTimestamp64MS);
      DeltaBytesAre(deltas);
    }
  }
}
