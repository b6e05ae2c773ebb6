/**
 The per-stream log behind RFC 8888 feedback (pkg/rfc8888/stream_log.go): packets wait in a map until a
 report block has acknowledged them without a gap before them.
 */
module StreamLogs {
  import opened Words
  import opened SequenceNumbers

  /** Times are in nanoseconds. */
  datatype PacketReport = PacketReport(arrivalTime: int, ecn: int)

  /** One entry of a report block. */
  datatype MetricBlock = MetricBlock(received: bool, ecn: int, arrivalTimeOffset: int)

  datatype ReportBlock = ReportBlock(ssrc: int, beginSequence: Uint16, metrics: seq<MetricBlock>)

  // -- What a report promises

  /** The first number at or after `from` and up to `last` that is not in the log, or `last + 1`. */
  ghost predicate IsFirstGap(log: map<int, PacketReport>, from: int, last: int, gap: int) {
    && from <= gap <= last + 1
    && (forall n :: from <= n < gap ==> n in log)
    && (gap <= last ==> gap !in log)
  }

  // -- The arrival time offset

  const NANOSECONDS_PER_SECOND := 1_000_000_000
  const OFFSET_IN_THE_FUTURE := 0x1FFF
  const OFFSET_TOO_OLD := 0x1FFE

  /** The age of a packet in units of 1/1024 second, rounded down. */
  function Age(reference: int, arrival: int): (n: nat)
    requires arrival <= reference
    ensures n * 1_000_000_000 <= (reference - arrival) * 1024 < (n + 1) * 1_000_000_000
  {
    (reference - arrival) * 1024 / NANOSECONDS_PER_SECOND
  }

  /** The offset of section 3.1 of RFC 8888 as the code computes it: the age is cut to 16 bits before it is limited. */
  function ArrivalTimeOffset(reference: int, arrival: int): (ato: int)
    ensures 0 <= ato <= 0x1FFF
    ensures ato == 0x1FFF <==> reference < arrival
  {
    if reference < arrival then OFFSET_IN_THE_FUTURE
    else
      var ato := Wrap16(Age(reference, arrival));
      if ato > 0x1FFD then OFFSET_TOO_OLD else ato
  }

  /**
   The offset is the age, limited to its largest value, if and only if cutting to 16 bits does not make it small;
   otherwise it is the age cut to 16 bits.
   */
  lemma OffsetRightIff(reference: int, arrival: int)
    requires arrival <= reference
    ensures var age := Age(reference, arrival);
            && (ArrivalTimeOffset(reference, arrival) == Min(age, 0x1FFE) <==> age < 0x10000 || age % 0x10000 > 0x1FFD)
            && (age % 0x10000 <= 0x1FFD ==> ArrivalTimeOffset(reference, arrival) == age % 0x10000)
  {
    hide Age;
    var age := Age(reference, arrival);
    assert age < UINT16_SIZE ==> Wrap16(age) == age;
  }

  /** A packet that arrived 65 seconds ago is reported as one second old. */
  lemma OldPacketLooksRecent()
    ensures ArrivalTimeOffset(65 * NANOSECONDS_PER_SECOND, 0) == 1024 && Age(NANOSECONDS_PER_SECOND, 0) == 1024
  {
    assert Age(65 * NANOSECONDS_PER_SECOND, 0) == 65 * 1024;
  }

  /** The entry says of number n exactly whether it was added, and if so with which mark and how long ago. */
  ghost predicate Tells(m: MetricBlock, added: map<int, PacketReport>, n: int, reference: int) {
    && (m.received <==> n in added)
    && (n in added ==>
          m.ecn == added[n].ecn && m.arrivalTimeOffset == ArrivalTimeOffset(reference, added[n].arrivalTime))
    && (n !in added ==> m.ecn == 0 && m.arrivalTimeOffset == 0)
  }

  /** The numbers from `from` to `last` that were added. */
  ghost function Received(added: map<int, PacketReport>, from: int, last: int): set<int> {
    set n | from <= n <= last && n in added
  }

  ghost function Between(from: int, end: int): (r: set<int>)
    ensures forall n :: n in r <==> from <= n < end
    decreases end - from
  {
    if from >= end then {} else {from} + Between(from + 1, end)
  }

  class StreamLog {
    const ssrc: int
    const sequence: Unwrapper
    var init: bool
    var nextSequenceNumberToReport: int
    var lastSequenceNumberReceived: int
    var log: map<int, PacketReport>
    /** The last report of every number ever added. */
    ghost var added: map<int, PacketReport>
    /** The first number added, the numbers some block reported received, and those the cap pushed out. */
    ghost var first: int
    ghost var reported: set<int>
    ghost var capped: set<int>

    /** The log knows everything added from the window start on. */
    ghost predicate Window()
      reads this, sequence
    {
      && (sequence.init ==> sequence.lastUnwrapped >= 0) && (init <==> sequence.init)
      && 0 <= nextSequenceNumberToReport <= lastSequenceNumberReceived + 1
      && (!init ==> added == map[] && log == map[])
      && (!init ==> lastSequenceNumberReceived == 0 && nextSequenceNumberToReport == 0)
      && (forall n :: n in added ==> n <= lastSequenceNumberReceived)
      && (init ==> lastSequenceNumberReceived in added)
      && (forall n :: n in log ==> n in added && log[n] == added[n])
      && (forall n :: n in added && n >= nextSequenceNumberToReport ==> n in log)
    }

    /** Every number that left the window was reported received or pushed out by the cap. */
    ghost predicate Accounted()
      reads this
    {
      && reported <= added.Keys
      && (init ==> first <= nextSequenceNumberToReport)
      && (init ==> forall n :: first <= n < nextSequenceNumberToReport ==> n in reported || n in capped)
    }

    ghost predicate Valid()
      reads this, sequence
    {
      Window() && Accounted()
    }

    constructor (ssrc: int)
      ensures Valid() && fresh(sequence) && this.ssrc == ssrc && added == map[] && !init
      ensures reported == capped == {}
    {
      this.ssrc := ssrc;
      sequence := new Unwrapper();
      init, nextSequenceNumberToReport, lastSequenceNumberReceived := false, 0, 0;
      log, added, first, reported, capped := map[], map[], 0, {}, {};
    }

    method Add(ts: int, sequenceNumber: Uint16, ecn: int)
      requires Valid()
      modifies this, sequence
      ensures Valid() && init && reported == old(reported) && capped == old(capped)
      ensures first == if old(init) then old(first) else sequence.lastUnwrapped
      ensures var n := sequence.lastUnwrapped;
              && n == (if old(sequence.init) then NextUnwrapped(old(sequence.lastUnwrapped), sequenceNumber)
                       else sequenceNumber)
              && added == old(added)[n := PacketReport(ts, ecn)]
              && lastSequenceNumberReceived == Max(old(lastSequenceNumberReceived), n)
              && nextSequenceNumberToReport == if old(init) then old(nextSequenceNumberToReport) else n
    {
      var n := sequence.Unwrap(sequenceNumber);
      if !init {
        init := true;
        nextSequenceNumberToReport := n;
        first := n;
      }
      log := log[n := PacketReport(ts, ecn)];
      if lastSequenceNumberReceived < n {
        lastSequenceNumberReceived := n;
      }
      added := added[n := PacketReport(ts, ecn)];
    }

    /** Fills one entry for each number of the window and moves its start past the numbers received in order. */
    method Report(reference: int, numReports: nat) returns (metrics: seq<MetricBlock>)
      requires Window() && numReports == lastSequenceNumberReceived + 1 - nextSequenceNumberToReport
      modifies this`log, this`nextSequenceNumberToReport
      ensures Window() && |metrics| == numReports
      ensures forall i :: 0 <= i < |metrics| ==>
              Tells(metrics[i], added, old(nextSequenceNumberToReport) + i, reference)
      ensures IsFirstGap(added, old(nextSequenceNumberToReport), lastSequenceNumberReceived, nextSequenceNumberToReport)
    {
      hide ArrivalTimeOffset;
      metrics := seq(numReports, _ => MetricBlock(false, 0, 0));
      var begin := nextSequenceNumberToReport;
      var lastReceived := nextSequenceNumberToReport;
      var gapDetected := false;
      var i := begin;
      while i <= lastSequenceNumberReceived
        invariant begin <= i <= lastSequenceNumberReceived + 1 && Window()
        invariant |metrics| == numReports == lastSequenceNumberReceived + 1 - begin
        invariant forall k :: 0 <= k < i - begin ==> Tells(metrics[k], added, begin + k, reference)
        invariant begin <= nextSequenceNumberToReport <= i
        invariant forall n :: begin <= n < nextSequenceNumberToReport ==> n in added
        invariant nextSequenceNumberToReport < i ==> nextSequenceNumberToReport !in added
        invariant gapDetected ==> nextSequenceNumberToReport < i
        invariant nextSequenceNumberToReport == i ==> lastReceived == Max(begin, i - 1)
        modifies this`log, this`nextSequenceNumberToReport
      {
        assert i in log <==> i in added;
        var received, ecn, ato := false, 0, 0;
        if i in log {
          received, ecn, ato := true, log[i].ecn, ArrivalTimeOffset(reference, log[i].arrivalTime);
        }
        metrics := metrics[i - begin := MetricBlock(received, ecn, ato)];
        if !gapDetected {
          if received && i == nextSequenceNumberToReport {
            log := log - {i};
            nextSequenceNumberToReport := nextSequenceNumberToReport + 1;
            lastReceived := i;
          }
          if i > lastReceived + 1 {
            gapDetected := true;
          }
        }
        i := i + 1;
      }
    }

    /**
     Reports the window. The block covers every number from the window start, moved up if there are more than
     the cap, to the newest; each entry says exactly whether and how its number was received. The window start then
     moves to the first number not received, so a number leaves the window only after it was reported
     received, or because of the cap.
     */
    method MetricsAfter(reference: int, maxReportBlocks: nat) returns (block: ReportBlock, ghost offset: int)
      requires Valid()
      modifies this
      ensures Valid() && added == old(added) && init == old(init) && first == old(first)
      ensures lastSequenceNumberReceived == old(lastSequenceNumberReceived)
      ensures block.ssrc == ssrc && block.beginSequence == Wrap16(offset) && |block.metrics| <= maxReportBlocks
      ensures old(log) == map[] ==>
                && block.metrics == [] && offset == old(nextSequenceNumberToReport) == nextSequenceNumberToReport
                && reported == old(reported) && capped == old(capped)
      ensures old(log) != map[] ==>
                && offset == Max(old(nextSequenceNumberToReport), lastSequenceNumberReceived - maxReportBlocks + 1)
                && |block.metrics| == lastSequenceNumberReceived + 1 - offset
                && (forall i :: 0 <= i < |block.metrics| ==> Tells(block.metrics[i], added, offset + i, reference))
                && (forall i :: 0 <= i < |block.metrics| ==> (block.metrics[i].received <==> offset + i in added))
                && reported == old(reported) + Received(added, offset, lastSequenceNumberReceived)
                && capped == old(capped) + Between(old(nextSequenceNumberToReport), offset)
                && IsFirstGap(added, offset, lastSequenceNumberReceived, nextSequenceNumberToReport)
    {
      hide ArrivalTimeOffset;
      if |log| == 0 {
        assert log == map[];
        return ReportBlock(ssrc, Wrap16(nextSequenceNumberToReport), []), nextSequenceNumberToReport;
      }
      var numReports := lastSequenceNumberReceived - nextSequenceNumberToReport + 1;
      if numReports > maxReportBlocks {
        capped := capped + Between(nextSequenceNumberToReport, lastSequenceNumberReceived - maxReportBlocks + 1);
        numReports := maxReportBlocks;
        nextSequenceNumberToReport := lastSequenceNumberReceived - maxReportBlocks + 1;
      }
      reported := reported + Received(added, nextSequenceNumberToReport, lastSequenceNumberReceived);
      offset := nextSequenceNumberToReport;
      var begin := nextSequenceNumberToReport;
      var metrics := Report(reference, numReports);
      block := ReportBlock(ssrc, Wrap16(begin), metrics);
    }
  }
}
