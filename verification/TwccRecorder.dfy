/**
 The recorder of transport-wide sequence numbers (pkg/twcc/twcc.go, type Recorder): it keeps
 arrival times and cuts the unreported range into feedback packets.
 */
module TwccRecorder {
  import opened Words
  import opened SequenceNumbers
  import opened ArrivalTimes
  import opened StatusChunks
  import opened FeedbackPackets

  const PACKET_WINDOW_MICROSECONDS := 500_000
  const MAX_MISSING_SEQUENCE_NUMBERS := 0x7FFE

  // -- What a build says about the window

  /** The arrival times of [from, to), with -1 for every number that was not received. */
  ghost function TimesOf(w: Window, from: int, to: int): (s: seq<int>)
    ensures |s| == Max(0, to - from)
    ensures forall k :: 0 <= k < |s| ==> s[k] == Max(TimeOf(w, from + k), -1)
  {
    seq(Max(0, to - from), k => Max(TimeOf(w, from + k), -1))
  }

  ghost predicate NoneReceived(w: Window, from: int, to: int) {
    forall k :: from <= k < to ==> !Received(w, k)
  }

  /** The stretch [base, next) that one packet covers, and its reference tick. */
  datatype Segment = Segment(base: int, next: int, tick: int)

  /** Consecutive non-empty stretches from `from` to `to`, each ending with a received number. */
  ghost predicate Tiles(w: Window, segs: seq<Segment>, from: int, to: int)
    decreases |segs|
  {
    if segs == [] then from == to
    else
      var last := segs[|segs| - 1];
      && last.next == to && last.base < last.next && Received(w, last.next - 1)
      && Tiles(w, segs[..|segs| - 1], from, last.base)
  }

  lemma TilesAppend(w: Window, segs: seq<Segment>, from: int, seg: Segment)
    requires Tiles(w, segs, from, seg.base) && seg.base < seg.next && Received(w, seg.next - 1)
    ensures Tiles(w, segs + [seg], from, seg.next)
  {
    assert (segs + [seg])[..|segs|] == segs;
  }

  lemma TilesNothing(w: Window, from: int)
    ensures Tiles(w, [], from, from) && ReportsFrom(w, from, from)
  {
  }

  /** The reference tick is that of the first received number of the stretch. */
  ghost predicate FirstTick(w: Window, seg: Segment) {
    exists f :: seg.base <= f < seg.next && Received(w, f) && NoneReceived(w, seg.base, f) &&
        seg.tick * 64_000 <= TimeOf(w, f) < seg.tick * 64_000 + 64_000
  }

  lemma FirstTickKept(w: Window, seg: Segment, next: int)
    requires FirstTick(w, seg) && seg.next <= next
    ensures FirstTick(w, seg.(next := next))
  {
    var f :| seg.base <= f < seg.next && Received(w, f) && NoneReceived(w, seg.base, f) &&
        seg.tick * 64_000 <= TimeOf(w, f) < seg.tick * 64_000 + 64_000;
    assert seg.(next := next).base <= f < seg.(next := next).next;
  }

  /** The time difference to `sn` fits the 16 bits of a delta, after the numbers the stretch covers. */
  ghost predicate FitsAfter(w: Window, seg: Segment, sn: int) {
    FitsInt16(Rounded(TimeOf(w, sn) - Code(seg.tick * REFERENCE_UNIT, TimesOf(w, seg.base, seg.next)).clock))
  }

  lemma NoneJoin(w: Window, a: int, b: int, c: int)
    ensures a == b == c ==> NoneReceived(w, a, c)
    ensures NoneReceived(w, a, b) && NoneReceived(w, b, c) ==> NoneReceived(w, a, c)
  {
    hide Received;
  }

  lemma MustEnd(w: Window, seg: Segment, sn: int, end: int)
    requires seg.next <= sn < end && NoneReceived(w, seg.next, sn) && Received(w, sn) && !FitsAfter(w, seg, sn)
    ensures EndsWhereItMust(w, seg, end)
  {
    hide Received, NoneReceived, FitsAfter;
  }

  /** A packet ends only where nothing more was received or the next difference does not fit. */
  ghost predicate EndsWhereItMust(w: Window, seg: Segment, end: int) {
    || NoneReceived(w, seg.next, end)
    || exists sn :: seg.next <= sn < end && NoneReceived(w, seg.next, sn) && Received(w, sn) && !FitsAfter(w, seg, sn)
  }

  ghost predicate Reported(r: Report, w: Window, seg: Segment, senderSSRC: int, mediaSSRC: int, fbPktCount: int) {
    && seg.base < seg.next && FirstTick(w, seg) && EndsWhereItMust(w, seg, w.end)
    && Describes(r, seg.base, TimesOf(w, seg.base, seg.next), seg.tick) && Framed(r) && WellCoded(r)
    && (r.senderSSRC, r.mediaSSRC, r.fbPktCount) == (senderSSRC, mediaSSRC, fbPktCount)
  }

  /** Where reporting really starts: one number is given up when the first received one is too far away. */
  ghost predicate ReportsFrom(w: Window, start: int, from: int) {
    from == start || (from == start + 1 && NoneReceived(w, start, start + 0x7FFF))
  }

  lemma {:induction false} StretchesBelow(w: Window, segs: seq<Segment>, from: int, to: int)
    requires Tiles(w, segs, from, to)
    ensures from <= to && forall j :: 0 <= j < |segs| ==> segs[j].next <= to
    decreases |segs|
  {
    if segs != [] {
      StretchesBelow(w, segs[..|segs| - 1], from, segs[|segs| - 1].base);
      assert forall j :: 0 <= j < |segs| - 1 ==> segs[..|segs| - 1][j] == segs[j];
    }
  }

  /** Every number of the range lies in exactly one stretch. */
  lemma {:induction false} ReportedExactlyOnce(w: Window, segs: seq<Segment>, from: int, to: int,
                                               sn: int) returns (i: nat)
    requires Tiles(w, segs, from, to) && from <= sn < to
    ensures i < |segs| && segs[i].base <= sn < segs[i].next
    ensures forall j :: 0 <= j < |segs| && segs[j].base <= sn < segs[j].next ==> j == i
    decreases |segs|
  {
    var n := |segs| - 1;
    var front := segs[..n];
    assert forall j :: 0 <= j < n ==> front[j] == segs[j];
    if sn >= segs[n].base {
      i := n;
      StretchesBelow(w, front, from, segs[n].base);
    } else {
      i := ReportedExactlyOnce(w, front, from, segs[n].base, sn);
    }
  }

  /** Only the first packet of a build can give up a number. */
  lemma LaterPacketsGiveUpNothing(w: Window, begin: int, seg: Segment)
    requires w.begin < begin && w.end - w.begin <= MAX_PACKETS && ReportsFrom(w, begin, seg.base)
    requires seg.base < seg.next <= w.end && Received(w, seg.next - 1)
    ensures seg.base == begin
  {
  }

  lemma NothingLeft(w: Window, next: int)
    requires next <= w.end
    ensures next == w.end ==> NoneReceived(w, next, w.end)
    ensures NoneReceived(w, next, w.end) && Received(w, w.end - 1) ==> next == w.end
  {
  }

  /** The packet counter of 8 bits. */
  function CountAfter(first: int, n: int): int {
    (first + n) % 256
  }

  lemma CountNext(first: int, n: int)
    ensures 0 <= first < 256 ==> CountAfter(first, 0) == first
    ensures (CountAfter(first, n) + 1) % 256 == CountAfter(first, n + 1)
  {
  }

  /** The first difference of a packet is at most 256 units, so it always fits. */
  lemma FirstDeltaFits(time: int)
    requires time >= 0
    ensures 0 <= Rounded(time - ReferenceTick(time) * REFERENCE_UNIT) <= 256
  {
  }

  lemma TickAtOrBefore(time: int)
    requires time >= 0
    ensures ReferenceTick(time) * 64_000 <= time < ReferenceTick(time) * 64_000 + 64_000
  {
  }

  lemma TimesExtend(w: Window, from: int, next: int, sn: int)
    requires from <= next <= sn && NoneReceived(w, next, sn) && Received(w, sn)
    ensures TimesOf(w, from, sn + 1) == TimesOf(w, from, next) + Repeat(-1, sn - next) + [TimeOf(w, sn)]
  {
    var a := TimesOf(w, from, sn + 1);
    var b := TimesOf(w, from, next) + Repeat(-1, sn - next) + [TimeOf(w, sn)];
    forall k | 0 <= k < |a|
      ensures a[k] == b[k]
    {
      assert next <= from + k < sn ==> !Received(w, from + k);
    }
  }

  // -- What a recorded arrival does to the window

  /**
   The packets that are dropped before `u` is recorded: once everything is reported, those at the front that are
   missing or older than the limit, up to `u`.
   */
  ghost predicate Culled(w: Window, start: Option<int>, u: int, time: int, culled: Window) {
    && w.begin <= culled.begin <= w.end && culled == Suffix(w, culled.begin)
    && (culled.begin > w.begin ==> start == Some(w.end) && time >= PACKET_WINDOW_MICROSECONDS)
    && (start == Some(w.end) && time >= PACKET_WINDOW_MICROSECONDS && culled.begin < Min(u, w.end) ==>
          TimeOf(w, culled.begin) > time - PACKET_WINDOW_MICROSECONDS)
    && AllOld(w, w.begin, culled.begin, u, time - PACKET_WINDOW_MICROSECONDS)
  }

  /**
   The first arrival of a number wins; a number leaves the window only for the size limit, or when
   everything was reported and it is older than half a second. Then all that are older do leave: the window begins
   with a newer one or not below the packet. The range to report is extended down to a late packet.
   */
  ghost predicate Recorded(w: Window, start: Option<int>, u: int, time: int, w': Window, start': int) {
    && w'.begin < w'.end && w'.end == (if start.None? then u + 1 else Max(w.end, u + 1))
    && (w'.begin <= u < w'.end || u < w'.end - 0x8000)
    && start' == Max(w'.begin, if start.None? then u else Min(u, start.value))
    && (forall k :: w'.begin <= k < w'.end ==>
          TimeOf(w', k) == if k == u && !Received(w, u) then time else TimeOf(w, k))
    && (forall k :: w.begin <= k < w.end && k < w'.begin ==>
          || k < w'.end - 0x8000
          || (start == Some(w.end) && TimeOf(w, k) <= time - 500_000))
    && BeginsRecent(w, start, u, time, w')
  }

  /** Once everything is reported the window begins with a packet newer than half a second or not below `u`. */
  ghost predicate BeginsRecent(w: Window, start: Option<int>, u: int, time: int, w': Window) {
    start == Some(w.end) && time >= 500_000 && u - w.begin < 0x8000 ==>
      w'.begin >= Min(u, w.end) || TimeOf(w', w'.begin) > time - 500_000
  }

  lemma NothingCulled(w: Window, start: Option<int>, u: int, time: int)
    requires WellFormed(w) && (start != Some(w.end) || time < PACKET_WINDOW_MICROSECONDS)
    ensures Culled(w, start, u, time, w)
  {
    assert w.times == Suffix(w, w.begin).times;
  }

  lemma CulledTo(w: Window, start: Option<int>, u: int, time: int, culled: Window)
    requires start == Some(w.end) && time >= PACKET_WINDOW_MICROSECONDS
    requires w.begin <= culled.begin <= w.end && culled == Suffix(w, culled.begin)
    requires AllOld(w, w.begin, culled.begin, u, time - PACKET_WINDOW_MICROSECONDS)
    requires culled.begin < Min(u, w.end) ==> TimeOf(w, culled.begin) > time - PACKET_WINDOW_MICROSECONDS
    ensures Culled(w, start, u, time, culled)
  {
    hide AllOld;
  }

  /** The packet that arrives is never among those dropped. */
  lemma CulledKeeps(w: Window, start: Option<int>, u: int, time: int, culled: Window)
    requires WellFormed(w) && Culled(w, start, u, time, culled)
    ensures Received(culled, u) <==> Received(w, u)
  {
  }

  lemma RecordedFirst(w: Window, u: int, time: int)
    requires WellFormed(w) && w.begin == w.end
    ensures Recorded(w, None, u, time, Fresh(u, time), u)
  {
  }

  lemma RecordedDuplicate(w: Window, start: Option<int>, u: int, time: int, culled: Window)
    requires WellFormed(w) && Culled(w, start, u, time, culled) && Received(culled, u)
    requires start.Some? && w.begin <= start.value <= w.end
    ensures Recorded(w, start, u, time, culled, Min(u, start.value))
  {
  }

  lemma AddedBeginsRecent(w: Window, start: Option<int>, u: int, time: int, culled: Window)
    requires WellFormed(w) && Culled(w, start, u, time, culled) && !Received(culled, u)
    requires start.Some? && w.begin <= start.value <= w.end && 0 < w.end - w.begin <= MAX_PACKETS
    ensures BeginsRecent(w, start, u, time, Added(culled, u, time))
  {
  }

  lemma RecordedNew(w: Window, start: Option<int>, u: int, time: int, culled: Window)
    requires WellFormed(w) && Culled(w, start, u, time, culled) && !Received(culled, u)
    requires start.Some? && w.begin <= start.value <= w.end && 0 < w.end - w.begin <= MAX_PACKETS
    ensures var w' := Added(culled, u, time);
            Recorded(w, start, u, time, w', Max(w'.begin, Min(u, start.value)))
  {
    hide BeginsRecent;
    AddedBeginsRecent(w, start, u, time, culled);
    assert forall k :: k >= culled.begin ==> TimeOf(culled, k) == TimeOf(w, k);
    assert u < culled.begin ==> !Received(w, u);
    assert TimeOf(w, w.end - 1) > time - PACKET_WINDOW_MICROSECONDS || w.end - 1 < u || w.end - 1 >= culled.begin;
  }

  lemma RecordedWindow(w: Window, start: Option<int>, u: int, time: int, culled: Window)
    requires WellFormed(w) && Culled(w, start, u, time, culled)
    requires start.None? ==> w.begin == w.end
    requires start.Some? ==> w.begin <= start.value <= w.end && 0 < w.end - w.begin <= MAX_PACKETS
    ensures var w' := if Received(culled, u) then culled
                      else if start.None? then Fresh(u, time)
                      else Added(culled, u, time);
            var low := if start.None? then u else Min(u, start.value);
            && Recorded(w, start, u, time, w', Max(w'.begin, low))
            && w'.begin < w'.end && Max(w'.begin, low) <= w'.end && (Received(culled, u) ==> w'.begin <= low)
  {
    if start.None? {
      RecordedFirst(w, u, time);
    } else if Received(culled, u) {
      RecordedDuplicate(w, start, u, time, culled);
    } else {
      RecordedNew(w, start, u, time, culled);
    }
  }

  /** While no arrival time is negative, the newest number of the window is always a received one. */
  lemma NewestStaysReceived(w: Window, start: Option<int>, u: int, time: int, w': Window, start': int)
    requires Recorded(w, start, u, time, w', start') && time >= 0
    requires start.Some? ==> Received(w, w.end - 1)
    ensures Received(w', w'.end - 1)
  {
  }

  /** A run of arrivals, each recorded on the window the one before it left. */
  ghost predicate RecordRun(ws: seq<Window>, starts: seq<int>, us: seq<int>, times: seq<int>) {
    && |ws| == |starts| == |us| + 1 && |times| == |us|
    && forall i :: 0 <= i < |us| ==> Recorded(ws[i], Some(starts[i]), us[i], times[i], ws[i + 1], starts[i + 1])
  }

  /**
   Nothing recorded is forgotten: through any run of arrivals, a received and unreported number that is within
   32768 of the newest stays in the window, keeps its arrival time and stays in the range the next build reports.
   */
  lemma {:induction false} PendingUntilReported(ws: seq<Window>, starts: seq<int>, us: seq<int>, times: seq<int>,
                                                sn: int, n: nat)
    requires RecordRun(ws, starts, us, times) && n <= |us|
    requires Received(ws[0], sn) && ws[0].begin <= sn && starts[0] <= sn < ws[0].end
    requires forall i :: 0 <= i <= n ==> ws[i].end - MAX_PACKETS <= sn
    ensures ws[n].begin <= sn && starts[n] <= sn < ws[n].end && TimeOf(ws[n], sn) == TimeOf(ws[0], sn)
    decreases n
  {
    if n > 0 {
      PendingUntilReported(ws, starts, us, times, sn, n - 1);
      assert Recorded(ws[n - 1], Some(starts[n - 1]), us[n - 1], times[n - 1], ws[n], starts[n]);
    }
  }

  /**
   What the next build reports again: a number that stays in the window is in the range to report exactly when it
   was, or when a packet at or before it has arrived since.
   */
  lemma {:induction false} ReportedAgainIff(ws: seq<Window>, starts: seq<int>, us: seq<int>, times: seq<int>,
                                            sn: int, n: nat)
    requires RecordRun(ws, starts, us, times) && n <= |us|
    requires forall i :: 0 <= i <= n ==> ws[i].begin <= sn
    ensures starts[n] <= sn <==> starts[0] <= sn || exists i :: 0 <= i < n && us[i] <= sn
    decreases n
  {
    if n > 0 {
      ReportedAgainIff(ws, starts, us, times, sn, n - 1);
      assert Recorded(ws[n - 1], Some(starts[n - 1]), us[n - 1], times[n - 1], ws[n], starts[n]);
    }
  }

  // -- A packet under construction

  /** The packet covers the stretch: one arrival per number, as the window knows it. */
  ghost predicate Covers(fb: Feedback, w: Window, seg: Segment)
    reads fb, fb.lastChunk
  {
    && fb.Valid() && seg.base < seg.next && Received(w, seg.next - 1) && FirstTick(w, seg)
    && fb.baseSequenceNumber == Wrap16(seg.base) && fb.refTimestamp64MS == seg.tick
    && fb.arrivals == TimesOf(w, seg.base, seg.next)
  }

  lemma CoversSome(fb: Feedback, w: Window, seg: Segment, begin: int, end: int)
    requires Covers(fb, w, seg) && ReportsFrom(w, begin, seg.base) && seg.next <= end
    ensures !NoneReceived(w, begin, end)
  {
    hide Received;
  }

  /** Adds the next received number to a packet, if its time fits. */
  method Extend(fb: Feedback, ghost w: Window, ghost seg: Segment, sn: int, time: int) returns (ok: bool)
    requires Covers(fb, w, seg) && seg.next <= sn < seg.base + UINT16_SIZE
    requires NoneReceived(w, seg.next, sn) && Received(w, sn) && time == TimeOf(w, sn)
    modifies fb, fb.lastChunk
    ensures fb.lastChunk == old(fb.lastChunk) && Covers(fb, w, if ok then seg.(next := sn + 1) else seg)
    ensures ok <==> FitsAfter(w, seg, sn)
    ensures (fb.senderSSRC, fb.mediaSSRC, fb.fbPktCount) == old((fb.senderSSRC, fb.mediaSSRC, fb.fbPktCount))
  {
    hide Feedback.Valid, Wrap16, Sub16, FirstTick;
    FirstTickKept(w, seg, sn + 1);
    fb.NextNumber();
    WrapSum(seg.base, seg.next - seg.base);
    WrapDifference(sn, seg.next);
    TimesExtend(w, seg.base, seg.next, sn);
    ok := fb.AddReceived(Wrap16(sn), time);
  }

  /**
   Opens a packet for the first received number at or after `begin`. It always fits, so the code's
   branch for a first packet that cannot be added is never taken.
   */
  method Open(fb: Feedback, ghost w: Window, begin: int, sn: int, time: int) returns (ghost seg: Segment)
    requires fb.Valid() && fb.arrivals == []
    requires begin <= sn < begin + MAX_PACKETS && NoneReceived(w, begin, sn) && Received(w, sn) && time == TimeOf(w, sn)
    modifies fb, fb.lastChunk
    ensures fb.lastChunk == old(fb.lastChunk)
    ensures Covers(fb, w, seg) && seg.next == sn + 1 && ReportsFrom(w, begin, seg.base)
    ensures (fb.senderSSRC, fb.mediaSSRC, fb.fbPktCount) == old((fb.senderSSRC, fb.mediaSSRC, fb.fbPktCount))
  {
    hide Feedback.Valid, Wrap16, Sub16, ReferenceTick, Rounded;
    var base := Max(begin, sn - MAX_MISSING_SEQUENCE_NUMBERS);
    seg := Segment(base, sn + 1, ReferenceTick(time));
    TickAtOrBefore(time);
    assert FirstTick(w, seg);
    fb.SetBase(Wrap16(base), time);
    fb.NextNumber();
    WrapSum(base, 0);
    WrapDifference(sn, base);
    TimesExtend(w, base, base, sn);
    assert TimesOf(w, base, base) == [];
    FirstDeltaFits(time);
    var ok := fb.AddReceived(Wrap16(sn), time);
    if !ok {
      assert false;
    }
  }

  class Recorder {
    const arrivalTimeMap: PacketArrivalTimeMap
    const sequenceUnwrapper: Unwrapper
    var startSequenceNumber: Option<int>
    var senderSSRC: int
    var mediaSSRC: int
    var fbPktCnt: int
    var packetsHeld: nat

    ghost function Repr(): set<object>
      reads this, arrivalTimeMap
    {
      {this, arrivalTimeMap, sequenceUnwrapper} +
      if arrivalTimeMap.arrivalTimes == null then {} else {arrivalTimeMap.arrivalTimes}
    }

    /** What has not been reported yet lies inside the window. */
    ghost predicate Valid()
      reads this, arrivalTimeMap, arrivalTimeMap.arrivalTimes
    {
      && arrivalTimeMap.Valid() && 0 <= fbPktCnt < 256
      && (startSequenceNumber.None? <==> arrivalTimeMap.arrivalTimes == null)
      && (startSequenceNumber.Some? ==>
            && arrivalTimeMap.beginSequenceNumber <= startSequenceNumber.value <= arrivalTimeMap.endSequenceNumber
            && arrivalTimeMap.beginSequenceNumber < arrivalTimeMap.endSequenceNumber)
    }

    ghost function View(): Window
      requires Valid()
      reads this, arrivalTimeMap, arrivalTimeMap.arrivalTimes
    {
      arrivalTimeMap.View()
    }

    /** The newest number of the window was received. */
    ghost predicate EndReceived()
      requires Valid()
      reads this, arrivalTimeMap, arrivalTimeMap.arrivalTimes
    {
      startSequenceNumber.Some? ==> Received(View(), View().end - 1)
    }

    constructor (senderSSRC: int)
      ensures Valid() && EndReceived() && fresh(Repr()) && startSequenceNumber == None
    {
      arrivalTimeMap := new PacketArrivalTimeMap();
      sequenceUnwrapper := new Unwrapper();
      startSequenceNumber := None;
      this.senderSSRC, mediaSSRC, fbPktCnt, packetsHeld := senderSSRC, 0, 0, 0;
    }

    /** Drops old packets from the front once everything has been reported. */
    method MaybeCullOldPackets(sn: int, arrivalTime: int)
      requires Valid()
      modifies arrivalTimeMap
      ensures arrivalTimeMap.Valid() && (arrivalTimeMap.arrivalTimes == null <==> startSequenceNumber.None?)
      ensures arrivalTimeMap.arrivalTimes == old(arrivalTimeMap.arrivalTimes) || fresh(arrivalTimeMap.arrivalTimes)
      ensures Culled(old(View()), startSequenceNumber, sn, arrivalTime, arrivalTimeMap.View())
    {
      hide IsCapacity, Culled, TimeOf, AllOld;
      ghost var w := View();
      if startSequenceNumber != None && startSequenceNumber.value >= arrivalTimeMap.endSequenceNumber &&
         arrivalTime >= PACKET_WINDOW_MICROSECONDS {
        arrivalTimeMap.RemoveOldPackets(sn, arrivalTime - PACKET_WINDOW_MICROSECONDS);
        CulledTo(w, startSequenceNumber, sn, arrivalTime, arrivalTimeMap.View());
      } else {
        NothingCulled(w, startSequenceNumber, sn, arrivalTime);
      }
    }

    /** Stores the time of a number that was not received before. */
    method StoreFirstArrival(u: int, time: int) returns (isNew: bool)
      requires arrivalTimeMap.Valid()
      modifies arrivalTimeMap, arrivalTimeMap.arrivalTimes
      ensures arrivalTimeMap.Valid() && isNew == !Received(old(arrivalTimeMap.View()), u)
      ensures arrivalTimeMap.arrivalTimes == old(arrivalTimeMap.arrivalTimes) || fresh(arrivalTimeMap.arrivalTimes)
      ensures arrivalTimeMap.arrivalTimes != null
      ensures arrivalTimeMap.View() == if !isNew then old(arrivalTimeMap.View())
                                       else if old(arrivalTimeMap.arrivalTimes) == null then Fresh(u, time)
                                       else Added(old(arrivalTimeMap.View()), u, time)
    {
      if arrivalTimeMap.HasReceived(u) {
        return false;
      }
      arrivalTimeMap.AddPacket(u, time);
      return true;
    }

    /** Records the first arrival of an unwrapped number. */
    method RecordUnwrapped(u: int, arrivalTime: int)
      requires Valid()
      modifies this`startSequenceNumber, this`packetsHeld, arrivalTimeMap, arrivalTimeMap.arrivalTimes
      ensures Valid() && startSequenceNumber.Some?
      ensures arrivalTimeMap.arrivalTimes == old(arrivalTimeMap.arrivalTimes) || fresh(arrivalTimeMap.arrivalTimes)
      ensures Recorded(old(View()), old(startSequenceNumber), u, arrivalTime, View(), startSequenceNumber.value)
      ensures packetsHeld == old(packetsHeld) + if Received(old(View()), u) then 0 else 1
    {
      hide IsCapacity, PacketArrivalTimeMap.View, Culled, Recorded, Fresh, Added, WellFormed;
      ghost var w, start := View(), startSequenceNumber;
      MaybeCullOldPackets(u, arrivalTime);
      ghost var culled := arrivalTimeMap.View();
      if startSequenceNumber.None? || u < startSequenceNumber.value {
        startSequenceNumber := Some(u);
      }
      var isNew := StoreFirstArrival(u, arrivalTime);
      ghost var w' := arrivalTimeMap.View();
      if isNew {
        packetsHeld := packetsHeld + 1;
        if startSequenceNumber.value < arrivalTimeMap.beginSequenceNumber {
          startSequenceNumber := Some(arrivalTimeMap.beginSequenceNumber);
        }
      }
      RecordedWindow(w, start, u, arrivalTime, culled);
      CulledKeeps(w, start, u, arrivalTime, culled);
      assert arrivalTimeMap.View() == w';
    }

    /** Unwraps the number of an arrival and records it. */
    method Record(mediaSSRC: int, sequenceNumber: Uint16, arrivalTime: int)
      requires Valid()
      modifies Repr()
      ensures Valid() && fresh(Repr() - old(Repr()))
      ensures sequenceUnwrapper.init && sequenceUnwrapper.lastUnwrapped ==
                if old(sequenceUnwrapper.init) then NextUnwrapped(old(sequenceUnwrapper.lastUnwrapped), sequenceNumber)
                else sequenceNumber
      ensures startSequenceNumber.Some?
      ensures Recorded(old(View()), old(startSequenceNumber), sequenceUnwrapper.lastUnwrapped, arrivalTime,
                       View(), startSequenceNumber.value)
      ensures old(EndReceived()) && arrivalTime >= 0 ==> EndReceived()
      ensures packetsHeld == old(packetsHeld) + if Received(old(View()), sequenceUnwrapper.lastUnwrapped) then 0 else 1
      ensures this.mediaSSRC == mediaSSRC && (senderSSRC, fbPktCnt) == old((senderSSRC, fbPktCnt))
    {
      hide NextUnwrapped, IsCapacity, PacketArrivalTimeMap.View, Recorded;
      ghost var w, start := View(), startSequenceNumber;
      this.mediaSSRC := mediaSSRC;
      var u := sequenceUnwrapper.Unwrap(sequenceNumber);
      RecordUnwrapped(u, arrivalTime);
      if arrivalTime >= 0 && (start.Some? ==> Received(w, w.end - 1)) {
        NewestStaysReceived(w, start, u, arrivalTime, View(), startSequenceNumber.value);
      }
    }

    /** The first received number of [sn, endSN). */
    method NextReceived(sn: int, endSN: int) returns (found: int, time: int, ok: bool)
      requires Valid() && sn <= endSN
      ensures ok ==> sn <= found < endSN && Received(View(), found) && time == TimeOf(View(), found)
      ensures NoneReceived(View(), sn, if ok then found else endSN)
    {
      hide PacketArrivalTimeMap.View, IsCapacity, Received;
      found, time, ok := arrivalTimeMap.FindNextAtOrAfter(sn);
      ok := ok && found < endSN;
    }

    /**
     Builds one packet from the start of the unreported range. There is none exactly when nothing was
     received; otherwise the packet ends with a received number, and what follows it would not fit.
     */
    method MaybeBuildFeedbackPacket(begin: int, end: int) returns (fb: Feedback?, ghost seg: Segment)
      requires Valid() && startSequenceNumber == Some(begin) && end == arrivalTimeMap.endSequenceNumber
      modifies this
      ensures Valid() && View() == old(View()) && startSequenceNumber.Some?
      ensures (senderSSRC, mediaSSRC, packetsHeld) == old((senderSSRC, mediaSSRC, packetsHeld))
      ensures fb == null <==> NoneReceived(View(), begin, end)
      ensures fb == null ==> startSequenceNumber == Some(begin) && fbPktCnt == old(fbPktCnt)
      ensures fb != null ==>
                && fresh(fb) && fresh(fb.lastChunk) && Covers(fb, View(), seg) && startSequenceNumber == Some(seg.next)
                && seg.next <= end && ReportsFrom(View(), begin, seg.base) && EndsWhereItMust(View(), seg, end)
                && (fb.senderSSRC, fb.mediaSSRC, fb.fbPktCount) == (senderSSRC, mediaSSRC, old(fbPktCnt))
                && fbPktCnt == (old(fbPktCnt) + 1) % 256
    {
      hide Feedback.Valid, PacketArrivalTimeMap.View, IsCapacity, FirstTick, FitsAfter, NoneReceived, Received, Covers;
      var startSN, endSN := arrivalTimeMap.Clamp(begin), arrivalTimeMap.Clamp(end);
      ghost var w := View();
      fb := null;
      seg := Segment(begin, begin, 0);
      var next := begin;
      var sn := startSN;
      NoneJoin(w, begin, begin, begin);
      while sn < endSN
        invariant Valid() && View() == w
        invariant begin <= next <= sn <= endSN && NoneReceived(w, next, sn)
        invariant fb == null ==> next == begin && fbPktCnt == old(fbPktCnt)
        invariant fb != null ==>
                    && fresh(fb) && fresh(fb.lastChunk) && Covers(fb, w, seg) && seg.next == next
                    && ReportsFrom(w, begin, seg.base)
                    && (fb.senderSSRC, fb.mediaSSRC, fb.fbPktCount) == (senderSSRC, mediaSSRC, old(fbPktCnt))
                    && fbPktCnt == (old(fbPktCnt) + 1) % 256
        decreases endSN - sn
        modifies this`fbPktCnt
      {
        var found, arrivalTime, ok := NextReceived(sn, endSN);
        NoneJoin(w, next, sn, if ok then found else endSN);
        if !ok {
          break;
        }
        sn := found;
        if fb == null {
          fb := new Feedback(senderSSRC, mediaSSRC, fbPktCnt);
          fbPktCnt := (fbPktCnt + 1) % 256;
          seg := Open(fb, w, begin, sn, arrivalTime);
        } else {
          var added := Extend(fb, w, seg, sn, arrivalTime);
          if !added {
            MustEnd(w, seg, sn, end);
            break;
          }
          seg := seg.(next := sn + 1);
        }
        next := sn + 1;
        sn := sn + 1;
        NoneJoin(w, next, next, next);
      }
      if fb != null {
        CoversSome(fb, w, seg, begin, end);
      }
      startSequenceNumber := Some(next);
    }

    /** Builds and closes the next packet of the range. */
    method NextReport(endSN: int) returns (r: Option<Report>, ghost seg: Segment)
      requires Valid() && startSequenceNumber.Some? && endSN == arrivalTimeMap.endSequenceNumber
      modifies this
      ensures Valid() && View() == old(View()) && startSequenceNumber.Some?
      ensures (senderSSRC, mediaSSRC, packetsHeld) == old((senderSSRC, mediaSSRC, packetsHeld))
      ensures r.None? ==> NoneReceived(View(), old(startSequenceNumber.value), endSN)
      ensures r.None? ==> startSequenceNumber == old(startSequenceNumber) && fbPktCnt == old(fbPktCnt)
      ensures r.Some? ==>
                && old(startSequenceNumber.value) <= seg.base < seg.next <= endSN &&
                   startSequenceNumber == Some(seg.next)
                && Received(View(), seg.next - 1) && ReportsFrom(View(), old(startSequenceNumber.value), seg.base)
                && Reported(r.value, View(), seg, senderSSRC, mediaSSRC, old(fbPktCnt))
                && fbPktCnt == (old(fbPktCnt) + 1) % 256
    {
      hide Feedback.Valid, PacketArrivalTimeMap.View, IsCapacity, Describes, Framed, WellCoded, FirstTick;
      hide EndsWhereItMust;
      var fb;
      fb, seg := MaybeBuildFeedbackPacket(startSequenceNumber.value, endSN);
      if fb == null {
        return None, seg;
      }
      var packet := fb.GetRTCP(seg.base);
      r := Some(packet);
    }

    /**
     Reports the unreported range. The packets tile it up to its last received number, and nothing
     received is left over.
     */
    method BuildFeedbackPacket() returns (reports: seq<Report>, ghost segs: seq<Segment>, ghost from: int)
      requires Valid()
      modifies this
      ensures Valid() && View() == old(View()) &&
              packetsHeld == (if old(startSequenceNumber).None? then old(packetsHeld) else 0)
      ensures old(startSequenceNumber).None? ==> reports == [] && segs == [] && startSequenceNumber.None?
      ensures |segs| == |reports| && fbPktCnt == CountAfter(old(fbPktCnt), |reports|)
      ensures (senderSSRC, mediaSSRC) == old((senderSSRC, mediaSSRC))
      ensures old(startSequenceNumber).Some? ==>
                && startSequenceNumber.Some?
                && ReportsFrom(View(), old(startSequenceNumber.value), from)
                && Tiles(View(), segs, from, startSequenceNumber.value)
                && NoneReceived(View(), startSequenceNumber.value, View().end)
      ensures forall i :: 0 <= i < |reports| ==>
                Reported(reports[i], View(), segs[i], senderSSRC, mediaSSRC, CountAfter(old(fbPktCnt), i))
      ensures old(startSequenceNumber).Some? && EndReceived() ==> startSequenceNumber == Some(View().end)
    {
      hide PacketArrivalTimeMap.View, IsCapacity, Reported, CountAfter, Tiles, NoneReceived, Received, ReportsFrom;
      reports, segs, from := [], [], 0;
      ghost var first := fbPktCnt;
      CountNext(first, 0);
      if startSequenceNumber.None? {
        return;
      }
      var endSN := arrivalTimeMap.endSequenceNumber;
      ghost var w, start := View(), startSequenceNumber.value;
      from := start;
      TilesNothing(w, from);
      while startSequenceNumber.value < endSN
        invariant Valid() && View() == w && startSequenceNumber.Some? && |segs| == |reports|
        invariant ReportsFrom(w, start, from) && Tiles(w, segs, from, startSequenceNumber.value)
        invariant if segs == [] then from == start == startSequenceNumber.value else startSequenceNumber.value > w.begin
        invariant fbPktCnt == CountAfter(first, |segs|)
        invariant (senderSSRC, mediaSSRC) == old((senderSSRC, mediaSSRC))
        invariant forall i :: 0 <= i < |segs| ==>
                  Reported(reports[i], w, segs[i], senderSSRC, mediaSSRC, CountAfter(first, i))
        decreases endSN - startSequenceNumber.value
      {
        var begin := startSequenceNumber.value;
        var r, seg := NextReport(endSN);
        if r.None? {
          break;
        }
        if reports == [] {
          from := seg.base;
          TilesNothing(w, from);
        } else {
          LaterPacketsGiveUpNothing(w, begin, seg);
        }
        CountNext(first, |segs|);
        reports := reports + [r.value];
        TilesAppend(w, segs, from, seg);
        segs := segs + [seg];
      }
      NothingLeft(w, startSequenceNumber.value);
      packetsHeld := 0;
    }
  }
}
