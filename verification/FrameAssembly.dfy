/**
 What the video packet buffer (pkg/videoframe/packet_buffer.go) computes, on the map of the packets it holds:
 which frames one insertion returns, and why a frame of a well-formed stream comes back exactly once, with its
 last missing packet, in whatever order its packets arrive.
 */
module FrameAssembly {
  import opened SequenceWindows

  /** A buffered packet. Without a video header it is neither the first nor the last of its frame. */
  datatype BufferedPacket = BufferedPacket(number: int, timestamp: int, isFirst: bool, isLast: bool, continuous: bool)

  /** The packets the buffer holds, by their unwrapped sequence numbers. */
  type Held = map<int, BufferedPacket>

  datatype Outcome = Outcome(held: Held, frames: seq<seq<BufferedPacket>>)

  ghost predicate Keyed(held: Held) {
    forall n :: n in held ==> held[n].number == n
  }

  // -- One step of the scan

  /** A held packet starts a frame or continues the continuous packet before it. */
  ghost predicate Potential(held: Held, n: int) {
    n in held && (held[n].isFirst ||
      (n - 1 in held && held[n - 1].timestamp == held[n].timestamp && held[n - 1].continuous))
  }

  ghost function Marked(held: Held, n: int): Held
    requires n in held
  {
    held[n := held[n].(continuous := true)]
  }

  /** The packets `start` to `end` are held and continuous, and only the first of them starts a frame. */
  ghost predicate IsFrame(held: Held, start: int, end: int) {
    && start <= end
    && (forall n :: start <= n <= end ==> n in held && held[n].continuous)
    && held[start].isFirst
    && (forall n :: start < n <= end ==> !held[n].isFirst)
  }

  lemma FrameUnique(held: Held, s: int, t: int, end: int)
    requires IsFrame(held, s, end) && IsFrame(held, t, end)
    ensures s == t
  {
  }

  ghost function Run(held: Held, start: int, end: int): (r: seq<BufferedPacket>)
    requires forall n :: start <= n <= end ==> n in held
    requires start <= end + 1
    ensures |r| == end + 1 - start
    ensures forall i :: 0 <= i < |r| ==> r[i] == held[start + i]
  {
    seq(end + 1 - start, i requires 0 <= i < end + 1 - start => held[start + i])
  }

  ghost function Without(held: Held, start: int, end: int): (r: Held)
    ensures forall n :: n in r <==> n in held && !(start <= n <= end)
    ensures forall n :: n in r ==> r[n] == held[n]
  {
    map n | n in held && !(start <= n <= end) :: held[n]
  }

  /** The frame that ends with a packet just marked continuous is taken out. */
  ghost function Completed(held: Held, n: int): (o: Outcome)
    requires n in held
    ensures forall m :: m in o.held ==> m in held && o.held[m] == held[m]
  {
    if held[n].isLast && exists start :: IsFrame(held, start, n) then
      var start :| IsFrame(held, start, n);
      Outcome(Without(held, start, n), [Run(held, start, n)])
    else Outcome(held, [])
  }

  ghost function ScanAt(held: Held, n: int): (o: Outcome)
    ensures forall m :: m in o.held ==>
            m in held && o.held[m] == if m == n then held[m].(continuous := o.held[m].continuous) else held[m]
  {
    if Potential(held, n) then Completed(Marked(held, n), n) else Outcome(held, [])
  }

  /** The scan over `k` numbers from `low` on. */
  ghost function Scan(held: Held, low: int, k: nat): (o: Outcome) {
    if k == 0 then Outcome(held, [])
    else
      var before := Scan(held, low, k - 1);
      var last := ScanAt(before.held, low + k - 1);
      Outcome(last.held, before.frames + last.frames)
  }

  // -- Every frame returned is sound

  /**
   A frame as the receiver expects it: a run of consecutive numbers whose only first-flag is at the start and
   that ends with a last-flag.
   */
  ghost predicate IsSound(frame: seq<BufferedPacket>) {
    && frame != []
    && (forall i :: 0 <= i < |frame| ==> frame[i].number == frame[0].number + i)
    && (forall i :: 0 <= i < |frame| ==> (frame[i].isFirst <==> i == 0))
    && frame[|frame| - 1].isLast
  }

  lemma StepIsSound(held: Held, n: int)
    requires Keyed(held)
    ensures Keyed(ScanAt(held, n).held)
    ensures forall frame :: frame in ScanAt(held, n).frames ==> IsSound(frame)
  {
    hide Run, Without;
    if Potential(held, n) {
      var marked := Marked(held, n);
      if marked[n].isLast && exists start :: IsFrame(marked, start, n) {
        var start :| IsFrame(marked, start, n);
        forall s | IsFrame(marked, s, n) ensures s == start {
          FrameUnique(marked, s, start, n);
        }
        assert IsSound(Run(marked, start, n));
      }
    }
  }

  lemma {:induction false} ScanIsSound(held: Held, low: int, k: nat)
    requires Keyed(held)
    ensures Keyed(Scan(held, low, k).held)
    ensures forall frame :: frame in Scan(held, low, k).frames ==> IsSound(frame)
  {
    hide ScanAt, IsSound, Keyed;
    if k > 0 {
      ScanIsSound(held, low, k - 1);
      StepIsSound(Scan(held, low, k - 1).held, low + k - 1);
    }
  }

  // -- Nothing is lost and nothing is returned twice

  /** The frame at `i` has the packet with number `n`. */
  ghost predicate Returns(frames: seq<seq<BufferedPacket>>, i: int, n: int) {
    0 <= i < |frames| && exists k :: 0 <= k < |frames[i]| && frames[i][k].number == n
  }

  /** The same packet, but for the mark. */
  predicate Same(p: BufferedPacket, q: BufferedPacket) {
    p.(continuous := false) == q.(continuous := false)
  }

  /** Every packet is still held or is in exactly one of the frames, and nothing else is. */
  ghost predicate Conserves(before: Held, o: Outcome) {
    && (forall n :: n in o.held ==> n in before && Same(o.held[n], before[n]))
    && (forall i, k :: 0 <= i < |o.frames| && 0 <= k < |o.frames[i]| ==>
          var p := o.frames[i][k]; p.number in before && p.number !in o.held && Same(p, before[p.number]))
    && (forall n :: n in before && n !in o.held ==> exists i :: Returns(o.frames, i, n))
    && (forall i, j, n :: Returns(o.frames, i, n) && Returns(o.frames, j, n) ==> i == j)
  }

  lemma NothingConserved(held: Held)
    ensures Conserves(held, Outcome(held, []))
  {
  }

  lemma ReturnsRun(held: Held, start: int, n: int, i: int, m: int)
    requires Keyed(held) && IsFrame(held, start, n)
    ensures Returns([Run(held, start, n)], i, m) <==> i == 0 && start <= m <= n
  {
    hide Run;
    var frame := Run(held, start, n);
    if start <= m <= n {
      assert [frame][0][m - start].number == m;
    }
  }

  lemma TakenConserves(held: Held, start: int, n: int)
    requires Keyed(held) && IsFrame(held, start, n)
    ensures Conserves(held, Outcome(Without(held, start, n), [Run(held, start, n)]))
  {
    hide Run, Without, Returns;
    var frame := Run(held, start, n);
    var o := Outcome(Without(held, start, n), [frame]);
    forall i, k | 0 <= i < |o.frames| && 0 <= k < |o.frames[i]|
      ensures var p := o.frames[i][k]; p.number in held && p.number !in o.held && Same(p, held[p.number])
    {
      assert o.frames[i] == frame;
    }
    forall i, m
      ensures Returns(o.frames, i, m) <==> i == 0 && start <= m <= n
    {
      ReturnsRun(held, start, n, i, m);
    }
    forall m | m in held && m !in o.held
      ensures exists i :: Returns(o.frames, i, m)
    {
      assert Returns(o.frames, 0, m);
    }
  }

  lemma StepConserves(held: Held, n: int)
    requires Keyed(held)
    ensures Conserves(held, ScanAt(held, n))
  {
    hide Run, Without, Conserves;
    NothingConserved(held);
    if Potential(held, n) {
      var marked := Marked(held, n);
      NothingConserved(marked);
      forall start | IsFrame(marked, start, n)
        ensures Conserves(marked, Outcome(Without(marked, start, n), [Run(marked, start, n)]))
      {
        TakenConserves(marked, start, n);
      }
      MarkedConserves(held, n, Completed(marked, n));
    }
  }

  lemma MarkedConserves(held: Held, n: int, o: Outcome)
    requires n in held && Conserves(Marked(held, n), o)
    ensures Conserves(held, o)
  {
    hide Returns;
  }

  lemma ReturnsJoin(a: seq<seq<BufferedPacket>>, b: seq<seq<BufferedPacket>>, i: int, n: int)
    ensures Returns(a + b, i, n) <==> Returns(a, i, n) || Returns(b, i - |a|, n)
  {
    assert forall j :: 0 <= j < |a| ==> (a + b)[j] == a[j];
    assert forall j :: 0 <= j < |b| ==> (a + b)[|a| + j] == b[j];
    if Returns(b, i - |a|, n) {
      assert (a + b)[i] == b[i - |a|];
    }
    if Returns(a + b, i, n) && i >= |a| {
      assert (a + b)[i] == b[i - |a|];
    }
  }

  lemma ReturnedWasHeld(before: Held, o: Outcome, i: int, n: int)
    requires Conserves(before, o) && Returns(o.frames, i, n)
    ensures n in before && n !in o.held && 0 <= i < |o.frames|
  {
  }

  /** One outcome after another. */
  lemma ConservesThen(before: Held, o: Outcome, p: Outcome)
    requires Conserves(before, o) && Conserves(o.held, p)
    ensures Conserves(before, Outcome(p.held, o.frames + p.frames))
  {
    hide Returns;
    var all := o.frames + p.frames;
    forall i, n
      ensures Returns(all, i, n) <==> Returns(o.frames, i, n) || Returns(p.frames, i - |o.frames|, n)
    {
      ReturnsJoin(o.frames, p.frames, i, n);
    }
    forall n | n in before && n !in p.held
      ensures exists i :: Returns(all, i, n)
    {
      if n in o.held {
        var j :| Returns(p.frames, j, n);
        assert Returns(p.frames, (|o.frames| + j) - |o.frames|, n);
        assert Returns(all, |o.frames| + j, n);
      } else {
        var j :| Returns(o.frames, j, n);
        assert Returns(all, j, n);
      }
    }
    forall i, j, n | Returns(all, i, n) && Returns(all, j, n)
      ensures i == j
    {
      OnlyOnce(before, o, p, i, j, n);
    }
  }

  lemma OnlyOnce(before: Held, o: Outcome, p: Outcome, i: int, j: int, n: int)
    requires Conserves(before, o) && Conserves(o.held, p)
    requires Returns(o.frames, i, n) || Returns(p.frames, i - |o.frames|, n)
    requires Returns(o.frames, j, n) || Returns(p.frames, j - |o.frames|, n)
    ensures i == j
  {
    hide Returns, Same;
    if Returns(o.frames, i, n) {
      ReturnedWasHeld(before, o, i, n);
    } else {
      ReturnedWasHeld(o.held, p, i - |o.frames|, n);
    }
    if Returns(o.frames, j, n) {
      ReturnedWasHeld(before, o, j, n);
    } else {
      ReturnedWasHeld(o.held, p, j - |o.frames|, n);
    }
  }

  lemma {:induction false} ScanConserves(held: Held, low: int, k: nat)
    requires Keyed(held)
    ensures Conserves(held, Scan(held, low, k))
    decreases k
  {
    hide ScanAt, Conserves, Keyed;
    if k == 0 {
      NothingConserved(held);
    } else {
      ScanConserves(held, low, k - 1);
      ScanIsSound(held, low, k - 1);
      var before := Scan(held, low, k - 1);
      StepConserves(before.held, low + k - 1);
      ConservesThen(held, before, ScanAt(before.held, low + k - 1));
    }
  }

  // -- One frame of a well-formed stream

  /** The numbers and the timestamp of one frame of the stream. */
  datatype Span = Span(start: int, end: int, timestamp: int)

  ghost predicate Inside(span: Span, n: int) {
    span.start <= n <= span.end
  }

  /** A packet of the frame, flagged as a well-formed stream flags it. */
  ghost predicate Fits(span: Span, p: BufferedPacket) {
    && Inside(span, p.number) && p.timestamp == span.timestamp
    && (p.isFirst <==> p.number == span.start)
    && (p.isLast <==> p.number == span.end)
  }

  /** Every number from the start of the frame to `n` has arrived. */
  ghost predicate UpTo(span: Span, arrived: Held, n: int) {
    forall m :: span.start <= m <= n ==> m in arrived
  }

  ghost predicate Full(span: Span, arrived: Held) {
    UpTo(span, arrived, span.end)
  }

  /** The arrived packets of the frame, as they were inserted. */
  ghost predicate Arrivals(span: Span, arrived: Held) {
    forall n :: n in arrived ==> arrived[n].number == n && Fits(span, arrived[n])
  }

  /**
   The frame waits: just its arrived packets are held. Below `done` exactly those are continuous that no gap
   separates from the start; from there on none other is.
   */
  ghost predicate Waiting(held: Held, span: Span, arrived: Held, done: int) {
    && Arrivals(span, arrived)
    && (forall n :: Inside(span, n) ==> (n in held <==> n in arrived))
    && (forall n :: n in held && Inside(span, n) ==> held[n] == arrived[n].(continuous := held[n].continuous))
    && (forall n :: n in held && Inside(span, n) && held[n].continuous ==> UpTo(span, arrived, n))
    && (forall n :: n in held && Inside(span, n) && n < done && UpTo(span, arrived, n) ==> held[n].continuous)
  }

  ghost predicate Gone(held: Held, span: Span) {
    forall n :: n in held ==> !Inside(span, n)
  }

  /** No packet of the frame is among those returned. */
  ghost predicate Untouched(span: Span, frame: seq<BufferedPacket>) {
    forall i :: 0 <= i < |frame| ==> !Inside(span, frame[i].number)
  }

  ghost predicate AllUntouched(span: Span, frames: seq<seq<BufferedPacket>>) {
    forall i :: 0 <= i < |frames| ==> Untouched(span, frames[i])
  }

  /** The frame itself: its packets as they were inserted, in order, and marked continuous. */
  ghost predicate IsReturn(span: Span, arrived: Held, frame: seq<BufferedPacket>) {
    && |frame| == span.end + 1 - span.start
    && forall i :: 0 <= i < |frame| ==>
         span.start + i in arrived && frame[i] == arrived[span.start + i].(continuous := true)
  }

  /** The frame is returned once, and its packets in no other frame. */
  ghost predicate ReturnedOnce(span: Span, arrived: Held, frames: seq<seq<BufferedPacket>>) {
    exists k :: 0 <= k < |frames| && IsReturn(span, arrived, frames[k]) &&
                forall i :: 0 <= i < |frames| && i != k ==> Untouched(span, frames[i])
  }

  /** A frame taken out elsewhere does not reach into a frame that is not complete. */
  lemma OtherFrameApart(held: Held, span: Span, arrived: Held, done: int, start: int, n: int)
    requires Waiting(held, span, arrived, done) && IsFrame(held, start, n)
    requires n < span.start || (n > span.end && !Full(span, arrived))
    ensures n < span.start || start > span.end
  {
    if n > span.end && start <= span.end {
      assert start <= span.start by {
        assert start in held;
      }
      assert UpTo(span, arrived, span.end) by {
        forall m | span.start <= m <= span.end ensures m in arrived {
          assert m in held;
        }
      }
    }
  }

  lemma StepElsewhere(held: Held, span: Span, arrived: Held, done: int, n: int)
    requires Keyed(held) && Waiting(held, span, arrived, done)
    requires n < span.start || (n > span.end && !Full(span, arrived))
    ensures Waiting(ScanAt(held, n).held, span, arrived, done)
    ensures AllUntouched(span, ScanAt(held, n).frames)
  {
    hide Run, Without, UpTo, Full;
    if Potential(held, n) {
      var marked := Marked(held, n);
      assert Waiting(marked, span, arrived, done);
      forall start | IsFrame(marked, start, n) ensures n < span.start || start > span.end {
        OtherFrameApart(marked, span, arrived, done, start, n);
      }
    }
  }

  lemma StepGone(held: Held, span: Span, n: int)
    requires Keyed(held) && Gone(held, span)
    ensures Gone(ScanAt(held, n).held, span)
    ensures AllUntouched(span, ScanAt(held, n).frames)
  {
    hide Run, Without;
    if Potential(held, n) {
      assert Gone(Marked(held, n), span);
    }
  }

  lemma UpToNext(span: Span, arrived: Held, n: int)
    requires n >= span.start
    ensures UpTo(span, arrived, n) <==> n in arrived && UpTo(span, arrived, n - 1)
  {
  }

  /** At a number of the frame the scan can tell exactly whether a gap separates it from the start. */
  lemma PotentialIsUpTo(held: Held, span: Span, arrived: Held, n: int)
    requires Waiting(held, span, arrived, n) && Inside(span, n)
    ensures Potential(held, n) <==> UpTo(span, arrived, n)
  {
    hide UpTo;
    UpToNext(span, arrived, n);
    if n == span.start {
      assert UpTo(span, arrived, n - 1) by {
        UpToStart(span, arrived);
      }
    } else if n in arrived {
      UpToNext(span, arrived, n - 1);
      assert n in held && !held[n].isFirst;
    }
  }

  lemma UpToStart(span: Span, arrived: Held)
    ensures UpTo(span, arrived, span.start - 1)
  {
  }

  lemma StepInside(held: Held, span: Span, arrived: Held, n: int)
    requires Keyed(held) && Waiting(held, span, arrived, n) && Inside(span, n)
    requires !(n == span.end && Full(span, arrived))
    ensures Waiting(ScanAt(held, n).held, span, arrived, n + 1)
    ensures ScanAt(held, n).frames == []
  {
    hide UpTo;
    PotentialIsUpTo(held, span, arrived, n);
  }

  /** At the last number of a complete frame the scan takes the frame out. */
  lemma StepCompletes(held: Held, span: Span, arrived: Held)
    requires Keyed(held) && Waiting(held, span, arrived, span.end) && span.start <= span.end && Full(span, arrived)
    ensures Gone(ScanAt(held, span.end).held, span)
    ensures |ScanAt(held, span.end).frames| == 1 && IsReturn(span, arrived, ScanAt(held, span.end).frames[0])
  {
    hide Run, Without;
    PotentialIsUpTo(held, span, arrived, span.end);
    var marked := Marked(held, span.end);
    assert marked[span.end].isLast;
    assert IsFrame(marked, span.start, span.end) by {
      forall n | Inside(span, n)
        ensures n in marked && marked[n].continuous && (marked[n].isFirst <==> n == span.start)
      {
        assert n in arrived && UpTo(span, arrived, n);
      }
    }
    forall s | IsFrame(marked, s, span.end) ensures s == span.start {
      FrameUnique(marked, s, span.start, span.end);
    }
  }

  // -- The scan over one frame

  /** What is known of the frame when the scan has reached `next`. */
  ghost predicate Scanned(o: Outcome, span: Span, arrived: Held, next: int) {
    if next > span.end && Full(span, arrived) then
      Gone(o.held, span) && ReturnedOnce(span, arrived, o.frames)
    else
      && AllUntouched(span, o.frames)
      && Waiting(o.held, span, arrived,
                 if next > span.end then span.end + 1 else if next < span.start then span.start else next)
  }

  lemma ReturnedNow(span: Span, arrived: Held, frames: seq<seq<BufferedPacket>>, frame: seq<BufferedPacket>)
    requires AllUntouched(span, frames) && IsReturn(span, arrived, frame)
    ensures ReturnedOnce(span, arrived, frames + [frame])
  {
    hide IsReturn, Untouched;
    var all := frames + [frame];
    assert all[|frames|] == frame;
  }

  lemma ReturnedBefore(span: Span, arrived: Held, frames: seq<seq<BufferedPacket>>, more: seq<seq<BufferedPacket>>)
    requires ReturnedOnce(span, arrived, frames) && AllUntouched(span, more)
    ensures ReturnedOnce(span, arrived, frames + more)
  {
    hide IsReturn, Untouched;
    var k :| 0 <= k < |frames| && IsReturn(span, arrived, frames[k]) &&
             forall i :: 0 <= i < |frames| && i != k ==> Untouched(span, frames[i]);
    var all := frames + more;
    assert all[k] == frames[k];
  }

  lemma ScanFrom(o: Outcome, span: Span, arrived: Held, n: int)
    requires Keyed(o.held) && span.start <= span.end && Scanned(o, span, arrived, n)
    ensures var last := ScanAt(o.held, n); Scanned(Outcome(last.held, o.frames + last.frames), span, arrived, n + 1)
  {
    hide ScanAt, Waiting, Gone, ReturnedOnce, IsReturn, Untouched, Full, Keyed;
    var last := ScanAt(o.held, n);
    if n > span.end && Full(span, arrived) {
      StepGone(o.held, span, n);
      ReturnedBefore(span, arrived, o.frames, last.frames);
    } else if n < span.start || n > span.end {
      StepElsewhere(o.held, span, arrived, if n > span.end then span.end + 1 else span.start, n);
    } else if n == span.end && Full(span, arrived) {
      StepCompletes(o.held, span, arrived);
      ReturnedNow(span, arrived, o.frames, last.frames[0]);
      assert last.frames == [last.frames[0]];
    } else {
      StepInside(o.held, span, arrived, n);
      assert o.frames + last.frames == o.frames;
    }
  }

  lemma {:induction false} ScanFrame(held: Held, span: Span, arrived: Held, low: int, k: nat)
    requires Keyed(held) && span.start <= span.end && Scanned(Outcome(held, []), span, arrived, low)
    ensures Scanned(Scan(held, low, k), span, arrived, low + k)
  {
    hide Scanned, ScanAt, Keyed;
    if k > 0 {
      ScanFrame(held, span, arrived, low, k - 1);
      ScanIsSound(held, low, k - 1);
      ScanFrom(Scan(held, low, k - 1), span, arrived, low + k - 1);
    }
  }

  /** A scan for another packet changes nothing for a frame that waits. */
  lemma StepIdle(held: Held, span: Span, arrived: Held, n: int)
    requires Keyed(held) && Waiting(held, span, arrived, span.end + 1) && !Full(span, arrived)
    ensures Waiting(ScanAt(held, n).held, span, arrived, span.end + 1)
    ensures AllUntouched(span, ScanAt(held, n).frames)
  {
    hide UpTo;
    if Inside(span, n) {
      PotentialIsUpTo(held, span, arrived, n);
    } else {
      StepElsewhere(held, span, arrived, span.end + 1, n);
    }
  }

  /** The frame between insertions: taken out if it is complete, else waiting with every flag settled. */
  ghost predicate Settled(held: Held, span: Span, arrived: Held) {
    if Full(span, arrived) then Gone(held, span) else Waiting(held, span, arrived, span.end + 1)
  }

  lemma {:induction false} ScanIdle(held: Held, span: Span, arrived: Held, low: int, k: nat)
    requires Keyed(held) && Settled(held, span, arrived)
    ensures Settled(Scan(held, low, k).held, span, arrived) && AllUntouched(span, Scan(held, low, k).frames)
  {
    hide ScanAt, Keyed, Waiting, Gone, Full, Untouched;
    if k > 0 {
      ScanIdle(held, span, arrived, low, k - 1);
      ScanIsSound(held, low, k - 1);
      var before := Scan(held, low, k - 1).held;
      if Full(span, arrived) {
        StepGone(before, span, low + k - 1);
      } else {
        StepIdle(before, span, arrived, low + k - 1);
      }
    }
  }

  // -- Insertion

  /** The packet is stored, and whatever its slot held is dropped. */
  ghost function Stored(held: Held, p: BufferedPacket, size: int): (r: Held)
    requires size > 0
    ensures forall n :: n in r <==> n == p.number || (n in held && Pos(n, size) != Pos(p.number, size))
    ensures r[p.number] == p.(continuous := false)
    ensures forall n :: n in r && n != p.number ==> r[n] == held[n]
  {
    (map n | n in held && Pos(n, size) != Pos(p.number, size) :: held[n])[p.number := p.(continuous := false)]
  }

  /** A packet that is held already is ignored; any other is stored, and the numbers around it are scanned. */
  ghost function Insert(held: Held, p: BufferedPacket, size: int): (o: Outcome)
    requires size > 0
  {
    if p.number in held then Outcome(held, [])
    else Scan(Stored(held, p, size), p.number - size / 2, size)
  }

  /** The packet is there, the packets a whole number of rounds away are not, and nothing else is lost. */
  lemma InsertConserves(held: Held, p: BufferedPacket, size: int)
    requires size > 0 && Keyed(held) && p.number !in held
    ensures Conserves((map n | n in held && n % size != p.number % size :: held[n])[p.number := p],
                      Insert(held, p, size))
  {
    hide Scan, Conserves, Keyed;
    var stored := Stored(held, p, size);
    var before := (map n | n in held && n % size != p.number % size :: held[n])[p.number := p];
    StoredKeyed(held, p, size);
    ScanConserves(stored, p.number - size / 2, size);
    SameConserves(before, stored, Insert(held, p, size));
  }

  lemma StoredKeyed(held: Held, p: BufferedPacket, size: int)
    requires size > 0 && Keyed(held)
    ensures Keyed(Stored(held, p, size))
  {
    hide Stored;
  }

  lemma SameConserves(before: Held, stored: Held, o: Outcome)
    requires Conserves(stored, o) && before.Keys == stored.Keys
    requires forall n :: n in stored ==> Same(stored[n], before[n])
    ensures Conserves(before, o)
  {
    hide Returns;
    assert forall n :: n in before <==> n in stored;
  }

  /** The packet does not push a waiting packet of the frame out of its slot. */
  ghost predicate NoClash(held: Held, span: Span, p: BufferedPacket, size: int)
    requires size > 0
  {
    forall n :: n in held && Inside(span, n) && n != p.number ==> Pos(n, size) != Pos(p.number, size)
  }

  lemma InsertElsewhere(held: Held, span: Span, arrived: Held, p: BufferedPacket, size: int)
    requires size > 0 && Keyed(held) && Settled(held, span, arrived)
    requires !Inside(span, p.number) && NoClash(held, span, p, size)
    ensures Settled(Insert(held, p, size).held, span, arrived) && AllUntouched(span, Insert(held, p, size).frames)
  {
    hide Pos, Scan, Untouched, UpTo, Stored;
    if p.number !in held {
      var stored := Stored(held, p, size);
      assert Settled(stored, span, arrived);
      ScanIdle(stored, span, arrived, p.number - size / 2, size);
    }
  }

  /** A new packet of the frame: the flags of the packets before the scan claim no more than has arrived. */
  lemma StoredWaits(held: Held, span: Span, arrived: Held, p: BufferedPacket, size: int)
    requires size > 0 && Keyed(held) && Settled(held, span, arrived) && Arrivals(span, arrived)
    requires Fits(span, p) && p.number !in arrived && NoClash(held, span, p, size)
    ensures var now := arrived[p.number := p.(continuous := false)];
            Keyed(Stored(held, p, size)) && Waiting(Stored(held, p, size), span, now, span.start)
  {
    hide Pos, Stored;
    assert !Full(span, arrived);
    var now := arrived[p.number := p.(continuous := false)];
    assert forall n :: UpTo(span, arrived, n) ==> UpTo(span, now, n);
  }

  lemma InsertOwn(held: Held, span: Span, arrived: Held, p: BufferedPacket, size: int)
    requires size > 0 && Keyed(held) && Settled(held, span, arrived) && Arrivals(span, arrived)
    requires Fits(span, p) && p.number !in arrived && NoClash(held, span, p, size)
    requires span.end + 1 - span.start <= size / 2
    ensures var now := arrived[p.number := p.(continuous := false)];
            var o := Insert(held, p, size);
            && Arrivals(span, now) && Settled(o.held, span, now)
            && if Full(span, now) then ReturnedOnce(span, now, o.frames) else AllUntouched(span, o.frames)
  {
    hide Pos, Scan, Untouched, UpTo, Stored, ReturnedOnce;
    var now := arrived[p.number := p.(continuous := false)];
    StoredWaits(held, span, arrived, p, size);
    assert p.number !in held by {
      NotHeld(held, span, arrived, p);
    }
    ScanFrame(Stored(held, p, size), span, now, p.number - size / 2, size);
  }

  lemma NotHeld(held: Held, span: Span, arrived: Held, p: BufferedPacket)
    requires Settled(held, span, arrived) && Inside(span, p.number) && p.number !in arrived
    ensures p.number !in held
  {
  }

  // -- Whole runs

  /** The packets held after inserting `packets` one by one into an empty buffer. */
  ghost function HeldAfter(packets: seq<BufferedPacket>, size: int): Held
    requires size > 0
  {
    if packets == [] then map[]
    else Insert(HeldAfter(packets[..|packets| - 1], size), packets[|packets| - 1], size).held
  }

  /** The frames that the insertion at position `t` of a run returns. */
  ghost function FramesAt(packets: seq<BufferedPacket>, t: nat, size: int): seq<seq<BufferedPacket>>
    requires size > 0 && t < |packets|
  {
    Insert(HeldAfter(packets[..t], size), packets[t], size).frames
  }

  lemma InsertIsSound(held: Held, p: BufferedPacket, size: int)
    requires size > 0 && Keyed(held)
    ensures Keyed(Insert(held, p, size).held)
    ensures forall frame :: frame in Insert(held, p, size).frames ==> IsSound(frame)
  {
    hide Stored, Scan, Pos, IsSound;
    if p.number !in held {
      ScanIsSound(Stored(held, p, size), p.number - size / 2, size);
    }
  }

  lemma {:induction false} RunKeyed(packets: seq<BufferedPacket>, size: int)
    requires size > 0
    ensures Keyed(HeldAfter(packets, size))
  {
    hide Insert;
    if packets != [] {
      RunKeyed(packets[..|packets| - 1], size);
      InsertIsSound(HeldAfter(packets[..|packets| - 1], size), packets[|packets| - 1], size);
    }
  }

  /** In every run, whatever is inserted, every frame returned is sound. */
  lemma RunIsSound(packets: seq<BufferedPacket>, t: nat, size: int)
    requires size > 0 && t < |packets|
    ensures forall frame :: frame in FramesAt(packets, t, size) ==> IsSound(frame)
  {
    hide Insert, HeldAfter, IsSound;
    RunKeyed(packets[..t], size);
    InsertIsSound(HeldAfter(packets[..t], size), packets[t], size);
  }

  /** The packets of the frame that a run has inserted. */
  ghost function Arrived(packets: seq<BufferedPacket>, span: Span): Held {
    if packets == [] then map[]
    else
      var before := Arrived(packets[..|packets| - 1], span);
      var p := packets[|packets| - 1];
      if Inside(span, p.number) then before[p.number := p.(continuous := false)] else before
  }

  /**
   What the run may do to the frame: its packets are flagged as a well-formed stream flags them, each is
   inserted once, and no insertion pushes one of them out.
   */
  ghost predicate StreamsFrame(packets: seq<BufferedPacket>, span: Span, size: int)
    requires size > 0
  {
    forall t :: 0 <= t < |packets| ==>
      && NoClash(HeldAfter(packets[..t], size), span, packets[t], size)
      && (Inside(span, packets[t].number) ==>
           Fits(span, packets[t]) && packets[t].number !in Arrived(packets[..t], span))
  }

  lemma StreamsFramePrefix(packets: seq<BufferedPacket>, span: Span, size: int, n: nat)
    requires size > 0 && n <= |packets| && StreamsFrame(packets, span, size)
    ensures StreamsFrame(packets[..n], span, size)
  {
    hide NoClash, HeldAfter, Arrived, Fits, Inside;
    forall t | 0 <= t < n ensures packets[..n][..t] == packets[..t] && packets[..n][t] == packets[t] {
    }
  }

  lemma {:induction false} RunSettled(packets: seq<BufferedPacket>, span: Span, size: int)
    requires size > 0 && span.start <= span.end && span.end + 1 - span.start <= size / 2
    requires StreamsFrame(packets, span, size)
    ensures Settled(HeldAfter(packets, size), span, Arrived(packets, span)) && Arrivals(span, Arrived(packets, span))
  {
    hide Insert, NoClash, Keyed, ReturnedOnce, AllUntouched, Fits;
    if packets == [] {
      assert span.start !in Arrived(packets, span);
    } else {
      var n := |packets| - 1;
      StreamsFramePrefix(packets, span, size, n);
      RunSettled(packets[..n], span, size);
      RunKeyed(packets[..n], size);
      var held, arrived, p := HeldAfter(packets[..n], size), Arrived(packets[..n], span), packets[n];
      if Inside(span, p.number) {
        InsertOwn(held, span, arrived, p, size);
      } else {
        InsertElsewhere(held, span, arrived, p, size);
      }
    }
  }

  /** The insertion at position `t` delivers the last missing packet of the frame. */
  ghost predicate Completes(packets: seq<BufferedPacket>, span: Span, t: nat)
    requires t < |packets|
  {
    Inside(span, packets[t].number) && Full(span, Arrived(packets[..t + 1], span))
  }

  /**
   A frame of at most half the buffer's size is returned, once and whole, by the insertion that delivers its last
   missing packet, and no packet of it by any other insertion, whatever the order of arrival.
   */
  lemma FrameReturnedOnce(packets: seq<BufferedPacket>, span: Span, size: int, t: nat)
    requires size > 0 && span.start <= span.end && span.end + 1 - span.start <= size / 2
    requires StreamsFrame(packets, span, size) && t < |packets|
    ensures if Completes(packets, span, t) then
            ReturnedOnce(span, Arrived(packets[..t + 1], span), FramesAt(packets, t, size))
            else AllUntouched(span, FramesAt(packets, t, size))
  {
    hide Insert, NoClash, Keyed, ReturnedOnce, AllUntouched, Fits, Settled, Full, HeldAfter;
    StreamsFramePrefix(packets, span, size, t);
    RunSettled(packets[..t], span, size);
    RunKeyed(packets[..t], size);
    assert packets[..t + 1][..t] == packets[..t];
    var held, arrived, p := HeldAfter(packets[..t], size), Arrived(packets[..t], span), packets[t];
    if Inside(span, p.number) {
      InsertOwn(held, span, arrived, p, size);
    } else {
      InsertElsewhere(held, span, arrived, p, size);
    }
  }

  /** After the insertion of the last packet of the frame no earlier one can have completed it. */
  lemma LastCompletes(packets: seq<BufferedPacket>, span: Span, size: int, u: nat)
    requires size > 0 && packets != [] && StreamsFrame(packets, span, size) && u < |packets| - 1
    requires Inside(span, packets[|packets| - 1].number)
    ensures !Completes(packets, span, u)
  {
    hide NoClash, HeldAfter, Fits, Arrived;
    var n := |packets| - 1;
    ArrivedGrows(packets, span, u + 1, n);
    assert packets[n].number !in Arrived(packets[..n], span);
  }

  lemma CompletesPrefix(packets: seq<BufferedPacket>, span: Span, n: nat, u: nat)
    requires u < n <= |packets|
    ensures Completes(packets[..n], span, u) <==> Completes(packets, span, u)
  {
    assert packets[..n][..u + 1] == packets[..u + 1] && packets[..n][u] == packets[u];
  }

  lemma ArrivedLater(packets: seq<BufferedPacket>, span: Span)
    requires packets != [] && !Inside(span, packets[|packets| - 1].number)
    ensures Arrived(packets, span) == Arrived(packets[..|packets| - 1], span)
  {
  }

  /** Once all its packets are in, exactly one insertion of the run has completed the frame. */
  lemma {:induction false} CompletedByOne(packets: seq<BufferedPacket>, span: Span, size: int) returns (t: nat)
    requires size > 0 && span.start <= span.end
    requires StreamsFrame(packets, span, size) && Full(span, Arrived(packets, span))
    ensures t < |packets| && Completes(packets, span, t)
    ensures forall u: nat :: u < |packets| && Completes(packets, span, u) ==> u == t
  {
    hide Completes, Arrived, StreamsFrame, Full, Inside;
    NothingArrived(packets, span);
    var n := |packets| - 1;
    if Inside(span, packets[n].number) {
      t := n;
      CompletesNow(packets, span);
      forall u: nat | u < n
        ensures !Completes(packets, span, u)
      {
        LastCompletes(packets, span, size, u);
      }
    } else {
      StreamsFramePrefix(packets, span, size, n);
      ArrivedLater(packets, span);
      t := CompletedByOne(packets[..n], span, size);
      forall u: nat | u < n
        ensures Completes(packets[..n], span, u) <==> Completes(packets, span, u)
      {
        CompletesPrefix(packets, span, n, u);
      }
      NotInsideNotNow(packets, span);
    }
  }

  lemma NothingArrived(packets: seq<BufferedPacket>, span: Span)
    requires span.start <= span.end && Full(span, Arrived(packets, span))
    ensures packets != []
  {
    assert span.start in Arrived(packets, span);
  }

  lemma CompletesNow(packets: seq<BufferedPacket>, span: Span)
    requires packets != [] && Full(span, Arrived(packets, span)) && Inside(span, packets[|packets| - 1].number)
    ensures Completes(packets, span, |packets| - 1)
  {
    assert packets[..|packets| - 1 + 1] == packets;
  }

  lemma NotInsideNotNow(packets: seq<BufferedPacket>, span: Span)
    requires packets != [] && !Inside(span, packets[|packets| - 1].number)
    ensures !Completes(packets, span, |packets| - 1)
  {
  }

  lemma {:induction false} ArrivedGrows(packets: seq<BufferedPacket>, span: Span, m: nat, n: nat)
    requires m <= n <= |packets|
    ensures Arrived(packets[..m], span).Keys <= Arrived(packets[..n], span).Keys
    decreases n
  {
    if m < n {
      assert packets[..n][..n - 1] == packets[..n - 1];
      ArrivedGrows(packets, span, m, n - 1);
    }
  }
}
