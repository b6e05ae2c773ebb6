/**
 The third criterion of the video packet buffer (pkg/videoframe/packet_buffer.go): the packets of a frame have one
 timestamp. It holds for every run in which no packet is inserted in front of one that was left behind by a packet
 since replaced; a run that does so can return a frame made of two.
 */
module FrameTimestamps {
  import opened FrameAssembly
  import opened SequenceWindows

  // -- One timestamp per frame

  ghost predicate OneTimestamp(frame: seq<BufferedPacket>) {
    forall i :: 0 <= i < |frame| ==> frame[i].timestamp == frame[0].timestamp
  }

  /** A packet marked as the continuation of a held one has its timestamp. */
  ghost predicate LinkedAt(held: Held, n: int) {
    n in held && n - 1 in held && held[n].continuous && !held[n].isFirst ==> held[n].timestamp == held[n - 1].timestamp
  }

  ghost predicate Linked(held: Held) {
    forall n {:trigger LinkedAt(held, n)} :: n in held ==> LinkedAt(held, n)
  }

  lemma {:induction false} RunTimestamp(held: Held, start: int, end: int, n: int)
    requires IsFrame(held, start, end) && Linked(held) && start <= n <= end
    ensures held[n].timestamp == held[start].timestamp
    decreases n - start
  {
    if start < n {
      RunTimestamp(held, start, end, n - 1);
      assert LinkedAt(held, n);
    }
  }

  lemma FrameTimestamps(held: Held, start: int, end: int)
    requires IsFrame(held, start, end) && Linked(held)
    ensures OneTimestamp(Run(held, start, end))
  {
    hide Run, Linked;
    forall m | start <= m <= end
      ensures held[m].timestamp == held[start].timestamp
    {
      RunTimestamp(held, start, end, m);
    }
  }

  lemma LinkedMarked(held: Held, n: int)
    requires Linked(held) && Potential(held, n)
    ensures Linked(Marked(held, n))
  {
    forall m | m in held
      ensures LinkedAt(Marked(held, n), m)
    {
      assert LinkedAt(held, m);
    }
  }

  lemma LinkedPart(held: Held, part: Held)
    requires Linked(held) && forall n :: n in part ==> n in held && part[n] == held[n]
    ensures Linked(part)
  {
    forall m | m in part
      ensures LinkedAt(part, m)
    {
      assert LinkedAt(held, m);
    }
  }

  lemma LinkedStep(held: Held, n: int)
    requires Linked(held)
    ensures Linked(ScanAt(held, n).held)
    ensures forall frame :: frame in ScanAt(held, n).frames ==> OneTimestamp(frame)
  {
    hide Run, Without, Linked, OneTimestamp;
    if Potential(held, n) {
      var marked := Marked(held, n);
      LinkedMarked(held, n);
      forall start | IsFrame(marked, start, n)
        ensures OneTimestamp(Run(marked, start, n))
      {
        FrameTimestamps(marked, start, n);
      }
      LinkedPart(marked, ScanAt(held, n).held);
    }
  }

  lemma {:induction false} LinkedScan(held: Held, low: int, k: nat)
    requires Linked(held)
    ensures Linked(Scan(held, low, k).held)
    ensures forall frame :: frame in Scan(held, low, k).frames ==> OneTimestamp(frame)
    decreases k
  {
    hide ScanAt, Linked, OneTimestamp;
    if k > 0 {
      LinkedScan(held, low, k - 1);
      LinkedStep(Scan(held, low, k - 1).held, low + k - 1);
    }
  }

  /**
   The packet comes right before a held one that was marked as the continuation of another packet, since gone,
   and that has another timestamp.
   */
  ghost predicate MeetsStale(held: Held, p: BufferedPacket, size: int)
    requires size > 0
  {
    var n := p.number + 1;
    && n in held && Pos(n, size) != Pos(p.number, size)
    && held[n].continuous && !held[n].isFirst && held[n].timestamp != p.timestamp
  }

  /** Storing a packet keeps the timestamps linked exactly when it does not meet such a packet. */
  lemma StoredLinkedIff(held: Held, p: BufferedPacket, size: int)
    requires size > 0 && Linked(held) && p.number !in held
    ensures Linked(Stored(held, p, size)) <==> !MeetsStale(held, p, size)
  {
    hide Pos, Stored;
    var stored := Stored(held, p, size);
    if MeetsStale(held, p, size) {
      assert !LinkedAt(stored, p.number + 1);
    } else {
      forall n | n in stored ensures LinkedAt(stored, n) {
        assert n in held ==> LinkedAt(held, n);
      }
    }
  }

  ghost predicate NeverMeetsStale(packets: seq<BufferedPacket>, size: int)
    requires size > 0
  {
    forall t :: 0 <= t < |packets| ==>
      packets[t].number in HeldAfter(packets[..t], size) || !MeetsStale(HeldAfter(packets[..t], size), packets[t], size)
  }

  lemma LinkedInsert(held: Held, p: BufferedPacket, size: int)
    requires size > 0 && Linked(held) && (p.number in held || !MeetsStale(held, p, size))
    ensures Linked(Insert(held, p, size).held)
    ensures forall frame :: frame in Insert(held, p, size).frames ==> OneTimestamp(frame)
  {
    hide Linked, Scan, Stored, MeetsStale, OneTimestamp;
    if p.number !in held {
      StoredLinkedIff(held, p, size);
      LinkedScan(Stored(held, p, size), p.number - size / 2, size);
    }
  }

  lemma {:induction false} RunLinked(packets: seq<BufferedPacket>, n: nat, size: int)
    requires size > 0 && n <= |packets| && NeverMeetsStale(packets, size)
    ensures Linked(HeldAfter(packets[..n], size))
    decreases n
  {
    hide Insert, MeetsStale, Linked;
    if n == 0 {
      assert Linked(map[]) by {
        EmptyLinked();
      }
    } else {
      RunLinked(packets, n - 1, size);
      assert packets[..n][..n - 1] == packets[..n - 1];
      LinkedInsert(HeldAfter(packets[..n - 1], size), packets[n - 1], size);
    }
  }

  lemma EmptyLinked()
    ensures Linked(map[])
  {
  }

  /** In every run in which no packet meets a stale one, every frame has one timestamp. */
  lemma RunHasOneTimestamp(packets: seq<BufferedPacket>, t: nat, size: int)
    requires size > 0 && t < |packets| && NeverMeetsStale(packets, size)
    ensures forall frame :: frame in FramesAt(packets, t, size) ==> OneTimestamp(frame)
  {
    hide Insert, HeldAfter, MeetsStale, Linked, OneTimestamp;
    RunLinked(packets, t, size);
    LinkedInsert(HeldAfter(packets[..t], size), packets[t], size);
  }

  // -- Runs that replace no packet

  /** A continuous packet is the first of its frame or continues a held one, and none is the last of its frame. */
  ghost predicate BackedAt(held: Held, n: int) {
    n in held && held[n].continuous ==>
      && !held[n].isLast
      && (held[n].isFirst || (n - 1 in held && held[n - 1].continuous && held[n - 1].timestamp == held[n].timestamp))
  }

  ghost predicate Backed(held: Held) {
    forall n {:trigger BackedAt(held, n)} :: n in held ==> BackedAt(held, n)
  }

  lemma BackedBy(held: Held, n: int)
    requires Backed(held) && n in held && held[n].continuous && !held[n].isFirst
    ensures n - 1 in held && held[n - 1].continuous
  {
    assert BackedAt(held, n);
  }

  lemma {:induction false} LowerBound(keys: set<int>) returns (low: int)
    ensures forall n :: n in keys ==> low <= n
    decreases |keys|
  {
    if n :| n in keys {
      var rest := keys - {n};
      low := LowerBound(rest);
      low := if n < low then n else low;
      forall m | m in keys
        ensures low <= m
      {
        assert m == n || m in rest;
      }
    } else {
      low := 0;
    }
  }

  /** From a continuous packet the walk back finds the start of its frame. */
  lemma {:induction false} BackedStart(held: Held, n: int, low: int) returns (start: int)
    requires Backed(held) && n in held && held[n].continuous && forall m :: m in held ==> low <= m
    ensures IsFrame(held, start, n)
    decreases n - low
  {
    hide Backed;
    if held[n].isFirst {
      start := n;
    } else {
      BackedBy(held, n);
      start := BackedStart(held, n - 1, low);
    }
  }

  lemma MarkedFrame(held: Held, n: int) returns (start: int)
    requires Backed(held) && Potential(held, n)
    ensures IsFrame(Marked(held, n), start, n)
  {
    hide Backed;
    if held[n].isFirst {
      start := n;
    } else {
      var low := LowerBound(held.Keys);
      start := BackedStart(held, n - 1, low);
    }
  }

  /** The only last-flag of a frame is at its end. */
  ghost predicate OneLast(frame: seq<BufferedPacket>) {
    forall i :: 0 <= i < |frame| ==> (frame[i].isLast <==> i == |frame| - 1)
  }

  lemma FrameLast(held: Held, start: int, n: int)
    requires Backed(held) && n in held && held[n].isLast && IsFrame(Marked(held, n), start, n)
    ensures OneLast(Run(Marked(held, n), start, n))
  {
    hide Run, Backed;
    forall m | start <= m < n
      ensures m in held && !held[m].isLast
    {
      assert m in Marked(held, n) && held[m].continuous;
      NotLast(held, m);
    }
  }

  lemma NotLast(held: Held, n: int)
    requires Backed(held) && n in held && held[n].continuous
    ensures !held[n].isLast
  {
    assert BackedAt(held, n);
  }

  lemma BackedMarked(held: Held, n: int)
    requires Backed(held) && Potential(held, n) && !held[n].isLast
    ensures Backed(Marked(held, n))
  {
    forall m | m in held
      ensures BackedAt(Marked(held, n), m)
    {
      assert BackedAt(held, m);
    }
  }

  /** Taking a frame out leaves no packet without the one before it, for its last packet had no follower. */
  lemma BackedRemoved(held: Held, start: int, n: int)
    requires Backed(held) && Potential(held, n) && held[n].isLast && start <= n
    ensures Backed(Without(Marked(held, n), start, n))
  {
    hide Without;
    var rest := Without(Marked(held, n), start, n);
    assert BackedAt(held, n) && BackedAt(held, n + 1);
    forall m | m in rest
      ensures BackedAt(rest, m)
    {
      assert BackedAt(held, m);
    }
  }

  lemma BackedStep(held: Held, n: int)
    requires Backed(held)
    ensures Backed(ScanAt(held, n).held)
    ensures forall frame :: frame in ScanAt(held, n).frames ==> OneLast(frame)
  {
    hide Run, Without, OneLast, Backed;
    if Potential(held, n) {
      var marked := Marked(held, n);
      if held[n].isLast {
        var start := MarkedFrame(held, n);
        forall s | IsFrame(marked, s, n)
          ensures s == start
        {
          FrameUnique(marked, s, start, n);
        }
        FrameLast(held, start, n);
        BackedRemoved(held, start, n);
      } else {
        BackedMarked(held, n);
      }
    }
  }

  lemma {:induction false} BackedScan(held: Held, low: int, k: nat)
    requires Backed(held)
    ensures Backed(Scan(held, low, k).held)
    ensures forall frame :: frame in Scan(held, low, k).frames ==> OneLast(frame)
    decreases k
  {
    hide ScanAt, Backed, OneLast;
    if k > 0 {
      BackedScan(held, low, k - 1);
      BackedStep(Scan(held, low, k - 1).held, low + k - 1);
    }
  }

  /** The packet finds its slot free, or holding itself. */
  ghost predicate ReplacesNone(held: Held, p: BufferedPacket, size: int)
    requires size > 0
  {
    forall n :: n in held && n != p.number ==> Pos(n, size) != Pos(p.number, size)
  }

  lemma BackedInsert(held: Held, p: BufferedPacket, size: int)
    requires size > 0 && Backed(held) && ReplacesNone(held, p, size)
    ensures Backed(Insert(held, p, size).held) && (p.number in held || !MeetsStale(held, p, size))
    ensures forall frame :: frame in Insert(held, p, size).frames ==> OneLast(frame)
  {
    hide Pos, Scan, Stored, OneLast;
    if p.number !in held {
      var stored := Stored(held, p, size);
      forall n | n in stored ensures BackedAt(stored, n) {
        assert n in held ==> BackedAt(held, n);
      }
      assert p.number + 1 in held ==> BackedAt(held, p.number + 1);
      BackedScan(stored, p.number - size / 2, size);
    }
  }

  ghost predicate NeverReplaces(packets: seq<BufferedPacket>, size: int)
    requires size > 0
  {
    forall t :: 0 <= t < |packets| ==> ReplacesNone(HeldAfter(packets[..t], size), packets[t], size)
  }

  lemma {:induction false} RunBacked(packets: seq<BufferedPacket>, n: nat, size: int)
    requires size > 0 && n <= |packets| && NeverReplaces(packets, size)
    ensures Backed(HeldAfter(packets[..n], size))
    decreases n
  {
    hide Insert, ReplacesNone, Backed, MeetsStale;
    if n == 0 {
      assert Backed(map[]) by {
        EmptyBacked();
      }
    } else {
      RunBacked(packets, n - 1, size);
      assert packets[..n][..n - 1] == packets[..n - 1];
      BackedInsert(HeldAfter(packets[..n - 1], size), packets[n - 1], size);
    }
  }

  lemma EmptyBacked()
    ensures Backed(map[])
  {
  }

  /** In every run in which no packet replaces another, every frame has one timestamp and one last-flag. */
  lemma FramesWholeWithoutReplacing(packets: seq<BufferedPacket>, t: nat, size: int)
    requires size > 0 && t < |packets| && NeverReplaces(packets, size)
    ensures NeverMeetsStale(packets, size)
    ensures forall frame :: frame in FramesAt(packets, t, size) ==> OneTimestamp(frame) && OneLast(frame)
  {
    hide Insert, HeldAfter, ReplacesNone, Backed, MeetsStale, OneTimestamp, OneLast;
    forall u | 0 <= u < |packets|
      ensures packets[u].number in HeldAfter(packets[..u], size) ||
              !MeetsStale(HeldAfter(packets[..u], size), packets[u], size)
    {
      RunBacked(packets, u, size);
      BackedInsert(HeldAfter(packets[..u], size), packets[u], size);
    }
    RunHasOneTimestamp(packets, t, size);
    RunBacked(packets, t, size);
    BackedInsert(HeldAfter(packets[..t], size), packets[t], size);
  }

  // -- A run that mixes timestamps

  lemma {:induction false} ScanNothing(held: Held, low: int, k: nat)
    requires forall n :: low <= n < low + k ==> n !in held
    ensures Scan(held, low, k) == Outcome(held, [])
    decreases k
  {
    if k > 0 {
      ScanNothing(held, low, k - 1);
    }
  }

  lemma {:induction false} ScanJoin(held: Held, low: int, j: nat, k: nat)
    ensures var first := Scan(held, low, j);
            var second := Scan(first.held, low + j, k);
            Scan(held, low, j + k) == Outcome(second.held, first.frames + second.frames)
    decreases k
  {
    hide ScanAt;
    if k > 0 {
      ScanJoin(held, low, j, k - 1);
      var first := Scan(held, low, j);
      var second := Scan(first.held, low + j, k - 1);
      var last := ScanAt(second.held, low + j + k - 1);
      assert (first.frames + second.frames) + last.frames == first.frames + (second.frames + last.frames);
    }
  }

  /** Only the numbers 10, 11 and 12 matter to a scan that covers them and finds no others. */
  lemma ScanThree(held: Held, low: int)
    requires low <= 10 && low + 64 >= 13
    requires forall n :: n in held && low <= n < low + 64 ==> 10 <= n <= 12
    ensures Scan(held, low, 64) == Scan(held, 10, 3)
  {
    hide Scan;
    var before, after := 10 - low, low + 64 - 13;
    ScanNothing(held, low, before);
    ScanJoin(held, low, before, 3);
    var three := Scan(held, 10, 3);
    ScanKeys(held, 10, 3);
    ScanNothing(three.held, 13, after);
    ScanJoin(held, low, before + 3, after);
    assert [] + three.frames == three.frames && three.frames + [] == three.frames;
  }

  lemma {:induction false} ScanKeys(held: Held, low: int, k: nat)
    ensures forall n :: n in Scan(held, low, k).held ==> n in held
    decreases k
  {
    hide ScanAt;
    if k > 0 {
      ScanKeys(held, low, k - 1);
    }
  }

  lemma ThreeSteps(held: Held)
    ensures var a := ScanAt(held, 10);
            var b := ScanAt(a.held, 11);
            var c := ScanAt(b.held, 12);
            Scan(held, 10, 3) == Outcome(c.held, a.frames + b.frames + c.frames)
  {
    hide ScanAt;
    var a := ScanAt(held, 10);
    assert Scan(held, 10, 0) == Outcome(held, []);
    assert Scan(held, 10, 1) == Outcome(a.held, [] + a.frames) && [] + a.frames == a.frames;
    assert Scan(held, 10, 2) == Outcome(ScanAt(a.held, 11).held, a.frames + ScanAt(a.held, 11).frames);
  }

  function Plain(number: int, timestamp: int): BufferedPacket {
    BufferedPacket(number, timestamp, false, false, false)
  }

  /**
   Packets 10 and 11 of one frame; 74, which takes the slot of 10; another packet 10; and the end of the first
   frame.
   */
  function MixingRun(a: int, b: int): seq<BufferedPacket> {
    [Plain(10, a).(isFirst := true), Plain(11, a), Plain(74, a), Plain(10, b).(isFirst := true),
     Plain(12, a).(isLast := true)]
  }

  lemma InsertFirst(p: BufferedPacket)
    requires p.number == 10 && p.isFirst && !p.isLast
    ensures Insert(map[], p, 64) == Outcome(map[10 := p.(continuous := true)], [])
  {
    hide Scan;
    var stored := Stored(map[], p, 64);
    ScanThree(stored, -22);
    ThreeSteps(stored);
    assert ScanAt(stored, 10) == Outcome(map[10 := p.(continuous := true)], []);
  }

  lemma InsertSecond(p: BufferedPacket, q: BufferedPacket)
    requires p.number == 10 && p.isFirst && !p.isLast && p.continuous
    requires q.number == 11 && !q.isFirst && !q.isLast && p.timestamp == q.timestamp
    ensures Insert(map[10 := p], q, 64) == Outcome(map[10 := p, 11 := q.(continuous := true)], [])
  {
    hide Scan;
    var stored := Stored(map[10 := p], q, 64);
    assert stored == map[10 := p, 11 := q.(continuous := false)];
    ScanThree(stored, -21);
    ThreeSteps(stored);
    assert ScanAt(stored, 10) == Outcome(stored, []);
    assert ScanAt(stored, 11) == Outcome(map[10 := p, 11 := q.(continuous := true)], []);
  }

  lemma InsertEvicting(p: BufferedPacket, q: BufferedPacket, r: BufferedPacket)
    requires r.number == 74 && !r.isFirst
    ensures Insert(map[10 := p, 11 := q], r, 64) == Outcome(map[11 := q, 74 := r.(continuous := false)], [])
  {
    hide Scan;
    var held := map[11 := q, 74 := r.(continuous := false)];
    assert Stored(map[10 := p, 11 := q], r, 64) == held;
    ScanNothing(held, 42, 32);
    ScanJoin(held, 42, 32, 1);
    assert ScanAt(held, 74) == Outcome(held, []);
    assert Scan(held, 74, 1) == Outcome(held, []) by {
      OneScan(held, 74);
    }
    ScanNothing(held, 75, 31);
    ScanJoin(held, 42, 33, 31);
  }

  lemma OneScan(held: Held, n: int)
    ensures Scan(held, n, 1) == ScanAt(held, n)
  {
    hide ScanAt;
    assert Scan(held, n, 0) == Outcome(held, []);
    assert [] + ScanAt(held, n).frames == ScanAt(held, n).frames;
  }

  lemma InsertMixing(q: BufferedPacket, r: BufferedPacket, p: BufferedPacket)
    requires q.number == 11 && q.continuous && !q.isFirst
    requires p.number == 10 && p.isFirst && !p.isLast && p.timestamp != q.timestamp
    ensures Insert(map[11 := q, 74 := r], p, 64) == Outcome(map[10 := p.(continuous := true), 11 := q], [])
  {
    hide Scan;
    var stored := Stored(map[11 := q, 74 := r], p, 64);
    assert stored == map[10 := p.(continuous := false), 11 := q];
    ScanThree(stored, -22);
    ThreeSteps(stored);
    var next := map[10 := p.(continuous := true), 11 := q];
    assert ScanAt(stored, 10) == Outcome(next, []);
    assert ScanAt(next, 11) == Outcome(next, []) && ScanAt(next, 12) == Outcome(next, []);
  }

  lemma MixedFrame(p: BufferedPacket, q: BufferedPacket, e: BufferedPacket)
    requires p.number == 10 && p.isFirst && p.continuous
    requires q.number == 11 && q.continuous && !q.isFirst
    requires e.number == 12 && e.isLast && !e.isFirst && e.timestamp == q.timestamp
    ensures ScanAt(map[10 := p, 11 := q, 12 := e], 12).frames == [[p, q, e.(continuous := true)]]
  {
    hide Without, Run;
    var held := map[10 := p, 11 := q, 12 := e];
    var marked := Marked(held, 12);
    assert Potential(held, 12) && IsFrame(marked, 10, 12);
    forall s | IsFrame(marked, s, 12)
      ensures s == 10
    {
      FrameUnique(marked, s, 10, 12);
    }
    assert Run(marked, 10, 12) == [p, q, e.(continuous := true)];
  }

  lemma NotYet(p: BufferedPacket, q: BufferedPacket, e: BufferedPacket)
    requires p.number == 10 && p.isFirst && !p.isLast && p.continuous
    requires q.number == 11 && q.continuous && !q.isFirst && p.timestamp != q.timestamp
    ensures var held := map[10 := p, 11 := q, 12 := e];
            ScanAt(held, 10) == Outcome(held, []) && ScanAt(held, 11) == Outcome(held, [])
  {
    hide Without, Run, IsFrame;
    var held := map[10 := p, 11 := q, 12 := e];
    assert Marked(held, 10) == held && !Potential(held, 11);
  }

  lemma InsertLast(p: BufferedPacket, q: BufferedPacket, e: BufferedPacket)
    requires p.number == 10 && p.isFirst && !p.isLast && p.continuous
    requires q.number == 11 && q.continuous && !q.isFirst && !q.isLast && p.timestamp != q.timestamp
    requires e.number == 12 && e.isLast && !e.isFirst && e.timestamp == q.timestamp
    ensures Insert(map[10 := p, 11 := q], e, 64).frames == [[p, q, e.(continuous := true)]]
  {
    hide Scan, ScanAt;
    var stored := Stored(map[10 := p, 11 := q], e, 64);
    var f := e.(continuous := false);
    assert stored == map[10 := p, 11 := q, 12 := f];
    ScanThree(stored, -20);
    ThreeSteps(stored);
    NotYet(p, q, f);
    MixedFrame(p, q, f);
    assert [] + [] + [[p, q, e.(continuous := true)]] == [[p, q, e.(continuous := true)]];
  }

  lemma HeldNext(packets: seq<BufferedPacket>, t: nat, size: int)
    requires t < |packets| && size > 0
    ensures HeldAfter(packets[..t + 1], size) == Insert(HeldAfter(packets[..t], size), packets[t], size).held
    ensures t == 0 ==> HeldAfter(packets[..t], size) == map[]
  {
    hide Insert;
    assert packets[..t + 1][..t] == packets[..t];
  }

  /** The frame that the last packet of the run completes has the start of one frame and the rest of another. */
  lemma TimestampsMix(a: int, b: int)
    requires a != b
    ensures var packets := MixingRun(a, b);
            && MeetsStale(HeldAfter(packets[..3], 64), packets[3], 64)
            && |FramesAt(packets, 4, 64)| == 1 && !OneTimestamp(FramesAt(packets, 4, 64)[0])
  {
    hide Insert, HeldAfter;
    var ps := MixingRun(a, b);
    var p, q := ps[0].(continuous := true), ps[1].(continuous := true);
    HeldNext(ps, 0, 64);
    InsertFirst(ps[0]);
    HeldNext(ps, 1, 64);
    InsertSecond(p, ps[1]);
    HeldNext(ps, 2, 64);
    InsertEvicting(p, q, ps[2]);
    HeldNext(ps, 3, 64);
    InsertMixing(q, ps[2], ps[3]);
    var r := ps[3].(continuous := true);
    InsertLast(r, q, ps[4]);
    assert FramesAt(ps, 4, 64)[0] == [r, q, ps[4].(continuous := true)];
    assert FramesAt(ps, 4, 64)[0][1].timestamp == a;
    assert Pos(11, 64) != Pos(10, 64);
  }
}
