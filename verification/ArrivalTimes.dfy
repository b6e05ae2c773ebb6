/**
 The arrival times of received packets (pkg/twcc/arrival_time_map.go): a circular buffer
 that grows and shrinks, standing for a map over a window of unwrapped sequence numbers.
 */
module ArrivalTimes {
  import opened SequenceWindows
  import opened Words

  const MIN_CAPACITY := 128
  const MAX_PACKETS := 0x8000

  // -- What the ring stands for

  /** Arrival times over [begin, end); a negative time marks a number that was not received. */
  datatype Window = Window(begin: int, end: int, times: map<int, int>)

  ghost predicate WellFormed(w: Window) {
    w.begin <= w.end && forall sn :: sn in w.times <==> w.begin <= sn < w.end
  }

  function TimeOf(w: Window, sn: int): int {
    if sn in w.times then w.times[sn] else -1
  }

  predicate Received(w: Window, sn: int) {
    TimeOf(w, sn) >= 0
  }

  ghost function Fresh(sn: int, time: int): Window {
    Window(sn, sn + 1, map[sn := time])
  }

  /** The window [begin, end) that keeps what `w` knows, with `sn` arriving at `time`. */
  ghost function Recut(w: Window, begin: int, end: int, sn: int, time: int): Window {
    Window(begin, end, map k | begin <= k < end :: if k == sn then time else TimeOf(w, k))
  }

  /** A packet too old for the window is dropped; one far ahead of it empties the window first. */
  ghost function Added(w: Window, sn: int, time: int): Window {
    if w.end - sn > MAX_PACKETS then w
    else if sn + 1 >= w.end + MAX_PACKETS then Fresh(sn, time)
    else var end := Max(w.end, sn + 1);
      Recut(w, Max(Min(w.begin, sn), end - MAX_PACKETS), end, sn, time)
  }

  /** The numbers from `begin` on. */
  ghost function Suffix(w: Window, begin: int): Window {
    Window(begin, w.end, map k | begin <= k < w.end :: TimeOf(w, k))
  }

  /** The numbers from `from` to `until` are below `sn` and missing or not newer than the limit. */
  ghost predicate AllOld(w: Window, from: int, until: int, sn: int, limit: int) {
    forall k :: from <= k < until ==> k < sn && TimeOf(w, k) <= limit
  }

  // -- The ring

  predicate IsCapacity(c: int) {
    MIN_CAPACITY <= c <= MAX_PACKETS && IsPow2(c)
  }

  lemma CapacityBounds()
    ensures IsPow2(MIN_CAPACITY) && IsPow2(MAX_PACKETS)
  {
    assert IsPow2(0x1000);
  }

  lemma DoubleCapacity(c: int)
    requires IsCapacity(c) && c < MAX_PACKETS
    ensures IsCapacity(c * 2)
  {
    hide IsPow2;
    CapacityBounds();
    NextPow2(c);
  }

  lemma HalfCapacity(c: int)
    requires IsCapacity(c)
    ensures c > MIN_CAPACITY ==> IsCapacity(c / 2) && c == 2 * (c / 2)
  {
    CapacityBounds();
    if c > MIN_CAPACITY {
      Pow2Gap(MIN_CAPACITY, c);
    }
  }

  /** The slot of a number, which may be negative, as the code takes it. */
  function Masked(sn: int, capacity: int): (i: int)
    requires IsCapacity(capacity)
    ensures i == Pos(sn, capacity)
  {
    MaskIsRemainder(sn, capacity);
    BitAnd(sn, capacity - 1)
  }

  class PacketArrivalTimeMap {
    var arrivalTimes: array?<int>
    var beginSequenceNumber: int
    var endSequenceNumber: int

    ghost predicate Valid()
      reads this, arrivalTimes
    {
      && beginSequenceNumber <= endSequenceNumber
      && (arrivalTimes == null ==> beginSequenceNumber == endSequenceNumber == 0)
      && (arrivalTimes != null ==>
            IsCapacity(arrivalTimes.Length) && endSequenceNumber - beginSequenceNumber <= arrivalTimes.Length)
    }

    ghost function View(): (w: Window)
      requires Valid()
      reads this, arrivalTimes
      ensures WellFormed(w) && w.begin == beginSequenceNumber && w.end == endSequenceNumber
      ensures w.end - w.begin <= MAX_PACKETS
    {
      Window(beginSequenceNumber, endSequenceNumber,
             map sn | beginSequenceNumber <= sn < endSequenceNumber :: arrivalTimes[Pos(sn, arrivalTimes.Length)])
    }

    constructor ()
      ensures Valid() && arrivalTimes == null && View() == Window(0, 0, map[])
    {
      arrivalTimes, beginSequenceNumber, endSequenceNumber := null, 0, 0;
    }

    function Capacity(): int
      reads this
    {
      if arrivalTimes == null then 0 else arrivalTimes.Length
    }

    function Index(sn: int): (i: int)
      requires arrivalTimes != null && IsCapacity(arrivalTimes.Length)
      reads this
      ensures i == Pos(sn, arrivalTimes.Length)
    {
      Masked(sn, arrivalTimes.Length)
    }

    function Get(sn: int): (time: int)
      requires Valid()
      reads this, arrivalTimes
      ensures time == TimeOf(View(), sn)
    {
      if sn < beginSequenceNumber || sn >= endSequenceNumber then -1 else arrivalTimes[Index(sn)]
    }

    function HasReceived(sn: int): (b: bool)
      requires Valid()
      reads this, arrivalTimes
      ensures b <==> Received(View(), sn)
    {
      Get(sn) >= 0
    }

    function Clamp(sn: int): (r: int)
      requires Valid()
      reads this, arrivalTimes
      ensures beginSequenceNumber <= r <= endSequenceNumber
      ensures (sn <= r || r == endSequenceNumber) && (sn >= r || r == beginSequenceNumber)
    {
      if sn < beginSequenceNumber then beginSequenceNumber
      else if endSequenceNumber < sn then endSequenceNumber
      else sn
    }

    method Reallocate(newCapacity: int)
      requires Valid() && IsCapacity(newCapacity)
      requires endSequenceNumber - beginSequenceNumber <= newCapacity
      modifies this`arrivalTimes
      ensures Valid() && View() == old(View())
      ensures arrivalTimes != null && fresh(arrivalTimes) && arrivalTimes.Length == newCapacity
    {
      hide Pos, IsPow2, Masked;
      ghost var w := View();
      var newBuffer := new int[newCapacity](_ => 0);
      var sn := beginSequenceNumber;
      PosDistinct(beginSequenceNumber - 1, endSequenceNumber - 1, newCapacity);
      while sn < endSequenceNumber
        invariant beginSequenceNumber <= sn <= endSequenceNumber
        invariant fresh(newBuffer) && newBuffer.Length == newCapacity && Valid() && View() == w
        invariant forall k :: beginSequenceNumber <= k < sn ==> newBuffer[Pos(k, newCapacity)] == TimeOf(w, k)
      {
        newBuffer[Masked(sn, newCapacity)] := Get(sn);
        sn := sn + 1;
      }
      arrivalTimes := newBuffer;
      assert View().times == w.times;
    }

    /** Grows so that `newSize` numbers fit, and shrinks when the ring is more than four times too large. */
    method AdjustToSize(newSize: int)
      requires Valid() && endSequenceNumber - beginSequenceNumber <= newSize <= MAX_PACKETS
      requires arrivalTimes == null ==> newSize == 0
      modifies this`arrivalTimes
      ensures Valid() && View() == old(View())
      ensures arrivalTimes == old(arrivalTimes) || fresh(arrivalTimes)
      ensures (arrivalTimes == null <==> old(arrivalTimes) == null) && newSize <= Capacity()
      ensures old(arrivalTimes) != null ==> Capacity() <= Max(MIN_CAPACITY, 4 * newSize)
    {
      hide IsPow2, PacketArrivalTimeMap.View;
      if newSize > Capacity() {
        var newCapacity := Capacity();
        while newCapacity < newSize
          invariant IsCapacity(newCapacity) && newCapacity < 2 * newSize
          modifies {}
        {
          DoubleCapacity(newCapacity);
          newCapacity := newCapacity * 2;
        }
        Reallocate(newCapacity);
      }
      if Capacity() > Max(MIN_CAPACITY, newSize * 4) {
        var newCapacity := Capacity();
        while newCapacity >= 2 * Max(newSize, MIN_CAPACITY)
          invariant IsCapacity(newCapacity) && newCapacity >= Max(newSize, MIN_CAPACITY)
          modifies {}
        {
          HalfCapacity(newCapacity);
          newCapacity := newCapacity / 2;
        }
        HalfCapacity(newCapacity);
        Reallocate(newCapacity);
      }
    }

    /** Marks [start, end) as not received and leaves the rest of [lo, hi), which fits the ring, alone. */
    method SetNotReceived(start: int, end: int, ghost lo: int, ghost hi: int)
      requires arrivalTimes != null && IsCapacity(arrivalTimes.Length)
      requires lo <= start <= end <= hi && hi - lo <= arrivalTimes.Length
      modifies arrivalTimes
      ensures forall k :: lo <= k < hi ==>
                arrivalTimes[Pos(k, arrivalTimes.Length)] ==
                if start <= k < end then -1 else old(arrivalTimes[Pos(k, arrivalTimes.Length)])
    {
      hide Pos, IsPow2, Masked;
      PosDistinct(lo - 1, hi - 1, arrivalTimes.Length);
      var sn := start;
      while sn < end
        invariant start <= sn <= end
        invariant forall k :: lo <= k < hi ==>
                    arrivalTimes[Pos(k, arrivalTimes.Length)] ==
                    if start <= k < sn then -1 else old(arrivalTimes[Pos(k, arrivalTimes.Length)])
      {
        arrivalTimes[Index(sn)] := -1;
        sn := sn + 1;
      }
    }

    /** Writes a slot; every other number of the window keeps its time. */
    method Put(sn: int, time: int)
      requires Valid() && beginSequenceNumber <= sn < endSequenceNumber
      modifies arrivalTimes
      ensures Valid() && View() == Recut(old(View()), beginSequenceNumber, endSequenceNumber, sn, time)
    {
      hide Pos, IsPow2, Masked;
      ghost var w := View();
      PosDistinct(beginSequenceNumber - 1, endSequenceNumber - 1, arrivalTimes.Length);
      arrivalTimes[Index(sn)] := time;
      assert View().times == Recut(w, beginSequenceNumber, endSequenceNumber, sn, time).times;
    }

    /** Extends the window down to `sn`. */
    method AddBefore(sn: int, time: int)
      requires Valid() && arrivalTimes != null && sn < beginSequenceNumber && endSequenceNumber - sn <= MAX_PACKETS
      modifies this, arrivalTimes
      ensures Valid() && arrivalTimes != null && (arrivalTimes == old(arrivalTimes) || fresh(arrivalTimes))
      ensures View() == Recut(old(View()), sn, old(endSequenceNumber), sn, time)
    {
      hide Pos, IsPow2, Masked;
      ghost var w := View();
      AdjustToSize(endSequenceNumber - sn);
      ghost var n := arrivalTimes.Length;
      PosDistinct(sn - 1, endSequenceNumber - 1, n);
      assert forall k :: beginSequenceNumber <= k < endSequenceNumber ==> arrivalTimes[Pos(k, n)] == TimeOf(w, k);
      arrivalTimes[Index(sn)] := time;
      assert forall k :: beginSequenceNumber <= k < endSequenceNumber ==> arrivalTimes[Pos(k, n)] == TimeOf(w, k);
      SetNotReceived(sn + 1, beginSequenceNumber, sn, endSequenceNumber);
      beginSequenceNumber := sn;
      assert View().times == Recut(w, sn, endSequenceNumber, sn, time).times;
    }

    /** Extends the window up to `sn`, which fits the ring. */
    method FillTo(sn: int, time: int)
      requires Valid() && arrivalTimes != null && endSequenceNumber <= sn &&
               sn < beginSequenceNumber + arrivalTimes.Length
      modifies this`endSequenceNumber, arrivalTimes
      ensures Valid() && View() == Recut(old(View()), beginSequenceNumber, sn + 1, sn, time)
    {
      hide Pos, IsPow2, Masked;
      ghost var w, n, b := View(), arrivalTimes.Length, beginSequenceNumber;
      assert forall k :: b <= k < endSequenceNumber ==> arrivalTimes[Pos(k, n)] == w.times[k];
      SetNotReceived(endSequenceNumber, sn, b, sn + 1);
      endSequenceNumber := sn + 1;
      PosDistinct(b - 1, sn, n);
      arrivalTimes[Index(sn)] := time;
      assert View().times == Recut(w, b, sn + 1, sn, time).times;
    }

    /** Extends the window up to `sn`, dropping from the front what no longer fits. */
    method AddAfter(sn: int, time: int)
      requires Valid() && arrivalTimes != null && endSequenceNumber <= sn && sn + 1 < endSequenceNumber + MAX_PACKETS
      modifies this, arrivalTimes
      ensures Valid() && arrivalTimes != null && (arrivalTimes == old(arrivalTimes) || fresh(arrivalTimes))
      ensures View() == Recut(old(View()), Max(old(beginSequenceNumber), sn + 1 - MAX_PACKETS), sn + 1, sn, time)
    {
      ghost var w := View();
      if beginSequenceNumber < sn + 1 - MAX_PACKETS {
        beginSequenceNumber := sn + 1 - MAX_PACKETS;
      }
      ghost var b := beginSequenceNumber;
      assert forall k :: k >= b ==> TimeOf(View(), k) == TimeOf(w, k);
      AdjustToSize(sn + 1 - beginSequenceNumber);
      ghost var trimmed := View();
      FillTo(sn, time);
      assert Recut(trimmed, b, sn + 1, sn, time).times == Recut(w, b, sn + 1, sn, time).times;
    }

    /** Makes the window that of one number. */
    method StartAt(sn: int, time: int)
      requires arrivalTimes != null && IsCapacity(arrivalTimes.Length)
      modifies this`beginSequenceNumber, this`endSequenceNumber, arrivalTimes
      ensures Valid() && View() == Fresh(sn, time)
    {
      hide Pos, IsPow2, Masked;
      beginSequenceNumber := sn;
      endSequenceNumber := sn + 1;
      arrivalTimes[Index(sn)] := time;
    }

    method AddPacket(sn: int, time: int)
      requires Valid()
      modifies this, arrivalTimes
      ensures Valid() && arrivalTimes != null
      ensures arrivalTimes == old(arrivalTimes) || fresh(arrivalTimes)
      ensures View() == if old(arrivalTimes) == null then Fresh(sn, time) else Added(old(View()), sn, time)
    {
      hide Pos, IsPow2, Masked, Recut, Fresh, TimeOf;
      if arrivalTimes == null {
        CapacityBounds();
        Reallocate(MIN_CAPACITY);
        StartAt(sn, time);
        return;
      }
      if sn >= beginSequenceNumber && sn < endSequenceNumber {
        Put(sn, time);
        return;
      }
      if sn < beginSequenceNumber {
        var newSize := endSequenceNumber - sn;
        if newSize > MAX_PACKETS {
          return;
        }
        AddBefore(sn, time);
        return;
      }
      if sn + 1 >= endSequenceNumber + MAX_PACKETS {
        StartAt(sn, time);
        return;
      }
      AddAfter(sn, time);
    }

    /** The first received number at or after `sn`. */
    method FindNextAtOrAfter(sn: int) returns (found: int, time: int, ok: bool)
      requires Valid()
      ensures ok ==> sn <= found && Received(View(), found) && time == TimeOf(View(), found)
      ensures ok ==> forall k :: sn <= k < found ==> !Received(View(), k)
      ensures !ok ==> (found, time) == (-1, -1) && forall k :: sn <= k ==> !Received(View(), k)
    {
      var k := Clamp(sn);
      while k < endSequenceNumber
        invariant beginSequenceNumber <= k <= endSequenceNumber
        invariant sn <= k || k == endSequenceNumber
        invariant forall j :: sn <= j < k ==> !Received(View(), j)
      {
        var arrivalTime := Get(k);
        if arrivalTime >= 0 {
          return k, arrivalTime, true;
        }
        k := k + 1;
      }
      return -1, -1, false;
    }

    method EraseTo(sn: int)
      requires Valid()
      modifies this
      ensures Valid() && (arrivalTimes == old(arrivalTimes) || fresh(arrivalTimes))
      ensures View() == Suffix(old(View()), Clamp(old(Max(beginSequenceNumber, sn))))
    {
      ghost var w := View();
      if sn < beginSequenceNumber {
        assert View().times == Suffix(w, beginSequenceNumber).times;
        return;
      }
      if sn >= endSequenceNumber {
        beginSequenceNumber := endSequenceNumber;
        assert View().times == map[];
        return;
      }
      beginSequenceNumber := sn;
      assert View().times == Suffix(w, sn).times;
      AdjustToSize(endSequenceNumber - beginSequenceNumber);
    }

    /** Drops numbers below `sn` from the front while they are missing or not newer than `limit`. */
    method RemoveOldPackets(sn: int, limit: int)
      requires Valid()
      modifies this
      ensures Valid() && (arrivalTimes == old(arrivalTimes) || fresh(arrivalTimes))
      ensures arrivalTimes == null <==> old(arrivalTimes) == null
      ensures old(beginSequenceNumber) <= beginSequenceNumber
      ensures View() == Suffix(old(View()), beginSequenceNumber)
      ensures AllOld(old(View()), old(beginSequenceNumber), beginSequenceNumber, sn, limit)
      ensures beginSequenceNumber < Min(sn, endSequenceNumber) ==> TimeOf(old(View()), beginSequenceNumber) > limit
    {
      hide Pos, IsPow2, Masked;
      ghost var w := View();
      var checkTo := Min(sn, endSequenceNumber);
      while beginSequenceNumber < checkTo && Get(beginSequenceNumber) <= limit
        invariant Valid() && arrivalTimes == old(arrivalTimes) && endSequenceNumber == old(endSequenceNumber)
        invariant old(beginSequenceNumber) <= beginSequenceNumber <= Max(old(beginSequenceNumber), checkTo)
        invariant forall k :: beginSequenceNumber <= k < endSequenceNumber ==> TimeOf(View(), k) == TimeOf(w, k)
        invariant forall k :: old(beginSequenceNumber) <= k < beginSequenceNumber ==> k < sn && TimeOf(w, k) <= limit
        decreases checkTo - beginSequenceNumber
      {
        beginSequenceNumber := beginSequenceNumber + 1;
      }
      assert View().times == Suffix(w, beginSequenceNumber).times;
      AdjustToSize(endSequenceNumber - beginSequenceNumber);
    }
  }
}
