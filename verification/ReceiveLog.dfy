/**
 The log of received packets behind negative acknowledgments (pkg/nack/receive_log.go): a bitmap ring over
 16-bit sequence numbers, standing for a set of unwrapped numbers.
 */
module ReceiveLogs {
  import opened Words
  import opened Bits
  import opened SequenceWindows

  predicate IsLogSize(size: int) {
    64 <= size <= 0x8000 && IsPow2(size)
  }

  // -- What the log promises

  /** The numbers of [lo, hi] that were not received, in ascending order. */
  function MissingBetween(received: set<int>, lo: int, hi: int): (m: seq<int>)
    ensures forall k :: 0 <= k < |m| ==> lo <= m[k] <= hi && m[k] !in received
    ensures forall j, k :: 0 <= j < k < |m| ==> m[j] < m[k]
    ensures |m| <= Max(0, hi - lo + 1)
    decreases hi - lo + 1
  {
    if hi < lo then []
    else MissingBetween(received, lo, hi - 1) + (if hi in received then [] else [hi])
  }

  lemma {:induction false} MissingComplete(received: set<int>, lo: int, hi: int, n: int)
    requires lo <= n <= hi
    ensures n in MissingBetween(received, lo, hi) <==> n !in received
    decreases hi - lo
  {
    if n < hi {
      MissingComplete(received, lo, hi - 1, n);
    }
  }

  /** A stretch in which everything was received adds nothing in front. */
  lemma {:induction false} MissingSkips(received: set<int>, lo: int, mid: int, hi: int)
    requires lo <= mid && forall n :: lo <= n < mid ==> n in received
    ensures MissingBetween(received, lo, hi) == MissingBetween(received, mid, hi)
    decreases hi - lo + 1
  {
    if hi >= lo {
      MissingSkips(received, lo, mid, hi - 1);
    }
  }

  lemma WrapNothing()
    ensures WrapEach([]) == []
  {
  }

  function WrapEach(ns: seq<int>): (w: seq<Uint16>)
    ensures |w| == |ns| && forall k :: 0 <= k < |ns| ==> w[k] == Wrap16(ns[k])
  {
    seq(|ns|, k requires 0 <= k < |ns| => Wrap16(ns[k]))
  }

  // -- The window

  /** The bits of (end - size, until] say what was received. */
  ghost predicate WindowExact(bits: seq<bool>, size: int, end: int, until: int, received: set<int>)
    requires size > 0
  {
    |bits| == size && forall n :: end - size < n <= until ==> (bits[Pos(n, size)] <==> n in received)
  }

  /** Everything up to `last` was received, as far as the window and the run go back. */
  ghost predicate ConsecutiveTo(last: int, first: int, size: int, end: int, received: set<int>) {
    first <= last && forall n :: Max(first, end - size + 1) <= n <= last ==> n in received
  }

  ghost predicate NoneAfter(end: int, received: set<int>) {
    forall n :: n in received ==> n <= end
  }

  /** The last consecutive number is followed by a gap, or by nothing but the newest number. */
  ghost predicate CaughtUp(last: int, end: int, received: set<int>) {
    last >= end - 1 || last + 1 !in received
  }

  /** Setting the bit of the newest number completes the window. */
  lemma SetNewest(bits: seq<bool>, size: int, end: int, received: set<int>)
    requires size > 0 && WindowExact(bits, size, end, end - 1, received)
    ensures WindowExact(bits[Pos(end, size) := true], size, end, end, received + {end})
  {
    hide Pos;
    PosDistinct(end - size, end, size);
  }

  /** Setting the bit of a late number within the window. */
  lemma SetLate(bits: seq<bool>, size: int, end: int, received: set<int>, n: int)
    requires size > 0 && WindowExact(bits, size, end, end, received) && end - size < n <= end
    ensures WindowExact(bits[Pos(n, size) := true], size, end, end, received + {n})
  {
    hide Pos;
    PosDistinct(end - size, end, size);
  }

  /** The number of the window that has the same bit as n. */
  function Alias(n: int, size: int, end: int): (m: int)
    requires size > 0
    ensures end - size < m <= end && Pos(m, size) == Pos(n, size)
  {
    var k := (end - n) / size;
    assert end - Pos(end - n, size) == n + k * size;
    AddModulus(n, k, size);
    end - Pos(end - n, size)
  }

  /**
   A late packet of any age: setting its bit keeps the bitmap exact if and only if the packet is within the
   window, or the newer number it is taken for was received as well.
   */
  lemma LateExactIff(bits: seq<bool>, size: int, end: int, received: set<int>, n: int)
    requires size > 0 && n <= end && WindowExact(bits, size, end, end, received)
    ensures WindowExact(bits[Pos(n, size) := true], size, end, end, received + {n}) <==>
            end - size < n || Alias(n, size, end) in received
  {
    hide Pos, Alias;
    PosDistinct(end - size, end, size);
    var m := Alias(n, size, end);
    var after := bits[Pos(n, size) := true];
    assert after[Pos(m, size)];
  }

  /** The numbers of [lo, hi] whose bit is not set, in ascending order. */
  ghost function UnsetBetween(bits: seq<bool>, size: int, lo: int, hi: int): (m: seq<int>)
    requires 0 < size == |bits|
    ensures |m| <= Max(0, hi - lo + 1)
    decreases hi - lo + 1
  {
    if hi < lo then []
    else UnsetBetween(bits, size, lo, hi - 1) + (if bits[Pos(hi, size)] then [] else [hi])
  }

  /** Within the window of an exact log the unset bits are those of the missing numbers. */
  lemma {:induction false} UnsetIsMissing(bits: seq<bool>, size: int, end: int, received: set<int>, lo: int, hi: int)
    requires size > 0 && WindowExact(bits, size, end, end, received) && end - size < lo && hi <= end
    ensures UnsetBetween(bits, size, lo, hi) == MissingBetween(received, lo, hi)
    decreases hi - lo + 1
  {
    hide Pos;
    if lo <= hi {
      UnsetIsMissing(bits, size, end, received, lo, hi - 1);
    }
  }

  // -- The bitmap

  ghost predicate Mirrors(words: seq<Word64>, bits: seq<bool>) {
    |bits| == 64 * |words| && forall p :: 0 <= p < |bits| ==> bits[p] == words[p / 64][63 - p % 64]
  }

  lemma SizeFacts(size: int)
    requires IsLogSize(size)
    ensures size % 64 == 0 && size / 64 * 64 == size
  {
    assert IsPow2(64);
    var q := Pow2Divides(64, size);
  }

  class ReceiveLog {
    const packets: array<Word64>
    const size: int
    var end: Uint16
    var started: bool
    var lastConsecutive: Uint16
    /** The bitmap as one sequence of `size` bits. */
    ghost var bits: seq<bool>
    /** The true values of `end` and `lastConsecutive`, of the first number, and everything added so far. */
    ghost var endN: int
    ghost var lastN: int
    ghost var firstN: int
    ghost var received: set<int>
    /** No late packet was a ring length or more behind the newest. */
    ghost var inWindow: bool

    /** Holds in every run. */
    ghost predicate Shape()
      reads this, packets
    {
      && IsLogSize(size) && size == 64 * packets.Length == |bits| && Mirrors(packets[..], bits)
      && end == Wrap16(endN) && lastConsecutive == Wrap16(lastN)
      && lastN <= endN <= lastN + size
      && (if started then endN in received else lastN == endN)
    }

    /** Holds in every run whose late packets stay within the window. */
    ghost predicate Exact()
      reads this
    {
      size > 0 &&
      if started then
        && WindowExact(bits, size, endN, endN, received)
        && ConsecutiveTo(lastN, firstN, size, endN, received)
        && NoneAfter(endN, received)
      else
        received == {} && |bits| == size && forall p :: 0 <= p < size ==> !bits[p]
    }

    ghost predicate Valid()
      reads this, packets
    {
      Shape() && (inWindow ==> Exact()) && (!started ==> inWindow)
    }

    constructor (size: int)
      requires IsLogSize(size)
      ensures this.size == size && fresh(packets) && Valid() && !started && inWindow && received == {}
    {
      SizeFacts(size);
      this.size := size;
      packets := new Word64[size / 64](_ => Zeros(64));
      bits := seq(size, _ => false);
      end, started, lastConsecutive := 0, false, 0;
      endN, lastN, firstN, received, inWindow := 0, 0, 0, {}, true;
    }

    method SetReceived(seqNum: Uint16)
      requires IsLogSize(size) && size == 64 * packets.Length && Mirrors(packets[..], bits)
      modifies packets, this`bits
      ensures Mirrors(packets[..], bits) && bits == old(bits)[Pos(seqNum, size) := true]
    {
      hide Pos, IsPow2;
      var pos := Pos(seqNum, size);
      packets[pos / 64] := Or(packets[pos / 64], Shl(One(64), pos % 64));
      bits := bits[pos := true];
    }

    method DelReceived(seqNum: Uint16)
      requires IsLogSize(size) && size == 64 * packets.Length && Mirrors(packets[..], bits)
      modifies packets, this`bits
      ensures Mirrors(packets[..], bits) && bits == old(bits)[Pos(seqNum, size) := false]
    {
      hide Pos, IsPow2;
      var pos := Pos(seqNum, size);
      packets[pos / 64] := AndNot(packets[pos / 64], Shl(One(64), pos % 64));
      bits := bits[pos := false];
    }

    method GetReceived(seqNum: Uint16) returns (r: bool)
      requires IsLogSize(size) && size == 64 * packets.Length && Mirrors(packets[..], bits)
      ensures r == bits[Pos(seqNum, size)]
    {
      hide Pos, IsPow2;
      var pos := Pos(seqNum, size);
      var masked := And(packets[pos / 64], Shl(One(64), pos % 64));
      assert masked[63 - pos % 64] == packets[pos / 64][63 - pos % 64] == bits[pos];
      r := !IsZero(masked);
    }

    /** Moves the last consecutive number up over received ones, but not past the newest. */
    method FixLastConsecutive()
      requires IsLogSize(size) && size == 64 * packets.Length == |bits| && Mirrors(packets[..], bits)
      requires end == Wrap16(endN) && lastConsecutive == Wrap16(lastN) && lastN <= endN <= lastN + size
      modifies this`lastConsecutive, this`lastN
      ensures lastConsecutive == Wrap16(lastN) && old(lastN) <= lastN <= endN
      ensures forall n :: old(lastN) < n <= lastN ==> bits[Pos(n, size)]
      ensures lastN < endN ==> !bits[Pos(lastN + 1, size)]
    {
      hide Pos, Wrap16, IsPow2, Mirrors;
      var i: int := Wrap16(lastConsecutive + 1);
      ghost var n := lastN + 1;
      WrapSum(lastN, 1);
      WrapSum(endN, 1);
      var stop := Wrap16(end + 1);
      while i != stop
        invariant i == Wrap16(n) && old(lastN) < n <= endN + 1
        invariant forall m :: old(lastN) < m < n ==> bits[Pos(m, size)]
        decreases endN + 1 - n
        modifies {}
      {
        WrapInjective(n, endN + 1);
        PosOfWrapped(n, size);
        var got := GetReceived(i);
        if !got {
          break;
        }
        WrapSum(n, 1);
        i := Wrap16(i + 1);
        n := n + 1;
      }
      WrapSum(n, -1);
      WrapInjective(n, endN + 1);
      lastConsecutive := Wrap16(i - 1);
      lastN := n - 1;
    }

    /** Clears the bits of the numbers skipped by a jump ahead to n. */
    method ClearSkipped(seqNum: Uint16, ghost n: int)
      requires Shape() && endN < n < endN + UINT16_HALF && seqNum == Wrap16(n)
      modifies packets, this`bits
      ensures Shape()
      ensures forall m :: endN < m < n ==> !bits[Pos(m, size)]
      ensures forall m :: n - size < m <= endN ==> bits[Pos(m, size)] == old(bits)[Pos(m, size)]
    {
      hide Pos, Wrap16, IsPow2;
      var i: int := Wrap16(end + 1);
      ghost var cur := endN + 1;
      WrapSum(endN, 1);
      while i != seqNum
        invariant Shape() && i == Wrap16(cur) && endN < cur <= n
        invariant forall m :: endN < m < cur ==> !bits[Pos(m, size)]
        invariant forall m :: cur - size <= m <= endN ==> bits[Pos(m, size)] == old(bits)[Pos(m, size)]
        decreases n - cur
      {
        WrapInjective(cur, n);
        PosOfWrapped(cur, size);
        PosDistinct(cur - size, cur, size);
        DelReceived(i);
        WrapSum(cur, 1);
        i := Wrap16(i + 1);
        cur := cur + 1;
      }
      WrapInjective(cur, n);
    }

    /** The first packet starts the log. */
    method AddFirst(seqNum: Uint16)
      requires Shape() && !started
      modifies this, packets
      ensures Shape() && started &&
              (endN, lastN, firstN, received) == (seqNum, seqNum, seqNum, old(received) + {seqNum as int})
      ensures inWindow == old(inWindow) && (old(Exact()) ==> Exact())
    {
      hide Pos, IsPow2;
      SetReceived(seqNum);
      PosDistinct(seqNum - size, seqNum, size);
      WrapIdentity(seqNum);
      end := seqNum;
      started := true;
      lastConsecutive := seqNum;
      endN, lastN, firstN := seqNum, seqNum, seqNum;
      received := received + {seqNum as int};
    }

    /** Keeps the last consecutive number within a ring length of the newest, which is not entered yet. */
    method MoveLastConsecutive(seqNum: Uint16, ghost oldEnd: int)
      requires IsLogSize(size) && size == 64 * packets.Length == |bits| && Mirrors(packets[..], bits)
      requires seqNum == end == Wrap16(endN) && lastConsecutive == Wrap16(lastN)
      requires lastN <= oldEnd <= lastN + size && oldEnd < endN < oldEnd + UINT16_HALF
      modifies this`lastConsecutive, this`lastN
      ensures lastN <= endN <= lastN + size && lastConsecutive == Wrap16(lastN) && old(lastN) <= lastN
      ensures forall m :: Max(old(lastN), endN - size) < m <= lastN && m != endN ==> bits[Pos(m, size)]
      ensures old(lastN) + 1 == endN || endN - old(lastN) > size ==> lastN == endN || !bits[Pos(lastN + 1, size)]
    {
      hide Pos, Wrap16, Sub16, IsPow2, Mirrors;
      ghost var n := endN;
      WrapSum(lastN, 1);
      WrapInjective(lastN + 1, n);
      if Wrap16(lastConsecutive + 1) == seqNum {
        lastConsecutive := seqNum;
        lastN := n;
      } else {
        WrapDifference(n, lastN);
        if Sub16(seqNum, lastConsecutive) > size {
          lastConsecutive := Wrap16(seqNum - size);
          WrapSum(n, -size);
          lastN := n - size;
          FixLastConsecutive();
        }
      }
    }

    /** A newer packet moves the window ahead. */
    method AddNewer(seqNum: Uint16, ghost n: int)
      requires Shape() && started && endN < n < endN + UINT16_HALF && seqNum == Wrap16(n)
      modifies this, packets
      ensures Shape() && started && (endN, firstN, received) == (n, old(firstN), old(received) + {n}) &&
              lastN >= old(lastN)
      ensures inWindow == old(inWindow) && (old(Exact()) ==> Exact())
      ensures old(Exact()) && (n == old(lastN) + 1 || n - old(lastN) > size) ==> CaughtUp(lastN, endN, received)
    {
      hide Pos, Wrap16, IsPow2, Mirrors;
      ghost var oldEnd, oldLast, before := endN, lastN, bits;
      ClearSkipped(seqNum, n);
      ghost var cleared := bits;
      end := seqNum;
      endN := n;
      MoveLastConsecutive(seqNum, oldEnd);
      PosOfWrapped(n, size);
      SetReceived(seqNum);
      if old(Exact()) {
        AdvanceExact(before, cleared, size, oldEnd, n, oldLast, lastN, firstN, received);
      }
      received := received + {n};
    }

    /** A late packet may close the gap after the last consecutive number. */
    method CloseGap(seqNum: Uint16, ghost n: int)
      requires Shape() && endN - UINT16_HALF <= n < endN && seqNum == Wrap16(n)
      modifies this`lastConsecutive, this`lastN
      ensures Shape() && lastN >= old(lastN)
      ensures forall m :: old(lastN) < m <= lastN && m != n ==> bits[Pos(m, size)]
      ensures n == old(lastN) + 1 ==> n <= lastN && (lastN == endN || !bits[Pos(lastN + 1, size)])
    {
      hide Pos, Wrap16, IsPow2, Mirrors;
      WrapSum(lastN, 1);
      WrapInjective(lastN + 1, n);
      if Wrap16(lastConsecutive + 1) == seqNum {
        lastConsecutive := seqNum;
        lastN := n;
        FixLastConsecutive();
      }
    }

    method AddLate(seqNum: Uint16, ghost n: int)
      requires Shape() && started && endN - UINT16_HALF <= n < endN && seqNum == Wrap16(n)
      modifies this, packets
      ensures Shape() && started && (endN, firstN, received) == (old(endN), old(firstN), old(received) + {n}) &&
              lastN >= old(lastN)
      ensures inWindow == (old(inWindow) && endN - size < n) && (old(Exact()) && endN - size < n ==> Exact())
      ensures old(Exact()) && endN - size < n == old(lastN) + 1 ==> CaughtUp(lastN, endN, received)
    {
      hide Pos, Wrap16, IsPow2, Mirrors;
      ghost var before := bits;
      CloseGap(seqNum, n);
      PosOfWrapped(n, size);
      SetReceived(seqNum);
      if old(Exact()) && endN - size < n {
        SetLate(before, size, endN, received, n);
      }
      received := received + {n};
      inWindow := inWindow && endN - size < n;
    }

    /**
     Adds a number. In every run the last consecutive number stays within a ring length of the newest; and as
     long as no late packet is a ring length or more behind, the log is exact.
     */
    method Add(seqNum: Uint16)
      requires Valid()
      modifies this, packets
      ensures Valid() && started
      ensures var n := if old(started) then Nearest(old(endN), seqNum) else seqNum;
              && received == old(received) + {n} && endN == (if old(started) then Max(old(endN), n) else n)
              && firstN == (if old(started) then old(firstN) else n)
              && inWindow == (old(inWindow) && (!old(started) || old(endN) - size < n))
              && (inWindow && old(started) && n == old(lastN) + 1 ==> CaughtUp(lastN, endN, received))
    {
      hide Nearest, Exact, Mirrors, IsPow2, Sub16;
      if !started {
        AddFirst(seqNum);
        return;
      }
      ghost var n := Nearest(endN, seqNum);
      NearestByDifference(endN, seqNum);
      var diff := Sub16(seqNum, end);
      if diff == 0 {
        assert received + {n} == received;
        return;
      }
      if diff < UINT16_HALF {
        AddNewer(seqNum, n);
      } else {
        AddLate(seqNum, n);
      }
    }

    /** Whether a number is in the window and was received. */
    method Get(seqNum: Uint16) returns (r: bool)
      requires Valid()
      ensures inWindow ==>
                var n := if Sub16(end, seqNum) < UINT16_HALF then endN - Sub16(end, seqNum) else endN + 1;
                r == (endN - size < n <= endN && n in received)
    {
      hide Pos, IsPow2, Mirrors;
      var diff := Sub16(end, seqNum);
      if diff >= UINT16_HALF {
        return false;
      }
      if diff >= size {
        return false;
      }
      PosOfWrapped(endN - diff, size);
      BackFrom(endN, seqNum);
      r := GetReceived(seqNum);
    }

    /** Scans the bits after the last consecutive number; None if they do not fit the buffer. */
    method Scan(until: Uint16, ghost untilN: int, missing: array<Uint16>) returns (c: Option<nat>)
      requires Shape()
      requires until == Wrap16(untilN) && lastN <= untilN < lastN + UINT16_HALF
      modifies missing
      ensures var unset := UnsetBetween(bits, size, lastN + 1, untilN);
              && (c.Some? <==> |unset| <= missing.Length)
              && (c.Some? ==> c.value <= missing.Length && missing[..c.value] == WrapEach(unset))
    {
      hide Pos, Wrap16, IsPow2, Mirrors, UnsetBetween, WrapEach;
      var count := 0;
      var i: int := Wrap16(lastConsecutive + 1);
      var stop := Wrap16(until as int + 1);
      ghost var n := lastN + 1;
      WrapSum(lastN, 1);
      WrapSum(untilN, 1);
      UnsetNothing(bits, size, lastN + 1);
      while i != stop
        invariant i == Wrap16(n) && lastN < n <= untilN + 1 && count <= missing.Length
        invariant missing[..count] == WrapEach(UnsetBetween(bits, size, lastN + 1, n - 1))
        decreases untilN + 1 - n
      {
        WrapInjective(n, untilN + 1);
        PosOfWrapped(n, size);
        var got := GetReceived(i);
        UnsetNext(bits, size, lastN + 1, n);
        if !got {
          if count == missing.Length {
            UnsetGrows(bits, size, lastN + 1, n, untilN);
            return None;
          }
          missing[count] := i;
          count := count + 1;
        }
        WrapSum(n, 1);
        i := Wrap16(i + 1);
        n := n + 1;
      }
      WrapInjective(n, untilN + 1);
      return Some(count);
    }

    /**
     The missing numbers up to the newest but `skipLastN`, in order; None stands for an index out of the caller's
     buffer. A skip that leaves the range to scan less than half the number space long, either way, gives the
     exact list, which never overflows a buffer of `size` entries. A range of exactly half, which needs a ring
     of 32768, gives an empty list; and a skip of more than half beyond the last consecutive number makes the code
     take the end of the range for one 65536 higher, so that it lists numbers that are not due.
     */
    method MissingSeqNumbers(skipLastN: Uint16, missing: array<Uint16>) returns (result: Option<seq<Uint16>>)
      requires Valid() && missing.Length >= size
      modifies missing
      ensures var span := endN - skipLastN - lastN;
              && (span == UINT16_HALF ==> size == 0x8000 && result == Some([]))
              && (-UINT16_HALF <= span < UINT16_HALF ==> result.Some? && |result.value| <= size)
              && (-UINT16_HALF <= span < UINT16_HALF && inWindow ==>
                    result == Some(if started then
                                     WrapEach(MissingBetween(received, Max(firstN, endN - size + 1), endN - skipLastN))
                                   else []))
              && (span < -UINT16_HALF ==>
                    var listed := UnsetBetween(bits, size, lastN + 1, endN - skipLastN + UINT16_SIZE);
                    result == if |listed| <= missing.Length then Some(WrapEach(listed)) else None)
    {
      hide Wrap16, Sub16, IsPow2, Mirrors, MissingBetween, UnsetBetween, WindowExact;
      var skip: int := skipLastN;
      var until := Wrap16(end - skip);
      ghost var untilN := endN - skip;
      WrapSum(endN, -skip);
      ScanLength(untilN, lastN);
      if Sub16(until, lastConsecutive) >= UINT16_HALF {
        if inWindow && untilN < lastN {
          EmptyBefore(untilN);
        }
        return Some([]);
      }
      if untilN < lastN {
        WrapPeriod(untilN);
      }
      var c := Scan(until, if untilN < lastN then untilN + UINT16_SIZE else untilN, missing);
      if c.None? {
        return None;
      }
      if inWindow && lastN <= untilN {
        ScannedExactly(untilN);
      }
      return Some(missing[..c.value]);
    }

    /** Nothing is missing below the last consecutive number. */
    lemma EmptyBefore(untilN: int)
      requires Valid() && inWindow && untilN < lastN
      ensures started ==> WrapEach(MissingBetween(received, Max(firstN, endN - size + 1), untilN)) == []
    {
      hide Wrap16, IsPow2, Mirrors, MissingBetween, WindowExact;
      if started {
        NothingMissing(received, Max(firstN, endN - size + 1), lastN, untilN);
        WrapNothing();
      }
    }

    /** What the scan lists is what is missing from the start of the window or of the run. */
    lemma ScannedExactly(untilN: int)
      requires Valid() && inWindow && lastN <= untilN <= endN
      ensures started ==> UnsetBetween(bits, size, lastN + 1, untilN) ==
                          MissingBetween(received, Max(firstN, endN - size + 1), untilN)
      ensures !started ==> UnsetBetween(bits, size, lastN + 1, untilN) == []
    {
      hide Wrap16, IsPow2, Mirrors, MissingBetween, UnsetBetween, WindowExact;
      if started {
        MissingSkips(received, Max(firstN, endN - size + 1), lastN + 1, untilN);
        UnsetIsMissing(bits, size, endN, received, lastN + 1, untilN);
      } else {
        UnsetNothing(bits, size, lastN + 1);
      }
    }
  }

  lemma UnsetNothing(bits: seq<bool>, size: int, lo: int)
    requires 0 < size == |bits|
    ensures UnsetBetween(bits, size, lo, lo - 1) == [] && WrapEach([]) == []
  {
  }

  lemma UnsetNext(bits: seq<bool>, size: int, lo: int, n: int)
    requires 0 < size == |bits| && lo <= n
    ensures WrapEach(UnsetBetween(bits, size, lo, n)) ==
            WrapEach(UnsetBetween(bits, size, lo, n - 1)) + (if bits[Pos(n, size)] then [] else [Wrap16(n)])
  {
    hide Wrap16, Pos;
  }

  lemma {:induction false} UnsetGrows(bits: seq<bool>, size: int, lo: int, n: int, hi: int)
    requires 0 < size == |bits| && lo <= n <= hi
    ensures |UnsetBetween(bits, size, lo, n)| <= |UnsetBetween(bits, size, lo, hi)|
    decreases hi - n
  {
    if n < hi {
      UnsetGrows(bits, size, lo, n, hi - 1);
    }
  }

  method NewReceiveLog(size: Uint16) returns (r: Option<ReceiveLog>)
    ensures r.Some? <==> IsLogSize(size)
    ensures r.Some? ==> fresh(r.value) && r.value.Valid() && r.value.size == size
    ensures r.Some? ==> !r.value.started && r.value.inWindow
  {
    assert IsPow2(64);
    var correctSize := IsAllowedSize(size, 64);
    if !correctSize {
      return None;
    }
    var log := new ReceiveLog(size);
    return Some(log);
  }

  /** Which ranges the half-range test takes for ranges to scan. */
  lemma ScanLength(until: int, last: int)
    requires -UINT16_SIZE < until - last <= UINT16_HALF
    ensures Sub16(Wrap16(until), Wrap16(last)) < UINT16_HALF <==>
            0 <= until - last < UINT16_HALF || until - last < -UINT16_HALF
  {
    hide Sub16, Wrap16;
    if until >= last {
      WrapDifference(until, last);
    } else {
      WrapDifference(until + UINT16_SIZE, last);
      WrapPeriod(until);
    }
  }

  lemma {:induction false} NothingMissing(received: set<int>, lo: int, last: int, hi: int)
    requires hi <= last && forall n :: lo <= n <= last ==> n in received
    ensures MissingBetween(received, lo, hi) == []
    decreases hi - lo + 1
  {
    if hi >= lo {
      NothingMissing(received, lo, last, hi - 1);
    }
  }

  /** A jump ahead keeps the log exact. */
  lemma AdvanceExact(before: seq<bool>, cleared: seq<bool>, size: int, oldEnd: int, n: int, oldLast: int, last: int,
                     first: int, received: set<int>)
    requires size > 0 && oldEnd < n && |cleared| == size && oldLast <= last <= n
    requires WindowExact(before, size, oldEnd, oldEnd, received) && NoneAfter(oldEnd, received)
    requires ConsecutiveTo(oldLast, first, size, oldEnd, received)
    requires forall m :: oldEnd < m < n ==> !cleared[Pos(m, size)]
    requires forall m :: n - size < m <= oldEnd ==> cleared[Pos(m, size)] == before[Pos(m, size)]
    requires forall m :: Max(oldLast, n - size) < m <= last && m != n ==> cleared[Pos(m, size)]
    ensures WindowExact(cleared[Pos(n, size) := true], size, n, n, received + {n})
    ensures ConsecutiveTo(last, first, size, n, received + {n}) && NoneAfter(n, received + {n})
  {
    hide Pos;
    assert WindowExact(cleared, size, n, n - 1, received);
    SetNewest(cleared, size, n, received);
  }
}
