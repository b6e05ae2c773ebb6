/**
 The buffer of sent packets kept for retransmission (internal/rtpbuffer): a ring of reference-counted
 packets, shared with readers that release what they got.
 */
module RtpBuffers {
  import opened Words
  import opened SequenceWindows

  class RetainablePacket {
    const sequenceNumber: Uint16
    var count: int
    /** How often the packet was handed back to the pool. */
    ghost var released: nat

    constructor (sequenceNumber: Uint16)
      ensures this.sequenceNumber == sequenceNumber && count == 1 && released == 0
    {
      this.sequenceNumber, count, released := sequenceNumber, 1, 0;
    }

    method Retain() returns (ok: bool)
      modifies this`count
      ensures ok == (old(count) != 0) && count == if ok then old(count) + 1 else old(count)
    {
      if count == 0 {
        return false;
      }
      count := count + 1;
      return true;
    }

    method Release()
      modifies this`count, this`released
      ensures count == old(count) - 1 && released == old(released) + if count == 0 then 1 else 0
    {
      count := count - 1;
      if count == 0 {
        released := released + 1;
      }
    }
  }

  predicate IsBufferSize(size: int) {
    0 < size <= 0x8000 && IsPow2(size)
  }

  class RtpBuffer {
    const packets: array<RetainablePacket?>
    const size: int
    var highestAdded: Uint16
    var started: bool
    /** Every packet given to the buffer, those in the ring, and those it dropped without releasing. */
    ghost var known: set<RetainablePacket>
    ghost var stored: set<RetainablePacket>
    ghost var dropped: multiset<RetainablePacket>
    /** How many references to each packet are held outside the buffer, by its readers and by those who may add it. */
    ghost var readers: map<RetainablePacket, nat>
    /** The true value of `highestAdded`, and the last packet accepted for each true number. */
    ghost var highestN: int
    ghost var latest: map<int, RetainablePacket>
    /** No late packet was a ring length or more behind the newest. */
    ghost var inWindow: bool

    /** The ring holds the stored packets, each in the slot of its number. */
    ghost predicate RingShape()
      reads this`stored, packets
    {
      && IsBufferSize(size) && packets.Length == size
      && (forall i :: 0 <= i < size && packets[i] != null ==>
           packets[i] in stored && Pos(packets[i].sequenceNumber, size) == i)
      && (forall p :: p in stored ==> packets[Pos(p.sequenceNumber, size)] == p)
    }

    /** Every reference is accounted for, and a packet was handed back exactly when its last reference is gone. */
    ghost predicate Counted(p: RetainablePacket)
      reads this`readers, this`stored, this`dropped, p
    {
      && p in readers
      && p.count == readers[p] + (if p in stored then 1 else 0) + dropped[p]
      && p.released == if p.count == 0 then 1 else 0
    }

    /** Every reference to a packet the buffer was given is accounted for. */
    ghost predicate Accounts()
      reads this`known, this`stored, this`dropped, this`readers, known
    {
      && stored <= known && (forall p :: p in dropped ==> p in known)
      && readers.Keys == known && (forall p :: p in known ==> Counted(p))
    }

    ghost predicate Valid()
      reads this, packets, known
    {
      && RingShape() && Accounts()
      && (started ==> highestAdded == Wrap16(highestN))
      && (!started ==> stored == {} && latest == map[])
      && (inWindow && started ==> RingExact(packets[..], size, highestN, latest))
    }

    constructor (size: int)
      requires IsBufferSize(size)
      ensures Valid() && this.size == size && fresh(packets) && known == {} && !started && inWindow
    {
      this.size := size;
      packets := new RetainablePacket?[size](_ => null);
      highestAdded, started := 0, false;
      known, stored, dropped, readers := {}, {}, multiset{}, map[];
      highestN, latest, inWindow := 0, map[], true;
    }

    /** Takes a packet out of the ring, if there is one in the slot. */
    method Evict(idx: int)
      requires RingShape() && 0 <= idx < size && Accounts()
      modifies this`stored, packets, known
      ensures RingShape() && packets[idx] == null
      ensures forall i :: 0 <= i < size && i != idx ==> packets[i] == old(packets[i])
      ensures stored <= old(stored) && Accounts()
    {
      var prev := packets[idx];
      if prev != null {
        prev.Release();
        stored := stored - {prev};
      }
      packets[idx] := null;
    }

    /** Empties the slots of the numbers skipped by a jump ahead to n. */
    method EvictSkipped(seqNum: Uint16, ghost n: int)
      requires RingShape() && Accounts()
      requires highestAdded == Wrap16(highestN) && highestN < n < highestN + UINT16_HALF && seqNum == Wrap16(n)
      modifies this`stored, packets, known
      ensures RingShape() && stored <= old(stored) && Accounts()
      ensures forall m :: highestN < m < n ==> packets[Pos(m, size)] == null
      ensures forall m :: n - size < m <= highestN ==> packets[Pos(m, size)] == old(packets[Pos(m, size)])
    {
      hide Pos, Wrap16, IsPow2, RtpBuffer.Accounts;
      var i: int := Wrap16(highestAdded + 1);
      ghost var cur := highestN + 1;
      WrapSum(highestN, 1);
      while i != seqNum
        invariant RingShape() && stored <= old(stored) && Accounts()
        invariant i == Wrap16(cur) && highestN < cur <= n
        invariant forall m :: highestN < m < cur ==> packets[Pos(m, size)] == null
        invariant forall m :: cur - size <= m <= highestN ==> packets[Pos(m, size)] == old(packets[Pos(m, size)])
        decreases n - cur
      {
        WrapInjective(cur, n);
        PosOfWrapped(cur, size);
        PosDistinct(cur - size, cur, size);
        Evict(Pos(i, size));
        WrapSum(cur, 1);
        i := Wrap16(i + 1);
        cur := cur + 1;
      }
      WrapInjective(cur, n);
    }

    /** A reference held outside becomes that of the ring. */
    ghost method TakeOver(packet: RetainablePacket)
      requires Accounts() && packet in known && packet in readers && readers[packet] > 0 && packet !in stored
      modifies this`stored, this`readers
      ensures Accounts() && stored == old(stored) + {packet}
      ensures readers == old(readers)[packet := old(readers)[packet] - 1]
    {
      stored := stored + {packet};
      readers := readers[packet := readers[packet] - 1];
    }

    /** Puts a packet into its slot, in place of what was there, and takes over one reference to it. */
    method Store(packet: RetainablePacket)
      requires RingShape() && Accounts() && packet in known && packet in readers && readers[packet] > 0
      modifies this`stored, this`readers, packets, known
      ensures RingShape() && Accounts() && packet in stored
      ensures readers == old(readers)[packet := old(readers)[packet] - 1]
      ensures packets[..] == old(packets[..])[Pos(packet.sequenceNumber, size) := packet]
    {
      hide Pos, IsPow2, RtpBuffer.Accounts;
      var idx := Pos(packet.sequenceNumber, size);
      Evict(idx);
      packets[idx] := packet;
      TakeOver(packet);
    }

    /** The references to a packet that are held outside the buffer. */
    ghost function Owned(packet: RetainablePacket): int
      reads this`readers, packet
    {
      if packet in readers then readers[packet] else packet.count
    }

    /** A packet that is new to the buffer brings its references along. */
    ghost method Adopt(packet: RetainablePacket)
      requires Valid() && Owned(packet) > 0 && (packet !in known ==> packet.released == 0)
      modifies this`known, this`readers
      ensures Valid() && known == old(known) + {packet} && readers == old(readers)[packet := old(Owned(packet))]
    {
      hide RtpBuffer.RingShape, RtpBuffer.Accounts, RingExact, Wrap16;
      Account(packet);
    }

    ghost method Account(packet: RetainablePacket)
      requires Accounts() && Owned(packet) > 0 && (packet !in known ==> packet.released == 0)
      modifies this`known, this`readers
      ensures Accounts() && known == old(known) + {packet} && readers == old(readers)[packet := old(Owned(packet))]
    {
      readers := readers[packet := Owned(packet)];
      known := known + {packet};
    }

    /**
     Gives a packet to the buffer, which takes over one of the references held outside: that of a new packet, or one
     of a packet the buffer has seen before. The packet replaces what was in its slot; a jump ahead empties the slots
     in between. A packet with the number of the newest one is dropped, and its reference is lost.
     */
    method Add(packet: RetainablePacket)
      requires Valid() && Owned(packet) > 0 && (packet !in known ==> packet.released == 0)
      modifies this, packets, known, packet
      ensures Valid() && started && known == old(known) + {packet}
      ensures readers == old(readers)[packet := old(Owned(packet)) - 1]
      ensures var n := if old(started) then Nearest(old(highestN), packet.sequenceNumber) else packet.sequenceNumber;
              var accepted := !old(started) || n != old(highestN);
              && highestN == (if old(started) then Max(old(highestN), n) else n)
              && inWindow == (old(inWindow) && (!old(started) || old(highestN) - size < n))
              && (if accepted then packet in stored && latest == old(latest)[n := packet] && dropped == old(dropped)
                  else latest == old(latest) && stored == old(stored) && dropped == old(dropped) + multiset{packet})
    {
      hide RtpBuffer.Valid;
      Adopt(packet);
      AddAdopted(packet);
    }

    method AddAdopted(packet: RetainablePacket)
      requires Valid() && packet in known && packet in readers && readers[packet] > 0
      modifies this, packets, known
      ensures Valid() && started && known == old(known)
      ensures readers == old(readers)[packet := old(readers)[packet] - 1]
      ensures var n := if old(started) then Nearest(old(highestN), packet.sequenceNumber) else packet.sequenceNumber;
              var accepted := !old(started) || n != old(highestN);
              && highestN == (if old(started) then Max(old(highestN), n) else n)
              && inWindow == (old(inWindow) && (!old(started) || old(highestN) - size < n))
              && (if accepted then packet in stored && latest == old(latest)[n := packet] && dropped == old(dropped)
                  else latest == old(latest) && stored == old(stored) && dropped == old(dropped) + multiset{packet})
    {
      hide Pos, IsPow2, RtpBuffer.Accounts, RingExact;
      var seqNum := packet.sequenceNumber;
      if !started {
        AddFirst(packet);
        return;
      }
      ghost var n := Nearest(highestN, seqNum);
      NearestByDifference(highestN, seqNum);
      var diff := Sub16(seqNum, highestAdded);
      if diff == 0 {
        Drop(packet);
      } else {
        AddOther(packet, diff, n);
      }
    }

    method AddFirst(packet: RetainablePacket)
      requires Valid() && !started && packet in known && packet in readers && readers[packet] > 0
      modifies this`stored, this`readers, this`highestAdded, this`started, this`highestN, this`latest, packets, known
      ensures Valid() && started && readers == old(readers)[packet := old(readers)[packet] - 1]
      ensures highestN == packet.sequenceNumber
      ensures packet in stored && latest == map[packet.sequenceNumber as int := packet]
    {
      hide Pos, IsPow2, RtpBuffer.Accounts;
      Store(packet);
      WrapIdentity(packet.sequenceNumber);
      highestAdded := packet.sequenceNumber;
      started := true;
      highestN := packet.sequenceNumber;
      latest := map[packet.sequenceNumber as int := packet];
      PosDistinct(highestN - size, highestN, size);
    }

    method Drop(packet: RetainablePacket)
      requires Valid() && packet in known && packet in readers && readers[packet] > 0
      modifies this`readers, this`dropped
      ensures Valid() && readers == old(readers)[packet := old(readers)[packet] - 1]
      ensures dropped == old(dropped) + multiset{packet}
    {
      hide RtpBuffer.RingShape, RtpBuffer.Accounts, RingExact, Wrap16;
      Lose(packet);
    }

    /** A reference that nobody will give back. */
    ghost method Lose(packet: RetainablePacket)
      requires Accounts() && packet in known && packet in readers && readers[packet] > 0
      modifies this`readers, this`dropped
      ensures Accounts() && readers == old(readers)[packet := old(readers)[packet] - 1]
      ensures dropped == old(dropped) + multiset{packet}
    {
      readers := readers[packet := readers[packet] - 1];
      dropped := dropped + multiset{packet};
    }

    /** A packet ahead of the newest empties the slots in between; a late one changes nothing yet. */
    method MakeRoom(packet: RetainablePacket, diff: Uint16, ghost n: int)
      requires RingShape() && Accounts()
      requires highestAdded == Wrap16(highestN) && diff != 0 && packet.sequenceNumber == Wrap16(n)
      requires n == if diff < UINT16_HALF then highestN + diff else highestN + diff - UINT16_SIZE
      modifies this`stored, this`highestAdded, this`highestN, packets, known
      ensures RingShape() && stored <= old(stored) && Accounts()
      ensures highestAdded == Wrap16(highestN) && highestN == Max(old(highestN), n)
      ensures forall m :: old(highestN) < m < n ==> packets[Pos(m, size)] == null
      ensures forall m :: highestN - size < m <= old(highestN) ==> packets[Pos(m, size)] == old(packets[Pos(m, size)])
    {
      hide Pos, Wrap16, IsPow2, RtpBuffer.Accounts;
      if diff < UINT16_HALF {
        EvictSkipped(packet.sequenceNumber, n);
        highestAdded := packet.sequenceNumber;
        highestN := n;
      }
    }

    method AddOther(packet: RetainablePacket, diff: Uint16, ghost n: int)
      requires Valid() && started && packet in known && packet in readers && readers[packet] > 0
      requires diff == Sub16(packet.sequenceNumber, highestAdded) && diff != 0 && packet.sequenceNumber == Wrap16(n)
      requires n == if diff < UINT16_HALF then highestN + diff else highestN + diff - UINT16_SIZE
      modifies this`stored, this`readers, this`highestAdded, this`highestN, this`latest, this`inWindow, packets, known
      ensures Valid() && readers == old(readers)[packet := old(readers)[packet] - 1]
      ensures highestN == Max(old(highestN), n) && inWindow == (old(inWindow) && old(highestN) - size < n)
      ensures packet in stored && latest == old(latest)[n := packet]
    {
      hide Pos, Wrap16, Sub16, IsPow2, RtpBuffer.Accounts, RingExact;
      ghost var before, oldHighest := packets[..], highestN;
      MakeRoom(packet, diff, n);
      ghost var evicted := packets[..];
      PosOfWrapped(n, size);
      Store(packet);
      if inWindow && oldHighest - size < n {
        ExactAfterAdd(before, evicted, size, oldHighest, n, latest, packet);
      }
      inWindow := inWindow && oldHighest - size < n;
      latest := latest[n := packet];
    }

    /** A packet of the ring always has a reference, so retaining it never fails. */
    method Lend(pkt: RetainablePacket) returns (ok: bool)
      requires Accounts() && pkt in stored && pkt in readers
      modifies this`readers, pkt`count
      ensures Accounts() && ok && pkt.released == 0
      ensures readers == old(readers)[pkt := old(readers)[pkt] + 1]
    {
      ok := pkt.Retain();
      readers := readers[pkt := readers[pkt] + 1];
    }

    /** Hands out the packet with this number, with a reference of its own. */
    method Get(seqNum: Uint16) returns (pkt: RetainablePacket?)
      requires Valid()
      modifies this`readers, known
      ensures Valid()
      ensures pkt == null ==> readers == old(readers)
      ensures pkt != null ==> && pkt in stored && pkt.sequenceNumber == seqNum && pkt.released == 0
                              && pkt in old(readers) && readers == old(readers)[pkt := old(readers)[pkt] + 1]
      ensures inWindow && started ==>
                var diff := Sub16(highestAdded, seqNum);
                var n := if diff < UINT16_HALF then highestN - diff else highestN + 1;
                pkt == if highestN - size < n && n in latest then latest[n] else null
    {
      hide Pos, IsPow2, Wrap16, RtpBuffer.Accounts;
      var diff := Sub16(highestAdded, seqNum);
      if diff >= UINT16_HALF {
        return null;
      }
      if diff >= size {
        return null;
      }
      PosOfWrapped(highestN - diff, size);
      BackFrom(highestN, seqNum);
      pkt := packets[Pos(seqNum, size)];
      if pkt != null {
        if pkt.sequenceNumber != seqNum {
          return null;
        }
        StoredIsKnown(pkt);
        var ok := Lend(pkt);
        if !ok {
          assert false;
        }
      }
    }

    lemma StoredIsKnown(p: RetainablePacket)
      requires Accounts() && p in stored
      ensures p in known && p in readers
    {
    }

    /** A reader gives back one reference. */
    method ReleaseByReader(p: RetainablePacket)
      requires Valid() && p in known && p in readers && readers[p] > 0
      modifies this`readers, p`count, p`released
      ensures Valid() && readers == old(readers)[p := old(readers)[p] - 1]
    {
      hide Pos, IsPow2, RingExact, Wrap16, RtpBuffer.Accounts;
      GiveBack(p);
    }

    method GiveBack(p: RetainablePacket)
      requires Accounts() && p in known && p in readers && readers[p] > 0
      modifies this`readers, p`count, p`released
      ensures Accounts() && readers == old(readers)[p := old(readers)[p] - 1]
    {
      p.Release();
      readers := readers[p := readers[p] - 1];
    }

    /**
     What holds at any time: a packet in the ring or held by a reader was not handed back to the pool and can
     be retained; and no packet is handed back twice.
     */
    lemma NeverReleasedWhileHeld(p: RetainablePacket)
      requires Valid() && p in known
      ensures p in stored || readers[p] > 0 ==> p.released == 0 && p.count >= 1
      ensures p.released <= 1
      ensures p.released == 1 <==> p !in stored && p !in dropped && readers[p] == 0
    {
    }
  }

  method NewRtpBuffer(size: Uint16) returns (r: Option<RtpBuffer>)
    ensures r.Some? <==> IsBufferSize(size)
    ensures r.Some? ==> fresh(r.value) && r.value.Valid() && r.value.size == size && r.value.known == {}
  {
    var correctSize := IsAllowedSize(size, 1);
    if !correctSize {
      return None;
    }
    var buffer := new RtpBuffer(size);
    return Some(buffer);
  }

  lemma ExactAfterAdd(before: seq<RetainablePacket?>, evicted: seq<RetainablePacket?>, size: int, highest: int, n: int,
                      latest: map<int, RetainablePacket>, packet: RetainablePacket)
    requires size > 0 && RingExact(before, size, highest, latest) && |evicted| == size && highest - size < n &&
             n != highest
    requires packet.sequenceNumber == Wrap16(n)
    requires forall m :: highest < m < n ==> evicted[Pos(m, size)] == null
    requires forall m :: Max(highest, n) - size < m <= highest && (n < highest || m != n) ==>
             evicted[Pos(m, size)] == before[Pos(m, size)]
    ensures RingExact(evicted[Pos(n, size) := packet], size, Max(highest, n), latest[n := packet])
  {
    hide Pos, Wrap16;
    PosDistinct(Max(highest, n) - size, Max(highest, n), size);
  }

  /** Over the window the ring holds, for each number, the last packet accepted for it. */
  ghost predicate RingExact(ring: seq<RetainablePacket?>, size: int, highest: int, latest: map<int, RetainablePacket>)
    requires size > 0
  {
    && |ring| == size
    && (forall n :: n in latest ==> n <= highest && latest[n].sequenceNumber == Wrap16(n))
    && forall n :: highest - size < n <= highest ==> ring[Pos(n, size)] == if n in latest then latest[n] else null
  }
}
