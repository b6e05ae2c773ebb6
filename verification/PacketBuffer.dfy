/**
 The video packet buffer (pkg/videoframe/packet_buffer.go): a ring of packets whose size is a power of two. Every
 operation on the ring is the operation of the same name on the map of held packets.
 */
module PacketBuffers {
  import opened Words
  import opened FrameAssembly
  import opened SequenceWindows

  /** The remainder as the source language takes it, made non-negative. */
  function SeqNumToIndex(seqNum: int, size: int): (index: int)
    requires size > 0
    ensures index == Pos(seqNum, size) && 0 <= index < size
  {
    var idx := seqNum - TruncatedQuotient(seqNum, size) * size;
    RemainderMadePositive(seqNum, size);
    if idx < 0 then idx + size else idx
  }

  lemma RemainderMadePositive(n: int, m: int)
    requires m > 0
    ensures var r := n - TruncatedQuotient(n, m) * m; n % m == if r < 0 then r + m else r
  {
    var q := TruncatedQuotient(n, m);
    if n < 0 {
      var k := (-n) / m;
      assert -n == k * m + (-n) % m;
      assert q == -k && q * m == -(k * m);
      var r := n - q * m;
      assert r == -((-n) % m);
      if r < 0 {
        assert (q - 1) * m == q * m - m;
        RemainderIs(n, q - 1, r + m, m);
      } else {
        RemainderIs(n, q, r, m);
      }
    }
  }

  /** The slot of number `n` holds the packet with that number. */
  predicate At(ring: seq<Option<BufferedPacket>>, n: int)
    requires |ring| > 0
  {
    var slot := ring[SeqNumToIndex(n, |ring|)];
    slot.Some? && slot.value.number == n
  }

  /** The ring holds exactly these packets, each in its slot. */
  ghost predicate Represents(ring: seq<Option<BufferedPacket>>, held: Held) {
    && |ring| > 0
    && (forall n :: n in held <==> At(ring, n))
    && (forall n :: n in held ==> held[n] == ring[SeqNumToIndex(n, |ring|)].value)
    && (forall i :: 0 <= i < |ring| && ring[i].Some? ==> SeqNumToIndex(ring[i].value.number, |ring|) == i)
  }

  lemma RepresentsKeyed(ring: seq<Option<BufferedPacket>>, held: Held)
    requires Represents(ring, held)
    ensures Keyed(held)
  {
    hide SeqNumToIndex;
  }

  lemma RepresentsPut(ring: seq<Option<BufferedPacket>>, held: Held, p: BufferedPacket)
    requires Represents(ring, held)
    ensures Represents(ring[SeqNumToIndex(p.number, |ring|) := Some(p.(continuous := false))], Stored(held, p, |ring|))
  {
    hide SeqNumToIndex, Pos, Stored;
    var i := SeqNumToIndex(p.number, |ring|);
    var after := ring[i := Some(p.(continuous := false))];
    forall n ensures At(after, n) <==> n == p.number || (At(ring, n) && SeqNumToIndex(n, |ring|) != i) {
    }
  }

  lemma RepresentsMark(ring: seq<Option<BufferedPacket>>, held: Held, n: int)
    requires Represents(ring, held) && n in held
    ensures Represents(ring[SeqNumToIndex(n, |ring|) := Some(held[n].(continuous := true))], Marked(held, n))
  {
    hide SeqNumToIndex, Pos;
    var i := SeqNumToIndex(n, |ring|);
    var after := ring[i := Some(held[n].(continuous := true))];
    forall m ensures At(after, m) <==> At(ring, m) {
    }
  }

  lemma RepresentsClear(ring: seq<Option<BufferedPacket>>, held: Held, start: int, n: int)
    requires Represents(ring, Without(held, start, n - 1)) && n in held && start <= n
    ensures Represents(ring[SeqNumToIndex(n, |ring|) := None], Without(held, start, n))
  {
    hide SeqNumToIndex, Pos, Without;
    var i := SeqNumToIndex(n, |ring|);
    var after := ring[i := None];
    assert n in Without(held, start, n - 1);
    forall m ensures At(after, m) <==> At(ring, m) && m != n {
    }
  }

  /** Numbers a whole round apart share a slot, so a frame is never longer than the ring. */
  lemma OneRoundApart(ring: seq<Option<BufferedPacket>>, held: Held, end: int)
    requires Represents(ring, held)
    ensures forall s :: IsFrame(held, s, end) ==> s > end - |ring|
  {
    var m := |ring|;
    AddModulus(end - m, 1, m);
    assert !(At(ring, end) && At(ring, end - m));
  }

  lemma ScanNone(held: Held, low: int)
    ensures Scan(held, low, 0) == Outcome(held, [])
  {
  }

  lemma ScanNext(held: Held, low: int, k: nat)
    ensures var before := Scan(held, low, k);
            var step := ScanAt(before.held, low + k);
            Scan(held, low, k + 1) == Outcome(step.held, before.frames + step.frames)
  {
    hide ScanAt;
  }

  class VideoPacketBuffer {
    const size: int
    const buffer: array<Option<BufferedPacket>>
    ghost var held: Held

    ghost predicate Valid()
      reads this, buffer
    {
      0 < size == buffer.Length && Represents(buffer[..], held)
    }

    constructor (size: int)
      requires IsPow2(size) && 64 <= size <= 2048
      ensures Valid() && fresh(buffer) && this.size == size && held == map[]
    {
      this.size := size;
      buffer := new Option<BufferedPacket>[size](_ => None);
      held := map[];
    }

    method PotentialNewFrame(seqNum: int) returns (r: bool)
      requires Valid()
      ensures r <==> Potential(held, seqNum)
    {
      hide SeqNumToIndex;
      ghost var ring := buffer[..];
      var slot := buffer[SeqNumToIndex(seqNum, size)];
      assert At(ring, seqNum) <==> slot.Some? && slot.value.number == seqNum;
      if slot.None? {
        return false;
      }
      var pkt := slot.value;
      if pkt.number != seqNum {
        return false;
      }
      if pkt.isFirst {
        return true;
      }
      var prev := buffer[SeqNumToIndex(seqNum - 1, size)];
      assert At(ring, seqNum - 1) <==> prev.Some? && prev.value.number == seqNum - 1;
      if prev.None? {
        return false;
      }
      if prev.value.number != seqNum - 1 {
        return false;
      }
      if prev.value.timestamp != pkt.timestamp {
        return false;
      }
      return prev.value.continuous;
    }

    /** Walks back from the end of a frame to its first packet; without one there is no frame. */
    method FindStart(endSeqNum: int) returns (start: Option<int>)
      requires Valid()
      ensures start.Some? ==> start.value <= endSeqNum && start.value in held && held[start.value].isFirst
      ensures start.Some? ==> forall n :: start.value < n <= endSeqNum && n in held ==> !held[n].isFirst
      ensures start.None? ==> forall s :: !IsFrame(held, s, endSeqNum)
    {
      hide SeqNumToIndex;
      ghost var ring := buffer[..];
      var startSeqNum := endSeqNum;
      while true
        invariant endSeqNum - size <= startSeqNum <= endSeqNum
        invariant forall n :: startSeqNum < n <= endSeqNum && n in held ==> !held[n].isFirst
        decreases startSeqNum - endSeqNum + size
      {
        var slot := buffer[SeqNumToIndex(startSeqNum, size)];
        assert At(ring, startSeqNum) <==> slot.Some? && slot.value.number == startSeqNum;
        if slot.None? || slot.value.number != startSeqNum {
          return None;
        }
        if slot.value.isFirst {
          return Some(startSeqNum);
        }
        startSeqNum := startSeqNum - 1;
        if endSeqNum - startSeqNum > size {
          assert forall s :: !IsFrame(held, s, endSeqNum) by {
            OneRoundApart(ring, held, endSeqNum);
          }
          return None;
        }
      }
    }

    /** Extracts the frame that ends at the given number, or nothing if it is incomplete. */
    method ExtractFrame(endSeqNum: int) returns (packets: seq<BufferedPacket>, ghost start: int)
      requires Valid()
      ensures packets != [] ==> IsFrame(held, start, endSeqNum) && packets == Run(held, start, endSeqNum)
      ensures packets == [] ==> forall s :: !IsFrame(held, s, endSeqNum)
    {
      hide SeqNumToIndex, Run;
      ghost var ring := buffer[..];
      packets := [];
      start := endSeqNum;
      var found := FindStart(endSeqNum);
      if found.None? {
        return;
      }
      start := found.value;
      var seqNum := found.value;
      while seqNum <= endSeqNum
        invariant start <= seqNum <= endSeqNum + 1 && |packets| == seqNum - start
        invariant forall n :: start <= n < seqNum ==> n in held && held[n].continuous
        invariant forall i :: 0 <= i < |packets| ==> packets[i] == held[start + i]
      {
        var slot := buffer[SeqNumToIndex(seqNum, size)];
        assert At(ring, seqNum) <==> slot.Some? && slot.value.number == seqNum;
        if slot.None? || slot.value.number != seqNum {
          return [], start;
        }
        if !slot.value.continuous {
          return [], start;
        }
        packets := packets + [slot.value];
        seqNum := seqNum + 1;
      }
      assert packets == Run(held, start, endSeqNum);
    }

    method ClearFrame(frame: seq<BufferedPacket>, ghost start: int, ghost end: int)
      requires Valid() && IsFrame(held, start, end) && frame == Run(held, start, end)
      modifies this`held, buffer
      ensures Valid() && held == Without(old(held), start, end)
    {
      hide SeqNumToIndex, Without, Run, Represents;
      ghost var was := held;
      RepresentsKeyed(buffer[..], was);
      assert Without(was, start, start - 1) == was;
      for k := 0 to |frame|
        invariant Represents(buffer[..], Without(was, start, start + k - 1))
      {
        assert frame[k].number == start + k;
        RepresentsClear(buffer[..], was, start, start + k);
        buffer[SeqNumToIndex(frame[k].number, size)] := None;
      }
      held := Without(was, start, end);
    }

    /** One step of the scan: marks the packet if it can be reached, and takes a frame that it ends. */
    method ScanNumber(currentSeq: int) returns (frame: seq<BufferedPacket>)
      requires Valid()
      modifies this`held, buffer
      ensures Valid()
      ensures ScanAt(old(held), currentSeq) == Outcome(held, if frame == [] then [] else [frame])
    {
      hide SeqNumToIndex, Without, Run, IsFrame;
      frame := [];
      var potential := PotentialNewFrame(currentSeq);
      if !potential {
        return;
      }
      var index := SeqNumToIndex(currentSeq, size);
      assert At(buffer[..], currentSeq);
      RepresentsMark(buffer[..], held, currentSeq);
      buffer[index] := Some(buffer[index].value.(continuous := true));
      held := Marked(held, currentSeq);
      if buffer[index].value.isLast {
        ghost var start;
        frame, start := ExtractFrame(currentSeq);
        if |frame| > 0 {
          forall s | IsFrame(held, s, currentSeq) ensures s == start {
            FrameUnique(held, s, start, currentSeq);
          }
          ClearFrame(frame, start, currentSeq);
        }
      }
    }

    method FindFrames(seqNum: int) returns (result: seq<seq<BufferedPacket>>)
      requires Valid()
      modifies this`held, buffer
      ensures Valid() && Outcome(held, result) == Scan(old(held), seqNum - size / 2, size)
    {
      hide Scan, ScanAt, Represents;
      result := [];
      ScanNone(held, seqNum - size / 2);
      for i := 0 to size
        invariant Valid() && Outcome(held, result) == Scan(old(held), seqNum - size / 2, i)
      {
        ScanNext(old(held), seqNum - size / 2, i);
        var frame := ScanNumber(seqNum - size / 2 + i);
        if |frame| > 0 {
          result := result + [frame];
        }
      }
    }

    /**
     Inserts a packet and returns the frames it completes. A packet that is held already changes nothing. Any other
     takes its slot from a packet a whole number of rounds away; then every packet is still held or is in exactly one
     of the frames, and every frame is sound.
     */
    method InsertPacket(pkt: BufferedPacket) returns (frames: seq<seq<BufferedPacket>>)
      requires Valid()
      modifies this`held, buffer
      ensures Valid() && Outcome(held, frames) == Insert(old(held), pkt, size)
      ensures pkt.number in old(held) ==> held == old(held) && frames == []
      ensures pkt.number !in old(held) ==>
                Conserves((map n | n in old(held) && n % size != pkt.number % size :: old(held)[n])[pkt.number := pkt],
                          Outcome(held, frames))
      ensures forall frame :: frame in frames ==> IsSound(frame)
    {
      hide SeqNumToIndex, Stored, Scan, Pos, Conserves, IsSound;
      RepresentsKeyed(buffer[..], held);
      InsertIsSound(held, pkt, size);
      if pkt.number !in held {
        InsertConserves(held, pkt, size);
      }
      var seqNum := pkt.number;
      var index := SeqNumToIndex(seqNum, size);
      assert At(buffer[..], seqNum) <==> buffer[index].Some? && buffer[index].value.number == seqNum;
      if buffer[index].Some? && buffer[index].value.number == seqNum {
        return [];
      }
      var stored := pkt.(continuous := false);
      RepresentsPut(buffer[..], held, pkt);
      if buffer[index].Some? {
        buffer[index] := None;
      }
      buffer[index] := Some(stored);
      assert buffer[..] == old(buffer[..])[index := Some(stored)];
      held := Stored(held, pkt, size);
      frames := FindFrames(seqNum);
    }
  }

  /** A buffer is made for the powers of two from 64 to 2048, and for no other size. */
  method NewVideoPacketBuffer(size: Uint16) returns (r: Option<VideoPacketBuffer>)
    ensures r.Some? <==> IsPow2(size) && 64 <= size <= 2048
    ensures r.Some? ==> fresh(r.value) && r.value.Valid() && r.value.size == size && r.value.held == map[]
  {
    if size != 0 {
      PowerOfTwoTest(size);
    }
    if size == 0 || BitAnd(size, size - 1) != 0 || size < 64 || size > 2048 {
      return None;
    }
    var b := new VideoPacketBuffer(size);
    return Some(b);
  }
}
