/**
 The sender's side of transport-wide feedback (internal/cc/feedback_adapter.go): a feedback packet
 is turned into one acknowledgment per sequence number, with arrival times rebuilt from the deltas.
 */
module FeedbackAdapters {
  import opened Words
  import opened StatusChunks
  import opened FeedbackPackets
  import opened SendHistory

  // -- What unpacking means, symbol by symbol

  /** Deltas used, time rebuilt and acknowledgments so far; `ok` turns false when the deltas run out. */
  datatype Unpacked = Unpacked(consumed: nat, refTime: int, acks: seq<Acknowledgment>, ok: bool)

  function KnownAs(list: seq<Acknowledgment>, sn: int): Option<Acknowledgment> {
    Lookup(list, Key(0, Wrap16(sn)))
  }

  lemma KnownIs(list: seq<Acknowledgment>, sn: Uint16)
    ensures KnownAs(list, sn) == Lookup(list, Key(0, sn))
  {
    WrapIdentity(sn);
  }

  /** A number the history does not know yields an empty acknowledgment and leaves its delta unused. */
  function UnpackNext(u: Unpacked, known: Option<Acknowledgment>, symbol: Symbol, deltas: seq<RecvDelta>): Unpacked {
    if !u.ok then u
    else if known.None? then u.(acks := u.acks + [NO_ACK])
    else if symbol == NotReceived then u.(acks := u.acks + [known.value])
    else if u.consumed >= |deltas| then u.(ok := false)
    else
      var t := u.refTime + deltas[u.consumed].delta;
      Unpacked(u.consumed + 1, t, u.acks + [known.value.(arrival := t)], true)
  }

  function Unpack(list: seq<Acknowledgment>, start: int, refTime: int, symbols: seq<Symbol>,
                  deltas: seq<RecvDelta>): (u: Unpacked)
    ensures u.consumed <= |deltas| && (u.ok ==> |u.acks| == |symbols|)
    decreases |symbols|
  {
    if symbols == [] then Unpacked(0, refTime, [], true)
    else
      var n := |symbols| - 1;
      UnpackNext(Unpack(list, start, refTime, symbols[..n], deltas), KnownAs(list, start + n), symbols[n], deltas)
  }

  lemma UnpackAppend(list: seq<Acknowledgment>, start: int, refTime: int, symbols: seq<Symbol>, s: Symbol,
                     deltas: seq<RecvDelta>)
    ensures Unpack(list, start, refTime, symbols + [s], deltas) ==
            UnpackNext(Unpack(list, start, refTime, symbols, deltas), KnownAs(list, start + |symbols|), s, deltas)
  {
    assert (symbols + [s])[..|symbols|] == symbols;
  }

  /** Two unpackings in a row: the second goes on with the number, the time and the deltas the first left. */
  function Then(u: Unpacked, v: Unpacked): Unpacked {
    if u.ok then Unpacked(u.consumed + v.consumed, v.refTime, u.acks + v.acks, v.ok) else u
  }

  lemma ThenNext(u: Unpacked, v: Unpacked, known: Option<Acknowledgment>, s: Symbol, deltas: seq<RecvDelta>)
    requires u.consumed <= |deltas|
    ensures UnpackNext(Then(u, v), known, s, deltas) == Then(u, UnpackNext(v, known, s, deltas[u.consumed..]))
  {
  }

  lemma ThenNothing(list: seq<Acknowledgment>, start: int, u: Unpacked, deltas: seq<RecvDelta>)
    ensures Then(u, Unpack(list, start, u.refTime, [], deltas)) == u
  {
  }

  lemma TakeNext<T>(s: seq<T>, k: nat)
    requires k < |s|
    ensures s[..k + 1] == s[..k] + [s[k]]
  {
  }

  lemma {:induction false} UnpackSplit(list: seq<Acknowledgment>, start: int, refTime: int, a: seq<Symbol>,
                                       b: seq<Symbol>, deltas: seq<RecvDelta>)
    ensures var u := Unpack(list, start, refTime, a, deltas);
            Unpack(list, start, refTime, a + b, deltas) ==
            Then(u, Unpack(list, start + |a|, u.refTime, b, deltas[u.consumed..]))
    decreases |b|
  {
    hide Unpack, UnpackNext, Then, KnownAs;
    var u := Unpack(list, start, refTime, a, deltas);
    if b == [] {
      assert a + b == a;
      ThenNothing(list, start + |a|, u, deltas[u.consumed..]);
    } else {
      var n := |b| - 1;
      UnpackSplit(list, start, refTime, a, b[..n], deltas);
      assert a + b == (a + b[..n]) + [b[n]] && b[..n] + [b[n]] == b;
      UnpackAppend(list, start, refTime, a + b[..n], b[n], deltas);
      UnpackAppend(list, start + |a|, u.refTime, b[..n], b[n], deltas[u.consumed..]);
      ThenNext(u, Unpack(list, start + |a|, u.refTime, b[..n], deltas[u.consumed..]),
               KnownAs(list, start + |a| + n), b[n], deltas);
    }
  }

  lemma ShiftStart(list: seq<Acknowledgment>, start: int, start': int, refTime: int, symbols: seq<Symbol>,
                   deltas: seq<RecvDelta>)
    requires Wrap16(start) == Wrap16(start')
    ensures Unpack(list, start, refTime, symbols, deltas) == Unpack(list, start', refTime, symbols, deltas)
    decreases |symbols|
  {
    if symbols != [] {
      var n := |symbols| - 1;
      ShiftStart(list, start, start', refTime, symbols[..n], deltas);
      WrapSum(start, n);
      WrapSum(start', n);
    }
  }

  // -- What unpacking comes to

  function SumOf(deltas: seq<RecvDelta>): int
    decreases |deltas|
  {
    if deltas == [] then 0 else SumOf(deltas[..|deltas| - 1]) + deltas[|deltas| - 1].delta
  }

  lemma SumNext(deltas: seq<RecvDelta>, m: nat)
    ensures m < |deltas| ==> SumOf(deltas[..m + 1]) == SumOf(deltas[..m]) + deltas[m].delta
  {
    if m < |deltas| {
      assert deltas[..m + 1][..m] == deltas[..m];
    }
  }

  /** The number at `k` is known and has a symbol that says it was received, so it uses a delta. */
  ghost predicate UsesDelta(list: seq<Acknowledgment>, start: int, symbols: seq<Symbol>, k: int) {
    0 <= k < |symbols| && symbols[k] != NotReceived && KnownAs(list, start + k).Some?
  }

  ghost function Users(list: seq<Acknowledgment>, start: int, symbols: seq<Symbol>): set<int> {
    set k | 0 <= k < |symbols| && UsesDelta(list, start, symbols, k)
  }

  /**
   What the number at `k` gets: nothing if it is not known, its history entry if its symbol says it was not received,
   and otherwise the entry with an arrival that is the reference time plus one delta for each user up to it.
   */
  ghost predicate AckIs(ack: Acknowledgment, list: seq<Acknowledgment>, start: int, refTime: int, symbols: seq<Symbol>,
                        deltas: seq<RecvDelta>, k: nat)
    requires k < |symbols|
  {
    match KnownAs(list, start + k)
    case None => ack == Acknowledgment(0, 0, 0, 0, 0, 0)
    case Some(a) =>
      if symbols[k] == NotReceived then ack == a
      else
        var m := |Users(list, start, symbols[..k + 1])|;
        m <= |deltas| && ack == a.(arrival := refTime + SumOf(deltas[..m]))
  }

  lemma UsersNext(list: seq<Acknowledgment>, start: int, symbols: seq<Symbol>, n: nat)
    requires n < |symbols|
    ensures var before := |Users(list, start, symbols[..n])|;
            |Users(list, start, symbols[..n + 1])| ==
            if UsesDelta(list, start, symbols, n) then before + 1 else before
  {
    hide KnownAs;
    var before := Users(list, start, symbols[..n]);
    assert Users(list, start, symbols[..n + 1]) ==
           before + if UsesDelta(list, start, symbols, n) then {n} else {};
  }

  /** Unpacking succeeds exactly when there is a delta for every user, and each number then gets what it should. */
  ghost predicate UnpacksTo(u: Unpacked, list: seq<Acknowledgment>, start: int, refTime: int, symbols: seq<Symbol>,
                            deltas: seq<RecvDelta>, n: nat)
    requires n <= |symbols|
  {
    var m := |Users(list, start, symbols[..n])|;
    && (u.ok <==> m <= |deltas|)
    && (u.ok ==>
          && |u.acks| == n && u.consumed == m && u.refTime == refTime + SumOf(deltas[..m])
          && forall k: nat :: k < n ==> AckIs(u.acks[k], list, start, refTime, symbols, deltas, k))
  }

  lemma UnpacksNext(u: Unpacked, list: seq<Acknowledgment>, start: int, refTime: int, symbols: seq<Symbol>,
                    deltas: seq<RecvDelta>, n: nat)
    requires n < |symbols| && UnpacksTo(u, list, start, refTime, symbols, deltas, n)
    ensures UnpacksTo(UnpackNext(u, KnownAs(list, start + n), symbols[n], deltas), list, start, refTime, symbols,
                      deltas, n + 1)
  {
    hide KnownAs, Users, SumOf;
    UsersNext(list, start, symbols, n);
    SumNext(deltas, |Users(list, start, symbols[..n])|);
    var v := UnpackNext(u, KnownAs(list, start + n), symbols[n], deltas);
    if v.ok {
      assert forall k: nat :: k < n ==> v.acks[k] == u.acks[k];
      assert AckIs(v.acks[n], list, start, refTime, symbols, deltas, n);
    }
  }

  lemma NothingUnpacked(list: seq<Acknowledgment>, start: int, refTime: int, symbols: seq<Symbol>,
                        deltas: seq<RecvDelta>)
    ensures UnpacksTo(Unpack(list, start, refTime, symbols[..0], deltas), list, start, refTime, symbols, deltas, 0)
  {
    assert Users(list, start, symbols[..0]) == {};
    assert Unpack(list, start, refTime, symbols[..0], deltas) == Unpacked(0, refTime, [], true);
  }

  lemma {:induction false} UnpackMeans(list: seq<Acknowledgment>, start: int, refTime: int, symbols: seq<Symbol>,
                                       deltas: seq<RecvDelta>, n: nat)
    requires n <= |symbols|
    ensures UnpacksTo(Unpack(list, start, refTime, symbols[..n], deltas), list, start, refTime, symbols, deltas, n)
    decreases n
  {
    hide UnpackNext, KnownAs, UnpacksTo, Unpack, Users;
    if n == 0 {
      NothingUnpacked(list, start, refTime, symbols, deltas);
    } else {
      UnpackMeans(list, start, refTime, symbols, deltas, n - 1);
      UnpacksNext(Unpack(list, start, refTime, symbols[..n - 1], deltas), list, start, refTime, symbols, deltas, n - 1);
      assert symbols[..n] == symbols[..n - 1] + [symbols[n - 1]];
      UnpackAppend(list, start, refTime, symbols[..n - 1], symbols[n - 1], deltas);
    }
  }

  /** The answer to a feedback packet: an error exactly when a delta is missing, else what each number should get. */
  ghost predicate Answers(acks: Option<seq<Acknowledgment>>, list: seq<Acknowledgment>, start: int, refTime: int,
                          symbols: seq<Symbol>, deltas: seq<RecvDelta>) {
    && (acks.Some? <==> |Users(list, start, symbols)| <= |deltas|)
    && (acks.Some? ==>
          && |acks.value| == |symbols|
          && forall k: nat :: k < |symbols| ==> AckIs(acks.value[k], list, start, refTime, symbols, deltas, k))
  }

  lemma UnpackMeansAll(list: seq<Acknowledgment>, start: int, refTime: int, symbols: seq<Symbol>,
                       deltas: seq<RecvDelta>)
    ensures var u := Unpack(list, start, refTime, symbols, deltas);
            Answers(if u.ok then Some(u.acks) else None, list, start, refTime, symbols, deltas)
  {
    hide Unpack, Users, AckIs;
    UnpackMeans(list, start, refTime, symbols, deltas, |symbols|);
    assert symbols[..|symbols|] == symbols;
  }

  // -- Sending

  /** The zero time stands for "no arrival". */
  ghost predicate Unarrived(list: seq<Acknowledgment>) {
    forall a :: a in list ==> a.arrival == 0
  }

  /** What was never added with an arrival is in the history without one. */
  lemma {:induction false} HistoryUnarrived(adds: seq<Acknowledgment>, size: nat)
    requires Unarrived(adds)
    ensures Unarrived(HistoryAfter(adds, size))
    decreases |adds|
  {
    hide Without;
    if adds != [] {
      var n := |adds| - 1;
      HistoryUnarrived(adds[..n], size);
      var before := HistoryAfter(adds[..n], size);
      forall a | a in Touched(before, adds[n]) ensures a.arrival == 0 {
        WithoutKeepsOthers(before, KeyOf(adds[n]), a);
      }
    }
  }

  /** The header of a packet that is sent, and its transport-wide number if it has the extension. */
  datatype SentHeader = SentHeader(ssrc: int, sequenceNumber: Uint16, marshalSize: int, transportNumber: Option<Uint16>)

  // -- The code

  class FeedbackAdapter {
    const history: FeedbackHistory

    /** The history is that of the packets sent, none of which has an arrival. */
    ghost predicate Valid()
      reads history, history.evictList
    {
      history.Valid() && Unarrived(history.adds)
    }

    /** In every reachable state the history has entries without an arrival only. */
    lemma HistoryHasNoArrival()
      requires Valid()
      ensures Unarrived(history.View())
    {
      HistoryUnarrived(history.adds, history.size);
    }

    constructor ()
      ensures fresh(history) && Valid() && history.View() == [] && history.size == 250
    {
      history := new FeedbackHistory(250);
    }

    method OnSentRFC8888(ts: int, header: SentHeader, size: int)
      requires Valid()
      modifies history, history.evictList
      ensures Valid()
      ensures history.adds == old(history.adds) + [Acknowledgment(header.sequenceNumber, header.ssrc, size, ts, 0, 0)]
    {
      hide FeedbackHistory.Valid;
      history.Add(Acknowledgment(header.sequenceNumber, header.ssrc, size, ts, 0, 0));
    }

    /** A packet without the extension is an error and is not recorded. */
    method OnSentTWCC(ts: int, header: SentHeader, size: int) returns (err: bool)
      requires Valid()
      modifies history, history.evictList
      ensures Valid() && err == header.transportNumber.None?
      ensures history.adds ==
              if err then old(history.adds)
              else old(history.adds) +
                   [Acknowledgment(header.transportNumber.value, 0, header.marshalSize + size, ts, 0, 0)]
    {
      hide FeedbackHistory.Valid;
      if header.transportNumber.None? {
        return true;
      }
      history.Add(Acknowledgment(header.transportNumber.value, 0, header.marshalSize + size, ts, 0, 0));
      return false;
    }

    /** Records a packet that was sent, under its transport-wide number if the stream negotiated the extension. */
    method OnSent(ts: int, header: SentHeader, size: int, twcc: bool) returns (err: bool)
      requires Valid()
      modifies history, history.evictList
      ensures Valid() && err == (twcc && header.transportNumber.None?)
      ensures history.adds ==
              if err then old(history.adds)
              else old(history.adds) +
                   [if twcc then Acknowledgment(header.transportNumber.value, 0, header.marshalSize + size, ts, 0, 0)
                    else Acknowledgment(header.sequenceNumber, header.ssrc, size, ts, 0, 0)]
    {
      if twcc {
        err := OnSentTWCC(ts, header, size);
        return;
      }
      OnSentRFC8888(ts, header, size);
      return false;
    }

    /** The step both unpacking loops share: the acknowledgment of one number. */
    method Acknowledge(sn: Uint16, symbol: Symbol, refTime: int, deltaIndex: nat, deltas: seq<RecvDelta>,
                       ghost acks: seq<Acknowledgment>)
      returns (known: bool, ack: Acknowledgment, nextRef: int, nextIndex: nat, err: bool)
      requires history.Valid()
      ensures known == KnownAs(history.View(), sn).Some?
      ensures UnpackNext(Unpacked(deltaIndex, refTime, acks, true), KnownAs(history.View(), sn), symbol, deltas) ==
              if err then Unpacked(deltaIndex, refTime, acks, false)
              else Unpacked(nextIndex, nextRef, acks + [if known then ack else NO_ACK], true)
    {
      hide KnownAs, Lookup, Wrap16, FeedbackHistory.Valid, FeedbackHistory.View, Recency, LastAdd, Limited, HasKey;
      KnownIs(history.View(), sn);
      known, ack, nextRef, nextIndex, err := false, NO_ACK, refTime, deltaIndex, false;
      var found := history.Get(Key(0, sn));
      if found.Some? {
        known, ack := true, found.value;
        if symbol != NotReceived {
          if |deltas| - 1 < deltaIndex {
            err := true;
            return;
          }
          nextRef := refTime + deltas[deltaIndex].delta;
          ack := ack.(arrival := nextRef);
          nextIndex := deltaIndex + 1;
        }
      }
    }

    method UnpackRunLengthChunk(start: Uint16, refTime: int, symbol: Symbol, runLength: Uint16, deltas: seq<RecvDelta>)
      returns (consumed: nat, nextRef: int, acks: seq<Acknowledgment>, err: bool)
      requires history.Valid()
      ensures var u := Unpack(history.View(), start, refTime, Repeat(symbol, runLength), deltas);
              err == !u.ok && (!err ==> u == Unpacked(consumed, nextRef, acks, true))
    {
      hide UnpackNext, Wrap16, Unpack, Sub16, KnownAs, FeedbackHistory.Valid, FeedbackHistory.View;
      ghost var list, symbols := history.View(), Repeat(symbol, runLength);
      var result := Repeat(NO_ACK, runLength);
      consumed, nextRef := 0, refTime;
      var end := Wrap16(start + runLength);
      var resultIndex := 0;
      var i: int := start;
      UnpackStart(list, start, refTime, symbols, deltas, runLength);
      while i != end
        invariant 0 <= resultIndex <= runLength && |result| == runLength && Sub16(end, i) == runLength - resultIndex
        invariant i == Wrap16(start + resultIndex)
        invariant Unpack(list, start, refTime, symbols[..resultIndex], deltas) ==
                  Unpacked(consumed, nextRef, result[..resultIndex], true)
        invariant forall k :: resultIndex <= k < runLength ==> result[k] == NO_ACK
        decreases runLength - resultIndex
      {
        CountUp(end, i);
        WrapSum(start + resultIndex, 1);
        WrapSum(start + resultIndex, 0);
        var known, ack, r, c, e := Acknowledge(i, symbol, nextRef, consumed, deltas, result[..resultIndex]);
        UnpackStep(list, start, refTime, symbols, deltas, resultIndex);
        if e {
          UnpackStuck(list, start, refTime, symbols, deltas, resultIndex + 1);
          acks := result;
          return consumed, nextRef, acks, true;
        }
        nextRef, consumed := r, c;
        if known {
          result := result[resultIndex := ack];
        }
        TakeNext(result, resultIndex);
        resultIndex := resultIndex + 1;
        i := Wrap16(i + 1);
      }
      CountUp(end, i);
      assert symbols[..runLength] == symbols && result[..runLength] == result;
      return consumed, nextRef, result, false;
    }

    method UnpackStatusVectorChunk(start: Uint16, refTime: int, symbols: seq<Symbol>, deltas: seq<RecvDelta>)
      returns (consumed: nat, nextRef: int, acks: seq<Acknowledgment>, err: bool)
      requires history.Valid()
      ensures var u := Unpack(history.View(), start, refTime, symbols, deltas);
              err == !u.ok && (!err ==> u == Unpacked(consumed, nextRef, acks, true))
    {
      hide UnpackNext, Wrap16, Unpack, KnownAs, FeedbackHistory.Valid, FeedbackHistory.View;
      ghost var list := history.View();
      var result := Repeat(NO_ACK, |symbols|);
      consumed, nextRef := 0, refTime;
      UnpackStart(list, start, refTime, symbols, deltas, 0);
      for i := 0 to |symbols|
        invariant |result| == |symbols|
        invariant Unpack(list, start, refTime, symbols[..i], deltas) == Unpacked(consumed, nextRef, result[..i], true)
        invariant forall k :: i <= k < |symbols| ==> result[k] == NO_ACK
      {
        WrapSum(start + i, 0);
        var known, ack, r, c, e := Acknowledge(Wrap16(start + i), symbols[i], nextRef, consumed, deltas, result[..i]);
        UnpackStep(list, start, refTime, symbols, deltas, i);
        if e {
          UnpackStuck(list, start, refTime, symbols, deltas, i + 1);
          return consumed, nextRef, result, true;
        }
        nextRef, consumed := r, c;
        if known {
          result := result[i := ack];
        }
        TakeNext(result, i);
      }
      assert symbols[..|symbols|] == symbols && result[..|symbols|] == result;
      return consumed, nextRef, result, false;
    }

    /** Unpacks the chunks one after the other; an error anywhere discards everything. */
    method UnpackChunks(r: Report) returns (acks: Option<seq<Acknowledgment>>)
      requires history.Valid()
      requires forall k :: 0 <= k < |r.chunks| ==> r.chunks[k].RunLength? ==> r.chunks[k].count < UINT16_SIZE
      ensures var u := Unpack(history.View(), r.base, r.referenceTime * REFERENCE_UNIT, Expand(r.chunks), r.deltas);
              acks == if u.ok then Some(u.acks) else None
    {
      hide Unpack, Wrap16, Expand, FeedbackHistory.Valid, FeedbackHistory.View;
      ghost var list, ref0 := history.View(), r.referenceTime * REFERENCE_UNIT;
      var result := [];
      var index := r.base;
      var refTime := r.referenceTime * REFERENCE_UNIT;
      var recvDeltas := r.deltas;
      ghost var used := 0;
      ExpandPrefix(r.chunks, 0);
      UnpackStart(list, r.base, ref0, [], r.deltas, 0);
      for k := 0 to |r.chunks|
        invariant 0 <= used <= |r.deltas| && recvDeltas == r.deltas[used..]
        invariant Unpack(list, r.base, ref0, Expand(r.chunks[..k]), r.deltas) == Unpacked(used, refTime, result, true)
        invariant index == Wrap16(r.base + |result|) && |result| == |Expand(r.chunks[..k])|
      {
        var chunk := r.chunks[k];
        ghost var before := Expand(r.chunks[..k]);
        var n, nextRef, newAcks, err;
        if chunk.RunLength? {
          n, nextRef, newAcks, err := UnpackRunLengthChunk(index, refTime, chunk.symbol, chunk.count, recvDeltas);
        } else {
          n, nextRef, newAcks, err := UnpackStatusVectorChunk(index, refTime, chunk.symbols, recvDeltas);
        }
        ExpandPrefix(r.chunks, k);
        UnpackSplit(list, r.base, ref0, before, ExpandChunk(chunk), r.deltas);
        WrapSum(r.base + |result|, 0);
        ShiftStart(list, index, r.base + |result|, refTime, ExpandChunk(chunk), recvDeltas);
        if err {
          ExpandSuffix(r.chunks, k + 1);
          UnpackSplit(list, r.base, ref0, Expand(r.chunks[..k + 1]), Expand(r.chunks)[|Expand(r.chunks[..k + 1])|..],
              r.deltas);
          return None;
        }
        WrapSum(r.base + |result|, |newAcks|);
        refTime := nextRef;
        result := result + newAcks;
        recvDeltas := recvDeltas[n..];
        used := used + n;
        index := Wrap16(index + |newAcks|);
      }
      assert r.chunks[..|r.chunks|] == r.chunks;
      return Some(result);
    }

    /** Turns a feedback packet into acknowledgments. */
    method OnTransportCCFeedback(r: Report) returns (acks: Option<seq<Acknowledgment>>)
      requires history.Valid()
      requires forall k :: 0 <= k < |r.chunks| ==> r.chunks[k].RunLength? ==> r.chunks[k].count < UINT16_SIZE
      ensures var u := Unpack(history.View(), r.base, r.referenceTime * REFERENCE_UNIT, Expand(r.chunks), r.deltas);
              acks == if u.ok then Some(u.acks) else None
      ensures Answers(acks, history.View(), r.base, r.referenceTime * 64_000, Expand(r.chunks), r.deltas)
    {
      hide Unpack, Expand, FeedbackHistory.Valid, FeedbackHistory.View, Answers;
      acks := UnpackChunks(r);
      UnpackMeansAll(history.View(), r.base, r.referenceTime * REFERENCE_UNIT, Expand(r.chunks), r.deltas);
    }
  }

  lemma UnpackStart(list: seq<Acknowledgment>, start: int, refTime: int, symbols: seq<Symbol>, deltas: seq<RecvDelta>,
                    n: nat)
    ensures Unpack(list, start, refTime, symbols[..0], deltas) == Unpacked(0, refTime, [], true)
    ensures Sub16(Wrap16(start + n), start) == Wrap16(n)
    ensures 0 <= start < UINT16_SIZE ==> Wrap16(start) == start
    ensures n < UINT16_SIZE ==> Wrap16(n) == n
  {
  }

  lemma UnpackStep(list: seq<Acknowledgment>, start: int, refTime: int, symbols: seq<Symbol>, deltas: seq<RecvDelta>,
                   k: nat)
    requires k < |symbols|
    ensures Unpack(list, start, refTime, symbols[..k + 1], deltas) ==
            UnpackNext(Unpack(list, start, refTime, symbols[..k], deltas), KnownAs(list, Wrap16(start + k)), symbols[k],
                deltas)
  {
    assert symbols[..k + 1] == symbols[..k] + [symbols[k]];
    UnpackAppend(list, start, refTime, symbols[..k], symbols[k], deltas);
    WrapSum(start + k, 0);
  }

  /** Once the deltas have run out, no later symbol helps. */
  lemma {:induction false} UnpackStuck(list: seq<Acknowledgment>, start: int, refTime: int, symbols: seq<Symbol>,
                                       deltas: seq<RecvDelta>, k: nat)
    requires k <= |symbols| && !Unpack(list, start, refTime, symbols[..k], deltas).ok
    ensures !Unpack(list, start, refTime, symbols, deltas).ok
  {
    UnpackSplit(list, start, refTime, symbols[..k], symbols[k..], deltas);
    assert symbols[..k] + symbols[k..] == symbols;
  }

  lemma ExpandPrefix(chunks: seq<StatusChunk>, k: nat)
    requires k <= |chunks|
    ensures Expand(chunks[..0]) == []
    ensures k < |chunks| ==> Expand(chunks[..k + 1]) == Expand(chunks[..k]) + ExpandChunk(chunks[k])
  {
    if k < |chunks| {
      assert chunks[..k + 1][..k] == chunks[..k];
    }
  }

  lemma {:induction false} ExpandSuffix(chunks: seq<StatusChunk>, k: nat)
    requires k <= |chunks|
    ensures |Expand(chunks[..k])| <= |Expand(chunks)|
    ensures Expand(chunks) == Expand(chunks[..k]) + Expand(chunks)[|Expand(chunks[..k])|..]
    decreases |chunks|
  {
    if k == |chunks| {
      assert chunks[..k] == chunks;
    } else {
      var front := chunks[..|chunks| - 1];
      ExpandSuffix(front, k);
      assert front[..k] == chunks[..k];
    }
  }
}
