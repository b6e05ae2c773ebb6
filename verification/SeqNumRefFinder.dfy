/**
 References by sequence number alone (pkg/videoframe/seq_num_only_ref_finder.go): a delta frame refers to the frame
 whose last packet comes just before its first one, and waits in a stash until that frame has been emitted.
 */
module SeqNumReferences {
  import opened Stashes
  import opened Words

  /** A frame from its first to its last unwrapped sequence number. */
  datatype Frame = Frame(first: int, last: int, isKey: bool)

  /** A frame as it is handed on, with its ID and references filled in. */
  datatype Emitted = Emitted(frame: Frame, id: int, references: seq<int>)

  datatype State = State(gop: int, lastFirst: int, lastLast: int, gotInitial: bool, stash: seq<Frame>)

  const INITIAL := State(-1, -1, -1, false, [])

  function FirstNumber(f: Frame): int {
    f.first
  }

  function Frames(es: seq<Emitted>): (r: seq<Frame>)
    ensures |r| == |es|
    ensures forall i :: 0 <= i < |es| ==> r[i] == es[i].frame
  {
    seq(|es|, i requires 0 <= i < |es| => es[i].frame)
  }

  // -- What one call does

  /** The frame at `i` follows the one before it, or a frame with the given numbers, without a gap and refers to it. */
  ghost predicate ChainedAt(lastFirst: int, lastLast: int, es: seq<Emitted>, i: nat)
    requires i < |es|
  {
    && es[i].frame.first == (if i == 0 then lastLast else es[i - 1].frame.last) + 1
    && es[i].id == es[i].frame.first
    && es[i].references == [if i == 0 then lastFirst else es[i - 1].frame.first]
  }

  ghost predicate Chained(lastFirst: int, lastLast: int, es: seq<Emitted>) {
    forall i: nat :: i < |es| ==> ChainedAt(lastFirst, lastLast, es, i)
  }

  /** No stashed frame comes right after the last frame emitted. */
  ghost predicate NoneResolvable(s: State) {
    forall f :: f in s.stash ==> f.first != s.lastLast + 1
  }

  ghost predicate LastIs(s: State, e: Frame) {
    s.lastFirst == e.first && s.lastLast == e.last
  }

  /** The stash gives up frames that follow without a gap, until none is left that does. */
  ghost predicate Resolves(before: State, after: State, out: seq<Emitted>) {
    && multiset(before.stash) == multiset(after.stash) + multiset(Frames(out))
    && (Sorted(before.stash, FirstNumber) ==> Sorted(after.stash, FirstNumber))
    && Chained(before.lastFirst, before.lastLast, out)
    && after.gop == before.gop && after.gotInitial == before.gotInitial
    && (if out == [] then after.lastFirst == before.lastFirst && after.lastLast == before.lastLast
        else LastIs(after, out[|out| - 1].frame))
    && NoneResolvable(after)
  }

  /** One call of `ManageFrame`; which of two stashed frames with the same number comes first is left open. */
  ghost predicate Step(before: State, f: Frame, after: State, out: seq<Emitted>) {
    if f.isKey then
      && out != [] && out[0] == Emitted(f, f.first, [])
      && Resolves(State(f.first, f.first, f.last, true, Kept(before.stash, FirstNumber, f.first)), after, out[1..])
    else if before.gotInitial && f.first == before.lastLast + 1 then
      && out != [] && out[0] == Emitted(f, f.first, [before.lastFirst])
      && Resolves(before.(lastFirst := f.first, lastLast := f.last), after, out[1..])
    else if before.gotInitial && f.first < before.gop then
      after == before && out == []
    else
      && after == before.(stash := after.stash) && out == []
      && Stashed(before.stash, f, after.stash, FirstNumber)
  }

  // -- What every run keeps

  /**
   A keyframe has no references; any other frame refers to the frame emitted just before it, which it follows
   without a gap.
   */
  ghost predicate LinkedAt(es: seq<Emitted>, i: nat)
    requires i < |es|
  {
    && es[i].id == es[i].frame.first
    && if es[i].frame.isKey then es[i].references == []
       else
         && i > 0 && es[i].references == [es[i - 1].id]
         && es[i].frame.first == es[i - 1].frame.last + 1
  }

  ghost predicate Linked(es: seq<Emitted>) {
    forall i: nat :: i < |es| ==> LinkedAt(es, i)
  }

  /** The last keyframe emitted begins with this number. */
  ghost predicate LastKey(es: seq<Emitted>, gop: int) {
    exists j :: && 0 <= j < |es| && es[j].frame.isKey && es[j].frame.first == gop
                && forall k :: j < k < |es| ==> !es[k].frame.isKey
  }

  /**
   The history is linked. What waits are delta frames, in order; once there was a keyframe, none of them comes
   before the last one and none right after the last frame emitted.
   */
  ghost predicate Good(s: State, es: seq<Emitted>) {
    && Linked(es)
    && |s.stash| <= 100 && Sorted(s.stash, FirstNumber)
    && (forall f :: f in s.stash ==> !f.isKey)
    && (s.gotInitial <==> es != [])
    && (s.gotInitial ==> LastIs(s, es[|es| - 1].frame) && NoneResolvable(s))
    && (s.gotInitial ==> LastKey(es, s.gop) && forall f :: f in s.stash ==> f.first >= s.gop)
  }

  lemma LastKeyStays(es: seq<Emitted>, more: seq<Emitted>, gop: int)
    requires LastKey(es, gop) && forall i :: 0 <= i < |more| ==> !more[i].frame.isKey
    ensures LastKey(es + more, gop)
  {
    var j :| && 0 <= j < |es| && es[j].frame.isKey && es[j].frame.first == gop
             && forall k :: j < k < |es| ==> !es[k].frame.isKey;
    assert (es + more)[j] == es[j];
  }

  lemma LastKeyIs(es: seq<Emitted>, e: Emitted)
    requires e.frame.isKey
    ensures LastKey(es + [e], e.frame.first)
  {
    assert (es + [e])[|es|] == e;
  }

  lemma LinkedExtend(es: seq<Emitted>, e: Emitted)
    requires Linked(es) && LinkedAt(es + [e], |es|)
    ensures Linked(es + [e])
  {
    forall i: nat | i < |es| ensures LinkedAt(es + [e], i) {
      assert LinkedAt(es, i);
    }
  }

  lemma LastIdIsFirst(es: seq<Emitted>)
    requires Linked(es) && es != []
    ensures es[|es| - 1].id == es[|es| - 1].frame.first
  {
    assert LinkedAt(es, |es| - 1);
  }

  lemma ChainedPrefix(lastFirst: int, lastLast: int, es: seq<Emitted>, n: nat)
    requires Chained(lastFirst, lastLast, es) && n <= |es|
    ensures Chained(lastFirst, lastLast, es[..n])
  {
    forall i: nat | i < n ensures ChainedAt(lastFirst, lastLast, es[..n], i) {
      assert ChainedAt(lastFirst, lastLast, es, i);
    }
  }

  /** Frames that follow without a gap extend a linked history. */
  lemma {:induction false} ChainedLinks(es: seq<Emitted>, more: seq<Emitted>)
    requires Linked(es) && es != []
    requires Chained(es[|es| - 1].frame.first, es[|es| - 1].frame.last, more)
    requires forall i :: 0 <= i < |more| ==> !more[i].frame.isKey
    ensures Linked(es + more)
  {
    if more == [] {
      assert es + more == es;
    } else {
      var n := |more| - 1;
      var before := es + more[..n];
      ChainedPrefix(es[|es| - 1].frame.first, es[|es| - 1].frame.last, more, n);
      ChainedLinks(es, more[..n]);
      assert before + [more[n]] == es + more;
      assert LinkedAt(es + more, |before|) by {
        assert LinkedAt(before, |before| - 1);
        assert ChainedAt(es[|es| - 1].frame.first, es[|es| - 1].frame.last, more, n);
        assert (es + more)[|before| - 1] == if n == 0 then es[|es| - 1] else more[n - 1];
      }
      LinkedExtend(before, more[n]);
    }
  }

  lemma ResolvesKeepsGood(before: State, after: State, es: seq<Emitted>, more: seq<Emitted>)
    requires Linked(es) && es != [] && LastIs(before, es[|es| - 1].frame) && before.gotInitial
    requires |before.stash| <= MAX_STASHED_FRAMES && (forall f :: f in before.stash ==> !f.isKey)
    requires Sorted(before.stash, FirstNumber)
    requires LastKey(es, before.gop) && forall f :: f in before.stash ==> f.first >= before.gop
    requires Resolves(before, after, more)
    ensures Good(after, es + more)
  {
    hide Linked, Chained, LastKey, Sorted;
    assert |multiset(before.stash)| == |multiset(after.stash)| + |multiset(Frames(more))|;
    forall f | f in after.stash || f in Frames(more) ensures f in before.stash {
      assert f in multiset(before.stash);
    }
    forall i | 0 <= i < |more| ensures !more[i].frame.isKey {
      assert Frames(more)[i] in Frames(more);
    }
    ChainedLinks(es, more);
    LastKeyStays(es, more, before.gop);
  }

  /** Every call keeps the history linked, the stash within its limit and no stashed frame resolvable. */
  lemma StepKeepsGood(before: State, f: Frame, after: State, es: seq<Emitted>, out: seq<Emitted>)
    requires Good(before, es) && Step(before, f, after, out)
    ensures Good(after, es + out)
  {
    hide Linked, Chained, Resolves, Kept, LastKey, Sorted;
    if out == [] {
      assert es + out == es;
      if after != before {
        StashedWithin(before.stash, f, after.stash, FirstNumber);
        StashedSorted(before.stash, f, after.stash, FirstNumber);
      }
    } else {
      if es != [] {
        LastIdIsFirst(es);
      }
      LinkedExtend(es, out[0]);
      assert (es + [out[0]]) + out[1..] == es + out;
      var mid := if f.isKey then State(f.first, f.first, f.last, true, Kept(before.stash, FirstNumber, f.first))
                 else before.(lastFirst := f.first, lastLast := f.last);
      if f.isKey {
        KeptSorted(before.stash, FirstNumber, f.first);
        LastKeyIs(es, out[0]);
      } else {
        LastKeyStays(es, [out[0]], before.gop);
      }
      ResolvesKeepsGood(mid, after, es + [out[0]], out[1..]);
    }
  }

  // -- Runs

  ghost predicate IsRun(arrivals: seq<Frame>, states: seq<State>, outs: seq<seq<Emitted>>) {
    && |states| == |arrivals| + 1 && |outs| == |arrivals| && states[0] == INITIAL
    && forall t :: 0 <= t < |arrivals| ==> Step(states[t], arrivals[t], states[t + 1], outs[t])
  }

  /** Everything emitted by the first `n` calls. */
  ghost function History(outs: seq<seq<Emitted>>, n: nat): seq<Emitted>
    requires n <= |outs|
  {
    if n == 0 then [] else History(outs, n - 1) + outs[n - 1]
  }

  lemma {:induction false} RunIsGood(arrivals: seq<Frame>, states: seq<State>, outs: seq<seq<Emitted>>, n: nat)
    requires IsRun(arrivals, states, outs) && n <= |arrivals|
    ensures Good(states[n], History(outs, n))
  {
    hide Step, Good;
    if n == 0 {
      assert Good(INITIAL, []) by {
        EmptyIsGood();
      }
    } else {
      RunIsGood(arrivals, states, outs, n - 1);
      StepKeepsGood(states[n - 1], arrivals[n - 1], states[n], History(outs, n - 1), outs[n - 1]);
    }
  }

  lemma EmptyIsGood()
    ensures Good(INITIAL, [])
  {
  }

  // -- Nothing is lost

  /** A keyframe that begins after the frame has been emitted. */
  ghost predicate Obsolete(f: Frame, es: seq<Emitted>) {
    exists j :: 0 <= j < |es| && es[j].frame.isKey && f.first < es[j].frame.first
  }

  lemma ObsoleteStays(f: Frame, es: seq<Emitted>, more: seq<Emitted>)
    requires Obsolete(f, es) || Obsolete(f, more)
    ensures Obsolete(f, es + more)
  {
    if j :| 0 <= j < |es| && es[j].frame.isKey && f.first < es[j].frame.first {
      assert (es + more)[j] == es[j];
    } else {
      var j :| 0 <= j < |more| && more[j].frame.isKey && f.first < more[j].frame.first;
      assert (es + more)[|es| + j] == more[j];
    }
  }

  lemma BeforeGop(s: State, es: seq<Emitted>, f: Frame)
    requires LastKey(es, s.gop) && f.first < s.gop
    ensures Obsolete(f, es)
  {
  }

  lemma FirstOut(out: seq<Emitted>)
    requires out != []
    ensures multiset(Frames(out)) == multiset{out[0].frame} + multiset(Frames(out[1..]))
  {
    assert Frames(out) == [out[0].frame] + Frames(out[1..]);
  }

  /** Where a call that finds room in the stash puts a frame: out, in the stash, or away behind a keyframe. */
  lemma StepAccounts(before: State, f: Frame, after: State, es: seq<Emitted>, out: seq<Emitted>, g: Frame)
    requires Good(before, es) && Step(before, f, after, out) && |before.stash| < 100
    ensures var was := multiset(before.stash)[g] + (if g == f then 1 else 0);
            var now := multiset(after.stash)[g] + multiset(Frames(out))[g];
            was >= now && (was == now || Obsolete(g, es + out))
  {
    hide Linked, Chained, Kept, LastKey, Sorted, Frames, Obsolete;
    if out == [] {
      assert es + out == es && Frames(out) == [];
      if !f.isKey && before.gotInitial && f.first < before.gop {
        BeforeGop(before, es, f);
      }
    } else {
      FirstOut(out);
      if f.isKey {
        KeptCounts(before.stash, FirstNumber, f.first, g);
        if g.first < f.first {
          assert Obsolete(g, out) by {
            KeyComesAfter(g, out);
          }
          ObsoleteStays(g, es, out);
        }
      }
    }
  }

  lemma KeyComesAfter(f: Frame, es: seq<Emitted>)
    requires es != [] && es[0].frame.isKey && f.first < es[0].frame.first
    ensures Obsolete(f, es)
  {
  }

  lemma CountNext(arrivals: seq<Frame>, m: nat, g: Frame)
    requires m < |arrivals|
    ensures multiset(arrivals[..m + 1])[g] == multiset(arrivals[..m])[g] + if g == arrivals[m] then 1 else 0
  {
    assert arrivals[..m + 1] == arrivals[..m] + [arrivals[m]];
  }

  lemma CountJoin(es: seq<Emitted>, more: seq<Emitted>, g: Frame)
    ensures multiset(Frames(es + more))[g] == multiset(Frames(es))[g] + multiset(Frames(more))[g]
  {
    assert Frames(es + more) == Frames(es) + Frames(more);
  }

  /**
   Through every run in which the stash does not overflow, every frame that arrived has been emitted, once, or waits,
   unless a keyframe that begins after it has been emitted.
   */
  lemma {:induction false} NothingLost(arrivals: seq<Frame>, states: seq<State>, outs: seq<seq<Emitted>>, n: nat,
                                       g: Frame)
    requires IsRun(arrivals, states, outs) && n <= |arrivals|
    requires forall t :: 0 <= t < n ==> |states[t].stash| < 100
    ensures var arrived := multiset(arrivals[..n])[g];
            var kept := multiset(states[n].stash)[g] + multiset(Frames(History(outs, n)))[g];
            arrived >= kept && (arrived == kept || Obsolete(g, History(outs, n)))
    decreases n
  {
    hide Step, Good, Obsolete, Frames;
    if n == 0 {
      assert Frames([]) == [];
    } else {
      var m := n - 1;
      NothingLost(arrivals, states, outs, m, g);
      RunIsGood(arrivals, states, outs, m);
      var es := History(outs, m);
      StepAccounts(states[m], arrivals[m], states[n], es, outs[m], g);
      CountNext(arrivals, m, g);
      CountJoin(es, outs[m], g);
      if Obsolete(g, es) {
        ObsoleteStays(g, es, outs[m]);
      }
    }
  }

  // -- Confluence

  /** A keyframe and delta frames that follow it without a gap. */
  ghost predicate IsGop(chain: seq<Frame>) {
    && chain != []
    && (forall i :: 0 <= i < |chain| ==> chain[i].first <= chain[i].last && (chain[i].isKey <==> i == 0))
    && (forall i :: 0 < i < |chain| ==> chain[i].first == chain[i - 1].last + 1)
  }

  /** What a receiver should see of the frame at `i`: a delta frame refers to its predecessor. */
  ghost function ExpectedAt(chain: seq<Frame>, i: nat): Emitted
    requires i < |chain|
  {
    Emitted(chain[i], chain[i].first, if i == 0 then [] else [chain[i - 1].first])
  }

  ghost function Expected(chain: seq<Frame>): (r: seq<Emitted>)
    ensures |r| == |chain|
    ensures forall i: nat :: i < |chain| ==> r[i] == ExpectedAt(chain, i)
  {
    seq(|chain|, i requires 0 <= i < |chain| => ExpectedAt(chain, i))
  }

  lemma {:induction false} FirstsIncrease(chain: seq<Frame>, i: nat, j: nat)
    requires IsGop(chain) && i < j < |chain|
    ensures chain[i].last < chain[j].first
    decreases j
  {
    if i < j - 1 {
      FirstsIncrease(chain, i, j - 1);
    }
  }

  /** A frame of the chain is known by its first number. */
  lemma FirstDecides(chain: seq<Frame>, f: Frame, i: nat)
    requires IsGop(chain) && f in chain && i < |chain| && f.first == chain[i].first
    ensures f == chain[i]
  {
    var j :| 0 <= j < |chain| && chain[j] == f;
    if i < j {
      FirstsIncrease(chain, i, j);
    } else if j < i {
      FirstsIncrease(chain, j, i);
    }
  }

  /** Where the chain ends nothing follows. */
  lemma NothingFollows(chain: seq<Frame>, f: Frame)
    requires IsGop(chain) && f in chain
    ensures f.first != chain[|chain| - 1].last + 1
  {
    var j :| 0 <= j < |chain| && chain[j] == f;
    if j < |chain| - 1 {
      FirstsIncrease(chain, j, |chain| - 1);
    }
  }

  lemma ExpectedExtend(chain: seq<Frame>, c: nat, k: nat, more: seq<Emitted>, e: Emitted)
    requires c <= k < |chain| && more == Expected(chain)[c..k] && e == ExpectedAt(chain, k)
    ensures more + [e] == Expected(chain)[c..k + 1]
  {
    hide Expected;
  }

  /** The last of the expected frames from `c` to `k`, or the frame before them. */
  lemma ExpectedLast(chain: seq<Frame>, c: nat, k: nat, more: seq<Emitted>)
    requires 0 < c <= k <= |chain| && more == Expected(chain)[c..k]
    ensures (if c == k then chain[c - 1] else more[|more| - 1].frame) == chain[k - 1]
  {
    hide Expected;
    assert c < k ==> more[|more| - 1] == Expected(chain)[k - 1];
  }

  /** Frames of the chain that follow one another after position `c` are the next of the chain. */
  lemma {:induction false} ChainedIsNext(chain: seq<Frame>, c: nat, more: seq<Emitted>)
    requires IsGop(chain) && 0 < c <= |chain|
    requires Chained(chain[c - 1].first, chain[c - 1].last, more)
    requires forall i :: 0 <= i < |more| ==> more[i].frame in chain
    ensures c + |more| <= |chain|
    ensures more == Expected(chain)[c..c + |more|]
  {
    hide IsGop, Expected;
    if more != [] {
      var n := |more| - 1;
      var before, k := more[..n], c + n;
      ChainedPrefix(chain[c - 1].first, chain[c - 1].last, more, n);
      ChainedIsNext(chain, c, before);
      ExpectedLast(chain, c, k, before);
      assert ChainedAt(chain[c - 1].first, chain[c - 1].last, more, n);
      if k == |chain| {
        NothingFollows(chain, more[n].frame);
      }
      NextFirst(chain, k);
      FirstDecides(chain, more[n].frame, k);
      ExpectedExtend(chain, c, k, before, more[n]);
      assert more == before + [more[n]];
    }
  }

  lemma NextFirst(chain: seq<Frame>, k: nat)
    requires IsGop(chain) && 0 < k < |chain|
    ensures chain[k].first == chain[k - 1].last + 1
  {
  }

  /** The frames seen are the first `c` of the chain and those in the stash. */
  ghost predicate Divided(stash: seq<Frame>, chain: seq<Frame>, c: nat, seen: multiset<Frame>)
    requires c <= |chain|
  {
    multiset(stash) + multiset(chain[..c]) == seen
  }

  lemma DividedNext(stash: seq<Frame>, chain: seq<Frame>, c: nat, seen: multiset<Frame>)
    requires c < |chain| && Divided(stash, chain, c, seen)
    ensures Divided(stash, chain, c + 1, seen + multiset{chain[c]})
  {
    assert chain[..c + 1] == chain[..c] + [chain[c]];
  }

  lemma DividedStashed(before: seq<Frame>, after: seq<Frame>, chain: seq<Frame>, c: nat, seen: multiset<Frame>,
      f: Frame)
    requires c <= |chain| && Divided(before, chain, c, seen) && multiset(after) == multiset(before) + multiset{f}
    ensures Divided(after, chain, c, seen + multiset{f})
  {
  }

  lemma DividedMoved(before: seq<Frame>, after: seq<Frame>, chain: seq<Frame>, c: nat, n: nat, seen: multiset<Frame>)
    requires c <= n <= |chain| && Divided(before, chain, c, seen)
    requires multiset(before) == multiset(after) + multiset(chain[c..n])
    ensures Divided(after, chain, n, seen)
  {
    assert chain[..n] == chain[..c] + chain[c..n];
  }

  lemma DividedHas(stash: seq<Frame>, chain: seq<Frame>, c: nat, seen: multiset<Frame>, f: Frame)
    requires c <= |chain| && Divided(stash, chain, c, seen) && f in multiset(stash)
    ensures f in seen
  {
  }

  /** With the frames `seen` so far, the first `c` of the chain are out and the others wait. */
  ghost predicate Progress(s: State, chain: seq<Frame>, seen: multiset<Frame>, es: seq<Emitted>, c: nat)
    requires chain != []
  {
    && c <= |chain| && es == Expected(chain)[..c]
    && Divided(s.stash, chain, c, seen)
    && if c == 0 then !s.gotInitial && chain[0] !in seen
       else s.gotInitial && s.gop == chain[0].first && LastIs(s, chain[c - 1]) && NoneResolvable(s)
  }

  lemma ResolvedFrames(chain: seq<Frame>, more: seq<Emitted>, c: nat)
    requires IsGop(chain) && 0 < c <= |chain|
    requires Chained(chain[c - 1].first, chain[c - 1].last, more)
    requires forall i :: 0 <= i < |more| ==> more[i].frame in chain
    ensures c + |more| <= |chain| && Frames(more) == chain[c..c + |more|]
    ensures Expected(chain)[..c] + more == Expected(chain)[..c + |more|]
  {
    hide IsGop, Chained, Expected, Frames;
    ChainedIsNext(chain, c, more);
    var n := c + |more|;
    forall i: nat | i < |more| ensures more[i] == ExpectedAt(chain, c + i) {
      assert more[i] == Expected(chain)[c..n][i] == Expected(chain)[c + i];
    }
  }

  lemma AfterResolving(mid: State, after: State, chain: seq<Frame>, seen: multiset<Frame>, es: seq<Emitted>,
                       more: seq<Emitted>, c: nat)
    requires IsGop(chain) && 0 < c <= |chain| && es == Expected(chain)[..c]
    requires mid.gotInitial && mid.gop == chain[0].first && LastIs(mid, chain[c - 1])
    requires Divided(mid.stash, chain, c, seen) && seen <= multiset(chain)
    requires Resolves(mid, after, more)
    ensures Progress(after, chain, seen, es + more, c + |more|)
  {
    hide IsGop, Chained, Expected, Frames, NoneResolvable, Divided;
    forall i | 0 <= i < |more|
      ensures more[i].frame in chain
    {
      InStash(mid.stash, after.stash, more, i);
      DividedHas(mid.stash, chain, c, seen, more[i].frame);
    }
    ResolvedFrames(chain, more, c);
    var n := c + |more|;
    DividedMoved(mid.stash, after.stash, chain, c, n, seen);
    assert more != [] ==> more[|more| - 1].frame == Frames(more)[|more| - 1] == chain[n - 1];
  }

  lemma InStash(before: seq<Frame>, after: seq<Frame>, more: seq<Emitted>, i: nat)
    requires multiset(before) == multiset(after) + multiset(Frames(more)) && i < |more|
    ensures more[i].frame in multiset(before)
  {
    hide Frames;
    assert Frames(more)[i] in multiset(Frames(more));
  }

  /** No frame occurs twice in the chain. */
  lemma OnceInChain(chain: seq<Frame>, f: Frame, seen: multiset<Frame>)
    requires IsGop(chain) && f in chain && seen + multiset{f} <= multiset(chain)
    ensures f !in seen
  {
    var j :| 0 <= j < |chain| && chain[j] == f;
    assert chain == chain[..j] + [f] + chain[j + 1..];
    forall i | 0 <= i < |chain| && i != j ensures chain[i] != f {
      if i < j {
        FirstsIncrease(chain, i, j);
      } else {
        FirstsIncrease(chain, j, i);
      }
    }
    assert f !in chain[..j] && f !in chain[j + 1..];
    assert multiset(chain)[f] == 1;
  }

  lemma DeltaAfterKey(chain: seq<Frame>, f: Frame)
    requires IsGop(chain) && f in chain && f != chain[0]
    ensures !f.isKey && f.first > chain[0].first
  {
    var j :| 0 <= j < |chain| && chain[j] == f;
    FirstsIncrease(chain, 0, j);
  }

  lemma KeyIsFirst(chain: seq<Frame>)
    requires IsGop(chain)
    ensures chain[0].isKey
  {
  }

  lemma KeyArrives(before: State, after: State, chain: seq<Frame>, seen: multiset<Frame>, es: seq<Emitted>,
                   out: seq<Emitted>)
    requires IsGop(chain) && Progress(before, chain, seen, es, 0)
    requires seen + multiset{chain[0]} <= multiset(chain) && Step(before, chain[0], after, out)
    ensures Progress(after, chain, seen + multiset{chain[0]}, es + out, |out|)
  {
    hide Expected, Resolves, IsGop, Kept, NoneResolvable, Divided;
    KeyIsFirst(chain);
    var f := chain[0];
    forall g | g in before.stash
      ensures g.first >= f.first
    {
      DividedHas(before.stash, chain, 0, seen, g);
      assert g in multiset(chain);
      DeltaAfterKey(chain, g);
    }
    var mid := State(f.first, f.first, f.last, true, before.stash);
    assert Expected(chain)[..1] == [ExpectedAt(chain, 0)] == es + [out[0]];
    DividedNext(before.stash, chain, 0, seen);
    AfterResolving(mid, after, chain, seen + multiset{f}, es + [out[0]], out[1..], 1);
    assert es + [out[0]] + out[1..] == es + out;
  }

  lemma StepContinues(before: State, f: Frame, after: State, out: seq<Emitted>)
    requires Step(before, f, after, out) && !f.isKey && before.gotInitial && f.first == before.lastLast + 1
    ensures out != [] && out[0] == Emitted(f, f.first, [before.lastFirst])
    ensures Resolves(before.(lastFirst := f.first, lastLast := f.last), after, out[1..])
  {
  }

  lemma ExpectedPrefix(chain: seq<Frame>, c: nat)
    requires c < |chain|
    ensures Expected(chain)[..c + 1] == Expected(chain)[..c] + [ExpectedAt(chain, c)]
  {
    hide Expected;
  }

  lemma NextArrives(before: State, after: State, chain: seq<Frame>, seen: multiset<Frame>, es: seq<Emitted>,
                    f: Frame, out: seq<Emitted>, c: nat)
    requires IsGop(chain) && Progress(before, chain, seen, es, c) && c > 0
    requires f in chain && f != chain[0] && f.first == before.lastLast + 1
    requires seen + multiset{f} <= multiset(chain) && Step(before, f, after, out)
    ensures Progress(after, chain, seen + multiset{f}, es + out, c + |out|)
  {
    hide Expected, Resolves, IsGop, Step, NoneResolvable, Divided;
    DeltaAfterKey(chain, f);
    StepContinues(before, f, after, out);
    if c == |chain| {
      NothingFollows(chain, f);
    }
    NextFirst(chain, c);
    FirstDecides(chain, f, c);
    var mid := before.(lastFirst := f.first, lastLast := f.last);
    assert out[0] == ExpectedAt(chain, c);
    ExpectedPrefix(chain, c);
    DividedNext(before.stash, chain, c, seen);
    AfterResolving(mid, after, chain, seen + multiset{f}, es + [out[0]], out[1..], c + 1);
    assert es + [out[0]] + out[1..] == es + out;
  }

  lemma StashHasRoom(stash: seq<Frame>, chain: seq<Frame>, seen: multiset<Frame>, f: Frame, c: nat)
    requires chain != [] && c <= |chain| <= MAX_STASHED_FRAMES + 1 && f != chain[0]
    requires Divided(stash, chain, c, seen) && seen + multiset{f} <= multiset(chain)
    requires c == 0 ==> chain[0] !in seen
    ensures |stash| < MAX_STASHED_FRAMES
  {
    assert |multiset(stash)| + |multiset(chain[..c])| == |seen|;
    if c == 0 {
      assert chain[0] in multiset(chain);
      assert seen + multiset{f} + multiset{chain[0]} <= multiset(chain);
      Smaller(seen + multiset{f} + multiset{chain[0]}, multiset(chain));
    } else {
      Smaller(seen + multiset{f}, multiset(chain));
    }
  }

  /** A delta frame that does not follow, and is not older than the keyframe, joins a stash that has room. */
  lemma StepStashes(before: State, f: Frame, after: State, out: seq<Emitted>)
    requires Step(before, f, after, out) && !f.isKey && |before.stash| < MAX_STASHED_FRAMES
    requires before.gotInitial ==> f.first != before.lastLast + 1 && f.first >= before.gop
    ensures out == [] && after == before.(stash := after.stash)
    ensures multiset(after.stash) == multiset(before.stash) + multiset{f}
    ensures forall g :: g in after.stash ==> g == f || g in before.stash
  {
    StashedWithin(before.stash, f, after.stash, FirstNumber);
  }

  lemma LaterArrives(before: State, after: State, chain: seq<Frame>, seen: multiset<Frame>, es: seq<Emitted>,
                     f: Frame, out: seq<Emitted>, c: nat)
    requires IsGop(chain) && |chain| <= MAX_STASHED_FRAMES + 1 && Progress(before, chain, seen, es, c)
    requires f in chain && f != chain[0] && (c > 0 ==> f.first != before.lastLast + 1)
    requires seen + multiset{f} <= multiset(chain) && Step(before, f, after, out)
    ensures Progress(after, chain, seen + multiset{f}, es + out, c)
  {
    hide Expected, Resolves, IsGop, Divided, Step;
    DeltaAfterKey(chain, f);
    OnceInChain(chain, f, seen);
    StashHasRoom(before.stash, chain, seen, f, c);
    StepStashes(before, f, after, out);
    assert es + out == es;
    DividedStashed(before.stash, after.stash, chain, c, seen, f);
  }

  lemma {:induction false} Smaller(a: multiset<Frame>, b: multiset<Frame>)
    requires a <= b
    ensures |a| <= |b|
  {
    assert b == a + (b - a);
  }

  lemma KeyIsOut(chain: seq<Frame>, c: nat)
    requires chain != [] && c <= |chain|
    ensures c > 0 ==> chain[0] in multiset(chain[..c])
  {
    if c > 0 {
      assert chain[..c][0] == chain[0];
    }
  }

  lemma ProgressStep(before: State, after: State, chain: seq<Frame>, seen: multiset<Frame>, es: seq<Emitted>,
                     f: Frame, out: seq<Emitted>, c: nat) returns (n: nat)
    requires IsGop(chain) && |chain| <= MAX_STASHED_FRAMES + 1 && Progress(before, chain, seen, es, c)
    requires f in chain && seen + multiset{f} <= multiset(chain) && Step(before, f, after, out)
    ensures Progress(after, chain, seen + multiset{f}, es + out, n)
  {
    hide Expected, Step, IsGop, NoneResolvable;
    OnceInChain(chain, f, seen);
    if f == chain[0] {
      assert c == 0 by {
        KeyIsOut(chain, c);
      }
      KeyArrives(before, after, chain, seen, es, out);
      n := |out|;
    } else if c > 0 && f.first == before.lastLast + 1 {
      NextArrives(before, after, chain, seen, es, f, out, c);
      n := c + |out|;
    } else {
      LaterArrives(before, after, chain, seen, es, f, out, c);
      n := c;
    }
  }

  lemma NoProgressYet(chain: seq<Frame>)
    requires chain != []
    ensures Progress(INITIAL, chain, multiset{}, [], 0)
  {
    hide Expected;
    assert chain[..0] == [] && Expected(chain)[..0] == [];
  }

  lemma PrefixSeen(arrivals: seq<Frame>, t: nat)
    requires 0 < t <= |arrivals|
    ensures multiset(arrivals[..t]) == multiset(arrivals[..t - 1]) + multiset{arrivals[t - 1]} <= multiset(arrivals)
  {
    assert arrivals[..t] == arrivals[..t - 1] + [arrivals[t - 1]];
    assert arrivals == arrivals[..t] + arrivals[t..];
  }

  lemma {:induction false} RunProgress(chain: seq<Frame>, arrivals: seq<Frame>, states: seq<State>,
                                       outs: seq<seq<Emitted>>, t: nat) returns (c: nat)
    requires IsGop(chain) && |chain| <= MAX_STASHED_FRAMES + 1
    requires IsRun(arrivals, states, outs) && multiset(arrivals) == multiset(chain) && t <= |arrivals|
    ensures Progress(states[t], chain, multiset(arrivals[..t]), History(outs, t), c)
  {
    hide Step, Progress;
    if t == 0 {
      c := 0;
      NoProgressYet(chain);
      assert multiset(arrivals[..0]) == multiset{};
    } else {
      c := RunProgress(chain, arrivals, states, outs, t - 1);
      PrefixSeen(arrivals, t);
      var f := arrivals[t - 1];
      assert f in multiset(arrivals) && f in chain;
      c := ProgressStep(states[t - 1], states[t], chain, multiset(arrivals[..t - 1]), History(outs, t - 1), f,
          outs[t - 1], c);
    }
  }

  lemma Cancel(a: multiset<Frame>, b: multiset<Frame>, c: multiset<Frame>)
    requires a + c == b + c
    ensures a == b
  {
    assert a == (a + c) - c;
  }

  lemma NextWaits(stash: seq<Frame>, chain: seq<Frame>, c: nat)
    requires c < |chain| && multiset(stash) == multiset(chain[c..])
    ensures chain[c] in stash
  {
    assert chain[c..][0] == chain[c];
    assert chain[c] in multiset(stash);
  }

  lemma NextResolvable(s: State, chain: seq<Frame>, c: nat)
    requires IsGop(chain) && 0 < c < |chain| && LastIs(s, chain[c - 1]) && chain[c] in s.stash
    ensures !NoneResolvable(s)
  {
  }

  /** When every frame has arrived, nothing is left in the stash. */
  lemma ProgressEnds(s: State, chain: seq<Frame>, es: seq<Emitted>, c: nat)
    requires IsGop(chain) && chain != [] && Progress(s, chain, multiset(chain), es, c)
    ensures es == Expected(chain) && s.stash == []
  {
    hide Expected, IsGop, NoneResolvable;
    assert chain[0] in multiset(chain);
    assert chain == chain[..c] + chain[c..];
    Cancel(multiset(s.stash), multiset(chain[c..]), multiset(chain[..c]));
    if c < |chain| {
      NextWaits(s.stash, chain, c);
      NextResolvable(s, chain, c);
      assert false;
    }
    assert |multiset(s.stash)| == |multiset(chain[c..])|;
    assert Expected(chain)[..c] == Expected(chain);
  }

  /**
   Confluence: a keyframe and up to 100 delta frames that follow it without a gap come out in the same order,
   with the same IDs and references, whatever the order they arrive in.
   */
  lemma Confluence(chain: seq<Frame>, arrivals: seq<Frame>, states: seq<State>, outs: seq<seq<Emitted>>)
    requires IsGop(chain) && |chain| <= MAX_STASHED_FRAMES + 1
    requires IsRun(arrivals, states, outs) && multiset(arrivals) == multiset(chain)
    ensures History(outs, |arrivals|) == Expected(chain)
    ensures states[|arrivals|].stash == []
  {
    hide Step, Expected, Progress;
    var n := |arrivals|;
    var c := RunProgress(chain, arrivals, states, outs, n);
    assert arrivals[..n] == arrivals;
    ProgressEnds(states[n], chain, History(outs, n), c);
  }

  // -- The finder

  class SeqNumOnlyRefFinder {
    var lastSeqNumGOP: int
    var lastFrameFirstSeqNum: int
    var lastFrameLastSeqNum: int
    var gotInitialFrame: bool
    var stashedFrames: seq<Frame>
    /** Everything emitted so far. */
    ghost var emitted: seq<Emitted>

    ghost function View(): State
      reads this
    {
      State(lastSeqNumGOP, lastFrameFirstSeqNum, lastFrameLastSeqNum, gotInitialFrame, stashedFrames)
    }

    ghost predicate Valid()
      reads this
    {
      Good(View(), emitted)
    }

    constructor ()
      ensures Valid() && View() == INITIAL && emitted == []
    {
      lastSeqNumGOP, lastFrameFirstSeqNum, lastFrameLastSeqNum := -1, -1, -1;
      gotInitialFrame := false;
      stashedFrames := [];
      emitted := [];
    }

    /** Takes the first stashed frame that follows the last frame emitted, if there is one. */
    method ResolveOne() returns (r: Option<Emitted>)
      modifies this`lastFrameFirstSeqNum, this`lastFrameLastSeqNum, this`stashedFrames
      ensures r.None? ==> View() == old(View()) && NoneResolvable(View())
      ensures r.Some? ==>
                && multiset(old(stashedFrames)) == multiset(stashedFrames) + multiset{r.value.frame}
                && ChainedAt(old(lastFrameFirstSeqNum), old(lastFrameLastSeqNum), [r.value], 0)
                && (Sorted(old(stashedFrames), FirstNumber) ==> Sorted(stashedFrames, FirstNumber))
                && LastIs(View(), r.value.frame) && |stashedFrames| < old(|stashedFrames|)
    {
      for i := 0 to |stashedFrames|
        invariant View() == old(View())
        invariant forall j :: 0 <= j < i ==> stashedFrames[j].first != lastFrameLastSeqNum + 1
      {
        var stashed := stashedFrames[i];
        var expectedFirstSeqNum := lastFrameLastSeqNum + 1;
        if stashed.first == expectedFirstSeqNum {
          r := Some(Emitted(stashed, stashed.first, [lastFrameFirstSeqNum]));
          lastFrameFirstSeqNum := stashed.first;
          lastFrameLastSeqNum := stashed.last;
          TakenOut(stashedFrames, i, FirstNumber);
          stashedFrames := stashedFrames[..i] + stashedFrames[i + 1..];
          return;
        }
      }
      return None;
    }

    method TryResolveStashedFrames() returns (result: seq<Emitted>)
      modifies this`lastFrameFirstSeqNum, this`lastFrameLastSeqNum, this`stashedFrames
      ensures Resolves(old(View()), View(), result)
    {
      hide Sorted, Frames, ChainedAt;
      result := [];
      while true
        invariant multiset(old(stashedFrames)) == multiset(stashedFrames) + multiset(Frames(result))
        invariant Sorted(old(stashedFrames), FirstNumber) ==> Sorted(stashedFrames, FirstNumber)
        invariant Chained(old(lastFrameFirstSeqNum), old(lastFrameLastSeqNum), result)
        invariant if result == [] then View() == old(View()) else LastIs(View(), result[|result| - 1].frame)
        decreases |stashedFrames|
      {
        var resolved := ResolveOne();
        if resolved.None? {
          break;
        }
        ChainedExtend(old(lastFrameFirstSeqNum), old(lastFrameLastSeqNum), result, resolved.value);
        result := result + [resolved.value];
      }
    }

    method StashFrame(frame: Frame)
      modifies this`stashedFrames
      ensures Stashed(old(stashedFrames), frame, stashedFrames, FirstNumber)
    {
      stashedFrames := Stash(stashedFrames, frame, FirstNumber);
    }

    method ClearStashedFramesBefore(seqNum: int)
      modifies this`stashedFrames
      ensures stashedFrames == Kept(old(stashedFrames), FirstNumber, seqNum)
    {
      stashedFrames := Keep(stashedFrames, FirstNumber, seqNum);
    }

    method HandleKeyframe(frame: Frame) returns (result: seq<Emitted>)
      requires frame.isKey
      modifies this`lastSeqNumGOP, this`lastFrameFirstSeqNum, this`lastFrameLastSeqNum, this`gotInitialFrame,
          this`stashedFrames
      ensures Step(old(View()), frame, View(), result)
    {
      hide Resolves, Kept;
      lastSeqNumGOP := frame.first;
      lastFrameFirstSeqNum := frame.first;
      lastFrameLastSeqNum := frame.last;
      gotInitialFrame := true;
      ClearStashedFramesBefore(frame.first);
      result := [Emitted(frame, frame.first, [])];
      var resolved := TryResolveStashedFrames();
      result := result + resolved;
      assert result[1..] == resolved;
    }

    method HandleDeltaFrame(frame: Frame) returns (result: seq<Emitted>)
      requires !frame.isKey
      modifies this`lastFrameFirstSeqNum, this`lastFrameLastSeqNum, this`stashedFrames
      ensures Step(old(View()), frame, View(), result)
    {
      hide Resolves, Stashed;
      result := [];
      if !gotInitialFrame {
        StashFrame(frame);
        return;
      }
      var expectedFirstSeqNum := lastFrameLastSeqNum + 1;
      if frame.first == expectedFirstSeqNum {
        result := [Emitted(frame, frame.first, [lastFrameFirstSeqNum])];
        lastFrameFirstSeqNum := frame.first;
        lastFrameLastSeqNum := frame.last;
        var resolved := TryResolveStashedFrames();
        result := result + resolved;
        assert result[1..] == resolved;
        return;
      }
      if frame.first < lastSeqNumGOP {
        return;
      }
      StashFrame(frame);
    }

    /** Processes a frame and returns it and the stashed frames that it releases. */
    method ManageFrame(frame: Option<Frame>) returns (result: seq<Emitted>)
      requires Valid()
      modifies this
      ensures Valid() && emitted == old(emitted) + result
      ensures frame.None? ==> result == [] && View() == old(View())
      ensures frame.Some? ==> Step(old(View()), frame.value, View(), result)
    {
      hide Good, Step;
      if frame.None? {
        result := [];
      } else {
        if frame.value.isKey {
          result := HandleKeyframe(frame.value);
        } else {
          result := HandleDeltaFrame(frame.value);
        }
        StepKeepsGood(old(View()), frame.value, View(), emitted, result);
        emitted := emitted + result;
      }
    }

    method ClearTo(seqNum: int)
      requires Valid()
      modifies this`stashedFrames
      ensures Valid() && stashedFrames == Kept(old(stashedFrames), FirstNumber, seqNum)
    {
      hide Kept, Sorted;
      KeptSorted(stashedFrames, FirstNumber, seqNum);
      ClearStashedFramesBefore(seqNum);
    }
  }

  lemma ChainedExtend(lastFirst: int, lastLast: int, es: seq<Emitted>, e: Emitted)
    requires Chained(lastFirst, lastLast, es)
    requires if es == [] then ChainedAt(lastFirst, lastLast, [e], 0)
             else ChainedAt(es[|es| - 1].frame.first, es[|es| - 1].frame.last, [e], 0)
    ensures Chained(lastFirst, lastLast, es + [e]) && Frames(es + [e]) == Frames(es) + [e.frame]
  {
    forall i: nat | i < |es| + 1 ensures ChainedAt(lastFirst, lastLast, es + [e], i) {
      assert i < |es| ==> ChainedAt(lastFirst, lastLast, es, i);
    }
  }
}
