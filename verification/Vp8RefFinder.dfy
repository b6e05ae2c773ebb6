/**
 References by VP8 temporal layers (pkg/videoframe/vp8_ref_finder.go). The layer table is a function of the frames
 emitted so far, every reference is read from that table, and frames whose entry is missing wait in a stash.
 */
module Vp8References {
  import opened Stashes
  import opened Words
  import opened VideoUnwrappers

  const MAX_TEMPORAL_LAYERS := 4
  const MAX_TL0_HISTORY := 10
  const MAX_PICTURE_AGE := 100

  type Tid = t: int | 0 <= t < MAX_TEMPORAL_LAYERS

  /** A frame with its temporal layer, its unwrapped picture ID and its unwrapped base-layer index. */
  datatype Frame = Frame(isKey: bool, tid: Tid, pid: nat, tl0: nat)

  /** A frame as it is handed on; its ID is its picture ID. */
  datatype Emitted = Emitted(frame: Frame, references: seq<int>)

  /** For each temporal layer the picture ID of its last frame plus one, or zero. */
  type LayerInfo = s: seq<nat> | |s| == MAX_TEMPORAL_LAYERS witness [0, 0, 0, 0]

  type Layers = map<int, LayerInfo>

  const NO_LAYERS: LayerInfo := [0, 0, 0, 0]

  /** Only a keyframe of the base layer starts over; one of a higher layer is treated as any other frame. */
  predicate StartsOver(f: Frame) {
    f.isKey && f.tid == 0
  }

  // -- The layer table

  function InfoAt(layers: Layers, tl0: int): LayerInfo {
    if tl0 in layers then layers[tl0] else NO_LAYERS
  }

  /** The entries that are at most ten base-layer frames old. */
  function Recent(layers: Layers, tl0: int): (r: Layers)
    ensures forall k :: k in r <==> k in layers && tl0 - k <= MAX_TL0_HISTORY
    ensures forall k :: k in r ==> r[k] == layers[k]
  {
    map k | k in layers && tl0 - k <= MAX_TL0_HISTORY :: layers[k]
  }

  function Updated(layers: Layers, f: Frame): Layers {
    if StartsOver(f) then Restarted(layers, f)
    else layers[f.tl0 := InfoAt(layers, f.tl0)[f.tid := f.pid + 1]]
  }

  /** The table after a history of emitted frames. */
  ghost function LayersAfter(es: seq<Emitted>): Layers {
    if es == [] then map[] else Updated(LayersAfter(es[..|es| - 1]), es[|es| - 1].frame)
  }

  lemma LayersAppend(es: seq<Emitted>, e: Emitted)
    ensures LayersAfter(es + [e]) == Updated(LayersAfter(es), e.frame)
  {
    assert (es + [e])[..|es|] == es;
  }

  /** The table after a base-layer keyframe. */
  function Restarted(layers: Layers, f: Frame): Layers {
    Recent(layers[f.tl0 := NO_LAYERS[0 := f.pid + 1]], f.tl0)
  }

  /** The highest layer up to `t` that has a frame, or -1. */
  function Highest(info: LayerInfo, t: int): (r: int)
    requires t < MAX_TEMPORAL_LAYERS
    ensures r <= t || r == -1
    ensures r >= 0 ==> info[r] != 0 && forall i :: r < i <= t ==> info[i] == 0
    ensures r < 0 ==> r == -1 && forall i :: 0 <= i <= t ==> info[i] == 0
  {
    if t < 0 then -1 else if info[t] != 0 then t else Highest(info, t - 1)
  }

  /** Some entry of the table has a base-layer frame with this picture ID. */
  ghost predicate SomeBase(layers: Layers, r: int) {
    exists k :: k in layers && layers[k][0] != 0 && r == layers[k][0] - 1
  }

  /**
   The picture IDs a frame may refer to: for the base layer the previous base-layer frame; for a higher layer
   the highest lower layer of the same group, else its own layer there, else any base-layer frame in the table.
   */
  ghost predicate MayRefer(layers: Layers, f: Frame, r: int) {
    var info := InfoAt(layers, f.tl0);
    if f.tid == 0 then
      InfoAt(layers, f.tl0 - 1)[0] != 0 && r == InfoAt(layers, f.tl0 - 1)[0] - 1
    else if Highest(info, f.tid - 1) >= 0 then r == info[Highest(info, f.tid - 1)] - 1
    else if info[f.tid] != 0 then r == info[f.tid] - 1
    else SomeBase(layers, r)
  }

  ghost predicate Resolvable(layers: Layers, f: Frame) {
    exists r :: MayRefer(layers, f, r)
  }

  // -- What every run keeps

  /** A base-layer keyframe comes with no reference, any other frame with one that the table of its time allows. */
  ghost predicate JustifiedAt(es: seq<Emitted>, i: nat)
    requires i < |es|
  {
    if StartsOver(es[i].frame) then es[i].references == []
    else i > 0 && |es[i].references| == 1 && MayRefer(LayersAfter(es[..i]), es[i].frame, es[i].references[0])
  }

  ghost predicate Justified(es: seq<Emitted>) {
    forall i: nat :: i < |es| ==> JustifiedAt(es, i)
  }

  /** The entry of layer `t` in group `tl0` is the picture ID, plus one, of an emitted frame of that layer and group. */
  ghost predicate EntryEmitted(es: seq<Emitted>, tl0: int, t: Tid, entry: nat) {
    exists j :: 0 <= j < |es| && es[j].frame.pid + 1 == entry && es[j].frame.tid == t && es[j].frame.tl0 == tl0
  }

  lemma EntryEmittedLater(es: seq<Emitted>, e: Emitted, tl0: int, t: Tid, entry: nat)
    requires EntryEmitted(es, tl0, t, entry)
    ensures EntryEmitted(es + [e], tl0, t, entry)
  {
    var j :| 0 <= j < |es| && es[j].frame.pid + 1 == entry && es[j].frame.tid == t && es[j].frame.tl0 == tl0;
    assert (es + [e])[j] == es[j];
  }

  /** Every entry of the table belongs to an emitted frame. */
  lemma {:induction false} TableHoldsEmitted(es: seq<Emitted>, tl0: int, t: Tid)
    requires tl0 in LayersAfter(es) && LayersAfter(es)[tl0][t] != 0
    ensures EntryEmitted(es, tl0, t, LayersAfter(es)[tl0][t])
  {
    hide EntryEmitted;
    var n := |es| - 1;
    var before, e := LayersAfter(es[..n]), es[n];
    var entry := LayersAfter(es)[tl0][t];
    assert es == es[..n] + [e];
    if e.frame.tl0 == tl0 && e.frame.tid == t && entry == e.frame.pid + 1 {
      EntryIsLast(es, tl0, t, entry);
    } else {
      assert tl0 in before && before[tl0][t] == entry;
      TableHoldsEmitted(es[..n], tl0, t);
      EntryEmittedLater(es[..n], e, tl0, t, entry);
    }
  }

  lemma EntryIsLast(es: seq<Emitted>, tl0: int, t: Tid, entry: nat)
    requires es != [] && var f := es[|es| - 1].frame; f.tl0 == tl0 && f.tid == t && entry == f.pid + 1
    ensures EntryEmitted(es, tl0, t, entry)
  {
  }

  /** The frame at `i` refers to the frame at `j`, emitted earlier, of the same or a lower layer. */
  ghost predicate RefersTo(es: seq<Emitted>, i: nat, j: nat)
    requires i < |es|
  {
    && j < i && es[i].references == [es[j].frame.pid] && es[j].frame.tid <= es[i].frame.tid
    && (es[i].frame.tid == 0 ==> es[j].frame.tl0 == es[i].frame.tl0 - 1)
  }

  /**
   Dependency order: in a justified history every frame but a base-layer keyframe has exactly one reference, and
   that is the ID of a frame emitted earlier in the same or a lower layer; a base-layer frame refers to the base
   layer of the group just before its own.
   */
  lemma ReferencesEarlier(es: seq<Emitted>, i: nat) returns (j: nat)
    requires Justified(es) && i < |es| && !StartsOver(es[i].frame)
    ensures RefersTo(es, i, j)
  {
    hide LayersAfter, Highest;
    assert JustifiedAt(es, i);
    var layers, f, r := LayersAfter(es[..i]), es[i].frame, es[i].references[0];
    var info := InfoAt(layers, f.tl0);
    var tl0: int, t: Tid := f.tl0, 0;
    if f.tid == 0 {
      tl0 := f.tl0 - 1;
    } else if Highest(info, f.tid - 1) >= 0 {
      t := Highest(info, f.tid - 1);
    } else if info[f.tid] != 0 {
      t := f.tid;
    } else {
      tl0 :| tl0 in layers && layers[tl0][0] != 0 && r == layers[tl0][0] - 1;
    }
    TableHoldsEmitted(es[..i], tl0, t);
    j :| 0 <= j < i && es[..i][j].frame.pid == r && es[..i][j].frame.tid == t && es[..i][j].frame.tl0 == tl0;
    assert es[i].references == [r];
  }

  /** The table of a history that began with a keyframe always has a base-layer frame. */
  lemma {:induction false} TableHasBase(es: seq<Emitted>)
    requires es != [] && StartsOver(es[0].frame)
    ensures exists k :: k in LayersAfter(es) && LayersAfter(es)[k][0] != 0
  {
    var n := |es| - 1;
    var layers, before, f := LayersAfter(es), LayersAfter(es[..n]), es[n].frame;
    if StartsOver(f) {
      assert layers[f.tl0][0] != 0;
    } else {
      TableHasBase(es[..n]);
      var k :| k in before && before[k][0] != 0;
      assert layers[k][0] != 0;
    }
  }

  /** After the first keyframe a frame of a higher layer never has to wait. */
  lemma EnhancementResolvable(es: seq<Emitted>, f: Frame)
    requires es != [] && StartsOver(es[0].frame) && f.tid > 0
    ensures Resolvable(LayersAfter(es), f)
  {
    hide LayersAfter, Highest;
    TableHasBase(es);
    var layers := LayersAfter(es);
    var k :| k in layers && layers[k][0] != 0;
    var info := InfoAt(layers, f.tl0);
    var r := if Highest(info, f.tid - 1) >= 0 then info[Highest(info, f.tid - 1)] - 1
             else if info[f.tid] != 0 then info[f.tid] - 1 else layers[k][0] - 1;
    assert SomeBase(layers, layers[k][0] - 1);
    assert MayRefer(layers, f, r);
  }

  lemma JustifiedExtend(es: seq<Emitted>, e: Emitted)
    requires Justified(es) && JustifiedAt(es + [e], |es|)
    ensures Justified(es + [e])
  {
    hide MayRefer, LayersAfter;
    forall i: nat | i < |es| ensures JustifiedAt(es + [e], i) {
      assert JustifiedAt(es, i);
      assert (es + [e])[..i] == es[..i];
    }
  }

  // -- The same over the history alone

  /** A base-layer keyframe starts its own group over and ends the groups more than ten before it. */
  predicate Clears(f: Frame, tl0: int) {
    f.isKey && f.tid == 0 && (f.tl0 == tl0 || f.tl0 - tl0 > 10)
  }

  /** The frame at `j` is the last of its group and layer, and its group has not been cleared since. */
  ghost predicate Stands(es: seq<Emitted>, j: int): (b: bool)
    ensures b ==> 0 <= j < |es|
  {
    && 0 <= j < |es|
    && forall m :: j < m < |es| ==>
         && !Clears(es[m].frame, es[j].frame.tl0)
         && !(es[m].frame.tl0 == es[j].frame.tl0 && es[m].frame.tid == es[j].frame.tid)
  }

  ghost predicate StandsFor(es: seq<Emitted>, j: int, tl0: int, t: int): (b: bool)
    ensures b ==> 0 <= j < |es|
  {
    Stands(es, j) && es[j].frame.tl0 == tl0 && es[j].frame.tid == t
  }

  ghost predicate SomeStands(es: seq<Emitted>, tl0: int, t: int) {
    exists j :: StandsFor(es, j, tl0, t)
  }

  /** The entry is that of the standing frame of the group and layer, or zero where there is none. */
  ghost predicate EntryStands(es: seq<Emitted>, tl0: int, t: int, entry: int) {
    && (entry == 0 <==> !SomeStands(es, tl0, t))
    && forall j :: StandsFor(es, j, tl0, t) ==> entry == es[j].frame.pid + 1
  }

  lemma StandsLater(es: seq<Emitted>, e: Emitted, tl0: int, t: int, j: int)
    ensures StandsFor(es + [e], j, tl0, t) <==>
              || (j == |es| && e.frame.tl0 == tl0 && e.frame.tid == t)
              || (&& StandsFor(es, j, tl0, t) && !Clears(e.frame, tl0)
                  && !(e.frame.tl0 == tl0 && e.frame.tid == t))
  {
    hide Clears;
    assert forall m :: 0 <= m < |es| ==> (es + [e])[m] == es[m];
    assert StandsFor(es + [e], j, tl0, t) && j < |es| ==> (es + [e])[|es|] == e;
  }

  lemma SomeStandsLater(es: seq<Emitted>, e: Emitted, tl0: int, t: int, entry: int)
    requires EntryStands(es, tl0, t, entry)
    ensures EntryStands(es + [e], tl0, t,
                        if e.frame.tl0 == tl0 && e.frame.tid == t then e.frame.pid + 1
                        else if Clears(e.frame, tl0) then 0 else entry)
  {
    hide Clears, StandsFor;
    forall j
      ensures StandsFor(es + [e], j, tl0, t) <==>
                || (j == |es| && e.frame.tl0 == tl0 && e.frame.tid == t)
                || (&& StandsFor(es, j, tl0, t) && !Clears(e.frame, tl0)
                    && !(e.frame.tl0 == tl0 && e.frame.tid == t))
    {
      StandsLater(es, e, tl0, t, j);
    }
    assert forall j :: 0 <= j < |es| ==> (es + [e])[j] == es[j];
    assert e.frame.tl0 == tl0 && e.frame.tid == t ==> StandsFor(es + [e], |es|, tl0, t);
  }

  lemma UpdatedEntry(layers: Layers, f: Frame, tl0: int, t: Tid)
    ensures InfoAt(Updated(layers, f), tl0)[t] ==
            if f.tl0 == tl0 && f.tid == t then f.pid + 1
            else if Clears(f, tl0) then 0
            else InfoAt(layers, tl0)[t]
  {
  }

  /** The table holds exactly the standing frames. */
  lemma {:induction false} TableIff(es: seq<Emitted>, tl0: int, t: Tid)
    ensures EntryStands(es, tl0, t, InfoAt(LayersAfter(es), tl0)[t])
  {
    hide EntryStands, Updated, Clears, InfoAt;
    if es == [] {
      NothingStands(tl0, t);
    } else {
      var n := |es| - 1;
      TableIff(es[..n], tl0, t);
      UpdatedEntry(LayersAfter(es[..n]), es[n].frame, tl0, t);
      SomeStandsLater(es[..n], es[n], tl0, t, InfoAt(LayersAfter(es[..n]), tl0)[t]);
      assert es[..n] + [es[n]] == es;
    }
  }

  lemma NothingStands(tl0: int, t: Tid)
    ensures EntryStands([], tl0, t, InfoAt(map[], tl0)[t])
  {
  }

  /** The group has a standing frame in a layer below `t`. */
  ghost predicate SomeBelow(es: seq<Emitted>, tl0: int, t: int) {
    exists k :: Stands(es, k) && es[k].frame.tl0 == tl0 && es[k].frame.tid < t
  }

  /**
   The frame at `j` is what a frame that follows the history refers to. In the base layer that is the standing
   base-layer frame of the group before. Above it, the standing frame of its group in the highest lower layer that
   has one; only where there is none, that of its own layer; and only where that is missing too, some standing
   base-layer frame.
   */
  ghost predicate Target(es: seq<Emitted>, f: Frame, j: int): (b: bool)
    ensures b ==> 0 <= j < |es|
  {
    && Stands(es, j)
    && var to := es[j].frame;
       if f.tid == 0 then to.tl0 == f.tl0 - 1 && to.tid == 0
       else if SomeBelow(es, f.tl0, f.tid) then
         && to.tl0 == f.tl0 && to.tid < f.tid
         && forall k :: Stands(es, k) && es[k].frame.tl0 == f.tl0 && es[k].frame.tid < f.tid ==>
              es[k].frame.tid <= to.tid
       else if SomeStands(es, f.tl0, f.tid) then to.tl0 == f.tl0 && to.tid == f.tid
       else to.tid == 0
  }

  ghost predicate CanRefer(es: seq<Emitted>, f: Frame) {
    exists j :: Target(es, f, j)
  }

  /** Which layer of a group is the highest below `t` that has a standing frame. */
  lemma HighestStands(es: seq<Emitted>, tl0: int, t: Tid)
    ensures var h := Highest(InfoAt(LayersAfter(es), tl0), t - 1);
            && (SomeBelow(es, tl0, t) <==> h >= 0)
            && (h >= 0 ==> h < t && SomeStands(es, tl0, h))
            && forall k :: Stands(es, k) && es[k].frame.tl0 == tl0 && es[k].frame.tid < t ==> es[k].frame.tid <= h
  {
    hide LayersAfter, InfoAt, Stands;
    var info := InfoAt(LayersAfter(es), tl0);
    var h := Highest(info, t - 1);
    forall u: Tid
      ensures info[u] == 0 <==> !SomeStands(es, tl0, u)
    {
      TableIff(es, tl0, u);
    }
    forall k | Stands(es, k) && es[k].frame.tl0 == tl0 && es[k].frame.tid < t
      ensures es[k].frame.tid <= h
    {
      assert StandsFor(es, k, tl0, es[k].frame.tid);
      assert info[es[k].frame.tid] != 0;
    }
    if h >= 0 {
      var j :| StandsFor(es, j, tl0, h);
      assert Stands(es, j) && es[j].frame.tl0 == tl0 && es[j].frame.tid < t;
    }
  }

  /** A base-layer frame of some entry of the table is a standing base-layer frame. */
  lemma SomeBaseIff(es: seq<Emitted>, r: int)
    ensures SomeBase(LayersAfter(es), r) <==> exists j :: Stands(es, j) && es[j].frame.tid == 0 && es[j].frame.pid == r
  {
    hide LayersAfter, Stands;
    var layers := LayersAfter(es);
    if SomeBase(layers, r) {
      var k :| k in layers && layers[k][0] != 0 && r == layers[k][0] - 1;
      TableIff(es, k, 0);
      var j :| StandsFor(es, j, k, 0);
      assert es[j].frame.pid == r;
    }
    if j :| Stands(es, j) && es[j].frame.tid == 0 && es[j].frame.pid == r {
      var k := es[j].frame.tl0;
      TableIff(es, k, 0);
      assert StandsFor(es, j, k, 0);
      assert k in layers && layers[k][0] - 1 == r;
    }
  }

  /** What the table allows is exactly what the history says. */
  lemma MayReferIff(es: seq<Emitted>, f: Frame, r: int)
    ensures MayRefer(LayersAfter(es), f, r) <==> exists j :: Target(es, f, j) && es[j].frame.pid == r
  {
    hide LayersAfter, InfoAt, Highest, SomeBase, Stands;
    var layers := LayersAfter(es);
    if f.tid == 0 {
      EntryIff(es, f.tl0 - 1, 0, r);
    } else {
      HighestStands(es, f.tl0, f.tid);
      EntryIff(es, f.tl0, f.tid, r);
      SomeBaseIff(es, r);
      var h := Highest(InfoAt(layers, f.tl0), f.tid - 1);
      if h >= 0 {
        EntryIff(es, f.tl0, h, r);
        HighestTarget(es, f, h);
      }
    }
  }

  lemma EntryIff(es: seq<Emitted>, tl0: int, t: Tid, r: int)
    ensures var entry := InfoAt(LayersAfter(es), tl0)[t];
            && (entry != 0 <==> SomeStands(es, tl0, t))
            && (entry != 0 && r == entry - 1 <==> exists j :: StandsFor(es, j, tl0, t) && es[j].frame.pid == r)
  {
    hide LayersAfter, InfoAt, Stands;
    TableIff(es, tl0, t);
    var entry := InfoAt(LayersAfter(es), tl0)[t];
    if entry != 0 && r == entry - 1 {
      var j :| StandsFor(es, j, tl0, t);
      assert es[j].frame.pid == r;
    }
  }

  lemma HighestTarget(es: seq<Emitted>, f: Frame, h: Tid)
    requires 0 < f.tid && h < f.tid && SomeStands(es, f.tl0, h)
    requires forall k :: Stands(es, k) && es[k].frame.tl0 == f.tl0 && es[k].frame.tid < f.tid ==> es[k].frame.tid <= h
    ensures SomeBelow(es, f.tl0, f.tid)
    ensures forall j :: Target(es, f, j) <==> StandsFor(es, j, f.tl0, h)
  {
    hide Stands;
    var top :| StandsFor(es, top, f.tl0, h);
    assert Stands(es, top) && es[top].frame.tl0 == f.tl0 && es[top].frame.tid < f.tid;
  }

  /** Whether a frame can be handed on is decided by the history. */
  lemma ResolvableIff(es: seq<Emitted>, f: Frame)
    ensures Resolvable(LayersAfter(es), f) <==> CanRefer(es, f)
  {
    hide MayRefer, Target, LayersAfter;
    if Resolvable(LayersAfter(es), f) {
      var r :| MayRefer(LayersAfter(es), f, r);
      MayReferIff(es, f, r);
    }
    if j :| Target(es, f, j) {
      MayReferIff(es, f, es[j].frame.pid);
    }
  }

  /** A base-layer keyframe refers to nothing, any other frame to the one frame its past says. */
  ghost predicate RefersProperly(es: seq<Emitted>, i: nat)
    requires i < |es|
  {
    if es[i].frame.isKey && es[i].frame.tid == 0 then es[i].references == []
    else exists j :: Target(es[..i], es[i].frame, j) && es[i].references == [es[j].frame.pid]
  }

  /** Every frame of a justified history refers to what its past says. */
  lemma JustifiedRefersProperly(es: seq<Emitted>, i: nat)
    requires Justified(es) && i < |es|
    ensures RefersProperly(es, i)
  {
    hide MayRefer, Target, LayersAfter;
    assert JustifiedAt(es, i);
    if !StartsOver(es[i].frame) {
      var r := es[i].references[0];
      MayReferIff(es[..i], es[i].frame, r);
      var j :| Target(es[..i], es[i].frame, j) && es[..i][j].frame.pid == r;
      assert es[i].references == [es[j].frame.pid];
    }
  }

  function Frames(es: seq<Emitted>): (r: seq<Frame>)
    ensures |r| == |es|
    ensures forall i :: 0 <= i < |es| ==> r[i] == es[i].frame
  {
    seq(|es|, i requires 0 <= i < |es| => es[i].frame)
  }

  function PictureId(f: Frame): int {
    f.pid
  }

  /** Every emitted frame refers to what its past says; what waits is in order, and none of it could be handed on. */
  ghost predicate InOrder(es: seq<Emitted>, stash: seq<Frame>) {
    && (es != [] ==> es[0].frame.isKey && es[0].frame.tid == 0)
    && (forall i: nat :: i < |es| ==> RefersProperly(es, i))
    && |stash| <= 100 && Sorted(stash, PictureId)
    && forall f :: f in stash ==> !CanRefer(es, f)
  }

  /** The frame at `i` is the first of the stash that can be handed on. */
  ghost predicate FirstReady(es: seq<Emitted>, stash: seq<Frame>, i: nat): (b: bool)
    ensures b ==> i < |stash|
  {
    i < |stash| && CanRefer(es, stash[i]) && forall j :: 0 <= j < i ==> !CanRefer(es, stash[j])
  }

  /** The frames were taken from the stash one by one, each being the first that could be handed on by then. */
  ghost predicate TakenInTurn(es: seq<Emitted>, stash: seq<Frame>, taken: seq<Emitted>, rest: seq<Frame>)
    decreases |taken|
  {
    if taken == [] then rest == stash
    else
      var n := |taken| - 1;
      exists left, i: nat :: TakenInTurn(es, stash, taken[..n], left) && FirstReady(es + taken[..n], left, i) &&
                             taken[n].frame == left[i] && rest == left[..i] + left[i + 1..]
  }

  lemma NoneTaken(es: seq<Emitted>, stash: seq<Frame>)
    ensures TakenInTurn(es, stash, [], stash)
  {
  }

  lemma TakenNext(es: seq<Emitted>, stash: seq<Frame>, taken: seq<Emitted>, left: seq<Frame>, i: nat, e: Emitted)
    requires TakenInTurn(es, stash, taken, left) && FirstReady(es + taken, left, i) && e.frame == left[i]
    ensures TakenInTurn(es, stash, taken + [e], left[..i] + left[i + 1..])
  {
    hide FirstReady;
    assert (taken + [e])[..|taken|] == taken;
  }

  /** What is taken is no longer in the stash, and nothing else leaves. */
  lemma {:induction false} TakenConserves(es: seq<Emitted>, stash: seq<Frame>, taken: seq<Emitted>, rest: seq<Frame>)
    requires TakenInTurn(es, stash, taken, rest)
    ensures multiset(stash) == multiset(rest) + multiset(Frames(taken))
    ensures Sorted(stash, PictureId) ==> Sorted(rest, PictureId)
    decreases |taken|
  {
    hide FirstReady, Sorted, Frames;
    if taken == [] {
      assert Frames(taken) == [];
    } else {
      var n := |taken| - 1;
      var left, i: nat :| TakenInTurn(es, stash, taken[..n], left) && FirstReady(es + taken[..n], left, i) &&
                          taken[n].frame == left[i] && rest == left[..i] + left[i + 1..];
      TakenConserves(es, stash, taken[..n], left);
      TakenOut(left, i, PictureId);
      FramesLast(taken);
    }
  }

  lemma FramesLast(es: seq<Emitted>)
    requires es != []
    ensures multiset(Frames(es)) == multiset(Frames(es[..|es| - 1])) + multiset{es[|es| - 1].frame}
  {
    assert Frames(es) == Frames(es[..|es| - 1]) + [es[|es| - 1].frame];
  }

  ghost predicate NoneResolvable(layers: Layers, stash: seq<Frame>) {
    forall f :: f in stash ==> !Resolvable(layers, f)
  }

  lemma HasMember(keys: set<int>)
    ensures keys != {} ==> exists k :: k in keys
  {
    if forall k :: k !in keys {
      assert keys == {};
    }
  }

  // -- The finder

  /** The temporal information of a frame; -1 stands for a field that is not present. */
  datatype Header = Header(pictureId: int, tl0PicIdx: int, temporalIdx: int)

  predicate IsComplete(h: Header) {
    h.temporalIdx != -1 && h.tl0PicIdx != -1 && h.pictureId != -1
  }

  /** A frame handed on without a look at the table. */
  datatype Fallback = Fallback(isKey: bool, id: int, references: seq<int>)

  class VP8RefFinder {
    const pictureIDUnwrapper: CounterUnwrapper
    const tl0Unwrapper: CounterUnwrapper
    var layerInfo: Layers
    var lastPictureID: int
    var gotInitialFrame: bool
    var stashedFrames: seq<Frame>
    /** Everything emitted so far. */
    ghost var emitted: seq<Emitted>

    /** The table is that of the emitted frames, which began with a keyframe and are justified. */
    ghost predicate Recorded()
      reads this
    {
      && Justified(emitted) && layerInfo == LayersAfter(emitted)
      && (gotInitialFrame <==> emitted != [])
      && (gotInitialFrame ==> StartsOver(emitted[0].frame) && lastPictureID == emitted[|emitted| - 1].frame.pid)
      && |stashedFrames| <= MAX_STASHED_FRAMES && Sorted(stashedFrames, PictureId)
      && forall f :: f in stashedFrames ==> !StartsOver(f)
    }

    /** Between calls, once there was a keyframe, no stashed frame can be resolved. */
    ghost predicate Valid()
      reads this
    {
      Recorded() && (gotInitialFrame ==> NoneResolvable(layerInfo, stashedFrames))
    }

    ghost predicate Unwraps() {
      && pictureIDUnwrapper != tl0Unwrapper
      && pictureIDUnwrapper.modulus == PICTURE_ID_MODULUS && tl0Unwrapper.modulus == TL0_PIC_IDX_MODULUS
    }

    constructor ()
      ensures Valid() && Unwraps() && fresh(pictureIDUnwrapper) && fresh(tl0Unwrapper)
      ensures emitted == [] && stashedFrames == []
    {
      pictureIDUnwrapper := new CounterUnwrapper(PICTURE_ID_MODULUS);
      tl0Unwrapper := new CounterUnwrapper(TL0_PIC_IDX_MODULUS);
      layerInfo, lastPictureID, gotInitialFrame, stashedFrames := map[], -1, false, [];
      emitted := [];
    }

    /** Whether a frame can be handed on now is decided by what was emitted. */
    lemma CanReferIff(f: Frame)
      requires Recorded()
      ensures CanRefer(emitted, f) <==> gotInitialFrame && Resolvable(layerInfo, f)
    {
      hide Target, MayRefer, LayersAfter, Justified, Resolvable;
      ResolvableIff(emitted, f);
    }

    lemma StaysInOrder()
      requires Valid()
      ensures InOrder(emitted, stashedFrames)
    {
      hide Target, MayRefer, LayersAfter, Justified, Resolvable, RefersProperly, CanRefer;
      forall i: nat | i < |emitted|
        ensures RefersProperly(emitted, i)
      {
        JustifiedRefersProperly(emitted, i);
      }
      forall f | f in stashedFrames
        ensures !CanRefer(emitted, f)
      {
        CanReferIff(f);
      }
    }

    /** Once there was a keyframe, only base-layer frames wait. */
    lemma OnlyBaseLayerWaits(f: Frame)
      requires Valid() && gotInitialFrame && f in stashedFrames
      ensures f.tid == 0
    {
      hide LayersAfter, Resolvable;
      if f.tid > 0 {
        EnhancementResolvable(emitted, f);
      }
    }

    /** A base-layer frame of any entry of the table, in whatever order the entries are visited. */
    method AnyBase() returns (r: Option<int>)
      ensures r.Some? ==> SomeBase(layerInfo, r.value)
      ensures r.None? ==> forall x :: !SomeBase(layerInfo, x)
    {
      var keys: set<int> := layerInfo.Keys;
      while keys != {}
        invariant keys <= layerInfo.Keys
        invariant forall k :: k in layerInfo && k !in keys ==> layerInfo[k][0] == 0
      {
        HasMember(keys);
        var k :| k in keys;
        if layerInfo[k][0] != 0 {
          return Some(layerInfo[k][0] - 1);
        }
        keys := keys - {k};
      }
      return None;
    }

    /** The loop that looks for the highest layer with a frame. */
    method HighestIn(info: LayerInfo, from: int) returns (r: Option<int>)
      requires from < MAX_TEMPORAL_LAYERS
      ensures r == if Highest(info, from) >= 0 then Some(info[Highest(info, from)] - 1) else None
    {
      var t := from;
      while t >= 0
        invariant t <= from && (t >= 0 || t == -1 || t == from)
        invariant Highest(info, from) == Highest(info, t)
      {
        if info[t] != 0 {
          return Some(info[t] - 1);
        }
        t := t - 1;
      }
      return None;
    }

    /**
     For a frame above the base layer the previous index is the frame's own, so the table of the group is searched
     a second time, from the frame's own layer down.
     */
    method GetReferences(f: Frame, prevTL0: int) returns (r: Option<int>)
      requires prevTL0 == if f.tid == 0 then f.tl0 - 1 else f.tl0
      ensures r.Some? ==> MayRefer(layerInfo, f, r.value)
      ensures r.Some? <==> Resolvable(layerInfo, f)
    {
      r := None;
      if f.tid == 0 {
        if prevTL0 !in layerInfo || layerInfo[prevTL0][0] == 0 {
          return;
        }
        r := Some(layerInfo[prevTL0][0] - 1);
      } else {
        if f.tl0 in layerInfo {
          r := HighestIn(layerInfo[f.tl0], f.tid - 1);
        }
        if r.None? && prevTL0 in layerInfo {
          r := HighestIn(layerInfo[prevTL0], f.tid);
        }
        if r.None? {
          r := AnyBase();
        }
      }
      assert r.Some? ==> MayRefer(layerInfo, f, r.value);
    }

    method InitLayerInfo(tl0: int, pid: nat)
      modifies this`layerInfo
      ensures layerInfo == old(layerInfo)[tl0 := NO_LAYERS[0 := pid + 1]]
    {
      layerInfo := layerInfo[tl0 := NO_LAYERS[0 := pid + 1]];
    }

    method UpdateLayerInfo(tl0: int, tid: Tid, pid: nat)
      modifies this`layerInfo
      ensures layerInfo == old(layerInfo)[tl0 := InfoAt(old(layerInfo), tl0)[tid := pid + 1]]
    {
      var info: LayerInfo := if tl0 in layerInfo then layerInfo[tl0] else NO_LAYERS;
      layerInfo := layerInfo[tl0 := info[tid := pid + 1]];
    }

    /** The part of `ClearOldState` that keeps the recent entries of the table. */
    method ClearOldLayers(tl0: int)
      modifies this`layerInfo
      ensures layerInfo == Recent(old(layerInfo), tl0)
    {
      var keys: set<int> := layerInfo.Keys;
      while keys != {}
        invariant keys <= layerInfo.Keys <= old(layerInfo).Keys
        invariant forall k :: k in old(layerInfo) && (k in keys || tl0 - k <= MAX_TL0_HISTORY) ==> k in layerInfo
        invariant forall k :: k in layerInfo ==> layerInfo[k] == old(layerInfo)[k]
        invariant forall k :: k in layerInfo ==> k in keys || tl0 - k <= MAX_TL0_HISTORY
        modifies this`layerInfo
      {
        HasMember(keys);
        var k :| k in keys;
        if tl0 - k > MAX_TL0_HISTORY {
          layerInfo := layerInfo - {k};
        }
        keys := keys - {k};
      }
      assert layerInfo == Recent(old(layerInfo), tl0);
    }

    /** The part of `ClearOldState` that keeps the recent frames of the stash. */
    method ClearOldStash()
      modifies this`stashedFrames
      ensures stashedFrames == Kept(old(stashedFrames), PictureId, lastPictureID - MAX_PICTURE_AGE + 1)
    {
      stashedFrames := Keep(stashedFrames, PictureId, lastPictureID - MAX_PICTURE_AGE + 1);
    }

    method ClearOldState(tl0: int)
      modifies this`layerInfo, this`stashedFrames
      ensures layerInfo == Recent(old(layerInfo), tl0)
      ensures stashedFrames == Kept(old(stashedFrames), PictureId, lastPictureID - MAX_PICTURE_AGE + 1)
    {
      hide Recent, Kept;
      ClearOldLayers(tl0);
      ClearOldStash();
    }

    /** Hands a frame on with its reference and enters it in the table. */
    method Emit(f: Frame, ref: int) returns (e: Emitted)
      requires Recorded() && gotInitialFrame && !StartsOver(f) && MayRefer(layerInfo, f, ref)
      modifies this`layerInfo, this`lastPictureID, this`emitted
      ensures Recorded() && e == Emitted(f, [ref]) && emitted == old(emitted) + [e]
    {
      hide MayRefer;
      e := Emitted(f, [ref]);
      UpdateLayerInfo(f.tl0, f.tid, f.pid);
      lastPictureID := f.pid;
      emitted := emitted + [e];
      assert emitted[..|emitted| - 1] == old(emitted);
      JustifiedExtend(old(emitted), e);
    }

    /** Takes the first stashed frame whose reference is in the table, if there is one. */
    method ResolveOne() returns (r: Option<Emitted>, ghost at: int)
      requires Recorded() && gotInitialFrame
      modifies this`layerInfo, this`lastPictureID, this`stashedFrames, this`emitted
      ensures Recorded()
      ensures r.None? ==> && NoneResolvable(layerInfo, stashedFrames)
                          && emitted == old(emitted) && stashedFrames == old(stashedFrames)
      ensures r.Some? ==> && emitted == old(emitted) + [r.value] && 0 <= at < |old(stashedFrames)|
                          && FirstReady(old(emitted), old(stashedFrames), at)
                          && r.value.frame == old(stashedFrames)[at]
                          && stashedFrames == old(stashedFrames)[..at] + old(stashedFrames)[at + 1..]
    {
      hide MayRefer, LayersAfter, Justified, Resolvable, CanRefer;
      at := 0;
      for i := 0 to |stashedFrames|
        invariant Recorded() && gotInitialFrame && emitted == old(emitted) && stashedFrames == old(stashedFrames)
        invariant layerInfo == old(layerInfo)
        invariant forall j :: 0 <= j < i ==>
                    !Resolvable(layerInfo, stashedFrames[j]) && !CanRefer(emitted, stashedFrames[j])
      {
        var stashed := stashedFrames[i];
        CanReferIff(stashed);
        var ref := GetReferences(stashed, if stashed.tid == 0 then stashed.tl0 - 1 else stashed.tl0);
        if ref.Some? {
          var e := Emit(stashed, ref.value);
          TakenOut(stashedFrames, i, PictureId);
          stashedFrames := stashedFrames[..i] + stashedFrames[i + 1..];
          return Some(e), i;
        }
      }
      return None, at;
    }

    method TryResolveStashedFrames() returns (result: seq<Emitted>)
      requires Recorded() && gotInitialFrame
      modifies this`layerInfo, this`lastPictureID, this`stashedFrames, this`emitted
      ensures Valid() && emitted == old(emitted) + result
      ensures TakenInTurn(old(emitted), old(stashedFrames), result, stashedFrames)
    {
      hide LayersAfter, Justified, NoneResolvable, TakenInTurn, FirstReady, Sorted;
      result := [];
      NoneTaken(emitted, stashedFrames);
      while true
        invariant Recorded() && gotInitialFrame && emitted == old(emitted) + result
        invariant TakenInTurn(old(emitted), old(stashedFrames), result, stashedFrames)
        decreases |stashedFrames|
      {
        ghost var left := stashedFrames;
        var resolved, at := ResolveOne();
        if resolved.None? {
          break;
        }
        TakenNext(old(emitted), old(stashedFrames), result, left, at, resolved.value);
        result := result + [resolved.value];
      }
    }

    method StartOver(f: Frame)
      requires Recorded() && StartsOver(f)
      modifies this`layerInfo, this`lastPictureID, this`gotInitialFrame, this`stashedFrames, this`emitted
      ensures Recorded() && gotInitialFrame && emitted == old(emitted) + [Emitted(f, [])]
      ensures stashedFrames == Kept(old(stashedFrames), PictureId, f.pid - MAX_PICTURE_AGE + 1)
    {
      hide MayRefer, Kept, Justified, LayersAfter, Recent;
      ghost var e := Emitted(f, []);
      KeptSorted(stashedFrames, PictureId, f.pid - MAX_PICTURE_AGE + 1);
      LayersAppend(emitted, e);
      JustifiedExtend(emitted, e);
      InitLayerInfo(f.tl0, f.pid);
      lastPictureID := f.pid;
      gotInitialFrame := true;
      ClearOldState(f.tl0);
      emitted := emitted + [e];
    }

    /** A base-layer keyframe is handed on at once; stashed frames at least 100 picture IDs older are given up. */
    method HandleKeyframe(f: Frame) returns (result: seq<Emitted>)
      requires Valid() && StartsOver(f)
      modifies this
      ensures Valid() && emitted == old(emitted) + result && result != [] && result[0] == Emitted(f, [])
      ensures TakenInTurn(old(emitted) + result[..1], Kept(old(stashedFrames), PictureId, f.pid - 99), result[1..],
                          stashedFrames)
      ensures InOrder(emitted, stashedFrames)
    {
      hide VP8RefFinder.Recorded, NoneResolvable, Kept, StartsOver, InOrder, TakenInTurn;
      StartOver(f);
      result := [Emitted(f, [])];
      var resolved := TryResolveStashedFrames();
      result := result + resolved;
      assert result[..1] == [result[0]] && result[1..] == resolved;
      StaysInOrder();
    }

    /** Any other frame is handed on if its reference is in the table, and waits if it is not. */
    method HandleDeltaFrame(f: Frame) returns (result: seq<Emitted>)
      requires Valid() && !StartsOver(f)
      modifies this
      ensures Valid() && emitted == old(emitted) + result
      ensures InOrder(emitted, stashedFrames)
      ensures CanRefer(old(emitted), f) ==>
                && result != [] && result[0].frame == f
                && TakenInTurn(old(emitted) + result[..1], old(stashedFrames), result[1..], stashedFrames)
      ensures !CanRefer(old(emitted), f) ==>
                result == [] && Stashed(old(stashedFrames), f, stashedFrames, PictureId)
    {
      hide VP8RefFinder.Recorded, MayRefer, Stashed, Resolvable, NoneResolvable, StartsOver, InOrder, CanRefer;
      hide TakenInTurn;
      CanReferIff(f);
      result := [];
      if !gotInitialFrame {
        StashFrame(f);
        StaysInOrder();
        return;
      }
      var refs := GetReferences(f, if f.tid == 0 then f.tl0 - 1 else f.tl0);
      if refs.None? {
        StashFrame(f);
        StaysInOrder();
        return;
      }
      var e := Emit(f, refs.value);
      result := [e];
      var resolved := TryResolveStashedFrames();
      result := result + resolved;
      assert result[..1] == [result[0]] && result[1..] == resolved;
      StaysInOrder();
    }

    method StashFrame(f: Frame)
      requires Valid() && !StartsOver(f) && (gotInitialFrame ==> !Resolvable(layerInfo, f))
      modifies this`stashedFrames
      ensures Valid() && Stashed(old(stashedFrames), f, stashedFrames, PictureId)
    {
      hide Resolvable, LayersAfter, Justified, Stashed;
      stashedFrames := Stash(stashedFrames, f, PictureId);
      StashedWithin(old(stashedFrames), f, stashedFrames, PictureId);
    }

    /** The frame that a header with full temporal information describes, when neither number falls below zero. */
    ghost function Described(isKey: bool, header: Header, pid: int, tl0: int): Option<Frame>
      requires header.temporalIdx >= 0
    {
      if pid < 0 || tl0 < 0 then None
      else Some(Frame(isKey, Min(header.temporalIdx, 3), pid, tl0))
    }

    /**
     A frame without full temporal information is handed on as it is; a delta frame refers to the ID before its
     own.
     */
    method FallbackManageFrame(isKey: bool, id: int, header: Header) returns (r: Fallback)
      requires Unwraps()
      modifies pictureIDUnwrapper
      ensures r.isKey == isKey && r.references == if isKey then [] else [r.id - 1]
      ensures r.id == if header.pictureId == -1 then id
                      else NextCounter(old(pictureIDUnwrapper.initialized), old(pictureIDUnwrapper.lastUnwrapped),
                                       header.pictureId, PICTURE_ID_MODULUS)
    {
      hide NextSigned;
      if header.pictureId != -1 {
        var unwrappedPID := pictureIDUnwrapper.Unwrap(header.pictureId);
        if isKey {
          return Fallback(isKey, unwrappedPID, []);
        }
        return Fallback(isKey, unwrappedPID, [unwrappedPID - 1]);
      }
      if isKey {
        return Fallback(isKey, id, []);
      }
      return Fallback(isKey, id, [id - 1]);
    }

    /**
     Processes a frame and returns what can be handed on. A frame without full temporal information goes to the
     fallback and changes nothing but the picture ID unwrapper.
     */
    method ManageFrame(isKey: bool, id: int, header: Option<Header>)
      returns (result: seq<Emitted>, fallback: Option<Fallback>, ghost pid: int, ghost tl0: int)
      requires Valid() && Unwraps() && (header.Some? ==> header.value.temporalIdx >= -1)
      modifies this, pictureIDUnwrapper, tl0Unwrapper
      ensures Valid() && emitted == old(emitted) + result
      ensures fallback.Some? <==> header.Some? && !IsComplete(header.value)
      ensures header.None? || fallback.Some? ==> result == [] && unchanged(this)
      ensures fallback.Some? ==>
                && fallback.value.isKey == isKey
                && fallback.value.references == (if isKey then [] else [fallback.value.id - 1])
                && fallback.value.id ==
                   if header.value.pictureId == -1 then id
                   else NextCounter(old(pictureIDUnwrapper.initialized), old(pictureIDUnwrapper.lastUnwrapped),
                                    header.value.pictureId, PICTURE_ID_MODULUS)
      ensures InOrder(emitted, stashedFrames)
      ensures header.Some? && IsComplete(header.value) ==>
                && pid == NextCounter(old(pictureIDUnwrapper.initialized), old(pictureIDUnwrapper.lastUnwrapped),
                                      header.value.pictureId, 0x8000)
                && tl0 == NextCounter(old(tl0Unwrapper.initialized), old(tl0Unwrapper.lastUnwrapped),
                                      header.value.tl0PicIdx, 0x100)
                && match Described(isKey, header.value, pid, tl0)
                   case None => result == [] && unchanged(this)
                   case Some(f) =>
                     if isKey && f.tid == 0 then
                       && result != [] && result[0] == Emitted(f, [])
                       && TakenInTurn(old(emitted) + result[..1], Kept(old(stashedFrames), PictureId, pid - 99),
                                      result[1..], stashedFrames)
                     else if CanRefer(old(emitted), f) then
                       && result != [] && result[0].frame == f
                       && TakenInTurn(old(emitted) + result[..1], old(stashedFrames), result[1..], stashedFrames)
                     else result == [] && Stashed(old(stashedFrames), f, stashedFrames, PictureId)
    {
      hide Resolvable, LayersAfter, Justified, Stashed, NextSigned, CanRefer, InOrder, Kept, TakenInTurn;
      StaysInOrder();
      result, fallback, pid, tl0 := [], None, 0, 0;
      if header.None? {
        return;
      }
      if header.value.temporalIdx == -1 || header.value.tl0PicIdx == -1 || header.value.pictureId == -1 {
        var frame := FallbackManageFrame(isKey, id, header.value);
        fallback := Some(frame);
        return;
      }
      var unwrappedPID := pictureIDUnwrapper.Unwrap(header.value.pictureId);
      var unwrappedTL0 := tl0Unwrapper.Unwrap(header.value.tl0PicIdx);
      pid, tl0 := unwrappedPID, unwrappedTL0;
      if unwrappedPID < 0 || unwrappedTL0 < 0 {
        return;
      }
      var tid := header.value.temporalIdx;
      if tid >= MAX_TEMPORAL_LAYERS {
        tid := MAX_TEMPORAL_LAYERS - 1;
      }
      var frame := Frame(isKey, tid, unwrappedPID, unwrappedTL0);
      if isKey && tid == 0 {
        result := HandleKeyframe(frame);
      } else {
        result := HandleDeltaFrame(frame);
      }
    }

    method ClearTo(pictureID: int)
      requires Valid()
      modifies this`stashedFrames
      ensures Valid() && stashedFrames == Kept(old(stashedFrames), PictureId, pictureID)
    {
      hide Kept;
      KeptSorted(stashedFrames, PictureId, pictureID);
      stashedFrames := Keep(stashedFrames, PictureId, pictureID);
    }
  }

  /** The next unwrapped value of a counter; a negative input is "not present". */
  function NextCounter(initialized: bool, last: int, value: int, modulus: int): int
    requires modulus > 0
  {
    if value < 0 then -1
    else if initialized then NextSigned(last, value % modulus, modulus)
    else value % modulus
  }
}
