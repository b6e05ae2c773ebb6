/**
 The sender's history of packets in flight (internal/cc/feedback_adapter.go, type feedbackHistory):
 a least-recently-used cache made of a list of elements and an index into it.
 */
module SendHistory {
  import opened Words

  /** Times are microseconds after the zero time, which stands for "no arrival". */
  datatype Acknowledgment = Acknowledgment(
    sequenceNumber: Uint16,
    ssrc: int,
    size: int,
    departure: int,
    arrival: int,
    ecn: int)

  datatype Key = Key(ssrc: int, sequenceNumber: Uint16)

  const NO_ACK := Acknowledgment(0, 0, 0, 0, 0, 0)

  function KeyOf(a: Acknowledgment): Key {
    Key(a.ssrc, a.sequenceNumber)
  }

  // -- The history as a list, most recent first

  ghost predicate DistinctKeys(list: seq<Acknowledgment>) {
    forall i, j :: 0 <= i < j < |list| ==> KeyOf(list[i]) != KeyOf(list[j])
  }

  function Without(list: seq<Acknowledgment>, key: Key): seq<Acknowledgment> {
    if list == [] then []
    else if KeyOf(list[0]) == key then Without(list[1..], key)
    else [list[0]] + Without(list[1..], key)
  }

  function Touched(list: seq<Acknowledgment>, a: Acknowledgment): seq<Acknowledgment> {
    [a] + Without(list, KeyOf(a))
  }

  function Limited(list: seq<Acknowledgment>, size: nat): seq<Acknowledgment> {
    if |list| <= size then list else list[..size]
  }

  function Lookup(list: seq<Acknowledgment>, key: Key): (r: Option<Acknowledgment>)
    ensures r.Some? ==> r.value in list && KeyOf(r.value) == key
    ensures r.None? ==> forall a :: a in list ==> KeyOf(a) != key
  {
    if list == [] then None
    else if KeyOf(list[0]) == key then Some(list[0])
    else Lookup(list[1..], key)
  }

  /** The history after a run of adds, one at a time. */
  function HistoryAfter(adds: seq<Acknowledgment>, size: nat): seq<Acknowledgment>
    decreases |adds|
  {
    if adds == [] then []
    else Limited(Touched(HistoryAfter(adds[..|adds| - 1], size), adds[|adds| - 1]), size)
  }

  /** The position of the last add with this key, or -1. */
  function LastAdd(adds: seq<Acknowledgment>, key: Key): (i: int)
    ensures -1 <= i < |adds|
    ensures i >= 0 ==> KeyOf(adds[i]) == key
    ensures forall j :: i < j < |adds| ==> KeyOf(adds[j]) != key
    decreases |adds|
  {
    if adds == [] then -1
    else if KeyOf(adds[|adds| - 1]) == key then |adds| - 1
    else LastAdd(adds[..|adds| - 1], key)
  }

  ghost predicate LastValues(adds: seq<Acknowledgment>, list: seq<Acknowledgment>) {
    forall i :: 0 <= i < |list| ==> LastAdd(adds, KeyOf(list[i])) >= 0 && list[i] == adds[LastAdd(adds, KeyOf(list[i]))]
  }

  ghost predicate MostRecentFirst(adds: seq<Acknowledgment>, list: seq<Acknowledgment>) {
    forall i, j :: 0 <= i < j < |list| ==> LastAdd(adds, KeyOf(list[i])) > LastAdd(adds, KeyOf(list[j]))
  }

  ghost predicate HasKey(list: seq<Acknowledgment>, key: Key) {
    exists i :: 0 <= i < |list| && KeyOf(list[i]) == key
  }

  /** Every key once, with its last acknowledgment, the most recently added first. */
  ghost predicate IsRecency(adds: seq<Acknowledgment>, list: seq<Acknowledgment>) {
    && LastValues(adds, list)
    && MostRecentFirst(adds, list)
    && (forall a :: a in adds ==> HasKey(list, KeyOf(a)))
  }

  function Recency(adds: seq<Acknowledgment>): seq<Acknowledgment>
    decreases |adds|
  {
    if adds == [] then [] else Touched(Recency(adds[..|adds| - 1]), adds[|adds| - 1])
  }

  // -- Removing a key

  /** With distinct keys, removing one takes out its element and nothing else. */
  lemma {:induction false} WithoutAbsent(list: seq<Acknowledgment>, key: Key)
    requires forall a :: a in list ==> KeyOf(a) != key
    ensures Without(list, key) == list
  {
    if list != [] {
      WithoutAbsent(list[1..], key);
    }
  }

  lemma {:induction false} WithoutAt(list: seq<Acknowledgment>, i: nat)
    requires DistinctKeys(list) && i < |list|
    ensures Without(list, KeyOf(list[i])) == list[..i] + list[i + 1..]
  {
    if i == 0 {
      WithoutAbsent(list[1..], KeyOf(list[0]));
    } else {
      WithoutAt(list[1..], i - 1);
      assert list[1..][i - 1] == list[i];
      assert [list[0]] + (list[1..][..i - 1] + list[1..][i..]) == list[..i] + list[i + 1..];
    }
  }

  lemma {:induction false} WithoutKeepsOthers(list: seq<Acknowledgment>, key: Key, a: Acknowledgment)
    ensures a in Without(list, key) <==> a in list && KeyOf(a) != key
  {
    if list != [] {
      WithoutKeepsOthers(list[1..], key, a);
    }
  }

  lemma TouchedDistinct(list: seq<Acknowledgment>, a: Acknowledgment)
    requires DistinctKeys(list)
    ensures DistinctKeys(Touched(list, a))
  {
    if exists i :: 0 <= i < |list| && KeyOf(list[i]) == KeyOf(a) {
      var i :| 0 <= i < |list| && KeyOf(list[i]) == KeyOf(a);
      WithoutAt(list, i);
    } else {
      WithoutAbsent(list, KeyOf(a));
    }
  }

  lemma DistinctPrefix(list: seq<Acknowledgment>, n: nat)
    requires DistinctKeys(list) && n <= |list|
    ensures DistinctKeys(list[..n])
  {
  }

  lemma CutAround(list: seq<Acknowledgment>, i: nat, n: nat)
    requires i < n <= |list|
    ensures list[..n][..i] + list[..n][i + 1..] == (list[..i] + list[i + 1..])[..n - 1]
  {
  }

  lemma CutBefore(list: seq<Acknowledgment>, i: nat, n: nat)
    requires n <= i < |list| && n > 0
    ensures (list[..i] + list[i + 1..])[..n - 1] == list[..n][..n - 1]
  {
  }

  /** Cutting the list before a touch loses nothing that the cut after it would keep. */
  lemma LimitThenWithout(list: seq<Acknowledgment>, key: Key, n: nat)
    requires DistinctKeys(list) && n > 0
    ensures Limited(Without(Limited(list, n), key), n - 1) == Limited(Without(list, key), n - 1)
  {
    hide Without, DistinctKeys;
    if |list| > n {
      var cut := list[..n];
      DistinctPrefix(list, n);
      if i: nat :| i < |list| && KeyOf(list[i]) == key {
        WithoutAt(list, i);
        if i < n {
          WithoutAt(cut, i);
          CutAround(list, i, n);
        } else {
          KeyElsewhere(list, i, n);
          WithoutAbsent(cut, key);
          CutBefore(list, i, n);
        }
      } else {
        WithoutAbsent(list, key);
        WithoutAbsent(cut, key);
      }
    }
  }

  lemma KeyElsewhere(list: seq<Acknowledgment>, i: nat, n: nat)
    requires DistinctKeys(list) && n <= i < |list|
    ensures forall a :: a in list[..n] ==> KeyOf(a) != KeyOf(list[i])
  {
  }

  lemma LimitThenTouch(list: seq<Acknowledgment>, a: Acknowledgment, n: nat)
    requires DistinctKeys(list)
    ensures Limited(Touched(Limited(list, n), a), n) == Limited(Touched(list, a), n)
  {
    if n > 0 {
      LimitThenWithout(list, KeyOf(a), n);
      LimitTail(a, Without(Limited(list, n), KeyOf(a)), n);
      LimitTail(a, Without(list, KeyOf(a)), n);
    }
  }

  lemma LimitTail(a: Acknowledgment, list: seq<Acknowledgment>, n: nat)
    requires n > 0
    ensures Limited([a] + list, n) == [a] + Limited(list, n - 1)
  {
  }

  lemma {:induction false} RecencyDistinct(adds: seq<Acknowledgment>)
    ensures DistinctKeys(Recency(adds))
    decreases |adds|
  {
    if adds != [] {
      RecencyDistinct(adds[..|adds| - 1]);
      TouchedDistinct(Recency(adds[..|adds| - 1]), adds[|adds| - 1]);
    }
  }

  /** Exact LRU: after any run of adds the history is the `size` most recently added keys, in recency order. */
  lemma {:induction false} HistoryIsMostRecent(adds: seq<Acknowledgment>, size: nat)
    ensures HistoryAfter(adds, size) == Limited(Recency(adds), size)
    decreases |adds|
  {
    if adds != [] {
      var front := adds[..|adds| - 1];
      HistoryIsMostRecent(front, size);
      RecencyDistinct(front);
      LimitThenTouch(Recency(front), adds[|adds| - 1], size);
    }
  }

  /** `next` is `a` followed by the elements of `list` at these ascending positions, which are those with other keys. */
  ghost predicate Follows(list: seq<Acknowledgment>, a: Acknowledgment, next: seq<Acknowledgment>, at: seq<nat>) {
    && |next| == |at| + 1 && next[0] == a
    && (forall i :: 0 <= i < |at| ==> at[i] < |list| && next[i + 1] == list[at[i]] && KeyOf(list[at[i]]) != KeyOf(a))
    && (forall i, j :: 0 <= i < j < |at| ==> at[i] < at[j])
  }

  lemma TouchedFollows(list: seq<Acknowledgment>, a: Acknowledgment) returns (at: seq<nat>)
    requires DistinctKeys(list)
    ensures Follows(list, a, Touched(list, a), at)
  {
    hide Without;
    var next := Touched(list, a);
    if i: nat :| i < |list| && KeyOf(list[i]) == KeyOf(a) {
      WithoutAt(list, i);
      at := seq(|list| - 1, k => if k < i then k else k + 1);
      assert forall k :: 0 <= k < |at| ==> next[k + 1] == (list[..i] + list[i + 1..])[k] == list[at[k]];
    } else {
      WithoutAbsent(list, KeyOf(a));
      at := seq(|list|, k => k);
    }
  }

  lemma LastAddAppend(adds: seq<Acknowledgment>, a: Acknowledgment, key: Key)
    ensures LastAdd(adds + [a], key) == if KeyOf(a) == key then |adds| else LastAdd(adds, key)
  {
    assert (adds + [a])[..|adds|] == adds;
  }

  /** Recency says what its name says, in terms of the positions of the adds. */
  lemma {:induction false} RecencyIsRecency(adds: seq<Acknowledgment>)
    ensures IsRecency(adds, Recency(adds))
    decreases |adds|
  {
    if adds != [] {
      var n := |adds| - 1;
      var front, a := adds[..n], adds[n];
      assert adds == front + [a];
      RecencyIsRecency(front);
      RecencyDistinct(front);
      RecencyStep(front, Recency(front), a);
    }
  }

  lemma LastValuesStep(adds: seq<Acknowledgment>, list: seq<Acknowledgment>, a: Acknowledgment,
                       next: seq<Acknowledgment>, at: seq<nat>)
    requires LastValues(adds, list) && Follows(list, a, next, at)
    ensures LastValues(adds + [a], next)
  {
    hide LastAdd;
    forall i | 0 <= i < |next|
      ensures LastAdd(adds + [a], KeyOf(next[i])) >= 0
      ensures next[i] == (adds + [a])[LastAdd(adds + [a], KeyOf(next[i]))]
    {
      LastAddAppend(adds, a, KeyOf(next[i]));
      if i > 0 {
        assert next[i] == list[at[i - 1]];
      }
    }
  }

  lemma MostRecentFirstStep(adds: seq<Acknowledgment>, list: seq<Acknowledgment>, a: Acknowledgment,
                            next: seq<Acknowledgment>, at: seq<nat>)
    requires MostRecentFirst(adds, list) && Follows(list, a, next, at)
    ensures MostRecentFirst(adds + [a], next)
  {
    hide LastAdd;
    forall i, j | 0 <= i < j < |next|
      ensures LastAdd(adds + [a], KeyOf(next[i])) > LastAdd(adds + [a], KeyOf(next[j]))
    {
      LastAddAppend(adds, a, KeyOf(next[i]));
      LastAddAppend(adds, a, KeyOf(next[j]));
      assert next[j] == list[at[j - 1]];
      if i > 0 {
        assert next[i] == list[at[i - 1]];
      }
    }
  }

  lemma RecencyStep(adds: seq<Acknowledgment>, list: seq<Acknowledgment>, a: Acknowledgment)
    requires IsRecency(adds, list) && DistinctKeys(list)
    ensures IsRecency(adds + [a], Touched(list, a))
  {
    hide LastAdd, Touched, LastValues, MostRecentFirst, Follows, HasKey;
    var at := TouchedFollows(list, a);
    LastValuesStep(adds, list, a, Touched(list, a), at);
    MostRecentFirstStep(adds, list, a, Touched(list, a), at);
    forall b | b in adds + [a]
      ensures HasKey(Touched(list, a), KeyOf(b))
    {
      TouchedHasKey(list, a, KeyOf(b));
    }
  }

  lemma TouchedHasKey(list: seq<Acknowledgment>, a: Acknowledgment, key: Key)
    requires key == KeyOf(a) || HasKey(list, key)
    ensures HasKey(Touched(list, a), key)
  {
    var next := Touched(list, a);
    if key == KeyOf(a) {
      assert KeyOf(next[0]) == key;
    } else {
      var i :| 0 <= i < |list| && KeyOf(list[i]) == key;
      WithoutKeepsOthers(list, KeyOf(a), list[i]);
      var j :| 0 <= j < |next| - 1 && Without(list, KeyOf(a))[j] == list[i];
      assert KeyOf(next[j + 1]) == key;
    }
  }

  // -- The code's list and index

  class Element {
    var value: Acknowledgment

    constructor (value: Acknowledgment)
      ensures this.value == value
    {
      this.value := value;
    }
  }

  ghost predicate Holds(es: seq<Element>, list: seq<Acknowledgment>, key: Key, e: Element) {
    exists i :: 0 <= i < |es| && i < |list| && es[i] == e && KeyOf(list[i]) == key
  }

  /** The index leads from every key of the list to its element, and has no other keys. */
  ghost predicate Indexed(es: seq<Element>, items: map<Key, Element>, list: seq<Acknowledgment>) {
    && |es| == |list| && DistinctKeys(list)
    && (forall i :: 0 <= i < |es| ==> KeyOf(list[i]) in items && items[KeyOf(list[i])] == es[i])
    && (forall k :: k in items ==> Holds(es, list, k, items[k]))
  }

  lemma HoldsAt(es: seq<Element>, list: seq<Acknowledgment>, i: nat)
    requires i < |es| && i < |list|
    ensures Holds(es, list, KeyOf(list[i]), es[i])
  {
  }

  lemma IndexedPush(es: seq<Element>, items: map<Key, Element>, list: seq<Acknowledgment>, e: Element,
                    a: Acknowledgment)
    requires Indexed(es, items, list) && KeyOf(a) !in items
    ensures Indexed([e] + es, items[KeyOf(a) := e], [a] + list)
  {
    var es', list', items' := [e] + es, [a] + list, items[KeyOf(a) := e];
    forall k | k in items'
      ensures Holds(es', list', k, items'[k])
    {
      if k == KeyOf(a) {
        HoldsAt(es', list', 0);
      } else {
        var i :| 0 <= i < |es| && es[i] == items[k] && KeyOf(list[i]) == k;
        HoldsAt(es', list', i + 1);
      }
    }
  }

  lemma IndexedDropLast(es: seq<Element>, items: map<Key, Element>, list: seq<Acknowledgment>)
    requires Indexed(es, items, list) && es != []
    ensures Indexed(es[..|es| - 1], items - {KeyOf(list[|es| - 1])}, list[..|es| - 1])
  {
    var n := |es| - 1;
    forall k | k in items && k != KeyOf(list[n])
      ensures Holds(es[..n], list[..n], k, items[k])
    {
      var i :| 0 <= i < |es| && es[i] == items[k] && KeyOf(list[i]) == k;
      HoldsAt(es[..n], list[..n], i);
    }
  }

  /** The sequence with its element at i taken out and x put in front. */
  function ToFront<T>(s: seq<T>, i: nat, x: T): (r: seq<T>)
    requires i < |s|
    ensures |r| == |s| && r[0] == x
    ensures forall j :: 0 < j <= i ==> r[j] == s[j - 1]
    ensures forall j :: i < j < |s| ==> r[j] == s[j]
  {
    [x] + (s[..i] + s[i + 1..])
  }

  lemma TouchedIsToFront(list: seq<Acknowledgment>, i: nat, a: Acknowledgment)
    requires DistinctKeys(list) && i < |list| && KeyOf(a) == KeyOf(list[i])
    ensures Touched(list, a) == ToFront(list, i, a) && DistinctKeys(ToFront(list, i, a))
  {
    WithoutAt(list, i);
    TouchedDistinct(list, a);
  }

  lemma IndexedMoveToFront(es: seq<Element>, items: map<Key, Element>, list: seq<Acknowledgment>, i: nat,
                           a: Acknowledgment)
    requires Indexed(es, items, list) && i < |es| && KeyOf(a) == KeyOf(list[i])
    ensures Indexed(ToFront(es, i, es[i]), items, ToFront(list, i, a))
  {
    hide ToFront, DistinctKeys, Holds;
    var es', list' := ToFront(es, i, es[i]), ToFront(list, i, a);
    TouchedIsToFront(list, i, a);
    forall k | k in items
      ensures Holds(es', list', k, items[k])
    {
      HoldsToFront(es, list, i, a, k, items[k]);
    }
    forall j | 0 <= j < |es'|
      ensures KeyOf(list'[j]) in items && items[KeyOf(list'[j])] == es'[j]
    {
      var was := if j == 0 then i else if j <= i then j - 1 else j;
      assert es'[j] == es[was] && KeyOf(list'[j]) == KeyOf(list[was]);
    }
  }

  lemma HoldsToFront(es: seq<Element>, list: seq<Acknowledgment>, i: nat, a: Acknowledgment, key: Key, e: Element)
    requires Holds(es, list, key, e) && i < |es| == |list| && KeyOf(a) == KeyOf(list[i])
    ensures Holds(ToFront(es, i, es[i]), ToFront(list, i, a), key, e)
  {
    hide ToFront;
    var j :| 0 <= j < |es| && es[j] == e && KeyOf(list[j]) == key;
    HoldsAt(ToFront(es, i, es[i]), ToFront(list, i, a), if j == i then 0 else if j < i then j + 1 else j);
  }

  ghost function ValuesOf(es: seq<Element>): (list: seq<Acknowledgment>)
    reads es
    ensures |list| == |es| && forall i :: 0 <= i < |list| ==> list[i] == es[i].value
  {
    seq(|es|, i requires 0 <= i < |es| reads es => es[i].value)
  }

  class FeedbackHistory {
    const size: nat
    var evictList: seq<Element>
    var items: map<Key, Element>
    /** Everything added so far. */
    ghost var adds: seq<Acknowledgment>

    /** List and index agree, and the list is that of the adds so far. */
    ghost predicate Valid()
      reads this, evictList
    {
      Consistent() && View() == HistoryAfter(adds, size)
    }

    ghost predicate Consistent()
      reads this`evictList, this`items, evictList
    {
      |evictList| <= size && Indexed(evictList, items, View())
    }

    ghost function View(): (list: seq<Acknowledgment>)
      reads this`evictList, evictList
      ensures |list| == |evictList| && forall i :: 0 <= i < |list| ==> list[i] == evictList[i].value
    {
      ValuesOf(evictList)
    }

    constructor (size: nat)
      ensures Valid() && this.size == size && View() == [] && adds == []
    {
      this.size := size;
      evictList, items, adds := [], map[], [];
    }

    /** The last acknowledgment added for the key, if the key is one of the `size` most recently added. */
    method Get(key: Key) returns (r: Option<Acknowledgment>)
      requires Valid()
      ensures r == Lookup(View(), key)
      ensures r.Some? <==> HasKey(Limited(Recency(adds), size), key)
      ensures r.Some? ==> LastAdd(adds, key) >= 0 && r.value == adds[LastAdd(adds, key)]
    {
      hide LastAdd, Recency, HistoryAfter, Limited;
      if key in items {
        r := Some(items[key].value);
        ghost var i :| 0 <= i < |evictList| && evictList[i] == items[key] && KeyOf(View()[i]) == key;
        LookupUnique(View(), View()[i]);
      } else {
        r := None;
      }
      LookupIsLastAdd(adds, size, key);
    }

    /** Moves a known element to the front and gives it the new value. */
    method Refresh(ent: Element, ack: Acknowledgment)
      requires Consistent() && KeyOf(ack) in items && items[KeyOf(ack)] == ent
      modifies this`evictList, ent
      ensures Consistent() && View() == Touched(old(View()), ack)
      ensures forall e :: e in evictList ==> e in old(evictList)
    {
      hide Indexed, Touched, ToFront;
      ghost var list, before := View(), evictList;
      var i := Position(ent, ack);
      IndexedMoveToFront(evictList, items, list, i, ack);
      evictList := ToFront(evictList, i, ent);
      ent.value := ack;
      assert View() == ToFront(list, i, ack);
    }

    /** Where the element of a known key stands in the list. */
    method Position(ent: Element, ack: Acknowledgment) returns (i: nat)
      requires Consistent() && KeyOf(ack) in items && items[KeyOf(ack)] == ent
      ensures i < |evictList| && evictList[i] == ent && KeyOf(ent.value) == KeyOf(ack)
      ensures forall j :: 0 <= j < |evictList| && j != i ==> evictList[j] != ent
      ensures Touched(View(), ack) == ToFront(View(), i, ack)
    {
      assert Holds(evictList, View(), KeyOf(ack), ent);
      i :| 0 <= i < |evictList| && evictList[i] == ent;
      assert forall j :: 0 <= j < |evictList| && evictList[j] == ent ==> View()[j] == View()[i];
      WithoutAt(View(), i);
    }

    /** An add brings the key to the front and evicts the least recent one when there are too many. */
    method Add(ack: Acknowledgment)
      requires Valid()
      modifies this, evictList
      ensures Valid() && adds == old(adds) + [ack] && forall e :: e in evictList ==> e in old(evictList) || fresh(e)
      ensures View() == Limited(Touched(old(View()), ack), size)
    {
      hide Indexed, Touched, HistoryAfter, Limited;
      var key := KeyOf(ack);
      ghost var list := View();
      if key in items {
        TouchedLength(list, evictList, items, ack);
        LimitedFits(Touched(list, ack), size);
        Refresh(items[key], ack);
      } else {
        TouchedNew(list, evictList, items, ack);
        Insert(ack);
      }
      HistoryAppend(adds, ack, size);
      adds := adds + [ack];
    }

    method Insert(ack: Acknowledgment)
      requires Consistent() && KeyOf(ack) !in items
      modifies this`evictList, this`items
      ensures Consistent() && forall e :: e in evictList ==> e in old(evictList) || fresh(e)
      ensures View() == Limited([ack] + old(View()), size)
    {
      hide Indexed;
      ghost var list := View();
      var ent := new Element(ack);
      IndexedPush(evictList, items, list, ent, ack);
      evictList := [ent] + evictList;
      items := items[KeyOf(ack) := ent];
      assert View() == [ack] + list;
      if |evictList| > size {
        RemoveOldest();
      }
    }

    method RemoveOldest()
      requires |evictList| == size + 1 && Indexed(evictList, items, View())
      modifies this`evictList, this`items
      ensures Consistent() && evictList == old(evictList)[..size] && View() == old(View())[..size]
    {
      hide Indexed;
      ghost var list := View();
      var ent := evictList[|evictList| - 1];
      IndexedDropLast(evictList, items, list);
      evictList := evictList[..|evictList| - 1];
      items := items - {KeyOf(ent.value)};
      assert View() == list[..size];
    }
  }

  lemma HistoryAppend(adds: seq<Acknowledgment>, a: Acknowledgment, size: nat)
    ensures HistoryAfter(adds + [a], size) == Limited(Touched(HistoryAfter(adds, size), a), size)
  {
    assert (adds + [a])[..|adds|] == adds;
  }

  lemma LimitedFits(list: seq<Acknowledgment>, size: nat)
    requires |list| <= size
    ensures Limited(list, size) == list
  {
  }

  /** Looking a key up after any run of adds: found if it is among the most recent ones, and then with its last add. */
  lemma LookupIsLastAdd(adds: seq<Acknowledgment>, size: nat, key: Key)
    ensures var r := Lookup(HistoryAfter(adds, size), key);
            && (r.Some? <==> HasKey(Limited(Recency(adds), size), key))
            && (r.Some? ==> LastAdd(adds, key) >= 0 && r.value == adds[LastAdd(adds, key)])
  {
    hide LastAdd, Recency, HistoryAfter;
    HistoryIsMostRecent(adds, size);
    RecencyIsRecency(adds);
    var list := Limited(Recency(adds), size);
    var r := Lookup(list, key);
    if r.Some? {
      var i :| 0 <= i < |list| && list[i] == r.value;
      assert list[i] == Recency(adds)[i];
    }
  }

  lemma TouchedNew(list: seq<Acknowledgment>, es: seq<Element>, items: map<Key, Element>, a: Acknowledgment)
    requires Indexed(es, items, list) && KeyOf(a) !in items
    ensures Touched(list, a) == [a] + list
  {
    WithoutAbsent(list, KeyOf(a));
  }

  lemma TouchedLength(list: seq<Acknowledgment>, es: seq<Element>, items: map<Key, Element>, a: Acknowledgment)
    requires Indexed(es, items, list) && KeyOf(a) in items
    ensures |Touched(list, a)| == |list| && items[KeyOf(a)] in es
  {
    var i :| 0 <= i < |es| && es[i] == items[KeyOf(a)] && KeyOf(list[i]) == KeyOf(a);
    WithoutAt(list, i);
  }

  lemma {:induction false} LookupUnique(list: seq<Acknowledgment>, a: Acknowledgment)
    requires DistinctKeys(list) && a in list
    ensures Lookup(list, KeyOf(a)) == Some(a)
  {
    if a != list[0] {
      LookupUnique(list[1..], a);
    }
  }
}
