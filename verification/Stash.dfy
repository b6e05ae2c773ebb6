/** The bounded, sorted stash that both reference finders keep of frames that wait (pkg/videoframe/ref_finder.go). */
module Stashes {

  const MAX_STASHED_FRAMES := 100

  ghost predicate Sorted<T>(s: seq<T>, key: T -> int) {
    forall i, j :: 0 <= i < j < |s| ==> key(s[i]) <= key(s[j])
  }

  function PutSorted<T>(s: seq<T>, x: T, key: T -> int): (r: seq<T>) {
    if s == [] || key(s[|s| - 1]) <= key(x) then s + [x]
    else PutSorted(s[..|s| - 1], x, key) + [s[|s| - 1]]
  }

  lemma {:induction false} PutSortedAdds<T>(s: seq<T>, x: T, key: T -> int)
    ensures multiset(PutSorted(s, x, key)) == multiset(s) + multiset{x}
  {
    if s != [] && key(s[|s| - 1]) > key(x) {
      var n := |s| - 1;
      PutSortedAdds(s[..n], x, key);
      assert s == s[..n] + [s[n]];
    }
  }

  lemma AppendSorted<T>(s: seq<T>, x: T, key: T -> int)
    requires Sorted(s, key) && forall y :: y in s ==> key(y) <= key(x)
    ensures Sorted(s + [x], key)
  {
  }

  lemma {:induction false} PutSortedSorts<T>(s: seq<T>, x: T, key: T -> int)
    requires Sorted(s, key)
    ensures Sorted(PutSorted(s, x, key), key)
  {
    if s == [] || key(s[|s| - 1]) <= key(x) {
      AppendSorted(s, x, key);
    } else {
      var n := |s| - 1;
      var rest := PutSorted(s[..n], x, key);
      PutSortedSorts(s[..n], x, key);
      PutSortedAdds(s[..n], x, key);
      forall y | y in rest ensures key(y) <= key(s[n]) {
        assert y in multiset(rest);
      }
      AppendSorted(rest, s[n], key);
    }
  }

  /** Sorts by a key; the order of elements with the same key is not promised. */
  method Sort<T>(s: seq<T>, key: T -> int) returns (r: seq<T>)
    ensures Sorted(r, key) && multiset(r) == multiset(s)
  {
    r := [];
    for i := 0 to |s|
      invariant Sorted(r, key) && multiset(r) == multiset(s[..i])
    {
      assert s[..i + 1] == s[..i] + [s[i]];
      PutSortedSorts(r, s[i], key);
      PutSortedAdds(r, s[i], key);
      r := PutSorted(r, s[i], key);
    }
    assert s[..|s|] == s;
  }

  /** The elements from a key on, in their order. */
  function Kept<T(!new)>(s: seq<T>, key: T -> int, from: int): (r: seq<T>)
    ensures forall x :: x in r <==> x in s && key(x) >= from
    ensures |r| <= |s|
    ensures (forall x :: x in s ==> key(x) >= from) ==> r == s
  {
    if s == [] then []
    else
      var n := |s| - 1;
      var rest := Kept(s[..n], key, from);
      assert s == s[..n] + [s[n]];
      if key(s[n]) >= from then rest + [s[n]] else rest
  }

  /** Each element from the key on is kept as often as it was there. */
  lemma {:induction false} KeptCounts<T(!new)>(s: seq<T>, key: T -> int, from: int, x: T)
    ensures multiset(Kept(s, key, from))[x] == if key(x) >= from then multiset(s)[x] else 0
  {
    if s != [] {
      var n := |s| - 1;
      KeptCounts(s[..n], key, from, x);
      assert s == s[..n] + [s[n]];
    }
  }

  lemma {:induction false} KeptSorted<T(!new)>(s: seq<T>, key: T -> int, from: int)
    requires Sorted(s, key)
    ensures Sorted(Kept(s, key, from), key)
  {
    if s != [] {
      var n := |s| - 1;
      KeptSorted(s[..n], key, from);
      if key(s[n]) >= from {
        AppendSorted(Kept(s[..n], key, from), s[n], key);
      }
    }
  }

  method Keep<T(!new)>(s: seq<T>, key: T -> int, from: int) returns (remaining: seq<T>)
    ensures remaining == Kept(s, key, from)
  {
    remaining := [];
    for i := 0 to |s|
      invariant remaining == Kept(s[..i], key, from)
    {
      assert s[..i + 1][..i] == s[..i];
      if key(s[i]) >= from {
        remaining := remaining + [s[i]];
      }
    }
    assert s[..|s|] == s;
  }

  /** A frame is stashed; a full stash gives up the element at its front. */
  ghost predicate Stashed<T>(before: seq<T>, x: T, after: seq<T>, key: T -> int) {
    && Sorted(after, key)
    && multiset(after) == multiset(if |before| >= 100 then before[1..] else before) + multiset{x}
  }

  method Stash<T>(stash: seq<T>, x: T, key: T -> int) returns (r: seq<T>)
    ensures Stashed(stash, x, r, key)
  {
    r := stash;
    if |r| >= MAX_STASHED_FRAMES {
      r := r[1..];
    }
    r := r + [x];
    r := Sort(r, key);
  }

  /** A stash within its limit stays within it, and only the new element is new. */
  lemma StashedWithin<T>(before: seq<T>, x: T, after: seq<T>, key: T -> int)
    requires Stashed(before, x, after, key) && |before| <= MAX_STASHED_FRAMES
    ensures |after| <= MAX_STASHED_FRAMES && x in after
    ensures forall y :: y in after ==> y == x || y in before
  {
    assert |after| == |multiset(after)|;
    forall y | y in after ensures y == x || y in before {
      assert y in multiset(after);
    }
    assert x in multiset(after);
  }

  lemma StashedSorted<T>(before: seq<T>, x: T, after: seq<T>, key: T -> int)
    requires Stashed(before, x, after, key)
    ensures Sorted(after, key)
  {
  }

  /** Taking the element at `i` out. */
  lemma TakenOut<T>(s: seq<T>, i: nat, key: T -> int)
    requires i < |s|
    ensures multiset(s) == multiset(s[..i] + s[i + 1..]) + multiset{s[i]}
    ensures Sorted(s, key) ==> Sorted(s[..i] + s[i + 1..], key)
  {
    assert s == s[..i] + [s[i]] + s[i + 1..];
  }
}
