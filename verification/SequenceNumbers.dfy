/**
 The unwrapper of 16-bit RTP sequence numbers (internal/sequencenumber).
 It turns a stream of wrapped numbers into unbounded ones that never go below zero.
 */
module SequenceNumbers {
  import opened Words

  const BREAKPOINT := 0x8000

  predicate IsNewer(value: Uint16, previous: Uint16) {
    if Sub16(value, previous) == BREAKPOINT then
      value > previous
    else
      value != previous && Sub16(value, previous) < BREAKPOINT
  }

  /** The unwrapped number that follows `last` when the wire shows `i`. */
  function NextUnwrapped(last: int, i: Uint16): int {
    var delta := Sub16(i, Wrap16(last));
    if !IsNewer(i, Wrap16(last)) && delta > 0 && last + delta - UINT16_SIZE >= 0 then
      last + delta - UINT16_SIZE
    else
      last + delta
  }

  class Unwrapper {
    var init: bool
    var lastUnwrapped: int

    constructor ()
      ensures !init
    {
      init, lastUnwrapped := false, 0;
    }

    method Unwrap(i: Uint16) returns (r: int)
      modifies this
      ensures init && r == lastUnwrapped
      ensures r == if old(init) then NextUnwrapped(old(lastUnwrapped), i) else i
    {
      if !init {
        init := true;
        lastUnwrapped := i;
        return lastUnwrapped;
      }
      var lastWrapped := Wrap16(lastUnwrapped);
      var delta: int := Sub16(i, lastWrapped);
      if IsNewer(i, lastWrapped) {
        if delta < 0 {
          delta := delta + UINT16_SIZE;
        }
      } else if delta > 0 && lastUnwrapped + delta - UINT16_SIZE >= 0 {
        delta := delta - UINT16_SIZE;
      }
      lastUnwrapped := lastUnwrapped + delta;
      return lastUnwrapped;
    }
  }

  // -- Whole streams

  function WrapAll(stream: seq<int>): (wrapped: seq<Uint16>)
    ensures |wrapped| == |stream|
  {
    seq(|stream|, k requires 0 <= k < |stream| => Wrap16(stream[k]))
  }

  /** What an unwrapper whose last result was `last` answers to a run of inputs. */
  function UnwrapFrom(last: int, inputs: seq<Uint16>): (outputs: seq<int>)
    ensures |outputs| == |inputs|
    decreases |inputs|
  {
    if inputs == [] then
      []
    else
      var r := NextUnwrapped(last, inputs[0]);
      [r] + UnwrapFrom(r, inputs[1..])
  }

  /** What a new unwrapper answers to a run of inputs. */
  function UnwrapRun(inputs: seq<Uint16>): (outputs: seq<int>)
    ensures |outputs| == |inputs|
  {
    if inputs == [] then [] else [inputs[0]] + UnwrapFrom(inputs[0], inputs[1..])
  }

  /**
   The steps an unwrapper follows: less than half the number space either way; exactly half
   when the wrapped numbers move the same way; and a forward jump of half or more
   when the backward reading would be negative.
   */
  predicate Trackable(last: int, t: int) {
    var d := t - last;
    || -BREAKPOINT < d < BREAKPOINT
    || (d == BREAKPOINT && Wrap16(last) < BREAKPOINT)
    || (d == -BREAKPOINT && Wrap16(last) >= BREAKPOINT)
    || (BREAKPOINT <= d < UINT16_SIZE && t < UINT16_SIZE)
  }

  predicate TrackableFrom(last: int, stream: seq<int>)
    decreases |stream|
  {
    stream == [] || (Trackable(last, stream[0]) && TrackableFrom(stream[0], stream[1..]))
  }

  /** One step is followed exactly when it is trackable. */
  lemma StepFollowed(last: int, t: int)
    requires 0 <= last && 0 <= t
    ensures NextUnwrapped(last, Wrap16(t)) == t <==> Trackable(last, t)
  {
    assert Sub16(Wrap16(t), Wrap16(last)) == (t - last) % UINT16_SIZE;
  }

  lemma {:induction false} StreamFollowedFrom(last: int, stream: seq<int>)
    requires 0 <= last && forall k :: 0 <= k < |stream| ==> 0 <= stream[k]
    ensures UnwrapFrom(last, WrapAll(stream)) == stream <==> TrackableFrom(last, stream)
    decreases |stream|
  {
    if stream != [] {
      StepFollowed(last, stream[0]);
      StreamFollowedFrom(stream[0], stream[1..]);
      assert WrapAll(stream)[1..] == WrapAll(stream[1..]);
      var outputs := UnwrapFrom(last, WrapAll(stream));
      assert outputs == stream <==> outputs[0] == stream[0] && outputs[1..] == stream[1..];
    }
  }

  /**
   A new unwrapper recovers a non-negative stream exactly when the stream starts below the
   modulus and every step is trackable.
   */
  lemma UnwrapRecoversStream(stream: seq<int>)
    requires forall k :: 0 <= k < |stream| ==> 0 <= stream[k]
    ensures UnwrapRun(WrapAll(stream)) == stream <==>
            stream == [] || (stream[0] < UINT16_SIZE && TrackableFrom(stream[0], stream[1..]))
  {
    if stream != [] {
      var outputs := UnwrapRun(WrapAll(stream));
      assert WrapAll(stream)[1..] == WrapAll(stream[1..]);
      StreamFollowedFrom(Wrap16(stream[0]), stream[1..]);
      assert outputs == stream <==> outputs[0] == stream[0] && outputs[1..] == stream[1..];
    }
  }

  /** Steps shorter than half the number space are always followed. */
  lemma {:induction false} ShortStepsTrackable(last: int, stream: seq<int>)
    requires stream != [] ==> -BREAKPOINT < stream[0] - last < BREAKPOINT
    requires forall k :: 0 <= k < |stream| - 1 ==> -BREAKPOINT < stream[k + 1] - stream[k] < BREAKPOINT
    ensures TrackableFrom(last, stream)
    decreases |stream|
  {
    if stream != [] {
      ShortStepsTrackable(stream[0], stream[1..]);
    }
  }

  /** Whatever arrives, every output is non-negative and congruent to its input. */
  lemma {:induction false} UnwrapFromCongruent(last: int, inputs: seq<Uint16>, k: nat)
    requires 0 <= last && k < |inputs|
    ensures 0 <= UnwrapFrom(last, inputs)[k] && Wrap16(UnwrapFrom(last, inputs)[k]) == inputs[k]
    decreases |inputs|
  {
    var r := NextUnwrapped(last, inputs[0]);
    assert 0 <= r && Wrap16(r) == inputs[0];
    if k > 0 {
      UnwrapFromCongruent(r, inputs[1..], k - 1);
    }
  }

  lemma UnwrapCongruent(inputs: seq<Uint16>, k: nat)
    requires k < |inputs|
    ensures 0 <= UnwrapRun(inputs)[k] && Wrap16(UnwrapRun(inputs)[k]) == inputs[k]
  {
    if k > 0 {
      UnwrapFromCongruent(inputs[0], inputs[1..], k - 1);
    }
  }
}

/**
 The unwrappers of the video pipeline: 16-bit sequence numbers, 15-bit picture IDs and
 8-bit base-layer indices. All three add the signed difference of smallest size, and
 unlike the RTP unwrapper they follow a stream below zero.
 */
module VideoUnwrappers {
  import opened Words

  /** The number that follows `last` when the wire shows `i`, for a counter of `m` values. */
  function NextSigned(last: int, i: int, m: int): int
    requires m > 0
  {
    var diff := i - last % m;
    if diff > m / 2 then last + diff - m
    else if diff < -(m / 2) then last + diff + m
    else last + diff
  }

  /** Less than half the counter either way, or exactly half when the wrapped values move that way. */
  predicate SignedTrackable(last: int, t: int, m: int)
    requires m > 0
  {
    var d := t - last;
    || -(m / 2) < d < m / 2
    || (d == m / 2 && last % m < m / 2)
    || (d == -(m / 2) && last % m >= m / 2)
  }

  /**
   The choice among the three readings, on the wrapped values a and b and the distance
   between the multiples of m = 2h below t and below last.
   */
  lemma NearestReading(a: int, b: int, multiple: int, h: int)
    requires 0 <= a < 2 * h && 0 <= b < 2 * h
    requires multiple == 0 || multiple == 2 * h || multiple == -2 * h || multiple >= 4 * h || multiple <= -4 * h
    ensures var d := multiple + a - b;
            (if a - b > h then a - b - 2 * h else if a - b < -h then a - b + 2 * h else a - b) == d <==>
            -h < d < h || (d == h && b < h) || (d == -h && b >= h)
  {
  }

  lemma Distribute(p: int, q: int, m: int)
    ensures (p - q) * m == p * m - q * m
  {
  }

  lemma MultipleSizes(k: int, m: int)
    requires m > 0
    ensures k >= 2 ==> k * m >= 2 * m
    ensures k <= -2 ==> k * m <= -2 * m
    ensures k == -1 ==> k * m == -m
  {
  }

  lemma Decompose(n: int, m: int) returns (q: int, r: int)
    requires m > 0
    ensures n == q * m + r && r == n % m
  {
    q, r := n / m, n % m;
  }

  /** How far apart the multiples of m below t and below last are. */
  lemma MultipleBetween(last: int, t: int, m: int) returns (multiple: int)
    requires m > 0
    ensures t - last == multiple + t % m - last % m
    ensures multiple == 0 || multiple == m || multiple == -m || multiple >= 2 * m || multiple <= -2 * m
  {
    var p, a := Decompose(t, m);
    var q, b := Decompose(last, m);
    multiple := (p - q) * m;
    Distribute(p, q, m);
    MultipleSizes(p - q, m);
  }

  /** One step is followed exactly when it is trackable, for every even modulus. */
  lemma SignedStepFollowed(last: int, t: int, m: int)
    requires m > 0 && m % 2 == 0
    ensures NextSigned(last, t % m, m) == t <==> SignedTrackable(last, t, m)
  {
    var multiple := MultipleBetween(last, t, m);
    NearestReading(t % m, last % m, multiple, m / 2);
  }

  lemma OwnRemainder(n: int, m: int)
    requires m > 0
    ensures n % m == n <==> 0 <= n < m
  {
    if 0 <= n < m {
      RemainderIs(n, 0, n, m);
    }
  }

  function SignedRunFrom(last: int, inputs: seq<int>, m: int): (outputs: seq<int>)
    requires m > 0
    ensures |outputs| == |inputs|
    decreases |inputs|
  {
    if inputs == [] then
      []
    else
      var r := NextSigned(last, inputs[0], m);
      [r] + SignedRunFrom(r, inputs[1..], m)
  }

  function SignedRun(inputs: seq<int>, m: int): (outputs: seq<int>)
    requires m > 0
    ensures |outputs| == |inputs|
  {
    if inputs == [] then [] else [inputs[0]] + SignedRunFrom(inputs[0], inputs[1..], m)
  }

  function WrapAllTo(stream: seq<int>, m: int): (wrapped: seq<int>)
    requires m > 0
    ensures |wrapped| == |stream|
  {
    seq(|stream|, k requires 0 <= k < |stream| => stream[k] % m)
  }

  predicate SignedTrackableFrom(last: int, stream: seq<int>, m: int)
    requires m > 0
    decreases |stream|
  {
    stream == [] || (SignedTrackable(last, stream[0], m) && SignedTrackableFrom(stream[0], stream[1..], m))
  }

  lemma {:induction false} SignedStreamFollowedFrom(last: int, stream: seq<int>, m: int)
    requires m > 0 && m % 2 == 0
    ensures SignedRunFrom(last, WrapAllTo(stream, m), m) == stream <==> SignedTrackableFrom(last, stream, m)
    decreases |stream|
  {
    if stream != [] {
      SignedStepFollowed(last, stream[0], m);
      SignedStreamFollowedFrom(stream[0], stream[1..], m);
      assert WrapAllTo(stream, m)[1..] == WrapAllTo(stream[1..], m);
      var outputs := SignedRunFrom(last, WrapAllTo(stream, m), m);
      assert outputs == stream <==> outputs[0] == stream[0] && outputs[1..] == stream[1..];
    }
  }

  /** The unwrapping theorem for every even modulus: recovery exactly on trackable streams. */
  lemma SignedRunRecoversStream(stream: seq<int>, m: int)
    requires m > 0 && m % 2 == 0
    ensures SignedRun(WrapAllTo(stream, m), m) == stream <==>
            stream == [] || (0 <= stream[0] < m && SignedTrackableFrom(stream[0], stream[1..], m))
  {
    if stream != [] {
      var outputs := SignedRun(WrapAllTo(stream, m), m);
      assert WrapAllTo(stream, m)[1..] == WrapAllTo(stream[1..], m);
      OwnRemainder(stream[0], m);
      SignedStreamFollowedFrom(stream[0] % m, stream[1..], m);
      assert outputs[0] == stream[0] % m && outputs[1..] == SignedRunFrom(stream[0] % m, WrapAllTo(stream[1..], m), m);
      assert outputs == stream <==> outputs[0] == stream[0] && outputs[1..] == stream[1..];
    }
  }

  /** `last & 0xFFFF` and its 15- and 8-bit versions are remainders, also below zero. */
  lemma MasksAreRemainders(x: int)
    ensures BitAnd(x, 0xFFFF) == x % 0x1_0000
    ensures BitAnd(x, 0x7FFF) == x % 0x8000
    ensures BitAnd(x, 0xFF) == x % 0x100
  {
    assert IsPow2(16) && IsPow2(0x100) && IsPow2(0x1000) && IsPow2(0x8000) && IsPow2(0x1_0000);
    MaskIsRemainder(x, 0x1_0000);
    MaskIsRemainder(x, 0x8000);
    MaskIsRemainder(x, 0x100);
  }

  lemma CounterMask(x: int, modulus: int)
    requires modulus == PICTURE_ID_MODULUS || modulus == TL0_PIC_IDX_MODULUS
    ensures BitAnd(x, modulus - 1) == x % modulus
  {
    MasksAreRemainders(x);
  }

  /** The receiver's unwrapper of RTP sequence numbers. */
  class SequenceUnwrapper {
    var lastSeq: int
    var started: bool

    constructor ()
      ensures !started
    {
      lastSeq, started := 0, false;
    }

    method Unwrap(seqNum: Uint16) returns (r: int)
      modifies this
      ensures started && r == lastSeq
      ensures r == if old(started) then NextSigned(old(lastSeq), seqNum, 0x1_0000) else seqNum
    {
      if !started {
        lastSeq := seqNum;
        started := true;
        return lastSeq;
      }
      MasksAreRemainders(lastSeq);
      var diff: int := seqNum - BitAnd(lastSeq, 0xFFFF);
      if diff > 32768 {
        diff := diff - 65536;
      } else if diff < -32768 {
        diff := diff + 65536;
      }
      lastSeq := lastSeq + diff;
      return lastSeq;
    }
  }

  const PICTURE_ID_MODULUS := 0x8000
  const TL0_PIC_IDX_MODULUS := 0x100

  /** The unwrapper of picture IDs and of base-layer indices, which differ in their modulus only. */
  class CounterUnwrapper {
    const modulus: int
    var lastUnwrapped: int
    var initialized: bool

    constructor (modulus: int)
      ensures this.modulus == modulus && !initialized
    {
      this.modulus := modulus;
      lastUnwrapped, initialized := 0, false;
    }

    /** A negative value is "not present": it is answered with -1 and leaves the state alone. */
    method Unwrap(value: int) returns (r: int)
      requires modulus == PICTURE_ID_MODULUS || modulus == TL0_PIC_IDX_MODULUS
      modifies this
      ensures value < 0 ==> r == -1 && lastUnwrapped == old(lastUnwrapped) && initialized == old(initialized)
      ensures value >= 0 ==>
                && initialized && r == lastUnwrapped
                && r == if old(initialized) then NextSigned(old(lastUnwrapped), value % modulus, modulus)
                        else value % modulus
    {
      if value < 0 {
        return -1;
      }
      CounterMask(value, modulus);
      CounterMask(lastUnwrapped, modulus);
      var v: int := BitAnd(value, modulus - 1);
      if !initialized {
        initialized := true;
        lastUnwrapped := v;
        return v;
      }
      var lastWrapped: int := BitAnd(lastUnwrapped, modulus - 1);
      var diff: int := v - lastWrapped;
      if diff > modulus / 2 {
        diff := diff - modulus;
      } else if diff < -(modulus / 2) {
        diff := diff + modulus;
      }
      lastUnwrapped := lastUnwrapped + diff;
      return lastUnwrapped;
    }
  }
}
