/**
 Packing of packet status symbols into chunks (pkg/twcc/twcc.go, type chunk). Section 3.1 of
 draft-holmer-rmcat-transport-wide-cc-extensions-01 gives the three chunk layouts: a run length
 of 13 bits, a vector of 14 one-bit symbols and a vector of 7 two-bit symbols.
 */
module StatusChunks {
  import opened Words

  const MAX_RUN_LENGTH_CAP := 0x1fff
  const MAX_ONE_BIT_CAP := 14
  const MAX_TWO_BIT_CAP := 7

  datatype Symbol = NotReceived | SmallDelta | LargeDelta

  datatype StatusChunk =
    | RunLength(symbol: Symbol, count: nat)
    | OneBit(symbols: seq<Symbol>)
    | TwoBit(symbols: seq<Symbol>)

  function Repeat<T>(x: T, n: nat): (s: seq<T>)
    ensures |s| == n && forall k :: 0 <= k < n ==> s[k] == x
  {
    seq(n, _ => x)
  }

  // -- What chunks mean

  function ExpandChunk(c: StatusChunk): seq<Symbol> {
    match c
    case RunLength(symbol, count) => Repeat(symbol, count)
    case OneBit(symbols) => symbols
    case TwoBit(symbols) => symbols
  }

  function Expand(chunks: seq<StatusChunk>): seq<Symbol>
    decreases |chunks|
  {
    if chunks == [] then []
    else Expand(chunks[..|chunks| - 1]) + ExpandChunk(chunks[|chunks| - 1])
  }

  /** The chunk has the layout of its kind; only the last chunk of a packet may be a short vector. */
  predicate FitsLayout(c: StatusChunk) {
    match c
    case RunLength(_, count) => 1 <= count <= 0x1fff
    case OneBit(symbols) => |symbols| == 14 && LargeDelta !in symbols
    case TwoBit(symbols) => 1 <= |symbols| <= 7
  }

  predicate FullLayout(c: StatusChunk) {
    FitsLayout(c) && (c.TwoBit? ==> |c.symbols| == 7)
  }

  ghost predicate AllFull(chunks: seq<StatusChunk>) {
    forall k :: 0 <= k < |chunks| ==> FullLayout(chunks[k])
  }

  /** Every chunk fits its layout, and all but possibly the last fill it. */
  ghost predicate Closed(chunks: seq<StatusChunk>) {
    chunks == [] || (AllFull(chunks[..|chunks| - 1]) && FitsLayout(chunks[|chunks| - 1]))
  }

  /** What a fixed-width reader sees: a two-bit vector always carries seven symbols. */
  function FixedWidth(c: StatusChunk): (f: StatusChunk)
    requires FitsLayout(c)
    ensures FullLayout(f)
  {
    if c.TwoBit? then TwoBit(c.symbols + Repeat(NotReceived, MAX_TWO_BIT_CAP - |c.symbols|)) else c
  }

  function AllFixedWidth(chunks: seq<StatusChunk>): (f: seq<StatusChunk>)
    requires forall k :: 0 <= k < |chunks| ==> FitsLayout(chunks[k])
    ensures |f| == |chunks| && AllFull(f) && forall k :: 0 <= k < |f| ==> f[k] == FixedWidth(chunks[k])
  {
    seq(|chunks|, k requires 0 <= k < |chunks| => FixedWidth(chunks[k]))
  }

  lemma ClosedFits(chunks: seq<StatusChunk>)
    requires Closed(chunks)
    ensures forall k :: 0 <= k < |chunks| ==> FitsLayout(chunks[k])
  {
    forall k | 0 <= k < |chunks| - 1
      ensures FitsLayout(chunks[k])
    {
      assert chunks[k] == chunks[..|chunks| - 1][k];
    }
  }

  /** How many symbols a chunk is short of a whole two-bit vector. */
  function Short(c: StatusChunk): (n: nat)
    requires FitsLayout(c)
    ensures n < MAX_TWO_BIT_CAP && (n == 0 <==> FullLayout(c))
  {
    if c.TwoBit? then MAX_TWO_BIT_CAP - |c.symbols| else 0
  }

  /** How many fillers a fixed-width reader sees after the last symbol. */
  function Fillers(chunks: seq<StatusChunk>): (n: nat)
    requires chunks != [] ==> FitsLayout(chunks[|chunks| - 1])
    ensures n < MAX_TWO_BIT_CAP
    ensures n == 0 <==> chunks == [] || FullLayout(chunks[|chunks| - 1])
  {
    if chunks == [] then 0 else Short(chunks[|chunks| - 1])
  }

  lemma FixedWidthExpands(c: StatusChunk)
    requires FitsLayout(c)
    ensures ExpandChunk(FixedWidth(c)) == ExpandChunk(c) + Repeat(NotReceived, Short(c))
    ensures FullLayout(c) ==> FixedWidth(c) == c
  {
    if c.TwoBit? {
      assert FullLayout(c) ==> c.symbols + Repeat(NotReceived, 0) == c.symbols;
    } else {
      assert ExpandChunk(c) + Repeat(NotReceived, 0) == ExpandChunk(c);
    }
  }

  lemma FullFront(chunks: seq<StatusChunk>)
    requires Closed(chunks) && chunks != []
    requires forall k :: 0 <= k < |chunks| ==> FitsLayout(chunks[k])
    ensures AllFixedWidth(chunks)[..|chunks| - 1] == chunks[..|chunks| - 1]
  {
    hide FixedWidth, FullLayout, FitsLayout;
    var n := |chunks| - 1;
    forall k | 0 <= k < n
      ensures AllFixedWidth(chunks)[k] == chunks[k]
    {
      assert chunks[..n][k] == chunks[k];
      FixedWidthExpands(chunks[k]);
    }
  }

  /**
   A reader of fixed-width chunks needs only the status count: the symbols come first, and one "not received"
   follows for every symbol the last chunk is short of a whole vector.
   */
  lemma StatusCountSuffices(chunks: seq<StatusChunk>)
    requires Closed(chunks)
    ensures forall k :: 0 <= k < |chunks| ==> FitsLayout(chunks[k])
    ensures Expand(AllFixedWidth(chunks)) == Expand(chunks) + Repeat(NotReceived, Fillers(chunks))
  {
    hide FixedWidth, FullLayout, FitsLayout, ExpandChunk, Closed, Short, AllFull, AllFixedWidth, Expand;
    ClosedFits(chunks);
    if chunks == [] {
      NoChunks(chunks);
    } else {
      var n := |chunks| - 1;
      FullFront(chunks);
      FixedWidthExpands(chunks[n]);
      ExpandLast(chunks);
      ExpandLast(AllFixedWidth(chunks));
      Regroup(Expand(chunks[..n]), ExpandChunk(chunks[n]), Repeat(NotReceived, Short(chunks[n])));
    }
  }

  lemma NoChunks(chunks: seq<StatusChunk>)
    requires chunks == []
    ensures Expand(AllFixedWidth(chunks)) == Expand(chunks) + Repeat(NotReceived, Fillers(chunks))
  {
  }

  lemma ExpandLast(chunks: seq<StatusChunk>)
    requires chunks != []
    ensures Expand(chunks) == Expand(chunks[..|chunks| - 1]) + ExpandChunk(chunks[|chunks| - 1])
  {
  }

  lemma Regroup(a: seq<Symbol>, b: seq<Symbol>, c: seq<Symbol>)
    ensures a + (b + c) == (a + b) + c
  {
  }

  /** Moving the next chunk from what is pending to what is closed changes no symbol. */
  lemma CloseNext(chunks: seq<StatusChunk>, c: StatusChunk, rest: seq<Symbol>)
    requires AllFull(chunks) && FitsLayout(c)
    ensures Closed(chunks + [c]) && (FullLayout(c) ==> AllFull(chunks + [c]))
    ensures Expand(chunks + [c]) + rest == Expand(chunks) + (ExpandChunk(c) + rest)
  {
    assert (chunks + [c])[..|chunks|] == chunks;
  }

  // -- The chunk being filled

  ghost predicate Uniform(s: seq<Symbol>) {
    forall k :: 0 <= k < |s| ==> s[k] == s[0]
  }

  /** The symbols are within the capacity of a two-bit vector, a one-bit vector or a run. */
  ghost predicate FitsOneChunk(s: seq<Symbol>) {
    || |s| <= 7
    || (|s| <= 14 && LargeDelta !in s)
    || (|s| <= 0x1fff && Uniform(s))
  }

  class Chunk {
    var hasLargeDelta: bool
    var hasDifferentTypes: bool
    var deltas: seq<Symbol>

    /** The flags are exact, and what is held can still be written as whole chunks. */
    ghost predicate Valid()
      reads this
    {
      && (hasLargeDelta <==> LargeDelta in deltas)
      && (hasDifferentTypes <==> !Uniform(deltas))
      && |deltas| <= MAX_RUN_LENGTH_CAP
      && (|deltas| > MAX_TWO_BIT_CAP && hasDifferentTypes ==> |deltas| <= MAX_ONE_BIT_CAP && !hasLargeDelta)
    }

    constructor ()
      ensures Valid() && deltas == []
    {
      hasLargeDelta, hasDifferentTypes, deltas := false, false, [];
    }

    predicate CanAdd(delta: Symbol)
      reads this
    {
      || |deltas| < MAX_TWO_BIT_CAP
      || (|deltas| < MAX_ONE_BIT_CAP && !hasLargeDelta && delta != LargeDelta)
      || (|deltas| < MAX_RUN_LENGTH_CAP && !hasDifferentTypes && |deltas| > 0 && delta == deltas[0])
    }

    /** A symbol can be added exactly when what is pending then still fits one chunk of some layout. */
    lemma CanAddIff(delta: Symbol)
      requires Valid()
      ensures CanAdd(delta) <==> FitsOneChunk(deltas + [delta])
    {
      var s := deltas + [delta];
      assert s[|deltas|] == delta && forall k :: 0 <= k < |deltas| ==> s[k] == deltas[k];
      assert LargeDelta in s <==> LargeDelta in deltas || delta == LargeDelta;
    }

    method Add(delta: Symbol)
      requires Valid() && CanAdd(delta)
      modifies this
      ensures Valid() && deltas == old(deltas) + [delta]
    {
      ghost var before := deltas;
      deltas := deltas + [delta];
      hasLargeDelta := hasLargeDelta || delta == LargeDelta;
      hasDifferentTypes := hasDifferentTypes || delta != deltas[0];
      assert deltas[|before|] == delta;
      assert forall k :: 0 <= k < |before| ==> deltas[k] == before[k];
    }

    method Reset()
      modifies this
      ensures Valid() && deltas == []
    {
      deltas := [];
      hasLargeDelta := false;
      hasDifferentTypes := false;
    }

    /**
     Takes a chunk off the front. Nothing is lost, and a short vector leaves nothing behind. Equal symbols become a
     run, fourteen others a one-bit vector, and otherwise the first seven a two-bit vector.
     */
    method Encode() returns (c: StatusChunk)
      requires Valid() && deltas != []
      modifies this
      ensures Valid() && |deltas| < MAX_TWO_BIT_CAP && |deltas| < |old(deltas)|
      ensures ExpandChunk(c) + deltas == old(deltas)
      ensures FitsLayout(c)
      ensures |old(deltas)| >= MAX_TWO_BIT_CAP || deltas != [] ==> FullLayout(c)
      ensures c.RunLength? <==> Uniform(old(deltas))
      ensures c.OneBit? <==> !Uniform(old(deltas)) && |old(deltas)| == 14
    {
      if !hasDifferentTypes {
        c := RunLength(deltas[0], |deltas|);
        assert ExpandChunk(c) + [] == deltas;
        Reset();
        return;
      }
      if |deltas| == MAX_ONE_BIT_CAP {
        c := OneBit(deltas);
        assert ExpandChunk(c) + [] == deltas;
        Reset();
        return;
      }
      var minCap := Min(MAX_TWO_BIT_CAP, |deltas|);
      c := TwoBit(deltas[..minCap]);
      deltas := deltas[minCap..];
      hasDifferentTypes := false;
      hasLargeDelta := false;
      if |deltas| > 0 {
        var tmp := deltas[0];
        for i := 0 to |deltas|
          invariant deltas == old(deltas)[minCap..]
          invariant hasDifferentTypes <==> exists k :: 0 <= k < i && deltas[k] != tmp
          invariant hasLargeDelta <==> LargeDelta in deltas[..i]
        {
          if tmp != deltas[i] {
            hasDifferentTypes := true;
          }
          if deltas[i] == LargeDelta {
            hasLargeDelta := true;
          }
        }
        assert deltas[..|deltas|] == deltas;
      }
    }
  }
}
