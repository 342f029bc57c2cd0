/**
 * The parameter maps of a DB parameter group or DB cluster parameter group:
 * computing what to modify, what to keep and what to reset between the
 * desired and the observed parameters, and splitting a map into batches for
 * the service's per-call parameter limit.
 */
module Parameters {
  import opened Wrappers

  /** Parameter name to value; a None value is a nil `*string`. */
  type Parameters = map<string, Option<string>>

  /** A nil map (None) behaves exactly like an empty one. */
  function OrEmpty(m: Option<Parameters>): Parameters {
    if m.None? then map[] else m.value
  }

  /**
   * The comparison of two `*string` values: two nils are equal, a nil and a
   * non-nil differ, and two non-nils are compared by their strings.
   */
  predicate SameValue(a: Option<string>, b: Option<string>)
    ensures SameValue(a, b) <==> a == b
  {
    if a.None? && b.None? then true
    else if a.None? || b.None? then false
    else a.value == b.value
  }

  /**
   * What applying a difference does to the observed parameters: the removed
   * names are reset, the added ones are set to their new values.
   */
  function Patch(from: Parameters, added: Parameters, removed: Parameters): Parameters {
    (from - removed.Keys) + added
  }

  /**
   * The difference between the observed map `from` and the desired map `to`:
   * added and unmodified partition the desired names, a name is unmodified
   * exactly when both maps hold it with the same value, removed holds the
   * observed names that are no longer desired, and every entry carries the
   * value of the map it was taken from.
   */
  ghost predicate IsDifference(to: Parameters, from: Parameters,
                               added: Parameters, unmodified: Parameters, removed: Parameters)
  {
    && added.Keys !! unmodified.Keys
    && added.Keys + unmodified.Keys == to.Keys
    && (forall k :: k in unmodified <==> k in to && k in from && to[k] == from[k])
    && (forall k :: k in added ==> added[k] == to[k])
    && (forall k :: k in unmodified ==> unmodified[k] == to[k])
    && removed.Keys == from.Keys - to.Keys
    && (forall k :: k in removed ==> removed[k] == from[k])
  }

  /**
   * Splits the parameters into those to add or update, those unmodified and
   * those to remove, going from `from` (observed) to `to` (desired); a nil
   * map behaves as an empty one.
   */
  method GetParametersDifference(to: Option<Parameters>, from: Option<Parameters>)
    returns (added: Parameters, unmodified: Parameters, removed: Parameters)
    ensures IsDifference(OrEmpty(to), OrEmpty(from), added, unmodified, removed)
    // applying the difference to the observed map yields the desired map
    ensures Patch(OrEmpty(from), added, removed) == OrEmpty(to)
    // the shortcuts for empty (or nil) inputs
    ensures OrEmpty(from) == map[] ==> added == OrEmpty(to) && unmodified == map[] && removed == map[]
    ensures OrEmpty(to) == map[] ==> added == map[] && unmodified == map[] && removed == OrEmpty(from)
    // a map compared with itself has nothing to add or remove
    ensures OrEmpty(to) == OrEmpty(from) ==> added == map[] && removed == map[] && unmodified == OrEmpty(to)
  {
    var t := OrEmpty(to);
    var f := OrEmpty(from);
    if |t| == 0 && |f| == 0 {
      EmptyMap(t);
      EmptyMap(f);
      added, unmodified, removed := map[], map[], map[];
      NothingObserved(t, f);
    } else if |f| == 0 {
      // every desired parameter is an addition
      EmptyMap(f);
      added, unmodified, removed := t, map[], map[];
      NothingObserved(t, f);
    } else if |t| == 0 {
      // every observed parameter is a removal
      EmptyMap(t);
      added, unmodified, removed := map[], map[], f;
      NothingDesired(t, f);
    } else {
      added, unmodified := SplitDesired(t, f);
      removed := CollectRemoved(t, f);
    }
    DifferenceConsequences(t, f, added, unmodified, removed);
  }

  /** The first loop of the difference: sorts every desired name into added or unmodified. */
  method SplitDesired(t: Parameters, f: Parameters) returns (added: Parameters, unmodified: Parameters)
    ensures added.Keys !! unmodified.Keys
    ensures added.Keys + unmodified.Keys == t.Keys
    ensures forall k :: k in unmodified <==> k in t && k in f && t[k] == f[k]
    ensures forall k :: k in added ==> added[k] == t[k]
    ensures forall k :: k in unmodified ==> unmodified[k] == t[k]
  {
    added, unmodified := map[], map[];
    var pending := t.Keys;
    while pending != {}
      invariant pending <= t.Keys
      invariant added.Keys !! unmodified.Keys
      invariant added.Keys + unmodified.Keys == t.Keys - pending
      invariant forall k :: k in unmodified <==> k in t && k !in pending && k in f && t[k] == f[k]
      invariant forall k :: k in added ==> added[k] == t[k]
      invariant forall k :: k in unmodified ==> unmodified[k] == t[k]
      decreases pending
    {
      var k :| k in pending;
      var toVal := t[k];
      if k in f && SameValue(toVal, f[k]) {
        // both nil, or equal strings: unmodified
        unmodified := unmodified[k := toVal];
      } else {
        // a new parameter, exactly one nil, or a different string: a modification
        added := added[k := toVal];
      }
      pending := pending - {k};
    }
  }

  /** The second loop of the difference: the observed names missing from the desired map. */
  method CollectRemoved(t: Parameters, f: Parameters) returns (removed: Parameters)
    ensures removed.Keys == f.Keys - t.Keys
    ensures forall k :: k in removed ==> removed[k] == f[k]
  {
    removed := map[];
    var remaining := f.Keys;
    while remaining != {}
      invariant remaining <= f.Keys
      invariant removed.Keys == (f.Keys - remaining) - t.Keys
      invariant forall k :: k in removed ==> removed[k] == f[k]
      decreases remaining
    {
      var k :| k in remaining;
      if k !in t {
        removed := removed[k := f[k]];
      }
      remaining := remaining - {k};
    }
  }

  lemma NothingObserved(t: Parameters, f: Parameters)
    requires f == map[]
    ensures IsDifference(t, f, t, map[], map[])
  {
  }

  lemma NothingDesired(t: Parameters, f: Parameters)
    requires t == map[]
    ensures IsDifference(t, f, map[], map[], f)
  {
  }

  lemma EmptyMap(m: Parameters)
    requires |m| == 0
    ensures m == map[]
  {
  }

  /**
   * What a difference implies: applied over `from` it yields `to`, empty
   * sides give the shortcut results, and a map differs from itself in nothing.
   */
  lemma DifferenceConsequences(t: Parameters, f: Parameters,
                               added: Parameters, unmodified: Parameters, removed: Parameters)
    requires IsDifference(t, f, added, unmodified, removed)
    ensures Patch(f, added, removed) == t
    ensures f == map[] ==> added == t && unmodified == map[] && removed == map[]
    ensures t == map[] ==> added == map[] && unmodified == map[] && removed == f
    ensures t == f ==> added == map[] && removed == map[] && unmodified == t
  {
  }

  /** The difference is determined by the two maps: no two different results satisfy it. */
  lemma DifferenceUnique(t: Parameters, f: Parameters,
                         a1: Parameters, u1: Parameters, r1: Parameters,
                         a2: Parameters, u2: Parameters, r2: Parameters)
    requires IsDifference(t, f, a1, u1, r1)
    requires IsDifference(t, f, a2, u2, r2)
    ensures a1 == a2 && u1 == u2 && r1 == r2
  {
  }

  /** The number of entries a chunk takes before it counts as full: negative sizes behave like zero. */
  function Capacity(chunkSize: int): nat {
    if chunkSize > 0 then chunkSize else 0
  }

  /**
   * The number of entries visited per chunk: its capacity plus the one entry
   * visited while the chunk is full, which closes the chunk but is not
   * stored anywhere.
   */
  function Stride(chunkSize: int): nat {
    Capacity(chunkSize) + 1
  }

  /** Whether some chunk holds the key. */
  predicate InSomeChunk(chunks: seq<Parameters>, k: string) {
    exists j :: 0 <= j < |chunks| && k in chunks[j]
  }

  /** `order` lists every key of `input` exactly once: one Go map iteration order. */
  predicate IsIterationOrder(order: seq<string>, input: Parameters) {
    && (forall i, j :: 0 <= i < j < |order| ==> order[i] != order[j])
    && (forall k :: k in input ==> k in order)
    && (forall n :: 0 <= n < |order| ==> order[n] in input)
  }

  /** The chunk holds exactly the entries visited at positions lo .. hi - 1. */
  ghost predicate Holds(order: seq<string>, chunk: Parameters, lo: int, hi: int) {
    forall n :: 0 <= n < |order| ==> (order[n] in chunk <==> lo <= n < hi)
  }

  /** Chunk j holds exactly the entries visited at positions j*S .. j*S + C - 1. */
  ghost predicate Windows(order: seq<string>, chunks: seq<Parameters>, S: int, C: int) {
    forall j, n :: 0 <= j < |chunks| && 0 <= n < |order| ==>
      (order[n] in chunks[j] <==> j * S <= n < j * S + C)
  }

  /** Every chunk entry is an input entry with its input value. */
  ghost predicate FromInput(chunks: seq<Parameters>, input: Parameters) {
    forall j, k :: 0 <= j < |chunks| && k in chunks[j] ==> k in input && chunks[j][k] == input[k]
  }

  /**
   * Splits the parameters into chunks of at most `chunkSize` entries,
   * visiting them in the map's iteration order `order`. As written, the entry
   * visited while the current chunk is full only closes that chunk and is
   * not put into any chunk.
   */
  method ChunkParameters(input: Parameters, order: seq<string>, chunkSize: int)
    returns (chunks: seq<Parameters>)
    requires IsIterationOrder(order, input)
    ensures |chunks| == |order| / Stride(chunkSize) + 1
    ensures chunkSize >= 0 ==> forall j :: 0 <= j < |chunks| ==> |chunks[j]| <= chunkSize
    ensures chunkSize < 0 ==> forall j :: 0 <= j < |chunks| ==> chunks[j] == map[]
    // every chunk but the last is full; the last holds what is left over
    ensures forall j :: 0 <= j < |chunks| - 1 ==> |chunks[j]| == Capacity(chunkSize)
    ensures |chunks[|chunks| - 1]| == |order| % Stride(chunkSize)
    // chunk j holds exactly the entries visited at positions j*S .. j*S + C - 1
    ensures Windows(order, chunks, Stride(chunkSize), Capacity(chunkSize))
    // so an entry is kept exactly when it is not visited while a chunk is full
    ensures forall n :: 0 <= n < |order| ==>
      (InSomeChunk(chunks, order[n]) <==> n % Stride(chunkSize) < Capacity(chunkSize))
    // every chunk entry comes from the input, with its value
    ensures FromInput(chunks, input)
    ensures forall i, j :: 0 <= i < j < |chunks| ==> chunks[i].Keys !! chunks[j].Keys
    // in particular the entry visited when the first chunk is full is in no chunk
    ensures chunkSize >= 0 && |order| > chunkSize ==> !InSomeChunk(chunks, order[chunkSize])
  {
    ghost var C, S := Capacity(chunkSize), Stride(chunkSize);
    chunks := [];
    var chunk: Parameters := map[];
    var idx := 0;
    var i := 0;
    ghost var lo := 0;
    while i < |order|
      invariant Chunking(input, order, S, C, chunks, chunk, lo, idx, i)
      decreases |order| - i
    {
      var k := order[i];
      if idx < chunkSize {
        KeepStep(input, order, S, C, chunks, chunk, lo, idx, i);
        chunk := chunk[k := input[k]];
        idx := idx + 1;
      } else {
        // reset the chunker; the entry at position i is not kept
        DropStep(input, order, S, C, chunks, chunk, lo, idx, i);
        chunks := chunks + [chunk];
        chunk := map[];
        idx := 0;
        lo := lo + S;
      }
      i := i + 1;
    }
    FinishChunks(input, order, chunkSize, chunks, chunk, lo, idx);
    chunks := chunks + [chunk];
    if chunkSize >= 0 && |order| > chunkSize {
      DivModOf(chunkSize, 0, chunkSize, S);
    }
  }

  /**
   * Two entries in chunks of one: the first chunk takes "a", the second
   * entry is visited while that chunk is full and never stored.
   */
  method ChunkParametersDropsExample() returns (input: Parameters, chunks: seq<Parameters>)
    ensures input == map["a" := Some("1"), "b" := Some("2")]
    ensures |chunks| == 2 && "a" in chunks[0]
    ensures "b" in input && !InSomeChunk(chunks, "b")
  {
    input := map["a" := Some("1"), "b" := Some("2")];
    var order := ["a", "b"];
    chunks := ChunkParameters(input, order, 1);
    assert order[0] == "a" && order[1] == "b";
    assert 0 % 2 == 0 && 1 % 2 == 1 && 2 / 2 == 1;
  }

  /**
   * The state of a chunking loop after visiting the first i entries: `chunks`
   * holds the closed chunks, each with C entries taken from its window of
   * stride S, and `chunk` the idx entries visited since position lo.
   */
  ghost predicate Chunking(input: Parameters, order: seq<string>, S: int, C: int,
                           chunks: seq<Parameters>, chunk: Parameters, lo: int, idx: int, i: int)
  {
    && 0 <= i <= |order|
    && 0 <= idx <= C
    && 0 <= lo == |chunks| * S
    && i == lo + idx
    && |chunk| == idx
    && (forall j :: 0 <= j < |chunks| ==> |chunks[j]| == C)
    && Holds(order, chunk, lo, i)
    && Windows(order, chunks, S, C)
    && (forall k :: k in chunk ==> k in input && chunk[k] == input[k])
    && FromInput(chunks, input)
  }

  /** Storing the visited entry in a chunk that is not full. */
  lemma KeepStep(input: Parameters, order: seq<string>, S: int, C: int,
                 chunks: seq<Parameters>, chunk: Parameters, lo: int, idx: int, i: int)
    requires IsIterationOrder(order, input)
    requires Chunking(input, order, S, C, chunks, chunk, lo, idx, i)
    requires i < |order| && idx < C
    ensures Chunking(input, order, S, C, chunks, chunk[order[i] := input[order[i]]], lo, idx + 1, i + 1)
  {
  }

  /** Closing a full chunk on the visited entry, which is not stored. */
  lemma DropStep(input: Parameters, order: seq<string>, S: int, C: int,
                 chunks: seq<Parameters>, chunk: Parameters, lo: int, idx: int, i: int)
    requires IsIterationOrder(order, input)
    requires Chunking(input, order, S, C, chunks, chunk, lo, idx, i)
    requires i < |order| && idx == C && S == C + 1
    ensures Chunking(input, order, S, C, chunks + [chunk], map[], lo + S, 0, i + 1)
  {
    CloseChunk(order, chunks, chunk, S, C, i);
    StrideStep(|chunks|, S);
    FromInputAppend(chunks, chunk, input);
    var all := chunks + [chunk];
    forall j | 0 <= j < |all|
      ensures |all[j]| == C
    {
      if j < |chunks| {
        assert all[j] == chunks[j];
      }
    }
  }

  /** Closing a full chunk and starting the next one with the visited entry. */
  lemma CarryStep(input: Parameters, order: seq<string>, S: int, C: int,
                  chunks: seq<Parameters>, chunk: Parameters, lo: int, idx: int, i: int)
    requires IsIterationOrder(order, input)
    requires Chunking(input, order, S, C, chunks, chunk, lo, idx, i)
    requires i < |order| && idx == C && S == C && C > 0
    ensures Chunking(input, order, S, C, chunks + [chunk], map[order[i] := input[order[i]]], lo + S, 1, i + 1)
  {
    CloseChunk(order, chunks, chunk, S, C, i);
    StrideStep(|chunks|, S);
    FromInputAppend(chunks, chunk, input);
    AddToChunk(order, map[], lo + S, i, input[order[i]]);
    var all := chunks + [chunk];
    forall j | 0 <= j < |all|
      ensures |all[j]| == C
    {
      if j < |chunks| {
        assert all[j] == chunks[j];
      }
    }
  }

  /** The state ChunkParameters' loop ends in establishes its postcondition once the last chunk is appended. */
  lemma FinishChunks(input: Parameters, order: seq<string>, chunkSize: int,
                     prefix: seq<Parameters>, chunk: Parameters, lo: int, idx: int)
    requires IsIterationOrder(order, input)
    requires 0 <= idx <= Capacity(chunkSize)
    requires 0 <= lo == |prefix| * Stride(chunkSize) && |order| == lo + idx
    requires |chunk| == idx
    requires forall j :: 0 <= j < |prefix| ==> |prefix[j]| == Capacity(chunkSize)
    requires Holds(order, chunk, lo, |order|)
    requires Windows(order, prefix, Stride(chunkSize), Capacity(chunkSize))
    requires forall k :: k in chunk ==> k in input && chunk[k] == input[k]
    requires FromInput(prefix, input)
    ensures var chunks := prefix + [chunk];
      && |chunks| == |order| / Stride(chunkSize) + 1
      && (chunkSize >= 0 ==> forall j :: 0 <= j < |chunks| ==> |chunks[j]| <= chunkSize)
      && (chunkSize < 0 ==> forall j :: 0 <= j < |chunks| ==> chunks[j] == map[])
      && (forall j :: 0 <= j < |chunks| - 1 ==> |chunks[j]| == Capacity(chunkSize))
      && |chunks[|chunks| - 1]| == |order| % Stride(chunkSize)
      && Windows(order, chunks, Stride(chunkSize), Capacity(chunkSize))
      && (forall n :: 0 <= n < |order| ==>
           (InSomeChunk(chunks, order[n]) <==> n % Stride(chunkSize) < Capacity(chunkSize)))
      && FromInput(chunks, input)
      && (forall i, j :: 0 <= i < j < |chunks| ==> chunks[i].Keys !! chunks[j].Keys)
  {
    var S, C := Stride(chunkSize), Capacity(chunkSize);
    CloseChunk(order, prefix, chunk, S, C, |order|);
    StrideStep(|prefix|, S);
    FromInputAppend(prefix, chunk, input);
    var chunks := prefix + [chunk];
    DivModOf(|order|, |prefix|, idx, S);
    ChunksDisjoint(input, order, chunks, S, C);
    forall n | 0 <= n < |order|
      ensures InSomeChunk(chunks, order[n]) <==> n % S < C
    {
      KeptPositions(order, chunks, S, C, n);
    }
    forall j | 0 <= j < |chunks|
      ensures |chunks[j]| <= C
    {
      if j < |prefix| {
        assert chunks[j] == prefix[j];
      }
    }
    if chunkSize < 0 {
      forall j | 0 <= j < |chunks|
        ensures chunks[j] == map[]
      {
        EmptyMap(chunks[j]);
      }
    }
  }

  /** Adding the entry at position hi extends the chunk's window by one. */
  lemma AddToChunk(order: seq<string>, chunk: Parameters, lo: int, hi: int, v: Option<string>)
    requires forall i, j :: 0 <= i < j < |order| ==> order[i] != order[j]
    requires 0 <= lo <= hi < |order|
    requires Holds(order, chunk, lo, hi)
    ensures order[hi] !in chunk
    ensures Holds(order, chunk[order[hi] := v], lo, hi + 1)
  {
  }

  /** Closing a chunk whose window starts at |chunks| * S keeps every chunk in its window. */
  lemma CloseChunk(order: seq<string>, chunks: seq<Parameters>, chunk: Parameters, S: int, C: int, hi: int)
    requires Windows(order, chunks, S, C)
    requires hi <= |chunks| * S + C && Holds(order, chunk, |chunks| * S, hi)
    requires hi < |chunks| * S + C ==> hi == |order|
    ensures Windows(order, chunks + [chunk], S, C)
  {
  }

  lemma FromInputAppend(chunks: seq<Parameters>, chunk: Parameters, input: Parameters)
    requires FromInput(chunks, input)
    requires forall k :: k in chunk ==> k in input && chunk[k] == input[k]
    ensures FromInput(chunks + [chunk], input)
  {
  }

  lemma StrideStep(q: int, S: int)
    ensures (q + 1) * S == q * S + S
  {
  }

  /** Multiplying by a non-negative factor keeps the sign of the difference. */
  lemma MulSign(d: int, S: int)
    ensures d >= 1 && S >= 0 ==> d * S >= S
    ensures d <= -1 && S >= 0 ==> d * S <= -S
    ensures d >= 0 && S >= 0 ==> d * S >= 0
  {
  }

  /** The quotient and remainder of n by S, from a decomposition n == q * S + r. */
  lemma DivModOf(n: int, q: int, r: int, S: int)
    requires S > 0 && 0 <= r < S && n == q * S + r
    ensures n / S == q && n % S == r
  {
    var q', r' := n / S, n % S;
    assert (q - q') * S == r' - r;
    MulSign(q - q', S);
  }

  /** Chunks built from disjoint position windows share no key. */
  lemma ChunksDisjoint(input: Parameters, order: seq<string>, chunks: seq<Parameters>, S: int, C: int)
    requires IsIterationOrder(order, input)
    requires 0 <= C <= S
    requires Windows(order, chunks, S, C)
    requires forall j, k :: 0 <= j < |chunks| && k in chunks[j] ==> k in input
    ensures forall i, j :: 0 <= i < j < |chunks| ==> chunks[i].Keys !! chunks[j].Keys
  {
    forall a, b | 0 <= a < b < |chunks|
      ensures chunks[a].Keys !! chunks[b].Keys
    {
      MulSign(b - a, S);
      assert b * S - a * S == (b - a) * S;
      forall k | k in chunks[a]
        ensures k !in chunks[b]
      {
        assert k in order;
        var n :| 0 <= n < |order| && order[n] == k;
        assert n < a * S + C;
      }
    }
  }

  /**
   * With windows of C kept positions every S, the entry at position n is in
   * some chunk exactly when n % S < C.
   */
  lemma KeptPositions(order: seq<string>, chunks: seq<Parameters>, S: int, C: int, n: int)
    requires 0 <= C <= S && S > 0
    requires Windows(order, chunks, S, C)
    requires |order| <= |chunks| * S
    requires 0 <= n < |order|
    ensures InSomeChunk(chunks, order[n]) <==> n % S < C
  {
    var q, r := n / S, n % S;
    assert n == q * S + r;
    MulSign(|chunks| - q, S);
    assert |chunks| * S - q * S == (|chunks| - q) * S;
    MulSign(q, S);
    assert 0 <= q < |chunks|;
    forall j | 0 <= j < |chunks|
      ensures order[n] in chunks[j] <==> j == q && r < C
    {
      MulSign(j - q, S);
      assert j * S - q * S == (j - q) * S;
    }
    if r < C {
      assert order[n] in chunks[q];
    }
  }

  /**
   * The evidently intended chunking: the entry visited while the current
   * chunk is full starts the next chunk instead of being dropped.
   */
  method ChunkParametersComplete(input: Parameters, order: seq<string>, chunkSize: int)
    returns (chunks: seq<Parameters>)
    requires IsIterationOrder(order, input)
    requires chunkSize > 0
    ensures |chunks| >= 1
    ensures forall j :: 0 <= j < |chunks| ==> |chunks[j]| <= chunkSize
    // chunk j holds exactly the entries visited at positions j*chunkSize .. (j+1)*chunkSize - 1
    ensures Windows(order, chunks, chunkSize, chunkSize)
    // every input entry lands in some chunk
    ensures forall n :: 0 <= n < |order| ==> InSomeChunk(chunks, order[n])
    ensures FromInput(chunks, input)
    ensures forall i, j :: 0 <= i < j < |chunks| ==> chunks[i].Keys !! chunks[j].Keys
  {
    chunks := [];
    var chunk: Parameters := map[];
    var idx := 0;
    var i := 0;
    ghost var lo := 0;
    while i < |order|
      invariant Chunking(input, order, chunkSize, chunkSize, chunks, chunk, lo, idx, i)
      decreases |order| - i
    {
      var k := order[i];
      if idx < chunkSize {
        KeepStep(input, order, chunkSize, chunkSize, chunks, chunk, lo, idx, i);
        chunk := chunk[k := input[k]];
        idx := idx + 1;
      } else {
        // close the full chunk and start the next one with this entry
        CarryStep(input, order, chunkSize, chunkSize, chunks, chunk, lo, idx, i);
        chunks := chunks + [chunk];
        chunk := map[k := input[k]];
        idx := 1;
        lo := lo + chunkSize;
      }
      i := i + 1;
    }
    FinishCompleteChunks(input, order, chunkSize, chunks, chunk, lo, idx);
    chunks := chunks + [chunk];
  }

  /** The state ChunkParametersComplete's loop ends in establishes its postcondition. */
  lemma FinishCompleteChunks(input: Parameters, order: seq<string>, chunkSize: int,
                             prefix: seq<Parameters>, chunk: Parameters, lo: int, idx: int)
    requires IsIterationOrder(order, input)
    requires chunkSize > 0
    requires 0 <= idx <= chunkSize
    requires 0 <= lo == |prefix| * chunkSize && |order| == lo + idx
    requires |chunk| == idx
    requires forall j :: 0 <= j < |prefix| ==> |prefix[j]| == chunkSize
    requires Holds(order, chunk, lo, |order|)
    requires Windows(order, prefix, chunkSize, chunkSize)
    requires forall k :: k in chunk ==> k in input && chunk[k] == input[k]
    requires FromInput(prefix, input)
    ensures var chunks := prefix + [chunk];
      && |chunks| >= 1
      && (forall j :: 0 <= j < |chunks| ==> |chunks[j]| <= chunkSize)
      && Windows(order, chunks, chunkSize, chunkSize)
      && (forall n :: 0 <= n < |order| ==> InSomeChunk(chunks, order[n]))
      && FromInput(chunks, input)
      && (forall i, j :: 0 <= i < j < |chunks| ==> chunks[i].Keys !! chunks[j].Keys)
  {
    CloseChunk(order, prefix, chunk, chunkSize, chunkSize, |order|);
    StrideStep(|prefix|, chunkSize);
    FromInputAppend(prefix, chunk, input);
    var chunks := prefix + [chunk];
    ChunksDisjoint(input, order, chunks, chunkSize, chunkSize);
    forall n | 0 <= n < |order|
      ensures InSomeChunk(chunks, order[n])
    {
      KeptPositions(order, chunks, chunkSize, chunkSize, n);
    }
    forall j | 0 <= j < |chunks|
      ensures |chunks[j]| <= chunkSize
    {
      if j < |prefix| {
        assert chunks[j] == prefix[j];
      }
    }
  }
}
