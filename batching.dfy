/** Batch handling of the multi-person queries: the slicing of the input into
    chunks of 150 names or IDs, the list of inputs missing from a batch
    result, and the merge of the batch and retry dictionaries. */
module Batching {
  import opened Sequences

  /** The number of people put into one query. */
  const ChunkSize: nat := 150

  function Min(a: int, b: int): int
  {
    if a < b then a else b
  }

  /** `[xs[i:i + size] for i in range(0, len(xs), size)]`, built one slice
      at a time; `ChunkCount` and `ChunkAt` show it is that comprehension. */
  function Chunks<T>(xs: seq<T>, size: nat): (cs: seq<seq<T>>)
    requires size > 0
    ensures |cs| <= |xs|
    decreases |xs|
  {
    if |xs| == 0 then []
    else if |xs| <= size then [xs]
    else [xs[..size]] + Chunks(xs[size..], size)
  }

  /** `k * size`, added up one chunk at a time. */
  function Offset(k: nat, size: nat): nat
  {
    if k == 0 then 0 else Offset(k - 1, size) + size
  }

  lemma {:induction false} OffsetIsProduct(k: nat, size: nat)
    ensures Offset(k, size) == k * size
  {
    if k > 0 {
      OffsetIsProduct(k - 1, size);
      assert k * size == (k - 1) * size + size;
    }
  }

  lemma {:induction false} ChunkCountAtOffset<T>(xs: seq<T>, size: nat, k: nat)
    requires size > 0
    ensures k < |Chunks(xs, size)| <==> Offset(k, size) < |xs|
    decreases |xs|
  {
    if k > 0 && |xs| > size {
      ChunkCountAtOffset(xs[size..], size, k - 1);
    }
  }

  lemma {:induction false} ChunkAtOffset<T>(xs: seq<T>, size: nat, k: nat)
    requires size > 0 && k < |Chunks(xs, size)|
    ensures var o := Offset(k, size);
      o < |xs| && Chunks(xs, size)[k] == xs[o .. Min(o + size, |xs|)]
    decreases |xs|
  {
    if k > 0 {
      var rest := xs[size..];
      LaterChunk(xs, size, k);
      ChunkAtOffset(rest, size, k - 1);
      var o := Offset(k - 1, size);
      SliceOfSuffix(xs, size, o, Min(o + size, |rest|));
    }
  }

  /** Every chunk after the first is a chunk of what follows the first. */
  lemma LaterChunk<T>(xs: seq<T>, size: nat, k: nat)
    requires size > 0 && 0 < k < |Chunks(xs, size)|
    ensures |xs| > size && k - 1 < |Chunks(xs[size..], size)|
    ensures Chunks(xs, size)[k] == Chunks(xs[size..], size)[k - 1]
  {
  }

  lemma SliceOfSuffix<T>(xs: seq<T>, n: nat, lo: nat, hi: nat)
    requires n <= |xs| && lo <= hi <= |xs| - n
    ensures xs[n..][lo..hi] == xs[n + lo .. n + hi]
  {
  }

  /** There is a chunk for every start `k * size` below `len(xs)`, and only
      for those. */
  lemma ChunkCount<T>(xs: seq<T>, size: nat, k: nat)
    requires size > 0
    ensures k < |Chunks(xs, size)| <==> k * size < |xs|
  {
    ChunkCountAtOffset(xs, size, k);
    OffsetIsProduct(k, size);
  }

  /** Chunk `k` is the slice of `xs` starting at `k * size`, cut short by the
      end of `xs`. */
  lemma ChunkAt<T>(xs: seq<T>, size: nat, k: nat)
    requires size > 0 && k < |Chunks(xs, size)|
    ensures k * size < |xs|
    ensures Chunks(xs, size)[k] == xs[k * size .. Min(k * size + size, |xs|)]
  {
    ChunkAtOffset(xs, size, k);
    OffsetIsProduct(k, size);
  }

  /** The concatenation of a list of lists. */
  function Concat<T>(cs: seq<seq<T>>): seq<T>
  {
    if cs == [] then [] else cs[0] + Concat(cs[1..])
  }

  /** Putting the chunks back together gives the input, in order. */
  lemma {:induction false} ChunksConcat<T>(xs: seq<T>, size: nat)
    requires size > 0
    ensures Concat(Chunks(xs, size)) == xs
    decreases |xs|
  {
    if |xs| > size {
      ChunksConcat(xs[size..], size);
      var cs := Chunks(xs, size);
      assert cs[1..] == Chunks(xs[size..], size);
    }
  }

  /** Every chunk is non-empty and holds at most `size` elements, and all but
      the last hold exactly `size`. */
  lemma {:induction false} ChunkSizes<T>(xs: seq<T>, size: nat)
    requires size > 0
    ensures var cs := Chunks(xs, size);
      forall k :: 0 <= k < |cs| ==> 0 < |cs[k]| <= size && (k < |cs| - 1 ==> |cs[k]| == size)
    decreases |xs|
  {
    if |xs| > size {
      ChunkSizes(xs[size..], size);
      var cs := Chunks(xs, size);
      assert cs[1..] == Chunks(xs[size..], size);
    }
  }

  /** `[p for p in people if p not in collected]` */
  function Missing<T(==,!new)>(people: seq<T>, collected: set<T>): (m: seq<T>)
    ensures forall p :: p in m <==> p in people && p !in collected
  {
    Filter(people, p => p !in collected)
  }

  /** Every input is either collected or listed as missing, never both, and
      a missing input is listed as often as it occurs in the input. */
  lemma MissingPartitionsInput<T(!new)>(people: seq<T>, collected: set<T>)
    ensures forall p :: p in people ==> (p in collected <==> p !in Missing(people, collected))
    ensures forall p :: p !in collected ==> Count(Missing(people, collected), p) == Count(people, p)
    ensures Missing(people, collected) == [] <==> forall p :: p in people ==> p in collected
  {
    forall p | p !in collected ensures Count(Missing(people, collected), p) == Count(people, p) {
      FilterCount(people, p => p !in collected, p);
    }
    if Missing(people, collected) != [] {
      var m := Missing(people, collected);
      assert m[0] in m;
    }
  }

  /** The missing inputs keep the order of the input: the missing inputs of
      a concatenation are those of its first part followed by those of its
      second, and a single input is missing exactly when it was not
      collected. */
  lemma MissingKeepsInputOrder<T(!new)>(a: seq<T>, b: seq<T>, collected: set<T>)
    ensures Missing(a + b, collected) == Missing(a, collected) + Missing(b, collected)
    ensures forall p :: Missing([p], collected) == if p in collected then [] else [p]
  {
    FilterConcat(a, b, p => p !in collected);
    forall p ensures Missing([p], collected) == if p in collected then [] else [p] {
      assert [p][..0] == [];
    }
  }

  /** The people queries: chunks of `ChunkSize` people that give the list of
      people back in order, each holding 1 to 150 people. */
  lemma PeopleChunks<T>(people: seq<T>)
    ensures var cs := Chunks(people, ChunkSize);
      && Concat(cs) == people
      && forall k :: 0 <= k < |cs| ==> 0 < |cs[k]| <= 150
  {
    ChunksConcat(people, ChunkSize);
    ChunkSizes(people, ChunkSize);
  }

  /** `{**earlier, **later}`: later entries win. */
  function Merge<K, V>(earlier: map<K, V>, later: map<K, V>): (m: map<K, V>)
    ensures m.Keys == earlier.Keys + later.Keys
    ensures forall k :: k in later ==> m[k] == later[k]
    ensures forall k :: k in earlier && k !in later ==> m[k] == earlier[k]
  {
    earlier + later
  }

  /** The IDs found by the retries are only for names missing from the batch
      result, so the merge overrides nothing: the batch result is kept, and
      the order of the two dictionaries does not matter for the content. */
  lemma RetriedIdsOverrideNothing<V>(people: seq<string>, batch: map<string, V>, retried: map<string, V>)
    requires forall p :: p in retried ==> p in Missing(people, batch.Keys)
    ensures batch.Keys !! retried.Keys
    ensures forall p :: p in batch ==> Merge(batch, retried)[p] == batch[p]
    ensures Merge(batch, retried) == Merge(retried, batch)
  {
  }
}
