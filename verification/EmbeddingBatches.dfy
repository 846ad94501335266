/** Splitting a logical embedding call into batches and putting the vectors together again
    (internal/aigateway/orchestration.go:358-476). */
module EmbeddingBatches {
  import opened WorkerPool

  ghost function Flatten<T>(parts: seq<seq<T>>): seq<T> {
    if parts == [] then [] else Flatten(parts[..|parts| - 1]) + parts[|parts| - 1]
  }

  lemma {:induction false} FlattenMore<T>(parts: seq<seq<T>>, last: seq<T>)
    ensures Flatten(parts + [last]) == Flatten(parts) + last
  {
    assert (parts + [last])[..|parts|] == parts;
  }

  /** Batches of `size` items, the last one possibly smaller but not empty. */
  ghost predicate Chunked<T>(batches: seq<seq<T>>, size: nat, lastIsFull: bool) {
    forall b | 0 <= b < |batches| ::
        1 <= |batches[b]| <= size && (b < |batches| - 1 || lastIsFull ==> |batches[b]| == size)
  }

  lemma ChunkedMore<T>(batches: seq<seq<T>>, last: seq<T>, size: nat)
    requires Chunked(batches, size, true) && 1 <= |last| <= size
    ensures Chunked(batches + [last], size, |last| == size)
  {
  }

  /** Nothing lost, nothing reordered; as few batches as possible. */
  method SplitBatches<T>(items: seq<T>, size: nat) returns (batches: seq<seq<T>>)
    requires size > 0
    ensures Flatten(batches) == items && Chunked(batches, size, false)
    ensures |batches| == (|items| + size - 1) / size
  {
    hide Flatten, Chunked;
    batches := [];
    var start := 0;
    NoBatches<T>(size);
    while start < |items|
      invariant 0 <= start < |items| + size && start == size * |batches|
      invariant Flatten(batches) == items[..if start <= |items| then start else |items|]
      invariant Chunked(batches, size, start <= |items|)
      decreases |items| - start
    {
      var end := if start + size > |items| then |items| else start + size;
      FlattenMore(batches, items[start..end]);
      ChunkedMore(batches, items[start..end], size);
      assert items[..end] == items[..start] + items[start..end];
      Product(size, |batches|);
      batches := batches + [items[start..end]];
      start := start + size;
    }
    Ceiling(|items|, size, |batches|);
    assert items[..|items|] == items;
    ChunkedWeaker(batches, size);
  }

  lemma NoBatches<T>(size: nat)
    ensures Flatten<T>([]) == [] && Chunked<T>([], size, true)
  {
  }

  lemma ChunkedWeaker<T>(batches: seq<seq<T>>, size: nat)
    ensures Chunked(batches, size, true) ==> Chunked(batches, size, false)
  {
  }

  lemma Product(size: nat, n: nat)
    ensures size * (n + 1) == size * n + size
  {
  }

  lemma {:induction false} ProductGrows(size: nat, m: nat, n: nat)
    requires m < n
    ensures size * m + size <= size * n
  {
    Product(size, n - 1);
    if m < n - 1 { ProductGrows(size, m, n - 1); }
  }

  lemma Ceiling(n: nat, size: nat, count: nat)
    requires size > 0 && n <= size * count < n + size
    ensures count == (n + size - 1) / size
  {
    var q := (n + size - 1) / size;
    assert size * q <= n + size - 1 < size * q + size;
    if count < q { ProductGrows(size, count, q); }
    if q < count { ProductGrows(size, q, count); }
  }

  ghost predicate Matched<I(!new), V(!new)>(belongs: (I, V) -> bool, items: seq<I>, vectors: seq<V>) {
    |vectors| == |items| && forall j | 0 <= j < |items| :: belongs(items[j], vectors[j])
  }

  /** If every batch result is right for its batch, the combined vectors are right for the items. */
  lemma {:induction false} VectorsFollowItems<I(!new), V(!new)>(belongs: (I, V) -> bool, batches: seq<seq<I>>,
      results: seq<seq<V>>)
    requires |results| == |batches| && forall b | 0 <= b < |batches| :: Matched(belongs, batches[b], results[b])
    ensures Matched(belongs, Flatten(batches), Flatten(results))
  {
    if batches != [] {
      var n := |batches| - 1;
      VectorsFollowItems(belongs, batches[..n], results[..n]);
      assert Matched(belongs, batches[n], results[n]);
    }
  }

  lemma {:induction false} JobOnce(n: nat, k: nat)
    ensures multiset(Jobs(n))[k] == if k < n then 1 else 0
  {
    if n > 0 { JobOnce(n - 1, k); }
  }

  /** A pool of workers that ends without cancellation has assigned each batch index exactly once. */
  lemma {:induction false} EachIndexOnce(n: nat, workers: nat, steps: seq<Step>, end: Pool, k: nat)
    requires workers > 0 && Runs(n, Start(workers), steps, end) && Over(end) && !end.cancelled && k < n
    ensures multiset(end.delivered)[k] == 1 && exists p :: 0 <= p < |end.delivered| && end.delivered[p] == k
  {
    ExactlyOnce(n, workers, steps, end);
    JobOnce(n, k);
    assert k in multiset(end.delivered);
  }

  /** `results[index] = result` for every index handed in: what the slots hold in the end. */
  ghost function Filled<V>(result: nat -> V, slots: map<nat, V>, order: seq<nat>): map<nat, V> {
    if order == [] then slots else Filled(result, slots,
        order[..|order| - 1])[order[|order| - 1] := result(order[|order| - 1])]
  }

  lemma {:induction false} FilledExact<V>(result: nat -> V, order: seq<nat>)
    ensures forall k :: k in Filled(result, map[], order) <==> k in order
    ensures forall k | k in Filled(result, map[], order) :: Filled(result, map[], order)[k] == result(k)
    decreases |order|
  {
    if order != [] { FilledExact(result, order[..|order| - 1]); }
  }

  /** A successful call: whatever the schedule, vector `i` of the result belongs to item `i`. */
  lemma {:induction false} EmbeddingIsOrdered<I(!new), V(!new)>(belongs: (I, V) -> bool, batches: seq<seq<I>>,
      result: nat -> seq<V>, workers: nat, steps: seq<Step>, end: Pool)
    requires workers > 0 && Runs(|batches|, Start(workers), steps, end) && Over(end) && !end.cancelled
    requires forall b | 0 <= b < |batches| :: Matched(belongs, batches[b], result(b))
    ensures var slots := Filled(result, map[], end.delivered);
      && (forall b: nat | b < |batches| :: b in slots)
      && Matched(belongs, Flatten(batches),
          Flatten(seq(|batches|, b requires 0 <= b < |batches| => if b in slots then slots[b] else [])))
  {
    var slots := Filled(result, map[], end.delivered);
    FilledExact(result, end.delivered);
    forall b: nat | b < |batches|
      ensures b in slots && slots[b] == result(b)
    {
      EachIndexOnce(|batches|, workers, steps, end, b);
    }
    var results := seq(|batches|, b requires 0 <= b < |batches| => if b in slots then slots[b] else []);
    VectorsFollowItems(belongs, batches, results);
  }
}
