/**
 * Cutting a list of records into batches for `POST /home`.  `Chunks(xs, size)`
 * is the list `[xs[i:i + size] for i in range(0, len(xs), size)]`; the lemmas
 * give its meaning: the batches put back together are `xs` in order, none is
 * empty or longer than `size`, all but the last are full, and there are
 * `ceil(|xs| / size)` of them.  `ChunksOfFullBatches` is what an
 * accumulate-and-flush loop needs to be shown equal to it.
 */
module Batching {

  /** The batches put back together, in order. */
  function Concat<T>(batches: seq<seq<T>>): seq<T> {
    if batches == [] then [] else Concat(batches[..|batches| - 1]) + batches[|batches| - 1]
  }

  /** Consecutive slices of `size` records, the last one possibly shorter. */
  function Chunks<T>(xs: seq<T>, size: nat): (r: seq<seq<T>>)
    requires size > 0
    ensures r == [] <==> xs == []
    decreases |xs|
  {
    if xs == [] then []
    else if |xs| <= size then [xs]
    else [xs[..size]] + Chunks(xs[size..], size)
  }

  /** Every batch has between 1 and `size` records, and every batch but the last has exactly `size`. */
  predicate WellCut<T>(batches: seq<seq<T>>, size: nat) {
    && (forall k :: 0 <= k < |batches| ==> 1 <= |batches[k]| <= size)
    && (forall k :: 0 <= k < |batches| - 1 ==> |batches[k]| == size)
  }

  lemma {:induction false} ConcatAppend<T>(batches: seq<seq<T>>, more: seq<seq<T>>)
    ensures Concat(batches + more) == Concat(batches) + Concat(more)
    decreases |more|
  {
    if more == [] {
      assert batches + more == batches;
    } else {
      var init := more[..|more| - 1];
      assert (batches + more)[..|batches + more| - 1] == batches + init;
      ConcatAppend(batches, init);
    }
  }

  lemma ConcatOne<T>(batch: seq<T>)
    ensures Concat([batch]) == batch
  {
    assert [batch][..0] == [];
  }

  /** A first batch comes first when the batches are put back together. */
  lemma ConcatCons<T>(batch: seq<T>, more: seq<seq<T>>)
    ensures Concat([batch] + more) == batch + Concat(more)
  {
    ConcatAppend([batch], more);
    ConcatOne(batch);
  }

  /** The batches put back together are the input, in order. */
  lemma {:induction false} ChunksConcat<T>(xs: seq<T>, size: nat)
    requires size > 0
    ensures Concat(Chunks(xs, size)) == xs
    decreases |xs|
  {
    if xs != [] && |xs| <= size {
      ConcatOne(xs);
    } else if xs != [] {
      var head, tail := xs[..size], xs[size..];
      ChunksConcat(tail, size);
      ConcatCons(head, Chunks(tail, size));
      assert head + tail == xs;
    }
  }

  /** No batch is empty or longer than `size`; all but the last are full. */
  lemma {:induction false} ChunksWellCut<T>(xs: seq<T>, size: nat)
    requires size > 0
    ensures WellCut(Chunks(xs, size), size)
    decreases |xs|
  {
    if |xs| > size {
      ChunksWellCut(xs[size..], size);
      var rest := Chunks(xs[size..], size);
      assert Chunks(xs, size) == [xs[..size]] + rest;
    }
  }

  /** There are `ceil(|xs| / size)` batches. */
  lemma {:induction false} ChunksCount<T>(xs: seq<T>, size: nat)
    requires size > 0
    ensures |Chunks(xs, size)| == (|xs| + size - 1) / size
    decreases |xs|
  {
    var n := |xs|;
    if xs == [] {
      DivUnique(size - 1, size, 0, size - 1);
    } else if n <= size {
      DivOne(n - 1, size);
    } else {
      var m := |xs[size..]|;
      assert m == n - size;
      ChunksCount(xs[size..], size);
      assert |Chunks(xs[size..], size)| == (m + size - 1) / size;
      DivStep(n + size - 1, size);
    }
  }

  lemma DivOne(a: int, size: int)
    requires size > 0 && 0 <= a < size
    ensures (a + size) / size == 1
  {
    DivUnique(a + size, size, 1, a);
  }

  lemma DivStep(a: int, size: int)
    requires size > 0 && a >= size
    ensures a / size == (a - size) / size + 1
  {
    var q := (a - size) / size;
    var r := (a - size) % size;
    assert a - size == q * size + r;
    assert a == (q + 1) * size + r;
    DivUnique(a, size, q + 1, r);
  }

  /** The quotient is the only `q` that leaves a remainder in `[0, d)`. */
  lemma DivUnique(a: int, d: int, q: int, r: int)
    requires d > 0 && 0 <= r < d && a == q * d + r
    ensures a / d == q
  {
    var q' := a / d;
    var r' := a % d;
    assert (q' - q) * d == r - r';
    if q' > q {
      MulAtLeast(q' - q, d);
    } else if q' < q {
      MulAtLeast(q - q', d);
    }
  }

  lemma {:induction false} MulAtLeast(k: int, d: int)
    requires k >= 1 && d > 0
    ensures k * d >= d
    decreases k
  {
    if k > 1 {
      MulAtLeast(k - 1, d);
      assert k * d == (k - 1) * d + d;
    }
  }

  /** Full batches followed by a shorter remainder are exactly the chunks of
      their concatenation: an accumulate-and-flush loop cuts like slicing. */
  lemma {:induction false} ChunksOfFullBatches<T>(full: seq<seq<T>>, rest: seq<T>, size: nat)
    requires size > 0 && |rest| < size
    requires forall k :: 0 <= k < |full| ==> |full[k]| == size
    ensures Chunks(Concat(full) + rest, size) == full + (if rest == [] then [] else [rest])
    decreases |full|
  {
    if full == [] {
      assert Concat(full) + rest == rest;
    } else {
      var tail := full[1..];
      ConcatAppend([full[0]], tail);
      ConcatOne(full[0]);
      assert full == [full[0]] + tail;
      ChunksOfFullBatches(tail, rest, size);
      var xs := Concat(full) + rest;
      assert xs == full[0] + (Concat(tail) + rest);
      assert xs[..size] == full[0];
      assert xs[size..] == Concat(tail) + rest;
    }
  }

  /** `xs[i:]` in Python: empty once `i` is past the end. */
  function Drop<T>(xs: seq<T>, i: nat): (r: seq<T>)
    ensures |r| == if i < |xs| then |xs| - i else 0
  {
    if i < |xs| then xs[i..] else []
  }

  /** One step of `for i in range(0, len(xs), size)`: the slice `xs[i:i + size]`
      is the first batch of what is left, and the rest starts `size` further on. */
  lemma ChunksStep<T>(xs: seq<T>, i: nat, size: nat)
    requires size > 0 && i < |xs|
    ensures var hi := if i + size <= |xs| then i + size else |xs|;
      Chunks(Drop(xs, i), size) == [xs[i..hi]] + Chunks(Drop(xs, i + size), size)
  {
    var rest := xs[i..];
    if |rest| > size {
      assert rest[..size] == xs[i..i + size];
      assert rest[size..] == xs[i + size..];
    } else {
      assert rest == xs[i..|xs|];
      assert Drop(xs, i + size) == [];
      assert [rest] + Chunks(Drop(xs, i + size), size) == [rest];
    }
  }
}
