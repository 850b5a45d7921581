/** Splitting a training set into minibatches, as the convolutional
    autoencoder's training loop does once per epoch. Rows are kept abstract
    (type parameter `T`); the random permutation is passed in. */
module Minibatches {
  import opened Results

  datatype BatchError =
    | ZeroBatchSize      // `m // batch_size` divides by zero
    | UnboundBatchIndex  // the remainder branch reads `b`, which the loop never bound

  /** The indices `0, 1, ..., m - 1`, in order (`np.arange(m)`). */
  function Indices(m: nat): seq<nat>
  {
    seq(m, t requires 0 <= t < m => t)
  }

  /** `perm` is a rearrangement of the indices `[0, m)`, as
      `np.random.permutation(m)` returns. */
  ghost predicate IsIndexPermutation(perm: seq<nat>, m: nat) {
    && (forall t :: 0 <= t < |perm| ==> perm[t] < m)
    && multiset(perm) == multiset(Indices(m))
  }

  /** A rearrangement of `[0, m)` has `m` entries. */
  lemma PermutationLength(perm: seq<nat>, m: nat)
    requires IsIndexPermutation(perm, m)
    ensures |perm| == m
  {
    assert |perm| == |multiset(perm)| == |multiset(Indices(m))| == |Indices(m)|;
  }

  /** `X[perm]`: the rows of `X` in the order given by `perm`. */
  function Permuted<T>(xs: seq<T>, perm: seq<nat>): (r: seq<T>)
    requires forall t :: 0 <= t < |perm| ==> perm[t] < |xs|
    ensures |r| == |perm|
  {
    seq(|perm|, t requires 0 <= t < |perm| => xs[perm[t]])
  }

  /** The batches laid end to end. */
  function Concat<T>(batches: seq<seq<T>>): seq<T> {
    if batches == [] then [] else Concat(batches[..|batches| - 1]) + batches[|batches| - 1]
  }

  lemma ConcatSnoc<T>(batches: seq<seq<T>>, b: seq<T>)
    ensures Concat(batches + [b]) == Concat(batches) + b
  {
    assert (batches + [b])[..|batches|] == batches;
  }

  /** Full batch `b` lies inside the `m` rows. */
  lemma FullBatchBounds(m: nat, batchSize: nat, b: nat)
    requires batchSize > 0 && b < m / batchSize
    ensures b * batchSize + batchSize == (b + 1) * batchSize <= m
  {
    var q := m / batchSize;
    assert q * batchSize + m % batchSize == m;
    assert (b + 1) * batchSize + (q - b - 1) * batchSize == q * batchSize;
  }

  lemma DivisionSplit(m: nat, batchSize: nat)
    requires batchSize > 0
    ensures (m / batchSize) * batchSize + m % batchSize == m
    ensures m / batchSize == 0 <==> m < batchSize
  {
  }

  /** The number of batches `make_minibatches` returns for `m` rows. */
  function BatchCount(m: nat, batchSize: nat): nat
    requires batchSize > 0
  {
    m / batchSize + (if m % batchSize != 0 then 1 else 0)
  }

  /** `BatchCount` is the least number of `batchSize`-row batches that
      holds all `m` rows. */
  lemma BatchCountCovers(m: nat, batchSize: nat)
    requires batchSize > 0
    ensures m <= BatchCount(m, batchSize) * batchSize < m + batchSize
  {
    var q := m / batchSize;
    assert q * batchSize + m % batchSize == m;
    assert (q + 1) * batchSize == q * batchSize + batchSize;
  }

  /** Python's `make_minibatches(X, batch_size)` with the draw of
      `np.random.permutation(m)` passed in as `perm`. On success the batches
      are `m / batch_size` full ones followed, when `m % batch_size != 0`, by
      one remainder batch, and laid end to end they give back `X[perm]`;
      `FullBatchIsSlice` turns this into the slice bounds of each batch. */
  method MakeMinibatches<T>(xs: seq<T>, batchSize: nat, perm: seq<nat>)
    returns (res: Result<seq<seq<T>>, BatchError>)
    requires IsIndexPermutation(perm, |xs|)
    ensures res.Failure? <==> batchSize == 0 || 0 < |xs| < batchSize
    ensures batchSize == 0 ==> res == Failure(ZeroBatchSize)
    ensures batchSize > 0 && 0 < |xs| < batchSize ==> res == Failure(UnboundBatchIndex)
    ensures res.Success? ==>
      var batches := res.value;
      && |batches| == BatchCount(|xs|, batchSize)
      && (forall b :: 0 <= b < |xs| / batchSize ==> |batches[b]| == batchSize)
      && (|xs| % batchSize != 0 ==> |batches[|batches| - 1]| == |xs| % batchSize)
      && Concat(batches) == Permuted(xs, perm)
  {
    if batchSize == 0 {
      return Failure(ZeroBatchSize);
    }
    var m := |xs|;
    PermutationLength(perm, m);
    var xp := Permuted(xs, perm);
    var full := m / batchSize;
    DivisionSplit(m, batchSize);
    var batches := FullBatches(xp, batchSize);
    var done := full * batchSize;
    if m % batchSize != 0 {
      if full == 0 {
        // the Python loop ran zero times, so `b` was never bound
        return Failure(UnboundBatchIndex);
      }
      // the last loop value of `b` is `full - 1`, so `(b + 1) * batch_size` is `full * batch_size`
      ConcatSnoc(batches, xp[done..]);
      assert xp[..done] + xp[done..] == xp;
      batches := batches + [xp[done..]];
    } else {
      assert xp[..done] == xp;
    }
    return Success(batches);
  }

  /** `make_minibatches` as evidently intended: the remainder batch starts
      where the full batches end, `(m // batch_size) * batch_size`, rather
      than at `(b + 1) * batch_size` for a loop variable that is unbound
      when there are no full batches. Fewer rows than `batch_size` then
      give one batch holding all of them. */
  method MakeMinibatchesCorrected<T>(xs: seq<T>, batchSize: nat, perm: seq<nat>)
    returns (res: Result<seq<seq<T>>, BatchError>)
    requires IsIndexPermutation(perm, |xs|)
    ensures res.Failure? <==> batchSize == 0
    ensures res.Failure? ==> res.error == ZeroBatchSize
    ensures res.Success? ==>
      var batches := res.value;
      && |batches| == BatchCount(|xs|, batchSize)
      && (forall b :: 0 <= b < |xs| / batchSize ==> |batches[b]| == batchSize)
      && (|xs| % batchSize != 0 ==> |batches[|batches| - 1]| == |xs| % batchSize)
      && Concat(batches) == Permuted(xs, perm)
    ensures 0 < batchSize && 0 < |xs| < batchSize ==> res == Success([Permuted(xs, perm)])
  {
    if batchSize == 0 {
      return Failure(ZeroBatchSize);
    }
    var m := |xs|;
    PermutationLength(perm, m);
    var xp := Permuted(xs, perm);
    DivisionSplit(m, batchSize);
    var batches := FullBatches(xp, batchSize);
    var done := m / batchSize * batchSize;
    if m % batchSize != 0 {
      ConcatSnoc(batches, xp[done..]);
      assert xp[..done] + xp[done..] == xp;
      batches := batches + [xp[done..]];
    } else {
      assert xp[..done] == xp;
    }
    return Success(batches);
  }

  /** Lines 64-66: the `m // batch_size` full batches, cut from `xp` in
      order; laid end to end they are the first `full * batch_size` rows. */
  method FullBatches<T>(xp: seq<T>, batchSize: nat) returns (batches: seq<seq<T>>)
    requires batchSize > 0
    ensures |batches| == |xp| / batchSize
    ensures forall c :: 0 <= c < |batches| ==> |batches[c]| == batchSize
    ensures |xp| / batchSize * batchSize <= |xp|
    ensures Concat(batches) == xp[..|xp| / batchSize * batchSize]
  {
    var full := |xp| / batchSize;
    batches := [];
    for b := 0 to full
      invariant |batches| == b && b * batchSize <= |xp|
      invariant forall c :: 0 <= c < b ==> |batches[c]| == batchSize
      invariant Concat(batches) == xp[..b * batchSize]
    {
      NextBatch(xp, batches, batchSize, b);
      batches := batches + [xp[b * batchSize..(b + 1) * batchSize]];
    }
  }

  /** One pass of the loop on lines 64-66: full batch `b` fits in the rows
      and extends the concatenation to the next batch boundary. */
  lemma NextBatch<T>(xp: seq<T>, batches: seq<seq<T>>, batchSize: nat, b: nat)
    requires batchSize > 0 && b < |xp| / batchSize
    requires Concat(batches) == xp[..b * batchSize]
    ensures b * batchSize <= (b + 1) * batchSize <= |xp|
    ensures Concat(batches + [xp[b * batchSize..(b + 1) * batchSize]]) == xp[..(b + 1) * batchSize]
  {
    FullBatchBounds(|xp|, batchSize, b);
    var lo, hi := b * batchSize, (b + 1) * batchSize;
    ConcatSnoc(batches, xp[lo..hi]);
    assert xp[..lo] + xp[lo..hi] == xp[..hi];
  }

  /** Batches of one common size `batchSize` laid end to end cover
      `|batches| * batchSize` rows. */
  lemma {:induction false} ConcatLength<T>(batches: seq<seq<T>>, batchSize: nat)
    requires forall c :: 0 <= c < |batches| ==> |batches[c]| == batchSize
    ensures |Concat(batches)| == |batches| * batchSize
  {
    if batches != [] {
      var n := |batches| - 1;
      ConcatLength(batches[..n], batchSize);
      assert |batches| * batchSize == n * batchSize + batchSize;
    }
  }

  /** When the first `n` batches all have `batchSize` rows, batch `b < n` is
      the slice `[b * batchSize, (b + 1) * batchSize)` of the concatenation;
      with `Concat(batches) == X[perm]` from `MakeMinibatches` this is the
      slice the source takes. */
  lemma {:induction false} FullBatchIsSlice<T>(batches: seq<seq<T>>, batchSize: nat, n: nat, b: nat)
    requires n <= |batches| && b < n
    requires forall c :: 0 <= c < n ==> |batches[c]| == batchSize
    ensures b * batchSize + batchSize == (b + 1) * batchSize <= |Concat(batches)|
    ensures Concat(batches)[b * batchSize..(b + 1) * batchSize] == batches[b]
  {
    var last := |batches| - 1;
    var init := batches[..last];
    var lo, hi := b * batchSize, (b + 1) * batchSize;
    MulStep(b, batchSize);
    assert Concat(batches) == Concat(init) + batches[last];
    if b < last {
      FullBatchIsSlice(init, batchSize, if n <= last then n else last, b);
      assert Concat(batches)[lo..hi] == Concat(init)[lo..hi];
    } else {
      ConcatLength(init, batchSize);
      assert |Concat(init)| == lo;
    }
  }

  /** `b * s + s == (b + 1) * s`. */
  lemma MulStep(b: nat, s: nat)
    ensures b * s + s == (b + 1) * s
  {
  }

  /** A permutation of the indices reorders the rows without losing or
      duplicating any: every row of `X` appears in the batches exactly as
      often as it appears in `X`. */
  lemma PermutedIsPermutation<T>(xs: seq<T>, perm: seq<nat>)
    requires IsIndexPermutation(perm, |xs|)
    ensures multiset(Permuted(xs, perm)) == multiset(xs)
  {
    var ids := Indices(|xs|);
    PermutedPreservesMultiset(xs, perm, ids);
    assert Permuted(xs, ids) == xs;
  }

  lemma PermutedAppend<T>(xs: seq<T>, a: seq<nat>, b: seq<nat>)
    requires forall t :: 0 <= t < |a| ==> a[t] < |xs|
    requires forall t :: 0 <= t < |b| ==> b[t] < |xs|
    ensures Permuted(xs, a + b) == Permuted(xs, a) + Permuted(xs, b)
  {
  }

  /** Picking rows by two index sequences that are rearrangements of each
      other yields rearrangements of each other. */
  lemma {:induction false} PermutedPreservesMultiset<T>(xs: seq<T>, p: seq<nat>, q: seq<nat>)
    requires forall t :: 0 <= t < |p| ==> p[t] < |xs|
    requires forall t :: 0 <= t < |q| ==> q[t] < |xs|
    requires multiset(p) == multiset(q)
    ensures multiset(Permuted(xs, p)) == multiset(Permuted(xs, q))
  {
    if p == [] {
      assert |q| == |multiset(q)| == 0;
    } else {
      assert p[0] in multiset(q);
      var j :| 0 <= j < |q| && q[j] == p[0];
      RemoveOne(p, q, j);
      var front, back := q[..j], q[j + 1..];
      assert forall t :: 0 <= t < |front + back| ==> (front + back)[t] < |xs| by {
        assert forall t :: 0 <= t < |front| ==> front[t] == q[t];
        assert forall t :: 0 <= t < |back| ==> back[t] == q[j + 1 + t];
      }
      PermutedPreservesMultiset(xs, p[1..], front + back);
      ExtendBoth(xs, p, front, back);
      assert q == front + [p[0]] + back;
    }
  }

  /** Adding the same index in front of `p[1..]` and between `front` and
      `back` keeps the picked rows rearrangements of each other. */
  lemma ExtendBoth<T>(xs: seq<T>, p: seq<nat>, front: seq<nat>, back: seq<nat>)
    requires p != [] && forall t :: 0 <= t < |p| ==> p[t] < |xs|
    requires forall t :: 0 <= t < |front| ==> front[t] < |xs|
    requires forall t :: 0 <= t < |back| ==> back[t] < |xs|
    requires multiset(Permuted(xs, p[1..])) == multiset(Permuted(xs, front + back))
    ensures multiset(Permuted(xs, p)) == multiset(Permuted(xs, front + [p[0]] + back))
  {
    assert Permuted(xs, p) == [xs[p[0]]] + Permuted(xs, p[1..]);
    PickOut(xs, front, p[0], back);
  }

  /** Picking by `front + [i] + back` picks row `i` once more than picking by `front + back`. */
  lemma PickOut<T>(xs: seq<T>, front: seq<nat>, i: nat, back: seq<nat>)
    requires i < |xs|
    requires forall t :: 0 <= t < |front| ==> front[t] < |xs|
    requires forall t :: 0 <= t < |back| ==> back[t] < |xs|
    ensures multiset(Permuted(xs, front + [i] + back)) == multiset{xs[i]} + multiset(Permuted(xs, front + back))
  {
    PermutedAppend(xs, front + [i], back);
    PermutedAppend(xs, front, [i]);
    PermutedAppend(xs, front, back);
  }

  lemma RemoveOne(p: seq<nat>, q: seq<nat>, j: nat)
    requires multiset(p) == multiset(q)
    requires p != [] && j < |q| && q[j] == p[0]
    ensures multiset(p[1..]) == multiset(q[..j] + q[j + 1..])
  {
    assert p == [p[0]] + p[1..];
    assert q == q[..j] + [q[j]] + q[j + 1..];
    calc {
      multiset(p[1..]);
      multiset(p) - multiset{p[0]};
      multiset(q) - multiset{q[j]};
      multiset(q[..j]) + multiset{q[j]} + multiset(q[j + 1..]) - multiset{q[j]};
      multiset(q[..j] + q[j + 1..]);
    }
  }
}
