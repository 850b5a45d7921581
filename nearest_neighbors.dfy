/** The k-nearest-neighbours imputation of Supervised/kNearestNeighbors.py:
    `min_k_indices`, which keeps a sorted list of the indices of the k
    smallest entries of a list by insertion, and `kNN`, which drops the
    features to predict from every vector, measures the distance from every
    vector to classify to every training vector with a caller-supplied
    metric, and fills the features to predict with the mean of those
    features over the k nearest training vectors. */
module NearestNeighbors {

  import opened Results

  function Min(a: nat, b: nat): nat {
    if a <= b then a else b
  }

  function Take<T>(s: seq<T>, k: nat): (r: seq<T>)
    ensures |r| == Min(|s|, k)
    ensures forall t :: 0 <= t < |r| ==> r[t] == s[t]
  {
    if |s| <= k then s else s[..k]
  }

  /* ---------------------------------------------------------------------
     min_k_indices
     --------------------------------------------------------------------- */

  /** Index `a` comes before index `b` when its value is smaller, or when
      the values are equal and `a` is the earlier index: the order in which
      the insertion loop leaves the indices it keeps. */
  predicate Precedes(L: seq<real>, a: nat, b: nat)
    requires a < |L| && b < |L|
  {
    L[a] < L[b] || (L[a] == L[b] && a < b)
  }

  /** `r` is what a correct selection of the k smallest among the first `n`
      entries of `L` looks like: `min(k, n)` indices below `n`, listed in
      strictly increasing `Precedes` order, and every index below `n` that
      is left out comes after all of them. */
  predicate Ranked(L: seq<real>, n: nat, k: nat, r: seq<nat>) {
    && n <= |L|
    && |r| == Min(k, n)
    && (forall t :: 0 <= t < |r| ==> r[t] < n)
    && (forall s, t :: 0 <= s < t < |r| ==> Precedes(L, r[s], r[t]))
    && (forall m :: 0 <= m < n && m !in r ==>
          |r| == k && forall t :: 0 <= t < |r| ==> Precedes(L, r[t], m))
  }

  /** Position at which the inner loop inserts value `v`: the first `j`
      whose entry has a larger value, or the end of `r` when there is none. */
  function InsertPos(L: seq<real>, r: seq<nat>, v: real): (p: nat)
    requires forall t :: 0 <= t < |r| ==> r[t] < |L|
    ensures p <= |r|
    ensures forall t :: 0 <= t < p ==> !(v < L[r[t]])
    ensures p < |r| ==> v < L[r[p]]
  {
    if |r| == 0 then 0
    else if v < L[r[0]] then 0
    else 1 + InsertPos(L, r[1..], v)
  }

  /** One pass of the outer loop of `min_k_indices` on index `i`: insert
      `i` before the first larger entry and drop the last index if the list
      grew beyond `k` (an append at the end when there is room is the same
      insertion at position `|r|`). */
  function InsertStep(L: seq<real>, r: seq<nat>, i: nat, k: nat): (res: seq<nat>)
    requires i < |L|
    requires forall t :: 0 <= t < |r| ==> r[t] < |L|
    ensures |res| == Min(|r| + 1, k)
  {
    var p := InsertPos(L, r, L[i]);
    Take(r[..p] + [i] + r[p..], k)
  }

  /** The list `min_k_indices` holds after the outer loop has seen the
      first `n` entries of `L`. */
  function SelectK(L: seq<real>, k: nat, n: nat): (r: seq<nat>)
    requires 1 <= n <= |L|
    ensures forall t :: 0 <= t < |r| ==> r[t] < n
  {
    if n == 1 then [0]
    else
      var r := SelectK(L, k, n - 1);
      InsertStep(L, r, n - 1, k)
  }

  /** The insertion loop of `min_k_indices`, on Python's list operations
      (`insert`, `del [-1]`, `append`) written as sequence updates. */
  method MinKIndices(L: seq<real>, k: nat) returns (mi: seq<nat>)
    requires 1 <= k <= |L|
    ensures mi == SelectK(L, k, |L|)
    ensures Ranked(L, |L|, k, mi)
  {
    mi := [0];
    for i := 1 to |L|
      invariant mi == SelectK(L, k, i)
      invariant Ranked(L, i, k, mi)
    {
      ghost var before := mi;
      mi := InsertIndex(L, mi, i, k);
      InsertStepRanked(L, before, i, k, mi);
    }
  }

  /** The inner loop of `min_k_indices` for index `i`. */
  method InsertIndex(L: seq<real>, r: seq<nat>, i: nat, k: nat) returns (mi: seq<nat>)
    requires i < |L| && 1 <= |r| <= k
    requires forall t :: 0 <= t < |r| ==> r[t] < |L|
    ensures mi == InsertStep(L, r, i, k)
  {
    mi := r;
    ghost var inserted := false;
    var n := |mi|;
    for j := 0 to n
      invariant !inserted
      invariant mi == if j == n && n < k then r + [i] else r
      invariant forall t :: 0 <= t < j ==> !(L[i] < L[r[t]])
    {
      if L[i] < L[mi[j]] {
        mi := mi[..j] + [i] + mi[j..];
        if |mi| > k {
          mi := mi[..|mi| - 1];
        }
        InsertPosIs(L, r, L[i], j);
        inserted := true;
        break;
      }
      if |mi| < k && |mi| == j + 1 {
        mi := mi + [i];
      }
    }
    if !inserted {
      InsertPosIs(L, r, L[i], |r|);
      assert r[..|r|] + [i] + r[|r|..] == r + [i];
    }
  }

  /** `InsertPos` is the one position before which no entry is larger and
      at which the entry is larger (or which is the end). */
  lemma {:induction false} InsertPosIs(L: seq<real>, r: seq<nat>, v: real, j: nat)
    requires forall t :: 0 <= t < |r| ==> r[t] < |L|
    requires j <= |r|
    requires forall t :: 0 <= t < j ==> !(v < L[r[t]])
    requires j < |r| ==> v < L[r[j]]
    ensures InsertPos(L, r, v) == j
  {
  }

  /** Each pass of the outer loop keeps the list a correct selection. */
  lemma InsertStepRanked(L: seq<real>, r: seq<nat>, n: nat, k: nat, res: seq<nat>)
    requires 1 <= k && n < |L|
    requires Ranked(L, n, k, r)
    requires res == InsertStep(L, r, n, k)
    ensures Ranked(L, n + 1, k, res)
  {
    var p := InsertPos(L, r, L[n]);
    var ins := r[..p] + [n] + r[p..];
    InsertKeepsOrder(L, r, n, k, p, ins);
    assert res == Take(ins, k);
    forall m | 0 <= m < n + 1 && m !in res
      ensures |res| == k && forall t :: 0 <= t < |res| ==> Precedes(L, res[t], m)
    {
      if m in ins {
        DroppedComesLast(L, ins, k, m);
      } else {
        ExcludedStaysLast(L, r, n, k, p, ins, m);
      }
    }
  }

  /** Inserting index `n` at its `InsertPos` keeps the list in strictly
      increasing `Precedes` order. */
  lemma InsertKeepsOrder(L: seq<real>, r: seq<nat>, n: nat, k: nat, p: nat, ins: seq<nat>)
    requires 1 <= k && n < |L|
    requires Ranked(L, n, k, r)
    requires p == InsertPos(L, r, L[n]) && ins == r[..p] + [n] + r[p..]
    ensures |ins| == |r| + 1 && ins[p] == n
    ensures forall t :: 0 <= t < p ==> ins[t] == r[t]
    ensures forall t :: p < t < |ins| ==> ins[t] == r[t - 1]
    ensures forall t :: p <= t < |r| ==> Precedes(L, n, r[t])
    ensures forall s, t :: 0 <= s < t < |ins| ==> Precedes(L, ins[s], ins[t])
  {
    assert forall t :: 0 <= t < p ==> ins[t] == r[t];
    assert forall t :: p < t < |ins| ==> ins[t] == r[t - 1];
    forall t | p <= t < |r|
      ensures Precedes(L, n, r[t])
    {
      if t > p {
        assert Precedes(L, r[p], r[t]);
      }
    }
    forall s, t | 0 <= s < t < |ins|
      ensures Precedes(L, ins[s], ins[t])
    {
      if t < p || s > p {
      } else if s == p {
        assert Precedes(L, n, r[t - 1]);
      } else if t == p {
        assert Precedes(L, r[s], n);
      } else {
        assert Precedes(L, r[s], r[t - 1]);
      }
    }
  }

  /** An index that the insertion kept and the truncation to `k` dropped
      comes after every index that remains. */
  lemma DroppedComesLast(L: seq<real>, ins: seq<nat>, k: nat, m: nat)
    requires forall t :: 0 <= t < |ins| ==> ins[t] < |L|
    requires forall s, t :: 0 <= s < t < |ins| ==> Precedes(L, ins[s], ins[t])
    requires m < |L| && m in ins && m !in Take(ins, k)
    ensures |Take(ins, k)| == k
    ensures forall t :: 0 <= t < |Take(ins, k)| ==> Precedes(L, Take(ins, k)[t], m)
  {
    var q :| 0 <= q < |ins| && ins[q] == m;
    assert q >= k;
  }

  /** An index already left out before the insertion stays behind every
      index that remains after it. */
  lemma ExcludedStaysLast(L: seq<real>, r: seq<nat>, n: nat, k: nat, p: nat, ins: seq<nat>, m: nat)
    requires 1 <= k && n < |L|
    requires Ranked(L, n, k, r)
    requires p == InsertPos(L, r, L[n]) && ins == r[..p] + [n] + r[p..]
    requires |ins| == |r| + 1 && ins[p] == n
    requires forall t :: 0 <= t < p ==> ins[t] == r[t]
    requires forall t :: p < t < |ins| ==> ins[t] == r[t - 1]
    requires forall t :: p <= t < |r| ==> Precedes(L, n, r[t])
    requires m < n + 1 && m !in ins
    ensures |Take(ins, k)| == k
    ensures forall t :: 0 <= t < |Take(ins, k)| ==> Precedes(L, Take(ins, k)[t], m)
  {
    assert m != n;
    assert m !in r by {
      forall q | 0 <= q < |r|
        ensures r[q] != m
      {
        if q < p {
          assert ins[q] == r[q];
        } else {
          assert ins[q + 1] == r[q];
        }
      }
    }
    assert |r| == k && forall t :: 0 <= t < |r| ==> Precedes(L, r[t], m);
    var res := Take(ins, k);
    forall t | 0 <= t < |res|
      ensures Precedes(L, res[t], m)
    {
      if t == p {
        assert Precedes(L, n, r[p]);
      }
    }
  }

  /** Started on the first entry and fed every later one, the insertion
      loop yields a correct selection. */
  lemma {:induction false} SelectKRanked(L: seq<real>, k: nat, n: nat)
    requires 1 <= k && 1 <= n <= |L|
    ensures Ranked(L, n, k, SelectK(L, k, n))
  {
    if n == 1 {
      FirstIndexRanked(L, k);
    } else {
      SelectKRanked(L, k, n - 1);
      InsertStepRanked(L, SelectK(L, k, n - 1), n - 1, k, SelectK(L, k, n));
    }
  }

  /** The list `[0]` the source starts from is a correct selection of the
      first entry. */
  lemma FirstIndexRanked(L: seq<real>, k: nat)
    requires 1 <= k && 1 <= |L|
    ensures Ranked(L, 1, k, SelectK(L, k, 1))
  {
    assert SelectK(L, k, 1) == [0];
    assert 0 in [0];
  }

  /** What a correct selection over the whole list promises: exactly `k`
      distinct indices of `L`, their values in non-decreasing order, equal
      values in index order, no value left out smaller than a value kept,
      and on a tie with a kept value the left-out index is the later one. */
  lemma RankedIsKSmallest(L: seq<real>, k: nat, r: seq<nat>)
    requires 1 <= k <= |L|
    requires Ranked(L, |L|, k, r)
    ensures |r| == k
    ensures forall t :: 0 <= t < |r| ==> r[t] < |L|
    ensures forall s, t :: 0 <= s < t < |r| ==> r[s] != r[t]
    ensures forall s, t :: 0 <= s < t < |r| ==> L[r[s]] <= L[r[t]]
    ensures forall s, t :: 0 <= s < t < |r| && L[r[s]] == L[r[t]] ==> r[s] < r[t]
    ensures forall m, t :: 0 <= m < |L| && m !in r && 0 <= t < |r| ==> L[r[t]] <= L[m]
    ensures forall m, t :: 0 <= m < |L| && m !in r && 0 <= t < |r| && L[r[t]] == L[m] ==> r[t] < m
  {
    forall s, t | 0 <= s < t < |r|
      ensures r[s] != r[t]
    {
      assert Precedes(L, r[s], r[t]);
    }
  }

  /* ---------------------------------------------------------------------
     kNN
     --------------------------------------------------------------------- */

  /** `feature_indices_to_predict`: a single integer, a list (or array) of
      integers, or a value of any other type, which the source rejects. */
  datatype FeatureIndices = Single(j: int) | Several(js: seq<int>) | Unsupported

  datatype KnnError = NeitherListNorInteger

  /** The list of indices the source works with after turning a single
      integer into a one-element list. */
  function IndexList(fi: FeatureIndices): Result<seq<int>, KnnError>
  {
    match fi
    case Single(j) => Success([j])
    case Several(js) => Success(js)
    case Unsupported => Failure(NeitherListNorInteger)
  }

  /** A vector with the features at positions listed in `idx` dropped.
      Positions run from 0 upwards, so a negative entry of `idx` (the
      default `-1` among them) never matches and removes nothing. */
  function Reduced(v: seq<real>, idx: seq<int>): (red: seq<real>)
    ensures |red| <= |v|
  {
    if |v| == 0 then []
    else Reduced(v[..|v| - 1], idx) + (if |v| - 1 in idx then [] else [v[|v| - 1]])
  }

  /** The positions of `0 .. n` that `Reduced` keeps, in increasing order. */
  function Kept(n: nat, idx: seq<int>): (ks: seq<nat>)
    ensures forall t :: 0 <= t < |ks| ==> ks[t] < n
  {
    if n == 0 then []
    else Kept(n - 1, idx) + (if n - 1 in idx then [] else [n - 1])
  }

  /** `Kept` lists exactly the positions not to predict, once each and in
      order. */
  lemma {:induction false} KeptExactly(n: nat, idx: seq<int>)
    ensures forall j :: j in Kept(n, idx) <==> 0 <= j < n && j !in idx
    ensures forall s, t :: 0 <= s < t < |Kept(n, idx)| ==> Kept(n, idx)[s] < Kept(n, idx)[t]
  {
    if n > 0 {
      KeptExactly(n - 1, idx);
    }
  }

  /** A reduced vector is the original vector read at the kept positions:
      the features not to predict, in their original order. */
  lemma {:induction false} ReducedReadsKept(v: seq<real>, idx: seq<int>)
    ensures |Reduced(v, idx)| == |Kept(|v|, idx)|
    ensures forall t :: 0 <= t < |Reduced(v, idx)| ==> Reduced(v, idx)[t] == v[Kept(|v|, idx)[t]]
  {
    if |v| > 0 {
      var w := v[..|v| - 1];
      ReducedReadsKept(w, idx);
      assert |w| == |v| - 1;
      forall t | 0 <= t < |Reduced(w, idx)|
        ensures w[Kept(|w|, idx)[t]] == v[Kept(|w|, idx)[t]]
      {
      }
    }
  }

  /** With no index in range of the vector to drop (in particular with the
      default `[-1]`), reduction leaves the vector as it is. */
  lemma {:induction false} ReducedOutOfRange(v: seq<real>, idx: seq<int>)
    requires forall t :: 0 <= t < |idx| ==> !(0 <= idx[t] < |v|)
    ensures Reduced(v, idx) == v
  {
    if |v| > 0 {
      var w := v[..|v| - 1];
      assert |v| - 1 !in idx;
      ReducedOutOfRange(w, idx);
      assert w + [v[|v| - 1]] == v;
    }
  }

  /** The inner reduction loop of `kNN` over one vector. */
  method Reduce(v: seq<real>, idx: seq<int>) returns (red: seq<real>)
    ensures red == Reduced(v, idx)
  {
    red := [];
    for j := 0 to |v|
      invariant red == Reduced(v[..j], idx)
    {
      assert v[..j + 1][..j] == v[..j];
      if j !in idx {
        red := red + [v[j]];
      }
    }
    assert v[..|v|] == v;
  }

  /** The reduction loop of `kNN` over a list of vectors. */
  method ReduceAll(vs: seq<seq<real>>, idx: seq<int>) returns (reds: seq<seq<real>>)
    ensures |reds| == |vs|
    ensures forall c :: 0 <= c < |vs| ==> reds[c] == Reduced(vs[c], idx)
  {
    reds := [];
    for c := 0 to |vs|
      invariant |reds| == c
      invariant forall d :: 0 <= d < c ==> reds[d] == Reduced(vs[d], idx)
    {
      var red := Reduce(vs[c], idx);
      reds := reds + [red];
    }
  }

  /** The distance loop of `kNN`: row `c` holds the distance from reduced
      vector `c` to every reduced training vector. */
  method Distances(reds: seq<seq<real>>, redTrain: seq<seq<real>>, metric: (seq<real>, seq<real>) -> real)
    returns (dist: seq<seq<real>>)
    ensures |dist| == |reds|
    ensures forall c :: 0 <= c < |reds| ==> |dist[c]| == |redTrain|
    ensures forall c, t :: 0 <= c < |reds| && 0 <= t < |redTrain| ==> dist[c][t] == metric(reds[c], redTrain[t])
  {
    dist := [];
    for c := 0 to |reds|
      invariant |dist| == c
      invariant forall d :: 0 <= d < c ==> |dist[d]| == |redTrain|
      invariant forall d, t :: 0 <= d < c && 0 <= t < |redTrain| ==> dist[d][t] == metric(reds[d], redTrain[t])
    {
      var row := [];
      for t := 0 to |redTrain|
        invariant |row| == t
        invariant forall u :: 0 <= u < t ==> row[u] == metric(reds[c], redTrain[u])
      {
        row := row + [metric(reds[c], redTrain[t])];
      }
      dist := dist + [row];
    }
  }

  /** The neighbour loop of `kNN`: the k nearest training vectors of every
      vector to classify. */
  method Neighbours(dist: seq<seq<real>>, k: nat, width: nat) returns (nbrs: seq<seq<nat>>)
    requires 1 <= k && (|dist| > 0 ==> k <= width)
    requires forall c :: 0 <= c < |dist| ==> |dist[c]| == width
    ensures |nbrs| == |dist|
    ensures forall c :: 0 <= c < |dist| ==> nbrs[c] == SelectK(dist[c], k, width)
  {
    nbrs := [];
    for c := 0 to |dist|
      invariant |nbrs| == c
      invariant forall d :: 0 <= d < c ==> nbrs[d] == SelectK(dist[d], k, width)
    {
      var mi := MinKIndices(dist[c], k);
      nbrs := nbrs + [mi];
    }
  }

  /** Python's reading of index `j` into a sequence of length `n`: a
      negative index counts from the end. */
  function Wrap(j: int, n: nat): (p: nat)
    requires -(n as int) <= j < n
    ensures p < n
  {
    if j < 0 then j + n else j
  }

  /** Every index of `idx` lies in the range Python accepts for length `n`. */
  predicate InRange(idx: seq<int>, n: nat) {
    forall t :: 0 <= t < |idx| ==> -(n as int) <= idx[t] < n
  }

  /** The positions the imputation writes. */
  function Targets(idx: seq<int>, n: nat): set<nat>
    requires InRange(idx, n)
  {
    set t | 0 <= t < |idx| :: Wrap(idx[t], n)
  }

  /** Sum of column `p` of the training rows listed in `nb`. */
  function ColumnSum(train: seq<seq<real>>, nb: seq<nat>, p: nat): real
    requires forall t :: 0 <= t < |nb| ==> nb[t] < |train| && p < |train[nb[t]]|
  {
    if |nb| == 0 then 0.0
    else ColumnSum(train, nb[..|nb| - 1], p) + train[nb[|nb| - 1]][p]
  }

  /** The mean loop of `kNN`: sums column `p` over the neighbours, then
      divides by `k` (the requested count, which is also the number of
      neighbours). */
  method ColumnMean(train: seq<seq<real>>, nb: seq<nat>, p: nat, k: nat) returns (mean: real)
    requires k >= 1
    requires forall t :: 0 <= t < |nb| ==> nb[t] < |train| && p < |train[nb[t]]|
    ensures mean == ColumnSum(train, nb, p) / k as real
  {
    mean := 0.0;
    for t := 0 to |nb|
      invariant mean == ColumnSum(train, nb[..t], p)
    {
      assert nb[..t + 1][..t] == nb[..t];
      mean := mean + train[nb[t]][p];
    }
    assert nb[..|nb|] == nb;
    mean := mean / k as real;
  }

  /** The sum of column `p` over the neighbours `nb` lies between `|nb|`
      times a lower bound and `|nb|` times an upper bound of the neighbours'
      values in that column. */
  lemma {:induction false} ColumnSumBounded(train: seq<seq<real>>, nb: seq<nat>, p: nat, lo: real, hi: real)
    requires forall t :: 0 <= t < |nb| ==> nb[t] < |train| && p < |train[nb[t]]|
    requires forall t :: 0 <= t < |nb| ==> lo <= train[nb[t]][p] <= hi
    ensures |nb| as real * lo <= ColumnSum(train, nb, p) <= |nb| as real * hi
  {
    if |nb| > 0 {
      ColumnSumBounded(train, nb[..|nb| - 1], p, lo, hi);
    }
  }

  /** Rows with a mean written by the imputation loop. */
  ghost predicate Imputed(row: seq<real>, before: seq<real>, train: seq<seq<real>>, nb: seq<nat>,
                          idx: seq<int>, n: nat, k: nat)
    requires k >= 1 && |row| == n && |before| == n && InRange(idx, n)
    requires forall t :: 0 <= t < |nb| ==> nb[t] < |train| && |train[nb[t]]| == n
  {
    forall p :: 0 <= p < n ==>
      row[p] == if p in Targets(idx, n) then ColumnSum(train, nb, p) / k as real else before[p]
  }

  /** The inner imputation loop of `kNN` on one row, which it writes in
      place. */
  method ImputeRow(row: array<real>, train: seq<seq<real>>, nb: seq<nat>, idx: seq<int>, k: nat)
    requires k >= 1 && InRange(idx, row.Length)
    requires forall t :: 0 <= t < |nb| ==> nb[t] < |train| && |train[nb[t]]| == row.Length
    modifies row
    ensures Imputed(row[..], old(row[..]), train, nb, idx, row.Length, k)
  {
    for u := 0 to |idx|
      invariant Imputed(row[..], old(row[..]), train, nb, idx[..u], row.Length, k)
    {
      var p := Wrap(idx[u], row.Length);
      var mean := ColumnMean(train, nb, p, k);
      row[p] := mean;
      assert Targets(idx[..u + 1], row.Length) == Targets(idx[..u], row.Length) + {p} by {
        assert idx[..u + 1] == idx[..u] + [idx[u]];
      }
    }
    assert idx[..|idx|] == idx;
  }

  /** Distinct entries of `rows` are distinct arrays. */
  predicate Unaliased(rows: seq<array<real>>) {
    forall c, d :: 0 <= c < d < |rows| ==> rows[c] != rows[d]
  }

  /** The outer imputation loop of `kNN`: every row to classify gets the
      means of its own neighbours. */
  method ImputeAll(rows: seq<array<real>>, train: seq<seq<real>>, nbrs: seq<seq<nat>>, idx: seq<int>, k: nat, ghost n: nat)
    requires k >= 1 && InRange(idx, n) && |nbrs| == |rows| && Unaliased(rows)
    requires forall c :: 0 <= c < |rows| ==> rows[c].Length == n
    requires forall c, t :: 0 <= c < |nbrs| && 0 <= t < |nbrs[c]| ==> nbrs[c][t] < |train| && |train[nbrs[c][t]]| == n
    modifies set c | 0 <= c < |rows| :: rows[c]
    ensures forall c :: 0 <= c < |rows| ==> Imputed(rows[c][..], old(rows[c][..]), train, nbrs[c], idx, n, k)
  {
    for c := 0 to |rows|
      invariant forall d :: 0 <= d < c ==> Imputed(rows[d][..], old(rows[d][..]), train, nbrs[d], idx, n, k)
      invariant forall d :: c <= d < |rows| ==> rows[d][..] == old(rows[d][..])
    {
      ImputeRow(rows[c], train, nbrs[c], idx, k);
    }
  }

  /** The distances from reduced vector `cvec` to every reduced training
      vector, as `kNN` computes them. */
  function DistanceRow(cvec: seq<real>, train: seq<seq<real>>, idx: seq<int>, metric: (seq<real>, seq<real>) -> real): (d: seq<real>)
    ensures |d| == |train|
  {
    seq(|train|, t requires 0 <= t < |train| => metric(Reduced(cvec, idx), Reduced(train[t], idx)))
  }

  /** `kNN`. The rows to classify are arrays because the source writes the
      predicted features into the caller's own rows (its `copy.copy` copies
      only the outer list), and the result lists those same arrays. The
      ghost `nbrs` names the neighbour lists `kNN` computes on the way. */
  method KNN(train: seq<seq<real>>, rows: seq<array<real>>, fi: FeatureIndices, k: nat,
             metric: (seq<real>, seq<real>) -> real, ghost n: nat)
    returns (res: Result<seq<array<real>>, KnnError>, ghost nbrs: seq<seq<nat>>)
    // `min_k_indices` asserts `len(L) >= k` once per row to classify
    requires 1 <= k && (|rows| > 0 ==> k <= |train|)
    requires forall t :: 0 <= t < |train| ==> |train[t]| == n
    requires forall c :: 0 <= c < |rows| ==> rows[c].Length == n
    requires Unaliased(rows)
    requires IndexList(fi).Success? ==> InRange(IndexList(fi).value, n)
    modifies set c | 0 <= c < |rows| :: rows[c]
    ensures res.Failure? <==> fi.Unsupported?
    ensures res.Failure? ==> forall c :: 0 <= c < |rows| ==> rows[c][..] == old(rows[c][..])
    ensures res.Success? ==> res.value == rows && |nbrs| == |rows|
    ensures res.Success? ==> forall c :: 0 <= c < |rows| ==>
              && nbrs[c] == SelectK(DistanceRow(old(rows[c][..]), train, IndexList(fi).value, metric), k, |train|)
              && Ranked(DistanceRow(old(rows[c][..]), train, IndexList(fi).value, metric), |train|, k, nbrs[c])
              && Imputed(rows[c][..], old(rows[c][..]), train, nbrs[c], IndexList(fi).value, n, k)
  {
    nbrs := [];
    var idxs := IndexList(fi);
    if idxs.Failure? {
      return Failure(NeitherListNorInteger), nbrs;
    }
    var idx := idxs.value;
    var redTrain := ReduceAll(train, idx);
    var current := seq(|rows|, c requires 0 <= c < |rows| reads rows => rows[c][..]);
    var redRows := ReduceAll(current, idx);
    var dist := Distances(redRows, redTrain, metric);
    assert forall c :: 0 <= c < |rows| ==> dist[c] == DistanceRow(old(rows[c][..]), train, idx, metric);
    var nb := Neighbours(dist, k, |train|);
    forall c | 0 <= c < |rows|
      ensures Ranked(dist[c], |train|, k, nb[c])
    {
      SelectKRanked(dist[c], k, |train|);
    }
    ImputeAll(rows, train, nb, idx, k, n);
    nbrs := nb;
    res := Success(rows);
  }
}
