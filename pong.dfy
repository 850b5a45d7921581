/** The data handling of the Pong Q-learning script
    (ReinforcementLearning/Q-learning/Pong/OldUnsortedShit/Pong_temp.py):
    bounded lists updated in place, the bounded append on arrays, the
    replay memory and the index windows sampled from it, the stacking of
    recent frames into channels, and the crop and block-maximum
    downsampling of a raw screen. A frame is left abstract as a type
    parameter wherever the source only moves frames around. */
module Pong {

  /* ---------------------------------------------------------------------
     add_to_list / add_to_frame_list
     --------------------------------------------------------------------- */

  /** The last `m` elements of `s` (all of `s` when it is no longer). */
  function KeepLast<T>(s: seq<T>, m: nat): (r: seq<T>)
    ensures |r| == if |s| <= m then |s| else m
    ensures r == s[|s| - |r|..]
  {
    if |s| <= m then s else s[|s| - m..]
  }

  /** Keeping the last `m` after each of two additions keeps the same
      elements as keeping the last `m` after adding both at once. */
  lemma KeepLastTwice<T>(a: seq<T>, b: seq<T>, m: nat)
    ensures KeepLast(KeepLast(a, m) + b, m) == KeepLast(a + b, m)
  {
    if |a| > m {
      var d := |a| - m;
      assert KeepLast(a, m) + b == (a + b)[d..];
      KeepLastOfSuffix(a + b, d, m);
    }
  }

  /** Dropping a prefix does not change the last `m` elements while at
      least `m` remain. */
  lemma KeepLastOfSuffix<T>(s: seq<T>, d: nat, m: nat)
    requires d <= |s| && |s| - d >= m
    ensures KeepLast(s[d..], m) == KeepLast(s, m)
  {
    assert s[d..][|s| - d - m..] == s[|s| - m..];
  }

  /** A list the source extends in place (`frame_list` of
      `add_to_frame_list`, `existing_list` of `add_to_list`). */
  class BoundedList<T> {
    var items: seq<T>

    constructor(init: seq<T>)
      ensures items == init
    {
      items := init;
    }

    /** `add_to_list(items, added, maxKeep)` and
        `add_to_frame_list(items, added, maxKeep)`, which differ only in the
        default of `maxKeep` (1000 and 5): append every added element, then,
        if the combined length exceeded the bound, pop from the front until
        the bound is met. */
    method Add(added: seq<T>, maxKeep: nat)
      modifies this
      ensures items == KeepLast(old(items) + added, maxKeep)
      ensures |old(items)| + |added| <= maxKeep ==> items == old(items) + added
      ensures |old(items)| + |added| > maxKeep ==> |items| == maxKeep
    {
      ghost var all := items + added;
      if |items| + |added| <= maxKeep {
        AppendAll(added);
      } else {
        AppendAll(added);
        var diff := |items| - maxKeep;
        for i := 0 to diff
          invariant items == all[i..]
        {
          items := items[1..];
        }
      }
    }

    /** The `for frame in ...: append(frame)` loop. */
    method AppendAll(added: seq<T>)
      modifies this
      ensures items == old(items) + added
    {
      for t := 0 to |added|
        invariant items == old(items) + added[..t]
      {
        items := items + [added[t]];
        assert added[..t + 1] == added[..t] + [added[t]];
      }
      assert added[..|added|] == added;
    }
  }

  /* ---------------------------------------------------------------------
     add_to_array
     --------------------------------------------------------------------- */

  /** `add_to_array` on one axis: append, then delete from the front as
      many elements as the OLD array exceeded `maxKeep` by. A single value
      (not an array) is added as the one-element sequence. The result is a
      suffix of `arr + add` that keeps every added element, and its length
      depends only on the lengths of the inputs. */
  function AddToArray<T>(arr: seq<T>, add: seq<T>, maxKeep: nat): (r: seq<T>)
    ensures |add| <= |r| <= |arr| + |add|
    ensures r == (arr + add)[|arr| + |add| - |r|..]
    ensures |r| == if |arr| > maxKeep then maxKeep + |add| else |arr| + |add|
  {
    var diff := |arr| - maxKeep;
    if diff > 0 then (arr + add)[diff..] else arr + add
  }

  /** `add_to_array` keeps exactly the last `maxKeep + |add|` elements: the
      trim count is taken from the old array, so the added elements are
      never counted against the bound. */
  lemma AddToArrayKeepsLast<T>(arr: seq<T>, add: seq<T>, maxKeep: nat)
    ensures AddToArray(arr, add, maxKeep) == KeepLast(arr + add, maxKeep + |add|)
  {
  }

  /** Within the bound nothing is deleted. */
  lemma AddToArrayWithin<T>(arr: seq<T>, add: seq<T>, maxKeep: nat)
    requires |arr| <= maxKeep
    ensures AddToArray(arr, add, maxKeep) == arr + add
  {
  }

  /** Fed one value at a time, the array grows to `maxKeep + 1` elements,
      one more than the bound, and from then on slides as a window of
      that size. */
  lemma AddOneSteadyState<T>(arr: seq<T>, x: T, maxKeep: nat)
    requires |arr| <= maxKeep + 1
    ensures |AddToArray(arr, [x], maxKeep)| == if |arr| <= maxKeep then |arr| + 1 else maxKeep + 1
    ensures |arr| == maxKeep + 1 ==> AddToArray(arr, [x], maxKeep) == arr[1..] + [x]
  {
  }

  /* ---------------------------------------------------------------------
     add_to_replay_memory / sample_from_replay_memory
     --------------------------------------------------------------------- */

  /** The replay memory dictionary: its four arrays are the fields, the
      frames indexed along their last axis, the others along axis 0. */
  class ReplayMemory<F> {
    var frames: seq<F>
    var actions: seq<int>
    var rewards: seq<real>
    var done: seq<bool>

    /** The four arrays have one entry per time step. */
    predicate Aligned()
      reads this
    {
      |frames| == |actions| == |rewards| == |done|
    }

    constructor(frames0: seq<F>, actions0: seq<int>, rewards0: seq<real>, done0: seq<bool>)
      ensures frames == frames0 && actions == actions0 && rewards == rewards0 && done == done0
    {
      frames, actions, rewards, done := frames0, actions0, rewards0, done0;
    }

    /** `add_to_replay_memory`: every array gets its new entries through
        `add_to_array` with the same `maxKeep`. A single frame, action,
        reward or flag is the one-element sequence; the episode start adds
        four of each. Aligned arrays given equally many new entries stay
        aligned. */
    method Add(newFrames: seq<F>, newActions: seq<int>, newRewards: seq<real>, newDone: seq<bool>, maxKeep: nat)
      modifies this
      ensures frames == AddToArray(old(frames), newFrames, maxKeep)
      ensures actions == AddToArray(old(actions), newActions, maxKeep)
      ensures rewards == AddToArray(old(rewards), newRewards, maxKeep)
      ensures done == AddToArray(old(done), newDone, maxKeep)
      ensures old(Aligned()) && |newFrames| == |newActions| == |newRewards| == |newDone| ==> Aligned()
    {
      frames := AddToArray(frames, newFrames, maxKeep);
      actions := AddToArray(actions, newActions, maxKeep);
      rewards := AddToArray(rewards, newRewards, maxKeep);
      done := AddToArray(done, newDone, maxKeep);
    }

    /** The index loop of `sample_from_replay_memory`: for each chosen
        index, the four frames before it as the state, the four frames up
        to and including it as the next state, and the action, reward and
        done flag stored at it. `shuffle` stands for
        `np.random.permutation`. */
    method Sample(nsamples: nat, includeRecent: bool, shuffle: seq<int> -> seq<int>) returns (b: Batch<F>)
      requires Aligned()
      requires Shuffles(shuffle, Range(4, |frames|))
      requires Shuffles(shuffle, Range(4, |frames| - 1))
      ensures IsBatch(b, frames, actions, rewards, done, ChosenIndices(|frames|, nsamples, includeRecent, shuffle))
    {
      var ids := ChosenIndices(|frames|, nsamples, includeRecent, shuffle);
      b := Experiences(frames, actions, rewards, done, ids);
    }
  }

  /** The accumulation loop of `sample_from_replay_memory` over the chosen
      indices `ids`. */
  method Experiences<F>(frames: seq<F>, actions: seq<int>, rewards: seq<real>, done: seq<bool>, ids: seq<int>)
    returns (b: Batch<F>)
    requires |frames| == |actions| == |rewards| == |done|
    requires AllIn(ids, 4, |frames|)
    ensures IsBatch(b, frames, actions, rewards, done, ids)
  {
    b := Batch([], [], [], [], []);
    for t := 0 to |ids|
      invariant |b.states| == |b.nexts| == |b.actions| == |b.rewards| == |b.done| == t
      invariant forall u :: 0 <= u < t ==>
                  && b.states[u] == frames[ids[u] - 4 .. ids[u]]
                  && b.nexts[u] == frames[ids[u] - 3 .. ids[u] + 1]
                  && b.actions[u] == actions[ids[u]]
                  && b.rewards[u] == rewards[ids[u]]
                  && b.done[u] == done[ids[u]]
    {
      var idx := ids[t];
      b := Batch(b.states + [frames[idx - 4 .. idx]], b.nexts + [frames[idx - 3 .. idx + 1]],
                 b.actions + [actions[idx]], b.rewards + [rewards[idx]], b.done + [done[idx]]);
    }
  }

  /** `b` holds, for every chosen index in turn, the state window of the
      four frames before it, the next-state window of the four frames up
      to and including it, and the action, reward and done flag at it. */
  ghost predicate IsBatch<F>(b: Batch<F>, frames: seq<F>, actions: seq<int>, rewards: seq<real>, done: seq<bool>, ids: seq<int>)
    requires |frames| == |actions| == |rewards| == |done|
    requires AllIn(ids, 4, |frames|)
  {
    && |b.states| == |b.nexts| == |b.actions| == |b.rewards| == |b.done| == |ids|
    && forall t :: 0 <= t < |ids| ==>
         && b.states[t] == frames[ids[t] - 4 .. ids[t]]
         && b.nexts[t] == frames[ids[t] - 3 .. ids[t] + 1]
         && b.actions[t] == actions[ids[t]]
         && b.rewards[t] == rewards[ids[t]]
         && b.done[t] == done[ids[t]]
  }

  /** The sampled experiences, one entry per chosen index. */
  datatype Batch<F> = Batch(states: seq<seq<F>>, nexts: seq<seq<F>>, actions: seq<int>,
                            rewards: seq<real>, done: seq<bool>)

  /** `np.arange(a, b)`. */
  function Range(a: int, b: int): (r: seq<int>)
    ensures |r| == if a <= b then b - a else 0
    ensures forall t :: 0 <= t < |r| ==> r[t] == a + t
    decreases if a < b then b - a else 0
  {
    if a < b then [a] + Range(a + 1, b) else []
  }

  /** `shuffle` returns a rearrangement of `s`. */
  predicate Shuffles(shuffle: seq<int> -> seq<int>, s: seq<int>) {
    multiset(shuffle(s)) == multiset(s)
  }

  /** Python's `s[:stop]`: a negative `stop` counts from the end. */
  function PySliceTo<T>(s: seq<T>, stop: int): (r: seq<T>)
    ensures |r| <= |s| && r == s[..|r|]
  {
    if stop >= 0 then (if stop <= |s| then s[..stop] else s)
    else if -stop <= |s| then s[..|s| + stop] else []
  }

  /** The indices `sample_from_replay_memory` chooses for a memory of `n`
      frames: every index from 4 on in shuffled order when `nsamples`
      covers them all; otherwise `nsamples - 1` shuffled indices below the
      last one followed by the last one, or `nsamples` shuffled indices. */
  function ChosenIndices(n: nat, nsamples: nat, includeRecent: bool, shuffle: seq<int> -> seq<int>): (ids: seq<int>)
    requires Shuffles(shuffle, Range(4, n)) && Shuffles(shuffle, Range(4, n - 1))
    ensures AllIn(ids, 4, n)
  {
    if nsamples >= n - 4 then
      ShuffledInRange(shuffle, 4, n);
      shuffle(Range(4, n))
    else if includeRecent then
      ShuffledInRange(shuffle, 4, n - 1);
      SliceAllIn(shuffle(Range(4, n - 1)), nsamples - 1, 4, n);
      PySliceTo(shuffle(Range(4, n - 1)), nsamples - 1) + [n - 1]
    else
      ShuffledInRange(shuffle, 4, n);
      SliceAllIn(shuffle(Range(4, n)), nsamples, 4, n);
      PySliceTo(shuffle(Range(4, n)), nsamples)
  }

  /** Every entry of `s` lies in `[a, b)`. */
  predicate AllIn(s: seq<int>, a: int, b: int) {
    forall t :: 0 <= t < |s| ==> a <= s[t] < b
  }

  lemma SliceAllIn(s: seq<int>, stop: int, a: int, b: int)
    requires AllIn(s, a, b)
    ensures AllIn(PySliceTo(s, stop), a, b)
    ensures a <= b - 1 < b ==> AllIn(PySliceTo(s, stop) + [b - 1], a, b)
  {
    var r := PySliceTo(s, stop);
    assert forall t :: 0 <= t < |r| ==> r[t] == s[t];
  }

  /** Every index of a rearranged range lies in the range. */
  lemma ShuffledInRange(shuffle: seq<int> -> seq<int>, a: int, b: int)
    requires Shuffles(shuffle, Range(a, b))
    ensures AllIn(shuffle(Range(a, b)), a, b) && AllIn(shuffle(Range(a, b)), a, b + 1)
    ensures |shuffle(Range(a, b))| == |Range(a, b)|
  {
    var s := shuffle(Range(a, b));
    forall t | 0 <= t < |s|
      ensures a <= s[t] < b
    {
      assert s[t] in multiset(s);
      assert s[t] in multiset(Range(a, b));
      assert s[t] in Range(a, b);
    }
    assert |s| == |multiset(s)| == |multiset(Range(a, b))| == |Range(a, b)|;
  }

  /** What the source's index choice guarantees besides the range: no
      index is chosen twice; when `nsamples` covers every index from 4 on,
      each of them is chosen; otherwise exactly `nsamples` indices are
      chosen (for `nsamples >= 1` when the most recent index is included,
      and that index then comes last). */
  lemma ChosenIndicesCount(n: nat, nsamples: nat, includeRecent: bool, shuffle: seq<int> -> seq<int>)
    requires Shuffles(shuffle, Range(4, n)) && Shuffles(shuffle, Range(4, n - 1))
    ensures var ids := ChosenIndices(n, nsamples, includeRecent, shuffle);
      && multiset(ids) <= multiset(Range(4, n))
      && (nsamples >= n - 4 ==> multiset(ids) == multiset(Range(4, n)))
      && (nsamples < n - 4 && !includeRecent ==> |ids| == nsamples)
      && (nsamples < n - 4 && includeRecent && nsamples >= 1 ==> |ids| == nsamples && ids[|ids| - 1] == n - 1)
  {
    if nsamples >= n - 4 {
      ShuffledInRange(shuffle, 4, n);
    } else if includeRecent {
      ChosenWithRecent(n, nsamples, shuffle);
    } else {
      ChosenWithoutRecent(n, nsamples, shuffle);
    }
  }

  /** The `include_most_recent` branch of the index choice. */
  lemma ChosenWithRecent(n: nat, nsamples: nat, shuffle: seq<int> -> seq<int>)
    requires nsamples < n - 4
    requires Shuffles(shuffle, Range(4, n)) && Shuffles(shuffle, Range(4, n - 1))
    ensures var ids := ChosenIndices(n, nsamples, true, shuffle);
      && multiset(ids) <= multiset(Range(4, n))
      && (nsamples >= 1 ==> |ids| == nsamples && ids[|ids| - 1] == n - 1)
  {
    var s := shuffle(Range(4, n - 1));
    ShuffledInRange(shuffle, 4, n - 1);
    var first := PySliceTo(s, nsamples - 1);
    assert ChosenIndices(n, nsamples, true, shuffle) == first + [n - 1];
    PrefixSubMultiset(s, |first|);
    assert Range(4, n - 1) + [n - 1] == Range(4, n);
    assert multiset(Range(4, n)) == multiset(Range(4, n - 1)) + multiset{n - 1};
  }

  /** The branch that takes the first `nsamples` shuffled indices. */
  lemma ChosenWithoutRecent(n: nat, nsamples: nat, shuffle: seq<int> -> seq<int>)
    requires nsamples < n - 4
    requires Shuffles(shuffle, Range(4, n)) && Shuffles(shuffle, Range(4, n - 1))
    ensures var ids := ChosenIndices(n, nsamples, false, shuffle);
      && multiset(ids) <= multiset(Range(4, n))
      && |ids| == nsamples
  {
    var s := shuffle(Range(4, n));
    ShuffledInRange(shuffle, 4, n);
    assert ChosenIndices(n, nsamples, false, shuffle) == s[..nsamples];
    PrefixSubMultiset(s, nsamples);
  }

  /** The elements of a prefix are among the elements of the whole. */
  lemma PrefixSubMultiset(s: seq<int>, k: nat)
    requires k <= |s|
    ensures multiset(s[..k]) <= multiset(s)
  {
    assert s == s[..k] + s[k..];
  }

  /** With `nsamples == 0` and the last index requested, `[:nsamples-1]`
      is `[:-1]`, which keeps all but one of the shuffled indices instead
      of none. */
  lemma ZeroSamplesWithRecent(n: nat, shuffle: seq<int> -> seq<int>)
    requires n >= 6
    requires Shuffles(shuffle, Range(4, n)) && Shuffles(shuffle, Range(4, n - 1))
    ensures |ChosenIndices(n, 0, true, shuffle)| == n - 5
  {
    ShuffledInRange(shuffle, 4, n - 1);
  }

  /** The next state is the state moved one frame later: its first three
      frames are the state's last three, and its last frame is the frame
      at the chosen index. */
  lemma WindowsShift<F>(frames: seq<F>, idx: int)
    requires 4 <= idx < |frames|
    ensures frames[idx - 3 .. idx + 1][..3] == frames[idx - 4 .. idx][1..]
    ensures frames[idx - 3 .. idx + 1][3] == frames[idx]
  {
  }

  /* ---------------------------------------------------------------------
     stack_frames
     --------------------------------------------------------------------- */

  function Reverse<T>(s: seq<T>): (r: seq<T>)
    ensures |r| == |s|
  {
    if |s| == 0 then [] else [s[|s| - 1]] + Reverse(s[..|s| - 1])
  }

  /** Entry `i` of the reversal is entry `|s| - 1 - i` of the original. */
  lemma {:induction false} ReverseAt<T>(s: seq<T>)
    ensures forall i :: 0 <= i < |s| ==> Reverse(s)[i] == s[|s| - 1 - i]
  {
    if |s| > 0 {
      ReverseAt(s[..|s| - 1]);
    }
  }

  /** Reversing twice gives back the original order. */
  lemma ReverseReverse<T>(s: seq<T>)
    ensures Reverse(Reverse(s)) == s
  {
    ReverseAt(s);
    ReverseAt(Reverse(s));
  }

  /** `stack_frames`: channel `i` of the stack is frame `-(1 + i)` of the
      list, so the most recent frame is channel 0. */
  method StackFrames<F(0)>(frameList: seq<F>) returns (stack: array<F>)
    ensures fresh(stack)
    ensures stack[..] == Reverse(frameList)
  {
    stack := new F[|frameList|];
    for i := 0 to |frameList|
      invariant forall u :: 0 <= u < i ==> stack[u] == frameList[|frameList| - 1 - u]
    {
      stack[i] := frameList[|frameList| - 1 - i];
    }
    ReverseAt(frameList);
  }

  /* ---------------------------------------------------------------------
     process_raw_frame (grey-scale branch)
     --------------------------------------------------------------------- */

  /** A raw screen: rows of equal width, each pixel with colour channels
      0, 1 and 2. */
  predicate IsRawFrame(raw: seq<seq<seq<int>>>) {
    && (forall i :: 0 <= i < |raw| ==> |raw[i]| == Width(raw))
    && (forall i, j :: 0 <= i < |raw| && 0 <= j < |raw[i]| ==> |raw[i][j]| >= 3)
  }

  function Width(raw: seq<seq<seq<int>>>): nat {
    if |raw| == 0 then 0 else |raw[0]|
  }

  /** `input_data[:,:,2]`. */
  function Plane(raw: seq<seq<seq<int>>>): (g: seq<seq<int>>)
    requires IsRawFrame(raw)
    ensures |g| == |raw|
    ensures forall i :: 0 <= i < |g| ==> |g[i]| == Width(raw)
  {
    seq(|raw|, i requires 0 <= i < |raw| => seq(|raw[i]|, j requires 0 <= j < |raw[i]| => raw[i][j][2]))
  }

  /** Python's `s[a:b]` for `0 <= a <= b`: both ends are clipped to the
      length. */
  function PySlice<T>(s: seq<T>, a: nat, b: nat): seq<T>
    requires a <= b
  {
    var lo := if a <= |s| then a else |s|;
    var hi := if b <= |s| then b else |s|;
    s[lo..hi]
  }

  /** The grey-scale plane, cropped to rows 34 up to 194 when `crop` is
      set. */
  function Cropped(raw: seq<seq<seq<int>>>, crop: bool): (g: seq<seq<int>>)
    requires IsRawFrame(raw)
    ensures forall i :: 0 <= i < |g| ==> |g[i]| == Width(raw)
  {
    if crop then PySlice(Plane(raw), 34, 194) else Plane(raw)
  }

  /** On a full 210-row screen the crop keeps the 160 rows of the play
      field, row `i` of the result being row `34 + i` of the screen. */
  lemma CropKeepsPlayField(raw: seq<seq<seq<int>>>)
    requires IsRawFrame(raw) && |raw| >= 194
    ensures |Cropped(raw, true)| == 160
    ensures forall i, j :: 0 <= i < 160 && 0 <= j < Width(raw) ==> Cropped(raw, true)[i][j] == raw[34 + i][j][2]
  {
  }

  /** The largest of `row[lo..hi]`. */
  function RowMax(row: seq<int>, lo: nat, hi: nat): (r: int)
    requires lo < hi <= |row|
    ensures forall c :: lo <= c < hi ==> row[c] <= r
    ensures exists c :: lo <= c < hi && row[c] == r
    decreases hi - lo
  {
    if lo + 1 == hi then row[lo]
    else
      var rest := RowMax(row, lo + 1, hi);
      if row[lo] >= rest then row[lo] else rest
  }

  /** The largest pixel of rows `r0 .. r1` and columns `c0 .. c1` of `g`
      (`np.max` of the block). */
  function BlockMax(g: seq<seq<int>>, r0: nat, r1: nat, c0: nat, c1: nat): (r: int)
    requires r0 < r1 <= |g| && c0 < c1
    requires forall i :: r0 <= i < r1 ==> c1 <= |g[i]|
    ensures forall i, j :: r0 <= i < r1 && c0 <= j < c1 ==> g[i][j] <= r
    ensures exists i, j :: r0 <= i < r1 && c0 <= j < c1 && g[i][j] == r
    decreases r1 - r0
  {
    var here := RowMax(g[r0], c0, c1);
    if r0 + 1 == r1 then here
    else
      var rest := BlockMax(g, r0 + 1, r1, c0, c1);
      if here >= rest then here else rest
  }

  /** The cells of a `ds`-downsampled grid of `m` rows fit inside it. */
  lemma BlockFits(m: nat, ds: nat, i: nat)
    requires ds >= 1 && i < m / ds
    ensures ds * i + ds <= m
  {
    assert i + 1 <= m / ds;
    assert ds * (i + 1) <= ds * (m / ds);
    assert ds * (m / ds) <= m;
  }

  /** Cell `(i, j)` of the `ds`-downsampled grid: the maximum of the
      `ds` by `ds` block whose corner is `(ds * i, ds * j)`. */
  function Cell(g: seq<seq<int>>, width: nat, ds: nat, i: nat, j: nat): (r: int)
    requires ds >= 1 && i < |g| / ds && j < width / ds
    requires forall row :: 0 <= row < |g| ==> |g[row]| == width
    ensures ds * i + ds <= |g| && ds * j + ds <= width
    ensures forall a, b :: ds * i <= a < ds * i + ds && ds * j <= b < ds * j + ds ==> g[a][b] <= r
    ensures exists a, b :: ds * i <= a < ds * i + ds && ds * j <= b < ds * j + ds && g[a][b] == r
  {
    BlockFits(|g|, ds, i);
    BlockFits(width, ds, j);
    BlockMax(g, ds * i, ds * i + ds, ds * j, ds * j + ds)
  }

  /** The downsampling loops of `process_raw_frame`. */
  method Downsample(g: seq<seq<int>>, width: nat, ds: nat) returns (out: array2<int>)
    requires ds >= 1
    requires forall row :: 0 <= row < |g| ==> |g[row]| == width
    ensures fresh(out)
    ensures out.Length0 == |g| / ds && out.Length1 == width / ds
    ensures forall i, j :: 0 <= i < out.Length0 && 0 <= j < out.Length1 ==> out[i, j] == Cell(g, width, ds, i, j)
  {
    out := new int[|g| / ds, width / ds];
    for i := 0 to |g| / ds
      invariant forall i', j :: 0 <= i' < i && 0 <= j < width / ds ==> out[i', j] == Cell(g, width, ds, i', j)
    {
      for j := 0 to width / ds
        invariant forall i', j' :: 0 <= i' < i && 0 <= j' < width / ds ==> out[i', j'] == Cell(g, width, ds, i', j')
        invariant forall j' :: 0 <= j' < j ==> out[i, j'] == Cell(g, width, ds, i, j')
      {
        out[i, j] := Cell(g, width, ds, i, j);
      }
    }
  }

  /** `process_raw_frame` with `color` off, up to the reshape and the
      pixel normalisation: the cropped grey-scale plane, downsampled by
      block maxima when `ds` is not 1. */
  method ProcessRawFrame(raw: seq<seq<seq<int>>>, crop: bool, ds: nat) returns (out: array2<int>)
    requires IsRawFrame(raw) && ds >= 1
    ensures fresh(out)
    ensures out.Length0 == |Cropped(raw, crop)| / ds && out.Length1 == Width(raw) / ds
    ensures forall i, j :: 0 <= i < out.Length0 && 0 <= j < out.Length1 ==>
              out[i, j] == Cell(Cropped(raw, crop), Width(raw), ds, i, j)
  {
    var g := Cropped(raw, crop);
    if ds != 1 {
      out := Downsample(g, Width(raw), ds);
    } else {
      assert |g| / 1 == |g| && Width(raw) / 1 == Width(raw);
      out := new int[|g|, Width(raw)]((i, j) requires 0 <= i < |g| && 0 <= j < Width(raw) => g[i][j]);
      forall i, j | 0 <= i < |g| && 0 <= j < Width(raw)
        ensures out[i, j] == Cell(g, Width(raw), 1, i, j)
      {
        CellOfOne(g, Width(raw), i, j);
      }
    }
  }

  /** With `ds == 1` every block is a single pixel, so skipping the
      downsampling (as the source does) gives the same grid. */
  lemma CellOfOne(g: seq<seq<int>>, width: nat, i: nat, j: nat)
    requires i < |g| && j < width
    requires forall row :: 0 <= row < |g| ==> |g[row]| == width
    ensures Cell(g, width, 1, i, j) == g[i][j]
  {
    var r := Cell(g, width, 1, i, j);
    var a, b :| 1 * i <= a < 1 * i + 1 && 1 * j <= b < 1 * j + 1 && g[a][b] == r;
    assert a == i && b == j;
  }
}
