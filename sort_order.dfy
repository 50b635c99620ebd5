/** Orderings, exchanges and the snapshot trace shared by the five sorts of
    the sorting component. Everything here is on values; the sorts
    themselves work on arrays. */
module SortOrder {

  /** Non-decreasing order. */
  ghost predicate Sorted(s: seq<int>) {
    forall p, q :: 0 <= p < q < |s| ==> s[p] <= s[q]
  }

  /** `s[lo..hi]` is in non-decreasing order. */
  ghost predicate SortedBetween(s: seq<int>, lo: int, hi: int) {
    forall p, q :: 0 <= lo <= p < q < hi <= |s| ==> s[p] <= s[q]
  }

  /** No value before index `m` exceeds a value from `m` on. */
  ghost predicate Partitioned(s: seq<int>, m: int) {
    forall p, q :: 0 <= p < m <= q < |s| ==> s[p] <= s[q]
  }

  /** `s[j]` is a largest value of `s[..j + 1]`. */
  ghost predicate MaxAt(s: seq<int>, j: int) {
    forall p :: 0 <= p <= j < |s| ==> s[p] <= s[j]
  }

  /** `[arr[i], arr[j]] = [arr[j], arr[i]]`: the two entries trade places. */
  function Swapped(s: seq<int>, i: nat, j: nat): (r: seq<int>)
    requires i < |s| && j < |s|
    ensures |r| == |s| && r[i] == s[j] && r[j] == s[i]
    ensures forall k :: 0 <= k < |s| && k != i && k != j ==> r[k] == s[k]
  {
    s[i := s[j]][j := s[i]]
  }

  /** An exchange rearranges: the values and their counts stay the same. */
  lemma SwappedPermutes(s: seq<int>, i: nat, j: nat)
    requires i < |s| && j < |s|
    ensures multiset(Swapped(s, i, j)) == multiset(s)
  {
  }

  /** What the component shows once `trace` has been published over
      `input`: the last snapshot, or `input` when nothing was published. */
  function Shown(input: seq<int>, trace: seq<seq<int>>): seq<int>
  {
    if trace == [] then input else trace[|trace| - 1]
  }

  /** Every snapshot is a rearrangement of `input`. */
  ghost predicate Rearrangements(trace: seq<seq<int>>, input: seq<int>) {
    forall k :: 0 <= k < |trace| ==> multiset(trace[k]) == multiset(input)
  }

  lemma RearrangementsSnoc(trace: seq<seq<int>>, s: seq<int>, input: seq<int>)
    requires Rearrangements(trace, input) && multiset(s) == multiset(input)
    ensures Rearrangements(trace + [s], input)
  {
    assert forall k :: 0 <= k < |trace| ==> (trace + [s])[k] == trace[k];
  }

  lemma RearrangementsAppend(trace: seq<seq<int>>, more: seq<seq<int>>, input: seq<int>)
    requires Rearrangements(trace, input) && Rearrangements(more, input)
    ensures Rearrangements(trace + more, input)
  {
    assert forall k :: 0 <= k < |trace + more| ==>
      (trace + more)[k] == if k < |trace| then trace[k] else more[k - |trace|];
  }

  /** `s[m]` is a smallest value of `s[lo..hi]`. */
  ghost predicate MinAt(s: seq<int>, lo: int, hi: int, m: int) {
    forall p :: 0 <= m < |s| && 0 <= lo <= p < hi <= |s| ==> s[m] <= s[p]
  }

  /** Selection sort's exchange at step `i`: a smallest value of the rest
      moves to slot `i`, so one more slot is in its final order. */
  lemma SelectionStep(s: seq<int>, i: nat, m: nat)
    requires i <= m < |s|
    requires SortedBetween(s, 0, i) && Partitioned(s, i) && MinAt(s, i, |s|, m)
    ensures SortedBetween(Swapped(s, i, m), 0, i + 1) && Partitioned(Swapped(s, i, m), i + 1)
  {
    var t := Swapped(s, i, m);
    forall p, q | 0 <= p < q < i + 1
      ensures t[p] <= t[q]
    {
      assert t[p] == s[p];
    }
    forall p, q | 0 <= p < i + 1 <= q < |s|
      ensures t[p] <= t[q]
    {
      assert t[q] == s[q] || (q == m && t[q] == s[i]);
    }
  }

  // Insertion sort: the working array while a key is being placed.

  /** The values `s[h..i]` moved one slot up, slot `h` still holding its
      old value: the array while the key `s[i]` waits to be placed at `h`. */
  function Hole(s: seq<int>, i: nat, h: nat): (r: seq<int>)
    requires h <= i < |s|
    ensures |r| == |s|
  {
    seq(|s|, k requires 0 <= k < |s| => if k <= h || i < k then s[k] else s[k - 1])
  }

  /** The key `s[i]` placed at `h`, the values before it shifted up. */
  function Inserted(s: seq<int>, i: nat, h: nat): (r: seq<int>)
    requires h <= i < |s|
    ensures |r| == |s|
  {
    seq(|s|, k requires 0 <= k < |s| => if k < h || i < k then s[k] else if k == h then s[i] else s[k - 1])
  }

  /** Every value of `s[h..i]` is larger than the key `s[i]`. */
  ghost predicate Above(s: seq<int>, i: nat, h: nat) {
    forall p :: h <= p < i < |s| ==> s[p] > s[i]
  }

  /** `h` is where insertion sort puts the key `s[i]`: after the values
      not above it, before the values above it. */
  ghost predicate KeyPlace(s: seq<int>, i: nat, h: nat) {
    h <= i < |s| && Above(s, i, h) && (h == 0 || s[h - 1] <= s[i])
  }

  lemma AboveGrows(s: seq<int>, i: nat, h: nat)
    requires 0 < h <= i < |s| && Above(s, i, h) && s[h - 1] > s[i]
    ensures Above(s, i, h - 1)
  {
  }

  /** Before any shift the array is as it was. */
  lemma HoleAtKey(s: seq<int>, i: nat)
    requires i < |s|
    ensures Hole(s, i, i) == s
  {
  }

  /** `arr[j + 1] = arr[j]` moves the hole down one slot. */
  lemma HoleShift(s: seq<int>, i: nat, h: nat)
    requires 0 < h <= i < |s|
    ensures Hole(s, i, h)[h - 1] == s[h - 1]
    ensures Hole(s, i, h)[h := s[h - 1]] == Hole(s, i, h - 1)
  {
  }

  /** `arr[j + 1] = key` fills the hole with the key. */
  lemma HoleFilled(s: seq<int>, i: nat, h: nat)
    requires h <= i < |s|
    ensures h > 0 ==> Hole(s, i, h)[h - 1] == s[h - 1]
    ensures Hole(s, i, h)[h := s[i]] == Inserted(s, i, h)
  {
  }

  /** Placing the key is a rearrangement. */
  lemma InsertedPermutes(s: seq<int>, i: nat, h: nat)
    requires h <= i < |s|
    ensures multiset(Inserted(s, i, h)) == multiset(s)
  {
    assert Inserted(s, i, h) == s[..h] + [s[i]] + s[h..i] + s[i + 1..];
    assert s == s[..h] + s[h..i] + [s[i]] + s[i + 1..];
  }

  /** While the hole is below the key, the array holds one copy too many of
      the value at the hole and none of the key: it is no rearrangement. */
  lemma HoleLosesKey(s: seq<int>, i: nat, h: nat)
    requires h < i < |s| && s[h] > s[i]
    ensures multiset(Hole(s, i, h)) != multiset(s)
  {
    assert Hole(s, i, h) == s[..h + 1] + [s[h]] + s[h + 1..i] + s[i + 1..];
    assert s == s[..h + 1] + s[h + 1..i] + [s[i]] + s[i + 1..];
    var rest := multiset(s[..h + 1]) + multiset(s[h + 1..i]) + multiset(s[i + 1..]);
    assert multiset(s) == rest + multiset{s[i]};
    assert multiset(Hole(s, i, h)) == rest + multiset{s[h]};
    assert (rest + multiset{s[h]})[s[h]] == rest[s[h]] + 1;
    assert (rest + multiset{s[i]})[s[h]] == rest[s[h]];
  }

  /** A key placed after the values not above it and before the shifted
      values, all above it, extends the sorted prefix by one. */
  lemma InsertedSorted(s: seq<int>, i: nat, h: nat)
    requires KeyPlace(s, i, h) && SortedBetween(s, 0, i)
    ensures SortedBetween(Inserted(s, i, h), 0, i + 1)
  {
  }

  /** None of the snapshots is a rearrangement of `s`. */
  ghost predicate NoneRearranges(snaps: seq<seq<int>>, s: seq<int>) {
    forall m :: 0 <= m < |snaps| ==> multiset(snaps[m]) != multiset(s)
  }

  lemma NoneRearrangesSnoc(snaps: seq<seq<int>>, t: seq<int>, s: seq<int>)
    requires NoneRearranges(snaps, s) && multiset(t) != multiset(s)
    ensures NoneRearranges(snaps + [t], s)
  {
    assert forall m :: 0 <= m < |snaps| ==> (snaps + [t])[m] == snaps[m];
  }

  // Merge sort: the merge of two runs and the array while it is written.

  /** The merge of `l[i..]` and `r[j..]`, taking from `l` while its head
      is not above the head of `r` (the `<=` makes equal values keep their
      order). */
  function MergeFrom(l: seq<int>, r: seq<int>, i: nat, j: nat): (m: seq<int>)
    requires i <= |l| && j <= |r|
    ensures |m| == |l| - i + |r| - j
    decreases |l| - i + |r| - j
  {
    if i == |l| then r[j..]
    else if j == |r| then l[i..]
    else if l[i] <= r[j] then [l[i]] + MergeFrom(l, r, i + 1, j)
    else [r[j]] + MergeFrom(l, r, i, j + 1)
  }

  /** The merge of two runs. */
  function Merged(l: seq<int>, r: seq<int>): (m: seq<int>)
    ensures |m| == |l| + |r|
  {
    MergeFrom(l, r, 0, 0)
  }

  /** Merging rearranges the two runs together. */
  lemma {:induction false} MergeFromPermutes(l: seq<int>, r: seq<int>, i: nat, j: nat)
    requires i <= |l| && j <= |r|
    ensures multiset(MergeFrom(l, r, i, j)) == multiset(l[i..]) + multiset(r[j..])
    decreases |l| - i + |r| - j
  {
    if i < |l| && j < |r| {
      if l[i] <= r[j] {
        MergeFromPermutes(l, r, i + 1, j);
        MultisetCons(l[i], MergeFrom(l, r, i + 1, j));
        MultisetFrom(l, i);
      } else {
        MergeFromPermutes(l, r, i, j + 1);
        MultisetCons(r[j], MergeFrom(l, r, i, j + 1));
        MultisetFrom(r, j);
      }
    }
  }

  lemma MultisetCons(x: int, s: seq<int>)
    ensures multiset([x] + s) == multiset{x} + multiset(s)
  {
  }

  lemma MultisetFrom(s: seq<int>, i: nat)
    requires i < |s|
    ensures multiset(s[i..]) == multiset{s[i]} + multiset(s[i + 1..])
  {
    assert s[i..] == [s[i]] + s[i + 1..];
  }

  lemma MergedPermutes(l: seq<int>, r: seq<int>)
    ensures multiset(Merged(l, r)) == multiset(l) + multiset(r)
  {
    MergeFromPermutes(l, r, 0, 0);
    assert l[0..] == l && r[0..] == r;
  }

  /** Every value of `s` is at least `x`. */
  ghost predicate AtLeast(s: seq<int>, x: int) {
    forall k :: 0 <= k < |s| ==> x <= s[k]
  }

  lemma AtLeastByMultiset(s: seq<int>, t: seq<int>, x: int)
    requires AtLeast(t, x) && multiset(s) <= multiset(t)
    ensures AtLeast(s, x)
  {
    forall k | 0 <= k < |s|
      ensures x <= s[k]
    {
      assert s[k] in multiset(s);
      assert s[k] in multiset(t);
      var k' :| 0 <= k' < |t| && t[k'] == s[k];
    }
  }

  lemma SortedTail(s: seq<int>)
    requires s != [] && Sorted(s)
    ensures Sorted(s[1..]) && AtLeast(s, s[0])
  {
  }

  lemma SortedCons(x: int, s: seq<int>)
    requires Sorted(s) && AtLeast(s, x)
    ensures Sorted([x] + s)
  {
  }

  /** Merging two sorted runs gives a sorted run. */
  lemma {:induction false} MergeFromSorted(l: seq<int>, r: seq<int>, i: nat, j: nat)
    requires i <= |l| && j <= |r| && Sorted(l) && Sorted(r)
    ensures Sorted(MergeFrom(l, r, i, j))
    decreases |l| - i + |r| - j
  {
    if i < |l| && j < |r| {
      var x, rest := if l[i] <= r[j] then l[i] else r[j], MergeFrom(l, r, if l[i] <= r[j] then i + 1 else i, if l[i] <= r[j] then j else j + 1);
      if l[i] <= r[j] {
        MergeFromSorted(l, r, i + 1, j);
        MergeFromPermutes(l, r, i + 1, j);
        SortedAtLeast(l, i + 1, x);
        SortedAtLeast(r, j, x);
        AtLeastJoin(l[i + 1..], r[j..], x);
        AtLeastByMultiset(rest, l[i + 1..] + r[j..], x);
      } else {
        MergeFromSorted(l, r, i, j + 1);
        MergeFromPermutes(l, r, i, j + 1);
        SortedAtLeast(l, i, x);
        SortedAtLeast(r, j + 1, x);
        AtLeastJoin(l[i..], r[j + 1..], x);
        AtLeastByMultiset(rest, l[i..] + r[j + 1..], x);
      }
      SortedCons(x, rest);
    } else {
      assert forall p, q :: 0 <= p < q < |l| - i ==> l[i..][p] == l[i + p] && l[i..][q] == l[i + q];
      assert forall p, q :: 0 <= p < q < |r| - j ==> r[j..][p] == r[j + p] && r[j..][q] == r[j + q];
    }
  }

  lemma MergedSorted(l: seq<int>, r: seq<int>)
    requires Sorted(l) && Sorted(r)
    ensures Sorted(Merged(l, r))
  {
    MergeFromSorted(l, r, 0, 0);
  }

  /** In a sorted run every value from `i` on is at least any `x` not above
      the value at `i`. */
  lemma SortedAtLeast(s: seq<int>, i: nat, x: int)
    requires i <= |s| && Sorted(s) && (i < |s| ==> x <= s[i])
    ensures AtLeast(s[i..], x)
  {
  }

  lemma AtLeastJoin(s: seq<int>, t: seq<int>, x: int)
    requires AtLeast(s, x) && AtLeast(t, x)
    ensures AtLeast(s + t, x) && multiset(s + t) == multiset(s) + multiset(t)
  {
  }

  // Stability: where each merged value comes from.

  /** Whether `merge` takes its next value from the left run at `(i, j)`:
      the right one is used up, or its head is not below the left one's. */
  predicate TakesLeft(l: seq<int>, r: seq<int>, i: nat, j: nat)
    requires i <= |l| && j <= |r|
  {
    i < |l| && (j == |r| || l[i] <= r[j])
  }

  /** `MergeFrom` one value at a time. */
  lemma MergeFromStep(l: seq<int>, r: seq<int>, i: nat, j: nat)
    requires i <= |l| && j <= |r|
    ensures TakesLeft(l, r, i, j) ==> MergeFrom(l, r, i, j) == [l[i]] + MergeFrom(l, r, i + 1, j)
    ensures !TakesLeft(l, r, i, j) && j < |r| ==> MergeFrom(l, r, i, j) == [r[j]] + MergeFrom(l, r, i, j + 1)
    ensures !TakesLeft(l, r, i, j) && j == |r| ==> MergeFrom(l, r, i, j) == []
  {
    if i == |l| && j < |r| {
      assert r[j..] == [r[j]] + r[j + 1..];
    } else if i < |l| && j == |r| {
      assert l[i..] == [l[i]] + l[i + 1..];
    }
  }

  /** The origin of each value of `MergeFrom(l, r, i, j)`: an index of `l`,
      or `|l|` plus an index of `r`; the origins of `l` come before those of
      `r`, as in the array the two runs are sliced from. */
  function MergeOrigins(l: seq<int>, r: seq<int>, i: nat, j: nat): (o: seq<int>)
    requires i <= |l| && j <= |r|
    ensures |o| == |l| - i + |r| - j
    decreases |l| - i + |r| - j
  {
    if TakesLeft(l, r, i, j) then [i] + MergeOrigins(l, r, i + 1, j)
    else if j < |r| then [|l| + j] + MergeOrigins(l, r, i, j + 1)
    else []
  }

  /** Each value of `m` is the value of `l[i..]` or `r[j..]` at its origin. */
  ghost predicate ComesFrom(l: seq<int>, r: seq<int>, i: nat, j: nat, m: seq<int>, o: seq<int>) {
    |m| == |o| && forall p :: 0 <= p < |o| ==>
      (i <= o[p] < |l| && m[p] == l[o[p]]) || (|l| + j <= o[p] < |l| + |r| && m[p] == r[o[p] - |l|])
  }

  lemma {:induction false} MergeOriginsTrack(l: seq<int>, r: seq<int>, i: nat, j: nat)
    requires i <= |l| && j <= |r|
    ensures ComesFrom(l, r, i, j, MergeFrom(l, r, i, j), MergeOrigins(l, r, i, j))
    decreases |l| - i + |r| - j, 1
  {
    MergeFromStep(l, r, i, j);
    if TakesLeft(l, r, i, j) {
      TrackLeft(l, r, i, j);
    } else if j < |r| {
      TrackRight(l, r, i, j);
    }
  }

  lemma {:induction false} TrackLeft(l: seq<int>, r: seq<int>, i: nat, j: nat)
    requires i <= |l| && j <= |r| && TakesLeft(l, r, i, j)
    ensures ComesFrom(l, r, i, j, MergeFrom(l, r, i, j), MergeOrigins(l, r, i, j))
    decreases |l| - i + |r| - j, 0
  {
    MergeOriginsTrack(l, r, i + 1, j);
    MergeFromStep(l, r, i, j);
    ComesFromCons(l, r, i, j, i + 1, j, l[i], i, MergeFrom(l, r, i + 1, j), MergeOrigins(l, r, i + 1, j),
                  MergeFrom(l, r, i, j), MergeOrigins(l, r, i, j));
  }

  lemma {:induction false} TrackRight(l: seq<int>, r: seq<int>, i: nat, j: nat)
    requires i <= |l| && j < |r| && (i == |l| || r[j] < l[i])
    ensures ComesFrom(l, r, i, j, MergeFrom(l, r, i, j), MergeOrigins(l, r, i, j))
    decreases |l| - i + |r| - j, 0
  {
    MergeOriginsTrack(l, r, i, j + 1);
    MergeFromStep(l, r, i, j);
    assert MergeFrom(l, r, i, j) == [r[j]] + MergeFrom(l, r, i, j + 1);
    assert MergeOrigins(l, r, i, j) == [|l| + j] + MergeOrigins(l, r, i, j + 1);
    ComesFromCons(l, r, i, j, i, j + 1, r[j], |l| + j, MergeFrom(l, r, i, j + 1), MergeOrigins(l, r, i, j + 1),
                  MergeFrom(l, r, i, j), MergeOrigins(l, r, i, j));
  }

  lemma ComesFromCons(l: seq<int>, r: seq<int>, i: nat, j: nat, i': nat, j': nat,
                      x: int, ox: int, m: seq<int>, o: seq<int>, m': seq<int>, o': seq<int>)
    requires i <= i' && j <= j' && ComesFrom(l, r, i', j', m, o)
    requires (i <= ox < |l| && x == l[ox]) || (|l| + j <= ox < |l| + |r| && x == r[ox - |l|])
    requires m' == [x] + m && o' == [ox] + o
    ensures ComesFrom(l, r, i, j, m', o')
  {
    forall p | 0 < p < |o'|
      ensures (i <= o'[p] < |l| && m'[p] == l[o'[p]]) || (|l| + j <= o'[p] < |l| + |r| && m'[p] == r[o'[p] - |l|])
    {
      assert o'[p] == o[p - 1] && m'[p] == m[p - 1];
    }
  }

  /** No two values of the merge come from the same place. */
  ghost predicate Distinct(o: seq<int>) {
    forall p, q :: 0 <= p < q < |o| ==> o[p] != o[q]
  }

  /** Equal values keep the order of their origins. */
  ghost predicate Stable(m: seq<int>, o: seq<int>) {
    |m| == |o| && forall p, q :: 0 <= p < q < |m| && m[p] == m[q] ==> o[p] < o[q]
  }

  lemma {:induction false} MergeOriginsDistinct(l: seq<int>, r: seq<int>, i: nat, j: nat)
    requires i <= |l| && j <= |r|
    ensures Distinct(MergeOrigins(l, r, i, j))
    decreases |l| - i + |r| - j
  {
    if TakesLeft(l, r, i, j) {
      MergeOriginsDistinct(l, r, i + 1, j);
      MergeOriginsTrack(l, r, i + 1, j);
      DistinctCons(l, r, i + 1, j, i, MergeFrom(l, r, i + 1, j), MergeOrigins(l, r, i + 1, j), MergeOrigins(l, r, i, j));
    } else if j < |r| {
      MergeOriginsDistinct(l, r, i, j + 1);
      MergeOriginsTrack(l, r, i, j + 1);
      DistinctCons(l, r, i, j + 1, |l| + j, MergeFrom(l, r, i, j + 1), MergeOrigins(l, r, i, j + 1), MergeOrigins(l, r, i, j));
    }
  }

  /** An origin outside the ranges the rest comes from is new. */
  lemma DistinctCons(l: seq<int>, r: seq<int>, i: nat, j: nat, ox: int, m: seq<int>, o: seq<int>, o': seq<int>)
    requires i <= |l| && j <= |r| && ComesFrom(l, r, i, j, m, o) && Distinct(o) && o' == [ox] + o
    requires ox < i || |l| <= ox < |l| + j
    ensures Distinct(o')
  {
    forall p, q | 0 <= p < q < |o'|
      ensures o'[p] != o'[q]
    {
      assert o'[0] == ox && o'[q] == o[q - 1];
      if p > 0 {
        assert o'[p] == o[p - 1];
      }
    }
  }

  /** `merge` is stable: because a tie takes from the left run, equal values
      come out in the order of their origins. */
  lemma {:induction false} MergeFromStable(l: seq<int>, r: seq<int>, i: nat, j: nat)
    requires i <= |l| && j <= |r| && Sorted(l)
    ensures Stable(MergeFrom(l, r, i, j), MergeOrigins(l, r, i, j))
    decreases |l| - i + |r| - j, 1
  {
    MergeFromStep(l, r, i, j);
    if TakesLeft(l, r, i, j) {
      StableLeft(l, r, i, j);
    } else if j < |r| {
      StableRight(l, r, i, j);
    }
  }

  lemma {:induction false} StableLeft(l: seq<int>, r: seq<int>, i: nat, j: nat)
    requires i <= |l| && j <= |r| && Sorted(l) && TakesLeft(l, r, i, j)
    ensures Stable(MergeFrom(l, r, i, j), MergeOrigins(l, r, i, j))
    decreases |l| - i + |r| - j, 0
  {
    MergeFromStable(l, r, i + 1, j);
    MergeOriginsTrack(l, r, i + 1, j);
    MergeFromStep(l, r, i, j);
    StableCons(l, r, i + 1, j, l[i], i, MergeFrom(l, r, i + 1, j), MergeOrigins(l, r, i + 1, j),
               MergeFrom(l, r, i, j), MergeOrigins(l, r, i, j));
  }

  lemma {:induction false} StableRight(l: seq<int>, r: seq<int>, i: nat, j: nat)
    requires i <= |l| && j < |r| && Sorted(l) && (i == |l| || r[j] < l[i])
    ensures Stable(MergeFrom(l, r, i, j), MergeOrigins(l, r, i, j))
    decreases |l| - i + |r| - j, 0
  {
    MergeFromStable(l, r, i, j + 1);
    MergeOriginsTrack(l, r, i, j + 1);
    MergeFromStep(l, r, i, j);
    assert MergeFrom(l, r, i, j) == [r[j]] + MergeFrom(l, r, i, j + 1);
    assert MergeOrigins(l, r, i, j) == [|l| + j] + MergeOrigins(l, r, i, j + 1);
    StableCons(l, r, i, j + 1, r[j], |l| + j, MergeFrom(l, r, i, j + 1), MergeOrigins(l, r, i, j + 1),
               MergeFrom(l, r, i, j), MergeOrigins(l, r, i, j));
  }

  /** A value put in front of a stable merge of `l[i..]` and `r[j..]` keeps
      it stable when it comes from before `i`, or from the right run before
      `|l| + j` and below every value left in `l`. */
  lemma StableCons(l: seq<int>, r: seq<int>, i: nat, j: nat, x: int, ox: int, m: seq<int>, o: seq<int>,
                   m': seq<int>, o': seq<int>)
    requires i <= |l| && j <= |r| && Sorted(l) && ComesFrom(l, r, i, j, m, o) && Stable(m, o)
    requires ox < i || (|l| <= ox < |l| + j && (i < |l| ==> x < l[i]))
    requires m' == [x] + m && o' == [ox] + o
    ensures Stable(m', o')
  {
    forall p, q | 0 <= p < q < |m'| && m'[p] == m'[q]
      ensures o'[p] < o'[q]
    {
      assert m'[0] == x && o'[0] == ox;
      assert m'[q] == m[q - 1] && o'[q] == o[q - 1];
      if p > 0 {
        assert m'[p] == m[p - 1] && o'[p] == o[p - 1];
      } else if o[q - 1] < |l| {
        assert l[i] <= l[o[q - 1]];
      }
    }
  }

  /** The merge of two runs is stable when the left one is sorted, and each
      place of the two runs is the origin of exactly one merged value. */
  lemma MergedStable(l: seq<int>, r: seq<int>)
    requires Sorted(l)
    ensures ComesFrom(l, r, 0, 0, Merged(l, r), MergeOrigins(l, r, 0, 0))
    ensures Stable(Merged(l, r), MergeOrigins(l, r, 0, 0)) && Distinct(MergeOrigins(l, r, 0, 0))
  {
    MergeOriginsTrack(l, r, 0, 0);
    MergeFromStable(l, r, 0, 0);
    MergeOriginsDistinct(l, r, 0, 0);
  }

  /** `s` with `out` written from index `start` on. */
  function Written(s: seq<int>, start: nat, out: seq<int>): (r: seq<int>)
    requires start + |out| <= |s|
    ensures |r| == |s|
  {
    seq(|s|, k requires 0 <= k < |s| => if start <= k < start + |out| then out[k - start] else s[k])
  }

  lemma WrittenNothing(s: seq<int>, start: nat)
    requires start <= |s|
    ensures Written(s, start, []) == s
  {
  }

  /** `arr[k] = x` writes the next value. */
  lemma WrittenNext(s: seq<int>, start: nat, out: seq<int>, x: int)
    requires start + |out| < |s|
    ensures Written(s, start, out)[start + |out| := x] == Written(s, start, out + [x])
  {
  }

  /** Writing a rearrangement of a range over it rearranges the whole. */
  lemma WrittenPermutes(s: seq<int>, start: nat, out: seq<int>)
    requires start + |out| <= |s| && multiset(out) == multiset(s[start..start + |out|])
    ensures multiset(Written(s, start, out)) == multiset(s)
  {
    var end := start + |out|;
    assert Written(s, start, out) == s[..start] + out + s[end..];
    assert s == s[..start] + s[start..end] + s[end..];
  }

  /** One step of `merge`: the next value written is the head of the merge
      of what is left. */
  lemma MergeTakes(l: seq<int>, r: seq<int>, i: nat, j: nat, out: seq<int>)
    requires i <= |l| && j <= |r| && (i < |l| || j < |r|)
    requires out + MergeFrom(l, r, i, j) == Merged(l, r)
    ensures i < |l| && (j == |r| || l[i] <= r[j]) ==> out + [l[i]] + MergeFrom(l, r, i + 1, j) == Merged(l, r)
    ensures j < |r| && (i == |l| || l[i] > r[j]) ==> out + [r[j]] + MergeFrom(l, r, i, j + 1) == Merged(l, r)
  {
    if i < |l| && (j == |r| || l[i] <= r[j]) {
      if j == |r| {
        assert l[i..] == [l[i]] + l[i + 1..];
        assert MergeFrom(l, r, i + 1, j) == l[i + 1..];
      }
      assert MergeFrom(l, r, i, j) == [l[i]] + MergeFrom(l, r, i + 1, j);
    }
    if j < |r| && (i == |l| || l[i] > r[j]) {
      if i == |l| {
        assert r[j..] == [r[j]] + r[j + 1..];
        assert MergeFrom(l, r, i, j + 1) == r[j + 1..];
      }
      assert MergeFrom(l, r, i, j) == [r[j]] + MergeFrom(l, r, i, j + 1);
    }
  }

  /** The state of `merge` over the range from `start` of `s`: `i`
      values of `left` and `j` of `right` written to the array `a` as
      `out`, one snapshot published per value. */
  ghost predicate Merging(a: seq<int>, s: seq<int>, start: nat, left: seq<int>, right: seq<int>,
                          i: nat, j: nat, out: seq<int>, snaps: seq<seq<int>>) {
    && i <= |left| && j <= |right| && |out| == i + j && start + |left| + |right| <= |s|
    && out + MergeFrom(left, right, i, j) == Merged(left, right)
    && a == Written(s, start, out)
    && |snaps| == |out| && Shown(s, snaps) == a
  }

  /** One write of `merge` from the left run. */
  lemma MergingLeft(a: seq<int>, s: seq<int>, start: nat, left: seq<int>, right: seq<int>,
                    i: nat, j: nat, out: seq<int>, snaps: seq<seq<int>>)
    requires Merging(a, s, start, left, right, i, j, out, snaps)
    requires i < |left| && (j == |right| || left[i] <= right[j])
    ensures Merging(a[start + i + j := left[i]], s, start, left, right, i + 1, j,
                    out + [left[i]], snaps + [a[start + i + j := left[i]]])
  {
    MergeTakes(left, right, i, j, out);
    WrittenNext(s, start, out, left[i]);
  }

  /** One write of `merge` from the right run. */
  lemma MergingRight(a: seq<int>, s: seq<int>, start: nat, left: seq<int>, right: seq<int>,
                     i: nat, j: nat, out: seq<int>, snaps: seq<seq<int>>)
    requires Merging(a, s, start, left, right, i, j, out, snaps)
    requires j < |right| && (i == |left| || left[i] > right[j])
    ensures Merging(a[start + i + j := right[j]], s, start, left, right, i, j + 1,
                    out + [right[j]], snaps + [a[start + i + j := right[j]]])
  {
    MergeTakes(left, right, i, j, out);
    WrittenNext(s, start, out, right[j]);
  }

  /** Once both runs are used up, `merge` has written exactly the merge of
      the two runs over the range, one snapshot per value; and over a
      sorted range the array and every snapshot are as they were. */
  lemma MergeDone(a: seq<int>, s: seq<int>, start: nat, mid: nat, end: nat, left: seq<int>, right: seq<int>,
                  out: seq<int>, snaps: seq<seq<int>>)
    requires start <= mid < end < |s| && left == s[start..mid + 1] && right == s[mid + 1..end + 1]
    requires Merging(a, s, start, left, right, |left|, |right|, out, snaps)
    requires Unmoved(a, s, start, left, right, snaps)
    ensures a == Written(s, start, Merged(left, right))
    ensures |snaps| == end - start + 1 && Shown(s, snaps) == a
    ensures SortedBetween(s, start, end + 1) ==> Stays(a, s, snaps)
  {
    assert MergeFrom(left, right, |left|, |right|) == [];
    assert out == Merged(left, right);
    if SortedBetween(s, start, end + 1) {
      MergeOfSorted(s, start, mid, end);
    }
  }

  /** Publishing `a` then `b` shows what `b` shows over what `a` shows. */
  lemma ShownAppend(input: seq<int>, a: seq<seq<int>>, b: seq<seq<int>>)
    ensures Shown(input, a + b) == Shown(Shown(input, a), b)
  {
    if b != [] {
      assert (a + b)[|a + b| - 1] == b[|b| - 1];
    } else {
      assert a + b == a;
    }
  }

  /** The number of snapshots `mergeSortHelper(arr, start, end)`
      publishes: each merge publishes one per slot of its range. */
  function MergeSnapshots(start: int, end: int): nat
    decreases end - start
  {
    if start >= end then 0
    else
      var mid := (start + end) / 2;
      MergeSnapshots(start, mid) + MergeSnapshots(mid + 1, end) + (end - start + 1)
  }

  /** Outside `[lo, hi)` the two arrays agree. */
  ghost predicate SameOutside(a: seq<int>, b: seq<int>, lo: int, hi: int) {
    |a| == |b| && forall k :: 0 <= k < |a| && !(lo <= k < hi) ==> a[k] == b[k]
  }

  // Ranges of an array: what a recursive sort may change and what it keeps.

  lemma SortedSlice(s: seq<int>, lo: nat, hi: nat)
    requires lo <= hi <= |s|
    ensures SortedBetween(s, lo, hi) <==> Sorted(s[lo..hi])
  {
    if Sorted(s[lo..hi]) {
      forall p, q | lo <= p < q < hi
        ensures s[p] <= s[q]
      {
        assert s[p] == s[lo..hi][p - lo] && s[q] == s[lo..hi][q - lo];
      }
    }
  }

  /** Where `b` agrees with `a` on `[lo, hi)`, order there carries over. */
  lemma SortedKept(a: seq<int>, b: seq<int>, lo: int, hi: int, olo: int, ohi: int)
    requires SameOutside(b, a, olo, ohi) && (hi <= olo || ohi <= lo)
    requires SortedBetween(a, lo, hi)
    ensures SortedBetween(b, lo, hi)
  {
    forall p, q | 0 <= lo <= p < q < hi <= |b|
      ensures b[p] <= b[q]
    {
      assert b[p] == a[p] && b[q] == a[q];
    }
  }

  lemma WrittenSorted(s: seq<int>, start: nat, out: seq<int>)
    requires start + |out| <= |s| && Sorted(out)
    ensures SortedBetween(Written(s, start, out), start, start + |out|)
  {
    var w := Written(s, start, out);
    forall p, q | start <= p < q < start + |out|
      ensures w[p] <= w[q]
    {
      assert w[p] == out[p - start] && w[q] == out[q - start];
    }
  }

  lemma WrittenOutside(s: seq<int>, start: nat, out: seq<int>)
    requires start + |out| <= |s|
    ensures SameOutside(Written(s, start, out), s, start, start + |out|)
  {
  }

  lemma SameOutsideJoin(a: seq<int>, b: seq<int>, c: seq<int>, lo: int, hi: int,
                        lo1: int, hi1: int, lo2: int, hi2: int)
    requires SameOutside(a, b, lo1, hi1) && SameOutside(b, c, lo2, hi2)
    requires lo <= lo1 && hi1 <= hi && lo <= lo2 && hi2 <= hi
    ensures SameOutside(a, c, lo, hi)
  {
  }

  lemma MultisetSplit(s: seq<int>, lo: nat, mid: nat, hi: nat)
    requires lo <= mid <= hi <= |s|
    ensures multiset(s[lo..hi]) == multiset(s[lo..mid]) + multiset(s[mid..hi])
  {
    assert s[lo..hi] == s[lo..mid] + s[mid..hi];
  }

  /** A rearrangement that keeps everything outside `[lo, hi)` rearranges
      `[lo, hi)`. */
  lemma RangeRearranged(a: seq<int>, b: seq<int>, lo: nat, hi: nat)
    requires lo <= hi <= |a| && SameOutside(a, b, lo, hi) && multiset(a) == multiset(b)
    ensures multiset(a[lo..hi]) == multiset(b[lo..hi])
  {
    var x, y := a[..lo], a[hi..];
    assert b[..lo] == x && b[hi..] == y;
    assert a == x + a[lo..hi] + y;
    assert b == x + b[lo..hi] + y;
    assert multiset(a) == multiset(x) + multiset(a[lo..hi]) + multiset(y);
    assert multiset(b) == multiset(x) + multiset(b[lo..hi]) + multiset(y);
    forall v
      ensures multiset(a[lo..hi])[v] == multiset(b[lo..hi])[v]
    {
      assert multiset(a)[v] == multiset(b)[v];
    }
  }

  /** Exchanging two values of `[lo, hi)` keeps what lies outside and
      rearranges the whole. */
  lemma SwapInside(t: seq<int>, s: seq<int>, lo: int, hi: int, i: nat, j: nat)
    requires SameOutside(t, s, lo, hi) && multiset(t) == multiset(s)
    requires lo <= i < hi && lo <= j < hi && i < |t| && j < |t|
    ensures SameOutside(Swapped(t, i, j), s, lo, hi) && multiset(Swapped(t, i, j)) == multiset(s)
  {
    SwappedPermutes(t, i, j);
  }

  lemma RearrangementsOf(trace: seq<seq<int>>, a: seq<int>, b: seq<int>)
    requires Rearrangements(trace, a) && multiset(a) == multiset(b)
    ensures Rearrangements(trace, b)
  {
  }

  /** The three steps of `mergeSortHelper(arr, start, end)`: `a` has the
      left half sorted, `b` the right half too, `c` the range merged, which
      is then sorted. */
  lemma MergeSortSorts(a: seq<int>, b: seq<int>, c: seq<int>, start: nat, mid: nat, end: nat)
    requires start <= mid < end < |a|
    requires SortedBetween(a, start, mid + 1)
    requires SortedBetween(b, mid + 1, end + 1) && SameOutside(b, a, mid + 1, end + 1)
    requires c == Written(b, start, Merged(b[start..mid + 1], b[mid + 1..end + 1]))
    ensures SortedBetween(c, start, end + 1)
  {
    var l, r := b[start..mid + 1], b[mid + 1..end + 1];
    SortedKept(a, b, start, mid + 1, mid + 1, end + 1);
    SortedSlice(b, start, mid + 1);
    SortedSlice(b, mid + 1, end + 1);
    MergedSorted(l, r);
    WrittenSorted(b, start, Merged(l, r));
  }

  /** ... and the three steps change only the range, rearranging it. */
  lemma MergeSortKeeps(s: seq<int>, a: seq<int>, b: seq<int>, c: seq<int>, start: nat, mid: nat, end: nat)
    requires start <= mid < end < |s|
    requires SameOutside(a, s, start, mid + 1) && multiset(a) == multiset(s)
    requires SameOutside(b, a, mid + 1, end + 1) && multiset(b) == multiset(a)
    requires c == Written(b, start, Merged(b[start..mid + 1], b[mid + 1..end + 1]))
    ensures SameOutside(c, s, start, end + 1) && multiset(c) == multiset(s)
  {
    MergeWrittenPermutes(b, start, mid, end);
    WrittenOutside(b, start, Merged(b[start..mid + 1], b[mid + 1..end + 1]));
    SameOutsideJoin(c, b, a, start, end + 1, start, end + 1, mid + 1, end + 1);
    SameOutsideJoin(c, a, s, start, end + 1, start, end + 1, start, mid + 1);
  }

  /** Writing the merge of two adjacent runs over them rearranges the array. */
  lemma MergeWrittenPermutes(b: seq<int>, start: nat, mid: nat, end: nat)
    requires start <= mid < end < |b|
    ensures |Merged(b[start..mid + 1], b[mid + 1..end + 1])| == end + 1 - start
    ensures multiset(Written(b, start, Merged(b[start..mid + 1], b[mid + 1..end + 1]))) == multiset(b)
  {
    var l, r := b[start..mid + 1], b[mid + 1..end + 1];
    MergedPermutes(l, r);
    MultisetSplit(b, start, mid + 1, end + 1);
    WrittenPermutes(b, start, Merged(l, r));
  }

  // Quick sort: Lomuto partition around the last value of the range.

  /** Every value of `s[lo..hi]` is below `x`. */
  ghost predicate AllBelow(s: seq<int>, lo: int, hi: int, x: int) {
    forall p :: 0 <= lo <= p < hi <= |s| ==> s[p] < x
  }

  /** No value of `s[lo..hi]` is below `x`. */
  ghost predicate NoneBelow(s: seq<int>, lo: int, hi: int, x: int) {
    forall p :: 0 <= lo <= p < hi <= |s| ==> s[p] >= x
  }

  /** The state of `partition(arr, low, high)` at `j`: `s[low..i]` holds
      values below the pivot, `s[i+1..j-1]` values not below it. */
  ghost predicate Partitioning(s: seq<int>, low: int, i: int, j: int, high: int, pivot: int) {
    0 <= low <= i + 1 <= j <= high < |s| && s[high] == pivot
    && AllBelow(s, low, i + 1, pivot) && NoneBelow(s, i + 1, j, pivot)
  }

  /** `partition`'s loop body at `j`. */
  lemma PartitionStep(s: seq<int>, low: int, i: int, j: int, high: int, pivot: int)
    requires Partitioning(s, low, i, j, high, pivot) && j < high
    ensures s[j] < pivot ==> Partitioning(Swapped(s, i + 1, j), low, i + 1, j + 1, high, pivot)
    ensures s[j] >= pivot ==> Partitioning(s, low, i, j + 1, high, pivot)
  {
    if s[j] < pivot {
      var t := Swapped(s, i + 1, j);
      assert t[i + 1] == s[j];
      forall p | i + 2 <= p < j + 1
        ensures t[p] >= pivot
      {
        if p == j { assert t[p] == s[i + 1]; } else { assert t[p] == s[p]; }
      }
    }
  }

  /** The whole state of `partition`'s loop at `j`, started from `s`:
      `a` is partitioned so far, differs from `s` only in the range and
      rearranges it, and `snaps` holds one rearrangement per exchange, the
      last being `a`. */
  ghost predicate Scanning(a: seq<int>, s: seq<int>, low: int, i: int, j: int, high: int, pivot: int,
                           snaps: seq<seq<int>>) {
    && Partitioning(a, low, i, j, high, pivot)
    && SameOutside(a, s, low, high + 1) && multiset(a) == multiset(s)
    && |snaps| == i + 1 - low && Rearrangements(snaps, s) && Shown(s, snaps) == a
  }

  lemma ScanningStart(s: seq<int>, low: nat, high: nat)
    requires low < high < |s|
    ensures Scanning(s, s, low, low - 1, low, high, s[high], [])
  {
  }

  /** A value below the pivot is exchanged to the end of the run below it,
      giving `u`, which is published. */
  lemma ScanningSwap(a: seq<int>, s: seq<int>, low: int, i: int, j: int, high: int, pivot: int,
                     snaps: seq<seq<int>>, u: seq<int>)
    requires Scanning(a, s, low, i, j, high, pivot, snaps) && j < high && a[j] < pivot
    requires u == Swapped(a, i + 1, j)
    ensures Scanning(u, s, low, i + 1, j + 1, high, pivot, snaps + [u])
  {
    PartitionStep(a, low, i, j, high, pivot);
    SwapInside(a, s, low, high + 1, i + 1, j);
    RearrangementsSnoc(snaps, u, s);
  }

  /** A value not below the pivot stays where it is. */
  lemma ScanningKeep(a: seq<int>, s: seq<int>, low: int, i: int, j: int, high: int, pivot: int,
                     snaps: seq<seq<int>>)
    requires Scanning(a, s, low, i, j, high, pivot, snaps) && j < high && a[j] >= pivot
    ensures Scanning(a, s, low, i, j + 1, high, pivot, snaps)
  {
    PartitionStep(a, low, i, j, high, pivot);
  }

  /** `partition`'s last exchange, after the loop: the pivot goes between
      the two parts, and `u` is published. */
  lemma Placed(t: seq<int>, s: seq<int>, low: int, i: int, high: int, pivot: int,
               snaps: seq<seq<int>>, u: seq<int>)
    requires Scanning(t, s, low, i, high, high, pivot, snaps) && u == Swapped(t, i + 1, high)
    ensures low <= i + 1 <= high && u[i + 1] == pivot
    ensures AllBelow(u, low, i + 1, u[i + 1]) && NoneBelow(u, i + 2, high + 1, u[i + 1])
    ensures SameOutside(u, s, low, high + 1) && multiset(u) == multiset(s)
    ensures |snaps + [u]| == i + 2 - low && Rearrangements(snaps + [u], s) && Shown(s, snaps + [u]) == u
  {
    PartitionDone(t, low, i, high, pivot);
    SwapInside(t, s, low, high + 1, i + 1, high);
    RearrangementsSnoc(snaps, u, s);
  }

  /** `partition`'s last exchange puts the pivot between the two parts. */
  lemma PartitionDone(s: seq<int>, low: int, i: int, high: int, pivot: int)
    requires Partitioning(s, low, i, high, high, pivot)
    ensures var t := Swapped(s, i + 1, high);
      t[i + 1] == pivot && AllBelow(t, low, i + 1, pivot) && NoneBelow(t, i + 2, high + 1, pivot)
  {
    var t := Swapped(s, i + 1, high);
    forall p | i + 2 <= p < high + 1
      ensures t[p] >= pivot
    {
      if p == high { assert t[p] == s[i + 1]; } else { assert t[p] == s[p]; }
    }
  }

  lemma AllBelowByMultiset(a: seq<int>, b: seq<int>, lo: nat, hi: nat, x: int)
    requires lo <= hi <= |a| == |b| && multiset(a[lo..hi]) == multiset(b[lo..hi]) && AllBelow(b, lo, hi, x)
    ensures AllBelow(a, lo, hi, x)
  {
    forall p | lo <= p < hi
      ensures a[p] < x
    {
      assert a[lo..hi][p - lo] == a[p];
      assert a[p] in multiset(b[lo..hi]);
      var q :| 0 <= q < hi - lo && b[lo..hi][q] == a[p];
      assert b[lo + q] == a[p];
    }
  }

  lemma NoneBelowByMultiset(a: seq<int>, b: seq<int>, lo: nat, hi: nat, x: int)
    requires lo <= hi <= |a| == |b| && multiset(a[lo..hi]) == multiset(b[lo..hi]) && NoneBelow(b, lo, hi, x)
    ensures NoneBelow(a, lo, hi, x)
  {
    forall p | lo <= p < hi
      ensures a[p] >= x
    {
      assert a[lo..hi][p - lo] == a[p];
      assert a[p] in multiset(b[lo..hi]);
      var q :| 0 <= q < hi - lo && b[lo..hi][q] == a[p];
      assert b[lo + q] == a[p];
    }
  }

  /** The three steps of `quickSortHelper(arr, low, high)`: `a` is
      partitioned at `p`, `b` has the part below sorted, `c` the part above
      too; then the whole range is sorted. */
  lemma QuickSortStep(a: seq<int>, b: seq<int>, c: seq<int>, low: nat, p: nat, high: nat)
    requires low <= p <= high < |a|
    requires AllBelow(a, low, p, a[p]) && NoneBelow(a, p + 1, high + 1, a[p])
    requires SortedBetween(b, low, p) && SameOutside(b, a, low, p) && multiset(b) == multiset(a)
    requires SortedBetween(c, p + 1, high + 1) && SameOutside(c, b, p + 1, high + 1) && multiset(c) == multiset(b)
    ensures SortedBetween(c, low, high + 1) && SameOutside(c, a, low, high + 1)
  {
    RangeRearranged(b, a, low, p);
    AllBelowByMultiset(b, a, low, p, a[p]);
    RangeRearranged(c, b, p + 1, high + 1);
    assert b[p + 1..high + 1] == a[p + 1..high + 1];
    NoneBelowByMultiset(c, a, p + 1, high + 1, a[p]);
    SortedKept(b, c, low, p, p + 1, high + 1);
    assert c[p] == a[p];
    forall x, y | low <= x < y < high + 1
      ensures c[x] <= c[y]
    {
      if y < p { }
      else if x > p { }
      else if x == p { }
      else if y == p { assert c[x] == b[x]; }
      else { assert c[x] == b[x]; }
    }
    SameOutsideJoin(c, b, a, low, high + 1, p + 1, high + 1, low, p);
  }

  // Bubble sort, as a reference definition of the snapshots it publishes.

  /** One pass of bubble sort from `j` while `j < limit`: each pair that is
      out of order is exchanged and the result published. Returns the array
      after the pass and `acc` followed by the pass's snapshots. */
  function BubblePass(s: seq<int>, j: nat, limit: nat, acc: seq<seq<int>>): (r: (seq<int>, seq<seq<int>>))
    requires limit < |s|
    ensures |r.0| == |s|
    decreases limit - j
  {
    if j >= limit then (s, acc)
    else if s[j] > s[j + 1] then
      var t := Swapped(s, j, j + 1);
      BubblePass(t, j + 1, limit, acc + [t])
    else BubblePass(s, j + 1, limit, acc)
  }

  /** Passes `i`, `i + 1`, ... of bubble sort; pass `i` stops before the
      last `i` slots. */
  function BubbleRounds(s: seq<int>, i: nat, acc: seq<seq<int>>): (r: (seq<int>, seq<seq<int>>))
    decreases |s| - i
  {
    if i >= |s| then (s, acc)
    else
      var pass := BubblePass(s, 0, |s| - i - 1, acc);
      BubbleRounds(pass.0, i + 1, pass.1)
  }

  /** The snapshots bubble sort publishes over `input`, one per exchange. */
  function BubbleTrace(input: seq<int>): seq<seq<int>>
  {
    BubbleRounds(input, 0, []).1
  }

  /** One compare-and-exchange of a pass keeps its largest value moving up:
      with `s[j]` the largest so far, `t[j + 1]` is the largest after it. */
  lemma BubbleStep(s: seq<int>, j: nat, limit: nat, t: seq<int>)
    requires j < limit < |s|
    requires MaxAt(s, j) && SortedBetween(s, limit + 1, |s|) && Partitioned(s, limit + 1)
    requires t == if s[j] > s[j + 1] then Swapped(s, j, j + 1) else s
    ensures MaxAt(t, j + 1) && SortedBetween(t, limit + 1, |s|) && Partitioned(t, limit + 1)
  {
    if s[j] > s[j + 1] {
      forall p | 0 <= p <= j + 1
        ensures t[p] <= t[j + 1]
      {
        if p < j { assert t[p] == s[p]; }
      }
      forall p, q | 0 <= p < limit + 1 <= q < |s|
        ensures t[p] <= t[q]
      {
        if p == j { assert t[p] == s[j + 1]; }
        else if p == j + 1 { assert t[p] == s[j]; }
        else { assert t[p] == s[p]; }
      }
      forall p, q | limit + 1 <= p < q < |s|
        ensures t[p] <= t[q]
      {
        assert t[p] == s[p] && t[q] == s[q];
      }
    }
  }

  /** At the end of a pass the largest value of the prefix has reached
      slot `limit`, so the sorted suffix grows by one. */
  lemma BubblePassDone(s: seq<int>, limit: nat)
    requires limit < |s|
    requires MaxAt(s, limit) && SortedBetween(s, limit + 1, |s|) && Partitioned(s, limit + 1)
    ensures SortedBetween(s, limit, |s|) && Partitioned(s, limit)
  {
  }

  /** What holds of the working array and the published snapshots between
      two steps of bubble sort over `input`. */
  ghost predicate Published(s: seq<int>, acc: seq<seq<int>>, input: seq<int>) {
    multiset(s) == multiset(input) && Rearrangements(acc, input) && Shown(input, acc) == s
  }

  /** What the rest of a pass from `j` ends with: the pass's largest value
      at `limit`, in front of the sorted suffix, having published
      rearrangements only. */
  ghost predicate PassSorted(s: seq<int>, j: nat, limit: nat, acc: seq<seq<int>>, input: seq<int>)
    requires limit < |s|
  {
    var r := BubblePass(s, j, limit, acc);
    SortedBetween(r.0, limit, |s|) && Partitioned(r.0, limit) && Published(r.0, r.1, input)
  }

  /** The rest of a pass ends with the pass's largest value at `limit`,
      in front of the sorted suffix, and publishes rearrangements only. */
  lemma {:induction false} BubblePassSorts(s: seq<int>, j: nat, limit: nat, acc: seq<seq<int>>, input: seq<int>)
    requires j <= limit < |s|
    requires MaxAt(s, j) && SortedBetween(s, limit + 1, |s|) && Partitioned(s, limit + 1)
    requires Published(s, acc, input)
    ensures SortedBetween(BubblePass(s, j, limit, acc).0, limit, |s|)
    ensures Partitioned(BubblePass(s, j, limit, acc).0, limit)
    ensures Published(BubblePass(s, j, limit, acc).0, BubblePass(s, j, limit, acc).1, input)
    decreases limit - j, 1
  {
    if j >= limit {
      BubblePassDone(s, limit);
      assert BubblePass(s, j, limit, acc) == (s, acc);
    } else if s[j] > s[j + 1] {
      PassExchangeSorts(s, j, limit, acc, input);
    } else {
      PassKeepSorts(s, j, limit, acc, input);
    }
  }

  lemma {:induction false} PassExchangeSorts(s: seq<int>, j: nat, limit: nat, acc: seq<seq<int>>, input: seq<int>)
    requires j < limit < |s| && s[j] > s[j + 1]
    requires MaxAt(s, j) && SortedBetween(s, limit + 1, |s|) && Partitioned(s, limit + 1)
    requires Published(s, acc, input)
    ensures PassSorted(s, j, limit, acc, input)
    decreases limit - j, 0
  {
    var t := Swapped(s, j, j + 1);
    BubbleStep(s, j, limit, t);
    SwappedPermutes(s, j, j + 1);
    RearrangementsSnoc(acc, t, input);
    BubblePassSorts(t, j + 1, limit, acc + [t], input);
    BubblePassExchanges(s, j, limit, acc, t);
  }

  lemma {:induction false} PassKeepSorts(s: seq<int>, j: nat, limit: nat, acc: seq<seq<int>>, input: seq<int>)
    requires j < limit < |s| && s[j] <= s[j + 1]
    requires MaxAt(s, j) && SortedBetween(s, limit + 1, |s|) && Partitioned(s, limit + 1)
    requires Published(s, acc, input)
    ensures PassSorted(s, j, limit, acc, input)
    decreases limit - j, 0
  {
    BubbleStep(s, j, limit, s);
    BubblePassSorts(s, j + 1, limit, acc, input);
    BubblePassKeeps(s, j, limit, acc);
  }

  /** After pass `i - 1` the last `i` slots hold the largest values in
      their final order; the remaining passes finish the sort. */
  lemma {:induction false} BubbleRoundsSort(s: seq<int>, i: nat, acc: seq<seq<int>>, input: seq<int>)
    requires i <= |s|
    requires SortedBetween(s, |s| - i, |s|) && Partitioned(s, |s| - i)
    requires Published(s, acc, input)
    ensures Sorted(BubbleRounds(s, i, acc).0)
    ensures Published(BubbleRounds(s, i, acc).0, BubbleRounds(s, i, acc).1, input)
    decreases |s| - i
  {
    if i < |s| {
      var limit := |s| - i - 1;
      BubblePassSorts(s, 0, limit, acc, input);
      var pass := BubblePass(s, 0, limit, acc);
      assert |pass.0| - (i + 1) == limit;
      BubbleRoundsSort(pass.0, i + 1, pass.1, input);
      assert BubbleRounds(s, i, acc) == BubbleRounds(pass.0, i + 1, pass.1);
    } else {
      assert BubbleRounds(s, i, acc) == (s, acc);
    }
  }

  /** Bubble sort leaves `input` sorted, and each snapshot it publishes is
      a rearrangement of `input`. */
  lemma BubbleSortSorts(input: seq<int>)
    ensures Sorted(Shown(input, BubbleTrace(input)))
    ensures multiset(Shown(input, BubbleTrace(input))) == multiset(input)
    ensures Rearrangements(BubbleTrace(input), input)
  {
    BubbleRoundsSort(input, 0, [], input);
  }

  /** An array of one value or none gives bubble sort nothing to exchange. */
  lemma BubbleShort(input: seq<int>)
    requires |input| <= 1
    ensures BubbleTrace(input) == []
  {
    if |input| == 1 {
      assert BubblePass(input, 0, 0, []) == (input, []);
      assert BubbleRounds(input, 1, []) == (input, []);
      assert BubbleRounds(input, 0, []) == BubbleRounds(input, 1, []);
    }
  }

  /** A pass exchanges the pair at `j` when it is out of order, and
      publishes the result. */
  lemma BubblePassExchanges(s: seq<int>, j: nat, limit: nat, acc: seq<seq<int>>, t: seq<int>)
    requires j < limit < |s| && s[j] > s[j + 1] && t == Swapped(s, j, j + 1)
    ensures BubblePass(s, j, limit, acc) == BubblePass(t, j + 1, limit, acc + [t])
  {
  }

  /** A pass leaves a pair in order as it is, publishing nothing. */
  lemma BubblePassKeeps(s: seq<int>, j: nat, limit: nat, acc: seq<seq<int>>)
    requires j < limit < |s| && s[j] <= s[j + 1]
    ensures BubblePass(s, j, limit, acc) == BubblePass(s, j + 1, limit, acc)
  {
  }

  /** On `[5, 3, 4, 1]` bubble sort publishes exactly five snapshots. */
  lemma BubbleExample()
    ensures BubbleTrace([5, 3, 4, 1]) == [[3, 5, 4, 1], [3, 4, 5, 1], [3, 4, 1, 5], [3, 1, 4, 5], [1, 3, 4, 5]]
  {
    ExampleRounds([5, 3, 4, 1], [3, 5, 4, 1], [3, 4, 5, 1], [3, 4, 1, 5], [3, 1, 4, 5], [1, 3, 4, 5]);
  }

  /** The example pass by pass: the first carries 5 to the end in three
      exchanges, the second keeps 3 before 4 and exchanges 4 and 1, the
      third exchanges 3 and 1, the fourth compares nothing. */
  lemma ExampleRounds(s: seq<int>, a: seq<int>, b: seq<int>, c: seq<int>, d: seq<int>, e: seq<int>)
    requires s == [5, 3, 4, 1] && a == [3, 5, 4, 1] && b == [3, 4, 5, 1]
    requires c == [3, 4, 1, 5] && d == [3, 1, 4, 5] && e == [1, 3, 4, 5]
    ensures BubbleRounds(s, 0, []).1 == [a, b, c, d, e]
  {
    assert [] + [a] == [a] && [a] + [b] == [a, b] && [a, b] + [c] == [a, b, c];
    assert [a, b, c] + [d] == [a, b, c, d] && [a, b, c, d] + [e] == [a, b, c, d, e];
    assert Swapped(s, 0, 1) == a && Swapped(a, 1, 2) == b && Swapped(b, 2, 3) == c;
    assert Swapped(c, 1, 2) == d && Swapped(d, 0, 1) == e;
    BubblePassExchanges(s, 0, 3, [], a);
    BubblePassExchanges(a, 1, 3, [a], b);
    BubblePassExchanges(b, 2, 3, [a, b], c);
    BubblePassKeeps(c, 0, 2, [a, b, c]);
    BubblePassExchanges(c, 1, 2, [a, b, c], d);
    BubblePassExchanges(d, 0, 1, [a, b, c, d], e);
    assert BubbleRounds(s, 0, []) == BubbleRounds(c, 1, [a, b, c]);
    assert BubbleRounds(c, 1, [a, b, c]) == BubbleRounds(d, 2, [a, b, c, d]);
    assert BubbleRounds(d, 2, [a, b, c, d]) == BubbleRounds(e, 3, [a, b, c, d, e]);
  }

  // A sorted input: every sort shows it unchanged.

  /** Every snapshot is `s` itself. */
  ghost predicate AllSame(snaps: seq<seq<int>>, s: seq<int>) {
    forall k :: 0 <= k < |snaps| ==> snaps[k] == s
  }

  /** The array is still `s` and every snapshot of it was `s`. */
  ghost predicate Stays(a: seq<int>, s: seq<int>, snaps: seq<seq<int>>) {
    a == s && AllSame(snaps, s)
  }

  lemma AllSameAppend(a: seq<seq<int>>, b: seq<seq<int>>, s: seq<int>)
    requires AllSame(a, s) && AllSame(b, s)
    ensures AllSame(a + b, s)
  {
    assert forall k :: 0 <= k < |a + b| ==> (a + b)[k] == if k < |a| then a[k] else b[k - |a|];
  }

  /** On a sorted array a pass of bubble sort exchanges nothing. */
  lemma {:induction false} BubblePassSorted(s: seq<int>, j: nat, limit: nat, acc: seq<seq<int>>)
    requires limit < |s| && Sorted(s)
    ensures BubblePass(s, j, limit, acc) == (s, acc)
    decreases limit - j
  {
    if j < limit {
      BubblePassSorted(s, j + 1, limit, acc);
    }
  }

  lemma {:induction false} BubbleRoundsSorted(s: seq<int>, i: nat, acc: seq<seq<int>>)
    requires Sorted(s)
    ensures BubbleRounds(s, i, acc) == (s, acc)
    decreases |s| - i
  {
    if i < |s| {
      BubblePassSorted(s, 0, |s| - i - 1, acc);
      BubbleRoundsSorted(s, i + 1, acc);
    }
  }

  /** Bubble sort publishes nothing for a sorted input. */
  lemma BubbleSortedQuiet(input: seq<int>)
    requires Sorted(input)
    ensures BubbleTrace(input) == []
  {
    BubbleRoundsSorted(input, 0, []);
  }

  /** On a sorted array the smallest value of the rest is the next one, so
      `selectionSort` exchanges it with itself. */
  lemma SelectedInPlace(input: seq<int>, before: seq<int>, i: nat, minIdx: nat, trace: seq<seq<int>>, after: seq<int>)
    requires i <= minIdx < |before| && (forall p :: i <= p < minIdx ==> before[p] > before[minIdx])
    requires Sorted(input) ==> before == input && AllSame(trace, input)
    requires after == Swapped(before, i, minIdx)
    ensures Sorted(input) ==> after == input && AllSame(trace + [after], input)
  {
    assert minIdx > i ==> before[i] > before[minIdx];
    if Sorted(input) {
      assert after == before;
      AllSameAppend(trace, [after], input);
    }
  }

  /** A key not below the value before it stays where it is. */
  lemma KeyStays(s: seq<int>, i: nat, h: nat)
    requires 0 < i && KeyPlace(s, i, h) && s[i - 1] <= s[i]
    ensures h == i && Inserted(s, i, h) == s
  {
  }

  /** On a sorted array `insertionSort` shifts nothing and writes each key
      over itself. */
  lemma InsertedInPlace(input: seq<int>, before: seq<int>, i: nat, shifts: nat, trace: seq<seq<int>>,
                        snaps: seq<seq<int>>, after: seq<int>)
    requires 0 < i < |before| && shifts <= i && KeyPlace(before, i, i - shifts)
    requires after == Inserted(before, i, i - shifts) && |snaps| == shifts + 1 && snaps[shifts] == after
    requires Sorted(input) ==> before == input && AllSame(trace, input)
    ensures Sorted(input) ==> after == input && AllSame(trace + snaps, input)
  {
    if Sorted(input) {
      KeyStays(before, i, i - shifts);
      assert snaps == [after];
      AllSameAppend(trace, snaps, input);
    }
  }

  /** Runs in order merge to their concatenation. */
  lemma {:induction false} MergeFromInOrder(l: seq<int>, r: seq<int>, i: nat)
    requires i <= |l| && (r == [] || forall p :: i <= p < |l| ==> l[p] <= r[0])
    ensures MergeFrom(l, r, i, 0) == l[i..] + r
    decreases |l| - i
  {
    if i == |l| {
      assert l[i..] == [];
    } else if r == [] {
      assert l[i..] + r == l[i..];
    } else {
      MergeFromInOrder(l, r, i + 1);
      assert l[i..] == [l[i]] + l[i + 1..];
    }
  }

  /** The two halves of a sorted range merge back to the range. */
  lemma MergeOfSorted(s: seq<int>, start: nat, mid: nat, end: nat)
    requires start <= mid < end < |s| && SortedBetween(s, start, end + 1)
    ensures Merged(s[start..mid + 1], s[mid + 1..end + 1]) == s[start..end + 1]
  {
    var l, r := s[start..mid + 1], s[mid + 1..end + 1];
    assert forall p :: 0 <= p < |l| ==> l[p] == s[start + p] && l[p] <= r[0];
    MergeFromInOrder(l, r, 0);
    assert l[0..] == l;
    assert s[start..end + 1] == l + r;
  }

  /** Writing over a range what it already holds changes nothing. */
  lemma WrittenSame(s: seq<int>, start: nat, out: seq<int>, m: seq<int>)
    requires start + |m| <= |s| && m == s[start..start + |m|] && |out| <= |m| && out == m[..|out|]
    ensures Written(s, start, out) == s
  {
  }

  /** While `merge` writes each place of the range with the value it
      holds, the array and every snapshot are still `s`. */
  ghost predicate Unmoved(a: seq<int>, s: seq<int>, start: nat, left: seq<int>, right: seq<int>, snaps: seq<seq<int>>) {
    start + |left| + |right| <= |s| && Merged(left, right) == s[start..start + |left| + |right|] ==>
      Stays(a, s, snaps)
  }

  /** One write of `merge` keeps the range unmoved. */
  lemma UnmovedStep(a: seq<int>, s: seq<int>, start: nat, left: seq<int>, right: seq<int>,
                    i: nat, j: nat, out: seq<int>, snaps: seq<seq<int>>, u: seq<int>)
    requires Unmoved(a, s, start, left, right, snaps)
    requires Merging(u, s, start, left, right, i, j, out, snaps + [u])
    ensures Unmoved(u, s, start, left, right, snaps + [u])
  {
    var m := Merged(left, right);
    if m == s[start..start + |left| + |right|] {
      assert out == m[..|out|];
      WrittenSame(s, start, out, m);
      AllSameAppend(snaps, [u], s);
    }
  }

  /** `mergeSortHelper` over a sorted range: both halves are sorted
      already, and so is the range `merge` is given. */
  lemma MergeSortInPlace(s: seq<int>, a: seq<int>, b: seq<int>, c: seq<int>, start: nat, mid: nat, end: nat,
                         left: seq<seq<int>>, right: seq<seq<int>>, merged: seq<seq<int>>)
    requires start <= mid < end < |s|
    requires SortedBetween(s, start, mid + 1) ==> Stays(a, s, left)
    requires SortedBetween(a, mid + 1, end + 1) ==> Stays(b, a, right)
    requires SortedBetween(b, start, end + 1) ==> Stays(c, b, merged)
    ensures SortedBetween(s, start, end + 1) ==> Stays(c, s, left + right + merged)
  {
    if SortedBetween(s, start, end + 1) {
      assert SortedBetween(s, start, mid + 1);
      assert SortedBetween(a, mid + 1, end + 1);
      AllSameAppend(left, right, s);
      AllSameAppend(left + right, merged, s);
    }
  }

  /** On a sorted range every exchange in `partition`'s loop is of a value
      with itself. */
  lemma ScanningInPlace(a: seq<int>, s: seq<int>, low: int, i: int, j: int, high: int, pivot: int,
                        snaps: seq<seq<int>>, u: seq<int>)
    requires Scanning(a, s, low, i, j, high, pivot, snaps) && j < high && a[j] < pivot
    requires u == Swapped(a, i + 1, j)
    requires SortedBetween(s, low, high + 1) ==> Stays(a, s, snaps)
    ensures SortedBetween(s, low, high + 1) ==> Stays(u, s, snaps + [u])
  {
    if SortedBetween(s, low, high + 1) {
      assert i + 1 == j;
      AllSameAppend(snaps, [u], s);
    }
  }

  /** On a sorted range the pivot's exchange is of equal values. */
  lemma PlacedInPlace(t: seq<int>, s: seq<int>, low: int, i: int, high: int, pivot: int,
                      snaps: seq<seq<int>>, u: seq<int>)
    requires Scanning(t, s, low, i, high, high, pivot, snaps) && u == Swapped(t, i + 1, high)
    requires SortedBetween(s, low, high + 1) ==> Stays(t, s, snaps)
    ensures SortedBetween(s, low, high + 1) ==> Stays(u, s, snaps + [u])
  {
    if SortedBetween(s, low, high + 1) {
      assert t[i + 1] == t[high];
      AllSameAppend(snaps, [u], s);
    }
  }

  /** `quickSortHelper` over a sorted range: `partition` leaves it as it
      was, and both sides are sorted already. */
  lemma QuickSortInPlace(s: seq<int>, a: seq<int>, b: seq<int>, c: seq<int>, low: nat, p: nat, high: nat,
                         parted: seq<seq<int>>, below: seq<seq<int>>, above: seq<seq<int>>)
    requires low <= p <= high < |s|
    requires SortedBetween(s, low, high + 1) ==> Stays(a, s, parted)
    requires SortedBetween(a, low, p) ==> Stays(b, a, below)
    requires SortedBetween(b, p + 1, high + 1) ==> Stays(c, b, above)
    ensures SortedBetween(s, low, high + 1) ==> Stays(c, s, parted + below + above)
  {
    if SortedBetween(s, low, high + 1) {
      assert SortedBetween(a, low, p);
      assert SortedBetween(b, p + 1, high + 1);
      AllSameAppend(parted, below, s);
      AllSameAppend(parted + below, above, s);
    }
  }

  // The states the sorts' loops keep, and one step of each.

  /** `selectionSort` after `i` steps: the first `i` slots hold the `i`
      smallest values in order, the array is a rearrangement of the input,
      and one snapshot per step is published, the last being the array. A
      sorted input has not moved. */
  ghost predicate Selecting(input: seq<int>, a: seq<int>, i: nat, trace: seq<seq<int>>) {
    && SortedBetween(a, 0, i) && Partitioned(a, i)
    && multiset(a) == multiset(input) && Rearrangements(trace, input)
    && |trace| == i && Shown(input, trace) == a
    && (Sorted(input) ==> a == input && AllSame(trace, input))
  }

  /** Exchanging the first smallest value of the rest into slot `i` and
      publishing keeps the state of `selectionSort`. */
  lemma SelectingStep(input: seq<int>, before: seq<int>, i: nat, minIdx: nat, trace: seq<seq<int>>, after: seq<int>)
    requires Selecting(input, before, i, trace)
    requires i <= minIdx < |before| && MinAt(before, i, |before|, minIdx)
    requires forall p :: i <= p < minIdx ==> before[p] > before[minIdx]
    requires after == Swapped(before, i, minIdx)
    ensures Selecting(input, after, i + 1, trace + [after])
  {
    SelectionStep(before, i, minIdx);
    SwappedPermutes(before, i, minIdx);
    SelectedInPlace(input, before, i, minIdx, trace, after);
    RearrangementsSnoc(trace, after, input);
  }

  /** `insertionSort` before key `i`: the slots before it are sorted, the
      array is a rearrangement of the input and is what was last shown. A
      sorted input has not moved. */
  ghost predicate Inserting(input: seq<int>, a: seq<int>, i: nat, trace: seq<seq<int>>) {
    && SortedBetween(a, 0, i) && multiset(a) == multiset(input)
    && Shown(input, trace) == a
    && (Sorted(input) ==> a == input && AllSame(trace, input))
  }

  /** Carrying key `i` down and publishing keeps the state of
      `insertionSort`. */
  lemma InsertingStep(input: seq<int>, before: seq<int>, i: nat, shifts: nat, trace: seq<seq<int>>,
                      snaps: seq<seq<int>>, after: seq<int>)
    requires Inserting(input, before, i, trace)
    requires 0 < i < |before| && shifts <= i && KeyPlace(before, i, i - shifts)
    requires after == Inserted(before, i, i - shifts) && |snaps| == shifts + 1 && snaps[shifts] == after
    ensures Inserting(input, after, i + 1, trace + snaps)
  {
    InsertedSorted(before, i, i - shifts);
    InsertedPermutes(before, i, i - shifts);
    InsertedInPlace(input, before, i, shifts, trace, snaps, after);
    ShownAppend(input, trace, snaps);
  }

  /** The three steps of `mergeSortHelper(arr, start, end)` over `s`: `a`
      has the left half sorted, `b` the right half too, and `c` is `b` with
      the range merged. Together they sort the range, only rearrange it,
      and publish `MergeSnapshots(start, end)` snapshots, the last being
      `c`; a sorted range is left as it was. */
  lemma MergeSortStep(s: seq<int>, a: seq<int>, b: seq<int>, c: seq<int>, start: nat, mid: nat, end: nat,
                      left: seq<seq<int>>, right: seq<seq<int>>, merged: seq<seq<int>>)
    requires start <= mid < end < |s| && mid == (start + end) / 2
    requires SortedBetween(a, start, mid + 1) && SameOutside(a, s, start, mid + 1) && multiset(a) == multiset(s)
    requires |left| == MergeSnapshots(start, mid) && Shown(s, left) == a
    requires SortedBetween(s, start, mid + 1) ==> Stays(a, s, left)
    requires SortedBetween(b, mid + 1, end + 1) && SameOutside(b, a, mid + 1, end + 1) && multiset(b) == multiset(a)
    requires |right| == MergeSnapshots(mid + 1, end) && Shown(a, right) == b
    requires SortedBetween(a, mid + 1, end + 1) ==> Stays(b, a, right)
    requires c == Written(b, start, Merged(b[start..mid + 1], b[mid + 1..end + 1]))
    requires |merged| == end - start + 1 && Shown(b, merged) == c
    requires SortedBetween(b, start, end + 1) ==> Stays(c, b, merged)
    ensures SortedBetween(c, start, end + 1) && SameOutside(c, s, start, end + 1) && multiset(c) == multiset(s)
    ensures |left + right + merged| == MergeSnapshots(start, end) && Shown(s, left + right + merged) == c
    ensures SortedBetween(s, start, end + 1) ==> Stays(c, s, left + right + merged)
  {
    MergeSortSorts(a, b, c, start, mid, end);
    MergeSortKeeps(s, a, b, c, start, mid, end);
    ShownAppend(s, left, right);
    ShownAppend(s, left + right, merged);
    MergeSortInPlace(s, a, b, c, start, mid, end, left, right, merged);
  }
}
