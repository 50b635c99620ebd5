/** The five sorts of the sorting component, each run over a copy of the
    shown array, each publishing snapshots of its working array as it goes.
    A snapshot is `setArray([...arr])`; the pause after it belongs to the
    component state in `SortingComponent`. */
module Sorting {
  import opened SortOrder

  /** `[arr[i], arr[j]] = [arr[j], arr[i]]` on the working array. */
  method Exchange(arr: array<int>, i: nat, j: nat)
    requires i < arr.Length && j < arr.Length
    modifies arr
    ensures arr[..] == Swapped(old(arr[..]), i, j)
  {
    arr[i], arr[j] := arr[j], arr[i];
  }

  /** `bubbleSort`: passes of adjacent compare-and-exchange over a copy of
      the shown array, publishing after each exchange. */
  method BubbleSort(input: seq<int>) returns (trace: seq<seq<int>>)
    ensures trace == BubbleTrace(input)
    ensures Sorted(Shown(input, trace)) && multiset(Shown(input, trace)) == multiset(input)
    ensures Rearrangements(trace, input)
    ensures Sorted(input) ==> trace == []
  {
    var arr := new int[|input|](k requires 0 <= k < |input| => input[k]);
    var n := arr.Length;
    assert arr[..] == input;
    trace := [];
    for i := 0 to n
      invariant BubbleRounds(arr[..], i, trace) == BubbleRounds(input, 0, [])
    {
      ghost var start, before := arr[..], trace;
      var j := 0;
      while j < n - i - 1
        invariant 0 <= j <= n - i - 1
        invariant BubblePass(arr[..], j, n - i - 1, trace) == BubblePass(start, 0, n - i - 1, before)
      {
        if arr[j] > arr[j + 1] {
          Exchange(arr, j, j + 1);
          trace := trace + [arr[..]];
        }
        j := j + 1;
      }
    }
    BubbleSortSorts(input);
    if Sorted(input) {
      BubbleSortedQuiet(input);
    }
  }

  /** `selectionSort`: each step exchanges a smallest value of the rest
      into the next slot and publishes, even when the exchange is with
      itself. */
  method SelectionSort(input: seq<int>) returns (trace: seq<seq<int>>)
    ensures |trace| == |input|
    ensures Sorted(Shown(input, trace)) && multiset(Shown(input, trace)) == multiset(input)
    ensures Rearrangements(trace, input)
    ensures Sorted(input) ==> AllSame(trace, input)
  {
    var arr := new int[|input|](k requires 0 <= k < |input| => input[k]);
    var n := arr.Length;
    assert arr[..] == input;
    trace := [];
    for i := 0 to n
      invariant Selecting(input, arr[..], i, trace)
    {
      SelectStep(arr, i, input, trace);
      trace := trace + [arr[..]];
    }
    assert SortedBetween(arr[..], 0, n);
  }

  /** One step of `selectionSort`: a smallest value of `arr[i..]`, the
      first one found, is exchanged into slot `i`. */
  method SelectStep(arr: array<int>, i: nat, ghost input: seq<int>, ghost trace: seq<seq<int>>)
    requires i < arr.Length && Selecting(input, arr[..], i, trace)
    modifies arr
    ensures Selecting(input, arr[..], i + 1, trace + [arr[..]])
  {
    var minIdx := SmallestFrom(arr, i);
    ghost var before := arr[..];
    Exchange(arr, i, minIdx);
    SelectingStep(input, before, i, minIdx, trace, arr[..]);
  }

  /** `selectionSort`'s inner loop: the index of the first smallest value
      of `arr[i..]`. */
  method SmallestFrom(arr: array<int>, i: nat) returns (minIdx: nat)
    requires i < arr.Length
    ensures i <= minIdx < arr.Length && MinAt(arr[..], i, arr.Length, minIdx)
    ensures forall p :: i <= p < minIdx ==> arr[p] > arr[minIdx]
  {
    minIdx := i;
    for j := i + 1 to arr.Length
      invariant i <= minIdx < j && MinAt(arr[..], i, j, minIdx)
      invariant forall p :: i <= p < minIdx ==> arr[p] > arr[minIdx]
    {
      if arr[j] < arr[minIdx] {
        minIdx := j;
      }
    }
  }

  /** `insertionSort`: each key from the second on is carried down past the
      larger values before it, publishing after each shift and after the
      key is placed. */
  method InsertionSort(input: seq<int>) returns (trace: seq<seq<int>>)
    ensures Sorted(Shown(input, trace)) && multiset(Shown(input, trace)) == multiset(input)
    ensures |input| <= 1 ==> trace == []
    ensures Sorted(input) ==> AllSame(trace, input)
  {
    var arr := new int[|input|](k requires 0 <= k < |input| => input[k]);
    var n := arr.Length;
    assert arr[..] == input;
    trace := [];
    var i := 1;
    while i < n
      invariant 1 <= i <= n || n == 0
      invariant Inserting(input, arr[..], i, trace)
      invariant n <= 1 ==> trace == []
    {
      var snaps := InsertStep(arr, i, input, trace);
      trace := trace + snaps;
      i := i + 1;
    }
    assert SortedBetween(arr[..], 0, n);
  }

  /** One pass of `insertionSort`'s outer loop, for the key at `i`. */
  method InsertStep(arr: array<int>, i: nat, ghost input: seq<int>, ghost trace: seq<seq<int>>)
      returns (snaps: seq<seq<int>>)
    requires 0 < i < arr.Length && Inserting(input, arr[..], i, trace)
    modifies arr
    ensures Inserting(input, arr[..], i + 1, trace + snaps)
  {
    ghost var before := arr[..];
    var shifts;
    shifts, snaps := InsertKey(arr, i);
    InsertingStep(input, before, i, shifts, trace, snaps, arr[..]);
  }

  /** One step of `insertionSort`: the key `arr[i]` is carried down past
      the `shifts` larger values before it. Each shift publishes a snapshot
      that holds a shifted value twice and lacks the key, so it is no
      rearrangement; placing the key publishes the one that is. */
  method InsertKey(arr: array<int>, i: nat) returns (shifts: nat, snaps: seq<seq<int>>)
    requires 0 < i < arr.Length
    modifies arr
    ensures shifts <= i && KeyPlace(old(arr[..]), i, i - shifts)
    ensures arr[..] == Inserted(old(arr[..]), i, i - shifts)
    ensures |snaps| == shifts + 1 && snaps[shifts] == arr[..]
    ensures NoneRearranges(snaps[..shifts], old(arr[..]))
  {
    ghost var s := arr[..];
    var key := arr[i];
    var j := i - 1;
    snaps := [];
    HoleAtKey(s, i);
    while j >= 0 && arr[j] > key
      invariant -1 <= j < i && arr[..] == Hole(s, i, j + 1)
      invariant Above(s, i, j + 1)
      invariant |snaps| == i - 1 - j && NoneRearranges(snaps, s)
      decreases j
    {
      HoleShift(s, i, j + 1);
      AboveGrows(s, i, j + 1);
      arr[j + 1] := arr[j];
      j := j - 1;
      HoleLosesKey(s, i, j + 1);
      NoneRearrangesSnoc(snaps, arr[..], s);
      snaps := snaps + [arr[..]];
    }
    HoleFilled(s, i, j + 1);
    arr[j + 1] := key;
    shifts := i - 1 - j;
    ghost var shifting := snaps;
    snaps := snaps + [arr[..]];
    assert snaps[..shifts] == shifting;
  }

  /** `merge(arr, start, mid, end)`: the runs `arr[start..mid]` and
      `arr[mid+1..end]` are copied out and merged back over the range,
      publishing after each value written. Once one run is used up, the
      rest of the other is copied. */
  method Merge(arr: array<int>, start: nat, mid: nat, end: nat) returns (snaps: seq<seq<int>>)
    requires start <= mid < end < arr.Length
    modifies arr
    ensures arr[..] == Written(old(arr[..]), start, Merged(old(arr[..])[start..mid + 1], old(arr[..])[mid + 1..end + 1]))
    ensures |snaps| == end - start + 1 && Shown(old(arr[..]), snaps) == arr[..]
    ensures SortedBetween(old(arr[..]), start, end + 1) ==> Stays(arr[..], old(arr[..]), snaps)
  {
    var left, right := arr[start..mid + 1], arr[mid + 1..end + 1];
    ghost var s := arr[..];
    var i, j;
    ghost var out;
    i, j, snaps, out := MergeHeads(arr, left, right, start);
    i, snaps, out := CopyLeft(arr, left, right, start, i, j, s, out, snaps);
    j, snaps, out := CopyRight(arr, left, right, start, i, j, s, out, snaps);
    MergeDone(arr[..], s, start, mid, end, left, right, out, snaps);
  }

  /** `merge`'s first loop: while both runs have values left, write the
      smaller head, the left one on a tie. */
  method MergeHeads(arr: array<int>, left: seq<int>, right: seq<int>, start: nat)
      returns (i: nat, j: nat, snaps: seq<seq<int>>, ghost out: seq<int>)
    requires start + |left| + |right| <= arr.Length
    modifies arr
    ensures Merging(arr[..], old(arr[..]), start, left, right, i, j, out, snaps)
    ensures i == |left| || j == |right|
    ensures Unmoved(arr[..], old(arr[..]), start, left, right, snaps)
  {
    ghost var s := arr[..];
    out := [];
    var k := start;
    i, j := 0, 0;
    snaps := [];
    WrittenNothing(s, start);
    while i < |left| && j < |right|
      invariant k == start + i + j && Merging(arr[..], s, start, left, right, i, j, out, snaps)
      invariant Unmoved(arr[..], s, start, left, right, snaps)
      decreases |left| + |right| - i - j
    {
      i, j, snaps, out := MergeStep(arr, left, right, start, i, j, s, out, snaps);
      k := k + 1;
    }
  }

  /** One pass of `merge`'s first loop: the smaller head, the left one on a
      tie, is written at `k` and that run advances. */
  method MergeStep(arr: array<int>, left: seq<int>, right: seq<int>, start: nat, i: nat, j: nat,
                   ghost s: seq<int>, ghost out: seq<int>, snaps: seq<seq<int>>)
      returns (i': nat, j': nat, snaps': seq<seq<int>>, ghost out': seq<int>)
    requires i < |left| && j < |right| && Merging(arr[..], s, start, left, right, i, j, out, snaps)
    requires Unmoved(arr[..], s, start, left, right, snaps)
    modifies arr
    ensures Merging(arr[..], s, start, left, right, i', j', out', snaps')
    ensures Unmoved(arr[..], s, start, left, right, snaps')
    ensures i' + j' == i + j + 1
  {
    ghost var a := arr[..];
    var k := start + i + j;
    if left[i] <= right[j] {
      MergingLeft(a, s, start, left, right, i, j, out, snaps);
      arr[k] := left[i];
      i', j', out' := i + 1, j, out + [left[i]];
    } else {
      MergingRight(a, s, start, left, right, i, j, out, snaps);
      arr[k] := right[j];
      i', j', out' := i, j + 1, out + [right[j]];
    }
    snaps' := snaps + [arr[..]];
    UnmovedStep(a, s, start, left, right, i', j', out', snaps, arr[..]);
  }

  /** `merge`'s second loop, `while (i < left.length) arr[k++] = left[i++]`,
      publishing after each value copied. */
  method CopyLeft(arr: array<int>, left: seq<int>, right: seq<int>, start: nat, i: nat, j: nat,
                  ghost s: seq<int>, ghost out: seq<int>, snaps: seq<seq<int>>)
      returns (i': nat, snaps': seq<seq<int>>, ghost out': seq<int>)
    requires Merging(arr[..], s, start, left, right, i, j, out, snaps) && (i == |left| || j == |right|)
    requires Unmoved(arr[..], s, start, left, right, snaps)
    modifies arr
    ensures i' == |left| && Merging(arr[..], s, start, left, right, i', j, out', snaps')
    ensures Unmoved(arr[..], s, start, left, right, snaps')
  {
    var k := start + i + j;
    i', snaps', out' := i, snaps, out;
    while i' < |left|
      invariant k == start + i' + j && Merging(arr[..], s, start, left, right, i', j, out', snaps')
      invariant i' == |left| || j == |right|
      invariant Unmoved(arr[..], s, start, left, right, snaps')
      decreases |left| - i'
    {
      ghost var a := arr[..];
      MergingLeft(a, s, start, left, right, i', j, out', snaps');
      arr[k] := left[i'];
      out' := out' + [left[i']];
      i', k := i' + 1, k + 1;
      UnmovedStep(a, s, start, left, right, i', j, out', snaps', arr[..]);
      snaps' := snaps' + [arr[..]];
    }
  }

  /** `merge`'s third loop, `while (j < right.length) arr[k++] = right[j++]`,
      publishing after each value copied. */
  method CopyRight(arr: array<int>, left: seq<int>, right: seq<int>, start: nat, i: nat, j: nat,
                   ghost s: seq<int>, ghost out: seq<int>, snaps: seq<seq<int>>)
      returns (j': nat, snaps': seq<seq<int>>, ghost out': seq<int>)
    requires Merging(arr[..], s, start, left, right, i, j, out, snaps) && i == |left|
    requires Unmoved(arr[..], s, start, left, right, snaps)
    modifies arr
    ensures j' == |right| && Merging(arr[..], s, start, left, right, i, j', out', snaps')
    ensures Unmoved(arr[..], s, start, left, right, snaps')
  {
    var k := start + i + j;
    j', snaps', out' := j, snaps, out;
    while j' < |right|
      invariant k == start + i + j' && Merging(arr[..], s, start, left, right, i, j', out', snaps')
      invariant Unmoved(arr[..], s, start, left, right, snaps')
      decreases |right| - j'
    {
      ghost var a := arr[..];
      MergingRight(a, s, start, left, right, i, j', out', snaps');
      arr[k] := right[j'];
      out' := out' + [right[j']];
      j', k := j' + 1, k + 1;
      UnmovedStep(a, s, start, left, right, i, j', out', snaps', arr[..]);
      snaps' := snaps' + [arr[..]];
    }
  }

  /** `mergeSortHelper(arr, start, end)`: a range of one value or none is
      left alone; otherwise both halves are sorted and merged. */
  method MergeSortRange(arr: array<int>, start: int, end: int) returns (snaps: seq<seq<int>>)
    requires 0 <= start <= end + 1 <= arr.Length
    modifies arr
    ensures SortedBetween(arr[..], start, end + 1)
    ensures SameOutside(arr[..], old(arr[..]), start, end + 1) && multiset(arr[..]) == multiset(old(arr[..]))
    ensures |snaps| == MergeSnapshots(start, end) && Shown(old(arr[..]), snaps) == arr[..]
    ensures SortedBetween(old(arr[..]), start, end + 1) ==> Stays(arr[..], old(arr[..]), snaps)
    decreases end - start
  {
    if start >= end {
      return [];
    }
    ghost var s := arr[..];
    var mid := (start + end) / 2;
    var left := MergeSortRange(arr, start, mid);
    ghost var a := arr[..];
    var right := MergeSortRange(arr, mid + 1, end);
    ghost var b := arr[..];
    var merged := Merge(arr, start, mid, end);
    MergeSortStep(s, a, b, arr[..], start, mid, end, left, right, merged);
    snaps := left + right + merged;
  }

  /** `mergeSort`: `mergeSortHelper` over the whole copy. */
  method MergeSort(input: seq<int>) returns (trace: seq<seq<int>>)
    ensures Sorted(Shown(input, trace)) && multiset(Shown(input, trace)) == multiset(input)
    ensures |trace| == MergeSnapshots(0, |input| - 1)
    ensures Sorted(input) ==> AllSame(trace, input)
  {
    var arr := new int[|input|](k requires 0 <= k < |input| => input[k]);
    assert arr[..] == input;
    trace := MergeSortRange(arr, 0, arr.Length - 1);
    assert SortedBetween(arr[..], 0, arr.Length);
  }

  /** `partition(arr, low, high)`: Lomuto's scheme around the last value of
      the range, publishing after each exchange, the last one putting the
      pivot in its place. */
  method Partition(arr: array<int>, low: nat, high: nat) returns (p: nat, snaps: seq<seq<int>>)
    requires low < high < arr.Length
    modifies arr
    ensures low <= p <= high && arr[p] == old(arr[high])
    ensures AllBelow(arr[..], low, p, arr[p]) && NoneBelow(arr[..], p + 1, high + 1, arr[p])
    ensures SameOutside(arr[..], old(arr[..]), low, high + 1) && multiset(arr[..]) == multiset(old(arr[..]))
    ensures |snaps| == p - low + 1 && Rearrangements(snaps, old(arr[..])) && Shown(old(arr[..]), snaps) == arr[..]
    ensures SortedBetween(old(arr[..]), low, high + 1) ==> Stays(arr[..], old(arr[..]), snaps)
  {
    ghost var s := arr[..];
    var pivot := arr[high];
    var i, scanned := ScanBelow(arr, low, high, pivot);
    ghost var t := arr[..];
    Placed(t, s, low, i, high, pivot, scanned, Swapped(t, i + 1, high));
    p := i + 1;
    Exchange(arr, p, high);
    PlacedInPlace(t, s, low, i, high, pivot, scanned, arr[..]);
    snaps := scanned + [arr[..]];
  }

  /** `partition`'s loop: each value below `pivot` is exchanged to the end
      of the run of such values at the front of the range. */
  method ScanBelow(arr: array<int>, low: nat, high: nat, pivot: int) returns (i: int, snaps: seq<seq<int>>)
    requires low < high < arr.Length && arr[high] == pivot
    modifies arr
    ensures Scanning(arr[..], old(arr[..]), low, i, high, high, pivot, snaps)
    ensures SortedBetween(old(arr[..]), low, high + 1) ==> Stays(arr[..], old(arr[..]), snaps)
  {
    ghost var s := arr[..];
    ScanningStart(s, low, high);
    i := low - 1;
    snaps := [];
    for j := low to high
      invariant Scanning(arr[..], s, low, i, j, high, pivot, snaps)
      invariant SortedBetween(s, low, high + 1) ==> Stays(arr[..], s, snaps)
    {
      i, snaps := ScanStep(arr, low, i, j, high, pivot, s, snaps);
    }
  }

  /** One pass of `partition`'s loop at `j`: a value below `pivot` is
      exchanged to the end of the run of such values and published. */
  method ScanStep(arr: array<int>, low: nat, i: int, j: nat, high: nat, pivot: int,
                  ghost s: seq<int>, snaps: seq<seq<int>>) returns (i': int, snaps': seq<seq<int>>)
    requires j < high && Scanning(arr[..], s, low, i, j, high, pivot, snaps)
    requires SortedBetween(s, low, high + 1) ==> Stays(arr[..], s, snaps)
    modifies arr
    ensures Scanning(arr[..], s, low, i', j + 1, high, pivot, snaps')
    ensures SortedBetween(s, low, high + 1) ==> Stays(arr[..], s, snaps')
  {
    ghost var a := arr[..];
    if arr[j] < pivot {
      i' := i + 1;
      Exchange(arr, i', j);
      ScanningSwap(a, s, low, i, j, high, pivot, snaps, arr[..]);
      ScanningInPlace(a, s, low, i, j, high, pivot, snaps, arr[..]);
      snaps' := snaps + [arr[..]];
    } else {
      ScanningKeep(a, s, low, i, j, high, pivot, snaps);
      i', snaps' := i, snaps;
    }
  }

  /** `quickSortHelper(arr, low, high)`: a range of one value or none is
      left alone; otherwise it is partitioned and both sides sorted. */
  method QuickSortRange(arr: array<int>, low: int, high: int) returns (snaps: seq<seq<int>>)
    requires 0 <= low <= high + 1 <= arr.Length
    modifies arr
    ensures SortedBetween(arr[..], low, high + 1)
    ensures SameOutside(arr[..], old(arr[..]), low, high + 1) && multiset(arr[..]) == multiset(old(arr[..]))
    ensures Rearrangements(snaps, old(arr[..])) && Shown(old(arr[..]), snaps) == arr[..]
    ensures low >= high ==> snaps == []
    ensures SortedBetween(old(arr[..]), low, high + 1) ==> Stays(arr[..], old(arr[..]), snaps)
    decreases high - low
  {
    if low >= high {
      return [];
    }
    ghost var s := arr[..];
    var pi, parted := Partition(arr, low, high);
    ghost var a := arr[..];
    var below := QuickSortRange(arr, low, pi as int - 1);
    ghost var b := arr[..];
    var above := QuickSortRange(arr, pi + 1, high);
    QuickSortStep(a, b, arr[..], low, pi, high);
    SameOutsideJoin(arr[..], a, s, low, high + 1, low, high + 1, low, high + 1);
    RearrangementsOf(below, a, s);
    RearrangementsOf(above, b, s);
    RearrangementsAppend(parted, below, s);
    RearrangementsAppend(parted + below, above, s);
    ShownAppend(s, parted, below);
    ShownAppend(s, parted + below, above);
    QuickSortInPlace(s, a, b, arr[..], low, pi, high, parted, below, above);
    snaps := parted + below + above;
  }

  /** `quickSort`: `quickSortHelper` over the whole copy. */
  method QuickSort(input: seq<int>) returns (trace: seq<seq<int>>)
    ensures Sorted(Shown(input, trace)) && multiset(Shown(input, trace)) == multiset(input)
    ensures Rearrangements(trace, input)
    ensures |input| <= 1 ==> trace == []
    ensures Sorted(input) ==> AllSame(trace, input)
  {
    var arr := new int[|input|](k requires 0 <= k < |input| => input[k]);
    assert arr[..] == input;
    trace := QuickSortRange(arr, 0, arr.Length - 1);
    assert SortedBetween(arr[..], 0, arr.Length);
  }
}
