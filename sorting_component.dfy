/** The sorting component's own state: the shown array, the selected
    algorithm and the `isSorting` flag. A run of a sort is what
    `handleSort` starts and the pauses after its snapshots carry on. */
module SortingComponent {
  import opened SortOrder
  import Sorting

  /** The five entries of `ALGORITHMS`. */
  datatype Algorithm = Bubble | Selection | Insertion | Merge | Quick

  /** What the sort `algo` promises of the snapshots `trace` it publishes
      over `input`: the last one shown is sorted and a rearrangement of
      `input`; bubble sort publishes exactly `BubbleTrace(input)`,
      selection sort one snapshot per slot, merge sort one per value
      written; the sorts that only exchange publish rearrangements only;
      every sort but selection sort publishes nothing for fewer than two
      values; and every snapshot of a sorted input is that input. */
  ghost predicate Outcome(algo: Algorithm, input: seq<int>, trace: seq<seq<int>>) {
    && Sorted(Shown(input, trace)) && multiset(Shown(input, trace)) == multiset(input)
    && (algo == Bubble ==> trace == BubbleTrace(input))
    && (algo == Selection ==> |trace| == |input|)
    && (algo == Merge ==> |trace| == MergeSnapshots(0, |input| - 1))
    && (algo == Bubble || algo == Selection || algo == Quick ==> Rearrangements(trace, input))
    && (algo != Selection && |input| <= 1 ==> trace == [])
    && (Sorted(input) ==> AllSame(trace, input))
  }

  /** `handleSort`'s dispatch on `selectedAlgo`: the chosen sort over a copy
      of the shown array. */
  method Run(algo: Algorithm, input: seq<int>) returns (trace: seq<seq<int>>)
    ensures Outcome(algo, input, trace)
  {
    match algo
    case Bubble =>
      trace := Sorting.BubbleSort(input);
      if |input| <= 1 {
        BubbleShort(input);
      }
    case Selection =>
      trace := Sorting.SelectionSort(input);
    case Insertion =>
      trace := Sorting.InsertionSort(input);
    case Merge =>
      trace := Sorting.MergeSort(input);
    case Quick =>
      trace := Sorting.QuickSort(input);
  }

  /** Thirty values of `Math.floor(Math.random() * 300) + 20`. */
  ghost predicate Drawn(values: seq<int>) {
    |values| == 30 && forall k :: 0 <= k < |values| ==> 20 <= values[k] < 320
  }

  /** The shown array is the latest snapshot of the run, the pending ones
      are the rest, and the run keeps the promises of the selected sort. */
  ghost predicate Showing(algo: Algorithm, started: seq<int>, run: seq<seq<int>>, shown: seq<int>, pending: seq<seq<int>>) {
    && |pending| < |run| && pending == run[|run| - |pending|..]
    && shown == run[|run| - |pending| - 1]
    && Outcome(algo, started, run)
  }

  /** Moving on to the next pending snapshot stays at a snapshot of the run. */
  lemma ShowNext(algo: Algorithm, started: seq<int>, run: seq<seq<int>>, shown: seq<int>, pending: seq<seq<int>>)
    requires Showing(algo, started, run, shown, pending) && pending != []
    ensures Showing(algo, started, run, pending[0], pending[1..])
  {
    assert pending[1..] == run[|run| - |pending| + 1..];
  }

  class SortingVisualizer {
    /** The state `array`, drawn as bars. */
    var shownArray: seq<int>
    var selectedAlgo: Algorithm
    var isSorting: bool
    /** The snapshots of the running sort not yet shown. */
    var pending: seq<seq<int>>
    /** The array the running sort started from, and all it publishes. */
    ghost var started: seq<int>
    ghost var run: seq<seq<int>>

    /** Outside a run nothing is pending; during one, the screen is at a
        snapshot of the run. */
    ghost predicate Valid()
      reads this
    {
      && (!isSorting ==> pending == [])
      && (isSorting ==> Showing(selectedAlgo, started, run, shownArray, pending))
    }

    /** The component mounts with `ALGORITHMS[0]` selected and, through its
        first effect, a freshly drawn array. */
    constructor (values: seq<int>)
      requires Drawn(values)
      ensures Valid() && shownArray == values && selectedAlgo == Bubble && !isSorting
    {
      shownArray := values;
      selectedAlgo := Bubble;
      isSorting := false;
      pending := [];
      started := values;
      run := [];
    }

    /** `generateArray`: ignored during a run, otherwise a freshly drawn
        array is shown. */
    method GenerateArray(values: seq<int>)
      requires Valid() && Drawn(values)
      modifies this
      ensures Valid()
      ensures shownArray == if old(isSorting) then old(shownArray) else values
      ensures isSorting == old(isSorting) && pending == old(pending) && selectedAlgo == old(selectedAlgo)
    {
      if isSorting {
        return;
      }
      shownArray := values;
    }

    /** The algorithm `<select>`, which is disabled during a run. */
    method SelectAlgorithm(algo: Algorithm)
      requires Valid()
      modifies this
      ensures Valid()
      ensures selectedAlgo == if old(isSorting) then old(selectedAlgo) else algo
      ensures shownArray == old(shownArray) && isSorting == old(isSorting) && pending == old(pending)
    {
      if isSorting {
        return;
      }
      selectedAlgo := algo;
    }

    /** `handleSort`: ignored during a run. Otherwise the selected sort runs
        over a copy of the shown array up to its first pause, which follows
        its first snapshot; a sort that publishes nothing never pauses and
        ends at once, leaving the array and `isSorting` as they were. */
    method HandleSort()
      requires Valid()
      modifies this
      ensures Valid() && selectedAlgo == old(selectedAlgo)
      ensures old(isSorting) ==> isSorting && shownArray == old(shownArray) && pending == old(pending)
      ensures !old(isSorting) ==> started == old(shownArray) && Outcome(selectedAlgo, old(shownArray), run)
      ensures !old(isSorting) && run == [] ==> !isSorting && shownArray == old(shownArray)
      ensures !old(isSorting) && run != [] ==> isSorting && shownArray == run[0] && pending == run[1..]
    {
      if isSorting {
        return;
      }
      var trace := Run(selectedAlgo, shownArray);
      started, run := shownArray, trace;
      if trace == [] {
        return;
      }
      shownArray := trace[0];
      pending := trace[1..];
      isSorting := true;
    }

    /** The pause after the shown snapshot ends: the sort runs on to its next
        snapshot, or to its end, clearing `isSorting` and leaving the array
        sorted. */
    method Resume()
      requires Valid() && isSorting
      modifies this
      ensures Valid() && selectedAlgo == old(selectedAlgo) && started == old(started) && run == old(run)
      ensures old(pending) == [] ==> !isSorting && shownArray == old(shownArray)
      ensures old(pending) == [] ==> Sorted(shownArray) && multiset(shownArray) == multiset(started)
      ensures old(pending) != [] ==> isSorting && shownArray == old(pending)[0] && pending == old(pending)[1..]
    {
      RunEnds();
      if pending == [] {
        isSorting := false;
      } else {
        ShowNext(selectedAlgo, started, run, shownArray, pending);
        shownArray := pending[0];
        pending := pending[1..];
      }
    }

    /** What a run leaves on screen once every pending snapshot is shown:
        the array it started from, sorted. */
    lemma RunEnds()
      requires Valid() && isSorting
      ensures Sorted(Shown(shownArray, pending)) && multiset(Shown(shownArray, pending)) == multiset(started)
    {
      assert Shown(shownArray, pending) == run[|run| - 1];
    }

    /** During a run of a sort that only exchanges, the shown array is
        always a rearrangement of the one the run started from. */
    lemma ShownRearranges()
      requires Valid() && isSorting
      requires selectedAlgo == Bubble || selectedAlgo == Selection || selectedAlgo == Quick
      ensures multiset(shownArray) == multiset(started)
    {
      assert shownArray == run[|run| - |pending| - 1];
    }

    /** A run over an array that is sorted already never moves a bar. */
    lemma SortedStays()
      requires Valid() && isSorting && Sorted(started)
      ensures shownArray == started
    {
      assert shownArray == run[|run| - |pending| - 1];
    }
  }
}
