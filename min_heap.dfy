/** The min-heap component: the heap is an array in level order, the parent
    of index `i > 0` at `(i - 1) / 2`. Both operations copy the array, repair
    the copy in place with swaps and publish it with `setHeap`, so each is a
    method from the old heap to the new one that works on a fresh array. */
module MinHeap {
  import opened SortOrder

  /** `Math.floor((i - 1) / 2)` for `i > 0` (Dafny's `/` on non-negative
      operands is the floor). */
  function Parent(i: nat): (p: nat)
    requires i > 0
    ensures p < i && (p * 2 + 1 == i || p * 2 + 2 == i)
  {
    (i - 1) / 2
  }

  /** Every element is at least its parent. */
  ghost predicate IsMinHeap(h: seq<int>) {
    forall p, k :: 0 <= p < k < |h| && (k == 2 * p + 1 || k == 2 * p + 2) ==> h[p] <= h[k]
  }

  /** The heap property in the source's own terms: `heap[Math.floor((i - 1) / 2)] <= heap[i]`. */
  lemma IsMinHeapByParent(h: seq<int>)
    ensures IsMinHeap(h) <==> forall k :: 0 < k < |h| ==> h[Parent(k)] <= h[k]
  {
    if IsMinHeap(h) {
      forall k | 0 < k < |h| ensures h[Parent(k)] <= h[k] {
        var p := Parent(k);
        assert p < k && (k == 2 * p + 1 || k == 2 * p + 2);
      }
    }
    if forall k :: 0 < k < |h| ==> h[Parent(k)] <= h[k] {
      forall p, k | 0 <= p < k < |h| && (k == 2 * p + 1 || k == 2 * p + 2) ensures h[p] <= h[k] {
        assert Parent(k) == p;
      }
    }
  }

  /** The heap property with the edge into `i` exempt, and `i`'s parent
      already no larger than `i`'s children: the state during sift-up. */
  ghost predicate HeapExceptAt(h: seq<int>, i: nat) {
    && (forall p, k :: 0 <= p < k < |h| && (k == 2 * p + 1 || k == 2 * p + 2) && k != i ==> h[p] <= h[k])
    && (forall g, k ::
          0 <= g < i < k < |h| && (i == 2 * g + 1 || i == 2 * g + 2) && (k == 2 * i + 1 || k == 2 * i + 2)
          ==> h[g] <= h[k])
  }

  /** The heap property with the edges out of `i` exempt, and `i`'s parent
      already no larger than `i`'s children: the state during sift-down. */
  ghost predicate HeapBelowExcept(h: seq<int>, i: nat) {
    && (forall p, k :: 0 <= p < k < |h| && (k == 2 * p + 1 || k == 2 * p + 2) && p != i ==> h[p] <= h[k])
    && (forall g, k ::
          0 <= g < i < k < |h| && (i == 2 * g + 1 || i == 2 * g + 2) && (k == 2 * i + 1 || k == 2 * i + 2)
          ==> h[g] <= h[k])
  }

  /** The helper `swap(arr, i, j)`: exchanges two entries, nothing else
      moves (the same exchange the sorts use, `SortOrder.Swapped`). */
  method Swap(a: array<int>, i: nat, j: nat)
    requires i < a.Length && j < a.Length
    modifies a
    ensures a[..] == Swapped(old(a[..]), i, j)
  {
    a[i], a[j] := a[j], a[i];
  }

  /** The root of a heap is its minimum. */
  lemma {:induction false} RootIsMinimum(h: seq<int>, k: nat)
    requires IsMinHeap(h) && k < |h|
    ensures h[0] <= h[k]
    decreases k
  {
    if k > 0 {
      var p := Parent(k);
      RootIsMinimum(h, p);
      assert p < k && (k == 2 * p + 1 || k == 2 * p + 2);
    }
  }

  /** `insert(val)`: append, then swap upward while the parent is larger. The
      result holds one more element, `val`, and is a heap if `heap` was. */
  method Insert(heap: seq<int>, val: int) returns (newHeap: seq<int>)
    ensures |newHeap| == |heap| + 1
    ensures multiset(newHeap) == multiset(heap) + multiset{val}
    ensures IsMinHeap(heap) ==> IsMinHeap(newHeap)
  {
    var a := new int[|heap| + 1](k requires 0 <= k <= |heap| => if k < |heap| then heap[k] else val);
    assert a[..] == heap + [val];
    InsertStart(heap, val);
    SiftUp(a);
    newHeap := a[..];
  }

  /** Appending to a heap leaves only the edge into the new last slot to check. */
  lemma InsertStart(heap: seq<int>, val: int)
    ensures IsMinHeap(heap) ==> HeapExceptAt(heap + [val], |heap|)
  {
  }

  /** The sift-up loop of `insert`, from the last slot: a permutation, and a
      heap if only the last element was out of place. */
  method SiftUp(a: array<int>)
    requires a.Length > 0
    modifies a
    ensures multiset(a[..]) == multiset(old(a[..]))
    ensures HeapExceptAt(old(a[..]), a.Length - 1) ==> IsMinHeap(a[..])
  {
    ghost var lastOnly := HeapExceptAt(a[..], a.Length - 1);
    var i := a.Length - 1;
    while i > 0
      invariant 0 <= i < a.Length
      invariant multiset(a[..]) == multiset(old(a[..]))
      invariant lastOnly ==> HeapExceptAt(a[..], i)
    {
      var parent := Parent(i);
      if a[parent] > a[i] {
        ghost var before := a[..];
        Swap(a, i, parent);
        if lastOnly {
          SiftUpStep(before, a[..], i, parent);
        }
        i := parent;
      } else {
        if lastOnly {
          SiftUpDone(a[..], i);
        }
        break;
      }
    }
  }

  /** One swap of sift-up moves the exempt edge one level up. */
  lemma SiftUpStep(before: seq<int>, after: seq<int>, i: nat, p: nat)
    requires 0 < i < |before| && p == Parent(i) && before[p] > before[i]
    requires HeapExceptAt(before, i)
    requires after == before[i := before[p]][p := before[i]]
    ensures HeapExceptAt(after, p)
  {
    assert i == 2 * p + 1 || i == 2 * p + 2;
  }

  /** When the parent is no larger, the exempt edge holds too. */
  lemma SiftUpDone(s: seq<int>, i: nat)
    requires i < |s| && HeapExceptAt(s, i)
    requires i > 0 ==> s[Parent(i)] <= s[i]
    ensures IsMinHeap(s)
  {
    if i > 0 {
      var p := Parent(i);
      assert i == 2 * p + 1 || i == 2 * p + 2;
    }
  }

  /** `deleteMin`: nothing on an empty heap; otherwise the last element
      replaces the root, the array is shortened with `pop`, and the new root is
      swapped downward with its smaller child while that child is smaller. One
      copy of the old root is gone, and the heap property is kept. */
  method DeleteMin(heap: seq<int>) returns (newHeap: seq<int>)
    ensures heap == [] ==> newHeap == []
    ensures heap != [] ==> |newHeap| == |heap| - 1
    ensures heap != [] ==> multiset(newHeap) == multiset(heap) - multiset{heap[0]}
    ensures IsMinHeap(heap) ==> IsMinHeap(newHeap)
  {
    if |heap| == 0 {
      return heap;
    }
    var a := new int[|heap|](k requires 0 <= k < |heap| => heap[k]);
    a[0] := a[a.Length - 1];
    var len := a.Length - 1;
    DeleteMinStart(heap, a[..len]);
    SiftDown(a, len);
    newHeap := a[..len];
  }

  /** The sift-down loop of `deleteMin` over the live prefix `a[..len]`:
      a permutation of that prefix, and a heap if only the root was out of
      place. */
  method SiftDown(a: array<int>, len: nat)
    requires len < a.Length
    modifies a
    ensures multiset(a[..len]) == multiset(old(a[..len]))
    ensures HeapBelowExcept(old(a[..len]), 0) ==> IsMinHeap(a[..len])
  {
    ghost var orig := a[..len];
    ghost var rootOnly := HeapBelowExcept(orig, 0);
    var i := 0;
    while true
      invariant SiftingDown(a[..], orig, len, i, rootOnly)
      decreases len - i
    {
      var left := 2 * i + 1;
      var right := 2 * i + 2;
      var smallest := i;
      if left < len && a[left] < a[smallest] {
        smallest := left;
      }
      if right < len && a[right] < a[smallest] {
        smallest := right;
      }
      if smallest != i {
        ghost var before := a[..];
        Swap(a, i, smallest);
        SiftDownSwapped(before, orig, len, i, smallest, rootOnly, a[..]);
        i := smallest;
      } else {
        SiftDownStopped(a[..], orig, len, i, rootOnly);
        break;
      }
    }
  }

  /** The state of the sift-down loop at `i`: the live prefix of `s` is a
      permutation of `orig`, and, if only the root was out of place in
      `orig`, only the edges out of `i` are now. */
  ghost predicate SiftingDown(s: seq<int>, orig: seq<int>, len: nat, i: nat, rootOnly: bool) {
    && i <= len <= |s|
    && multiset(s[..len]) == multiset(orig)
    && (rootOnly ==> HeapBelowExcept(s[..len], i))
  }

  /** Swapping `i` with its smaller child `c`, smaller than `i`, moves the
      loop state to `c`. */
  lemma SiftDownSwapped(before: seq<int>, orig: seq<int>, len: nat, i: nat, c: nat, rootOnly: bool, after: seq<int>)
    requires SiftingDown(before, orig, len, i, rootOnly)
    requires c == 2 * i + 1 || c == 2 * i + 2
    requires c < len && before[c] < before[i]
    requires 2 * i + 1 < len ==> before[c] <= before[2 * i + 1]
    requires 2 * i + 2 < len ==> before[c] <= before[2 * i + 2]
    requires after == before[i := before[c]][c := before[i]]
    ensures SiftingDown(after, orig, len, c, rootOnly)
  {
    SwapPrefix(before, after, len, i, c);
    if rootOnly {
      SiftDownStep(before[..len], after[..len], i, c);
    }
  }

  /** With no child smaller than `i`, the loop's state is its postcondition. */
  lemma SiftDownStopped(s: seq<int>, orig: seq<int>, len: nat, i: nat, rootOnly: bool)
    requires SiftingDown(s, orig, len, i, rootOnly)
    requires 2 * i + 1 < len ==> s[i] <= s[2 * i + 1]
    requires 2 * i + 2 < len ==> s[i] <= s[2 * i + 2]
    ensures multiset(s[..len]) == multiset(orig)
    ensures rootOnly ==> IsMinHeap(s[..len])
  {
    if rootOnly {
      SiftDownDone(s[..len], i);
    }
  }

  /** Moving the last element to the root and dropping the last slot leaves
      the other elements and every edge not out of the root as they were. */
  lemma DeleteMinStart(heap: seq<int>, s: seq<int>)
    requires |heap| > 0 && |s| == |heap| - 1
    requires |s| > 0 ==> s[0] == heap[|s|]
    requires forall k :: 0 < k < |s| ==> s[k] == heap[k]
    ensures multiset(s) == multiset(heap) - multiset{heap[0]}
    ensures IsMinHeap(heap) ==> HeapBelowExcept(s, 0)
  {
    var len := |s|;
    if len > 0 {
      assert s == [heap[len]] + heap[1..len];
      assert heap == [heap[0]] + heap[1..len] + [heap[len]];
    }
  }

  /** Swapping two entries of the live prefix permutes it. */
  lemma SwapPrefix(before: seq<int>, after: seq<int>, len: nat, i: nat, j: nat)
    requires i < len && j < len && len <= |before|
    requires after == before[i := before[j]][j := before[i]]
    ensures after[..len] == before[..len][i := before[j]][j := before[i]]
    ensures multiset(after[..len]) == multiset(before[..len])
  {
    assert after[..len] == before[..len][i := before[j]][j := before[i]];
  }

  /** When no child is smaller than `i`, the exempt edges hold too. */
  lemma SiftDownDone(s: seq<int>, i: nat)
    requires HeapBelowExcept(s, i)
    requires 2 * i + 1 < |s| ==> s[i] <= s[2 * i + 1]
    requires 2 * i + 2 < |s| ==> s[i] <= s[2 * i + 2]
    ensures IsMinHeap(s)
  {
  }

  /** One swap of sift-down moves the exempt edges one level down. */
  lemma SiftDownStep(before: seq<int>, after: seq<int>, i: nat, c: nat)
    requires c == 2 * i + 1 || c == 2 * i + 2
    requires c < |before| && before[c] < before[i]
    requires 2 * i + 1 < |before| ==> before[c] <= before[2 * i + 1]
    requires 2 * i + 2 < |before| ==> before[c] <= before[2 * i + 2]
    requires HeapBelowExcept(before, i)
    requires after == before[i := before[c]][c := before[i]]
    ensures HeapBelowExcept(after, c)
  {
  }
}
