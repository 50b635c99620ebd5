/** Unlinking the first node that holds a value, stated on the sequence of
    values a singly linked chain holds from its head. Both the hash-table
    chains and the linked-list component unlink this way. */
module Sequences {

  /** The chain with its first occurrence of `x` unlinked. */
  function RemoveFirst<T(==)>(chain: seq<T>, x: T): (r: seq<T>)
  {
    if chain == [] then []
    else if chain[0] == x then chain[1..]
    else [chain[0]] + RemoveFirst(chain[1..], x)
  }

  /** With no occurrence of `x` the chain is unchanged. */
  lemma {:induction false} RemoveFirstAbsent<T>(chain: seq<T>, x: T)
    requires x !in chain
    ensures RemoveFirst(chain, x) == chain
  {
    if chain != [] {
      RemoveFirstAbsent(chain[1..], x);
    }
  }

  /** Otherwise exactly the first occurrence goes; the rest keep their order. */
  lemma RemoveFirstAt<T>(chain: seq<T>, x: T, k: nat)
    requires k < |chain| && chain[k] == x
    requires forall m :: 0 <= m < k ==> chain[m] != x
    ensures RemoveFirst(chain, x) == chain[..k] + chain[k + 1..]
    ensures multiset(RemoveFirst(chain, x)) == multiset(chain) - multiset{x}
  {
    RemoveFirstSplices(chain, x, k);
    SpliceMultiset(chain, k);
  }

  lemma {:induction false} RemoveFirstSplices<T>(chain: seq<T>, x: T, k: nat)
    requires k < |chain| && chain[k] == x
    requires forall m :: 0 <= m < k ==> chain[m] != x
    ensures RemoveFirst(chain, x) == chain[..k] + chain[k + 1..]
  {
    if k > 0 {
      var tail := chain[1..];
      assert tail[k - 1] == x;
      RemoveFirstSplices(tail, x, k - 1);
      assert chain[..k] == [chain[0]] + tail[..k - 1];
      assert chain[k + 1..] == tail[k..];
    }
  }

  /** Leaving out the element at `k` takes one copy of it out of the multiset. */
  lemma SpliceMultiset<T>(chain: seq<T>, k: nat)
    requires k < |chain|
    ensures multiset(chain[..k] + chain[k + 1..]) == multiset(chain) - multiset{chain[k]}
  {
    assert chain == chain[..k] + [chain[k]] + chain[k + 1..];
  }

  /** Every element left after leaving one out was in the sequence. */
  lemma SpliceMembers<T>(chain: seq<T>, k: nat)
    requires k < |chain|
    ensures forall y :: y in chain[..k] + chain[k + 1..] ==> y in chain
  {
    SpliceMultiset(chain, k);
    forall y | y in chain[..k] + chain[k + 1..]
      ensures y in chain
    {
      assert y in multiset(chain[..k] + chain[k + 1..]);
    }
  }
}
