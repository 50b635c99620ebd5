/** The hash-table component: `TABLE_SIZE` buckets, each holding a chain of
    integer keys, newest first. Each chain is modelled as the sequence of its
    keys from `head` onward; relinking a node is splicing that sequence. */
module HashTable {
  import opened Sequences

  const TABLE_SIZE: int := 7

  /** `key % TABLE_SIZE` with JavaScript's `%`, whose result takes the sign of
      the dividend (Dafny's `%` is Euclidean). */
  function Hash(key: int): (r: int)
    ensures key >= 0 ==> 0 <= r < TABLE_SIZE
    ensures key < 0 ==> -TABLE_SIZE < r <= 0
  {
    if key >= 0 then key % TABLE_SIZE else -((-key) % TABLE_SIZE)
  }

  /** Like the mathematical remainder, `Hash(key)` differs from `key` by a
      multiple of the table size. */
  lemma HashIsRemainder(key: int)
    ensures exists q :: key == q * TABLE_SIZE + Hash(key)
  {
    if key >= 0 {
      assert key == (key / TABLE_SIZE) * TABLE_SIZE + Hash(key);
    } else {
      var x := -key;
      assert x == (x / TABLE_SIZE) * TABLE_SIZE + x % TABLE_SIZE;
      assert key == (-(x / TABLE_SIZE)) * TABLE_SIZE + Hash(key);
    }
  }

  /** `table[hash(key)]` names a bucket only when the remainder is not
      negative: a negative key gives `undefined` and the handler throws,
      unless it is a multiple of 7, whose remainder `-0` indexes bucket 0. */
  predicate HasBucket(key: int) {
    Hash(key) >= 0
  }

  lemma HasBucketExactly(key: int)
    ensures HasBucket(key) <==> key >= 0 || key % TABLE_SIZE == 0
  {
  }

  /** What a search reports: the handler threw (no bucket), or the position
      in the chain of the first node holding the key. */
  datatype SearchResult = NoBucket | NotFound | Found(position: nat)

  class HashTableVisualizer {
    /** `table[i]` is the chain of bucket `i`, head first. */
    const table: array<seq<int>>

    /** Every key sits in the bucket its hash names. */
    ghost predicate Valid()
      reads this, table
    {
      && table.Length == TABLE_SIZE
      && forall i, j :: 0 <= i < table.Length && 0 <= j < |table[i]| ==> Hash(table[i][j]) == i
    }

    /** `Array(TABLE_SIZE).fill(null).map(createBucket)` */
    constructor ()
      ensures Valid() && fresh(table)
      ensures forall i :: 0 <= i < table.Length ==> table[i] == []
    {
      table := new seq<int>[TABLE_SIZE](_ => []);
    }

    /** `insert`: a new node at the head of the key's chain, duplicates
        allowed; `ok` is false when the handler throws for want of a bucket. */
    method Insert(val: int) returns (ok: bool)
      requires Valid()
      modifies table
      ensures Valid()
      ensures ok == HasBucket(val)
      ensures ok ==> table[Hash(val)] == [val] + old(table[Hash(val)])
      ensures forall i :: 0 <= i < table.Length && (!ok || i != Hash(val)) ==> table[i] == old(table[i])
    {
      var index := Hash(val);
      if index < 0 {
        return false;
      }
      table[index] := [val] + table[index];
      ok := true;
    }

    /** `search`: walks the key's chain from the head and stops at the first
        node holding the key. */
    method Search(val: int) returns (r: SearchResult)
      requires Valid()
      ensures r.NoBucket? <==> !HasBucket(val)
      ensures r.NotFound? ==> val !in table[Hash(val)]
      ensures r.Found? ==> r.position < |table[Hash(val)]| && table[Hash(val)][r.position] == val
      ensures r.Found? ==> forall m :: 0 <= m < r.position ==> table[Hash(val)][m] != val
      ensures HasBucket(val) && val in table[Hash(val)] ==> r.Found?
    {
      var index := Hash(val);
      if index < 0 {
        return NoBucket;
      }
      var chain := table[index];
      var k := 0;
      while k < |chain|
        invariant 0 <= k <= |chain|
        invariant forall m :: 0 <= m < k ==> chain[m] != val
      {
        if chain[k] == val {
          return Found(k);
        }
        k := k + 1;
      }
      return NotFound;
    }

    /** `remove`: unlinks the first node holding the key (`prev.next =
        current.next`, or `head = current.next` at the head). */
    method Remove(val: int) returns (r: SearchResult)
      requires Valid()
      modifies table
      ensures Valid()
      ensures r.NoBucket? <==> !HasBucket(val)
      ensures r.NotFound? ==> val !in old(table[Hash(val)])
      ensures r.Found? ==> r.position < |old(table[Hash(val)])| && old(table[Hash(val)])[r.position] == val
      ensures HasBucket(val) ==> table[Hash(val)] == RemoveFirst(old(table[Hash(val)]), val)
      ensures forall i :: 0 <= i < table.Length && (!HasBucket(val) || i != Hash(val)) ==> table[i] == old(table[i])
    {
      var index := Hash(val);
      if index < 0 {
        return NoBucket;
      }
      var chain := table[index];
      var k := 0;
      while k < |chain|
        invariant 0 <= k <= |chain|
        invariant forall m :: 0 <= m < k ==> chain[m] != val
      {
        if chain[k] == val {
          RemoveFirstAt(chain, val, k);
          StaysInBucket(chain, k, index);
          var rest := chain[..k] + chain[k + 1..];
          table[index] := rest;
          return Found(k);
        }
        k := k + 1;
      }
      RemoveFirstAbsent(chain, val);
      return NotFound;
    }
  }

  /** Every key of `chain` hashes to `index`. */
  ghost predicate InBucket(chain: seq<int>, index: int) {
    forall j :: 0 <= j < |chain| ==> Hash(chain[j]) == index
  }

  /** Unlinking a node leaves every other key of the chain in the bucket. */
  lemma StaysInBucket(chain: seq<int>, k: nat, index: int)
    requires k < |chain| && InBucket(chain, index)
    ensures InBucket(chain[..k] + chain[k + 1..], index)
  {
    SpliceMembers(chain, k);
    var rest := chain[..k] + chain[k + 1..];
    forall j | 0 <= j < |rest|
      ensures Hash(rest[j]) == index
    {
      assert rest[j] in chain;
    }
  }

  /** With every key in its own bucket, searching one chain is searching the
      whole table. */
  lemma OnlyItsBucket(table: seq<seq<int>>, val: int)
    requires |table| == TABLE_SIZE
    requires forall i, j :: 0 <= i < |table| && 0 <= j < |table[i]| ==> Hash(table[i][j]) == i
    ensures (exists i :: 0 <= i < |table| && val in table[i]) <==> HasBucket(val) && val in table[Hash(val)]
  {
  }
}
