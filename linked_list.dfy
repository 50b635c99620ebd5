/** The linked-list component: a singly linked chain of heap nodes, the
    values drawn from it, tail append and the unlinking of the first node
    holding a value. The ghost sequence `spine` lists the nodes from the
    head; `Contents()` is their values. */
module LinkedList {
  import opened Sequences

  /** `function Node(value)`: a value and the link to the next node. */
  class Node {
    var value: string
    var next: Node?

    constructor (value: string)
      ensures this.value == value && next == null
    {
      this.value := value;
      next := null;
    }
  }

  /** The values held by a run of nodes, in order. */
  ghost function ValuesOf(ns: seq<Node>): seq<string>
    reads ns
  {
    seq(|ns|, i reads ns requires 0 <= i < |ns| => ns[i].value)
  }

  /** Values read node by node are the values of the run. */
  lemma ValuesOfIs(ns: seq<Node>, vs: seq<string>)
    requires |vs| == |ns| && forall i :: 0 <= i < |ns| ==> ns[i].value == vs[i]
    ensures ValuesOf(ns) == vs
  {
  }

  /** Leaving out the node at `k` leaves out its value. */
  lemma ValuesOfSplice(ns: seq<Node>, k: nat)
    requires k < |ns|
    ensures ValuesOf(ns[..k] + ns[k + 1..]) == ValuesOf(ns)[..k] + ValuesOf(ns)[k + 1..]
  {
    var rs := ns[..k] + ns[k + 1..];
    assert forall i :: 0 <= i < |rs| ==> rs[i] == (if i < k then ns[i] else ns[i + 1]);
  }

  /** The link the node at `i` should hold: the node after it, or `null`. */
  function After(ns: seq<Node>, i: nat): Node?
  {
    if i + 1 < |ns| then ns[i + 1] else null
  }

  /** The run `ns` is an acyclic chain: each node links to the one after
      it, the last to `null`, and no node occurs twice. */
  ghost predicate Chain(ns: seq<Node>)
    reads ns
  {
    Distinct(ns) && Links(ns)
  }

  ghost predicate Distinct(ns: seq<Node>) {
    forall i, j :: 0 <= i < j < |ns| ==> ns[i] != ns[j]
  }

  ghost predicate Links(ns: seq<Node>)
    reads ns
  {
    forall i :: 0 <= i < |ns| ==> ns[i].next == After(ns, i)
  }

  /** Relinking the node before `k` past it leaves a chain without the node at `k`. */
  lemma Unlinked(ns: seq<Node>, k: nat)
    requires k < |ns|
    requires forall i, j :: 0 <= i < j < |ns| ==> ns[i] != ns[j]
    requires forall i :: 0 <= i < |ns| && i + 1 != k ==> ns[i].next == After(ns, i)
    requires k > 0 ==> ns[k - 1].next == After(ns, k)
    ensures Chain(ns[..k] + ns[k + 1..])
  {
    UnlinkedLinks(ns, k);
    UnlinkedDistinct(ns, k);
  }

  lemma UnlinkedLinks(ns: seq<Node>, k: nat)
    requires k < |ns|
    requires forall i :: 0 <= i < |ns| && i + 1 != k ==> ns[i].next == After(ns, i)
    requires k > 0 ==> ns[k - 1].next == After(ns, k)
    ensures Links(ns[..k] + ns[k + 1..])
  {
    var rs := ns[..k] + ns[k + 1..];
    forall i | 0 <= i < |rs|
      ensures rs[i].next == After(rs, i)
    {
      if i < k - 1 {
        assert rs[i] == ns[i] && After(rs, i) == ns[i + 1];
      } else if i == k - 1 {
        assert rs[i] == ns[k - 1];
      } else {
        assert rs[i] == ns[i + 1];
      }
    }
  }

  lemma UnlinkedDistinct(ns: seq<Node>, k: nat)
    requires k < |ns|
    requires Distinct(ns)
    ensures Distinct(ns[..k] + ns[k + 1..])
  {
    var rs := ns[..k] + ns[k + 1..];
    forall i, j | 0 <= i < j < |rs|
      ensures rs[i] != rs[j]
    {
      var i' := if i < k then i else i + 1;
      var j' := if j < k then j else j + 1;
      assert rs[i] == ns[i'] && rs[j] == ns[j'];
    }
  }

  /** Linking a fresh node after the last one extends the chain. */
  lemma Appended(ns: seq<Node>, n: Node)
    requires ns != [] && n !in ns && n.next == null
    requires forall i, j :: 0 <= i < j < |ns| ==> ns[i] != ns[j]
    requires forall i :: 0 <= i < |ns| - 1 ==> ns[i].next == After(ns, i)
    requires ns[|ns| - 1].next == n
    ensures Chain(ns + [n])
  {
    var rs := ns + [n];
    forall i | 0 <= i < |rs|
      ensures rs[i].next == After(rs, i)
    {
      if i < |ns| - 1 {
        assert After(rs, i) == After(ns, i);
      }
    }
  }

  class LinkedListVisualizer {
    var head: Node?
    var renderList: seq<string>
    ghost var spine: seq<Node>

    /** `head` starts the chain `spine`, each node links to the one after
        it, the last to `null`, and no node occurs twice: the chain is
        acyclic. */
    ghost predicate Valid()
      reads this, spine
    {
      && Chain(spine)
      && head == (if spine == [] then null else spine[0])
    }

    /** The values from head to tail. */
    ghost function Contents(): seq<string>
      reads this, spine
    {
      ValuesOf(spine)
    }

    /** The component's initial state: no head, nothing drawn. */
    constructor ()
      ensures Valid() && Contents() == [] && renderList == []
    {
      head := null;
      renderList := [];
      spine := [];
    }

    /** `updateRenderList(node)`: walk from `node` to the end of the chain,
        collecting the values. The walk ends because the chain is acyclic. */
    method UpdateRenderList(node: Node?)
      requires Valid() && node == head
      modifies this
      ensures Valid()
      ensures renderList == Contents() && Contents() == old(Contents())
      ensures head == old(head) && spine == old(spine)
    {
      var list := [];
      var current := node;
      ghost var k := 0;
      while current != null
        invariant 0 <= k <= |spine|
        invariant current == (if k < |spine| then spine[k] else null)
        invariant Valid()
        invariant list == Contents()[..k]
        decreases |spine| - k
      {
        list := list + [current.value];
        current := current.next;
        k := k + 1;
      }
      renderList := list;
    }

    /** `insert()`: an empty input is ignored; otherwise a new node carrying
        the input is linked after the last node, or becomes the head. */
    method Insert(input: string)
      requires Valid()
      modifies this, spine
      ensures Valid()
      ensures Contents() == if input == "" then old(Contents()) else old(Contents()) + [input]
      ensures input == "" ==> renderList == old(renderList)
      ensures input != "" ==> renderList == Contents()
    {
      if input == "" {
        return;
      }
      var newNode := new Node(input);
      if head == null {
        head := newNode;
        spine := [newNode];
        UpdateRenderList(newNode);
      } else {
        var current := head;
        ghost var k := 0;
        while current.next != null
          invariant Valid() && unchanged(this) && 0 <= k < |spine| && current == spine[k]
          decreases |spine| - k
        {
          current := current.next;
          k := k + 1;
        }
        current.next := newNode;
        Appended(spine, newNode);
        spine := spine + [newNode];
        assert Contents() == old(Contents()) + [input];
        UpdateRenderList(head);
      }
    }

    /** `handleDelete()`: with no head nothing happens. Otherwise a dummy
        node is put before the head, the first node holding `deleteValue` is
        unlinked, and the dummy's successor becomes the head. */
    method HandleDelete(deleteValue: string)
      requires Valid()
      modifies this, spine
      ensures Valid()
      ensures Contents() == RemoveFirst(old(Contents()), deleteValue)
      ensures old(head) == null ==> renderList == old(renderList)
      ensures old(head) != null ==> renderList == Contents()
    {
      if head == null {
        return;
      }
      ghost var original := Contents();
      // The source gives the dummy the value `null`; it is never compared.
      var dummy := new Node("");
      dummy.next := head;
      assert Contents() == original;
      ghost var rest := UnlinkFirst(dummy, deleteValue);
      assert ValuesOf(rest) == RemoveFirst(original, deleteValue);
      spine := rest;
      head := dummy.next;
      UpdateRenderList(head);
    }

    /** `handleDelete`'s loop: walk from `dummy.next` with a trailing `prev`
        and, at the first node holding `deleteValue`, link `prev` past it.
        The nodes still chained from the dummy are returned. */
    method UnlinkFirst(dummy: Node, deleteValue: string) returns (ghost rest: seq<Node>)
      requires Valid() && dummy !in spine && dummy.next == head
      modifies dummy, spine
      ensures Chain(rest) && dummy.next == (if rest == [] then null else rest[0])
      ensures ValuesOf(rest) == RemoveFirst(old(Contents()), deleteValue)
      ensures forall n :: n in rest ==> n in spine
    {
      ghost var original := Contents();
      var prev := dummy;
      var current := dummy.next;
      ghost var k := 0;
      while current != null
        invariant 0 <= k <= |spine|
        invariant current == (if k < |spine| then spine[k] else null)
        invariant prev == (if k == 0 then dummy else spine[k - 1])
        invariant dummy.next == head
        invariant unchanged(spine) && Valid()
        invariant forall m :: 0 <= m < k ==> spine[m].value != deleteValue
        decreases |spine| - k
      {
        if current.value == deleteValue {
          prev.next := current.next;
          rest := Relinked(dummy, deleteValue, k, original);
          return;
        }
        prev := current;
        current := current.next;
        k := k + 1;
      }
      RemoveFirstAbsent(original, deleteValue);
      rest := spine;
    }

    /** What `prev.next = current.next` at the `k`-th node leaves. */
    lemma Relinked(dummy: Node, deleteValue: string, k: nat, original: seq<string>) returns (rest: seq<Node>)
      requires k < |spine| && dummy !in spine
      requires forall i, j :: 0 <= i < j < |spine| ==> spine[i] != spine[j]
      requires forall i :: 0 <= i < |spine| && i + 1 != k ==> spine[i].next == After(spine, i)
      requires k > 0 ==> spine[k - 1].next == After(spine, k)
      requires dummy.next == (if k == 0 then After(spine, k) else spine[0])
      requires original == ValuesOf(spine)
      requires spine[k].value == deleteValue
      requires forall m :: 0 <= m < k ==> spine[m].value != deleteValue
      ensures Chain(rest) && dummy.next == (if rest == [] then null else rest[0])
      ensures ValuesOf(rest) == RemoveFirst(original, deleteValue)
      ensures forall n :: n in rest ==> n in spine
    {
      Unlinked(spine, k);
      RemoveFirstAt(original, deleteValue, k);
      ValuesOfSplice(spine, k);
      rest := spine[..k] + spine[k + 1..];
    }

    /** `reset()`: the list and the drawing are emptied. */
    method Reset()
      modifies this
      ensures Valid() && Contents() == [] && renderList == []
    {
      head := null;
      renderList := [];
      spine := [];
    }
  }
}
