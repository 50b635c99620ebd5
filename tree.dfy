/** The binary-tree component, in its two modes: a binary search tree whose
    duplicates go right, and a "general" tree filled in level order. The
    source relinks node objects in place and re-renders a shallow copy of the
    root; here a tree is a value and each operation returns the new tree. */
module Tree {
  import opened Wrappers

  datatype Tree = Nil | Node(val: int, left: Tree, right: Tree)

  /** The values stored in a tree, with multiplicity. */
  function Values(t: Tree): multiset<int> {
    match t
    case Nil => multiset{}
    case Node(v, l, r) => Values(l) + multiset{v} + Values(r)
  }

  function Size(t: Tree): nat {
    match t
    case Nil => 0
    case Node(_, l, r) => Size(l) + 1 + Size(r)
  }

  lemma {:induction false} SizeIsValueCount(t: Tree)
    ensures Size(t) == |Values(t)|
  {
    if t.Node? {
      SizeIsValueCount(t.left);
      SizeIsValueCount(t.right);
    }
  }

  /** The search-tree order `insertBST` maintains: everything on the left is
      smaller than the node, everything on the right at least as large. */
  ghost predicate IsBST(t: Tree) {
    match t
    case Nil => true
    case Node(v, l, r) => IsBST(l) && IsBST(r) && AllBelow(l, v) && AllAtLeast(r, v)
  }

  /** Every value in `t` is smaller than `b`. */
  ghost predicate AllBelow(t: Tree, b: int) {
    match t
    case Nil => true
    case Node(v, l, r) => v < b && AllBelow(l, b) && AllBelow(r, b)
  }

  /** Every value in `t` is at least `b`. */
  ghost predicate AllAtLeast(t: Tree, b: int) {
    match t
    case Nil => true
    case Node(v, l, r) => b <= v && AllAtLeast(l, b) && AllAtLeast(r, b)
  }

  /** The bounds hold of every stored value. */
  lemma {:induction false} BelowMember(t: Tree, b: int, x: int)
    ensures AllBelow(t, b) && x in Values(t) ==> x < b
  {
    if t.Node? {
      BelowMember(t.left, b, x);
      BelowMember(t.right, b, x);
    }
  }

  lemma {:induction false} AtLeastMember(t: Tree, b: int, x: int)
    ensures AllAtLeast(t, b) && x in Values(t) ==> b <= x
  {
    if t.Node? {
      AtLeastMember(t.left, b, x);
      AtLeastMember(t.right, b, x);
    }
  }

  /** A tree whose values all come from a bounded collection is bounded. */
  lemma {:induction false} BelowPool(t: Tree, pool: multiset<int>, b: int)
    requires Values(t) <= pool
    requires forall y | y in pool :: y < b
    ensures AllBelow(t, b)
  {
    if t.Node? {
      assert t.val in Values(t);
      BelowPool(t.left, pool, b);
      BelowPool(t.right, pool, b);
    }
  }

  lemma {:induction false} AtLeastPool(t: Tree, pool: multiset<int>, b: int)
    requires Values(t) <= pool
    requires forall y | y in pool :: b <= y
    ensures AllAtLeast(t, b)
  {
    if t.Node? {
      assert t.val in Values(t);
      AtLeastPool(t.left, pool, b);
      AtLeastPool(t.right, pool, b);
    }
  }

  /** Bounds carry over to a tree holding some of the values of a bounded
      tree, plus extra values within the bound. */
  lemma {:induction false} BelowOfSub(small: Tree, big: Tree, extra: multiset<int>, b: int)
    requires Values(small) <= Values(big) + extra
    requires forall y | y in extra :: y < b
    ensures AllBelow(big, b) ==> AllBelow(small, b)
  {
    if AllBelow(big, b) {
      forall y | y in Values(big) + extra
        ensures y < b
      {
        BelowMember(big, b, y);
      }
      BelowPool(small, Values(big) + extra, b);
    }
  }

  lemma {:induction false} AtLeastOfSub(small: Tree, big: Tree, extra: multiset<int>, b: int)
    requires Values(small) <= Values(big) + extra
    requires forall y | y in extra :: b <= y
    ensures AllAtLeast(big, b) ==> AllAtLeast(small, b)
  {
    if AllAtLeast(big, b) {
      forall y | y in Values(big) + extra
        ensures b <= y
      {
        AtLeastMember(big, b, y);
      }
      AtLeastPool(small, Values(big) + extra, b);
    }
  }

  /** `s` is `t` or one of its subtrees. */
  ghost predicate IsSubtree(s: Tree, t: Tree) {
    s == t || (t.Node? && (IsSubtree(s, t.left) || IsSubtree(s, t.right)))
  }

  /** `insertBST`: walk left on smaller values, right otherwise, and hang a
      new leaf where the walk falls off. */
  function InsertBST(t: Tree, val: int): (r: Tree)
    ensures r.Node?
    ensures Values(r) == Values(t) + multiset{val}
    ensures Size(r) == Size(t) + 1
    ensures IsBST(t) ==> IsBST(r)
  {
    match t
    case Nil => Node(val, Nil, Nil)
    case Node(v, l, rt) =>
      if val < v then
        var l' := InsertBST(l, val);
        BelowAfterInsert(l, l', val, v);
        Node(v, l', rt)
      else
        var rt' := InsertBST(rt, val);
        AtLeastAfterInsert(rt, rt', val, v);
        Node(v, l, rt')
  }

  lemma {:induction false} BelowAfterInsert(t: Tree, t': Tree, x: int, b: int)
    requires Values(t') == Values(t) + multiset{x} && x < b
    ensures AllBelow(t, b) ==> AllBelow(t', b)
  {
    BelowOfSub(t', t, multiset{x}, b);
  }

  lemma {:induction false} AtLeastAfterInsert(t: Tree, t': Tree, x: int, b: int)
    requires Values(t') == Values(t) + multiset{x} && b <= x
    ensures AllAtLeast(t, b) ==> AllAtLeast(t', b)
  {
    AtLeastOfSub(t', t, multiset{x}, b);
  }

  /** `searchNode`: the first node on the search path with the value. On a
      search tree it finds one exactly when the value is stored. */
  function SearchNode(t: Tree, val: int): (r: Option<Tree>)
    ensures r.Some? ==> r.value.Node? && r.value.val == val && IsSubtree(r.value, t)
    ensures r.Some? ==> val in Values(t)
    ensures IsBST(t) && val in Values(t) ==> r.Some?
  {
    match t
    case Nil => None
    case Node(v, l, rt) =>
      if v == val then Some(t)
      else if val < v then
        SearchSide(t, val);
        SearchNode(l, val)
      else
        SearchSide(t, val);
        SearchNode(rt, val)
  }

  /** On a search tree a stored value other than the root's lies on the side
      that the comparison with the root picks. */
  lemma {:induction false} SearchSide(t: Tree, x: int)
    requires t.Node?
    ensures IsBST(t) && x in Values(t) && x < t.val ==> x in Values(t.left)
    ensures IsBST(t) && x in Values(t) && x > t.val ==> x in Values(t.right)
  {
    if IsBST(t) {
      AtLeastMember(t.right, t.val, x);
      BelowMember(t.left, t.val, x);
    }
  }

  /** The value at the end of the left spine: the in-order first value, and
      on a search tree the smallest. */
  function LeftmostValue(t: Tree): (m: int)
    requires t.Node?
    ensures m in Values(t)
    ensures IsBST(t) ==> m <= t.val && AllAtLeast(t, m)
  {
    if t.left.Nil? then t.val
    else
      var m := LeftmostValue(t.left);
      LowerBound(t.right, m, t.val);
      m
  }

  lemma {:induction false} LowerBound(t: Tree, a: int, b: int)
    ensures a <= b && AllAtLeast(t, b) ==> AllAtLeast(t, a)
  {
    if t.Node? {
      LowerBound(t.left, a, b);
      LowerBound(t.right, a, b);
    }
  }

  lemma {:induction false} RaiseBound(t: Tree, a: int, b: int)
    requires a <= b
    ensures AllBelow(t, a) ==> AllBelow(t, b)
  {
    if t.Node? {
      RaiseBound(t.left, a, b);
      RaiseBound(t.right, a, b);
    }
  }

  /** What `deleteNode` promises: a value that is not stored leaves the tree
      as it was; on a search tree one copy of the value is gone and the order
      is kept. */
  ghost predicate Deleted(t: Tree, val: int, r: Tree) {
    && (val !in Values(t) ==> r == t)
    && (IsBST(t) ==> Values(r) == Values(t) - multiset{val} && IsBST(r))
  }

  /** The same promise for the node holding the value. */
  ghost predicate RootDeleted(t: Tree, r: Tree)
    requires t.Node?
  {
    IsBST(t) ==> Values(r) == Values(t) - multiset{t.val} && IsBST(r)
  }

  /** `deleteNode`: find the value along the search path; a node with at most
      one child is replaced by that child, a node with two takes the value of
      its in-order successor (found by walking left in the right subtree),
      which is then deleted from the right subtree. */
  method DeleteNode(t: Tree, val: int) returns (r: Tree)
    ensures Deleted(t, val, r)
    decreases t, 1
  {
    match t
    case Nil =>
      return Nil;
    case Node(v, l, rt) =>
      if val < v {
        var l' := DeleteNode(l, val);
        r := Node(v, l', rt);
        LeftCase(t, val, l');
      } else if val > v {
        var rt' := DeleteNode(rt, val);
        r := Node(v, l, rt');
        RightCase(t, val, rt');
      } else {
        r := DeleteRoot(t);
        RootCase(t, r);
      }
  }

  /** The node `deleteNode` found: at most one child replaces it, otherwise
      the in-order successor's value moves up. */
  method DeleteRoot(t: Tree) returns (r: Tree)
    requires t.Node?
    ensures RootDeleted(t, r)
    decreases t, 0
  {
    if t.left.Nil? {
      OnlyRightChild(t);
      return t.right;
    }
    if t.right.Nil? {
      OnlyLeftChild(t);
      return t.left;
    }
    var temp := t.right;
    while temp.left.Node?
      invariant temp.Node? && LeftmostValue(temp) == LeftmostValue(t.right)
      decreases temp
    {
      temp := temp.left;
    }
    var successor := temp.val;
    var rt' := DeleteNode(t.right, successor);
    r := Node(successor, t.left, rt');
    SuccessorCase(t, rt');
  }

  lemma {:induction false} LeftCase(t: Tree, val: int, l': Tree)
    requires t.Node? && val < t.val && Deleted(t.left, val, l')
    ensures Deleted(t, val, Node(t.val, l', t.right))
  {
    if IsBST(t) {
      AtLeastMember(t.right, t.val, val);
      LeftDeletionValues(t.val, t.left, t.right, l', val);
      LeftShrinks(t.val, t.left, t.right, l');
    }
  }

  lemma {:induction false} RightCase(t: Tree, val: int, rt': Tree)
    requires t.Node? && val > t.val && Deleted(t.right, val, rt')
    ensures Deleted(t, val, Node(t.val, t.left, rt'))
  {
    if IsBST(t) {
      BelowMember(t.left, t.val, val);
      RightDeletionValues(t.val, t.left, t.right, rt', val);
      RightShrinks(t.val, t.left, t.right, rt');
    }
  }

  lemma {:induction false} RootCase(t: Tree, r: Tree)
    requires t.Node? && RootDeleted(t, r)
    ensures Deleted(t, t.val, r)
  {
    assert t.val in Values(t);
  }

  lemma {:induction false} SuccessorCase(t: Tree, rt': Tree)
    requires t.Node? && t.right.Node? && Deleted(t.right, LeftmostValue(t.right), rt')
    ensures RootDeleted(t, Node(LeftmostValue(t.right), t.left, rt'))
  {
    var s := LeftmostValue(t.right);
    if IsBST(t) {
      AtLeastMember(t.right, t.val, s);
      AtLeastOfSub(rt', t.right, multiset{}, s);
      SuccessorValues(t.val, t.left, t.right, rt', s);
      SuccessorOrder(t.val, t.left, t.right, rt', s);
    }
  }

  /** A deletion that went left removes the value from the whole tree once,
      since neither the node nor its right side holds it. */
  lemma {:induction false} LeftDeletionValues(v: int, l: Tree, r: Tree, l': Tree, x: int)
    requires x != v && x !in Values(r)
    requires Values(l') == Values(l) - multiset{x}
    ensures Values(Node(v, l', r)) == Values(Node(v, l, r)) - multiset{x}
  {
  }

  /** A deletion that went right, likewise. */
  lemma {:induction false} RightDeletionValues(v: int, l: Tree, r: Tree, r': Tree, x: int)
    requires x != v && x !in Values(l)
    requires Values(r') == Values(r) - multiset{x}
    ensures Values(Node(v, l, r')) == Values(Node(v, l, r)) - multiset{x}
  {
  }

  /** A search-tree node whose subtree loses values stays a search tree. */
  lemma {:induction false} LeftShrinks(v: int, l: Tree, r: Tree, l': Tree)
    requires IsBST(Node(v, l, r)) && IsBST(l') && Values(l') <= Values(l)
    ensures IsBST(Node(v, l', r))
  {
    BelowOfSub(l', l, multiset{}, v);
  }

  lemma {:induction false} RightShrinks(v: int, l: Tree, r: Tree, r': Tree)
    requires IsBST(Node(v, l, r)) && IsBST(r') && Values(r') <= Values(r)
    ensures IsBST(Node(v, l, r'))
  {
    AtLeastOfSub(r', r, multiset{}, v);
  }

  /** A node without a left child gives way to its right subtree. */
  lemma {:induction false} OnlyRightChild(t: Tree)
    requires t.Node? && t.left.Nil?
    ensures RootDeleted(t, t.right)
  {
    assert Values(t) == multiset{t.val} + Values(t.right);
  }

  /** A node without a right child gives way to its left subtree. */
  lemma {:induction false} OnlyLeftChild(t: Tree)
    requires t.Node? && t.right.Nil?
    ensures RootDeleted(t, t.left)
  {
    assert Values(t) == Values(t.left) + multiset{t.val};
  }

  /** The successor's value, moved up from the right subtree, takes the
      place of the deleted value. */
  lemma {:induction false} SuccessorValues(v: int, l: Tree, r: Tree, r': Tree, s: int)
    requires s in Values(r) && Values(r') == Values(r) - multiset{s}
    ensures Values(Node(s, l, r')) == Values(Node(v, l, r)) - multiset{v}
  {
  }

  /** The successor, the smallest value on the right, is a valid new root. */
  lemma {:induction false} SuccessorOrder(v: int, l: Tree, r: Tree, r': Tree, s: int)
    requires IsBST(Node(v, l, r)) && IsBST(r') && v <= s && AllAtLeast(r', s)
    ensures IsBST(Node(s, l, r'))
  {
    RaiseBound(l, v, s);
  }

  /** The nodes of `t` in the order `flattenTree` pushes them: the node, then
      its left subtree, then its right subtree. */
  function Preorder(t: Tree): seq<Tree> {
    match t
    case Nil => []
    case Node(_, l, r) => [t] + Preorder(l) + Preorder(r)
  }

  /** The preorder lists every node once: as many entries as nodes, each a
      node of `t`, and together their values are the tree's values. */
  lemma {:induction false} PreorderSize(t: Tree)
    ensures |Preorder(t)| == Size(t)
  {
    if t.Node? {
      PreorderSize(t.left);
      PreorderSize(t.right);
    }
  }

  lemma {:induction false} PreorderSubtrees(t: Tree)
    ensures forall k :: 0 <= k < |Preorder(t)| ==> Preorder(t)[k].Node? && IsSubtree(Preorder(t)[k], t)
  {
    if t.Node? {
      PreorderSubtrees(t.left);
      PreorderSubtrees(t.right);
      var pl, pr := Preorder(t.left), Preorder(t.right);
      forall k | 0 <= k < |Preorder(t)| ensures Preorder(t)[k].Node? && IsSubtree(Preorder(t)[k], t) {
        if k == 0 {
        } else if k <= |pl| {
          assert Preorder(t)[k] == pl[k - 1];
        } else {
          assert Preorder(t)[k] == pr[k - 1 - |pl|];
        }
      }
    }
  }

  lemma {:induction false} PreorderValues(t: Tree)
    ensures NodeValues(Preorder(t)) == Values(t)
  {
    if t.Node? {
      PreorderValues(t.left);
      PreorderValues(t.right);
      var pl, pr := Preorder(t.left), Preorder(t.right);
      NodeValuesAppend([t] + pl, pr);
      NodeValuesAppend([t], pl);
      assert NodeValues([t]) == multiset{t.val} by {
        assert [t][1..] == [];
      }
    }
  }

  /** The values held by a list of nodes. */
  function NodeValues(nodes: seq<Tree>): multiset<int> {
    if nodes == [] then multiset{}
    else (if nodes[0].Node? then multiset{nodes[0].val} else multiset{}) + NodeValues(nodes[1..])
  }

  lemma {:induction false} NodeValuesAppend(a: seq<Tree>, b: seq<Tree>)
    ensures NodeValues(a + b) == NodeValues(a) + NodeValues(b)
    decreases |a|
  {
    if a != [] {
      assert (a + b)[1..] == a[1..] + b;
      NodeValuesAppend(a[1..], b);
    } else {
      assert a + b == b;
    }
  }

  /** `flattenTree`'s inner `traverse`, pushing onto the result array. */
  method Traverse(node: Tree, result: seq<Tree>) returns (pushed: seq<Tree>)
    ensures pushed == result + Preorder(node)
    decreases node
  {
    pushed := result;
    if node.Nil? {
      return;
    }
    pushed := pushed + [node];
    pushed := Traverse(node.left, pushed);
    pushed := Traverse(node.right, pushed);
  }

  /** `flattenTree`: the nodes in preorder. */
  method FlattenTree(root: Tree) returns (result: seq<Tree>)
    ensures result == Preorder(root)
    ensures |result| == Size(root)
  {
    result := Traverse(root, []);
    PreorderSize(root);
  }

  // ---------------------------------------------------------------------
  // Level-order insertion (`insertGeneral`)
  // ---------------------------------------------------------------------

  /** A position in a tree: the turns taken from the root, `false` for left
      and `true` for right. The source keeps node objects in its queue; the
      model keeps the position of each, which is what lets it rebuild the
      tree around the new leaf. */
  type Path = seq<bool>

  function Child(t: Tree, right: bool): Tree
    requires t.Node?
  {
    if right then t.right else t.left
  }

  /** The subtree at `p`, or `Nil` once the walk falls off the tree. */
  function At(t: Tree, p: Path): Tree
    decreases |p|
  {
    if p == [] then t
    else if t.Nil? then Nil
    else At(Child(t, p[0]), p[1..])
  }

  function Parent(p: Path): Path
    requires p != []
  {
    p[..|p| - 1]
  }

  /** An empty place where a new leaf can hang: the root of an empty tree,
      or a missing child of a node. */
  ghost predicate IsSlot(t: Tree, p: Path) {
    At(t, p).Nil? && (p == [] || At(t, Parent(p)).Node?)
  }

  /** `t` with the subtree at `p` replaced by `s`. */
  function Graft(t: Tree, p: Path, s: Tree): Tree
    decreases |p|
  {
    if p == [] then s
    else if t.Nil? then t
    else if p[0] then Node(t.val, t.left, Graft(t.right, p[1..], s))
    else Node(t.val, Graft(t.left, p[1..], s), t.right)
  }

  /** Same-length paths in left-to-right order. */
  predicate LexLess(p: Path, q: Path)
    decreases |p|
  {
    p != [] && q != [] && ((!p[0] && q[0]) || (p[0] == q[0] && LexLess(p[1..], q[1..])))
  }

  /** Level order: shallower positions first, then left to right. */
  predicate Before(p: Path, q: Path) {
    |p| < |q| || (|p| == |q| && LexLess(p, q))
  }

  lemma {:induction false} LexLessIrreflexive(p: Path)
    ensures !LexLess(p, p)
    decreases |p|
  {
    if p != [] {
      LexLessIrreflexive(p[1..]);
    }
  }

  lemma {:induction false} LexLessTransitive(p: Path, q: Path, u: Path)
    requires |p| == |q| == |u|
    requires LexLess(p, q) && LexLess(q, u)
    ensures LexLess(p, u)
    decreases |p|
  {
    if p[0] == q[0] && q[0] == u[0] {
      LexLessTransitive(p[1..], q[1..], u[1..]);
    }
  }

  lemma {:induction false} LexLessTotal(p: Path, q: Path)
    requires |p| == |q| && p != q
    ensures LexLess(p, q) || LexLess(q, p)
    decreases |p|
  {
    if p[0] == q[0] {
      assert p == [p[0]] + p[1..] && q == [q[0]] + q[1..];
      LexLessTotal(p[1..], q[1..]);
    }
  }

  lemma {:induction false} LexLessSnoc(p: Path, q: Path, x: bool, y: bool)
    requires |p| == |q| && LexLess(p, q)
    ensures LexLess(p + [x], q + [y])
    decreases |p|
  {
    assert (p + [x])[0] == p[0] && (q + [y])[0] == q[0];
    if !(!p[0] && q[0]) {
      assert (p + [x])[1..] == p[1..] + [x] && (q + [y])[1..] == q[1..] + [y];
      LexLessSnoc(p[1..], q[1..], x, y);
    }
  }

  lemma {:induction false} LexLessSiblings(p: Path)
    ensures LexLess(p + [false], p + [true])
    decreases |p|
  {
    if p != [] {
      assert (p + [false])[1..] == p[1..] + [false] && (p + [true])[1..] == p[1..] + [true];
      LexLessSiblings(p[1..]);
    }
  }

  /** Level order is a strict total order in which the root comes first and
      which children inherit from their parents. */
  lemma {:induction false} BeforeIrreflexive(p: Path)
    ensures !Before(p, p)
  {
    LexLessIrreflexive(p);
  }

  lemma {:induction false} BeforeTransitive(p: Path, q: Path, u: Path)
    requires Before(p, q) && Before(q, u)
    ensures Before(p, u)
  {
    if |p| == |q| == |u| {
      LexLessTransitive(p, q, u);
    }
  }

  lemma {:induction false} BeforeTotal(p: Path, q: Path)
    requires p != q
    ensures Before(p, q) || Before(q, p)
  {
    if |p| == |q| {
      LexLessTotal(p, q);
    }
  }

  lemma {:induction false} BeforeChildren(p: Path, q: Path, x: bool, y: bool)
    requires Before(p, q)
    ensures Before(p + [x], q + [y])
  {
    if |p| == |q| {
      LexLessSnoc(p, q, x, y);
    }
  }

  lemma {:induction false} BeforeSiblings(p: Path)
    ensures Before(p + [false], p + [true])
  {
    LexLessSiblings(p);
  }

  // Facts about positions.

  lemma {:induction false} AtSnoc(t: Tree, p: Path, x: bool)
    ensures At(t, p + [x]) == if At(t, p).Nil? then Nil else Child(At(t, p), x)
    decreases |p|
  {
    if p != [] && t.Node? {
      assert (p + [x])[1..] == p[1..] + [x];
      AtSnoc(Child(t, p[0]), p[1..], x);
    }
  }

  /** A path ends in its last turn from its parent. */
  lemma {:induction false} ParentSnoc(p: Path)
    requires p != []
    ensures p == Parent(p) + [p[|p| - 1]]
  {
  }

  /** The node found at the parent of a path that ends at a node. */
  lemma {:induction false} NodeHasNodeParent(t: Tree, p: Path)
    requires p != [] && At(t, p).Node?
    ensures At(t, Parent(p)).Node?
  {
    ParentSnoc(p);
    AtSnoc(t, Parent(p), p[|p| - 1]);
  }

  lemma {:induction false} GraftAtSnoc(t: Tree, p: Path, x: bool, s: Tree)
    requires At(t, p).Node?
    ensures Graft(t, p + [x], s) ==
      Graft(t, p, if x then Node(At(t, p).val, At(t, p).left, s) else Node(At(t, p).val, s, At(t, p).right))
    decreases |p|
  {
    if p != [] {
      assert (p + [x])[1..] == p[1..] + [x];
      GraftAtSnoc(Child(t, p[0]), p[1..], x, s);
    }
  }

  /** Hanging a leaf in a slot adds its value once and one node. */
  lemma {:induction false} GraftLeaf(t: Tree, p: Path, val: int)
    requires At(t, p).Nil?
    requires p == [] || At(t, Parent(p)).Node?
    ensures Values(Graft(t, p, Node(val, Nil, Nil))) == Values(t) + multiset{val}
    ensures Size(Graft(t, p, Node(val, Nil, Nil))) == Size(t) + 1
    decreases |p|
  {
    if p != [] {
      if t.Nil? {
        assert false;
      }
      var tail := p[1..];
      var c := Child(t, p[0]);
      assert At(t, p) == At(c, tail);
      if tail != [] {
        assert Parent(p) == [p[0]] + Parent(tail);
        assert At(t, Parent(p)) == At(c, Parent(tail));
      }
      GraftLeaf(c, tail, val);
      var g := Graft(c, tail, Node(val, Nil, Nil));
      if p[0] {
        assert Graft(t, p, Node(val, Nil, Nil)) == Node(t.val, t.left, g);
      } else {
        assert Graft(t, p, Node(val, Nil, Nil)) == Node(t.val, g, t.right);
      }
    }
  }

  /** The sizes of the subtrees waiting in a queue; it shrinks by one with
      every node taken off. */
  function QueueSize(queue: seq<(Tree, Path)>): nat {
    if queue == [] then 0 else Size(queue[0].0) + QueueSize(queue[1..])
  }

  lemma {:induction false} QueueSizeAppend(a: seq<(Tree, Path)>, b: seq<(Tree, Path)>)
    ensures QueueSize(a + b) == QueueSize(a) + QueueSize(b)
    decreases |a|
  {
    if a == [] {
      assert a + b == b;
    } else {
      assert (a + b)[1..] == a[1..] + b;
      QueueSizeAppend(a[1..], b);
    }
  }

  function Paths(queue: seq<(Tree, Path)>): seq<Path> {
    seq(|queue|, i requires 0 <= i < |queue| => queue[i].1)
  }

  /** What the breadth-first queue looks like at the top of each round:
      - every entry is a node of `t` at its recorded position;
      - the positions rise in level order;
      - every entry was queued by a node already taken off (or is the root);
      - every place under a node already taken off holds a node, which has
        been taken off or is waiting. */
  ghost predicate QueueInvariant(t: Tree, queue: seq<(Tree, Path)>) {
    queue != [] && Entries(t, queue) && Ordered(queue) && Queued(queue) && Closed(t, queue)
  }

  ghost predicate Entries(t: Tree, queue: seq<(Tree, Path)>) {
    forall i :: 0 <= i < |queue| ==> queue[i].0 == At(t, queue[i].1) && queue[i].0.Node?
  }

  ghost predicate Ordered(queue: seq<(Tree, Path)>) {
    forall i, j :: 0 <= i < j < |queue| ==> Before(queue[i].1, queue[j].1)
  }

  ghost predicate Queued(queue: seq<(Tree, Path)>)
    requires queue != []
  {
    forall i :: 0 <= i < |queue| ==> queue[i].1 == [] || Before(Parent(queue[i].1), queue[0].1)
  }

  ghost predicate Closed(t: Tree, queue: seq<(Tree, Path)>)
    requires queue != []
  {
    forall n: Path :: ClosedAt(t, queue, n)
  }

  ghost predicate ClosedAt(t: Tree, queue: seq<(Tree, Path)>, n: Path)
    requires queue != []
  {
    n == [] || (At(t, Parent(n)).Node? && Before(Parent(n), queue[0].1)) ==>
      At(t, n).Node? && (Before(n, queue[0].1) || n in Paths(queue))
  }

  /** One round of the loop when the front node has both children: it leaves
      the queue and its children join the back. */
  function Advanced(queue: seq<(Tree, Path)>): seq<(Tree, Path)>
    requires queue != [] && queue[0].0.Node?
  {
    queue[1..] + [(queue[0].0.left, queue[0].1 + [false]), (queue[0].0.right, queue[0].1 + [true])]
  }

  lemma {:induction false} QueueInvariantInit(t: Tree)
    requires t.Node?
    ensures QueueInvariant(t, [(t, [])])
  {
    var queue := [(t, [])];
    assert Paths(queue) == [[]];
  }

  /** Entries behind the front lie before the front's children. */
  lemma {:induction false} BehindFront(queue: seq<(Tree, Path)>, i: int, x: bool)
    requires queue != [] && Ordered(queue) && Queued(queue)
    requires 1 <= i < |queue|
    ensures queue[i].1 != [] && Before(queue[i].1, queue[0].1 + [x])
  {
    assert Before(queue[0].1, queue[i].1);
    if queue[i].1 == [] {
      assert false;
    }
    ParentSnoc(queue[i].1);
    BeforeChildren(Parent(queue[i].1), queue[0].1, queue[i].1[|queue[i].1| - 1], x);
  }

  /** The new front comes after the old one and no later than its left child. */
  lemma {:induction false} NewFront(t: Tree, queue: seq<(Tree, Path)>)
    requires QueueInvariant(t, queue)
    ensures var h' := Advanced(queue)[0].1;
      Before(queue[0].1, h') && (h' == queue[0].1 + [false] || Before(h', queue[0].1 + [false]))
  {
    if |queue| > 1 {
      BehindFront(queue, 1, false);
    }
  }

  lemma {:induction false} StepEntries(t: Tree, queue: seq<(Tree, Path)>)
    requires QueueInvariant(t, queue)
    requires queue[0].0.left.Node? && queue[0].0.right.Node?
    ensures Entries(t, Advanced(queue))
  {
    var q' := Advanced(queue);
    AtSnoc(t, queue[0].1, false);
    AtSnoc(t, queue[0].1, true);
    forall i | 0 <= i < |q'|
      ensures q'[i].0 == At(t, q'[i].1) && q'[i].0.Node?
    {
      if i < |queue| - 1 {
        assert q'[i] == queue[i + 1];
      }
    }
  }

  lemma {:induction false} StepOrdered(t: Tree, queue: seq<(Tree, Path)>)
    requires QueueInvariant(t, queue)
    ensures Ordered(Advanced(queue))
  {
    var q' := Advanced(queue);
    var c := queue[0].1;
    forall i, j | 0 <= i < j < |q'|
      ensures Before(q'[i].1, q'[j].1)
    {
      if j < |queue| - 1 {
        assert q'[i] == queue[i + 1] && q'[j] == queue[j + 1];
      } else if i < |queue| - 1 {
        assert q'[i] == queue[i + 1];
        BehindFront(queue, i + 1, q'[j].1[|q'[j].1| - 1]);
        assert q'[j].1 == c + [q'[j].1[|q'[j].1| - 1]];
      } else {
        BeforeSiblings(c);
      }
    }
  }

  lemma {:induction false} StepQueued(t: Tree, queue: seq<(Tree, Path)>)
    requires QueueInvariant(t, queue)
    ensures Queued(Advanced(queue))
  {
    var q' := Advanced(queue);
    var c := queue[0].1;
    NewFront(t, queue);
    forall i | 0 <= i < |q'|
      ensures q'[i].1 == [] || Before(Parent(q'[i].1), q'[0].1)
    {
      if i < |queue| - 1 {
        assert q'[i] == queue[i + 1];
        if q'[i].1 != [] {
          BeforeTransitive(Parent(q'[i].1), c, q'[0].1);
        }
      } else {
        assert Parent(q'[i].1) == c;
      }
    }
  }

  /** A place under a node taken off before the old front. */
  lemma {:induction false} StepClosedOld(t: Tree, queue: seq<(Tree, Path)>, n: Path)
    requires QueueInvariant(t, queue)
    requires n == [] || (At(t, Parent(n)).Node? && Before(Parent(n), queue[0].1))
    ensures At(t, n).Node? && (Before(n, Advanced(queue)[0].1) || n in Paths(Advanced(queue)))
  {
    var q' := Advanced(queue);
    NewFront(t, queue);
    assert ClosedAt(t, queue, n);
    if Before(n, queue[0].1) {
      BeforeTransitive(n, queue[0].1, q'[0].1);
    } else {
      var k :| 0 <= k < |queue| && queue[k].1 == n;
      if k != 0 {
        assert Paths(q')[k - 1] == n;
      }
    }
  }

  /** A place under the old front itself: one of the two children queued. */
  lemma {:induction false} StepClosedChild(t: Tree, queue: seq<(Tree, Path)>, n: Path)
    requires QueueInvariant(t, queue)
    requires queue[0].0.left.Node? && queue[0].0.right.Node?
    requires n != [] && Parent(n) == queue[0].1
    ensures At(t, n).Node? && n in Paths(Advanced(queue))
  {
    var q' := Advanced(queue);
    var c, x := queue[0].1, n[|n| - 1];
    ParentSnoc(n);
    assert n == c + [x];
    AtSnoc(t, c, x);
    assert At(t, c) == queue[0].0;
    if x {
      assert Paths(q')[|q'| - 1] == n;
    } else {
      assert Paths(q')[|q'| - 2] == n;
    }
  }

  /** No place lies under a node strictly between the old and the new front. */
  lemma {:induction false} StepClosedGap(t: Tree, queue: seq<(Tree, Path)>, n: Path)
    requires QueueInvariant(t, queue)
    requires n != [] && At(t, Parent(n)).Node?
    requires Before(queue[0].1, Parent(n))
    ensures !Before(Parent(n), Advanced(queue)[0].1)
  {
    var q' := Advanced(queue);
    var c, h', p := queue[0].1, q'[0].1, Parent(n);
    var lc := c + [false];
    if !Before(p, h') {
      return;
    }
    NewFront(t, queue);
    assert p != [];
    NodeHasNodeParent(t, p);
    if Before(Parent(p), c) {
      assert ClosedAt(t, queue, p);
      if Before(p, c) {
        BeforeTransitive(p, c, p);
        BeforeIrreflexive(p);
      } else {
        var k :| 0 <= k < |queue| && queue[k].1 == p;
        if k == 0 {
          BeforeIrreflexive(c);
        } else {
          assert h' == queue[1].1;
          if k > 1 {
            BeforeTransitive(h', p, h');
          }
          BeforeIrreflexive(h');
        }
      }
      assert false;
    } else {
      // The grandparent is at or after the old front, so the parent is at
      // or after the front's left child, which is not before the new front.
      ParentSnoc(p);
      if Parent(p) != c {
        BeforeTotal(Parent(p), c);
        BeforeChildren(c, Parent(p), false, p[|p| - 1]);
      } else if p[|p| - 1] {
        BeforeSiblings(c);
      }
      assert lc == p || Before(lc, p);
      if h' == lc {
        if p != lc {
          BeforeTransitive(p, h', p);
        }
      } else if p == lc {
        BeforeTransitive(p, h', p);
      } else {
        BeforeTransitive(h', lc, p);
        BeforeTransitive(p, h', p);
      }
      BeforeIrreflexive(p);
      assert false;
    }
  }

  lemma {:induction false} StepClosedAt(t: Tree, queue: seq<(Tree, Path)>, n: Path)
    requires QueueInvariant(t, queue)
    requires queue[0].0.left.Node? && queue[0].0.right.Node?
    requires n == [] || (At(t, Parent(n)).Node? && Before(Parent(n), Advanced(queue)[0].1))
    ensures At(t, n).Node? && (Before(n, Advanced(queue)[0].1) || n in Paths(Advanced(queue)))
  {
    var c := queue[0].1;
    if n == [] || Before(Parent(n), c) {
      StepClosedOld(t, queue, n);
    } else if Parent(n) == c {
      StepClosedChild(t, queue, n);
    } else {
      BeforeTotal(Parent(n), c);
      StepClosedGap(t, queue, n);
      assert false;
    }
  }

  lemma {:induction false} StepClosed(t: Tree, queue: seq<(Tree, Path)>)
    requires QueueInvariant(t, queue)
    requires queue[0].0.left.Node? && queue[0].0.right.Node?
    ensures Closed(t, Advanced(queue))
  {
    forall n: Path
      ensures ClosedAt(t, Advanced(queue), n)
    {
      if n == [] || (At(t, Parent(n)).Node? && Before(Parent(n), Advanced(queue)[0].1)) {
        StepClosedAt(t, queue, n);
      }
    }
  }

  /** Taking a node with two children off the front and queueing both keeps
      the invariant. */
  lemma {:induction false} QueueInvariantStep(t: Tree, queue: seq<(Tree, Path)>)
    requires QueueInvariant(t, queue)
    requires queue[0].0.left.Node? && queue[0].0.right.Node?
    ensures QueueInvariant(t, Advanced(queue))
  {
    StepEntries(t, queue);
    StepOrdered(t, queue);
    StepQueued(t, queue);
    StepClosed(t, queue);
  }

  /** When the front node has no left child, its left is the first slot. */
  lemma {:induction false} LeftSlotFirst(t: Tree, queue: seq<(Tree, Path)>)
    requires QueueInvariant(t, queue)
    requires queue[0].0.left.Nil?
    ensures IsFirstSlot(t, queue[0].1 + [false])
  {
    var c := queue[0].1;
    var p := c + [false];
    AtSnoc(t, c, false);
    assert Parent(p) == c;
    assert ClosedAt(t, queue, []);
    forall q | IsSlot(t, q) && q != p
      ensures Before(p, q)
    {
      assert q != [];
      assert ClosedAt(t, queue, q);
      assert !Before(Parent(q), c);
      ParentSnoc(q);
      if Parent(q) == c {
        if q[|q| - 1] {
          assert q == c + [true];
          BeforeSiblings(c);
        } else {
          assert false;
        }
      } else {
        BeforeTotal(Parent(q), c);
        BeforeChildren(c, Parent(q), false, q[|q| - 1]);
      }
    }
  }

  /** When the front node has a left child but no right one, its right is
      the first slot. */
  lemma {:induction false} RightSlotFirst(t: Tree, queue: seq<(Tree, Path)>)
    requires QueueInvariant(t, queue)
    requires queue[0].0.left.Node? && queue[0].0.right.Nil?
    ensures IsFirstSlot(t, queue[0].1 + [true])
  {
    var c := queue[0].1;
    var p := c + [true];
    AtSnoc(t, c, false);
    AtSnoc(t, c, true);
    assert At(t, c) == queue[0].0;
    assert At(t, c + [false]).Node?;
    assert Parent(p) == c;
    assert ClosedAt(t, queue, []);
    forall q | IsSlot(t, q) && q != p
      ensures Before(p, q)
    {
      assert q != [];
      assert ClosedAt(t, queue, q);
      assert !Before(Parent(q), c);
      ParentSnoc(q);
      assert q != c + [false];
      ChildOf(q, c);
      BeforeTotal(Parent(q), c);
      BeforeChildren(c, Parent(q), true, q[|q| - 1]);
    }
  }

  /** The only two children of a position. */
  lemma {:induction false} ChildOf(q: Path, c: Path)
    requires q != []
    ensures Parent(q) == c ==> q == c + [false] || q == c + [true]
  {
    ParentSnoc(q);
    if q[|q| - 1] {
      assert q == Parent(q) + [true];
    } else {
      assert q == Parent(q) + [false];
    }
  }

  /** `p` is the first slot of `t` in level order. */
  ghost predicate IsFirstSlot(t: Tree, p: Path) {
    IsSlot(t, p) && forall q :: IsSlot(t, q) && q != p ==> Before(p, q)
  }

  /** The empty tree has one slot, its root. */
  lemma {:induction false} EmptyTreeSlot()
    ensures IsFirstSlot(Nil, [])
  {
    forall q | IsSlot(Nil, q) && q != []
      ensures Before([], q)
    {
    }
  }

  /** What `insertGeneral` promises: the new value hangs as a leaf in the
      first empty place in level order, and nothing else changes. */
  ghost predicate InsertedFirst(t: Tree, val: int, r: Tree) {
    && (exists p :: IsFirstSlot(t, p) && r == Graft(t, p, Node(val, Nil, Nil)))
    && Values(r) == Values(t) + multiset{val}
    && Size(r) == Size(t) + 1
  }

  /** `insertGeneral`: a breadth-first walk from the root, checking each
      node's left child and then its right child, hangs the new leaf at the
      first one missing. The walk always stops there: a finite tree has a
      missing child, so the queue never runs dry. */
  method InsertGeneral(t: Tree, val: int) returns (r: Tree)
    ensures InsertedFirst(t, val, r)
  {
    if t.Nil? {
      r := Node(val, Nil, Nil);
      EmptyTreeInsert(val);
      return;
    }
    var queue := [(t, [])];
    QueueInvariantInit(t);
    while true
      invariant QueueInvariant(t, queue)
      decreases QueueSize(queue)
    {
      ghost var before := queue;
      var current, path := queue[0].0, queue[0].1;
      queue := queue[1..];
      if current.left.Nil? {
        r := Graft(t, path, Node(current.val, Node(val, Nil, Nil), current.right));
        LeftSlotFirst(t, before);
        Placed(t, path, false, val);
        return;
      }
      queue := queue + [(current.left, path + [false])];
      if current.right.Nil? {
        r := Graft(t, path, Node(current.val, current.left, Node(val, Nil, Nil)));
        RightSlotFirst(t, before);
        Placed(t, path, true, val);
        return;
      }
      queue := queue + [(current.right, path + [true])];
      assert queue == Advanced(before);
      QueueInvariantStep(t, before);
      QueueShrinks(before);
    }
  }

  lemma {:induction false} EmptyTreeInsert(val: int)
    ensures InsertedFirst(Nil, val, Node(val, Nil, Nil))
  {
    EmptyTreeSlot();
    assert Node(val, Nil, Nil) == Graft(Nil, [], Node(val, Nil, Nil));
  }

  /** A round of the walk shrinks what is left to visit by one node. */
  lemma {:induction false} QueueShrinks(queue: seq<(Tree, Path)>)
    requires queue != [] && queue[0].0.Node?
    ensures QueueSize(Advanced(queue)) < QueueSize(queue)
  {
    var current, path := queue[0].0, queue[0].1;
    var pushed := [(current.left, path + [false]), (current.right, path + [true])];
    QueueSizeAppend(queue[1..], pushed);
    assert pushed[1..] == [pushed[1]] && [pushed[1]][1..] == [];
    assert QueueSize([pushed[1]]) == Size(current.right);
    assert QueueSize(pushed) == Size(current.left) + Size(current.right);
  }

  /** Setting the missing child of the node at `path` is hanging a leaf in
      that slot. */
  lemma {:induction false} Placed(t: Tree, path: Path, right: bool, val: int)
    requires At(t, path).Node? && IsFirstSlot(t, path + [right])
    ensures InsertedFirst(t, val,
      Graft(t, path, if right then Node(At(t, path).val, At(t, path).left, Node(val, Nil, Nil))
                     else Node(At(t, path).val, Node(val, Nil, Nil), At(t, path).right)))
  {
    var leaf := Node(val, Nil, Nil);
    GraftAtSnoc(t, path, right, leaf);
    GraftLeaf(t, path + [right], val);
  }

  // ---------------------------------------------------------------------
  // The handlers
  // ---------------------------------------------------------------------

  /** `handleInsert` once the input has parsed: the mode picks the insertion. */
  method HandleInsert(root: Tree, num: int, isBST: bool) returns (newRoot: Tree)
    ensures isBST ==> newRoot == InsertBST(root, num)
    ensures !isBST ==> InsertedFirst(root, num, newRoot)
    ensures Values(newRoot) == Values(root) + multiset{num}
  {
    if isBST {
      newRoot := InsertBST(root, num);
    } else {
      newRoot := InsertGeneral(root, num);
    }
  }

  /** What a handler stores with `setRoot({ ...updated })`: a copy of the
      root node, or, when `updated` is `null`, an empty object. The empty
      object is truthy, so it is drawn as a node without a value. */
  datatype ShownRoot = Drawn(tree: Tree) | Blank

  /** `handleDelete` as written: the result of `deleteNode` is always spread
      into a fresh object, `null` included. */
  method HandleDeleteAsWritten(root: Tree, num: int) returns (shown: ShownRoot)
    ensures shown.Drawn? ==> shown.tree.Node? && Deleted(root, num, shown.tree)
    ensures shown.Blank? ==> Deleted(root, num, Nil)
  {
    var updated := DeleteNode(root, num);
    if updated.Nil? {
      shown := Blank;
    } else {
      shown := Drawn(updated);
    }
  }

  /** Deleting the only value of a one-node tree leaves the blank node on
      screen instead of an empty tree. */
  method DeleteLastValueAsWritten() returns (shown: ShownRoot)
    ensures shown == Blank
  {
    shown := HandleDeleteAsWritten(Node(5, Nil, Nil), 5);
    ghost var kept := if shown.Drawn? then shown.tree else Nil;
    SoleValueDeleted(5, kept);
  }

  /** Deleting the value of a one-node search tree yields the empty tree. */
  lemma {:induction false} SoleValueDeleted(v: int, r: Tree)
    ensures Deleted(Node(v, Nil, Nil), v, r) ==> r == Nil
  {
    if Deleted(Node(v, Nil, Nil), v, r) {
      assert IsBST(Node(v, Nil, Nil));
      assert Values(Node(v, Nil, Nil)) == multiset{v};
      assert Values(r) == multiset{};
      EmptyValues(r);
    }
  }

  /** `handleDelete` as evidently intended: an emptied tree is stored as
      `null`, the empty tree. */
  method HandleDelete(root: Tree, num: int) returns (newRoot: Tree)
    ensures Deleted(root, num, newRoot)
    ensures IsBST(root) && Values(root) <= multiset{num} ==> newRoot == Nil
  {
    newRoot := DeleteNode(root, num);
    if IsBST(root) && Values(root) <= multiset{num} {
      EmptyValues(newRoot);
    }
  }

  /** Only the empty tree stores no values. */
  lemma {:induction false} EmptyValues(t: Tree)
    ensures Values(t) == multiset{} <==> t == Nil
  {
    if t.Node? {
      assert t.val in Values(t);
    }
  }
}
