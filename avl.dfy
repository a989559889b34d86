/** The AVL backend. A node stores its key, its value, its height and its two
    subtrees; every recursive operation returns the root of the rebuilt
    subtree, as the Go functions do, so the tree is modelled as a value and
    each in-place field update as the construction of the updated node. */
module Avl {
  import opened Keys
  import opened Outcomes

  datatype Tree<V> = Nil | Node(key: Key, value: V, height: nat, left: Tree<V>, right: Tree<V>)

  /** Go's `(*Node, error)` result of `insert` and `deleteNode`. */
  datatype Step<V> = Step(root: Tree<V>, err: Option<Error>)

  // ---------------------------------------------------------------------
  // Views of a tree used by the contracts

  /** The keys in in-order (left, node, right). */
  function Inorder<V>(t: Tree<V>): seq<Key>
  {
    match t
    case Nil => []
    case Node(k, _, _, l, r) => Inorder(l) + [k] + Inorder(r)
  }

  /** The key/value pairs in in-order. */
  function Entries<V>(t: Tree<V>): seq<(Key, V)>
  {
    match t
    case Nil => []
    case Node(k, v, _, l, r) => Entries(l) + [(k, v)] + Entries(r)
  }

  /** The height computed from the shape: the reference for the stored field. */
  function Depth<V>(t: Tree<V>): nat
  {
    match t
    case Nil => 0
    case Node(_, _, _, l, r) => 1 + Max(Depth(l), Depth(r))
  }

  /** Every stored height satisfies the height equation. */
  ghost predicate HeightsOK<V>(t: Tree<V>)
  {
    match t
    case Nil => true
    case Node(_, _, h, l, r) => h == 1 + Max(Height(l), Height(r)) && HeightsOK(l) && HeightsOK(r)
  }

  /** Every balance factor lies in {-1, 0, 1}. */
  ghost predicate Balanced<V>(t: Tree<V>)
  {
    match t
    case Nil => true
    case Node(_, _, _, l, r) => -1 <= GetBalance(t) <= 1 && Balanced(l) && Balanced(r)
  }

  /** A valid AVL tree: correct heights, balanced, keys strictly increasing in in-order. */
  ghost predicate IsAvl<V>(t: Tree<V>)
  {
    HeightsOK(t) && Balanced(t) && StrictlySorted(Inorder(t))
  }

  // ---------------------------------------------------------------------
  // height, max, getBalance

  function Height<V>(t: Tree<V>): nat
  {
    if t.Nil? then 0 else t.height
  }

  function Max(a: int, b: int): (r: int)
    ensures r >= a && r >= b && (r == a || r == b)
  {
    if a > b then a else b
  }

  function GetBalance<V>(t: Tree<V>): int
  {
    if t.Nil? then 0 else Height(t.left) - Height(t.right)
  }

  /** With correct stored heights the height of a tree is its depth, and its
      balance factor is the difference of its subtrees' depths (0 on nil). */
  lemma {:induction false} HeightIsDepth<V>(t: Tree<V>)
    requires HeightsOK(t)
    ensures Height(t) == Depth(t)
    ensures GetBalance(t) == if t.Nil? then 0 else Depth(t.left) - Depth(t.right)
  {
    if t.Node? {
      HeightIsDepth(t.left);
      HeightIsDepth(t.right);
    }
  }

  // ---------------------------------------------------------------------
  // Rotations

  function RightRotate<V>(y: Tree<V>): (r: Tree<V>)
    requires y.Node? && y.left.Node?
    ensures r.Node? && r.key == y.left.key && r.right.Node? && r.right.key == y.key
    ensures Inorder(r) == Inorder(y) && Entries(r) == Entries(y)
    ensures r.right.height == 1 + Max(Height(y.left.right), Height(y.right))
    ensures r.height == 1 + Max(Height(y.left.left), r.right.height)
    ensures HeightsOK(y.left.left) && HeightsOK(y.left.right) && HeightsOK(y.right) ==> HeightsOK(r)
  {
    var x := y.left;
    var t2 := x.right;
    var y' := Node(y.key, y.value, Max(Height(t2), Height(y.right)) + 1, t2, y.right);
    Node(x.key, x.value, Max(Height(x.left), Height(y')) + 1, x.left, y')
  }

  function LeftRotate<V>(x: Tree<V>): (r: Tree<V>)
    requires x.Node? && x.right.Node?
    ensures r.Node? && r.key == x.right.key && r.left.Node? && r.left.key == x.key
    ensures Inorder(r) == Inorder(x) && Entries(r) == Entries(x)
    ensures r.left.height == 1 + Max(Height(x.left), Height(x.right.left))
    ensures r.height == 1 + Max(r.left.height, Height(x.right.right))
    ensures HeightsOK(x.left) && HeightsOK(x.right.left) && HeightsOK(x.right.right) ==> HeightsOK(r)
  {
    var y := x.right;
    var t2 := y.left;
    var x' := Node(x.key, x.value, Max(Height(x.left), Height(t2)) + 1, x.left, t2);
    Node(y.key, y.value, Max(Height(x'), Height(y.right)) + 1, x', y.right)
  }

  // ---------------------------------------------------------------------
  // Rotations restore balance

  /** A single right rotation of a left-heavy node (the left-left case). */
  lemma {:induction false} RightRotateAvl<V>(node: Tree<V>)
    requires node.Node? && node.left.Node?
    requires HeightsOK(node.left) && Balanced(node.left) && HeightsOK(node.right) && Balanced(node.right)
    requires Height(node.left) == Height(node.right) + 2 && 0 <= GetBalance(node.left) <= 1
    ensures HeightsOK(RightRotate(node)) && Balanced(RightRotate(node))
    ensures Height(RightRotate(node)) == Height(node.right) + 3 - GetBalance(node.left)
  {
  }

  /** A single left rotation of a right-heavy node (the right-right case). */
  lemma {:induction false} LeftRotateAvl<V>(node: Tree<V>)
    requires node.Node? && node.right.Node?
    requires HeightsOK(node.left) && Balanced(node.left) && HeightsOK(node.right) && Balanced(node.right)
    requires Height(node.right) == Height(node.left) + 2 && -1 <= GetBalance(node.right) <= 0
    ensures HeightsOK(LeftRotate(node)) && Balanced(LeftRotate(node))
    ensures Height(LeftRotate(node)) == Height(node.left) + 3 + GetBalance(node.right)
  {
  }

  /** Left rotation of the left child, then right rotation (the left-right case). */
  lemma {:induction false} LeftRightAvl<V>(node: Tree<V>)
    requires node.Node? && node.left.Node?
    requires HeightsOK(node.left) && Balanced(node.left) && HeightsOK(node.right) && Balanced(node.right)
    requires Height(node.left) == Height(node.right) + 2 && GetBalance(node.left) == -1
    ensures node.left.right.Node?
    ensures HeightsOK(RightRotate(node.(left := LeftRotate(node.left))))
    ensures Balanced(RightRotate(node.(left := LeftRotate(node.left))))
    ensures Height(RightRotate(node.(left := LeftRotate(node.left)))) == Height(node.right) + 2
  {
    var x := node.left.right;
    assert x.Node?;
    assert HeightsOK(x.left) && HeightsOK(x.right) && Balanced(x.left) && Balanced(x.right);
  }

  /** Right rotation of the right child, then left rotation (the right-left case). */
  lemma {:induction false} RightLeftAvl<V>(node: Tree<V>)
    requires node.Node? && node.right.Node?
    requires HeightsOK(node.left) && Balanced(node.left) && HeightsOK(node.right) && Balanced(node.right)
    requires Height(node.right) == Height(node.left) + 2 && GetBalance(node.right) == 1
    ensures node.right.left.Node?
    ensures HeightsOK(LeftRotate(node.(right := RightRotate(node.right))))
    ensures Balanced(LeftRotate(node.(right := RightRotate(node.right))))
    ensures Height(LeftRotate(node.(right := RightRotate(node.right)))) == Height(node.left) + 2
  {
    var x := node.right.left;
    assert x.Node?;
    assert HeightsOK(x.left) && HeightsOK(x.right) && Balanced(x.left) && Balanced(x.right);
  }

  // ---------------------------------------------------------------------
  // Membership in an ordered tree

  lemma {:induction false} MemberSplit<V>(t: Tree<V>, key: Key)
    requires t.Node? && StrictlySorted(Inorder(t))
    ensures StrictlySorted(Inorder(t.left)) && StrictlySorted(Inorder(t.right))
    ensures AllBelow(Inorder(t.left), t.key) && AllAbove(Inorder(t.right), t.key)
    ensures Less(key, t.key) ==> (key in Inorder(t) <==> key in Inorder(t.left))
    ensures Less(t.key, key) ==> (key in Inorder(t) <==> key in Inorder(t.right))
    ensures key == t.key ==> key in Inorder(t)
  {
    StrictlySortedSplit(Inorder(t.left), t.key, Inorder(t.right));
    var l, r := Inorder(t.left), Inorder(t.right);
    if Less(key, t.key) {
      LessAsymmetric(key, t.key);
      forall i | 0 <= i < |r| ensures r[i] != key {
        LessTransitive(key, t.key, r[i]);
        LessAsymmetric(key, r[i]);
      }
    }
    if Less(t.key, key) {
      LessAsymmetric(t.key, key);
      forall i | 0 <= i < |l| ensures l[i] != key {
        LessTransitive(l[i], t.key, key);
        LessAsymmetric(l[i], key);
      }
    }
  }

  /** Putting a key below `x` into a subtree keeps every key of it below `x`. */
  lemma {:induction false} AllBelowGrow(s: seq<Key>, s': seq<Key>, key: Key, x: Key)
    requires AllBelow(s, x) && Less(key, x)
    requires multiset(s') == multiset(s) + multiset{key}
    ensures AllBelow(s', x)
  {
    forall i | 0 <= i < |s'| ensures Less(s'[i], x) {
      assert s'[i] in multiset(s');
      if s'[i] != key {
        assert s'[i] in multiset(s);
      }
    }
  }

  lemma {:induction false} AllAboveGrow(s: seq<Key>, s': seq<Key>, key: Key, x: Key)
    requires AllAbove(s, x) && Less(x, key)
    requires multiset(s') == multiset(s) + multiset{key}
    ensures AllAbove(s', x)
  {
    forall i | 0 <= i < |s'| ensures Less(x, s'[i]) {
      assert s'[i] in multiset(s');
      if s'[i] != key {
        assert s'[i] in multiset(s);
      }
    }
  }

  lemma {:induction false} AllBelowShrink(s: seq<Key>, s': seq<Key>, x: Key)
    requires AllBelow(s, x) && multiset(s') <= multiset(s)
    ensures AllBelow(s', x)
  {
    forall i | 0 <= i < |s'| ensures Less(s'[i], x) {
      assert s'[i] in multiset(s');
      assert s'[i] in multiset(s);
    }
  }

  lemma {:induction false} AllAboveShrink(s: seq<Key>, s': seq<Key>, x: Key)
    requires AllAbove(s, x) && multiset(s') <= multiset(s)
    ensures AllAbove(s', x)
  {
    forall i | 0 <= i < |s'| ensures Less(x, s'[i]) {
      assert s'[i] in multiset(s');
      assert s'[i] in multiset(s);
    }
  }

  // ---------------------------------------------------------------------
  // insert

  /** What the unwind step of `insert` knows of a node whose child
      has just been replaced: the children are AVL trees, the balance factor
      is within two, and when it is two the inserted key lies on the side
      of the taller child that made it grow. */
  ghost predicate InsertReady<V>(n: Tree<V>, key: Key)
  {
    && n.Node? && IsAvl(n.left) && IsAvl(n.right) && StrictlySorted(Inorder(n))
    && -2 <= Height(n.left) - Height(n.right) <= 2
    && (Height(n.left) - Height(n.right) == 2 ==>
         (Less(key, n.left.key) && GetBalance(n.left) == 1) || (Less(n.left.key, key) && GetBalance(n.left) == -1))
    && (Height(n.left) - Height(n.right) == -2 ==>
         (Less(n.right.key, key) && GetBalance(n.right) == -1) || (Less(key, n.right.key) && GetBalance(n.right) == 1))
  }

  /** The unwind step of `insert` (its lines after the recursive call):
      recompute the height and apply the rotation that the inserted key's
      position selects. */
  function InsertRebalance<V>(n: Tree<V>, key: Key): (r: Tree<V>)
    requires InsertReady(n, key)
    ensures IsAvl(r) && Inorder(r) == Inorder(n) && Entries(r) == Entries(n)
    ensures -1 <= Height(n.left) - Height(n.right) <= 1 ==>
      r == n.(height := 1 + Max(Height(n.left), Height(n.right)))
    ensures Height(n.left) - Height(n.right) in {-2, 2} ==> Height(r) == Max(Height(n.left), Height(n.right))
  {
    var node := n.(height := 1 + Max(Height(n.left), Height(n.right)));
    var balance := GetBalance(node);
    if balance > 1 && Less(key, node.left.key) then
      LessAsymmetric(key, node.left.key);
      RightRotateAvl(node);
      RightRotate(node)
    else if balance < -1 && Less(node.right.key, key) then
      LessAsymmetric(node.right.key, key);
      LeftRotateAvl(node);
      LeftRotate(node)
    else if balance > 1 && Less(node.left.key, key) then
      LeftRightAvl(node);
      RightRotate(node.(left := LeftRotate(node.left)))
    else if balance < -1 && Less(key, node.right.key) then
      RightLeftAvl(node);
      LeftRotate(node.(right := RightRotate(node.right)))
    else
      node
  }

  /** `u` is what inserting the absent `key` with `value` into `t` should give:
      an AVL tree holding one more entry, at most one level taller, and, if it
      grew to two levels or more, leaning towards the side the key went to. */
  ghost predicate InsertedInto<V>(t: Tree<V>, key: Key, value: V, u: Tree<V>)
  {
    && IsAvl(u)
    && multiset(Inorder(u)) == multiset(Inorder(t)) + multiset{key}
    && multiset(Entries(u)) == multiset(Entries(t)) + multiset{(key, value)}
    && Height(t) <= Height(u) <= Height(t) + 1
    && (Height(u) == Height(t) + 1 && Height(u) >= 2 ==>
         (Less(key, u.key) && GetBalance(u) == 1) || (Less(u.key, key) && GetBalance(u) == -1))
  }

  lemma {:induction false} InsertLeftStep<V>(t: Tree<V>, key: Key, value: V, u: Tree<V>)
    requires t.Node? && IsAvl(t) && Less(key, t.key) && InsertedInto(t.left, key, value, u)
    ensures InsertReady(Node(t.key, t.value, t.height, u, t.right), key)
    ensures InsertedInto(t, key, value, InsertRebalance(Node(t.key, t.value, t.height, u, t.right), key))
  {
    var n := Node(t.key, t.value, t.height, u, t.right);
    MemberSplit(t, key);
    AllBelowGrow(Inorder(t.left), Inorder(u), key, t.key);
    StrictlySortedSplit(Inorder(u), t.key, Inorder(t.right));
    assert StrictlySorted(Inorder(n));
    assert InsertReady(n, key);
    GrowContents(t.left, u, key, value, t.key, t.value, t.right, t.height);
    InsertDone(t, key, value, n);
  }

  lemma {:induction false} InsertRightStep<V>(t: Tree<V>, key: Key, value: V, u: Tree<V>)
    requires t.Node? && IsAvl(t) && Less(t.key, key) && InsertedInto(t.right, key, value, u)
    ensures InsertReady(Node(t.key, t.value, t.height, t.left, u), key)
    ensures InsertedInto(t, key, value, InsertRebalance(Node(t.key, t.value, t.height, t.left, u), key))
  {
    var n := Node(t.key, t.value, t.height, t.left, u);
    MemberSplit(t, key);
    AllAboveGrow(Inorder(t.right), Inorder(u), key, t.key);
    StrictlySortedSplit(Inorder(t.left), t.key, Inorder(u));
    assert StrictlySorted(Inorder(n));
    assert InsertReady(n, key);
    GrowContents(t.right, u, key, value, t.key, t.value, t.left, t.height);
    InsertDone(t, key, value, n);
  }

  /** An unwind step whose node gained the key below it ends in a tree the
      key was inserted into. */
  lemma {:induction false} InsertDone<V>(t: Tree<V>, key: Key, value: V, n: Tree<V>)
    requires t.Node? && IsAvl(t) && InsertReady(n, key) && n.key == t.key
    requires (n.right == t.right && Less(key, t.key) && Height(t.left) <= Height(n.left) <= Height(t.left) + 1
               && (Height(n.left) == Height(t.left) + 1 && Height(n.left) >= 2 ==>
                   (Less(key, n.left.key) && GetBalance(n.left) == 1) || (Less(n.left.key, key) && GetBalance(n.left) == -1)))
          || (n.left == t.left && Less(t.key, key) && Height(t.right) <= Height(n.right) <= Height(t.right) + 1
               && (Height(n.right) == Height(t.right) + 1 && Height(n.right) >= 2 ==>
                   (Less(key, n.right.key) && GetBalance(n.right) == 1) || (Less(n.right.key, key) && GetBalance(n.right) == -1)))
    requires multiset(Inorder(n)) == multiset(Inorder(t)) + multiset{key}
    requires multiset(Entries(n)) == multiset(Entries(t)) + multiset{(key, value)}
    ensures InsertedInto(t, key, value, InsertRebalance(n, key))
  {
    InsertHeights(t, n, InsertRebalance(n, key), key);
  }

  /** The height clauses of `InsertedInto` for one unwind step. */
  lemma {:induction false} InsertHeights<V>(t: Tree<V>, n: Tree<V>, r: Tree<V>, key: Key)
    requires t.Node? && HeightsOK(t) && Balanced(t) && InsertReady(n, key) && r == InsertRebalance(n, key)
    requires n.key == t.key
    requires (n.right == t.right && Less(key, t.key) && Height(t.left) <= Height(n.left) <= Height(t.left) + 1
               && (Height(n.left) == Height(t.left) + 1 && Height(n.left) >= 2 ==>
                   (Less(key, n.left.key) && GetBalance(n.left) == 1) || (Less(n.left.key, key) && GetBalance(n.left) == -1)))
          || (n.left == t.left && Less(t.key, key) && Height(t.right) <= Height(n.right) <= Height(t.right) + 1
               && (Height(n.right) == Height(t.right) + 1 && Height(n.right) >= 2 ==>
                   (Less(key, n.right.key) && GetBalance(n.right) == 1) || (Less(n.right.key, key) && GetBalance(n.right) == -1)))
    ensures Height(t) <= Height(r) <= Height(t) + 1
    ensures Height(r) == Height(t) + 1 && Height(r) >= 2 ==>
      (Less(key, r.key) && GetBalance(r) == 1) || (Less(r.key, key) && GetBalance(r) == -1)
  {
    var d := Height(n.left) - Height(n.right);
    if -1 <= d <= 1 {
      assert r == n.(height := 1 + Max(Height(n.left), Height(n.right)));
      if Less(key, t.key) {
        LessAsymmetric(key, t.key);
      } else {
        LessAsymmetric(t.key, key);
      }
    }
  }

  /** Replacing one child by a tree with one more entry adds that entry to
      the node (on either side). */
  lemma {:induction false} GrowContents<V>(c: Tree<V>, u: Tree<V>, key: Key, value: V, k: Key, v: V, o: Tree<V>, h: nat)
    requires multiset(Inorder(u)) == multiset(Inorder(c)) + multiset{key}
    requires multiset(Entries(u)) == multiset(Entries(c)) + multiset{(key, value)}
    ensures multiset(Inorder(Node(k, v, h, u, o))) == multiset(Inorder(Node(k, v, h, c, o))) + multiset{key}
    ensures multiset(Entries(Node(k, v, h, u, o))) == multiset(Entries(Node(k, v, h, c, o))) + multiset{(key, value)}
    ensures multiset(Inorder(Node(k, v, h, o, u))) == multiset(Inorder(Node(k, v, h, o, c))) + multiset{key}
    ensures multiset(Entries(Node(k, v, h, o, u))) == multiset(Entries(Node(k, v, h, o, c))) + multiset{(key, value)}
  {
    GrowSeq(Inorder(c), Inorder(u), key, [k], Inorder(o));
    GrowSeq(Entries(c), Entries(u), (key, value), [(k, v)], Entries(o));
  }

  lemma {:induction false} GrowSeq<T>(c: seq<T>, u: seq<T>, x: T, mid: seq<T>, o: seq<T>)
    requires multiset(u) == multiset(c) + multiset{x}
    ensures multiset(u + mid + o) == multiset(c + mid + o) + multiset{x}
    ensures multiset(o + mid + u) == multiset(o + mid + c) + multiset{x}
  {
  }

  /** Go's `insert`. A key absent from the tree is added and the tree
      rebalanced; as written, a duplicate key yields `(nil, err)` and every
      ancestor stores that nil, so the whole tree comes back as nil. */
  function InsertNode<V>(t: Tree<V>, key: Key, value: V): (r: Step<V>)
    requires IsAvl(t)
    ensures r.err.Some? <==> key in Inorder(t)
    ensures r.err.Some? ==> r.err == Some(DuplicateKey) && r.root == Nil
    ensures r.err.None? ==> InsertedInto(t, key, value, r.root)
  {
    match t
    case Nil =>
      Step(Node(key, value, 1, Nil, Nil), None)
    case Node(k, v, h, l, rt) =>
      MemberSplit(t, key);
      if Less(key, k) then
        var s := InsertNode(l, key, value);
        if s.err.Some? then
          Step(Nil, s.err)
        else
          InsertLeftStep(t, key, value, s.root);
          Step(InsertRebalance(Node(k, v, h, s.root, rt), key), None)
      else if Less(k, key) then
        var s := InsertNode(rt, key, value);
        if s.err.Some? then
          Step(Nil, s.err)
        else
          InsertRightStep(t, key, value, s.root);
          Step(InsertRebalance(Node(k, v, h, l, s.root), key), None)
      else
        LessTotal(key, k);
        Step(Nil, Some(DuplicateKey))
  }

  // ---------------------------------------------------------------------
  // minValueNode

  /** The leftmost node of a non-empty tree: the specification of the
      `minValueNode` walk. */
  function MinNode<V>(t: Tree<V>): (r: Tree<V>)
    requires t.Node?
    ensures r.Node? && r.left.Nil?
    ensures |Inorder(t)| > 0 && Inorder(t)[0] == r.key
    ensures |Entries(t)| > 0 && Entries(t)[0] == (r.key, r.value)
  {
    if t.left.Nil? then t else MinNode(t.left)
  }

  /** Go's `minValueNode`: follow left links until there is none. */
  method MinValueNode<V>(node: Tree<V>) returns (current: Tree<V>)
    requires node.Node?
    ensures current == MinNode(node)
    ensures current.Node? && current.left.Nil? && current.key == Inorder(node)[0]
  {
    current := node;
    while current.left.Node?
      invariant current.Node? && MinNode(current) == MinNode(node)
      decreases current
    {
      current := current.left;
    }
  }

  // ---------------------------------------------------------------------
  // deleteNode

  /** What the unwind step of `deleteNode` may rely on: AVL children whose
      heights differ by at most two. */
  ghost predicate DeleteReady<V>(n: Tree<V>)
  {
    && n.Node? && IsAvl(n.left) && IsAvl(n.right) && StrictlySorted(Inorder(n))
    && -2 <= Height(n.left) - Height(n.right) <= 2
  }

  /** The unwind step of `deleteNode`: recompute the height and rotate by the
      balance of the heavier child. */
  function DeleteRebalance<V>(n: Tree<V>): (r: Tree<V>)
    requires DeleteReady(n)
    ensures IsAvl(r) && Inorder(r) == Inorder(n) && Entries(r) == Entries(n)
    ensures -1 <= Height(n.left) - Height(n.right) <= 1 ==>
      r == n.(height := 1 + Max(Height(n.left), Height(n.right)))
    ensures Height(n.left) - Height(n.right) in {-2, 2} ==>
      Max(Height(n.left), Height(n.right)) <= Height(r) <= 1 + Max(Height(n.left), Height(n.right))
  {
    var node := n.(height := Max(Height(n.left), Height(n.right)) + 1);
    var balance := GetBalance(node);
    if balance > 1 && GetBalance(node.left) >= 0 then
      RightRotateAvl(node);
      RightRotate(node)
    else if balance > 1 && GetBalance(node.left) < 0 then
      LeftRightAvl(node);
      RightRotate(node.(left := LeftRotate(node.left)))
    else if balance < -1 && GetBalance(node.right) <= 0 then
      LeftRotateAvl(node);
      LeftRotate(node)
    else if balance < -1 && GetBalance(node.right) > 0 then
      RightLeftAvl(node);
      LeftRotate(node.(right := RightRotate(node.right)))
    else
      node
  }

  /** `u` is what deleting the present `key` from `t` should give: an AVL tree
      that has lost one entry, the one for `key`, and at most one level. */
  ghost predicate DeletedFrom<V>(t: Tree<V>, key: Key, u: Tree<V>)
  {
    && IsAvl(u)
    && multiset(Inorder(u)) + multiset{key} == multiset(Inorder(t))
    && multiset(Entries(u)) <= multiset(Entries(t))
    && Height(t) - 1 <= Height(u) <= Height(t)
  }

  lemma {:induction false} DeleteLeftStep<V>(t: Tree<V>, key: Key, u: Tree<V>)
    requires t.Node? && IsAvl(t) && Less(key, t.key) && key in Inorder(t.left) && DeletedFrom(t.left, key, u)
    ensures DeleteReady(Node(t.key, t.value, t.height, u, t.right))
    ensures DeletedFrom(t, key, DeleteRebalance(Node(t.key, t.value, t.height, u, t.right)))
  {
    var n := Node(t.key, t.value, t.height, u, t.right);
    MemberSplit(t, key);
    AllBelowShrink(Inorder(t.left), Inorder(u), t.key);
    StrictlySortedSplit(Inorder(u), t.key, Inorder(t.right));
    assert StrictlySorted(Inorder(n));
    ShrinkContents(t.left, u, key, t.key, t.value, t.right, t.height);
    DeleteDone(t, key, n);
  }

  lemma {:induction false} DeleteRightStep<V>(t: Tree<V>, key: Key, u: Tree<V>)
    requires t.Node? && IsAvl(t) && Less(t.key, key) && key in Inorder(t.right) && DeletedFrom(t.right, key, u)
    ensures DeleteReady(Node(t.key, t.value, t.height, t.left, u))
    ensures DeletedFrom(t, key, DeleteRebalance(Node(t.key, t.value, t.height, t.left, u)))
  {
    var n := Node(t.key, t.value, t.height, t.left, u);
    MemberSplit(t, key);
    AllAboveShrink(Inorder(t.right), Inorder(u), t.key);
    StrictlySortedSplit(Inorder(t.left), t.key, Inorder(u));
    assert StrictlySorted(Inorder(n));
    ShrinkContents(t.right, u, key, t.key, t.value, t.left, t.height);
    DeleteDone(t, key, n);
  }

  /** The height clause of `DeletedFrom` for one unwind step. */
  lemma {:induction false} DeleteHeights<V>(t: Tree<V>, n: Tree<V>, r: Tree<V>)
    requires t.Node? && HeightsOK(t) && Balanced(t) && DeleteReady(n) && r == DeleteRebalance(n)
    requires (n.right == t.right && Height(t.left) - 1 <= Height(n.left) <= Height(t.left))
          || (n.left == t.left && Height(t.right) - 1 <= Height(n.right) <= Height(t.right))
    ensures Height(t) - 1 <= Height(r) <= Height(t)
  {
  }

  /** An unwind step whose node lost one key below it ends in a tree the
      key was deleted from. */
  lemma {:induction false} DeleteDone<V>(t: Tree<V>, key: Key, n: Tree<V>)
    requires t.Node? && IsAvl(t) && n.Node? && IsAvl(n.left) && IsAvl(n.right) && StrictlySorted(Inorder(n))
    requires (n.right == t.right && Height(t.left) - 1 <= Height(n.left) <= Height(t.left))
          || (n.left == t.left && Height(t.right) - 1 <= Height(n.right) <= Height(t.right))
    requires multiset(Inorder(n)) + multiset{key} == multiset(Inorder(t))
    requires multiset(Entries(n)) <= multiset(Entries(t))
    ensures DeleteReady(n) && DeletedFrom(t, key, DeleteRebalance(n))
  {
    DeleteHeights(t, n, DeleteRebalance(n));
  }

  /** Replacing one child by a tree with one entry less removes that entry
      from the node (on either side). */
  lemma {:induction false} ShrinkContents<V>(c: Tree<V>, u: Tree<V>, key: Key, k: Key, v: V, o: Tree<V>, h: nat)
    requires multiset(Inorder(u)) + multiset{key} == multiset(Inorder(c))
    requires multiset(Entries(u)) <= multiset(Entries(c))
    ensures multiset(Inorder(Node(k, v, h, u, o))) + multiset{key} == multiset(Inorder(Node(k, v, h, c, o)))
    ensures multiset(Entries(Node(k, v, h, u, o))) <= multiset(Entries(Node(k, v, h, c, o)))
    ensures multiset(Inorder(Node(k, v, h, o, u))) + multiset{key} == multiset(Inorder(Node(k, v, h, o, c)))
    ensures multiset(Entries(Node(k, v, h, o, u))) <= multiset(Entries(Node(k, v, h, o, c)))
  {
    GrowSeq(Inorder(u), Inorder(c), key, [k], Inorder(o));
    SubSeq(Entries(c), Entries(u), [(k, v)], Entries(o));
  }

  lemma {:induction false} SubSeq<T>(c: seq<T>, u: seq<T>, mid: seq<T>, o: seq<T>)
    requires multiset(u) <= multiset(c)
    ensures multiset(u + mid + o) <= multiset(c + mid + o)
    ensures multiset(o + mid + u) <= multiset(o + mid + c)
  {
  }

  /** A node with at most one child is replaced by that child (`*root = *temp`). */
  lemma {:induction false} DeleteSpliceStep<V>(t: Tree<V>)
    requires t.Node? && IsAvl(t) && (t.left.Nil? || t.right.Nil?)
    ensures var temp := if t.left.Node? then t.left else t.right;
      temp.Node? ==> DeleteReady(temp) && DeletedFrom(t, t.key, DeleteRebalance(temp))
    ensures t.left.Nil? && t.right.Nil? ==> DeletedFrom(t, t.key, Nil)
  {
    var temp := if t.left.Node? then t.left else t.right;
    assert IsAvl(temp) by {
      MemberSplit(t, t.key);
    }
    if temp.Node? {
      MemberSplit(temp, temp.key);
      assert DeleteReady(temp);
      assert DeleteRebalance(temp) == temp;
      SpliceContents(t);
    }
  }

  lemma {:induction false} SpliceContents<V>(t: Tree<V>)
    requires t.Node? && (t.left.Nil? || t.right.Nil?)
    ensures var temp := if t.left.Node? then t.left else t.right;
      multiset(Inorder(temp)) + multiset{t.key} == multiset(Inorder(t)) &&
      multiset(Entries(temp)) <= multiset(Entries(t))
  {
  }

  /** A node with two children takes its successor's entry and the successor
      is deleted from the right subtree. */
  lemma {:induction false} DeleteSuccessorStep<V>(t: Tree<V>, u: Tree<V>)
    requires t.Node? && IsAvl(t) && t.left.Node? && t.right.Node?
    requires DeletedFrom(t.right, MinNode(t.right).key, u)
    ensures DeleteReady(Node(MinNode(t.right).key, MinNode(t.right).value, t.height, t.left, u))
    ensures DeletedFrom(t, t.key, DeleteRebalance(Node(MinNode(t.right).key, MinNode(t.right).value, t.height, t.left, u)))
  {
    var m := MinNode(t.right);
    var n := Node(m.key, m.value, t.height, t.left, u);
    MemberSplit(t, t.key);
    MinRemovedAbove(Inorder(t.right), Inorder(u), m.key);
    assert m.key in Inorder(t.right);
    AllBelowNewRoot(Inorder(t.left), t.key, m.key, Inorder(t.right));
    StrictlySortedSplit(Inorder(t.left), m.key, Inorder(u));
    assert StrictlySorted(Inorder(n));
    EntriesMinRemoved(t.right, u);
    SuccessorContents(t, u, m.key, m.value);
    DeleteDone(t, t.key, n);
  }

  lemma {:induction false} SuccessorContents<V>(t: Tree<V>, u: Tree<V>, mk: Key, mv: V)
    requires t.Node?
    requires multiset(Inorder(u)) + multiset{mk} == multiset(Inorder(t.right))
    requires multiset(Entries(u)) + multiset{(mk, mv)} <= multiset(Entries(t.right))
    ensures multiset(Inorder(Node(mk, mv, t.height, t.left, u))) + multiset{t.key} == multiset(Inorder(t))
    ensures multiset(Entries(Node(mk, mv, t.height, t.left, u))) <= multiset(Entries(t))
  {
  }

  /** Removing the minimum's key from a subtree removes its entry, so moving
      that entry up keeps the multiset of entries within the original one. */
  lemma {:induction false} EntriesMinRemoved<V>(r: Tree<V>, u: Tree<V>)
    requires r.Node? && StrictlySorted(Inorder(r))
    requires multiset(Entries(u)) <= multiset(Entries(r))
    requires multiset(Inorder(u)) + multiset{MinNode(r).key} == multiset(Inorder(r))
    ensures multiset(Entries(u)) + multiset{(MinNode(r).key, MinNode(r).value)} <= multiset(Entries(r))
  {
    var m := MinNode(r);
    var e := (m.key, m.value);
    StrictlySortedCount(Inorder(r), 0);
    MissingKeyNoEntry(u, m.key, m.value);
    assert Entries(r)[0] == e;
    AddFresh(multiset(Entries(u)), multiset(Entries(r)), e);
  }

  /** A key occurring nowhere in a tree has no entry in it. */
  lemma {:induction false} MissingKeyNoEntry<V>(u: Tree<V>, k: Key, v: V)
    requires multiset(Inorder(u))[k] == 0
    ensures (k, v) !in multiset(Entries(u))
  {
    EntriesKeys(u);
  }

  lemma {:induction false} AddFresh<T>(a: multiset<T>, b: multiset<T>, e: T)
    requires a <= b && e !in a && e in b
    ensures a + multiset{e} <= b
  {
  }

  /** Every entry's key is one of the tree's keys. */
  lemma {:induction false} EntriesKeys<V>(t: Tree<V>)
    ensures forall e :: e in Entries(t) ==> e.0 in Inorder(t)
  {
    if t.Node? {
      EntriesKeys(t.left);
      EntriesKeys(t.right);
    }
  }

  /** In a strictly sorted sequence each element occurs once. */
  lemma {:induction false} StrictlySortedCount(s: seq<Key>, i: int)
    requires StrictlySorted(s) && 0 <= i < |s|
    ensures multiset(s)[s[i]] == 1
  {
    var x := s[i];
    assert s == s[..i] + [x] + s[i+1..];
    assert x !in s[..i] by {
      if x in s[..i] {
        var j :| 0 <= j < i && s[..i][j] == x;
        StrictlySortedDistinct(s, i, j);
      }
    }
    assert x !in s[i+1..] by {
      if x in s[i+1..] {
        var j :| 0 <= j < |s[i+1..]| && s[i+1..][j] == x;
        StrictlySortedDistinct(s, i, i + 1 + j);
      }
    }
    assert multiset(s) == multiset(s[..i]) + multiset{x} + multiset(s[i+1..]);
  }

  /** Go's `deleteNode`. A present key is removed and the tree rebalanced; as
      written, a missing key yields `(nil, err)` from the nil subtree and every
      ancestor stores that nil. */
  function DeleteNode<V>(t: Tree<V>, key: Key): (r: Step<V>)
    requires IsAvl(t)
    ensures r.err.Some? <==> key !in Inorder(t)
    ensures r.err.Some? ==> r.err == Some(NotFound) && r.root == Nil
    ensures r.err.None? ==> DeletedFrom(t, key, r.root)
    decreases t
  {
    match t
    case Nil =>
      Step(Nil, Some(NotFound))
    case Node(k, v, h, l, rt) =>
      MemberSplit(t, key);
      if Less(key, k) then
        var s := DeleteNode(l, key);
        if s.err.Some? then
          Step(Nil, s.err)
        else
          DeleteLeftStep(t, key, s.root);
          Step(DeleteRebalance(Node(k, v, h, s.root, rt)), None)
      else if Less(k, key) then
        var s := DeleteNode(rt, key);
        if s.err.Some? then
          Step(Nil, s.err)
        else
          DeleteRightStep(t, key, s.root);
          Step(DeleteRebalance(Node(k, v, h, l, s.root)), None)
      else if l.Nil? || rt.Nil? then
        LessTotal(key, k);
        DeleteSpliceStep(t);
        var temp := if l.Node? then l else rt;
        if temp.Nil? then
          Step(Nil, None)
        else
          Step(DeleteRebalance(temp), None)
      else
        LessTotal(key, k);
        var m := MinNode(rt);
        MemberSplit(rt, m.key);
        var s := DeleteNode(rt, m.key);
        if s.err.Some? then
          Step(Nil, s.err)
        else
          DeleteSuccessorStep(t, s.root);
          Step(DeleteRebalance(Node(m.key, m.value, h, l, s.root)), None)
  }

  /** After removing the first key of a strictly sorted sequence, every
      remaining key lies above it. */
  lemma {:induction false} MinRemovedAbove(s: seq<Key>, s': seq<Key>, x: Key)
    requires StrictlySorted(s) && |s| > 0 && s[0] == x
    requires multiset(s') + multiset{x} == multiset(s)
    ensures AllAbove(s', x)
  {
    assert s == [] + [x] + s[1..];
    StrictlySortedSplit([], x, s[1..]);
    assert multiset(s) == multiset{x} + multiset(s[1..]);
    forall y ensures multiset(s')[y] == multiset(s[1..])[y] {
      assert (multiset(s') + multiset{x})[y] == (multiset{x} + multiset(s[1..]))[y];
    }
    assert multiset(s') == multiset(s[1..]);
    AllAboveShrink(s[1..], s', x);
  }

  /** Keys of the left subtree lie below the right subtree's minimum. */
  lemma {:induction false} AllBelowNewRoot(l: seq<Key>, k: Key, x: Key, r: seq<Key>)
    requires AllBelow(l, k) && AllAbove(r, k) && x in r
    ensures AllBelow(l, x)
  {
    forall i | 0 <= i < |l| ensures Less(l[i], x) {
      LessTransitive(l[i], k, x);
    }
  }

  // ---------------------------------------------------------------------
  // getNode, value update, range

  /** Go's `getNode`: the node holding `key`, or "element not found". */
  function GetNode<V>(t: Tree<V>, key: Key): (r: Result<Tree<V>>)
    ensures r.Err? ==> r.error == NotFound
    ensures r.Ok? ==> r.value.Node? && r.value.key == key && (key, r.value.value) in Entries(t)
  {
    match t
    case Nil => Err(NotFound)
    case Node(k, _, _, l, rt) =>
      if Less(key, k) then GetNode(l, key)
      else if Less(k, key) then GetNode(rt, key)
      else (LessTotal(key, k); Ok(t))
  }

  /** In an ordered tree `getNode` fails exactly when the key is absent. */
  lemma {:induction false} GetNodeFound<V>(t: Tree<V>, key: Key)
    requires StrictlySorted(Inorder(t))
    ensures GetNode(t, key).Ok? <==> key in Inorder(t)
  {
    if t.Node? {
      MemberSplit(t, key);
      if Less(key, t.key) {
        GetNodeFound(t.left, key);
      } else if Less(t.key, key) {
        GetNodeFound(t.right, key);
      }
    }
  }

  /** The value `getNode` reaches for `key`, if any. */
  function Lookup<V>(t: Tree<V>, key: Key): Option<V>
  {
    match GetNode(t, key)
    case Ok(n) => Some(n.value)
    case Err(_) => None
  }

  /** The effect of `node.Value = value` on the node `getNode` finds: the tree
      rebuilt along the search path with that one value replaced. */
  function SetValue<V>(t: Tree<V>, key: Key, value: V): (r: Tree<V>)
    ensures Inorder(r) == Inorder(t)
    ensures HeightsOK(t) ==> HeightsOK(r)
    ensures Balanced(t) ==> Balanced(r)
    ensures Height(r) == Height(t)
  {
    match t
    case Nil => Nil
    case Node(k, v, h, l, rt) =>
      if Less(key, k) then Node(k, v, h, SetValue(l, key, value), rt)
      else if Less(k, key) then Node(k, v, h, l, SetValue(rt, key, value))
      else Node(k, value, h, l, rt)
  }

  /** After the update `key` reaches the new value when it was present, and
      every other key reaches the value it reached before. */
  lemma {:induction false} SetValueLookup<V>(t: Tree<V>, key: Key, value: V, k: Key)
    ensures Lookup(SetValue(t, key, value), k) ==
      if k == key then (if Lookup(t, key).Some? then Some(value) else None) else Lookup(t, k)
  {
    if t.Node? {
      LessTotal(key, t.key);
      LessTotal(k, t.key);
      if Less(key, t.key) {
        SetValueLookup(t.left, key, value, k);
      } else if Less(t.key, key) {
        SetValueLookup(t.right, key, value, k);
      }
    }
  }

  /** The closure `getRangeHelper`, appending the keys it visits to `acc`. */
  function RangeHelper<V>(t: Tree<V>, lo: Key, hi: Key, acc: seq<Key>): seq<Key>
  {
    if t.Nil? then acc
    else
      var a1 := if !Less(t.key, lo) then RangeHelper(t.left, lo, hi, acc) else acc;
      var a2 := if !Less(t.key, lo) && !Less(hi, t.key) then a1 + [t.key] else a1;
      if !Less(hi, t.key) then RangeHelper(t.right, lo, hi, a2) else a2
  }

  /** The pruned traversal appends exactly the in-range keys, in in-order. */
  lemma {:induction false} RangeHelperIsFilter<V>(t: Tree<V>, lo: Key, hi: Key, acc: seq<Key>)
    requires StrictlySorted(Inorder(t))
    ensures RangeHelper(t, lo, hi, acc) == acc + Filter(Inorder(t), lo, hi)
  {
    if t.Node? {
      var l, k, r := Inorder(t.left), t.key, Inorder(t.right);
      MemberSplit(t, k);
      FilterAround(l, k, r, lo, hi);
      var fl, fk, fr := Filter(l, lo, hi), (if InRange(k, lo, hi) then [k] else []), Filter(r, lo, hi);
      var a1 := if !Less(k, lo) then RangeHelper(t.left, lo, hi, acc) else acc;
      if !Less(k, lo) {
        RangeHelperIsFilter(t.left, lo, hi, acc);
      } else {
        forall i | 0 <= i < |l| ensures !InRange(l[i], lo, hi) {
          LessTransitive(l[i], k, lo);
        }
        FilterEmpty(l, lo, hi);
      }
      var a2 := if InRange(k, lo, hi) then a1 + [k] else a1;
      assert a2 == acc + fl + fk;
      if !Less(hi, k) {
        RangeHelperIsFilter(t.right, lo, hi, a2);
      } else {
        forall i | 0 <= i < |r| ensures !InRange(r[i], lo, hi) {
          LessTransitive(hi, k, r[i]);
        }
        FilterEmpty(r, lo, hi);
      }
      Regroup(acc, fl, fk, fr);
    }
  }

  /** `AVLTree.GetRange`: the keys k with lo <= k <= hi, strictly ascending. */
  function GetRange<V>(t: Tree<V>, lo: Key, hi: Key): (r: seq<Key>)
    requires StrictlySorted(Inorder(t))
    ensures r == Filter(Inorder(t), lo, hi)
    ensures StrictlySorted(r)
    ensures forall k :: k in r <==> k in Inorder(t) && InRange(k, lo, hi)
    ensures Less(hi, lo) ==> r == []
  {
    RangeHelperIsFilter(t, lo, hi, []);
    FilterMembers(Inorder(t), lo, hi);
    FilterStrictlySorted(Inorder(t), lo, hi);
    InvertedRangeEmpty(Inorder(t), lo, hi);
    RangeHelper(t, lo, hi, [])
  }

  // ---------------------------------------------------------------------
  // Error paths that keep the tree

  /** `insert` as evidently intended: a duplicate key is reported and the
      tree is left as it was. */
  function InsertOrReject<V>(t: Tree<V>, key: Key, value: V): (r: Step<V>)
    requires IsAvl(t)
    ensures r.err.Some? <==> key in Inorder(t)
    ensures r.err.Some? ==> r == Step(t, Some(DuplicateKey))
    ensures r.err.None? ==> InsertedInto(t, key, value, r.root)
  {
    var s := InsertNode(t, key, value);
    if s.err.Some? then Step(t, s.err) else s
  }

  /** `deleteNode` as evidently intended: a missing key is reported and the
      tree is left as it was. */
  function DeleteOrReport<V>(t: Tree<V>, key: Key): (r: Step<V>)
    requires IsAvl(t)
    ensures r.err.Some? <==> key !in Inorder(t)
    ensures r.err.Some? ==> r == Step(t, Some(NotFound))
    ensures r.err.None? ==> DeletedFrom(t, key, r.root)
  {
    var s := DeleteNode(t, key);
    if s.err.Some? then Step(t, s.err) else s
  }

  /** As written, inserting a key that is already present into a tree of
      two entries leaves an empty tree, losing both. */
  lemma {:induction false} DuplicateInsertLosesTree()
    ensures var t := Node("a", 1, 2, Nil, Node("c", 3, 1, Nil, Nil));
      Inorder(t) == ["a", "c"] && IsAvl(t) && InsertNode(t, "c", 9) == Step(Nil, Some(DuplicateKey))
  {
    var t := Node("a", 1, 2, Nil, Node("c", 3, 1, Nil, Nil));
    assert Less("a", "c");
    StrictlySortedSplit([], "a", ["c"]);
    assert Inorder(t) == [] + ["a"] + ["c"];
  }

  /** As written, removing an absent key from that tree leaves an empty tree. */
  lemma {:induction false} MissingDeleteLosesTree()
    ensures var t := Node("a", 1, 2, Nil, Node("c", 3, 1, Nil, Nil));
      Inorder(t) == ["a", "c"] && IsAvl(t) && DeleteNode(t, "b") == Step(Nil, Some(NotFound))
  {
    var t := Node("a", 1, 2, Nil, Node("c", 3, 1, Nil, Nil));
    assert Less("a", "c") && Less("a", "b") && Less("b", "c");
    StrictlySortedSplit([], "a", ["c"]);
    assert Inorder(t) == [] + ["a"] + ["c"];
  }

  // ---------------------------------------------------------------------
  // AVLTree

  /** `AVLTree`: a root pointer that the operations replace. */
  class AvlTree<V> {
    var root: Tree<V>

    ghost predicate Valid()
      reads this
    {
      IsAvl(root)
    }

    /** `NewAVLTree`. */
    constructor ()
      ensures Valid() && root == Nil
    {
      root := Nil;
    }

    /** `AVLTree.Insert`: `Root` takes whatever `insert` returns, so a
        duplicate key is reported and leaves the tree empty. */
    method Insert(key: Key, value: V) returns (err: Option<Error>)
      requires Valid()
      modifies this
      ensures Valid()
      ensures err.Some? <==> key in Inorder(old(root))
      ensures err.Some? ==> err == Some(DuplicateKey) && root == Nil
      ensures err.None? ==> InsertedInto(old(root), key, value, root)
    {
      var s := InsertNode(root, key, value);
      root := s.root;
      err := s.err;
    }

    /** `AVLTree.Get`: the value stored under `key`, or "element not found". */
    method Get(key: Key) returns (r: Result<V>)
      requires Valid()
      ensures r.Ok? <==> key in Inorder(root)
      ensures r.Ok? ==> (key, r.value) in Entries(root) && Lookup(root, key) == Some(r.value)
      ensures r.Err? ==> r.error == NotFound
    {
      GetNodeFound(root, key);
      var n := GetNode(root, key);
      if n.Err? {
        return Err(n.error);
      }
      return Ok(n.value.value);
    }

    /** `AVLTree.GetRange`: the keys in `[lo, hi]`, ascending. */
    method GetRange(lo: Key, hi: Key) returns (r: seq<Key>)
      requires Valid()
      ensures r == Filter(Inorder(root), lo, hi) && StrictlySorted(r)
      ensures forall k :: k in r <==> k in Inorder(root) && InRange(k, lo, hi)
    {
      r := RangeHelper(root, lo, hi, []);
      RangeHelperIsFilter(root, lo, hi, []);
      FilterStrictlySorted(Inorder(root), lo, hi);
      FilterMembers(Inorder(root), lo, hi);
    }

    /** `AVLTree.Update`: replace the value under a present key. */
    method Update(key: Key, value: V) returns (err: Option<Error>)
      requires Valid()
      modifies this
      ensures Valid() && Inorder(root) == Inorder(old(root))
      ensures err.Some? <==> key !in Inorder(old(root))
      ensures err.Some? ==> err == Some(NotFound) && root == old(root)
      ensures err.None? ==> Lookup(root, key) == Some(value)
      ensures forall k :: k != key ==> Lookup(root, k) == Lookup(old(root), k)
    {
      GetNodeFound(root, key);
      var n := GetNode(root, key);
      if n.Err? {
        err := Some(n.error);
        forall k | k != key ensures Lookup(root, k) == Lookup(old(root), k) { }
        return;
      }
      forall k ensures Lookup(SetValue(root, key, value), k) ==
        if k == key then (if Lookup(root, key).Some? then Some(value) else None) else Lookup(root, k)
      {
        SetValueLookup(root, key, value, k);
      }
      root := SetValue(root, key, value);
      err := None;
    }

    /** `AVLTree.Remove`: `Root` takes whatever `deleteNode` returns, so a
        missing key is reported and leaves the tree empty. */
    method Remove(key: Key) returns (err: Option<Error>)
      requires Valid()
      modifies this
      ensures Valid()
      ensures err.Some? <==> key !in Inorder(old(root))
      ensures err.Some? ==> err == Some(NotFound) && root == Nil
      ensures err.None? ==> DeletedFrom(old(root), key, root)
    {
      var s := DeleteNode(root, key);
      root := s.root;
      err := s.err;
    }
  }
}
