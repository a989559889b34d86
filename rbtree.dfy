/** The red-black tree backend. A Go node carries a key, a value, a colour,
    two children and a parent pointer. Here a subtree is a value, and a
    pointer to a node inside the tree is a cursor: the node's subtree
    together with the path of parent frames up to the root. Following
    `Parent` is `Up`, following a child is `Down`, writing a field of the
    parent or grandparent rewrites a frame of the path, and `tree.Root` is
    the tree the cursor plugs back into. Equal keys are allowed: the
    in-order sequence is kept non-decreasing. */
module RedBlack {
  import opened Keys
  import opened Outcomes

  datatype Color = Red | Black

  datatype Tree<V> = Nil | Node(color: Color, left: Tree<V>, key: Key, value: V, right: Tree<V>)

  /** Which child of its parent the focused subtree is. */
  datatype Dir = Left | Right

  /** A parent seen from one of its children: its colour, key and value, and
      its other child. */
  datatype Frame<V> = Frame(dir: Dir, color: Color, key: Key, value: V, sibling: Tree<V>)

  /** A node pointer: the subtree it points to and its ancestors, the parent
      first and the root last. */
  datatype Cursor<V> = Cursor(focus: Tree<V>, path: seq<Frame<V>>)

  // ---------------------------------------------------------------------
  // Keys in order, and the zipper

  function Inorder<V>(t: Tree<V>): seq<Key>
  {
    match t
    case Nil => []
    case Node(_, l, k, _, r) => Inorder(l) + [k] + Inorder(r)
  }

  /** The key-value pairs of a tree, in order. */
  function Entries<V>(t: Tree<V>): (es: seq<(Key, V)>)
    ensures |es| == |Inorder(t)|
  {
    match t
    case Nil => []
    case Node(_, l, k, v, r) => Entries(l) + [(k, v)] + Entries(r)
  }

  /** The parent of a subtree, rebuilt around it. */
  function Attach<V>(f: Frame<V>, t: Tree<V>): Tree<V>
  {
    if f.dir == Left then Node(f.color, t, f.key, f.value, f.sibling)
    else Node(f.color, f.sibling, f.key, f.value, t)
  }

  /** The tree obtained by putting `t` back under its ancestors. */
  function Plug<V>(t: Tree<V>, path: seq<Frame<V>>): Tree<V>
    decreases |path|
  {
    if path == [] then t else Plug(Attach(path[0], t), path[1..])
  }

  /** The whole tree a cursor points into. */
  function Whole<V>(c: Cursor<V>): Tree<V>
  {
    Plug(c.focus, c.path)
  }

  /** Go's `node.Parent`. */
  function Up<V>(c: Cursor<V>): (r: Cursor<V>)
    requires c.path != []
    ensures Whole(r) == Whole(c) && |r.path| + 1 == |c.path|
  {
    Cursor(Attach(c.path[0], c.focus), c.path[1..])
  }

  /** Go's `node.LeftChild` or `node.RightChild`. */
  function Down<V>(c: Cursor<V>, d: Dir): (r: Cursor<V>)
    requires c.focus.Node?
    ensures Whole(r) == Whole(c) && |r.path| == |c.path| + 1 && r.path[1..] == c.path && r.path[0].dir == d
  {
    var n := c.focus;
    var r := if d == Left then Cursor(n.left, [Frame(Left, n.color, n.key, n.value, n.right)] + c.path)
             else Cursor(n.right, [Frame(Right, n.color, n.key, n.value, n.left)] + c.path);
    assert r.path[1..] == c.path;
    r
  }

  /** The keys to the left and to the right of a subtree's position. */
  function LeftOf<V>(path: seq<Frame<V>>): seq<Key>
    decreases |path|
  {
    if path == [] then []
    else LeftOf(path[1..]) + (if path[0].dir == Right then Inorder(path[0].sibling) + [path[0].key] else [])
  }

  function RightOf<V>(path: seq<Frame<V>>): seq<Key>
    decreases |path|
  {
    if path == [] then []
    else (if path[0].dir == Left then [path[0].key] + Inorder(path[0].sibling) else []) + RightOf(path[1..])
  }

  lemma {:induction false} InorderPlug<V>(t: Tree<V>, path: seq<Frame<V>>)
    ensures Inorder(Plug(t, path)) == LeftOf(path) + Inorder(t) + RightOf(path)
    decreases |path|
  {
    if path != [] {
      var f, a := path[0], Attach(path[0], t);
      InorderPlug(a, path[1..]);
      var l, r := LeftOf(path[1..]), RightOf(path[1..]);
      assert Plug(t, path) == Plug(a, path[1..]);
      if f.dir == Left {
        assert LeftOf(path) == l + [] && RightOf(path) == [f.key] + Inorder(f.sibling) + r;
        PlugLeftSeq(l, Inorder(t), f.key, Inorder(f.sibling), r);
      } else {
        assert LeftOf(path) == l + (Inorder(f.sibling) + [f.key]) && RightOf(path) == [] + r;
        PlugRightSeq(l, Inorder(f.sibling), f.key, Inorder(t), r);
      }
    }
  }

  /** The key-value pairs to the left and to the right of a subtree's
      position. */
  function EntriesLeftOf<V>(path: seq<Frame<V>>): (es: seq<(Key, V)>)
    ensures |es| == |LeftOf(path)|
    decreases |path|
  {
    if path == [] then []
    else EntriesLeftOf(path[1..]) + (if path[0].dir == Right then Entries(path[0].sibling) + [(path[0].key, path[0].value)] else [])
  }

  function EntriesRightOf<V>(path: seq<Frame<V>>): (es: seq<(Key, V)>)
    ensures |es| == |RightOf(path)|
    decreases |path|
  {
    if path == [] then []
    else (if path[0].dir == Left then [(path[0].key, path[0].value)] + Entries(path[0].sibling) else []) + EntriesRightOf(path[1..])
  }

  /** `InorderPlug` for the key-value pairs: a subtree's pairs sit between
      the pairs its ancestors contribute on either side. */
  lemma {:induction false} EntriesPlug<V>(t: Tree<V>, path: seq<Frame<V>>)
    ensures Entries(Plug(t, path)) == EntriesLeftOf(path) + Entries(t) + EntriesRightOf(path)
    decreases |path|
  {
    if path != [] {
      var f, a := path[0], Attach(path[0], t);
      EntriesPlug(a, path[1..]);
      var l, r := EntriesLeftOf(path[1..]), EntriesRightOf(path[1..]);
      var kv := (f.key, f.value);
      assert Plug(t, path) == Plug(a, path[1..]);
      if f.dir == Left {
        assert EntriesLeftOf(path) == l + [] && EntriesRightOf(path) == [kv] + Entries(f.sibling) + r;
        PlugLeftSeq(l, Entries(t), kv, Entries(f.sibling), r);
      } else {
        assert EntriesLeftOf(path) == l + (Entries(f.sibling) + [kv]) && EntriesRightOf(path) == [] + r;
        PlugRightSeq(l, Entries(f.sibling), kv, Entries(t), r);
      }
    }
  }

  lemma {:induction false} PlugLeftSeq<T>(l: seq<T>, t: seq<T>, k: T, s: seq<T>, r: seq<T>)
    ensures l + (t + [k] + s) + r == (l + []) + t + ([k] + s + r)
  {
  }

  lemma {:induction false} PlugRightSeq<T>(l: seq<T>, s: seq<T>, k: T, t: seq<T>, r: seq<T>)
    ensures l + (s + [k] + t) + r == l + (s + [k]) + t + ([] + r)
  {
  }

  lemma {:induction false} PlugConcat<V>(t: Tree<V>, a: seq<Frame<V>>, b: seq<Frame<V>>)
    ensures Plug(t, a + b) == Plug(Plug(t, a), b)
    decreases |a|
  {
    if a != [] {
      assert (a + b)[1..] == a[1..] + b;
      PlugConcat(Attach(a[0], t), a[1..], b);
    } else {
      assert a + b == b;
    }
  }

  /** The in-order position of the node a cursor points to. */
  function Index<V>(c: Cursor<V>): (i: nat)
    requires c.focus.Node?
    ensures i < |Inorder(Whole(c))|
  {
    InorderPlug(c.focus, c.path);
    |LeftOf(c.path)| + |Inorder(c.focus.left)|
  }

  lemma {:induction false} IndexKey<V>(c: Cursor<V>)
    requires c.focus.Node?
    ensures Index(c) < |Inorder(Whole(c))| && Inorder(Whole(c))[Index(c)] == c.focus.key
    ensures Inorder(Whole(c)) == LeftOf(c.path) + Inorder(c.focus.left) + [c.focus.key] + Inorder(c.focus.right) + RightOf(c.path)
  {
    InorderPlug(c.focus, c.path);
    var n := c.focus;
    MiddleKey(LeftOf(c.path), Inorder(n.left), n.key, Inorder(n.right), RightOf(c.path));
  }

  /** The key-value pairs around a node pointer, split at its node. */
  lemma {:induction false} EntriesAround<V>(c: Cursor<V>)
    requires c.focus.Node?
    ensures Entries(Whole(c)) == EntriesLeftOf(c.path) + Entries(c.focus.left) + [(c.focus.key, c.focus.value)]
      + Entries(c.focus.right) + EntriesRightOf(c.path)
  {
    EntriesPlug(c.focus, c.path);
    var n := c.focus;
    MiddleKey(EntriesLeftOf(c.path), Entries(n.left), (n.key, n.value), Entries(n.right), EntriesRightOf(c.path));
  }

  lemma {:induction false} MiddleKey<T>(l: seq<T>, a: seq<T>, k: T, b: seq<T>, r: seq<T>)
    ensures l + (a + [k] + b) + r == l + a + [k] + b + r
    ensures (l + a + [k] + b + r)[|l| + |a|] == k
  {
    assert (l + a + [k] + b + r)[|l| + |a|] == (l + a + [k])[|l| + |a|];
  }

  // ---------------------------------------------------------------------
  // rotateLeftRB, rotateRightRB

  /** Go's `rotateLeftRB` on the node a cursor points to: its right child
      takes its place and it becomes that child's left child; nothing
      happens when there is no right child. Colours do not change. */
  function RotateLeft<V>(c: Cursor<V>): (r: Cursor<V>)
    ensures r.path == c.path && Inorder(r.focus) == Inorder(c.focus) && Entries(r.focus) == Entries(c.focus)
    ensures c.focus == Nil || c.focus.right == Nil ==> r == c
    ensures c.focus.Node? && c.focus.right.Node? ==>
      r.focus.Node? && r.focus.left.Node? &&
      r.focus.key == c.focus.right.key && r.focus.left.key == c.focus.key &&
      r.focus.color == c.focus.right.color && r.focus.left.color == c.focus.color
  {
    if c.focus == Nil || c.focus.right == Nil then c
    else
      var x, y := c.focus, c.focus.right;
      var r := Cursor(Node(y.color, Node(x.color, x.left, x.key, x.value, y.left), y.key, y.value, y.right), c.path);
      assert Inorder(r.focus) == Inorder(x.left) + [x.key] + (Inorder(y.left) + [y.key] + Inorder(y.right));
      assert Entries(r.focus) == Entries(x.left) + [(x.key, x.value)] + (Entries(y.left) + [(y.key, y.value)] + Entries(y.right));
      r
  }

  /** Go's `rotateRightRB`, the mirror image of `RotateLeft`. */
  function RotateRight<V>(c: Cursor<V>): (r: Cursor<V>)
    ensures r.path == c.path && Inorder(r.focus) == Inorder(c.focus) && Entries(r.focus) == Entries(c.focus)
    ensures c.focus == Nil || c.focus.left == Nil ==> r == c
    ensures c.focus.Node? && c.focus.left.Node? ==>
      r.focus.Node? && r.focus.right.Node? &&
      r.focus.key == c.focus.left.key && r.focus.right.key == c.focus.key &&
      r.focus.color == c.focus.left.color && r.focus.right.color == c.focus.color
  {
    if c.focus == Nil || c.focus.left == Nil then c
    else
      var x, y := c.focus, c.focus.left;
      var r := Cursor(Node(y.color, y.left, y.key, y.value, Node(x.color, y.right, x.key, x.value, x.right)), c.path);
      assert Inorder(r.focus) == Inorder(y.left) + [y.key] + Inorder(y.right) + [x.key] + Inorder(x.right);
      assert Entries(r.focus) == Entries(y.left) + [(y.key, y.value)] + Entries(y.right) + [(x.key, x.value)] + Entries(x.right);
      r
  }

  /** A rotation leaves the whole tree's in-order sequence, and its
      key-value pairs, as they were, and when the pivot was the root its
      replacement becomes the root. */
  lemma {:induction false} RotationsKeepOrder<V>(c: Cursor<V>)
    ensures Inorder(Whole(RotateLeft(c))) == Inorder(Whole(c))
    ensures Inorder(Whole(RotateRight(c))) == Inorder(Whole(c))
    ensures Entries(Whole(RotateLeft(c))) == Entries(Whole(c))
    ensures Entries(Whole(RotateRight(c))) == Entries(Whole(c))
    ensures c.path == [] ==> Whole(RotateLeft(c)) == RotateLeft(c).focus && Whole(RotateRight(c)) == RotateRight(c).focus
  {
    InorderPlug(c.focus, c.path);
    InorderPlug(RotateLeft(c).focus, c.path);
    InorderPlug(RotateRight(c).focus, c.path);
    EntriesPlug(c.focus, c.path);
    EntriesPlug(RotateLeft(c).focus, c.path);
    EntriesPlug(RotateRight(c).focus, c.path);
  }

  // ---------------------------------------------------------------------
  // The colour rules

  function IsRed<V>(t: Tree<V>): bool
  {
    t.Node? && t.color == Red
  }

  /** The black nodes on the leftmost path (nil leaves not counted). */
  function BlackHeight<V>(t: Tree<V>): nat
  {
    match t
    case Nil => 0
    case Node(c, l, _, _, _) => BlackHeight(l) + (if c == Black then 1 else 0)
  }

  /** Every path from a node down to a nil leaf meets the same number of
      black nodes. */
  predicate Balanced<V>(t: Tree<V>)
  {
    match t
    case Nil => true
    case Node(_, l, _, _, r) => Balanced(l) && Balanced(r) && BlackHeight(l) == BlackHeight(r)
  }

  /** No red node has a red child. */
  predicate NoRedRed<V>(t: Tree<V>)
  {
    match t
    case Nil => true
    case Node(c, l, _, _, r) => NoRedRed(l) && NoRedRed(r) && (c == Red ==> !IsRed(l) && !IsRed(r))
  }

  /** The red-black rules: black root, no red-red edge, equal black heights. */
  predicate IsRedBlack<V>(t: Tree<V>)
  {
    !IsRed(t) && NoRedRed(t) && Balanced(t)
  }

  /** Go's closing `tree.Root.Color = BLACK`. */
  function Blacken<V>(t: Tree<V>): (r: Tree<V>)
    ensures !IsRed(r) && Inorder(r) == Inorder(t) && Entries(r) == Entries(t)
    ensures Balanced(t) ==> Balanced(r)
    ensures t.Node? && NoRedRed(t.left) && NoRedRed(t.right) ==> NoRedRed(r)
  {
    if t == Nil then Nil else t.(color := Black)
  }

  /** The ancestors of a position accept a subtree of black height `h`:
      each sibling is balanced with the black height of the path child. */
  predicate PathBalanced<V>(path: seq<Frame<V>>, h: nat)
    decreases |path|
  {
    path == [] ||
    (Balanced(path[0].sibling) && BlackHeight(path[0].sibling) == h &&
     PathBalanced(path[1..], h + (if path[0].color == Black then 1 else 0)))
  }

  /** The ancestors of a position accept a subtree without red-red edges whose
      root is red exactly when `childRed`. */
  predicate PathNoRedRed<V>(path: seq<Frame<V>>, childRed: bool)
    decreases |path|
  {
    path == [] ||
    (NoRedRed(path[0].sibling) &&
     (path[0].color == Red ==> !IsRed(path[0].sibling) && !childRed) &&
     PathNoRedRed(path[1..], path[0].color == Red))
  }

  /** The root of a non-empty path is black. */
  predicate TopBlack<V>(path: seq<Frame<V>>)
  {
    path == [] || path[|path| - 1].color == Black
  }

  lemma {:induction false} AttachHeight<V>(f: Frame<V>, t: Tree<V>)
    requires BlackHeight(f.sibling) == BlackHeight(t)
    ensures BlackHeight(Attach(f, t)) == BlackHeight(t) + (if f.color == Black then 1 else 0)
  {
  }

  /** A plugged tree is balanced exactly when the subtree is and its
      ancestors accept it. */
  lemma {:induction false} PlugBalanced<V>(t: Tree<V>, path: seq<Frame<V>>)
    ensures Balanced(Plug(t, path)) <==> Balanced(t) && PathBalanced(path, BlackHeight(t))
    decreases |path|
  {
    if path != [] {
      var f := path[0];
      var a := Attach(f, t);
      PlugBalanced(a, path[1..]);
      if Balanced(t) && BlackHeight(f.sibling) == BlackHeight(t) {
        AttachHeight(f, t);
      }
    }
  }

  /** A plugged tree has no red-red edge exactly when the subtree has none
      and its ancestors accept it. */
  lemma {:induction false} PlugNoRedRed<V>(t: Tree<V>, path: seq<Frame<V>>)
    ensures NoRedRed(Plug(t, path)) <==> NoRedRed(t) && PathNoRedRed(path, IsRed(t))
    decreases |path|
  {
    if path != [] {
      PlugNoRedRed(Attach(path[0], t), path[1..]);
    }
  }

  /** The root of a plugged tree is the last ancestor, if there is one. */
  lemma {:induction false} PlugTop<V>(t: Tree<V>, path: seq<Frame<V>>)
    ensures path != [] ==> Plug(t, path).Node? && Plug(t, path).color == path[|path| - 1].color
    ensures path == [] ==> Plug(t, path) == t
    decreases |path|
  {
    if |path| > 1 {
      PlugTop(Attach(path[0], t), path[1..]);
    }
  }

  // ---------------------------------------------------------------------
  // insertNodeRB

  /** Go's `insertNodeRB`: walk down from a non-nil node, left on a smaller
      key and right otherwise, and hang a new red leaf on the first nil
      child met. The result points to the new node. */
  function InsertNode<V>(c: Cursor<V>, key: Key, value: V): (r: Cursor<V>)
    requires c.focus.Node?
    ensures r.focus == Node(Red, Nil, key, value, Nil)
    ensures Plug(Nil, r.path) == Whole(c)
    ensures Sorted(Inorder(c.focus)) ==>
      Inorder(Whole(r)) == LeftOf(c.path) + InsertSorted(Inorder(c.focus), key) + RightOf(c.path)
    ensures Sorted(Inorder(c.focus)) ==> |LeftOf(r.path)| == |LeftOf(c.path)| + InsertPos(Inorder(c.focus), key)
    decreases c.focus
  {
    var n := c.focus;
    var leaf := Node(Red, Nil, key, value, Nil);
    var d := Down(c, if Less(key, n.key) then Left else Right);
    var r := if d.focus == Nil then Cursor(leaf, d.path) else InsertNode(d, key, value);
    InorderPlug(leaf, d.path);
    if Less(key, n.key) then InsertLeftOrder(c, key, r); r
    else InsertRightOrder(c, key, r); r
  }

  lemma {:induction false} InsertLeftOrder<V>(c: Cursor<V>, key: Key, r: Cursor<V>)
    requires c.focus.Node? && Less(key, c.focus.key)
    requires Sorted(Inorder(c.focus.left)) ==>
      Inorder(Whole(r)) == LeftOf(Down(c, Left).path) + InsertSorted(Inorder(c.focus.left), key) + RightOf(Down(c, Left).path)
    requires Sorted(Inorder(c.focus.left)) ==>
      |LeftOf(r.path)| == |LeftOf(Down(c, Left).path)| + InsertPos(Inorder(c.focus.left), key)
    ensures Sorted(Inorder(c.focus)) ==>
      Inorder(Whole(r)) == LeftOf(c.path) + InsertSorted(Inorder(c.focus), key) + RightOf(c.path)
    ensures Sorted(Inorder(c.focus)) ==> |LeftOf(r.path)| == |LeftOf(c.path)| + InsertPos(Inorder(c.focus), key)
  {
    var n := c.focus;
    if Sorted(Inorder(n)) {
      SortedSplit(Inorder(n.left), n.key, Inorder(n.right));
      DownSides(c);
      InsertLeftSeq(LeftOf(c.path), Inorder(n.left), n.key, Inorder(n.right), RightOf(c.path), key);
      InsertPosBefore(Inorder(n.left), [n.key] + Inorder(n.right), key);
      assert Inorder(n) == Inorder(n.left) + ([n.key] + Inorder(n.right));
    }
  }

  lemma {:induction false} InsertRightOrder<V>(c: Cursor<V>, key: Key, r: Cursor<V>)
    requires c.focus.Node? && !Less(key, c.focus.key)
    requires Sorted(Inorder(c.focus.right)) ==>
      Inorder(Whole(r)) == LeftOf(Down(c, Right).path) + InsertSorted(Inorder(c.focus.right), key) + RightOf(Down(c, Right).path)
    requires Sorted(Inorder(c.focus.right)) ==>
      |LeftOf(r.path)| == |LeftOf(Down(c, Right).path)| + InsertPos(Inorder(c.focus.right), key)
    ensures Sorted(Inorder(c.focus)) ==>
      Inorder(Whole(r)) == LeftOf(c.path) + InsertSorted(Inorder(c.focus), key) + RightOf(c.path)
    ensures Sorted(Inorder(c.focus)) ==> |LeftOf(r.path)| == |LeftOf(c.path)| + InsertPos(Inorder(c.focus), key)
  {
    var n := c.focus;
    if Sorted(Inorder(n)) {
      SortedSplit(Inorder(n.left), n.key, Inorder(n.right));
      DownSides(c);
      InsertRightSeq(LeftOf(c.path), Inorder(n.left), n.key, Inorder(n.right), RightOf(c.path), key);
    }
  }

  /** The keys beside a child's position. */
  lemma {:induction false} DownSides<V>(c: Cursor<V>)
    requires c.focus.Node?
    ensures LeftOf(Down(c, Left).path) == LeftOf(c.path)
    ensures RightOf(Down(c, Left).path) == [c.focus.key] + Inorder(c.focus.right) + RightOf(c.path)
    ensures LeftOf(Down(c, Right).path) == LeftOf(c.path) + Inorder(c.focus.left) + [c.focus.key]
    ensures RightOf(Down(c, Right).path) == RightOf(c.path)
  {
    assert Down(c, Left).path[1..] == c.path && Down(c, Right).path[1..] == c.path;
  }

  lemma {:induction false} InsertLeftSeq(l: seq<Key>, a: seq<Key>, x: Key, b: seq<Key>, q: seq<Key>, k: Key)
    requires Less(k, x)
    ensures l + InsertSorted(a, k) + ([x] + b + q) == l + InsertSorted(a + [x] + b, k) + q
  {
    InsertSortedBefore(a, [x] + b, k);
    assert a + [x] + b == a + ([x] + b);
  }

  lemma {:induction false} InsertRightSeq(l: seq<Key>, a: seq<Key>, x: Key, b: seq<Key>, q: seq<Key>, k: Key)
    requires AllAtMost(a, x) && !Less(k, x)
    ensures l + (a + [x]) + InsertSorted(b, k) + q == l + InsertSorted(a + [x] + b, k) + q
    ensures InsertPos(a + [x] + b, k) == |a| + 1 + InsertPos(b, k)
  {
    var ax := a + [x];
    forall i | 0 <= i < |ax| ensures !Less(k, ax[i]) {
      if i < |a| {
        assert ax[i] == a[i];
        NotLessTransitive(a[i], x, k);
      }
    }
    InsertSortedAfter(ax, b, k);
    InsertPosAfter(ax, b, k);
  }

  // ---------------------------------------------------------------------
  // fixInsertionRB

  /** Go's `node.Parent.Color = col`. */
  function SetParentColor<V>(c: Cursor<V>, col: Color): (r: Cursor<V>)
    requires c.path != []
    ensures r.focus == c.focus && |r.path| == |c.path| && r.path[1..] == c.path[1..]
  {
    var r := Cursor(c.focus, [c.path[0].(color := col)] + c.path[1..]);
    assert r.path[1..] == c.path[1..];
    r
  }

  /** Go's `node.Parent.Parent.Color = col`. */
  function SetGrandparentColor<V>(c: Cursor<V>, col: Color): (r: Cursor<V>)
    requires |c.path| >= 2
    ensures r.focus == c.focus && |r.path| == |c.path| && r.path[0] == c.path[0] && r.path[2..] == c.path[2..]
  {
    var r := Cursor(c.focus, [c.path[0], c.path[1].(color := col)] + c.path[2..]);
    assert r.path[2..] == c.path[2..];
    r
  }

  /** Go's `uncle.Color = col`, the uncle being the grandparent's other child. */
  function SetUncleColor<V>(c: Cursor<V>, col: Color): (r: Cursor<V>)
    requires |c.path| >= 2 && c.path[1].sibling.Node?
    ensures r.focus == c.focus && |r.path| == |c.path| && r.path[0] == c.path[0] && r.path[2..] == c.path[2..]
  {
    var g := c.path[1];
    var r := Cursor(c.focus, [c.path[0], g.(sibling := g.sibling.(color := col))] + c.path[2..]);
    assert r.path[2..] == c.path[2..];
    r
  }

  /** The loop invariant of the fix-up: the whole tree is red-black except
      that the focused red node may have a red parent. */
  ghost predicate Fixing<V>(c: Cursor<V>)
  {
    && IsRed(c.focus) && NoRedRed(c.focus) && Balanced(c.focus)
    && PathBalanced(c.path, BlackHeight(c.focus))
    && PathNoRedRed(c.path, false)
    && TopBlack(c.path)
  }

  /** A red leaf hung on a nil child of a red-black tree starts the fix-up. */
  lemma {:induction false} FixStart<V>(path: seq<Frame<V>>, key: Key, value: V)
    requires IsRedBlack(Plug(Nil, path))
    ensures Fixing(Cursor(Node(Red, Nil, key, value, Nil), path))
  {
    PlugBalanced(Nil, path);
    PlugNoRedRed(Nil, path);
    PlugTop(Nil, path);
  }

  /** Once the parent is black (or there is none), blackening the root
      leaves a red-black tree. */
  lemma {:induction false} FixDone<V>(c: Cursor<V>)
    requires Fixing(c) && (c.path == [] || c.path[0].color == Black)
    ensures IsRedBlack(Blacken(Whole(c)))
  {
    PlugBalanced(c.focus, c.path);
    PlugTop(c.focus, c.path);
    assert PathNoRedRed(c.path, true);
    PlugNoRedRed(c.focus, c.path);
  }

  /** What `Fixing` says about the parent, the grandparent and above when the
      parent is red. */
  lemma {:induction false} FixingParts<V>(c: Cursor<V>)
    requires Fixing(c) && |c.path| >= 2 && c.path[0].color == Red
    ensures var h, p, g, rest := BlackHeight(c.focus), c.path[0], c.path[1], c.path[2..];
      && Balanced(p.sibling) && BlackHeight(p.sibling) == h && NoRedRed(p.sibling) && !IsRed(p.sibling)
      && g.color == Black && Balanced(g.sibling) && BlackHeight(g.sibling) == h && NoRedRed(g.sibling)
      && PathBalanced(rest, h + 1) && PathNoRedRed(rest, false)
      && (rest != [] ==> rest[|rest| - 1] == c.path[|c.path| - 1])
  {
    var h, q := BlackHeight(c.focus), c.path[1..];
    assert q[1..] == c.path[2..] && q[0] == c.path[1];
    assert PathNoRedRed(q, true);
    assert PathBalanced(q, h);
  }

  /** Attaching a subtree of equal black height below a frame. */
  lemma {:induction false} AttachBalanced<V>(f: Frame<V>, t: Tree<V>)
    requires Balanced(f.sibling) && Balanced(t) && BlackHeight(f.sibling) == BlackHeight(t)
    ensures Balanced(Attach(f, t))
    ensures BlackHeight(Attach(f, t)) == BlackHeight(t) + (if f.color == Black then 1 else 0)
  {
    AttachHeight(f, t);
  }

  /** Case 1, a red uncle: parent and uncle turn black, the grandparent red,
      and the fix-up moves two levels up. */
  lemma {:induction false} RecolorStep<V>(c: Cursor<V>)
    requires |c.path| >= 2 && c.focus.Node? && c.path[0].color == Red && IsRed(c.path[1].sibling)
    ensures FixProgress(c, Up(Up(SetGrandparentColor(SetUncleColor(SetParentColor(c, Black), Black), Red))))
  {
    var z, p, g, rest := c.focus, c.path[0], c.path[1], c.path[2..];
    RecolorCursor(c);
    RecolorOrder(z, p, g, rest);
    assert Up(Up(c)) == Cursor(Attach(g, Attach(p, z)), rest);
    assert Whole(Up(Up(c))) == Whole(c);
    if Fixing(c) {
      RecolorFixing(c);
    }
  }

  /** The cursor the recolouring leaves, written out. */
  lemma {:induction false} RecolorCursor<V>(c: Cursor<V>)
    requires |c.path| >= 2 && c.path[1].sibling.Node?
    ensures var z, p, g := c.focus, c.path[0], c.path[1];
      Up(Up(SetGrandparentColor(SetUncleColor(SetParentColor(c, Black), Black), Red)))
      == Cursor(Attach(g.(color := Red, sibling := g.sibling.(color := Black)), Attach(p.(color := Black), z)), c.path[2..])
  {
    var c1 := SetParentColor(c, Black);
    var c2 := SetUncleColor(c1, Black);
    var c3 := SetGrandparentColor(c2, Red);
    assert c3.path[1..][1..] == c.path[2..];
  }

  /** Recolouring changes no key and no value. */
  lemma {:induction false} RecolorOrder<V>(z: Tree<V>, p: Frame<V>, g: Frame<V>, rest: seq<Frame<V>>)
    requires g.sibling.Node?
    ensures Inorder(Plug(Attach(g.(color := Red, sibling := g.sibling.(color := Black)), Attach(p.(color := Black), z)), rest))
      == Inorder(Plug(Attach(g, Attach(p, z)), rest))
    ensures Entries(Plug(Attach(g.(color := Red, sibling := g.sibling.(color := Black)), Attach(p.(color := Black), z)), rest))
      == Entries(Plug(Attach(g, Attach(p, z)), rest))
  {
    var p' := Attach(p.(color := Black), z);
    var g' := Attach(g.(color := Red, sibling := g.sibling.(color := Black)), p');
    assert Inorder(p') == Inorder(Attach(p, z)) && Entries(p') == Entries(Attach(p, z));
    assert Entries(g.sibling.(color := Black)) == Entries(g.sibling);
    assert Inorder(g') == Inorder(Attach(g, Attach(p, z))) && Entries(g') == Entries(Attach(g, Attach(p, z)));
    InorderPlug(g', rest);
    InorderPlug(Attach(g, Attach(p, z)), rest);
    EntriesPlug(g', rest);
    EntriesPlug(Attach(g, Attach(p, z)), rest);
  }

  /** Recolouring moves the fix-up's invariant two levels up. */
  lemma {:induction false} RecolorFixing<V>(c: Cursor<V>)
    requires |c.path| >= 2 && c.focus.Node? && c.path[0].color == Red && IsRed(c.path[1].sibling)
    requires Fixing(c)
    ensures var z, p, g := c.focus, c.path[0], c.path[1];
      Fixing(Cursor(Attach(g.(color := Red, sibling := g.sibling.(color := Black)), Attach(p.(color := Black), z)), c.path[2..]))
  {
    var z, p, g, rest := c.focus, c.path[0], c.path[1], c.path[2..];
    var u' := g.sibling.(color := Black);
    var p' := Attach(p.(color := Black), z);
    var g' := Attach(g.(color := Red, sibling := u'), p');
    FixingParts(c);
    var h := BlackHeight(z);
    AttachBalanced(p.(color := Black), z);
    assert BlackHeight(u') == h + 1;
    AttachBalanced(g.(color := Red, sibling := u'), p');
    assert NoRedRed(p') && NoRedRed(u');
    assert IsRed(g') && NoRedRed(g') && Balanced(g');
    assert PathBalanced(rest, BlackHeight(g'));
  }

  /** Case 3, a black uncle with node, parent and grandparent in a line:
      the parent turns black, the grandparent red, and a rotation at the
      grandparent lifts the parent above it (`ZigZigShape`). The new parent
      is black, so the fix-up ends; the keys keep their order and the
      red-black rules are restored. */
  lemma {:induction false} ZigZig<V>(c: Cursor<V>, top: Tree<V>)
    requires |c.path| >= 2 && IsRed(c.focus) && c.path[0].color == Red && !IsRed(c.path[1].sibling)
    requires c.path[0].dir == c.path[1].dir
    requires var p, g := c.path[0], c.path[1];
      top == (if g.dir == Left then Node(Red, p.sibling, g.key, g.value, g.sibling)
              else Node(Red, g.sibling, g.key, g.value, p.sibling))
    ensures FixProgress(c, Cursor(c.focus, [Frame(c.path[1].dir, Black, c.path[0].key, c.path[0].value, top)] + c.path[2..]))
  {
    var z, p, g, rest := c.focus, c.path[0], c.path[1], c.path[2..];
    var f := Frame(g.dir, Black, p.key, p.value, top);
    var r := Cursor(z, [f] + rest);
    assert r.path[1..] == rest;
    assert Whole(r) == Plug(Attach(f, z), rest);
    assert Whole(c) == Plug(Attach(g, Attach(p, z)), rest) by {
      assert c.path[1..][1..] == rest;
      assert Up(Up(c)) == Cursor(Attach(g, Attach(p, z)), rest);
    }
    InorderPlug(Attach(f, z), rest);
    InorderPlug(Attach(g, Attach(p, z)), rest);
    EntriesPlug(Attach(f, z), rest);
    EntriesPlug(Attach(g, Attach(p, z)), rest);
    ZigZigKeys(z, p, g, top);
    if Fixing(c) {
      ZigZigFixing(c, top);
    }
  }

  /** The rotation of case 3 keeps the keys and values of the grandparent's
      subtree. */
  lemma {:induction false} ZigZigKeys<V>(z: Tree<V>, p: Frame<V>, g: Frame<V>, top: Tree<V>)
    requires p.dir == g.dir
    requires top == (if g.dir == Left then Node(Red, p.sibling, g.key, g.value, g.sibling)
                     else Node(Red, g.sibling, g.key, g.value, p.sibling))
    ensures Inorder(Attach(Frame(g.dir, Black, p.key, p.value, top), z)) == Inorder(Attach(g, Attach(p, z)))
    ensures Entries(Attach(Frame(g.dir, Black, p.key, p.value, top), z)) == Entries(Attach(g, Attach(p, z)))
  {
    var pe, ge := (p.key, p.value), (g.key, g.value);
    if g.dir == Left {
      RotateSeq(Inorder(z), p.key, Inorder(p.sibling), g.key, Inorder(g.sibling));
      RotateSeq(Entries(z), pe, Entries(p.sibling), ge, Entries(g.sibling));
    } else {
      RotateSeq(Inorder(g.sibling), g.key, Inorder(p.sibling), p.key, Inorder(z));
      RotateSeq(Entries(g.sibling), ge, Entries(p.sibling), pe, Entries(z));
    }
  }

  /** A rotation regroups the in-order sequence without changing it. */
  lemma {:induction false} RotateSeq<T>(a: seq<T>, x: T, b: seq<T>, y: T, c: seq<T>)
    ensures a + [x] + b + [y] + c == a + [x] + (b + [y] + c)
  {
  }

  /** Case 3 restores the red-black rules around the rotated node. */
  lemma {:induction false} ZigZigFixing<V>(c: Cursor<V>, top: Tree<V>)
    requires |c.path| >= 2 && IsRed(c.focus) && c.path[0].color == Red && !IsRed(c.path[1].sibling)
    requires c.path[0].dir == c.path[1].dir
    requires var p, g := c.path[0], c.path[1];
      top == (if g.dir == Left then Node(Red, p.sibling, g.key, g.value, g.sibling)
              else Node(Red, g.sibling, g.key, g.value, p.sibling))
    requires Fixing(c)
    ensures Fixing(Cursor(c.focus, [Frame(c.path[1].dir, Black, c.path[0].key, c.path[0].value, top)] + c.path[2..]))
  {
    var z, p, g, rest := c.focus, c.path[0], c.path[1], c.path[2..];
    var f := Frame(g.dir, Black, p.key, p.value, top);
    FixingParts(c);
    assert Balanced(top) && BlackHeight(top) == BlackHeight(z) && NoRedRed(top);
    assert ([f] + rest)[1..] == rest;
  }

  /** The tree case 3 leaves: the node, below its old parent now black, whose
      other child is the old grandparent now red. */
  lemma {:induction false} ZigZigShape<V>(c: Cursor<V>) returns (top: Tree<V>)
    requires |c.path| >= 2 && c.focus.Node? && c.path[0].dir == c.path[1].dir
    ensures var p, g := c.path[0], c.path[1];
      var up := Up(Up(SetGrandparentColor(SetParentColor(c, Black), Red)));
      && RotateRight(up).focus.Node? && RotateLeft(up).focus.Node?
      && top == (if g.dir == Left then Node(Red, p.sibling, g.key, g.value, g.sibling)
                 else Node(Red, g.sibling, g.key, g.value, p.sibling))
      && (if g.dir == Left then Down(RotateRight(up), Left) else Down(RotateLeft(up), Right))
         == Cursor(c.focus, [Frame(g.dir, Black, p.key, p.value, top)] + c.path[2..])
  {
    var z, p, g, rest := c.focus, c.path[0], c.path[1], c.path[2..];
    var a, u := p.sibling, g.sibling;
    top := if g.dir == Left then Node(Red, a, g.key, g.value, u) else Node(Red, u, g.key, g.value, a);
    var up := Up(Up(SetGrandparentColor(SetParentColor(c, Black), Red)));
    assert up == Cursor(Attach(g.(color := Red), Attach(p.(color := Black), z)), rest);
  }

  /** Case 2, a black uncle with the node on the inner side of its parent:
      a rotation at the parent puts both in a line, the old parent now
      below, and the fix-up goes on from it as case 3. */
  lemma {:induction false} ZigZag<V>(c: Cursor<V>)
    requires |c.path| >= 2 && IsRed(c.focus) && c.path[0].color == Red
    requires c.path[0].dir != c.path[1].dir
    ensures var up := Up(c);
      var r := if c.path[1].dir == Left then Down(RotateLeft(up), Left) else Down(RotateRight(up), Right);
      && IsRed(r.focus) && |r.path| == |c.path| && r.path[1..] == c.path[1..]
      && r.path[0].color == Red && r.path[0].dir == r.path[1].dir
      && Inorder(Whole(r)) == Inorder(Whole(c)) && Entries(Whole(r)) == Entries(Whole(c))
      && (TopBlack(c.path) ==> TopBlack(r.path))
      && (Fixing(c) ==> Fixing(r))
  {
    var z, p, rest := c.focus, c.path[0], c.path[1..];
    var a := p.sibling;
    var up := Up(c);
    assert up == Cursor(Attach(p, z), rest);
    var p2 := if p.dir == Right then Node(Red, a, p.key, p.value, z.left) else Node(Red, z.right, p.key, p.value, a);
    var other := if p.dir == Right then z.right else z.left;
    var r := if c.path[1].dir == Left then Down(RotateLeft(up), Left) else Down(RotateRight(up), Right);
    assert r == Cursor(p2, [Frame(c.path[1].dir, Red, z.key, z.value, other)] + rest);
    assert r.path[1..] == rest;
    RotationsKeepOrder(up);
    if Fixing(c) {
      ZigZagFixing(c);
    }
  }

  /** The rotation of case 2 keeps the fix-up invariant. */
  lemma {:induction false} ZigZagFixing<V>(c: Cursor<V>)
    requires |c.path| >= 2 && IsRed(c.focus) && c.path[0].color == Red
    requires c.path[0].dir != c.path[1].dir && Fixing(c)
    ensures var z, p := c.focus, c.path[0];
      var p2 := if p.dir == Right then Node(Red, p.sibling, p.key, p.value, z.left) else Node(Red, z.right, p.key, p.value, p.sibling);
      var other := if p.dir == Right then z.right else z.left;
      Fixing(Cursor(p2, [Frame(c.path[1].dir, Red, z.key, z.value, other)] + c.path[1..]))
  {
    var z, p, rest := c.focus, c.path[0], c.path[1..];
    var p2 := if p.dir == Right then Node(Red, p.sibling, p.key, p.value, z.left) else Node(Red, z.right, p.key, p.value, p.sibling);
    var other := if p.dir == Right then z.right else z.left;
    var h := BlackHeight(z);
    assert PathNoRedRed(rest, true);
    assert PathBalanced(rest, h);
    assert Balanced(p2) && BlackHeight(p2) == h && NoRedRed(p2);
    assert Balanced(other) && BlackHeight(other) == h && NoRedRed(other) && !IsRed(other);
    assert ([Frame(c.path[1].dir, Red, z.key, z.value, other)] + rest)[1..] == rest;
  }

  /** What one pass of the fix-up loop keeps: the focus stays red and moves
      up, the keys keep their order and their values, the root stays black,
      and the loop invariant carries over. */
  ghost predicate FixProgress<V>(c: Cursor<V>, r: Cursor<V>)
  {
    && IsRed(r.focus) && |r.path| < |c.path|
    && Inorder(Whole(r)) == Inorder(Whole(c)) && Entries(Whole(r)) == Entries(Whole(c))
    && (TopBlack(c.path) ==> TopBlack(r.path))
    && (Fixing(c) ==> Fixing(r))
  }

  /** A step that keeps the keys and the invariant, followed by one that
      makes progress, makes progress. */
  lemma {:induction false} ProgressAfter<V>(c: Cursor<V>, m: Cursor<V>, r: Cursor<V>)
    requires |m.path| <= |c.path| && Inorder(Whole(m)) == Inorder(Whole(c)) && Entries(Whole(m)) == Entries(Whole(c))
    requires (TopBlack(c.path) ==> TopBlack(m.path)) && (Fixing(c) ==> Fixing(m))
    requires FixProgress(m, r)
    ensures FixProgress(c, r)
  {
  }

  /** One pass of the `fixInsertionRB` loop at a red node with a red parent.
      `ok == false` is the nil-grandparent dereference. */
  method FixStep<V>(c: Cursor<V>) returns (r: Cursor<V>, ok: bool)
    requires IsRed(c.focus) && c.path != [] && c.path[0].color == Red
    ensures ok <==> |c.path| >= 2
    ensures ok ==> FixProgress(c, r)
  {
    if |c.path| < 2 {
      // the parent is the root: `node.Parent.Parent` is nil
      return c, false;
    }
    ok := true;
    var uncle := c.path[1].sibling;
    if uncle.Node? && uncle.color == Red {
      r := RecolorUp(c);
    } else if c.path[1].dir == Left {
      r := BlackUncleLeft(c);
    } else {
      r := BlackUncleRight(c);
    }
  }

  /** The red-uncle case, the same on both sides: parent and uncle turn
      black, the grandparent red, and the grandparent is the next node. */
  method RecolorUp<V>(c: Cursor<V>) returns (r: Cursor<V>)
    requires |c.path| >= 2 && c.focus.Node? && c.path[0].color == Red && IsRed(c.path[1].sibling)
    ensures FixProgress(c, r)
  {
    RecolorStep(c);
    r := SetParentColor(c, Black);
    r := SetUncleColor(r, Black);
    r := SetGrandparentColor(r, Red);
    r := Up(Up(r));
  }

  /** The black-uncle case with the parent a left child: a right child is
      first rotated into line (`rotateLeftRB` at the parent), then the
      parent turns black, the grandparent red, and `rotateRightRB` at the
      grandparent. */
  method BlackUncleLeft<V>(c: Cursor<V>) returns (r: Cursor<V>)
    requires |c.path| >= 2 && IsRed(c.focus) && c.path[0].color == Red && !IsRed(c.path[1].sibling)
    requires c.path[1].dir == Left
    ensures FixProgress(c, r)
  {
    r := c;
    if r.path[0].dir == Right {
      ZigZag(r);
      r := Up(r);
      r := Down(RotateLeft(r), Left);
      assert r.path[1] == r.path[1..][0];
    }
    ghost var top := ZigZigShape(r);
    ZigZig(r, top);
    ghost var r2 := Cursor(r.focus, [Frame(r.path[1].dir, Black, r.path[0].key, r.path[0].value, top)] + r.path[2..]);
    ProgressAfter(c, r, r2);
    r := SetParentColor(r, Black);
    r := SetGrandparentColor(r, Red);
    r := Down(RotateRight(Up(Up(r))), Left);
  }

  /** The mirror image, with the parent a right child. */
  method BlackUncleRight<V>(c: Cursor<V>) returns (r: Cursor<V>)
    requires |c.path| >= 2 && IsRed(c.focus) && c.path[0].color == Red && !IsRed(c.path[1].sibling)
    requires c.path[1].dir == Right
    ensures FixProgress(c, r)
  {
    r := c;
    if r.path[0].dir == Left {
      ZigZag(r);
      r := Up(r);
      r := Down(RotateRight(r), Right);
      assert r.path[1] == r.path[1..][0];
    }
    ghost var top := ZigZigShape(r);
    ZigZig(r, top);
    ghost var r2 := Cursor(r.focus, [Frame(r.path[1].dir, Black, r.path[0].key, r.path[0].value, top)] + r.path[2..]);
    ProgressAfter(c, r, r2);
    r := SetParentColor(r, Black);
    r := SetGrandparentColor(r, Red);
    r := Down(RotateLeft(Up(Up(r))), Right);
  }

  /** Go's `fixInsertionRB`, started at the newly inserted red node: while
      the node's parent is red, recolour (red uncle) or rotate (black
      uncle); then blacken the root. The grandparent is dereferenced without
      a nil check, so a red parent that is the root makes Go panic,
      reported as `ok == false`. Started from a red-black tree with a red
      leaf added, it never panics and restores the red-black rules. */
  method FixInsertion<V>(c0: Cursor<V>) returns (t: Tree<V>, ok: bool)
    requires IsRed(c0.focus)
    ensures Inorder(t) == Inorder(Whole(c0)) && Entries(t) == Entries(Whole(c0))
    ensures ok ==> !IsRed(t)
    ensures TopBlack(c0.path) ==> ok
    ensures |c0.path| == 1 && c0.path[0].color == Red ==> !ok
    ensures Fixing(c0) ==> ok && IsRedBlack(t)
  {
    var c := c0;
    while c.path != [] && c.path[0].color == Red
      invariant IsRed(c.focus)
      invariant Inorder(Whole(c)) == Inorder(Whole(c0)) && Entries(Whole(c)) == Entries(Whole(c0))
      invariant TopBlack(c0.path) ==> TopBlack(c.path)
      invariant Fixing(c0) ==> Fixing(c)
      invariant |c0.path| == 1 && c0.path[0].color == Red ==> c == c0
      decreases |c.path|
    {
      var next, stepped := FixStep(c);
      if !stepped {
        return Whole(c), false;
      }
      c := next;
    }
    if Fixing(c0) {
      FixDone(c);
    }
    t := Blacken(Whole(c));
    ok := true;
  }

  // ---------------------------------------------------------------------
  // insertRB

  /** Go's `insertRB` as written: a key inserted into an empty tree becomes
      a red root and the fix-up is skipped. The second insert then puts a
      red leaf under a red root, and the fix-up dereferences the missing
      grandparent. */
  method InsertAsWritten<V>(root: Tree<V>, key: Key, value: V) returns (r: Tree<V>, ok: bool)
    ensures root == Nil ==> ok && r == Node(Red, Nil, key, value, Nil)
    ensures IsRed(root) && root.left == Nil && root.right == Nil ==> !ok
    ensures root.Node? && !IsRed(root) ==> ok && !IsRed(r)
    ensures Sorted(Inorder(root)) ==> Inorder(r) == InsertSorted(Inorder(root), key)
    ensures Sorted(Inorder(root)) ==> var p := InsertPos(Inorder(root), key);
      Entries(r) == Entries(root)[..p] + [(key, value)] + Entries(root)[p..]
    ensures IsRedBlack(root) && root != Nil ==> ok && IsRedBlack(r)
  {
    var leaf := Node(Red, Nil, key, value, Nil);
    if root == Nil {
      return leaf, true;
    }
    var c := InsertNode(Cursor(root, []), key, value);
    InsertStart(root, key, value);
    r, ok := FixInsertion(c);
  }

  /** Where `insertNodeRB` leaves the fix-up to start. */
  lemma {:induction false} InsertStart<V>(root: Tree<V>, key: Key, value: V)
    requires root.Node?
    ensures var c := InsertNode(Cursor(root, []), key, value);
      && IsRed(c.focus)
      && (!IsRed(root) ==> TopBlack(c.path))
      && (IsRed(root) && root.left == Nil && root.right == Nil ==> |c.path| == 1 && c.path[0].color == Red)
      && (Sorted(Inorder(root)) ==> Inorder(Whole(c)) == InsertSorted(Inorder(root), key))
      && (Sorted(Inorder(root)) ==> var p := InsertPos(Inorder(root), key);
          Entries(Whole(c)) == Entries(root)[..p] + [(key, value)] + Entries(root)[p..])
      && (IsRedBlack(root) ==> Fixing(c))
  {
    var c := InsertNode(Cursor(root, []), key, value);
    InsertEntries(root, key, value, c);
    PlugTop(Nil, c.path);
    if IsRedBlack(root) {
      FixStart(c.path, key, value);
    }
    if IsRed(root) && root.left == Nil && root.right == Nil {
      var d := Down(Cursor(root, []), if Less(key, root.key) then Left else Right);
      assert c == Cursor(Node(Red, Nil, key, value, Nil), d.path);
    }
  }

  /** The new leaf's pair goes in at the position `InsertSorted` gives its
      key, between the pairs of the tree it was hung on. */
  lemma {:induction false} InsertEntries<V>(root: Tree<V>, key: Key, value: V, c: Cursor<V>)
    requires root.Node? && c == InsertNode(Cursor(root, []), key, value)
    ensures Sorted(Inorder(root)) ==> Inorder(Whole(c)) == InsertSorted(Inorder(root), key)
    ensures Sorted(Inorder(root)) ==> var p := InsertPos(Inorder(root), key);
      Entries(Whole(c)) == Entries(root)[..p] + [(key, value)] + Entries(root)[p..]
  {
    if Sorted(Inorder(root)) {
      assert LeftOf<V>([]) == [] && RightOf<V>([]) == [];
      Unpad(Inorder(Whole(c)), LeftOf<V>([]), InsertSorted(Inorder(root), key), RightOf<V>([]));
      LeafEntries(c.path, key, value);
      assert |EntriesLeftOf(c.path)| == InsertPos(Inorder(root), key);
    }
  }

  /** A leaf hung where `path` holds a nil child takes the pair position
      given by the keys to the left of that child. */
  lemma LeafEntries<V>(path: seq<Frame<V>>, key: Key, value: V)
    ensures
      var p, e := |EntriesLeftOf(path)|, Entries(Plug(Nil, path));
      p <= |e| && Entries(Plug(Node(Red, Nil, key, value, Nil), path)) == e[..p] + [(key, value)] + e[p..]
  {
    var leaf := Node(Red, Nil, key, value, Nil);
    EntriesPlug(Nil, path);
    EntriesPlug(leaf, path);
    SplitAround(Entries(Plug(Nil, path)), Entries(Plug(leaf, path)), EntriesLeftOf(path), EntriesRightOf(path),
      Entries(Nil), Entries(leaf), (key, value));
  }

  lemma {:induction false} Unpad<T>(s: seq<T>, l: seq<T>, x: seq<T>, r: seq<T>)
    requires s == l + x + r && l == [] && r == []
    ensures s == x
  {
  }

  /** Putting `x` between `l` and `r` inserts it into `l + r` at `|l|`. */
  lemma SplitAround<T>(s: seq<T>, t: seq<T>, l: seq<T>, r: seq<T>, m0: seq<T>, m1: seq<T>, x: T)
    requires s == l + m0 + r && t == l + m1 + r && m0 == [] && m1 == [x]
    ensures |l| <= |s| && t == s[..|l|] + [x] + s[|l|..]
  {
    assert s == l + r;
    assert s[..|l|] == l && s[|l|..] == r;
  }

  /** Two inserts into an empty tree: the second one panics. */
  method SecondInsertPanics() returns (ok: bool)
    ensures !ok
  {
    var t, _ := InsertAsWritten(Nil, "a", 0);
    t, ok := InsertAsWritten(t, "b", 0);
  }

  /** `insertRB` as intended: the fix-up also runs for the first node, so the
      root is always black. On a tree with a black root it never panics,
      puts the key after every key at most it, and keeps the red-black
      rules. */
  method InsertRB<V>(root: Tree<V>, key: Key, value: V) returns (r: Tree<V>)
    requires !IsRed(root)
    ensures !IsRed(r)
    ensures Sorted(Inorder(root)) ==> Inorder(r) == InsertSorted(Inorder(root), key) && Sorted(Inorder(r))
    ensures Sorted(Inorder(root)) ==> multiset(Inorder(r)) == multiset(Inorder(root)) + multiset{key}
    ensures Sorted(Inorder(root)) ==> var p := InsertPos(Inorder(root), key);
      Entries(r) == Entries(root)[..p] + [(key, value)] + Entries(root)[p..]
    ensures IsRedBlack(root) ==> IsRedBlack(r)
  {
    var leaf := Node(Red, Nil, key, value, Nil);
    var c := if root == Nil then Cursor(leaf, []) else InsertNode(Cursor(root, []), key, value);
    if root != Nil {
      InsertStart(root, key, value);
    }
    var ok;
    r, ok := FixInsertion(c);
    InsertionCounts(root, key, r);
  }

  lemma {:induction false} InsertionCounts<V>(root: Tree<V>, key: Key, r: Tree<V>)
    requires root == Nil ==> Inorder(r) == [key]
    requires root != Nil ==> Sorted(Inorder(root)) ==> Inorder(r) == InsertSorted(Inorder(root), key)
    ensures Sorted(Inorder(root)) ==> Inorder(r) == InsertSorted(Inorder(root), key) && Sorted(Inorder(r))
    ensures Sorted(Inorder(root)) ==> multiset(Inorder(r)) == multiset(Inorder(root)) + multiset{key}
  {
    if Sorted(Inorder(root)) {
      InsertSortedSorted(Inorder(root), key);
      InsertSortedCount(Inorder(root), key);
    }
  }

  // ---------------------------------------------------------------------
  // searchRB, getNodeRB

  /** Go's `searchRB`: stop at a node holding the key, go right past a
      smaller key and left otherwise. On a search tree it finds the key
      exactly when the key is stored below the starting node. */
  function Search<V>(c: Cursor<V>, key: Key): (r: Option<Cursor<V>>)
    ensures r.Some? ==> r.value.focus.Node? && r.value.focus.key == key && Whole(r.value) == Whole(c)
    ensures Sorted(Inorder(c.focus)) ==> (r.Some? <==> key in Inorder(c.focus))
    decreases c.focus
  {
    if c.focus == Nil then None
    else if c.focus.key == key then Some(c)
    else
      var n := c.focus;
      SearchSide(n.left, n.key, n.right, key);
      if Less(n.key, key) then Search(Down(c, Right), key) else Search(Down(c, Left), key)
  }

  /** Where a key other than the root's can be in a sorted subtree. */
  lemma {:induction false} SearchSide<V>(l: Tree<V>, k: Key, r: Tree<V>, key: Key)
    requires key != k
    ensures Sorted(Inorder(l) + [k] + Inorder(r)) ==>
      && Sorted(Inorder(l)) && Sorted(Inorder(r))
      && (Less(k, key) ==> key !in Inorder(l))
      && (!Less(k, key) ==> key !in Inorder(r))
  {
    if Sorted(Inorder(l) + [k] + Inorder(r)) {
      SortedSide(Inorder(l), k, Inorder(r), key);
    }
  }

  lemma {:induction false} SortedSide(a: seq<Key>, k: Key, b: seq<Key>, key: Key)
    requires key != k && Sorted(a + [k] + b)
    ensures Sorted(a) && Sorted(b)
    ensures Less(k, key) ==> key !in a
    ensures !Less(k, key) ==> key !in b
  {
    SortedSplit(a, k, b);
    LessIrreflexive(key);
    if Less(k, key) {
      forall i | 0 <= i < |a| ensures a[i] != key {
        NotLessLess(a[i], k, key);
      }
    } else {
      LessTotal(k, key);
      forall i | 0 <= i < |b| ensures b[i] != key {
        LessNotLess(key, k, b[i]);
      }
    }
  }

  /** Go's `getNodeRB`, which tests the two orders before equality. */
  function GetNode<V>(c: Cursor<V>, key: Key): (r: Result<Cursor<V>>)
    ensures r.Ok? ==> r.value.focus.Node? && r.value.focus.key == key && Whole(r.value) == Whole(c)
    ensures r.Err? ==> r.error == NotFound
    decreases c.focus
  {
    if c.focus == Nil then Err(NotFound)
    else if Less(key, c.focus.key) then GetNode(Down(c, Left), key)
    else if Less(c.focus.key, key) then GetNode(Down(c, Right), key)
    else LessTotal(key, c.focus.key); Ok(c)
  }

  /** `getNodeRB` and `searchRB` reach the same node. */
  lemma {:induction false} GetNodeIsSearch<V>(c: Cursor<V>, key: Key)
    ensures GetNode(c, key) == (if Search(c, key).Some? then Ok(Search(c, key).value) else Err(NotFound))
    decreases c.focus
  {
    if c.focus.Node? {
      var k := c.focus.key;
      if k == key {
        LessIrreflexive(k);
      } else if Less(k, key) {
        LessAsymmetric(k, key);
        GetNodeIsSearch(Down(c, Right), key);
      } else {
        LessTotal(k, key);
        GetNodeIsSearch(Down(c, Left), key);
      }
    }
  }

  /** Every ancestor on `path` holds another key, and the step taken below
      it is the one `searchRB` takes for `key`. */
  ghost predicate Leads<V>(path: seq<Frame<V>>, key: Key)
  {
    forall i :: 0 <= i < |path| ==> path[i].key != key && (path[i].dir == Right <==> Less(path[i].key, key))
  }

  /** The path `searchRB` walks down is led by the key. */
  lemma {:induction false} SearchLeads<V>(c: Cursor<V>, key: Key)
    requires Leads(c.path, key) && Search(c, key).Some?
    ensures Leads(Search(c, key).value.path, key)
    decreases c.focus
  {
    var n := c.focus;
    if n.key != key {
      var d := Down(c, if Less(n.key, key) then Right else Left);
      assert forall i | 1 <= i < |d.path| :: d.path[i] == c.path[i - 1];
      SearchLeads(d, key);
    }
  }

  /** Below a path led by the key, `searchRB` reaches any node holding the
      key, whatever its value and subtrees. */
  lemma {:induction false} SearchFinds<V>(x: Tree<V>, a: seq<Frame<V>>, b: seq<Frame<V>>, key: Key)
    requires x.Node? && x.key == key && Leads(a, key)
    ensures Search(Cursor(Plug(x, a), b), key) == Some(Cursor(x, a + b))
    decreases |a|
  {
    if a == [] {
      assert a + b == b;
    } else {
      var g, a' := a[|a| - 1], a[..|a| - 1];
      PlugLast(x, a, b);
      LeadsPrefix(a, key);
      SearchFinds(x, a', [g] + b, key);
      SearchStep(g, Plug(x, a'), b, key);
    }
  }

  /** Putting a subtree under a path is putting it under all but the root
      frame and then attaching that frame. */
  lemma {:induction false} PlugLast<V>(x: Tree<V>, a: seq<Frame<V>>, b: seq<Frame<V>>)
    requires a != []
    ensures Plug(x, a) == Attach(a[|a| - 1], Plug(x, a[..|a| - 1]))
    ensures a[..|a| - 1] + ([a[|a| - 1]] + b) == a + b
  {
    assert a == a[..|a| - 1] + [a[|a| - 1]];
    PlugConcat(x, a[..|a| - 1], [a[|a| - 1]]);
  }

  lemma {:induction false} LeadsPrefix<V>(a: seq<Frame<V>>, key: Key)
    requires a != [] && Leads(a, key)
    ensures Leads(a[..|a| - 1], key)
    ensures a[|a| - 1].key != key && (a[|a| - 1].dir == Right <==> Less(a[|a| - 1].key, key))
  {
    var a' := a[..|a| - 1];
    assert forall i | 0 <= i < |a'| :: a'[i] == a[i];
  }

  /** At a parent holding another key, `searchRB` takes the step the frame
      records. */
  lemma {:induction false} SearchStep<V>(g: Frame<V>, t: Tree<V>, b: seq<Frame<V>>, key: Key)
    requires g.key != key && (g.dir == Right <==> Less(g.key, key))
    ensures Search(Cursor(Attach(g, t), b), key) == Search(Cursor(t, [g] + b), key)
  {
    assert Down(Cursor(Attach(g, t), b), g.dir) == Cursor(t, [g] + b);
  }

  // ---------------------------------------------------------------------
  // minimum, successor

  ghost predicate AllLeft<V>(path: seq<Frame<V>>)
  {
    forall i :: 0 <= i < |path| ==> path[i].dir == Left
  }

  /** `m` is reached from `c` by left steps only. */
  ghost predicate Spine<V>(c: Cursor<V>, m: Cursor<V>)
  {
    && |c.path| <= |m.path| && m.path[|m.path| - |c.path|..] == c.path
    && AllLeft(m.path[..|m.path| - |c.path|])
    && Plug(m.focus, m.path[..|m.path| - |c.path|]) == c.focus
  }

  /** `m` is reached from `c` by left steps only and has no left child. */
  ghost predicate LeftSpine<V>(c: Cursor<V>, m: Cursor<V>)
  {
    Spine(c, m) && m.focus.Node? && m.focus.left == Nil
  }

  lemma {:induction false} LeftOfConcat<V>(a: seq<Frame<V>>, b: seq<Frame<V>>)
    ensures LeftOf(a + b) == LeftOf(b) + LeftOf(a)
    decreases |a|
  {
    if a == [] {
      assert a + b == b;
    } else {
      assert (a + b)[1..] == a[1..] + b;
      LeftOfConcat(a[1..], b);
    }
  }

  /** Left steps add nothing to the keys on the left. */
  lemma {:induction false} AllLeftSides<V>(path: seq<Frame<V>>)
    requires AllLeft(path)
    ensures LeftOf(path) == [] && EntriesLeftOf(path) == []
    decreases |path|
  {
    if path != [] {
      AllLeftSides(path[1..]);
    }
  }

  /** What a left spine says about positions: the end of the spine is the
      first node of the subtree it starts from. */
  lemma {:induction false} SpineIndex<V>(c: Cursor<V>, m: Cursor<V>)
    requires c.focus.Node? && LeftSpine(c, m)
    ensures Whole(m) == Whole(c)
    ensures Index(m) == |LeftOf(c.path)| && m.focus.key == Inorder(c.focus)[0]
  {
    var k := |m.path| - |c.path|;
    var pre := m.path[..k];
    assert m.path == pre + c.path;
    PlugConcat(m.focus, pre, c.path);
    LeftOfConcat(pre, c.path);
    AllLeftSides(pre);
    InorderPlug(m.focus, pre);
  }

  /** Go's `minimum`: follow left children from a non-nil node. The node
      reached holds the first key of the subtree. */
  method Minimum<V>(c: Cursor<V>) returns (m: Cursor<V>)
    requires c.focus.Node?
    ensures LeftSpine(c, m)
    ensures Whole(m) == Whole(c)
    ensures Index(m) == |LeftOf(c.path)| && m.focus.key == Inorder(c.focus)[0]
  {
    m := c;
    assert m.path[..0] == [] && m.path[0..] == m.path;
    while m.focus.left != Nil
      invariant m.focus.Node? && Spine(c, m)
      decreases m.focus
    {
      DownSpine(c, m);
      m := Down(m, Left);
    }
    SpineIndex(c, m);
  }

  /** One left step down keeps the spine. */
  lemma {:induction false} DownSpine<V>(c: Cursor<V>, m: Cursor<V>)
    requires m.focus.Node? && Spine(c, m)
    ensures Spine(c, Down(m, Left))
  {
    var next := Down(m, Left);
    var k := |m.path| - |c.path|;
    assert next.path == [next.path[0]] + m.path;
    assert next.path[k + 1..] == m.path[k..];
    assert next.path[..k + 1] == [next.path[0]] + m.path[..k];
    assert Attach(next.path[0], next.focus) == m.focus;
  }

  /** Go's `successor`: the minimum of the right subtree if there is one,
      else the first ancestor reached from a left child. It is the node at
      the next in-order position, and there is none exactly at the last. */
  method Successor<V>(c: Cursor<V>) returns (r: Option<Cursor<V>>)
    requires c.focus.Node?
    ensures r.Some? ==> r.value.focus.Node? && Whole(r.value) == Whole(c) && Index(r.value) == Index(c) + 1
    ensures r.None? <==> Index(c) + 1 == |Inorder(Whole(c))|
    ensures c.focus.right != Nil ==> r.Some? && LeftSpine(Down(c, Right), r.value)
  {
    if c.focus.right != Nil {
      var m := Minimum(Down(c, Right));
      DownSides(c);
      IndexKey(m);
      return Some(m);
    }
    var node := c;
    while node.path != [] && node.path[0].dir == Right
      invariant node.focus.Node? && Whole(node) == Whole(c)
      invariant |LeftOf(node.path)| + |Inorder(node.focus)| == Index(c) + 1
      decreases |node.path|
    {
      node := Up(node);
    }
    if node.path == [] {
      InorderPlug(node.focus, node.path);
      return None;
    }
    var parent := Up(node);
    IndexKey(parent);
    return Some(parent);
  }

  // ---------------------------------------------------------------------
  // fixDeletionRB

  /** Replacing the parent frame by one that rebuilds a parent with the same
      keys in the same order leaves the whole tree's keys as they were, and
      its key-value pairs too when the parent's pairs are the same. */
  lemma {:induction false} FrameSwapOrder<V>(c: Cursor<V>, f: Frame<V>)
    requires c.path != [] && Inorder(Attach(f, c.focus)) == Inorder(Attach(c.path[0], c.focus))
    ensures Inorder(Whole(Cursor(c.focus, [f] + c.path[1..]))) == Inorder(Whole(c))
    ensures Entries(Attach(f, c.focus)) == Entries(Attach(c.path[0], c.focus)) ==>
      Entries(Whole(Cursor(c.focus, [f] + c.path[1..]))) == Entries(Whole(c))
  {
    assert ([f] + c.path[1..])[1..] == c.path[1..];
    InorderPlug(Attach(f, c.focus), c.path[1..]);
    InorderPlug(Attach(c.path[0], c.focus), c.path[1..]);
    EntriesPlug(Attach(f, c.focus), c.path[1..]);
    EntriesPlug(Attach(c.path[0], c.focus), c.path[1..]);
  }

  /** Go's writes through `sibling`: the parent's other child is replaced by
      a subtree with the same keys in the same order; when its key-value
      pairs are the same too, so are the whole tree's. */
  function SetSibling<V>(c: Cursor<V>, s: Tree<V>): (r: Cursor<V>)
    requires c.path != [] && Inorder(s) == Inorder(c.path[0].sibling)
    ensures r.focus == c.focus && |r.path| == |c.path| && r.path[1..] == c.path[1..]
    ensures r.path[0].sibling == s && r.path[0].color == c.path[0].color && r.path[0].dir == c.path[0].dir
    ensures Inorder(Whole(r)) == Inorder(Whole(c))
    ensures Entries(s) == Entries(c.path[0].sibling) ==> Entries(Whole(r)) == Entries(Whole(c))
  {
    var f := c.path[0].(sibling := s);
    FrameSwapOrder(c, f);
    var r := Cursor(c.focus, [f] + c.path[1..]);
    assert r.path[1..] == c.path[1..];
    r
  }

  /** Recolouring the parent leaves the keys and values as they were. */
  lemma {:induction false} ParentColorOrder<V>(c: Cursor<V>, col: Color)
    requires c.path != []
    ensures Inorder(Whole(SetParentColor(c, col))) == Inorder(Whole(c))
    ensures Entries(Whole(SetParentColor(c, col))) == Entries(Whole(c))
  {
    FrameSwapOrder(c, c.path[0].(color := col));
  }

  /** How far the deletion fix-up is from its end: it moves up, or its node
      turns red, or it jumps to the root. */
  function DeletionMeasure<V>(c: Cursor<V>): nat
  {
    |c.path| + (if c.focus.Node? && c.focus.color == Black then 1 else 0)
  }

  /** What one pass of the deletion fix-up keeps. */
  ghost predicate DeletionProgress<V>(c: Cursor<V>, r: Cursor<V>)
  {
    && r.focus.Node? && DeletionMeasure(r) < DeletionMeasure(c)
    && Inorder(Whole(r)) == Inorder(Whole(c)) && Entries(Whole(r)) == Entries(Whole(c))
    && (TopBlack(c.path) ==> TopBlack(r.path))
  }

  /** Go's `sibling.Color == RED` case with the node a left child: the
      sibling turns black, the parent red, and a left rotation at the parent
      makes the sibling the grandparent. */
  lemma {:induction false} RedSiblingLeft<V>(c: Cursor<V>)
    requires c.path != [] && c.focus.Node? && c.path[0].dir == Left && IsRed(c.path[0].sibling)
    ensures var s := c.path[0].sibling;
      var r := Down(Down(RotateLeft(Up(SetParentColor(SetSibling(c, s.(color := Black)), Red))), Left), Left);
      && r.focus == c.focus && |r.path| == |c.path| + 1 && r.path[2..] == c.path[1..]
      && r.path[0] == Frame(Left, Red, c.path[0].key, c.path[0].value, s.left)
      && r.path[1].color == Black
      && Inorder(Whole(r)) == Inorder(Whole(c)) && Entries(Whole(r)) == Entries(Whole(c))
      && (TopBlack(c.path) ==> TopBlack(r.path))
  {
    var p, s := c.path[0], c.path[0].sibling;
    var a := SetSibling(c, s.(color := Black));
    var b := SetParentColor(a, Red);
    ParentColorOrder(a, Red);
    var u := Up(b);
    assert u == Cursor(Node(Red, c.focus, p.key, p.value, s.(color := Black)), c.path[1..]);
    RotationsKeepOrder(u);
    var r := Down(Down(RotateLeft(u), Left), Left);
    assert r.path == [Frame(Left, Red, p.key, p.value, s.left), Frame(Left, Black, s.key, s.value, s.right)] + c.path[1..];
    assert r.path[2..] == c.path[1..];
  }

  /** The mirror image, the node a right child. */
  lemma {:induction false} RedSiblingRight<V>(c: Cursor<V>)
    requires c.path != [] && c.focus.Node? && c.path[0].dir == Right && IsRed(c.path[0].sibling)
    ensures var s := c.path[0].sibling;
      var r := Down(Down(RotateRight(Up(SetParentColor(SetSibling(c, s.(color := Black)), Red))), Right), Right);
      && r.focus == c.focus && |r.path| == |c.path| + 1 && r.path[2..] == c.path[1..]
      && r.path[0] == Frame(Right, Red, c.path[0].key, c.path[0].value, s.right)
      && r.path[1].color == Black
      && Inorder(Whole(r)) == Inorder(Whole(c)) && Entries(Whole(r)) == Entries(Whole(c))
      && (TopBlack(c.path) ==> TopBlack(r.path))
  {
    var p, s := c.path[0], c.path[0].sibling;
    var a := SetSibling(c, s.(color := Black));
    var b := SetParentColor(a, Red);
    ParentColorOrder(a, Red);
    var u := Up(b);
    assert u == Cursor(Node(Red, s.(color := Black), p.key, p.value, c.focus), c.path[1..]);
    RotationsKeepOrder(u);
    var r := Down(Down(RotateRight(u), Right), Right);
    assert r.path == [Frame(Right, Red, p.key, p.value, s.right), Frame(Right, Black, s.key, s.value, s.left)] + c.path[1..];
    assert r.path[2..] == c.path[1..];
  }

  /** The red-sibling case with the node a left child, as Go writes it:
      the sibling turns black, the parent red, `rotateLeftRB` at the
      parent, and the node's new sibling is the old sibling's
      left child. */
  method RedSiblingLeftStep<V>(c: Cursor<V>) returns (r: Cursor<V>)
    requires c.path != [] && c.focus.Node? && c.path[0].dir == Left && IsRed(c.path[0].sibling)
    ensures r.focus == c.focus && |r.path| == |c.path| + 1 && r.path[0].dir == Left && r.path[0].color == Red
    ensures Inorder(Whole(r)) == Inorder(Whole(c)) && Entries(Whole(r)) == Entries(Whole(c))
    ensures TopBlack(c.path) ==> TopBlack(r.path)
  {
    RedSiblingLeft(c);
    r := SetSibling(c, c.path[0].sibling.(color := Black));
    r := SetParentColor(r, Red);
    r := Down(Down(RotateLeft(Up(r)), Left), Left);
  }

  /** One pass of the `fixDeletionRB` loop for a black node that is a left
      child, rotations to the left. Go reads the sibling's colour and then
      its children's colours without nil checks: `ok == false` marks each
      of those nil dereferences, and the cursor returned is then `c`, the
      one the pass started from. */
  method FixDeletionLeft<V>(c: Cursor<V>) returns (r: Cursor<V>, ok: bool)
    requires c.path != [] && c.focus.Node? && c.focus.color == Black && c.path[0].dir == Left
    ensures ok ==> DeletionProgress(c, r)
    ensures c.path[0].sibling == Nil ==> !ok
  {
    var sibling := c.path[0].sibling;
    if sibling == Nil {
      return c, false;
    }
    r := c;
    if sibling.color == Red {
      r := RedSiblingLeftStep(r);
      sibling := r.path[0].sibling;
    }
    if sibling == Nil || sibling.left == Nil {
      return c, false;
    }
    if sibling.left.color == Black && sibling.right == Nil {
      return c, false;
    }
    if sibling.left.color == Black && sibling.right.color == Black {
      PushUpProgress(c, r, sibling.(color := Red));
      r := SetSibling(r, sibling.(color := Red));
      r := Up(r);
    } else {
      var t, fine := FarNephewLeft(r);
      if !fine {
        return c, false;
      }
      r := Cursor(t, []);
    }
    ok := true;
  }

  lemma {:induction false} TopBlackTail<V>(path: seq<Frame<V>>)
    requires path != []
    ensures TopBlack(path) ==> TopBlack(path[1..])
  {
  }

  /** The black-nephews case: once the sibling turns red, moving to the
      parent is progress, measured by `DeletionMeasure`. */
  lemma {:induction false} PushUpProgress<V>(c: Cursor<V>, r: Cursor<V>, s: Tree<V>)
    requires c.path != [] && c.focus.Node? && c.focus.color == Black && r.focus == c.focus
    requires |r.path| == |c.path| || (|r.path| == |c.path| + 1 && r.path[0].color == Red)
    requires Inorder(Whole(r)) == Inorder(Whole(c)) && Entries(Whole(r)) == Entries(Whole(c))
    requires TopBlack(c.path) ==> TopBlack(r.path)
    requires Inorder(s) == Inorder(r.path[0].sibling) && Entries(s) == Entries(r.path[0].sibling)
    ensures DeletionProgress(c, Up(SetSibling(r, s)))
  {
    var q := SetSibling(r, s);
    TopBlackTail(q.path);
    assert Up(q).path == r.path[1..] && Up(q).focus.color == r.path[0].color;
  }

  /** The red-sibling case with the node a right child, as Go writes it:
      the sibling turns black, the parent red, `rotateRightRB` at the
      parent, and the node's new sibling is the old sibling's
      right child. */
  method RedSiblingRightStep<V>(c: Cursor<V>) returns (r: Cursor<V>)
    requires c.path != [] && c.focus.Node? && c.path[0].dir == Right && IsRed(c.path[0].sibling)
    ensures r.focus == c.focus && |r.path| == |c.path| + 1 && r.path[0].dir == Right && r.path[0].color == Red
    ensures Inorder(Whole(r)) == Inorder(Whole(c)) && Entries(Whole(r)) == Entries(Whole(c))
    ensures TopBlack(c.path) ==> TopBlack(r.path)
  {
    RedSiblingRight(c);
    r := SetSibling(c, c.path[0].sibling.(color := Black));
    r := SetParentColor(r, Red);
    r := Down(Down(RotateRight(Up(r)), Right), Right);
  }

  /** One pass of the `fixDeletionRB` loop for a black node that is a right
      child, rotations to the right. Go reads the sibling's colour and then
      its children's colours without nil checks: `ok == false` marks each
      of those nil dereferences, and the cursor returned is then `c`, the
      one the pass started from. */
  method FixDeletionRight<V>(c: Cursor<V>) returns (r: Cursor<V>, ok: bool)
    requires c.path != [] && c.focus.Node? && c.focus.color == Black && c.path[0].dir == Right
    ensures ok ==> DeletionProgress(c, r)
    ensures c.path[0].sibling == Nil ==> !ok
  {
    var sibling := c.path[0].sibling;
    if sibling == Nil {
      return c, false;
    }
    r := c;
    if sibling.color == Red {
      r := RedSiblingRightStep(r);
      sibling := r.path[0].sibling;
    }
    if sibling == Nil || sibling.right == Nil {
      return c, false;
    }
    if sibling.right.color == Black && sibling.left == Nil {
      return c, false;
    }
    if sibling.right.color == Black && sibling.left.color == Black {
      PushUpProgress(c, r, sibling.(color := Red));
      r := SetSibling(r, sibling.(color := Red));
      r := Up(r);
    } else {
      var t, fine := FarNephewRight(r);
      if !fine {
        return c, false;
      }
      r := Cursor(t, []);
    }
    ok := true;
  }

  /** Recolouring a node changes neither its keys nor its values. */
  lemma {:induction false} ColorKeepsEntries<V>(t: Tree<V>, col: Color)
    requires t.Node?
    ensures Inorder(t.(color := col)) == Inorder(t) && Entries(t.(color := col)) == Entries(t)
  {
  }

  /** The last case of a `fixDeletionRB` pass for a left child: a sibling
      whose far child must be red. If only the near child is red, a right
      rotation at the sibling makes the far child red. Then the sibling
      takes the parent's colour, the parent and the far child turn black,
      and a left rotation at the parent ends the fix-up at the root. A nil
      far child is a nil dereference in Go (`ok == false`). */
  method FarNephewLeft<V>(r: Cursor<V>) returns (t: Tree<V>, ok: bool)
    requires r.path != [] && r.path[0].sibling.Node? && r.path[0].sibling.left.Node?
    ensures ok ==> t.Node? && Inorder(t) == Inorder(Whole(r)) && Entries(t) == Entries(Whole(r))
    ensures r.path[0].sibling.right == Nil ==> !ok
  {
    var sibling := r.path[0].sibling;
    if sibling.right == Nil {
      return Nil, false;
    }
    var q := r;
    if sibling.right.color == Black {
      ColorKeepsEntries(sibling.left, Black);
      q := SetSibling(q, sibling.(left := sibling.left.(color := Black)));
      ColorKeepsEntries(q.path[0].sibling, Red);
      q := SetSibling(q, q.path[0].sibling.(color := Red));
      q := SetSibling(q, RotateRight(Cursor(q.path[0].sibling, [])).focus);
      sibling := q.path[0].sibling;
    }
    ColorKeepsEntries(sibling, q.path[0].color);
    q := SetSibling(q, sibling.(color := q.path[0].color));
    ParentColorOrder(q, Black);
    q := SetParentColor(q, Black);
    ColorKeepsEntries(q.path[0].sibling.right, Black);
    q := SetSibling(q, q.path[0].sibling.(right := q.path[0].sibling.right.(color := Black)));
    RotationsKeepOrder(Up(q));
    PlugTop(RotateLeft(Up(q)).focus, q.path[1..]);
    t := Whole(RotateLeft(Up(q)));
    ok := true;
  }

  /** The last case of a `fixDeletionRB` pass for a right child: a sibling
      whose far child must be red. If only the near child is red, a left
      rotation at the sibling makes the far child red. Then the sibling
      takes the parent's colour, the parent and the far child turn black,
      and a right rotation at the parent ends the fix-up at the root. A nil
      far child is a nil dereference in Go (`ok == false`). */
  method FarNephewRight<V>(r: Cursor<V>) returns (t: Tree<V>, ok: bool)
    requires r.path != [] && r.path[0].sibling.Node? && r.path[0].sibling.right.Node?
    ensures ok ==> t.Node? && Inorder(t) == Inorder(Whole(r)) && Entries(t) == Entries(Whole(r))
    ensures r.path[0].sibling.left == Nil ==> !ok
  {
    var sibling := r.path[0].sibling;
    if sibling.left == Nil {
      return Nil, false;
    }
    var q := r;
    if sibling.left.color == Black {
      ColorKeepsEntries(sibling.right, Black);
      q := SetSibling(q, sibling.(right := sibling.right.(color := Black)));
      ColorKeepsEntries(q.path[0].sibling, Red);
      q := SetSibling(q, q.path[0].sibling.(color := Red));
      q := SetSibling(q, RotateLeft(Cursor(q.path[0].sibling, [])).focus);
      sibling := q.path[0].sibling;
    }
    ColorKeepsEntries(sibling, q.path[0].color);
    q := SetSibling(q, sibling.(color := q.path[0].color));
    ParentColorOrder(q, Black);
    q := SetParentColor(q, Black);
    ColorKeepsEntries(q.path[0].sibling.left, Black);
    q := SetSibling(q, q.path[0].sibling.(left := q.path[0].sibling.left.(color := Black)));
    RotationsKeepOrder(Up(q));
    PlugTop(RotateRight(Up(q)).focus, q.path[1..]);
    t := Whole(RotateRight(Up(q)));
    ok := true;
  }

  /** Go's `fixDeletionRB`, started at the replacement node: while the node
      is black and not the root, one left or right pass; then blacken the
      node. A red start node is only blackened. `ok == false` is a nil
      dereference in one of the passes, as for a black node without a
      sibling. */
  method FixDeletion<V>(c0: Cursor<V>) returns (t: Tree<V>, ok: bool)
    requires c0.focus.Node?
    ensures Inorder(t) == Inorder(Whole(c0)) && Entries(t) == Entries(Whole(c0))
    ensures ok && TopBlack(c0.path) ==> !IsRed(t)
    ensures IsRed(c0.focus) || c0.path == [] ==> ok && t == Plug(Blacken(c0.focus), c0.path)
    ensures c0.path != [] && c0.focus.color == Black && c0.path[0].sibling == Nil ==> !ok
  {
    var c := c0;
    while c.path != [] && c.focus.color == Black
      invariant c.focus.Node?
      invariant Inorder(Whole(c)) == Inorder(Whole(c0)) && Entries(Whole(c)) == Entries(Whole(c0))
      invariant TopBlack(c0.path) ==> TopBlack(c.path)
      invariant IsRed(c0.focus) || c0.path == [] || c0.path[0].sibling == Nil ==> c == c0
      decreases DeletionMeasure(c)
    {
      var next, stepped;
      if c.path[0].dir == Left {
        next, stepped := FixDeletionLeft(c);
      } else {
        next, stepped := FixDeletionRight(c);
      }
      if !stepped {
        return Whole(c), false;
      }
      c := next;
    }
    BlackenInPlace(c.focus, c.path);
    PlugTop(Blacken(c.focus), c.path);
    t := Plug(Blacken(c.focus), c.path);
    ok := true;
  }

  /** Blackening a subtree in place keeps the whole tree's keys and
      values. */
  lemma {:induction false} BlackenInPlace<V>(t: Tree<V>, path: seq<Frame<V>>)
    ensures Inorder(Plug(Blacken(t), path)) == Inorder(Plug(t, path))
    ensures Entries(Plug(Blacken(t), path)) == Entries(Plug(t, path))
  {
    InorderPlug(t, path);
    InorderPlug(Blacken(t), path);
    EntriesPlug(t, path);
    EntriesPlug(Blacken(t), path);
  }

  // ---------------------------------------------------------------------
  // deleteRB

  /** The keys, or the key-value pairs, of a tree with the node at
      position `i` taken out. */
  function Without<T>(s: seq<T>, i: nat): (r: seq<T>)
    requires i < |s|
    ensures |r| + 1 == |s|
  {
    s[..i] + s[i+1..]
  }

  lemma {:induction false} WithoutMiddle<T>(a: seq<T>, x: T, b: seq<T>)
    ensures Without(a + [x] + b, |a|) == a + b
  {
    var s := a + [x] + b;
    assert s[..|a|] == a && s[|a| + 1..] == b;
  }

  /** The keys around a node with the node's own key taken out. */
  lemma {:induction false} WithoutAt<T>(l: seq<T>, a: seq<T>, x: T, b: seq<T>, r: seq<T>)
    ensures Without(l + a + [x] + b + r, |l| + |a|) == l + (a + b) + r
  {
    WithoutMiddle(l + a, x, b + r);
    assert l + a + [x] + b + r == l + a + [x] + (b + r);
    assert l + a + (b + r) == l + (a + b) + r;
  }

  /** Splicing out a node with at most one child: the child, or nil, takes
      its place. */
  lemma {:induction false} SpliceOne<V>(z: Cursor<V>)
    requires z.focus.Node? && (z.focus.left == Nil || z.focus.right == Nil)
    ensures var rep := if z.focus.left != Nil then z.focus.left else z.focus.right;
      Inorder(Plug(rep, z.path)) == Without(Inorder(Whole(z)), Index(z))
  {
    var n := z.focus;
    var rep := if n.left != Nil then n.left else n.right;
    IndexKey(z);
    InorderPlug(rep, z.path);
    OnlyChild(n);
    WithoutAt(LeftOf(z.path), Inorder(n.left), n.key, Inorder(n.right), RightOf(z.path));
  }

  /** The same splice takes out exactly the node's key-value pair. */
  lemma {:induction false} SpliceOneEntries<V>(z: Cursor<V>)
    requires z.focus.Node? && (z.focus.left == Nil || z.focus.right == Nil)
    ensures var rep := if z.focus.left != Nil then z.focus.left else z.focus.right;
      Entries(Plug(rep, z.path)) == Without(Entries(Whole(z)), Index(z))
  {
    var n := z.focus;
    var rep := if n.left != Nil then n.left else n.right;
    var el, er := EntriesLeftOf(z.path), EntriesRightOf(z.path);
    OnlyChild(n);
    EntriesAround(z);
    EntriesPlug(rep, z.path);
    WithoutAt(el, Entries(n.left), (n.key, n.value), Entries(n.right), er);
    assert Index(z) == |el| + |Entries(n.left)|;
  }

  lemma {:induction false} OnlyChild<V>(n: Tree<V>)
    requires n.Node? && (n.left == Nil || n.right == Nil)
    ensures Inorder(if n.left != Nil then n.left else n.right) == Inorder(n.left) + Inorder(n.right)
    ensures Entries(if n.left != Nil then n.left else n.right) == Entries(n.left) + Entries(n.right)
  {
    if n.left == Nil {
      assert Inorder(n.left) + Inorder(n.right) == [] + Inorder(n.right);
      assert Entries(n.left) + Entries(n.right) == [] + Entries(n.right);
    } else {
      assert Inorder(n.left) + Inorder(n.right) == Inorder(n.left) + [];
      assert Entries(n.left) + Entries(n.right) == Entries(n.left) + [];
    }
  }

  /** Splicing out a node with two children: its successor `y`, the end of
      the left spine of its right subtree, is replaced by its right child,
      and the successor's key and value move into the node's frame. */
  lemma {:induction false} SpliceSuccessor<V>(z: Cursor<V>, y: Cursor<V>)
    requires z.focus.Node? && z.focus.right != Nil && LeftSpine(Down(z, Right), y)
    ensures var j := |y.path| - |z.path| - 1;
      && 0 <= j < |y.path|
      && Inorder(Plug(y.focus.right, y.path[j := y.path[j].(key := y.focus.key, value := y.focus.value)]))
         == Without(Inorder(Whole(z)), Index(z))
  {
    var n := z.focus;
    var rest := SuccessorParts(z, y);
    var t := SuccessorPlug(z, y);
    InorderPlug(t, z.path);
    IndexKey(z);
    SpliceSeq(LeftOf(z.path), Inorder(n.left), n.key, y.focus.key, rest, RightOf(z.path));
  }

  lemma {:induction false} SpliceSeq<T>(l: seq<T>, a: seq<T>, x: T, y: T, b: seq<T>, r: seq<T>)
    ensures Without(l + a + [x] + ([y] + b) + r, |l| + |a|) == l + (a + [y] + b) + r
  {
    WithoutMiddle(l + a, x, [y] + b + r);
    assert l + a + [x] + ([y] + b) + r == l + a + [x] + ([y] + b + r);
  }

  /** The tree after the splice, seen from the node's position. */
  lemma {:induction false} SuccessorPlug<V>(z: Cursor<V>, y: Cursor<V>) returns (t: Tree<V>)
    requires z.focus.Node? && z.focus.right != Nil && LeftSpine(Down(z, Right), y)
    ensures |y.path| > |z.path|
    ensures var j := |y.path| - |z.path| - 1;
      && t == Node(z.focus.color, z.focus.left, y.focus.key, y.focus.value, Plug(y.focus.right, y.path[..j]))
      && Plug(y.focus.right, y.path[j := y.path[j].(key := y.focus.key, value := y.focus.value)]) == Plug(t, z.path)
  {
    var n := z.focus;
    var _ := SuccessorParts(z, y);
    var j := |y.path| - |z.path| - 1;
    var lefts := y.path[..j];
    var f := Frame(Right, n.color, y.focus.key, y.focus.value, n.left);
    var path' := y.path[j := y.path[j].(key := y.focus.key, value := y.focus.value)];
    assert path' == lefts + ([f] + z.path);
    PlugConcat(y.focus.right, lefts, [f] + z.path);
    assert ([f] + z.path)[1..] == z.path;
    t := Attach(f, Plug(y.focus.right, lefts));
  }

  /** The left spine from a node's right child down to its successor: the
      frames below the node all point left, and plugged back they give the
      right subtree. */
  lemma {:induction false} SuccessorSpine<V>(z: Cursor<V>, y: Cursor<V>)
    requires z.focus.Node? && z.focus.right != Nil && LeftSpine(Down(z, Right), y)
    ensures |y.path| > |z.path|
    ensures var j := |y.path| - |z.path| - 1;
      && y.path[j..] == [Frame(Right, z.focus.color, z.focus.key, z.focus.value, z.focus.left)] + z.path
      && AllLeft(y.path[..j])
      && Plug(y.focus, y.path[..j]) == z.focus.right
  {
    var d := Down(z, Right);
    var j := |y.path| - |z.path| - 1;
    assert |y.path| - |d.path| == j && Plug(y.focus, y.path[..j]) == z.focus.right;
  }

  /** Below a left spine, a node without a left child comes first in order. */
  lemma {:induction false} LeftmostKeys<V>(t: Tree<V>, lefts: seq<Frame<V>>)
    requires t.Node? && t.left == Nil && AllLeft(lefts)
    ensures Inorder(Plug(t, lefts)) == [t.key] + Inorder(Plug(t.right, lefts))
  {
    AllLeftSides(lefts);
    InorderPlug(t, lefts);
    InorderPlug(t.right, lefts);
    var b, r := Inorder(t.right), RightOf(lefts);
    assert Inorder(t) == [] + [t.key] + b;
    HeadSeq(t.key, b, r);
  }

  lemma {:induction false} LeftmostEntries<V>(t: Tree<V>, lefts: seq<Frame<V>>)
    requires t.Node? && t.left == Nil && AllLeft(lefts)
    ensures Entries(Plug(t, lefts)) == [(t.key, t.value)] + Entries(Plug(t.right, lefts))
  {
    AllLeftSides(lefts);
    EntriesPlug(t, lefts);
    EntriesPlug(t.right, lefts);
    var b, r := Entries(t.right), EntriesRightOf(lefts);
    assert Entries(t) == [] + [(t.key, t.value)] + b;
    HeadSeq((t.key, t.value), b, r);
  }

  /** The keys of the right subtree of a node with two children: its
      successor's key, then what is left once the successor is replaced by
      its right child. */
  lemma {:induction false} SuccessorParts<V>(z: Cursor<V>, y: Cursor<V>) returns (rest: seq<Key>)
    requires z.focus.Node? && z.focus.right != Nil && LeftSpine(Down(z, Right), y)
    ensures |y.path| > |z.path|
    ensures var j := |y.path| - |z.path| - 1;
      && y.path[j..] == [Frame(Right, z.focus.color, z.focus.key, z.focus.value, z.focus.left)] + z.path
      && AllLeft(y.path[..j])
      && rest == Inorder(Plug(y.focus.right, y.path[..j]))
      && Inorder(z.focus.right) == [y.focus.key] + rest
  {
    SuccessorSpine(z, y);
    var lefts := y.path[..|y.path| - |z.path| - 1];
    LeftmostKeys(y.focus, lefts);
    rest := Inorder(Plug(y.focus.right, lefts));
  }

  /** The key-value pairs of the same right subtree: the successor's pair,
      then the pairs left once the successor is replaced by its right
      child. */
  lemma {:induction false} SuccessorEntries<V>(z: Cursor<V>, y: Cursor<V>) returns (rest: seq<(Key, V)>)
    requires z.focus.Node? && z.focus.right != Nil && LeftSpine(Down(z, Right), y)
    ensures |y.path| > |z.path|
    ensures var j := |y.path| - |z.path| - 1;
      && rest == Entries(Plug(y.focus.right, y.path[..j]))
      && Entries(z.focus.right) == [(y.focus.key, y.focus.value)] + rest
  {
    SuccessorSpine(z, y);
    var lefts := y.path[..|y.path| - |z.path| - 1];
    LeftmostEntries(y.focus, lefts);
    rest := Entries(Plug(y.focus.right, lefts));
  }

  /** The two-children splice takes out exactly the node's key-value pair:
      the successor's pair takes its place. */
  lemma {:induction false} SpliceSuccessorEntries<V>(z: Cursor<V>, y: Cursor<V>)
    requires z.focus.Node? && z.focus.right != Nil && LeftSpine(Down(z, Right), y)
    ensures var j := |y.path| - |z.path| - 1;
      && 0 <= j < |y.path|
      && Entries(Plug(y.focus.right, y.path[j := y.path[j].(key := y.focus.key, value := y.focus.value)]))
         == Without(Entries(Whole(z)), Index(z))
  {
    var n := z.focus;
    var rest := SuccessorEntries(z, y);
    var t := SuccessorPlug(z, y);
    var el, er := EntriesLeftOf(z.path), EntriesRightOf(z.path);
    var a, x, ykv := Entries(n.left), (n.key, n.value), (y.focus.key, y.focus.value);
    EntriesPlug(t, z.path);
    EntriesAround(z);
    SpliceAt(Entries(Whole(z)), Entries(Plug(t, z.path)), Index(z), el, a, x, ykv, rest, er);
  }

  /** `SpliceSeq` with the two sequences and the position named. */
  lemma {:induction false} SpliceAt<T>(w: seq<T>, u: seq<T>, i: int, l: seq<T>, a: seq<T>, x: T, y: T, b: seq<T>, r: seq<T>)
    requires w == l + a + [x] + ([y] + b) + r && u == l + (a + [y] + b) + r && i == |l| + |a|
    ensures 0 <= i < |w| && u == Without(w, i)
  {
    SpliceSeq(l, a, x, y, b, r);
  }

  lemma {:induction false} HeadSeq<T>(k: T, b: seq<T>, r: seq<T>)
    ensures [] + ([] + [k] + b) + r == [k] + ([] + b + r)
  {
  }

  /** In a balanced tree a black node with a nil child has, at most, one red
      child below it. */
  lemma {:induction false} OneChildRed<V>(n: Tree<V>)
    requires n.Node? && Balanced(n) && n.color == Black && (n.left == Nil || n.right == Nil)
    ensures n.left != Nil ==> IsRed(n.left)
    ensures n.right != Nil ==> IsRed(n.right)
  {
  }

  /** The splice of `deleteRB` at a found node `z`: a node with at most one
      child is replaced by that child (or nil); a node with two children
      takes its successor's key and value, and the successor is replaced
      by its right child. The result points to the replacement, and `black`
      tells whether the spliced node was black. */
  method SpliceOut<V>(z: Cursor<V>) returns (x: Cursor<V>, black: bool)
    requires z.focus.Node?
    ensures Inorder(Whole(x)) == Without(Inorder(Whole(z)), Index(z))
    ensures Entries(Whole(x)) == Without(Entries(Whole(z)), Index(z))
    ensures !IsRed(Whole(z)) ==> TopBlack(x.path)
    ensures x.path == [] && !IsRed(Whole(z)) ==> black || x.focus == Nil
    ensures IsRedBlack(Whole(z)) && black ==> x.focus == Nil || IsRed(x.focus)
  {
    // `moved` is Go's `child != nodeToDelete`
    var y, moved := z, z.focus.left != Nil && z.focus.right != Nil;
    if moved {
      var succ := Successor(z);
      y := succ.value;
      assert y.focus.left == Nil;
      SpliceSuccessor(z, y);
      SpliceSuccessorEntries(z, y);
    } else {
      SpliceOne(z);
      SpliceOneEntries(z);
    }
    var replacement := if y.focus.left != Nil then y.focus.left else y.focus.right;
    x := Cursor(replacement, y.path);
    if moved {
      var j := |y.path| - |z.path| - 1;
      x := x.(path := x.path[j := x.path[j].(key := y.focus.key, value := y.focus.value)]);
    }
    black := y.focus.color == Black;
    assert y.path != [] ==> x.path[|x.path| - 1].color == y.path[|y.path| - 1].color;
    SpliceColors(z, y, x);
  }

  /** The colours around a splice: the root keeps its colour, and a black
      spliced node of a red-black tree leaves a red child or nil. */
  lemma {:induction false} SpliceColors<V>(z: Cursor<V>, y: Cursor<V>, x: Cursor<V>)
    requires y.focus.Node? && Whole(y) == Whole(z) && (y.focus.left == Nil || y.focus.right == Nil)
    requires x.focus == (if y.focus.left != Nil then y.focus.left else y.focus.right)
    requires |x.path| == |y.path| && (y.path != [] ==> x.path[|x.path| - 1].color == y.path[|y.path| - 1].color)
    ensures !IsRed(Whole(z)) ==> TopBlack(x.path)
    ensures x.path == [] && !IsRed(Whole(z)) ==> y.focus.color == Black || x.focus == Nil
    ensures IsRedBlack(Whole(z)) && y.focus.color == Black ==> x.focus == Nil || IsRed(x.focus)
  {
    PlugTop(y.focus, y.path);
    if IsRedBlack(Whole(z)) {
      PlugBalanced(y.focus, y.path);
      if y.focus.color == Black {
        OneChildRed(y.focus);
      }
    }
  }

  /** Go's `deleteRB`: find the node, splice it out, and run the fix-up
      when the spliced node is black and has a child. The keys lose exactly
      the found position; a missing key leaves the tree as it is. On a
      red-black tree the fix-up never dereferences nil (`ok`). */
  method DeleteRB<V>(root: Tree<V>, key: Key) returns (t: Tree<V>, ok: bool)
    ensures var f := Search(Cursor(root, []), key);
      f.None? ==> t == root && ok
    ensures var f := Search(Cursor(root, []), key);
      f.Some? ==> Inorder(t) == Without(Inorder(root), Index(f.value))
    ensures var f := Search(Cursor(root, []), key);
      f.Some? ==> Entries(t) == Without(Entries(root), Index(f.value))
    ensures Sorted(Inorder(root)) ==> Sorted(Inorder(t)) && multiset(Inorder(t)) == multiset(Inorder(root)) - multiset{key}
    ensures IsRedBlack(root) ==> ok
    ensures ok && !IsRed(root) ==> !IsRed(t)
    ensures |Inorder(root)| == 1 ==> ok
  {
    var found := Search(Cursor(root, []), key);
    if found.None? {
      if Sorted(Inorder(root)) {
        assert key !in multiset(Inorder(root));
      }
      return root, true;
    }
    var z := found.value;
    t, ok := DeleteAt(z);
    IndexKey(z);
    DeletionCounts(Inorder(root), Index(z), key, Inorder(t));
  }

  /** The part of `deleteRB` after the search: splice the found node (or
      its successor) out and run the fix-up when the spliced node is black
      and has a child. Exactly the node's position leaves the keys and the
      key-value pairs. */
  method DeleteAt<V>(z: Cursor<V>) returns (t: Tree<V>, ok: bool)
    requires z.focus.Node?
    ensures Inorder(t) == Without(Inorder(Whole(z)), Index(z))
    ensures Entries(t) == Without(Entries(Whole(z)), Index(z))
    ensures IsRedBlack(Whole(z)) ==> ok
    ensures ok && !IsRed(Whole(z)) ==> !IsRed(t)
    ensures |Inorder(Whole(z))| == 1 ==> ok
  {
    var x, black := SpliceOut(z);
    InorderPlug(x.focus, x.path);
    if black && x.focus != Nil {
      t, ok := FixDeletion(x);
    } else {
      PlugTop(x.focus, x.path);
      t, ok := Whole(x), true;
    }
  }

  /** Taking out the position of a key keeps a sorted sequence sorted and
      removes one copy of the key. */
  lemma {:induction false} DeletionCounts(s: seq<Key>, i: nat, key: Key, s': seq<Key>)
    requires i < |s| && s[i] == key && s' == Without(s, i)
    ensures Sorted(s) ==> Sorted(s')
    ensures multiset(s') == multiset(s) - multiset{key}
  {
    SortedRemove(s, i);
    assert s == s[..i] + [key] + s[i+1..];
  }

  // ---------------------------------------------------------------------
  // GetRange

  /** The closure `getRangeHelper`, appending the keys it visits to `acc`:
      go left unless the key is below `lo`, take the key when in range, go
      right unless the key is above `hi`. */
  function RangeHelper<V>(t: Tree<V>, lo: Key, hi: Key, acc: seq<Key>): seq<Key>
  {
    if t.Nil? then acc
    else
      var a1 := if !Less(t.key, lo) then RangeHelper(t.left, lo, hi, acc) else acc;
      var a2 := if !Less(t.key, lo) && !Less(hi, t.key) then a1 + [t.key] else a1;
      if !Less(hi, t.key) then RangeHelper(t.right, lo, hi, a2) else a2
  }

  /** On a search tree, equal keys included, the pruned walk appends
      exactly the in-range keys in in-order. */
  lemma {:induction false} RangeHelperIsFilter<V>(t: Tree<V>, lo: Key, hi: Key, acc: seq<Key>)
    requires Sorted(Inorder(t))
    ensures RangeHelper(t, lo, hi, acc) == acc + Filter(Inorder(t), lo, hi)
  {
    if t.Node? {
      var l, k, r := Inorder(t.left), t.key, Inorder(t.right);
      SortedSplit(l, k, r);
      FilterAround(l, k, r, lo, hi);
      var fl, fk, fr := Filter(l, lo, hi), (if InRange(k, lo, hi) then [k] else []), Filter(r, lo, hi);
      var a1 := if !Less(k, lo) then RangeHelper(t.left, lo, hi, acc) else acc;
      if !Less(k, lo) {
        RangeHelperIsFilter(t.left, lo, hi, acc);
      } else {
        FilterBelow(l, k, lo, hi);
      }
      var a2 := if InRange(k, lo, hi) then a1 + [k] else a1;
      assert a2 == acc + fl + fk;
      if !Less(hi, k) {
        RangeHelperIsFilter(t.right, lo, hi, a2);
      } else {
        FilterAbove(r, k, lo, hi);
      }
      Regroup(acc, fl, fk, fr);
    }
  }

  // ---------------------------------------------------------------------
  // Update


  /** The keys of the entries are the in-order keys. */
  lemma {:induction false} EntryKeys<V>(t: Tree<V>)
    ensures forall i :: 0 <= i < |Entries(t)| ==> Entries(t)[i].0 == Inorder(t)[i]
  {
    if t.Node? {
      EntryKeys(t.left);
      EntryKeys(t.right);
      var el, er, il, ir := Entries(t.left), Entries(t.right), Inorder(t.left), Inorder(t.right);
      forall i | 0 <= i < |Entries(t)| ensures Entries(t)[i].0 == Inorder(t)[i] {
        if i < |el| {
          assert Entries(t)[i] == el[i] && Inorder(t)[i] == il[i];
        } else if i > |el| {
          assert Entries(t)[i] == er[i - |el| - 1] && Inorder(t)[i] == ir[i - |il| - 1];
        }
      }
    }
  }

  /** Changing the entry at position `j` of a subtree changes the entry at
      that position, shifted by the keys to its left, of the whole tree. */
  lemma {:induction false} PlugEntry<V>(a: Tree<V>, b: Tree<V>, path: seq<Frame<V>>, j: nat, p: (Key, V))
    requires j < |Entries(a)| && Entries(b) == Entries(a)[j := p]
    ensures j + |LeftOf(path)| < |Entries(Plug(a, path))|
    ensures Entries(Plug(b, path)) == Entries(Plug(a, path))[j + |LeftOf(path)| := p]
    decreases |path|
  {
    if path != [] {
      var f := path[0];
      var j' := if f.dir == Left then j else |Entries(f.sibling)| + 1 + j;
      AttachEntry(f, a, b, j, p);
      PlugEntry(Attach(f, a), Attach(f, b), path[1..], j', p);
    }
  }

  /** `PlugEntry` for one frame. */
  lemma {:induction false} AttachEntry<V>(f: Frame<V>, a: Tree<V>, b: Tree<V>, j: nat, p: (Key, V))
    requires j < |Entries(a)| && Entries(b) == Entries(a)[j := p]
    ensures var j' := if f.dir == Left then j else |Entries(f.sibling)| + 1 + j;
      j' < |Entries(Attach(f, a))| && Entries(Attach(f, b)) == Entries(Attach(f, a))[j' := p]
  {
    var ea, es, kv := Entries(a), Entries(f.sibling), (f.key, f.value);
    if f.dir == Left {
      UpdateLeft(ea + [kv], es, j, p);
      UpdateLeft(ea, [kv], j, p);
    } else {
      UpdateRight(es + [kv], ea, j, p);
    }
  }

  lemma {:induction false} UpdateLeft<T>(x: seq<T>, y: seq<T>, i: nat, p: T)
    requires i < |x|
    ensures (x + y)[i := p] == x[i := p] + y
  {
    var s, t := (x + y)[i := p], x[i := p] + y;
    assert forall k | 0 <= k < |s| :: s[k] == t[k];
  }

  lemma {:induction false} UpdateRight<T>(x: seq<T>, y: seq<T>, i: nat, p: T)
    requires i < |y|
    ensures (x + y)[|x| + i := p] == x + y[i := p]
  {
    var s, t := (x + y)[|x| + i := p], x + y[i := p];
    assert forall k | 0 <= k < |s| :: s[k] == t[k];
  }

  /** A node pointer's entry sits at its in-order position. */
  lemma {:induction false} EntryAt<V>(c: Cursor<V>)
    requires c.focus.Node?
    ensures Index(c) < |Entries(Whole(c))|
    ensures Entries(Whole(c))[Index(c)] == (c.focus.key, c.focus.value)
  {
    var n := c.focus;
    var j, p := |Entries(n.left)|, (n.key, n.value);
    UpdateLeft(Entries(n.left) + [p], Entries(n.right), j, p);
    UpdateRight(Entries(n.left), [p], 0, p);
    PlugEntry(n, n, c.path, j, p);
    var es := Entries(Whole(c));
    assert es[Index(c) := p][Index(c)] == p;
  }

  /** Storing a new value in the node a cursor points to changes the entry
      at its in-order position and nothing else. */
  lemma {:induction false} NewValueEntries<V>(c: Cursor<V>, value: V)
    requires c.focus.Node?
    ensures Entries(Plug(c.focus.(value := value), c.path)) == Entries(Whole(c))[Index(c) := (c.focus.key, value)]
  {
    var n := c.focus.(value := value);
    var el, kv, q := Entries(n.left), (c.focus.key, c.focus.value), (c.focus.key, value);
    UpdateLeft(el + [kv], Entries(n.right), |el|, q);
    UpdateRight(el, [kv], 0, q);
    PlugEntry(c.focus, n, c.path, |el|, q);
  }

  /** Go's `node.Value = value` through a node pointer. */
  function SetValue<V>(c: Cursor<V>, value: V): (r: Tree<V>)
    requires c.focus.Node?
    ensures Inorder(r) == Inorder(Whole(c))
    ensures Entries(r) == Entries(Whole(c))[Index(c) := (c.focus.key, value)]
    ensures IsRed(r) == IsRed(Whole(c))
    ensures IsRedBlack(r) == IsRedBlack(Whole(c))
    ensures Stores(r, c.focus.key, value)
  {
    var n := c.focus.(value := value);
    NewValueEntries(c, value);
    InorderPlug(n, c.path);
    InorderPlug(c.focus, c.path);
    PlugTop(n, c.path);
    PlugTop(c.focus, c.path);
    PlugBalanced(n, c.path);
    PlugBalanced(c.focus, c.path);
    PlugNoRedRed(n, c.path);
    PlugNoRedRed(c.focus, c.path);
    var r := Plug(n, c.path);
    StoresPlug(n, c.path, c.focus.key, value);
    r
  }

  /** Some node of `t` holds `key` with `value`. */
  ghost predicate Stores<V>(t: Tree<V>, key: Key, value: V)
  {
    match t
    case Nil => false
    case Node(_, l, k, v, r) => (k == key && v == value) || Stores(l, key, value) || Stores(r, key, value)
  }

  /** A node pointer's node is in the whole tree. */
  lemma {:induction false} StoresPlug<V>(t: Tree<V>, path: seq<Frame<V>>, key: Key, value: V)
    requires Stores(t, key, value)
    ensures Stores(Plug(t, path), key, value)
    decreases |path|
  {
    if path != [] {
      StoresPlug(Attach(path[0], t), path[1..], key, value);
    }
  }

  /** After a fresh key is put in, the search for it reaches the node that
      holds the new value. */
  lemma {:induction false} InsertedFound<V>(t0: Tree<V>, t: Tree<V>, key: Key, value: V)
    requires Sorted(Inorder(t)) && key !in Inorder(t0)
    requires Inorder(t) == InsertSorted(Inorder(t0), key)
    requires var p := InsertPos(Inorder(t0), key);
      Entries(t) == Entries(t0)[..p] + [(key, value)] + Entries(t0)[p..]
    ensures var f := Search(Cursor(t, []), key); f.Some? && f.value.focus.value == value
  {
    var s, p := Inorder(t0), InsertPos(Inorder(t0), key);
    InsertPosSplit(s, key);
    assert Inorder(t)[p] == key;
    var f := Search(Cursor(t, []), key);
    var c := f.value;
    IndexKey(c);
    EntryAt(c);
    InsertedOnce(s, p, key, Index(c));
    var es := Entries(t0);
    assert (es[..p] + [(key, value)] + es[p..])[p] == (key, value);
  }

  // ---------------------------------------------------------------------
  // The exported tree

  /** `RedBlackTree`: a root, kept as a search tree. The root is black
      except after the first insert, which leaves a lone red node. */
  class RedBlackTree<V> {
    var root: Tree<V>

    ghost predicate Valid()
      reads this
    {
      Sorted(Inorder(root)) && (IsRed(root) ==> |Inorder(root)| == 1)
    }

    /** `NewRedBlackTree`. */
    constructor ()
      ensures Valid() && root == Nil
    {
      root := Nil;
    }

    /** `RedBlackTree.Insert` over `insertRB` as written. Go returns no
        error; `panicked` marks the nil dereference of the fix-up, which
        happens exactly when the root is the red node the first insert
        left, and the tree is then the one the failing pass had linked. The
        key goes in after every key at most it, equal keys included. */
    method Insert(key: Key, value: V) returns (panicked: bool)
      requires Valid()
      modifies this
      ensures panicked <==> IsRed(old(root))
      ensures Inorder(root) == InsertSorted(Inorder(old(root)), key)
      ensures multiset(Inorder(root)) == multiset(Inorder(old(root))) + multiset{key}
      ensures var p := InsertPos(Inorder(old(root)), key);
        Entries(root) == Entries(old(root))[..p] + [(key, value)] + Entries(old(root))[p..]
      ensures key !in Inorder(old(root)) ==> var f := Search(Cursor(root, []), key);
        f.Some? && f.value.focus.value == value
      ensures !panicked ==> Valid()
      ensures old(root) == Nil ==> root == Node(Red, Nil, key, value, Nil)
      ensures IsRedBlack(old(root)) && old(root) != Nil ==> IsRedBlack(root)
    {
      var r0 := root;
      var ok;
      root, ok := InsertAsWritten(root, key, value);
      panicked := !ok;
      InsertionCounts(r0, key, root);
      if key !in Inorder(r0) {
        InsertedFound(r0, root, key, value);
      }
    }

    /** `RedBlackTree.Get`: the value of the node `searchRB` reaches, or
        "key not found". */
    method Get(key: Key) returns (r: Result<V>)
      requires Valid()
      ensures r.Ok? <==> key in Inorder(root)
      ensures r.Ok? ==> var f := Search(Cursor(root, []), key);
        f.Some? && r.value == f.value.focus.value && Entries(root)[Index(f.value)] == (key, r.value)
      ensures r.Ok? ==> Stores(root, key, r.value)
      ensures r.Err? ==> r.error == NotFound
    {
      var found := Search(Cursor(root, []), key);
      if found.None? {
        return Err(NotFound);
      }
      var c := found.value;
      StoresPlug(c.focus, c.path, key, c.focus.value);
      EntryAt(c);
      return Ok(c.focus.value);
    }

    /** `RedBlackTree.GetRange`: the keys in `[lo, hi]`, in order, equal keys
        repeated. */
    method GetRange(lo: Key, hi: Key) returns (r: seq<Key>)
      requires Valid()
      ensures r == Filter(Inorder(root), lo, hi) && Sorted(r)
      ensures forall k :: k in r <==> k in Inorder(root) && InRange(k, lo, hi)
    {
      r := RangeHelper(root, lo, hi, []);
      RangeHelperIsFilter(root, lo, hi, []);
      FilterSorted(Inorder(root), lo, hi);
      FilterMembers(Inorder(root), lo, hi);
    }

    /** `RedBlackTree.Update`: give the node `getNodeRB` reaches the new
        value; the keys and colours stay as they are, only the entry at that
        node's position changes, and a later search reaches the same node
        with the new value. */
    method Update(key: Key, value: V) returns (err: Option<Error>)
      requires Valid()
      modifies this
      ensures Valid() && Inorder(root) == Inorder(old(root))
      ensures IsRedBlack(root) == IsRedBlack(old(root))
      ensures err.Some? <==> key !in Inorder(old(root))
      ensures err.Some? ==> err == Some(NotFound) && root == old(root)
      ensures err.None? ==> var f := Search(Cursor(old(root), []), key);
        && f.Some?
        && Entries(root) == Entries(old(root))[Index(f.value) := (key, value)]
        && Search(Cursor(root, []), key) == Some(Cursor(f.value.focus.(value := value), f.value.path))
      ensures err.None? ==> Stores(root, key, value)
    {
      GetNodeIsSearch(Cursor(root, []), key);
      var n := GetNode(Cursor(root, []), key);
      if n.Err? {
        return Some(n.error);
      }
      var c := n.value;
      SearchLeads(Cursor(root, []), key);
      SearchFinds(c.focus.(value := value), c.path, [], key);
      assert c.path + [] == c.path;
      root := SetValue(c, value);
      err := None;
    }

    /** `RedBlackTree.Remove` over `deleteRB`: one copy of the key leaves the
        tree; a missing key leaves it as it is. `panicked` marks a nil
        dereference in the fix-up, which cannot happen on a red-black
        tree; the tree is then the one before the failing pass. */
    method Remove(key: Key) returns (panicked: bool)
      requires Valid()
      modifies this
      ensures Sorted(Inorder(root))
      ensures multiset(Inorder(root)) == multiset(Inorder(old(root))) - multiset{key}
      ensures var f := Search(Cursor(old(root), []), key);
        f.Some? ==> Entries(root) == Without(Entries(old(root)), Index(f.value))
      ensures key !in Inorder(old(root)) ==> root == old(root) && !panicked
      ensures !panicked ==> Valid()
      ensures IsRedBlack(old(root)) ==> !panicked
    {
      var ok;
      root, ok := DeleteRB(root, key);
      panicked := !ok;
    }
  }
}
