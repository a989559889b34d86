/** The B-tree backend (minimum degree `m` = 2: at most three keys per node,
    at least one in every node but the root). A node holds its keys, its
    children, a leaf flag and ONE value for the whole node, as the Go type
    does. Nodes are modelled as values: a Go routine that updates a node in
    place returns the updated node here, and the caller stores it where the
    pointer was. */
module BTrees {
  import opened Keys
  import opened Outcomes

  /** The minimum degree `m`. */
  const M: nat := 2

  /** `2*m - 1`, the number of keys that makes a node full. */
  const MaxKeys: nat := 2 * M - 1

  datatype Node<V> = Node(keys: seq<Key>, children: seq<Node<V>>, leaf: bool, value: Option<V>)

  // ---------------------------------------------------------------------
  // Views used by the contracts

  /** The keys of a subtree in order: a leaf's keys, or the children's
      sequences interleaved with the node's keys. */
  function Inorder<V>(n: Node<V>): seq<Key>
    decreases n, 1
  {
    if n.leaf then n.keys else Flat(n.keys, SubsOf(n.children))
  }

  /** The in-order sequences of a list of children. */
  function SubsOf<V>(cs: seq<Node<V>>): (r: seq<seq<Key>>)
    decreases cs, 0
    ensures |r| == |cs|
    ensures forall i :: 0 <= i < |cs| ==> r[i] == Inorder(cs[i])
  {
    if cs == [] then [] else [Inorder(cs[0])] + SubsOf(cs[1..])
  }

  /** `S0 K0 S1 K1 ... Sn` for n keys and n+1 subsequences. */
  function Flat(keys: seq<Key>, subs: seq<seq<Key>>): seq<Key>
  {
    if subs == [] then []
    else if keys == [] then subs[0]
    else subs[0] + [keys[0]] + Flat(keys[1..], subs[1..])
  }

  /** `S0 K0 ... S(c-1) K(c-1)`: what precedes child c. */
  function Pairs(keys: seq<Key>, subs: seq<seq<Key>>): seq<Key>
  {
    if keys == [] || subs == [] then [] else subs[0] + [keys[0]] + Pairs(keys[1..], subs[1..])
  }

  /** `Kc S(c+1) ... Sn`: what follows child c. */
  function Tail(keys: seq<Key>, subs: seq<seq<Key>>, c: nat): seq<Key>
  {
    if c >= |keys| || c >= |subs| then [] else [keys[c]] + Flat(keys[c+1..], subs[c+1..])
  }

  /** The keys of the subtree that lie before child `c` in order. */
  function Pre<V>(n: Node<V>, c: nat): seq<Key>
    requires c <= |n.keys| && c <= |n.children|
  {
    Pairs(n.keys[..c], SubsOf(n.children)[..c])
  }

  /** The keys of the subtree that lie after child `c` in order. */
  function Post<V>(n: Node<V>, c: nat): seq<Key>
  {
    Tail(n.keys, SubsOf(n.children), c)
  }

  /** A leaf has no children, a full node's height counts the levels below it. */
  function Height<V>(n: Node<V>): nat
  {
    if n.leaf || n.children == [] then 0 else 1 + Height(n.children[0])
  }

  /** The B-tree shape: at most `2m-1` keys per node, an internal node with
      one child more than keys, every child with at least `m-1` keys, and
      all leaves at the same depth. The root alone may hold fewer keys. */
  ghost predicate Shape<V>(n: Node<V>)
    decreases n
  {
    && |n.keys| <= MaxKeys
    && (n.leaf ==> n.children == [])
    && (!n.leaf ==>
         && |n.children| == |n.keys| + 1
         && forall i :: 0 <= i < |n.children| ==>
              M - 1 <= |n.children[i].keys| && Shape(n.children[i]) && Height(n.children[i]) + 1 == Height(n))
  }

  /** A B-tree as `BTree` keeps it: shaped, an internal root with a key, and
      the keys in non-decreasing order (duplicates are not rejected). */
  ghost predicate WellFormed<V>(root: Node<V>)
  {
    Shape(root) && (root.leaf || |root.keys| >= 1) && Sorted(Inorder(root))
  }

  // ---------------------------------------------------------------------
  // Lemmas about the in-order sequence

  lemma {:induction false} PairsDrop(keys: seq<Key>, subs: seq<seq<Key>>, c: nat)
    requires |subs| == |keys| + 1 && c < |subs|
    ensures Flat(keys, subs) == Pairs(keys[..c], subs[..c]) + subs[c] + Tail(keys, subs, c)
  {
    if c == 0 {
      assert keys[..0] == [];
      if keys != [] {
        assert Tail(keys, subs, 0) == [keys[0]] + Flat(keys[1..], subs[1..]);
      }
    } else {
      PairsDrop(keys[1..], subs[1..], c - 1);
      assert keys[..c][1..] == keys[1..][..c-1];
      assert subs[..c][1..] == subs[1..][..c-1];
      if c < |keys| {
        assert keys[1..][c..] == keys[c+1..];
        assert subs[1..][c..] == subs[c+1..];
      }
    }
  }

  lemma {:induction false} PairsSnoc(keys: seq<Key>, subs: seq<seq<Key>>, c: nat)
    requires 0 < c <= |keys| && c <= |subs|
    ensures Pairs(keys[..c], subs[..c]) == Pairs(keys[..c-1], subs[..c-1]) + subs[c-1] + [keys[c-1]]
    decreases c
  {
    if c == 1 {
      assert keys[..0] == [] && subs[..0] == [];
    } else {
      PairsSnoc(keys[1..], subs[1..], c - 1);
      assert keys[..c][1..] == keys[1..][..c-1];
      assert subs[..c][1..] == subs[1..][..c-1];
      assert keys[..c-1][1..] == keys[1..][..c-2];
      assert subs[..c-1][1..] == subs[1..][..c-2];
    }
  }

  lemma {:induction false} SubsOfConcat<V>(a: seq<Node<V>>, b: seq<Node<V>>)
    ensures SubsOf(a + b) == SubsOf(a) + SubsOf(b)
  {
  }

  /** The in-order sequence around child `c`, and one step left or right. */
  lemma {:induction false} InorderAt<V>(n: Node<V>, c: nat)
    requires !n.leaf && |n.children| == |n.keys| + 1 && c < |n.children|
    ensures Inorder(n) == Pre(n, c) + Inorder(n.children[c]) + Post(n, c)
    ensures c > 0 ==> Pre(n, c) == Pre(n, c - 1) + Inorder(n.children[c - 1]) + [n.keys[c - 1]]
    ensures c < |n.keys| ==> Post(n, c) == [n.keys[c]] + Inorder(n.children[c + 1]) + Post(n, c + 1)
    ensures c == 0 ==> Pre(n, c) == []
    ensures c == |n.keys| ==> Post(n, c) == []
  {
    var s := SubsOf(n.children);
    PairsDrop(n.keys, s, c);
    if c > 0 {
      PairsSnoc(n.keys, s, c);
      assert s[..c][..c-1] == s[..c-1];
    }
    if c < |n.keys| {
      var k, t := n.keys[c+1..], s[c+1..];
      assert t[0] == s[c+1];
      if k == [] {
        assert Flat(k, t) == s[c+1];
      } else {
        assert Flat(k, t) == t[0] + [k[0]] + Flat(k[1..], t[1..]);
        assert k[1..] == n.keys[c+2..] && t[1..] == s[c+2..];
      }
    }
  }

  /** Two nodes that agree on the keys and children before `c` agree on `Pre`. */
  lemma {:induction false} PreSame<V>(n: Node<V>, n': Node<V>, c: nat)
    requires c <= |n.keys| && c <= |n.children| && c <= |n'.keys| && c <= |n'.children|
    requires n'.keys[..c] == n.keys[..c] && n'.children[..c] == n.children[..c]
    ensures Pre(n', c) == Pre(n, c)
  {
    assert SubsOf(n'.children)[..c] == SubsOf(n.children)[..c];
  }

  /** Two nodes that agree on the keys from `c` on and on the children after
      `c` agree on `Post`. */
  lemma {:induction false} PostSame<V>(n: Node<V>, c: nat, n': Node<V>, c': nat)
    requires |n.children| == |n.keys| + 1 && |n'.children| == |n'.keys| + 1
    requires c < |n.children| && c' < |n'.children|
    requires n'.keys[c'..] == n.keys[c..] && n'.children[c'+1..] == n.children[c+1..]
    ensures Post(n', c') == Post(n, c)
  {
    var s, s' := SubsOf(n.children), SubsOf(n'.children);
    assert s'[c'+1..] == s[c+1..];
    if c < |n.keys| {
      assert n'.keys[c'] == n'.keys[c'..][0] == n.keys[c..][0] == n.keys[c];
      assert n'.keys[c'+1..] == n'.keys[c'..][1..] == n.keys[c..][1..] == n.keys[c+1..];
    }
  }

  /** Replacing child `c` changes only the middle of the in-order sequence. */
  lemma {:induction false} ReplaceChild<V>(n: Node<V>, c: nat, x: Node<V>)
    requires !n.leaf && |n.children| == |n.keys| + 1 && c < |n.children|
    ensures Inorder(n) == Pre(n, c) + Inorder(n.children[c]) + Post(n, c)
    ensures Inorder(n.(children := n.children[c := x])) == Pre(n, c) + Inorder(x) + Post(n, c)
  {
    var r := n.(children := n.children[c := x]);
    InorderAt(n, c);
    InorderAt(r, c);
    PreSame(n, r, c);
    PostSame(n, c, r, c);
  }

  /** Keys before child `c` are at most `keys[c-1]`, keys after it at least `keys[c]`. */
  lemma {:induction false} Separators<V>(n: Node<V>, c: nat)
    requires !n.leaf && |n.children| == |n.keys| + 1 && c < |n.children| && Sorted(Inorder(n))
    ensures Sorted(Inorder(n.children[c]))
    ensures c > 0 ==> AllAtMost(Pre(n, c), n.keys[c - 1]) && AllAtLeast(Inorder(n.children[c]), n.keys[c - 1])
    ensures c < |n.keys| ==> AllAtLeast(Post(n, c), n.keys[c]) && AllAtMost(Inorder(n.children[c]), n.keys[c])
  {
    InorderAt(n, c);
    var p, y, q := Pre(n, c), Inorder(n.children[c]), Post(n, c);
    SortedMiddle(p, y, q);
    if c > 0 {
      SortedEnds(p);
      assert p[|p| - 1] == n.keys[c - 1];
      forall i | 0 <= i < |y| ensures !Less(y[i], n.keys[c - 1]) {
        assert Bounded(p, y[i], q);
      }
    }
    if c < |n.keys| {
      SortedEnds(q);
      assert q[0] == n.keys[c];
      forall i | 0 <= i < |y| ensures !Less(n.keys[c], y[i]) {
        assert Bounded(p, y[i], q);
      }
    }
  }

  // ---------------------------------------------------------------------
  // NewNodeB, splitChild

  /** Go's `NewNodeB`: a node without keys or children. */
  function NewNode<V>(leaf: bool, value: Option<V>): (r: Node<V>)
    ensures Inorder(r) == [] && Height(r) == 0
    ensures leaf ==> WellFormed(r)
  {
    Node([], [], leaf, value)
  }

  /** The keys and shapes of a full node's two halves. */
  ghost predicate ChildOK<V>(c: Node<V>, h: nat)
  {
    M - 1 <= |c.keys| && Shape(c) && Height(c) == h
  }

  /** Go's `splitChild`: the full child `i` keeps its first key (and first
      two children), its middle key moves up to position `i` of `node`, and a
      fresh node without a value takes its last key (and last two children). */
  function SplitChild<V>(node: Node<V>, i: nat): Node<V>
    requires !node.leaf && |node.children| == |node.keys| + 1 && i < |node.children|
    requires |node.children[i].keys| == MaxKeys && Shape(node.children[i])
  {
    var child := node.children[i];
    var mid := |child.keys| / 2;
    var newChild := Node(child.keys[mid+1..], if child.leaf then [] else child.children[mid+1..], child.leaf, None);
    var left := child.(keys := child.keys[..mid], children := if child.leaf then child.children else child.children[..mid+1]);
    node.(keys := node.keys[..i] + [child.keys[mid]] + node.keys[i..],
          children := node.children[..i] + [left, newChild] + node.children[i+1..])
  }

  /** `splitChild` keeps the keys in order and the height; the middle key
      of child `i` becomes key `i`, the keys around it stay; the two halves,
      one key each, are shaped at the old child's height; and the node is
      shaped when it was shaped and not full. */
  lemma {:induction false} SplitChildFacts<V>(node: Node<V>, i: nat)
    requires !node.leaf && |node.children| == |node.keys| + 1 && i < |node.children|
    requires |node.children[i].keys| == MaxKeys && Shape(node.children[i])
    ensures var r := SplitChild(node, i);
      && Inorder(r) == Inorder(node)
      && !r.leaf && r.value == node.value
      && r.keys == node.keys[..i] + [node.children[i].keys[1]] + node.keys[i..]
      && |r.keys| == |node.keys| + 1
      && (i > 0 ==> r.keys[i - 1] == node.keys[i - 1]) && (i < |node.keys| ==> r.keys[i + 1] == node.keys[i])
      && |r.children| == |r.keys| + 1
      && r.children[..i] == node.children[..i] && r.children[i+2..] == node.children[i+1..]
      && (var h := Height(node.children[i]);
          ChildOK(r.children[i], h) && ChildOK(r.children[i+1], h) &&
          |r.children[i].keys| == 1 && |r.children[i+1].keys| == 1)
      && Height(r) == Height(node)
      && (Shape(node) && |node.keys| < MaxKeys ==> Shape(r))
  {
    var child := node.children[i];
    var mid := |child.keys| / 2;
    var splitKey := child.keys[mid];
    var newChild := Node(child.keys[mid+1..], if child.leaf then [] else child.children[mid+1..], child.leaf, None);
    var left := child.(keys := child.keys[..mid], children := if child.leaf then child.children else child.children[..mid+1]);
    var r := node.(keys := node.keys[..i] + [splitKey] + node.keys[i..],
                   children := node.children[..i] + [left, newChild] + node.children[i+1..]);
    assert r == SplitChild(node, i);
    assert mid == 1 && splitKey == child.keys[1];
    SplitInorder(child, left, newChild);
    SplitPieces(node, i, splitKey, left, newChild, r);
    SplitNodeInorder(node, i, left, newChild, splitKey, r);
    SplitShapeNode(node, i, r);
  }

  /** Where the keys and children of `node` land when child `i` is split. */
  lemma {:induction false} SplitPieces<V>(node: Node<V>, i: nat, k: Key, left: Node<V>, right: Node<V>, r: Node<V>)
    requires !node.leaf && |node.children| == |node.keys| + 1 && i < |node.children|
    requires !r.leaf && r.keys == node.keys[..i] + [k] + node.keys[i..]
    requires r.children == node.children[..i] + [left, right] + node.children[i+1..]
    ensures |r.keys| == |node.keys| + 1 && |r.children| == |r.keys| + 1 && r.keys[i] == k
    ensures (i > 0 ==> r.keys[i - 1] == node.keys[i - 1]) && (i < |node.keys| ==> r.keys[i + 1] == node.keys[i])
    ensures r.children[..i] == node.children[..i] && r.children[i+2..] == node.children[i+1..]
    ensures r.children[i] == left && r.children[i + 1] == right
    ensures Height(r) == 1 + Height(if i == 0 then left else node.children[0])
  {
    if i > 0 {
      assert r.keys[i - 1] == node.keys[..i][i - 1];
    }
    if i < |node.keys| {
      assert r.keys[i + 1] == node.keys[i..][0];
    }
    assert r.children[0] == if i == 0 then left else node.children[0];
  }

  /** The two halves and the middle key of a full node give back its in-order sequence. */
  lemma {:induction false} SplitInorder<V>(child: Node<V>, left: Node<V>, right: Node<V>)
    requires |child.keys| == MaxKeys && Shape(child)
    requires left == child.(keys := child.keys[..1], children := if child.leaf then child.children else child.children[..2])
    requires right == Node(child.keys[2..], if child.leaf then [] else child.children[2..], child.leaf, None)
    ensures Inorder(left) + [child.keys[1]] + Inorder(right) == Inorder(child)
    ensures ChildOK(left, Height(child)) && ChildOK(right, Height(child))
  {
    if !child.leaf {
      var s := SubsOf(child.children);
      SubsOfSlices(child.children, 2);
      FlatSplit(child.keys, s);
      SplitShape(child, left, right);
    } else {
      assert child.keys == child.keys[..1] + [child.keys[1]] + child.keys[2..];
    }
  }

  lemma {:induction false} SubsOfSlices<V>(cs: seq<Node<V>>, j: nat)
    requires j <= |cs|
    ensures SubsOf(cs[..j]) == SubsOf(cs)[..j] && SubsOf(cs[j..]) == SubsOf(cs)[j..]
  {
  }

  /** Three keys and four subsequences, cut after the first key and around the second. */
  lemma {:induction false} FlatSplit(k: seq<Key>, s: seq<seq<Key>>)
    requires |k| == 3 && |s| == 4
    ensures Flat(k[..1], s[..2]) + [k[1]] + Flat(k[2..], s[2..]) == Flat(k, s)
  {
    assert k[..1] == [k[0]] && s[..2] == [s[0], s[1]];
    assert k[2..] == [k[2]] && s[2..] == [s[2], s[3]];
    assert k == [k[0], k[1], k[2]] && s == [s[0], s[1], s[2], s[3]];
    FlatThree(k[0], k[1], k[2], s[0], s[1], s[2], s[3]);
  }

  lemma {:induction false} FlatThree(a: Key, b: Key, c: Key, s0: seq<Key>, s1: seq<Key>, s2: seq<Key>, s3: seq<Key>)
    ensures Flat([a], [s0, s1]) + [b] + Flat([c], [s2, s3]) == Flat([a, b, c], [s0, s1, s2, s3])
  {
    FlatOne(a, s0, s1);
    FlatOne(c, s2, s3);
    FlatCons(b, [c], s1, [s2, s3]);
    FlatCons(a, [b, c], s0, [s1, s2, s3]);
    assert [a] + [b, c] == [a, b, c] && [s0] + [s1, s2, s3] == [s0, s1, s2, s3];
    assert [b] + [c] == [b, c] && [s1] + [s2, s3] == [s1, s2, s3];
    assert s0 + [a] + s1 + [b] + (s2 + [c] + s3) == s0 + [a] + (s1 + [b] + (s2 + [c] + s3));
  }

  lemma {:induction false} FlatOne(x: Key, u: seq<Key>, v: seq<Key>)
    ensures Flat([x], [u, v]) == u + [x] + v
  {
    assert [x][1..] == [] && [u, v][1..] == [v];
  }

  lemma {:induction false} FlatCons(x: Key, k: seq<Key>, u: seq<Key>, s: seq<seq<Key>>)
    ensures Flat([x] + k, [u] + s) == u + [x] + Flat(k, s)
  {
    assert ([x] + k)[1..] == k && ([u] + s)[1..] == s;
  }

  lemma {:induction false} SplitShape<V>(child: Node<V>, left: Node<V>, right: Node<V>)
    requires |child.keys| == MaxKeys && Shape(child) && !child.leaf
    requires left == child.(keys := child.keys[..1], children := child.children[..2])
    requires right == Node(child.keys[2..], child.children[2..], false, None)
    ensures ChildOK(left, Height(child)) && ChildOK(right, Height(child))
  {
    assert forall j :: 0 <= j < |right.children| ==> right.children[j] == child.children[j + 2];
    assert left.children[0] == child.children[0];
    assert right.children[0] == child.children[2];
  }

  /** Putting the two halves in place of child `i` and the middle key at
      position `i` keeps the in-order sequence. */
  lemma {:induction false} SplitNodeInorder<V>(node: Node<V>, i: nat, left: Node<V>, right: Node<V>, k: Key, r: Node<V>)
    requires !node.leaf && |node.children| == |node.keys| + 1 && i < |node.children|
    requires Inorder(left) + [k] + Inorder(right) == Inorder(node.children[i])
    requires Height(left) == Height(node.children[i])
    requires !r.leaf && r.keys == node.keys[..i] + [k] + node.keys[i..]
    requires r.children == node.children[..i] + [left, right] + node.children[i+1..]
    ensures Inorder(r) == Inorder(node)
  {
    var p, q := Pre(node, i), Post(node, i);
    var x, y := Inorder(left), Inorder(right);
    SplitNodeParts(node, i, left, right, k, r);
    InorderAt(node, i);
    assert Inorder(node) == p + (x + [k] + y) + q;
    Regroup5(p, x, [k], y, q);
  }

  /** The in-order sequence of the node after the split, around the two halves. */
  lemma {:induction false} SplitNodeParts<V>(node: Node<V>, i: nat, left: Node<V>, right: Node<V>, k: Key, r: Node<V>)
    requires !node.leaf && |node.children| == |node.keys| + 1 && i < |node.children|
    requires !r.leaf && r.keys == node.keys[..i] + [k] + node.keys[i..]
    requires r.children == node.children[..i] + [left, right] + node.children[i+1..]
    ensures Inorder(r) == Pre(node, i) + Inorder(left) + ([k] + Inorder(right) + Post(node, i))
  {
    assert r.children[i] == left && r.children[i + 1] == right;
    assert r.children[..i] == node.children[..i] && r.children[i+2..] == node.children[i+1..];
    InorderAt(r, i);
    SplitNodeEnds(node, i, k, r);
  }

  lemma {:induction false} SplitNodeEnds<V>(node: Node<V>, i: nat, k: Key, r: Node<V>)
    requires |node.children| == |node.keys| + 1 && i < |node.children|
    requires r.keys == node.keys[..i] + [k] + node.keys[i..] && |r.children| == |r.keys| + 1
    requires r.children[..i] == node.children[..i] && r.children[i+2..] == node.children[i+1..]
    ensures Pre(r, i) == Pre(node, i) && Post(r, i + 1) == Post(node, i)
  {
    assert r.keys[..i] == node.keys[..i];
    PreSame(node, r, i);
    assert r.keys[i+1..] == node.keys[i..];
    PostSame(node, i, r, i + 1);
  }

  lemma {:induction false} SplitShapeNode<V>(node: Node<V>, i: nat, r: Node<V>)
    requires !node.leaf && |node.children| == |node.keys| + 1 && i < |node.children|
    requires !r.leaf && |r.keys| == |node.keys| + 1 && |r.children| == |r.keys| + 1 && Height(r) == Height(node)
    requires r.children[..i] == node.children[..i] && r.children[i+2..] == node.children[i+1..]
    requires var h := Height(node.children[i]); ChildOK(r.children[i], h) && ChildOK(r.children[i+1], h)
    ensures Shape(node) && |node.keys| < MaxKeys ==> Shape(r)
  {
    if !(Shape(node) && |node.keys| < MaxKeys) {
      return;
    }
    forall j | 0 <= j < |r.children|
      ensures M - 1 <= |r.children[j].keys| && Shape(r.children[j]) && Height(r.children[j]) + 1 == Height(r)
    {
      if j < i {
        assert r.children[j] == r.children[..i][j];
      } else if j > i + 1 {
        assert r.children[j] == r.children[i+2..][j - i - 2] == node.children[j - 1];
      }
    }
  }

  // ---------------------------------------------------------------------
  // insertNonFull

  /** Every key of `s` may stand in child `c` of `n`: none below the
      separator on its left, none above the one on its right. */
  ghost predicate Fits<V>(n: Node<V>, c: nat, s: seq<Key>)
  {
    c <= |n.keys| &&
    forall e :: e in s ==> (c > 0 ==> !Less(e, n.keys[c - 1])) && (c < |n.keys| ==> !Less(n.keys[c], e))
  }

  /** Putting a sorted subtree whose keys fit in place of child `c` keeps the
      in-order sequence sorted. */
  lemma {:induction false} ReplaceSorted<V>(n: Node<V>, c: nat, x: Node<V>)
    requires !n.leaf && |n.children| == |n.keys| + 1 && c < |n.children| && Sorted(Inorder(n))
    requires Sorted(Inorder(x)) && Fits(n, c, Inorder(x))
    ensures Sorted(Inorder(n.(children := n.children[c := x])))
  {
    ReplaceChild(n, c, x);
    InorderAt(n, c);
    Separators(n, c);
    var p, y, q, xs := Pre(n, c), Inorder(n.children[c]), Post(n, c), Inorder(x);
    forall i | 0 <= i < |xs| ensures Bounded(p, xs[i], q) {
      assert xs[i] in xs;
      forall j | 0 <= j < |p| ensures !Less(xs[i], p[j]) {
        NotLessTransitive(p[j], n.keys[c - 1], xs[i]);
      }
      forall j | 0 <= j < |q| ensures !Less(q[j], xs[i]) {
        NotLessTransitive(xs[i], n.keys[c], q[j]);
      }
    }
    SortedReplaceMiddle(p, y, q, xs);
  }

  /** Putting a shaped subtree of the same height in place of child `c`
      keeps the shape. */
  lemma {:induction false} ReplaceShape<V>(n: Node<V>, c: nat, x: Node<V>)
    requires Shape(n) && !n.leaf && c < |n.children|
    requires Shape(x) && M - 1 <= |x.keys| && Height(x) == Height(n.children[c])
    ensures Shape(n.(children := n.children[c := x])) && Height(n.(children := n.children[c := x])) == Height(n)
  {
  }

  /** Go's `insertNonFull`: walk down from a node that is not full, splitting
      a full child before entering it, and put `key` into the leaf after the
      keys that are at most `key`; that leaf's value becomes `value`. */
  method InsertNonFull<V>(node: Node<V>, key: Key, value: V) returns (r: Node<V>)
    requires Shape(node) && |node.keys| < MaxKeys && Sorted(Inorder(node))
    ensures Shape(r) && r.leaf == node.leaf && Height(r) == Height(node)
    ensures |node.keys| <= |r.keys| <= |node.keys| + 1
    ensures multiset(Inorder(r)) == multiset(Inorder(node)) + multiset{key}
    ensures Sorted(Inorder(r))
    ensures r.leaf ==> r.value == Some(value)
    ensures !node.leaf ==> r.value == node.value
    ensures !node.leaf && Roomy(node) ==> r.keys == node.keys && |r.children| == |node.children|
    ensures key !in Inorder(node) ==> Reaches(r, key, value)
    decreases Height(node)
  {
    var p := ScanBack(node.keys, key);
    if node.leaf {
      LeafStep(node, p, key, value);
      r := node.(keys := node.keys[..p] + [key] + node.keys[p..], value := Some(value));
      LeafReaches(r, p, key, value);
    } else {
      var (n, c) := MakeRoom(node, p, key);
      if Roomy(node) {
        assert |node.children[p].keys| < MaxKeys;
      }
      Separators(n, c);
      if key !in Inorder(node) {
        ChildFresh(n, c, key);
      }
      var child := InsertNonFull(n.children[c], key, value);
      InsertChildStep(n, c, key, child);
      r := n.(children := n.children[c := child]);
      if key !in Inorder(node) {
        FreshStep(n, c, key, value, child);
      }
    }
  }

  /** The search for `key` stops at a node whose value is `value`. */
  ghost predicate Reaches<V>(n: Node<V>, key: Key, value: V)
  {
    FindPath(n, key).Some? && At(n, FindPath(n, key).value).Some? && At(n, FindPath(n, key).value).value.value == Some(value)
  }

  /** A leaf holding `key` is where `search` stops. */
  lemma {:induction false} LeafReaches<V>(r: Node<V>, p: nat, key: Key, value: V)
    requires Shape(r) && r.leaf && Sorted(Inorder(r)) && r.value == Some(value)
    requires p < |r.keys| && r.keys[p] == key
    ensures Reaches(r, key, value)
  {
    FindPathCorrect(r, key);
  }

  /** A key missing from a node is missing from each of its children. */
  lemma {:induction false} ChildFresh<V>(n: Node<V>, c: nat, key: Key)
    requires !n.leaf && |n.children| == |n.keys| + 1 && c < |n.children| && key !in Inorder(n)
    ensures key !in Inorder(n.children[c])
  {
    InorderAt(n, c);
  }

  /** A fresh key put into child `c` is found there by `search`: the scan
      of the parent's keys stops at `c`, and no key of the parent is the
      fresh one. */
  lemma {:induction false} FreshStep<V>(n: Node<V>, c: nat, key: Key, value: V, child: Node<V>)
    requires !n.leaf && |n.children| == |n.keys| + 1 && c < |n.children| && Sorted(Inorder(n))
    requires c > 0 ==> !Less(key, n.keys[c - 1])
    requires c < |n.keys| ==> !Less(n.keys[c], key)
    requires key !in Inorder(n) && Reaches(child, key, value)
    ensures Reaches(n.(children := n.children[c := child]), key, value)
  {
    forall j | 0 <= j < |n.keys| ensures n.keys[j] != key {
      KeyInInorder(n, j);
    }
    if c > 0 {
      LessTotal(key, n.keys[c - 1]);
    }
    KeysBelow(n, c, key);
    CountBelowIs(n.keys, c, key);
    var q := FindPath(child, key).value;
    assert ([c] + q)[1..] == q;
  }

  /** In a sorted node, the keys before one that is below `key` are below
      it too. */
  lemma {:induction false} KeysBelow<V>(n: Node<V>, c: nat, key: Key)
    requires !n.leaf && |n.children| == |n.keys| + 1 && c <= |n.keys| && Sorted(Inorder(n))
    requires c > 0 ==> Less(n.keys[c - 1], key)
    ensures forall j :: 0 <= j < c ==> Less(n.keys[j], key)
    decreases c
  {
    if c > 1 {
      KeysSorted(n, c - 2);
      NotLessLess(n.keys[c - 2], n.keys[c - 1], key);
      KeysBelow(n, c - 1, key);
    }
  }

  /** The scan of `search` stops at the first key not below `key`. */
  lemma {:induction false} CountBelowIs(keys: seq<Key>, c: nat, key: Key)
    requires c <= |keys| && (forall j :: 0 <= j < c ==> Less(keys[j], key))
    requires c < |keys| ==> !Less(keys[c], key)
    ensures CountBelow(keys, key) == c
    decreases c
  {
    if c > 0 {
      CountBelowIs(keys[1..], c - 1, key);
    }
  }

  /** The scan of `insertNonFull` from the last key down past the keys above
      `key`: it stops at the position right after the last key that `key`
      is not below. */
  method ScanBack(keys: seq<Key>, key: Key) returns (p: nat)
    ensures p <= |keys|
    ensures p > 0 ==> !Less(key, keys[p - 1])
    ensures forall j :: p <= j < |keys| ==> Less(key, keys[j])
  {
    var i := |keys| - 1;
    while i >= 0 && Less(key, keys[i])
      invariant -1 <= i < |keys|
      invariant forall j :: i < j < |keys| ==> Less(key, keys[j])
      decreases i
    {
      i := i - 1;
    }
    p := i + 1;
  }

  /** The leaf branch of `insertNonFull`: `key` goes in at the scanned
      position and the leaf's value is replaced. */
  lemma {:induction false} LeafStep<V>(node: Node<V>, p: nat, key: Key, value: V)
    requires Shape(node) && node.leaf && |node.keys| < MaxKeys && Sorted(Inorder(node)) && p <= |node.keys|
    requires p > 0 ==> !Less(key, node.keys[p - 1])
    requires p < |node.keys| ==> Less(key, node.keys[p])
    ensures var r := node.(keys := node.keys[..p] + [key] + node.keys[p..], value := Some(value));
      && Shape(r) && Height(r) == Height(node) && |r.keys| == |node.keys| + 1
      && Sorted(Inorder(r)) && multiset(Inorder(r)) == multiset(Inorder(node)) + multiset{key}
  {
    if p < |node.keys| {
      LessAsymmetric(key, node.keys[p]);
    }
    LeafInsert(node.keys, p, key);
  }

  /** No child of `n` is full, so `insertNonFull` splits none of them. */
  ghost predicate Roomy<V>(n: Node<V>)
  {
    forall j :: 0 <= j < |n.children| ==> |n.children[j].keys| < MaxKeys
  }

  /** Lines 82-87 of `insertNonFull`: child `i` is where `key` belongs; when
      it is full it is split and `key` goes to the half on its side of the
      middle key (to the left one when equal). */
  function MakeRoom<V>(node: Node<V>, i: nat, key: Key): (r: (Node<V>, nat))
    requires Shape(node) && !node.leaf && |node.keys| < MaxKeys && i < |node.children|
    requires i == 0 || !Less(key, node.keys[i - 1])
    requires i == |node.keys| || Less(key, node.keys[i])
    ensures RoomMade(node, key, r.0, r.1)
    ensures |node.children[i].keys| < MaxKeys ==> r == (node, i)
  {
    if |node.children[i].keys| == MaxKeys then
      SplitFor(node, i, key)
    else
      assert Shape(node.children[i]);
      if i < |node.keys| then
        LessAsymmetric(key, node.keys[i]);
        (node, i)
      else
        (node, i)
  }

  /** `n` holds the keys of `node` and child `c` of `n` has room for `key`. */
  ghost predicate RoomMade<V>(node: Node<V>, key: Key, n: Node<V>, c: nat)
  {
    && Shape(n) && !n.leaf && Inorder(n) == Inorder(node) && Height(n) == Height(node)
    && n.value == node.value
    && |node.keys| <= |n.keys| <= |node.keys| + 1
    && c < |n.children| && |n.children[c].keys| < MaxKeys
    && (c > 0 ==> !Less(key, n.keys[c - 1]))
    && (c < |n.keys| ==> !Less(n.keys[c], key))
  }

  function SplitFor<V>(node: Node<V>, i: nat, key: Key): (r: (Node<V>, nat))
    requires Shape(node) && !node.leaf && |node.keys| < MaxKeys && i < |node.children|
    requires |node.children[i].keys| == MaxKeys
    requires i == 0 || !Less(key, node.keys[i - 1])
    requires i == |node.keys| || Less(key, node.keys[i])
    ensures RoomMade(node, key, r.0, r.1)
  {
    SplitForRoom(node, i, key);
    var n := SplitChild(node, i);
    (n, if Less(n.keys[i], key) then i + 1 else i)
  }

  lemma {:induction false} SplitForRoom<V>(node: Node<V>, i: nat, key: Key)
    requires Shape(node) && !node.leaf && |node.keys| < MaxKeys && i < |node.children|
    requires |node.children[i].keys| == MaxKeys
    requires i == 0 || !Less(key, node.keys[i - 1])
    requires i == |node.keys| || Less(key, node.keys[i])
    ensures Shape(node.children[i]) && i < |SplitChild(node, i).keys|
    ensures var n := SplitChild(node, i); RoomMade(node, key, n, if Less(n.keys[i], key) then i + 1 else i)
  {
    assert Shape(node.children[i]);
    SplitChildFacts(node, i);
    var n := SplitChild(node, i);
    var c := if Less(n.keys[i], key) then i + 1 else i;
    SplitRoom(node, i, key, n, c);
  }

  /** After the split, the child on `key`'s side of the new separator has room. */
  lemma {:induction false} SplitRoom<V>(node: Node<V>, i: nat, key: Key, n: Node<V>, c: nat)
    requires |node.keys| < MaxKeys && i < |node.children| == |node.keys| + 1
    requires i == 0 || !Less(key, node.keys[i - 1])
    requires i == |node.keys| || Less(key, node.keys[i])
    requires Shape(n) && !n.leaf && Inorder(n) == Inorder(node) && Height(n) == Height(node) && n.value == node.value
    requires |n.keys| == |node.keys| + 1 && |n.children| == |n.keys| + 1
    requires (i > 0 ==> n.keys[i - 1] == node.keys[i - 1]) && (i < |node.keys| ==> n.keys[i + 1] == node.keys[i])
    requires |n.children[i].keys| == 1 && |n.children[i + 1].keys| == 1
    requires c == if Less(n.keys[i], key) then i + 1 else i
    ensures RoomMade(node, key, n, c)
  {
    if Less(n.keys[i], key) {
      LessAsymmetric(n.keys[i], key);
      if i + 1 < |n.keys| {
        LessAsymmetric(key, node.keys[i]);
      }
    }
  }

  lemma {:induction false} LeafInsert(s: seq<Key>, p: nat, key: Key)
    requires Sorted(s) && p <= |s|
    requires p == 0 || !Less(key, s[p - 1])
    requires p == |s| || !Less(s[p], key)
    ensures Sorted(s[..p] + [key] + s[p..])
    ensures multiset(s[..p] + [key] + s[p..]) == multiset(s) + multiset{key}
  {
    SortedInsert(s, p, key);
    MiddleCount(s[..p], key, s[p..]);
    assert s[..p] + s[p..] == s;
  }

  /** The sorted, shaped result of inserting into child `i`, whose keys
      are those of the old child and `key`, goes back in its place. */
  lemma {:induction false} InsertChildStep<V>(n: Node<V>, i: nat, key: Key, child: Node<V>)
    requires Shape(n) && !n.leaf && i < |n.children| && Sorted(Inorder(n))
    requires i > 0 ==> !Less(key, n.keys[i - 1])
    requires i < |n.keys| ==> !Less(n.keys[i], key)
    requires Shape(child) && Height(child) == Height(n.children[i]) && |n.children[i].keys| <= |child.keys|
    requires Sorted(Inorder(child))
    requires multiset(Inorder(child)) == multiset(Inorder(n.children[i])) + multiset{key}
    ensures var r := n.(children := n.children[i := child]);
      Shape(r) && Height(r) == Height(n) && Sorted(Inorder(r)) &&
      multiset(Inorder(r)) == multiset(Inorder(n)) + multiset{key}
  {
    InsertChildFits(n, i, key, child);
    ReplaceSorted(n, i, child);
    ReplaceShape(n, i, child);
    ReplaceChild(n, i, child);
  }

  lemma {:induction false} InsertChildFits<V>(n: Node<V>, i: nat, key: Key, child: Node<V>)
    requires !n.leaf && |n.children| == |n.keys| + 1 && i < |n.children| && Sorted(Inorder(n))
    requires i > 0 ==> !Less(key, n.keys[i - 1])
    requires i < |n.keys| ==> !Less(n.keys[i], key)
    requires multiset(Inorder(child)) == multiset(Inorder(n.children[i])) + multiset{key}
    ensures Fits(n, i, Inorder(child))
  {
    Separators(n, i);
    var before := Inorder(n.children[i]);
    forall e | e in Inorder(child)
      ensures (i > 0 ==> !Less(e, n.keys[i - 1])) && (i < |n.keys| ==> !Less(n.keys[i], e))
    {
      assert e in multiset(Inorder(child));
      if e != key {
        assert e in multiset(before);
        assert e in before;
      }
    }
  }

  // ---------------------------------------------------------------------
  // search: a node is named by the path of child indices leading to it

  /** The node at the end of `path`, if every index is in range. */
  function At<V>(n: Node<V>, path: seq<nat>): Option<Node<V>>
    decreases |path|
  {
    if path == [] then Some(n)
    else if path[0] < |n.children| then At(n.children[path[0]], path[1..])
    else None
  }

  /** How many leading keys are below `key`: where the scan of `search` stops. */
  function CountBelow(keys: seq<Key>, key: Key): (r: nat)
    ensures r <= |keys|
    ensures forall j :: 0 <= j < r ==> Less(keys[j], key)
    ensures r == |keys| || !Less(keys[r], key)
  {
    if keys == [] || !Less(keys[0], key) then 0 else 1 + CountBelow(keys[1..], key)
  }

  /** The reference for `search`: the path to the first node on the way
      down whose keys hold `key`. */
  function FindPath<V>(n: Node<V>, key: Key): Option<seq<nat>>
    decreases n
  {
    var i := CountBelow(n.keys, key);
    if i < |n.keys| && n.keys[i] == key then Some([])
    else if n.leaf || i >= |n.children| then None
    else match FindPath(n.children[i], key) {
      case None => None
      case Some(p) => Some([i] + p)
    }
  }

  /** A key lies strictly between the separators around child `i` only if it
      is in that child or nowhere. */
  lemma {:induction false} Descend<V>(n: Node<V>, i: nat, key: Key)
    requires !n.leaf && |n.children| == |n.keys| + 1 && i < |n.children| && Sorted(Inorder(n))
    requires i == 0 || Less(n.keys[i - 1], key)
    requires i == |n.keys| || Less(key, n.keys[i])
    ensures key in Inorder(n) <==> key in Inorder(n.children[i])
  {
    InorderAt(n, i);
    Separators(n, i);
  }

  /** A sorted sequence scanned up to the first key not below `key` holds
      `key` only at that position. */
  lemma {:induction false} ScanMissing(keys: seq<Key>, i: nat, key: Key)
    requires Sorted(keys) && i <= |keys|
    requires forall j :: 0 <= j < i ==> Less(keys[j], key)
    requires i < |keys| ==> Less(key, keys[i])
    ensures key !in keys
  {
    forall j | 0 <= j < |keys| ensures keys[j] != key {
      if j <= i {
        LessIrreflexive(key);
      } else {
        assert !Less(keys[j], keys[i]);
      }
    }
  }

  /** `search` finds `key` exactly when the tree holds it, and then stops at
      a node whose keys hold it. */
  lemma {:induction false} FindPathCorrect<V>(n: Node<V>, key: Key)
    requires Shape(n) && Sorted(Inorder(n))
    ensures FindPath(n, key).Some? <==> key in Inorder(n)
    ensures FindPath(n, key).Some? ==>
      At(n, FindPath(n, key).value).Some? && key in At(n, FindPath(n, key).value).value.keys
    decreases n
  {
    var i := CountBelow(n.keys, key);
    if i < |n.keys| && n.keys[i] == key {
      if !n.leaf {
        InorderAt(n, i);
        assert Post(n, i)[0] == key;
      }
    } else {
      if i < |n.keys| {
        LessTotal(key, n.keys[i]);
      }
      if n.leaf {
        ScanMissing(n.keys, i, key);
      } else {
        if i > 0 {
          assert Less(n.keys[i - 1], key);
        }
        Descend(n, i, key);
        Separators(n, i);
        FindPathCorrect(n.children[i], key);
        match FindPath(n.children[i], key) {
          case None =>
          case Some(p) =>
            assert ([i] + p)[1..] == p;
        }
      }
    }
  }

  /** Go's `search`: scan the keys while they are below `key`, stop when the
      next key is `key`, otherwise fail at a leaf or descend. */
  method Search<V>(node: Node<V>, key: Key) returns (r: Option<seq<nat>>)
    requires Shape(node)
    ensures r == FindPath(node, key)
    decreases node
  {
    var i := 0;
    while i < |node.keys| && Less(node.keys[i], key)
      invariant 0 <= i <= |node.keys|
      invariant forall j :: 0 <= j < i ==> Less(node.keys[j], key)
      invariant CountBelow(node.keys, key) >= i
    {
      i := i + 1;
    }
    assert i == CountBelow(node.keys, key);
    if i < |node.keys| && key == node.keys[i] {
      return Some([]);
    }
    if node.leaf {
      return None;
    }
    assert i < |node.children| && Shape(node.children[i]);
    var p := Search(node.children[i], key);
    if p.Some? {
      r := Some([i] + p.value);
    } else {
      r := None;
    }
  }

  /** What `Update` does to the node `search` returned: the node at `path`
      gets value `v`; nothing else changes. */
  function SetValueAt<V>(n: Node<V>, path: seq<nat>, v: Option<V>): (r: Node<V>)
    decreases |path|
    ensures r.keys == n.keys && r.leaf == n.leaf && |r.children| == |n.children|
    ensures forall j :: 0 <= j < |n.children| && (path == [] || j != path[0]) ==> r.children[j] == n.children[j]
  {
    if path == [] then n.(value := v)
    else if path[0] < |n.children| then
      n.(children := n.children[path[0] := SetValueAt(n.children[path[0]], path[1..], v)])
    else n
  }

  /** Setting a value keeps the keys in order, the height and the shape. */
  lemma {:induction false} SetValueKeeps<V>(n: Node<V>, path: seq<nat>, v: Option<V>)
    ensures Inorder(SetValueAt(n, path, v)) == Inorder(n)
    ensures Height(SetValueAt(n, path, v)) == Height(n)
    ensures Shape(n) ==> Shape(SetValueAt(n, path, v))
  {
    SetValueOrder(n, path, v);
    if Shape(n) {
      SetValueShape(n, path, v);
    }
  }

  lemma {:induction false} SetValueOrder<V>(n: Node<V>, path: seq<nat>, v: Option<V>)
    ensures Inorder(SetValueAt(n, path, v)) == Inorder(n)
    ensures Height(SetValueAt(n, path, v)) == Height(n)
    decreases |path|
  {
    if path != [] && path[0] < |n.children| {
      var c := path[0];
      SetValueOrder(n.children[c], path[1..], v);
      var r := SetValueAt(n, path, v);
      assert r.children[c] == SetValueAt(n.children[c], path[1..], v);
      assert r.children == n.children[c := r.children[c]];
      forall j | 0 <= j < |n.children| ensures SubsOf(r.children)[j] == SubsOf(n.children)[j] {
        if j != c {
          assert r.children[j] == n.children[j];
        }
      }
      assert SubsOf(r.children) == SubsOf(n.children);
      if c != 0 {
        assert r.children[0] == n.children[0];
      }
    }
  }

  lemma {:induction false} SetValueShape<V>(n: Node<V>, path: seq<nat>, v: Option<V>)
    requires Shape(n)
    ensures Shape(SetValueAt(n, path, v))
    decreases |path|
  {
    if path != [] && path[0] < |n.children| {
      var c := path[0];
      var r := SetValueAt(n, path, v);
      SetValueShape(n.children[c], path[1..], v);
      SetValueOrder(n.children[c], path[1..], v);
      SetValueOrder(n, path, v);
      assert r.children[c] == SetValueAt(n.children[c], path[1..], v);
      forall j | 0 <= j < |r.children|
        ensures M - 1 <= |r.children[j].keys| && Shape(r.children[j]) && Height(r.children[j]) + 1 == Height(r)
      {
        if j != c {
          assert r.children[j] == n.children[j];
        }
      }
    }
  }

  /** Setting a value changes no search result. */
  lemma {:induction false} SetValueFind<V>(n: Node<V>, path: seq<nat>, v: Option<V>, key: Key)
    ensures FindPath(SetValueAt(n, path, v), key) == FindPath(n, key)
    decreases |path|
  {
    if path != [] && path[0] < |n.children| {
      var c := path[0];
      var i := CountBelow(n.keys, key);
      if i == c {
        SetValueFind(n.children[c], path[1..], v, key);
      }
    }
  }

  /** The node at `path` now has value `v`. */
  lemma {:induction false} SetValueThere<V>(n: Node<V>, path: seq<nat>, v: Option<V>)
    requires At(n, path).Some?
    ensures At(SetValueAt(n, path, v), path) == Some(At(n, path).value.(value := v))
    decreases |path|
  {
    if path != [] {
      SetValueThere(n.children[path[0]], path[1..], v);
    }
  }

  // ---------------------------------------------------------------------
  // merge, borrowFromPrev, borrowFromNext, fill

  lemma {:induction false} FlatConcat(k1: seq<Key>, s1: seq<seq<Key>>, x: Key, k2: seq<Key>, s2: seq<seq<Key>>)
    requires |s1| == |k1| + 1 && |s2| == |k2| + 1
    ensures Flat(k1 + [x] + k2, s1 + s2) == Flat(k1, s1) + [x] + Flat(k2, s2)
    decreases |k1|
  {
    var k, t := k1 + [x] + k2, s1 + s2;
    if k1 == [] {
      assert k[1..] == k2 && t[1..] == s2 && t[0] == s1[0];
    } else {
      FlatConcat(k1[1..], s1[1..], x, k2, s2);
      assert k[1..] == k1[1..] + [x] + k2 && t[1..] == s1[1..] + s2;
    }
  }

  /** In a shaped subtree, leaves are exactly the nodes of height 0. */
  lemma {:induction false} LeafHeight<V>(n: Node<V>)
    requires Shape(n)
    ensures n.leaf <==> Height(n) == 0
  {
  }

  /** Every key of a shaped node occurs in its in-order sequence. */
  lemma {:induction false} KeyInInorder<V>(n: Node<V>, j: nat)
    requires (n.leaf || |n.children| == |n.keys| + 1) && j < |n.keys|
    ensures n.keys[j] in Inorder(n)
  {
    if !n.leaf {
      InorderAt(n, j);
      assert Post(n, j)[0] == n.keys[j];
    }
  }

  /** The node Go's `merge` builds: `child`, the separator and `sibling`. */
  function Joined<V>(child: Node<V>, k: Key, sibling: Node<V>): (m: Node<V>)
    requires Shape(child) && Shape(sibling) && Height(child) == Height(sibling)
    ensures Inorder(m) == Inorder(child) + [k] + Inorder(sibling)
    ensures Height(m) == Height(child) && m.leaf == child.leaf && m.value == child.value
    ensures |m.keys| == |child.keys| + 1 + |sibling.keys|
    ensures |m.keys| <= MaxKeys ==> Shape(m)
  {
    LeafHeight(child);
    LeafHeight(sibling);
    var m := child.(keys := child.keys + [k] + sibling.keys,
                    children := if child.leaf then child.children else child.children + sibling.children);
    if !child.leaf then
      SubsOfConcat(child.children, sibling.children);
      FlatConcat(child.keys, SubsOf(child.children), k, sibling.keys, SubsOf(sibling.children));
      JoinedShape(child, k, sibling);
      m
    else
      m
  }

  /** The children of a join are the two nodes' children, side by side. */
  lemma {:induction false} JoinedShape<V>(child: Node<V>, k: Key, sibling: Node<V>)
    requires Shape(child) && Shape(sibling) && Height(child) == Height(sibling) && !child.leaf
    ensures var m := child.(keys := child.keys + [k] + sibling.keys, children := child.children + sibling.children);
      |m.keys| <= MaxKeys ==> Shape(m)
    ensures Height(child.(keys := child.keys + [k] + sibling.keys, children := child.children + sibling.children)) == Height(child)
  {
    var m := child.(keys := child.keys + [k] + sibling.keys, children := child.children + sibling.children);
    LeafHeight(sibling);
    assert m.children[0] == child.children[0];
    if |m.keys| <= MaxKeys {
      forall j | 0 <= j < |m.children|
        ensures M - 1 <= |m.children[j].keys| && Shape(m.children[j]) && Height(m.children[j]) + 1 == Height(m)
      {
        if j < |child.children| {
          assert m.children[j] == child.children[j];
        } else {
          assert m.children[j] == sibling.children[j - |child.children|];
        }
      }
    }
  }

  /** Replacing children `idx` and `idx+1` and the key between them by one
      node holding all three keeps the in-order sequence. */
  lemma {:induction false} MergeNodeInorder<V>(node: Node<V>, idx: nat, m: Node<V>, r: Node<V>)
    requires !node.leaf && |node.children| == |node.keys| + 1 && idx < |node.keys|
    requires Inorder(m) == Inorder(node.children[idx]) + [node.keys[idx]] + Inorder(node.children[idx + 1])
    requires !r.leaf && r.keys == node.keys[..idx] + node.keys[idx+1..]
    requires r.children == node.children[..idx] + [m] + node.children[idx+2..]
    ensures Inorder(r) == Inorder(node)
  {
    var p, q := Pre(node, idx), Post(node, idx + 1);
    var x, y, k := Inorder(node.children[idx]), Inorder(node.children[idx + 1]), node.keys[idx];
    assert Inorder(node) == p + x + ([k] + y + q) by {
      InorderAt(node, idx);
    }
    assert Inorder(r) == p + (x + [k] + y) + q by {
      assert r.children[idx] == m;
      InorderAt(r, idx);
      assert r.keys[..idx] == node.keys[..idx] && r.children[..idx] == node.children[..idx];
      PreSame(node, r, idx);
      assert r.keys[idx..] == node.keys[idx+1..] && r.children[idx+1..] == node.children[idx+2..];
      PostSame(node, idx + 1, r, idx);
    }
    assert p + x + ([k] + y + q) == p + (x + [k] + y) + q;
  }

  /** Go's `merge`: child `idx` absorbs key `idx` and child `idx+1`, which
      leave `node`. */
  function Merge<V>(node: Node<V>, idx: nat): (r: Node<V>)
    requires Shape(node) && !node.leaf && idx < |node.keys|
    ensures Inorder(r) == Inorder(node) && Height(r) == Height(node)
    ensures !r.leaf && r.value == node.value && |r.keys| + 1 == |node.keys|
    ensures r.keys[..idx] == node.keys[..idx] && r.keys[idx..] == node.keys[idx+1..]
    ensures |r.children| == |node.children| - 1
    ensures |r.children[idx].keys| == |node.children[idx].keys| + 1 + |node.children[idx + 1].keys|
    ensures Inorder(r.children[idx]) == Inorder(node.children[idx]) + [node.keys[idx]] + Inorder(node.children[idx + 1])
    ensures |node.children[idx].keys| + |node.children[idx + 1].keys| < MaxKeys ==> Shape(r)
  {
    var child, sibling := node.children[idx], node.children[idx + 1];
    var m := Joined(child, node.keys[idx], sibling);
    var r := node.(keys := node.keys[..idx] + node.keys[idx+1..],
                   children := node.children[..idx] + [m] + node.children[idx+2..]);
    MergeNodeInorder(node, idx, m, r);
    assert r.children[0] == if idx == 0 then m else node.children[0];
    if |child.keys| + |sibling.keys| < MaxKeys then
      MergeShape(node, idx, m, r);
      r
    else
      r
  }

  lemma {:induction false} MergeShape<V>(node: Node<V>, idx: nat, m: Node<V>, r: Node<V>)
    requires Shape(node) && !node.leaf && idx < |node.keys|
    requires Shape(m) && Height(m) == Height(node.children[idx])
    requires |m.keys| == |node.children[idx].keys| + 1 + |node.children[idx + 1].keys|
    requires !r.leaf && r.keys == node.keys[..idx] + node.keys[idx+1..] && Height(r) == Height(node)
    requires r.children == node.children[..idx] + [m] + node.children[idx+2..]
    ensures Shape(r)
  {
    forall j | 0 <= j < |r.children|
      ensures M - 1 <= |r.children[j].keys| && Shape(r.children[j]) && Height(r.children[j]) + 1 == Height(r)
    {
      if j < idx {
        assert r.children[j] == node.children[j];
      } else if j > idx {
        assert r.children[j] == node.children[j + 1];
      }
    }
  }

  /** Replacing children `c` and `c+1` and the key between them by two
      nodes and a key with the same keys in order keeps the in-order
      sequence. */
  lemma {:induction false} ShiftInorder<V>(node: Node<V>, c: nat, a: Node<V>, k: Key, b: Node<V>, r: Node<V>)
    requires !node.leaf && |node.children| == |node.keys| + 1 && c < |node.keys|
    requires Inorder(a) + [k] + Inorder(b) == Inorder(node.children[c]) + [node.keys[c]] + Inorder(node.children[c + 1])
    requires !r.leaf && r.keys == node.keys[c := k] && r.children == node.children[c := a][c + 1 := b]
    ensures Inorder(r) == Inorder(node)
  {
    Around2(node, c);
    ShiftEnds(node, c, a, k, b, r);
    Around2(r, c);
  }

  /** The in-order sequence around children `c` and `c+1`. */
  lemma {:induction false} Around2<V>(n: Node<V>, c: nat)
    requires !n.leaf && |n.children| == |n.keys| + 1 && c < |n.keys|
    ensures Inorder(n) == Pre(n, c) + (Inorder(n.children[c]) + [n.keys[c]] + Inorder(n.children[c + 1])) + Post(n, c + 1)
  {
    InorderAt(n, c);
  }

  lemma {:induction false} ShiftEnds<V>(node: Node<V>, c: nat, a: Node<V>, k: Key, b: Node<V>, r: Node<V>)
    requires |node.children| == |node.keys| + 1 && c < |node.keys|
    requires r.keys == node.keys[c := k] && r.children == node.children[c := a][c + 1 := b]
    ensures Pre(r, c) == Pre(node, c) && Post(r, c + 1) == Post(node, c + 1)
    ensures r.children[c] == a && r.children[c + 1] == b && r.keys[c] == k
  {
    assert r.keys[..c] == node.keys[..c] && r.children[..c] == node.children[..c];
    PreSame(node, r, c);
    assert r.keys[c+1..] == node.keys[c+1..] && r.children[c+2..] == node.children[c+2..];
    PostSame(node, c + 1, r, c + 1);
  }

  lemma {:induction false} ShiftShape<V>(node: Node<V>, c: nat, a: Node<V>, b: Node<V>, r: Node<V>)
    requires Shape(node) && !node.leaf && c < |node.keys|
    requires ChildOK(a, Height(node.children[c])) && ChildOK(b, Height(node.children[c]))
    requires !r.leaf && |r.keys| == |node.keys| && r.children == node.children[c := a][c + 1 := b]
    ensures Shape(r) && Height(r) == Height(node)
  {
    forall j | 0 <= j < |r.children|
      ensures M - 1 <= |r.children[j].keys| && Shape(r.children[j]) && Height(r.children[j]) + 1 == Height(node)
    {
      if j != c && j != c + 1 {
        assert r.children[j] == node.children[j];
      }
    }
    assert r.children[0] == if c == 0 then a else node.children[0];
  }

  /** An internal node is its prefix without the last key and child, that
      key, and that child. */
  lemma {:induction false} DropLast<V>(s: Node<V>, sib: Node<V>)
    requires !s.leaf && |s.children| == |s.keys| + 1 && 1 <= |s.keys|
    requires sib == s.(keys := s.keys[..|s.keys| - 1], children := s.children[..|s.children| - 1])
    ensures Inorder(s) == Inorder(sib) + [s.keys[|s.keys| - 1]] + Inorder(s.children[|s.children| - 1])
  {
    var lc := s.children[|s.children| - 1];
    assert s.children == sib.children + [lc];
    SubsOfConcat(sib.children, [lc]);
    assert s.keys == sib.keys + [s.keys[|s.keys| - 1]] + [];
    assert SubsOf([lc]) == [Inorder(lc)];
    FlatConcat(sib.keys, SubsOf(sib.children), s.keys[|s.keys| - 1], [], [Inorder(lc)]);
    assert Flat([], [Inorder(lc)]) == Inorder(lc);
    assert Inorder(s) == Flat(s.keys, SubsOf(s.children));
  }

  /** An internal node is its first child, its first key, and the rest. */
  lemma {:induction false} DropFirst<V>(s: Node<V>, sib: Node<V>)
    requires !s.leaf && |s.children| == |s.keys| + 1 && 1 <= |s.keys|
    requires sib == s.(keys := s.keys[1..], children := s.children[1..])
    ensures Inorder(s) == Inorder(s.children[0]) + [s.keys[0]] + Inorder(sib)
  {
    assert SubsOf(s.children)[1..] == SubsOf(sib.children);
  }

  /** Putting a key and a child in front of an internal node. */
  lemma {:induction false} AddFirst<V>(c: Node<V>, t: Node<V>, k: Key, child: Node<V>)
    requires !c.leaf && |c.children| == |c.keys| + 1
    requires child == c.(keys := [k] + c.keys, children := [t] + c.children)
    ensures Inorder(child) == Inorder(t) + [k] + Inorder(c)
  {
    SubsOfConcat([t], c.children);
    FlatConcat([], [Inorder(t)], k, c.keys, SubsOf(c.children));
    assert [] + [k] + c.keys == child.keys;
  }

  /** Putting a key and a child behind an internal node. */
  lemma {:induction false} AddLast<V>(c: Node<V>, k: Key, t: Node<V>, child: Node<V>)
    requires !c.leaf && |c.children| == |c.keys| + 1
    requires child == c.(keys := c.keys + [k], children := c.children + [t])
    ensures Inorder(child) == Inorder(c) + [k] + Inorder(t)
  {
    SubsOfConcat(c.children, [t]);
    assert SubsOf([t]) == [Inorder(t)];
    FlatConcat(c.keys, SubsOf(c.children), k, [], [Inorder(t)]);
    assert c.keys + [k] + [] == child.keys;
    assert Flat([], [Inorder(t)]) == Inorder(t);
  }

  /** The two nodes `borrowFromPrev` builds: the sibling `s` without its
      last key (and last child), and the child `c` with the separator `k`
      (and that grandchild) in front. */
  lemma {:induction false} BorrowPrevPieces<V>(s: Node<V>, k: Key, c: Node<V>, sib: Node<V>, child: Node<V>)
    requires Shape(s) && Shape(c) && Height(s) == Height(c) && 1 <= |s.keys|
    requires sib == s.(keys := s.keys[..|s.keys| - 1], children := if s.leaf then s.children else s.children[..|s.children| - 1])
    requires child == c.(keys := [k] + c.keys, children := if c.leaf then c.children else [s.children[|s.children| - 1]] + c.children)
    ensures Inorder(sib) + [s.keys[|s.keys| - 1]] + Inorder(child) == Inorder(s) + [k] + Inorder(c)
  {
    LeafHeight(s);
    LeafHeight(c);
    var x := s.keys[|s.keys| - 1];
    if s.leaf {
      assert s.keys == sib.keys + [x];
      assert c.leaf && Inorder(child) == [k] + Inorder(c);
      Regroup(sib.keys + [x], [k], Inorder(c), []);
    } else {
      var t := s.children[|s.children| - 1];
      DropLast(s, sib);
      AddFirst(c, t, k, child);
      Regroup(Inorder(sib) + [x], Inorder(t), [k], Inorder(c));
    }
  }

  lemma {:induction false} BorrowPrevShape<V>(s: Node<V>, k: Key, c: Node<V>, sib: Node<V>, child: Node<V>)
    requires Shape(s) && Shape(c) && Height(s) == Height(c) && M <= |s.keys| && |c.keys| < MaxKeys
    requires sib == s.(keys := s.keys[..|s.keys| - 1], children := if s.leaf then s.children else s.children[..|s.children| - 1])
    requires child == c.(keys := [k] + c.keys, children := if c.leaf then c.children else [s.children[|s.children| - 1]] + c.children)
    ensures ChildOK(sib, Height(c)) && ChildOK(child, Height(c))
  {
    LeafHeight(s);
    LeafHeight(c);
    if !s.leaf {
      assert sib.children[0] == s.children[0];
      assert forall j :: 0 <= j < |sib.children| ==> sib.children[j] == s.children[j];
      assert forall j :: 1 <= j < |child.children| ==> child.children[j] == c.children[j - 1];
    }
  }

  /** Go's `borrowFromPrev`: child `idx` takes the separator on its left (and
      the left sibling's last child), and the left sibling's last key
      becomes the separator. */
  function BorrowFromPrev<V>(node: Node<V>, idx: nat): Node<V>
    requires Shape(node) && !node.leaf && 0 < idx < |node.children|
  {
    var s, c := node.children[idx - 1], node.children[idx];
    assert Shape(s) && Shape(c) && Height(s) == Height(c) && 1 <= |s.keys|;
    var sib := s.(keys := s.keys[..|s.keys| - 1], children := if s.leaf then s.children else s.children[..|s.children| - 1]);
    var child := c.(keys := [node.keys[idx - 1]] + c.keys, children := if c.leaf then c.children else [s.children[|s.children| - 1]] + c.children);
    node.(keys := node.keys[idx - 1 := s.keys[|s.keys| - 1]], children := node.children[idx - 1 := sib][idx := child])
  }

  /** `borrowFromPrev` keeps the keys in order and the other separators; the
      new separator comes from the left sibling; and, when that sibling can
      spare a key, the result is a well-shaped node whose child `idx` has
      one key more. */
  lemma {:induction false} BorrowFromPrevFacts<V>(node: Node<V>, idx: nat)
    requires Shape(node) && !node.leaf && 0 < idx < |node.children|
    ensures var r := BorrowFromPrev(node, idx);
      && Inorder(r) == Inorder(node)
      && !r.leaf && r.value == node.value && |r.keys| == |node.keys| && |r.children| == |node.children|
      && (forall j :: 0 <= j < |node.keys| && j != idx - 1 ==> r.keys[j] == node.keys[j])
      && r.keys[idx - 1] in Inorder(node.children[idx - 1])
      && (M <= |node.children[idx - 1].keys| && |node.children[idx].keys| < MaxKeys ==>
           Shape(r) && Height(r) == Height(node) && |r.children[idx].keys| == |node.children[idx].keys| + 1)
  {
    var k := idx - 1;
    var s, c := node.children[k], node.children[k + 1];
    assert Shape(s) && Shape(c) && Height(s) == Height(c) && 1 <= |s.keys|;
    var x := s.keys[|s.keys| - 1];
    var sib := s.(keys := s.keys[..|s.keys| - 1], children := if s.leaf then s.children else s.children[..|s.children| - 1]);
    var child := c.(keys := [node.keys[k]] + c.keys, children := if c.leaf then c.children else [s.children[|s.children| - 1]] + c.children);
    var r := node.(keys := node.keys[k := x], children := node.children[k := sib][k + 1 := child]);
    assert r == BorrowFromPrev(node, idx);
    BorrowPrevPieces(s, node.keys[k], c, sib, child);
    assert Inorder(sib) + [x] + Inorder(child) == Inorder(node.children[k]) + [node.keys[k]] + Inorder(node.children[k + 1]);
    ShiftInorder(node, k, sib, x, child, r);
    KeyInInorder(s, |s.keys| - 1);
    assert r.keys[k] == x && r.children[k + 1] == child;
    if M <= |s.keys| && |c.keys| < MaxKeys {
      BorrowPrevShape(s, node.keys[k], c, sib, child);
      ShiftShape(node, k, sib, child, r);
    }
  }

  /** The two nodes `borrowFromNext` builds: the child `c` with the
      separator `k` (and the sibling's first child) behind, and the sibling
      `s` without its first key (and first child). */
  lemma {:induction false} BorrowNextPieces<V>(c: Node<V>, k: Key, s: Node<V>, child: Node<V>, sib: Node<V>)
    requires Shape(s) && Shape(c) && Height(s) == Height(c) && 1 <= |s.keys|
    requires child == c.(keys := c.keys + [k], children := if c.leaf then c.children else c.children + [s.children[0]])
    requires sib == s.(keys := s.keys[1..], children := if s.leaf then s.children else s.children[1..])
    ensures Inorder(child) + [s.keys[0]] + Inorder(sib) == Inorder(c) + [k] + Inorder(s)
  {
    LeafHeight(s);
    LeafHeight(c);
    if s.leaf {
      assert s.keys == [s.keys[0]] + sib.keys;
    } else {
      AddLast(c, k, s.children[0], child);
      DropFirst(s, sib);
    }
  }

  lemma {:induction false} BorrowNextShape<V>(c: Node<V>, k: Key, s: Node<V>, child: Node<V>, sib: Node<V>)
    requires Shape(s) && Shape(c) && Height(s) == Height(c) && M <= |s.keys| && |c.keys| < MaxKeys
    requires child == c.(keys := c.keys + [k], children := if c.leaf then c.children else c.children + [s.children[0]])
    requires sib == s.(keys := s.keys[1..], children := if s.leaf then s.children else s.children[1..])
    ensures ChildOK(child, Height(c)) && ChildOK(sib, Height(c))
  {
    LeafHeight(s);
    LeafHeight(c);
    if !s.leaf {
      assert child.children[0] == c.children[0];
      assert forall j :: 0 <= j < |c.children| ==> child.children[j] == c.children[j];
      assert forall j :: 0 <= j < |sib.children| ==> sib.children[j] == s.children[j + 1];
    }
  }

  /** Go's `borrowFromNext`: child `idx` takes the separator on its right (and
      the right sibling's first child), and the right sibling's first key
      becomes the separator. */
  function BorrowFromNext<V>(node: Node<V>, idx: nat): Node<V>
    requires Shape(node) && !node.leaf && idx < |node.keys|
  {
    var c, s := node.children[idx], node.children[idx + 1];
    assert Shape(s) && Shape(c) && Height(s) == Height(c) && 1 <= |s.keys|;
    var child := c.(keys := c.keys + [node.keys[idx]], children := if c.leaf then c.children else c.children + [s.children[0]]);
    var sib := s.(keys := s.keys[1..], children := if s.leaf then s.children else s.children[1..]);
    node.(keys := node.keys[idx := s.keys[0]], children := node.children[idx := child][idx + 1 := sib])
  }

  /** `borrowFromNext` keeps the keys in order and the other separators; the
      new separator comes from the right sibling; and, when that sibling can
      spare a key, the result is a well-shaped node whose child `idx` has
      one key more. */
  lemma {:induction false} BorrowFromNextFacts<V>(node: Node<V>, idx: nat)
    requires Shape(node) && !node.leaf && idx < |node.keys|
    ensures var r := BorrowFromNext(node, idx);
      && Inorder(r) == Inorder(node)
      && !r.leaf && r.value == node.value && |r.keys| == |node.keys| && |r.children| == |node.children|
      && (forall j :: 0 <= j < |node.keys| && j != idx ==> r.keys[j] == node.keys[j])
      && r.keys[idx] in Inorder(node.children[idx + 1])
      && (M <= |node.children[idx + 1].keys| && |node.children[idx].keys| < MaxKeys ==>
           Shape(r) && Height(r) == Height(node) && |r.children[idx].keys| == |node.children[idx].keys| + 1)
  {
    var c, s := node.children[idx], node.children[idx + 1];
    assert Shape(s) && Shape(c) && Height(s) == Height(c) && 1 <= |s.keys|;
    var child := c.(keys := c.keys + [node.keys[idx]], children := if c.leaf then c.children else c.children + [s.children[0]]);
    var sib := s.(keys := s.keys[1..], children := if s.leaf then s.children else s.children[1..]);
    var r := node.(keys := node.keys[idx := s.keys[0]], children := node.children[idx := child][idx + 1 := sib]);
    assert r == BorrowFromNext(node, idx);
    BorrowNextPieces(c, node.keys[idx], s, child, sib);
    ShiftInorder(node, idx, child, s.keys[0], sib, r);
    KeyInInorder(s, 0);
    assert r.keys[idx] == s.keys[0] && r.children[idx] == child;
    if M <= |s.keys| && |c.keys| < MaxKeys {
      BorrowNextShape(c, node.keys[idx], s, child, sib);
      ShiftShape(node, idx, child, sib, r);
    }
  }

  /** Go's `fill`: child `idx`, down to `m-1` keys, borrows from a sibling
      with a key to spare, left one first, or else merges with a sibling. */
  function Fill<V>(node: Node<V>, idx: nat): (r: Node<V>)
    requires Shape(node) && !node.leaf && 1 <= |node.keys| && idx < |node.children|
    requires |node.children[idx].keys| < M
    ensures Inorder(r) == Inorder(node) && Shape(r) && Height(r) == Height(node)
    ensures !r.leaf && r.value == node.value && |node.keys| - 1 <= |r.keys| <= |node.keys|
    ensures var j := FillIndex(node, idx, r); j < |r.children| && M <= |r.children[j].keys|
  {
    if idx != 0 && |node.children[idx - 1].keys| >= M then
      BorrowFromPrevFacts(node, idx);
      BorrowFromPrev(node, idx)
    else if idx != |node.keys| && |node.children[idx + 1].keys| >= M then
      BorrowFromNextFacts(node, idx);
      BorrowFromNext(node, idx)
    else if idx != |node.keys| then
      Merge(node, idx)
    else
      Merge(node, idx - 1)
  }

  /** The child `delete` enters after `fill`: the one before when the last
      child was merged into its left neighbour. */
  function FillIndex<V>(node: Node<V>, idx: nat, r: Node<V>): nat
  {
    if idx == |node.keys| && idx > |r.keys| && idx > 0 then idx - 1 else idx
  }

  /** Neighbouring keys of a node are in order. */
  lemma {:induction false} KeysSorted<V>(n: Node<V>, a: nat)
    requires !n.leaf && |n.children| == |n.keys| + 1 && a + 1 < |n.keys| && Sorted(Inorder(n))
    ensures !Less(n.keys[a + 1], n.keys[a])
  {
    Separators(n, a);
    InorderAt(n, a);
    InorderAt(n, a + 1);
    assert Post(n, a)[1 + |Inorder(n.children[a + 1])|] == n.keys[a + 1];
  }

  /** `key` lies strictly between the separators around child `j`. */
  ghost predicate Between(keys: seq<Key>, j: nat, key: Key)
  {
    j <= |keys| && (j == 0 || Less(keys[j - 1], key)) && (j == |keys| || Less(key, keys[j]))
  }

  /** A key strictly between the separators of child `idx` is still strictly
      between the separators of the child `delete` enters after `fill`. */
  lemma {:induction false} FillBounds<V>(node: Node<V>, idx: nat, key: Key)
    requires Shape(node) && !node.leaf && 1 <= |node.keys| && idx < |node.children|
    requires |node.children[idx].keys| < M && Sorted(Inorder(node))
    requires Between(node.keys, idx, key)
    ensures var r := Fill(node, idx); Between(r.keys, FillIndex(node, idx, r), key)
  {
    var r := Fill(node, idx);
    var j := FillIndex(node, idx, r);
    if idx != 0 && |node.children[idx - 1].keys| >= M {
      assert r == BorrowFromPrev(node, idx);
      BorrowFromPrevFacts(node, idx);
      assert j == idx;
      PrevBounds(node, idx, key);
    } else if idx != |node.keys| && |node.children[idx + 1].keys| >= M {
      assert r == BorrowFromNext(node, idx);
      BorrowFromNextFacts(node, idx);
      assert j == idx;
      NextBounds(node, idx, key);
    } else if idx != |node.keys| {
      assert r == Merge(node, idx);
      assert j == idx;
      MergeBounds(node, idx, key);
    } else {
      assert r == Merge(node, idx - 1);
      assert j == idx - 1;
      LastMergeBounds(node, idx, key);
    }
  }

  lemma {:induction false} PrevBounds<V>(node: Node<V>, idx: nat, key: Key)
    requires Shape(node) && !node.leaf && 0 < idx < |node.children| && Sorted(Inorder(node))
    requires Between(node.keys, idx, key)
    ensures Between(BorrowFromPrev(node, idx).keys, idx, key)
  {
    var r := BorrowFromPrev(node, idx);
    BorrowFromPrevFacts(node, idx);
    Separators(node, idx - 1);
    AtMostMember(Inorder(node.children[idx - 1]), node.keys[idx - 1], r.keys[idx - 1]);
    NotLessLess(r.keys[idx - 1], node.keys[idx - 1], key);
    if idx < |node.keys| {
      assert r.keys[idx] == node.keys[idx];
    }
  }

  lemma {:induction false} NextBounds<V>(node: Node<V>, idx: nat, key: Key)
    requires Shape(node) && !node.leaf && idx < |node.keys| && Sorted(Inorder(node))
    requires Between(node.keys, idx, key)
    ensures Between(BorrowFromNext(node, idx).keys, idx, key)
  {
    var r := BorrowFromNext(node, idx);
    BorrowFromNextFacts(node, idx);
    Separators(node, idx + 1);
    AtLeastMember(Inorder(node.children[idx + 1]), node.keys[idx], r.keys[idx]);
    LessNotLess(key, node.keys[idx], r.keys[idx]);
    if idx > 0 {
      assert r.keys[idx - 1] == node.keys[idx - 1];
    }
  }

  lemma {:induction false} MergeBounds<V>(node: Node<V>, idx: nat, key: Key)
    requires Shape(node) && !node.leaf && idx < |node.keys| && Sorted(Inorder(node))
    requires Between(node.keys, idx, key)
    ensures Between(Merge(node, idx).keys, idx, key)
  {
    var r := Merge(node, idx);
    if idx > 0 {
      assert r.keys[idx - 1] == r.keys[..idx][idx - 1] == node.keys[idx - 1];
    }
    if idx < |r.keys| {
      assert r.keys[idx] == r.keys[idx..][0] == node.keys[idx + 1];
      KeysSorted(node, idx);
      LessNotLess(key, node.keys[idx], node.keys[idx + 1]);
    }
  }

  lemma {:induction false} LastMergeBounds<V>(node: Node<V>, idx: nat, key: Key)
    requires Shape(node) && !node.leaf && 1 <= idx == |node.keys| && Sorted(Inorder(node))
    requires Between(node.keys, idx, key)
    ensures Between(Merge(node, idx - 1).keys, idx - 1, key)
  {
    var r := Merge(node, idx - 1);
    if idx >= 2 {
      assert r.keys[idx - 2] == r.keys[..idx - 1][idx - 2] == node.keys[idx - 2];
      KeysSorted(node, idx - 2);
      NotLessLess(node.keys[idx - 2], node.keys[idx - 1], key);
    }
  }

  // ---------------------------------------------------------------------
  // removeFromLeaf, getPred, getSucc

  /** Go's `removeFromLeaf`: key `idx` leaves the node. */
  function RemoveFromLeaf<V>(node: Node<V>, idx: nat): (r: Node<V>)
    requires idx < |node.keys|
    ensures multiset(r.keys) + multiset{node.keys[idx]} == multiset(node.keys)
    ensures |r.keys| + 1 == |node.keys| && (Sorted(node.keys) ==> Sorted(r.keys))
    ensures r.children == node.children && r.leaf == node.leaf && r.value == node.value
  {
    var p, q := node.keys[..idx], node.keys[idx+1..];
    assert node.keys == p + [node.keys[idx]] + q;
    SortedRemove(node.keys, idx);
    node.(keys := p + q)
  }

  /** The in-order sequence of an internal node starts with that of its
      first child and ends with that of its last child. */
  lemma {:induction false} OuterChildren<V>(n: Node<V>)
    requires !n.leaf && |n.children| == |n.keys| + 1
    ensures Inorder(n) == Inorder(n.children[0]) + Post(n, 0)
    ensures Inorder(n) == Pre(n, |n.keys|) + Inorder(n.children[|n.keys|])
  {
    InorderAt(n, 0);
    InorderAt(n, |n.keys|);
  }

  /** A shaped node with a key has a nonempty in-order sequence. */
  lemma {:induction false} NonEmpty<V>(n: Node<V>)
    requires Shape(n) && 1 <= |n.keys|
    ensures Inorder(n) != []
  {
    KeyInInorder(n, 0);
  }

  /** The last key of a sequence. */
  function Last(s: seq<Key>): Key
    requires s != []
  {
    s[|s| - 1]
  }

  /** The last key of an internal node's subtree is the last key of its
      last child's subtree, one level lower. */
  lemma {:induction false} LastChildStep<V>(n: Node<V>)
    requires Shape(n) && !n.leaf && 1 <= |n.keys| && Inorder(n) != []
    ensures var c := n.children[|n.children| - 1];
      && Shape(c) && 1 <= |c.keys| && Height(c) < Height(n)
      && Inorder(c) != [] && Last(Inorder(c)) == Last(Inorder(n))
  {
    var c := n.children[|n.children| - 1];
    assert Shape(c) && M - 1 <= |c.keys| && Height(c) + 1 == Height(n);
    OuterChildren(n);
    NonEmpty(c);
  }

  /** The first key of an internal node's subtree is the first key of its
      first child's subtree. */
  lemma {:induction false} FirstChildStep<V>(n: Node<V>)
    requires Shape(n) && !n.leaf && 1 <= |n.keys| && Inorder(n) != []
    ensures var c := n.children[0];
      && Shape(c) && 1 <= |c.keys| && Height(c) < Height(n)
      && Inorder(c) != [] && Inorder(c)[0] == Inorder(n)[0]
  {
    var c := n.children[0];
    assert Shape(c) && M - 1 <= |c.keys| && Height(c) + 1 == Height(n);
    OuterChildren(n);
    NonEmpty(c);
  }

  /** Go's `getPred`: follow the last children of child `idx` down to a leaf
      and take its last key, the largest key of that subtree. */
  method GetPred<V>(node: Node<V>, idx: nat) returns (pred: Key)
    requires Shape(node) && !node.leaf && idx < |node.children|
    ensures Inorder(node.children[idx]) != [] && pred == Last(Inorder(node.children[idx]))
  {
    var start := node.children[idx];
    NonEmpty(start);
    var cur := start;
    while !cur.leaf
      invariant Shape(cur) && 1 <= |cur.keys| && Inorder(cur) != []
      invariant Last(Inorder(cur)) == Last(Inorder(start))
      decreases Height(cur)
    {
      var next := cur.children[|cur.children| - 1];
      LastChildStep(cur);
      cur := next;
    }
    pred := cur.keys[|cur.keys| - 1];
  }

  /** Go's `getSucc`: follow the first children of child `idx+1` down to a
      leaf and take its first key, the smallest key of that subtree. */
  method GetSucc<V>(node: Node<V>, idx: nat) returns (succ: Key)
    requires Shape(node) && !node.leaf && idx < |node.keys|
    ensures Inorder(node.children[idx + 1]) != [] && succ == Inorder(node.children[idx + 1])[0]
  {
    var start := node.children[idx + 1];
    NonEmpty(start);
    var cur := start;
    while !cur.leaf
      invariant Shape(cur) && 1 <= |cur.keys| && Inorder(cur) != []
      invariant Inorder(cur)[0] == Inorder(start)[0]
      decreases Height(cur)
    {
      var next := cur.children[0];
      FirstChildStep(cur);
      cur := next;
    }
    succ := cur.keys[0];
  }

  // ---------------------------------------------------------------------
  // delete, removeFromNonLeaf

  /** What `delete(node, key)` promises its caller: the subtree keeps its
      shape, height, leaf flag, value and order, loses at most one key of
      its root, and loses one occurrence of `key` if it held `key` and
      nothing otherwise. */
  ghost predicate Removed<V>(node: Node<V>, key: Key, r: Node<V>)
  {
    && Shape(r) && r.leaf == node.leaf && r.value == node.value && Height(r) == Height(node)
    && |node.keys| - 1 <= |r.keys| <= |node.keys|
    && Sorted(Inorder(r))
    && (key in Inorder(node) ==> multiset(Inorder(r)) + multiset{key} == multiset(Inorder(node)))
    && (key !in Inorder(node) ==> Inorder(r) == Inorder(node))
  }

  /** A node of the same shape and key count, sorted, with one occurrence of
      `key` fewer, is `node` with `key` deleted. */
  lemma {:induction false} RemovedKey<V>(node: Node<V>, key: Key, r: Node<V>)
    requires Shape(r) && r.leaf == node.leaf && r.value == node.value && Height(r) == Height(node)
    requires |r.keys| == |node.keys| && Sorted(Inorder(r)) && key in Inorder(node)
    requires multiset(Inorder(r)) + multiset{key} == multiset(Inorder(node))
    ensures Removed(node, key, r)
  {
  }

  /** The in-order sequence after key `c` and children `c`, `c+1` are
      replaced. */
  lemma {:induction false} SwapInorder<V>(node: Node<V>, c: nat, a: Node<V>, k: Key, b: Node<V>, r: Node<V>)
    requires !node.leaf && |node.children| == |node.keys| + 1 && c < |node.keys|
    requires !r.leaf && r.keys == node.keys[c := k] && r.children == node.children[c := a][c + 1 := b]
    ensures Inorder(r) == Pre(node, c) + (Inorder(a) + [k] + Inorder(b)) + Post(node, c + 1)
  {
    ShiftEnds(node, c, a, k, b, r);
    Around2(r, c);
  }

  /** Replacing key `idx` and child `idx` by the predecessor and by that
      child with the predecessor removed deletes key `idx` from `node`. */
  lemma {:induction false} PredStep<V>(node: Node<V>, idx: nat, pred: Key, child: Node<V>)
    requires Shape(node) && !node.leaf && idx < |node.keys| && Sorted(Inorder(node))
    requires M <= |node.children[idx].keys|
    requires Inorder(node.children[idx]) != [] && pred == Last(Inorder(node.children[idx]))
    requires Removed(node.children[idx], pred, child)
    ensures Removed(node, node.keys[idx], node.(keys := node.keys[idx := pred], children := node.children[idx := child]))
  {
    var r := node.(keys := node.keys[idx := pred], children := node.children[idx := child]);
    assert Shape(child) && M - 1 <= |child.keys| && Height(child) == Height(node.children[idx]);
    PredOrder(node, idx, pred, child);
    KeyShape(node, idx, pred, idx, child);
    KeyInInorder(node, idx);
    RemovedKey(node, node.keys[idx], r);
  }

  lemma {:induction false} PredOrder<V>(node: Node<V>, idx: nat, pred: Key, child: Node<V>)
    requires !node.leaf && |node.children| == |node.keys| + 1 && idx < |node.keys| && Sorted(Inorder(node))
    requires Inorder(node.children[idx]) != [] && pred == Last(Inorder(node.children[idx]))
    requires Sorted(Inorder(child))
    requires multiset(Inorder(child)) + multiset{pred} == multiset(Inorder(node.children[idx]))
    ensures var r := node.(keys := node.keys[idx := pred], children := node.children[idx := child]);
      Sorted(Inorder(r)) && multiset(Inorder(r)) + multiset{node.keys[idx]} == multiset(Inorder(node))
  {
    var b := node.children[idx + 1];
    var r := node.(keys := node.keys[idx := pred], children := node.children[idx := child]);
    assert r.children == node.children[idx := child][idx + 1 := b];
    SwapInorder(node, idx, child, pred, b, r);
    PredKeys(node, idx, pred, child);
  }

  lemma {:induction false} PredKeys<V>(node: Node<V>, idx: nat, pred: Key, child: Node<V>)
    requires !node.leaf && |node.children| == |node.keys| + 1 && idx < |node.keys| && Sorted(Inorder(node))
    requires Inorder(node.children[idx]) != [] && pred == Last(Inorder(node.children[idx]))
    requires Sorted(Inorder(child))
    requires multiset(Inorder(child)) + multiset{pred} == multiset(Inorder(node.children[idx]))
    ensures var s := Pre(node, idx) + (Inorder(child) + [pred] + Inorder(node.children[idx + 1])) + Post(node, idx + 1);
      Sorted(s) && multiset(s) + multiset{node.keys[idx]} == multiset(Inorder(node))
  {
    var x, x', y := Inorder(node.children[idx]), Inorder(child), Inorder(node.children[idx + 1]);
    var p, q, k := Pre(node, idx), Post(node, idx + 1), node.keys[idx];
    Around2(node, idx);
    DrawnFrom(x, x', pred);
    assert pred == x[|x| - 1];
    PredSwapSorted(p, x, k, y, q, x');
    SwapCount(p, x, k, y, q, x', pred);
  }

  /** Replacing key `idx` and child `idx+1` by the successor and by that
      child with the successor removed deletes key `idx` from `node`. */
  lemma {:induction false} SuccStep<V>(node: Node<V>, idx: nat, succ: Key, child: Node<V>)
    requires Shape(node) && !node.leaf && idx < |node.keys| && Sorted(Inorder(node))
    requires M <= |node.children[idx + 1].keys|
    requires Inorder(node.children[idx + 1]) != [] && succ == Inorder(node.children[idx + 1])[0]
    requires Removed(node.children[idx + 1], succ, child)
    ensures Removed(node, node.keys[idx], node.(keys := node.keys[idx := succ], children := node.children[idx + 1 := child]))
  {
    var r := node.(keys := node.keys[idx := succ], children := node.children[idx + 1 := child]);
    assert Shape(child) && M - 1 <= |child.keys| && Height(child) == Height(node.children[idx + 1]);
    SuccOrder(node, idx, succ, child);
    KeyShape(node, idx, succ, idx + 1, child);
    KeyInInorder(node, idx);
    RemovedKey(node, node.keys[idx], r);
  }

  lemma {:induction false} SuccOrder<V>(node: Node<V>, idx: nat, succ: Key, child: Node<V>)
    requires !node.leaf && |node.children| == |node.keys| + 1 && idx < |node.keys| && Sorted(Inorder(node))
    requires Inorder(node.children[idx + 1]) != [] && succ == Inorder(node.children[idx + 1])[0]
    requires Sorted(Inorder(child))
    requires multiset(Inorder(child)) + multiset{succ} == multiset(Inorder(node.children[idx + 1]))
    ensures var r := node.(keys := node.keys[idx := succ], children := node.children[idx + 1 := child]);
      Sorted(Inorder(r)) && multiset(Inorder(r)) + multiset{node.keys[idx]} == multiset(Inorder(node))
  {
    var a, c, k := node.children[idx], node.children[idx + 1], node.keys[idx];
    var r := node.(keys := node.keys[idx := succ], children := node.children[idx + 1 := child]);
    var w, x, x' := Inorder(a), Inorder(c), Inorder(child);
    var p, q := Pre(node, idx), Post(node, idx + 1);
    Around2(node, idx);
    assert r.children == node.children[idx := a][idx + 1 := child];
    SwapInorder(node, idx, a, succ, child, r);
    DrawnFrom(x, x', succ);
    SuccSwapSorted(p, w, k, x, q, x');
    SwapCount(p, x, k, w, q, x', succ);
  }

  /** A new key `idx` and a shaped child `j` of the same height with at
      least `m-1` keys keep the node's shape. */
  lemma {:induction false} KeyShape<V>(node: Node<V>, idx: nat, k: Key, j: nat, child: Node<V>)
    requires Shape(node) && !node.leaf && idx < |node.keys| && j < |node.children|
    requires Shape(child) && M - 1 <= |child.keys| && Height(child) == Height(node.children[j])
    ensures var r := node.(keys := node.keys[idx := k], children := node.children[j := child]);
      Shape(r) && Height(r) == Height(node)
  {
    var n1 := node.(keys := node.keys[idx := k]);
    assert Shape(n1);
    ReplaceShape(n1, j, child);
    assert node.(keys := node.keys[idx := k], children := node.children[j := child]) == n1.(children := n1.children[j := child]);
  }

  /** A sequence that is another with one occurrence of `d` taken out holds
      only keys of the other. */
  lemma {:induction false} DrawnFrom(x: seq<Key>, x': seq<Key>, d: Key)
    requires multiset(x') + multiset{d} == multiset(x)
    ensures forall e :: e in x' ==> e in x
  {
    forall e | e in x' ensures e in x {
      assert e in multiset(x');
      assert e in multiset(x);
    }
  }

  /** Putting the result of `delete` on child `j` back in its place deletes
      from `node` what it deleted from the child. */
  lemma {:induction false} DeleteChildStep<V>(n: Node<V>, j: nat, key: Key, child: Node<V>)
    requires Shape(n) && !n.leaf && j < |n.children| && Sorted(Inorder(n))
    requires M <= |n.children[j].keys| && Removed(n.children[j], key, child)
    ensures var r := n.(children := n.children[j := child]);
      && Shape(r) && Height(r) == Height(n) && Sorted(Inorder(r))
      && (key in Inorder(n.children[j]) ==> multiset(Inorder(r)) + multiset{key} == multiset(Inorder(n)))
      && (key !in Inorder(n.children[j]) ==> Inorder(r) == Inorder(n))
  {
    var x, x' := Inorder(n.children[j]), Inorder(child);
    Separators(n, j);
    if key in x {
      DrawnFrom(x, x', key);
    }
    forall e | e in x'
      ensures (j > 0 ==> !Less(e, n.keys[j - 1])) && (j < |n.keys| ==> !Less(n.keys[j], e))
    {
      assert e in x;
      if j > 0 {
        AtLeastMember(x, n.keys[j - 1], e);
      }
      if j < |n.keys| {
        AtMostMember(x, n.keys[j], e);
      }
    }
    ReplaceSorted(n, j, child);
    ReplaceShape(n, j, child);
    ReplaceChild(n, j, child);
    if key in x {
      MiddleSwapCount(Pre(n, j), x, x', Post(n, j), key);
    }
  }

  /** Go's `delete`: scan the keys while they are below `key`; a key equal
      to `key` is removed here (from a leaf, or through `removeFromNonLeaf`);
      otherwise a leaf is returned unchanged, and an internal node first
      fills the child to enter if it is down to `m-1` keys and then deletes
      from it (from the one before when `fill` merged the last child away). */
  method Delete<V>(node: Node<V>, key: Key) returns (r: Node<V>)
    requires Shape(node) && Sorted(Inorder(node)) && (!node.leaf ==> 1 <= |node.keys|)
    ensures Removed(node, key, r)
    decreases Height(node), 1
  {
    var i := 0;
    while i < |node.keys| && Less(node.keys[i], key)
      invariant 0 <= i <= |node.keys|
      invariant forall j :: 0 <= j < i ==> Less(node.keys[j], key)
    {
      i := i + 1;
    }
    if i < |node.keys| && key == node.keys[i] {
      if node.leaf {
        r := RemoveFromLeaf(node, i);
      } else {
        r := RemoveFromNonLeaf(node, i);
      }
    } else {
      if i < |node.keys| {
        LessTotal(key, node.keys[i]);
      }
      if node.leaf {
        ScanMissing(node.keys, i, key);
        return node;
      }
      var (n, j) := FillFor(node, i, key);
      Separators(n, j);
      var child := Delete(n.children[j], key);
      DescendStep(node, key, n, j, child);
      r := n.(children := n.children[j := child]);
    }
  }

  /** Lines 137-141 of `delete`: when `key` is not among the keys of an
      internal node and child `i` is where it belongs, `fill` that child if
      it holds only `m-1` keys, and pick the child to enter. */
  function FillFor<V>(node: Node<V>, i: nat, key: Key): (r: (Node<V>, nat))
    requires Shape(node) && !node.leaf && 1 <= |node.keys| && i < |node.children| && Sorted(Inorder(node))
    requires forall j :: 0 <= j < i ==> Less(node.keys[j], key)
    requires i == |node.keys| || Less(key, node.keys[i])
    ensures Filled(node, key, r.0, r.1)
  {
    if i > 0 then
      assert Less(node.keys[i - 1], key);
      FillForCase(node, i, key)
    else
      FillForCase(node, i, key)
  }

  function FillForCase<V>(node: Node<V>, i: nat, key: Key): (r: (Node<V>, nat))
    requires Shape(node) && !node.leaf && 1 <= |node.keys| && i < |node.children| && Sorted(Inorder(node))
    requires i == 0 || Less(node.keys[i - 1], key)
    requires i == |node.keys| || Less(key, node.keys[i])
    ensures Filled(node, key, r.0, r.1)
  {
    var flag := i == |node.keys|;
    if |node.children[i].keys| < M then
      var n := Fill(node, i);
      var j := if flag && i > |n.keys| then i - 1 else i;
      FillFilled(node, i, key);
      assert j == FillIndex(node, i, n);
      assert Filled(node, key, n, FillIndex(node, i, n));
      (n, j)
    else
      Descend(node, i, key);
      (node, i)
  }

  lemma {:induction false} FillFilled<V>(node: Node<V>, i: nat, key: Key)
    requires Shape(node) && !node.leaf && 1 <= |node.keys| && i < |node.children| && Sorted(Inorder(node))
    requires |node.children[i].keys| < M
    requires i == 0 || Less(node.keys[i - 1], key)
    requires i == |node.keys| || Less(key, node.keys[i])
    ensures var n := Fill(node, i); Filled(node, key, n, FillIndex(node, i, n))
  {
    var n := Fill(node, i);
    assert Between(node.keys, i, key);
    FillBounds(node, i, key);
    FilledFrom(node, key, n, FillIndex(node, i, n));
  }

  lemma {:induction false} FilledFrom<V>(node: Node<V>, key: Key, n: Node<V>, j: nat)
    requires Shape(n) && !n.leaf && Inorder(n) == Inorder(node) && Height(n) == Height(node) && Sorted(Inorder(node))
    requires n.value == node.value && |node.keys| - 1 <= |n.keys| <= |node.keys|
    requires j < |n.children| && M <= |n.children[j].keys| && Between(n.keys, j, key)
    ensures Filled(node, key, n, j)
  {
    assert |n.children| == |n.keys| + 1;
    Descend(n, j, key);
  }

  /** The node `delete` descends from after `fill`, and the child it enters:
      the same keys, shape and height, a child with a key to spare, and
      `key` in the subtree only if it is in that child. */
  ghost predicate Filled<V>(node: Node<V>, key: Key, n: Node<V>, j: nat)
  {
    && Shape(n) && !n.leaf && Inorder(n) == Inorder(node) && Height(n) == Height(node)
    && n.value == node.value && |node.keys| - 1 <= |n.keys| <= |node.keys|
    && j < |n.children| && M <= |n.children[j].keys|
    && (key in Inorder(n) <==> key in Inorder(n.children[j]))
  }

  /** Deleting from the child `delete` entered deletes from the node. */
  lemma {:induction false} DescendStep<V>(node: Node<V>, key: Key, n: Node<V>, j: nat, child: Node<V>)
    requires Sorted(Inorder(node)) && !node.leaf && Filled(node, key, n, j)
    requires Removed(n.children[j], key, child)
    ensures Removed(node, key, n.(children := n.children[j := child]))
  {
    DeleteChildStep(n, j, key, child);
  }

  /** Go's `removeFromNonLeaf`: key `idx` of an internal node is replaced by
      its predecessor when child `idx` has a key to spare, else by its
      successor when child `idx+1` has one, and that key is deleted from the
      child; otherwise the two children are merged around the key and the
      key is deleted from the merged child. */
  method RemoveFromNonLeaf<V>(node: Node<V>, idx: nat) returns (r: Node<V>)
    requires Shape(node) && !node.leaf && idx < |node.keys| && Sorted(Inorder(node))
    ensures Removed(node, node.keys[idx], r)
    decreases Height(node), 0
  {
    var key := node.keys[idx];
    if |node.children[idx].keys| >= M {
      var pred := GetPred(node, idx);
      Separators(node, idx);
      var child := Delete(node.children[idx], pred);
      PredStep(node, idx, pred, child);
      r := node.(keys := node.keys[idx := pred], children := node.children[idx := child]);
    } else if |node.children[idx + 1].keys| >= M {
      var succ := GetSucc(node, idx);
      Separators(node, idx + 1);
      var child := Delete(node.children[idx + 1], succ);
      SuccStep(node, idx, succ, child);
      r := node.(keys := node.keys[idx := succ], children := node.children[idx + 1 := child]);
    } else {
      var n := Merge(node, idx);
      Separators(n, idx);
      var child := Delete(n.children[idx], key);
      DeleteChildStep(n, idx, key, child);
      KeyInInorder(node, idx);
      r := n.(children := n.children[idx := child]);
    }
  }

  // ---------------------------------------------------------------------
  // traverseRange

  /** Go's `traverseRange` as written: it reads `Children[i]` of every node
      it visits, leaves included, so it fails (`ok` is false, standing for
      Go's index-out-of-range panic) on every shaped tree, even an empty
      one; after the `break` it would also visit child `i` a second time. */
  method TraverseRangeAsWritten<V>(node: Node<V>, lo: Key, hi: Key, acc: seq<Key>) returns (res: seq<Key>, ok: bool)
    ensures Shape(node) ==> !ok
    decreases node
  {
    var i := 0;
    while i < |node.keys| && Less(node.keys[i], lo)
      invariant 0 <= i <= |node.keys|
    {
      i := i + 1;
    }
    res := acc;
    while i < |node.keys|
      invariant 0 <= i <= |node.keys|
    {
      if i >= |node.children| {
        return res, false;
      }
      var sub, subOk := TraverseRangeAsWritten(node.children[i], lo, hi, res);
      if !subOk {
        return sub, false;
      }
      res := sub;
      if InRange(node.keys[i], lo, hi) {
        res := res + [node.keys[i]];
      }
      if Less(hi, node.keys[i]) {
        break;
      }
      i := i + 1;
    }
    if i >= |node.children| {
      return res, false;
    }
    res, ok := TraverseRangeAsWritten(node.children[i], lo, hi, res);
  }

  /** The keys before child (or key) `i`, and those from it on. */
  ghost function Upto<V>(n: Node<V>, i: nat): seq<Key>
    requires i <= |n.keys| && (n.leaf || |n.children| == |n.keys| + 1)
  {
    if n.leaf then n.keys[..i] else Pre(n, i)
  }

  ghost function From<V>(n: Node<V>, i: nat): seq<Key>
    requires i <= |n.keys| && (n.leaf || |n.children| == |n.keys| + 1)
  {
    if n.leaf then n.keys[i..] else Inorder(n.children[i]) + Post(n, i)
  }

  /** The keys of child `i`, none for a leaf. */
  ghost function Sub<V>(n: Node<V>, i: nat): seq<Key>
    requires i <= |n.keys| && (n.leaf || |n.children| == |n.keys| + 1)
  {
    if n.leaf then [] else Inorder(n.children[i])
  }

  lemma {:induction false} ScanSplit<V>(n: Node<V>, i: nat)
    requires i <= |n.keys| && (n.leaf || |n.children| == |n.keys| + 1)
    ensures Inorder(n) == Upto(n, i) + From(n, i)
    ensures i == |n.keys| ==> From(n, i) == Sub(n, i)
  {
    if n.leaf {
      assert n.keys == n.keys[..i] + n.keys[i..];
    } else {
      InorderAt(n, i);
    }
  }

  lemma {:induction false} ScanStep<V>(n: Node<V>, i: nat)
    requires i < |n.keys| && (n.leaf || |n.children| == |n.keys| + 1)
    ensures Upto(n, i + 1) == Upto(n, i) + Sub(n, i) + [n.keys[i]]
    ensures From(n, i) == Sub(n, i) + [n.keys[i]] + From(n, i + 1)
  {
    if n.leaf {
      assert n.keys[..i + 1] == n.keys[..i] + [n.keys[i]];
      assert n.keys[i..] == [n.keys[i]] + n.keys[i + 1..];
    } else {
      InorderAt(n, i);
      InorderAt(n, i + 1);
      var a, k, b, p := Inorder(n.children[i]), [n.keys[i]], Inorder(n.children[i + 1]), Post(n, i + 1);
      assert Post(n, i) == k + b + p;
      assert From(n, i) == a + (k + b + p) && From(n, i + 1) == b + p;
      Regroup(a, k, b, p);
      Regroup(a + k, b, p, []);
    }
  }

  /** Keys before position `i` of a sorted node whose first `i` keys are
      below `lo` are all below `lo`. */
  lemma {:induction false} SkipBelow<V>(n: Node<V>, i: nat, lo: Key, hi: Key)
    requires i <= |n.keys| && (n.leaf || |n.children| == |n.keys| + 1) && Sorted(Inorder(n))
    requires forall j :: 0 <= j < i ==> Less(n.keys[j], lo)
    ensures Filter(Upto(n, i), lo, hi) == []
  {
    var u := Upto(n, i);
    if i > 0 {
      var k := n.keys[i - 1];
      assert AllAtMost(u, k) by {
        if n.leaf {
          forall j | 0 <= j < |u| ensures !Less(k, u[j]) {
            assert u[j] == n.keys[j];
            if j < i - 1 {
              assert !Less(n.keys[i - 1], n.keys[j]);
            } else {
              LessIrreflexive(k);
            }
          }
        } else {
          Separators(n, i);
        }
      }
      forall j | 0 <= j < |u| ensures !InRange(u[j], lo, hi) {
        NotLessLess(u[j], k, lo);
      }
    }
    FilterEmpty(u, lo, hi);
  }

  /** Keys after key `i` of a sorted node are all above `hi` once key `i` is. */
  lemma {:induction false} SkipAbove<V>(n: Node<V>, i: nat, lo: Key, hi: Key)
    requires i < |n.keys| && (n.leaf || |n.children| == |n.keys| + 1) && Sorted(Inorder(n))
    requires Less(hi, n.keys[i])
    ensures Filter(Inorder(n), lo, hi) == Filter(Upto(n, i + 1), lo, hi)
  {
    var k, u, f := n.keys[i], Upto(n, i + 1), From(n, i + 1);
    ScanSplit(n, i + 1);
    ScanStep(n, i);
    assert Inorder(n) == Upto(n, i) + Sub(n, i) + [k] + f;
    SortedSplit(Upto(n, i) + Sub(n, i), k, f);
    FilterAbove(f, k, lo, hi);
    FilterConcat(u, f, lo, hi);
    assert Filter(u, lo, hi) + [] == Filter(u, lo, hi);
  }

  /** The keys in range up to key `i` grow by those of child `i` and by key `i`. */
  lemma {:induction false} FilterStep<V>(n: Node<V>, i: nat, lo: Key, hi: Key)
    requires i < |n.keys| && (n.leaf || |n.children| == |n.keys| + 1)
    ensures Filter(Upto(n, i + 1), lo, hi) ==
      Filter(Upto(n, i), lo, hi) + Filter(Sub(n, i), lo, hi) + (if InRange(n.keys[i], lo, hi) then [n.keys[i]] else [])
    ensures n.leaf ==> Filter(Sub(n, i), lo, hi) == []
  {
    ScanStep(n, i);
    FilterConcat(Upto(n, i), Sub(n, i), lo, hi);
    FilterConcat(Upto(n, i) + Sub(n, i), [n.keys[i]], lo, hi);
    assert [n.keys[i]][1..] == [];
  }

  /** After the last key only the last child remains. */
  lemma {:induction false} FilterLast<V>(n: Node<V>, lo: Key, hi: Key, i: nat)
    requires i == |n.keys| && (n.leaf || |n.children| == |n.keys| + 1)
    ensures Filter(Inorder(n), lo, hi) == Filter(Upto(n, i), lo, hi) + Filter(Sub(n, i), lo, hi)
    ensures n.leaf ==> Filter(Sub(n, i), lo, hi) == []
  {
    ScanSplit(n, i);
    FilterConcat(Upto(n, i), Sub(n, i), lo, hi);
  }

  /** `traverseRange` as evidently intended: children are visited only in
      internal nodes, and not again after the scan stops at a key above
      `hi`. It appends the keys of the subtree in `[lo, hi]`, in order. */
  method TraverseRange<V>(node: Node<V>, lo: Key, hi: Key, acc: seq<Key>) returns (res: seq<Key>)
    requires Shape(node) && Sorted(Inorder(node))
    ensures res == acc + Filter(Inorder(node), lo, hi)
    decreases node, 1
  {
    var i := 0;
    while i < |node.keys| && Less(node.keys[i], lo)
      invariant 0 <= i <= |node.keys|
      invariant forall j :: 0 <= j < i ==> Less(node.keys[j], lo)
    {
      i := i + 1;
    }
    SkipBelow(node, i, lo, hi);
    res := CollectRange(node, i, lo, hi, acc);
  }

  /** The second loop of `traverseRange`, from position `i` on, where no key
      before `i` is in range. */
  method CollectRange<V>(node: Node<V>, i0: nat, lo: Key, hi: Key, acc: seq<Key>) returns (res: seq<Key>)
    requires Shape(node) && Sorted(Inorder(node)) && i0 <= |node.keys|
    requires Filter(Upto(node, i0), lo, hi) == []
    ensures res == acc + Filter(Inorder(node), lo, hi)
    decreases node, 0
  {
    var i := i0;
    res := acc;
    var stopped := false;
    assert node.leaf || |node.children| == |node.keys| + 1;
    while i < |node.keys|
      invariant i0 <= i <= |node.keys| && !stopped
      invariant node.leaf || |node.children| == |node.keys| + 1
      invariant res == acc + Filter(Upto(node, i), lo, hi)
    {
      ghost var fu, fs := Filter(Upto(node, i), lo, hi), Filter(Sub(node, i), lo, hi);
      ghost var fk := if InRange(node.keys[i], lo, hi) then [node.keys[i]] else [];
      FilterStep(node, i, lo, hi);
      if !node.leaf {
        Separators(node, i);
        res := TraverseRange(node.children[i], lo, hi, res);
      }
      assert res == acc + fu + fs;
      if InRange(node.keys[i], lo, hi) {
        res := res + [node.keys[i]];
      }
      assert res == acc + fu + fs + fk;
      Regroup(acc, fu, fs, fk);
      assert res == acc + Filter(Upto(node, i + 1), lo, hi);
      if Less(hi, node.keys[i]) {
        SkipAbove(node, i, lo, hi);
        stopped := true;
        break;
      }
      i := i + 1;
    }
    if !stopped {
      ghost var fu, fs := Filter(Upto(node, i), lo, hi), Filter(Sub(node, i), lo, hi);
      FilterLast(node, lo, hi, i);
      if !node.leaf {
        Separators(node, i);
        res := TraverseRange(node.children[i], lo, hi, res);
      }
      assert res == acc + fu + fs;
      Regroup(acc, fu, fs, []);
    }
  }

  // ---------------------------------------------------------------------
  // The BTree object

  /** A node without keys and with one child has that child's keys. */
  lemma {:induction false} OnlyChild<V>(c: Node<V>, v: Option<V>)
    ensures Inorder(Node([], [c], false, v)) == Inorder(c)
  {
    assert SubsOf([c]) == [Inorder(c)] by {
      assert [c][1..] == [];
    }
  }

  /** The `BTree` object: a root pointer that `Insert` and `Remove` move. */
  class BTree<V> {
    var root: Node<V>

    ghost predicate Valid()
      reads this
    {
      WellFormed(root)
    }

    /** Go's `NewBTree`: an empty leaf without a value. */
    constructor ()
      ensures Valid() && Inorder(root) == [] && root.leaf && root.value == None
    {
      root := NewNode(true, None);
    }

    /** Go's `Insert`: a full root is first split under a fresh root without
        a value; duplicates are not rejected and no error is returned. */
    method Insert(key: Key, value: V) returns (err: Option<Error>)
      requires Valid()
      modifies this
      ensures Valid() && err == None
      ensures multiset(Inorder(root)) == multiset(Inorder(old(root))) + multiset{key}
      ensures Height(root) == Height(old(root)) + (if |old(root).keys| == MaxKeys then 1 else 0)
      ensures |old(root).keys| == MaxKeys ==> |root.keys| == 1 && |root.children| == 2 && root.value == None
      ensures key !in Inorder(old(root)) ==> Reaches(root, key, value)
    {
      if |root.keys| == MaxKeys {
        var newRoot := Node([], [root], false, None);
        OnlyChild(root, None);
        var split := SplitChild(newRoot, 0);
        SplitChildFacts(newRoot, 0);
        root := InsertNonFull(split, key, value);
      } else {
        root := InsertNonFull(root, key, value);
      }
      err := None;
    }

    /** Go's `Get`: the value of the node `search` stops at (that node's one
        value, possibly nil), or "key not found". */
    method Get(key: Key) returns (r: Result<Option<V>>)
      requires Valid()
      ensures r.Ok? <==> key in Inorder(root)
      ensures r.Err? ==> r.error == NotFound
      ensures r.Ok? ==> (FindPath(root, key).Some? &&
        var n := At(root, FindPath(root, key).value);
        n.Some? && key in n.value.keys && r.value == n.value.value)
    {
      var p := Search(root, key);
      FindPathCorrect(root, key);
      if p.None? {
        return Err(NotFound);
      }
      var n := At(root, p.value);
      r := Ok(n.value.value);
    }

    /** Go's `GetRange` with the corrected `traverseRange`: the keys in
        `[lo, hi]`, in order. */
    method GetRange(lo: Key, hi: Key) returns (r: seq<Key>)
      requires Valid()
      ensures r == Filter(Inorder(root), lo, hi) && Sorted(r)
      ensures forall k :: k in r <==> k in Inorder(root) && InRange(k, lo, hi)
    {
      r := TraverseRange(root, lo, hi, []);
      FilterSorted(Inorder(root), lo, hi);
      FilterMembers(Inorder(root), lo, hi);
    }

    /** Go's `Update`: the node `search` stops at gets the value; "key not
        found" otherwise. The keys do not change. */
    method Update(key: Key, value: V) returns (err: Option<Error>)
      requires Valid()
      modifies this
      ensures Valid() && Inorder(root) == Inorder(old(root))
      ensures err.Some? <==> key !in Inorder(old(root))
      ensures err.Some? ==> err == Some(NotFound) && root == old(root)
      ensures err.None? ==> (FindPath(root, key) == FindPath(old(root), key) && FindPath(root, key).Some? &&
        At(old(root), FindPath(root, key).value).Some? &&
        At(root, FindPath(root, key).value) == Some(At(old(root), FindPath(root, key).value).value.(value := Some(value))))
      ensures err.None? ==> FindPath(old(root), key).Some? && root == SetValueAt(old(root), FindPath(old(root), key).value, Some(value))
    {
      var p := Search(root, key);
      FindPathCorrect(root, key);
      if p.None? {
        return Some(NotFound);
      }
      SetValueKeeps(root, p.value, Some(value));
      SetValueFind(root, p.value, Some(value), key);
      SetValueThere(root, p.value, Some(value));
      root := SetValueAt(root, p.value, Some(value));
      err := None;
    }

    /** Go's `Remove`: `delete` from the root, then drop a root left without
        keys in favour of its only child. No error is returned, also for a
        missing key. */
    method Remove(key: Key) returns (err: Option<Error>)
      requires Valid()
      modifies this
      ensures Valid() && err == None
      ensures key in Inorder(old(root)) ==> multiset(Inorder(root)) + multiset{key} == multiset(Inorder(old(root)))
      ensures key !in Inorder(old(root)) ==> Inorder(root) == Inorder(old(root))
    {
      var r := Delete(root, key);
      if |r.keys| == 0 && |r.children| == 1 {
        OnlyChild(r.children[0], r.value);
        r := r.children[0];
      }
      root := r;
      err := None;
    }
  }
}
