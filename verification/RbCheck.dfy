/** What the self-check of a red-black tree decides, and what it does not look at. */
module RbCheck {
  import opened Elements
  import opened RbShape
  import opened RbHeap
  import opened RbTree

  function Leftmost(t: Tree): Elem
    requires t.Bin?
  {
    if t.left.Leaf? then t.data else Leftmost(t.left)
  }

  function Rightmost(t: Tree): Elem
    requires t.Bin?
  {
    if t.right.Leaf? then t.data else Rightmost(t.right)
  }

  /** Every node is in order with what hangs on the inner sides of its children. */
  predicate InnerOrder(less: Less, t: Tree) {
    t.Leaf? ||
    (&& InnerOrder(less, t.left) && InnerOrder(less, t.right)
     && (t.left.Bin? && t.left.right.Bin? ==> less(Rightmost(t.left.right), t.data))
     && (t.right.Bin? && t.right.left.Bin? ==> less(t.data, Leftmost(t.right.left))))
  }

  lemma {:induction false} Ends(t: Tree)
    requires t.Bin?
    ensures Data(t) != [] && Data(t)[0] == Leftmost(t) && Data(t)[|Data(t)| - 1] == Rightmost(t)
  {
    if t.left.Bin? { Ends(t.left); }
    if t.right.Bin? { Ends(t.right); }
  }

  /** The last element on the left precedes the node, and the node precedes the first one on the right. */
  predicate Between(less: Less, t: Tree)
    requires t.Bin?
  {
    && (t.left.Bin? ==> less(Rightmost(t.left), t.data))
    && (t.right.Bin? ==> less(t.data, Leftmost(t.right)))
  }

  /** The local order test looks at the children only, and misses exactly what hangs on their inner sides. */
  lemma {:induction false} CheckDecidesOrder(less: Less, t: Tree)
    requires StrictWeakOrder(less)
    ensures Sorted(less, Data(t)) <==> LocalOrder(less, t) && InnerOrder(less, t)
  {
    if t.Bin? {
      CheckDecidesOrder(less, t.left);
      CheckDecidesOrder(less, t.right);
      SortedParts(less, t);
      if Sorted(less, Data(t)) {
        SortedIsLocal(less, t);
        ChildBeforeParent(less, t);
      }
    }
  }

  /** A sorted tree: sorted on both sides, and the neighbours of the node in order with it. */
  lemma SortedParts(less: Less, t: Tree)
    requires StrictWeakOrder(less) && t.Bin?
    ensures Sorted(less, Data(t)) <==> Sorted(less, Data(t.left)) && Sorted(less, Data(t.right)) && Between(less, t)
  {
    hide Sorted;
    var l, r, s := Data(t.left), Data(t.right), Data(t);
    assert s == l + [t.data] + r;
    if t.left.Bin? { Ends(t.left); }
    if t.right.Bin? { Ends(t.right); }
    if Sorted(less, s) {
      SplitSorted(less, l, t.data, r);
    } else if Sorted(less, l) && Sorted(less, r) && Between(less, t) {
      JoinedSorted(less, l, t.data, r);
    }
  }

  lemma SplitSorted(less: Less, l: seq<Elem>, x: Elem, r: seq<Elem>)
    requires Sorted(less, l + [x] + r)
    ensures Sorted(less, l) && Sorted(less, r)
    ensures (l != [] ==> less(l[|l| - 1], x)) && (r != [] ==> less(x, r[0]))
  {
    var s := l + [x] + r;
    assert forall i :: 0 <= i < |l| ==> l[i] == s[i];
    assert forall i :: 0 <= i < |r| ==> r[i] == s[|l| + 1 + i];
    assert s[|l|] == x;
  }

  lemma JoinedSorted(less: Less, l: seq<Elem>, x: Elem, r: seq<Elem>)
    requires StrictWeakOrder(less) && Sorted(less, l) && Sorted(less, r)
    requires (l != [] ==> less(l[|l| - 1], x)) && (r != [] ==> less(x, r[0]))
    ensures Sorted(less, l + [x] + r)
  {
    forall i | 0 <= i < |l| ensures less(l[i], x) {
      assert OrderedTriple(less, l[i], l[|l| - 1], x);
    }
    forall i | 0 <= i < |r| ensures less(x, r[i]) {
      assert OrderedTriple(less, x, r[0], r[i]);
    }
    var s := l + [x] + r;
    forall i, j | 0 <= i < j < |s| ensures less(s[i], s[j]) {
      if i < |l| < j {
        assert OrderedTriple(less, s[i], x, s[j]);
      }
    }
  }

  /** The end of a child is the child itself or hangs on its inner side. */
  lemma ChildBeforeParent(less: Less, t: Tree)
    requires t.Bin? && Between(less, t)
    ensures t.left.Bin? && t.left.right.Bin? ==> less(Rightmost(t.left.right), t.data)
    ensures t.right.Bin? && t.right.left.Bin? ==> less(t.data, Leftmost(t.right.left))
  {
  }

  /** A tree, in the heap, that passes the self-check although its contents are not sorted. */
  method PassesUnsorted(less: Less, a: Elem, b: Elem, d: Elem) returns (rbt: RbTree, ok: bool)
    requires StrictWeakOrder(less) && less(a, b) && less(b, d)
    ensures rbt.less == less && rbt.At(rbt.tree, Root) && Data(rbt.tree) == [a, d, b, d]
    ensures ok && !Sorted(less, Data(rbt.tree))
  {
    hide Sorted, StrictWeakOrder, Holds, RedBlack, LocalOrder, Data;
    var n0, n1, n2, n3 := FourNodes(a, b, d);
    rbt := new RbTree(less);
    rbt.root, rbt.size, rbt.nodes, rbt.tree := n0, 4, {n0, n1, n2, n3}, Four(a, b, d, n0, n1, n2, n3);
    Unsorted(less, a, b, d, n0, n1, n2, n3);
    FourHeld(Snapshot(rbt.nodes), a, b, d, n0, n1, n2, n3);
    ok := rbt.IsValid();
  }

  method FourNodes(a: Elem, b: Elem, d: Elem) returns (n0: Node, n1: Node, n2: Node, n3: Node)
    ensures n0 != n1 && n0 != n2 && n0 != n3 && n1 != n2 && n1 != n3 && n2 != n3
    ensures n0.left == n1 && n0.right == n3 && n0.parent == null && n0.color == Black && n0.data == b
    ensures n1.left == null && n1.right == n2 && n1.parent == n0 && n1.color == Black && n1.data == a
    ensures n2.left == null && n2.right == null && n2.parent == n1 && n2.color == Red && n2.data == d
    ensures n3.left == null && n3.right == null && n3.parent == n0 && n3.color == Black && n3.data == d
  {
    n0 := new Node(b);
    n1 := new Node(a);
    n2 := new Node(d);
    n3 := new Node(d);
    n0.color, n1.color, n3.color := Black, Black, Black;
    n0.left, n0.right, n1.right := n1, n3, n2;
    n1.parent, n3.parent, n2.parent := n0, n0, n1;
  }

  /** Below the root `b`, `a` on the left with `d` on its inner side, and `d` on the right. */
  function Four(a: Elem, b: Elem, d: Elem, n0: Node, n1: Node, n2: Node, n3: Node): Tree {
    Bin(Bin(Leaf, Black, n1, a, Bin(Leaf, Red, n2, d, Leaf)), Black, n0, b, Bin(Leaf, Black, n3, d, Leaf))
  }

  lemma FourHeld(h: Heap, a: Elem, b: Elem, d: Elem, n0: Node, n1: Node, n2: Node, n3: Node)
    requires n0 != n1 && n0 != n2 && n0 != n3 && n1 != n2 && n1 != n3 && n2 != n3
    requires h.Keys == {n0, n1, n2, n3}
    requires h[n0] == Cell(n1, n3, null, Black, b) && h[n1] == Cell(null, n2, n0, Black, a)
    requires h[n2] == Cell(null, null, n1, Red, d) && h[n3] == Cell(null, null, n0, Black, d)
    ensures Holds(h, {n0, n1, n2, n3}, n0, Four(a, b, d, n0, n1, n2, n3), Root)
  {
    var low := Bin(Leaf, Red, n2, d, Leaf);
    var left, right := Bin(Leaf, Black, n1, a, low), Bin(Leaf, Black, n3, d, Leaf);
    assert Members(low) == {n2} && Members(right) == {n3} && Members(left) == {n1, n2};
    assert Distinct(low) && Distinct(left) && Distinct(right);
    assert Links(h, low, n1) && Links(h, left, n0) && Links(h, right, n0);
  }

  lemma Unsorted(less: Less, a: Elem, b: Elem, d: Elem, n0: Node, n1: Node, n2: Node, n3: Node)
    requires StrictWeakOrder(less) && less(a, b) && less(b, d)
    ensures var t := Four(a, b, d, n0, n1, n2, n3);
            && Data(t) == [a, d, b, d] && RedBlack(t) && LocalOrder(less, t) && !Sorted(less, Data(t))
  {
    var low, right := Bin(Leaf, Red, n2, d, Leaf), Bin(Leaf, Black, n3, d, Leaf);
    var left := Bin(Leaf, Black, n1, a, low);
    var t := Bin(left, Black, n0, b, right);
    assert OrderedTriple(less, a, b, d) && OrderedTriple(less, b, d, b);
    assert Data(low) == [d] && Data(right) == [d] && Data(left) == [a, d];
    Colours(n0, n1, n2, n3, a, b, d);
    LocalNode(less, Leaf, Red, n2, d, Leaf);
    LocalNode(less, Leaf, Black, n3, d, Leaf);
    LocalNode(less, Leaf, Black, n1, a, low);
    LocalNode(less, left, Black, n0, b, right);
    var s := [a, d, b, d];
    assert Data(t) == s && !less(s[1], s[2]);
  }

  lemma LocalNode(less: Less, l: Tree, k: Color, n: Node, x: Elem, r: Tree)
    requires LocalOrder(less, l) && LocalOrder(less, r)
    requires (l.Bin? ==> less(l.data, x)) && (r.Bin? ==> less(x, r.data))
    ensures LocalOrder(less, Bin(l, k, n, x, r))
  {
  }

  lemma Colours(n0: Node, n1: Node, n2: Node, n3: Node, a: Elem, b: Elem, d: Elem)
    ensures RedBlack(Four(a, b, d, n0, n1, n2, n3))
  {
    var low, right := Bin(Leaf, Red, n2, d, Leaf), Bin(Leaf, Black, n3, d, Leaf);
    var left := Bin(Leaf, Black, n1, a, low);
    var t := Bin(left, Black, n0, b, right);
    BlackOver(Leaf, n3, d, Leaf, 0);
    BlackOver(Leaf, n1, a, low, 0);
    BlackOver(left, n0, b, right, 1);
    BalancedHeight(t, 2);
  }

  lemma BlackOver(l: Tree, n: Node, x: Elem, r: Tree, h: int)
    requires Balanced(l, h) && Balanced(r, h) && NoRedRed(l) && NoRedRed(r)
    ensures Balanced(Bin(l, Black, n, x, r), h + 1) && NoRedRed(Bin(l, Black, n, x, r))
  {
  }
}
