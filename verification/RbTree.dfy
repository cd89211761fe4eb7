/** The red-black tree over heap nodes with parent pointers. */
module RbTree {
  import opened Basics
  import opened Elements
  import opened RbShape
  import opened RbHeap
  import opened RbFixup
  import opened RbSearch
  import opened SortedSpec

  class RbTree {
    const less: Less
    var root: Node?          // the guard's parent link; the guard itself is written as null
    var size: nat
    ghost var nodes: set<Node>
    ghost var tree: Tree

    /** The heap holds `t` at the focus and `c` around it. */
    ghost predicate At(t: Tree, c: Ctx)
      reads this, nodes
    {
      Holds(Snapshot(nodes), nodes, root, t, c)
    }

    ghost predicate Valid()
      reads this, nodes
    {
      && At(tree, Root) && RedBlack(tree)
      && StrictWeakOrder(less) && Sorted(less, Data(tree))
      && size == |Data(tree)|
    }

    lemma Up(t: Tree, c: Ctx)
      requires !c.Root?
      ensures At(t, c) <==> At(Fill(c, t), c.up)
    {
      Refocus(Snapshot(nodes), nodes, root, t, c);
    }

    lemma Whole(t: Tree, c: Ctx)
      ensures At(t, c) <==> At(Plug(c, t), Root)
    {
      RefocusRoot(Snapshot(nodes), nodes, root, t, c);
    }

    /** What the fields of the focused node and of the root say. */
    lemma Fields(t: Tree, c: Ctx)
      requires At(t, c)
      ensures t.Bin? ==>
                && t.node in nodes && t.node.left == Ptr(t.left) && t.node.right == Ptr(t.right)
                && t.node.parent == Above(c) && t.node.color == t.color && t.node.data == t.data
      ensures !c.Root? ==>
                && c.node in nodes && c.node.parent == Above(c.up) && c.node.color == c.color && c.node.data == c.data
                && c.node.left == (if c.InLeft? then Ptr(t) else Ptr(c.sib))
                && c.node.right == (if c.InLeft? then Ptr(c.sib) else Ptr(t))
                && (t.Bin? ==> Ptr(c.sib) != Ptr(t))
      ensures root == Ptr(t) <==> c.Root? || (root == null && t.Leaf?)
      ensures !c.Root? ==> root != null && root != Ptr(t)
    {
      RootPointer(Snapshot(nodes), c, Ptr(t), root);
      assert t.Bin? ==> t.node in Members(t);
      if !c.Root? {
        assert c.sib.Bin? ==> c.sib.node in Members(c.sib);
        assert Members(c.sib) <= MembersCtx(c);
      }
    }

    constructor (less: Less)
      requires StrictWeakOrder(less)
      ensures Valid() && fresh(nodes) && this.less == less && Data(tree) == []
    {
      this.less, root, size, nodes, tree := less, null, 0, {}, Leaf;
    }

    // ---- the primitive updates ----

    method SetColor(n: Node?, k: Color, ghost t: Tree, ghost c: Ctx)
      requires At(t, c) && n == Ptr(t)
      modifies nodes`color
      ensures At(Recolor(t, k), c)
    {
      if n != null {
        ghost var h := Snapshot(nodes);
        n.color := k;
        assert Snapshot(nodes) == h[n := h[n].(color := k)];
        RecolorHolds(h, Snapshot(nodes), nodes, root, t, c, k);
      }
    }

    method LeftRotate(x: Node, ghost t: Tree, ghost c: Ctx)
      requires At(t, c) && t.Bin? && t.right.Bin? && x == t.node
      modifies this`root, nodes`left, nodes`right, nodes`parent
      ensures At(RotatedLeft(t), c)
    {
      hide Holds;
      ghost var h := Snapshot(nodes);
      RotationApart(t.right, t, c, true);
      var y: Node := x.right;
      x.right := y.left;
      if y.left != null {
        y.left.parent := x;
      }
      y.parent := x.parent;
      if x.parent == null {
        root := y;
      } else if x == x.parent.left {
        x.parent.left := y;
      } else if x == x.parent.right {
        x.parent.right := y;
      }
      y.left := x;
      x.parent := y;
      ghost var g := Snapshot(nodes);
      assert g[x] == h[x].(right := Ptr(t.right.left), parent := y);
      assert g[y] == h[y].(left := x, parent := h[x].parent);
      assert Around(h, g, x, y, t.right.left, c);
      LeftRotationHolds(h, g, nodes, old(root), t, c);
    }

    method RightRotate(x: Node, ghost t: Tree, ghost c: Ctx)
      requires At(t, c) && t.Bin? && t.left.Bin? && x == t.node
      modifies this`root, nodes`left, nodes`right, nodes`parent
      ensures At(RotatedRight(t), c)
    {
      hide Holds;
      ghost var h := Snapshot(nodes);
      RotationApart(t.left, t, c, false);
      var y: Node := x.left;
      x.left := y.right;
      if y.right != null {
        y.right.parent := x;
      }
      y.parent := x.parent;
      if x.parent == null {
        root := y;
      } else if x == x.parent.left {
        x.parent.left := y;
      } else if x == x.parent.right {
        x.parent.right := y;
      }
      y.right := x;
      x.parent := y;
      ghost var g := Snapshot(nodes);
      assert g[x] == h[x].(left := Ptr(t.left.right), parent := y);
      assert g[y] == h[y].(right := x, parent := h[x].parent);
      assert Around(h, g, x, y, t.left.right, c);
      RightRotationHolds(h, g, nodes, old(root), t, c);
    }

    /** The nodes a rotation writes are different nodes. */
    lemma RotationApart(s: Tree, t: Tree, c: Ctx, onRight: bool)
      requires At(t, c) && t.Bin? && s.Bin? && s == (if onRight then t.right else t.left)
      ensures var b := if onRight then s.left else s.right;
              && t.node in nodes && s.node in nodes && t.node != s.node
              && t.node.parent == Above(c)
              && (if onRight then t.node.right else t.node.left) == s.node
              && (if onRight then s.node.left else s.node.right) == Ptr(b)
              && (b.Bin? ==> b.node in nodes && b.node != t.node && b.node != s.node && b.node != Above(c))
              && (!c.Root? ==> && c.node in nodes && c.node != t.node && c.node != s.node
                               && (c.node.left == t.node <==> c.InLeft?)
                               && (c.node.right == t.node <==> c.InRight?))
    {
      var b := if onRight then s.left else s.right;
      Fields(t, c);
      var f := if onRight then InRight(c, t.color, t.node, t.data, t.left)
               else InLeft(c, t.color, t.node, t.data, t.right);
      Up(s, f);
      Fields(s, f);
      assert s.node in Members(s) && (b.Bin? ==> b.node in Members(b));
      assert Distinct(s) && Members(b) <= Members(s) <= Members(t);
      assert b.Bin? ==> b.node in Members(s);
      assert !c.Root? ==> c.node in MembersCtx(c);
    }

    // ---- searching ----

    /** The node whose element is equivalent to `val`, or null and the node an insertion would hang it from. */
    method FindVal(val: Elem) returns (node: Node?, parent: Node?, ghost t: Tree, ghost c: Ctx)
      requires Valid()
      ensures node == Ptr(t) && parent == Above(c)
      ensures At(t, c) && Plug(c, t) == tree
      ensures AllBelow(less, Before(c), val) && AllAbove(less, val, After(c))
      ensures t.Bin? ==> node in nodes && node.data == t.data && Equiv(less, t.data, val)
      ensures node != null <==> Present(less, Data(tree), val)
      ensures node != null ==> Lookup(less, Data(tree), val) == Some(node.data)
      ensures var visited := Depth(c) + if node != null then 1 else 0;
              Pow2(visited) <= (size + 1) * (size + 1)
    {
      hide Holds, RedBlack, Sorted, Present, Lookup, Pow2, Data, Nodes;
      node, parent, t, c := root, null, tree, Root;
      Fields(t, c);
      while node != null
        invariant node == Ptr(t) && parent == Above(c)
        invariant At(t, c) && Plug(c, t) == tree
        invariant AllBelow(less, Before(c), val) && AllAbove(less, val, After(c))
        decreases t
      {
        Fields(t, c);
        ghost var n := t;
        if less(val, node.data) {
          DescendLeft(t, c, val);
          t, c := n.left, InLeft(c, n.color, n.node, n.data, n.right);
          parent := node;
          node := node.left;
          Up(t, c);
        } else if less(node.data, val) {
          DescendRight(t, c, val);
          t, c := n.right, InRight(c, n.color, n.node, n.data, n.left);
          parent := node;
          node := node.right;
          Up(t, c);
        } else {
          break;
        }
      }
      Fields(t, c);
      SearchEnds(t, c, val);
      SearchIsShort(t, c);
    }

    /** The nodes a search visits number at most 2*log2(size + 1). */
    lemma SearchIsShort(t: Tree, c: Ctx)
      requires Valid() && Plug(c, t) == tree
      ensures var visited := Depth(c) + if t.Bin? then 1 else 0;
              Pow2(visited) <= (size + 1) * (size + 1)
    {
      PathIsShort(t, c);
      SameLength(tree);
    }

    /** In a sorted tree a comparison with the focused element rules out one side. */
    lemma DescendLeft(t: Tree, c: Ctx, val: Elem)
      requires Valid() && t.Bin? && Plug(c, t) == tree
      requires AllAbove(less, val, After(c)) && less(val, t.data)
      ensures AllAbove(less, val, After(InLeft(c, t.color, t.node, t.data, t.right)))
    {
      PlugContents(c, t);
      var k, s, a := |Before(c)| + |Data(t.left)|, Data(tree), [t.data] + Data(t.right);
      assert s[k] == t.data;
      forall i | 0 <= i < |a| ensures less(val, a[i]) {
        assert a[i] == s[k + i];
        if i > 0 { assert less(s[k], s[k + i]) && OrderedTriple(less, val, s[k], s[k + i]); }
      }
      assert AllAbove(less, val, a);
    }

    lemma DescendRight(t: Tree, c: Ctx, val: Elem)
      requires Valid() && t.Bin? && Plug(c, t) == tree
      requires AllBelow(less, Before(c), val) && less(t.data, val)
      ensures AllBelow(less, Before(InRight(c, t.color, t.node, t.data, t.left)), val)
    {
      PlugContents(c, t);
      var k, j, s, b := |Before(c)| + |Data(t.left)|, |Before(c)|, Data(tree), Data(t.left) + [t.data];
      assert s[k] == t.data;
      assert Before(InRight(c, t.color, t.node, t.data, t.left)) == Before(c) + b;
      forall i | 0 <= i < |b| ensures less(b[i], val) {
        assert b[i] == s[j + i];
        if j + i < k { assert less(s[j + i], s[k]) && OrderedTriple(less, s[j + i], s[k], val); }
      }
      assert AllBelow(less, b, val);
    }

    /** The focus at the end of a search decides presence and rank. */
    lemma SearchEnds(t: Tree, c: Ctx, val: Elem)
      requires Valid() && Plug(c, t) == tree
      requires AllBelow(less, Before(c), val) && AllAbove(less, val, After(c))
      requires t.Bin? ==> Equiv(less, t.data, val)
      ensures t.Bin? <==> Present(less, Data(tree), val)
      ensures Rank(less, Data(tree), val) == |Before(c)| + if t.Bin? then |Data(t.left)| else 0
      ensures t.Bin? ==> Lookup(less, Data(tree), val) == Some(t.data)
    {
      PlugContents(c, t);
      var s := Data(tree);
      var k := |Before(c)| + if t.Bin? then |Data(t.left)| else 0;
      if t.Bin? {
        assert s[k] == t.data;
        forall i | 0 <= i < k ensures less(s[i], val) {
          assert less(s[i], s[k]) && OrderedTriple(less, s[i], val, s[k]);
        }
      } else {
        assert k < |s| ==> s[k] == After(c)[0] && OrderedTriple(less, val, s[k], val);
      }
      RankAt(less, s, val, k);
    }

    method TreeMinimum(node: Node, ghost t: Tree, ghost c: Ctx) returns (m: Node)
      requires At(t, c) && t.Bin? && node == t.node
      ensures m == MinTree(t).node && m == Nodes(t)[0]
    {
      m := node;
      ghost var u, d := t, c;
      MinFirst(t);
      Fields(u, d);
      while m.left != null
        invariant At(u, d) && u.Bin? && m == u.node && m.left == Ptr(u.left) && m in nodes
        invariant MinTree(u) == MinTree(t)
        decreases u
      {
        Up(u.left, InLeft(d, u.color, u.node, u.data, u.right));
        u, d := u.left, InLeft(d, u.color, u.node, u.data, u.right);
        m := m.left;
        Fields(u, d);
      }
    }

    /** The node at the next position of the in-order sequence; null stands for the guard. */
    method TreeSuccessor(node: Node, ghost i: nat) returns (next: Node?)
      requires Valid()
      requires i < |Nodes(tree)| && node == Nodes(tree)[i]
      ensures next == if i + 1 < |Nodes(tree)| then Nodes(tree)[i + 1] else null
    {
      ghost var t, c := Locate(tree, Root, i);
      Whole(t, c);
      Fields(t, c);
      PlugContents(c, t);
      if node.right != null {
        ghost var f := InRight(c, t.color, t.node, t.data, t.left);
        Up(t.right, f);
        next := TreeMinimum(node.right, t.right, f);
      } else {
        next := Climb(node, i, t, c);
      }
    }

    /** Walk up while the walk comes from the right. */
    method Climb(start: Node, ghost i: nat, ghost t0: Tree, ghost c0: Ctx) returns (next: Node?)
      requires At(t0, c0) && Plug(c0, t0) == tree && t0.Bin? && start == t0.node
      requires |NodesBefore(c0)| + |Nodes(t0)| == i + 1
      ensures next == if i + 1 < |Nodes(tree)| then Nodes(tree)[i + 1] else null
    {
      var node := start;
      ghost var t, c := t0, c0;
      Fields(t, c);
      while node.parent != null && node == node.parent.right
        invariant At(t, c) && Plug(c, t) == tree && t.Bin? && node == t.node && node.parent == Above(c)
        invariant !c.Root? ==> (c.node.right == Ptr(t) <==> c.InRight?)
        invariant |NodesBefore(c)| + |Nodes(t)| == i + 1
        decreases c
      {
        Up(t, c);
        FillContents(c, t);
        node := node.parent;
        t, c := Fill(c, t), c.up;
        Fields(t, c);
      }
      next := node.parent;
      PlugContents(c, t);
      assert c.InLeft? ==> NodesAfter(c)[0] == c.node;
    }

    method TreeMaximum(node: Node, ghost t: Tree, ghost c: Ctx) returns (m: Node)
      requires At(t, c) && t.Bin? && node == t.node
      ensures Nodes(t) != [] && m == Nodes(t)[|Nodes(t)| - 1]
    {
      m := node;
      ghost var u, d := t, c;
      Fields(u, d);
      while m.right != null
        invariant At(u, d) && u.Bin? && m == u.node && m.right == Ptr(u.right) && m in nodes
        invariant |Nodes(u)| <= |Nodes(t)| && Nodes(u)[|Nodes(u)| - 1] == Nodes(t)[|Nodes(t)| - 1]
        decreases u
      {
        Up(u.right, InRight(d, u.color, u.node, u.data, u.left));
        u, d := u.right, InRight(d, u.color, u.node, u.data, u.left);
        m := m.right;
        Fields(u, d);
      }
    }

    /** The node at the previous position; in front of the first node there is none. */
    method TreePredecessor(node: Node, ghost i: nat) returns (prev: Node?)
      requires Valid()
      requires i < |Nodes(tree)| && node == Nodes(tree)[i]
      ensures prev == if i > 0 then Nodes(tree)[i - 1] else null
    {
      hide Holds, RedBlack, Sorted, Data;
      ghost var t, c := Locate(tree, Root, i);
      Whole(t, c);
      Fields(t, c);
      PlugContents(c, t);
      if node.left != null {
        ghost var f := InLeft(c, t.color, t.node, t.data, t.right);
        Up(t.left, f);
        prev := TreeMaximum(node.left, t.left, f);
      } else {
        prev := ClimbBack(node, i, t, c);
      }
    }

    /** Walk up while the walk comes from the left. */
    method ClimbBack(start: Node, ghost i: nat, ghost t0: Tree, ghost c0: Ctx) returns (prev: Node?)
      requires At(t0, c0) && Plug(c0, t0) == tree && t0.Bin? && start == t0.node
      requires |NodesBefore(c0)| == i
      ensures i <= |Nodes(tree)| && prev == if i > 0 then Nodes(tree)[i - 1] else null
    {
      var node := start;
      ghost var t, c := t0, c0;
      Fields(t, c);
      while node.parent != null && node == node.parent.left
        invariant At(t, c) && Plug(c, t) == tree && t.Bin? && node == t.node && node.parent == Above(c)
        invariant !c.Root? ==> (c.node.left == Ptr(t) <==> c.InLeft?)
        invariant |NodesBefore(c)| == i
        decreases c
      {
        Up(t, c);
        FillContents(c, t);
        node := node.parent;
        t, c := Fill(c, t), c.up;
        Fields(t, c);
      }
      prev := node.parent;
      PlugContents(c, t);
      assert c.InRight? ==> NodesBefore(c)[|NodesBefore(c)| - 1] == c.node;
    }

    method BeginNode() returns (first: Node?)
      requires Valid()
      ensures first == if Nodes(tree) == [] then null else Nodes(tree)[0]
    {
      Fields(tree, Root);
      SameLength(tree);
      if size == 0 {
        first := null;
      } else {
        first := TreeMinimum(root, tree, Root);
      }
    }

    /** Iterating from the first node by successor visits every node once, in strictly increasing order. */
    method Iterate() returns (visited: seq<Node>, values: seq<Elem>)
      requires Valid()
      ensures visited == Nodes(tree) && values == Data(tree)
      ensures forall i, j :: 0 <= i < j < |visited| ==> visited[i] != visited[j]
      ensures Sorted(less, values)
    {
      visited, values := [], [];
      SameLength(tree);
      var node := BeginNode();
      while node != null
        invariant |visited| <= |Nodes(tree)|
        invariant visited == Nodes(tree)[..|visited|] && values == Data(tree)[..|visited|]
        invariant node == if |visited| < |Nodes(tree)| then Nodes(tree)[|visited|] else null
        decreases |Nodes(tree)| - |visited|
      {
        ghost var i := |visited|;
        DataOfNode(i);
        visited, values := visited + [node], values + [node.data];
        node := TreeSuccessor(node, i);
      }
      DistinctNodes(tree);
    }

    /** The node at position i stores the element at position i. */
    lemma DataOfNode(i: nat)
      requires Valid() && i < |Nodes(tree)|
      ensures |Data(tree)| == |Nodes(tree)|
      ensures Nodes(tree)[i] in nodes && Nodes(tree)[i].data == Data(tree)[i]
    {
      var t, c := Locate(tree, Root, i);
      Whole(t, c);
      Fields(t, c);
      PlugContents(c, t);
      BeforeLengths(c);
      SameLength(t.left);
      SameLength(tree);
    }

    /** The focus can move between the two children of the node above. */
    lemma Across(t: Tree, c: Ctx)
      requires !c.Root?
      ensures At(t, c) <==> At(c.sib, Mirror(t, c))
      ensures Fill(Mirror(t, c), c.sib) == Fill(c, t)
    {
      Up(t, c);
      Up(c.sib, Mirror(t, c));
    }

    // ---- insertion ----

    /** Store `val`: overwrite the equivalent element, or link a new red node and rebalance. */
    method InsertVal(val: Elem) returns (n: Node)
      requires Valid()
      modifies this, nodes
      ensures Valid() && fresh(nodes - old(nodes))
      ensures n in nodes && n.data == val
      ensures Data(tree) == Inserted(less, old(Data(tree)), val)
      ensures if Present(less, old(Data(tree)), val) then Nodes(tree) == old(Nodes(tree)) && nodes == old(nodes)
              else fresh(n) && nodes == old(nodes) + {n} &&
                   var r := Rank(less, old(Data(tree)), val);
                   r < |Nodes(tree)| && Nodes(tree)[r] == n && RemoveAt(Nodes(tree), r) == old(Nodes(tree))
    {
      var node, parent, t, c := FindVal(val);
      InsertedContents(t, c, val);
      if node != null {
        n := node;
        Overwrite(n, val, t, c);
      } else {
        assert t == Leaf;
        n := InsertNew(val, parent, c);
      }
    }

    method Overwrite(n: Node, val: Elem, ghost t: Tree, ghost c: Ctx)
      requires At(t, c) && t.Bin? && n == t.node
      modifies nodes`data, this`tree
      ensures tree == Plug(c, t.(data := val)) && At(tree, Root)
      ensures n in nodes && n.data == val
    {
      SetData(n, val, t, c);
      tree := Plug(c, t.(data := val));
      Whole(t.(data := val), c);
      Fields(t.(data := val), c);
    }

    /** Link a new node where the search ended, count it, and rebalance. */
    method InsertNew(val: Elem, parent: Node?, ghost c: Ctx) returns (n: Node)
      requires Valid() && At(Leaf, c) && Plug(c, Leaf) == tree && parent == Above(c)
      requires AllBelow(less, Before(c), val) && AllAbove(less, val, After(c))
      modifies this, nodes
      ensures At(tree, Root) && RedBlack(tree)
      ensures Data(tree) == Before(c) + [val] + After(c) && size == old(size) + 1
      ensures fresh(n) && nodes == old(nodes) + {n} && n.data == val
      ensures |Before(c)| < |Nodes(tree)| && Nodes(tree)[|Before(c)|] == n
      ensures RemoveAt(Nodes(tree), |Before(c)|) == old(Nodes(tree))
    {
      hide Holds, RedBlack;
      n := new Node(val);
      NewLeaf(n, val, c);
      ghost var height := InsertStart(Bin(Leaf, Red, n, val, Leaf), c);
      Attach(n, parent, val, c);
      size := size + 1;
      InsertNodeFixup(n, Bin(Leaf, Red, n, val, Leaf), c, height);
    }

    /** What the search result says about the contents an insertion has to produce. */
    lemma InsertedContents(t: Tree, c: Ctx, val: Elem)
      requires Valid() && Plug(c, t) == tree
      requires AllBelow(less, Before(c), val) && AllAbove(less, val, After(c))
      requires t.Bin? ==> Equiv(less, t.data, val)
      ensures Sorted(less, Inserted(less, Data(tree), val))
      ensures t.Bin? <==> Present(less, Data(tree), val)
      ensures t.Bin? ==>
                && RedBlack(Plug(c, t.(data := val))) && Nodes(Plug(c, t.(data := val))) == Nodes(tree)
                && Data(Plug(c, t.(data := val))) == Inserted(less, Data(tree), val)
                && |Data(Plug(c, t.(data := val)))| == |Data(tree)|
      ensures t.Leaf? ==>
                && Rank(less, Data(tree), val) == |Before(c)|
                && Inserted(less, Data(tree), val) == Before(c) + [val] + After(c)
                && |Before(c) + [val] + After(c)| == |Data(tree)| + 1
    {
      hide Holds, RedBlack, Sorted, Rank, Plug, Nodes, Before, After, AllBelow, AllAbove;
      SearchEnds(t, c, val);
      InsertedSorted(less, Data(tree), val);
      PlugContents(c, t);
      if t.Bin? { OverwriteShape(t, c, val); }
    }

    /** Assign the element of the focused node. */
    method SetData(n: Node, val: Elem, ghost t: Tree, ghost c: Ctx)
      requires At(t, c) && t.Bin? && n == t.node
      modifies nodes`data
      ensures At(t.(data := val), c)
    {
      Fields(t, c);
      ghost var h := Snapshot(nodes);
      n.data := val;
      assert Snapshot(nodes) == h[n := h[n].(data := val)];
      RewriteHolds(h, Snapshot(nodes), nodes, root, t, c, val);
    }

    /** Link the new node `n` below `parent`, on the side its element belongs to. */
    method Attach(n: Node, parent: Node?, val: Elem, ghost c: Ctx)
      requires Valid() && At(Leaf, c) && parent == Above(c)
      requires AllBelow(less, Before(c), val) && AllAbove(less, val, After(c))
      requires n !in nodes && n.left == n.right == null && n.color == Red && n.data == val
      modifies this`root, this`nodes, nodes`left, nodes`right, n`parent
      ensures nodes == old(nodes) + {n}
      ensures At(Bin(Leaf, Red, n, val, Leaf), c)
    {
      hide Holds, RedBlack, Sorted;
      ghost var h := Snapshot(nodes);
      Fields(Leaf, c);
      if !c.Root? { SideOfParent(c, val); }
      if parent == null {
        root := n;
      } else if less(val, parent.data) {
        parent.left := n;
      } else {
        parent.right := n;
      }
      n.parent := parent;
      nodes := nodes + {n};
      assert Snapshot(nodes) == Relink(h, c, n)[n := Cell(null, null, Above(c), Red, val)];
      AttachHolds(h, Snapshot(nodes), old(nodes), old(root), c, n, val);
    }

    lemma SideOfParent(c: Ctx, val: Elem)
      requires StrictWeakOrder(less) && !c.Root?
      requires AllBelow(less, Before(c), val) && AllAbove(less, val, After(c))
      ensures less(val, c.data) <==> c.InLeft?
    {
      if c.InLeft? {
        assert After(c)[0] == c.data;
      } else {
        assert Before(c)[|Before(c)| - 1] == c.data;
        assert OrderedTriple(less, val, c.data, val);
      }
    }

    lemma LeafContents(n: Node, val: Elem)
      ensures Data(Leaf) == [] && Nodes(Leaf) == []
      ensures var t := Bin(Leaf, Red, n, val, Leaf); Data(t) == [val] && Nodes(t) == [n]
    {
      assert Data(Leaf) == [] && Nodes(Leaf) == [];
    }

    /** The contents once a leaf is filled in. */
    lemma NewLeaf(n: Node, val: Elem, c: Ctx)
      ensures var t := Bin(Leaf, Red, n, val, Leaf);
              && Data(Plug(c, t)) == Before(c) + [val] + After(c)
              && Nodes(Plug(c, t)) == NodesBefore(c) + [n] + NodesAfter(c)
              && |NodesBefore(c)| == |Before(c)|
      ensures Data(Plug(c, Leaf)) == Before(c) + After(c)
      ensures var ns := Nodes(Plug(c, Bin(Leaf, Red, n, val, Leaf)));
              |Before(c)| < |ns| && ns[|Before(c)|] == n && RemoveAt(ns, |Before(c)|) == Nodes(Plug(c, Leaf))
    {
      hide Plug, Data, Nodes, Before, After, NodesBefore, NodesAfter;
      var t := Bin(Leaf, Red, n, val, Leaf);
      LeafContents(n, val);
      PlugContents(c, t);
      PlugContents(c, Leaf);
      BeforeLengths(c);
      RemoveMiddle(NodesBefore(c), n, NodesAfter(c));
    }

    method InsertNodeFixup(n: Node, ghost t0: Tree, ghost c0: Ctx, ghost h0: int)
      requires At(t0, c0) && InsertInv(t0, c0, h0) && n == t0.node
      modifies this`root, this`tree, nodes`color, nodes`left, nodes`right, nodes`parent
      ensures At(tree, Root) && RedBlack(tree)
      ensures Data(tree) == Data(Plug(c0, t0)) && Nodes(tree) == Nodes(Plug(c0, t0))
    {
      var node := n;
      ghost var t, c, h := t0, c0, h0;
      Fields(t, c);
      while node.parent != null && node.parent.color == Red
        invariant At(t, c) && InsertInv(t, c, h) && node == t.node && node.parent == Above(c)
        invariant !c.Root? ==> c.node in nodes && c.node.color == c.color
        invariant SameContents(t0, c0, t, c)
        decreases if !c.Root? && c.color.Red? then 1 else 0, Depth(c)
      {
        RedHasGrandparent(t, c, h);
        Up(t, c);
        Fields(Fill(c, t), c.up);
        if node.parent == node.parent.parent.left {
          node, t, c, h := InsertStepLeft(node, t, c, h);
        } else {
          node, t, c, h := InsertStepRight(node, t, c, h);
        }
        Fields(t, c);
      }
      Whole(t, c);
      InsertDone(t, c, h);
      PlugIsBin(c, t);
      BlackenRoot(Plug(c, t));
    }

    method BlackenRoot(ghost w: Tree)
      requires At(w, Root)
      modifies this`tree, nodes`color
      ensures tree == Recolor(w, Black) && At(tree, Root)
    {
      Fields(w, Root);
      SetColor(root, Black, w, Root);
      tree := Recolor(w, Black);
    }

    /** One round of the insertion fixup when the parent is a left child. */
    method InsertStepLeft(node: Node, ghost t: Tree, ghost c: Ctx, ghost h: int)
      returns (node': Node, ghost t': Tree, ghost c': Ctx, ghost h': int)
      requires At(t, c) && InsertInv(t, c, h) && node == t.node && RedParent(c) && c.up.InLeft?
      modifies this`root, nodes`color, nodes`left, nodes`right, nodes`parent
      ensures At(t', c') && InsertInv(t', c', h') && node' == t'.node
      ensures SameContents(t, c, t', c')
      ensures Depth(c') + 2 == Depth(c) || (!c'.Root? && c'.color.Black?)
    {
      Fields(t, c);
      Up(t, c);
      Fields(Fill(c, t), c.up);
      ghost var g := c.up;
      var parent: Node := node.parent;
      var gparent: Node := parent.parent;
      var uncle := gparent.right;
      Across(Fill(c, t), g);
      Fields(g.sib, Mirror(Fill(c, t), g));
      if uncle != null && uncle.color == Red {
        SetColor(parent, Black, Fill(c, t), g);
        ghost var p := Fill(Painted(c, Black), t);
        Across(p, g);
        SetColor(uncle, Black, g.sib, Mirror(p, g));
        ghost var g' := Beside(g, Recolor(g.sib, Black));
        Across(p, g');
        Up(p, g');
        SetColor(gparent, Red, Fill(g', p), g.up);
        BlackenStep(t, c, h);
        node', t', c', h' := gparent, Blackened(t, c), g.up, h + 1;
      } else {
        node', t', c', h' := node, t, c, h;
        if node == parent.right {
          assert c.InRight?;
          InnerStep(t, c, h);
          node' := parent;
          LeftRotate(parent, Fill(c, t), g);
          t', c' := InnerTree(t, c), InnerCtx(t, c);
          Up(t', c');
          Fields(t', c');
          parent := node'.parent;
        }
        SetColor(parent, Black, Fill(c', t'), c'.up);
        ghost var p := Fill(Painted(c', Black), t');
        Up(p, c'.up);
        SetColor(gparent, Red, Fill(c'.up, p), c'.up.up);
        OuterStep(t', c', h);
        RightRotate(gparent, OuterTree(t', c'), c'.up.up);
        c' := OuterCtx(c');
        Up(t', c');
      }
    }

    /** One round of the insertion fixup when the parent is a right child. */
    method InsertStepRight(node: Node, ghost t: Tree, ghost c: Ctx, ghost h: int)
      returns (node': Node, ghost t': Tree, ghost c': Ctx, ghost h': int)
      requires At(t, c) && InsertInv(t, c, h) && node == t.node && RedParent(c) && c.up.InRight?
      modifies this`root, nodes`color, nodes`left, nodes`right, nodes`parent
      ensures At(t', c') && InsertInv(t', c', h') && node' == t'.node
      ensures SameContents(t, c, t', c')
      ensures Depth(c') + 2 == Depth(c) || (!c'.Root? && c'.color.Black?)
    {
      Fields(t, c);
      Up(t, c);
      Fields(Fill(c, t), c.up);
      ghost var g := c.up;
      var parent: Node := node.parent;
      var gparent: Node := parent.parent;
      var uncle := gparent.left;
      Across(Fill(c, t), g);
      Fields(g.sib, Mirror(Fill(c, t), g));
      if uncle != null && uncle.color == Red {
        SetColor(parent, Black, Fill(c, t), g);
        ghost var p := Fill(Painted(c, Black), t);
        Across(p, g);
        SetColor(uncle, Black, g.sib, Mirror(p, g));
        ghost var g' := Beside(g, Recolor(g.sib, Black));
        Across(p, g');
        Up(p, g');
        SetColor(gparent, Red, Fill(g', p), g.up);
        BlackenStep(t, c, h);
        node', t', c', h' := gparent, Blackened(t, c), g.up, h + 1;
      } else {
        node', t', c', h' := node, t, c, h;
        if node == parent.left {
          assert c.InLeft?;
          InnerStep(t, c, h);
          node' := parent;
          RightRotate(parent, Fill(c, t), g);
          t', c' := InnerTree(t, c), InnerCtx(t, c);
          Up(t', c');
          Fields(t', c');
          parent := node'.parent;
        }
        SetColor(parent, Black, Fill(c', t'), c'.up);
        ghost var p := Fill(Painted(c', Black), t');
        Up(p, c'.up);
        SetColor(gparent, Red, Fill(c'.up, p), c'.up.up);
        OuterStep(t', c', h);
        LeftRotate(gparent, OuterTree(t', c'), c'.up.up);
        c' := OuterCtx(c');
        Up(t', c');
      }
    }

    // ---- erasure ----

    /** Remove the element equivalent to `val`, if there is one. */
    method EraseVal(val: Elem)
      requires Valid()
      modifies this, nodes
      ensures Valid() && nodes <= old(nodes)
      ensures Data(tree) == Erased(less, old(Data(tree)), val)
    {
      hide Holds, RedBlack, Sorted;
      var node, parent, t, c := FindVal(val);
      SearchEnds(t, c, val);
      if node != null {
        RankOfFocus(t, c);
        EraseNode(node, |Before(c)| + |Data(t.left)|);
      }
    }

    /** Where the focused node is in the in-order sequence. */
    lemma RankOfFocus(t: Tree, c: Ctx)
      requires t.Bin?
      ensures var i, ns := |Before(c)| + |Data(t.left)|, Nodes(Plug(c, t));
              i < |ns| && ns[i] == t.node
    {
      PlugContents(c, t);
      BeforeLengths(c);
      SameLength(t.left);
    }

    /**
     * Remove the element of the node at position i. A node with two children takes over the element
     * of its successor, and the successor's node goes away instead.
     */
    method EraseNode(node: Node, ghost i: nat)
      requires Valid()
      requires i < |Nodes(tree)| && node == Nodes(tree)[i]
      modifies this, nodes
      ensures Valid()
      ensures i < |old(Data(tree))| && Data(tree) == RemoveAt(old(Data(tree)), i)
      ensures var k := if old(node.left == null || node.right == null) then i else i + 1;
              && k < |old(Nodes(tree))| && Nodes(tree) == RemoveAt(old(Nodes(tree)), k)
              && nodes == old(nodes) - {old(Nodes(tree))[k]}
    {
      hide Holds, RedBlack, Sorted, DelTree, DelCtx;
      ghost var t, c := FocusOn(node, i);
      ghost var k := if node.left == null || node.right == null then i else i + 1;
      ghost var s, d, h := ErasePlan(t, c, i, k);
      var delnode := node;
      if node.left != null && node.right != null {
        delnode := TreeSuccessor(node, i);
      }
      Remove(node, delnode, t, c, s, d, h);
      size := size - 1;
    }

    /** The focus after the removal, and why what remains is valid. */
    lemma ErasePlan(t: Tree, c: Ctx, i: nat, k: nat) returns (s: Tree, d: Ctx, h: int)
      requires Valid() && t.Bin? && Plug(c, t) == tree && i == |Before(c)| + |Data(t.left)|
      requires k == if t.left.Leaf? || t.right.Leaf? then i else i + 1
      ensures s == OnlyChild(DelTree(t)) && d == DelCtx(t, c, DelTree(t).data)
      ensures if DelTree(t).color.Red? then RedBlack(Plug(d, s)) else EraseInv(s, d, h)
      ensures i < |Data(tree)| && Data(Plug(d, s)) == RemoveAt(Data(tree), i)
      ensures Sorted(less, Data(Plug(d, s))) && |Data(Plug(d, s))| == |Data(tree)| - 1
      ensures k < |Nodes(tree)| && Nodes(Plug(d, s)) == RemoveAt(Nodes(tree), k)
      ensures Nodes(tree)[k] == DelTree(t).node
    {
      s, d := OnlyChild(DelTree(t)), DelCtx(t, c, DelTree(t).data);
      h := DelRedBlack(t, c);
      DelContents(t, c, i, k);
      RemoveSorted(Data(tree), i);
    }

    lemma FocusOn(node: Node, i: nat) returns (t: Tree, c: Ctx)
      requires Valid()
      requires i < |Nodes(tree)| && node == Nodes(tree)[i]
      ensures At(t, c) && t.Bin? && t.node == node && Plug(c, t) == tree
      ensures |Before(c)| + |Data(t.left)| == i
      ensures node.left == Ptr(t.left) && node.right == Ptr(t.right)
    {
      t, c := Locate(tree, Root, i);
      Whole(t, c);
      Fields(t, c);
      BeforeLengths(c);
      SameLength(t.left);
    }

    lemma RemoveSorted(s: seq<Elem>, i: nat)
      requires Sorted(less, s) && i < |s|
      ensures Sorted(less, RemoveAt(s, i)) && |RemoveAt(s, i)| == |s| - 1
    {
    }

    /** Unlink `delnode`, hand its element to `node` when they differ, and rebalance. */
    method Remove(node: Node, delnode: Node, ghost t: Tree, ghost c: Ctx, ghost s: Tree, ghost d: Ctx, ghost h: int)
      requires At(t, c) && t.Bin? && node == t.node && delnode == DelTree(t).node
      requires s == OnlyChild(DelTree(t)) && d == DelCtx(t, c, DelTree(t).data)
      requires if DelTree(t).color.Red? then RedBlack(Plug(d, s)) else EraseInv(s, d, h)
      modifies this`root, this`tree, this`nodes, nodes
      ensures nodes == old(nodes) - {delnode}
      ensures At(tree, Root) && RedBlack(tree)
      ensures Data(tree) == Data(Plug(d, s)) && Nodes(tree) == Nodes(Plug(d, s))
    {
      hide Holds, RedBlack, EraseInv, OnlyChild, DelCtx, Data, Nodes;
      var delchild := TakeOut(node, delnode, t, c);
      if delnode.color == Black {
        EraseNodeFixup(delchild, delnode.parent, s, d, h);
      } else {
        tree := Plug(d, s);
        Whole(s, d);
      }
    }

    method TakeOut(node: Node, delnode: Node, ghost t: Tree, ghost c: Ctx) returns (delchild: Node?)
      requires At(t, c) && t.Bin? && node == t.node && delnode == DelTree(t).node
      modifies this`root, this`nodes, nodes`left, nodes`right, nodes`parent, nodes`data
      ensures nodes == old(nodes) - {delnode} && delchild == Ptr(OnlyChild(DelTree(t)))
      ensures At(OnlyChild(DelTree(t)), DelCtx(t, c, DelTree(t).data))
      ensures delnode.parent == Above(DelCtx(t, c, DelTree(t).data)) && delnode.color == DelTree(t).color
    {
      ghost var m, d := DelTree(t), DelCtx(t, c, t.data);
      DelFocus(t, c);
      Fields(m, d);
      delchild := if delnode.left != null then delnode.left else delnode.right;
      Unlink(delnode, delchild, m, d);
      SameAbove(t, c);
      if delnode != node {
        CopyData(node, delnode.data, t, c);
      }
    }

    lemma DelFocus(t: Tree, c: Ctx)
      requires At(t, c) && t.Bin?
      ensures At(DelTree(t), DelCtx(t, c, t.data))
      ensures DelTree(t).node == t.node <==> t.left.Leaf? || t.right.Leaf?
    {
      if t.left.Bin? && t.right.Bin? {
        var f := InRight(c, t.color, t.node, t.data, t.left);
        Up(t.right, f);
        RefocusMin(Snapshot(nodes), nodes, root, t.right, f);
        MinInside(t.right);
      }
    }

    lemma {:induction false} SameAbove(t: Tree, c: Ctx)
      requires t.Bin?
      ensures Above(DelCtx(t, c, t.data)) == Above(DelCtx(t, c, DelTree(t).data))
      ensures t.left.Leaf? || t.right.Leaf? ==> DelTree(t).data == t.data
    {
      if t.left.Bin? && t.right.Bin? {
        ghost var f := InRight(c, t.color, t.node, t.data, t.left);
        MinAbove(t.right, f, InRight(c, t.color, t.node, DelTree(t).data, t.left));
      }
    }

    /** The pointer surgery that takes out a node with at most one child. */
    method Unlink(delnode: Node, delchild: Node?, ghost m: Tree, ghost d: Ctx)
      requires At(m, d) && m.Bin? && (m.left.Leaf? || m.right.Leaf?)
      requires delnode == m.node && delchild == Ptr(OnlyChild(m))
      modifies this`root, this`nodes, nodes`left, nodes`right, nodes`parent
      ensures nodes == old(nodes) - {delnode}
      ensures At(OnlyChild(m), d)
      ensures delnode.parent == Above(d) && delnode.color == m.color && delnode.data == m.data
    {
      hide Holds;
      ghost var h, s := Snapshot(nodes), OnlyChild(m);
      UnlinkApart(m, d);
      if delchild != null {
        delchild.parent := delnode.parent;
      }
      ghost var h1 := Snapshot(nodes);
      assert h1 == Reparent(h, s, Above(d));
      ReplaceChild(delnode, delchild, d);
      nodes := nodes - {delnode};
      assert Snapshot(nodes) == Relink(h1, d, Ptr(s)) - {delnode};
      UnlinkHolds(h, Snapshot(nodes), old(nodes), old(root), m, d);
    }

    /** Point the link from above at `delchild` instead of `delnode`. */
    method ReplaceChild(delnode: Node, delchild: Node?, ghost d: Ctx)
      requires delnode.parent == Above(d)
      requires !d.Root? ==> d.node in nodes && d.node != delnode && (d.node.left == delnode <==> d.InLeft?)
      modifies this`root, nodes`left, nodes`right
      ensures root == if d.Root? then delchild else old(root)
      ensures Snapshot(nodes) == Relink(old(Snapshot(nodes)), d, delchild)
    {
      if delnode.parent == null {
        root := delchild;
      } else if delnode == delnode.parent.left {
        delnode.parent.left := delchild;
      } else {
        delnode.parent.right := delchild;
      }
    }

    /** The nodes the surgery writes are different nodes. */
    lemma UnlinkApart(m: Tree, d: Ctx)
      requires At(m, d) && m.Bin? && (m.left.Leaf? || m.right.Leaf?)
      ensures m.node in nodes && m.node.parent == Above(d) && m.node.color == m.color && m.node.data == m.data
      ensures var s := OnlyChild(m);
              s.Bin? ==> s.node in nodes && s.node != m.node && s.node != Above(d)
      ensures !d.Root? ==> d.node in nodes && d.node != m.node && (d.node.left == m.node <==> d.InLeft?)
    {
      var s := OnlyChild(m);
      Fields(m, d);
      assert s.Bin? ==> s.node in Members(s) && Members(s) <= Members(m);
      assert !d.Root? ==> d.node in MembersCtx(d);
    }

    /** Store the successor's element at the focus, seen from the successor's former place. */
    method CopyData(node: Node, val: Elem, ghost t: Tree, ghost c: Ctx)
      requires t.Bin? && t.left.Bin? && t.right.Bin? && node == t.node && val == DelTree(t).data
      requires At(OnlyChild(DelTree(t)), DelCtx(t, c, t.data))
      modifies nodes`data
      ensures At(OnlyChild(DelTree(t)), DelCtx(t, c, val))
    {
      ghost var f, f' := InRight(c, t.color, t.node, t.data, t.left), InRight(c, t.color, t.node, val, t.left);
      ghost var w := WithoutMin(t.right);
      RefocusMin(Snapshot(nodes), nodes, root, t.right, f);
      Up(w, f);
      SetData(node, val, Fill(f, w), c);
      Up(w, f');
      RefocusMin(Snapshot(nodes), nodes, root, t.right, f');
    }

    method EraseNodeFixup(n: Node?, p: Node?, ghost t0: Tree, ghost c0: Ctx, ghost h0: int)
      requires At(t0, c0) && EraseInv(t0, c0, h0) && n == Ptr(t0) && p == Above(c0)
      modifies this`root, this`tree, nodes`color, nodes`left, nodes`right, nodes`parent
      ensures At(tree, Root) && RedBlack(tree)
      ensures Data(tree) == Data(Plug(c0, t0)) && Nodes(tree) == Nodes(Plug(c0, t0))
    {
      var node, parent := n, p;
      ghost var t, c, h := t0, c0, h0;
      Fields(t, c);
      while node != root && (node == null || node.color == Black)
        invariant At(t, c) && EraseInv(t, c, h) && node == Ptr(t) && (!c.Root? ==> parent == Above(c))
        invariant c.Root? <==> node == root
        invariant node != null ==> node in nodes && node.color == t.color
        invariant SameContents(t0, c0, t, c)
        decreases if TreeColor(t).Black? then 1 else 0, Depth(c)
      {
        Fields(t, c);
        SiblingExists(t, c, h);
        if node == parent.left {
          node, parent, t, c, h := EraseStepLeft(node, parent, t, c, h);
        } else {
          node, parent, t, c, h := EraseStepRight(node, parent, t, c, h);
        }
        Fields(t, c);
      }
      EraseFinish(node, t, c, h);
    }

    method EraseFinish(node: Node?, ghost t: Tree, ghost c: Ctx, ghost h: int)
      requires At(t, c) && EraseInv(t, c, h) && node == Ptr(t) && (c.Root? || TreeColor(t).Red?)
      modifies this`tree, nodes`color
      ensures At(tree, Root) && RedBlack(tree)
      ensures Data(tree) == Data(Plug(c, t)) && Nodes(tree) == Nodes(Plug(c, t))
    {
      EraseDone(t, c, h);
      SetColor(node, Black, t, c);
      tree := Plug(c, Recolor(t, Black));
      Whole(Recolor(t, Black), c);
    }

    /** One round of the erasure fixup when the short side is a left child. */
    method EraseStepLeft(node: Node?, parent: Node, ghost t: Tree, ghost c: Ctx, ghost h: int)
      returns (node': Node?, parent': Node?, ghost t': Tree, ghost c': Ctx, ghost h': int)
      requires At(t, c) && EraseInv(t, c, h) && c.InLeft? && TreeColor(t).Black? && node == Ptr(t) && parent == c.node
      modifies this`root, nodes`color, nodes`left, nodes`right, nodes`parent
      ensures At(t', c') && EraseInv(t', c', h') && node' == Ptr(t') && (!c'.Root? ==> parent' == Above(c'))
      ensures SameContents(t, c, t', c')
      ensures TreeColor(t').Red? || Depth(c') < Depth(c)
    {
      ghost var d := c;
      SiblingExists(t, c, h);
      Fields(t, c);
      Across(t, c);
      Fields(c.sib, Mirror(t, c));
      var brother: Node := parent.right;
      if brother.color == Red {
        brother := RaiseSiblingLeft(brother, parent, t, c, h);
        RedSiblingStep(t, c, h);
        d := RedSiblingCtx(c);
        SiblingExists(t, d, h);
      }
      BrotherFields(t, d);
      var near, far := brother.left, brother.right;
      if (near == null || near.color == Black) && (far == null || far.color == Black) {
        node', parent', t', c', h' := ShiftShortageLeft(brother, parent, t, d, h);
      } else {
        node', parent', t', c', h' := EndShortageLeft(brother, parent, t, d, h);
      }
    }

    /** A black brother without red children turns red; the parent becomes the focus. */
    method ShiftShortageLeft(brother: Node, parent: Node, ghost t: Tree, ghost c: Ctx, ghost h: int)
      returns (node': Node?, parent': Node?, ghost t': Tree, ghost c': Ctx, ghost h': int)
      requires At(t, c) && EraseInv(t, c, h) && c.InLeft? && TreeColor(t).Black?
      requires c.sib.Bin? && c.sib.color.Black? && brother == c.sib.node && parent == c.node
      requires TreeColor(c.sib.left).Black? && TreeColor(c.sib.right).Black?
      modifies nodes`color
      ensures At(t', c') && EraseInv(t', c', h') && node' == Ptr(t') && parent' == Above(c')
      ensures SameContents(t, c, t', c') && c' == c.up && TreeColor(t') == c.color
    {
      Across(t, c);
      SetColor(brother, Red, c.sib, Mirror(t, c));
      ghost var e := Beside(c, Recolor(c.sib, Red));
      Across(t, e);
      Up(t, e);
      ShiftStep(t, c, h);
      node', t', c', h' := parent, ShiftedUp(t, c), c.up, if c.color.Black? then h + 1 else h;
      Fields(t', c');
      parent' := node'.parent;
    }

    /** A black brother with a red child: one or two rotations end the fixup at the root. */
    method EndShortageLeft(brother: Node, parent: Node, ghost t: Tree, ghost c: Ctx, ghost h: int)
      returns (node': Node?, parent': Node?, ghost t': Tree, ghost c': Ctx, ghost h': int)
      requires At(t, c) && EraseInv(t, c, h) && c.InLeft? && TreeColor(t).Black?
      requires c.sib.Bin? && c.sib.color.Black? && brother == c.sib.node && parent == c.node
      requires TreeColor(c.sib.left).Red? || TreeColor(c.sib.right).Red?
      modifies this`root, nodes`color, nodes`left, nodes`right, nodes`parent
      ensures At(t', c') && EraseInv(t', c', h') && node' == Ptr(t') && c'.Root?
      ensures SameContents(t, c, t', c')
    {
      ghost var d := c;
      var b := brother;
      BrotherFields(t, c);
      if b.right == null || b.right.color == Black {
        b := RaiseNearLeft(b, parent, t, c);
        NearStep(t, c, h);
        d := NearCtx(c);
      }
      RaiseBrotherLeft(b, parent, t, d);
      FarStep(t, d, h);
      t', c', h' := Plug(d.up, FarRotated(t, d)), Root, BlackHeight(Plug(d.up, FarRotated(t, d)));
      Whole(FarRotated(t, d), d.up);
      Fields(t', c');
      node', parent' := root, parent;
    }

    /** A red brother turns black, the parent red, and the brother is rotated over the parent. */
    method RaiseSiblingLeft(brother: Node, parent: Node, ghost t: Tree, ghost c: Ctx, ghost h: int)
      returns (brother': Node)
      requires At(t, c) && c.InLeft? && c.sib.Bin? && c.sib.left.Bin? && c.sib.right.Bin?
      requires brother == c.sib.node && parent == c.node
      modifies this`root, nodes`color, nodes`left, nodes`right, nodes`parent
      ensures At(t, RedSiblingCtx(c)) && brother' == RedSiblingCtx(c).sib.node
    {
      Across(t, c);
      SetColor(brother, Black, c.sib, Mirror(t, c));
      ghost var e := Beside(c, Recolor(c.sib, Black));
      Across(t, e);
      Up(t, e);
      SetColor(parent, Red, Fill(e, t), c.up);
      LeftRotate(parent, RedSiblingTree(t, c), c.up);
      ghost var c' := RedSiblingCtx(c);
      Up(Fill(c', t), c'.up);
      Up(t, c');
      Fields(t, c');
      brother' := parent.right;
    }

    /** The near nephew turns black, the brother red, and the nephew is rotated over the brother. */
    method RaiseNearLeft(brother: Node, parent: Node, ghost t: Tree, ghost c: Ctx) returns (brother': Node)
      requires At(t, c) && c.InLeft? && c.sib.Bin? && c.sib.left.Bin?
      requires brother == c.sib.node && parent == c.node
      modifies this`root, nodes`color, nodes`left, nodes`right, nodes`parent
      ensures At(t, NearCtx(c)) && brother' == NearCtx(c).sib.node
    {
      ghost var m, s := Mirror(t, c), c.sib;
      Across(t, c);
      ghost var f := InLeft(m, s.color, s.node, s.data, s.right);
      Up(s.left, f);
      Fields(s, m);
      SetColor(brother.left, Black, s.left, f);
      Up(Recolor(s.left, Black), f);
      SetColor(brother, Red, Fill(f, Recolor(s.left, Black)), m);
      RightRotate(brother, NearTree(c), m);
      ghost var c' := NearCtx(c);
      Across(t, c');
      Fields(t, c');
      brother' := parent.right;
    }

    /** The brother takes the parent's colour, parent and far nephew turn black, and the brother is rotated up. */
    method RaiseBrotherLeft(brother: Node, parent: Node, ghost t: Tree, ghost c: Ctx)
      requires At(t, c) && c.InLeft? && c.sib.Bin? && c.sib.right.Bin?
      requires brother == c.sib.node && parent == c.node
      modifies this`root, nodes`color, nodes`left, nodes`right, nodes`parent
      ensures At(FarRotated(t, c), c.up)
    {
      ghost var m, s := Mirror(t, c), c.sib;
      Fields(t, c);
      Across(t, c);
      SetColor(brother, parent.color, s, m);
      ghost var s1 := Recolor(s, c.color);
      ghost var c1 := Beside(c, s1);
      Across(t, c1);
      Up(t, c1);
      SetColor(parent, Black, Fill(c1, t), c.up);
      ghost var c2 := Painted(c1, Black);
      Up(t, c2);
      Across(t, c2);
      ghost var m2 := Mirror(t, c2);
      ghost var f := InRight(m2, s1.color, s1.node, s1.data, s1.left);
      Up(s1.right, f);
      Fields(s1, m2);
      SetColor(brother.right, Black, s1.right, f);
      Up(Recolor(s1.right, Black), f);
      ghost var s3 := Fill(f, Recolor(s1.right, Black));
      Up(s3, m2);
      assert Fill(m2, s3) == FarTree(t, c);
      LeftRotate(parent, FarTree(t, c), c.up);
    }

    /** One round of the erasure fixup when the short side is a right child. */
    method EraseStepRight(node: Node?, parent: Node, ghost t: Tree, ghost c: Ctx, ghost h: int)
      returns (node': Node?, parent': Node?, ghost t': Tree, ghost c': Ctx, ghost h': int)
      requires At(t, c) && EraseInv(t, c, h) && c.InRight? && TreeColor(t).Black? && node == Ptr(t) && parent == c.node
      modifies this`root, nodes`color, nodes`left, nodes`right, nodes`parent
      ensures At(t', c') && EraseInv(t', c', h') && node' == Ptr(t') && (!c'.Root? ==> parent' == Above(c'))
      ensures SameContents(t, c, t', c')
      ensures TreeColor(t').Red? || Depth(c') < Depth(c)
    {
      ghost var d := c;
      SiblingExists(t, c, h);
      Fields(t, c);
      Across(t, c);
      Fields(c.sib, Mirror(t, c));
      var brother: Node := parent.left;
      if brother.color == Red {
        brother := RaiseSiblingRight(brother, parent, t, c, h);
        RedSiblingStep(t, c, h);
        d := RedSiblingCtx(c);
        SiblingExists(t, d, h);
      }
      BrotherFields(t, d);
      var near, far := brother.right, brother.left;
      if (near == null || near.color == Black) && (far == null || far.color == Black) {
        node', parent', t', c', h' := ShiftShortageRight(brother, parent, t, d, h);
      } else {
        node', parent', t', c', h' := EndShortageRight(brother, parent, t, d, h);
      }
    }

    /** A black brother without red children turns red; the parent becomes the focus. */
    method ShiftShortageRight(brother: Node, parent: Node, ghost t: Tree, ghost c: Ctx, ghost h: int)
      returns (node': Node?, parent': Node?, ghost t': Tree, ghost c': Ctx, ghost h': int)
      requires At(t, c) && EraseInv(t, c, h) && c.InRight? && TreeColor(t).Black?
      requires c.sib.Bin? && c.sib.color.Black? && brother == c.sib.node && parent == c.node
      requires TreeColor(c.sib.left).Black? && TreeColor(c.sib.right).Black?
      modifies nodes`color
      ensures At(t', c') && EraseInv(t', c', h') && node' == Ptr(t') && parent' == Above(c')
      ensures SameContents(t, c, t', c') && c' == c.up && TreeColor(t') == c.color
    {
      Across(t, c);
      SetColor(brother, Red, c.sib, Mirror(t, c));
      ghost var e := Beside(c, Recolor(c.sib, Red));
      Across(t, e);
      Up(t, e);
      ShiftStep(t, c, h);
      node', t', c', h' := parent, ShiftedUp(t, c), c.up, if c.color.Black? then h + 1 else h;
      Fields(t', c');
      parent' := node'.parent;
    }

    /** A black brother with a red child: one or two rotations end the fixup at the root. */
    method EndShortageRight(brother: Node, parent: Node, ghost t: Tree, ghost c: Ctx, ghost h: int)
      returns (node': Node?, parent': Node?, ghost t': Tree, ghost c': Ctx, ghost h': int)
      requires At(t, c) && EraseInv(t, c, h) && c.InRight? && TreeColor(t).Black?
      requires c.sib.Bin? && c.sib.color.Black? && brother == c.sib.node && parent == c.node
      requires TreeColor(c.sib.left).Red? || TreeColor(c.sib.right).Red?
      modifies this`root, nodes`color, nodes`left, nodes`right, nodes`parent
      ensures At(t', c') && EraseInv(t', c', h') && node' == Ptr(t') && c'.Root?
      ensures SameContents(t, c, t', c')
    {
      ghost var d := c;
      var b := brother;
      BrotherFields(t, c);
      if b.left == null || b.left.color == Black {
        b := RaiseNearRight(b, parent, t, c);
        NearStep(t, c, h);
        d := NearCtx(c);
      }
      RaiseBrotherRight(b, parent, t, d);
      FarStep(t, d, h);
      t', c', h' := Plug(d.up, FarRotated(t, d)), Root, BlackHeight(Plug(d.up, FarRotated(t, d)));
      Whole(FarRotated(t, d), d.up);
      Fields(t', c');
      node', parent' := root, parent;
    }

    /** A red brother turns black, the parent red, and the brother is rotated over the parent. */
    method RaiseSiblingRight(brother: Node, parent: Node, ghost t: Tree, ghost c: Ctx, ghost h: int)
      returns (brother': Node)
      requires At(t, c) && c.InRight? && c.sib.Bin? && c.sib.left.Bin? && c.sib.right.Bin?
      requires brother == c.sib.node && parent == c.node
      modifies this`root, nodes`color, nodes`left, nodes`right, nodes`parent
      ensures At(t, RedSiblingCtx(c)) && brother' == RedSiblingCtx(c).sib.node
    {
      Across(t, c);
      SetColor(brother, Black, c.sib, Mirror(t, c));
      ghost var e := Beside(c, Recolor(c.sib, Black));
      Across(t, e);
      Up(t, e);
      SetColor(parent, Red, Fill(e, t), c.up);
      RightRotate(parent, RedSiblingTree(t, c), c.up);
      ghost var c' := RedSiblingCtx(c);
      Up(Fill(c', t), c'.up);
      Up(t, c');
      Fields(t, c');
      brother' := parent.left;
    }

    /** The near nephew turns black, the brother red, and the nephew is rotated over the brother. */
    method RaiseNearRight(brother: Node, parent: Node, ghost t: Tree, ghost c: Ctx) returns (brother': Node)
      requires At(t, c) && c.InRight? && c.sib.Bin? && c.sib.right.Bin?
      requires brother == c.sib.node && parent == c.node
      modifies this`root, nodes`color, nodes`left, nodes`right, nodes`parent
      ensures At(t, NearCtx(c)) && brother' == NearCtx(c).sib.node
    {
      ghost var m, s := Mirror(t, c), c.sib;
      Across(t, c);
      ghost var f := InRight(m, s.color, s.node, s.data, s.left);
      Up(s.right, f);
      Fields(s, m);
      SetColor(brother.right, Black, s.right, f);
      Up(Recolor(s.right, Black), f);
      SetColor(brother, Red, Fill(f, Recolor(s.right, Black)), m);
      LeftRotate(brother, NearTree(c), m);
      ghost var c' := NearCtx(c);
      Across(t, c');
      Fields(t, c');
      brother' := parent.left;
    }

    /** The brother takes the parent's colour, parent and far nephew turn black, and the brother is rotated up. */
    method RaiseBrotherRight(brother: Node, parent: Node, ghost t: Tree, ghost c: Ctx)
      requires At(t, c) && c.InRight? && c.sib.Bin? && c.sib.left.Bin?
      requires brother == c.sib.node && parent == c.node
      modifies this`root, nodes`color, nodes`left, nodes`right, nodes`parent
      ensures At(FarRotated(t, c), c.up)
    {
      ghost var m, s := Mirror(t, c), c.sib;
      Fields(t, c);
      Across(t, c);
      SetColor(brother, parent.color, s, m);
      ghost var s1 := Recolor(s, c.color);
      ghost var c1 := Beside(c, s1);
      Across(t, c1);
      Up(t, c1);
      SetColor(parent, Black, Fill(c1, t), c.up);
      ghost var c2 := Painted(c1, Black);
      Up(t, c2);
      Across(t, c2);
      ghost var m2 := Mirror(t, c2);
      ghost var f := InLeft(m2, s1.color, s1.node, s1.data, s1.right);
      Up(s1.left, f);
      Fields(s1, m2);
      SetColor(brother.left, Black, s1.left, f);
      Up(Recolor(s1.left, Black), f);
      ghost var s3 := Fill(f, Recolor(s1.left, Black));
      Up(s3, m2);
      assert Fill(m2, s3) == FarTree(t, c);
      RightRotate(parent, FarTree(t, c), c.up);
    }

    /** The fields of the brother, and of its children. */
    lemma BrotherFields(t: Tree, c: Ctx)
      requires At(t, c) && !c.Root? && c.sib.Bin?
      ensures var b, l, r := c.sib.node, c.sib.left, c.sib.right;
              && b in nodes && b.left == Ptr(l) && b.right == Ptr(r) && b.color == c.sib.color
              && (l.Bin? ==> l.node in nodes && l.node.color == l.color)
              && (r.Bin? ==> r.node in nodes && r.node.color == r.color)
    {
      var m, s := Mirror(t, c), c.sib;
      Across(t, c);
      Fields(s, m);
      Up(s.left, InLeft(m, s.color, s.node, s.data, s.right));
      Up(s.right, InRight(m, s.color, s.node, s.data, s.left));
      Fields(s.left, InLeft(m, s.color, s.node, s.data, s.right));
      Fields(s.right, InRight(m, s.color, s.node, s.data, s.left));
    }

    // ---- the rest ----

    /** Forget every node. */
    method Clear()
      requires Valid()
      modifies this
      ensures Valid() && Data(tree) == [] && nodes == {}
    {
      root, size, nodes, tree := null, 0, {}, Leaf;
    }

    /** The self-check that runs after every change: colours, black heights, and each node against its children. */
    method IsValid() returns (ok: bool)
      requires At(tree, Root)
      ensures ok <==> RedBlack(tree) && LocalOrder(less, tree)
    {
      Fields(tree, Root);
      if root != null && root.color == Red {
        return false;
      }
      var maxbh;
      ok, maxbh := IsValidDfs(root, 0, 0, tree, Root);
    }

    /** `maxbh` is 0 until the first leaf fixes the number of black nodes that every other leaf must see. */
    method IsValidDfs(node: Node?, bh: nat, maxbh: nat, ghost t: Tree, ghost c: Ctx) returns (ok: bool, maxbh': nat)
      requires At(t, c) && node == Ptr(t)
      ensures ok <==> Checked(less, t) && (maxbh == 0 || maxbh == bh + BlackHeight(t) + 1)
      ensures ok ==> maxbh' == bh + BlackHeight(t) + 1
      decreases t
    {
      ok, maxbh' := false, maxbh;
      if node == null {
        if maxbh' == 0 { maxbh' := bh + 1; }
        return maxbh' == bh + 1, maxbh';
      }
      ghost var cl := InLeft(c, t.color, t.node, t.data, t.right);
      ghost var cr := InRight(c, t.color, t.node, t.data, t.left);
      Fields(t, c);
      Up(t.left, cl);
      Up(t.right, cr);
      Fields(t.left, cl);
      Fields(t.right, cr);
      CheckedChildren(less, t);
      var bh' := bh;
      if node.color == Black {
        bh' := bh + 1;
      } else if (node.left != null && node.left.color == Red) || (node.right != null && node.right.color == Red) {
        return;
      }
      if node.left != null && !less(node.left.data, node.data) {
        return;
      }
      if node.right != null && !less(node.data, node.right.data) {
        return;
      }
      ok, maxbh' := IsValidDfs(node.left, bh', maxbh', t.left, cl);
      if ok {
        ok, maxbh' := IsValidDfs(node.right, bh', maxbh', t.right, cr);
      }
    }

    /**
     * A whole run of operations on an empty tree computes the abstract run, and so agrees with a map; the
     * tree passes the self-check.
     */
    method RunOps(ops: seq<Op>)
      requires Valid() && Data(tree) == []
      modifies this, nodes
      ensures Valid() && fresh(nodes - old(nodes)) && RedBlack(tree) && LocalOrder(less, tree)
      ensures Data(tree) == Run(less, ops)
      ensures forall v :: Lookup(less, Data(tree), v) == LastWrite(less, ops, v)
    {
      hide Holds, RedBlack, Sorted, StrictWeakOrder, Data, Inserted, Erased, Lookup, LastWrite, LocalOrder;
      for k := 0 to |ops|
        invariant Valid() && fresh(nodes - old(nodes))
        invariant Data(tree) == Run(less, ops[..k])
      {
        assert ops[..k + 1][..k] == ops[..k];
        match ops[k] {
          case Insert(v) => var n := InsertVal(v);
          case Erase(v) => EraseVal(v);
          case Clear => Clear();
        }
      }
      assert ops[..|ops|] == ops;
      SortedIsLocal(less, tree);
      forall v ensures Lookup(less, Data(tree), v) == LastWrite(less, ops, v) {
        RunAgreesWithMap(less, ops, v);
      }
    }
  }

  // ---- what the self-check decides ----

  /** Every node is in order with its own children. */
  predicate LocalOrder(less: Less, t: Tree) {
    t.Leaf? ||
    (&& LocalOrder(less, t.left) && LocalOrder(less, t.right)
     && (t.left.Bin? ==> less(t.left.data, t.data)) && (t.right.Bin? ==> less(t.data, t.right.data)))
  }

  predicate Checked(less: Less, t: Tree) {
    NoRedRed(t) && LocalOrder(less, t) && Balanced(t, BlackHeight(t))
  }

  lemma CheckedChildren(less: Less, t: Tree)
    requires t.Bin?
    ensures Checked(less, t) <==>
              && Checked(less, t.left) && Checked(less, t.right) && BlackHeight(t.left) == BlackHeight(t.right)
              && (t.left.Bin? ==> less(t.left.data, t.data)) && (t.right.Bin? ==> less(t.data, t.right.data))
              && (t.color.Red? ==> TreeColor(t.left).Black? && TreeColor(t.right).Black?)
  {
    if Balanced(t.right, BlackHeight(t.left)) { BalancedHeight(t.right, BlackHeight(t.left)); }
  }

  /** A sorted tree passes the local order test, so the self-check holds after every operation. */
  lemma {:induction false} SortedIsLocal(less: Less, t: Tree)
    requires Sorted(less, Data(t))
    ensures LocalOrder(less, t)
  {
    if t.Bin? {
      var l, r, s := Data(t.left), Data(t.right), Data(t);
      assert s[|l|] == t.data;
      assert forall i :: 0 <= i < |l| ==> l[i] == s[i];
      assert forall i :: 0 <= i < |r| ==> r[i] == s[|l| + 1 + i];
      SortedIsLocal(less, t.left);
      SortedIsLocal(less, t.right);
      if t.left.Bin? { assert l[|Data(t.left.left)|] == t.left.data; }
      if t.right.Bin? { assert r[|Data(t.right.left)|] == t.right.data; }
    }
  }

  lemma RemoveMiddle<T>(a: seq<T>, x: T, b: seq<T>)
    ensures (a + [x] + b)[|a|] == x
    ensures RemoveAt(a + [x] + b, |a|) == a + b
  {
  }
}
