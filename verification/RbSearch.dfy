/** Positions in a tree: the leftmost node, the node with a given rank, and the cost of a descent. */
module RbSearch {
  import opened Basics
  import opened Elements
  import opened RbShape
  import opened RbHeap
  import opened RbFixup

  // ---- the leftmost node of a subtree ----

  function MinTree(t: Tree): (m: Tree)
    requires t.Bin?
    ensures m.Bin? && m.left.Leaf?
  {
    if t.left.Leaf? then t else MinTree(t.left)
  }

  function MinCtx(t: Tree, c: Ctx): Ctx
    requires t.Bin?
  {
    if t.left.Leaf? then c else MinCtx(t.left, InLeft(c, t.color, t.node, t.data, t.right))
  }

  /** The subtree after its leftmost node gave way to its right child. */
  function WithoutMin(t: Tree): Tree
    requires t.Bin?
  {
    if t.left.Leaf? then t.right else t.(left := WithoutMin(t.left))
  }

  lemma {:induction false} MinFirst(t: Tree)
    requires t.Bin?
    ensures Data(t) == [MinTree(t).data] + Data(WithoutMin(t))
    ensures Nodes(t) == [MinTree(t).node] + Nodes(WithoutMin(t))
  {
    if t.left.Bin? { MinFirst(t.left); }
  }

  /** The focus can move between the leftmost position and the subtree. */
  lemma {:induction false} RefocusMin(h: Heap, ns: set<Node>, root: Node?, t: Tree, c: Ctx)
    requires t.Bin?
    ensures Holds(h, ns, root, MinTree(t), MinCtx(t, c)) <==> Holds(h, ns, root, t, c)
    ensures Holds(h, ns, root, MinTree(t).right, MinCtx(t, c)) <==> Holds(h, ns, root, WithoutMin(t), c)
  {
    if t.left.Bin? {
      var f := InLeft(c, t.color, t.node, t.data, t.right);
      RefocusMin(h, ns, root, t.left, f);
      Refocus(h, ns, root, t.left, f);
      Refocus(h, ns, root, WithoutMin(t.left), f);
    }
  }

  lemma {:induction false} PlugMin(t: Tree, c: Ctx)
    requires t.Bin?
    ensures Plug(MinCtx(t, c), MinTree(t)) == Plug(c, t)
    ensures Plug(MinCtx(t, c), MinTree(t).right) == Plug(c, WithoutMin(t))
  {
    if t.left.Bin? { PlugMin(t.left, InLeft(c, t.color, t.node, t.data, t.right)); }
  }

  /** The red-black facts around a subtree also hold around its leftmost node. */
  lemma {:induction false} MinRedBlack(t: Tree, c: Ctx, h: int) returns (h': int)
    requires t.Bin? && Balanced(t, h) && BalancedCtx(c, h)
    requires NoRedRed(t) && NoRedRedCtx(c, TreeColor(t)) && RootBlack(c) && (c.Root? ==> t.color.Black?)
    ensures var m, d := MinTree(t), MinCtx(t, c);
            Balanced(m, h') && BalancedCtx(d, h') && NoRedRed(m) && NoRedRedCtx(d, TreeColor(m)) && RootBlack(d)
  {
    if t.left.Leaf? {
      h' := h;
    } else {
      h' := MinRedBlack(t.left, InLeft(c, t.color, t.node, t.data, t.right), if t.color.Red? then h else h - 1);
    }
  }

  // ---- the node with a given rank ----

  /** The focus on the node at position `i` of the in-order sequence. */
  lemma {:induction false} Locate(t: Tree, c: Ctx, i: nat) returns (t': Tree, c': Ctx)
    requires |NodesBefore(c)| <= i < |NodesBefore(c)| + |Nodes(t)|
    ensures t'.Bin? && Plug(c', t') == Plug(c, t) && i < |Nodes(Plug(c, t))|
    ensures |NodesBefore(c')| + |Nodes(t'.left)| == i && t'.node == Nodes(Plug(c, t))[i]
  {
    var k := |NodesBefore(c)| + |Nodes(t.left)|;
    PlugContents(c, t);
    if i < k {
      t', c' := Locate(t.left, InLeft(c, t.color, t.node, t.data, t.right), i);
    } else if i > k {
      t', c' := Locate(t.right, InRight(c, t.color, t.node, t.data, t.left), i);
    } else {
      t', c' := t, c;
    }
  }

  /** Moving the focus down a path keeps what the heap holds. */
  lemma {:induction false} RefocusRoot(h: Heap, ns: set<Node>, root: Node?, t: Tree, c: Ctx)
    ensures Holds(h, ns, root, t, c) <==> Holds(h, ns, root, Plug(c, t), Root)
    decreases c
  {
    if !c.Root? {
      Refocus(h, ns, root, t, c);
      RefocusRoot(h, ns, root, Fill(c, t), c.up);
    }
  }

  lemma {:induction false} MembersAreNodes(t: Tree)
    ensures Members(t) == set n | n in Nodes(t)
  {
    if !t.Leaf? {
      MembersAreNodes(t.left);
      MembersAreNodes(t.right);
    }
  }

  /** A node occurs at one position only. */
  lemma {:induction false} DistinctNodes(t: Tree)
    requires Distinct(t)
    ensures forall i, j :: 0 <= i < j < |Nodes(t)| ==> Nodes(t)[i] != Nodes(t)[j]
  {
    if !t.Leaf? {
      DistinctNodes(t.left);
      DistinctNodes(t.right);
      MembersAreNodes(t.left);
      MembersAreNodes(t.right);
      var l, r := Nodes(t.left), Nodes(t.right);
      forall i, j | 0 <= i < j < |Nodes(t)|
        ensures Nodes(t)[i] != Nodes(t)[j]
      {
        var m, n := Nodes(t)[i], Nodes(t)[j];
        if i < |l| { assert m == l[i] && m in l && m in Members(t.left); }
        if i > |l| { assert m == r[i - |l| - 1]; }
        if j < |l| { assert n == l[j]; }
        if j > |l| { assert n == r[j - |l| - 1] && n in r && n in Members(t.right); }
      }
    }
  }

  // ---- the cost of a descent ----

  /** A subtree of black height h has at least 2^h - 1 nodes. */
  lemma {:induction false} SizeFromHeight(t: Tree, h: nat)
    requires Balanced(t, h)
    ensures |Nodes(t)| + 1 >= Pow2(h)
  {
    if !t.Leaf? {
      var h' := if t.color.Red? then h else h - 1;
      NonNegative(t.left, h');
      SizeFromHeight(t.left, h');
      SizeFromHeight(t.right, h');
    }
  }

  /** At most half of the nodes above a hole are red. */
  lemma {:induction false} DepthFromHeight(c: Ctx, t: Tree, h: nat) returns (hr: nat)
    requires Balanced(t, h) && BalancedCtx(c, h)
    requires NoRedRed(t) && NoRedRedCtx(c, TreeColor(t)) && RootBlack(c) && (c.Root? ==> TreeColor(t).Black?)
    ensures Balanced(Plug(c, t), hr)
    ensures Depth(c) <= 2 * (hr - h) - (if TreeColor(t).Red? then 1 else 0)
  {
    if c.Root? {
      hr := h;
    } else {
      hr := DepthFromHeight(c.up, Fill(c, t), if c.color.Black? then h + 1 else h);
    }
  }

  lemma {:induction false} Pow2Double(n: nat)
    ensures Pow2(2 * n) == Pow2(n) * Pow2(n)
  {
    if n > 0 {
      Pow2Double(n - 1);
      Pow2Twice(2 * n - 2);
      SquareOfDouble(Pow2(n - 1));
    }
  }

  lemma Pow2Twice(n: nat)
    ensures Pow2(n + 2) == 4 * Pow2(n)
  {
    assert Pow2(n + 1) == 2 * Pow2(n);
  }

  lemma SquareOfDouble(p: nat)
    ensures (2 * p) * (2 * p) == 4 * (p * p)
  {
  }

  lemma {:induction false} Pow2Monotone(a: nat, b: nat)
    requires a <= b
    ensures Pow2(a) <= Pow2(b)
  {
    if a < b { Pow2Monotone(a, b - 1); }
  }

  lemma SquareMonotone(a: nat, b: nat)
    requires a <= b
    ensures a * a <= b * b
  {
    assert a * a <= a * b <= b * b;
  }

  /**
   * A path of d nodes in a tree of n elements has d <= 2*log2(n+1), stated without logarithms.
   * `c` is the path: its frames are the nodes visited before `t`.
   */
  lemma PathIsShort(t: Tree, c: Ctx)
    requires RedBlack(Plug(c, t))
    ensures var visited := Depth(c) + if t.Bin? then 1 else 0;
            var n := |Nodes(Plug(c, t))|;
            Pow2(visited) <= (n + 1) * (n + 1)
  {
    var h := UnplugRedBlack(c, t);
    var n := |Nodes(Plug(c, t))|;
    var hr := DepthFromHeight(c, t, h);
    SizeFromHeight(Plug(c, t), hr);
    if t.Bin? && t.color.Black? && h == 0 {
      NonNegative(t.left, -1);
    }
    Pow2Monotone(Depth(c) + if t.Bin? then 1 else 0, 2 * hr);
    Pow2Double(hr);
    SquareMonotone(Pow2(hr), n + 1);
  }

  lemma ReplaceMiddle<T>(b: seq<T>, l: seq<T>, x: T, y: T, r: seq<T>, a: seq<T>)
    ensures |b| + |l| < |b + (l + [x] + r) + a|
    ensures (b + (l + [x] + r) + a)[|b| + |l| := y] == b + (l + [y] + r) + a
  {
  }

  /** Assigning one element changes the contents at its position and nothing else. */
  lemma OverwriteShape(t: Tree, c: Ctx, d: Elem)
    requires t.Bin? && RedBlack(Plug(c, t))
    ensures RedBlack(Plug(c, t.(data := d)))
    ensures Nodes(Plug(c, t.(data := d))) == Nodes(Plug(c, t))
    ensures var r := |Before(c)| + |Data(t.left)|;
            r < |Data(Plug(c, t))| && Data(Plug(c, t.(data := d))) == Data(Plug(c, t))[r := d]
  {
    var t' := t.(data := d);
    var h := UnplugRedBlack(c, t);
    PlugRedBlack(c, t', h);
    PlugContents(c, t);
    PlugContents(c, t');
    ReplaceMiddle(Before(c), Data(t.left), t.data, d, Data(t.right), After(c));
  }

  // ---- which node goes away when the element at a focus is erased ----

  /** The subtree whose node is unlinked: the focus, or the leftmost one on its right. */
  function DelTree(t: Tree): (d: Tree)
    requires t.Bin?
    ensures d.Bin? && (d.left.Leaf? || d.right.Leaf?)
  {
    if t.left.Leaf? || t.right.Leaf? then t else MinTree(t.right)
  }

  /** The context of the unlinked node, with element `d` stored at the focus. */
  function DelCtx(t: Tree, c: Ctx, d: Elem): Ctx
    requires t.Bin?
  {
    if t.left.Leaf? || t.right.Leaf? then c
    else MinCtx(t.right, InRight(c, t.color, t.node, d, t.left))
  }

  lemma RemoveInside<T>(b: seq<T>, l: seq<T>, x: T, r: seq<T>, a: seq<T>)
    ensures var s := b + (l + [x] + r) + a; var i := |b| + |l|;
            i < |s| && s[i] == x && RemoveAt(s, i) == b + (l + r) + a
  {
  }

  lemma OnlyChildContents(t: Tree)
    requires t.Bin? && (t.left.Leaf? || t.right.Leaf?)
    ensures Data(OnlyChild(t)) == Data(t.left) + Data(t.right)
    ensures Nodes(OnlyChild(t)) == Nodes(t.left) + Nodes(t.right)
  {
    assert Data(Leaf) == [] && Nodes(Leaf) == [];
    var l, r := t.left, t.right;
    assert Data(l) + [] == Data(l) && [] + Data(r) == Data(r);
    assert Nodes(l) + [] == Nodes(l) && [] + Nodes(r) == Nodes(r);
  }

  lemma DelOuterContents(t: Tree, c: Ctx, i: nat)
    requires t.Bin? && (t.left.Leaf? || t.right.Leaf?) && i == |Before(c)| + |Data(t.left)|
    ensures i < |Data(Plug(c, t))| && Data(Plug(c, OnlyChild(t))) == RemoveAt(Data(Plug(c, t)), i)
    ensures i < |Nodes(Plug(c, t))| && Nodes(Plug(c, OnlyChild(t))) == RemoveAt(Nodes(Plug(c, t)), i)
    ensures Nodes(Plug(c, t))[i] == t.node
  {
    hide Plug, OnlyChild, Before, After, NodesBefore, NodesAfter, RemoveAt;
    BeforeLengths(c);
    SameLength(t.left);
    OnlyChildContents(t);
    PlugContents(c, t);
    PlugContents(c, OnlyChild(t));
    RemoveInside(Before(c), Data(t.left), t.data, Data(t.right), After(c));
    RemoveInside(NodesBefore(c), Nodes(t.left), t.node, Nodes(t.right), NodesAfter(c));
  }

  /** The focus after it has taken over the element of its successor. */
  function Inherited(t: Tree): Tree
    requires t.Bin? && t.right.Bin?
  {
    Bin(t.left, t.color, t.node, MinTree(t.right).data, WithoutMin(t.right))
  }

  lemma InheritedContents(t: Tree)
    requires t.Bin? && t.right.Bin?
    ensures Data(t) == Data(t.left) + [t.data] + ([MinTree(t.right).data] + Data(WithoutMin(t.right)))
    ensures Data(Inherited(t)) == Data(t.left) + ([MinTree(t.right).data] + Data(WithoutMin(t.right)))
    ensures Nodes(t) == (Nodes(t.left) + [t.node]) + [MinTree(t.right).node] + Nodes(WithoutMin(t.right))
    ensures Nodes(Inherited(t)) == (Nodes(t.left) + [t.node]) + Nodes(WithoutMin(t.right))
  {
    hide Data, Nodes, MinTree, WithoutMin;
    MinFirst(t.right);
    BinContents(t);
    BinContents(Inherited(t));
    var m, rest := MinTree(t.right), WithoutMin(t.right);
    Regroup(Data(t.left), [m.data], Data(rest));
    Regroup(Nodes(t.left) + [t.node], [m.node], Nodes(rest));
  }

  lemma BinContents(t: Tree)
    requires t.Bin?
    ensures Data(t) == Data(t.left) + [t.data] + Data(t.right)
    ensures Nodes(t) == Nodes(t.left) + [t.node] + Nodes(t.right)
  {
  }

  lemma Regroup<T>(s: seq<T>, t: seq<T>, u: seq<T>)
    ensures (s + t) + u == s + (t + u)
  {
  }

  lemma DelInnerContents(t: Tree, c: Ctx, i: nat)
    requires t.Bin? && t.left.Bin? && t.right.Bin? && i == |Before(c)| + |Data(t.left)|
    ensures i < |Data(Plug(c, t))| && Data(Plug(c, Inherited(t))) == RemoveAt(Data(Plug(c, t)), i)
    ensures i + 1 < |Nodes(Plug(c, t))| && Nodes(Plug(c, Inherited(t))) == RemoveAt(Nodes(Plug(c, t)), i + 1)
    ensures Nodes(Plug(c, t))[i + 1] == MinTree(t.right).node
  {
    hide Plug, Inherited, MinTree, Data, Nodes, RemoveAt;
    BeforeLengths(c);
    SameLength(t.left);
    DelInnerData(t, c);
    DelInnerNodes(t, c);
  }

  lemma DelInnerData(t: Tree, c: Ctx)
    requires t.Bin? && t.right.Bin?
    ensures var i := |Before(c)| + |Data(t.left)|;
            i < |Data(Plug(c, t))| && Data(Plug(c, Inherited(t))) == RemoveAt(Data(Plug(c, t)), i)
  {
    hide Plug, Inherited, MinTree, WithoutMin, Data, Nodes, RemoveAt, Before, After, NodesBefore, NodesAfter;
    InheritedContents(t);
    PlugData(c, t);
    PlugData(c, Inherited(t));
    RemoveInside(Before(c), Data(t.left), t.data, [MinTree(t.right).data] + Data(WithoutMin(t.right)), After(c));
  }

  lemma DelInnerNodes(t: Tree, c: Ctx)
    requires t.Bin? && t.right.Bin?
    ensures var k := |NodesBefore(c)| + |Nodes(t.left)| + 1;
            && k < |Nodes(Plug(c, t))| && Nodes(Plug(c, Inherited(t))) == RemoveAt(Nodes(Plug(c, t)), k)
            && Nodes(Plug(c, t))[k] == MinTree(t.right).node
  {
    hide Plug, Inherited, MinTree, WithoutMin, Data, Nodes, RemoveAt, Before, After, NodesBefore, NodesAfter;
    InheritedContents(t);
    PlugNodes(c, t);
    PlugNodes(c, Inherited(t));
    var l := Nodes(t.left) + [t.node];
    RemoveInside(NodesBefore(c), l, MinTree(t.right).node, Nodes(WithoutMin(t.right)), NodesAfter(c));
  }

  lemma DelInnerPlug(t: Tree, c: Ctx)
    requires t.Bin? && t.left.Bin? && t.right.Bin?
    ensures DelTree(t) == MinTree(t.right)
    ensures Plug(DelCtx(t, c, DelTree(t).data), OnlyChild(DelTree(t))) == Plug(c, Inherited(t))
  {
    var f := InRight(c, t.color, t.node, DelTree(t).data, t.left);
    PlugMin(t.right, f);
    assert Fill(f, WithoutMin(t.right)) == Inherited(t);
  }

  /** Erasing the element at position i unlinks the node at position k, which is i or i + 1. */
  lemma DelContents(t: Tree, c: Ctx, i: nat, k: nat)
    requires t.Bin? && i == |Before(c)| + |Data(t.left)|
    requires k == if t.left.Leaf? || t.right.Leaf? then i else i + 1
    ensures var w, w' := Plug(c, t), Plug(DelCtx(t, c, DelTree(t).data), OnlyChild(DelTree(t)));
            && i < |Data(w)| && Data(w') == RemoveAt(Data(w), i)
            && k < |Nodes(w)| && Nodes(w') == RemoveAt(Nodes(w), k) && Nodes(w)[k] == DelTree(t).node
  {
    if t.left.Leaf? || t.right.Leaf? {
      DelOuterContents(t, c, i);
    } else {
      DelInnerContents(t, c, i);
      DelInnerPlug(t, c);
    }
  }

  lemma {:induction false} BeforeLengths(c: Ctx)
    ensures |NodesBefore(c)| == |Before(c)|
  {
    if !c.Root? {
      BeforeLengths(c.up);
      SameLength(c.sib);
    }
  }

  /** Unlinking a red node leaves a valid tree; unlinking a black one leaves its place one short. */
  lemma DelRedBlack(t: Tree, c: Ctx) returns (h: int)
    requires t.Bin? && RedBlack(Plug(c, t))
    ensures var m, d := DelTree(t), DelCtx(t, c, DelTree(t).data);
            if m.color.Red? then RedBlack(Plug(d, OnlyChild(m))) else EraseInv(OnlyChild(m), d, h)
  {
    var m, d := DelTree(t), DelCtx(t, c, DelTree(t).data);
    h := UnplugRedBlack(c, t);
    if t.left.Bin? && t.right.Bin? {
      h := MinRedBlack(t.right, InRight(c, t.color, t.node, m.data, t.left), if t.color.Red? then h else h - 1);
    }
    assert Balanced(m, h) && BalancedCtx(d, h) && NoRedRed(m) && NoRedRedCtx(d, m.color) && RootBlack(d);
    WeakenAbove(d, m.color);
    if m.color.Red? {
      assert m.left.Leaf? && m.right.Leaf? by { RedOnlyChild(m, h); }
      PlugRedBlack(d, Leaf, h);
    } else {
      h := h - 1;
      assert NoRedRed(Recolor(OnlyChild(m), Black));
    }
  }

  lemma RedOnlyChild(m: Tree, h: int)
    requires m.Bin? && m.color.Red? && NoRedRed(m) && Balanced(m, h) && (m.left.Leaf? || m.right.Leaf?)
    ensures m.left.Leaf? && m.right.Leaf?
  {
    if m.left.Bin? { NonNegative(m.left.left, h - 1); }
    if m.right.Bin? { NonNegative(m.right.left, h - 1); }
  }

  lemma {:induction false} MinInside(t: Tree)
    requires t.Bin?
    ensures MinTree(t).node in Members(t)
  {
    if t.left.Bin? { MinInside(t.left); }
  }

  lemma {:induction false} MinAbove(t: Tree, c: Ctx, c': Ctx)
    requires t.Bin? && Above(c) == Above(c')
    ensures Above(MinCtx(t, c)) == Above(MinCtx(t, c'))
  {
    if t.left.Bin? {
      MinAbove(t.left, InLeft(c, t.color, t.node, t.data, t.right), InLeft(c', t.color, t.node, t.data, t.right));
    }
  }
}
