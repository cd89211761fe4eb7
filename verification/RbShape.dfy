/** The shape of a red-black tree and of a tree with a hole, as values. */
module RbShape {
  import opened Elements

  datatype Color = Red | Black

  /** A heap node; a missing child or parent is null, and null counts as black. */
  class Node {
    var left: Node?
    var right: Node?
    var parent: Node?
    var color: Color
    var data: Elem

    /** A new node is red and unlinked. */
    constructor (val: Elem)
      ensures left == null && right == null && parent == null
      ensures color == Red && data == val
    {
      left, right, parent, color, data := null, null, null, Red, val;
    }
  }

  datatype Tree =
    | Leaf
    | Bin(left: Tree, color: Color, node: Node, data: Elem, right: Tree)

  /** The path from a hole up to the root, with the subtrees that hang off it. */
  datatype Ctx =
    | Root
    | InLeft(up: Ctx, color: Color, node: Node, data: Elem, sib: Tree)
    | InRight(up: Ctx, color: Color, node: Node, data: Elem, sib: Tree)

  /** The pointer to a tree. */
  function Ptr(t: Tree): Node? {
    if t.Leaf? then null else t.node
  }

  /** The node above a hole. */
  function Above(c: Ctx): Node? {
    if c.Root? then null else c.node
  }

  function TreeColor(t: Tree): Color {
    if t.Leaf? then Black else t.color
  }

  function Recolor(t: Tree, k: Color): Tree {
    if t.Leaf? then Leaf else t.(color := k)
  }

  /** Fill the innermost frame of `c` with `t`. */
  function Fill(c: Ctx, t: Tree): Tree
    requires !c.Root?
  {
    if c.InLeft? then Bin(t, c.color, c.node, c.data, c.sib)
    else Bin(c.sib, c.color, c.node, c.data, t)
  }

  /** The innermost frame with another colour. */
  function Painted(c: Ctx, k: Color): Ctx
    requires !c.Root?
  {
    if c.InLeft? then InLeft(c.up, k, c.node, c.data, c.sib)
    else InRight(c.up, k, c.node, c.data, c.sib)
  }

  /** The innermost frame with another sibling. */
  function Beside(c: Ctx, s: Tree): Ctx
    requires !c.Root?
  {
    if c.InLeft? then InLeft(c.up, c.color, c.node, c.data, s)
    else InRight(c.up, c.color, c.node, c.data, s)
  }

  /** The same parent seen from its other child. */
  function Mirror(t: Tree, c: Ctx): Ctx
    requires !c.Root?
  {
    if c.InLeft? then InRight(c.up, c.color, c.node, c.data, t)
    else InLeft(c.up, c.color, c.node, c.data, t)
  }

  /** The whole tree. */
  function Plug(c: Ctx, t: Tree): Tree {
    if c.Root? then t else Plug(c.up, Fill(c, t))
  }

  function Depth(c: Ctx): nat {
    if c.Root? then 0 else 1 + Depth(c.up)
  }

  // ---- in-order contents ----

  function Nodes(t: Tree): seq<Node> {
    if t.Leaf? then [] else Nodes(t.left) + [t.node] + Nodes(t.right)
  }

  function Data(t: Tree): seq<Elem> {
    if t.Leaf? then [] else Data(t.left) + [t.data] + Data(t.right)
  }

  function NodesBefore(c: Ctx): seq<Node> {
    match c
    case Root => []
    case InLeft(up, _, _, _, _) => NodesBefore(up)
    case InRight(up, _, n, _, sib) => NodesBefore(up) + Nodes(sib) + [n]
  }

  function NodesAfter(c: Ctx): seq<Node> {
    match c
    case Root => []
    case InLeft(up, _, n, _, sib) => [n] + Nodes(sib) + NodesAfter(up)
    case InRight(up, _, _, _, _) => NodesAfter(up)
  }

  function Before(c: Ctx): seq<Elem> {
    match c
    case Root => []
    case InLeft(up, _, _, _, _) => Before(up)
    case InRight(up, _, _, d, sib) => Before(up) + Data(sib) + [d]
  }

  function After(c: Ctx): seq<Elem> {
    match c
    case Root => []
    case InLeft(up, _, _, d, sib) => [d] + Data(sib) + After(up)
    case InRight(up, _, _, _, _) => After(up)
  }

  lemma Regroup<T>(a: seq<T>, b: seq<T>, c: seq<T>, d: seq<T>, e: seq<T>)
    ensures a + (b + c + d) + e == a + b + (c + d + e) == (a + b + c) + d + e
  {
  }

  /** The contents of the whole are those around the hole and those inside. */
  lemma PlugContents(c: Ctx, t: Tree)
    ensures Data(Plug(c, t)) == Before(c) + Data(t) + After(c)
    ensures Nodes(Plug(c, t)) == NodesBefore(c) + Nodes(t) + NodesAfter(c)
  {
    PlugData(c, t);
    PlugNodes(c, t);
  }

  lemma {:induction false} PlugData(c: Ctx, t: Tree)
    ensures Data(Plug(c, t)) == Before(c) + Data(t) + After(c)
  {
    if c.InLeft? {
      PlugData(c.up, Fill(c, t));
      Regroup(Before(c.up), Data(t), [c.data], Data(c.sib), After(c.up));
    } else if c.InRight? {
      PlugData(c.up, Fill(c, t));
      Regroup(Before(c.up), Data(c.sib), [c.data], Data(t), After(c.up));
    }
  }

  lemma {:induction false} PlugNodes(c: Ctx, t: Tree)
    ensures Nodes(Plug(c, t)) == NodesBefore(c) + Nodes(t) + NodesAfter(c)
  {
    if c.InLeft? {
      PlugNodes(c.up, Fill(c, t));
      Regroup(NodesBefore(c.up), Nodes(t), [c.node], Nodes(c.sib), NodesAfter(c.up));
    } else if c.InRight? {
      PlugNodes(c.up, Fill(c, t));
      Regroup(NodesBefore(c.up), Nodes(c.sib), [c.node], Nodes(t), NodesAfter(c.up));
    }
  }

  lemma {:induction false} SameLength(t: Tree)
    ensures |Nodes(t)| == |Data(t)|
  {
    if !t.Leaf? {
      SameLength(t.left);
      SameLength(t.right);
    }
  }

  // ---- the red-black properties ----

  /** Every path from here down passes `h` black nodes. */
  predicate Balanced(t: Tree, h: int) {
    if t.Leaf? then h == 0
    else if t.color.Red? then Balanced(t.left, h) && Balanced(t.right, h)
    else Balanced(t.left, h - 1) && Balanced(t.right, h - 1)
  }

  predicate BalancedCtx(c: Ctx, h: int) {
    c.Root? || (Balanced(c.sib, h) && BalancedCtx(c.up, if c.color.Black? then h + 1 else h))
  }

  /** No red node has a red child. */
  predicate NoRedRed(t: Tree) {
    t.Leaf? ||
    (&& NoRedRed(t.left) && NoRedRed(t.right)
     && (t.color.Red? ==> TreeColor(t.left).Black? && TreeColor(t.right).Black?))
  }

  /** The frames of `c` have no red-red pair when the hole is filled by a root of colour `k`. */
  predicate NoRedRedCtx(c: Ctx, k: Color) {
    c.Root? ||
    (&& NoRedRed(c.sib) && NoRedRedCtx(c.up, c.color)
     && (c.color.Red? ==> k.Black? && TreeColor(c.sib).Black?))
  }

  /** The outermost frame, when there is one, is black. */
  predicate RootBlack(c: Ctx) {
    c.Root? || (if c.up.Root? then c.color.Black? else RootBlack(c.up))
  }

  /** Black nodes on the leftmost path. */
  function BlackHeight(t: Tree): nat {
    if t.Leaf? then 0
    else BlackHeight(t.left) + if t.color.Black? then 1 else 0
  }

  /** A valid red-black tree, order aside. */
  predicate RedBlack(t: Tree) {
    TreeColor(t).Black? && NoRedRed(t) && Balanced(t, BlackHeight(t))
  }

  lemma {:induction false} BalancedHeight(t: Tree, h: int)
    requires Balanced(t, h)
    ensures h == BlackHeight(t)
  {
    if !t.Leaf? {
      BalancedHeight(t.left, if t.color.Red? then h else h - 1);
    }
  }

  /** A balanced filling of a balanced context is balanced, and likewise for red-red pairs. */
  lemma {:induction false} PlugRedBlack(c: Ctx, t: Tree, h: int)
    requires Balanced(t, h) && BalancedCtx(c, h)
    requires NoRedRed(t) && NoRedRedCtx(c, TreeColor(t))
    requires RootBlack(c) && (c.Root? ==> TreeColor(t).Black?)
    ensures RedBlack(Plug(c, t))
  {
    if c.Root? {
      BalancedHeight(t, h);
    } else {
      PlugRedBlack(c.up, Fill(c, t), if c.color.Black? then h + 1 else h);
    }
  }

  /** Conversely, a valid tree gives a balanced context around any of its subtrees. */
  lemma {:induction false} UnplugRedBlack(c: Ctx, t: Tree) returns (h: nat)
    requires RedBlack(Plug(c, t))
    ensures Balanced(t, h) && BalancedCtx(c, h)
    ensures NoRedRed(t) && NoRedRedCtx(c, TreeColor(t))
    ensures RootBlack(c) && (c.Root? ==> TreeColor(t).Black?)
  {
    if c.Root? {
      h := BlackHeight(t);
    } else {
      h := UnplugRedBlack(c.up, Fill(c, t));
      BalancedHeight(Fill(c, t), h);
      h := if c.color.Black? then h - 1 else h;
      BalancedHeight(t, h);
    }
  }
}
