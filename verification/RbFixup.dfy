/** The rebalancing steps after an insertion and after an erasure, on shapes. */
module RbFixup {
  import opened Elements
  import opened RbShape
  import opened RbHeap

  /** The contents of a filled frame. */
  lemma FillContents(c: Ctx, t: Tree)
    requires !c.Root?
    ensures Data(Fill(c, t)) == if c.InLeft? then Data(t) + [c.data] + Data(c.sib) else Data(c.sib) + [c.data] + Data(t)
    ensures Nodes(Fill(c, t)) ==
              if c.InLeft? then Nodes(t) + [c.node] + Nodes(c.sib) else Nodes(c.sib) + [c.node] + Nodes(t)
  {
  }

  /** The two focused trees have the same in-order contents. */
  ghost predicate SameContents(t: Tree, c: Ctx, t': Tree, c': Ctx) {
    Data(Plug(c, t)) == Data(Plug(c', t')) && Nodes(Plug(c, t)) == Nodes(Plug(c', t'))
  }

  lemma SameInside(c: Ctx, t: Tree, t': Tree)
    requires Data(t) == Data(t') && Nodes(t) == Nodes(t')
    ensures SameContents(t, c, t', c)
  {
    PlugContents(c, t);
    PlugContents(c, t');
  }

  // ---- insertion ----

  /** All is valid except that the red root of `t` may sit under a red parent. */
  predicate InsertInv(t: Tree, c: Ctx, h: int) {
    && t.Bin? && t.color.Red? && NoRedRed(t) && Balanced(t, h)
    && BalancedCtx(c, h) && NoRedRedCtx(c, Black) && RootBlack(c)
  }

  /** A red node hung into a hole of a valid tree leaves at most its parent to blame. */
  lemma InsertStart(t: Tree, c: Ctx) returns (h: int)
    requires t.Bin? && t.color.Red? && t.left.Leaf? && t.right.Leaf? && RedBlack(Plug(c, Leaf))
    ensures InsertInv(t, c, h)
  {
    h := UnplugRedBlack(c, Leaf);
  }

  /** A red parent has a black grandparent. */
  predicate RedParent(c: Ctx) {
    !c.Root? && c.color.Red? && !c.up.Root? && c.up.color.Black?
  }

  lemma RedHasGrandparent(t: Tree, c: Ctx, h: int)
    requires InsertInv(t, c, h) && !c.Root? && c.color.Red?
    ensures RedParent(c)
  {
    assert NoRedRedCtx(c.up, Red) && (c.up.Root? || RootBlack(c.up));
  }

  /** Parent and uncle turn black and the grandparent red: the new focus. */
  function Blackened(t: Tree, c: Ctx): Tree
    requires RedParent(c)
  {
    Fill(Beside(Painted(c.up, Red), Recolor(c.up.sib, Black)), Fill(Painted(c, Black), t))
  }

  lemma BlackenStep(t: Tree, c: Ctx, h: int)
    requires InsertInv(t, c, h) && RedParent(c) && TreeColor(c.up.sib).Red?
    ensures InsertInv(Blackened(t, c), c.up.up, h + 1)
    ensures SameContents(t, c, Blackened(t, c), c.up.up)
  {
    var g := c.up;
    assert BalancedCtx(g, h) && NoRedRedCtx(g, Red) && RootBlack(g);
    assert BalancedCtx(g.up, h + 1) && NoRedRedCtx(g.up, Black) && RootBlack(g.up);
    var p, u := Fill(Painted(c, Black), t), Recolor(g.sib, Black);
    assert Balanced(p, h + 1) && NoRedRed(p) && Balanced(u, h + 1) && NoRedRed(u);
    assert Data(u) == Data(g.sib) && Nodes(u) == Nodes(g.sib);
    SameInside(g.up, Fill(g, Fill(c, t)), Blackened(t, c));
  }

  /** An inner grandchild is rotated over its parent; the parent becomes the focus. */
  function InnerTree(t: Tree, c: Ctx): Tree
    requires t.Bin? && RedParent(c)
  {
    if c.InRight? then Bin(c.sib, c.color, c.node, c.data, t.left)
    else Bin(t.right, c.color, c.node, c.data, c.sib)
  }

  function InnerCtx(t: Tree, c: Ctx): Ctx
    requires t.Bin? && RedParent(c)
  {
    if c.InRight? then InLeft(c.up, t.color, t.node, t.data, t.right)
    else InRight(c.up, t.color, t.node, t.data, t.left)
  }

  lemma InnerStep(t: Tree, c: Ctx, h: int)
    requires InsertInv(t, c, h) && RedParent(c) && c.InLeft? != c.up.InLeft?
    ensures InsertInv(InnerTree(t, c), InnerCtx(t, c), h) && RedParent(InnerCtx(t, c))
    ensures Fill(InnerCtx(t, c), InnerTree(t, c)) ==
            if c.InRight? then RotatedLeft(Fill(c, t)) else RotatedRight(Fill(c, t))
    ensures SameContents(t, c, InnerTree(t, c), InnerCtx(t, c))
  {
    if c.InRight? { LeftRotationContents(Fill(c, t)); } else { RightRotationContents(Fill(c, t)); }
    SameInside(c.up, Fill(c, t), Fill(InnerCtx(t, c), InnerTree(t, c)));
  }

  /** An outer grandchild keeps the focus while its parent is rotated over the grandparent. */
  function OuterCtx(c: Ctx): Ctx
    requires RedParent(c)
  {
    var g := c.up;
    if c.InLeft? then InLeft(g.up, Black, c.node, c.data, Bin(c.sib, Red, g.node, g.data, g.sib))
    else InRight(g.up, Black, c.node, c.data, Bin(g.sib, Red, g.node, g.data, c.sib))
  }

  /** The grandparent's subtree, recoloured and not yet rotated. */
  function OuterTree(t: Tree, c: Ctx): Tree
    requires RedParent(c)
  {
    Fill(Painted(c.up, Red), Fill(Painted(c, Black), t))
  }

  lemma OuterStep(t: Tree, c: Ctx, h: int)
    requires InsertInv(t, c, h) && RedParent(c) && c.InLeft? == c.up.InLeft? && TreeColor(c.up.sib).Black?
    ensures InsertInv(t, OuterCtx(c), h)
    ensures Fill(OuterCtx(c), t) == if c.InLeft? then RotatedRight(OuterTree(t, c)) else RotatedLeft(OuterTree(t, c))
    ensures SameContents(t, c, t, OuterCtx(c))
  {
    var g := c.up;
    assert BalancedCtx(g, h) && NoRedRedCtx(g, Red) && RootBlack(g);
    assert BalancedCtx(g.up, h + 1) && NoRedRedCtx(g.up, Black) && RootBlack(g.up);
    assert Balanced(OuterCtx(c).sib, h) && NoRedRed(OuterCtx(c).sib);
    if c.InLeft? { RightRotationContents(OuterTree(t, c)); } else { LeftRotationContents(OuterTree(t, c)); }
    SameInside(c.up.up, Fill(c.up, Fill(c, t)), Fill(OuterCtx(c), t));
  }

  /** With a black parent, or none, blackening the root finishes. */
  lemma InsertDone(t: Tree, c: Ctx, h: int)
    requires InsertInv(t, c, h) && (c.Root? || c.color.Black?)
    ensures RedBlack(Recolor(Plug(c, t), Black))
    ensures Data(Recolor(Plug(c, t), Black)) == Data(Plug(c, t))
    ensures Nodes(Recolor(Plug(c, t), Black)) == Nodes(Plug(c, t))
  {
    if c.Root? {
      BalancedHeight(t.(color := Black), h + 1);
    } else {
      PlugRedBlack(c, t, h);
      assert Recolor(Plug(c, t), Black) == Plug(c, t) by { PlugIsBin(c, t); }
    }
  }

  lemma {:induction false} PlugIsBin(c: Ctx, t: Tree)
    ensures Plug(c, t).Leaf? <==> c.Root? && t.Leaf?
  {
    if !c.Root? { PlugIsBin(c.up, Fill(c, t)); }
  }

  // ---- erasure ----

  /** All is valid except that `t` is one black node short and its root may be red. */
  predicate EraseInv(t: Tree, c: Ctx, h: int) {
    && NoRedRed(Recolor(t, Black)) && Balanced(t, h)
    && BalancedCtx(c, h + 1) && NoRedRedCtx(c, Black) && RootBlack(c)
  }

  /** The sibling of a subtree that is one black node short exists, and so do its children when it is red. */
  lemma SiblingExists(t: Tree, c: Ctx, h: int)
    requires EraseInv(t, c, h) && !c.Root? && TreeColor(t).Black?
    ensures c.sib.Bin?
    ensures c.sib.color.Red? ==> c.sib.left.Bin? && c.sib.right.Bin? && c.color.Black?
  {
    NonNegative(t, h);
    assert Balanced(c.sib, h + 1);
    if c.sib.Bin? && c.sib.color.Red? {
      assert Balanced(c.sib.left, h + 1) && Balanced(c.sib.right, h + 1);
    }
  }

  lemma {:induction false} NonNegative(t: Tree, h: int)
    requires Balanced(t, h)
    ensures h >= 0
  {
    if !t.Leaf? { NonNegative(t.left, if t.color.Red? then h else h - 1); }
  }

  /** A red sibling is rotated over the parent. */
  function RedSiblingCtx(c: Ctx): Ctx
    requires !c.Root? && c.sib.Bin?
  {
    var s := c.sib;
    if c.InLeft? then InLeft(InLeft(c.up, Black, s.node, s.data, s.right), Red, c.node, c.data, s.left)
    else InRight(InRight(c.up, Black, s.node, s.data, s.left), Red, c.node, c.data, s.right)
  }

  /** The parent's subtree, recoloured and not yet rotated. */
  function RedSiblingTree(t: Tree, c: Ctx): Tree
    requires !c.Root?
  {
    Fill(Beside(Painted(c, Red), Recolor(c.sib, Black)), t)
  }

  lemma RedSiblingStep(t: Tree, c: Ctx, h: int)
    requires EraseInv(t, c, h) && !c.Root? && TreeColor(t).Black? && TreeColor(c.sib).Red?
    ensures EraseInv(t, RedSiblingCtx(c), h) && TreeColor(RedSiblingCtx(c).sib).Black?
    ensures Plug(RedSiblingCtx(c), t) ==
            Plug(c.up, if c.InLeft? then RotatedLeft(RedSiblingTree(t, c)) else RotatedRight(RedSiblingTree(t, c)))
    ensures SameContents(t, c, t, RedSiblingCtx(c))
  {
    var r := RedSiblingTree(t, c);
    if c.InLeft? { LeftRotationContents(r); } else { RightRotationContents(r); }
    SameInside(c.up, Fill(c, t), if c.InLeft? then RotatedLeft(r) else RotatedRight(r));
  }

  /** A black sibling with black children turns red and the shortage moves up. */
  function ShiftedUp(t: Tree, c: Ctx): Tree
    requires !c.Root?
  {
    Fill(Beside(c, Recolor(c.sib, Red)), t)
  }

  /** A context that accepts a red root accepts a black one. */
  lemma WeakenAbove(c: Ctx, k: Color)
    requires NoRedRedCtx(c, k)
    ensures NoRedRedCtx(c, Black)
  {
  }

  lemma ShiftStep(t: Tree, c: Ctx, h: int)
    requires EraseInv(t, c, h) && !c.Root? && TreeColor(t).Black?
    requires c.sib.Bin? && c.sib.color.Black? && TreeColor(c.sib.left).Black? && TreeColor(c.sib.right).Black?
    ensures EraseInv(ShiftedUp(t, c), c.up, if c.color.Black? then h + 1 else h)
    ensures SameContents(t, c, ShiftedUp(t, c), c.up)
  {
    assert BalancedCtx(c.up, if c.color.Black? then h + 2 else h + 1);
    assert NoRedRedCtx(c.up, c.color);
    WeakenAbove(c.up, c.color);
    SameInside(c.up, Fill(c, t), ShiftedUp(t, c));
  }

  /** The child of the sibling on the side of the shortage. */
  function NearChild(c: Ctx): Tree
    requires !c.Root? && c.sib.Bin?
  {
    if c.InLeft? then c.sib.left else c.sib.right
  }

  function FarChild(c: Ctx): Tree
    requires !c.Root? && c.sib.Bin?
  {
    if c.InLeft? then c.sib.right else c.sib.left
  }

  /** The sibling's subtree after recolouring, before the rotation that brings the near child up. */
  function NearTree(c: Ctx): Tree
    requires !c.Root? && c.sib.Bin?
  {
    if c.InLeft? then c.sib.(color := Red, left := Recolor(c.sib.left, Black))
    else c.sib.(color := Red, right := Recolor(c.sib.right, Black))
  }

  function NearCtx(c: Ctx): Ctx
    requires !c.Root? && c.sib.Bin? && NearChild(c).Bin?
  {
    Beside(c, if c.InLeft? then RotatedRight(NearTree(c)) else RotatedLeft(NearTree(c)))
  }

  lemma NearStep(t: Tree, c: Ctx, h: int)
    requires EraseInv(t, c, h) && !c.Root? && TreeColor(t).Black?
    requires c.sib.Bin? && c.sib.color.Black? && TreeColor(NearChild(c)).Red? && TreeColor(FarChild(c)).Black?
    ensures EraseInv(t, NearCtx(c), h)
    ensures var c' := NearCtx(c); c'.sib.Bin? && c'.sib.color.Black? && TreeColor(FarChild(c')).Red?
    ensures SameContents(t, c, t, NearCtx(c))
  {
    var n, c', x := NearTree(c), NearCtx(c), NearChild(c);
    assert Balanced(c.sib, h + 1) && NoRedRed(c.sib);
    assert Balanced(x, h) && NoRedRed(x) && Balanced(FarChild(c), h) && NoRedRed(FarChild(c));
    assert Balanced(x.left, h) && Balanced(x.right, h);
    assert Data(Recolor(x, Black)) == Data(x) && Nodes(Recolor(x, Black)) == Nodes(x);
    assert Balanced(c'.sib, h + 1) && NoRedRed(c'.sib);
    assert Data(n) == Data(c.sib) && Nodes(n) == Nodes(c.sib);
    if c.InLeft? { RightRotationContents(n); } else { LeftRotationContents(n); }
    SameInside(c.up, Fill(c, t), Fill(c', t));
  }

  /** The parent's subtree after the last recolouring, before the rotation that brings the sibling up. */
  function FarTree(t: Tree, c: Ctx): Tree
    requires !c.Root? && c.sib.Bin?
  {
    var s := if c.InLeft? then c.sib.(color := c.color, right := Recolor(c.sib.right, Black))
             else c.sib.(color := c.color, left := Recolor(c.sib.left, Black));
    Fill(Beside(Painted(c, Black), s), t)
  }

  function FarRotated(t: Tree, c: Ctx): Tree
    requires !c.Root? && c.sib.Bin?
  {
    if c.InLeft? then RotatedLeft(FarTree(t, c)) else RotatedRight(FarTree(t, c))
  }

  lemma FarSibling(c: Ctx)
    requires !c.Root? && c.sib.Bin?
    ensures var s := if c.InLeft? then c.sib.(color := c.color, right := Recolor(c.sib.right, Black))
                     else c.sib.(color := c.color, left := Recolor(c.sib.left, Black));
            Data(s) == Data(c.sib) && Nodes(s) == Nodes(c.sib)
  {
  }

  lemma FarStep(t: Tree, c: Ctx, h: int)
    requires EraseInv(t, c, h) && !c.Root? && TreeColor(t).Black?
    requires c.sib.Bin? && c.sib.color.Black? && TreeColor(FarChild(c)).Red?
    ensures RedBlack(Plug(c.up, FarRotated(t, c)))
    ensures SameContents(t, c, FarRotated(t, c), c.up)
  {
    var f, r, x := FarTree(t, c), FarRotated(t, c), FarChild(c);
    assert Balanced(c.sib, h + 1) && NoRedRed(c.sib);
    assert Balanced(x, h) && NoRedRed(x) && Balanced(NearChild(c), h) && NoRedRed(NearChild(c));
    assert Balanced(Recolor(x, Black), h + 1) && NoRedRed(Recolor(x, Black));
    assert Data(Recolor(x, Black)) == Data(x) && Nodes(Recolor(x, Black)) == Nodes(x);
    assert Recolor(t, Black) == t;
    FarSibling(c);
    if c.InLeft? { LeftRotationContents(f); } else { RightRotationContents(f); }
    SameInside(c.up, Fill(c, t), r);
    var inner := if c.InLeft? then r.left else r.right;
    assert NoRedRed(t) && inner.color.Black? && NoRedRed(inner);
    assert NoRedRed(r) by {
      assert NoRedRed(r.left) && NoRedRed(r.right);
    }
    PlugRedBlack(c.up, r, if c.color.Black? then h + 2 else h + 1);
  }

  /** At the root, or on a red node, blackening the focus finishes. */
  lemma EraseDone(t: Tree, c: Ctx, h: int)
    requires EraseInv(t, c, h) && (c.Root? || TreeColor(t).Red?)
    ensures RedBlack(Plug(c, Recolor(t, Black)))
    ensures SameContents(t, c, Recolor(t, Black), c)
  {
    SameInside(c, t, Recolor(t, Black));
    if c.Root? {
      BalancedHeight(Recolor(t, Black), if TreeColor(t).Red? then h + 1 else h);
    } else {
      PlugRedBlack(c, Recolor(t, Black), h + 1);
    }
  }
}
