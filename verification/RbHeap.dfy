/** When a snapshot of the heap represents a focused tree, and how pointer updates change it. */
module RbHeap {
  import opened Elements
  import opened RbShape

  datatype Cell = Cell(left: Node?, right: Node?, parent: Node?, color: Color, data: Elem)

  type Heap = map<Node, Cell>

  ghost function Snapshot(ns: set<Node>): (h: Heap)
    reads ns
    ensures h.Keys == ns
  {
    map n | n in ns :: Cell(n.left, n.right, n.parent, n.color, n.data)
  }

  ghost function Members(t: Tree): set<Node> {
    if t.Leaf? then {} else Members(t.left) + {t.node} + Members(t.right)
  }

  ghost function MembersCtx(c: Ctx): set<Node> {
    if c.Root? then {} else MembersCtx(c.up) + {c.node} + Members(c.sib)
  }

  /** No node occurs twice. */
  ghost predicate Distinct(t: Tree) {
    t.Leaf? ||
    (&& Distinct(t.left) && Distinct(t.right)
     && t.node !in Members(t.left) && t.node !in Members(t.right)
     && Members(t.left) !! Members(t.right))
  }

  ghost predicate DistinctCtx(c: Ctx) {
    c.Root? ||
    (&& DistinctCtx(c.up) && Distinct(c.sib)
     && c.node !in MembersCtx(c.up) && c.node !in Members(c.sib)
     && MembersCtx(c.up) !! Members(c.sib))
  }

  /** The heap holds `t` below the node `up`, with child and parent links that agree. */
  ghost predicate Links(h: Heap, t: Tree, up: Node?) {
    t.Leaf? ||
    (&& t.node in h
     && h[t.node] == Cell(Ptr(t.left), Ptr(t.right), up, t.color, t.data)
     && Links(h, t.left, t.node) && Links(h, t.right, t.node))
  }

  /** The heap holds the frames of `c` around a hole whose pointer is `child`. */
  ghost predicate LinksCtx(h: Heap, c: Ctx, child: Node?, root: Node?) {
    match c
    case Root => root == child
    case InLeft(up, k, n, d, sib) =>
      && n in h && h[n] == Cell(child, Ptr(sib), Above(up), k, d)
      && Links(h, sib, n) && LinksCtx(h, up, n, root)
    case InRight(up, k, n, d, sib) =>
      && n in h && h[n] == Cell(Ptr(sib), child, Above(up), k, d)
      && Links(h, sib, n) && LinksCtx(h, up, n, root)
  }

  /** The nodes `ns` with root pointer `root` are exactly the tree `t` in the context `c`. */
  ghost predicate Holds(h: Heap, ns: set<Node>, root: Node?, t: Tree, c: Ctx) {
    && h.Keys == ns == Members(t) + MembersCtx(c)
    && Distinct(t) && DistinctCtx(c) && Members(t) !! MembersCtx(c)
    && Links(h, t, Above(c)) && LinksCtx(h, c, Ptr(t), root)
  }

  /** The focus can move between a subtree and its parent's subtree. */
  lemma Refocus(h: Heap, ns: set<Node>, root: Node?, t: Tree, c: Ctx)
    requires !c.Root?
    ensures Holds(h, ns, root, t, c) <==> Holds(h, ns, root, Fill(c, t), c.up)
  {
    var f := Fill(c, t);
    assert Members(f) == Members(t) + {c.node} + Members(c.sib);
    assert MembersCtx(c) == MembersCtx(c.up) + {c.node} + Members(c.sib);
    assert Members(t) + MembersCtx(c) == Members(f) + MembersCtx(c.up);
  }

  /** Links survive any change outside the tree. */
  lemma {:induction false} LinksFrame(h: Heap, h': Heap, t: Tree, up: Node?)
    requires Links(h, t, up)
    requires forall n :: n in Members(t) ==> n in h && n in h' && h'[n] == h[n]
    ensures Links(h', t, up)
  {
    if !t.Leaf? {
      LinksFrame(h, h', t.left, t.node);
      LinksFrame(h, h', t.right, t.node);
    }
  }

  lemma {:induction false} LinksCtxFrame(h: Heap, h': Heap, c: Ctx, child: Node?, root: Node?)
    requires LinksCtx(h, c, child, root)
    requires forall n :: n in MembersCtx(c) ==> n in h && n in h' && h'[n] == h[n]
    ensures LinksCtx(h', c, child, root)
  {
    if !c.Root? {
      LinksFrame(h, h', c.sib, c.node);
      LinksCtxFrame(h, h', c.up, c.node, root);
    }
  }

  lemma {:induction false} LinksMembers(h: Heap, t: Tree, up: Node?)
    requires Links(h, t, up)
    ensures Members(t) <= h.Keys
  {
    if !t.Leaf? {
      LinksMembers(h, t.left, t.node);
      LinksMembers(h, t.right, t.node);
    }
  }

  lemma {:induction false} LinksCtxMembers(h: Heap, c: Ctx, child: Node?, root: Node?)
    requires LinksCtx(h, c, child, root)
    ensures MembersCtx(c) <= h.Keys
  {
    if !c.Root? {
      LinksMembers(h, c.sib, c.node);
      LinksCtxMembers(h, c.up, c.node, root);
    }
  }

  /** The root pointer is the hole exactly when there is nothing above the hole. */
  lemma {:induction false} RootPointer(h: Heap, c: Ctx, child: Node?, root: Node?)
    requires LinksCtx(h, c, child, root)
    ensures c.Root? ==> root == child
    ensures !c.Root? ==> root in MembersCtx(c)
  {
    if !c.Root? && !c.up.Root? {
      RootPointer(h, c.up, c.node, root);
    }
  }

  // ---- what one step of the code does to the snapshot ----

  /** Write one node's colour. */
  lemma RecolorHolds(h: Heap, h': Heap, ns: set<Node>, root: Node?, t: Tree, c: Ctx, k: Color)
    requires Holds(h, ns, root, t, c) && t.Bin?
    requires h' == h[t.node := h[t.node].(color := k)]
    ensures Holds(h', ns, root, Recolor(t, k), c)
  {
    LinksFrame(h, h', t.left, t.node);
    LinksFrame(h, h', t.right, t.node);
    LinksCtxFrame(h, h', c, t.node, root);
  }

  /** Write one node's element. */
  lemma RewriteHolds(h: Heap, h': Heap, ns: set<Node>, root: Node?, t: Tree, c: Ctx, d: Elem)
    requires Holds(h, ns, root, t, c) && t.Bin?
    requires h' == h[t.node := h[t.node].(data := d)]
    ensures Holds(h', ns, root, t.(data := d), c)
  {
    LinksFrame(h, h', t.left, t.node);
    LinksFrame(h, h', t.right, t.node);
    LinksCtxFrame(h, h', c, t.node, root);
  }

  /** Redirect the link from above the hole: the parent's child link, or the root pointer. */
  ghost function Relink(h: Heap, c: Ctx, child: Node?): Heap
  {
    if c.Root? || c.node !in h then h
    else if c.InLeft? then h[c.node := h[c.node].(left := child)]
    else h[c.node := h[c.node].(right := child)]
  }

  lemma RelinkCtx(h: Heap, c: Ctx, old_: Node?, child: Node?, root: Node?)
    requires LinksCtx(h, c, old_, root) && DistinctCtx(c)
    ensures LinksCtx(Relink(h, c, child), c, child, if c.Root? then child else root)
  {
    if !c.Root? {
      var h' := Relink(h, c, child);
      LinksMembers(h, c.sib, c.node);
      LinksCtxMembers(h, c.up, c.node, root);
      LinksFrame(h, h', c.sib, c.node);
      LinksCtxFrame(h, h', c.up, c.node, root);
    }
  }

  /** Give a subtree another parent pointer. */
  ghost function Reparent(h: Heap, t: Tree, up: Node?): Heap
  {
    if t.Leaf? || t.node !in h then h else h[t.node := h[t.node].(parent := up)]
  }

  lemma ReparentLinks(h: Heap, t: Tree, up: Node?, up': Node?)
    requires Links(h, t, up) && Distinct(t)
    ensures Links(Reparent(h, t, up'), t, up')
  {
    if !t.Leaf? {
      LinksMembers(h, t.left, t.node);
      LinksMembers(h, t.right, t.node);
      LinksFrame(h, Reparent(h, t, up'), t.left, t.node);
      LinksFrame(h, Reparent(h, t, up'), t.right, t.node);
    }
  }

  // ---- rotations ----

  /** Rotate left at the root of `t`: the right child comes up. */
  function RotatedLeft(t: Tree): Tree
    requires t.Bin? && t.right.Bin?
  {
    var r := t.right;
    Bin(Bin(t.left, t.color, t.node, t.data, r.left), r.color, r.node, r.data, r.right)
  }

  /** Rotate right at the root of `t`: the left child comes up. */
  function RotatedRight(t: Tree): Tree
    requires t.Bin? && t.left.Bin?
  {
    var l := t.left;
    Bin(l.left, l.color, l.node, l.data, Bin(l.right, t.color, t.node, t.data, t.right))
  }

  lemma Reassociate<T>(a: seq<T>, x: T, b: seq<T>, y: T, d: seq<T>)
    ensures a + [x] + (b + [y] + d) == (a + [x] + b) + [y] + d
  {
  }

  /** A rotation keeps the in-order contents. */
  lemma LeftRotationContents(t: Tree)
    requires t.Bin? && t.right.Bin?
    ensures Data(RotatedLeft(t)) == Data(t) && Nodes(RotatedLeft(t)) == Nodes(t)
  {
    var l, r := t.left, t.right;
    Reassociate(Data(l), t.data, Data(r.left), r.data, Data(r.right));
    Reassociate(Nodes(l), t.node, Nodes(r.left), r.node, Nodes(r.right));
  }

  lemma RightRotationContents(t: Tree)
    requires t.Bin? && t.left.Bin?
    ensures Data(RotatedRight(t)) == Data(t) && Nodes(RotatedRight(t)) == Nodes(t)
  {
    LeftRotationContents(RotatedRight(t));
  }

  /** The cells after rotating `x` below its right child `y`, whose left subtree `b` changes sides. */
  ghost predicate LeftRotation(h: Heap, h': Heap, x: Node, y: Node, b: Tree, c: Ctx) {
    && h'.Keys == h.Keys && x in h && y in h
    && h'[x] == h[x].(right := Ptr(b), parent := y)
    && h'[y] == h[y].(left := x, parent := h[x].parent)
    && Around(h, h', x, y, b, c)
  }

  /** The cells after rotating `x` below its left child `y`, whose right subtree `b` changes sides. */
  ghost predicate RightRotation(h: Heap, h': Heap, x: Node, y: Node, b: Tree, c: Ctx) {
    && h'.Keys == h.Keys && x in h && y in h
    && h'[x] == h[x].(left := Ptr(b), parent := y)
    && h'[y] == h[y].(right := x, parent := h[x].parent)
    && Around(h, h', x, y, b, c)
  }

  /** What a rotation does to the cells other than those of `x` and `y`. */
  ghost predicate Around(h: Heap, h': Heap, x: Node, y: Node, b: Tree, c: Ctx)
    requires h'.Keys == h.Keys
  {
    && (b.Bin? && b.node in h ==> h'[b.node] == h[b.node].(parent := x))
    && (!c.Root? && c.node in h ==> h'[c.node] == Relink(h, c, y)[c.node])
    && forall n :: n in h && n != x && n != y && n != Ptr(b) && n != Above(c) ==> h'[n] == h[n]
  }

  /** The parts that a rotation does not rearrange stay linked. */
  lemma AroundLinks(h: Heap, h': Heap, root: Node?, x: Node, y: Node, b: Tree, c: Ctx)
    requires h'.Keys == h.Keys && x in h && y in h && Around(h, h', x, y, b, c)
    requires Links(h, b, y) && Distinct(b) && x !in Members(b) && y !in Members(b)
    requires LinksCtx(h, c, x, root) && DistinctCtx(c) && x !in MembersCtx(c) && y !in MembersCtx(c)
    requires Members(b) !! MembersCtx(c)
    ensures Links(h', b, x)
    ensures LinksCtx(h', c, y, if c.Root? then y else root)
  {
    LinksMembers(h, b, y);
    ReparentLinks(h, b, y, x);
    LinksFrame(Reparent(h, b, x), h', b, x);
    LinksCtxMembers(h, c, x, root);
    RelinkCtx(h, c, x, y, root);
    LinksCtxFrame(Relink(h, c, y), h', c, y, if c.Root? then y else root);
  }

  lemma AroundElsewhere(h: Heap, h': Heap, x: Node, y: Node, b: Tree, c: Ctx, s: Tree, up: Node?)
    requires h'.Keys == h.Keys && Around(h, h', x, y, b, c) && Links(h, s, up)
    requires x !in Members(s) && y !in Members(s) && Members(s) !! Members(b) && Members(s) !! MembersCtx(c)
    ensures Links(h', s, up)
  {
    assert b.Bin? ==> b.node in Members(b);
    assert !c.Root? ==> c.node in MembersCtx(c);
    LinksMembers(h, s, up);
    LinksFrame(h, h', s, up);
  }

  lemma LeftRotationMembers(t: Tree)
    requires t.Bin? && t.right.Bin? && Distinct(t)
    ensures Members(RotatedLeft(t)) == Members(t) && Distinct(RotatedLeft(t))
  {
    var x, y, a, b, d := t.node, t.right.node, t.left, t.right.left, t.right.right;
    assert Members(t) == Members(a) + {x} + (Members(b) + {y} + Members(d));
    assert Members(RotatedLeft(t)) == (Members(a) + {x} + Members(b)) + {y} + Members(d);
    assert Distinct(t.right) && Distinct(Bin(a, t.color, x, t.data, b));
  }

  lemma LeftRotationLinks(h: Heap, h': Heap, root: Node?, t: Tree, c: Ctx)
    requires t.Bin? && t.right.Bin? && Distinct(t) && DistinctCtx(c) && Members(t) !! MembersCtx(c)
    requires Links(h, t, Above(c)) && LinksCtx(h, c, t.node, root)
    requires LeftRotation(h, h', t.node, t.right.node, t.right.left, c)
    ensures Links(h', RotatedLeft(t), Above(c))
    ensures LinksCtx(h', c, t.right.node, if c.Root? then t.right.node else root)
  {
    var x, y, a, b, d := t.node, t.right.node, t.left, t.right.left, t.right.right;
    var inner := Bin(a, t.color, x, t.data, b);
    assert Links(h, t.right, x) && Distinct(t.right);
    assert Members(t) == Members(a) + {x} + (Members(b) + {y} + Members(d));
    AroundLinks(h, h', root, x, y, b, c);
    AroundElsewhere(h, h', x, y, b, c, a, x);
    AroundElsewhere(h, h', x, y, b, c, d, y);
    assert Links(h', inner, y);
  }

  lemma LeftRotationHolds(h: Heap, h': Heap, ns: set<Node>, root: Node?, t: Tree, c: Ctx)
    requires Holds(h, ns, root, t, c) && t.Bin? && t.right.Bin?
    requires LeftRotation(h, h', t.node, t.right.node, t.right.left, c)
    ensures Holds(h', ns, if c.Root? then t.right.node else root, RotatedLeft(t), c)
  {
    LeftRotationMembers(t);
    LeftRotationLinks(h, h', root, t, c);
  }

  lemma RightRotationMembers(t: Tree)
    requires t.Bin? && t.left.Bin? && Distinct(t)
    ensures Members(RotatedRight(t)) == Members(t) && Distinct(RotatedRight(t))
  {
    var x, y, a, b, d := t.node, t.left.node, t.left.left, t.left.right, t.right;
    assert Members(t) == (Members(a) + {y} + Members(b)) + {x} + Members(d);
    assert Members(RotatedRight(t)) == Members(a) + {y} + (Members(b) + {x} + Members(d));
    assert Distinct(t.left) && Distinct(Bin(b, t.color, x, t.data, d));
  }

  lemma RightRotationLinks(h: Heap, h': Heap, root: Node?, t: Tree, c: Ctx)
    requires t.Bin? && t.left.Bin? && Distinct(t) && DistinctCtx(c) && Members(t) !! MembersCtx(c)
    requires Links(h, t, Above(c)) && LinksCtx(h, c, t.node, root)
    requires RightRotation(h, h', t.node, t.left.node, t.left.right, c)
    ensures Links(h', RotatedRight(t), Above(c))
    ensures LinksCtx(h', c, t.left.node, if c.Root? then t.left.node else root)
  {
    var x, y, a, b, d := t.node, t.left.node, t.left.left, t.left.right, t.right;
    var inner := Bin(b, t.color, x, t.data, d);
    assert Links(h, t.left, x) && Distinct(t.left);
    assert Members(t) == (Members(a) + {y} + Members(b)) + {x} + Members(d);
    AroundLinks(h, h', root, x, y, b, c);
    AroundElsewhere(h, h', x, y, b, c, a, y);
    AroundElsewhere(h, h', x, y, b, c, d, x);
    assert Links(h', inner, y);
  }

  lemma RightRotationHolds(h: Heap, h': Heap, ns: set<Node>, root: Node?, t: Tree, c: Ctx)
    requires Holds(h, ns, root, t, c) && t.Bin? && t.left.Bin?
    requires RightRotation(h, h', t.node, t.left.node, t.left.right, c)
    ensures Holds(h', ns, if c.Root? then t.left.node else root, RotatedRight(t), c)
  {
    RightRotationMembers(t);
    RightRotationLinks(h, h', root, t, c);
  }

  // ---- attaching and unlinking a node ----

  /** Hang a new red node into an empty hole. */
  lemma AttachHolds(h: Heap, h': Heap, ns: set<Node>, root: Node?, c: Ctx, n: Node, d: Elem)
    requires Holds(h, ns, root, Leaf, c) && n !in ns
    requires h' == Relink(h, c, n)[n := Cell(null, null, Above(c), Red, d)]
    ensures Holds(h', ns + {n}, if c.Root? then n else root, Bin(Leaf, Red, n, d, Leaf), c)
  {
    var t := Bin(Leaf, Red, n, d, Leaf);
    assert Members(t) == {n};
    LinksCtxMembers(h, c, null, root);
    RelinkCtx(h, c, null, n, root);
    LinksCtxFrame(Relink(h, c, n), h', c, n, if c.Root? then n else root);
  }

  /** The child that takes the place of a node with at most one child. */
  function OnlyChild(t: Tree): Tree
    requires t.Bin?
  {
    if t.left.Bin? then t.left else t.right
  }

  /** Unlink the node of `t`, which has at most one child. */
  lemma UnlinkHolds(h: Heap, h': Heap, ns: set<Node>, root: Node?, t: Tree, c: Ctx)
    requires Holds(h, ns, root, t, c) && t.Bin? && (t.left.Leaf? || t.right.Leaf?)
    requires h' == Relink(Reparent(h, OnlyChild(t), Above(c)), c, Ptr(OnlyChild(t))) - {t.node}
    ensures Holds(h', ns - {t.node}, if c.Root? then Ptr(OnlyChild(t)) else root, OnlyChild(t), c)
  {
    hide Members, MembersCtx, Distinct, DistinctCtx, Links, LinksCtx, OnlyChild;
    var s, y := OnlyChild(t), t.node;
    var h1 := Reparent(h, s, Above(c));
    var h2 := Relink(h1, c, Ptr(s));
    var root' := if c.Root? then Ptr(s) else root;
    OnlyChildHeld(h, t, c);
    ReparentLinks(h, s, y, Above(c));
    LinksFrame(h1, h', s, Above(c));
    LinksCtxFrame(h, h1, c, y, root);
    RelinkCtx(h1, c, y, Ptr(s), root);
    LinksCtxFrame(h2, h', c, Ptr(s), root');
    assert ns - {y} == Members(s) + MembersCtx(c);
  }

  lemma OnlyChildHeld(h: Heap, t: Tree, c: Ctx)
    requires t.Bin? && (t.left.Leaf? || t.right.Leaf?) && Distinct(t) && Links(h, t, Above(c))
    ensures var s := OnlyChild(t);
            && Members(t) == Members(s) + {t.node} && t.node !in Members(s) && Distinct(s) && Links(h, s, t.node)
            && (s.Bin? ==> s.node in Members(s))
    ensures !c.Root? ==> c.node in MembersCtx(c)
  {
  }
}
