/**
 * The red-black tree with parent pointers of cpp/myvsc/rb_tree/rb_tree.cpp.
 *
 * The nodes are heap objects whose links and colours are rewired in place. Two ghost values
 * accompany them: a Store, the fields of every node as a map, and a Tree with a context (Ctx),
 * which records what the store means. A rotation deep inside the tree is then a change at one
 * focus, and all reasoning about shapes is about values.
 */
module RbNodes {

  datatype Color = Red | Black

  class Node {
    var left: Node?
    var right: Node?
    var parent: Node?
    var key: int
    var data: int
    var color: Color

    constructor (key: int, data: int, parent: Node?)
      ensures this.key == key && this.data == data && this.parent == parent
      ensures left == null && right == null && color == Red
    {
      this.key, this.data, this.parent := key, data, parent;
      left, right, color := null, null, Red;
    }
  }

  // ---------------------------------------------------------------------------------------------
  // Stores
  // ---------------------------------------------------------------------------------------------

  datatype Rec = Rec(left: Node?, right: Node?, parent: Node?, key: int, data: int, color: Color)

  type Store = map<Node, Rec>

  ghost predicate Match(M: Store)
    reads M.Keys
  {
    forall n :: n in M ==> Rec(n.left, n.right, n.parent, n.key, n.data, n.color) == M[n]
  }

  // ---------------------------------------------------------------------------------------------
  // Trees and contexts, and the store each one stands for
  // ---------------------------------------------------------------------------------------------

  /** One node as a value: its identity and the fields that are not links. */
  datatype Cell = Cell(node: Node, key: int, data: int, color: Color)

  datatype Tree = Leaf | Bin(l: Tree, v: Cell, r: Tree)

  /** A tree with a hole: the path from the hole up to the root, with the siblings passed on the way. */
  datatype Ctx = Top | InL(v: Cell, sib: Tree, up: Ctx) | InR(sib: Tree, v: Cell, up: Ctx)

  ghost function Nodes(t: Tree): set<Node> {
    match t
    case Leaf => {}
    case Bin(l, v, r) => Nodes(l) + {v.node} + Nodes(r)
  }

  ghost function CtxNodes(cx: Ctx): set<Node> {
    if cx.Top? then {} else {cx.v.node} + Nodes(cx.sib) + CtxNodes(cx.up)
  }

  /** No node occurs twice. */
  ghost predicate Sep(t: Tree) {
    match t
    case Leaf => true
    case Bin(l, v, r) => Sep(l) && Sep(r) && v.node !in Nodes(l) + Nodes(r) && Nodes(l) !! Nodes(r)
  }

  ghost predicate CtxSep(cx: Ctx) {
    cx.Top? ||
    (Sep(cx.sib) && CtxSep(cx.up) && cx.v.node !in Nodes(cx.sib) + CtxNodes(cx.up) && Nodes(cx.sib) !! CtxNodes(cx.up))
  }

  ghost predicate Apart(cx: Ctx, t: Tree) {
    Sep(t) && CtxSep(cx) && Nodes(t) !! CtxNodes(cx)
  }

  ghost function Ptr(t: Tree): Node? { if t.Leaf? then null else t.v.node }

  ghost function ParentOf(cx: Ctx): Node? { if cx.Top? then null else cx.v.node }

  ghost function RootOf(cx: Ctx, t: Tree): Node? {
    if cx.Top? then Ptr(t) else if cx.up.Top? then cx.v.node else RootOf(cx.up, Leaf)
  }

  ghost function CellRec(v: Cell, left: Node?, right: Node?, parent: Node?): Rec {
    Rec(left, right, parent, v.key, v.data, v.color)
  }

  /** The store holds t, with p as the parent link of its root. */
  ghost predicate Is(M: Store, t: Tree, p: Node?) {
    match t
    case Leaf => true
    case Bin(l, v, r) =>
      && v.node in M && M[v.node] == CellRec(v, Ptr(l), Ptr(r), p)
      && Is(M, l, v.node) && Is(M, r, v.node)
  }

  /** The store holds cx, with x in its hole. */
  ghost predicate CtxIs(M: Store, cx: Ctx, x: Node?) {
    cx.Top? ||
    (&& cx.v.node in M
     && M[cx.v.node] == (if cx.InL? then CellRec(cx.v, x, Ptr(cx.sib), ParentOf(cx.up))
                         else CellRec(cx.v, Ptr(cx.sib), x, ParentOf(cx.up)))
     && Is(M, cx.sib, cx.v.node) && CtxIs(M, cx.up, cx.v.node))
  }

  /** The store consists of t at the focus and cx around it. */
  ghost predicate At(M: Store, cx: Ctx, t: Tree) {
    Apart(cx, t) && M.Keys == Nodes(t) + CtxNodes(cx) && Is(M, t, ParentOf(cx)) && CtxIs(M, cx, Ptr(t))
  }

  lemma {:induction false} IsFrame(M: Store, M': Store, t: Tree, p: Node?)
    requires Is(M, t, p) && forall n :: n in Nodes(t) ==> n in M && n in M' && M'[n] == M[n]
    ensures Is(M', t, p)
    decreases t
  {
    if t.Bin? { IsFrame(M, M', t.l, t.v.node); IsFrame(M, M', t.r, t.v.node); }
  }

  lemma {:induction false} CtxFrame(M: Store, M': Store, cx: Ctx, x: Node?)
    requires CtxIs(M, cx, x) && forall n :: n in CtxNodes(cx) ==> n in M && n in M' && M'[n] == M[n]
    ensures CtxIs(M', cx, x)
    decreases cx
  {
    if !cx.Top? { IsFrame(M, M', cx.sib, cx.v.node); CtxFrame(M, M', cx.up, cx.v.node); }
  }

  ghost function Fill(cx: Ctx, t: Tree): Tree
    requires !cx.Top?
  {
    if cx.InL? then Bin(t, cx.v, cx.sib) else Bin(cx.sib, cx.v, t)
  }

  ghost function Plug(cx: Ctx, t: Tree): Tree
    decreases cx
  {
    if cx.Top? then t else Plug(cx.up, Fill(cx, t))
  }

  /** Moving the focus up (or, read backwards, down) changes nothing. */
  lemma Up(M: Store, cx: Ctx, t: Tree)
    requires !cx.Top?
    ensures At(M, cx, t) <==> At(M, cx.up, Fill(cx, t))
    ensures RootOf(cx, t) == RootOf(cx.up, Fill(cx, t))
  {}

  lemma {:induction false} Close(M: Store, cx: Ctx, t: Tree)
    requires At(M, cx, t)
    ensures At(M, Top, Plug(cx, t)) && RootOf(cx, t) == Ptr(Plug(cx, t))
    decreases cx
  {
    if !cx.Top? { Up(M, cx, t); Close(M, cx.up, Fill(cx, t)); }
  }

  /** The root pointer is the focus exactly when nothing is above the focus. */
  lemma {:induction false} RootIsFocus(cx: Ctx, t: Tree)
    requires Apart(cx, t)
    ensures cx.Top? <==> RootOf(cx, t) == Ptr(t)
    ensures !cx.Top? ==> RootOf(cx, t) in CtxNodes(cx)
    decreases cx
  {
    if !cx.Top? && !cx.up.Top? { RootIsFocus(cx.up, Leaf); }
  }

  // ---------------------------------------------------------------------------------------------
  // Rotations
  // ---------------------------------------------------------------------------------------------

  ghost function Attach(M: Store, p: Node?, x: Node, y: Node): Store
    requires p != null ==> p in M
  {
    if p == null then M
    else if M[p].right == x then M[p := M[p].(right := y)]
    else M[p := M[p].(left := y)]
  }

  ghost function Adopt(M: Store, b: Node?, p: Node?): Store
    requires b != null ==> b in M
  {
    if b == null then M else M[b := M[b].(parent := p)]
  }

  /** Hanging a subtree under another parent, all else inside it untouched. */
  lemma Reparent(M: Store, M': Store, t: Tree, p: Node?, p': Node?)
    requires Sep(t) && Is(M, t, p)
    requires forall n :: n in Nodes(t) ==>
      n in M && n in M' && M'[n] == (if n == Ptr(t) then M[n].(parent := p') else M[n])
    ensures Is(M', t, p')
  {
    if t.Bin? { IsFrame(M, M', t.l, t.v.node); IsFrame(M, M', t.r, t.v.node); }
  }

  /** Filling the hole of a context with another subtree, all else in it untouched. */
  lemma Rehang(M: Store, M': Store, cx: Ctx, x: Node?, x': Node?)
    requires CtxSep(cx) && CtxIs(M, cx, x)
    requires forall n :: n in CtxNodes(cx) ==> n in M && n in M'
    requires forall n :: n in CtxNodes(cx) && n != ParentOf(cx) ==> M'[n] == M[n]
    requires cx.InL? ==> M'[cx.v.node] == M[cx.v.node].(left := x')
    requires cx.InR? ==> M'[cx.v.node] == M[cx.v.node].(right := x')
    ensures CtxIs(M', cx, x')
  {
    if !cx.Top? { IsFrame(M, M', cx.sib, cx.v.node); CtxFrame(M, M', cx.up, cx.v.node); }
  }

  /** Which child link of the parent leads to the focus. */
  lemma HoleSide(M: Store, cx: Ctx, t: Tree)
    requires At(M, cx, t) && t.Bin? && !cx.Top?
    ensures cx.v.node in CtxNodes(cx) && cx.v.node in M
    ensures M[cx.v.node].right == t.v.node <==> cx.InR?
  {
    assert cx.sib.Bin? ==> cx.sib.v.node in Nodes(cx.sib);
  }

  ghost predicate CanRotL(M: Store, node: Node) {
    && node in M && M[node].right != null && M[node].right != node && M[node].right in M
    && (M[node].parent != null ==> M[node].parent in M && M[node].parent !in {node, M[node].right})
    && var b := M[M[node].right].left; b != null ==> b in M && b !in {node, M[node].right, M[node].parent}
  }

  ghost function RotLStore(M: Store, node: Node): Store
    requires CanRotL(M, node)
  {
    var right, p := M[node].right, M[node].parent;
    var b := M[right].left;
    var M1 := M[node := M[node].(right := b, parent := right)];
    var M2 := M1[right := M1[right].(left := node, parent := p)];
    Attach(Adopt(M2, b, node), p, node, right)
  }

  /** rb_rotate_left, link by link. */
  method RotateLeft(node: Node, root: Node?) returns (root': Node?)
    requires node.right != null && node.right !in {node, node.parent} && node.parent != node
    requires node.right.left != null ==> node.right.left !in {node, node.right, node.parent}
    modifies node, node.right, node.right.left, node.parent
    ensures var right := old(node.right); var b := old(node.right.left); var p := old(node.parent);
      && node.right == b && node.parent == right && node.left == old(node.left)
      && right.left == node && right.parent == p && right.right == old(node.right.right)
      && (b != null ==>
        b.parent == node && b.left == old(node.right.left.left) && b.right == old(node.right.left.right))
      && (p != null ==>
           && p.parent == old(node.parent.parent)
           && p.right == (if old(node == node.parent.right) then right else old(node.parent.right))
           && p.left == (if old(node == node.parent.right) then old(node.parent.left) else right))
      && (forall n :: n in {node, right, b, p} && n != null ==>
           n.key == old(n.key) && n.data == old(n.data) && n.color == old(n.color))
      && root' == if p == null then right else root
  {
    root' := root;
    var right := node.right;
    node.right := right.left;
    if node.right != null {
      right.left.parent := node;
    }
    right.left := node;
    right.parent := node.parent;
    if right.parent != null {
      if node == node.parent.right {
        node.parent.right := right;
      } else {
        node.parent.left := right;
      }
    } else {
      root' := right;
    }
    node.parent := right;
  }

  method RotateLeftIn(node: Node, root: Node?, ghost M: Store) returns (root': Node?)
    requires Match(M) && CanRotL(M, node)
    modifies M.Keys
    ensures Match(RotLStore(M, node)) && RotLStore(M, node).Keys == M.Keys
    ensures root' == if M[node].parent == null then M[node].right else root
  {
    root' := RotateLeft(node, root);
  }

  ghost function RotL(t: Tree): Tree
    requires t.Bin? && t.r.Bin?
  {
    Bin(Bin(t.l, t.v, t.r.l), t.r.v, t.r.r)
  }

  /** A rotation changes at most four entries of the store. */
  lemma RotLChange(M: Store, node: Node)
    requires CanRotL(M, node)
    ensures var M', w, p := RotLStore(M, node), M[node].right, M[node].parent;
      var b := M[w].left;
      && M'.Keys == M.Keys
      && (forall k :: k in M && k != node && k != w && k != b && k != p ==> M'[k] == M[k])
      && M'[node] == M[node].(right := b, parent := w) && M'[w] == M[w].(left := node, parent := p)
      && (b != null ==> M'[b] == M[b].(parent := node))
      && (p != null ==> M'[p] == if M[p].right == node then M[p].(right := w) else M[p].(left := w))
  {}

  lemma RotLApart(cx: Ctx, t: Tree)
    requires Apart(cx, t) && t.Bin? && t.r.Bin?
    ensures Apart(cx, RotL(t)) && Nodes(RotL(t)) == Nodes(t)
    ensures Nodes(t) == Nodes(t.l) + {t.v.node} + Nodes(t.r.l) + {t.r.v.node} + Nodes(t.r.r)
    ensures t.v.node != t.r.v.node && {t.v.node, t.r.v.node} !! Nodes(t.l) + Nodes(t.r.l) + Nodes(t.r.r)
    ensures Nodes(t.l) !! Nodes(t.r.l) !! Nodes(t.r.r)
    ensures Sep(t.l) && Sep(t.r.l) && Sep(t.r.r)
  {
    assert Sep(t.l) && Sep(t.r) && Sep(t.r.l) && Sep(t.r.r);
    assert Nodes(t.r) == Nodes(t.r.l) + {t.r.v.node} + Nodes(t.r.r);
    assert Nodes(RotL(t).l) == Nodes(t.l) + {t.v.node} + Nodes(t.r.l);
    assert Sep(RotL(t).l);
  }

  lemma RotLCan(M: Store, cx: Ctx, t: Tree)
    requires At(M, cx, t) && t.Bin? && t.r.Bin?
    ensures CanRotL(M, t.v.node)
    ensures M[t.v.node] == CellRec(t.v, Ptr(t.l), t.r.v.node, ParentOf(cx))
    ensures M[t.r.v.node] == CellRec(t.r.v, Ptr(t.r.l), Ptr(t.r.r), t.v.node)
    ensures Is(M, t.l, t.v.node) && Is(M, t.r.l, t.r.v.node) && Is(M, t.r.r, t.r.v.node)
  {
    RotLApart(cx, t);
    assert Is(M, t.r, t.v.node);
  }

  /** The store after the rotation, entry by entry. */
  lemma RotLEntries(M: Store, cx: Ctx, t: Tree)
    requires At(M, cx, t) && t.Bin? && t.r.Bin?
    ensures CanRotL(M, t.v.node)
    ensures var M' := RotLStore(M, t.v.node);
      && M'.Keys == M.Keys
      && M'[t.v.node] == CellRec(t.v, Ptr(t.l), Ptr(t.r.l), t.r.v.node)
      && M'[t.r.v.node] == CellRec(t.r.v, t.v.node, Ptr(t.r.r), ParentOf(cx))
      && (forall k :: k in Nodes(t.l) + Nodes(t.r.r) ==> M'[k] == M[k])
      && (forall k :: k in Nodes(t.r.l) ==> M'[k] == if k == Ptr(t.r.l) then M[k].(parent := t.v.node) else M[k])
  {
    RotLApart(cx, t);
    RotLCan(M, cx, t);
    RotLChange(M, t.v.node);
    hide RotLStore, CanRotL, Sep, CtxSep, CtxIs, Is;
  }

  lemma RotLOutside(M: Store, cx: Ctx, t: Tree)
    requires At(M, cx, t) && t.Bin? && t.r.Bin?
    ensures CanRotL(M, t.v.node)
    ensures var M' := RotLStore(M, t.v.node);
      && M'.Keys == M.Keys
      && (forall k :: k in CtxNodes(cx) && k != ParentOf(cx) ==> M'[k] == M[k])
      && (cx.InL? ==> M'[cx.v.node] == M[cx.v.node].(left := t.r.v.node))
      && (cx.InR? ==> M'[cx.v.node] == M[cx.v.node].(right := t.r.v.node))
  {
    RotLApart(cx, t);
    RotLCan(M, cx, t);
    if !cx.Top? { HoleSide(M, cx, t); }
    RotLChange(M, t.v.node);
    hide RotLStore, CanRotL, Sep, CtxSep, CtxIs, Is;
  }

  lemma RotLAt(M: Store, cx: Ctx, t: Tree)
    requires At(M, cx, t) && t.Bin? && t.r.Bin?
    ensures CanRotL(M, t.v.node)
    ensures At(RotLStore(M, t.v.node), cx, RotL(t))
  {
    RotLApart(cx, t);
    RotLCan(M, cx, t);
    RotLEntries(M, cx, t);
    RotLOutside(M, cx, t);
    hide RotLStore, CanRotL, Sep, CtxSep, CtxIs;
    var n, w := t.v.node, t.r.v.node;
    var M' := RotLStore(M, n);
    IsFrame(M, M', t.l, n);
    IsFrame(M, M', t.r.r, w);
    Reparent(M, M', t.r.l, w, n);
    Rehang(M, M', cx, n, w);
    assert Is(M', RotL(t).l, w);
  }

  /** Rotating left at the focus turns (a n (b w y)) into ((a n b) w y) and leaves the rest alone. */
  method RotateLeftAt(node: Node, root: Node?, ghost M: Store, ghost cx: Ctx, ghost t: Tree)
    returns (root': Node?, ghost M': Store)
    requires Match(M) && At(M, cx, t) && t.Bin? && t.r.Bin?
    requires node == t.v.node && root == RootOf(cx, t)
    modifies M.Keys
    ensures M'.Keys == M.Keys && Match(M') && At(M', cx, RotL(t)) && root' == RootOf(cx, RotL(t))
  {
    RotLAt(M, cx, t);
    M' := RotLStore(M, node);
    root' := RotateLeftIn(node, root, M);
  }

  ghost predicate CanRotR(M: Store, node: Node) {
    && node in M && M[node].left != null && M[node].left != node && M[node].left in M
    && (M[node].parent != null ==> M[node].parent in M && M[node].parent !in {node, M[node].left})
    && var b := M[M[node].left].right; b != null ==> b in M && b !in {node, M[node].left, M[node].parent}
  }

  ghost function RotRStore(M: Store, node: Node): Store
    requires CanRotR(M, node)
  {
    var left, p := M[node].left, M[node].parent;
    var b := M[left].right;
    var M1 := M[node := M[node].(left := b, parent := left)];
    var M2 := M1[left := M1[left].(right := node, parent := p)];
    Attach(Adopt(M2, b, node), p, node, left)
  }

  /** rb_rotate_right, link by link. */
  method RotateRight(node: Node, root: Node?) returns (root': Node?)
    requires node.left != null && node.left !in {node, node.parent} && node.parent != node
    requires node.left.right != null ==> node.left.right !in {node, node.left, node.parent}
    modifies node, node.left, node.left.right, node.parent
    ensures var left := old(node.left); var b := old(node.left.right); var p := old(node.parent);
      && node.left == b && node.parent == left && node.right == old(node.right)
      && left.right == node && left.parent == p && left.left == old(node.left.left)
      && (b != null ==>
        b.parent == node && b.right == old(node.left.right.right) && b.left == old(node.left.right.left))
      && (p != null ==>
           && p.parent == old(node.parent.parent)
           && p.right == (if old(node == node.parent.right) then left else old(node.parent.right))
           && p.left == (if old(node == node.parent.right) then old(node.parent.left) else left))
      && (forall n :: n in {node, left, b, p} && n != null ==>
           n.key == old(n.key) && n.data == old(n.data) && n.color == old(n.color))
      && root' == if p == null then left else root
  {
    root' := root;
    var left := node.left;
    node.left := left.right;
    if node.left != null {
      left.right.parent := node;
    }
    left.right := node;
    left.parent := node.parent;
    if left.parent != null {
      if node == node.parent.right {
        node.parent.right := left;
      } else {
        node.parent.left := left;
      }
    } else {
      root' := left;
    }
    node.parent := left;
  }

  method RotateRightIn(node: Node, root: Node?, ghost M: Store) returns (root': Node?)
    requires Match(M) && CanRotR(M, node)
    modifies M.Keys
    ensures Match(RotRStore(M, node)) && RotRStore(M, node).Keys == M.Keys
    ensures root' == if M[node].parent == null then M[node].left else root
  {
    root' := RotateRight(node, root);
  }

  ghost function RotR(t: Tree): Tree
    requires t.Bin? && t.l.Bin?
  {
    Bin(t.l.l, t.l.v, Bin(t.l.r, t.v, t.r))
  }

  /** A rotation changes at most four entries of the store. */
  lemma RotRChange(M: Store, node: Node)
    requires CanRotR(M, node)
    ensures var M', w, p := RotRStore(M, node), M[node].left, M[node].parent;
      var b := M[w].right;
      && M'.Keys == M.Keys
      && (forall k :: k in M && k != node && k != w && k != b && k != p ==> M'[k] == M[k])
      && M'[node] == M[node].(left := b, parent := w) && M'[w] == M[w].(right := node, parent := p)
      && (b != null ==> M'[b] == M[b].(parent := node))
      && (p != null ==> M'[p] == if M[p].right == node then M[p].(right := w) else M[p].(left := w))
  {}

  lemma RotRApart(cx: Ctx, t: Tree)
    requires Apart(cx, t) && t.Bin? && t.l.Bin?
    ensures Apart(cx, RotR(t)) && Nodes(RotR(t)) == Nodes(t)
    ensures Nodes(t) == Nodes(t.r) + {t.v.node} + Nodes(t.l.r) + {t.l.v.node} + Nodes(t.l.l)
    ensures t.v.node != t.l.v.node && {t.v.node, t.l.v.node} !! Nodes(t.r) + Nodes(t.l.r) + Nodes(t.l.l)
    ensures Nodes(t.r) !! Nodes(t.l.r) !! Nodes(t.l.l)
    ensures Sep(t.r) && Sep(t.l.r) && Sep(t.l.l)
  {
    assert Sep(t.r) && Sep(t.l) && Sep(t.l.r) && Sep(t.l.l);
    assert Nodes(t.l) == Nodes(t.l.r) + {t.l.v.node} + Nodes(t.l.l);
    assert Nodes(RotR(t).r) == Nodes(t.r) + {t.v.node} + Nodes(t.l.r);
    assert Sep(RotR(t).r);
  }

  lemma RotRCan(M: Store, cx: Ctx, t: Tree)
    requires At(M, cx, t) && t.Bin? && t.l.Bin?
    ensures CanRotR(M, t.v.node)
    ensures M[t.v.node] == CellRec(t.v, t.l.v.node, Ptr(t.r), ParentOf(cx))
    ensures M[t.l.v.node] == CellRec(t.l.v, Ptr(t.l.l), Ptr(t.l.r), t.v.node)
    ensures Is(M, t.r, t.v.node) && Is(M, t.l.r, t.l.v.node) && Is(M, t.l.l, t.l.v.node)
  {
    RotRApart(cx, t);
    assert Is(M, t.l, t.v.node);
  }

  /** The store after the rotation, entry by entry. */
  lemma RotREntries(M: Store, cx: Ctx, t: Tree)
    requires At(M, cx, t) && t.Bin? && t.l.Bin?
    ensures CanRotR(M, t.v.node)
    ensures var M' := RotRStore(M, t.v.node);
      && M'.Keys == M.Keys
      && M'[t.v.node] == CellRec(t.v, Ptr(t.l.r), Ptr(t.r), t.l.v.node)
      && M'[t.l.v.node] == CellRec(t.l.v, Ptr(t.l.l), t.v.node, ParentOf(cx))
      && (forall k :: k in Nodes(t.r) + Nodes(t.l.l) ==> M'[k] == M[k])
      && (forall k :: k in Nodes(t.l.r) ==> M'[k] == if k == Ptr(t.l.r) then M[k].(parent := t.v.node) else M[k])
  {
    RotRApart(cx, t);
    RotRCan(M, cx, t);
    RotRChange(M, t.v.node);
    hide RotRStore, CanRotR, Sep, CtxSep, CtxIs, Is;
  }

  lemma RotROutside(M: Store, cx: Ctx, t: Tree)
    requires At(M, cx, t) && t.Bin? && t.l.Bin?
    ensures CanRotR(M, t.v.node)
    ensures var M' := RotRStore(M, t.v.node);
      && M'.Keys == M.Keys
      && (forall k :: k in CtxNodes(cx) && k != ParentOf(cx) ==> M'[k] == M[k])
      && (cx.InR? ==> M'[cx.v.node] == M[cx.v.node].(right := t.l.v.node))
      && (cx.InL? ==> M'[cx.v.node] == M[cx.v.node].(left := t.l.v.node))
  {
    RotRApart(cx, t);
    RotRCan(M, cx, t);
    if !cx.Top? { HoleSide(M, cx, t); }
    RotRChange(M, t.v.node);
    hide RotRStore, CanRotR, Sep, CtxSep, CtxIs, Is;
  }

  lemma RotRAt(M: Store, cx: Ctx, t: Tree)
    requires At(M, cx, t) && t.Bin? && t.l.Bin?
    ensures CanRotR(M, t.v.node)
    ensures At(RotRStore(M, t.v.node), cx, RotR(t))
  {
    RotRApart(cx, t);
    RotRCan(M, cx, t);
    RotREntries(M, cx, t);
    RotROutside(M, cx, t);
    hide RotRStore, CanRotR, Sep, CtxSep, CtxIs;
    var n, w := t.v.node, t.l.v.node;
    var M' := RotRStore(M, n);
    IsFrame(M, M', t.r, n);
    IsFrame(M, M', t.l.l, w);
    Reparent(M, M', t.l.r, w, n);
    Rehang(M, M', cx, n, w);
    assert Is(M', RotR(t).r, w);
  }

  /** Rotating right at the focus turns ((y w b) n a) into (y w (b n a)) and leaves the rest alone. */
  method RotateRightAt(node: Node, root: Node?, ghost M: Store, ghost cx: Ctx, ghost t: Tree)
    returns (root': Node?, ghost M': Store)
    requires Match(M) && At(M, cx, t) && t.Bin? && t.l.Bin?
    requires node == t.v.node && root == RootOf(cx, t)
    modifies M.Keys
    ensures M'.Keys == M.Keys && Match(M') && At(M', cx, RotR(t)) && root' == RootOf(cx, RotR(t))
  {
    RotRAt(M, cx, t);
    M' := RotRStore(M, node);
    root' := RotateRightIn(node, root, M);
  }

}
