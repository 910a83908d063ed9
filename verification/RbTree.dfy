/**
 * Search, insertion and erasure in the red-black tree of cpp/myvsc/rb_tree/rb_tree.cpp.
 */
module RbTree {
  import opened RbNodes

  // ---------------------------------------------------------------------------------------------
  // Contents: the in-order sequence of (key, data) pairs
  // ---------------------------------------------------------------------------------------------

  type Pairs = seq<(int, int)>

  ghost function Pair(v: Cell): (int, int) { (v.key, v.data) }

  ghost function InOrder(t: Tree): Pairs {
    match t
    case Leaf => []
    case Bin(l, v, r) => InOrder(l) + [Pair(v)] + InOrder(r)
  }

  ghost function Before(cx: Ctx): Pairs {
    match cx
    case Top => []
    case InL(v, sib, up) => Before(up)
    case InR(sib, v, up) => Before(up) + InOrder(sib) + [Pair(v)]
  }

  ghost function After(cx: Ctx): Pairs {
    match cx
    case Top => []
    case InL(v, sib, up) => [Pair(v)] + InOrder(sib) + After(up)
    case InR(sib, v, up) => After(up)
  }

  ghost function Line(cx: Ctx, t: Tree): Pairs { Before(cx) + InOrder(t) + After(cx) }

  lemma LineUp(cx: Ctx, t: Tree)
    requires !cx.Top?
    ensures Line(cx, t) == Line(cx.up, Fill(cx, t))
  {}

  lemma {:induction false} LinePlug(cx: Ctx, t: Tree)
    ensures Line(cx, t) == InOrder(Plug(cx, t))
    decreases cx
  {
    if !cx.Top? { LineUp(cx, t); LinePlug(cx.up, Fill(cx, t)); }
  }

  /** Strictly increasing keys: the search order, and the absence of duplicates. */
  ghost predicate Ordered(s: Pairs) { forall i, j :: 0 <= i < j < |s| ==> s[i].0 < s[j].0 }

  ghost function MapOf(s: Pairs): map<int, int> {
    if s == [] then map[] else MapOf(s[1..])[s[0].0 := s[0].1]
  }

  lemma {:induction false} MapOfDomain(s: Pairs)
    ensures forall k :: k in MapOf(s) <==> exists i :: 0 <= i < |s| && s[i].0 == k
    ensures Ordered(s) ==> forall i :: 0 <= i < |s| ==> s[i].0 in MapOf(s) && MapOf(s)[s[i].0] == s[i].1
  {
    if s != [] {
      MapOfDomain(s[1..]);
      forall k ensures k in MapOf(s) <==> exists i :: 0 <= i < |s| && s[i].0 == k {
        if k in MapOf(s) && k != s[0].0 {
          assert k in MapOf(s[1..]);
          var i :| 0 <= i < |s[1..]| && s[1..][i].0 == k;
          assert s[i + 1].0 == k;
        }
        if i :| 0 <= i < |s| && s[i].0 == k {
          if i > 0 { assert s[1..][i - 1].0 == k; }
        }
      }
      if Ordered(s) {
        forall i | 0 <= i < |s| ensures s[i].0 in MapOf(s) && MapOf(s)[s[i].0] == s[i].1 {
          if i > 0 { assert s[1..][i - 1] == s[i]; }
        }
      }
    }
  }

  lemma NotBetween(a: Pairs, k: int, d: int, b: Pairs)
    requires Ordered(a + [(k, d)] + b)
    ensures k !in MapOf(a + b)
  {
    var s := a + [(k, d)] + b;
    MapOfDomain(a + b);
    forall i | 0 <= i < |a + b| ensures (a + b)[i].0 != k {
      assert s[if i < |a| then i else i + 1] == (a + b)[i] && s[|a|].0 == k;
    }
  }

  /** One pair more in the line is one key more in the map. */
  lemma {:induction false} MapOfInsert(a: Pairs, k: int, d: int, b: Pairs)
    requires Ordered(a + [(k, d)] + b)
    ensures MapOf(a + [(k, d)] + b) == MapOf(a + b)[k := d]
    ensures k !in MapOf(a + b)
  {
    var s := a + [(k, d)] + b;
    NotBetween(a, k, d, b);
    if a == [] {
      assert s[1..] == b && a + b == b;
    } else {
      assert s[1..] == a[1..] + [(k, d)] + b && (a + b)[1..] == a[1..] + b && s[0] == a[0];
      assert s[|a|] == (k, d);
      MapOfInsert(a[1..], k, d, b);
    }
  }

  // ---------------------------------------------------------------------------------------------
  // Colours
  // ---------------------------------------------------------------------------------------------

  ghost predicate IsRed(t: Tree) { t.Bin? && t.v.color == Red }

  ghost predicate CtxRed(cx: Ctx) { !cx.Top? && cx.v.color == Red }

  ghost predicate NoRedRed(t: Tree) {
    t.Leaf? || (NoRedRed(t.l) && NoRedRed(t.r) && (t.v.color == Red ==> !IsRed(t.l) && !IsRed(t.r)))
  }

  /** No red-red edge in the context; the edge between the focus and its parent is not looked at. */
  ghost predicate CtxNoRedRed(cx: Ctx) {
    cx.Top? || (NoRedRed(cx.sib) && CtxNoRedRed(cx.up) && (cx.v.color == Red ==> !IsRed(cx.sib) && !CtxRed(cx.up)))
  }

  ghost function Ink(c: Color): nat { if c == Black then 1 else 0 }

  /** Every path from the root of t to a leaf passes h black nodes. */
  ghost predicate Blacks(t: Tree, h: int) {
    match t
    case Leaf => h == 0
    case Bin(l, v, r) => Blacks(l, h - Ink(v.color)) && Blacks(r, h - Ink(v.color))
  }

  /** Filling the hole with a tree of black height h makes all paths alike. */
  ghost predicate CtxBlacks(cx: Ctx, h: int) {
    cx.Top? || (Blacks(cx.sib, h) && CtxBlacks(cx.up, h + Ink(cx.v.color)))
  }

  ghost predicate CtxRootBlack(cx: Ctx) {
    cx.Top? || (if cx.up.Top? then cx.v.color == Black else CtxRootBlack(cx.up))
  }

  ghost predicate RedBlack(t: Tree) {
    NoRedRed(t) && !IsRed(t) && exists h :: Blacks(t, h)
  }

  lemma {:induction false} BlacksNat(t: Tree, h: int)
    requires Blacks(t, h)
    ensures h >= 0 && (h == 0 && !IsRed(t) ==> t.Leaf?)
    decreases t
  {
    if t.Bin? { BlacksNat(t.l, h - Ink(t.v.color)); }
  }

  lemma {:induction false} PlugRedBlack(cx: Ctx, t: Tree, h: int)
    requires NoRedRed(t) && CtxNoRedRed(cx) && !(IsRed(t) && CtxRed(cx))
    requires Blacks(t, h) && CtxBlacks(cx, h)
    requires if cx.Top? then !IsRed(t) else CtxRootBlack(cx)
    ensures RedBlack(Plug(cx, t))
    decreases cx
  {
    if !cx.Top? { PlugRedBlack(cx.up, Fill(cx, t), h + Ink(cx.v.color)); }
  }

  /** A well-formed tree at pointer root: parent links, search order and colours. */
  ghost predicate Valid(M: Store, t: Tree, root: Node?)
    reads M.Keys
  {
    Match(M) && At(M, Top, t) && root == Ptr(t) && Ordered(InOrder(t)) && RedBlack(t)
  }

  ghost function Contents(t: Tree): map<int, int> { MapOf(InOrder(t)) }

  // ---------------------------------------------------------------------------------------------
  // Recolouring one node
  // ---------------------------------------------------------------------------------------------

  ghost function Dye(t: Tree, c: Color): Tree
    requires t.Bin?
  {
    t.(v := t.v.(color := c))
  }

  ghost function DyeParent(cx: Ctx, c: Color): Ctx
    requires !cx.Top?
  {
    cx.(v := cx.v.(color := c))
  }

  ghost function DyeSibling(cx: Ctx, c: Color): Ctx
    requires !cx.Top? && cx.sib.Bin?
  {
    cx.(sib := Dye(cx.sib, c))
  }

  ghost function PaintStore(M: Store, n: Node, c: Color): Store
    requires n in M
  {
    M[n := M[n].(color := c)]
  }

  method Paint(n: Node, c: Color, ghost M: Store) returns (ghost M': Store)
    requires Match(M) && n in M
    modifies n`color
    ensures M' == PaintStore(M, n, c) && M'.Keys == M.Keys && Match(M')
  {
    n.color := c;
    M' := PaintStore(M, n, c);
  }

  lemma PaintFocus(M: Store, cx: Ctx, t: Tree, c: Color)
    requires At(M, cx, t) && t.Bin?
    ensures At(PaintStore(M, t.v.node, c), cx, Dye(t, c)) && RootOf(cx, t) == RootOf(cx, Dye(t, c))
  {
    var M' := PaintStore(M, t.v.node, c);
    IsFrame(M, M', t.l, t.v.node);
    IsFrame(M, M', t.r, t.v.node);
    CtxFrame(M, M', cx, t.v.node);
  }

  lemma PaintParent(M: Store, cx: Ctx, t: Tree, c: Color)
    requires At(M, cx, t) && !cx.Top?
    ensures At(PaintStore(M, cx.v.node, c), DyeParent(cx, c), t) && RootOf(cx, t) == RootOf(DyeParent(cx, c), t)
  {
    Up(M, cx, t);
    PaintFocus(M, cx.up, Fill(cx, t), c);
    Up(PaintStore(M, cx.v.node, c), DyeParent(cx, c), t);
  }

  lemma PaintSibling(M: Store, cx: Ctx, t: Tree, c: Color)
    requires At(M, cx, t) && !cx.Top? && cx.sib.Bin?
    ensures At(PaintStore(M, cx.sib.v.node, c), DyeSibling(cx, c), t) && RootOf(cx, t) == RootOf(DyeSibling(cx, c), t)
  {
    var n := cx.sib.v.node;
    var M' := PaintStore(M, n, c);
    assert Nodes(cx.sib) == Nodes(Dye(cx.sib, c));
    IsFrame(M, M', cx.sib.l, n);
    IsFrame(M, M', cx.sib.r, n);
    IsFrame(M, M', t, cx.v.node);
    CtxFrame(M, M', cx.up, cx.v.node);
  }

  // ---------------------------------------------------------------------------------------------
  // Search
  // ---------------------------------------------------------------------------------------------

  /** The colour rules, seen from the focus. */
  ghost predicate Good(cx: Ctx, t: Tree, h: int) {
    && NoRedRed(t) && CtxNoRedRed(cx) && !(IsRed(t) && CtxRed(cx))
    && Blacks(t, h) && CtxBlacks(cx, h) && (if cx.Top? then !IsRed(t) else CtxRootBlack(cx))
  }

  lemma GoodUp(cx: Ctx, t: Tree, h: int)
    requires !cx.Top?
    ensures Good(cx, t, h) <==> Good(cx.up, Fill(cx, t), h + Ink(cx.v.color))
  {}

  ghost function Height(t: Tree): nat {
    if t.Leaf? then 0 else 1 + if Height(t.l) > Height(t.r) then Height(t.l) else Height(t.r)
  }

  ghost function Depth(cx: Ctx): nat { if cx.Top? then 0 else 1 + Depth(cx.up) }

  ghost function Pow2(n: nat): nat { if n == 0 then 1 else 2 * Pow2(n - 1) }

  lemma DoubleTimes(x: nat, y: nat)
    ensures (2 * x) * y == 2 * (x * y)
  {}

  lemma {:induction false} Pow2Add(a: nat, b: nat)
    ensures Pow2(a + b) == Pow2(a) * Pow2(b)
  {
    if a > 0 {
      Pow2Add(a - 1, b);
      DoubleTimes(Pow2(a - 1), Pow2(b));
    }
  }

  lemma {:induction false} Pow2Mono(a: nat, b: nat)
    requires a <= b
    ensures Pow2(a) <= Pow2(b)
  {
    if a < b { Pow2Mono(a, b - 1); }
  }

  /** Black height bounds the size from below and the height from above. */
  lemma {:induction false} SizeAndHeight(t: Tree, h: nat)
    requires NoRedRed(t) && Blacks(t, h)
    ensures Pow2(h) <= |InOrder(t)| + 1
    ensures Height(t) <= 2 * h + (if IsRed(t) then 1 else 0)
    decreases t
  {
    if t.Bin? {
      BlacksNat(t.l, h - Ink(t.v.color));
      SizeAndHeight(t.l, h - Ink(t.v.color));
      SizeAndHeight(t.r, h - Ink(t.v.color));
    }
  }

  lemma Square(a: nat, b: nat)
    requires a <= b
    ensures a * a <= b * b
  {
    assert a * a <= a * b <= b * b;
  }

  /** The height is at most twice the logarithm of n + 1, where n is the number of keys. */
  lemma HeightBound(t: Tree)
    requires RedBlack(t)
    ensures Pow2(Height(t)) <= (|InOrder(t)| + 1) * (|InOrder(t)| + 1)
  {
    var h :| Blacks(t, h);
    BlacksNat(t, h);
    SizeAndHeight(t, h);
    Pow2Mono(Height(t), h + h);
    Pow2Add(h, h);
    Square(Pow2(h), |InOrder(t)| + 1);
  }

  /** All keys before the focus are smaller than key, all keys after it larger. */
  ghost predicate Splits(cx: Ctx, key: int) {
    (forall i :: 0 <= i < |Before(cx)| ==> Before(cx)[i].0 < key) &&
    (forall i :: 0 <= i < |After(cx)| ==> After(cx)[i].0 > key)
  }

  /** In an ordered line, what stands around a pair is split by the key of that pair. */
  lemma OrderedAround(a: Pairs, p: (int, int), b: Pairs)
    requires Ordered(a + [p] + b)
    ensures forall i :: 0 <= i < |a| ==> a[i].0 < p.0
    ensures forall i :: 0 <= i < |b| ==> b[i].0 > p.0
  {
    var s := a + [p] + b;
    assert s[|a|] == p;
    forall i | 0 <= i < |a| ensures a[i].0 < p.0 { assert s[i] == a[i]; }
    forall i | 0 <= i < |b| ensures b[i].0 > p.0 { assert s[|a| + 1 + i] == b[i]; }
  }

  lemma SplitsDown(cx: Ctx, t: Tree, key: int)
    requires t.Bin? && Splits(cx, key) && Ordered(Line(cx, t)) && key != t.v.key
    ensures key < t.v.key ==> Splits(InL(t.v, t.r, cx), key)
    ensures key > t.v.key ==> Splits(InR(t.l, t.v, cx), key)
  {
    assert Line(cx, t) == (Before(cx) + InOrder(t.l)) + [Pair(t.v)] + (InOrder(t.r) + After(cx));
    OrderedAround(Before(cx) + InOrder(t.l), Pair(t.v), InOrder(t.r) + After(cx));
    var a, b := Before(cx) + InOrder(t.l), InOrder(t.r) + After(cx);
    assert After(InL(t.v, t.r, cx)) == [Pair(t.v)] + b by {
      assert [Pair(t.v)] + InOrder(t.r) + After(cx) == [Pair(t.v)] + b;
    }
    assert Before(InR(t.l, t.v, cx)) == a + [Pair(t.v)];
  }

  /** The store, its reading, and the pointers the code keeps, all agree. */
  ghost predicate Focus(M: Store, cx: Ctx, t: Tree, node: Node?, root: Node?)
    reads M.Keys
  {
    Match(M) && At(M, cx, t) && node == Ptr(t) && root == RootOf(cx, t)
  }

  /** What the pointers around the focus show. */
  lemma Look(M: Store, cx: Ctx, t: Tree, root: Node?)
    requires Match(M) && At(M, cx, t) && root == RootOf(cx, t)
    ensures t.Bin? ==> t.v.node.parent == ParentOf(cx) && t.v.node.color == t.v.color
    ensures !cx.Top? ==>
      && cx.v.node in M && cx.v.node.color == cx.v.color && cx.v.node.parent == ParentOf(cx.up)
      && (cx.InL? ==> cx.v.node.left == Ptr(t) && cx.v.node.right == Ptr(cx.sib))
      && (cx.InR? ==> cx.v.node.right == Ptr(t) && cx.v.node.left == Ptr(cx.sib))
      && (cx.sib.Bin? ==> cx.sib.v.node in M && cx.sib.v.node.color == cx.sib.v.color && Ptr(cx.sib) != Ptr(t))
  {
    if t.Bin? { assert t.v.node in M; }
    if !cx.Top? { assert cx.v.node in M; if cx.sib.Bin? { assert cx.sib.v.node in M; } }
  }

  lemma LookDown(M: Store, cx: Ctx, t: Tree)
    requires Match(M) && At(M, cx, t) && t.Bin?
    ensures var n := t.v.node; n in M && n.key == t.v.key && n.data == t.v.data && n.color == t.v.color
    ensures t.v.node.left == Ptr(t.l) && t.v.node.right == Ptr(t.r) && t.v.node.parent == ParentOf(cx)
  {
    assert t.v.node in M;
  }

  /** Moving the focus to a child keeps everything that is said about the focus. */
  lemma Descended(M: Store, cx: Ctx, t: Tree, h: int, root: Node?)
    requires !cx.Top? && Match(M) && At(M, cx.up, Fill(cx, t)) && root == RootOf(cx.up, Fill(cx, t))
    ensures Focus(M, cx, t, Ptr(t), root) && Line(cx, t) == Line(cx.up, Fill(cx, t))
    ensures Plug(cx, t) == Plug(cx.up, Fill(cx, t))
    ensures Good(cx.up, Fill(cx, t), h + Ink(cx.v.color)) ==> Good(cx, t, h)
  {
    Up(M, cx, t);
    LineUp(cx, t);
    GoodUp(cx, t, h);
  }

  /** rb_search_auxiliary: walk down, remembering the last node passed. */
  method SearchAuxiliary(key: int, root: Node?, ghost M: Store, ghost t0: Tree)
    returns (node: Node?, save: Node?, ghost cx: Ctx, ghost t: Tree, ghost h: int)
    requires Valid(M, t0, root)
    ensures Focus(M, cx, t, node, root) && Line(cx, t) == InOrder(t0) && Plug(cx, t) == t0
    ensures Good(cx, t, h) && Splits(cx, key) && (node == null ==> save == ParentOf(cx))
    ensures node != null ==> node.key == key && t.v.key == key
    ensures Pow2(Depth(cx)) <= (|InOrder(t0)| + 1) * (|InOrder(t0)| + 1)
  {
    hide Is, CtxIs, Nodes, CtxNodes, Sep, CtxSep, Match;
    node, save := root, null;
    var parent: Node? := null;
    cx, t := Top, t0;
    h :| Blacks(t0, h);
    HeightBound(t0);
    while node != null
      invariant Focus(M, cx, t, node, root) && Line(cx, t) == InOrder(t0) && Plug(cx, t) == t0
      invariant Good(cx, t, h) && Splits(cx, key) && parent == ParentOf(cx)
      invariant Depth(cx) + Height(t) <= Height(t0)
      decreases t
    {
      LookDown(M, cx, t);
      parent := node;
      var ret := node.key - key;
      if 0 < ret {
        SplitsDown(cx, t, key);
        node := node.left;
        cx, t, h := InL(t.v, t.r, cx), t.l, h - Ink(t.v.color);
        Descended(M, cx, t, h, root);
      } else if 0 > ret {
        SplitsDown(cx, t, key);
        node := node.right;
        cx, t, h := InR(t.l, t.v, cx), t.r, h - Ink(t.v.color);
        Descended(M, cx, t, h, root);
      } else {
        Pow2Mono(Depth(cx), Height(t0));
        return;
      }
    }
    save := parent;
    Pow2Mono(Depth(cx), Height(t0));
  }

  // ---------------------------------------------------------------------------------------------
  // Insertion
  // ---------------------------------------------------------------------------------------------

  /** The loop invariant of rb_insert_rebalance: only the edge above the focus may be red-red. */
  ghost predicate RedAt(cx: Ctx, t: Tree, h: int) {
    IsRed(t) && NoRedRed(t) && Blacks(t, h) && CtxNoRedRed(cx) && CtxBlacks(cx, h) && CtxRootBlack(cx)
  }

  /** What is above the grandparent stays; the grandparent turns red, its children black. */
  ghost function Recolored(cx: Ctx, t: Tree): Tree
    requires !cx.Top? && !cx.up.Top? && cx.up.sib.Bin?
  {
    Dye(Fill(DyeSibling(cx.up, Black), Dye(Fill(cx, t), Black)), Red)
  }

  lemma RecoloredOk(cx: Ctx, t: Tree, h: int)
    requires RedAt(cx, t, h) && CtxRed(cx) && !cx.up.Top? && IsRed(cx.up.sib)
    ensures RedAt(cx.up.up, Recolored(cx, t), h + 1)
    ensures Line(cx.up.up, Recolored(cx, t)) == Line(cx, t)
  {
    LineUp(cx, t);
    LineUp(cx.up, Fill(cx, t));
    assert InOrder(Fill(cx.up, Fill(cx, t))) == InOrder(Recolored(cx, t)) by {
      assert InOrder(Dye(Fill(cx, t), Black)) == InOrder(Fill(cx, t));
      assert InOrder(Dye(cx.up.sib, Black)) == InOrder(cx.up.sib);
    }
    assert CtxNoRedRed(cx.up) && CtxBlacks(cx.up, h) && CtxRootBlack(cx.up);
    assert Blacks(cx.up.sib, h) && NoRedRed(cx.up.sib);
    assert Blacks(Dye(Fill(cx, t), Black), h + 1);
    assert Blacks(Dye(cx.up.sib, Black), h + 1);
    assert NoRedRed(Dye(Fill(cx, t), Black)) && NoRedRed(Dye(cx.up.sib, Black));
  }

  /** The red-uncle case of rb_insert_rebalance. */
  method Recolor(parent: Node, uncle: Node, gparent: Node, ghost M: Store, ghost cx: Ctx, ghost t: Tree)
    returns (ghost M': Store)
    requires Match(M) && At(M, cx, t) && !cx.Top? && !cx.up.Top? && cx.up.sib.Bin?
    requires parent == cx.v.node && gparent == cx.up.v.node && uncle == cx.up.sib.v.node
    modifies M.Keys
    ensures M'.Keys == M.Keys && Match(M') && At(M', cx.up.up, Recolored(cx, t))
    ensures RootOf(cx.up.up, Recolored(cx, t)) == RootOf(cx, t)
  {
    M' := Paint(uncle, Black, M);
    Up(M, cx, t);
    PaintSibling(M, cx.up, Fill(cx, t), Black);
    ghost var up := DyeSibling(cx.up, Black);
    PaintFocus(M', up, Fill(cx, t), Black);
    M' := Paint(parent, Black, M');
    Up(M', up, Dye(Fill(cx, t), Black));
    PaintFocus(M', cx.up.up, Fill(up, Dye(Fill(cx, t), Black)), Red);
    M' := Paint(gparent, Red, M');
  }

  /** Turning an inner grandchild into an outer one: the focus moves to the old parent. */
  lemma StraightenedOk(cx: Ctx, t: Tree, h: int)
    requires RedAt(cx, t, h) && CtxRed(cx) && !cx.up.Top?
    ensures cx.InR? ==> RedAt(InL(t.v, t.r, cx.up), Bin(cx.sib, cx.v, t.l), h)
    ensures cx.InL? ==> RedAt(InR(t.l, t.v, cx.up), Bin(t.r, cx.v, cx.sib), h)
  {}

  /** The last rotation: the parent, now black, takes the place of the grandparent, now red. */
  lemma RotatedOk(cx: Ctx, t: Tree, h: int)
    requires RedAt(cx, t, h) && CtxRed(cx) && !cx.up.Top? && !IsRed(cx.up.sib)
    ensures cx.InL? && cx.up.InL? ==>
      RedAt(InL(cx.v.(color := Black), Bin(cx.sib, cx.up.v.(color := Red), cx.up.sib), cx.up.up), t, h)
    ensures cx.InR? && cx.up.InR? ==>
      RedAt(InR(Bin(cx.up.sib, cx.up.v.(color := Red), cx.sib), cx.v.(color := Black), cx.up.up), t, h)
  {
    assert CtxNoRedRed(cx.up) && CtxBlacks(cx.up, h) && CtxRootBlack(cx.up);
    assert Blacks(cx.up.sib, h) && NoRedRed(cx.up.sib);
  }

  lemma InOrderRot(t: Tree)
    requires t.Bin?
    ensures t.r.Bin? ==> InOrder(RotL(t)) == InOrder(t)
    ensures t.l.Bin? ==> InOrder(RotR(t)) == InOrder(t)
  {
    if t.r.Bin? { Assoc(InOrder(t.l), [Pair(t.v)], InOrder(t.r.l), [Pair(t.r.v)], InOrder(t.r.r)); }
    if t.l.Bin? { Assoc(InOrder(t.l.l), [Pair(t.l.v)], InOrder(t.l.r), [Pair(t.v)], InOrder(t.r)); }
  }

  lemma Assoc(a: Pairs, x: Pairs, b: Pairs, y: Pairs, c: Pairs)
    ensures (a + x + b) + y + c == a + x + (b + y + c)
  {}

  lemma LineTwo(cx: Ctx, t: Tree, c: Color, c': Color)
    requires !cx.Top? && !cx.up.Top?
    ensures Line(cx.up.up, Fill(DyeParent(cx.up, c'), Fill(DyeParent(cx, c), t))) == Line(cx, t)
  {
    LineUp(cx, t);
    LineUp(cx.up, Fill(cx, t));
    assert InOrder(Fill(DyeParent(cx, c), t)) == InOrder(Fill(cx, t));
    assert InOrder(Fill(DyeParent(cx.up, c'), Fill(DyeParent(cx, c), t))) == InOrder(Fill(cx.up, Fill(cx, t)));
  }

  /** Paint the parent black and the grandparent red, as both non-red-uncle cases do. */
  method PaintTwo(parent: Node, gparent: Node, ghost M: Store, ghost cx: Ctx, ghost t: Tree)
    returns (ghost M': Store)
    requires Match(M) && At(M, cx, t) && !cx.Top? && !cx.up.Top?
    requires parent == cx.v.node && gparent == cx.up.v.node
    modifies M.Keys
    ensures M'.Keys == M.Keys && Match(M')
    ensures At(M', cx.up.up, Fill(DyeParent(cx.up, Red), Fill(DyeParent(cx, Black), t)))
    ensures RootOf(cx.up.up, Fill(DyeParent(cx.up, Red), Fill(DyeParent(cx, Black), t))) == RootOf(cx, t)
  {
    M' := Paint(parent, Black, M);
    PaintParent(M, cx, t, Black);
    ghost var p := Fill(DyeParent(cx, Black), t);
    Up(M', DyeParent(cx, Black), t);
    PaintParent(M', cx.up, p, Red);
    M' := Paint(gparent, Red, M');
    Up(M', DyeParent(cx.up, Red), p);
  }

  /** First rotation of the left case: node is a right child of a left child. */
  method InnerLeft(node: Node, parent: Node, root: Node, ghost M: Store, ghost cx: Ctx, ghost t: Tree)
    returns (root': Node, ghost M': Store)
    requires Focus(M, cx, t, node, root) && cx.InR? && parent == cx.v.node
    modifies M.Keys
    ensures var cx', t' := InL(t.v, t.r, cx.up), Bin(cx.sib, cx.v, t.l);
      M'.Keys == M.Keys && Focus(M', cx', t', parent, root') && Line(cx', t') == Line(cx, t)
  {
    ghost var cx', t' := InL(t.v, t.r, cx.up), Bin(cx.sib, cx.v, t.l);
    Up(M, cx, t);
    var r;
    r, M' := RotateLeftAt(parent, root, M, cx.up, Fill(cx, t));
    assert Fill(cx', t') == RotL(Fill(cx, t));
    Up(M', cx', t');
    RootIsFocus(cx', t');
    LineUp(cx, t); LineUp(cx', t'); InOrderRot(Fill(cx, t));
    root' := r;
  }

  /** Recolouring and last rotation of the left case: node is a left child of a left child. */
  method OuterLeft(node: Node, parent: Node, gparent: Node, root: Node, ghost M: Store, ghost cx: Ctx, ghost t: Tree)
    returns (root': Node, ghost M': Store)
    requires Focus(M, cx, t, node, root) && cx.InL? && cx.up.InL? && parent == cx.v.node && gparent == cx.up.v.node
    modifies M.Keys
    ensures var cx' := InL(cx.v.(color := Black), Bin(cx.sib, cx.up.v.(color := Red), cx.up.sib), cx.up.up);
      M'.Keys == M.Keys && Focus(M', cx', t, node, root') && Line(cx', t) == Line(cx, t)
  {
    ghost var cx' := InL(cx.v.(color := Black), Bin(cx.sib, cx.up.v.(color := Red), cx.up.sib), cx.up.up);
    ghost var g := Fill(DyeParent(cx.up, Red), Fill(DyeParent(cx, Black), t));
    M' := PaintTwo(parent, gparent, M, cx, t);
    var r;
    r, M' := RotateRightAt(gparent, root, M', cx.up.up, g);
    assert Fill(cx', t) == RotR(g);
    Up(M', cx', t);
    RootIsFocus(cx', t);
    LineUp(cx', t); LineTwo(cx, t, Black, Red); InOrderRot(g);
    root' := r;
  }

  /** First rotation of the right case: node is a left child of a right child. */
  method InnerRight(node: Node, parent: Node, root: Node, ghost M: Store, ghost cx: Ctx, ghost t: Tree)
    returns (root': Node, ghost M': Store)
    requires Focus(M, cx, t, node, root) && cx.InL? && parent == cx.v.node
    modifies M.Keys
    ensures var cx', t' := InR(t.l, t.v, cx.up), Bin(t.r, cx.v, cx.sib);
      M'.Keys == M.Keys && Focus(M', cx', t', parent, root') && Line(cx', t') == Line(cx, t)
  {
    ghost var cx', t' := InR(t.l, t.v, cx.up), Bin(t.r, cx.v, cx.sib);
    Up(M, cx, t);
    var r;
    r, M' := RotateRightAt(parent, root, M, cx.up, Fill(cx, t));
    assert Fill(cx', t') == RotR(Fill(cx, t));
    Up(M', cx', t');
    RootIsFocus(cx', t');
    LineUp(cx, t); LineUp(cx', t'); InOrderRot(Fill(cx, t));
    root' := r;
  }

  /** Recolouring and last rotation of the right case: node is a right child of a right child. */
  method OuterRight(node: Node, parent: Node, gparent: Node, root: Node, ghost M: Store, ghost cx: Ctx, ghost t: Tree)
    returns (root': Node, ghost M': Store)
    requires Focus(M, cx, t, node, root) && cx.InR? && cx.up.InR? && parent == cx.v.node && gparent == cx.up.v.node
    modifies M.Keys
    ensures var cx' := InR(Bin(cx.up.sib, cx.up.v.(color := Red), cx.sib), cx.v.(color := Black), cx.up.up);
      M'.Keys == M.Keys && Focus(M', cx', t, node, root') && Line(cx', t) == Line(cx, t)
  {
    ghost var cx' := InR(Bin(cx.up.sib, cx.up.v.(color := Red), cx.sib), cx.v.(color := Black), cx.up.up);
    ghost var g := Fill(DyeParent(cx.up, Red), Fill(DyeParent(cx, Black), t));
    M' := PaintTwo(parent, gparent, M, cx, t);
    var r;
    r, M' := RotateLeftAt(gparent, root, M', cx.up.up, g);
    assert Fill(cx', t) == RotL(g);
    Up(M', cx', t);
    RootIsFocus(cx', t);
    LineUp(cx', t); LineTwo(cx, t, Black, Red); InOrderRot(g);
    root' := r;
  }

  /** The branch of rb_insert_rebalance for a parent that is a left child. */
  method FixLeft(node: Node, parent: Node, gparent: Node, root: Node, ghost M: Store, ghost cx: Ctx, ghost t: Tree,
                 ghost h: int)
    returns (node': Node, root': Node, ghost M': Store, ghost cx': Ctx, ghost t': Tree, ghost h': int)
    requires Focus(M, cx, t, node, root) && RedAt(cx, t, h) && CtxRed(cx) && cx.up.InL?
    requires parent == cx.v.node && gparent == cx.up.v.node
    modifies M.Keys
    ensures M'.Keys == M.Keys && Focus(M', cx', t', node', root') && RedAt(cx', t', h')
    ensures Line(cx', t') == Line(cx, t) && Depth(cx') < Depth(cx)
  {
    hide At, Match, Line, RootOf;
    node', root', M', cx', t', h' := node, root, M, cx, t, h;
    var parent' := parent;
    Look(M, cx, t, root);
    Up(M, cx, t);
    Look(M, cx.up, Fill(cx, t), root);
    var uncle := gparent.right;
    if uncle != null && uncle.color == Red {
      RecoloredOk(cx, t, h);
      M' := Recolor(parent, uncle, gparent, M, cx, t);
      cx', t', h' := cx.up.up, Recolored(cx, t), h + 1;
      node' := gparent;
    } else {
      if parent.right == node {
        StraightenedOk(cx, t, h);
        root', M' := InnerLeft(node, parent, root, M, cx, t);
        node', parent' := parent, node;
        cx', t' := InL(t.v, t.r, cx.up), Bin(cx.sib, cx.v, t.l);
      }
      RotatedOk(cx', t', h);
      root', M' := OuterLeft(node', parent', gparent, root', M', cx', t');
      cx' := InL(cx'.v.(color := Black), Bin(cx'.sib, cx'.up.v.(color := Red), cx'.up.sib), cx'.up.up);
    }
  }

  /** The branch of rb_insert_rebalance for a parent that is a right child. */
  method FixRight(node: Node, parent: Node, gparent: Node, root: Node, ghost M: Store, ghost cx: Ctx, ghost t: Tree,
                  ghost h: int)
    returns (node': Node, root': Node, ghost M': Store, ghost cx': Ctx, ghost t': Tree, ghost h': int)
    requires Focus(M, cx, t, node, root) && RedAt(cx, t, h) && CtxRed(cx) && cx.up.InR?
    requires parent == cx.v.node && gparent == cx.up.v.node
    modifies M.Keys
    ensures M'.Keys == M.Keys && Focus(M', cx', t', node', root') && RedAt(cx', t', h')
    ensures Line(cx', t') == Line(cx, t) && Depth(cx') < Depth(cx)
  {
    hide At, Match, Line, RootOf;
    node', root', M', cx', t', h' := node, root, M, cx, t, h;
    var parent' := parent;
    Look(M, cx, t, root);
    Up(M, cx, t);
    Look(M, cx.up, Fill(cx, t), root);
    var uncle := gparent.left;
    if uncle != null && uncle.color == Red {
      RecoloredOk(cx, t, h);
      M' := Recolor(parent, uncle, gparent, M, cx, t);
      cx', t', h' := cx.up.up, Recolored(cx, t), h + 1;
      node' := gparent;
    } else {
      if parent.left == node {
        StraightenedOk(cx, t, h);
        root', M' := InnerRight(node, parent, root, M, cx, t);
        node', parent' := parent, node;
        cx', t' := InR(t.l, t.v, cx.up), Bin(t.r, cx.v, cx.sib);
      }
      RotatedOk(cx', t', h);
      root', M' := OuterRight(node', parent', gparent, root', M', cx', t');
      cx' := InR(Bin(cx'.up.sib, cx'.up.v.(color := Red), cx'.sib), cx'.v.(color := Black), cx'.up.up);
    }
  }

  method InsertRebalance(node0: Node, root0: Node, ghost M0: Store, ghost cx0: Ctx, ghost t0: Tree, ghost h0: int)
    returns (root: Node, ghost M: Store, ghost t': Tree)
    requires Focus(M0, cx0, t0, node0, root0) && RedAt(cx0, t0, h0)
    modifies M0.Keys
    ensures M.Keys == M0.Keys && Match(M) && At(M, Top, t') && root == Ptr(t')
    ensures RedBlack(t') && InOrder(t') == Line(cx0, t0)
  {
    hide Match, Is, CtxIs, CtxNodes, Sep, CtxSep, Line, Blacks, CtxBlacks, NoRedRed, CtxNoRedRed;
    var node := node0;
    root := root0;
    M := M0;
    ghost var cx, t, h := cx0, t0, h0;
    Look(M, cx, t, root);
    while node.parent != null && node.parent.color == Red
      invariant M.Keys == M0.Keys && Focus(M, cx, t, node, root)
      invariant RedAt(cx, t, h) && Line(cx, t) == Line(cx0, t0)
      invariant node.parent == ParentOf(cx) && (!cx.Top? ==> node.parent.color == cx.v.color)
      decreases Depth(cx)
    {
      var parent := node.parent;
      Up(M, cx, t);
      Look(M, cx.up, Fill(cx, t), root);
      var gparent := parent.parent;
      if parent == gparent.left {
        node, root, M, cx, t, h := FixLeft(node, parent, gparent, root, M, cx, t, h);
      } else {
        node, root, M, cx, t, h := FixRight(node, parent, gparent, root, M, cx, t, h);
      }
      Look(M, cx, t, root);
    }
    t' := Plug(cx, t);
    Close(M, cx, t);
    LinePlug(cx, t);
    PlugRed(cx, t, h);
    PaintFocus(M, Top, t', Black);
    M := Paint(root, Black, M);
    t' := Dye(t', Black);
  }

  /** At the end of the loop only the root itself may still be red. */
  lemma {:induction false} PlugRed(cx: Ctx, t: Tree, h: int)
    requires RedAt(cx, t, h) && !CtxRed(cx)
    ensures Plug(cx, t).Bin? && RedBlack(Dye(Plug(cx, t), Black))
    ensures InOrder(Dye(Plug(cx, t), Black)) == InOrder(Plug(cx, t))
  {
    if cx.Top? {
      assert Blacks(Dye(t, Black), h + 1);
    } else {
      PlugRedBlack(cx, t, h);
      PlugBin(cx, t);
      assert Dye(Plug(cx, t), Black) == Plug(cx, t);
    }
  }

  lemma {:induction false} PlugBin(cx: Ctx, t: Tree)
    requires t.Bin?
    ensures Plug(cx, t).Bin?
    decreases cx
  {
    if !cx.Top? { PlugBin(cx.up, Fill(cx, t)); }
  }

  /** A fresh red node in an empty place: the new node points up, its parent points down. */
  lemma Grown(M: Store, M': Store, cx: Ctx, v: Cell)
    requires At(M, cx, Leaf) && v.node !in M && v.color == Red
    requires M'.Keys == M.Keys + {v.node} && M'[v.node] == CellRec(v, null, null, ParentOf(cx))
    requires forall n :: n in M && n != ParentOf(cx) ==> M'[n] == M[n]
    requires cx.InL? ==> M'[cx.v.node] == M[cx.v.node].(left := v.node)
    requires cx.InR? ==> M'[cx.v.node] == M[cx.v.node].(right := v.node)
    ensures At(M', cx, Bin(Leaf, v, Leaf))
    ensures forall h :: Good(cx, Leaf, h) ==> RedAt(cx, Bin(Leaf, v, Leaf), h)
    ensures Line(cx, Bin(Leaf, v, Leaf)) == Before(cx) + [Pair(v)] + After(cx)
  {
    assert InOrder(Bin(Leaf, v, Leaf)) == [Pair(v)];
    Rehang(M, M', cx, null, v.node);
  }

  /** Where the walk ended, a key that splits the line belongs. */
  lemma SplitsOrdered(cx: Ctx, key: int, data: int)
    requires Splits(cx, key) && Ordered(Line(cx, Leaf))
    ensures Line(cx, Leaf) == Before(cx) + After(cx)
    ensures Ordered(Before(cx) + [(key, data)] + After(cx))
    ensures !cx.Top? ==> (cx.InL? <==> cx.v.key > key)
  {
    var a, b := Before(cx), After(cx);
    assert Line(cx, Leaf) == a + b;
    OrderedBetween(a, b, (key, data));
    if cx.InL? { assert b[0] == Pair(cx.v); }
    if cx.InR? { assert a[|a| - 1] == Pair(cx.v); }
  }

  lemma OrderedBetween(a: seq<(int, int)>, b: seq<(int, int)>, x: (int, int))
    requires Ordered(a + b) && (forall i :: 0 <= i < |a| ==> a[i].0 < x.0)
      && (forall i :: 0 <= i < |b| ==> b[i].0 > x.0)
    ensures Ordered(a + [x] + b)
  {
    var s, t := a + [x] + b, a + b;
    forall i, j | 0 <= i < j < |s| ensures s[i].0 < s[j].0 {
      if i != |a| && j != |a| {
        var k, l := if i < |a| then i else i - 1, if j < |a| then j else j - 1;
        assert s[i] == t[k] && s[j] == t[l] && t[k].0 < t[l].0;
      }
    }
  }

  lemma LookParentKey(M: Store, cx: Ctx, t: Tree)
    requires Match(M) && At(M, cx, t) && !cx.Top?
    ensures cx.v.node in M && cx.v.node.key == cx.v.key
  {}

  /** Point one of the two child links of p to x. */
  method Hook(p: Node, left: bool, x: Node?, ghost M: Store) returns (ghost M': Store)
    requires Match(M) && p in M
    modifies p
    ensures M' == M[p := if left then M[p].(left := x) else M[p].(right := x)] && Match(M')
  {
    if left {
      p.left := x;
    } else {
      p.right := x;
    }
    M' := M[p := if left then M[p].(left := x) else M[p].(right := x)];
  }

  /** The new node, hung below the node at which the search ended. */
  method Hang(key: int, data: int, parent: Node?, root: Node?, ghost M: Store, ghost cx: Ctx, ghost h: int)
    returns (node: Node, root': Node, ghost M': Store, ghost t': Tree)
    requires Focus(M, cx, Leaf, null, root) && Good(cx, Leaf, h) && parent == ParentOf(cx)
    requires !cx.Top? ==> (cx.InL? <==> cx.v.key > key)
    modifies M.Keys
    ensures fresh(node) && M'.Keys == M.Keys + {node}
    ensures Focus(M', cx, t', node, root') && RedAt(cx, t', h)
    ensures Line(cx, t') == Before(cx) + [(key, data)] + After(cx)
  {
    Look(M, cx, Leaf, root);
    RootIsFocus(cx, Leaf);
    node := new Node(key, data, parent);
    ghost var v := Cell(node, key, data, Red);
    t' := Bin(Leaf, v, Leaf);
    M' := M[node := CellRec(v, null, null, parent)];
    if parent != null {
      LookParentKey(M, cx, Leaf);
      M' := Hook(parent, parent.key > key, node, M');
      root' := root;
    } else {
      root' := node;
    }
    Grown(M, M', cx, v);
  }

  method Insert(key: int, data: int, root: Node?, ghost M: Store, ghost t: Tree)
    returns (root': Node, ghost M': Store, ghost t': Tree)
    requires Valid(M, t, root)
    modifies M.Keys
    ensures Valid(M', t', root') && M.Keys <= M'.Keys && fresh(M'.Keys - M.Keys)
    ensures Contents(t') == if key in Contents(t) then Contents(t) else Contents(t)[key := data]
    ensures key in Contents(t) ==> M' == M && t' == t
  {
    var node, parent;
    ghost var cx, leaf, h;
    node, parent, cx, leaf, h := SearchAuxiliary(key, root, M, t);
    if node != null {
      Found(cx, leaf, t);
      return root, M, t;
    }
    SplitsOrdered(cx, key, data);
    MapOfInsert(Before(cx), key, data, After(cx));
    var n, r;
    n, r, M', t' := Hang(key, data, parent, root, M, cx, h);
    root', M', t' := InsertRebalance(n, r, M', cx, t', h);
  }

  lemma Found(cx: Ctx, s: Tree, t: Tree)
    requires s.Bin? && Line(cx, s) == InOrder(t)
    ensures s.v.key in Contents(t)
    ensures Ordered(InOrder(t)) ==> Contents(t)[s.v.key] == s.v.data
  {
    MapOfDomain(InOrder(t));
    var i := |Before(cx)| + |InOrder(s.l)|;
    assert InOrder(t)[i] == Pair(s.v);
  }

  // ---------------------------------------------------------------------------------------------
  // Erasure: the rebalancing loop
  // ---------------------------------------------------------------------------------------------

  /** Seen from the side of a hole: Mk(true, a, v, b) has a on the left, Mk(false, a, v, b) on the right. */
  ghost function Mk(left: bool, near: Tree, v: Cell, far: Tree): Tree {
    if left then Bin(near, v, far) else Bin(far, v, near)
  }

  ghost function Hole(left: bool, v: Cell, sib: Tree, up: Ctx): Ctx {
    if left then InL(v, sib, up) else InR(sib, v, up)
  }

  ghost function Near(left: bool, t: Tree): Tree
    requires t.Bin?
  {
    if left then t.l else t.r
  }

  ghost function Far(left: bool, t: Tree): Tree
    requires t.Bin?
  {
    if left then t.r else t.l
  }

  /**
   * The loop invariant of rb_erase_rebalance: the focus is one black node short, and its root may
   * clash with its neighbours, because it will be painted black if it is red.
   */
  ghost predicate ShortAt(cx: Ctx, t: Tree, h: int) {
    && (t.Bin? ==> NoRedRed(t.l) && NoRedRed(t.r)) && CtxNoRedRed(cx)
    && Blacks(t, h) && CtxBlacks(cx, h + 1) && CtxRootBlack(cx)
  }

  /** The sibling that the loop dereferences exists. */
  lemma SiblingExists(cx: Ctx, t: Tree, h: int)
    requires ShortAt(cx, t, h) && !cx.Top?
    ensures cx.sib.Bin?
  {
    BlacksNat(t, h);
  }

  ghost function RedSibling(cx: Ctx): Ctx
    requires !cx.Top? && cx.sib.Bin?
  {
    var s := cx.InL?;
    Hole(s, cx.v.(color := Red), Near(s, cx.sib), Hole(s, cx.sib.v.(color := Black), Far(s, cx.sib), cx.up))
  }

  lemma RedSiblingOk(cx: Ctx, t: Tree, h: int)
    requires ShortAt(cx, t, h) && !cx.Top? && IsRed(cx.sib)
    ensures ShortAt(RedSibling(cx), t, h) && !IsRed(RedSibling(cx).sib)
  {
    assert NoRedRed(cx.sib) && Blacks(cx.sib, h + 1);
    assert CtxNoRedRed(RedSibling(cx).up) && CtxBlacks(RedSibling(cx).up, h + 1);
  }

  ghost function BlackNephews(cx: Ctx, t: Tree): Tree
    requires !cx.Top? && cx.sib.Bin?
  {
    Fill(DyeSibling(cx, Red), t)
  }

  lemma BlackNephewsOk(cx: Ctx, t: Tree, h: int)
    requires ShortAt(cx, t, h) && !cx.Top? && !IsRed(t) && cx.sib.Bin? && !IsRed(cx.sib)
    requires !IsRed(cx.sib.l) && !IsRed(cx.sib.r)
    ensures ShortAt(cx.up, BlackNephews(cx, t), h + Ink(cx.v.color))
  {}

  ghost function InnerNephew(cx: Ctx): Ctx
    requires !cx.Top? && cx.sib.Bin? && Near(cx.InL?, cx.sib).Bin?
  {
    var s := cx.InL?;
    var n := Near(s, cx.sib);
    var low := Mk(s, Far(s, n), cx.sib.v.(color := Red), Far(s, cx.sib));
    Hole(s, cx.v, Mk(s, Near(s, n), n.v.(color := Black), low), cx.up)
  }

  lemma InnerNephewOk(cx: Ctx, t: Tree, h: int)
    requires ShortAt(cx, t, h) && !cx.Top? && cx.sib.Bin? && !IsRed(cx.sib)
    requires IsRed(Near(cx.InL?, cx.sib)) && !IsRed(Far(cx.InL?, cx.sib))
    ensures var cx' := InnerNephew(cx); ShortAt(cx', t, h) && !IsRed(cx'.sib) && IsRed(Far(cx.InL?, cx'.sib))
  {
    var n := Near(cx.InL?, cx.sib);
    assert Blacks(cx.sib, h + 1) && NoRedRed(cx.sib);
    assert Blacks(n, h) && NoRedRed(n);
    assert Blacks(Near(cx.InL?, n), h) && Blacks(Far(cx.InL?, n), h);
    assert NoRedRed(Near(cx.InL?, n)) && NoRedRed(Far(cx.InL?, n));
    var low := Mk(cx.InL?, Far(cx.InL?, n), cx.sib.v.(color := Red), Far(cx.InL?, cx.sib));
    assert NoRedRed(low) && Blacks(low, h);
  }

  ghost function OuterNephew(cx: Ctx, t: Tree): Tree
    requires !cx.Top? && cx.sib.Bin? && Far(cx.InL?, cx.sib).Bin?
  {
    var s := cx.InL?;
    Mk(s, Mk(s, t, cx.v.(color := Black), Near(s, cx.sib)), cx.sib.v.(color := cx.v.color), Dye(Far(s, cx.sib), Black))
  }

  lemma OuterNephewOk(cx: Ctx, t: Tree, h: int)
    requires ShortAt(cx, t, h) && !cx.Top? && !IsRed(t) && cx.sib.Bin? && !IsRed(cx.sib)
    requires IsRed(Far(cx.InL?, cx.sib))
    ensures Good(cx.up, OuterNephew(cx, t), h + 1 + Ink(cx.v.color))
  {
    var f := Far(cx.InL?, cx.sib);
    assert Blacks(cx.sib, h + 1) && NoRedRed(cx.sib);
    assert Blacks(f, h) && NoRedRed(f);
    assert Blacks(Dye(f, Black), h + 1) && NoRedRed(Dye(f, Black));
    var p := Mk(cx.InL?, t, cx.v.(color := Black), Near(cx.InL?, cx.sib));
    assert Blacks(p, h + 1) && NoRedRed(p);
  }

  /** When the loop ends, painting the focus black makes up for the missing black node. */
  lemma PaintedOk(cx: Ctx, t: Tree, h: int)
    requires ShortAt(cx, t, h) && t.Bin? && (IsRed(t) || cx.Top?)
    ensures Good(cx, Dye(t, Black), if IsRed(t) then h + 1 else h)
    ensures Line(cx, Dye(t, Black)) == Line(cx, t)
  {}

  lemma LineDyed(cx: Ctx, t: Tree, c: Color, c': Color)
    requires !cx.Top? && cx.sib.Bin?
    ensures Line(DyeParent(DyeSibling(cx, c), c'), t) == Line(cx, t)
  {
    assert InOrder(Dye(cx.sib, c)) == InOrder(cx.sib);
  }

  /** A red sibling on the right is rotated above the parent, so that the new sibling is black. */
  method RedSiblingLeft(other: Node, parent: Node, root: Node?, ghost M: Store, ghost cx: Ctx, ghost t: Tree)
    returns (root': Node?, ghost M': Store)
    requires Focus(M, cx, t, Ptr(t), root) && cx.InL? && cx.sib.Bin?
    requires other == cx.sib.v.node && parent == cx.v.node
    modifies M.Keys
    ensures M'.Keys == M.Keys && Focus(M', RedSibling(cx), t, Ptr(t), root') && Line(RedSibling(cx), t) == Line(cx, t)
  {
    ghost var cx1, cx' := DyeParent(DyeSibling(cx, Black), Red), RedSibling(cx);
    PaintSibling(M, cx, t, Black);
    M' := Paint(other, Black, M);
    PaintParent(M', DyeSibling(cx, Black), t, Red);
    M' := Paint(parent, Red, M');
    Up(M', cx1, t);
    root', M' := RotateLeftAt(parent, root, M', cx.up, Fill(cx1, t));
    assert RotL(Fill(cx1, t)) == Fill(cx'.up, Fill(cx', t));
    Up(M', cx'.up, Fill(cx', t));
    Up(M', cx', t);
    LineDyed(cx, t, Black, Red);
    LineUp(cx1, t); InOrderRot(Fill(cx1, t)); LineUp(cx', t); LineUp(cx'.up, Fill(cx', t));
  }

  /** The red inner nephew is rotated above the sibling. */
  method InnerNephewLeft(other: Node, inner: Node, root: Node?, ghost M: Store, ghost cx: Ctx, ghost t: Tree)
    returns (root': Node?, ghost M': Store)
    requires Focus(M, cx, t, Ptr(t), root) && cx.InL? && cx.sib.Bin? && cx.sib.l.Bin?
    requires other == cx.sib.v.node && inner == cx.sib.l.v.node
    modifies M.Keys
    ensures M'.Keys == M.Keys && Focus(M', InnerNephew(cx), t, Ptr(t), root') && Line(InnerNephew(cx), t) == Line(cx, t)
  {
    ghost var cx' := InnerNephew(cx);
    ghost var side := InR(t, cx.v, cx.up);
    ghost var low := InL(cx.sib.v, cx.sib.r, side);
    Up(M, cx, t); Up(M, side, cx.sib); Up(M, low, cx.sib.l);
    PaintFocus(M, low, cx.sib.l, Black);
    M' := Paint(inner, Black, M);
    ghost var x := Dye(cx.sib.l, Black);
    PaintParent(M', low, x, Red);
    M' := Paint(other, Red, M');
    ghost var s := Fill(DyeParent(low, Red), x);
    Up(M', DyeParent(low, Red), x);
    root', M' := RotateRightAt(other, root, M', side, s);
    assert RotR(s) == cx'.sib;
    Up(M', side, cx'.sib); Up(M', cx', t);
    InOrderRot(s);
    assert InOrder(s) == InOrder(cx.sib) by { assert InOrder(x) == InOrder(cx.sib.l); }
  }

  /** The last case: the parent is rotated down and the missing black node is made up. */
  method OuterNephewLeft(other: Node, outer: Node, parent: Node, root: Node?, ghost M: Store, ghost cx: Ctx,
                         ghost t: Tree)
    returns (root': Node?, ghost M': Store)
    requires Focus(M, cx, t, Ptr(t), root) && cx.InL? && cx.sib.Bin? && cx.sib.r.Bin?
    requires other == cx.sib.v.node && outer == cx.sib.r.v.node && parent == cx.v.node
    requires other.color == cx.sib.v.color && parent.color == cx.v.color
    modifies M.Keys
    ensures M'.Keys == M.Keys && Match(M') && At(M', cx.up, OuterNephew(cx, t))
    ensures root' == RootOf(cx.up, OuterNephew(cx, t)) && Line(cx.up, OuterNephew(cx, t)) == Line(cx, t)
  {
    ghost var c := cx.v.color;
    PaintSibling(M, cx, t, c);
    M' := Paint(other, parent.color, M);
    ghost var cx1 := DyeSibling(cx, c);
    PaintParent(M', cx1, t, Black);
    M' := Paint(parent, Black, M');
    ghost var cx2 := DyeParent(cx1, Black);
    ghost var side := InR(t, cx2.v, cx.up);
    ghost var low := InR(cx2.sib.l, cx2.sib.v, side);
    Up(M', cx2, t); Up(M', side, cx2.sib); Up(M', low, cx.sib.r);
    PaintFocus(M', low, cx.sib.r, Black);
    M' := Paint(outer, Black, M');
    ghost var s := Fill(low, Dye(cx.sib.r, Black));
    Up(M', low, Dye(cx.sib.r, Black)); Up(M', side, s);
    root', M' := RotateLeftAt(parent, root, M', cx.up, Fill(side, s));
    assert RotL(Fill(side, s)) == OuterNephew(cx, t);
    InOrderRot(Fill(side, s));
    assert InOrder(Fill(side, s)) == InOrder(Fill(cx, t)) by {
      assert InOrder(s) == InOrder(cx.sib) by { assert InOrder(Dye(cx.sib.r, Black)) == InOrder(cx.sib.r); }
    }
    LineUp(cx, t);
  }

  /** A red sibling on the left is rotated above the parent, so that the new sibling is black. */
  method RedSiblingRight(other: Node, parent: Node, root: Node?, ghost M: Store, ghost cx: Ctx, ghost t: Tree)
    returns (root': Node?, ghost M': Store)
    requires Focus(M, cx, t, Ptr(t), root) && cx.InR? && cx.sib.Bin?
    requires other == cx.sib.v.node && parent == cx.v.node
    modifies M.Keys
    ensures M'.Keys == M.Keys && Focus(M', RedSibling(cx), t, Ptr(t), root') && Line(RedSibling(cx), t) == Line(cx, t)
  {
    ghost var cx1, cx' := DyeParent(DyeSibling(cx, Black), Red), RedSibling(cx);
    PaintSibling(M, cx, t, Black);
    M' := Paint(other, Black, M);
    PaintParent(M', DyeSibling(cx, Black), t, Red);
    M' := Paint(parent, Red, M');
    Up(M', cx1, t);
    root', M' := RotateRightAt(parent, root, M', cx.up, Fill(cx1, t));
    assert RotR(Fill(cx1, t)) == Fill(cx'.up, Fill(cx', t));
    Up(M', cx'.up, Fill(cx', t));
    Up(M', cx', t);
    LineDyed(cx, t, Black, Red);
    LineUp(cx1, t); InOrderRot(Fill(cx1, t)); LineUp(cx', t); LineUp(cx'.up, Fill(cx', t));
  }

  /** The red inner nephew is rotated above the sibling. */
  method InnerNephewRight(other: Node, inner: Node, root: Node?, ghost M: Store, ghost cx: Ctx, ghost t: Tree)
    returns (root': Node?, ghost M': Store)
    requires Focus(M, cx, t, Ptr(t), root) && cx.InR? && cx.sib.Bin? && cx.sib.r.Bin?
    requires other == cx.sib.v.node && inner == cx.sib.r.v.node
    modifies M.Keys
    ensures M'.Keys == M.Keys && Focus(M', InnerNephew(cx), t, Ptr(t), root') && Line(InnerNephew(cx), t) == Line(cx, t)
  {
    ghost var cx' := InnerNephew(cx);
    ghost var side := InL(cx.v, t, cx.up);
    ghost var low := InR(cx.sib.l, cx.sib.v, side);
    Up(M, cx, t); Up(M, side, cx.sib); Up(M, low, cx.sib.r);
    PaintFocus(M, low, cx.sib.r, Black);
    M' := Paint(inner, Black, M);
    ghost var x := Dye(cx.sib.r, Black);
    PaintParent(M', low, x, Red);
    M' := Paint(other, Red, M');
    ghost var s := Fill(DyeParent(low, Red), x);
    Up(M', DyeParent(low, Red), x);
    root', M' := RotateLeftAt(other, root, M', side, s);
    assert RotL(s) == cx'.sib;
    Up(M', side, cx'.sib); Up(M', cx', t);
    InOrderRot(s);
    assert InOrder(s) == InOrder(cx.sib) by { assert InOrder(x) == InOrder(cx.sib.r); }
  }

  /** The last case: the parent is rotated down and the missing black node is made up. */
  method OuterNephewRight(other: Node, outer: Node, parent: Node, root: Node?, ghost M: Store, ghost cx: Ctx,
                          ghost t: Tree)
    returns (root': Node?, ghost M': Store)
    requires Focus(M, cx, t, Ptr(t), root) && cx.InR? && cx.sib.Bin? && cx.sib.l.Bin?
    requires other == cx.sib.v.node && outer == cx.sib.l.v.node && parent == cx.v.node
    requires other.color == cx.sib.v.color && parent.color == cx.v.color
    modifies M.Keys
    ensures M'.Keys == M.Keys && Match(M') && At(M', cx.up, OuterNephew(cx, t))
    ensures root' == RootOf(cx.up, OuterNephew(cx, t)) && Line(cx.up, OuterNephew(cx, t)) == Line(cx, t)
  {
    ghost var c := cx.v.color;
    PaintSibling(M, cx, t, c);
    M' := Paint(other, parent.color, M);
    ghost var cx1 := DyeSibling(cx, c);
    PaintParent(M', cx1, t, Black);
    M' := Paint(parent, Black, M');
    ghost var cx2 := DyeParent(cx1, Black);
    ghost var side := InL(cx2.v, t, cx.up);
    ghost var low := InL(cx2.sib.v, cx2.sib.r, side);
    Up(M', cx2, t); Up(M', side, cx2.sib); Up(M', low, cx.sib.l);
    PaintFocus(M', low, cx.sib.l, Black);
    M' := Paint(outer, Black, M');
    ghost var s := Fill(low, Dye(cx.sib.l, Black));
    Up(M', low, Dye(cx.sib.l, Black)); Up(M', side, s);
    root', M' := RotateRightAt(parent, root, M', cx.up, Fill(side, s));
    assert RotR(Fill(side, s)) == OuterNephew(cx, t);
    InOrderRot(Fill(side, s));
    assert InOrder(Fill(side, s)) == InOrder(Fill(cx, t)) by {
      assert InOrder(s) == InOrder(cx.sib) by { assert InOrder(Dye(cx.sib.l, Black)) == InOrder(cx.sib.l); }
    }
    LineUp(cx, t);
  }

  lemma LookSibling(M: Store, cx: Ctx, t: Tree)
    requires Match(M) && At(M, cx, t) && !cx.Top? && cx.sib.Bin?
    ensures var n, sib := cx.sib.v.node, cx.sib;
      && n in M && n.color == sib.v.color && n.left == Ptr(sib.l) && n.right == Ptr(sib.r)
      && (sib.l.Bin? ==> sib.l.v.node in M && sib.l.v.node.color == sib.l.v.color)
      && (sib.r.Bin? ==> sib.r.v.node in M && sib.r.v.node.color == sib.r.v.color)
  {
    assert Is(M, cx.sib, cx.v.node);
    assert Is(M, cx.sib.l, cx.sib.v.node) && Is(M, cx.sib.r, cx.sib.v.node);
  }

  /** Both nephews black: the sibling turns red and the shortage moves up to the parent. */
  method PushUp(other: Node, parent: Node, root: Node?, ghost M: Store, ghost cx: Ctx, ghost t: Tree, ghost h: int)
    returns (node': Node?, parent': Node?, ghost M': Store)
    requires Focus(M, cx, t, Ptr(t), root) && ShortAt(cx, t, h) && !IsRed(t) && !cx.Top? && parent == cx.v.node
    requires cx.sib.Bin? && !IsRed(cx.sib) && other == cx.sib.v.node && !IsRed(cx.sib.l) && !IsRed(cx.sib.r)
    modifies M.Keys
    ensures M'.Keys == M.Keys && Focus(M', cx.up, BlackNephews(cx, t), node', root) && parent' == ParentOf(cx.up)
    ensures ShortAt(cx.up, BlackNephews(cx, t), h + Ink(cx.v.color)) && Line(cx.up, BlackNephews(cx, t)) == Line(cx, t)
  {
    BlackNephewsOk(cx, t, h);
    PaintSibling(M, cx, t, Red);
    LineDyed(cx, t, Red, cx.v.color);
    M' := Paint(other, Red, M);
    Up(M', DyeSibling(cx, Red), t);
    LineUp(DyeSibling(cx, Red), t);
    Look(M', cx.up, BlackNephews(cx, t), root);
    node' := parent;
    parent' := parent.parent;
  }

  /** A red nephew: one or two rotations make up the shortage. */
  method RepairLeft(other0: Node, parent: Node, root: Node?, ghost M: Store, ghost cx: Ctx, ghost t: Tree, ghost h: int)
    returns (root': Node?, ghost M': Store, ghost cx': Ctx, ghost t': Tree, ghost h': int)
    requires Focus(M, cx, t, Ptr(t), root) && ShortAt(cx, t, h) && !IsRed(t) && cx.InL? && parent == cx.v.node
    requires cx.sib.Bin? && !IsRed(cx.sib) && other0 == cx.sib.v.node && (IsRed(cx.sib.l) || IsRed(cx.sib.r))
    modifies M.Keys
    ensures M'.Keys == M.Keys && Match(M') && At(M', cx', t') && root' == RootOf(cx', t')
    ensures Line(cx', t') == Line(cx, t) && Good(cx', t', h')
  {
    hide At, Match, ShortAt, Good, RootOf, Line;
    root', M', cx' := root, M, cx;
    var other := other0;
    LookSibling(M, cx, t);
    if other.right == null || other.right.color == Black {
      InnerNephewOk(cx, t, h);
      root', M' := InnerNephewLeft(other, other.left, root, M, cx, t);
      cx' := InnerNephew(cx);
      Look(M', cx', t, root');
      other := parent.right;
      LookSibling(M', cx', t);
    }
    Look(M', cx', t, root');
    OuterNephewOk(cx', t, h);
    root', M' := OuterNephewLeft(other, other.right, parent, root', M', cx', t);
    cx', t', h' := cx'.up, OuterNephew(cx', t), h + 1 + Ink(cx'.v.color);
  }

  /** The branch of rb_erase_rebalance for a focus that is a left child. */
  method EraseFixLeft(node: Node?, parent: Node, root: Node?, ghost M: Store, ghost cx: Ctx, ghost t: Tree,
                      ghost h: int)
    returns (done: bool, node': Node?, parent': Node?, root': Node?, ghost M': Store, ghost cx': Ctx, ghost t': Tree,
      ghost h': int)
    requires Focus(M, cx, t, node, root) && ShortAt(cx, t, h) && !IsRed(t) && cx.InL? && parent == cx.v.node
    modifies M.Keys
    ensures M'.Keys == M.Keys && Match(M') && At(M', cx', t') && root' == RootOf(cx', t')
      && Line(cx', t') == Line(cx, t)
    ensures done ==> Good(cx', t', h') && node' == root'
    ensures !done ==> node' == Ptr(t') && parent' == ParentOf(cx') && ShortAt(cx', t', h')
    ensures !done ==> IsRed(t') || Depth(cx') < Depth(cx)
  {
    hide At, Match, ShortAt, Good, RootOf, Line;
    root', M', cx' := root, M, cx;
    SiblingExists(cx, t, h);
    Look(M, cx, t, root);
    var other := parent.right;
    if other.color == Red {
      RedSiblingOk(cx, t, h);
      root', M' := RedSiblingLeft(other, parent, root, M, cx, t);
      cx' := RedSibling(cx);
      SiblingExists(cx', t, h);
      Look(M', cx', t, root');
      other := parent.right;
    }
    LookSibling(M', cx', t);
    if (other.left == null || other.left.color == Black) && (other.right == null || other.right.color == Black) {
      done := false;
      node', parent', M' := PushUp(other, parent, root', M', cx', t, h);
      cx', t', h' := cx'.up, BlackNephews(cx', t), h + Ink(cx'.v.color);
    } else {
      root', M', cx', t', h' := RepairLeft(other, parent, root', M', cx', t, h);
      done, node', parent' := true, root', parent;
    }
  }

  /** A red nephew: one or two rotations make up the shortage. */
  method RepairRight(other0: Node, parent: Node, root: Node?, ghost M: Store, ghost cx: Ctx, ghost t: Tree,
                     ghost h: int)
    returns (root': Node?, ghost M': Store, ghost cx': Ctx, ghost t': Tree, ghost h': int)
    requires Focus(M, cx, t, Ptr(t), root) && ShortAt(cx, t, h) && !IsRed(t) && cx.InR? && parent == cx.v.node
    requires cx.sib.Bin? && !IsRed(cx.sib) && other0 == cx.sib.v.node && (IsRed(cx.sib.r) || IsRed(cx.sib.l))
    modifies M.Keys
    ensures M'.Keys == M.Keys && Match(M') && At(M', cx', t') && root' == RootOf(cx', t')
    ensures Line(cx', t') == Line(cx, t) && Good(cx', t', h')
  {
    hide At, Match, ShortAt, Good, RootOf, Line;
    root', M', cx' := root, M, cx;
    var other := other0;
    LookSibling(M, cx, t);
    if other.left == null || other.left.color == Black {
      InnerNephewOk(cx, t, h);
      root', M' := InnerNephewRight(other, other.right, root, M, cx, t);
      cx' := InnerNephew(cx);
      Look(M', cx', t, root');
      other := parent.left;
      LookSibling(M', cx', t);
    }
    Look(M', cx', t, root');
    OuterNephewOk(cx', t, h);
    root', M' := OuterNephewRight(other, other.left, parent, root', M', cx', t);
    cx', t', h' := cx'.up, OuterNephew(cx', t), h + 1 + Ink(cx'.v.color);
  }

  /** The branch of rb_erase_rebalance for a focus that is a right child. */
  method EraseFixRight(node: Node?, parent: Node, root: Node?, ghost M: Store, ghost cx: Ctx, ghost t: Tree,
                       ghost h: int)
    returns (done: bool, node': Node?, parent': Node?, root': Node?, ghost M': Store, ghost cx': Ctx, ghost t': Tree,
      ghost h': int)
    requires Focus(M, cx, t, node, root) && ShortAt(cx, t, h) && !IsRed(t) && cx.InR? && parent == cx.v.node
    modifies M.Keys
    ensures M'.Keys == M.Keys && Match(M') && At(M', cx', t') && root' == RootOf(cx', t')
      && Line(cx', t') == Line(cx, t)
    ensures done ==> Good(cx', t', h') && node' == root'
    ensures !done ==> node' == Ptr(t') && parent' == ParentOf(cx') && ShortAt(cx', t', h')
    ensures !done ==> IsRed(t') || Depth(cx') < Depth(cx)
  {
    hide At, Match, ShortAt, Good, RootOf, Line;
    root', M', cx' := root, M, cx;
    SiblingExists(cx, t, h);
    Look(M, cx, t, root);
    var other := parent.left;
    if other.color == Red {
      RedSiblingOk(cx, t, h);
      root', M' := RedSiblingRight(other, parent, root, M, cx, t);
      cx' := RedSibling(cx);
      SiblingExists(cx', t, h);
      Look(M', cx', t, root');
      other := parent.left;
    }
    LookSibling(M', cx', t);
    if (other.left == null || other.left.color == Black) && (other.right == null || other.right.color == Black) {
      done := false;
      node', parent', M' := PushUp(other, parent, root', M', cx', t, h);
      cx', t', h' := cx'.up, BlackNephews(cx', t), h + Ink(cx'.v.color);
    } else {
      root', M', cx', t', h' := RepairRight(other, parent, root', M', cx', t, h);
      done, node', parent' := true, root', parent;
    }
  }

  /** The last lines of rb_erase_rebalance: paint the node at which the loop stopped black. */
  method Settle(node: Node?, root: Node?, ghost M: Store, ghost cx: Ctx, ghost t: Tree, ghost h: int)
    returns (ghost M': Store, ghost t': Tree)
    requires Focus(M, cx, t, node, root) && ShortAt(cx, t, h) && (IsRed(t) || cx.Top?)
    modifies M.Keys
    ensures M'.Keys == M.Keys && Match(M') && At(M', Top, t') && root == Ptr(t')
    ensures RedBlack(t') && InOrder(t') == Line(cx, t)
  {
    M', t' := M, t;
    ghost var k := h;
    if node != null {
      PaintedOk(cx, t, h);
      PaintFocus(M, cx, t, Black);
      M' := Paint(node, Black, M);
      t', k := Dye(t, Black), if IsRed(t) then h + 1 else h;
    }
    Close(M', cx, t');
    LinePlug(cx, t');
    PlugRedBlack(cx, t', k);
    t' := Plug(cx, t');
  }

  /** A repaired tree, seen from the root, is a special case of the loop invariant. */
  lemma RepairedAtTop(M: Store, cx: Ctx, t: Tree, h: int) returns (k: int)
    requires At(M, cx, t) && Good(cx, t, h)
    ensures At(M, Top, Plug(cx, t)) && ShortAt(Top, Plug(cx, t), k)
    ensures Line(Top, Plug(cx, t)) == Line(cx, t) && RootOf(cx, t) == Ptr(Plug(cx, t))
  {
    Close(M, cx, t);
    LinePlug(cx, t);
    PlugRedBlack(cx, t, h);
    k :| Blacks(Plug(cx, t), k);
  }

  method EraseRebalance(node0: Node?, parent0: Node?, root0: Node?, ghost M0: Store, ghost cx0: Ctx, ghost t0: Tree,
                        ghost h0: int)
    returns (root: Node?, ghost M: Store, ghost t': Tree)
    requires Focus(M0, cx0, t0, node0, root0) && parent0 == ParentOf(cx0) && ShortAt(cx0, t0, h0)
    modifies M0.Keys
    ensures M.Keys == M0.Keys && Match(M) && At(M, Top, t') && root == Ptr(t')
    ensures RedBlack(t') && InOrder(t') == Line(cx0, t0)
  {
    hide Match, Is, CtxIs, Nodes, CtxNodes, Sep, CtxSep, ShortAt, Good, Line;
    var node, parent := node0, parent0;
    root := root0;
    M := M0;
    ghost var cx, t, h := cx0, t0, h0;
    Look(M, cx, t, root);
    RootIsFocus(cx, t);
    while (node == null || node.color == Black) && node != root
      invariant M.Keys == M0.Keys && Focus(M, cx, t, node, root) && Line(cx, t) == Line(cx0, t0)
      invariant parent == ParentOf(cx) && ShortAt(cx, t, h)
      invariant (IsRed(t) <==> node != null && node.color == Red) && (node == root <==> cx.Top?)
      decreases if IsRed(t) then 0 else Depth(cx) + 1
    {
      SiblingExists(cx, t, h);
      Look(M, cx, t, root);
      var done;
      if parent.left == node {
        done, node, parent, root, M, cx, t, h := EraseFixLeft(node, parent, root, M, cx, t, h);
      } else {
        done, node, parent, root, M, cx, t, h := EraseFixRight(node, parent, root, M, cx, t, h);
      }
      if done {
        h := RepairedAtTop(M, cx, t, h);
        cx, t := Top, Plug(cx, t);
        break;
      }
      Look(M, cx, t, root);
      RootIsFocus(cx, t);
    }
    M, t' := Settle(node, root, M, cx, t, h);
  }

  // ---------------------------------------------------------------------------------------------
  // Erasure: taking the node out
  // ---------------------------------------------------------------------------------------------

  ghost function Replant(M: Store, p: Node?, x: Node, y: Node?): Store
    requires p != null ==> p in M
  {
    if p == null then M
    else M[p := if M[p].left == x then M[p].(left := y) else M[p].(right := y)]
  }

  /** The block "child->parent = parent" of rb_erase. */
  method Foster(b: Node?, p: Node?, ghost M: Store) returns (ghost M': Store)
    requires Match(M) && (b != null ==> b in M)
    modifies b
    ensures M' == Adopt(M, b, p) && M'.Keys == M.Keys && Match(M')
  {
    if b != null {
      b.parent := p;
    }
    M' := Adopt(M, b, p);
  }

  /** The block that puts y where p, or the root pointer, had x. */
  method Relink(p: Node?, x: Node, y: Node?, root: Node?, ghost M: Store) returns (root': Node?, ghost M': Store)
    requires Match(M) && (p != null ==> p in M)
    modifies p
    ensures M' == Replant(M, p, x, y) && M'.Keys == M.Keys && Match(M')
    ensures root' == if p == null then y else root
  {
    root' := root;
    if p != null {
      if p.left == x {
        p.left := y;
      } else {
        p.right := y;
      }
    } else {
      root' := y;
    }
    M' := Replant(M, p, x, y);
  }

  /** The only child, if any, of a node with at most one. */
  ghost predicate OnlyChild(t: Tree, c: Tree) {
    t.Bin? && ((t.l.Leaf? && c == t.r) || (t.r.Leaf? && c == t.l))
  }

  lemma SplicedAt(M: Store, cx: Ctx, t: Tree, c: Tree)
    requires At(M, cx, t) && OnlyChild(t, c)
    ensures var p := ParentOf(cx);
      && (c.Bin? ==> c.v.node in M) && (p != null ==> p in M)
      && At(Replant(Adopt(M, Ptr(c), p), p, t.v.node, Ptr(c)) - {t.v.node}, cx, c)
  {
    var p := ParentOf(cx);
    var M1 := Replant(Adopt(M, Ptr(c), p), p, t.v.node, Ptr(c));
    var M' := M1 - {t.v.node};
    assert Sep(c) && Nodes(t) == Nodes(c) + {t.v.node} && t.v.node !in Nodes(c);
    assert c.Bin? ==> c.v.node in Nodes(c);
    if !cx.Top? { HoleSide(M, cx, t); LeftSide(M, cx, t); }
    Reparent(M, M', c, t.v.node, p);
    Rehang(M, M', cx, t.v.node, Ptr(c));
  }

  lemma LeftSide(M: Store, cx: Ctx, t: Tree)
    requires At(M, cx, t) && t.Bin? && !cx.Top?
    ensures M[cx.v.node].left == t.v.node <==> cx.InL?
  {
    assert cx.sib.Bin? ==> cx.sib.v.node in Nodes(cx.sib);
  }

  /** Take the node at the focus, which has at most one child, out of the tree. */
  method Splice(node: Node, child: Node?, parent: Node?, root: Node?, ghost M: Store, ghost cx: Ctx, ghost t: Tree,
                ghost c: Tree)
    returns (root': Node?, ghost M': Store)
    requires Focus(M, cx, t, node, root) && OnlyChild(t, c) && child == Ptr(c) && parent == ParentOf(cx)
    modifies M.Keys - {node}
    ensures M'.Keys == M.Keys - {node} && Focus(M', cx, c, child, root')
  {
    SplicedAt(M, cx, t, c);
    RootIsFocus(cx, t);
    hide At;
    M' := Foster(child, parent, M);
    root', M' := Relink(parent, node, child, root, M');
    M' := M' - {node};
  }

  /** The store after the transplant, entry by entry. */
  lemma TransplantEntries(M: Store, M': Store, cx: Ctx, t: Tree, v: Cell)
    requires Transplanted(M, M', cx, t, v)
    ensures M'.Keys == M.Keys - {t.v.node} + {v.node}
    ensures M'[v.node] == CellRec(v, Ptr(t.l), Ptr(t.r), ParentOf(cx))
    ensures forall k :: k in Nodes(t.l) ==> k in M' && M'[k] == if k == Ptr(t.l) then M[k].(parent := v.node) else M[k]
    ensures forall k :: k in Nodes(t.r) ==> k in M' && M'[k] == if k == Ptr(t.r) then M[k].(parent := v.node) else M[k]
    ensures forall k :: k in CtxNodes(cx) ==> k in M' && (k != ParentOf(cx) ==> M'[k] == M[k])
    ensures cx.InL? ==> M'[cx.v.node] == M[cx.v.node].(left := v.node)
    ensures cx.InR? ==> M'[cx.v.node] == M[cx.v.node].(right := v.node)
  {
    assert t.l.v.node in Nodes(t.l) && (t.r.Bin? ==> t.r.v.node in Nodes(t.r));
    if !cx.Top? { HoleSide(M, cx, t); LeftSide(M, cx, t); }
    hide Is, CtxIs, Sep, CtxSep;
  }

  ghost predicate Transplanted(M: Store, M': Store, cx: Ctx, t: Tree, v: Cell) {
    At(M, cx, t) && t.Bin? && t.l.Bin? && v.node !in M &&
    var n, o, p := v.node, t.v.node, ParentOf(cx);
    var M1 := M[n := CellRec(v, Ptr(t.l), Ptr(t.r), p)];
    && (p != null ==> p in M1) && t.l.v.node in M1 && (t.r.Bin? ==> t.r.v.node in M1)
    && M' == Adopt(Adopt(Replant(M1, p, o, n), t.l.v.node, n), Ptr(t.r), n) - {o}
  }

  lemma TransplantedAt(M: Store, M': Store, cx: Ctx, t: Tree, v: Cell)
    requires Transplanted(M, M', cx, t, v)
    ensures At(M', cx, Bin(t.l, v, t.r))
  {
    var n, o := v.node, t.v.node;
    assert Sep(t.l) && Sep(t.r);
    assert Nodes(Bin(t.l, v, t.r)) == Nodes(t.l) + {n} + Nodes(t.r);
    TransplantEntries(M, M', cx, t, v);
    hide Adopt, Replant;
    Reparent(M, M', t.l, o, n);
    Reparent(M, M', t.r, o, n);
    Rehang(M, M', cx, o, n);
  }

  method CopyLinks(old': Node, node: Node, ghost M: Store) returns (ghost M': Store)
    requires Match(M) && old' in M && node !in M
    modifies node
    ensures M' == M[node := M[old'].(key := old(node.key), data := old(node.data))] && Match(M')
  {
    M' := M[node := M[old'].(key := node.key, data := node.data)];
    node.parent := old'.parent;
    node.color := old'.color;
    node.right := old'.right;
    node.left := old'.left;
  }

  lemma Around(M: Store, cx: Ctx, t: Tree)
    requires At(M, cx, t) && t.Bin?
    ensures t.v.node in M && (t.l.Bin? ==> t.l.v.node in M) && (t.r.Bin? ==> t.r.v.node in M)
    ensures !cx.Top? ==> cx.v.node in M && cx.v.node != t.v.node
    ensures M[t.v.node] == CellRec(t.v, Ptr(t.l), Ptr(t.r), ParentOf(cx))
    ensures forall v: Cell :: RootOf(cx, Bin(t.l, v, t.r)) == if cx.Top? then v.node else RootOf(cx, t)
  {}

  lemma Forget(M: Store, n: Node)
    requires Match(M)
    ensures Match(M - {n})
  {}

  /** Redirect the three links that led to old' to node. */
  method Redirect(old': Node, node: Node, left: Node?, right: Node?, parent: Node?, root: Node?, ghost M: Store)
    returns (root': Node?, ghost M': Store)
    requires Match(M) && (parent != null ==> parent in M) && (left != null ==> left in M)
      && (right != null ==> right in M)
    modifies parent, left, right
    ensures M' == Adopt(Adopt(Replant(M, parent, old', node), left, node), right, node) && Match(M')
    ensures root' == if parent == null then node else root
  {
    hide Adopt, Replant, Match;
    root', M' := Relink(parent, old', node, root, M);
    M' := Foster(left, node, M');
    M' := Foster(right, node, M');
  }

  /** Put node, which is no longer in the tree, in the place of old. */
  method Transplant(old': Node, node: Node, root: Node?, ghost M: Store, ghost cx: Ctx, ghost t: Tree)
    returns (root': Node?, ghost M': Store)
    requires Focus(M, cx, t, old', root) && t.Bin? && t.l.Bin? && node !in M
    modifies M.Keys, node
    ensures var v := Cell(node, old(node.key), old(node.data), t.v.color);
      M'.Keys == M.Keys - {old'} + {node} && Focus(M', cx, Bin(t.l, v, t.r), node, root')
  {
    hide At, Match, Nodes, CtxNodes, RootOf, Adopt, Replant;
    LookDown(M, cx, t);
    Around(M, cx, t);
    ghost var v := Cell(node, node.key, node.data, t.v.color);
    var left, right, parent := old'.left, old'.right, old'.parent;
    M' := CopyLinks(old', node, M);
    root', M' := Redirect(old', node, left, right, parent, root, M');
    Forget(M', old');
    M' := M' - {old'};
    TransplantEntries(M, M', cx, t, v);
    TransplantedAt(M, M', cx, t, v);
  }

  /** The path p, continued by q. */
  ghost function Append(p: Ctx, q: Ctx): Ctx {
    if p.Top? then q else p.(up := Append(p.up, q))
  }

  lemma {:induction false} UpAll(M: Store, p: Ctx, q: Ctx, t: Tree)
    ensures At(M, Append(p, q), t) <==> At(M, q, Plug(p, t))
    ensures RootOf(Append(p, q), t) == RootOf(q, Plug(p, t))
    decreases p
  {
    if !p.Top? {
      Up(M, Append(p, q), t);
      assert Fill(Append(p, q), t) == Fill(p, t);
      UpAll(M, p.up, q, Fill(p, t));
    }
  }

  lemma {:induction false} AroundAppend(p: Ctx, q: Ctx)
    ensures Before(Append(p, q)) == Before(q) + Before(p) && After(Append(p, q)) == After(p) + After(q)
  {
    if !p.Top? {
      AroundAppend(p.up, q);
      Reassociate(Before(q), Before(p.up), After(p.up), After(q), p);
    }
  }

  lemma Reassociate(a: seq<(int, int)>, b: seq<(int, int)>, c: seq<(int, int)>, d: seq<(int, int)>, p: Ctx)
    requires !p.Top?
    ensures p.InL? ==> [Pair(p.v)] + InOrder(p.sib) + (c + d) == ([Pair(p.v)] + InOrder(p.sib) + c) + d
    ensures p.InR? ==> (a + b) + InOrder(p.sib) + [Pair(p.v)] == a + (b + InOrder(p.sib) + [Pair(p.v)])
  {
    hide InOrder;
  }

  /** The colour rules do not see which node sits at a place, only its colour. */
  lemma {:induction false} Recast(p: Ctx, l: Tree, v: Cell, v': Cell, q: Ctx, h: int)
    requires v.color == v'.color
    ensures var a, b := Append(p, InR(l, v, q)), Append(p, InR(l, v', q));
      && CtxNoRedRed(a) == CtxNoRedRed(b) && CtxBlacks(a, h) == CtxBlacks(b, h)
      && CtxRootBlack(a) == CtxRootBlack(b) && CtxRed(a) == CtxRed(b) && !a.Top? && !b.Top?
    decreases p
  {
    if !p.Top? { Recast(p.up, l, v, v', q, h + Ink(p.v.color)); }
  }

  /** Taking out a node with at most one child: no harm if it was red, one black node short if not. */
  lemma Removed(cx: Ctx, t: Tree, c: Tree, h: int)
    requires Good(cx, t, h) && OnlyChild(t, c)
    ensures t.v.color == Red ==> Good(cx, c, h)
    ensures t.v.color == Black ==> ShortAt(cx, c, h - 1)
  {
    assert NoRedRed(c);
  }

  /** The rest of rb_erase once the node is out: rebalance if a black node went. */
  method FinishErase(child: Node?, parent: Node?, root: Node?, color: Color, ghost M: Store, ghost cx: Ctx,
                     ghost c: Tree, ghost h: int)
    returns (root': Node?, ghost M': Store, ghost t': Tree)
    requires Focus(M, cx, c, child, root) && parent == ParentOf(cx)
    requires color == Red ==> Good(cx, c, h)
    requires color == Black ==> ShortAt(cx, c, h - 1)
    modifies M.Keys
    ensures M'.Keys == M.Keys && Match(M') && At(M', Top, t') && root' == Ptr(t')
    ensures RedBlack(t') && InOrder(t') == Line(cx, c)
  {
    if color == Black {
      root', M', t' := EraseRebalance(child, parent, root, M, cx, c, h - 1);
    } else {
      root', M', t' := root, M, Plug(cx, c);
      Close(M, cx, c);
      LinePlug(cx, c);
      PlugRedBlack(cx, c, h);
    }
  }

  lemma ThinLine(cx: Ctx, t: Tree, c: Tree)
    requires OnlyChild(t, c)
    ensures Line(cx, c) == (Before(cx) + InOrder(t.l)) + (InOrder(t.r) + After(cx))
  {}

  /** Erase a node with at most one child. */
  method EraseThin(node: Node, root: Node?, ghost M: Store, ghost cx: Ctx, ghost t: Tree, ghost h: int)
    returns (root': Node?, ghost M': Store, ghost t': Tree)
    requires Focus(M, cx, t, node, root) && Good(cx, t, h) && t.Bin? && (t.l.Leaf? || t.r.Leaf?)
    modifies M.Keys
    ensures M'.Keys == M.Keys - {node} && Match(M') && At(M', Top, t') && root' == Ptr(t') && RedBlack(t')
    ensures InOrder(t') == (Before(cx) + InOrder(t.l)) + (InOrder(t.r) + After(cx))
  {
    hide At, Match, ShortAt, Good, RootOf, Nodes, RedBlack, Line, InOrder, Before, After;
    LookDown(M, cx, t);
    var child: Node? := null;
    if node.left == null {
      child := node.right;
    } else if node.right == null {
      child := node.left;
    }
    ghost var c := if t.l.Leaf? then t.r else t.l;
    var parent, color := node.parent, node.color;
    Removed(cx, t, c, h);
    var r;
    r, M' := Splice(node, child, parent, root, M, cx, t, c);
    root', M', t' := FinishErase(child, parent, r, color, M', cx, c, h);
    ThinLine(cx, t, c);
  }

  /** One more step to the left keeps what comes after. */
  lemma Leftwards(p: Ctx, t: Tree, base: Ctx)
    requires t.Bin?
    ensures var p' := InL(t.v, t.r, p);
      && Before(p') == Before(p) && InOrder(t.l) + After(p') == InOrder(t) + After(p)
      && Append(p', base) == InL(t.v, t.r, Append(p, base))
  {
    assert InOrder(t.l) + ([Pair(t.v)] + InOrder(t.r) + After(p)) == InOrder(t) + After(p);
  }

  lemma NoPath(base: Ctx, t: Tree)
    ensures Append(Top, base) == base && Before(Top) == [] && InOrder(t) + After(Top) == InOrder(t)
  {}

  lemma {:induction false} PathApart(p: Ctx, q: Ctx, t: Tree)
    requires CtxSep(Append(p, q)) && !q.Top?
    ensures q.v.node in CtxNodes(Append(p, q)) && (!p.Top? ==> p.v.node != q.v.node)
    ensures t.Bin? && Apart(Append(p, q), t) ==> t.v.node != q.v.node
    decreases p
  {
    if !p.Top? { PathApart(p.up, q, Leaf); }
    if t.Bin? { assert t.v.node in Nodes(t); }
  }

  lemma Distinct(M: Store, p: Ctx, q: Ctx, t: Tree)
    requires At(M, Append(p, q), t) && !q.Top? && t.Bin?
    ensures t.v.node != q.v.node && t.v.node in M
    ensures p.Top? <==> ParentOf(Append(p, q)) == q.v.node
    ensures forall q' :: !p.Top? ==> ParentOf(Append(p, q')) == p.v.node
  {
    PathApart(p, q, t);
  }

  lemma PromotedOk(p: Ctx, l: Tree, v: Cell, v': Cell, q: Ctx, sub: Tree, k: int)
    requires v.color == v'.color && sub.Bin? && sub.l.Leaf? && Good(Append(p, InR(l, v, q)), sub, k)
    ensures sub.v.color == Red ==> Good(Append(p, InR(l, v', q)), sub.r, k)
    ensures sub.v.color == Black ==> ShortAt(Append(p, InR(l, v', q)), sub.r, k - 1)
  {
    Removed(Append(p, InR(l, v, q)), sub, sub.r, k);
    Recast(p, l, v, v', q, k);
  }

  /** Erase a node with two children: its successor, found by walking left, takes its place and its colour. */
  method EraseFull(old': Node, root: Node?, ghost M: Store, ghost cx: Ctx, ghost t: Tree, ghost h: int)
    returns (root': Node?, ghost M': Store, ghost t': Tree)
    requires Focus(M, cx, t, old', root) && Good(cx, t, h) && t.Bin? && t.l.Bin? && t.r.Bin?
    modifies M.Keys
    ensures M'.Keys == M.Keys - {old'} && Match(M') && At(M', Top, t') && root' == Ptr(t') && RedBlack(t')
    ensures InOrder(t') == (Before(cx) + InOrder(t.l)) + (InOrder(t.r) + After(cx))
  {
    hide At, Match, Good, RootOf, RedBlack, Nodes, InOrder, After, Before, Append, Line;
    LookDown(M, cx, t);
    ghost var base := InR(t.l, t.v, cx);
    var node := old'.right;
    ghost var p, sub, k := Top, t.r, h - Ink(t.v.color);
    NoPath(base, t.r);
    Descended(M, base, t.r, k, root);
    LookDown(M, base, t.r);
    var left := node.left;
    while left != null
      invariant Focus(M, Append(p, base), sub, node, root) && Good(Append(p, base), sub, k) && sub.Bin?
      invariant left == Ptr(sub.l) && Before(p) == [] && InOrder(sub) + After(p) == InOrder(t.r)
      decreases sub
    {
      node := left;
      Leftwards(p, sub, base);
      p, sub, k := InL(sub.v, sub.r, p), sub.l, k - Ink(sub.v.color);
      Descended(M, Append(p, base), sub, k, root);
      LookDown(M, Append(p, base), sub);
      left := node.left;
    }
    root', M', t' := Promote(old', node, root, M, cx, t, p, sub, k);
    AfterPromotion(cx, t, p, sub);
  }

  lemma Regroup(a: Pairs, l: Pairs, x: Pairs, c: Pairs, b: Pairs, d: Pairs)
    ensures (a + l + x) + [] + c + (b + d) == (a + l) + (((x + c) + b) + d)
  {}

  lemma AfterPromotion(cx: Ctx, t: Tree, p: Ctx, sub: Tree)
    requires t.Bin? && sub.Bin? && sub.l.Leaf? && Before(p) == [] && InOrder(sub) + After(p) == InOrder(t.r)
    ensures Line(Append(p, InR(t.l, sub.v.(color := t.v.color), cx)), sub.r) ==
      (Before(cx) + InOrder(t.l)) + (InOrder(t.r) + After(cx))
  {
    var q := InR(t.l, sub.v.(color := t.v.color), cx);
    AroundAppend(p, q);
    hide Append;
    assert InOrder(sub) == [Pair(sub.v)] + InOrder(sub.r);
    Regroup(Before(cx), InOrder(t.l), [Pair(sub.v)], InOrder(sub.r), After(p), After(cx));
  }

  /** Unlink the successor, then give it the links and the colour of the node to be erased. */
  method Promote(old': Node, node: Node, root: Node?, ghost M: Store, ghost cx: Ctx, ghost t: Tree, ghost p: Ctx,
                 ghost sub: Tree, ghost k: int)
    returns (root': Node?, ghost M': Store, ghost t': Tree)
    requires t.Bin? && t.l.Bin? && old' == t.v.node && sub.Bin? && sub.l.Leaf?
    requires Focus(M, Append(p, InR(t.l, t.v, cx)), sub, node, root) && Good(Append(p, InR(t.l, t.v, cx)), sub, k)
    modifies M.Keys
    ensures M'.Keys == M.Keys - {old'} && Match(M') && At(M', Top, t') && root' == Ptr(t') && RedBlack(t')
    ensures InOrder(t') == Line(Append(p, InR(t.l, sub.v.(color := t.v.color), cx)), sub.r)
  {
    hide At, Match, Good, ShortAt, RootOf, RedBlack, Line, CtxNoRedRed, CtxBlacks, CtxRootBlack;
    ghost var base, v := InR(t.l, t.v, cx), sub.v.(color := t.v.color);
    ghost var up, c := Append(p, base), sub.r;
    LookDown(M, up, sub);
    var child, parent, color := node.right, node.parent, node.color;
    PromotedOk(p, t.l, t.v, v, cx, sub, k);
    Distinct(M, p, base, sub);
    var r;
    r, M' := Splice(node, child, parent, root, M, up, sub, c);
    UpAll(M', p, base, c);
    Up(M', base, Plug(p, c));
    if parent == old' {
      parent := node;
    }
    r, M' := Transplant(old', node, r, M', cx, Bin(t.l, t.v, Plug(p, c)));
    ghost var base' := InR(t.l, v, cx);
    Up(M', base', Plug(p, c));
    UpAll(M', p, base', c);
    root', M', t' := FinishErase(child, parent, r, color, M', Append(p, base'), c, k);
  }

  /** Without one pair, an ordered line stays ordered and its map loses one key. */
  lemma Without(a: Pairs, p: (int, int), b: Pairs)
    requires Ordered(a + [p] + b)
    ensures Ordered(a + b) && MapOf(a + b) == MapOf(a + [p] + b) - {p.0}
  {
    var s := a + [p] + b;
    forall i, j | 0 <= i < j < |a + b| ensures (a + b)[i].0 < (a + b)[j].0 {
      assert (a + b)[i] == s[if i < |a| then i else i + 1] && (a + b)[j] == s[if j < |a| then j else j + 1];
    }
    MapOfInsert(a, p.0, p.1, b);
    assert s == a + [(p.0, p.1)] + b;
  }

  lemma Absent(cx: Ctx, key: int, t: Tree)
    requires Splits(cx, key) && Line(cx, Leaf) == InOrder(t)
    ensures key !in Contents(t)
  {
    MapOfDomain(InOrder(t));
    forall i | 0 <= i < |InOrder(t)| ensures InOrder(t)[i].0 != key {
      assert InOrder(t)[i] == (Before(cx) + After(cx))[i];
    }
  }

  method Erase(key: int, root: Node?, ghost M: Store, ghost t: Tree)
    returns (root': Node?, ghost M': Store, ghost t': Tree)
    requires Valid(M, t, root)
    modifies M.Keys
    ensures Valid(M', t', root') && M'.Keys <= M.Keys
    ensures Contents(t') == Contents(t) - {key}
    ensures key !in Contents(t) ==> M' == M && t' == t
  {
    hide At, Match, Nodes, InOrder, Before, After, RedBlack, Good, Splits, RootOf, Ordered;
    var node, save;
    ghost var cx, sub, h;
    node, save, cx, sub, h := SearchAuxiliary(key, root, M, t);
    if node == null {
      Absent(cx, key, t);
      return root, M, t;
    }
    LookDown(M, cx, sub);
    Found(cx, sub, t);
    SplitLine(cx, sub);
    Without(Before(cx) + InOrder(sub.l), Pair(sub.v), InOrder(sub.r) + After(cx));
    if node.left != null && node.right != null {
      root', M', t' := EraseFull(node, root, M, cx, sub, h);
    } else {
      root', M', t' := EraseThin(node, root, M, cx, sub, h);
    }
  }

  lemma SplitLine(cx: Ctx, t: Tree)
    requires t.Bin?
    ensures Line(cx, t) == (Before(cx) + InOrder(t.l)) + [Pair(t.v)] + (InOrder(t.r) + After(cx))
  {}

  /** rb_search: the node that carries the key, if any. */
  method Search(key: int, root: Node?, ghost M: Store, ghost t: Tree) returns (node: Node?)
    requires Valid(M, t, root)
    ensures node != null <==> key in Contents(t)
    ensures node != null ==> node in M && node.key == key && node.data == Contents(t)[key]
  {
    var save;
    ghost var cx, sub, h;
    node, save, cx, sub, h := SearchAuxiliary(key, root, M, t);
    if node == null {
      Absent(cx, key, t);
    } else {
      LookDown(M, cx, sub);
      Found(cx, sub, t);
    }
  }

  datatype Op = Put(key: int, data: int) | Del(key: int)

  /** What a map would hold after the same operations; a key that is there keeps its data. */
  function Plain(ops: seq<Op>): map<int, int> {
    if ops == [] then map[]
    else
      var m := Plain(ops[..|ops| - 1]);
      match ops[|ops| - 1]
      case Put(key, data) => if key in m then m else m[key := data]
      case Del(key) => m - {key}
  }

  /** Any run of insertions and deletions, from the empty tree: a valid tree that holds what a map would. */
  method Run(ops: seq<Op>) returns (root: Node?, ghost M: Store, ghost t: Tree)
    ensures Valid(M, t, root) && fresh(M.Keys)
    ensures Contents(t) == Plain(ops)
  {
    root, M, t := null, map[], Leaf;
    EmptyTree();
    hide Valid, Contents;
    var i := 0;
    while i < |ops|
      invariant 0 <= i <= |ops| && Valid(M, t, root) && fresh(M.Keys)
      invariant Contents(t) == Plain(ops[..i])
    {
      assert ops[..i + 1][..i] == ops[..i];
      match ops[i] {
        case Put(key, data) => root, M, t := Insert(key, data, root, M, t);
        case Del(key) => root, M, t := Erase(key, root, M, t);
      }
      i := i + 1;
    }
    assert ops[..i] == ops;
  }

  lemma EmptyTree()
    ensures Valid(map[], Leaf, null) && Contents(Leaf) == map[]
  {
    assert Blacks(Leaf, 0);
  }
}
