/** The red-black tree of deps/libuv/include/tree.h. */
module RbTree {
  import opened Links
  import opened Sequences
  import opened Powers
  import opened KeyOrder
  import opened RbBalance

  /** The node at the focus of a sorted tree splits the keys. */
  lemma FocusSplits(c: RCtx, t: RTree, key: Ptr -> int)
    requires t.T? && Sorted(Before(c) + InOrder(t) + After(c), key)
    ensures AllBelow(Before(c) + InOrder(t.l), key, key(t.n)) && AllAbove(InOrder(t.r) + After(c), key, key(t.n))
    ensures Before(c) + InOrder(t) + After(c) == Before(c) + InOrder(t.l) + [t.n] + (InOrder(t.r) + After(c))
  {
    Regroup(Before(c), InOrder(t.l), t.n, InOrder(t.r), After(c));
    SortedSplit(Before(c) + InOrder(t.l), t.n, InOrder(t.r) + After(c), key);
  }

  /** The nodes around the node at the focus. */
  function Others(c: RCtx, t: RTree): seq<Ptr>
    requires t.T?
  { Before(c) + InOrder(t.l) + (InOrder(t.r) + After(c)) }

  lemma RemovedFrom(c: RCtx, t: RTree, key: Ptr -> int)
    requires t.T? && Sorted(Before(c) + InOrder(t) + After(c), key)
    ensures Sorted(Others(c, t), key) && Inserted(Others(c, t), t.n, Before(c) + InOrder(t) + After(c))
  {
    var a, b := Before(c) + InOrder(t.l), InOrder(t.r) + After(c);
    Regroup(Before(c), InOrder(t.l), t.n, InOrder(t.r), After(c));
    SortedDrop(a, t.n, b, key);
    InsertedBetween(a, t.n, b);
  }

  lemma OuterOrder(c: RCtx, t: RTree, rest: RTree)
    requires t.T? && ((t.l.Leaf? && rest == t.r) || (t.r.Leaf? && rest == t.l))
    ensures Before(c) + InOrder(rest) + After(c) == Others(c, t)
  {
  }

  lemma InnerOrder(c: RCtx, t: RTree, ci: RCtx, ts: RTree)
    requires t.T? && ts.T? && ts.l.Leaf? && Plug(ci, ts) == t.r && Before(ci) == []
    ensures var d := Compose(ci, R(t.l, ts.n, t.x, c)); Before(d) + InOrder(ts.r) + After(d) == Others(c, t)
  {
    ComposeOrder(ci, R(t.l, ts.n, t.x, c));
    PlugOrder(ci, ts);
    Reseat(Before(c) + InOrder(t.l), ts.n, InOrder(ts.r), After(ci), After(c));
    assert [] + InOrder(ts) + After(ci) == [] + ([] + [ts.n] + InOrder(ts.r)) + After(ci);
  }

  lemma Reseat(a: seq<Ptr>, n: Ptr, b: seq<Ptr>, e: seq<Ptr>, d: seq<Ptr>)
    ensures a + [n] + [] + b + (e + d) == a + (([] + ([] + [n] + b) + e) + d)
  {
  }

  lemma OldOutside(ci: RCtx, t: RTree, ts: RTree, n: Ptr)
    requires t.T? && t.n == n && Disj(t) && Plug(ci, ts) == t.r
    ensures !ci.Top? ==> ci.n != n
  {
    PlugNodes(ci, ts);
    assert !ci.Top? ==> ci.n in CNodes(ci);
  }

  lemma PlugRb(m: Mem<Color>, c: RCtx, t: RTree, p: Ptr, root: Ptr, h: nat) returns (tree: RTree)
    requires At(m, c, t, p, root) && Bal(t, h) && Fits(c, h) && (IsRed(t) ==> !c.Top? && c.x == Black)
    ensures At(m, Top, tree, root, root) && Rb(tree) && InOrder(tree) == Before(c) + InOrder(t) + After(c)
    ensures t.T? ==> tree.T?
  {
    tree := Plug(c, t);
    PlugAt(m, c, t, p, root);
    PlugOrder(c, t);
    PlugNodes(c, t);
    var k := PlugBal(c, t, h);
    assert t.T? ==> t.n in Nodes(tree);
  }

  lemma ShapeRoot(m: Mem<Color>, c: RCtx, t: RTree, p: Ptr, root: Ptr)
    requires At(m, c, t, p, root)
    ensures p == Root(t) && (t.T? ==> p != NULL && p in m && m[p].x == t.x)
    ensures c.Top? <==> p == root
  {
    if !c.Top? { RootOutside(m, c, t, p, root); }
  }

  /** The root of the tree is not inside a proper subtree. */
  lemma RootOutside(m: Mem<Color>, c: RCtx, t: RTree, p: Ptr, root: Ptr)
    requires At(m, c, t, p, root) && !c.Top?
    ensures p != root && root in CNodes(c) && root != NULL
    decreases c
  {
    Up(m, c, t, p, root);
    assert CNodes(c) == CNodes(c.up) + {c.n} + Nodes(Sibling(c));
    if !c.up.Top? { RootOutside(m, c.up, Fill(c, t), c.n, root); }
    assert t.T? ==> p in Nodes(t);
  }

  /** What the fix-up of a removal reads: the sibling and the colours of its children. */
  lemma SiblingAt(m: Mem<Color>, c: RCtx, t: RTree, root: Ptr)
    requires At(m, c, t, Root(t), root) && !c.Top? && Sibling(c).T?
    ensures c.n in m && m[c.n].x == c.x && Sibling(c).n in m && m[Sibling(c).n].x == Sibling(c).x
    ensures if c.L? then m[c.n].right == Sibling(c).n else m[c.n].left == Sibling(c).n
    ensures Sibling(c).n != NULL
    ensures var s := Sibling(c); m[s.n].left == Root(s.l) && m[s.n].right == Root(s.r)
    ensures var s := Sibling(c); s.l.T? ==> s.l.n != NULL && s.l.n in m && m[s.l.n].x == s.l.x
    ensures var s := Sibling(c); s.r.T? ==> s.r.n != NULL && s.r.n in m && m[s.r.n].x == s.r.x
  {
    Up(m, c, t, Root(t), root);
    Down(m, c.up, Fill(c, t), c.n, root);
    Kids(m, Sibling(c), c.n);
  }

  /** Strictly smaller after each round of the colour fix that does not end it. */
  ghost function Rank(c: RCtx, t: RTree): nat { if IsRed(t) || c.Top? then 0 else 1 + Depth(c) }

  /** struct name and the nodes it reaches. */
  class Head {
    var root: Ptr
    var mem: Mem<Color>
    const key: Ptr -> int     // cmp(a, b) is the sign of key(a) - key(b)
    ghost var tree: RTree     // what root and mem stand for

    ghost predicate Valid()
      reads this
    {
      At(mem, Top, tree, root, root) && Rb(tree) && Sorted(InOrder(tree), key)
    }

    constructor (key: Ptr -> int, mem: Mem<Color>)
      ensures Valid() && this.key == key && this.mem == mem && InOrder(tree) == []
    {
      this.key, this.mem := key, mem;
      root, tree := NULL, Leaf;
      new;
      assert Bal(tree, 0);
    }

    /** RB_COLOR(elm) = x */
    method SetColor(elm: Ptr, x: Color, ghost c: RCtx, ghost t: RTree)
      requires t.T? && At(mem, c, t, elm, root)
      modifies this`mem
      ensures At(mem, c, T(t.l, t.n, x, t.r), elm, root)
    {
      Painted(mem, c, t, x, root);
      mem := mem[elm := mem[elm].(x := x)];
    }

    /** RB_ROTATE_LEFT */
    method RotateLeft(elm: Ptr, ghost c: RCtx, ghost t: RTree) returns (tmp: Ptr)
      requires t.T? && t.r.T? && At(mem, c, t, elm, root)
      modifies this`root, this`mem
      ensures tmp == t.r.n && At(mem, c, RotL(t), tmp, root)
    {
      ghost var m := mem;
      Kids(m, t, CNode(c));
      Kids(m, t.r, elm);
      tmp := mem[elm].right;
      mem := mem[elm := mem[elm].(right := mem[tmp].left)];
      if mem[elm].right != NULL {
        mem := mem[mem[tmp].left := mem[mem[tmp].left].(parent := elm)];
      }
      mem := mem[tmp := mem[tmp].(parent := mem[elm].parent)];
      if mem[tmp].parent != NULL {
        var up := mem[elm].parent;
        if elm == mem[up].left {
          mem := mem[up := mem[up].(left := tmp)];
        } else {
          mem := mem[up := mem[up].(right := tmp)];
        }
      } else {
        root := tmp;
      }
      mem := mem[tmp := mem[tmp].(left := elm)];
      mem := mem[elm := mem[elm].(parent := tmp)];
      LeftRotatedAt(m, mem, c, t, old(root), root);
    }

    /** RB_ROTATE_RIGHT */
    method RotateRight(elm: Ptr, ghost c: RCtx, ghost t: RTree) returns (tmp: Ptr)
      requires t.T? && t.l.T? && At(mem, c, t, elm, root)
      modifies this`root, this`mem
      ensures tmp == t.l.n && At(mem, c, RotR(t), tmp, root)
    {
      ghost var m := mem;
      Kids(m, t, CNode(c));
      Kids(m, t.l, elm);
      tmp := mem[elm].left;
      mem := mem[elm := mem[elm].(left := mem[tmp].right)];
      if mem[elm].left != NULL {
        mem := mem[mem[tmp].right := mem[mem[tmp].right].(parent := elm)];
      }
      mem := mem[tmp := mem[tmp].(parent := mem[elm].parent)];
      if mem[tmp].parent != NULL {
        var up := mem[elm].parent;
        if elm == mem[up].left {
          mem := mem[up := mem[up].(left := tmp)];
        } else {
          mem := mem[up := mem[up].(right := tmp)];
        }
      } else {
        root := tmp;
      }
      mem := mem[tmp := mem[tmp].(right := elm)];
      mem := mem[elm := mem[elm].(parent := tmp)];
      RightRotatedAt(m, mem, c, t, old(root), root);
    }

    /** The whole tree, when the focus t at elm is a red node whose only fault may be a red parent. */
    ghost predicate Violation(c: RCtx, t: RTree, h: nat, elm: Ptr, order: seq<Ptr>)
      reads this`root, this`mem
    {
      && At(mem, c, t, elm, root) && IsRed(t) && Bal(t, h) && Fits(c, h)
      && Before(c) + InOrder(t) + After(c) == order
    }

    /** The case of a red uncle: recolour and move the violation two levels up. */
    method Recolor(parent: Ptr, gparent: Ptr, uncle: Ptr, ghost c: RCtx, ghost t: RTree, ghost h: nat,
        ghost order: seq<Ptr>)
      requires RedCtx(c) && Violation(c, t, h, Root(t), order) && c.n == parent && c.up.n == gparent
      requires Root(Sibling(c.up)) == uncle && IsRed(Sibling(c.up))
      modifies this`mem
      ensures Violation(c.up.up, Recolored(c, t), h + 1, gparent, order)
    {
      ghost var g, p, u := c.up, Fill(c, t), Sibling(c.up);
      Up(mem, c, t, Root(t), root);
      Up(mem, g, p, parent, root);
      Down(mem, g.up, Fill(g, p), gparent, root);
      SetColor(uncle, Black, if g.L? then R(p, g.n, g.x, g.up) else L(g.up, g.n, g.x, p), u);
      Up(mem, if g.L? then R(p, g.n, g.x, g.up) else L(g.up, g.n, g.x, p), Paint(u, Black), uncle, root);
      g := WithSibling(g, Paint(u, Black));
      Down(mem, g.up, Fill(g, p), gparent, root);
      SetColor(parent, Black, g, p);
      Up(mem, g, Paint(p, Black), parent, root);
      SetColor(gparent, Red, g.up, Fill(g, Paint(p, Black)));
      FillOrder(c, t);
      FillOrder(c.up, p);
      RecoloredBal(c, t, h);
    }

    /** RB_SET_BLACKRED(parent, gparent) and the rotation at gparent, for a left-left violation. */
    method OuterLeft(parent: Ptr, gparent: Ptr, ghost c: RCtx, ghost t: RTree, ghost h: nat, ghost order: seq<Ptr>)
      returns (ghost c': RCtx)
      requires RedCtx(c) && Violation(c, t, h, Root(t), order) && c.n == parent && c.up.n == gparent
      requires c.L? && c.up.L? && !IsRed(c.up.r)
      modifies this`root, this`mem
      ensures Violation(c', t, h, Root(t), order) && CNode(c') == parent && !RedCtx(c') && Depth(c') < Depth(c)
    {
      ghost var g, p := c.up, Fill(c, t);
      Up(mem, c, t, Root(t), root);
      SetColor(parent, Black, g, p);
      Up(mem, g, Paint(p, Black), parent, root);
      SetColor(gparent, Red, g.up, Fill(g, Paint(p, Black)));
      ghost var gt := T(Paint(p, Black), gparent, Red, g.r);
      var _ := RotateRight(gparent, g.up, gt);
      Down(mem, g.up, RotR(gt), parent, root);
      c' := L(g.up, parent, Black, T(c.r, gparent, Red, g.r));
      OuterLeftBal(c, t, h);
      FillOrder(c, t);
      FillOrder(g, p);
      RotRNodes(Fill(g, p));
      FillOrder(c', t);
    }

    /** The mirror image. */
    method OuterRight(parent: Ptr, gparent: Ptr, ghost c: RCtx, ghost t: RTree, ghost h: nat, ghost order: seq<Ptr>)
      returns (ghost c': RCtx)
      requires RedCtx(c) && Violation(c, t, h, Root(t), order) && c.n == parent && c.up.n == gparent
      requires c.R? && c.up.R? && !IsRed(c.up.l)
      modifies this`root, this`mem
      ensures Violation(c', t, h, Root(t), order) && CNode(c') == parent && !RedCtx(c') && Depth(c') < Depth(c)
    {
      ghost var g, p := c.up, Fill(c, t);
      Up(mem, c, t, Root(t), root);
      SetColor(parent, Black, g, p);
      Up(mem, g, Paint(p, Black), parent, root);
      SetColor(gparent, Red, g.up, Fill(g, Paint(p, Black)));
      ghost var gt := T(g.l, gparent, Red, Paint(p, Black));
      var _ := RotateLeft(gparent, g.up, gt);
      Down(mem, g.up, RotL(gt), parent, root);
      c' := R(T(g.l, gparent, Red, c.l), parent, Black, g.up);
      OuterRightBal(c, t, h);
      FillOrder(c, t);
      FillOrder(g, p);
      RotLNodes(Fill(g, p));
      FillOrder(c', t);
    }

    /** An inner violation becomes an outer one: elm and parent change places. */
    method InnerLeft(parent: Ptr, elm: Ptr, ghost c: RCtx, ghost t: RTree, ghost h: nat, ghost order: seq<Ptr>)
      requires RedCtx(c) && Violation(c, t, h, elm, order) && c.n == parent && c.R?
      modifies this`root, this`mem
      ensures Violation(L(c.up, elm, Red, t.r), T(c.l, parent, Red, t.l), h, parent, order)
    {
      Down(mem, c, t, elm, root);
      Up(mem, c, t, elm, root);
      var _ := RotateLeft(parent, c.up, Fill(c, t));
      Down(mem, c.up, RotL(Fill(c, t)), elm, root);
      FillOrder(c, t);
      RotLNodes(Fill(c, t));
      FillOrder(L(c.up, elm, Red, t.r), T(c.l, parent, Red, t.l));
    }

    method InnerRight(parent: Ptr, elm: Ptr, ghost c: RCtx, ghost t: RTree, ghost h: nat, ghost order: seq<Ptr>)
      requires RedCtx(c) && Violation(c, t, h, elm, order) && c.n == parent && c.L?
      modifies this`root, this`mem
      ensures Violation(R(t.l, elm, Red, c.up), T(t.r, parent, Red, c.r), h, parent, order)
    {
      Down(mem, c, t, elm, root);
      Up(mem, c, t, elm, root);
      var _ := RotateRight(parent, c.up, Fill(c, t));
      Down(mem, c.up, RotR(Fill(c, t)), elm, root);
      FillOrder(c, t);
      RotRNodes(Fill(c, t));
      FillOrder(R(t.l, elm, Red, c.up), T(t.r, parent, Red, c.r));
    }

    /** A whole red-black tree whose in-order sequence of nodes is order. */
    ghost predicate Whole(tree: RTree, order: seq<Ptr>)
      reads this`root, this`mem
    {
      At(mem, Top, tree, root, root) && Rb(tree) && InOrder(tree) == order
    }

    /** The body of the loop below when parent is a left child. */
    method InsertStepLeft(node: Ptr, above: Ptr, gparent: Ptr, ghost c0: RCtx, ghost t0: RTree, ghost h: nat,
        ghost order: seq<Ptr>)
      returns (elm: Ptr, ghost c: RCtx, ghost t: RTree, ghost h': nat)
      requires RedCtx(c0) && Violation(c0, t0, h, node, order) && above == c0.n && gparent == c0.up.n && c0.up.L?
      modifies this`root, this`mem
      ensures Violation(c, t, h', elm, order) && Depth(c) < Depth(c0)
    {
      ghost var g := c0.up;
      c, t, h' := c0, t0, h;
      Up(mem, c, t, node, root);
      Up(mem, g, Fill(c, t), above, root);
      Down(mem, g.up, Fill(g, Fill(c, t)), gparent, root);
      var parent := above;
      elm := node;
      var tmp := mem[gparent].right;
      if tmp != NULL && mem[tmp].x == Red {
        Recolor(parent, gparent, tmp, c, t, h, order);
        elm := gparent;
        c, t, h' := g.up, Recolored(c, t), h + 1;
        return;
      }
      if mem[parent].right == elm {
        InnerLeft(parent, elm, c, t, h, order);
        c, t := L(g, elm, Red, t.r), T(c.l, parent, Red, t.l);
        elm, parent := parent, elm;
      }
      c := OuterLeft(parent, gparent, c, t, h, order);
    }

    /** And when it is a right child. */
    method InsertStepRight(node: Ptr, above: Ptr, gparent: Ptr, ghost c0: RCtx, ghost t0: RTree,
        ghost h: nat, ghost order: seq<Ptr>)
      returns (elm: Ptr, ghost c: RCtx, ghost t: RTree, ghost h': nat)
      requires RedCtx(c0) && Violation(c0, t0, h, node, order) && above == c0.n && gparent == c0.up.n && c0.up.R?
      modifies this`root, this`mem
      ensures Violation(c, t, h', elm, order) && Depth(c) < Depth(c0)
    {
      ghost var g := c0.up;
      c, t, h' := c0, t0, h;
      Up(mem, c, t, node, root);
      Up(mem, g, Fill(c, t), above, root);
      Down(mem, g.up, Fill(g, Fill(c, t)), gparent, root);
      var parent := above;
      elm := node;
      var tmp := mem[gparent].left;
      if tmp != NULL && mem[tmp].x == Red {
        Recolor(parent, gparent, tmp, c, t, h, order);
        elm := gparent;
        c, t, h' := g.up, Recolored(c, t), h + 1;
        return;
      }
      if mem[parent].left == elm {
        InnerRight(parent, elm, c, t, h, order);
        c, t := R(t.l, elm, Red, g), T(t.r, parent, Red, c.r);
        elm, parent := parent, elm;
      }
      c := OuterRight(parent, gparent, c, t, h, order);
    }

    /** _RB_INSERT_COLOR */
    method InsertColor(node: Ptr, ghost c0: RCtx, ghost t0: RTree, ghost h0: nat, ghost order: seq<Ptr>)
      returns (ghost tree: RTree)
      requires Violation(c0, t0, h0, node, order)
      modifies this`root, this`mem
      ensures Whole(tree, order)
    {
      var elm := node;
      ghost var c, t, h := c0, t0, h0;
      Down(mem, c, t, elm, root);
      var parent := mem[elm].parent;
      if parent != NULL { Up(mem, c, t, elm, root); }
      while parent != NULL && mem[parent].x == Red
        invariant Violation(c, t, h, elm, order) && parent == CNode(c)
        invariant parent != NULL ==> parent in mem && mem[parent].x == c.x
        decreases Depth(c)
      {
        Up(mem, c, t, elm, root);
        Down(mem, c.up, Fill(c, t), parent, root);
        var gparent := mem[parent].parent;
        Up(mem, c.up, Fill(c, t), parent, root);
        if parent == mem[gparent].left {
          elm, c, t, h := InsertStepLeft(elm, parent, gparent, c, t, h, order);
        } else {
          elm, c, t, h := InsertStepRight(elm, parent, gparent, c, t, h, order);
        }
        Down(mem, c, t, elm, root);
        parent := mem[elm].parent;
        if parent != NULL { Up(mem, c, t, elm, root); }
      }
      tree := BlackenRoot(c, t, h, elm, order);
    }

    /** RB_COLOR(head->rbh_root) = RB_BLACK, once no red node has a red parent. */
    method BlackenRoot(ghost c: RCtx, ghost t: RTree, ghost h: nat, ghost elm: Ptr, ghost order: seq<Ptr>)
      returns (ghost tree: RTree)
      requires Violation(c, t, h, elm, order) && !RedCtx(c)
      modifies this`mem
      ensures Whole(tree, order)
    {
      PlugAt(mem, c, t, elm, root);
      PlugOrder(c, t);
      ghost var whole := Plug(c, t);
      ghost var k := h;
      if !c.Top? { k := PlugBal(c, t, h); }
      assert whole.T? by { PlugNodes(c, t); assert t.n in Nodes(whole); }
      SetColor(root, Black, Top, whole);
      tree := Paint(whole, Black);
      assert Bal(tree, if c.Top? then k + 1 else k);
    }

    /** The whole tree, when the subtree t at elm is one black node short. */
    ghost predicate Shortage(c: RCtx, t: RTree, h: nat, elm: Ptr, order: seq<Ptr>)
      reads this`root, this`mem
    {
      && At(mem, c, t, elm, root) && Short(t, h) && Fits(c, h + 1)
      && Before(c) + InOrder(t) + After(c) == order
    }

    /** The whole tree, which is red-black once the node at elm has been made black. */
    ghost predicate AlmostWhole(c: RCtx, t: RTree, elm: Ptr, order: seq<Ptr>)
      reads this`root, this`mem
    {
      && At(mem, c, t, elm, root) && Before(c) + InOrder(t) + After(c) == order
      && (t.Leaf? ==> c.Top?)
      && (t.T? ==> exists k: nat :: Bal(Paint(t, Black), k) && Fits(c, k))
    }

    /** A red sibling: recolour and rotate, so that the sibling is black. */
    method RedSiblingLeft(parent: Ptr, tmp: Ptr, ghost c: RCtx, ghost t: RTree, ghost h: nat, ghost order: seq<Ptr>)
      returns (ghost c': RCtx)
      requires Shortage(c, t, h, Root(t), order) && c.L? && c.n == parent && IsRed(c.r) && c.r.n == tmp
      modifies this`root, this`mem
      ensures Shortage(c', t, h, Root(t), order)
      ensures c'.L? && c'.n == parent && c'.x == Red && c'.r == c.r.l && c'.r.T? && c'.r.x == Black
      ensures Depth(c') == Depth(c) + 1
    {
      ghost var s := c.r;
      RedSiblingLeftBal(c, h);
      Up(mem, c, t, Root(t), root);
      Down(mem, c.up, Fill(c, t), parent, root);
      SetColor(tmp, Black, R(t, parent, c.x, c.up), s);
      Up(mem, R(t, parent, c.x, c.up), Paint(s, Black), tmp, root);
      ghost var u := T(t, parent, c.x, Paint(s, Black));
      SetColor(parent, Red, c.up, u);
      var _ := RotateLeft(parent, c.up, Paint(u, Red));
      ghost var v := RotL(Paint(u, Red));
      Down(mem, c.up, v, tmp, root);
      Down(mem, L(c.up, tmp, Black, s.r), v.l, parent, root);
      c' := L(L(c.up, tmp, Black, s.r), parent, Red, s.l);
      FillOrder(c, t);
      RotLNodes(u);
      FillOrder(c', t);
      FillOrder(c'.up, v.l);
    }

    method RedSiblingRight(parent: Ptr, tmp: Ptr, ghost c: RCtx, ghost t: RTree, ghost h: nat, ghost order: seq<Ptr>)
      returns (ghost c': RCtx)
      requires Shortage(c, t, h, Root(t), order) && c.R? && c.n == parent && IsRed(c.l) && c.l.n == tmp
      modifies this`root, this`mem
      ensures Shortage(c', t, h, Root(t), order)
      ensures c'.R? && c'.n == parent && c'.x == Red && c'.l == c.l.r && c'.l.T? && c'.l.x == Black
      ensures Depth(c') == Depth(c) + 1
    {
      ghost var s := c.l;
      RedSiblingRightBal(c, h);
      Up(mem, c, t, Root(t), root);
      Down(mem, c.up, Fill(c, t), parent, root);
      SetColor(tmp, Black, L(c.up, parent, c.x, t), s);
      Up(mem, L(c.up, parent, c.x, t), Paint(s, Black), tmp, root);
      ghost var u := T(Paint(s, Black), parent, c.x, t);
      SetColor(parent, Red, c.up, u);
      var _ := RotateRight(parent, c.up, Paint(u, Red));
      ghost var v := RotR(Paint(u, Red));
      Down(mem, c.up, v, tmp, root);
      Down(mem, R(s.l, tmp, Black, c.up), v.r, parent, root);
      c' := R(s.r, parent, Red, R(s.l, tmp, Black, c.up));
      FillOrder(c, t);
      RotRNodes(u);
      FillOrder(c', t);
      FillOrder(c'.up, v.r);
    }

    /** A black sibling with black children turns red; the shortage moves to the parent. */
    method BlackNephews(parent: Ptr, tmp: Ptr, ghost c: RCtx, ghost t: RTree, ghost h: nat, ghost order: seq<Ptr>)
      returns (ghost t': RTree, ghost h': nat)
      requires Shortage(c, t, h, Root(t), order) && !c.Top? && c.n == parent && !IsRed(t)
      requires Sibling(c).T? && Sibling(c).n == tmp && Sibling(c).x == Black && BlackKids(Sibling(c))
      modifies this`mem
      ensures Shortage(c.up, t', h', parent, order) && Root(t') == parent && t'.T? && t'.x == c.x
    {
      ghost var s := Sibling(c);
      ghost var sc := if c.L? then R(t, parent, c.x, c.up) else L(c.up, parent, c.x, t);
      Up(mem, c, t, Root(t), root);
      Down(mem, c.up, Fill(c, t), parent, root);
      SetColor(tmp, Red, sc, s);
      Up(mem, sc, Paint(s, Red), tmp, root);
      t' := Fill(WithSibling(c, Paint(s, Red)), t);
      h' := if c.x == Red then h else h + 1;
      BlackNephewsBal(c, t, h);
      FillOrder(c, t);
      assert InOrder(t') == InOrder(Fill(c, t));
    }

    /** A red near nephew and a black far one: a rotation at the sibling makes the far one red. */
    method NearNephewLeft(parent: Ptr, tmp: Ptr, oleft: Ptr, ghost c: RCtx, ghost t: RTree, ghost h: nat,
        ghost order: seq<Ptr>)
      returns (ghost c': RCtx)
      requires Shortage(c, t, h, Root(t), order) && c.L? && c.n == parent && c.r.T? && c.r.n == tmp && c.r.x == Black
      requires IsRed(c.r.l) && c.r.l.n == oleft && !IsRed(c.r.r)
      modifies this`root, this`mem
      ensures Shortage(c', t, h, Root(t), order) && c'.L? && c'.n == parent && c'.x == c.x && c'.up == c.up
      ensures c'.r.T? && c'.r.n == oleft && c'.r.x == Black && IsRed(c'.r.r)
    {
      ghost var s := c.r;
      ghost var sc := R(t, parent, c.x, c.up);
      Up(mem, c, t, Root(t), root);
      Down(mem, c.up, Fill(c, t), parent, root);
      Down(mem, sc, s, tmp, root);
      SetColor(oleft, Black, L(sc, tmp, Black, s.r), s.l);
      Up(mem, L(sc, tmp, Black, s.r), Paint(s.l, Black), oleft, root);
      ghost var s1 := T(Paint(s.l, Black), tmp, Black, s.r);
      SetColor(tmp, Red, sc, s1);
      var _ := RotateRight(tmp, sc, Paint(s1, Red));
      ghost var s2 := RotR(Paint(s1, Red));
      Up(mem, sc, s2, oleft, root);
      c' := c.(r := s2);
      Down(mem, c.up, Fill(c', t), parent, root);
      NearNephewLeftBal(c, h);
      FillOrder(c, t);
      FillOrder(c', t);
    }

    method FarPaintLeft(parent: Ptr, tmp: Ptr, ghost c: RCtx, ghost t: RTree)
      requires At(mem, c, t, Root(t), root) && c.L? && c.n == parent
      requires c.r.T? && c.r.n == tmp && c.r.r.T?
      modifies this`mem
      ensures At(mem, c.up, FarLeft(c, t), parent, root)
    {
      ghost var s, x := c.r, c.x;
      ghost var sc := R(t, parent, c.x, c.up);
      Up(mem, c, t, Root(t), root);
      Down(mem, c.up, Fill(c, t), parent, root);
      SetColor(tmp, mem[parent].x, sc, s);
      Up(mem, sc, Paint(s, x), tmp, root);
      SetColor(parent, Black, c.up, T(t, parent, x, Paint(s, x)));
      sc := R(t, parent, Black, c.up);
      Down(mem, c.up, T(t, parent, Black, Paint(s, x)), parent, root);
      Down(mem, sc, Paint(s, x), tmp, root);
      if mem[tmp].right != NULL {
        SetColor(mem[tmp].right, Black, R(s.l, tmp, x, sc), s.r);
      }
      Up(mem, R(s.l, tmp, x, sc), Paint(s.r, Black), s.r.n, root);
      Up(mem, sc, T(s.l, tmp, x, Paint(s.r, Black)), tmp, root);
    }

    /** A red far nephew: a rotation at the parent pays the shortage. */
    method FarNephewLeft(parent: Ptr, tmp: Ptr, ghost c: RCtx, ghost t: RTree, ghost h: nat, ghost order: seq<Ptr>)
      returns (ghost t': RTree)
      requires Shortage(c, t, h, Root(t), order) && c.L? && c.n == parent && c.r.T? && c.r.n == tmp && c.r.x == Black
      requires !IsRed(t) && IsRed(c.r.r)
      modifies this`root, this`mem
      ensures AlmostWhole(Top, t', root, order) && t'.T?
    {
      FarPaintLeft(parent, tmp, c, t);
      var _ := RotateLeft(parent, c.up, FarLeft(c, t));
      FillOrder(c, t);
      ghost var k := FarNephewLeftBal(c, t, h);
      t' := PlugRb(mem, c.up, RotL(FarLeft(c, t)), tmp, root, k);
      k :| Bal(t', k);
      assert Paint(t', Black) == t' && Bal(Paint(t', Black), k) && Fits(Top, k);
    }

    method NearNephewRight(parent: Ptr, tmp: Ptr, oright: Ptr, ghost c: RCtx, ghost t: RTree, ghost h: nat,
        ghost order: seq<Ptr>)
      returns (ghost c': RCtx)
      requires Shortage(c, t, h, Root(t), order) && c.R? && c.n == parent && c.l.T? && c.l.n == tmp && c.l.x == Black
      requires IsRed(c.l.r) && c.l.r.n == oright && !IsRed(c.l.l)
      modifies this`root, this`mem
      ensures Shortage(c', t, h, Root(t), order) && c'.R? && c'.n == parent && c'.x == c.x && c'.up == c.up
      ensures c'.l.T? && c'.l.n == oright && c'.l.x == Black && IsRed(c'.l.l)
    {
      ghost var s := c.l;
      ghost var sc := L(c.up, parent, c.x, t);
      Up(mem, c, t, Root(t), root);
      Down(mem, c.up, Fill(c, t), parent, root);
      Down(mem, sc, s, tmp, root);
      SetColor(oright, Black, R(s.l, tmp, Black, sc), s.r);
      Up(mem, R(s.l, tmp, Black, sc), Paint(s.r, Black), oright, root);
      ghost var s1 := T(s.l, tmp, Black, Paint(s.r, Black));
      SetColor(tmp, Red, sc, s1);
      var _ := RotateLeft(tmp, sc, Paint(s1, Red));
      ghost var s2 := RotL(Paint(s1, Red));
      Up(mem, sc, s2, oright, root);
      c' := c.(l := s2);
      Down(mem, c.up, Fill(c', t), parent, root);
      NearNephewRightBal(c, h);
      FillOrder(c, t);
      FillOrder(c', t);
    }

    method FarPaintRight(parent: Ptr, tmp: Ptr, ghost c: RCtx, ghost t: RTree)
      requires At(mem, c, t, Root(t), root) && c.R? && c.n == parent
      requires c.l.T? && c.l.n == tmp && c.l.l.T?
      modifies this`mem
      ensures At(mem, c.up, FarRight(c, t), parent, root)
    {
      ghost var s, x := c.l, c.x;
      ghost var sc := L(c.up, parent, c.x, t);
      Up(mem, c, t, Root(t), root);
      Down(mem, c.up, Fill(c, t), parent, root);
      SetColor(tmp, mem[parent].x, sc, s);
      Up(mem, sc, Paint(s, x), tmp, root);
      SetColor(parent, Black, c.up, T(Paint(s, x), parent, x, t));
      sc := L(c.up, parent, Black, t);
      Down(mem, c.up, T(Paint(s, x), parent, Black, t), parent, root);
      Down(mem, sc, Paint(s, x), tmp, root);
      if mem[tmp].left != NULL {
        SetColor(mem[tmp].left, Black, L(sc, tmp, x, s.r), s.l);
      }
      Up(mem, L(sc, tmp, x, s.r), Paint(s.l, Black), s.l.n, root);
      Up(mem, sc, T(Paint(s.l, Black), tmp, x, s.r), tmp, root);
    }

    method FarNephewRight(parent: Ptr, tmp: Ptr, ghost c: RCtx, ghost t: RTree, ghost h: nat, ghost order: seq<Ptr>)
      returns (ghost t': RTree)
      requires Shortage(c, t, h, Root(t), order) && c.R? && c.n == parent && c.l.T? && c.l.n == tmp && c.l.x == Black
      requires !IsRed(t) && IsRed(c.l.l)
      modifies this`root, this`mem
      ensures AlmostWhole(Top, t', root, order) && t'.T?
    {
      FarPaintRight(parent, tmp, c, t);
      var _ := RotateRight(parent, c.up, FarRight(c, t));
      FillOrder(c, t);
      ghost var k := FarNephewRightBal(c, t, h);
      t' := PlugRb(mem, c.up, RotR(FarRight(c, t)), tmp, root, k);
      k :| Bal(t', k);
      assert Paint(t', Black) == t' && Bal(Paint(t', Black), k) && Fits(Top, k);
    }

    /** One round when elm is a left child; `done` stands for the break at its end. */
    method RemoveStepLeft(above: Ptr, node: Ptr, ghost c0: RCtx, ghost t0: RTree, ghost h0: nat, ghost order: seq<Ptr>)
      returns (done: bool, parent: Ptr, elm: Ptr, ghost c: RCtx, ghost t: RTree, ghost h: nat)
      requires Shortage(c0, t0, h0, node, order) && c0.L? && c0.n == above && node == Root(t0) && !IsRed(t0)
      modifies this`root, this`mem
      ensures elm == Root(t)
      ensures done ==> AlmostWhole(c, t, elm, order)
      ensures !done ==> Shortage(c, t, h, elm, order) && parent == CNode(c) && Rank(c, t) < Rank(c0, t0)
    {
      parent, elm, c, t, h := above, node, c0, t0, h0;
      SiblingExists(c, h);
      SiblingAt(mem, c, t, root);
      var tmp := mem[parent].right;
      if mem[tmp].x == Red {
        c := RedSiblingLeft(parent, tmp, c, t, h, order);
        SiblingAt(mem, c, t, root);
        tmp := mem[parent].right;
      }
      if (mem[tmp].left == NULL || mem[mem[tmp].left].x == Black)
         && (mem[tmp].right == NULL || mem[mem[tmp].right].x == Black) {
        t, h := BlackNephews(parent, tmp, c, t, h, order);
        c := c.up;
        Down(mem, c, t, parent, root);
        elm := parent;
        parent := mem[elm].parent;
        done := false;
      } else {
        if mem[tmp].right == NULL || mem[mem[tmp].right].x == Black {
          c := NearNephewLeft(parent, tmp, mem[tmp].left, c, t, h, order);
          SiblingAt(mem, c, t, root);
          tmp := mem[parent].right;
        }
        t := FarNephewLeft(parent, tmp, c, t, h, order);
        c := Top;
        elm := root;
        done := true;
      }
    }

    /** And when it is a right child. */
    method RemoveStepRight(above: Ptr, node: Ptr, ghost c0: RCtx, ghost t0: RTree, ghost h0: nat, ghost order: seq<Ptr>)
      returns (done: bool, parent: Ptr, elm: Ptr, ghost c: RCtx, ghost t: RTree, ghost h: nat)
      requires Shortage(c0, t0, h0, node, order) && c0.R? && c0.n == above && node == Root(t0) && !IsRed(t0)
      modifies this`root, this`mem
      ensures elm == Root(t)
      ensures done ==> AlmostWhole(c, t, elm, order)
      ensures !done ==> Shortage(c, t, h, elm, order) && parent == CNode(c) && Rank(c, t) < Rank(c0, t0)
    {
      parent, elm, c, t, h := above, node, c0, t0, h0;
      SiblingExists(c, h);
      SiblingAt(mem, c, t, root);
      var tmp := mem[parent].left;
      if mem[tmp].x == Red {
        c := RedSiblingRight(parent, tmp, c, t, h, order);
        SiblingAt(mem, c, t, root);
        tmp := mem[parent].left;
      }
      if (mem[tmp].right == NULL || mem[mem[tmp].right].x == Black)
         && (mem[tmp].left == NULL || mem[mem[tmp].left].x == Black) {
        t, h := BlackNephews(parent, tmp, c, t, h, order);
        c := c.up;
        Down(mem, c, t, parent, root);
        elm := parent;
        parent := mem[elm].parent;
        done := false;
      } else {
        if mem[tmp].left == NULL || mem[mem[tmp].left].x == Black {
          c := NearNephewRight(parent, tmp, mem[tmp].right, c, t, h, order);
          SiblingAt(mem, c, t, root);
          tmp := mem[parent].left;
        }
        t := FarNephewRight(parent, tmp, c, t, h, order);
        c := Top;
        elm := root;
        done := true;
      }
    }

    /** _RB_REMOVE_COLOR */
    method RemoveColor(above: Ptr, node: Ptr, ghost c0: RCtx, ghost t0: RTree, ghost h0: nat, ghost order: seq<Ptr>)
      returns (ghost tree: RTree)
      requires Shortage(c0, t0, h0, node, order) && above == CNode(c0)
      modifies this`root, this`mem
      ensures Whole(tree, order)
    {
      var parent, elm, done := above, node, false;
      ghost var c, t, h := c0, t0, h0;
      ShapeRoot(mem, c, t, elm, root);
      while !done && (elm == NULL || mem[elm].x == Black) && elm != root
        invariant elm == Root(t) && (elm != NULL ==> elm in mem && mem[elm].x == t.x)
        invariant c.Top? <==> elm == root
        invariant if done then AlmostWhole(c, t, elm, order) else Shortage(c, t, h, elm, order) && parent == CNode(c)
        decreases if done then 0 else Rank(c, t)
      {
        Up(mem, c, t, elm, root);
        SiblingExists(c, h);
        if mem[parent].left == elm {
          done, parent, elm, c, t, h := RemoveStepLeft(parent, elm, c, t, h, order);
        } else {
          done, parent, elm, c, t, h := RemoveStepRight(parent, elm, c, t, h, order);
        }
        ShapeRoot(mem, c, t, elm, root);
      }
      if !done && elm != NULL {
        assert Bal(Paint(t, Black), if IsRed(t) then h + 1 else h) && Fits(c, if IsRed(t) then h + 1 else h);
      }
      if elm != NULL {
        SetColor(elm, Black, c, t);
        ghost var k: nat :| Bal(Paint(t, Black), k) && Fits(c, k);
        tree := PlugRb(mem, c, Paint(t, Black), elm, root, k);
      } else {
        tree := t;
        assert Bal(tree, 0);
      }
    }

    /** Where a descent for key k has come to: the whole tree is around t, and k belongs into t. */
    ghost predicate Descent(c: RCtx, t: RTree, h: nat, tmp: Ptr, k: int)
      reads this
    {
      && At(mem, c, t, tmp, root) && Plug(c, t) == tree
      && Bal(t, h) && Fits(c, h) && (IsRed(t) ==> !c.Top? && c.x == Black)
      && Sorted(Before(c) + InOrder(t) + After(c), key)
      && AllBelow(Before(c), key, k) && AllAbove(After(c), key, k)
    }

    lemma DescentStarts(k: int) returns (h: nat)
      requires Valid()
      ensures Descent(Top, tree, h, root, k)
    {
      h :| Bal(tree, h);
      assert Before<Color>(Top) + InOrder(tree) + After<Color>(Top) == InOrder(tree);
    }

    lemma DescentLeft(c: RCtx, t: RTree, h: nat, tmp: Ptr, k: int) returns (h': nat)
      requires Descent(c, t, h, tmp, k) && t.T? && k < key(tmp)
      ensures tmp in mem && mem[tmp].left == Root(t.l)
      ensures Descent(L(c, t.n, t.x, t.r), t.l, h', Root(t.l), k)
    {
      Down(mem, c, t, tmp, root);
      h' := FitsDown(c, t, h);
      FocusSplits(c, t, key);
      FillOrder(L(c, t.n, t.x, t.r), t.l);
      AboveConcat(t.n, InOrder(t.r), After(c), key, k);
    }

    lemma DescentRight(c: RCtx, t: RTree, h: nat, tmp: Ptr, k: int) returns (h': nat)
      requires Descent(c, t, h, tmp, k) && t.T? && k > key(tmp)
      ensures tmp in mem && mem[tmp].right == Root(t.r)
      ensures Descent(R(t.l, t.n, t.x, c), t.r, h', Root(t.r), k)
    {
      Down(mem, c, t, tmp, root);
      h' := FitsDown(c, t, h);
      FocusSplits(c, t, key);
      FillOrder(R(t.l, t.n, t.x, c), t.r);
    }

    lemma DescentFound(c: RCtx, t: RTree, h: nat, tmp: Ptr, k: int)
      requires Descent(c, t, h, tmp, k) && t.T?
      ensures tmp in mem && tmp in InOrder(tree)
    {
      PlugOrder(c, t);
      assert InOrder(tree) == Before(c) + InOrder(t) + After(c);
      assert t.n in InOrder(t);
    }

    /** _RB_FIND */
    method Find(elm: Ptr) returns (res: Ptr, ghost steps: nat)
      requires Valid()
      ensures res != NULL ==> res in InOrder(tree) && key(res) == key(elm)
      ensures res == NULL ==> forall n :: n in InOrder(tree) ==> key(n) != key(elm)
      ensures Pow2(steps) <= (|InOrder(tree)| + 1) * (|InOrder(tree)| + 1)
    {
      var tmp := root;
      steps := 0;
      ghost var c, t := Top, tree;
      ghost var h := DescentStarts(key(elm));
      while tmp != NULL
        invariant Descent(c, t, h, tmp, key(elm)) && steps == Depth(c)
        decreases t
      {
        DescentFound(c, t, h, tmp, key(elm));
        if key(elm) < key(tmp) {
          h := DescentLeft(c, t, h, tmp, key(elm));
          tmp := mem[tmp].left;
          c, t := L(c, t.n, t.x, t.r), t.l;
        } else if key(elm) > key(tmp) {
          h := DescentRight(c, t, h, tmp, key(elm));
          tmp := mem[tmp].right;
          c, t := R(t.l, t.n, t.x, c), t.r;
        } else {
          ShortDescent(c, t);
          return tmp, steps;
        }
        steps := steps + 1;
      }
      ShortDescent(c, t);
      PlugOrder(c, t);
      return NULL, steps;
    }

    lemma FirstAfter(c: RCtx, t: RTree)
      requires t.T?
      ensures var d := L(c, t.n, t.x, t.r); After(d) != [] && After(d)[0] == t.n
    {
    }

    /** Where a descent has found no node, the next one is the least above the key. */
    lemma DescentEnds(c: RCtx, h: nat, k: int)
      requires Valid() && Descent(c, Leaf, h, NULL, k)
      ensures Pow2(Depth(c)) <= (|InOrder(tree)| + 1) * (|InOrder(tree)| + 1)
      ensures After(c) != [] ==> After(c)[0] in InOrder(tree) && key(After(c)[0]) >= k
      ensures forall n :: n in InOrder(tree) && key(n) >= k ==> After(c) != [] && key(n) >= key(After(c)[0])
    {
      ShortDescent(c, Leaf);
      PlugOrder(c, Leaf);
      FirstAbove(Before(c), After(c), key, k);
      assert InOrder(tree) == Before(c) + [] + After(c);
    }

    /** _RB_NFIND: the first node whose key is not below elm's. */
    method NFind(elm: Ptr) returns (res: Ptr, ghost steps: nat)
      requires Valid()
      ensures res != NULL ==> res in InOrder(tree) && key(res) >= key(elm)
      ensures res != NULL ==> forall n :: n in InOrder(tree) && key(n) >= key(elm) ==> key(n) >= key(res)
      ensures res == NULL ==> forall n :: n in InOrder(tree) ==> key(n) < key(elm)
      ensures Pow2(steps) <= (|InOrder(tree)| + 1) * (|InOrder(tree)| + 1)
    {
      var tmp := root;
      res, steps := NULL, 0;
      ghost var c, t := Top, tree;
      ghost var h := DescentStarts(key(elm));
      while tmp != NULL
        invariant Descent(c, t, h, tmp, key(elm)) && steps == Depth(c)
        invariant res == Nth(After(c), 0) && (After(c) != [] ==> res != NULL)
        decreases t
      {
        DescentFound(c, t, h, tmp, key(elm));
        if key(elm) < key(tmp) {
          res := tmp;
          h := DescentLeft(c, t, h, tmp, key(elm));
          tmp := mem[tmp].left;
          FirstAfter(c, t);
          c, t := L(c, t.n, t.x, t.r), t.l;
        } else if key(elm) > key(tmp) {
          h := DescentRight(c, t, h, tmp, key(elm));
          tmp := mem[tmp].right;
          c, t := R(t.l, t.n, t.x, c), t.r;
        } else {
          ShortDescent(c, t);
          return tmp, steps;
        }
        steps := steps + 1;
      }
      DescentEnds(c, h, key(elm));
    }

    /** A descent has arrived below parent, on the side that comp tells. */
    ghost predicate Came(c: RCtx, parent: Ptr, comp: int)
      reads this`mem
    {
      && parent == CNode(c) && (parent == NULL <==> c.Top?) && (parent != NULL ==> parent in mem)
      && (comp < 0 ==> c.L?) && (comp > 0 ==> c.R?) && (comp == 0 ==> c.Top?)
    }

    /** RB_SET, the link from the parent, and the colour fix. */
    method Attach(elm: Ptr, parent: Ptr, comp: int, ghost c: RCtx) returns (ghost t': RTree)
      requires At(mem, c, Leaf, NULL, root) && Fits(c, 0) && Came(c, parent, comp)
      requires elm != NULL && elm !in CNodes(c)
      modifies this`root, this`mem
      ensures Whole(t', Before(c) + [elm] + After(c))
    {
      ghost var m := mem;
      mem := mem[elm := Rec(NULL, NULL, parent, Red)];
      if parent != NULL {
        if comp < 0 {
          mem := mem[parent := mem[parent].(left := elm)];
        } else {
          mem := mem[parent := mem[parent].(right := elm)];
        }
      } else {
        root := elm;
      }
      AttachedAt(m, mem, c, elm, Red, old(root), root);
      assert Bal(Leaf, 0);
      t' := InsertColor(elm, c, T(Leaf, elm, Red, Leaf), 0, Before(c) + [elm] + After(c));
    }

    /** The descent of _RB_INSERT: to a node with elm's key, or to the place where elm belongs. */
    method Descend(elm: Ptr) returns (found: Ptr, parent: Ptr, comp: int, ghost c: RCtx)
      requires Valid()
      ensures found != NULL ==> found in InOrder(tree) && key(found) == key(elm)
      ensures found == NULL ==> Descent(c, Leaf, 0, NULL, key(elm)) && Came(c, parent, comp)
      ensures Pow2(Depth(c)) <= (|InOrder(tree)| + 1) * (|InOrder(tree)| + 1)
    {
      parent, comp, c := NULL, 0, Top;
      var tmp := root;
      ghost var t := tree;
      ghost var h := DescentStarts(key(elm));
      while tmp != NULL
        invariant Descent(c, t, h, tmp, key(elm)) && Came(c, parent, comp)
        decreases t
      {
        DescentFound(c, t, h, tmp, key(elm));
        parent := tmp;
        comp := key(elm) - key(parent);
        if comp < 0 {
          h := DescentLeft(c, t, h, tmp, key(elm));
          tmp := mem[tmp].left;
          c, t := L(c, t.n, t.x, t.r), t.l;
        } else if comp > 0 {
          h := DescentRight(c, t, h, tmp, key(elm));
          tmp := mem[tmp].right;
          c, t := R(t.l, t.n, t.x, c), t.r;
        } else {
          ShortDescent(c, t);
          return tmp, parent, comp, c;
        }
      }
      ShortDescent(c, t);
      found := NULL;
    }

    /** The place found for a key that is not in the tree keeps the order. */
    lemma FreePlace(c: RCtx, elm: Ptr)
      requires Plug(c, Leaf) == tree && Sorted(Before(c) + [] + After(c), key)
      requires AllBelow(Before(c), key, key(elm)) && AllAbove(After(c), key, key(elm))
      ensures InOrder(tree) == Before(c) + After(c)
      ensures Sorted(Before(c) + [elm] + After(c), key)
      ensures Inserted(InOrder(tree), elm, Before(c) + [elm] + After(c))
    {
      PlugOrder(c, Leaf);
      assert InOrder(tree) == Before(c) + After(c);
      SortedInsert(Before(c), elm, After(c), key);
      InsertedBetween(Before(c), elm, After(c));
    }

    /** No node has that key. */
    lemma KeyIsFree(c: RCtx, elm: Ptr)
      requires AllBelow(Before(c), key, key(elm)) && AllAbove(After(c), key, key(elm))
      ensures elm !in CNodes(c)
      ensures forall n :: n in Before(c) + After(c) ==> key(n) != key(elm)
    {
      CtxNodes(c);
    }

    /** _RB_INSERT: the node with elm's key that is already there, or NULL once elm has been added. */
    method Insert(elm: Ptr) returns (res: Ptr)
      requires Valid() && elm != NULL
      modifies this
      ensures Valid()
      ensures res != NULL ==> res in InOrder(tree) && key(res) == key(elm)
      ensures res != NULL ==> tree == old(tree) && mem == old(mem) && root == old(root)
      ensures res == NULL ==> forall n :: n in old(InOrder(tree)) ==> key(n) != key(elm)
      ensures res == NULL ==> Inserted(old(InOrder(tree)), elm, InOrder(tree))
    {
      var parent, comp;
      ghost var c;
      res, parent, comp, c := Descend(elm);
      if res != NULL {
        return;
      }
      FreePlace(c, elm);
      KeyIsFree(c, elm);
      tree := Attach(elm, parent, comp, c);
      return NULL;
    }

    lemma Focus(n: Ptr) returns (c: RCtx, t: RTree, h: nat)
      requires Valid() && n in InOrder(tree)
      ensures At(mem, c, t, n, root) && t.T? && t.n == n && Plug(c, t) == tree
      ensures Bal(t, h) && Fits(c, h) && (IsRed(t) ==> !c.Top? && c.x == Black)
      ensures InOrder(tree) == Before(c) + InOrder(t) + After(c)
    {
      c, t := FindFocus(Top, tree, n);
      UnplugAt(mem, c, t, root, root);
      var k: nat :| Bal(tree, k);
      h := FitsUnplug(c, t, k);
      PlugOrder(c, t);
    }

    /** Takes out the node at the focus, which has at most one child, and links that child to its parent. */
    method Splice(elm: Ptr, child: Ptr, parent: Ptr, ghost c: RCtx, ghost t: RTree, ghost rest: RTree)
      requires At(mem, c, t, elm, root) && t.T? && child == Root(rest) && parent == CNode(c)
      requires (t.l.Leaf? && rest == t.r) || (t.r.Leaf? && rest == t.l)
      modifies this`root, this`mem
      ensures At(mem, c, rest, child, root) && elm in mem && mem[elm] == old(mem[elm])
    {
      ghost var m := mem;
      Down(mem, c, t, elm, root);
      Kids(mem, t, CNode(c));
      if child != NULL {
        mem := mem[child := mem[child].(parent := parent)];
      }
      if parent != NULL {
        Up(m, c, t, elm, root);
        if mem[parent].left == elm {
          mem := mem[parent := mem[parent].(left := child)];
        } else {
          mem := mem[parent := mem[parent].(right := child)];
        }
      } else {
        root := child;
      }
      SplicedAt(m, mem, c, rest, t, old(root), root);
    }

    /** The end of _RB_REMOVE, from its label color: was is what the node taken out at the focus stood for. */
    method FixAfterSplice(color: Color, parent: Ptr, child: Ptr, ghost c: RCtx, ghost rest: RTree,
        ghost h: nat, ghost order: seq<Ptr>)
      returns (ghost t': RTree)
      requires At(mem, c, rest, child, root) && parent == CNode(c)
      requires Fits(c, h)
      requires if color == Red then Bal(rest, h) && !IsRed(rest) else h > 0 && Short(rest, h - 1)
      requires Before(c) + InOrder(rest) + After(c) == order
      modifies this`root, this`mem
      ensures Whole(t', order)
    {
      if color == Black {
        t' := RemoveColor(parent, child, c, rest, h - 1, order);
      } else {
        t' := PlugRb(mem, c, rest, child, root, h);
      }
    }

    /** _RB_REMOVE of a node with at most one child. */
    method RemoveOuter(elm: Ptr, child: Ptr, ghost c: RCtx, ghost t: RTree, ghost rest: RTree, ghost h: nat)
      returns (ghost t': RTree)
      requires At(mem, c, t, elm, root) && t.T? && Bal(t, h) && Fits(c, h) && (IsRed(t) ==> !c.Top? && c.x == Black)
      requires child == Root(rest) && ((t.l.Leaf? && rest == t.r) || (t.r.Leaf? && rest == t.l))
      modifies this`root, this`mem
      ensures Whole(t', Others(c, t))
    {
      Down(mem, c, t, elm, root);
      var parent := mem[elm].parent;
      var color := mem[elm].x;
      SplicedBal(c, t, rest, h);
      Splice(elm, child, parent, c, t, rest);
      OuterOrder(c, t, rest);
      t' := FixAfterSplice(color, parent, child, c, rest, h, Others(c, t));
    }

    /** The node with the next key: the leftmost node of the right subtree. */
    method Successor(old_: Ptr, ghost c: RCtx, ghost t: RTree, ghost h: nat)
      returns (elm: Ptr, ghost ci: RCtx, ghost ts: RTree, ghost k: nat)
      requires At(mem, c, t, old_, root) && t.T? && t.r.T?
      requires Bal(t, h) && Fits(c, h) && (IsRed(t) ==> !c.Top? && c.x == Black)
      ensures var d := Compose(ci, R(t.l, t.n, t.x, c));
        At(mem, d, ts, elm, root) && Bal(ts, k) && Fits(d, k) && (IsRed(ts) ==> !d.Top? && d.x == Black)
      ensures Plug(ci, ts) == t.r && Before(ci) == [] && ts.T? && ts.l.Leaf?
    {
      Down(mem, c, t, old_, root);
      elm := mem[old_].right;
      ghost var d := R(t.l, t.n, t.x, c);
      ci, ts := Top, t.r;
      k := FitsDown(c, t, h);
      Down(mem, d, ts, elm, root);
      var left := mem[elm].left;
      while left != NULL
        invariant At(mem, Compose(ci, d), ts, elm, root) && ts.T? && elm in mem && left == mem[elm].left == Root(ts.l)
        invariant Plug(ci, ts) == t.r && Before(ci) == []
        invariant Bal(ts, k) && Fits(Compose(ci, d), k)
        invariant IsRed(ts) ==> !Compose(ci, d).Top? && Compose(ci, d).x == Black
        decreases ts
      {
        Down(mem, Compose(ci, d), ts, elm, root);
        k := FitsDown(Compose(ci, d), ts, k);
        elm := left;
        ci, ts := L(ci, ts.n, ts.x, ts.r), ts.l;
        Down(mem, Compose(ci, d), ts, elm, root);
        left := mem[elm].left;
      }
      Down(mem, Compose(ci, d), ts, elm, root);
      ShapeRoot(mem, L(Compose(ci, d), ts.n, ts.x, ts.r), ts.l, left, root);
    }

    /** elm takes over the record of old_, and every link to old_ is made to lead to elm. */
    method Substitute(old_: Ptr, elm: Ptr, ghost c: RCtx, ghost t: RTree)
      requires At(mem, c, t, old_, root) && t.T? && t.l.T? && elm != NULL && elm !in Nodes(t) && elm !in CNodes(c)
      modifies this`root, this`mem
      ensures At(mem, c, T(t.l, elm, t.x, t.r), elm, root)
    {
      ghost var m := mem;
      Kids(mem, t, CNode(c));
      Down(mem, c, t, old_, root);
      mem := mem[elm := mem[old_]];
      if mem[old_].parent != NULL {
        Up(m, c, t, old_, root);
        var up := mem[old_].parent;
        if mem[up].left == old_ {
          mem := mem[up := mem[up].(left := elm)];
        } else {
          mem := mem[up := mem[up].(right := elm)];
        }
      } else {
        root := elm;
      }
      mem := mem[mem[old_].left := mem[mem[old_].left].(parent := elm)];
      if mem[old_].right != NULL {
        mem := mem[mem[old_].right := mem[mem[old_].right].(parent := elm)];
      }
      SubstitutedAt(m, mem, c, t, elm, old(root), root);
    }

    /** Substitution seen from below: the place where the successor was keeps its focus. */
    method SubstituteAbove(old_: Ptr, elm: Ptr, ghost c: RCtx, ghost t: RTree, ghost ci: RCtx, ghost rest: RTree)
      requires t.T? && t.l.T? && t.n == old_ && At(mem, Compose(ci, R(t.l, old_, t.x, c)), rest, Root(rest), root)
      requires elm != NULL && elm !in CNodes(Compose(ci, R(t.l, old_, t.x, c))) && elm !in Nodes(rest)
      modifies this`root, this`mem
      ensures At(mem, Compose(ci, R(t.l, elm, t.x, c)), rest, Root(rest), root)
    {
      ghost var d, r := R(t.l, old_, t.x, c), Plug(ci, rest);
      ComposeUp(mem, ci, d, rest, Root(rest), root);
      ComposeOrder(ci, d);
      PlugNodes(ci, rest);
      Up(mem, d, r, Root(r), root);
      Substitute(old_, elm, c, T(t.l, old_, t.x, r));
      Down(mem, c, T(t.l, elm, t.x, r), elm, root);
      ComposeDown(mem, ci, R(t.l, elm, t.x, c), rest, root);
    }

    /** _RB_REMOVE of a node with two children: its successor is spliced out and takes its place. */
    method RemoveInner(old_: Ptr, ghost c: RCtx, ghost t: RTree, ghost h: nat) returns (ghost t': RTree)
      requires At(mem, c, t, old_, root) && t.T? && t.l.T? && t.r.T?
      requires Bal(t, h) && Fits(c, h) && (IsRed(t) ==> !c.Top? && c.x == Black)
      modifies this`root, this`mem
      ensures Whole(t', Others(c, t))
    {
      Down(mem, c, t, old_, root);
      var elm;
      ghost var ci, ts, k;
      elm, ci, ts, k := Successor(old_, c, t, h);
      ghost var full := Compose(ci, R(t.l, old_, t.x, c));
      Down(mem, full, ts, elm, root);
      var child := mem[elm].right;
      var parent := mem[elm].parent;
      var color := mem[elm].x;
      SplicedBal(full, ts, ts.r, k);
      Splice(elm, child, parent, full, ts, ts.r);
      ComposeOrder(ci, R(t.l, old_, t.x, c));
      ComposeOrder(ci, R(t.l, elm, t.x, c));
      OldOutside(ci, t, ts, old_);
      if mem[elm].parent == old_ {
        parent := elm;
      }
      SubstituteAbove(old_, elm, c, t, ci, ts.r);
      FitsRelabel(ci, t.l, old_, elm, t.x, c, k);
      InnerOrder(c, t, ci, ts);
      t' := FixAfterSplice(color, parent, child, Compose(ci, R(t.l, elm, t.x, c)), ts.r, k, Others(c, t));
    }

    /** _RB_REMOVE */
    method Remove(elm: Ptr) returns (res: Ptr)
      requires Valid() && elm in InOrder(tree)
      modifies this
      ensures Valid() && res == elm
      ensures Inserted(InOrder(tree), elm, old(InOrder(tree)))
    {
      ghost var c, t, h := Focus(elm);
      RemovedFrom(c, t, key);
      tree := RemoveAt(elm, c, t, h);
      return elm;
    }

    /** The three cases of _RB_REMOVE. */
    method RemoveAt(elm: Ptr, ghost c: RCtx, ghost t: RTree, ghost h: nat) returns (ghost t': RTree)
      requires At(mem, c, t, elm, root) && t.T? && Bal(t, h) && Fits(c, h) && (IsRed(t) ==> !c.Top? && c.x == Black)
      modifies this`root, this`mem
      ensures Whole(t', Others(c, t))
    {
      Down(mem, c, t, elm, root);
      Kids(mem, t, CNode(c));
      if mem[elm].left == NULL {
        t' := RemoveOuter(elm, mem[elm].right, c, t, t.r, h);
      } else if mem[elm].right == NULL {
        t' := RemoveOuter(elm, mem[elm].left, c, t, t.l, h);
      } else {
        t' := RemoveInner(elm, c, t, h);
      }
    }

    // ----- traversal ------------------------------------------------------------------

    /** The focus (c, t) at node p, with i nodes of the whole tree before t. */
    ghost predicate Stands(c: RCtx, t: RTree, p: Ptr, i: int)
      reads this
    {
      At(mem, c, t, p, root) && t.T? && Plug(c, t) == tree && |Before(c)| == i
    }

    lemma StandsAt(n: Ptr, i: nat) returns (c: RCtx, t: RTree)
      requires Valid() && i < |InOrder(tree)| && InOrder(tree)[i] == n
      ensures t.T? && Stands(c, t, n, i - |InOrder(t.l)|)
    {
      var h;
      c, t, h := Focus(n);
      var j := |Before(c)| + |InOrder(t.l)|;
      assert InOrder(tree)[j] == n;
      SortedDistinct(InOrder(tree), key, i, j);
    }

    /** What stands at a focus: its root, and what its links lead to. */
    lemma Look(c: RCtx, t: RTree, p: Ptr, i: int)
      requires Stands(c, t, p, i)
      ensures p == t.n && p != NULL && p in mem && mem[p].left == Root(t.l) && mem[p].right == Root(t.r)
      ensures mem[p].parent == CNode(c)
      ensures t.l.T? ==> t.l.n != NULL && Stands(L(c, t.n, t.x, t.r), t.l, t.l.n, i)
      ensures t.r.T? ==> t.r.n != NULL && Stands(R(t.l, t.n, t.x, c), t.r, t.r.n, i + |InOrder(t.l)| + 1)
      ensures InOrder(tree) == Before(c) + InOrder(t) + After(c)
      ensures i + |InOrder(t.l)| < |InOrder(tree)| && InOrder(tree)[i + |InOrder(t.l)|] == p
    {
      Down(mem, c, t, p, root);
      PlugOrder(c, t);
      Kids(mem, t, CNode(c));
      assert (Before(c) + InOrder(t) + After(c))[|Before(c)| + |InOrder(t.l)|] == t.n;
    }

    lemma LookUp(c: RCtx, t: RTree, p: Ptr, i: int)
      requires Stands(c, t, p, i) && !c.Top?
      ensures c.n != NULL && c.n in mem && Root(Sibling(c)) != p
      ensures c.L? ==> Stands(c.up, Fill(c, t), c.n, i) && mem[c.n].left == p && mem[c.n].right != p
      ensures c.R? ==>
        Stands(c.up, Fill(c, t), c.n, i - |InOrder(c.l)| - 1) && mem[c.n].right == p && mem[c.n].left != p
    {
      Up(mem, c, t, p, root);
      assert Sibling(c).T? ==> Sibling(c).n in Nodes(Sibling(c));
      assert t.n in Nodes(t);
    }

    /** The second half of _RB_NEXT: down to the left once a step to the right has been made. */
    method DownLeft(node: Ptr, ghost c0: RCtx, ghost t0: RTree, ghost i: nat) returns (elm: Ptr)
      requires Stands(c0, t0, node, i)
      ensures elm == Nth(InOrder(tree), i)
    {
      elm := node;
      ghost var c, t := c0, t0;
      Look(c, t, elm, i);
      while mem[elm].left != NULL
        invariant Stands(c, t, elm, i) && elm in mem && mem[elm].left == Root(t.l)
        invariant t.l.T? ==> t.l.n != NULL
        decreases t
      {
        Look(c, t, elm, i);
        elm := mem[elm].left;
        c, t := L(c, t.n, t.x, t.r), t.l;
        Look(c, t, elm, i);
      }
      Look(c, t, elm, i);
    }

    method DownRight(node: Ptr, ghost c0: RCtx, ghost t0: RTree, ghost i: int) returns (elm: Ptr)
      requires Stands(c0, t0, node, i - |InOrder(t0)|)
      ensures elm == Nth(InOrder(tree), i - 1)
    {
      elm := node;
      ghost var c, t := c0, t0;
      Look(c, t, elm, i - |InOrder(t)|);
      while mem[elm].right != NULL
        invariant Stands(c, t, elm, i - |InOrder(t)|) && elm in mem && mem[elm].right == Root(t.r)
        invariant t.r.T? ==> t.r.n != NULL
        decreases t
      {
        Look(c, t, elm, i - |InOrder(t)|);
        elm := mem[elm].right;
        c, t := R(t.l, t.n, t.x, c), t.r;
        Look(c, t, elm, i - |InOrder(t)|);
      }
      Look(c, t, elm, i - |InOrder(t)|);
    }

    /** Up while elm is a right child, and once more. */
    method UpRight(node: Ptr, ghost c0: RCtx, ghost t0: RTree, ghost i: int) returns (elm: Ptr)
      requires Stands(c0, t0, node, i - |InOrder(t0)|)
      ensures elm == Nth(InOrder(tree), i)
    {
      elm := node;
      ghost var c, t := c0, t0;
      Look(c, t, elm, i - |InOrder(t)|);
      if !c.Top? { LookUp(c, t, elm, i - |InOrder(t)|); }
      while mem[elm].parent != NULL && elm == mem[mem[elm].parent].right
        invariant Stands(c, t, elm, i - |InOrder(t)|) && elm in mem && mem[elm].parent == CNode(c)
        invariant !c.Top? ==> c.n != NULL && c.n in mem && (mem[c.n].right == elm <==> c.R?)
        decreases Depth(c)
      {
        LookUp(c, t, elm, i - |InOrder(t)|);
        elm := mem[elm].parent;
        c, t := c.up, Fill(c, t);
        Look(c, t, elm, i - |InOrder(t)|);
        if !c.Top? { LookUp(c, t, elm, i - |InOrder(t)|); }
      }
      ClimbedRight(c, t, elm, i);
      elm := mem[elm].parent;
    }

    /** The first ancestor reached from the left comes next; without one the sequence ends. */
    lemma ClimbedRight(c: RCtx, t: RTree, p: Ptr, i: int)
      requires Stands(c, t, p, i - |InOrder(t)|) && !c.R?
      ensures CNode(c) == Nth(InOrder(tree), i)
    {
      if !c.Top? {
        LookUp(c, t, p, i - |InOrder(t)|);
        Look(c.up, Fill(c, t), c.n, i - |InOrder(t)|);
      } else {
        PlugOrder(c, t);
      }
    }

    method UpLeft(node: Ptr, ghost c0: RCtx, ghost t0: RTree, ghost i: nat) returns (elm: Ptr)
      requires Stands(c0, t0, node, i)
      ensures elm == Nth(InOrder(tree), i - 1)
    {
      elm := node;
      ghost var c, t := c0, t0;
      Look(c, t, elm, i);
      if !c.Top? { LookUp(c, t, elm, i); }
      while mem[elm].parent != NULL && elm == mem[mem[elm].parent].left
        invariant Stands(c, t, elm, i) && elm in mem && mem[elm].parent == CNode(c)
        invariant !c.Top? ==> c.n != NULL && c.n in mem && (mem[c.n].left == elm <==> c.L?)
        decreases Depth(c)
      {
        LookUp(c, t, elm, i);
        elm := mem[elm].parent;
        c, t := c.up, Fill(c, t);
        Look(c, t, elm, i);
        if !c.Top? { LookUp(c, t, elm, i); }
      }
      if !c.Top? {
        LookUp(c, t, elm, i);
        Look(c.up, Fill(c, t), c.n, i - |InOrder(c.l)| - 1);
      }
      elm := mem[elm].parent;
    }

    /** _RB_NEXT */
    method Next(elm: Ptr, ghost i: nat) returns (next: Ptr)
      requires Valid() && i < |InOrder(tree)| && InOrder(tree)[i] == elm
      ensures next == Nth(InOrder(tree), i + 1)
    {
      ghost var c, t := StandsAt(elm, i);
      Look(c, t, elm, i - |InOrder(t.l)|);
      if mem[elm].right != NULL {
        next := DownLeft(mem[elm].right, R(t.l, t.n, t.x, c), t.r, i + 1);
      } else {
        if !c.Top? { LookUp(c, t, elm, i - |InOrder(t.l)|); }
        if mem[elm].parent != NULL && elm == mem[mem[elm].parent].left {
          Look(c.up, Fill(c, t), c.n, i - |InOrder(t.l)|);
          next := mem[elm].parent;
        } else {
          next := UpRight(elm, c, t, i + 1);
        }
      }
    }

    /** _RB_PREV */
    method Prev(elm: Ptr, ghost i: nat) returns (prev: Ptr)
      requires Valid() && i < |InOrder(tree)| && InOrder(tree)[i] == elm
      ensures prev == Nth(InOrder(tree), i - 1)
    {
      ghost var c, t := StandsAt(elm, i);
      Look(c, t, elm, i - |InOrder(t.l)|);
      if mem[elm].left != NULL {
        prev := DownRight(mem[elm].left, L(c, t.n, t.x, t.r), t.l, i);
      } else {
        if !c.Top? { LookUp(c, t, elm, i); }
        if mem[elm].parent != NULL && elm == mem[mem[elm].parent].right {
          Look(c.up, Fill(c, t), c.n, i - |InOrder(c.l)| - 1);
          prev := mem[elm].parent;
        } else {
          prev := UpLeft(elm, c, t, i);
        }
      }
    }

    /** _RB_MINMAX: the first node if val < 0 and the last otherwise; NULL in an empty tree. */
    method MinMax(val: int) returns (parent: Ptr)
      requires Valid()
      ensures parent == Nth(InOrder(tree), if val < 0 then 0 else |InOrder(tree)| - 1)
    {
      var tmp := root;
      parent := NULL;
      ghost var c, t := Top, tree;
      PlugOrder(c, t);
      while tmp != NULL
        invariant At(mem, c, t, tmp, root) && Plug(c, t) == tree && parent == CNode(c)
        invariant if val < 0 then Before(c) == [] else After(c) == []
        invariant if val < 0 then !c.R? else !c.L?
        decreases t
      {
        ShapeRoot(mem, c, t, tmp, root);
        Look(c, t, tmp, |Before(c)|);
        parent := tmp;
        if val < 0 {
          tmp := mem[tmp].left;
          c, t := L(c, t.n, t.x, t.r), t.l;
          Down(mem, c.up, Fill(c, t), parent, root);
        } else {
          tmp := mem[tmp].right;
          c, t := R(t.l, t.n, t.x, c), t.r;
          Down(mem, c.up, Fill(c, t), parent, root);
        }
      }
      PlugOrder(c, t);
      assert InOrder(t) == [];
    }

    /** RB_FOREACH: every node once, in ascending order. */
    method ForEach() returns (visited: seq<Ptr>)
      requires Valid()
      ensures visited == InOrder(tree)
    {
      ghost var order := InOrder(tree);
      visited := [];
      var x := MinMax(-1);
      NoNull(tree, NULL);
      while x != NULL
        invariant |visited| <= |order| && visited == order[..|visited|]
        invariant x == Nth(order, |visited|)
        decreases |order| - |visited|
      {
        ghost var i := |visited|;
        visited := visited + [x];
        x := Next(x, i);
      }
    }

    /** RB_FOREACH_REVERSE */
    method ForEachReverse() returns (visited: seq<Ptr>)
      requires Valid()
      ensures |visited| == |InOrder(tree)|
      ensures forall k :: 0 <= k < |visited| ==> visited[k] == InOrder(tree)[|visited| - 1 - k]
    {
      ghost var order := InOrder(tree);
      visited := [];
      var x := MinMax(1);
      NoNull(tree, NULL);
      while x != NULL
        invariant |visited| <= |order|
        invariant forall k :: 0 <= k < |visited| ==> visited[k] == order[|order| - 1 - k]
        invariant x == Nth(order, |order| - 1 - |visited|)
        decreases |order| - |visited|
      {
        ghost var i := |order| - 1 - |visited|;
        visited := visited + [x];
        x := Prev(x, i);
      }
    }

    /** Any calls on an empty tree leave it valid, shallow, and holding what a finite set would. */
    method Run(ops: seq<Op>)
      requires Valid() && tree == Leaf && forall i :: 0 <= i < |ops| ==> ops[i].n != NULL
      modifies this
      ensures Valid() && Holds(InOrder(tree), Stored(ops, key), key)
      ensures Pow2(Height(tree)) <= (|InOrder(tree)| + 1) * (|InOrder(tree)| + 1)
    {
      for i := 0 to |ops|
        invariant Valid() && Holds(InOrder(tree), Stored(ops[..i], key), key)
      {
        ghost var s := InOrder(tree);
        assert ops[..i + 1][..i] == ops[..i];
        HoldsKey(s, ops[..i], key, ops[i].n);
        match ops[i] {
          case Put(n) =>
            var there := Insert(n);
            if there == NULL { HoldsPut(s, n, InOrder(tree), Stored(ops[..i], key), key); }
          case Take(n) =>
            var there, _ := Find(n);
            if there != NULL {
              var _ := Remove(there);
              HoldsTake(InOrder(tree), there, s, Stored(ops[..i], key), key);
            } else {
              assert Stored(ops[..i], key) - {key(n)} == Stored(ops[..i], key);
            }
        }
      }
      assert ops[..|ops|] == ops;
      HeightBound(tree);
    }

    lemma NoNull(t: RTree, par: Ptr)
      requires Shape(mem, Root(t), t, par)
      ensures NULL !in InOrder(t)
      decreases t
    {
      if t.T? {
        Kids(mem, t, par);
        NoNull(t.l, t.n);
        NoNull(t.r, t.n);
      }
    }
  }
}
