/** The red-black conditions of deps/libuv/include/tree.h, and what they say about height. */
module RbBalance {
  import opened Links
  import opened Powers

  datatype Color = Black | Red

  type RTree = Tree<Color>
  type RCtx = Ctx<Color>

  predicate IsRed(t: RTree) { t.T? && t.x == Red }

  predicate RedCtx(c: RCtx) { !c.Top? && c.x == Red }

  /** Every path to a leaf passes h black nodes, and no red node has a red child. */
  ghost predicate Bal(t: RTree, h: nat) {
    match t
    case Leaf => h == 0
    case T(l, _, Red, r) => Bal(l, h) && Bal(r, h) && !IsRed(l) && !IsRed(r)
    case T(l, _, Black, r) => h > 0 && Bal(l, h - 1) && Bal(r, h - 1)
  }

  /** A red-black tree. */
  ghost predicate Rb(t: RTree) { !IsRed(t) && exists h: nat :: Bal(t, h) }

  /** Filling the hole of c with a balanced subtree of black height h makes a red-black tree. */
  ghost predicate Fits(c: RCtx, h: nat)
    decreases c
  {
    match c
    case Top => true
    case L(up, _, Red, r) => Bal(r, h) && !IsRed(r) && !up.Top? && up.x == Black && Fits(up, h)
    case L(up, _, Black, r) => Bal(r, h) && Fits(up, h + 1)
    case R(l, _, Red, up) => Bal(l, h) && !IsRed(l) && !up.Top? && up.x == Black && Fits(up, h)
    case R(l, _, Black, up) => Bal(l, h) && Fits(up, h + 1)
  }

  lemma {:induction false} PlugBal(c: RCtx, t: RTree, h: nat) returns (k: nat)
    requires Bal(t, h) && Fits(c, h) && (IsRed(t) ==> !c.Top? && c.x == Black)
    ensures Bal(Plug(c, t), k) && !IsRed(Plug(c, t))
    decreases c
  {
    match c
    case Top => k := h;
    case L(up, n, x, r) => k := PlugBal(up, T(t, n, x, r), if x == Red then h else h + 1);
    case R(l, n, x, up) => k := PlugBal(up, T(l, n, x, t), if x == Red then h else h + 1);
  }

  /** Going down keeps the two halves of a red-black tree matched. */
  lemma FitsDown(c: RCtx, t: RTree, h: nat) returns (k: nat)
    requires t.T? && Bal(t, h) && Fits(c, h) && (IsRed(t) ==> !c.Top? && c.x == Black)
    ensures Bal(t.l, k) && Fits(L(c, t.n, t.x, t.r), k) && Bal(t.r, k) && Fits(R(t.l, t.n, t.x, c), k)
    ensures t.x == Red ==> !IsRed(t.l) && !IsRed(t.r)
  {
    k := if t.x == Red then h else h - 1;
  }

  lemma {:induction false} FitsUnplug(c: RCtx, t: RTree, h: nat) returns (k: nat)
    requires Bal(Plug(c, t), h) && !IsRed(Plug(c, t))
    ensures Bal(t, k) && Fits(c, k) && (IsRed(t) ==> !c.Top? && c.x == Black)
    decreases c
  {
    match c
    case Top => k := h;
    case L(up, n, x, r) =>
      var g := FitsUnplug(up, T(t, n, x, r), h);
      k := FitsDown(up, T(t, n, x, r), g);
    case R(l, n, x, up) =>
      var g := FitsUnplug(up, T(l, n, x, t), h);
      k := FitsDown(up, T(l, n, x, t), g);
  }

  // ----- height: "the maximum height of a red-black tree is 2lg (n+1)" ----------------

  function Max(a: nat, b: nat): nat { if a > b then a else b }

  function Height<X>(t: Tree<X>): nat {
    match t
    case Leaf => 0
    case T(l, _, _, r) => 1 + Max(Height(l), Height(r))
  }

  lemma {:induction false} ManyNodes(t: RTree, h: nat)
    requires Bal(t, h)
    ensures |InOrder(t)| + 1 >= Pow2(h)
  {
    match t
    case Leaf =>
    case T(l, _, Red, r) => ManyNodes(l, h);
    case T(l, _, Black, r) => ManyNodes(l, h - 1); ManyNodes(r, h - 1);
  }

  lemma {:induction false} LowHeight(t: RTree, h: nat)
    requires Bal(t, h)
    ensures Height(t) <= 2 * h + if IsRed(t) then 1 else 0
  {
    match t
    case Leaf =>
    case T(l, _, Red, r) => LowHeight(l, h); LowHeight(r, h);
    case T(l, _, Black, r) => LowHeight(l, h - 1); LowHeight(r, h - 1);
  }

  /** h <= 2 lg (n + 1), without logarithms. */
  lemma HeightBound(t: RTree)
    requires Rb(t)
    ensures Pow2(Height(t)) <= (|InOrder(t)| + 1) * (|InOrder(t)| + 1)
  {
    var h: nat :| Bal(t, h);
    ManyNodes(t, h);
    LowHeight(t, h);
    Pow2Monotone(Height(t), 2 * h);
    Pow2Square(h);
    SquareMonotone(Pow2(h), |InOrder(t)| + 1);
  }

  function Depth<X>(c: Ctx<X>): nat
    decreases c
  { if c.Top? then 0 else 1 + Depth(c.up) }

  lemma {:induction false} DepthHeight(c: RCtx, t: RTree)
    ensures Depth(c) + Height(t) <= Height(Plug(c, t))
    decreases c
  {
    match c
    case Top =>
    case L(up, n, x, r) => DepthHeight(up, T(t, n, x, r));
    case R(l, n, x, up) => DepthHeight(up, T(l, n, x, t));
  }

  /** No path from the root is longer than the bound on the height allows. */
  lemma ShortDescent(c: RCtx, t: RTree)
    requires Rb(Plug(c, t))
    ensures Pow2(Depth(c)) <= (|InOrder(Plug(c, t))| + 1) * (|InOrder(Plug(c, t))| + 1)
  {
    DepthHeight(c, t);
    Pow2Monotone(Depth(c), Height(Plug(c, t)));
    HeightBound(Plug(c, t));
  }

  // ----- the fix-up steps ------------------------------------------------------------

  function Paint(t: RTree, x: Color): RTree
    requires t.T?
  { T(t.l, t.n, x, t.r) }

  function WithSibling(c: RCtx, s: RTree): RCtx
    requires !c.Top?
  { if c.L? then c.(r := s) else c.(l := s) }

  /** Filling the hole of a context by one level does not change the order of the nodes. */
  lemma FillOrder(c: RCtx, t: RTree)
    requires !c.Top?
    ensures Before(c) + InOrder(t) + After(c) == Before(c.up) + InOrder(Fill(c, t)) + After(c.up)
  {
    if c.L? {
      assert Before(c) + InOrder(t) + ([c.n] + InOrder(c.r) + After(c.up))
          == Before(c.up) + (InOrder(t) + [c.n] + InOrder(c.r)) + After(c.up);
    } else {
      assert (Before(c.up) + InOrder(c.l) + [c.n]) + InOrder(t) + After(c)
          == Before(c.up) + (InOrder(c.l) + [c.n] + InOrder(t)) + After(c.up);
    }
  }

  /** A red violation under a red uncle: parent and uncle black, grandparent red. */
  function Recolored(c: RCtx, t: RTree): RTree
    requires !c.Top? && !c.up.Top? && IsRed(Sibling(c.up))
  {
    Paint(Fill(WithSibling(c.up, Paint(Sibling(c.up), Black)), Paint(Fill(c, t), Black)), Red)
  }

  lemma RecoloredBal(c: RCtx, t: RTree, h: nat)
    requires Bal(t, h) && Fits(c, h) && RedCtx(c) && IsRed(Sibling(c.up))
    ensures Bal(Recolored(c, t), h + 1) && Fits(c.up.up, h + 1)
    ensures InOrder(Recolored(c, t)) == InOrder(Fill(c.up, Fill(c, t)))
  {
  }

  /** An outer red violation: the tree below the grandparent after recolouring and rotating. */
  lemma OuterLeftBal(c: RCtx, t: RTree, h: nat)
    requires Bal(t, h) && Fits(c, h) && RedCtx(c) && c.L? && c.up.L? && !IsRed(c.up.r)
    requires IsRed(t)
    ensures var g := c.up; Fits(L(g.up, c.n, Black, T(c.r, g.n, Red, g.r)), h)
  {
  }

  lemma OuterRightBal(c: RCtx, t: RTree, h: nat)
    requires Bal(t, h) && Fits(c, h) && RedCtx(c) && c.R? && c.up.R? && !IsRed(c.up.l)
    requires IsRed(t)
    ensures var g := c.up; Fits(R(T(g.l, g.n, Red, c.l), c.n, Black, g.up), h)
  {
  }

  /**
   * What a removal hands to the colour fix: a subtree of black height h where c wants h + 1.
   * A red root may have a red child, for it is about to be made black.
   */
  ghost predicate Short(t: RTree, h: nat) {
    if IsRed(t) then Bal(Paint(t, Black), h + 1) else Bal(t, h)
  }

  predicate BlackKids(t: RTree)
    requires t.T?
  { !IsRed(t.l) && !IsRed(t.r) }

  /** The sibling of a short subtree cannot be empty. */
  lemma SiblingExists(c: RCtx, h: nat)
    requires !c.Top? && Fits(c, h + 1)
    ensures Sibling(c).T? && Bal(Sibling(c), h + 1)
  {
  }

  /** Taking a node with an empty side out of a balanced tree. */
  lemma SplicedBal(c: RCtx, t: RTree, rest: RTree, h: nat)
    requires t.T? && Bal(t, h) && Fits(c, h) && (IsRed(t) ==> !c.Top? && c.x == Black)
    requires (t.l.Leaf? && rest == t.r) || (t.r.Leaf? && rest == t.l)
    ensures if t.x == Red then Bal(rest, h) && !IsRed(rest) else h > 0 && Short(rest, h - 1)
  {
  }

  lemma {:induction false} FitsRelabel(c: RCtx, l: RTree, n: Ptr, n': Ptr, x: Color, up: RCtx, h: nat)
    requires Fits(Compose(c, R(l, n, x, up)), h)
    ensures Fits(Compose(c, R(l, n', x, up)), h)
    decreases c
  {
    match c
    case Top =>
    case L(cup, _, y, _) => FitsRelabel(cup, l, n, n', x, up, if y == Red then h else h + 1);
    case R(_, _, y, cup) => FitsRelabel(cup, l, n, n', x, up, if y == Red then h else h + 1);
  }

  lemma RedSiblingLeftBal(c: RCtx, h: nat)
    requires c.L? && Fits(c, h + 1) && IsRed(c.r)
    ensures c.r.l.T? && c.x == Black && !IsRed(c.r.l)
    ensures Fits(L(L(c.up, c.r.n, Black, c.r.r), c.n, Red, c.r.l), h + 1)
  {
  }

  lemma RedSiblingRightBal(c: RCtx, h: nat)
    requires c.R? && Fits(c, h + 1) && IsRed(c.l)
    ensures c.l.r.T? && c.x == Black && !IsRed(c.l.r)
    ensures Fits(R(c.l.r, c.n, Red, R(c.l.l, c.l.n, Black, c.up)), h + 1)
  {
  }

  /** Both nephews black: the sibling turns red and the shortage moves up. */
  lemma BlackNephewsBal(c: RCtx, t: RTree, h: nat)
    requires !c.Top? && Fits(c, h + 1) && !IsRed(t) && Bal(t, h)
    requires Sibling(c).T? && Sibling(c).x == Black && BlackKids(Sibling(c))
    ensures var k := if c.x == Red then h else h + 1;
      Short(Fill(WithSibling(c, Paint(Sibling(c), Red)), t), k) && Fits(c.up, k + 1)
  {
  }

  /** A red near nephew and a black far one: after the rotation the far one is red. */
  lemma NearNephewLeftBal(c: RCtx, h: nat)
    requires c.L? && Fits(c, h + 1) && c.r.T? && c.r.x == Black && IsRed(c.r.l) && !IsRed(c.r.r)
    ensures var s := RotR(Paint(T(Paint(c.r.l, Black), c.r.n, c.r.x, c.r.r), Red));
      Fits(c.(r := s), h + 1) && s.x == Black && IsRed(s.r) && InOrder(s) == InOrder(c.r)
  {
    var o := c.r.l;
    assert Bal(c.r, h + 1) && Bal(o, h);
    assert Bal(o.l, h) && Bal(o.r, h);
    assert Bal(T(o.r, c.r.n, Red, c.r.r), h);
    RotRNodes(Paint(T(Paint(o, Black), c.r.n, c.r.x, c.r.r), Red));
    assert InOrder(Paint(o, Black)) == InOrder(o);
  }

  lemma NearNephewRightBal(c: RCtx, h: nat)
    requires c.R? && Fits(c, h + 1) && c.l.T? && c.l.x == Black && IsRed(c.l.r) && !IsRed(c.l.l)
    ensures var s := RotL(Paint(T(c.l.l, c.l.n, c.l.x, Paint(c.l.r, Black)), Red));
      Fits(c.(l := s), h + 1) && s.x == Black && IsRed(s.l) && InOrder(s) == InOrder(c.l)
  {
    var o := c.l.r;
    assert Bal(c.l, h + 1) && Bal(o, h);
    assert Bal(o.l, h) && Bal(o.r, h);
    assert Bal(T(c.l.l, c.l.n, Red, o.l), h);
    RotLNodes(Paint(T(c.l.l, c.l.n, c.l.x, Paint(o, Black)), Red));
    assert InOrder(Paint(o, Black)) == InOrder(o);
  }

  /** The tree below the parent before the last rotation. */
  function FarLeft(c: RCtx, t: RTree): RTree
    requires c.L? && c.r.T? && c.r.r.T?
  { T(t, c.n, Black, T(c.r.l, c.r.n, c.x, Paint(c.r.r, Black))) }

  function FarRight(c: RCtx, t: RTree): RTree
    requires c.R? && c.l.T? && c.l.l.T?
  { T(T(Paint(c.l.l, Black), c.l.n, c.x, c.l.r), c.n, Black, t) }

  /** A red far nephew: the rotation pays the shortage. */
  lemma FarNephewLeftBal(c: RCtx, t: RTree, h: nat) returns (k: nat)
    requires c.L? && Fits(c, h + 1) && !IsRed(t) && Bal(t, h) && c.r.T? && c.r.x == Black && IsRed(c.r.r)
    ensures Bal(RotL(FarLeft(c, t)), k) && Fits(c.up, k)
    ensures IsRed(RotL(FarLeft(c, t))) ==> !c.up.Top? && c.up.x == Black
    ensures InOrder(RotL(FarLeft(c, t))) == InOrder(Fill(c, t))
  {
    k := if c.x == Red then h + 1 else h + 2;
    RotLNodes(FarLeft(c, t));
    assert Bal(c.r, h + 1) && Bal(c.r.r, h);
    assert Bal(Paint(c.r.r, Black), h + 1) && Bal(T(t, c.n, Black, c.r.l), h + 1);
    assert InOrder(FarLeft(c, t).r) == InOrder(c.r);
  }

  lemma FarNephewRightBal(c: RCtx, t: RTree, h: nat) returns (k: nat)
    requires c.R? && Fits(c, h + 1) && !IsRed(t) && Bal(t, h) && c.l.T? && c.l.x == Black && IsRed(c.l.l)
    ensures Bal(RotR(FarRight(c, t)), k) && Fits(c.up, k)
    ensures IsRed(RotR(FarRight(c, t))) ==> !c.up.Top? && c.up.x == Black
    ensures InOrder(RotR(FarRight(c, t))) == InOrder(Fill(c, t))
  {
    k := if c.x == Red then h + 1 else h + 2;
    RotRNodes(FarRight(c, t));
    assert Bal(c.l, h + 1) && Bal(c.l.l, h);
    assert Bal(Paint(c.l.l, Black), h + 1) && Bal(T(c.l.r, c.n, Black, t), h + 1);
    assert InOrder(FarRight(c, t).l) == InOrder(c.l);
  }
}
