/**
 * Binary trees linked by left, right and parent pointers, as tree.h and heap-inl.h keep them.
 *
 * The memory is a table from addresses to records, so pointers alias as they do in C and every
 * assignment through a pointer is an update of the table.  A `Tree` says what the records below
 * a pointer stand for; a `Ctx` says what the records around it stand for.
 */
module Links {
  import opened Sequences


  type Ptr = nat
  const NULL: Ptr := 0

  /** A node: its links, and what else the operations write (the colour of a red-black node). */
  datatype Rec<X> = Rec(left: Ptr, right: Ptr, parent: Ptr, x: X)

  type Mem<X> = map<Ptr, Rec<X>>

  datatype Tree<X> = Leaf | T(l: Tree<X>, n: Ptr, x: X, r: Tree<X>)

  /** A tree with one subtree cut out: L if it hung to the left of n, R if to the right. */
  datatype Ctx<X> = Top | L(up: Ctx<X>, n: Ptr, x: X, r: Tree<X>) | R(l: Tree<X>, n: Ptr, x: X, up: Ctx<X>)

  function Nodes<X>(t: Tree<X>): set<Ptr> {
    match t
    case Leaf => {}
    case T(l, n, _, r) => Nodes(l) + {n} + Nodes(r)
  }

  function CNodes<X>(c: Ctx<X>): set<Ptr> {
    match c
    case Top => {}
    case L(up, n, _, r) => CNodes(up) + {n} + Nodes(r)
    case R(l, n, _, up) => Nodes(l) + {n} + CNodes(up)
  }

  function InOrder<X>(t: Tree<X>): seq<Ptr> {
    match t
    case Leaf => []
    case T(l, n, _, r) => InOrder(l) + [n] + InOrder(r)
  }

  /** The nodes that precede the hole of a context, and those that follow it. */
  function Before<X>(c: Ctx<X>): seq<Ptr> {
    match c
    case Top => []
    case L(up, _, _, _) => Before(up)
    case R(l, n, _, up) => Before(up) + InOrder(l) + [n]
  }

  function After<X>(c: Ctx<X>): seq<Ptr> {
    match c
    case Top => []
    case L(up, n, _, r) => [n] + InOrder(r) + After(up)
    case R(_, _, _, up) => After(up)
  }

  function Plug<X>(c: Ctx<X>, t: Tree<X>): Tree<X>
    decreases c
  {
    match c
    case Top => t
    case L(up, n, x, r) => Plug(up, T(t, n, x, r))
    case R(l, n, x, up) => Plug(up, T(l, n, x, t))
  }

  /** The tree one level up. */
  function Fill<X>(c: Ctx<X>, t: Tree<X>): Tree<X>
    requires !c.Top?
  { if c.L? then T(t, c.n, c.x, c.r) else T(c.l, c.n, c.x, t) }

  function Sibling<X>(c: Ctx<X>): Tree<X>
    requires !c.Top?
  { if c.L? then c.r else c.l }

  /** No node occurs twice. */
  ghost predicate Disj<X>(t: Tree<X>) {
    match t
    case Leaf => true
    case T(l, n, _, r) => n !in Nodes(l) && n !in Nodes(r) && Nodes(l) !! Nodes(r) && Disj(l) && Disj(r)
  }

  ghost predicate CDisj<X>(c: Ctx<X>) {
    match c
    case Top => true
    case L(up, n, _, r) => n !in CNodes(up) && n !in Nodes(r) && CNodes(up) !! Nodes(r) && CDisj(up) && Disj(r)
    case R(l, n, _, up) => n !in CNodes(up) && n !in Nodes(l) && CNodes(up) !! Nodes(l) && CDisj(up) && Disj(l)
  }

  function CNode<X>(c: Ctx<X>): Ptr { if c.Top? then NULL else c.n }

  /** p is the root of records that stand for t and hang below par. */
  ghost predicate Shape<X>(m: Mem<X>, p: Ptr, t: Tree<X>, par: Ptr)
    decreases t
  {
    match t
    case Leaf => p == NULL
    case T(l, n, x, r) =>
      && p == n != NULL && n in m && m[n].parent == par && m[n].x == x
      && Shape(m, m[n].left, l, n) && Shape(m, m[n].right, r, n)
  }

  /** The records of c are linked around a subtree rooted at hole, in a tree rooted at root. */
  ghost predicate CShape<X>(m: Mem<X>, c: Ctx<X>, hole: Ptr, root: Ptr)
    decreases c
  {
    match c
    case Top => hole == root
    case L(up, n, x, r) =>
      && n != NULL && n in m && m[n].left == hole && m[n].x == x && m[n].parent == CNode(up)
      && Shape(m, m[n].right, r, n) && CShape(m, up, n, root)
    case R(l, n, x, up) =>
      && n != NULL && n in m && m[n].right == hole && m[n].x == x && m[n].parent == CNode(up)
      && Shape(m, m[n].left, l, n) && CShape(m, up, n, root)
  }

  /** The tree rooted at root, seen from its subtree t, which is rooted at p. */
  ghost predicate At<X>(m: Mem<X>, c: Ctx<X>, t: Tree<X>, p: Ptr, root: Ptr) {
    && Disj(t) && CDisj(c) && Nodes(t) !! CNodes(c)
    && Shape(m, p, t, CNode(c)) && CShape(m, c, p, root)
  }

  /** The records of s are the same in both memories. */
  ghost predicate Same<X>(m: Mem<X>, m': Mem<X>, s: set<Ptr>) {
    forall p :: p in s && p in m && p != NULL ==> p in m' && m'[p] == m[p]
  }

  lemma Frame<X>(m: Mem<X>, m': Mem<X>, p: Ptr, t: Tree<X>, par: Ptr)
    requires Shape(m, p, t, par) && Same(m, m', Nodes(t))
    ensures Shape(m', p, t, par)
    decreases t
  {
    if t.T? {
      Frame(m, m', m[p].left, t.l, p);
      Frame(m, m', m[p].right, t.r, p);
    }
  }

  lemma CFrame<X>(m: Mem<X>, m': Mem<X>, c: Ctx<X>, p: Ptr, root: Ptr)
    requires CShape(m, c, p, root) && Same(m, m', CNodes(c))
    ensures CShape(m', c, p, root)
    decreases c
  {
    match c
    case Top =>
    case L(up, n, _, r) => Frame(m, m', m[n].right, r, n); CFrame(m, m', up, n, root);
    case R(l, n, _, up) => Frame(m, m', m[n].left, l, n); CFrame(m, m', up, n, root);
  }

  /** A subtree whose root has only been given another parent. */
  lemma Reparented<X>(m: Mem<X>, m': Mem<X>, p: Ptr, t: Tree<X>, was: Ptr, par: Ptr)
    requires Shape(m, p, t, was) && Disj(t) && Same(m, m', Nodes(t) - {p})
    requires p != NULL ==> p in m && p in m' && m'[p] == m[p].(parent := par)
    ensures Shape(m', p, t, par)
  {
    if t.T? {
      Frame(m, m', m[p].left, t.l, p);
      Frame(m, m', m[p].right, t.r, p);
    }
  }

  /** A context in which only the link to the hole has changed. */
  lemma Relinked<X>(m: Mem<X>, m': Mem<X>, c: Ctx<X>, p: Ptr, root: Ptr, p': Ptr, root': Ptr)
    requires CShape(m, c, p, root) && CDisj(c) && Same(m, m', CNodes(c) - {CNode(c)})
    requires if c.Top? then root' == p' else root' == root && c.n in m && c.n in m'
    requires c.L? ==> m'[c.n] == m[c.n].(left := p')
    requires c.R? ==> m'[c.n] == m[c.n].(right := p')
    ensures CShape(m', c, p', root')
  {
    match c
    case Top =>
    case L(up, n, _, r) =>
      Frame(m, m', m[n].right, r, n);
      CFrame(m, m', up, n, root);
    case R(l, n, _, up) =>
      Frame(m, m', m[n].left, l, n);
      CFrame(m, m', up, n, root);
  }

  function Root<X>(t: Tree<X>): Ptr { if t.T? then t.n else NULL }

  /** The links of a node lead to the roots of its subtrees. */
  lemma Kids<X>(m: Mem<X>, t: Tree<X>, par: Ptr)
    requires t.T? && Shape(m, t.n, t, par)
    ensures m[t.n].left == Root(t.l) && m[t.n].right == Root(t.r)
    ensures Shape(m, Root(t.l), t.l, t.n) && Shape(m, Root(t.r), t.r, t.n)
    ensures t.l.T? ==> t.l.n in m && t.l.n != NULL && t.l.n in Nodes(t.l)
    ensures t.r.T? ==> t.r.n in m && t.r.n != NULL && t.r.n in Nodes(t.r)
  {
  }

  /** Only the nodes of w have changed. */
  ghost predicate OnlyChanged<X>(m: Mem<X>, m': Mem<X>, w: set<Ptr>) {
    forall p :: p in m && p != NULL && p !in w ==> p in m' && m'[p] == m[p]
  }

  /** The link of c that led to its old subtree now leads to p, and nothing else in c.n has changed. */
  ghost predicate LinkMoved<X>(m: Mem<X>, m': Mem<X>, c: Ctx<X>, root: Ptr, p: Ptr, root': Ptr) {
    match c
    case Top => root' == p
    case L(_, n, _, _) => root' == root && n in m && n in m' && m'[n] == m[n].(left := p)
    case R(_, n, _, _) => root' == root && n in m && n in m' && m'[n] == m[n].(right := p)
  }

  /** What a left rotation at x does to the records. */
  ghost predicate LeftRotated<X>(m: Mem<X>, m': Mem<X>, c: Ctx<X>, t: Tree<X>, root: Ptr, root': Ptr)
    requires t.T? && t.r.T?
  {
    var a, x, b, y, d := t.l, t.n, t.r.l, t.r.n, t.r.r;
    && x in m' && m'[x] == Rec(Root(a), Root(b), y, t.x)
    && y in m' && m'[y] == Rec(x, Root(d), CNode(c), t.r.x)
    && (b.T? ==> b.n in m && b.n in m' && m'[b.n] == m[b.n].(parent := x))
    && LinkMoved(m, m', c, root, y, root')
    && OnlyChanged(m, m', {x, y, Root(b), CNode(c)})
  }

  function RotL<X>(t: Tree<X>): Tree<X>
    requires t.T? && t.r.T?
  { T(T(t.l, t.n, t.x, t.r.l), t.r.n, t.r.x, t.r.r) }

  function RotR<X>(t: Tree<X>): Tree<X>
    requires t.T? && t.l.T?
  { T(t.l.l, t.l.n, t.l.x, T(t.l.r, t.n, t.x, t.r)) }

  lemma RotLNodes<X>(t: Tree<X>)
    requires t.T? && t.r.T?
    ensures Nodes(RotL(t)) == Nodes(t) && InOrder(RotL(t)) == InOrder(t)
    ensures Disj(t) <==> Disj(RotL(t))
  {
    assert Disj(t) ==> Disj(t.r);
    assert Disj(RotL(t)) ==> Disj(RotL(t).l);
    assert InOrder(t.r) == InOrder(t.r.l) + [t.r.n] + InOrder(t.r.r);
  }

  lemma LeftRotatedBelow<X>(m: Mem<X>, m': Mem<X>, c: Ctx<X>, t: Tree<X>, root: Ptr, root': Ptr)
    requires t.T? && t.r.T? && At(m, c, t, t.n, root) && LeftRotated(m, m', c, t, root, root')
    ensures Shape(m', t.r.n, RotL(t), CNode(c))
  {
    assert Disj(t.r) && Shape(m, m[t.n].right, t.r, t.n);
    Frame(m, m', m[t.n].left, t.l, t.n);
    Frame(m, m', m[t.r.n].right, t.r.r, t.r.n);
    Reparented(m, m', m[t.r.n].left, t.r.l, t.r.n, t.n);
  }

  lemma LeftRotatedAt<X>(m: Mem<X>, m': Mem<X>, c: Ctx<X>, t: Tree<X>, root: Ptr, root': Ptr)
    requires t.T? && t.r.T? && At(m, c, t, t.n, root) && LeftRotated(m, m', c, t, root, root')
    ensures At(m', c, RotL(t), t.r.n, root')
  {
    LeftRotatedBelow(m, m', c, t, root, root');
    RotLNodes(t);
    assert Disj(t.r);
    Relinked(m, m', c, t.n, root, t.r.n, root');
  }

  /** What a right rotation at x does to the records. */
  ghost predicate RightRotated<X>(m: Mem<X>, m': Mem<X>, c: Ctx<X>, t: Tree<X>, root: Ptr, root': Ptr)
    requires t.T? && t.l.T?
  {
    var a, y, b, x, d := t.l.l, t.l.n, t.l.r, t.n, t.r;
    && x in m' && m'[x] == Rec(Root(b), Root(d), y, t.x)
    && y in m' && m'[y] == Rec(Root(a), x, CNode(c), t.l.x)
    && (b.T? ==> b.n in m && b.n in m' && m'[b.n] == m[b.n].(parent := x))
    && LinkMoved(m, m', c, root, y, root')
    && OnlyChanged(m, m', {x, y, Root(b), CNode(c)})
  }

  lemma RotRNodes<X>(t: Tree<X>)
    requires t.T? && t.l.T?
    ensures Nodes(RotR(t)) == Nodes(t) && InOrder(RotR(t)) == InOrder(t)
    ensures Disj(t) <==> Disj(RotR(t))
  {
    RotLNodes(RotR(t));
  }

  lemma RightRotatedBelow<X>(m: Mem<X>, m': Mem<X>, c: Ctx<X>, t: Tree<X>, root: Ptr, root': Ptr)
    requires t.T? && t.l.T? && At(m, c, t, t.n, root) && RightRotated(m, m', c, t, root, root')
    ensures Shape(m', t.l.n, RotR(t), CNode(c))
  {
    assert Disj(t.l) && Shape(m, m[t.n].left, t.l, t.n);
    Frame(m, m', m[t.n].right, t.r, t.n);
    Frame(m, m', m[t.l.n].left, t.l.l, t.l.n);
    Reparented(m, m', m[t.l.n].right, t.l.r, t.l.n, t.n);
  }

  lemma RightRotatedAt<X>(m: Mem<X>, m': Mem<X>, c: Ctx<X>, t: Tree<X>, root: Ptr, root': Ptr)
    requires t.T? && t.l.T? && At(m, c, t, t.n, root) && RightRotated(m, m', c, t, root, root')
    ensures At(m', c, RotR(t), t.l.n, root')
  {
    RightRotatedBelow(m, m', c, t, root, root');
    RotRNodes(t);
    assert Disj(t.l);
    Relinked(m, m', c, t.n, root, t.l.n, root');
  }

  // ----- moving the focus -----------------------------------------------------------

  lemma Up<X>(m: Mem<X>, c: Ctx<X>, t: Tree<X>, p: Ptr, root: Ptr)
    requires At(m, c, t, p, root) && !c.Top?
    ensures p == Root(t)
    ensures c.L? ==> At(m, c.up, T(t, c.n, c.x, c.r), c.n, root) && m[c.n].left == p && m[c.n].right == Root(c.r)
    ensures c.R? ==> At(m, c.up, T(c.l, c.n, c.x, t), c.n, root) && m[c.n].right == p && m[c.n].left == Root(c.l)
  {
  }

  lemma Down<X>(m: Mem<X>, c: Ctx<X>, t: Tree<X>, p: Ptr, root: Ptr)
    requires At(m, c, t, p, root) && t.T?
    ensures p == t.n && p in m && m[p].left == Root(t.l) && m[p].right == Root(t.r) && m[p].parent == CNode(c)
    ensures At(m, L(c, t.n, t.x, t.r), t.l, Root(t.l), root)
    ensures At(m, R(t.l, t.n, t.x, c), t.r, Root(t.r), root)
  {
    Kids(m, t, CNode(c));
  }

  /** Writing the payload of the node at the focus. */
  lemma Painted<X>(m: Mem<X>, c: Ctx<X>, t: Tree<X>, x: X, root: Ptr)
    requires t.T? && At(m, c, t, t.n, root)
    ensures t.n in m && At(m[t.n := m[t.n].(x := x)], c, T(t.l, t.n, x, t.r), t.n, root)
  {
    var m' := m[t.n := m[t.n].(x := x)];
    Frame(m, m', m[t.n].left, t.l, t.n);
    Frame(m, m', m[t.n].right, t.r, t.n);
    CFrame(m, m', c, t.n, root);
  }

  lemma {:induction false} PlugNodes<X>(c: Ctx<X>, t: Tree<X>)
    ensures Nodes(Plug(c, t)) == CNodes(c) + Nodes(t)
    decreases c
  {
    match c
    case Top =>
    case L(up, n, x, r) => PlugNodes(up, T(t, n, x, r));
    case R(l, n, x, up) => PlugNodes(up, T(l, n, x, t));
  }

  lemma {:induction false} PlugOrder<X>(c: Ctx<X>, t: Tree<X>)
    ensures InOrder(Plug(c, t)) == Before(c) + InOrder(t) + After(c)
    decreases c
  {
    match c
    case Top =>
    case L(up, n, x, r) =>
      PlugOrder(up, T(t, n, x, r));
      Regroup(Before(up), InOrder(t), n, InOrder(r), After(up));
      Assoc([n], InOrder(r), After(up));
      Assoc(Before(up) + InOrder(t), [n], InOrder(r) + After(up));
    case R(l, n, x, up) =>
      PlugOrder(up, T(l, n, x, t));
      Regroup(Before(up), InOrder(l), n, InOrder(t), After(up));
      Assoc(Before(up) + InOrder(l) + [n], InOrder(t), After(up));
  }

  /** Seen from the top. */
  lemma {:induction false} PlugAt<X>(m: Mem<X>, c: Ctx<X>, t: Tree<X>, p: Ptr, root: Ptr)
    requires At(m, c, t, p, root)
    ensures At(m, Top, Plug(c, t), root, root)
    decreases c
  {
    if !c.Top? {
      Up(m, c, t, p, root);
      PlugAt(m, c.up, if c.L? then T(t, c.n, c.x, c.r) else T(c.l, c.n, c.x, t), c.n, root);
    }
  }

  // ----- hanging a node in, taking a node out ------------------------------------------------------------

  /** A new leaf e has been hung into the hole of c. */
  ghost predicate Attached<X>(m: Mem<X>, m': Mem<X>, c: Ctx<X>, e: Ptr, x: X, root: Ptr, root': Ptr) {
    && e != NULL && e in m' && m'[e] == Rec(NULL, NULL, CNode(c), x)
    && LinkMoved(m, m', c, root, e, root')
    && OnlyChanged(m, m', {e, CNode(c)})
  }

  lemma AttachedAt<X>(m: Mem<X>, m': Mem<X>, c: Ctx<X>, e: Ptr, x: X, root: Ptr, root': Ptr)
    requires At(m, c, Leaf, NULL, root) && e !in CNodes(c) && Attached(m, m', c, e, x, root, root')
    ensures At(m', c, T(Leaf, e, x, Leaf), e, root')
  {
    Relinked(m, m', c, NULL, root, e, root');
    assert Shape<X>(m', NULL, Leaf, e) && Nodes<X>(Leaf) == {} && Disj<X>(Leaf);
  }

  /** The node at the focus has been replaced by its only child. */
  ghost predicate Spliced<X>(m: Mem<X>, m': Mem<X>, c: Ctx<X>, t: Tree<X>, root: Ptr, root': Ptr) {
    && (t.T? ==> t.n in m && t.n in m' && m'[t.n] == m[t.n].(parent := CNode(c)))
    && LinkMoved(m, m', c, root, Root(t), root')
    && OnlyChanged(m, m', {Root(t), CNode(c)})
  }

  lemma SplicedAt<X>(m: Mem<X>, m': Mem<X>, c: Ctx<X>, t: Tree<X>, was: Tree<X>, root: Ptr, root': Ptr)
    requires was.T? && At(m, c, was, was.n, root) && ((was.l.Leaf? && t == was.r) || (was.r.Leaf? && t == was.l))
    requires Spliced(m, m', c, t, root, root')
    ensures At(m', c, t, Root(t), root')
  {
    Kids(m, was, CNode(c));
    Reparented(m, m', Root(t), t, was.n, CNode(c));
    Relinked(m, m', c, was.n, root, Root(t), root');
  }

  /** Node n at the focus has been replaced by the fresh node e, which takes over its record. */
  ghost predicate Substituted<X>(m: Mem<X>, m': Mem<X>, c: Ctx<X>, t: Tree<X>, e: Ptr, root: Ptr, root': Ptr)
    requires t.T?
  {
    && t.n in m && e in m' && m'[e] == m[t.n] && e != NULL
    && (t.l.T? ==> t.l.n in m && t.l.n in m' && m'[t.l.n] == m[t.l.n].(parent := e))
    && (t.r.T? ==> t.r.n in m && t.r.n in m' && m'[t.r.n] == m[t.r.n].(parent := e))
    && LinkMoved(m, m', c, root, e, root')
    && OnlyChanged(m, m', {e, Root(t.l), Root(t.r), CNode(c)})
  }

  lemma SubstitutedAt<X>(m: Mem<X>, m': Mem<X>, c: Ctx<X>, t: Tree<X>, e: Ptr, root: Ptr, root': Ptr)
    requires t.T? && At(m, c, t, t.n, root) && e !in Nodes(t) && e !in CNodes(c)
    requires Substituted(m, m', c, t, e, root, root')
    ensures At(m', c, T(t.l, e, t.x, t.r), e, root')
  {
    Kids(m, t, CNode(c));
    Reparented(m, m', Root(t.l), t.l, t.n, e);
    Reparented(m, m', Root(t.r), t.r, t.n, e);
    Relinked(m, m', c, t.n, root, e, root');
  }

  /** The context c inside the context d. */
  function Compose<X>(c: Ctx<X>, d: Ctx<X>): Ctx<X>
    decreases c
  {
    match c
    case Top => d
    case L(up, n, x, r) => L(Compose(up, d), n, x, r)
    case R(l, n, x, up) => R(l, n, x, Compose(up, d))
  }

  lemma {:induction false} ComposeUp<X>(m: Mem<X>, c: Ctx<X>, d: Ctx<X>, t: Tree<X>, p: Ptr, root: Ptr)
    requires At(m, Compose(c, d), t, p, root)
    ensures At(m, d, Plug(c, t), Root(Plug(c, t)), root)
    decreases c
  {
    match c
    case Top =>
    case L(up, n, x, r) => Up(m, Compose(c, d), t, p, root); ComposeUp(m, up, d, T(t, n, x, r), n, root);
    case R(l, n, x, up) => Up(m, Compose(c, d), t, p, root); ComposeUp(m, up, d, T(l, n, x, t), n, root);
  }

  lemma {:induction false} ComposeDown<X>(m: Mem<X>, c: Ctx<X>, d: Ctx<X>, t: Tree<X>, root: Ptr)
    requires At(m, d, Plug(c, t), Root(Plug(c, t)), root)
    ensures At(m, Compose(c, d), t, Root(t), root)
    decreases c
  {
    match c
    case Top =>
    case L(up, n, x, r) =>
      ComposeDown(m, up, d, T(t, n, x, r), root);
      Down(m, Compose(up, d), T(t, n, x, r), n, root);
    case R(l, n, x, up) =>
      ComposeDown(m, up, d, T(l, n, x, t), root);
      Down(m, Compose(up, d), T(l, n, x, t), n, root);
  }

  lemma {:induction false} ComposeOrder<X>(c: Ctx<X>, d: Ctx<X>)
    ensures Before(Compose(c, d)) == Before(d) + Before(c) && After(Compose(c, d)) == After(c) + After(d)
    ensures CNode(Compose(c, d)) == if c.Top? then CNode(d) else c.n
    ensures CNodes(Compose(c, d)) == CNodes(c) + CNodes(d)
    decreases c
  {
    match c
    case Top => assert Before(d) + [] == Before(d) && [] + After(d) == After(d) && {} + CNodes(d) == CNodes(d);
    case L(up, n, x, r) =>
      ComposeOrder(up, d);
      Assoc([n] + InOrder(r), After(up), After(d));
      assert CNodes(up) + CNodes(d) + {n} + Nodes(r) == CNodes(up) + {n} + Nodes(r) + CNodes(d);
    case R(l, n, x, up) =>
      ComposeOrder(up, d);
      Assoc(Before(d), Before(up), InOrder(l));
      Assoc(Before(d), Before(up) + InOrder(l), [n]);
      assert Nodes(l) + {n} + (CNodes(up) + CNodes(d)) == Nodes(l) + {n} + CNodes(up) + CNodes(d);
  }

  lemma {:induction false} ComposeTop<X>(c: Ctx<X>)
    ensures Compose(c, Top) == c
    decreases c
  {
    if !c.Top? { ComposeTop(c.up); }
  }

  /** Seen from inside. */
  lemma UnplugAt<X>(m: Mem<X>, c: Ctx<X>, t: Tree<X>, p: Ptr, root: Ptr)
    requires At(m, Top, Plug(c, t), p, root)
    ensures At(m, c, t, Root(t), root)
  {
    ComposeTop(c);
    ComposeDown(m, c, Top, t, root);
  }

  /** Every node of a tree can be brought into focus. */
  lemma {:induction false} FindFocus<X>(c: Ctx<X>, t: Tree<X>, n: Ptr) returns (c': Ctx<X>, t': Tree<X>)
    requires n in InOrder(t)
    ensures Plug(c', t') == Plug(c, t) && t'.T? && t'.n == n
    decreases t
  {
    if t.n == n {
      c', t' := c, t;
    } else if n in InOrder(t.l) {
      c', t' := FindFocus(L(c, t.n, t.x, t.r), t.l, n);
    } else {
      c', t' := FindFocus(R(t.l, t.n, t.x, c), t.r, n);
    }
  }

  lemma {:induction false} InOrderNodes<X>(t: Tree<X>)
    ensures forall n :: n in InOrder(t) <==> n in Nodes(t)
  {
    if t.T? {
      InOrderNodes(t.l);
      InOrderNodes(t.r);
    }
  }

  lemma {:induction false} CtxNodes<X>(c: Ctx<X>)
    ensures forall n :: n in CNodes(c) <==> n in Before(c) || n in After(c)
    decreases c
  {
    match c
    case Top =>
    case L(up, _, _, r) => CtxNodes(up); InOrderNodes(r);
    case R(l, _, _, up) => CtxNodes(up); InOrderNodes(l);
  }
}
