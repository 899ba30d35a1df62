/** The top-down splay tree of deps/libuv/include/tree.h. */
module SplayTree {
  import opened Links
  import opened Sequences
  import opened KeyOrder
  import opened SplayDepth

  /** SPLAY_ENTRY */
  datatype Entry = Entry(left: Ptr, right: Ptr)

  type Entries = map<Ptr, Entry>

  /** p is the root of entries that stand for t. */
  ghost predicate Stands(m: Entries, p: Ptr, t: STree)
    decreases t
  {
    match t
    case Leaf => p == NULL
    case T(l, n, _, r) => p == n != NULL && n in m && Stands(m, m[n].left, l) && Stands(m, m[n].right, r)
  }

  /** The node that the next smaller (or larger) subtree will hang from: the header at first. */
  function Last(c: SCtx, node: Ptr): Ptr { if c.Top? then node else c.n }

  /**
   * The tree of what is known to be smaller, hung from the right link of the header and growing
   * along right links.  The last right link of all is stale and is not looked at.
   */
  ghost predicate SpineR(m: Entries, c: SCtx, node: Ptr)
    decreases c
  {
    match c
    case Top => true
    case R(l, n, _, up) =>
      && n != NULL && n in m && Stands(m, m[n].left, l)
      && Last(up, node) in m && m[Last(up, node)].right == n && SpineR(m, up, node)
    case L(_, _, _, _) => false
  }

  /** The tree of what is known to be larger, hung from the left link of the same header. */
  ghost predicate SpineL(m: Entries, c: SCtx, node: Ptr)
    decreases c
  {
    match c
    case Top => true
    case L(up, n, _, r) =>
      && n != NULL && n in m && Stands(m, m[n].right, r)
      && Last(up, node) in m && m[Last(up, node)].left == n && SpineL(m, up, node)
    case R(_, _, _, _) => false
  }

  ghost predicate SameOn(m: Entries, m': Entries, s: set<Ptr>) {
    forall p :: p in s && p in m ==> p in m' && m'[p] == m[p]
  }

  lemma {:induction false} StandsFrame(m: Entries, m': Entries, p: Ptr, t: STree)
    requires Stands(m, p, t) && SameOn(m, m', Nodes(t))
    ensures Stands(m', p, t)
    decreases t
  {
    if t.T? {
      StandsFrame(m, m', m[p].left, t.l);
      StandsFrame(m, m', m[p].right, t.r);
    }
  }

  /** A spine is not touched by a new last right link, nor by a new left link of the header. */
  lemma {:induction false} SpineRFrame(m: Entries, m': Entries, c: SCtx, node: Ptr)
    requires SpineR(m, c, node) && CDisj(c) && SameOn(m, m', CNodes(c) - {Last(c, node)})
    requires !c.Top? ==> c.n in m' && m'[c.n].left == m[c.n].left
    requires !c.Top? ==> node !in CNodes(c) && node in m && node in m' && m'[node].right == m[node].right
    ensures SpineR(m', c, node)
    decreases c
  {
    if c.R? {
      StandsFrame(m, m', m[c.n].left, c.l);
      assert !c.up.Top? ==> c.up.n in CNodes(c.up);
      SpineRFrame(m, m', c.up, node);
    }
  }

  lemma {:induction false} SpineLFrame(m: Entries, m': Entries, c: SCtx, node: Ptr)
    requires SpineL(m, c, node) && CDisj(c) && SameOn(m, m', CNodes(c) - {Last(c, node)})
    requires !c.Top? ==> c.n in m' && m'[c.n].right == m[c.n].right
    requires !c.Top? ==> node !in CNodes(c) && node in m && node in m' && m'[node].left == m[node].left
    ensures SpineL(m', c, node)
    decreases c
  {
    if c.L? {
      StandsFrame(m, m', m[c.n].right, c.r);
      assert !c.up.Top? ==> c.up.n in CNodes(c.up);
      SpineLFrame(m, m', c.up, node);
    }
  }

  /** Once its last link is set, a spine is a tree. */
  lemma {:induction false} SpineRPlug(m: Entries, c: SCtx, node: Ptr, t: STree)
    requires SpineR(m, c, node) && Last(c, node) in m && Stands(m, m[Last(c, node)].right, t)
    ensures node in m && Stands(m, m[node].right, Plug(c, t))
    decreases c
  {
    if c.R? { SpineRPlug(m, c.up, node, T(c.l, c.n, c.x, t)); }
  }

  lemma {:induction false} SpineLPlug(m: Entries, c: SCtx, node: Ptr, t: STree)
    requires SpineL(m, c, node) && Last(c, node) in m && Stands(m, m[Last(c, node)].left, t)
    ensures node in m && Stands(m, m[node].left, Plug(c, t))
    decreases c
  {
    if c.L? { SpineLPlug(m, c.up, node, T(t, c.n, c.x, c.r)); }
  }

  lemma {:induction false} PlugDisj(c: SCtx, t: STree)
    requires CDisj(c) && Disj(t) && CNodes(c) !! Nodes(t)
    ensures Disj(Plug(c, t))
    decreases c
  {
    match c
    case Top =>
    case L(up, n, x, r) => PlugDisj(up, T(t, n, x, r));
    case R(l, n, x, up) => PlugDisj(up, T(l, n, x, t));
  }

  lemma {:induction false} StandsNodes(m: Entries, p: Ptr, t: STree)
    requires Stands(m, p, t)
    ensures Nodes(t) <= m.Keys
    decreases t
  {
    if t.T? {
      StandsNodes(m, m[p].left, t.l);
      StandsNodes(m, m[p].right, t.r);
    }
  }

  /** Nothing outside the nodes all and the header has been touched. */
  ghost predicate Apart(m: Entries, m': Entries, all: set<Ptr>, node: Ptr) {
    SameOn(m, m', m.Keys - all - {node})
  }

  lemma Reassoc(a: seq<Ptr>, n: Ptr, b: seq<Ptr>, e: seq<Ptr>)
    ensures a + [n] + (b + e) == a + ([n] + b + e)
  {
  }

  lemma AssembledDisj(cl: SCtx, t: STree, cr: SCtx)
    requires t.T? && Disj(t) && CDisj(cl) && CDisj(cr)
    requires Nodes(t) !! CNodes(cl) && Nodes(t) !! CNodes(cr) && CNodes(cl) !! CNodes(cr)
    ensures Disj(Assembled(cl, t, cr))
    ensures Nodes(Plug(cl, t.l)) <= CNodes(cl) + Nodes(t) && t.n !in Nodes(Plug(cl, t.l))
    ensures Nodes(Plug(cr, t.r)) <= CNodes(cr) + Nodes(t) && t.n !in Nodes(Plug(cr, t.r))
  {
    PlugNodes(cl, t.l);
    PlugNodes(cr, t.r);
    PlugDisj(cl, t.l);
    PlugDisj(cr, t.r);
  }

  class SplayHead {
    var root: Ptr
    var mem: Entries
    const key: Ptr -> int     // cmp(a, b) is the sign of key(a) - key(b)
    ghost var tree: STree     // what root and mem stand for

    ghost predicate Valid()
      reads this
    {
      Stands(mem, root, tree) && Disj(tree) && Sorted(InOrder(tree), key)
    }

    /** SPLAY_INIT */
    constructor (key: Ptr -> int, mem: Entries)
      ensures Valid() && this.key == key && this.mem == mem && InOrder(tree) == []
    {
      this.key, this.mem := key, mem;
      root, tree := NULL, Leaf;
    }

    /** The three trees of a top-down splay, of the nodes all: smaller cl, middle t, larger cr, on the header node. */
    ghost predicate Working(node: Ptr, left: Ptr, right: Ptr, cl: SCtx, t: STree, cr: SCtx, all: set<Ptr>)
      reads this`root, this`mem
    {
      && node != NULL && node in mem && left == Last(cl, node) && right == Last(cr, node)
      && t.T? && Stands(mem, root, t) && SpineR(mem, cl, node) && SpineL(mem, cr, node)
      && Disj(t) && CDisj(cl) && CDisj(cr)
      && Nodes(t) !! CNodes(cl) && Nodes(t) !! CNodes(cr) && CNodes(cl) !! CNodes(cr)
      && node !in all && Nodes(t) + CNodes(cl) + CNodes(cr) == all
    }

    /** SPLAY_ROTATE_RIGHT */
    method RotateRight(tmp: Ptr, ghost node: Ptr, ghost left: Ptr, ghost right: Ptr, ghost cl: SCtx,
        ghost t: STree, ghost cr: SCtx, ghost all: set<Ptr>)
      requires Working(node, left, right, cl, t, cr, all) && t.l.T? && t.l.n == tmp
      modifies this`root, this`mem
      ensures Working(node, left, right, cl, RotR(t), cr, all)
      ensures Apart(old(mem), mem, all, node)
    {
      ghost var m := mem;
      assert Stands(mem, mem[root].left, t.l) && Disj(t.l);
      mem := mem[root := mem[root].(left := mem[tmp].right)];
      mem := mem[tmp := mem[tmp].(right := root)];
      root := tmp;
      StandsFrame(m, mem, m[tmp].left, t.l.l);
      StandsFrame(m, mem, m[tmp].right, t.l.r);
      StandsFrame(m, mem, m[t.n].right, t.r);
      SpineRFrame(m, mem, cl, node);
      SpineLFrame(m, mem, cr, node);
      RotRNodes(t);
    }

    /** SPLAY_ROTATE_LEFT */
    method RotateLeft(tmp: Ptr, ghost node: Ptr, ghost left: Ptr, ghost right: Ptr, ghost cl: SCtx,
        ghost t: STree, ghost cr: SCtx, ghost all: set<Ptr>)
      requires Working(node, left, right, cl, t, cr, all) && t.r.T? && t.r.n == tmp
      modifies this`root, this`mem
      ensures Working(node, left, right, cl, RotL(t), cr, all)
      ensures Apart(old(mem), mem, all, node)
    {
      ghost var m := mem;
      assert Stands(mem, mem[root].right, t.r) && Disj(t.r);
      mem := mem[root := mem[root].(right := mem[tmp].left)];
      mem := mem[tmp := mem[tmp].(left := root)];
      root := tmp;
      StandsFrame(m, mem, m[tmp].right, t.r.r);
      StandsFrame(m, mem, m[tmp].left, t.r.l);
      StandsFrame(m, mem, m[t.n].left, t.l);
      SpineRFrame(m, mem, cl, node);
      SpineLFrame(m, mem, cr, node);
      RotLNodes(t);
    }

    /** SPLAY_LINKLEFT */
    method LinkLeft(right: Ptr, ghost node: Ptr, ghost left: Ptr, ghost cl: SCtx, ghost t: STree,
        ghost cr: SCtx, ghost all: set<Ptr>)
      returns (right': Ptr)
      requires Working(node, left, right, cl, t, cr, all) && t.l.T?
      modifies this`root, this`mem
      ensures Working(node, left, right', cl, t.l, L(cr, t.n, t.x, t.r), all)
      ensures Apart(old(mem), mem, all, node)
    {
      ghost var m := mem;
      assert !cr.Top? ==> cr.n in CNodes(cr);
      mem := mem[right := mem[right].(left := root)];
      right' := root;
      root := mem[root].left;
      StandsFrame(m, mem, m[t.n].left, t.l);
      StandsFrame(m, mem, m[t.n].right, t.r);
      SpineRFrame(m, mem, cl, node);
      SpineLFrame(m, mem, cr, node);
    }

    /** SPLAY_LINKRIGHT */
    method LinkRight(left: Ptr, ghost node: Ptr, ghost right: Ptr, ghost cl: SCtx, ghost t: STree,
        ghost cr: SCtx, ghost all: set<Ptr>)
      returns (left': Ptr)
      requires Working(node, left, right, cl, t, cr, all) && t.r.T?
      modifies this`root, this`mem
      ensures Working(node, left', right, R(t.l, t.n, t.x, cl), t.r, cr, all)
      ensures Apart(old(mem), mem, all, node)
    {
      ghost var m := mem;
      assert !cl.Top? ==> cl.n in CNodes(cl);
      mem := mem[left := mem[left].(right := root)];
      left' := root;
      root := mem[root].right;
      StandsFrame(m, mem, m[t.n].right, t.r);
      StandsFrame(m, mem, m[t.n].left, t.l);
      SpineRFrame(m, mem, cl, node);
      SpineLFrame(m, mem, cr, node);
    }

    /** The first half of SPLAY_ASSEMBLE: both spines become trees, hung crosswise on the header. */
    method CloseSpines(node: Ptr, left: Ptr, right: Ptr, ghost cl: SCtx, ghost t: STree, ghost cr: SCtx,
        ghost all: set<Ptr>)
      requires Working(node, left, right, cl, t, cr, all)
      modifies this`mem
      ensures node in mem && root in mem
      ensures Stands(mem, mem[node].right, Plug(cl, t.l)) && Stands(mem, mem[node].left, Plug(cr, t.r))
      ensures Apart(old(mem), mem, all, node)
    {
      ghost var m := mem;
      assert !cl.Top? ==> cl.n in CNodes(cl);
      assert !cr.Top? ==> cr.n in CNodes(cr);
      mem := mem[left := mem[left].(right := mem[root].left)];
      mem := mem[right := mem[right].(left := mem[root].right)];
      StandsFrame(m, mem, m[t.n].left, t.l);
      StandsFrame(m, mem, m[t.n].right, t.r);
      SpineRFrame(m, mem, cl, node);
      SpineLFrame(m, mem, cr, node);
      SpineRPlug(mem, cl, node, t.l);
      SpineLPlug(mem, cr, node, t.r);
    }

    /** SPLAY_ASSEMBLE, after which the header is gone. */
    method Assemble(node: Ptr, left: Ptr, right: Ptr, ghost cl: SCtx, ghost t: STree, ghost cr: SCtx,
        ghost all: set<Ptr>)
      requires Working(node, left, right, cl, t, cr, all)
      modifies this`mem
      ensures Stands(mem, root, Assembled(cl, t, cr)) && Disj(Assembled(cl, t, cr))
      ensures node !in mem
      ensures Apart(old(mem), mem, all, node)
    {
      CloseSpines(node, left, right, cl, t, cr, all);
      ghost var m := mem;
      AssembledDisj(cl, t, cr);
      mem := mem[root := mem[root].(left := mem[node].right)];
      mem := mem[root := mem[root].(right := mem[node].left)];
      mem := map p | p in mem && p != node :: mem[p];
      StandsFrame(m, mem, m[node].right, Plug(cl, t.l));
      StandsFrame(m, mem, m[node].left, Plug(cr, t.r));
    }

    /** What the three trees say about the order of the nodes and about the key k that is splayed for. */
    ghost predicate Cut(cl: SCtx, t: STree, cr: SCtx, order: seq<Ptr>, k: int) {
      && Before(cl) + InOrder(t) + After(cr) == order && Before(cr) == [] && After(cl) == []
      && Sorted(order, key) && AllBelow(Before(cl), key, k) && AllAbove(After(cr), key, k)
    }

    lemma CutLeft(cl: SCtx, t: STree, cr: SCtx, order: seq<Ptr>, k: int)
      requires Cut(cl, t, cr, order, k) && t.T? && k < key(t.n)
      ensures Cut(cl, t.l, L(cr, t.n, t.x, t.r), order, k)
    {
      var a, b, e := Before(cl) + InOrder(t.l), InOrder(t.r), After(cr);
      Middle(cl, t, cr);
      SortedSplit(a, t.n, b + e, key);
      AboveConcat(t.n, b, e, key, k);
      Reassoc(a, t.n, b, e);
    }

    lemma CutRight(cl: SCtx, t: STree, cr: SCtx, order: seq<Ptr>, k: int)
      requires Cut(cl, t, cr, order, k) && t.T? && k > key(t.n)
      ensures Cut(R(t.l, t.n, t.x, cl), t.r, cr, order, k)
    {
      Middle(cl, t, cr);
      SortedSplit(Before(cl) + InOrder(t.l), t.n, InOrder(t.r) + After(cr), key);
      Assoc(Before(cl) + InOrder(t.l) + [t.n], InOrder(t.r), After(cr));
    }

    lemma Middle(cl: SCtx, t: STree, cr: SCtx)
      requires t.T?
      ensures Before(cl) + InOrder(t) + After(cr) == Before(cl) + InOrder(t.l) + [t.n] + (InOrder(t.r) + After(cr))
    {
      Regroup(Before(cl), InOrder(t.l), t.n, InOrder(t.r), After(cr));
    }

    /** No key between k and that of the root: it is k's, or that of a neighbour of k. */
    ghost predicate Near(t: STree, k: int) {
      && t.T?
      && (key(t.n) <= k ==> AllAbove(InOrder(t.r), key, k))
      && (key(t.n) >= k ==> AllBelow(InOrder(t.l), key, k))
    }

    lemma AssembledNear(cl: SCtx, t: STree, cr: SCtx, order: seq<Ptr>, k: int)
      requires Cut(cl, t, cr, order, k) && t.T?
      requires key(t.n) == k || (key(t.n) > k && t.l.Leaf?) || (key(t.n) < k && t.r.Leaf?)
      ensures InOrder(Assembled(cl, t, cr)) == order && Near(Assembled(cl, t, cr), k)
    {
      var l, r := Plug(cl, t.l), Plug(cr, t.r);
      PlugOrder(cl, t.l);
      PlugOrder(cr, t.r);
      assert InOrder(l) == Before(cl) + InOrder(t.l) && InOrder(r) == InOrder(t.r) + After(cr);
      Middle(cl, t, cr);
      SortedSplit(InOrder(l), t.n, InOrder(r), key);
      assert t.l.Leaf? ==> InOrder(l) == Before(cl);
      assert t.r.Leaf? ==> InOrder(r) == After(cr);
    }

    /** One round of _SPLAY to the left; `stop` stands for its two breaks. */
    method StepLeft(elm: Ptr, node: Ptr, left: Ptr, right0: Ptr, ghost cl: SCtx, ghost t0: STree,
        ghost cr0: SCtx, ghost order: seq<Ptr>, ghost all: set<Ptr>)
      returns (stop: bool, right: Ptr, ghost t: STree, ghost cr: SCtx)
      requires Working(node, left, right0, cl, t0, cr0, all) && Cut(cl, t0, cr0, order, key(elm))
      requires key(elm) < key(root)
      modifies this`root, this`mem
      ensures Working(node, left, right, cl, t, cr, all) && Cut(cl, t, cr, order, key(elm))
      ensures if stop then t.l.Leaf? && key(elm) < key(t.n) else |InOrder(t)| < |InOrder(t0)|
      ensures LeftRound(t0, cr0, key(elm), key, stop, t, cr)
      ensures Apart(old(mem), mem, all, node)
    {
      stop, right, t, cr := false, right0, t0, cr0;
      Kids(t);
      var tmp := mem[root].left;
      if tmp == NULL {
        stop := true;
        return;
      }
      if key(elm) < key(tmp) {
        RotateRight(tmp, node, left, right, cl, t, cr, all);
        RotRNodes(t);
        t := RotR(t);
        Kids(t);
        if mem[root].left == NULL {
          stop := true;
          return;
        }
      }
      CutLeft(cl, t, cr, order, key(elm));
      right := LinkLeft(right, node, left, cl, t, cr, all);
      cr, t := L(cr, t.n, t.x, t.r), t.l;
    }

    method StepRight(elm: Ptr, node: Ptr, left0: Ptr, right: Ptr, ghost cl0: SCtx, ghost t0: STree,
        ghost cr: SCtx, ghost order: seq<Ptr>, ghost all: set<Ptr>)
      returns (stop: bool, left: Ptr, ghost t: STree, ghost cl: SCtx)
      requires Working(node, left0, right, cl0, t0, cr, all) && Cut(cl0, t0, cr, order, key(elm))
      requires key(elm) > key(root)
      modifies this`root, this`mem
      ensures Working(node, left, right, cl, t, cr, all) && Cut(cl, t, cr, order, key(elm))
      ensures if stop then t.r.Leaf? && key(elm) > key(t.n) else |InOrder(t)| < |InOrder(t0)|
      ensures RightRound(t0, cl0, key(elm), key, stop, t, cl)
      ensures Apart(old(mem), mem, all, node)
    {
      stop, left, t, cl := false, left0, t0, cl0;
      Kids(t);
      var tmp := mem[root].right;
      if tmp == NULL {
        stop := true;
        return;
      }
      if key(elm) > key(tmp) {
        RotateLeft(tmp, node, left, right, cl, t, cr, all);
        RotLNodes(t);
        t := RotL(t);
        Kids(t);
        if mem[root].right == NULL {
          stop := true;
          return;
        }
      }
      CutRight(cl, t, cr, order, key(elm));
      left := LinkRight(left, node, right, cl, t, cr, all);
      cl, t := R(t.l, t.n, t.x, cl), t.r;
    }

    /** _SPLAY for the key of elm; node is the address of its local header. */
    method Splay(elm: Ptr, node: Ptr, ghost t0: STree) returns (ghost t': STree)
      requires Stands(mem, root, t0) && Disj(t0) && Sorted(InOrder(t0), key) && t0.T?
      requires node != NULL && node !in mem
      modifies this`root, this`mem
      ensures Stands(mem, root, t') && Disj(t') && InOrder(t') == InOrder(t0) && Near(t', key(elm))
      ensures Halves(Path(t0, key(elm), key), t')
      ensures node !in mem
      ensures Apart(old(mem), mem, Nodes(t0), node)
    {
      OpenHeader(node, t0);
      var left, right, stop := node, node, false;
      ghost var cl, t, cr := Top, t0, Top;
      CutStarts(t0, key(elm));
      ghost var done: seq<Ptr>, path := [], Path(t0, key(elm), key);
      HalvingStarts(t0, key(elm), key);
      while !stop && key(elm) != key(root)
        invariant Apart(old(mem), mem, Nodes(t0), node)
        invariant Working(node, left, right, cl, t, cr, Nodes(t0)) && Cut(cl, t, cr, InOrder(t0), key(elm))
        invariant stop ==> (key(t.n) > key(elm) && t.l.Leaf?) || (key(t.n) < key(elm) && t.r.Leaf?)
        invariant Progress(stop, done, cl, t, cr, key(elm), path)
        decreases if stop then 0 else 1, |InOrder(t)|
      {
        ghost var t1 := t;
        if key(elm) < key(root) {
          ghost var cr1 := cr;
          stop, right, t, cr := StepLeft(elm, node, left, right, cl, t, cr, InOrder(t0), Nodes(t0));
          done := LeftProgress(done, cl, t1, cr1, key(elm), stop, t, cr, path);
        } else {
          ghost var cl1 := cl;
          stop, left, t, cl := StepRight(elm, node, left, right, cl, t, cr, InOrder(t0), Nodes(t0));
          done := RightProgress(done, cl1, t1, cr, key(elm), stop, t, cl, path);
        }
      }
      if !stop { FoundHalves(done, cl, t, cr); }
      AssembledNear(cl, t, cr, InOrder(t0), key(elm));
      Assemble(node, left, right, cl, t, cr, Nodes(t0));
      t' := Assembled(cl, t, cr);
    }

    /** The path so far, or after the last round all of it, is halved. */
    ghost predicate Progress(stop: bool, done: seq<Ptr>, cl: SCtx, t: STree, cr: SCtx, k: int, path: seq<Ptr>) {
      t.T? && if stop then Halves(path, Assembled(cl, t, cr))
              else Halving(done, cl, t, cr, k, key) && path == done + Path(t, k, key)
    }

    lemma LeftProgress(done: seq<Ptr>, cl: SCtx, t: STree, cr: SCtx, k: int, stop: bool, t': STree, cr': SCtx,
        path: seq<Ptr>)
      returns (done': seq<Ptr>)
      requires Progress(false, done, cl, t, cr, k, path) && k < key(t.n) && LeftRound(t, cr, k, key, stop, t', cr')
      ensures Progress(stop, done', cl, t', cr', k, path)
    {
      if stop {
        LeftStops(done, cl, t, cr, k, key, t');
        done' := done;
      } else {
        done' := LeftGoesOn(done, cl, t, cr, k, key, t', cr');
      }
    }

    lemma RightProgress(done: seq<Ptr>, cl: SCtx, t: STree, cr: SCtx, k: int, stop: bool, t': STree, cl': SCtx,
        path: seq<Ptr>)
      returns (done': seq<Ptr>)
      requires Progress(false, done, cl, t, cr, k, path) && k > key(t.n) && RightRound(t, cl, k, key, stop, t', cl')
      ensures Progress(stop, done', cl', t', cr, k, path)
    {
      if stop {
        RightStops(done, cl, t, cr, k, key, t');
        done' := done;
      } else {
        done' := RightGoesOn(done, cl, t, cr, k, key, t', cl');
      }
    }

    lemma CutStarts(t: STree, k: int)
      requires Sorted(InOrder(t), key)
      ensures Cut(Top, t, Top, InOrder(t), k)
    {
      assert Before<()>(Top) + InOrder(t) + After<()>(Top) == InOrder(t);
    }

    /** `SPLAY_LEFT(&__node) = SPLAY_RIGHT(&__node) = NULL` */
    method OpenHeader(node: Ptr, ghost t: STree)
      requires Stands(mem, root, t) && Disj(t) && t.T? && node != NULL && node !in mem
      modifies this`mem
      ensures Working(node, node, node, Top, t, Top, Nodes(t))
      ensures Apart(old(mem), mem, Nodes(t), node)
    {
      ghost var m := mem;
      mem := mem[node := Entry(NULL, NULL)];
      StandsNodes(m, root, t);
      StandsFrame(m, mem, root, t);
    }

    lemma Kids(t: STree)
      requires t.T? && Stands(mem, root, t)
      ensures mem[root].left == Root(t.l) && (mem[root].left == NULL <==> t.l.Leaf?)
      ensures mem[root].right == Root(t.r) && (mem[root].right == NULL <==> t.r.Leaf?)
    {
    }

    /** SPLAY_FIND */
    method Find(elm: Ptr, node: Ptr) returns (res: Ptr)
      requires Valid() && node != NULL && node !in mem
      modifies this
      ensures Valid() && InOrder(tree) == old(InOrder(tree)) && node !in mem
      ensures res != NULL ==> res in InOrder(tree) && key(res) == key(elm)
      ensures res == NULL ==> forall n :: n in InOrder(tree) ==> key(n) != key(elm)
    {
      if root == NULL {
        return NULL;
      }
      tree := Splay(elm, node, tree);
      RootSplits(tree, key(elm));
      if key(elm) == key(root) {
        return root;
      }
      return NULL;
    }

    /** A splayed tree: every other key is on the proper side of the key splayed for. */
    lemma RootSplits(t: STree, k: int)
      requires Stands(mem, root, t) && Sorted(InOrder(t), key) && Near(t, k)
      ensures InOrder(t) == InOrder(t.l) + [root] + InOrder(t.r) && root != NULL && root in mem
      ensures key(root) <= k ==> AllBelow(InOrder(t.l), key, k)
      ensures key(root) >= k ==> AllAbove(InOrder(t.r), key, k)
      ensures key(root) != k ==> forall n :: n in InOrder(t) ==> key(n) != k
    {
      SortedSplit(InOrder(t.l), root, InOrder(t.r), key);
    }

    /** SPLAY_INSERT */
    method Insert(elm: Ptr, node: Ptr) returns (res: Ptr)
      requires Valid() && node != NULL && node !in mem
      requires elm != NULL && elm != node
      modifies this
      ensures Valid() && node !in mem
      ensures res != NULL ==> InOrder(tree) == old(InOrder(tree)) && res in InOrder(tree) && key(res) == key(elm)
      ensures res == NULL ==> Inserted(old(InOrder(tree)), elm, InOrder(tree))
      ensures res == NULL ==> forall n :: n in old(InOrder(tree)) ==> key(n) != key(elm)
    {
      InOrderNodes(tree);
      if root == NULL {
        mem := mem[elm := Entry(NULL, NULL)];
        tree := T(Leaf, elm, (), Leaf);
        InsertedBetween([], elm, []);
      } else {
        ghost var t := Splay(elm, node, tree);
        InOrderNodes(t);
        RootSplits(t, key(elm));
        if key(elm) == key(root) {
          tree := t;
          return root;
        }
        tree := Overtop(elm, t);
      }
      root := elm;
      return NULL;
    }

    /** The two cases of SPLAY_INSERT that put elm above the old root. */
    method Overtop(elm: Ptr, ghost t: STree) returns (ghost t': STree)
      requires t.T? && Stands(mem, root, t) && Disj(t) && Sorted(InOrder(t), key) && Near(t, key(elm))
      requires elm != NULL && elm !in Nodes(t) && key(elm) != key(root)
      modifies this`mem
      ensures Stands(mem, elm, t') && Disj(t') && Sorted(InOrder(t'), key) && Inserted(InOrder(t), elm, InOrder(t'))
      ensures mem.Keys == old(mem.Keys) + {elm}
    {
      ghost var m := mem;
      StandsRecords(t);
      Kids(t);
      if key(elm) < key(root) {
        SplitBelow(t, elm);
        InsertedBetween(InOrder(t.l), elm, [root] + InOrder(t.r));
        mem := mem[elm := Entry(mem[root].left, root)];
        mem := mem[root := mem[root].(left := NULL)];
        t' := T(t.l, elm, (), T(Leaf, root, t.x, t.r));
        assert Nodes(t'.r) == {root} + Nodes(t.r) && Disj(t'.r);
      } else {
        SplitAbove(t, elm);
        InsertedBetween(InOrder(t.l) + [root], elm, InOrder(t.r));
        mem := mem[elm := Entry(root, mem[root].right)];
        mem := mem[root := mem[root].(right := NULL)];
        t' := T(T(t.l, root, t.x, Leaf), elm, (), t.r);
        assert Nodes(t'.l) == {root} + Nodes(t.l) && Disj(t'.l);
      }
      StandsFrame(m, mem, m[root].left, t.l);
      StandsFrame(m, mem, m[root].right, t.r);
    }

    lemma StandsRecords(t: STree)
      requires t.T? && Stands(mem, root, t)
      ensures Stands(mem, mem[root].left, t.l) && Stands(mem, mem[root].right, t.r)
    {
    }

    /** The order of the nodes after elm has been put above the root, to the left or to the right. */
    lemma SplitBelow(t: STree, elm: Ptr)
      requires Near(t, key(elm)) && Sorted(InOrder(t), key) && key(elm) < key(t.n)
      ensures InOrder(t) == InOrder(t.l) + ([t.n] + InOrder(t.r))
      ensures InOrder(T(t.l, elm, (), T(Leaf, t.n, t.x, t.r))) == InOrder(t.l) + [elm] + ([t.n] + InOrder(t.r))
      ensures Sorted(InOrder(T(t.l, elm, (), T(Leaf, t.n, t.x, t.r))), key)
    {
      PutBelow(InOrder(t.l), t.n, InOrder(t.r), elm, key);
      OrderBelow(t, elm);
    }

    lemma OrderBelow(t: STree, elm: Ptr)
      requires t.T?
      ensures InOrder(t) == InOrder(t.l) + ([t.n] + InOrder(t.r))
      ensures InOrder(T(t.l, elm, (), T(Leaf, t.n, t.x, t.r))) == InOrder(t.l) + [elm] + ([t.n] + InOrder(t.r))
    {
      Assoc(InOrder(t.l), [t.n], InOrder(t.r));
      assert InOrder(T(Leaf, t.n, t.x, t.r)) == [t.n] + InOrder(t.r) by {
        assert [] + [t.n] == [t.n];
      }
    }

    lemma SplitAbove(t: STree, elm: Ptr)
      requires Near(t, key(elm)) && Sorted(InOrder(t), key) && key(elm) > key(t.n)
      ensures InOrder(T(T(t.l, t.n, t.x, Leaf), elm, (), t.r)) == InOrder(t.l) + [t.n] + [elm] + InOrder(t.r)
      ensures Sorted(InOrder(T(T(t.l, t.n, t.x, Leaf), elm, (), t.r)), key)
    {
      PutAbove(InOrder(t.l), t.n, InOrder(t.r), elm, key);
      assert InOrder(T(t.l, t.n, t.x, Leaf)) == InOrder(t.l) + [t.n];
    }

    /**
     * SPLAY_REMOVE: takes out the node with elm's key, whichever node that is, and returns elm;
     * NULL if there is none.
     */
    method Remove(elm: Ptr, node: Ptr) returns (res: Ptr)
      requires Valid() && node != NULL && node !in mem
      modifies this
      ensures Valid() && node !in mem
      ensures res == NULL || res == elm
      ensures res == NULL && elm != NULL ==>
        InOrder(tree) == old(InOrder(tree)) && forall n :: n in InOrder(tree) ==> key(n) != key(elm)
      ensures res != NULL ==> exists n :: key(n) == key(elm) && Inserted(InOrder(tree), n, old(InOrder(tree)))
    {
      if root == NULL {
        return NULL;
      }
      ghost var t := Splay(elm, node, tree);
      RootSplits(t, key(elm));
      if key(elm) == key(root) {
        ghost var gone := root;
        Kids(t);
        StandsRecords(t);
        SortedDrop(InOrder(t.l), root, InOrder(t.r), key);
        InsertedBetween(InOrder(t.l), root, InOrder(t.r));
        if mem[root].left == NULL {
          root := mem[root].right;
          tree := t.r;
          assert InOrder(tree) == InOrder(t.l) + InOrder(t.r);
        } else {
          var tmp := mem[root].right;
          root := mem[root].left;
          tree := Join(elm, node, tmp, t);
        }
        return elm;
      }
      tree := t;
      return NULL;
    }

    lemma NothingAbove(u: STree, k: int)
      requires u.T? && AllBelow(InOrder(u), key, k) && Near(u, k)
      ensures u.r.Leaf?
    {
      Ends(u);
    }

    lemma Ends(u: STree)
      requires u.T?
      ensures InOrder(u)[|InOrder(u.l)|] == u.n
      ensures u.r.T? ==> |InOrder(u.r)| > 0 && InOrder(u)[|InOrder(u.l)| + 1] == InOrder(u.r)[0]
    {
    }

    /** The second splay of SPLAY_REMOVE: it leaves an empty right link to hang the larger nodes on. */
    method Join(elm: Ptr, node: Ptr, tmp: Ptr, ghost t: STree) returns (ghost t': STree)
      requires t.T? && t.l.T? && Disj(t) && Stands(mem, root, t.l) && Stands(mem, tmp, t.r)
      requires Sorted(InOrder(t.l) + InOrder(t.r), key) && AllBelow(InOrder(t.l), key, key(elm))
      requires node != NULL && node !in mem
      modifies this`root, this`mem
      ensures Stands(mem, root, t') && Disj(t') && InOrder(t') == InOrder(t.l) + InOrder(t.r)
      ensures node !in mem
    {
      SortedPrefix(InOrder(t.l), InOrder(t.r), key);
      ghost var m0 := mem;
      ghost var u := Splay(elm, node, t.l);
      StandsNodes(m0, tmp, t.r);
      StandsFrame(m0, mem, tmp, t.r);
      NothingAbove(u, key(elm));
      t' := HangRight(tmp, u, t);
    }

    /** `SPLAY_RIGHT((head)->sph_root) = __tmp` */
    method HangRight(tmp: Ptr, ghost u: STree, ghost t: STree) returns (ghost t': STree)
      requires t.T? && u.T? && u.r.Leaf? && Stands(mem, root, u) && Stands(mem, tmp, t.r)
      requires Disj(t) && Disj(u) && InOrder(u) == InOrder(t.l)
      modifies this`mem
      ensures Stands(mem, root, t') && Disj(t') && InOrder(t') == InOrder(t.l) + InOrder(t.r)
      ensures mem.Keys == old(mem.Keys)
    {
      Kids(u);
      SameNodes(u, t.l);
      ghost var m := mem;
      mem := mem[root := mem[root].(right := tmp)];
      StandsFrame(m, mem, m[root].left, u.l);
      StandsFrame(m, mem, tmp, t.r);
      t' := T(u.l, root, u.x, t.r);
      assert InOrder(u) == InOrder(u.l) + [root] + [];
    }

    lemma SameNodes(u: STree, t: STree)
      requires InOrder(u) == InOrder(t)
      ensures Nodes(u) == Nodes(t)
    {
      InOrderNodes(t);
      InOrderNodes(u);
    }

    /** One round of _SPLAY_MINMAX towards the minimum. */
    method StepMin(node: Ptr, left: Ptr, right0: Ptr, ghost t0: STree, ghost cr0: SCtx,
        ghost order: seq<Ptr>, ghost k: int, ghost all: set<Ptr>)
      returns (stop: bool, right: Ptr, ghost t: STree, ghost cr: SCtx)
      requires Working(node, left, right0, Top, t0, cr0, all) && Cut(Top, t0, cr0, order, k) && AllAbove(order, key, k)
      modifies this`root, this`mem
      ensures Working(node, left, right, Top, t, cr, all) && Cut(Top, t, cr, order, k)
      ensures if stop then t.l.Leaf? else |InOrder(t)| < |InOrder(t0)|
      ensures k < key(t0.n) && LeftRound(t0, cr0, k, key, stop, t, cr)
      ensures Apart(old(mem), mem, all, node)
    {
      stop, right, t, cr := false, right0, t0, cr0;
      Kids(t);
      InTheOrder(Top, t, cr);
      var tmp := mem[root].left;
      if tmp == NULL {
        stop := true;
        return;
      }
      RotateRight(tmp, node, left, right, Top, t, cr, all);
      RotRNodes(t);
      t := RotR(t);
      Kids(t);
      InTheOrder(Top, t, cr);
      if mem[root].left == NULL {
        stop := true;
        return;
      }
      CutLeft(Top, t, cr, order, k);
      right := LinkLeft(right, node, left, Top, t, cr, all);
      cr, t := L(cr, t.n, t.x, t.r), t.l;
    }

    method StepMax(node: Ptr, left0: Ptr, right: Ptr, ghost cl0: SCtx, ghost t0: STree,
        ghost order: seq<Ptr>, ghost k: int, ghost all: set<Ptr>)
      returns (stop: bool, left: Ptr, ghost t: STree, ghost cl: SCtx)
      requires Working(node, left0, right, cl0, t0, Top, all) && Cut(cl0, t0, Top, order, k) && AllBelow(order, key, k)
      modifies this`root, this`mem
      ensures Working(node, left, right, cl, t, Top, all) && Cut(cl, t, Top, order, k)
      ensures if stop then t.r.Leaf? else |InOrder(t)| < |InOrder(t0)|
      ensures k > key(t0.n) && RightRound(t0, cl0, k, key, stop, t, cl)
      ensures Apart(old(mem), mem, all, node)
    {
      stop, left, t, cl := false, left0, t0, cl0;
      Kids(t);
      InTheOrder(cl, t, Top);
      var tmp := mem[root].right;
      if tmp == NULL {
        stop := true;
        return;
      }
      RotateLeft(tmp, node, left, right, cl, t, Top, all);
      RotLNodes(t);
      t := RotL(t);
      Kids(t);
      InTheOrder(cl, t, Top);
      if mem[root].right == NULL {
        stop := true;
        return;
      }
      CutRight(cl, t, Top, order, k);
      left := LinkRight(left, node, right, cl, t, Top, all);
      cl, t := R(t.l, t.n, t.x, cl), t.r;
    }

    lemma InTheOrder(cl: SCtx, t: STree, cr: SCtx)
      requires t.T?
      ensures var s, i := Before(cl) + InOrder(t) + After(cr), |Before(cl) + InOrder(t.l)|;
        i < |s| && s[i] == t.n
    {
      Middle(cl, t, cr);
    }

    /** _SPLAY_MINMAX; a comp of 0 would never end. */
    method SplayMinMax(comp: int, node: Ptr, ghost t0: STree) returns (ghost t': STree)
      requires Stands(mem, root, t0) && Disj(t0) && Sorted(InOrder(t0), key) && t0.T?
      requires node != NULL && node !in mem && comp != 0
      modifies this`root, this`mem
      ensures Stands(mem, root, t') && Disj(t') && InOrder(t') == InOrder(t0) && t'.T?
      ensures if comp < 0 then t'.l.Leaf? else t'.r.Leaf?
      ensures Halves(EdgePath(t0, comp < 0), t')
      ensures node !in mem
    {
      OpenHeader(node, t0);
      var left, right, stop := node, node, false;
      ghost var cl, t, cr := Top, t0, Top;
      ghost var lo, hi := Bounds(InOrder(t0), key);
      ghost var k := if comp < 0 then lo else hi;
      CutStarts(t0, k);
      ghost var done: seq<Ptr>, path := [], EdgePath(t0, comp < 0);
      EdgeIsPath(t0, comp < 0, k, key);
      HalvingStarts(t0, k, key);
      while !stop
        invariant Working(node, left, right, cl, t, cr, Nodes(t0)) && Cut(cl, t, cr, InOrder(t0), k)
        invariant if comp < 0 then cl.Top? else cr.Top?
        invariant stop ==> if comp < 0 then t.l.Leaf? else t.r.Leaf?
        invariant Progress(stop, done, cl, t, cr, k, path)
        decreases if stop then 0 else 1, |InOrder(t)|
      {
        ghost var t1 := t;
        if comp < 0 {
          ghost var cr1 := cr;
          stop, right, t, cr := StepMin(node, left, right, t, cr, InOrder(t0), k, Nodes(t0));
          done := LeftProgress(done, cl, t1, cr1, k, stop, t, cr, path);
        } else {
          ghost var cl1 := cl;
          stop, left, t, cl := StepMax(node, left, right, cl, t, InOrder(t0), k, Nodes(t0));
          done := RightProgress(done, cl1, t1, cr, k, stop, t, cl, path);
        }
      }
      InTheOrder(cl, t, cr);
      AssembledNear(cl, t, cr, InOrder(t0), k);
      Assemble(node, left, right, cl, t, cr, Nodes(t0));
      t' := Assembled(cl, t, cr);
    }

    /** SPLAY_MIN and SPLAY_MAX */
    method MinMax(val: int, node: Ptr) returns (res: Ptr)
      requires Valid() && node != NULL && node !in mem && val != 0
      modifies this
      ensures Valid() && InOrder(tree) == old(InOrder(tree)) && node !in mem
      ensures res == Nth(InOrder(tree), if val < 0 then 0 else |InOrder(tree)| - 1)
    {
      if root == NULL {
        return NULL;
      }
      tree := SplayMinMax(val, node, tree);
      return root;
    }

    /** SPLAY_NEXT, for a node of the tree. */
    method Next(elm: Ptr, node: Ptr, ghost i: nat) returns (next: Ptr)
      requires Valid() && node != NULL && node !in mem
      requires i < |InOrder(tree)| && InOrder(tree)[i] == elm
      modifies this
      ensures Valid() && InOrder(tree) == old(InOrder(tree)) && node !in mem
      ensures next == Nth(InOrder(tree), i + 1)
    {
      tree := Splay(elm, node, tree);
      ElmIsRoot(elm, i);
      Kids(tree);
      if mem[root].right == NULL {
        return NULL;
      }
      next := Leftmost(mem[root].right, tree.r);
    }

    method Leftmost(p: Ptr, ghost t0: STree) returns (next: Ptr)
      requires Stands(mem, p, t0) && t0.T?
      ensures InOrder(t0) != [] && next == InOrder(t0)[0]
    {
      next := p;
      ghost var t := t0;
      First(t);
      while mem[next].left != NULL
        invariant Stands(mem, next, t) && t.T? && InOrder(t) != [] && InOrder(t)[0] == InOrder(t0)[0]
        decreases t
      {
        First(t);
        next := mem[next].left;
        t := t.l;
        First(t);
      }
      First(t);
    }

    lemma First(t: STree)
      ensures t.T? ==> |InOrder(t)| > 0
      ensures t.T? && t.l.T? ==> |InOrder(t.l)| > 0 && InOrder(t)[0] == InOrder(t.l)[0]
      ensures t.T? && t.l.Leaf? ==> InOrder(t)[0] == t.n
    {
    }

    /** Splaying for a node of the tree brings that node to the root. */
    lemma ElmIsRoot(elm: Ptr, i: nat)
      requires Valid() && tree.T? && Near(tree, key(elm)) && i < |InOrder(tree)| && InOrder(tree)[i] == elm
      ensures root == elm && i == |InOrder(tree.l)|
      ensures Nth(InOrder(tree), i + 1) == if tree.r.T? then InOrder(tree.r)[0] else NULL
    {
      RootSplits(tree, key(elm));
      Ends(tree);
      if key(root) == key(elm) {
        SortedKeys(InOrder(tree), key, i, |InOrder(tree.l)|);
      }
    }

    /** SPLAY_FOREACH: every node once, in ascending order, although each step reshapes the tree. */
    method ForEach(node: Ptr) returns (visited: seq<Ptr>)
      requires Valid() && node != NULL && node !in mem
      modifies this
      ensures Valid() && visited == InOrder(tree) == old(InOrder(tree))
    {
      ghost var order := InOrder(tree);
      NoNull(root, tree);
      visited := [];
      var x := MinMax(-1, node);
      while x != NULL
        invariant Valid() && node !in mem && InOrder(tree) == order
        invariant |visited| <= |order| && visited == order[..|visited|]
        invariant x == Nth(order, |visited|)
        decreases |order| - |visited|
      {
        ghost var i := |visited|;
        visited := visited + [x];
        x := Next(x, node, i);
      }
    }

    lemma NoNull(p: Ptr, t: STree)
      requires Stands(mem, p, t)
      ensures NULL !in InOrder(t)
      decreases t
    {
      if t.T? {
        NoNull(mem[p].left, t.l);
        NoNull(mem[p].right, t.r);
      }
    }

    /** Any calls on an empty tree leave it valid and holding what a finite set would. */
    method Run(ops: seq<Op>, node: Ptr)
      requires Valid() && tree == Leaf && node != NULL && node !in mem
      requires forall i :: 0 <= i < |ops| ==> ops[i].n != NULL && ops[i].n != node
      modifies this
      ensures Valid() && Holds(InOrder(tree), Stored(ops, key), key)
    {
      for i := 0 to |ops|
        invariant Valid() && node !in mem && Holds(InOrder(tree), Stored(ops[..i], key), key)
      {
        ghost var s := InOrder(tree);
        assert ops[..i + 1][..i] == ops[..i];
        HoldsKey(s, ops[..i], key, ops[i].n);
        match ops[i] {
          case Put(n) =>
            var there := Insert(n, node);
            if there == NULL { HoldsPut(s, n, InOrder(tree), Stored(ops[..i], key), key); }
          case Take(n) =>
            var there := Remove(n, node);
            if there != NULL {
              ghost var gone :| key(gone) == key(n) && Inserted(InOrder(tree), gone, s);
              HoldsTake(InOrder(tree), gone, s, Stored(ops[..i], key), key);
            } else {
              assert Stored(ops[..i], key) - {key(n)} == Stored(ops[..i], key);
            }
        }
      }
      assert ops[..|ops|] == ops;
    }
  }
}
