/** The pointer-based binary min heap of deps/libuv/src/heap-inl.h. */
module BinaryHeap {
  import opened Links
  import opened Powers
  import opened HeapOrder

  const UINT_MAX := 0xFFFF_FFFF

  // ----- what heap_node_swap does to the records ----------------------------------------

  function SwapL(t: HTree): HTree
    requires t.T? && t.l.T?
  { T(T(t.l.l, t.n, (), t.l.r), t.l.n, (), t.r) }

  function SwapR(t: HTree): HTree
    requires t.T? && t.r.T?
  { T(t.l, t.r.n, (), T(t.r.l, t.n, (), t.r.r)) }

  /** A link that is NULL or leads to a record. */
  ghost predicate Hung(m: Mem<()>, p: Ptr) { p != NULL ==> p in m }

  /** p (at the parent's place before) and ch have changed places; a, b, s, up are the pointers around them. */
  ghost predicate Moved(m: Mem<()>, m': Mem<()>, p: Ptr, ch: Ptr, a: Ptr, b: Ptr, s: Ptr, up: Ptr, left: bool,
      min: Ptr, min': Ptr)
    requires Hung(m, a) && Hung(m, b) && Hung(m, s) && Hung(m, up)
  {
    && p in m' && m'[p] == Rec(a, b, ch, ())
    && ch in m' && m'[ch] == (if left then Rec(p, s, up, ()) else Rec(s, p, up, ()))
    && (a != NULL ==> a in m' && m'[a] == m[a].(parent := p))
    && (b != NULL ==> b in m' && m'[b] == m[b].(parent := p))
    && (s != NULL ==> s in m' && m'[s] == m[s].(parent := ch))
    && (up == NULL ==> min' == ch)
    && (up != NULL ==> min' == min && up in m')
    && (up != NULL ==> m'[up] == if m[up].left == p then m[up].(left := ch) else m[up].(right := ch))
    && OnlyChanged(m, m', {p, ch, a, b, s, up})
  }

  /** No two of the pointers around a swap are the same node. */
  ghost predicate Apart(p: Ptr, ch: Ptr, a: Ptr, b: Ptr, s: Ptr, up: Ptr) {
    && p != NULL && ch != NULL && p != ch
    && (a != NULL ==> a != p && a != ch && a != b && a != s && a != up)
    && (b != NULL ==> b != p && b != ch && b != s && b != up)
    && (s != NULL ==> s != p && s != ch && s != up)
    && (up != NULL ==> up != p && up != ch)
  }

  lemma SwapNodes(t: HTree)
    requires t.T?
    ensures t.l.T? ==> Nodes(SwapL(t)) == Nodes(t) && (Disj(t) ==> Disj(SwapL(t)))
    ensures t.r.T? ==> Nodes(SwapR(t)) == Nodes(t) && (Disj(t) ==> Disj(SwapR(t)))
  {
    assert t.l.T? ==> Disj(t) ==> Disj(t.l);
    assert t.r.T? ==> Disj(t) ==> Disj(t.r);
  }

  /** Which link of its parent leads to the node at the focus. */
  lemma LinkFacts(m: Mem<()>, c: HCtx, t: HTree, root: Ptr)
    requires t.T? && At(m, c, t, t.n, root)
    ensures c.L? ==> c.n != NULL && c.n in m && m[c.n].left == t.n
    ensures c.R? ==> c.n != NULL && c.n in m && m[c.n].right == t.n && m[c.n].left != t.n
  {
    if !c.Top? {
      Up(m, c, t, t.n, root);
      assert c.R? ==> c.l.T? ==> c.l.n in Nodes(c.l);
    }
  }

  lemma SwapApart(m: Mem<()>, c: HCtx, t: HTree, k: HTree, s: HTree, root: Ptr)
    requires t.T? && At(m, c, t, t.n, root) && k.T? && ((k == t.l && s == t.r) || (k == t.r && s == t.l))
    ensures Apart(t.n, k.n, Root(k.l), Root(k.r), Root(s), CNode(c))
    ensures Hung(m, Root(k.l)) && Hung(m, Root(k.r)) && Hung(m, Root(s)) && Hung(m, CNode(c))
    ensures t.n in m && m[t.n] == Rec(Root(t.l), Root(t.r), CNode(c), ())
    ensures k.n in m && m[k.n] == Rec(Root(k.l), Root(k.r), t.n, ())
  {
    Down(m, c, t, t.n, root);
    Kids(m, t, CNode(c));
    Kids(m, k, t.n);
    LinkFacts(m, c, t, root);
    assert Disj(k) && Nodes(k) == Nodes(k.l) + {k.n} + Nodes(k.r);
    assert !c.Top? ==> c.n in CNodes(c);
    assert m[k.n].x == () && m[t.n].x == ();
  }

  /** Above the swapped nodes only the link to them has changed. */
  lemma RelinkedAround(m: Mem<()>, m': Mem<()>, c: HCtx, t: HTree, w: set<Ptr>, root: Ptr, p: Ptr, root': Ptr)
    requires t.T? && At(m, c, t, t.n, root) && OnlyChanged(m, m', w) && w <= Nodes(t) + {CNode(c), NULL}
    requires if c.Top? then root' == p else root' == root && c.n in m && c.n in m'
    requires c.L? ==> m'[c.n] == m[c.n].(left := p)
    requires c.R? ==> m'[c.n] == m[c.n].(right := p)
    ensures CShape(m', c, p, root')
  {
    Relinked(m, m', c, t.n, root, p, root');
  }

  lemma SwappedLeftShape(m: Mem<()>, m': Mem<()>, c: HCtx, t: HTree, root: Ptr, root': Ptr)
    requires t.T? && t.l.T? && At(m, c, t, t.n, root)
    requires Hung(m, Root(t.l.l)) && Hung(m, Root(t.l.r)) && Hung(m, Root(t.r)) && Hung(m, CNode(c))
    requires Moved(m, m', t.n, t.l.n, Root(t.l.l), Root(t.l.r), Root(t.r), CNode(c), true, root, root')
    ensures Shape(m', t.l.n, SwapL(t), CNode(c))
  {
    Kids(m, t, CNode(c));
    Kids(m, t.l, t.n);
    assert Disj(t.l);
    Reparented(m, m', Root(t.l.l), t.l.l, t.l.n, t.n);
    Reparented(m, m', Root(t.l.r), t.l.r, t.l.n, t.n);
    Reparented(m, m', Root(t.r), t.r, t.n, t.l.n);
  }

  lemma SwappedLeftAt(m: Mem<()>, m': Mem<()>, c: HCtx, t: HTree, root: Ptr, root': Ptr)
    requires t.T? && t.l.T? && At(m, c, t, t.n, root)
    requires Hung(m, Root(t.l.l)) && Hung(m, Root(t.l.r)) && Hung(m, Root(t.r)) && Hung(m, CNode(c))
    requires Moved(m, m', t.n, t.l.n, Root(t.l.l), Root(t.l.r), Root(t.r), CNode(c), true, root, root')
    ensures At(m', c, SwapL(t), t.l.n, root')
  {
    SwappedLeftShape(m, m', c, t, root, root');
    SwapNodes(t);
    LinkFacts(m, c, t, root);
    RelinkedAround(m, m', c, t, {t.n, t.l.n, Root(t.l.l), Root(t.l.r), Root(t.r), CNode(c)}, root, t.l.n, root');
  }

  lemma SwappedRightShape(m: Mem<()>, m': Mem<()>, c: HCtx, t: HTree, root: Ptr, root': Ptr)
    requires t.T? && t.r.T? && At(m, c, t, t.n, root)
    requires Hung(m, Root(t.r.l)) && Hung(m, Root(t.r.r)) && Hung(m, Root(t.l)) && Hung(m, CNode(c))
    requires Moved(m, m', t.n, t.r.n, Root(t.r.l), Root(t.r.r), Root(t.l), CNode(c), false, root, root')
    ensures Shape(m', t.r.n, SwapR(t), CNode(c))
  {
    Kids(m, t, CNode(c));
    Kids(m, t.r, t.n);
    assert Disj(t.r);
    Reparented(m, m', Root(t.r.l), t.r.l, t.r.n, t.n);
    Reparented(m, m', Root(t.r.r), t.r.r, t.r.n, t.n);
    Reparented(m, m', Root(t.l), t.l, t.n, t.r.n);
  }

  lemma SwappedRightAt(m: Mem<()>, m': Mem<()>, c: HCtx, t: HTree, root: Ptr, root': Ptr)
    requires t.T? && t.r.T? && At(m, c, t, t.n, root)
    requires Hung(m, Root(t.r.l)) && Hung(m, Root(t.r.r)) && Hung(m, Root(t.l)) && Hung(m, CNode(c))
    requires Moved(m, m', t.n, t.r.n, Root(t.r.l), Root(t.r.r), Root(t.l), CNode(c), false, root, root')
    ensures At(m', c, SwapR(t), t.r.n, root')
  {
    SwappedRightShape(m, m', c, t, root, root');
    SwapNodes(t);
    LinkFacts(m, c, t, root);
    RelinkedAround(m, m', c, t, {t.n, t.r.n, Root(t.r.l), Root(t.r.r), Root(t.l), CNode(c)}, root, t.r.n, root');
  }

  /** struct heap_node**: the address of a link. */
  datatype Link = MinLink | LeftOf(p: Ptr) | RightOf(p: Ptr)

  /** The address of the link that leads into the hole of c. */
  function HoleLink(c: HCtx): Link {
    match c
    case Top => MinLink
    case L(_, n, _, _) => LeftOf(n)
    case R(_, n, _, _) => RightOf(n)
  }

  // ----- a run of operations, seen on node sets ---------------------------------------

  datatype Op = Push(n: Ptr) | Drop(n: Ptr) | Pop

  /** One operation on the set of nodes; a caller pushes only a free node and drops only a member. */
  function Next(a: set<Ptr>, op: Op, least: Ptr): set<Ptr> {
    match op
    case Push(n) => if n == NULL || n in a || |a| == UINT_MAX then a else a + {n}
    case Drop(n) => a - {n}
    case Pop => a - {least}
  }

  /** The nodes inside after the operations, where mins[i] is what heap_min returned after i of them. */
  function Inside(ops: seq<Op>, mins: seq<Ptr>): set<Ptr>
    requires |ops| <= |mins|
  {
    if ops == [] then {} else
      var i := |ops| - 1;
      Next(Inside(ops[..i], mins), ops[i], mins[i])
  }

  ghost predicate Least(a: set<Ptr>, least: Ptr, key: Ptr -> int) {
    && (least == NULL <==> a == {})
    && (least != NULL ==> least in a && forall n :: n in a ==> key(least) <= key(n))
  }

  /** After i operations heap_min returned a least node of those inside. */
  ghost predicate RightAt(ops: seq<Op>, mins: seq<Ptr>, key: Ptr -> int, i: nat) {
    i <= |ops| && i < |mins| && Least(Inside(ops[..i], mins), mins[i], key)
  }

  /** And so it did before the first operation and after every other. */
  ghost predicate MinsRight(ops: seq<Op>, mins: seq<Ptr>, key: Ptr -> int) {
    |mins| == |ops| + 1 && forall i :: 0 <= i < |mins| ==> RightAt(ops, mins, key, i)
  }

  lemma {:induction false} InsideOfPrefix(ops: seq<Op>, mins: seq<Ptr>, more: seq<Ptr>)
    requires |ops| <= |mins|
    ensures Inside(ops, mins + more) == Inside(ops, mins)
    decreases |ops|
  {
    if ops != [] { InsideOfPrefix(ops[..|ops| - 1], mins, more); }
  }

  /** Nodes taken out one after another come in the order of their keys. */
  lemma {:induction false} PopsAscend(ops: seq<Op>, mins: seq<Ptr>, key: Ptr -> int, i: nat, j: nat)
    requires MinsRight(ops, mins, key) && i <= j < |mins| && mins[j] != NULL
    requires forall k :: i <= k < j ==> ops[k] == Pop
    ensures mins[i] != NULL && key(mins[i]) <= key(mins[j])
    decreases j - i
  {
    if i < j {
      assert RightAt(ops, mins, key, j - 1) && RightAt(ops, mins, key, j);
      var a, b := ops[..j - 1], ops[..j];
      assert b[..j - 1] == a;
      assert Inside(b, mins) == Inside(a, mins) - {mins[j - 1]};
      assert mins[j] in Inside(a, mins);
      PopsAscend(ops, mins, key, i, j - 1);
    }
  }

  lemma OneMore(ops: seq<Op>, mins: seq<Ptr>, key: Ptr -> int, i: nat, least: Ptr)
    requires i < |ops| && MinsRight(ops[..i], mins, key)
    requires Least(Next(Inside(ops[..i], mins), ops[i], mins[i]), least, key)
    ensures MinsRight(ops[..i + 1], mins + [least], key)
    ensures Inside(ops[..i + 1], mins + [least]) == Next(Inside(ops[..i], mins), ops[i], mins[i])
  {
    var done, all, found := ops[..i], ops[..i + 1], mins + [least];
    assert all[..i] == done;
    InsideOfPrefix(done, mins, [least]);
    forall k | 0 <= k < |found|
      ensures RightAt(all, found, key, k)
    {
      if k < |mins| {
        assert all[..k] == done[..k];
        assert RightAt(done, mins, key, k);
        InsideOfPrefix(done[..k], mins, [least]);
      } else {
        assert all[..k] == all;
      }
    }
  }

  /** A height of at most log2(n) + 1. */
  predicate Low(h: nat, n: nat) { h > 0 ==> Pow2(h - 1) <= n }

  /** struct heap */
  class HeapHead {
    var min: Ptr
    var nelts: nat
    var mem: Mem<()>
    const key: Ptr -> int     // less_than(a, b) is key(a) < key(b)
    ghost var tree: HTree     // what min and mem stand for

    /** A complete tree of exactly nelts nodes, linked consistently and in heap order. */
    ghost predicate Valid()
      reads this
    {
      && At(mem, Top, tree, min, min) && Complete(tree, 1, nelts) && Heap(tree, key)
      && |Nodes(tree)| == nelts <= UINT_MAX
    }

    /** heap_init */
    constructor (key: Ptr -> int, mem: Mem<()>)
      ensures Valid() && this.key == key && this.mem == mem && Nodes(tree) == {}
    {
      this.key, this.mem := key, mem;
      min, nelts, tree := NULL, 0, Leaf;
    }

    /** heap_min: a node with the least key. */
    method Min() returns (res: Ptr)
      requires Valid()
      ensures res == min && Least(Nodes(tree), res, key)
    {
      res := min;
      if tree.T? {
        HeapMin(tree, key, key(tree.n));
        assert tree.n in Nodes(tree);
      }
    }

    /** The two struct assignments of heap_node_swap, and the links between the two nodes. */
    method Exchange(parent: Ptr, child: Ptr) returns (sibling: Ptr)
      requires parent in mem && child in mem && parent != child && mem[child].parent == parent
      requires mem[child].left != child && mem[child].right != child && mem[parent].left != parent
      requires mem[parent].left == child || (mem[parent].right == child && mem[parent].left != child)
      modifies this`mem
      ensures var p, ch, m := old(mem[parent]), old(mem[child]), old(mem);
        mem == m[parent := ch.(parent := child)]
          [child := if p.left == child then p.(left := parent) else p.(right := parent)]
        && sibling == if p.left == child then p.right else p.left
    {
      mem := mem[parent := mem[child]][child := mem[parent]];
      mem := mem[parent := mem[parent].(parent := child)];
      if mem[child].left == child {
        mem := mem[child := mem[child].(left := parent)];
        sibling := mem[child].right;
      } else {
        mem := mem[child := mem[child].(right := parent)];
        sibling := mem[child].left;
      }
    }

    /** The parent links of the sibling and of the child's former children. */
    method AdoptAll(parent: Ptr, child: Ptr, sibling: Ptr)
      requires parent in mem && child in mem && Hung(mem, mem[parent].left) && Hung(mem, mem[parent].right)
      requires Hung(mem, sibling) && Apart(parent, child, mem[parent].left, mem[parent].right, sibling, NULL)
      modifies this`mem
      ensures var m, a, b := old(mem), old(mem[parent].left), old(mem[parent].right);
        && mem.Keys == m.Keys
        && (sibling != NULL ==> mem[sibling] == m[sibling].(parent := child))
        && (a != NULL ==> mem[a] == m[a].(parent := parent))
        && (b != NULL ==> mem[b] == m[b].(parent := parent))
        && forall p :: p in m && p != NULL && p !in {a, b, sibling} ==> mem[p] == m[p]
    {
      SetParent(sibling, child);
      SetParent(mem[parent].left, parent);
      SetParent(mem[parent].right, parent);
    }

    /** heap_node_swap: child moves closer to the root, parent moves away. */
    method NodeSwap(parent: Ptr, child: Ptr, ghost a: Ptr, ghost b: Ptr, ghost s: Ptr, ghost up: Ptr)
      requires Hung(mem, a) && Hung(mem, b) && Hung(mem, s) && Hung(mem, up) && Apart(parent, child, a, b, s, up)
      requires parent in mem && child in mem && mem[child] == Rec(a, b, parent, ())
      requires mem[parent] == Rec(child, s, up, ()) || mem[parent] == Rec(s, child, up, ())
      modifies this`min, this`mem
      ensures Moved(old(mem), mem, parent, child, a, b, s, up, old(mem[parent].left) == child, old(min), min)
    {
      TradePlaces(parent, child, a, b, s, up);
      Rise(parent, child);
    }

    /** All of heap_node_swap but the link from above. */
    method TradePlaces(parent: Ptr, child: Ptr, ghost a: Ptr, ghost b: Ptr, ghost s: Ptr, ghost up: Ptr)
      requires Hung(mem, a) && Hung(mem, b) && Hung(mem, s) && Hung(mem, up) && Apart(parent, child, a, b, s, up)
      requires parent in mem && child in mem && mem[child] == Rec(a, b, parent, ())
      requires mem[parent] == Rec(child, s, up, ()) || mem[parent] == Rec(s, child, up, ())
      modifies this`mem
      ensures var m, m', left := old(mem), mem, old(mem[parent].left) == child;
        && m'.Keys == m.Keys && m'[parent] == Rec(a, b, child, ())
        && m'[child] == (if left then Rec(parent, s, up, ()) else Rec(s, parent, up, ()))
        && (a != NULL ==> m'[a] == m[a].(parent := parent))
        && (b != NULL ==> m'[b] == m[b].(parent := parent))
        && (s != NULL ==> m'[s] == m[s].(parent := child))
        && OnlyChanged(m, m', {parent, child, a, b, s})
    {
      var sibling := Exchange(parent, child);
      AdoptAll(parent, child, sibling);
    }

    /** The last part of heap_node_swap: the link that led to parent leads to child. */
    method Rise(parent: Ptr, child: Ptr)
      requires child in mem && Hung(mem, mem[child].parent)
      modifies this`min, this`mem
      ensures old(mem[child].parent) == NULL ==> mem == old(mem) && min == child
      ensures old(mem[child].parent) != NULL ==>
        var up, m := old(mem[child].parent), old(mem);
        && min == old(min)
        && mem == m[up := if m[up].left == parent then m[up].(left := child) else m[up].(right := child)]
    {
      if mem[child].parent == NULL {
        min := child;
      } else {
        var up := mem[child].parent;
        if mem[up].left == parent {
          mem := mem[up := mem[up].(left := child)];
        } else {
          mem := mem[up := mem[up].(right := child)];
        }
      }
    }

    /** `if (p != NULL) p->parent = par` */
    method SetParent(p: Ptr, par: Ptr)
      requires p != NULL ==> p in mem
      modifies this`mem
      ensures mem == if p == NULL then old(mem) else old(mem)[p := old(mem)[p].(parent := par)]
    {
      if p != NULL {
        mem := mem[p := mem[p].(parent := par)];
      }
    }

    /** The same, seen as an operation on the tree. */
    method SwapAt(parent: Ptr, child: Ptr, ghost c: HCtx, ghost t: HTree, ghost left: bool)
      requires At(mem, c, t, parent, min) && t.T?
      requires if left then t.l.T? && t.l.n == child else t.r.T? && t.r.n == child
      modifies this`min, this`mem
      ensures At(mem, c, if left then SwapL(t) else SwapR(t), child, min)
    {
      ghost var m := mem;
      ghost var k, s := if left then t.l else t.r, if left then t.r else t.l;
      SwapApart(mem, c, t, k, s, min);
      NodeSwap(parent, child, Root(k.l), Root(k.r), Root(s), CNode(c));
      if left {
        SwappedLeftAt(m, mem, c, t, old(min), min);
      } else {
        SwappedRightAt(m, mem, c, t, old(min), min);
      }
    }

    // ----- finding a slot ---------------------------------------------------------------

    /** The loop that turns a slot number into a path of bits, to be taken lowest bit first. */
    method BitPath(slot: nat) returns (path: nat, k: nat)
      requires 1 <= slot <= UINT_MAX
      ensures Walk(1, path, k) == slot && path <= UINT_MAX
    {
      var n;
      path, k, n := 0, 0, slot;
      while n >= 2
        invariant 1 <= n && Walk(n, path, k) == slot
        invariant path < Pow2(k) && Pow2(k) * n <= slot
      {
        assert Pow2(k + 1) * (n / 2) <= Pow2(k) * n by {
          Doubled(n / 2, Pow2(k));
          assert (n / 2) * Pow2(k + 1) == (2 * (n / 2)) * Pow2(k);
          TimesMonotone(2 * (n / 2), n, Pow2(k));
        }
        WalkBack(n, path, k);
        path := 2 * path + n % 2;
        k := k + 1;
        n := n / 2;
      }
    }

    function Deref(q: Link): Ptr
      requires q != MinLink ==> q.p in mem
      reads this`min, this`mem
    {
      match q
      case MinLink => min
      case LeftOf(p) => mem[p].left
      case RightOf(p) => mem[p].right
    }

    /** The walk from the root along a path: to the link of the slot it was made for, and the link above. */
    method Follow(bits: nat, len: nat, ghost slot: nat)
      returns (parent: Link, child: Link, ghost c: HCtx, ghost t: HTree)
      requires At(mem, Top, tree, min, min) && Complete(tree, 1, nelts)
      requires Walk(1, bits, len) == slot <= nelts + 1
      ensures At(mem, c, t, Root(t), min) && Plug(c, t) == tree && Slot(c) == slot
      ensures child == HoleLink(c) && (!c.Top? ==> parent == HoleLink(c.up)) && (c.Top? ==> parent == MinLink)
    {
      var path, k := bits, len;
      parent, child := MinLink, MinLink;
      c, t := Top, tree;
      PlugComplete(c, t, nelts);
      while k > 0
        invariant At(mem, c, t, Root(t), min) && Plug(c, t) == tree
        invariant child == HoleLink(c) && (!c.Top? ==> parent == HoleLink(c.up)) && (c.Top? ==> parent == MinLink)
        invariant Complete(t, Slot(c), nelts) && CComplete(c, nelts)
        invariant Walk(Slot(c), path, k) == slot
      {
        parent := child;
        WayOn(c, t, path, k, slot);
        child, c, t := Turn(child, path % 2 == 1, c, t);
        path := path / 2;
        k := k - 1;
      }
    }

    /** One step down: `&(*child)->right` or `&(*child)->left`. */
    method Turn(child: Link, right: bool, ghost c0: HCtx, ghost t0: HTree)
      returns (next: Link, ghost c: HCtx, ghost t: HTree)
      requires At(mem, c0, t0, Root(t0), min) && t0.T? && child == HoleLink(c0)
      ensures At(mem, c, t, Root(t), min) && next == HoleLink(c) && Plug(c, t) == Plug(c0, t0)
      ensures c == if right then R(t0.l, t0.n, t0.x, c0) else L(c0, t0.n, t0.x, t0.r)
      ensures t == if right then t0.r else t0.l
    {
      HoleReads(c0, t0);
      var at := Deref(child);
      Down(mem, c0, t0, at, min);
      if right {
        next := RightOf(at);
        c, t := R(t0.l, t0.n, t0.x, c0), t0.r;
      } else {
        next := LeftOf(at);
        c, t := L(c0, t0.n, t0.x, t0.r), t0.l;
      }
    }

    lemma WayOn(c: HCtx, t: HTree, path: nat, k: nat, slot: nat)
      requires k > 0 && Complete(t, Slot(c), nelts) && CComplete(c, nelts)
      requires Walk(Slot(c), path, k) == slot <= nelts + 1
      ensures t.T?
      ensures var d := if path % 2 == 1 then R(t.l, t.n, t.x, c) else L(c, t.n, t.x, t.r);
        var u := if path % 2 == 1 then t.r else t.l;
        Complete(u, Slot(d), nelts) && CComplete(d, nelts) && Walk(Slot(d), path / 2, k - 1) == slot
    {
      WalkUnder(Slot(c), path, k);
      TimesMonotone(1, Slot(c), Pow2(k));
      StillInside(Slot(c), k, slot);
    }

    lemma StillInside(s: nat, k: nat, slot: nat)
      requires k > 0 && s >= 1 && slot >= s * Pow2(k) && slot <= nelts + 1
      ensures s <= nelts
    {
      assert Pow2(k) >= 2;
      TimesMonotone(2, Pow2(k), s);
    }

    lemma HoleReads(c: HCtx, t: HTree)
      requires At(mem, c, t, Root(t), min)
      ensures HoleLink(c) != MinLink ==> HoleLink(c).p in mem && HoleLink(c).p != NULL && HoleLink(c).p == CNode(c)
      ensures Deref(HoleLink(c)) == Root(t)
    {
      if !c.Top? { Up(mem, c, t, Root(t), min); }
    }

    /** *q = p */
    method Store(q: Link, p: Ptr)
      requires q != MinLink ==> q.p in mem
      modifies this`min, this`mem
      ensures q == MinLink ==> min == p && mem == old(mem)
      ensures q.LeftOf? ==> min == old(min) && mem == old(mem)[q.p := old(mem)[q.p].(left := p)]
      ensures q.RightOf? ==> min == old(min) && mem == old(mem)[q.p := old(mem)[q.p].(right := p)]
    {
      match q
      case MinLink => min := p;
      case LeftOf(n) => mem := mem[n := mem[n].(left := p)];
      case RightOf(n) => mem := mem[n := mem[n].(right := p)];
    }

    // ----- sifting ----------------------------------------------------------------------

    /** The tree around the focus is complete with n nodes' slots and consists of the nodes all. */
    ghost predicate Whole(c: HCtx, t: HTree, p: Ptr, n: nat, all: set<Ptr>)
      reads this`min, this`mem
    {
      At(mem, c, t, p, min) && CComplete(c, n) && Complete(t, Slot(c), n) && CNodes(c) + Nodes(t) == all
    }

    /** `while (x->parent != NULL && less_than(x, x->parent)) heap_node_swap(heap, x->parent, x);` */
    method SiftUp(x: Ptr, ghost c0: HCtx, ghost t0: HTree, ghost n: nat, ghost all: set<Ptr>) returns (ghost t': HTree)
      requires Whole(c0, t0, x, n, all) && UpOk(c0, t0, key)
      modifies this`min, this`mem
      ensures Whole(Top, t', min, n, all) && Heap(t', key)
    {
      ghost var c, t := c0, t0;
      Down(mem, c, t, x, min);
      TopIfNull(c, t, x);
      while mem[x].parent != NULL && key(x) < key(mem[x].parent)
        invariant Whole(c, t, x, n, all) && UpOk(c, t, key)
        invariant x in mem && mem[x].parent == CNode(c) && (CNode(c) == NULL <==> c.Top?)
        decreases c
      {
        t := SwapUpAt(mem[x].parent, x, c, t, n, all);
        c := c.up;
        Down(mem, c, t, x, min);
        TopIfNull(c, t, x);
      }
      t' := Settled(c, t, x, n, all);
    }

    lemma FillNodes(c: HCtx, t: HTree)
      requires !c.Top?
      ensures CNodes(c) + Nodes(t) == CNodes(c.up) + Nodes(Fill(c, t))
    {
    }

    method SwapUpAt(parent: Ptr, x: Ptr, ghost c: HCtx, ghost t: HTree, ghost n: nat, ghost all: set<Ptr>)
      returns (ghost t': HTree)
      requires Whole(c, t, x, n, all) && UpOk(c, t, key) && !c.Top? && c.n == parent && key(x) < key(parent)
      modifies this`min, this`mem
      ensures Whole(c.up, t', x, n, all) && UpOk(c.up, t', key)
    {
      Up(mem, c, t, x, min);
      SwapUp(c, t, key);
      SwapAt(parent, x, c.up, Fill(c, t), c.L?);
      SwapNodes(Fill(c, t));
      t' := if c.L? then SwapL(Fill(c, t)) else SwapR(Fill(c, t));
      FillNodes(c, t);
    }

    lemma Settled(c: HCtx, t: HTree, x: Ptr, n: nat, all: set<Ptr>) returns (t': HTree)
      requires Whole(c, t, x, n, all) && UpOk(c, t, key) && (!c.Top? ==> key(c.n) <= key(x))
      ensures Whole(Top, t', min, n, all) && Heap(t', key)
    {
      PlugHeap(c, t, key);
      PlugComplete(c, t, n);
      PlugAt(mem, c, t, x, min);
      PlugNodes(c, t);
      t' := Plug(c, t);
    }

    lemma TopIfNull(c: HCtx, t: HTree, x: Ptr)
      requires At(mem, c, t, x, min)
      ensures CNode(c) == NULL <==> c.Top?
    {
    }

    /** The loop that swaps child with the smaller of its children. */
    method SiftDown(child: Ptr, ghost c0: HCtx, ghost t0: HTree, ghost n: nat, ghost all: set<Ptr>)
      returns (ghost c: HCtx, ghost t: HTree)
      requires Whole(c0, t0, child, n, all) && DownOk(c0, t0, key)
      modifies this`min, this`mem
      ensures Whole(c, t, child, n, all) && UpOk(c, t, key)
    {
      c, t := c0, t0;
      while true
        invariant Whole(c, t, child, n, all) && DownOk(c, t, key)
        decreases Height(t)
      {
        Down(mem, c, t, child, min);
        Kids(mem, t, CNode(c));
        var smallest := child;
        if mem[child].left != NULL && key(mem[child].left) < key(smallest) {
          smallest := mem[child].left;
        }
        if mem[child].right != NULL && key(mem[child].right) < key(smallest) {
          smallest := mem[child].right;
        }
        if smallest == child {
          assert t.l.T? ==> t.l.n != NULL;
          assert t.r.T? ==> t.r.n != NULL;
          return;
        }
        c, t := SwapDown(child, smallest, c, t, n, all);
      }
    }

    method SwapDown(child: Ptr, smallest: Ptr, ghost c0: HCtx, ghost t0: HTree, ghost n: nat, ghost all: set<Ptr>)
      returns (ghost c: HCtx, ghost t: HTree)
      requires Whole(c0, t0, child, n, all) && DownOk(c0, t0, key) && key(smallest) < key(child) && smallest != NULL
      requires smallest == Root(t0.l) || smallest == Root(t0.r)
      requires t0.l.T? ==> key(smallest) <= key(t0.l.n)
      requires t0.r.T? ==> key(smallest) <= key(t0.r.n)
      modifies this`min, this`mem
      ensures Whole(c, t, child, n, all) && DownOk(c, t, key) && Height(t) < Height(t0)
    {
      ghost var left := Root(t0.l) == smallest;
      SwapAt(child, smallest, c0, t0, left);
      SwapNodes(t0);
      if left {
        SwapDownLeft(c0, t0, key);
        c, t := L(c0, smallest, (), t0.r), T(t0.l.l, child, (), t0.l.r);
        SunkLeft(c0, t0, n);
      } else {
        SwapDownRight(c0, t0, key);
        c, t := R(t0.l, smallest, (), c0), T(t0.r.l, child, (), t0.r.r);
        SunkRight(c0, t0, n);
      }
    }

    /** The node that went down is the focus of the tree now. */
    lemma SunkLeft(c: HCtx, t: HTree, n: nat)
      requires t.T? && t.l.T? && At(mem, c, SwapL(t), t.l.n, min) && CComplete(c, n) && Complete(t, Slot(c), n)
      ensures Whole(L(c, t.l.n, (), t.r), T(t.l.l, t.n, (), t.l.r), t.n, n, CNodes(c) + Nodes(SwapL(t)))
    {
      Down(mem, c, SwapL(t), t.l.n, min);
      assert Complete(t.l, 2 * Slot(c), n);
    }

    lemma SunkRight(c: HCtx, t: HTree, n: nat)
      requires t.T? && t.r.T? && At(mem, c, SwapR(t), t.r.n, min) && CComplete(c, n) && Complete(t, Slot(c), n)
      ensures Whole(R(t.l, t.r.n, (), c), T(t.r.l, t.n, (), t.r.r), t.n, n, CNodes(c) + Nodes(SwapR(t)))
    {
      Down(mem, c, SwapR(t), t.r.n, min);
      assert Complete(t.r, 2 * Slot(c) + 1, n);
    }

    // ----- the operations ---------------------------------------------------------------

    /** heap_insert */
    method Insert(newnode: Ptr)
      requires Valid() && newnode != NULL && newnode !in Nodes(tree) && nelts < UINT_MAX
      modifies this
      ensures Valid() && nelts == old(nelts) + 1
      ensures Nodes(tree) == old(Nodes(tree)) + {newnode}
    {
      ghost var t' := InsertNode(newnode);
      nelts := nelts + 1;
      tree := t';
      WholeIsValid(old(Nodes(tree)) + {newnode});
    }

    /** All of heap_insert but the new value of nelts, which nothing reads in between. */
    method InsertNode(newnode: Ptr) returns (ghost t': HTree)
      requires Valid() && newnode != NULL && newnode !in Nodes(tree) && nelts < UINT_MAX
      modifies this`min, this`mem
      ensures Whole(Top, t', min, nelts + 1, Nodes(tree) + {newnode}) && Heap(t', key)
    {
      ghost var m := mem;
      mem := mem[newnode := Rec(NULL, NULL, NULL, ())];
      Frame(m, mem, min, tree, NULL);
      var path, k := BitPath(1 + nelts);
      var parent, child;
      ghost var c, t;
      parent, child, c, t := Follow(path, k, 1 + nelts);
      FreeSlot(c, t);
      t' := Hang(newnode, parent, child, c);
    }

    lemma WholeIsValid(all: set<Ptr>)
      requires Whole(Top, tree, min, nelts, all) && Heap(tree, key) && |all| == nelts <= UINT_MAX
      ensures Valid() && Nodes(tree) == all
    {
      assert CNodes<()>(Top) + Nodes(tree) == Nodes(tree);
    }

    /** The slot after the last is free. */
    lemma FreeSlot(c: HCtx, t: HTree)
      requires Complete(tree, 1, nelts) && Plug(c, t) == tree && Slot(c) == nelts + 1
      ensures t == Leaf && Nodes(tree) == CNodes(c)
    {
      PlugComplete(c, t, nelts);
      PlugNodes(c, t);
    }

    /** heap_insert from the point where the slot has been found. */
    method Hang(newnode: Ptr, parent: Link, child: Link, ghost c: HCtx) returns (ghost t': HTree)
      requires At(mem, c, Leaf, NULL, min) && Heap(Plug(c, Leaf), key) && Complete(Plug(c, Leaf), 1, nelts)
      requires child == HoleLink(c) && (!c.Top? ==> parent == HoleLink(c.up)) && (c.Top? ==> parent == MinLink)
      requires Slot(c) == nelts + 1 && newnode != NULL && newnode in mem && newnode !in CNodes(c)
      requires mem[newnode] == Rec(NULL, NULL, NULL, ())
      modifies this`min, this`mem
      ensures Whole(Top, t', min, nelts + 1, CNodes(c) + {newnode}) && Heap(t', key)
    {
      LinkIn(newnode, parent, child, c);
      NewLeafWhole(newnode, c);
      t' := SiftUp(newnode, c, T(Leaf, newnode, (), Leaf), nelts + 1, CNodes(c) + {newnode});
    }

    /** `newnode->parent = *parent; *child = newnode;` */
    method LinkIn(newnode: Ptr, parent: Link, child: Link, ghost c: HCtx)
      requires At(mem, c, Leaf, NULL, min)
      requires child == HoleLink(c) && (!c.Top? ==> parent == HoleLink(c.up)) && (c.Top? ==> parent == MinLink)
      requires newnode != NULL && newnode in mem && newnode !in CNodes(c)
      requires mem[newnode] == Rec(NULL, NULL, NULL, ())
      modifies this`min, this`mem
      ensures At(mem, c, T(Leaf, newnode, (), Leaf), newnode, min)
    {
      ghost var m := mem;
      HoleReads(c, Leaf);
      if !c.Top? {
        Up(mem, c, Leaf, NULL, min);
        HoleReads(c.up, Fill(c, Leaf));
      }
      mem := mem[newnode := mem[newnode].(parent := Deref(parent))];
      Store(child, newnode);
      AttachedAt(m, mem, c, newnode, (), old(min), min);
    }

    lemma NewLeafWhole(newnode: Ptr, c: HCtx)
      requires At(mem, c, T(Leaf, newnode, (), Leaf), newnode, min)
      requires Heap(Plug(c, Leaf), key) && Complete(Plug(c, Leaf), 1, nelts) && Slot(c) == nelts + 1
      ensures Whole(c, T(Leaf, newnode, (), Leaf), newnode, nelts + 1, CNodes(c) + {newnode})
      ensures UpOk(c, T(Leaf, newnode, (), Leaf), key)
    {
      var t := T(Leaf, newnode, (), Leaf);
      assert Nodes(t) == {newnode};
      FillSlot(c, newnode, nelts);
      PlugComplete(c, t, nelts + 1);
      PlugHeap(c, Leaf, key);
    }

    /** heap_remove of any member; it does nothing to an empty heap. */
    method Remove(node: Ptr)
      requires Valid() && (nelts == 0 || node in Nodes(tree))
      modifies this
      ensures Valid() && nelts == if old(nelts) == 0 then 0 else old(nelts) - 1
      ensures Nodes(tree) == old(Nodes(tree)) - {node}
      ensures old(nelts) == 0 ==> min == old(min) && mem == old(mem)
    {
      if nelts == 0 {
        return;
      }
      ghost var all := Nodes(tree);
      ghost var t' := RemoveNode(node);
      tree := t';
      WholeIsValid(all - {node});
    }

    /** All of heap_remove after the test for an empty heap. */
    method RemoveNode(node: Ptr) returns (ghost t': HTree)
      requires Valid() && nelts > 0 && node in Nodes(tree)
      modifies this`nelts, this`min, this`mem
      ensures nelts == old(nelts) - 1 && |Nodes(tree) - {node}| == nelts
      ensures Whole(Top, t', min, nelts, Nodes(tree) - {node}) && Heap(t', key)
    {
      var child;
      child, t' := TakeLast();
      RemovedAll(Nodes(tree), node, child);
      nelts := nelts - 1;
      if child == node {
        // heap_remove would set min to NULL here if it still led to child; unlinking has seen to that
        if child == min {
          assert false;
        }
        WholeFromTop(t', nelts, Nodes(tree) - {node});
      } else {
        t' := Replace(node, child, t');
      }
    }

    lemma WholeFromTop(t: HTree, n: nat, all: set<Ptr>)
      requires At(mem, Top, t, min, min) && Complete(t, 1, n) && Nodes(t) == all
      ensures Whole(Top, t, min, n, all)
    {
    }

    lemma RemovedAll(all: set<Ptr>, node: Ptr, child: Ptr)
      requires node in all && child in all
      ensures |all - {node}| == |all| - 1
      ensures child != node ==> all - {child} - {node} + {child} == all - {node}
    {
    }

    /** The first half of heap_remove: the last node, unlinked. */
    method TakeLast() returns (child: Ptr, ghost t': HTree)
      requires Valid() && nelts > 0
      modifies this`min, this`mem
      ensures child in old(Nodes(tree)) && child in mem && child != NULL && child != min
      ensures At(mem, Top, t', min, min) && Heap(t', key) && Complete(t', 1, nelts - 1)
      ensures Nodes(t') == Nodes(tree) - {child}
    {
      var path, k := BitPath(nelts);
      var above, max;
      ghost var c, t;
      above, max, c, t := Follow(path, k, nelts);
      LastSlot(c, t);
      HoleReads(c, t);
      child := Deref(max);
      PlugNodes(c, t);
      UnlinkLast(max, c, t);
      t' := Plug(c, Leaf);
      assert t'.T? ==> min in Nodes(t');
    }

    /** The last slot holds a leaf. */
    lemma LastSlot(c: HCtx, t: HTree)
      requires Complete(tree, 1, nelts) && Plug(c, t) == tree && Slot(c) == nelts
      ensures t.T? && t.l == Leaf && t.r == Leaf
    {
      PlugComplete(c, t, nelts);
    }

    /** `*max = NULL` */
    method UnlinkLast(max: Link, ghost c: HCtx, ghost t: HTree)
      requires At(mem, c, t, Root(t), min) && t.T? && t.l == Leaf && t.r == Leaf && max == HoleLink(c)
      requires Heap(Plug(c, t), key) && Complete(Plug(c, t), 1, nelts) && Slot(c) == nelts
      modifies this`min, this`mem
      ensures At(mem, Top, Plug(c, Leaf), min, min)
      ensures Heap(Plug(c, Leaf), key) && Complete(Plug(c, Leaf), 1, nelts - 1)
      ensures Nodes(Plug(c, Leaf)) == Nodes(Plug(c, t)) - {t.n}
      ensures t.n in mem && t.n != NULL
    {
      ghost var m := mem;
      HoleReads(c, t);
      Down(mem, c, t, Root(t), min);
      Store(max, NULL);
      Relinked(m, mem, c, t.n, old(min), NULL, min);
      assert t.x == ();
      assert t == T(Leaf, t.n, (), Leaf);
      HeapWithoutLeaf(c, t.n, key);
      FillSlot(c, t.n, nelts - 1);
      assert Nodes<()>(Leaf) == {} && Nodes(t) == {t.n} && Disj<()>(Leaf);
      PlugNodes(c, t);
      PlugNodes(c, Leaf);
      PlugAt(mem, c, Leaf, NULL, min);
    }

    /** child, which is in the tree no more, takes the place of node and is sifted down, then up. */
    method Replace(node: Ptr, child: Ptr, ghost t0: HTree) returns (ghost t': HTree)
      requires At(mem, Top, t0, min, min) && Heap(t0, key) && Complete(t0, 1, nelts)
      requires node in Nodes(t0) && child != NULL && child in mem && child !in Nodes(t0)
      modifies this`min, this`mem
      ensures Whole(Top, t', min, nelts, Nodes(t0) - {node} + {child}) && Heap(t', key)
    {
      InOrderNodes(t0);
      ghost var c, t := FindFocus(Top, t0, node);
      UnplugAt(mem, c, t, min, min);
      PlugNodes(c, t);
      PlugComplete(c, t, nelts);
      PlugHeap(c, t, key);
      ReplaceRoot(c, t, child, key);
      TakePlace(node, child, c, t);
      ghost var all := Nodes(t0) - {node} + {child};
      t := T(t.l, child, (), t.r);
      c, t := SiftDown(child, c, t, nelts, all);
      t' := SiftUp(child, c, t, nelts, all);
    }

    /** child gets the links of node, and every link to node is made to lead to child. */
    method TakePlace(node: Ptr, child: Ptr, ghost c: HCtx, ghost t: HTree)
      requires At(mem, c, t, node, min) && t.T? && child != NULL && child in mem && child !in Nodes(t)
      requires child !in CNodes(c)
      modifies this`min, this`mem
      ensures At(mem, c, T(t.l, child, (), t.r), child, min)
    {
      ghost var m := mem;
      Down(mem, c, t, node, min);
      Kids(mem, t, CNode(c));
      LinkFacts(mem, c, t, min);
      mem := mem[child := mem[child].(left := mem[node].left, right := mem[node].right, parent := mem[node].parent)];
      SetParent(mem[child].left, child);
      SetParent(mem[child].right, child);
      if mem[node].parent == NULL {
        min := child;
      } else {
        var up := mem[node].parent;
        if mem[up].left == node {
          mem := mem[up := mem[up].(left := child)];
        } else {
          mem := mem[up := mem[up].(right := child)];
        }
      }
      assert m[node].x == m[child].x;
      SubstitutedAt(m, mem, c, t, child, old(min), min);
    }

    /** heap_dequeue: what is left is no smaller than the node taken out. */
    method Dequeue()
      requires Valid()
      modifies this
      ensures Valid()
      ensures Nodes(tree) == old(Nodes(tree)) - {old(min)} && (old(Nodes(tree)) != {} ==> old(min) in old(Nodes(tree)))
      ensures forall n :: n in Nodes(tree) ==> key(old(min)) <= key(n)
    {
      if tree.T? {
        HeapMin(tree, key, key(tree.n));
        assert tree.n in Nodes(tree);
      }
      Remove(min);
    }

    /**
     * After any sequence of operations the heap holds exactly the nodes the operations leave inside,
     * heap_min has always been a least one of them, and the tree is no higher than log2(nodes) + 1.
     */
    method Run(ops: seq<Op>) returns (mins: seq<Ptr>)
      requires Valid() && Nodes(tree) == {}
      modifies this
      ensures Valid() && MinsRight(ops, mins, key) && Nodes(tree) == Inside(ops, mins)
      ensures Low(Height(tree), |Inside(ops, mins)|)
    {
      var least := Min();
      mins := [least];
      var inside: set<Ptr> := {};
      for i := 0 to |ops|
        invariant Valid() && Nodes(tree) == inside && least == min
        invariant MinsRight(ops[..i], mins, key) && Inside(ops[..i], mins) == inside && least == mins[i]
      {
        least := Perform(ops[i], inside, least);
        OneMore(ops, mins, key, i, least);
        inside := Next(inside, ops[i], mins[i]);
        mins := mins + [least];
      }
      assert ops[..|ops|] == ops;
      LowTree();
    }

    /** The height bound of a heap. */
    lemma LowTree()
      requires Valid()
      ensures Low(Height(tree), |Nodes(tree)|)
    {
      if tree.T? { HeightBound(tree, 1, nelts); }
    }

    /** One operation of a run, and the least node after it. */
    method Perform(op: Op, inside: set<Ptr>, least: Ptr) returns (next: Ptr)
      requires Valid() && Nodes(tree) == inside && least == min
      modifies this
      ensures Valid() && Nodes(tree) == Next(inside, op, least) && next == min && Least(Nodes(tree), next, key)
    {
      match op {
        case Push(n) => if n != NULL && n !in inside && nelts < UINT_MAX { Insert(n); }
        case Drop(n) => if n in inside { Remove(n); }
        case Pop => Dequeue();
      }
      next := Min();
    }
  }
}
