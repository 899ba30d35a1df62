/** Complete binary trees and heap order, for deps/libuv/src/heap-inl.h. */
module HeapOrder {
  import opened Links
  import opened Powers

  type HTree = Tree<()>
  type HCtx = Ctx<()>

  // ----- level-order slots ----------------------------------------------------------

  /** The level-order number of the hole of c; the root is slot 1 and the children of s are 2s and 2s + 1. */
  function Slot(c: HCtx): (s: nat)
    ensures s >= 1
    decreases c
  {
    match c
    case Top => 1
    case L(up, _, _, _) => 2 * Slot(up)
    case R(_, _, _, up) => 2 * Slot(up) + 1
  }

  /** In the subtree at slot s exactly the slots up to n are taken. */
  ghost predicate Complete(t: HTree, s: nat, n: nat)
    decreases t
  {
    match t
    case Leaf => s > n
    case T(l, _, _, r) => s <= n && Complete(l, 2 * s, n) && Complete(r, 2 * s + 1, n)
  }

  ghost predicate CComplete(c: HCtx, n: nat)
    decreases c
  {
    match c
    case Top => true
    case L(up, _, _, r) => Slot(up) <= n && Complete(r, 2 * Slot(up) + 1, n) && CComplete(up, n)
    case R(l, _, _, up) => Slot(up) <= n && Complete(l, 2 * Slot(up), n) && CComplete(up, n)
  }

  lemma {:induction false} PlugComplete(c: HCtx, t: HTree, n: nat)
    ensures Complete(Plug(c, t), 1, n) <==> CComplete(c, n) && Complete(t, Slot(c), n)
    decreases c
  {
    match c
    case Top =>
    case L(up, p, x, r) => PlugComplete(up, T(t, p, x, r), n);
    case R(l, p, x, up) => PlugComplete(up, T(l, p, x, t), n);
  }

  /** Slot m is s or lies below it. */
  predicate Under(s: nat, m: nat)
    decreases m
  {
    s == m || (m > s && m > 0 && Under(s, m / 2))
  }

  lemma {:induction false} UnderParent(s: nat, m: nat)
    requires s >= 1 && (Under(2 * s, m) || Under(2 * s + 1, m))
    ensures Under(s, m)
    decreases m
  {
    if m != 2 * s && m != 2 * s + 1 {
      if Under(2 * s, m) { UnderParent(s, m / 2); } else { UnderParent(s, m / 2); }
    } else {
      assert m / 2 == s;
    }
  }

  lemma UnderAtLeast(s: nat, m: nat)
    requires Under(s, m)
    ensures s <= m
    decreases m
  {
  }

  lemma {:induction false} SiblingsDisjoint(s: nat, m: nat)
    requires s >= 1
    ensures !(Under(2 * s, m) && Under(2 * s + 1, m))
    decreases m
  {
    if Under(2 * s, m) && Under(2 * s + 1, m) {
      UnderAtLeast(2 * s + 1, m);
      if m == 2 * s + 1 {
        assert m / 2 == s;
        UnderAtLeast(2 * s, s);
      } else {
        SiblingsDisjoint(s, m / 2);
      }
    }
  }

  /** A subtree that does not contain slot n + 1 does not change when that slot is filled, or emptied. */
  lemma {:induction false} CompleteOther(t: HTree, s: nat, n: nat)
    requires s >= 1 && !Under(s, n + 1)
    ensures Complete(t, s, n) <==> Complete(t, s, n + 1)
    decreases t
  {
    if t.T? {
      if Under(2 * s, n + 1) || Under(2 * s + 1, n + 1) { UnderParent(s, n + 1); }
      CompleteOther(t.l, 2 * s, n);
      CompleteOther(t.r, 2 * s + 1, n);
    }
  }

  lemma UnderUp(c: HCtx, m: nat)
    requires Under(Slot(c), m) && !c.Top?
    ensures Under(Slot(c.up), m)
  {
    UnderParent(Slot(c.up), m);
  }

  /** Nor does the context of that slot. */
  lemma {:induction false} CCompleteOther(c: HCtx, n: nat)
    requires Under(Slot(c), n + 1) && Slot(c) <= n + 1
    ensures CComplete(c, n) <==> CComplete(c, n + 1) && (c.Top? || Slot(c.up) <= n)
    decreases c
  {
    match c
    case Top =>
    case L(up, _, _, r) =>
      UnderUp(c, n + 1);
      SiblingsDisjoint(Slot(up), n + 1);
      CompleteOther(r, 2 * Slot(up) + 1, n);
      CCompleteOther(up, n);
    case R(l, _, _, up) =>
      UnderUp(c, n + 1);
      SiblingsDisjoint(Slot(up), n + 1);
      CompleteOther(l, 2 * Slot(up), n);
      CCompleteOther(up, n);
  }

  /** Filling the first free slot, or emptying the last one taken. */
  lemma FillSlot(c: HCtx, p: Ptr, n: nat)
    requires Slot(c) == n + 1
    ensures Complete(Plug(c, Leaf), 1, n) <==> Complete(Plug(c, T(Leaf, p, (), Leaf)), 1, n + 1)
  {
    PlugComplete(c, Leaf, n);
    PlugComplete(c, T(Leaf, p, (), Leaf), n + 1);
    CCompleteOther(c, n);
    assert Complete(Leaf, 2 * (n + 1), n + 1) && Complete(Leaf, 2 * (n + 1) + 1, n + 1);
  }

  // ----- the bit path ---------------------------------------------------------------

  /** Where a walk from slot s comes to that takes the k low bits of path, lowest first: 0 left, 1 right. */
  function Walk(s: nat, path: nat, k: nat): nat
    decreases k
  {
    if k == 0 then s else Walk(2 * s + path % 2, path / 2, k - 1)
  }

  lemma {:induction false} WalkUnder(s: nat, path: nat, k: nat)
    requires s >= 1
    ensures Under(s, Walk(s, path, k)) && Walk(s, path, k) >= s * Pow2(k)
    decreases k
  {
    if k > 0 {
      var b := path % 2;
      WalkUnder(2 * s + b, path / 2, k - 1);
      UnderParent(s, Walk(s, path, k));
      TimesMonotone(2 * s, 2 * s + b, Pow2(k - 1));
      Doubled(s, Pow2(k - 1));
    }
  }

  lemma Doubled(s: nat, p: nat)
    ensures (2 * s) * p == s * (2 * p)
  {
  }

  /** The bit that halving n drops goes in front of the path. */
  lemma WalkBack(n: nat, path: nat, k: nat)
    requires n >= 2
    ensures Walk(n / 2, 2 * path + n % 2, k + 1) == Walk(n, path, k)
  {
    assert (2 * path + n % 2) % 2 == n % 2 && (2 * path + n % 2) / 2 == path;
    assert 2 * (n / 2) + n % 2 == n;
  }

  // ----- height and size ------------------------------------------------------------

  function Height(t: HTree): nat {
    if t.Leaf? then 0 else 1 + if Height(t.l) > Height(t.r) then Height(t.l) else Height(t.r)
  }

  /** "The height of the tree is at most log2(nodes)": a path of h + 1 nodes needs 2^h of them. */
  lemma {:induction false} HeightBound(t: HTree, s: nat, n: nat)
    requires s >= 1 && t.T? && Complete(t, s, n)
    ensures s * Pow2(Height(t) - 1) <= n
  {
    var u, v := if Height(t.l) > Height(t.r) then t.l else t.r, if Height(t.l) > Height(t.r) then 2 * s else 2 * s + 1;
    if u.T? {
      HeightBound(u, v, n);
      TimesMonotone(2 * s, v, Pow2(Height(u) - 1));
      assert s * Pow2(Height(t) - 1) == (2 * s) * Pow2(Height(u) - 1);
    }
  }

  // ----- heap order -----------------------------------------------------------------

  /** Every key in t is at least that of its parent, and the root's is at least k. */
  ghost predicate HeapFrom(t: HTree, key: Ptr -> int, k: int)
    decreases t
  {
    t.T? ==> k <= key(t.n) && HeapFrom(t.l, key, key(t.n)) && HeapFrom(t.r, key, key(t.n))
  }

  /** A heap, whatever its root. */
  ghost predicate Heap(t: HTree, key: Ptr -> int) { t.T? ==> HeapFrom(t, key, key(t.n)) }

  ghost predicate CHeap(c: HCtx, key: Ptr -> int)
    decreases c
  {
    match c
    case Top => true
    case L(up, n, _, r) => HeapFrom(r, key, key(n)) && CHeap(up, key) && (!up.Top? ==> key(up.n) <= key(n))
    case R(l, n, _, up) => HeapFrom(l, key, key(n)) && CHeap(up, key) && (!up.Top? ==> key(up.n) <= key(n))
  }

  lemma {:induction false} PlugHeap(c: HCtx, t: HTree, key: Ptr -> int)
    ensures Heap(Plug(c, t), key) <==> CHeap(c, key) && Heap(t, key) && (!c.Top? ==> HeapFrom(t, key, key(c.n)))
    decreases c
  {
    match c
    case Top =>
    case L(up, n, x, r) =>
      PlugHeap(up, T(t, n, x, r), key);
      assert HeapFrom(T(t, n, x, r), key, key(n)) <==> HeapFrom(t, key, key(n)) && HeapFrom(r, key, key(n));
      HeapIfFrom(t, key, key(n));
    case R(l, n, x, up) =>
      PlugHeap(up, T(l, n, x, t), key);
      assert HeapFrom(T(l, n, x, t), key, key(n)) <==> HeapFrom(l, key, key(n)) && HeapFrom(t, key, key(n));
      HeapIfFrom(t, key, key(n));
  }

  lemma HeapIfFrom(t: HTree, key: Ptr -> int, k: int)
    ensures HeapFrom(t, key, k) ==> Heap(t, key)
  {
  }

  /** Both subtrees of t fit below the parent of t. */
  ghost predicate KidsBelow(c: HCtx, t: HTree, key: Ptr -> int)
    requires t.T?
  {
    !c.Top? ==> HeapFrom(t.l, key, key(c.n)) && HeapFrom(t.r, key, key(c.n))
  }

  /** The only fault may be that the root of t is smaller than its parent. */
  ghost predicate UpOk(c: HCtx, t: HTree, key: Ptr -> int) {
    t.T? && CHeap(c, key) && Heap(t, key) && KidsBelow(c, t, key)
  }

  /** The root of t may be anything; all else is in order. */
  ghost predicate DownOk(c: HCtx, t: HTree, key: Ptr -> int) {
    t.T? && CHeap(c, key) && Heap(t.l, key) && Heap(t.r, key) && KidsBelow(c, t, key)
  }

  lemma HeapWeaker(t: HTree, key: Ptr -> int, k: int, k': int)
    requires HeapFrom(t, key, k) && k' <= k
    ensures HeapFrom(t, key, k')
  {
  }

  lemma {:induction false} HeapMin(t: HTree, key: Ptr -> int, k: int)
    requires HeapFrom(t, key, k)
    ensures forall n :: n in Nodes(t) ==> k <= key(n)
  {
    if t.T? {
      HeapMin(t.l, key, key(t.n));
      HeapMin(t.r, key, key(t.n));
    }
  }

  /** Swapping the root of t with its parent keeps everything in order but, perhaps, one level up. */
  lemma SwapUp(c: HCtx, t: HTree, key: Ptr -> int)
    requires UpOk(c, t, key) && !c.Top? && key(t.n) < key(c.n)
    ensures var down := T(t.l, c.n, (), t.r);
      UpOk(c.up, T(if c.L? then down else c.l, t.n, (), if c.L? then c.r else down), key)
  {
    var k := key(c.n);
    HeapWeaker(Sibling(c), key, k, key(t.n));
    assert HeapFrom(T(t.l, c.n, (), t.r), key, k);
    HeapWeaker(T(t.l, c.n, (), t.r), key, k, key(t.n));
    if !c.up.Top? {
      HeapWeaker(Sibling(c), key, k, key(c.up.n));
      HeapWeaker(T(t.l, c.n, (), t.r), key, k, key(c.up.n));
    }
  }

  /** Swapping the root of t with its smaller child moves what may be wrong one level down. */
  lemma SwapDownLeft(c: HCtx, t: HTree, key: Ptr -> int)
    requires DownOk(c, t, key) && t.l.T? && key(t.l.n) < key(t.n) && (t.r.T? ==> key(t.l.n) <= key(t.r.n))
    ensures DownOk(L(c, t.l.n, (), t.r), T(t.l.l, t.n, (), t.l.r), key)
  {
    assert HeapFrom(t.l.l, key, key(t.l.n)) && HeapFrom(t.l.r, key, key(t.l.n));
    HeapIfFrom(t.l.l, key, key(t.l.n));
    HeapIfFrom(t.l.r, key, key(t.l.n));
    assert HeapFrom(t.r, key, key(t.l.n));
  }

  lemma SwapDownRight(c: HCtx, t: HTree, key: Ptr -> int)
    requires DownOk(c, t, key) && t.r.T? && key(t.r.n) < key(t.n) && (t.l.T? ==> key(t.r.n) <= key(t.l.n))
    ensures DownOk(R(t.l, t.r.n, (), c), T(t.r.l, t.n, (), t.r.r), key)
  {
    assert HeapFrom(t.r.l, key, key(t.r.n)) && HeapFrom(t.r.r, key, key(t.r.n));
    HeapIfFrom(t.r.l, key, key(t.r.n));
    HeapIfFrom(t.r.r, key, key(t.r.n));
    assert HeapFrom(t.l, key, key(t.r.n));
  }

  /** Any node may stand in for the root of a subtree, as far as the rest is concerned. */
  lemma ReplaceRoot(c: HCtx, t: HTree, e: Ptr, key: Ptr -> int)
    requires t.T? && CHeap(c, key) && Heap(t, key) && (!c.Top? ==> HeapFrom(t, key, key(c.n)))
    ensures DownOk(c, T(t.l, e, (), t.r), key)
  {
    HeapIfFrom(t.l, key, key(t.n));
    HeapIfFrom(t.r, key, key(t.n));
    if !c.Top? {
      HeapWeaker(t.l, key, key(t.n), key(c.n));
      HeapWeaker(t.r, key, key(t.n), key(c.n));
    }
  }

  /** Emptying a leaf keeps heap order. */
  lemma HeapWithoutLeaf(c: HCtx, p: Ptr, key: Ptr -> int)
    requires Heap(Plug(c, T(Leaf, p, (), Leaf)), key)
    ensures Heap(Plug(c, Leaf), key)
  {
    PlugHeap(c, T(Leaf, p, (), Leaf), key);
    PlugHeap(c, Leaf, key);
  }
}
