/** What splaying is for: the nodes on the search path end up at about half their depth. */
module SplayDepth {
  import opened Links

  type STree = Tree<()>
  type SCtx = Ctx<()>

  /** The nodes that a search for k visits. */
  function Path(t: STree, k: int, key: Ptr -> int): seq<Ptr> {
    if t.Leaf? then []
    else if k < key(t.n) then [t.n] + Path(t.l, k, key)
    else if k > key(t.n) then [t.n] + Path(t.r, k, key)
    else [t.n]
  }

  /** n stands in t, d links below the root. */
  predicate AtDepth(t: STree, n: Ptr, d: nat) {
    t.T? && if d == 0 then t.n == n else AtDepth(t.l, n, d - 1) || AtDepth(t.r, n, d - 1)
  }

  /** Node i of the path is at most i / 2 + 2 links below the root of t. */
  ghost predicate Halves(path: seq<Ptr>, t: STree) {
    forall i :: 0 <= i < |path| ==> NotDeeper(t, path[i], i)
  }

  ghost predicate NotDeeper(t: STree, n: Ptr, i: nat) { exists d: nat :: AtDepth(t, n, d) && 2 * d <= i + 4 }

  /** What SPLAY_ASSEMBLE puts together. */
  function Assembled(cl: SCtx, t: STree, cr: SCtx): STree
    requires t.T?
  { T(Plug(cl, t.l), t.n, t.x, Plug(cr, t.r)) }

  // ----- contexts -------------------------------------------------------------------------------

  function Frames(c: SCtx): nat {
    match c
    case Top => 0
    case L(up, _, _, _) => 1 + Frames(up)
    case R(_, _, _, up) => 1 + Frames(up)
  }

  /** n stands in c, d links below its root. */
  predicate InFrames(c: SCtx, n: Ptr, d: nat) {
    match c
    case Top => false
    case L(up, m, _, r) =>
      InFrames(up, n, d) || (d == Frames(up) && n == m) || (d > Frames(up) && AtDepth(r, n, d - Frames(up) - 1))
    case R(l, m, _, up) =>
      InFrames(up, n, d) || (d == Frames(up) && n == m) || (d > Frames(up) && AtDepth(l, n, d - Frames(up) - 1))
  }

  lemma {:induction false} PlugDepth(c: SCtx, t: STree, n: Ptr, d: nat)
    ensures AtDepth(t, n, d) ==> AtDepth(Plug(c, t), n, Frames(c) + d)
    ensures InFrames(c, n, d) ==> AtDepth(Plug(c, t), n, d)
    decreases c
  {
    match c
    case Top =>
    case L(up, m, x, r) =>
      PlugDepth(up, T(t, m, x, r), n, d + 1);
      PlugDepth(up, T(t, m, x, r), n, d);
      if InFrames(c, n, d) && !InFrames(up, n, d) { PlugDepth(up, T(t, m, x, r), n, d - Frames(up)); }
    case R(l, m, x, up) =>
      PlugDepth(up, T(l, m, x, t), n, d + 1);
      PlugDepth(up, T(l, m, x, t), n, d);
      if InFrames(c, n, d) && !InFrames(up, n, d) { PlugDepth(up, T(l, m, x, t), n, d - Frames(up)); }
  }

  // ----- one round --------------------------------------------------------------------------------

  /** A round to the left: the trees afterwards, and whether it was the last. */
  predicate LeftRound(t: STree, cr: SCtx, k: int, key: Ptr -> int, stop: bool, t': STree, cr': SCtx) {
    t.T? &&
    if t.l.Leaf? then stop && t' == t && cr' == cr
    else if k < key(t.l.n) then
      var u := RotR(t);
      if u.l.Leaf? then stop && t' == u && cr' == cr else !stop && t' == u.l && cr' == L(cr, u.n, u.x, u.r)
    else !stop && t' == t.l && cr' == L(cr, t.n, t.x, t.r)
  }

  predicate RightRound(t: STree, cl: SCtx, k: int, key: Ptr -> int, stop: bool, t': STree, cl': SCtx) {
    t.T? &&
    if t.r.Leaf? then stop && t' == t && cl' == cl
    else if k > key(t.r.n) then
      var u := RotL(t);
      if u.r.Leaf? then stop && t' == u && cl' == cl else !stop && t' == u.r && cl' == R(u.l, u.n, u.x, cl)
    else !stop && t' == t.r && cl' == R(t.l, t.n, t.x, cl)
  }

  /** Node i of the path stands in c not too deep. */
  ghost predicate Hung(c: SCtx, n: Ptr, i: nat) { exists d: nat :: InFrames(c, n, d) && 2 * d <= i + 2 }

  /**
   * What holds between rounds: of the nodes visited so far each hangs in one of the spines, and
   * the spines have grown by at most every other node.
   */
  ghost predicate Halving(done: seq<Ptr>, cl: SCtx, t: STree, cr: SCtx, k: int, key: Ptr -> int) {
    && t.T?
    && 2 * Frames(cl) <= |done| + (if k <= key(t.n) then 1 else 0)
    && 2 * Frames(cr) <= |done| + (if k >= key(t.n) then 1 else 0)
    && forall i :: 0 <= i < |done| ==> Hung(cl, done[i], i) || Hung(cr, done[i], i)
  }

  lemma StillHung(up: SCtx, c: SCtx, n: Ptr, i: nat)
    requires Hung(up, n, i) && (c.L? || c.R?) && c.up == up
    ensures Hung(c, n, i)
  {
    var d: nat :| InFrames(up, n, d) && 2 * d <= i + 2;
    assert InFrames(c, n, d);
  }

  lemma HungHere(c: SCtx, i: nat)
    requires !c.Top? && 2 * Frames(c.up) <= i + 2
    ensures Hung(c, c.n, i)
  {
    assert InFrames(c, c.n, Frames(c.up));
  }

  /** The node that a rotation has put below the one linked. */
  lemma HungBelow(c: SCtx, n: Ptr, i: nat)
    requires !c.Top? && 2 * Frames(c.up) + 2 <= i + 2 && AtDepth(if c.L? then c.r else c.l, n, 0)
    ensures Hung(c, n, i)
  {
    assert InFrames(c, n, Frames(c.up) + 1);
  }

  /** After a round to the left that was not the last. */
  lemma LeftGoesOn(done: seq<Ptr>, cl: SCtx, t: STree, cr: SCtx, k: int, key: Ptr -> int, t': STree, cr': SCtx)
    returns (done': seq<Ptr>)
    requires Halving(done, cl, t, cr, k, key) && k < key(t.n) && LeftRound(t, cr, k, key, false, t', cr')
    ensures Halving(done', cl, t', cr', k, key)
    ensures done + Path(t, k, key) == done' + Path(t', k, key)
  {
    var j := |done|;
    if k < key(t.l.n) {
      done' := done + [t.n, t.l.n];
      assert [t.n] + ([t.l.n] + Path(t', k, key)) == [t.n, t.l.n] + Path(t', k, key);
      HungBelow(cr', t.n, j);
      HungHere(cr', j + 1);
    } else {
      done' := done + [t.n];
      HungHere(cr', j);
    }
    forall i | 0 <= i < |done'| ensures Hung(cl, done'[i], i) || Hung(cr', done'[i], i) {
      if i < j && Hung(cr, done[i], i) { StillHung(cr, cr', done[i], i); }
    }
  }

  lemma RightGoesOn(done: seq<Ptr>, cl: SCtx, t: STree, cr: SCtx, k: int, key: Ptr -> int, t': STree, cl': SCtx)
    returns (done': seq<Ptr>)
    requires Halving(done, cl, t, cr, k, key) && k > key(t.n) && RightRound(t, cl, k, key, false, t', cl')
    ensures Halving(done', cl', t', cr, k, key)
    ensures done + Path(t, k, key) == done' + Path(t', k, key)
  {
    var j := |done|;
    if k > key(t.r.n) {
      done' := done + [t.n, t.r.n];
      assert [t.n] + ([t.r.n] + Path(t', k, key)) == [t.n, t.r.n] + Path(t', k, key);
      HungBelow(cl', t.n, j);
      HungHere(cl', j + 1);
    } else {
      done' := done + [t.n];
      HungHere(cl', j);
    }
    forall i | 0 <= i < |done'| ensures Hung(cl', done'[i], i) || Hung(cr, done'[i], i) {
      if i < j && Hung(cl, done[i], i) { StillHung(cl, cl', done[i], i); }
    }
  }

  // ----- the end ----------------------------------------------------------------------------------

  lemma InLeftPart(cl: SCtx, t: STree, cr: SCtx, n: Ptr, d: nat)
    requires t.T? && AtDepth(Plug(cl, t.l), n, d)
    ensures AtDepth(Assembled(cl, t, cr), n, d + 1)
  {
  }

  lemma InRightPart(cl: SCtx, t: STree, cr: SCtx, n: Ptr, d: nat)
    requires t.T? && AtDepth(Plug(cr, t.r), n, d)
    ensures AtDepth(Assembled(cl, t, cr), n, d + 1)
  {
  }

  lemma HungIsHalved(cl: SCtx, t: STree, cr: SCtx, n: Ptr, i: nat)
    requires t.T? && (Hung(cl, n, i) || Hung(cr, n, i))
    ensures NotDeeper(Assembled(cl, t, cr), n, i)
  {
    if Hung(cl, n, i) {
      var d: nat :| InFrames(cl, n, d) && 2 * d <= i + 2;
      PlugDepth(cl, t.l, n, d);
      InLeftPart(cl, t, cr, n, d);
    } else {
      var d: nat :| InFrames(cr, n, d) && 2 * d <= i + 2;
      PlugDepth(cr, t.r, n, d);
      InRightPart(cl, t, cr, n, d);
    }
  }

  /** The root of the middle tree, and what hangs below it. */
  lemma RootIsHalved(cl: SCtx, t: STree, cr: SCtx, i: nat)
    requires t.T?
    ensures NotDeeper(Assembled(cl, t, cr), t.n, i)
  {
    assert AtDepth(Assembled(cl, t, cr), t.n, 0);
  }

  /** The search is over at a node that is the root: its path ends there. */
  lemma FoundHalves(done: seq<Ptr>, cl: SCtx, t: STree, cr: SCtx)
    requires t.T? && forall i :: 0 <= i < |done| ==> Hung(cl, done[i], i) || Hung(cr, done[i], i)
    ensures Halves(done + [t.n], Assembled(cl, t, cr))
  {
    var path := done + [t.n];
    forall i | 0 <= i < |path| ensures NotDeeper(Assembled(cl, t, cr), path[i], i) {
      if i < |done| { HungIsHalved(cl, t, cr, done[i], i); } else { RootIsHalved(cl, t, cr, i); }
    }
  }

  /** A last round that has rotated: the former root is below the new one. */
  lemma RotatedHalves(done: seq<Ptr>, y: Ptr, cl: SCtx, t: STree, cr: SCtx)
    requires t.T? && forall i :: 0 <= i < |done| ==> Hung(cl, done[i], i) || Hung(cr, done[i], i)
    requires (AtDepth(t.r, y, 0) && 2 * Frames(cr) <= |done|) || (AtDepth(t.l, y, 0) && 2 * Frames(cl) <= |done|)
    ensures Halves(done + [y, t.n], Assembled(cl, t, cr))
  {
    var path, a := done + [y, t.n], Assembled(cl, t, cr);
    forall i | 0 <= i < |path| ensures NotDeeper(a, path[i], i) {
      if i < |done| {
        HungIsHalved(cl, t, cr, done[i], i);
      } else if i == |done| {
        if AtDepth(t.r, y, 0) && 2 * Frames(cr) <= |done| {
          PlugDepth(cr, t.r, y, 0);
          InRightPart(cl, t, cr, y, Frames(cr));
        } else {
          PlugDepth(cl, t.l, y, 0);
          InLeftPart(cl, t, cr, y, Frames(cl));
        }
      } else {
        RootIsHalved(cl, t, cr, i);
      }
    }
  }

  lemma LeftStops(done: seq<Ptr>, cl: SCtx, t: STree, cr: SCtx, k: int, key: Ptr -> int, t': STree)
    requires Halving(done, cl, t, cr, k, key) && k < key(t.n) && LeftRound(t, cr, k, key, true, t', cr)
    ensures Halves(done + Path(t, k, key), Assembled(cl, t', cr))
  {
    if t.l.Leaf? {
      FoundHalves(done, cl, t, cr);
      assert Path(t, k, key) == [t.n] + [] == [t.n];
    } else {
      assert Path(t.l, k, key) == [t'.n] + [] == [t'.n] && [t.n] + [t'.n] == [t.n, t'.n];
      RotatedHalves(done, t.n, cl, t', cr);
    }
  }

  lemma RightStops(done: seq<Ptr>, cl: SCtx, t: STree, cr: SCtx, k: int, key: Ptr -> int, t': STree)
    requires Halving(done, cl, t, cr, k, key) && k > key(t.n) && RightRound(t, cl, k, key, true, t', cl)
    ensures Halves(done + Path(t, k, key), Assembled(cl, t', cr))
  {
    if t.r.Leaf? {
      FoundHalves(done, cl, t, cr);
      assert Path(t, k, key) == [t.n] + [] == [t.n];
    } else {
      assert Path(t.r, k, key) == [t'.n] + [] == [t'.n] && [t.n] + [t'.n] == [t.n, t'.n];
      RotatedHalves(done, t.n, cl, t', cr);
    }
  }

  // ----- towards the ends ---------------------------------------------------------------------------

  /** The nodes on the way to the first (or last) node. */
  function EdgePath(t: STree, left: bool): seq<Ptr> {
    if t.Leaf? then [] else [t.n] + EdgePath(if left then t.l else t.r, left)
  }

  lemma {:induction false} EdgeIsPath(t: STree, left: bool, k: int, key: Ptr -> int)
    requires forall n :: n in InOrder(t) ==> if left then k < key(n) else key(n) < k
    ensures EdgePath(t, left) == Path(t, k, key)
    decreases t
  {
    if t.T? {
      assert t.n in InOrder(t) && (forall n :: n in InOrder(t.l) || n in InOrder(t.r) ==> n in InOrder(t));
      EdgeIsPath(if left then t.l else t.r, left, k, key);
    }
  }

  lemma HalvingStarts(t: STree, k: int, key: Ptr -> int)
    requires t.T?
    ensures Halving([], Top, t, Top, k, key) && [] + Path(t, k, key) == Path(t, k, key)
  {
  }
}
