/** First come, first served: the order in which requests are taken, and that in which they are delivered. */
module ThreadPoolOrder {
  import opened Sequences
  import opened ThreadPool
  import opened ThreadPoolInvariant
  import opened ThreadPoolHistory
  import opened ThreadPoolTheorems

  // ----- two kinds of line, seen by an observer of the log ------------------------------------

  /** Where requests wait: for a worker, or handed back to a loop. */
  datatype Line = ForWorker | AtLoop(l: nat)

  predicate Joins(e: Event, w: Line) {
    match w
    case ForWorker => e.Submitted?
    case AtLoop(l) => e.HandedBack? && e.l == l
  }

  predicate Leaves(e: Event, w: Line) {
    (e.CancelReturns? && e.ok) || (match w case ForWorker => e.Took? case AtLoop(_) => e.Done?)
  }

  function Moved(q: seq<Req>, e: Event, w: Line): seq<Req> {
    if Joins(e, w) then q + [e.r] else if Leaves(e, w) then Without(q, e.r) else q
  }

  /** Who stands in line w after these events. */
  function Waiting(log: seq<Event>, w: Line): seq<Req> {
    if log == [] then [] else Moved(Waiting(log[..|log| - 1], w), log[|log| - 1], w)
  }

  /** The loop that submitted r last, -1 for none. */
  function Home(log: seq<Event>, r: Req): int {
    if log == [] then -1
    else if IsSubmit(log[|log| - 1], r) then log[|log| - 1].l
    else Home(log[..|log| - 1], r)
  }

  predicate First(q: seq<Req>, r: Req) { q != [] && q[0] == r }

  /** Only the first in line is served, nobody joins a line twice, and r goes home. */
  predicate Allowed(log: seq<Event>, e: Event) {
    match e
    case Submitted(r, _) => r !in Waiting(log, ForWorker)
    case Took(r) => First(Waiting(log, ForWorker), r)
    case HandedBack(r, l) => r !in Waiting(log, AtLoop(l)) && Home(log, r) == l
    case Done(r, l, _) => First(Waiting(log, AtLoop(l)), r) && Home(log, r) == l
    case _ => true
  }

  predicate Orderly(log: seq<Event>) {
    log == [] || (Orderly(log[..|log| - 1]) && Allowed(log[..|log| - 1], log[|log| - 1]))
  }

  // ----- the lines of a state -----------------------------------------------------------------

  function Works(wq: seq<Item>): seq<Req> {
    if wq == [] then [] else
      var n := |wq| - 1;
      Works(wq[..n]) + if wq[n].Work? then [wq[n].r] else []
  }

  function Queue(s: State, w: Line): seq<Req> {
    match w
    case ForWorker => Works(s.wq)
    case AtLoop(l) => if l < |s.loops| then s.loops[l].drain + s.loops[l].wq else []
  }

  ghost predicate LinesOk(s: State) { forall w :: Waiting(s.log, w) == Queue(s, w) }

  ghost predicate HomesOk(s: State) {
    forall r :: 0 <= r < |s.reqs| && Pending(s.reqs[r]) ==> Home(s.log, r) == s.reqs[r].loop
  }

  ghost predicate Lined(s: State) { Orderly(s.log) && LinesOk(s) && HomesOk(s) }

  // ----- facts about Works and Without ----------------------------------------------------------

  lemma WorksSnoc(wq: seq<Item>, x: Item)
    ensures Works(wq + [x]) == Works(wq) + if x.Work? then [x.r] else []
  {
    assert (wq + [x])[..|wq|] == wq;
  }

  lemma {:induction false} WorksIn(wq: seq<Item>, r: Req)
    ensures r in Works(wq) <==> Work(r) in wq
    decreases |wq|
  {
    if wq != [] {
      WorksIn(wq[..|wq| - 1], r);
      assert wq == wq[..|wq| - 1] + [wq[|wq| - 1]];
    }
  }

  lemma {:induction false} WorksCons(x: Item, wq: seq<Item>)
    ensures Works([x] + wq) == (if x.Work? then [x.r] else []) + Works(wq)
    decreases |wq|
  {
    if wq == [] {
      assert [x] + wq == [x] && [x][..0] == [];
    } else {
      var n := |wq| - 1;
      assert ([x] + wq)[..n + 1] == [x] + wq[..n];
      WorksCons(x, wq[..n]);
    }
  }

  lemma {:induction false} WorksWithout(wq: seq<Item>, r: Req)
    ensures Works(Without(wq, Work(r))) == Without(Works(wq), r)
    decreases |wq|
  {
    if wq != [] {
      var x, rest := wq[0], wq[1..];
      assert wq == [x] + rest;
      WorksCons(x, rest);
      if x != Work(r) {
        WorksCons(x, Without(rest, Work(r)));
        WorksWithout(rest, r);
        WithoutCons(x, Works(rest), r);
      }
    }
  }

  lemma WithoutCons(x: Item, q: seq<Req>, r: Req)
    requires x != Work(r)
    ensures var h := if x.Work? then [x.r] else []; Without(h + q, r) == h + Without(q, r)
  {
    if x.Work? { assert ([x.r] + q)[1..] == q; } else { assert [] + q == q && [] + Without(q, r) == Without(q, r); }
  }

  lemma {:induction false} WithoutConcat(a: seq<Req>, b: seq<Req>, r: Req)
    requires r in a ==> r !in b
    ensures Without(a + b, r) == Without(a, r) + Without(b, r)
    decreases |a|
  {
    if a == [] {
      assert a + b == b;
    } else {
      assert (a + b)[1..] == a[1..] + b && a == [a[0]] + a[1..];
      if a[0] != r { WithoutConcat(a[1..], b, r); }
    }
  }

  // ----- steps that nobody sees -----------------------------------------------------------------

  /** No request changes its place in any line, or becomes pending. */
  ghost predicate Unmoved(s: State, t: State) {
    && t.log == s.log && (forall w :: Queue(t, w) == Queue(s, w))
    && forall r :: 0 <= r < |t.reqs| && Pending(t.reqs[r]) ==>
         r < |s.reqs| && Pending(s.reqs[r]) && t.reqs[r].loop == s.reqs[r].loop
  }

  lemma UnmovedLined(s: State, t: State)
    requires Lined(s) && Unmoved(s, t)
    ensures Lined(t)
  {
  }

  lemma SilentWorkerUnmoved(s: State, step: Step)
    requires Enabled(s, step) && !Visible(step) && IsWorkerStep(step)
    ensures Unmoved(s, Apply(s, step))
  {
  }

  lemma SilentCleanerUnmoved(s: State, step: Step)
    requires Enabled(s, step) && IsCleanerStep(step)
    ensures Unmoved(s, Apply(s, step))
  {
    WorksSnoc(s.wq, Exit);
  }

  /** The lines depend on the queues alone. */
  lemma QueuesUnmoved(s: State, t: State)
    requires t.log == s.log && t.wq == s.wq && |t.loops| == |s.loops| && t.reqs == s.reqs
    requires forall k: nat :: k < |s.loops| ==> t.loops[k].wq == s.loops[k].wq && t.loops[k].drain == s.loops[k].drain
    ensures Unmoved(s, t)
  {
  }

  lemma SilentLoopUnmoved(s: State, step: Step)
    requires Enabled(s, step) && LoopControl(step)
    ensures Unmoved(s, Apply(s, step))
  {
    QueuesUnmoved(s, Apply(s, step));
  }

  lemma CallUnmoved(s: State, step: Step)
    requires Enabled(s, step) && (step.CallSubmit? || step.LCancelMark?)
    ensures Unmoved(s, Apply(s, step))
  {
  }

  lemma DrainUnmoved(s: State, l: nat)
    requires Enabled(s, LDrainMove(l)) && LoopOk(s, l)
    ensures Unmoved(s, Apply(s, LDrainMove(l)))
  {
    assert [] + s.loops[l].wq == s.loops[l].wq + [];
  }

  lemma SilentUnmoved(s: State, step: Step)
    requires LoopsOk(s) && Enabled(s, step) && !Visible(step)
    ensures Unmoved(s, Apply(s, step))
  {
    if IsWorkerStep(step) { SilentWorkerUnmoved(s, step); }
    else if IsCleanerStep(step) { SilentCleanerUnmoved(s, step); }
    else if LoopControl(step) { SilentLoopUnmoved(s, step); }
    else if step.LDrainMove? { DrainUnmoved(s, step.l); }
    else { CallUnmoved(s, step); }
  }

  // ----- steps that are seen ----------------------------------------------------------------------

  ghost predicate LinesMove(s: State, t: State, e: Event) {
    t.log == s.log + [e] && forall w :: Queue(t, w) == Moved(Queue(s, w), e, w)
  }

  ghost predicate HomesMove(s: State, t: State, e: Event) {
    forall r :: 0 <= r < |t.reqs| && Pending(t.reqs[r]) ==>
      if IsSubmit(e, r) then t.reqs[r].loop == e.l
      else r < |s.reqs| && Pending(s.reqs[r]) && t.reqs[r].loop == s.reqs[r].loop
  }

  /** From s to t one event is appended, and every line moves as it says. */
  ghost predicate Moves(s: State, t: State, e: Event) { LinesMove(s, t, e) && HomesMove(s, t, e) }

  /** All that happens to the lines happens at loop l. */
  lemma OneLoopMoves(s: State, t: State, e: Event, l: nat)
    requires t.log == s.log + [e] && t.wq == s.wq && l < |s.loops| == |t.loops|
    requires forall k: nat :: k < |s.loops| && k != l ==> t.loops[k] == s.loops[k]
    requires Queue(t, AtLoop(l)) == Moved(Queue(s, AtLoop(l)), e, AtLoop(l))
    requires e.HandedBack? && e.l == l
    ensures LinesMove(s, t, e)
  {
  }

  lemma DoneLine(s: State, t: State, e: Event, l: nat, w: Line)
    requires t.wq == s.wq && l < |s.loops| == |t.loops|
    requires forall k: nat :: k < |s.loops| && k != l ==> t.loops[k] == s.loops[k]
    requires Queue(t, AtLoop(l)) == Moved(Queue(s, AtLoop(l)), e, AtLoop(l))
    requires e.Done? && e.l == l && (w.AtLoop? && w.l != l ==> e.r !in Queue(s, w))
    ensures Queue(t, w) == Moved(Queue(s, w), e, w)
  {
    match w
    case ForWorker =>
    case AtLoop(k) => if k != l { assert Without(Queue(s, w), e.r) == Queue(s, w); }
  }

  /** An event that concerns no line. */
  lemma QuietLines(s: State, t: State, e: Event)
    requires t.log == s.log + [e] && t.wq == s.wq && |t.loops| == |s.loops|
    requires forall k: nat :: k < |s.loops| ==> t.loops[k].wq == s.loops[k].wq && t.loops[k].drain == s.loops[k].drain
    requires e.CancelReturns? && !e.ok
    ensures LinesMove(s, t, e)
  {
    forall w ensures Queue(t, w) == Moved(Queue(s, w), e, w) { assert Moved(Queue(s, w), e, w) == Queue(s, w); }
  }

  lemma MovesLined(s: State, t: State, e: Event)
    requires Lined(s) && Moves(s, t, e) && Allowed(s.log, e)
    ensures Lined(t)
  {
    assert t.log[..|s.log|] == s.log;
  }

  lemma PostLines(s: State, t: State, r: Req, l: nat)
    requires t.log == s.log + [Submitted(r, l)] && t.wq == s.wq + [Work(r)] && |t.loops| == |s.loops|
    requires forall k: nat :: k < |s.loops| ==> t.loops[k].wq == s.loops[k].wq && t.loops[k].drain == s.loops[k].drain
    ensures LinesMove(s, t, Submitted(r, l))
  {
    WorksSnoc(s.wq, Work(r));
  }

  lemma PostEffect(s: State, step: Step)
    requires Enabled(s, step) && step.LPost? && ReqOk(s, s.loops[step.l].pc.r)
    requires PlaceIs(s, s.loops[step.l].pc.r, Posting(step.l))
    ensures Moves(s, Apply(s, step), Submitted(s.loops[step.l].pc.r, step.l))
  {
    PostLines(s, Apply(s, step), s.loops[step.l].pc.r, step.l);
  }

  lemma PostMoves(s: State, step: Step)
    requires Inv(s) && Lined(s) && Enabled(s, step) && step.LPost?
    ensures Lined(Apply(s, step))
  {
    var r := s.loops[step.l].pc.r;
    assert LoopOk(s, step.l) && ReqOk(s, r);
    PostEffect(s, step);
    WorksIn(s.wq, r);
    assert Waiting(s.log, ForWorker) == Queue(s, ForWorker);
    NotQueued(s, r);
    MovesLined(s, Apply(s, step), Submitted(r, step.l));
  }

  lemma NotQueued(s: State, r: Req)
    requires GlobalOk(s) && r < |s.reqs| && s.reqs[r].place != Queued
    ensures Work(r) !in s.wq
  {
  }

  lemma TakeLines(s: State, t: State, r: Req)
    requires s.wq != [] && s.wq[0] == Work(r) && t.wq == s.wq[1..] && t.loops == s.loops && t.log == s.log + [Took(r)]
    ensures LinesMove(s, t, Took(r)) && First(Works(s.wq), r)
  {
    var rest := s.wq[1..];
    assert s.wq == [Work(r)] + rest;
    WorksCons(Work(r), rest);
    assert Works(s.wq)[1..] == Works(rest);
  }

  lemma TakeMoves(s: State, step: Step)
    requires Inv(s) && Lined(s) && Enabled(s, step) && step.WTake?
    ensures Lined(Apply(s, step))
  {
    var r := s.wq[0].r;
    TakeLines(s, Apply(s, step), r);
    assert Waiting(s.log, ForWorker) == Queue(s, ForWorker);
    assert PlaceIs(s, r, Queued);
    MovesLined(s, Apply(s, step), Took(r));
  }

  lemma RunMoves(s: State, step: Step)
    requires Lined(s) && Enabled(s, step) && step.WRun?
    ensures Lined(Apply(s, step))
  {
    MovesLined(s, Apply(s, step), Ran(s.workers[step.i].r));
  }

  lemma NotAtLoop(s: State, r: Req, l: nat)
    requires LoopsOk(s) && r < |s.reqs| && s.reqs[r].place != Finished(l) && s.reqs[r].place != Draining(l)
    ensures r !in Queue(s, AtLoop(l))
  {
    if l < |s.loops| { assert LoopOk(s, l); }
  }

  lemma HandBackEffect(s: State, step: Step)
    requires Enabled(s, step) && step.WHandBack? && PlaceIs(s, s.workers[step.i].r, AtWorker(step.i))
    ensures var r := s.workers[step.i].r; Moves(s, Apply(s, step), HandedBack(r, s.reqs[r].loop))
  {
    var r := s.workers[step.i].r;
    var l := s.reqs[r].loop;
    Assoc(s.loops[l].drain, s.loops[l].wq, [r]);
    OneLoopMoves(s, Apply(s, step), HandedBack(r, l), l);
  }

  lemma HandBackMoves(s: State, step: Step)
    requires Inv(s) && Lined(s) && Enabled(s, step) && step.WHandBack?
    ensures Lined(Apply(s, step))
  {
    var r := s.workers[step.i].r;
    var l := s.reqs[r].loop;
    assert WorkerOk(s, step.i);
    HandBackEffect(s, step);
    NotAtLoop(s, r, l);
    assert Waiting(s.log, AtLoop(l)) == Queue(s, AtLoop(l));
    MovesLined(s, Apply(s, step), HandedBack(r, l));
  }

  lemma InsertEffect(s: State, step: Step)
    requires Enabled(s, step) && step.LCancelInsert? && PlaceIs(s, s.loops[step.l].pc.r, Cancelling(step.l))
    ensures Moves(s, Apply(s, step), HandedBack(s.loops[step.l].pc.r, step.l))
  {
    var l := step.l;
    Assoc(s.loops[l].drain, s.loops[l].wq, [s.loops[l].pc.r]);
    OneLoopMoves(s, Apply(s, step), HandedBack(s.loops[l].pc.r, l), l);
  }

  lemma InsertMoves(s: State, step: Step)
    requires Inv(s) && Lined(s) && Enabled(s, step) && step.LCancelInsert?
    ensures Lined(Apply(s, step))
  {
    var l, r := step.l, s.loops[step.l].pc.r;
    assert LoopOk(s, l) && ReqOk(s, r);
    InsertEffect(s, step);
    NotAtLoop(s, r, l);
    assert Waiting(s.log, AtLoop(l)) == Queue(s, AtLoop(l));
    MovesLined(s, Apply(s, step), HandedBack(r, l));
  }

  lemma DoneEffect(s: State, step: Step)
    requires LoopsOk(s) && Enabled(s, step) && step.LDone?
    ensures var r := s.loops[step.l].drain[0];
      Moves(s, Apply(s, step), Done(r, step.l, if s.reqs[r].fn == CancelledFn then Canceled else Ok))
  {
    var lp, r := s.loops[step.l], s.loops[step.l].drain[0];
    var t, e := Apply(s, step), Done(r, step.l, if s.reqs[r].fn == CancelledFn then Canceled else Ok);
    assert LoopOk(s, step.l);
    assert PlaceIs(s, r, Draining(step.l));
    assert (lp.drain + lp.wq)[1..] == lp.drain[1..] + lp.wq;
    forall w ensures Queue(t, w) == Moved(Queue(s, w), e, w) {
      if w.AtLoop? && w.l != step.l { NotAtLoop(s, r, w.l); }
      DoneLine(s, t, e, step.l, w);
    }
  }

  lemma DoneMoves(s: State, step: Step)
    requires Inv(s) && Lined(s) && Enabled(s, step) && step.LDone?
    ensures Lined(Apply(s, step))
  {
    var l, r := step.l, s.loops[step.l].drain[0];
    assert LoopOk(s, l) && ReqOk(s, r);
    assert PlaceIs(s, r, Draining(l));
    DoneEffect(s, step);
    assert Waiting(s.log, AtLoop(l)) == Queue(s, AtLoop(l));
    MovesLined(s, Apply(s, step), Done(r, l, if s.reqs[r].fn == CancelledFn then Canceled else Ok));
  }

  lemma MissMoves(s: State, l: nat)
    requires Lined(s) && Enabled(s, LCancelTest(l)) && !Cancellable(s.reqs[s.loops[l].pc.r])
    ensures Lined(Apply(s, LCancelTest(l)))
  {
    QuietLines(s, Apply(s, LCancelTest(l)), CancelReturns(s.loops[l].pc.r, false));
    MovesLined(s, Apply(s, LCancelTest(l)), CancelReturns(s.loops[l].pc.r, false));
  }

  lemma HitEffect(s: State, l: nat)
    requires Enabled(s, LCancelTest(l)) && Pending(s.reqs[s.loops[l].pc.r])
    requires s.loops[l].pc.r in s.loops[l].drain ==> s.loops[l].pc.r !in s.loops[l].wq
    requires forall k: nat :: k != l ==> s.loops[l].pc.r !in Queue(s, AtLoop(k))
    ensures Moves(s, AfterUnlink(s, l), CancelReturns(s.loops[l].pc.r, true))
  {
    var t, r := AfterUnlink(s, l), s.loops[l].pc.r;
    forall w ensures Queue(t, w) == Moved(Queue(s, w), CancelReturns(r, true), w) { HitLine(s, l, w); }
  }

  lemma HitLine(s: State, l: nat, w: Line)
    requires Enabled(s, LCancelTest(l))
    requires s.loops[l].pc.r in s.loops[l].drain ==> s.loops[l].pc.r !in s.loops[l].wq
    requires forall k: nat :: k != l ==> s.loops[l].pc.r !in Queue(s, AtLoop(k))
    ensures Queue(AfterUnlink(s, l), w) == Without(Queue(s, w), s.loops[l].pc.r)
  {
    match w
    case ForWorker => WorksWithout(s.wq, s.loops[l].pc.r);
    case AtLoop(k) => if k == l { WithoutConcat(s.loops[l].drain, s.loops[l].wq, s.loops[l].pc.r); }
  }

  lemma HitMoves(s: State, l: nat)
    requires Inv(s) && Lined(s) && Enabled(s, LCancelTest(l)) && Cancellable(s.reqs[s.loops[l].pc.r])
    ensures Lined(Apply(s, LCancelTest(l)))
  {
    var lp, r := s.loops[l], s.loops[l].pc.r;
    CancelTestState(s, l);
    assert LoopOk(s, l) && ReqOk(s, r);
    forall k: nat | k != l ensures r !in Queue(s, AtLoop(k)) { NotAtLoop(s, r, k); }
    if r in lp.drain { assert PlaceIs(s, r, Draining(l)); assert r !in lp.wq; }
    HitEffect(s, l);
    MovesLined(s, AfterUnlink(s, l), CancelReturns(r, true));
  }

  lemma StepLined(s: State, step: Step)
    requires Inv(s) && Lined(s) && Enabled(s, step)
    ensures Lined(Apply(s, step))
  {
    if !Visible(step) {
      SilentUnmoved(s, step);
      UnmovedLined(s, Apply(s, step));
    }
    else if step.WTake? { TakeMoves(s, step); }
    else if step.WRun? { RunMoves(s, step); }
    else if step.WHandBack? { HandBackMoves(s, step); }
    else if step.LPost? { PostMoves(s, step); }
    else if step.LCancelInsert? { InsertMoves(s, step); }
    else if step.LDone? { DoneMoves(s, step); }
    else if Cancellable(s.reqs[s.loops[step.l].pc.r]) { HitMoves(s, step.l); }
    else { MissMoves(s, step.l); }
  }

  lemma {:induction false} RunLined(s: State, run: seq<Step>, t: State)
    requires Good(s) && Lined(s) && Leads(s, run, t)
    ensures Lined(t)
    decreases |run|
  {
    if run != [] {
      StepGood(s, run[0]);
      StepLined(s, run[0]);
      RunLined(Apply(s, run[0]), run[1..], t);
    }
  }

  lemma ReachableLined(t: State)
    requires Reachable(t)
    ensures Lined(t)
  {
    var s, run :| Init(s) && Leads(s, run, t);
    InitGood(s);
    RunLined(s, run, t);
  }

  // ----- who comes first is served first ----------------------------------------------------------

  lemma WaitingNext(log: seq<Event>, n: nat, w: Line)
    requires n < |log|
    ensures Waiting(log[..n + 1], w) == Moved(Waiting(log[..n], w), log[n], w)
  {
    assert log[..n + 1][..n] == log[..n];
  }

  lemma {:induction false} OrderlyAt(log: seq<Event>, n: nat)
    requires Orderly(log) && n < |log|
    ensures Allowed(log[..n], log[n])
    decreases |log|
  {
    if n < |log| - 1 {
      OrderlyAt(log[..|log| - 1], n);
      assert log[..|log| - 1][..n] == log[..n];
    }
  }

  /** a stands in the line and b does not stand before it. */
  ghost predicate Ahead(q: seq<Req>, a: Req, b: Req) {
    exists x :: 0 <= x < |q| && q[x] == a && b !in q[..x]
  }

  lemma {:induction false} WithoutSplit(u: seq<Req>, v: seq<Req>, c: Req)
    ensures Without(u + v, c) == if c in u then Without(u, c) + v else u + Without(v, c)
    decreases |u|
  {
    if u == [] {
      assert u + v == v;
    } else {
      assert (u + v)[1..] == u[1..] + v && u == [u[0]] + u[1..];
      if u[0] != c {
        WithoutSplit(u[1..], v, c);
        Assoc([u[0]], u[1..], Without(v, c));
        Assoc([u[0]], Without(u[1..], c), v);
      }
    }
  }

  lemma {:induction false} WithoutIn(q: seq<Req>, c: Req, y: Req)
    requires y in Without(q, c)
    ensures y in q
    decreases |q|
  {
    assert q == [q[0]] + q[1..];
    if q[0] != c && y != q[0] { WithoutIn(q[1..], c, y); }
  }

  lemma SplitAhead(u: seq<Req>, v: seq<Req>, a: Req, b: Req)
    requires b !in u
    ensures Ahead(u + ([a] + v), a, b)
  {
    var q := u + ([a] + v);
    assert q[|u|] == a && q[..|u|] == u;
  }

  lemma WithoutKeeps(q: seq<Req>, a: Req, b: Req, c: Req)
    requires Ahead(q, a, b) && c != a
    ensures Ahead(Without(q, c), a, b)
  {
    var x :| 0 <= x < |q| && q[x] == a && b !in q[..x];
    var u, v := q[..x], q[x + 1..];
    assert q == u + ([a] + v);
    WithoutSplit(u, [a] + v, c);
    WithoutSplit([a], v, c);
    if c in u {
      if b in Without(u, c) { WithoutIn(u, c, b); }
      SplitAhead(Without(u, c), v, a, b);
    } else {
      SplitAhead(u, Without(v, c), a, b);
    }
  }

  /** Between its arrival and its departure a stays ahead of whoever comes later. */
  lemma {:induction false} StaysAhead(log: seq<Event>, w: Line, j: nat, n: nat, a: Req, b: Req)
    requires j <= n <= |log| && Ahead(Waiting(log[..j], w), a, b)
    requires forall m :: j <= m < n ==> !(Leaves(log[m], w) && log[m].r == a)
    ensures Ahead(Waiting(log[..n], w), a, b)
    decreases n - j
  {
    if j < n {
      StaysAhead(log, w, j, n - 1, a, b);
      WaitingNext(log, n - 1, w);
      OneMoreMove(Waiting(log[..n - 1], w), log[n - 1], w, a, b);
    }
  }

  lemma OneMoreMove(q: seq<Req>, e: Event, w: Line, a: Req, b: Req)
    requires Ahead(q, a, b) && !(Leaves(e, w) && e.r == a)
    ensures Ahead(Moved(q, e, w), a, b)
  {
    if Joins(e, w) {
      var x :| 0 <= x < |q| && q[x] == a && b !in q[..x];
      assert (q + [e.r])[x] == a && (q + [e.r])[..x] == q[..x];
    } else if Leaves(e, w) {
      WithoutKeeps(q, a, b, e.r);
    }
  }

  lemma {:induction false} StaysIn(log: seq<Event>, w: Line, i: nat, n: nat, a: Req)
    requires i < n <= |log| && Joins(log[i], w) && log[i].r == a
    requires forall m :: i < m < n ==> !(Leaves(log[m], w) && log[m].r == a)
    ensures a in Waiting(log[..n], w)
    decreases n - i
  {
    WaitingNext(log, n - 1, w);
    if i < n - 1 {
      StaysIn(log, w, i, n - 1, a);
      var q, e := Waiting(log[..n - 1], w), log[n - 1];
      if Leaves(e, w) && !Joins(e, w) { WithoutOther(q, a, e.r); }
    }
  }

  lemma {:induction false} WithoutOther(q: seq<Req>, a: Req, c: Req)
    requires a in q && a != c
    ensures a in Without(q, c)
    decreases |q|
  {
    assert q == [q[0]] + q[1..];
    if q[0] != c && q[0] != a { WithoutOther(q[1..], a, c); }
  }

  lemma JoinsBehind(q: seq<Req>, a: Req, b: Req)
    requires a in q && b !in q
    ensures Ahead(q + [b], a, b)
  {
    var x :| 0 <= x < |q| && q[x] == a;
    assert (q + [b])[x] == a && (q + [b])[..x] == q[..x];
    assert forall y :: y in q[..x] ==> y in q;
  }

  lemma NotFirst(q: seq<Req>, a: Req, b: Req)
    requires Ahead(q, a, b) && a != b
    ensures !First(q, b)
  {
    var x :| 0 <= x < |q| && q[x] == a && b !in q[..x];
    if x > 0 { assert q[0] in q[..x]; }
  }

  /** Being served means leaving a line from its front. */
  predicate Serves(e: Event, w: Line) {
    match w
    case ForWorker => e.Took?
    case AtLoop(l) => e.Done? && e.l == l
  }

  /** If a joined before b and b is served, then a has left in between. */
  lemma LineOrder(log: seq<Event>, w: Line, i: nat, j: nat, k: nat)
    requires Orderly(log) && i < j < k < |log| && Joins(log[i], w) && Joins(log[j], w) && Serves(log[k], w)
    requires log[k].r == log[j].r != log[i].r
    ensures exists m :: i < m < k && Leaves(log[m], w) && log[m].r == log[i].r
  {
    var a, b := log[i].r, log[j].r;
    if forall m :: i < m < k ==> !(Leaves(log[m], w) && log[m].r == a) {
      StaysIn(log, w, i, j, a);
      OrderlyAt(log, j);
      WaitingNext(log, j, w);
      JoinsBehind(Waiting(log[..j], w), a, b);
      StaysAhead(log, w, j + 1, k, a, b);
      OrderlyAt(log, k);
      NotFirst(Waiting(log[..k], w), a, b);
    }
  }

  /**
   * Requests are taken in the order of their submission: if a was submitted before b, and not
   * again since, then b is taken only after a has been taken or cancelled.
   */
  lemma TakenInOrder(s: State, a: Req, b: Req, i: nat, j: nat, k: nat)
    requires Reachable(s) && i < j < k < |s.log|
    requires IsSubmit(s.log[i], a) && IsSubmit(s.log[j], b) && s.log[k] == Took(b)
    requires forall x :: i < x < k ==> !IsSubmit(s.log[x], a)
    ensures exists m :: i < m < k && (s.log[m] == Took(a) || s.log[m] == CancelReturns(a, true))
  {
    ReachableLined(s);
    LineOrder(s.log, ForWorker, i, j, k);
    var m :| i < m < k && Leaves(s.log[m], ForWorker) && s.log[m].r == a;
    assert s.log[m] == Took(a) || s.log[m] == CancelReturns(a, true);
  }

  /**
   * Requests are delivered in the order in which they were handed back to the loop: if a was
   * handed back before b, and not again since, then b's done callback is called only after a's,
   * or after a has been cancelled, which takes it out of the line.
   */
  lemma DeliveredInOrder(s: State, a: Req, b: Req, l: nat, i: nat, j: nat, k: nat)
    requires Reachable(s) && i < j < k < |s.log|
    requires s.log[i] == HandedBack(a, l) && s.log[j] == HandedBack(b, l) && IsDone(s.log[k], b) && s.log[k].l == l
    requires forall x :: i < x < k ==> s.log[x] != HandedBack(a, l)
    ensures exists m :: i < m < k && (IsDone(s.log[m], a) || s.log[m] == CancelReturns(a, true))
  {
    ReachableLined(s);
    LineOrder(s.log, AtLoop(l), i, j, k);
    var m :| i < m < k && Leaves(s.log[m], AtLoop(l)) && s.log[m].r == a;
    assert IsDone(s.log[m], a) || s.log[m] == CancelReturns(a, true);
  }

  lemma {:induction false} HomeIsLast(log: seq<Event>, r: Req, i: nat, n: nat)
    requires i < n <= |log| && IsSubmit(log[i], r) && forall k :: i < k < n ==> !IsSubmit(log[k], r)
    ensures Home(log[..n], r) == log[i].l
    decreases n
  {
    assert log[..n][..n - 1] == log[..n - 1];
    if i < n - 1 { HomeIsLast(log, r, i, n - 1); }
  }

  /** A request is handed back to the loop that submitted it, and delivered there, from the line. */
  lemma DeliveredAtHome(s: State, r: Req, i: nat, k: nat)
    requires Reachable(s) && i < k < |s.log| && IsSubmit(s.log[i], r)
    requires forall x :: i < x < k ==> !IsSubmit(s.log[x], r)
    requires s.log[k].r == r && (s.log[k].Done? || s.log[k].HandedBack?)
    ensures s.log[k].l == s.log[i].l
  {
    ReachableLined(s);
    OrderlyAt(s.log, k);
    HomeIsLast(s.log, r, i, k);
  }
}
