/** What an observer of the event log sees of one request: the pool refines this automaton. */
module ThreadPoolHistory {
  import opened ThreadPool
  import opened ThreadPoolInvariant

  datatype Phase =
    | Fresh       // never submitted, or delivered
    | InQueue     // submitted
    | Committed   // a worker has taken it
    | HasRun      // its work function has been entered
    | Withdrawn   // a cancel has returned 0
    | Bad         // something happened that must not

  function Advance(p: Phase, r: Req, e: Event): Phase {
    if e.r != r then p
    else match e
      case Submitted(_, _) => if p == Fresh then InQueue else Bad
      case Took(_) => if p == InQueue then Committed else Bad
      case Ran(_) => if p == Committed then HasRun else Bad
      case CancelReturns(_, ok) =>
        if ok && (p == InQueue || p == Withdrawn) then Withdrawn
        else if !ok && (p == Committed || p == HasRun) then p
        else Bad
      case HandedBack(_, _) => if p == HasRun || p == Withdrawn then p else Bad
      case Done(_, _, status) =>
        if (p == HasRun && status == Ok) || (p == Withdrawn && status == Canceled) then Fresh else Bad
  }

  function Replay(log: seq<Event>, r: Req): Phase {
    if log == [] then Fresh
    else Advance(Replay(log[..|log| - 1], r), r, log[|log| - 1])
  }

  lemma ReplayAppend(log: seq<Event>, e: Event, r: Req)
    ensures Replay(log + [e], r) == Advance(Replay(log, r), r, e)
  {
    assert (log + [e])[..|log|] == log;
  }

  /** The phase the state itself implies for a request. */
  ghost function PhaseOf(s: State, r: Req): Phase
    requires r < |s.reqs|
  {
    match s.reqs[r].place
    case Outside => Fresh
    case Posting(_) => Fresh
    case Queued => InQueue
    case AtWorker(i) =>
      if i < |s.workers| && (s.workers[i].Taken? || s.workers[i].Ready?) then Committed else HasRun
    case Cancelling(_) => Withdrawn
    case Finished(_) => if s.reqs[r].fn == Null then HasRun else Withdrawn
    case Draining(_) => if s.reqs[r].fn == Null then HasRun else Withdrawn
  }

  ghost predicate HistoryOk(s: State) {
    forall r :: 0 <= r < |s.reqs| ==> Replay(s.log, r) == PhaseOf(s, r)
  }

  predicate Visible(step: Step) {
    step.WTake? || step.WRun? || step.WHandBack?
    || step.LPost? || step.LCancelTest? || step.LCancelInsert? || step.LDone?
  }

  lemma SilentWorkerStep(s: State, step: Step, r: Req)
    requires Inv(s) && Enabled(s, step) && !Visible(step) && IsWorkerStep(step) && r < |s.reqs|
    ensures Apply(s, step).log == s.log && PhaseOf(Apply(s, step), r) == PhaseOf(s, r)
  {
    if WorkerControl(step) { SilentControlStep(s, step, r); }
  }

  lemma SilentControlStep(s: State, step: Step, r: Req)
    requires r < |s.reqs| && ReqOk(s, r) && Enabled(s, step) && !Visible(step) && WorkerControl(step)
    ensures Apply(s, step).log == s.log && PhaseOf(Apply(s, step), r) == PhaseOf(s, r)
  {
  }

  lemma SilentOtherStep(s: State, step: Step, r: Req)
    requires Inv(s) && Enabled(s, step) && !Visible(step) && !IsWorkerStep(step) && r < |s.reqs|
    ensures Apply(s, step).log == s.log && PhaseOf(Apply(s, step), r) == PhaseOf(s, r)
  {
    if IsCleanerStep(step) { SilentCleanerStep(s, step, r); }
    else if LoopControl(step) { SilentLoopStep(s, step, r); }
  }

  lemma SilentCleanerStep(s: State, step: Step, r: Req)
    requires Enabled(s, step) && IsCleanerStep(step) && r < |s.reqs|
    ensures Apply(s, step).log == s.log && PhaseOf(Apply(s, step), r) == PhaseOf(s, r)
  {
  }

  lemma SilentLoopStep(s: State, step: Step, r: Req)
    requires Enabled(s, step) && LoopControl(step) && r < |s.reqs|
    ensures Apply(s, step).log == s.log && PhaseOf(Apply(s, step), r) == PhaseOf(s, r)
  {
  }

  /** From s to t one event is appended, and the phase of r follows the automaton. */
  ghost predicate Follows(s: State, t: State, r: Req, e: Event) {
    && r < |s.reqs| == |t.reqs| && t.log == s.log + [e]
    && PhaseOf(t, r) == Advance(PhaseOf(s, r), r, e)
  }

  /** A visible step appends one event, and every request's phase follows the automaton. */
  lemma VisibleWorkerStep(s: State, step: Step, r: Req)
    requires Inv(s) && Enabled(s, step) && (step.WTake? || step.WRun?) && r < |s.reqs|
    ensures exists e :: Follows(s, Apply(s, step), r, e)
  {
    var e := if step.WTake? then Took(s.wq[0].r) else Ran(s.workers[step.i].r);
    assert Follows(s, Apply(s, step), r, e);
  }

  lemma VisiblePost(s: State, step: Step, r: Req)
    requires Inv(s) && Enabled(s, step) && step.LPost? && r < |s.reqs|
    ensures exists e :: Follows(s, Apply(s, step), r, e)
  {
    assert LoopOk(s, step.l);
    assert Follows(s, Apply(s, step), r, Submitted(s.loops[step.l].pc.r, step.l));
  }

  lemma VisibleHandBack(s: State, step: Step, r: Req)
    requires Inv(s) && Enabled(s, step) && step.WHandBack? && r < |s.reqs|
    ensures exists e :: Follows(s, Apply(s, step), r, e)
  {
    var q := s.workers[step.i].r;
    assert WorkerOk(s, step.i) && ReqOk(s, q);
    assert Follows(s, Apply(s, step), r, HandedBack(q, s.reqs[q].loop));
  }

  lemma VisibleInsert(s: State, step: Step, r: Req)
    requires Inv(s) && Enabled(s, step) && step.LCancelInsert? && r < |s.reqs|
    ensures exists e :: Follows(s, Apply(s, step), r, e)
  {
    assert LoopOk(s, step.l);
    assert Follows(s, Apply(s, step), r, HandedBack(s.loops[step.l].pc.r, step.l));
  }

  lemma VisibleDone(s: State, step: Step, r: Req)
    requires Inv(s) && Enabled(s, step) && step.LDone? && r < |s.reqs|
    ensures exists e :: Follows(s, Apply(s, step), r, e)
  {
    var d := s.loops[step.l].drain[0];
    assert LoopOk(s, step.l) && ReqOk(s, d);
    assert Follows(s, Apply(s, step), r, Done(d, step.l, if s.reqs[d].fn == CancelledFn then Canceled else Ok));
  }

  lemma VisibleCancel(s: State, l: nat, r: Req)
    requires Inv(s) && Enabled(s, LCancelTest(l)) && r < |s.reqs|
    ensures exists e :: Follows(s, Apply(s, LCancelTest(l)), r, e)
  {
    var q := s.loops[l].pc.r;
    var e := CancelReturns(q, Cancellable(s.reqs[q]));
    if Cancellable(s.reqs[q]) { VisibleHit(s, l, r); }
    assert LoopOk(s, l) && ReqOk(s, q);
    assert Follows(s, Apply(s, LCancelTest(l)), r, e);
  }

  lemma VisibleHit(s: State, l: nat, r: Req)
    requires Inv(s) && Enabled(s, LCancelTest(l)) && r < |s.reqs| && Cancellable(s.reqs[s.loops[l].pc.r])
    ensures Follows(s, Apply(s, LCancelTest(l)), r, CancelReturns(s.loops[l].pc.r, true))
  {
    assert LoopOk(s, l) && ReqOk(s, s.loops[l].pc.r);
    CancelTestState(s, l);
  }

  lemma VisibleStep(s: State, step: Step, r: Req)
    requires Inv(s) && Enabled(s, step) && Visible(step) && r < |s.reqs|
    ensures exists e :: Follows(s, Apply(s, step), r, e)
  {
    if step.LCancelTest? { VisibleCancel(s, step.l, r); }
    else if step.LPost? { VisiblePost(s, step, r); }
    else if step.LDone? { VisibleDone(s, step, r); }
    else if step.WHandBack? { VisibleHandBack(s, step, r); }
    else if step.LCancelInsert? { VisibleInsert(s, step, r); }
    else { VisibleWorkerStep(s, step, r); }
  }

  lemma StepReplay(s: State, step: Step, r: Req)
    requires Inv(s) && Enabled(s, step) && r < |s.reqs| && Replay(s.log, r) == PhaseOf(s, r)
    ensures r < |Apply(s, step).reqs| ==> Replay(Apply(s, step).log, r) == PhaseOf(Apply(s, step), r)
  {
    if Visible(step) {
      VisibleStep(s, step, r);
      var e :| Follows(s, Apply(s, step), r, e);
      ReplayAppend(s.log, e, r);
    } else if IsWorkerStep(step) {
      SilentWorkerStep(s, step, r);
    } else {
      SilentOtherStep(s, step, r);
    }
  }

  lemma StepHistory(s: State, step: Step)
    requires Inv(s) && HistoryOk(s) && Enabled(s, step)
    ensures HistoryOk(Apply(s, step))
  {
    var t := Apply(s, step);
    forall r | 0 <= r < |t.reqs|
      ensures Replay(t.log, r) == PhaseOf(t, r)
    {
      StepReplay(s, step, r);
    }
  }
}
