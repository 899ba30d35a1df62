/** Work comes to an end: requests are delivered, and once the exit message is posted cleanup's joins complete. */
module ThreadPoolShutdown {
  import opened Sequences
  import opened ThreadPool
  import opened ThreadPoolInvariant
  import opened ThreadPoolWakeup
  import opened ThreadPoolTheorems

  ghost predicate ExitPosted(s: State) { s.cleaner.Joining? || s.cleaner.Joined? }

  /** How many items stand before the exit message. */
  function Ahead(wq: seq<Item>): (n: nat)
    ensures n <= |wq|
  {
    if wq == [] || wq[0] == Exit then 0 else 1 + Ahead(wq[1..])
  }

  /**
   * The measure comes in two forms. With `posted` it counts the steps after the exit message
   * has been posted, spurious wakeups included, because the queue is never empty again.
   * Without, it counts the steps from any state but leaves spurious wakeups out.
   */
  function WorkerRank(pc: WorkerPc, posted: bool): nat {
    match pc
    case Exited => 0
    case Leaving => 1
    case Waiting => if posted then 6 else 3
    case Check => 4
    case Start => 5
    case Woken => 5
    case HandBack(_) => 20
    case Returned(_) => 21
    case Running(_) => 22
    case Ready(_) => 23
    case Taken(_) => 24
  }

  function PcRank(pc: LoopPc): nat {
    match pc
    case Idle => 0
    case DrainMove => 6
    case DrainLock => 8
    case CancelInsert(_) => 16
    case CancelRelock(_) => 17
    case CancelMark(_) => 18
    case CancelUnlock(_, _) => 19
    case CancelTest(_) => 20
    case CancelLock2(_) => 21
    case CancelLock(_) => 22
    case Post(_) => 27
    case PostLock(_) => 28
  }

  function LoopRank(lp: Loop): nat {
    PcRank(lp.pc) + (if lp.async then 10 else 0) + 3 * |lp.wq| + 2 * |lp.drain| + if lp.draining then 1 else 0
  }

  function Workers(ws: seq<WorkerPc>, posted: bool): nat {
    if ws == [] then 0 else WorkerRank(ws[0], posted) + Workers(ws[1..], posted)
  }

  function Loops(ls: seq<Loop>): nat {
    if ls == [] then 0 else LoopRank(ls[0]) + Loops(ls[1..])
  }

  function CleanerRank(s: State): int {
    match s.cleaner
    case ExitLock => |s.workers| + 5
    case ExitPost => |s.workers| + 4
    case Joining(i) => |s.workers| + 1 - i
    case _ => 0
  }

  /** An upper bound on the steps still to come. */
  function Measure(s: State, posted: bool): int {
    Workers(s.workers, posted) + Loops(s.loops) + 24 * Ahead(s.wq) + CleanerRank(s)
  }

  lemma {:induction false} WorkersUpdate(ws: seq<WorkerPc>, i: nat, pc: WorkerPc, posted: bool)
    requires i < |ws|
    ensures Workers(ws[i := pc], posted) == Workers(ws, posted) - WorkerRank(ws[i], posted) + WorkerRank(pc, posted)
  {
    if i == 0 {
      assert ws[i := pc][1..] == ws[1..];
    } else {
      assert ws[i := pc][1..] == ws[1..][i - 1 := pc];
      WorkersUpdate(ws[1..], i - 1, pc, posted);
    }
  }

  lemma {:induction false} LoopsUpdate(ls: seq<Loop>, i: nat, lp: Loop)
    requires i < |ls|
    ensures Loops(ls[i := lp]) == Loops(ls) - LoopRank(ls[i]) + LoopRank(lp)
  {
    if i == 0 {
      assert ls[i := lp][1..] == ls[1..];
    } else {
      assert ls[i := lp][1..] == ls[1..][i - 1 := lp];
      LoopsUpdate(ls[1..], i - 1, lp);
    }
  }

  lemma {:induction false} AheadAppend(wq: seq<Item>, x: Item)
    ensures Ahead(wq + [x]) == Ahead(wq) + if Exit in wq || x == Exit then 0 else 1
  {
    if wq != [] {
      assert wq == [wq[0]] + wq[1..];
      assert (wq + [x])[1..] == wq[1..] + [x];
      AheadAppend(wq[1..], x);
    }
  }

  lemma {:induction false} AheadWithout(wq: seq<Item>, r: Req)
    ensures Ahead(Without(wq, Work(r))) <= Ahead(wq)
  {
    if wq != [] && wq[0] != Exit && wq[0] != Work(r) {
      AheadWithout(wq[1..], r);
      assert Without(wq, Work(r))[1..] == Without(wq[1..], Work(r));
    }
  }

  lemma SignalRank(ws: seq<WorkerPc>, wake: int, posted: bool)
    requires MaySignal(ws, wake) || wake == -1
    ensures Workers(Signal(ws, wake), posted) <= Workers(ws, posted) + if posted then 0 else 2
  {
    if 0 <= wake < |ws| { WorkersUpdate(ws, wake, Woken, posted); }
  }

  lemma MeasureBounded(s: State, posted: bool)
    requires ExitOk(s)
    ensures Measure(s, posted) >= 0
  {
  }

  /** Which steps the two forms of the measure count. */
  ghost predicate Counted(s: State, step: Step, posted: bool) {
    if posted then Exit in s.wq && ExitPosted(s) else !step.Spurious? && step != CleanBegin
  }

  lemma SeeExitShrinks(s: State, i: nat, wake: int, posted: bool)
    requires Enabled(s, WSeeExit(i, wake))
    ensures Measure(Apply(s, WSeeExit(i, wake)), posted) < Measure(s, posted)
  {
    SignalRank(s.workers, wake, posted);
    WorkersUpdate(Signal(s.workers, wake), i, Leaving, posted);
  }

  lemma TakeShrinks(s: State, i: nat, posted: bool)
    requires Enabled(s, WTake(i))
    ensures Measure(Apply(s, WTake(i)), posted) < Measure(s, posted)
  {
    WorkersUpdate(s.workers, i, Taken(s.wq[0].r), posted);
  }

  lemma WorkerStepShrinks(s: State, step: Step, posted: bool)
    requires Enabled(s, step) && Counted(s, step, posted) && IsWorkerStep(step)
    ensures Measure(Apply(s, step), posted) < Measure(s, posted)
  {
    if step.WSeeExit? { SeeExitShrinks(s, step.i, step.wake, posted); }
    else if step.WTake? { TakeShrinks(s, step.i, posted); }
    else if step.WLockLoop? || step.WHandBack? { HandBackShrinks(s, step, posted); }
    else { OneWorkerShrinks(s, step, posted); }
  }

  /** The other worker steps move one worker only. */
  predicate OneWorker(step: Step) {
    IsWorkerStep(step) && !step.WSeeExit? && !step.WTake? && !step.WLockLoop? && !step.WHandBack?
  }

  lemma OneWorkerFrame(s: State, step: Step)
    requires Enabled(s, step) && OneWorker(step)
    ensures var t := Apply(s, step);
      |t.workers| == |s.workers| && t.workers == s.workers[step.i := t.workers[step.i]]
      && t.loops == s.loops && t.wq == s.wq && t.cleaner == s.cleaner
  {
  }

  lemma OneWorkerShrinks(s: State, step: Step, posted: bool)
    requires Enabled(s, step) && Counted(s, step, posted) && OneWorker(step)
    ensures Measure(Apply(s, step), posted) < Measure(s, posted)
  {
    OneWorkerFrame(s, step);
    WorkersUpdate(s.workers, step.i, Apply(s, step).workers[step.i], posted);
  }

  lemma HandBackFrame(s: State, step: Step)
    requires Enabled(s, step) && (step.WLockLoop? || step.WHandBack?)
    ensures var t, i := Apply(s, step), step.i;
      var l := s.reqs[s.workers[i].r].loop;
      && |t.workers| == |s.workers| && t.workers == s.workers[i := t.workers[i]]
      && |t.loops| == |s.loops| && t.loops == s.loops[l := t.loops[l]]
      && LoopRank(t.loops[l]) + WorkerRank(t.workers[i], false)
           < LoopRank(s.loops[l]) + WorkerRank(s.workers[i], false)
      && t.wq == s.wq && t.cleaner == s.cleaner
  {
  }

  lemma HandBackShrinks(s: State, step: Step, posted: bool)
    requires Enabled(s, step) && (step.WLockLoop? || step.WHandBack?)
    ensures Measure(Apply(s, step), posted) < Measure(s, posted)
  {
    HandBackFrame(s, step);
    WorkersUpdate(s.workers, step.i, Apply(s, step).workers[step.i], posted);
    var l := s.reqs[s.workers[step.i].r].loop;
    LoopsUpdate(s.loops, l, Apply(s, step).loops[l]);
  }

  predicate IsCall(step: Step) { step.CallSubmit? || step.CallCancel? }

  lemma PostFrame(s: State, l: nat, wake: int)
    requires Enabled(s, LPost(l, wake))
    ensures var t, lp := Apply(s, LPost(l, wake)), s.loops[l];
      t.workers == Signal(s.workers, wake) && t.loops == s.loops[l := lp.(pc := Idle)]
      && t.wq == s.wq + [Work(lp.pc.r)] && t.cleaner == s.cleaner
  {
  }

  lemma PostShrinks(s: State, l: nat, wake: int, posted: bool)
    requires Enabled(s, LPost(l, wake)) && Counted(s, LPost(l, wake), posted)
    ensures Measure(Apply(s, LPost(l, wake)), posted) < Measure(s, posted)
  {
    PostFrame(s, l, wake);
    LoopsUpdate(s.loops, l, s.loops[l].(pc := Idle));
    SignalRank(s.workers, wake, posted);
    AheadAppend(s.wq, Work(s.loops[l].pc.r));
  }

  /** The other loop steps rewrite one loop record. */
  predicate OneLoop(step: Step) {
    !IsWorkerStep(step) && !IsCleanerStep(step) && !step.LCancelTest? && !step.LPost?
  }

  lemma OneLoopFrame(s: State, step: Step)
    requires Enabled(s, step) && OneLoop(step)
    ensures Apply(s, step).workers == s.workers && Apply(s, step).wq == s.wq && Apply(s, step).cleaner == s.cleaner
    ensures step.l < |Apply(s, step).loops| && Apply(s, step).loops == s.loops[step.l := Apply(s, step).loops[step.l]]
  {
  }

  lemma OneLoopRank(s: State, step: Step)
    requires Enabled(s, step) && OneLoop(step)
    ensures step.l < |Apply(s, step).loops|
    ensures LoopRank(Apply(s, step).loops[step.l]) < LoopRank(s.loops[step.l]) + if IsCall(step) then 29 else 0
  {
  }

  lemma OneLoopShrinks(s: State, step: Step, posted: bool)
    requires Enabled(s, step) && OneLoop(step)
    ensures Measure(Apply(s, step), posted) < Measure(s, posted) + if IsCall(step) then 29 else 0
  {
    OneLoopFrame(s, step);
    OneLoopRank(s, step);
    LoopsUpdate(s.loops, step.l, Apply(s, step).loops[step.l]);
  }

  lemma CancelHitRank(lp: Loop, r: Req)
    requires lp.pc == CancelTest(r)
    ensures LoopRank(lp.(wq := Without(lp.wq, r), drain := Without(lp.drain, r),
                         pc := CancelUnlock(r, true), owner := Free)) < LoopRank(lp)
  {
  }

  lemma CancelHitShrinks(s: State, l: nat, posted: bool)
    requires Enabled(s, LCancelTest(l))
    ensures Measure(AfterUnlink(s, l), posted) < Measure(s, posted)
  {
    CancelHitRank(s.loops[l], s.loops[l].pc.r);
    AheadWithout(s.wq, s.loops[l].pc.r);
    LoopsUpdate(s.loops, l, AfterUnlink(s, l).loops[l]);
  }

  lemma CancelMissShrinks(s: State, l: nat, posted: bool)
    requires Enabled(s, LCancelTest(l)) && !Cancellable(s.reqs[s.loops[l].pc.r])
    ensures Measure(Apply(s, LCancelTest(l)), posted) < Measure(s, posted)
  {
    LoopsUpdate(s.loops, l, Apply(s, LCancelTest(l)).loops[l]);
  }

  lemma CancelTestShrinks(s: State, l: nat, posted: bool)
    requires Inv(s) && Enabled(s, LCancelTest(l))
    ensures Measure(Apply(s, LCancelTest(l)), posted) < Measure(s, posted)
  {
    if Cancellable(s.reqs[s.loops[l].pc.r]) {
      CancelTestState(s, l);
      CancelHitShrinks(s, l, posted);
    } else {
      CancelMissShrinks(s, l, posted);
    }
  }

  lemma CleanerStepShrinks(s: State, step: Step, posted: bool)
    requires ExitOk(s) && Enabled(s, step) && Counted(s, step, posted) && IsCleanerStep(step)
    ensures Measure(Apply(s, step), posted) < Measure(s, posted)
  {
    if step.CPost? {
      SignalRank(s.workers, step.wake, posted);
      AheadAppend(s.wq, Exit);
    }
  }

  /** Every step that the measure counts, but a new call, uses up some of it. */
  lemma StepShrinks(s: State, step: Step, posted: bool)
    requires Inv(s) && ExitOk(s) && Enabled(s, step) && Counted(s, step, posted)
    ensures Measure(Apply(s, step), posted) < Measure(s, posted) + if IsCall(step) then 29 else 0
  {
    if IsWorkerStep(step) { WorkerStepShrinks(s, step, posted); }
    else if IsCleanerStep(step) { CleanerStepShrinks(s, step, posted); }
    else if step.LCancelTest? { CancelTestShrinks(s, step.l, posted); }
    else if step.LPost? { PostShrinks(s, step.l, step.wake, posted); }
    else { OneLoopShrinks(s, step, posted); }
  }

  lemma StaysPosted(s: State, step: Step)
    requires ExitPosted(s) && Enabled(s, step)
    ensures ExitPosted(Apply(s, step))
  {
  }

  function Calls(run: seq<Step>): nat {
    if run == [] then 0 else (if IsCall(run[0]) then 1 else 0) + Calls(run[1..])
  }

  ghost predicate NoDetours(run: seq<Step>) {
    forall i :: 0 <= i < |run| ==> !run[i].Spurious? && run[i] != CleanBegin
  }

  /** A run is no longer than the measure allows. */
  lemma {:induction false} RunIsBounded(s: State, run: seq<Step>, t: State, posted: bool)
    requires Good(s) && Leads(s, run, t) && if posted then ExitPosted(s) else NoDetours(run)
    ensures Good(t) && (posted ==> ExitPosted(t)) && |run| <= Measure(s, posted) + 29 * Calls(run)
    decreases |run|
  {
    if run == [] {
      MeasureBounded(s, posted);
    } else {
      assert GlobalOk(s);
      StepGood(s, run[0]);
      if posted { StaysPosted(s, run[0]); }
      StepShrinks(s, run[0], posted);
      RunIsBounded(Apply(s, run[0]), run[1..], t, posted);
    }
  }

  // ----- work comes to an end -------------------------------------------------------------------

  lemma {:induction false} NoCleanup(s: State, run: seq<Step>, t: State)
    requires Leads(s, run, t) && s.cleaner == NotBegun && NoDetours(run)
    ensures t.cleaner == NotBegun
    decreases |run|
  {
    if run != [] {
      assert run[0] != CleanBegin;
      NoCleanup(Apply(s, run[0]), run[1..], t);
    }
  }

  /** Steps that are neither new calls nor spurious wakeups nor the start of cleanup. */
  ghost predicate InternalRun(run: seq<Step>) { forall i :: 0 <= i < |run| ==> Internal(run[i]) }

  lemma {:induction false} InternalCalls(run: seq<Step>)
    requires InternalRun(run)
    ensures NoDetours(run) && Calls(run) == 0
    decreases |run|
  {
    if run != [] {
      assert Internal(run[0]);
      assert forall i :: 0 <= i < |run| - 1 ==> run[1..][i] == run[i + 1];
      InternalCalls(run[1..]);
      assert forall i :: 0 <= i < |run| ==> Internal(run[i]);
    }
  }

  /**
   * Left to itself the pool comes to rest, whatever the scheduling: from any reachable state an
   * internal run has at most Measure(s) steps. Where it cannot go on, every submitted request
   * has been delivered once per submission, but for those submitted behind the exit message;
   * without a cleanup there is no exception and the queue is empty.
   */
  lemma EveryRequestIsDelivered(s: State, run: seq<Step>, t: State, r: Req)
    requires Reachable(s) && Leads(s, run, t) && InternalRun(run) && r < |t.reqs|
    ensures |run| <= Measure(s, false)
    ensures Stuck(t) ==>
      || (t.reqs[r].place == Outside && Submits(t.log, r) == Dones(t.log, r))
      || (t.wq != [] && t.wq[0] == Exit && t.reqs[r].place == Queued)
    ensures Stuck(t) && s.cleaner == NotBegun ==>
      t.wq == [] && t.reqs[r].place == Outside && Submits(t.log, r) == Dones(t.log, r)
  {
    ReachableGood(s);
    InternalCalls(run);
    RunIsBounded(s, run, t, false);
    if Stuck(t) {
      RestingState(t, r);
      Balanced(t, r);
      if s.cleaner == NotBegun { NoCleanup(s, run, t); }
    }
  }

  lemma OneStepOn(s: State) returns (step: Step)
    requires Good(s) && !Stuck(s)
    ensures Internal(step) && Enabled(s, step) && Good(Apply(s, step))
    ensures MeasureNat(Apply(s, step)) < MeasureNat(s)
  {
    step :| Internal(step) && Enabled(s, step);
    StepGood(s, step);
    StepShrinks(s, step, false);
    MeasureBounded(Apply(s, step), false);
  }

  lemma StepFirst(s: State, step: Step, run: seq<Step>, t: State)
    requires Internal(step) && Enabled(s, step) && Leads(Apply(s, step), run, t) && InternalRun(run)
    ensures Leads(s, [step] + run, t) && InternalRun([step] + run)
  {
    assert ([step] + run)[1..] == run;
  }

  /** And a run can always go on to such a state. */
  lemma {:induction false} SomeRunEnds(s: State) returns (run: seq<Step>, t: State)
    requires Good(s)
    ensures Leads(s, run, t) && InternalRun(run) && Stuck(t)
    decreases MeasureNat(s)
  {
    if Stuck(s) {
      run, t := [], s;
    } else {
      var step := OneStepOn(s);
      run, t := SomeRunEnds(Apply(s, step));
      StepFirst(s, step, run, t);
      run := [step] + run;
    }
  }

  ghost function MeasureNat(s: State): nat { if Measure(s, false) < 0 then 0 else Measure(s, false) }

  lemma StuckMeansJoined(t: State)
    requires Good(t) && ExitPosted(t) && Stuck(t)
    ensures t.cleaner == Joined && forall i :: 0 <= i < |t.workers| ==> t.workers[i] == Exited
  {
    WorkersAtRest(t);
    assert GlobalOk(t);
    assert !Enabled(t, CJoin);
  }

  /**
   * cleanup ends.  From any reachable state with the exit message posted, a run that makes no new
   * calls has at most Measure(s) steps, and where it cannot go on every worker has exited and
   * been joined.
   */
  lemma CleanupTerminates(s: State, run: seq<Step>, t: State)
    requires Reachable(s) && ExitPosted(s) && Leads(s, run, t) && Calls(run) == 0
    ensures |run| <= Measure(s, true)
    ensures Stuck(t) ==> t.cleaner == Joined && forall i :: 0 <= i < |t.workers| ==> t.workers[i] == Exited
  {
    ReachableGood(s);
    RunIsBounded(s, run, t, true);
    if Stuck(t) { StuckMeansJoined(t); }
  }

  /** No worker leaves while anything queued before the exit message is still there. */
  lemma ExitComesLast(s: State, i: nat)
    requires Reachable(s) && i < |s.workers| && (s.workers[i] == Leaving || s.workers[i] == Exited)
    ensures Exit in s.wq && Ahead(s.wq) == 0
  {
    ReachableGood(s);
  }

  lemma CancelKeepsOrder(s: State, l: nat)
    requires Inv(s) && Enabled(s, LCancelTest(l))
    ensures Ahead(Apply(s, LCancelTest(l)).wq) <= Ahead(s.wq)
  {
    if Cancellable(s.reqs[s.loops[l].pc.r]) { CancelTestState(s, l); }
    AheadWithout(s.wq, s.loops[l].pc.r);
  }

  lemma TakeKeepsOrder(s: State, step: Step)
    requires Enabled(s, step) && IsWorkerStep(step)
    ensures Ahead(Apply(s, step).wq) <= Ahead(s.wq)
  {
  }

  /** What stands before the exit message only ever shrinks: a later post cannot get in front of it. */
  lemma NothingOvertakes(s: State, step: Step)
    requires Inv(s) && ExitPosted(s) && Enabled(s, step)
    ensures Ahead(Apply(s, step).wq) <= Ahead(s.wq)
  {
    assert GlobalOk(s);
    if IsWorkerStep(step) { TakeKeepsOrder(s, step); }
    else if step.LCancelTest? { CancelKeepsOrder(s, step.l); }
    else if step.LPost? { AheadAppend(s.wq, Work(s.loops[step.l].pc.r)); }
  }

  // ----- the exit message stands behind what was there before it -----------------------------------

  ghost predicate InFront(wq: seq<Item>, r: Req) { Work(r) in wq[..Ahead(wq)] }

  lemma {:induction false} FrontAll(wq: seq<Item>)
    requires Exit !in wq
    ensures Ahead(wq) == |wq|
    decreases |wq|
  {
    if wq != [] { FrontAll(wq[1..]); }
  }

  lemma FrontAppend(wq: seq<Item>, x: Item, r: Req)
    requires InFront(wq, r)
    ensures InFront(wq + [x], r)
  {
    AheadAppend(wq, x);
    assert (wq + [x])[..Ahead(wq)] == wq[..Ahead(wq)];
    assert forall y :: y in (wq + [x])[..Ahead(wq)] ==> y in (wq + [x])[..Ahead(wq + [x])];
  }

  lemma FrontTail(wq: seq<Item>, r: Req)
    requires InFront(wq, r) && wq[0] != Work(r)
    ensures InFront(wq[1..], r)
  {
    assert wq[..Ahead(wq)] == [wq[0]] + wq[1..][..Ahead(wq) - 1];
  }

  lemma {:induction false} FrontWithout(wq: seq<Item>, r: Req, q: Req)
    requires InFront(wq, r) && q != r
    ensures InFront(Without(wq, Work(q)), r)
    decreases |wq|
  {
    if wq[0] == Work(q) {
      FrontTail(wq, r);
    } else {
      var rest := Without(wq[1..], Work(q));
      assert Without(wq, Work(q)) == [wq[0]] + rest;
      if wq[0] == Work(r) {
        assert ([wq[0]] + rest)[..Ahead([wq[0]] + rest)][0] == Work(r);
      } else {
        FrontTail(wq, r);
        FrontWithout(wq[1..], r, q);
        assert ([wq[0]] + rest)[1..] == rest;
        assert ([wq[0]] + rest)[..1 + Ahead(rest)] == [wq[0]] + rest[..Ahead(rest)];
      }
    }
  }

  /** r is pending, and not behind the exit message. */
  ghost predicate Safe(s: State, r: Req) {
    r < |s.reqs| && Pending(s.reqs[r]) && (s.reqs[r].place == Queued ==> InFront(s.wq, r))
  }

  lemma WorkerSafe(s: State, step: Step, r: Req)
    requires Inv(s) && Safe(s, r) && Enabled(s, step) && IsWorkerStep(step)
    ensures Safe(Apply(s, step), r)
  {
    if step.WTake? && s.wq[0] != Work(r) && s.reqs[r].place == Queued { FrontTail(s.wq, r); }
  }

  lemma LoopSafe(s: State, step: Step, r: Req)
    requires Inv(s) && Safe(s, r) && Enabled(s, step) && OneLoop(step)
    ensures Safe(Apply(s, step), r) || (step.LDone? && s.loops[step.l].drain[0] == r)
  {
    assert LoopOk(s, step.l);
  }

  lemma PostSafe(s: State, l: nat, wake: int, r: Req)
    requires Inv(s) && Safe(s, r) && Enabled(s, LPost(l, wake))
    ensures Safe(Apply(s, LPost(l, wake)), r)
  {
    assert LoopOk(s, l);
    if s.reqs[r].place == Queued { FrontAppend(s.wq, Work(s.loops[l].pc.r), r); }
  }

  lemma CleanerSafe(s: State, step: Step, r: Req)
    requires Safe(s, r) && Enabled(s, step) && IsCleanerStep(step)
    ensures Safe(Apply(s, step), r)
  {
    if s.reqs[r].place == Queued { FrontAppend(s.wq, Exit, r); }
  }

  lemma CancelSafe(s: State, l: nat, r: Req)
    requires Inv(s) && Safe(s, r) && Enabled(s, LCancelTest(l))
    ensures Safe(Apply(s, LCancelTest(l)), r)
  {
    var q := s.loops[l].pc.r;
    if Cancellable(s.reqs[q]) {
      CancelTestState(s, l);
      if q != r && s.reqs[r].place == Queued { FrontWithout(s.wq, r, q); }
    }
  }

  lemma StepSafe(s: State, step: Step, r: Req)
    requires Inv(s) && Safe(s, r) && Enabled(s, step)
    ensures Safe(Apply(s, step), r) || (step.LDone? && s.loops[step.l].drain[0] == r)
  {
    if IsWorkerStep(step) { WorkerSafe(s, step, r); }
    else if IsCleanerStep(step) { CleanerSafe(s, step, r); }
    else if step.LCancelTest? { CancelSafe(s, step.l, r); }
    else if step.LPost? { PostSafe(s, step.l, step.wake, r); }
    else { LoopSafe(s, step, r); }
  }

  lemma StepLogs(s: State, step: Step)
    requires Enabled(s, step)
    ensures s.log <= Apply(s, step).log
    ensures step.LDone? ==>
      |Apply(s, step).log| == |s.log| + 1 && IsDone(Apply(s, step).log[|s.log|], s.loops[step.l].drain[0])
  {
  }

  lemma {:induction false} RunLogs(s: State, run: seq<Step>, t: State)
    requires Leads(s, run, t)
    ensures s.log <= t.log
    decreases |run|
  {
    if run != [] {
      StepLogs(s, run[0]);
      RunLogs(Apply(s, run[0]), run[1..], t);
    }
  }

  lemma {:induction false} RunSafe(s: State, run: seq<Step>, t: State, r: Req)
    requires Good(s) && Safe(s, r) && Leads(s, run, t)
    ensures Safe(t, r) || exists k :: |s.log| <= k < |t.log| && IsDone(t.log[k], r)
    decreases |run|
  {
    if run != [] {
      var u := Apply(s, run[0]);
      StepGood(s, run[0]);
      StepSafe(s, run[0], r);
      StepLogs(s, run[0]);
      RunLogs(u, run[1..], t);
      if Safe(u, r) { RunSafe(u, run[1..], t, r); } else { assert IsDone(t.log[|s.log|], r); }
    }
  }

  /**
   * What was pending before the exit message was posted is delivered: where a run from there
   * cannot go on, the done callback has been called since.
   */
  lemma DeliveredBeforeExit(s: State, run: seq<Step>, t: State, r: Req)
    requires Reachable(s) && Exit !in s.wq && r < |s.reqs| && Pending(s.reqs[r])
    requires Leads(s, run, t) && Stuck(t)
    ensures exists k :: |s.log| <= k < |t.log| && IsDone(t.log[k], r)
  {
    ReachableGood(s);
    assert ReqOk(s, r);
    FrontAll(s.wq);
    assert s.wq[..|s.wq|] == s.wq;
    RunSafe(s, run, t, r);
    if Safe(t, r) {
      RunGood(s, run, t);
      RestingState(t, r);
    }
  }
}
