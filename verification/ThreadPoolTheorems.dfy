/** What holds of every run of the thread pool. */
module ThreadPoolTheorems {
  import opened Sequences
  import opened ThreadPool
  import opened ThreadPoolInvariant
  import opened ThreadPoolWakeup
  import opened ThreadPoolHistory

  ghost predicate Good(s: State) { Inv(s) && Awake(s) && HistoryOk(s) && |s.workers| >= 1 }

  lemma StepGood(s: State, step: Step)
    requires Good(s) && Enabled(s, step)
    ensures Good(Apply(s, step))
  {
    StepInv(s, step);
    StepAwake(s, step);
    StepHistory(s, step);
  }

  lemma {:induction false} RunGood(s: State, run: seq<Step>, t: State)
    requires Good(s) && Leads(s, run, t)
    ensures Good(t)
    decreases |run|
  {
    if run != [] {
      StepGood(s, run[0]);
      RunGood(Apply(s, run[0]), run[1..], t);
    }
  }

  /** Every reachable state is good. */
  lemma ReachableGood(t: State)
    requires Reachable(t)
    ensures Good(t)
  {
    var s, run :| Init(s) && Leads(s, run, t);
    InitGood(s);
    RunGood(s, run, t);
  }

  lemma InitGood(s: State)
    requires Init(s)
    ensures Good(s)
  {
    InitInv(s);
    InitAwake(s);
  }

  // ----- each request is in exactly one place ---------------------------------------

  /** Request r is at p, judged from queues and program counters alone. */
  ghost predicate At(s: State, r: Req, p: Place) {
    match p
    case Outside => false
    case Posting(l) => l < |s.loops| && Posts(s.loops[l].pc, r)
    case Queued => Work(r) in s.wq
    case AtWorker(i) => i < |s.workers| && Carries(s.workers[i], r)
    case Cancelling(l) => l < |s.loops| && Cancels(s.loops[l].pc, r)
    case Finished(l) => l < |s.loops| && r in s.loops[l].wq
    case Draining(l) => l < |s.loops| && r in s.loops[l].drain
  }

  /** A pending request is at one place and at no other, and once there; any other request is at none. */
  lemma OnePlace(s: State, r: Req, p: Place)
    requires Reachable(s) && r < |s.reqs|
    ensures At(s, r, p) <==> s.reqs[r].place == p && p != Outside
    ensures NoDup(s.wq) && forall l :: 0 <= l < |s.loops| ==> NoDup(s.loops[l].wq) && NoDup(s.loops[l].drain)
  {
    ReachableGood(s);
    assert ReqOk(s, r);
    forall l | 0 <= l < |s.loops| ensures NoDup(s.loops[l].wq) && NoDup(s.loops[l].drain) { assert LoopOk(s, l); }
    match p
    case AtWorker(i) => if i < |s.workers| { assert WorkerOk(s, i); }
    case Posting(l) => if l < |s.loops| { AtLoop(s, r, l); }
    case Cancelling(l) => if l < |s.loops| { AtLoop(s, r, l); }
    case Finished(l) => if l < |s.loops| { AtLoop(s, r, l); }
    case Draining(l) => if l < |s.loops| { AtLoop(s, r, l); }
    case _ =>
  }

  lemma AtLoop(s: State, r: Req, l: nat)
    requires r < |s.reqs| && ReqOk(s, r) && l < |s.loops| && LoopOk(s, l)
    ensures At(s, r, Posting(l)) <==> s.reqs[r].place == Posting(l)
    ensures At(s, r, Cancelling(l)) <==> s.reqs[r].place == Cancelling(l)
    ensures At(s, r, Finished(l)) <==> s.reqs[r].place == Finished(l)
    ensures At(s, r, Draining(l)) <==> s.reqs[r].place == Draining(l)
  {
  }

  /** uv__cancelled, which aborts, is never called; nor is a NULL work function. */
  lemma WorkIsCallable(s: State, i: nat)
    requires Reachable(s) && i < |s.workers| && (s.workers[i].Ready? || s.workers[i].Running?)
    ensures s.workers[i].r < |s.reqs| && s.reqs[s.workers[i].r].fn == User
  {
    ReachableGood(s);
    assert WorkerOk(s, i);
  }

  // ----- what the log of every run says ---------------------------------------------

  /** The phase of r after the first n events. */
  function After(log: seq<Event>, n: nat, r: Req): Phase
    requires n <= |log|
  { Replay(log[..n], r) }

  lemma AfterNext(log: seq<Event>, n: nat, r: Req)
    requires n < |log|
    ensures After(log, n + 1, r) == Advance(After(log, n, r), r, log[n])
  {
    assert log[..n + 1] == log[..n] + [log[n]];
    ReplayAppend(log[..n], log[n], r);
  }

  /** A log that ends well was well all along. */
  lemma {:induction false} NeverBad(log: seq<Event>, n: nat, r: Req)
    requires n <= |log| && Replay(log, r) != Bad
    ensures After(log, n, r) != Bad
    decreases |log| - n
  {
    if n < |log| {
      NeverBad(log, n + 1, r);
      AfterNext(log, n, r);
    } else {
      assert log[..n] == log;
    }
  }

  predicate IsSubmit(e: Event, r: Req) { e.Submitted? && e.r == r }

  predicate IsDone(e: Event, r: Req) { e.Done? && e.r == r }

  function Submits(log: seq<Event>, r: Req): nat {
    if log == [] then 0
    else Submits(log[..|log| - 1], r) + if IsSubmit(log[|log| - 1], r) then 1 else 0
  }

  function Dones(log: seq<Event>, r: Req): nat {
    if log == [] then 0
    else Dones(log[..|log| - 1], r) + if IsDone(log[|log| - 1], r) then 1 else 0
  }

  lemma {:induction false} DoneBalance(log: seq<Event>, r: Req)
    requires Replay(log, r) != Bad
    ensures Submits(log, r) == Dones(log, r) + if Replay(log, r) == Fresh then 0 else 1
  {
    if log != [] {
      DoneBalance(log[..|log| - 1], r);
    }
  }

  lemma Balanced(s: State, r: Req)
    requires Good(s) && r < |s.reqs|
    ensures Submits(s.log, r) == Dones(s.log, r) + if Pending(s.reqs[r]) then 1 else 0
  {
    DoneBalance(s.log, r);
  }

  /** `done` has run once for each submission, except for the one still pending, if there is one. */
  lemma DoneOncePerSubmission(s: State, r: Req)
    requires Reachable(s) && r < |s.reqs|
    ensures Submits(s.log, r) == Dones(s.log, r) + if Pending(s.reqs[r]) then 1 else 0
  {
    ReachableGood(s);
    Balanced(s, r);
  }

  lemma {:induction false} WithdrawnStays(log: seq<Event>, r: Req, i: nat, n: nat)
    requires i < n <= |log| && Replay(log, r) != Bad && log[i] == CancelReturns(r, true)
    requires forall k :: i < k < n ==> !IsSubmit(log[k], r)
    ensures After(log, n, r) == Withdrawn || After(log, n, r) == Fresh
    decreases n
  {
    NeverBad(log, n, r);
    AfterNext(log, n - 1, r);
    if n > i + 1 { WithdrawnStays(log, r, i, n - 1); }
  }

  lemma WithdrawnAllows(p: Phase, r: Req, e: Event)
    requires (p == Withdrawn || p == Fresh) && Advance(p, r, e) != Bad
    ensures e != Took(r) && e != Ran(r) && !(IsDone(e, r) && e.status == Ok) && e != CancelReturns(r, false)
  {
  }

  /** A request whose cancel returned 0 is never run by that submission, and is delivered UV_ECANCELED. */
  lemma CancelPreventsRun(s: State, r: Req, i: nat, j: nat)
    requires Reachable(s) && r < |s.reqs| && i < j < |s.log|
    requires s.log[i] == CancelReturns(r, true)
    requires forall k :: i < k < j ==> !IsSubmit(s.log[k], r)
    ensures s.log[j] != Took(r) && s.log[j] != Ran(r) && !(IsDone(s.log[j], r) && s.log[j].status == Ok)
    ensures s.log[j] != CancelReturns(r, false)
  {
    ReachableGood(s);
    WithdrawnStays(s.log, r, i, j);
    AfterNext(s.log, j, r);
    NeverBad(s.log, j + 1, r);
    WithdrawnAllows(After(s.log, j, r), r, s.log[j]);
  }

  /** Event k lies inside the submission of r that began at i and is still open before n. */
  ghost predicate Since(log: seq<Event>, r: Req, i: nat, n: nat) {
    && i < n <= |log| && IsSubmit(log[i], r)
    && forall k :: i < k < n ==> !IsSubmit(log[k], r) && !IsDone(log[k], r)
  }

  ghost predicate RanIn(log: seq<Event>, r: Req, i: nat, n: nat)
    requires n <= |log|
  { exists k :: i < k < n && log[k] == Ran(r) }

  ghost predicate CancelledIn(log: seq<Event>, r: Req, i: nat, n: nat)
    requires n <= |log|
  { exists k :: i < k < n && log[k] == CancelReturns(r, true) }

  lemma {:induction false} OpenSubmission(log: seq<Event>, r: Req, n: nat) returns (i: nat)
    requires n <= |log| && After(log, n, r) != Bad && After(log, n, r) != Fresh && Replay(log, r) != Bad
    ensures Since(log, r, i, n)
    ensures RanIn(log, r, i, n) <==> After(log, n, r) == HasRun
    ensures CancelledIn(log, r, i, n) <==> After(log, n, r) == Withdrawn
    decreases n
  {
    AfterNext(log, n - 1, r);
    NeverBad(log, n - 1, r);
    if IsSubmit(log[n - 1], r) {
      i := n - 1;
    } else {
      i := OpenSubmission(log, r, n - 1);
    }
  }

  /** The status handed to `done`: 0 exactly if the work ran, UV_ECANCELED exactly if a cancel returned 0. */
  lemma StatusTellsTheTruth(s: State, r: Req, j: nat) returns (i: nat)
    requires Reachable(s) && r < |s.reqs| && j < |s.log| && IsDone(s.log[j], r)
    ensures Since(s.log, r, i, j)
    ensures s.log[j].status == Ok <==> RanIn(s.log, r, i, j)
    ensures s.log[j].status == Canceled <==> CancelledIn(s.log, r, i, j)
  {
    ReachableGood(s);
    i := SubmissionOfDone(s.log, r, j);
  }

  lemma SubmissionOfDone(log: seq<Event>, r: Req, j: nat) returns (i: nat)
    requires Replay(log, r) != Bad && j < |log| && IsDone(log[j], r)
    ensures Since(log, r, i, j)
    ensures log[j].status == Ok <==> RanIn(log, r, i, j)
    ensures log[j].status == Canceled <==> CancelledIn(log, r, i, j)
  {
    NeverBad(log, j + 1, r);
    AfterNext(log, j, r);
    i := OpenSubmission(log, r, j);
  }

  // ----- no lost wakeup, no deadlock ------------------------------------------------

  /** While someone sleeps unsignalled, at least as many workers as there are queued items are about to look. */
  lemma NoLostWakeup(s: State)
    requires Reachable(s)
    ensures s.idle == Count(s.workers, Asleep)
    ensures Waiting in s.workers ==> |s.wq| <= Count(s.workers, Soon)
  {
    ReachableGood(s);
  }

  /** New calls are user code's choice; spurious wakeups and the start of cleanup need not happen. */
  predicate Internal(step: Step) {
    !step.CallSubmit? && !step.CallCancel? && !step.Spurious? && step != CleanBegin
  }

  ghost predicate Stuck(s: State) { forall step :: Internal(step) ==> !Enabled(s, step) }

  /** Some waiter a signal can go to, or -1. */
  ghost function SomeWaiter(ws: seq<WorkerPc>): (j: int)
    ensures MaySignal(ws, j)
  {
    if Waiting in ws then var j :| 0 <= j < |ws| && ws[j] == Waiting; j else -1
  }

  /** The step a worker takes next. */
  ghost function WorkerMove(s: State, i: nat): Step
    requires i < |s.workers|
  {
    match s.workers[i]
    case Start => WLock(i)
    case Check =>
      if s.wq == [] then WWait(i)
      else if s.wq[0] == Exit then WSeeExit(i, SomeWaiter(s.workers)) else WTake(i)
    case Woken => WReacquire(i)
    case Leaving => WUnlock(i)
    case Taken(_) => WUnlock(i)
    case Ready(_) => WRun(i)
    case Running(_) => WReturn(i)
    case Returned(_) => WLockLoop(i)
    case HandBack(_) => WHandBack(i)
    case _ => Spurious(i)
  }

  /** A worker is held up by nothing but an empty queue and other threads' locks. */
  lemma WorkerMoves(s: State, i: nat)
    requires Inv(s) && i < |s.workers| && s.workers[i] != Waiting && s.workers[i] != Exited
    requires s.workers[i] == Start || s.workers[i] == Woken ==> s.mutex == Free
    requires s.workers[i].Returned? ==> forall l :: 0 <= l < |s.loops| ==> s.loops[l].owner == Free
    ensures Enabled(s, WorkerMove(s, i)) && Internal(WorkerMove(s, i))
  {
    assert WorkerOk(s, i);
  }

  /** The step a loop thread takes next when it is inside a call, or has been called by wq_async. */
  ghost function LoopMove(s: State, l: nat): Step
    requires l < |s.loops|
  {
    match s.loops[l].pc
    case PostLock(_) => LPostLock(l)
    case Post(_) => LPost(l, if s.idle > 0 then SomeWaiter(s.workers) else -1)
    case CancelLock(_) => LCancelLock(l)
    case CancelLock2(_) => LCancelLock2(l)
    case CancelTest(_) => LCancelTest(l)
    case CancelUnlock(_, _) => LCancelUnlock(l)
    case CancelMark(_) => LCancelMark(l)
    case CancelRelock(_) => LCancelRelock(l)
    case CancelInsert(_) => LCancelInsert(l)
    case DrainLock => LDrainLock(l)
    case DrainMove => LDrainMove(l)
    case Idle =>
      if !s.loops[l].draining then DrainStart(l) else if s.loops[l].drain == [] then LDrainEnd(l) else LDone(l)
  }

  lemma LoopMoves(s: State, l: nat)
    requires Inv(s) && l < |s.loops|
    requires s.loops[l].pc.PostLock? || s.loops[l].pc.CancelLock? ==> s.mutex == Free
    requires s.loops[l].pc.CancelLock2? || s.loops[l].pc.CancelRelock? || s.loops[l].pc == DrainLock ==>
               s.loops[l].owner == Free
    requires s.loops[l].pc == Idle ==> s.loops[l].draining || s.loops[l].async
    ensures Enabled(s, LoopMove(s, l)) && Internal(LoopMove(s, l))
  {
    assert LoopOk(s, l);
  }

  /** No loop mutex is held in a stuck state: its holder could always go on. */
  lemma LoopMutexFree(s: State, l: nat)
    requires Inv(s) && l < |s.loops| && Stuck(s)
    ensures s.loops[l].owner == Free
  {
    assert LoopOk(s, l);
    match s.loops[l].owner
    case ByWorker(i) => WorkerMoves(s, i);
    case ByLoop(_) => LoopMoves(s, l);
    case _ =>
  }

  /** Nor is the global mutex, although uv__work_cancel takes a second mutex while it holds it. */
  lemma MutexFree(s: State)
    requires Inv(s) && Stuck(s)
    ensures s.mutex == Free
  {
    assert !Enabled(s, CPost(if s.idle > 0 then SomeWaiter(s.workers) else -1));
    match s.mutex
    case ByWorker(i) => assert WorkerOk(s, i); WorkerMoves(s, i);
    case ByLoop(l) => assert LoopOk(s, l); LoopMutexFree(s, l); LoopMoves(s, l);
    case _ =>
  }

  lemma LoopAtRest(s: State, l: nat)
    requires Inv(s) && AsyncOk(s) && Stuck(s) && l < |s.loops|
    ensures s.loops[l].pc == Idle && s.loops[l].wq == [] && s.loops[l].drain == []
  {
    MutexFree(s);
    LoopMutexFree(s, l);
    assert LoopOk(s, l);
    if s.loops[l].pc != Idle || s.loops[l].draining || s.loops[l].async { LoopMoves(s, l); }
  }

  lemma WorkerAtRest(s: State, i: nat)
    requires Inv(s) && Stuck(s) && i < |s.workers|
    ensures s.workers[i] == Waiting || s.workers[i] == Exited
  {
    MutexFree(s);
    forall l | 0 <= l < |s.loops|
      ensures s.loops[l].owner == Free
    {
      LoopMutexFree(s, l);
    }
    if s.workers[i] != Waiting && s.workers[i] != Exited { WorkerMoves(s, i); }
  }

  /** If someone sleeps in a stuck state then the queue is empty. */
  lemma SleepersMeanEmpty(s: State)
    requires Good(s) && Stuck(s) && Waiting in s.workers
    ensures s.wq == []
  {
    forall i | 0 <= i < |s.workers|
      ensures !Is(Soon, s.workers[i])
    {
      WorkerAtRest(s, i);
    }
    CountZero(s.workers, Soon);
  }

  lemma WorkersAtRest(s: State)
    requires Good(s) && Stuck(s)
    ensures (s.wq == [] && forall i :: 0 <= i < |s.workers| ==> s.workers[i] == Waiting)
            || (s.wq != [] && s.wq[0] == Exit && forall i :: 0 <= i < |s.workers| ==> s.workers[i] == Exited)
  {
    forall i | 0 <= i < |s.workers|
      ensures s.workers[i] == Waiting || s.workers[i] == Exited
    {
      WorkerAtRest(s, i);
    }
    if Waiting in s.workers {
      SleepersMeanEmpty(s);
    } else {
      assert s.workers[0] == Exited;
    }
  }

  lemma RequestAtRest(s: State, r: Req)
    requires Inv(s) && AsyncOk(s) && Stuck(s) && r < |s.reqs|
    ensures s.reqs[r].place == Outside || (s.reqs[r].place == Queued && Work(r) in s.wq)
  {
    assert ReqOk(s, r);
    match s.reqs[r].place
    case AtWorker(i) => WorkerAtRest(s, i);
    case Outside =>
    case Queued =>
    case _ => LoopAtRest(s, s.reqs[r].loop);
  }

  lemma CleanerAtRest(s: State)
    requires Good(s) && Stuck(s)
    ensures s.cleaner == NotBegun || s.cleaner == Joined
    ensures s.cleaner == Joined <==> Exit in s.wq
  {
    MutexFree(s);
    WorkersAtRest(s);
    assert !Enabled(s, CLock) && !Enabled(s, CJoin);
    assert GlobalOk(s);
  }

  lemma RestingState(s: State, r: Req)
    requires Good(s) && Stuck(s) && r < |s.reqs|
    ensures s.reqs[r].place == Outside || (s.wq != [] && s.wq[0] == Exit && s.reqs[r].place == Queued)
    ensures s.cleaner == NotBegun ==> s.wq == [] && forall i :: 0 <= i < |s.workers| ==> s.workers[i] == Waiting
    ensures s.cleaner != NotBegun ==>
              s.cleaner == Joined && forall i :: 0 <= i < |s.workers| ==> s.workers[i] == Exited
  {
    WorkersAtRest(s);
    MutexFree(s);
    RequestAtRest(s, r);
    CleanerAtRest(s);
  }

  /**
   * The pool comes to rest only when its work is done: every submitted request has been
   * delivered, or was submitted behind the exit message; and a cleanup that began has ended.
   */
  lemma RestMeansDone(s: State, r: Req)
    requires Reachable(s) && Stuck(s) && r < |s.reqs|
    ensures s.reqs[r].place == Outside || (s.wq != [] && s.wq[0] == Exit && s.reqs[r].place == Queued)
    ensures s.cleaner == NotBegun ==> s.wq == [] && forall i :: 0 <= i < |s.workers| ==> s.workers[i] == Waiting
    ensures s.cleaner != NotBegun ==>
              s.cleaner == Joined && forall i :: 0 <= i < |s.workers| ==> s.workers[i] == Exited
  {
    ReachableGood(s);
    RestingState(s, r);
  }
}
