/** Condition variable, exit message and async handle: nothing is ever forgotten. */
module ThreadPoolWakeup {
  import opened ThreadPool

  datatype Kind = Asleep | Soon

  /** Asleep: inside uv_cond_wait.  Soon: woken, or on the way to test QUEUE_EMPTY(&wq). */
  ghost predicate Is(k: Kind, pc: WorkerPc) {
    match k
    case Asleep => pc == Waiting || pc == Woken
    case Soon => pc == Start || pc == Check || pc == Woken
  }

  ghost function One(b: bool): nat { if b then 1 else 0 }

  ghost function Count(ws: seq<WorkerPc>, k: Kind): nat {
    if ws == [] then 0 else One(Is(k, ws[0])) + Count(ws[1..], k)
  }

  lemma {:induction false} CountUpdate(ws: seq<WorkerPc>, i: nat, pc: WorkerPc, k: Kind)
    requires i < |ws|
    ensures Count(ws[i := pc], k) == Count(ws, k) - One(Is(k, ws[i])) + One(Is(k, pc))
  {
    if i == 0 {
      assert ws[i := pc][1..] == ws[1..];
    } else {
      assert ws[i := pc][1..] == ws[1..][i - 1 := pc];
      CountUpdate(ws[1..], i - 1, pc, k);
    }
  }

  lemma {:induction false} CountPositive(ws: seq<WorkerPc>, k: Kind, i: nat)
    requires i < |ws| && Is(k, ws[i])
    ensures Count(ws, k) > 0
  {
    if i > 0 { CountPositive(ws[1..], k, i - 1); }
  }

  lemma {:induction false} CountZero(ws: seq<WorkerPc>, k: Kind)
    requires forall i :: 0 <= i < |ws| ==> !Is(k, ws[i])
    ensures Count(ws, k) == 0
  {
    if ws != [] {
      assert forall i :: 0 <= i < |ws| - 1 ==> ws[1..][i] == ws[i + 1];
      CountZero(ws[1..], k);
    }
  }

  /** `idle_threads` counts the threads inside uv_cond_wait, woken or not. */
  ghost predicate IdleOk(s: State) { s.idle == Count(s.workers, Asleep) }

  /** If anyone sleeps unsignalled, enough others are about to look at the queue. */
  ghost predicate WakeOk(s: State) { Waiting in s.workers ==> |s.wq| <= Count(s.workers, Soon) }

  /** A worker leaves only when the exit message has come to the head; cleanup has joined a prefix. */
  ghost predicate ExitOk(s: State) {
    && (forall i :: 0 <= i < |s.workers| && (s.workers[i] == Leaving || s.workers[i] == Exited) ==>
          s.wq != [] && s.wq[0] == Exit)
    && (s.cleaner.Joining? ==>
          s.cleaner.i <= |s.workers| && forall k :: 0 <= k < s.cleaner.i ==> s.workers[k] == Exited)
    && (s.cleaner.Joined? ==> forall k :: 0 <= k < |s.workers| ==> s.workers[k] == Exited)
  }

  /** A finished request never waits without the loop's async handle having been sent. */
  ghost predicate AsyncOk(s: State) {
    forall l {:trigger s.loops[l]} :: 0 <= l < |s.loops| && s.loops[l].wq != [] ==>
      s.loops[l].async || s.loops[l].pc == DrainLock || s.loops[l].pc == DrainMove
  }

  ghost predicate Awake(s: State) { IdleOk(s) && WakeOk(s) && ExitOk(s) && AsyncOk(s) }

  lemma InitAwake(s: State)
    requires Init(s)
    ensures Awake(s)
  {
    CountZero(s.workers, Asleep);
  }

  /** A signal moves one waiter, if there is one, to Woken. */
  lemma SignalCount(ws: seq<WorkerPc>, wake: int)
    requires MaySignal(ws, wake)
    ensures Count(Signal(ws, wake), Asleep) == Count(ws, Asleep)
    ensures Waiting in ws ==> Count(Signal(ws, wake), Soon) == Count(ws, Soon) + 1
    ensures Waiting !in ws ==> Signal(ws, wake) == ws
  {
    if 0 <= wake < |ws| {
      CountUpdate(ws, wake, Woken, Asleep);
      CountUpdate(ws, wake, Woken, Soon);
    }
  }

  /** `post`: if nobody sleeps (idle_threads == 0) no signal is needed. */
  lemma PostCount(s: State, wake: int)
    requires IdleOk(s) && WakeOk(s)
    requires if s.idle > 0 then MaySignal(s.workers, wake) else wake == -1
    ensures Count(Signal(s.workers, wake), Asleep) == s.idle
    ensures Waiting in Signal(s.workers, wake) ==> |s.wq| + 1 <= Count(Signal(s.workers, wake), Soon)
  {
    if s.idle > 0 {
      SignalCount(s.workers, wake);
    } else if Waiting in s.workers {
      var i :| 0 <= i < |s.workers| && s.workers[i] == Waiting;
      CountPositive(s.workers, Asleep, i);
    }
  }

  lemma WorkerStepCounts(s: State, step: Step)
    requires IdleOk(s) && WakeOk(s) && Enabled(s, step) && IsWorkerStep(step)
    ensures IdleOk(Apply(s, step)) && WakeOk(Apply(s, step))
  {
    var ws, i, pc := s.workers, step.i, Apply(s, step).workers[step.i];
    if step.WSeeExit? {
      SignalCount(ws, step.wake);
      ws := Signal(ws, step.wake);
    }
    CountUpdate(ws, i, pc, Asleep);
    CountUpdate(ws, i, pc, Soon);
  }

  lemma OtherStepCounts(s: State, step: Step)
    requires IdleOk(s) && WakeOk(s) && Enabled(s, step) && !IsWorkerStep(step)
    ensures IdleOk(Apply(s, step)) && WakeOk(Apply(s, step))
  {
    if step.LPost? || step.CPost? { PostCount(s, step.wake); }
  }

  lemma WorkerStepExit(s: State, step: Step)
    requires ExitOk(s) && Enabled(s, step) && IsWorkerStep(step)
    ensures ExitOk(Apply(s, step))
  {
  }

  lemma OtherStepExit(s: State, step: Step)
    requires ExitOk(s) && Enabled(s, step) && !IsWorkerStep(step)
    ensures ExitOk(Apply(s, step))
  {
    if step.LPost? || step.CPost? { PostExit(s, step); }
  }

  lemma PostExit(s: State, step: Step)
    requires ExitOk(s) && Enabled(s, step) && (step.LPost? || step.CPost?)
    ensures ExitOk(Apply(s, step))
  {
  }

  lemma WorkerStepAsync(s: State, step: Step)
    requires AsyncOk(s) && Enabled(s, step) && IsWorkerStep(step)
    ensures AsyncOk(Apply(s, step))
  {
  }

  lemma OtherStepAsync(s: State, step: Step)
    requires AsyncOk(s) && Enabled(s, step) && !IsWorkerStep(step)
    ensures AsyncOk(Apply(s, step))
  {
    if step.LCancelTest? { CancelAsync(s, step.l); }
  }

  lemma CancelAsync(s: State, l: nat)
    requires AsyncOk(s) && Enabled(s, LCancelTest(l))
    ensures AsyncOk(Apply(s, LCancelTest(l)))
  {
  }

  lemma StepAwake(s: State, step: Step)
    requires Awake(s) && Enabled(s, step)
    ensures Awake(Apply(s, step))
  {
    if IsWorkerStep(step) {
      WorkerStepCounts(s, step);
      WorkerStepExit(s, step);
      WorkerStepAsync(s, step);
    } else {
      OtherStepCounts(s, step);
      OtherStepExit(s, step);
      OtherStepAsync(s, step);
    }
  }
}
