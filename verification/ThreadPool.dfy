/**
 * The thread pool protocol of deps/libuv/src/threadpool.c as a step relation.
 *
 * Worker threads, loop threads and the thread that runs `cleanup` interleave freely.
 * A step is one lock acquisition, one critical section together with the unlock that
 * ends it, or one access made outside every lock.  The condition variable wakes some
 * waiter on a signal, and any waiter at any time spuriously.
 */
module ThreadPool {
  import opened Sequences

  type Req = nat

  /** A link of the global queue `wq`: a request or the `exit_message`. */
  datatype Item = Work(r: Req) | Exit

  /** The value of the field `w->work`. */
  datatype Fn = User | Null | CancelledFn

  /** Where a request is.  A history variable: the C code has no such field. */
  datatype Place =
    | Outside             // not submitted, or `done` has been entered
    | Posting(l: nat)     // loop l is inside uv__work_submit for it
    | Queued              // linked in the global queue
    | AtWorker(i: nat)    // taken by worker i, not yet handed back
    | Cancelling(l: nat)  // unlinked by loop l's uv__work_cancel, not yet handed back
    | Finished(l: nat)    // linked in loop l's wq
    | Draining(l: nat)    // linked in the local queue of loop l's uv__work_done

  /** struct uv__work; `linked` is `!QUEUE_EMPTY(&w->wq)`, which a dangling link satisfies too. */
  datatype Request = Request(loop: nat, fn: Fn, linked: bool, place: Place)

  /** Program counter of `worker`. */
  datatype WorkerPc =
    | Start               // before uv_mutex_lock(&mutex)
    | Check               // holds mutex, tests QUEUE_EMPTY(&wq)
    | Waiting             // in uv_cond_wait, not woken
    | Woken               // in uv_cond_wait, woken, has to take the mutex back
    | Leaving             // holds mutex, has seen exit_message
    | Taken(r: Req)       // holds mutex, has unlinked r
    | Ready(r: Req)       // before w->work(w)
    | Running(r: Req)     // inside w->work(w)
    | Returned(r: Req)    // before uv_mutex_lock(&w->loop->wq_mutex)
    | HandBack(r: Req)    // holds w->loop->wq_mutex
    | Exited

  /** Program counter of a loop thread; `Idle` is user code. */
  datatype LoopPc =
    | Idle
    | PostLock(r: Req) | Post(r: Req)
    | CancelLock(r: Req)                // before uv_mutex_lock(&mutex)
    | CancelLock2(r: Req)               // holds mutex, before uv_mutex_lock(&w->loop->wq_mutex)
    | CancelTest(r: Req)                // holds both
    | CancelUnlock(r: Req, ok: bool)    // holds mutex
    | CancelMark(r: Req)                // before w->work = uv__cancelled
    | CancelRelock(r: Req)              // before uv_mutex_lock(&loop->wq_mutex)
    | CancelInsert(r: Req)              // holds loop->wq_mutex
    | DrainLock | DrainMove             // uv__work_done before and after uv_mutex_lock

  datatype Owner = Free | ByWorker(i: nat) | ByLoop(l: nat) | ByCleaner

  datatype Loop = Loop(
    wq: seq<Req>,       // loop->wq
    owner: Owner,       // holder of loop->wq_mutex
    async: bool,        // wq_async has been sent and not yet handled
    draining: bool,     // uv__work_done is in its while loop (user code runs inside it too)
    drain: seq<Req>,    // the local wq of uv__work_done
    pc: LoopPc)

  datatype CleanerPc = NotBegun | ExitLock | ExitPost | Joining(i: nat) | Joined

  datatype Status = Ok | Canceled

  /** What an observer sees, in order. */
  datatype Event =
    | Submitted(r: Req, l: nat)        // linked in the global queue by loop l
    | Took(r: Req)                     // unlinked from the global queue by a worker
    | Ran(r: Req)                      // its work function was entered
    | CancelReturns(r: Req, ok: bool)  // 0 or UV_EBUSY
    | HandedBack(r: Req, l: nat)       // linked in loop l's wq, its work done or cancelled
    | Done(r: Req, l: nat, status: Status) // its done callback was entered on loop l

  datatype State = State(
    wq: seq<Item>,
    idle: int,
    mutex: Owner,
    workers: seq<WorkerPc>,
    loops: seq<Loop>,
    reqs: seq<Request>,
    cleaner: CleanerPc,
    log: seq<Event>)

  // ----- the pool size (init_once) ------------------------------------------------

  const MAX_THREADPOOL_SIZE := 128
  const DEFAULT_THREADS := 4

  /** nthreads after init_once: `env` is atoi of UV_THREADPOOL_SIZE, converted to unsigned int. */
  function PoolSize(env: int, isSet: bool, mallocFails: bool): (n: nat)
    ensures 1 <= n <= MAX_THREADPOOL_SIZE
    ensures !isSet ==> n == DEFAULT_THREADS
    ensures isSet && env == 0 ==> n == 1
    ensures isSet && 1 <= env <= DEFAULT_THREADS ==> n == env
    ensures isSet && DEFAULT_THREADS < env <= MAX_THREADPOOL_SIZE ==> n == if mallocFails then DEFAULT_THREADS else env
    ensures isSet && (MAX_THREADPOOL_SIZE < env <= 0x7fff_ffff || -0x8000_0000 <= env < 0) ==>
      n == if mallocFails then DEFAULT_THREADS else MAX_THREADPOOL_SIZE
  {
    var asked := if isSet then env % 0x1_0000_0000 else DEFAULT_THREADS;
    var size := if asked == 0 then 1 else if asked > MAX_THREADPOOL_SIZE then MAX_THREADPOOL_SIZE else asked;
    if size > DEFAULT_THREADS && mallocFails then DEFAULT_THREADS else size
  }

  ghost predicate Init(s: State) {
    && s.wq == [] && s.idle == 0 && s.mutex == Free && s.cleaner == NotBegun && s.log == []
    && 1 <= |s.workers| <= MAX_THREADPOOL_SIZE
    && (forall i :: 0 <= i < |s.workers| ==> s.workers[i] == Start)
    && (forall l :: 0 <= l < |s.loops| ==> s.loops[l] == Loop([], Free, false, false, [], Idle))
    && (forall r :: 0 <= r < |s.reqs| ==> s.reqs[r].place == Outside)
  }

  // ----- steps --------------------------------------------------------------------

  datatype Step =
    | WLock(i: nat) | WWait(i: nat) | WTake(i: nat) | WSeeExit(i: nat, wake: int) | WUnlock(i: nat)
    | WRun(i: nat) | WReturn(i: nat) | WLockLoop(i: nat) | WHandBack(i: nat) | WReacquire(i: nat)
    | Spurious(i: nat)
    | CallSubmit(l: nat, r: Req) | LPostLock(l: nat) | LPost(l: nat, wake: int)
    | CallCancel(l: nat, r: Req) | LCancelLock(l: nat) | LCancelLock2(l: nat) | LCancelTest(l: nat)
    | LCancelUnlock(l: nat) | LCancelMark(l: nat) | LCancelRelock(l: nat) | LCancelInsert(l: nat)
    | DrainStart(l: nat) | LDrainLock(l: nat) | LDrainMove(l: nat) | LDone(l: nat) | LDrainEnd(l: nat)
    | CleanBegin | CLock | CPost(wake: int) | CJoin

  /** uv_cond_signal may wake `wake`; -1 stands for nobody and is allowed only if nobody waits. */
  ghost predicate MaySignal(ws: seq<WorkerPc>, wake: int) {
    if 0 <= wake < |ws| then ws[wake] == Waiting
    else wake == -1 && Waiting !in ws
  }

  function Signal(ws: seq<WorkerPc>, wake: int): (r: seq<WorkerPc>) {
    if 0 <= wake < |ws| then ws[wake := Woken] else ws
  }

  ghost predicate WorkerAt(s: State, i: nat) { i < |s.workers| }
  ghost predicate LoopAt(s: State, l: nat) { l < |s.loops| }
  ghost predicate ReqAt(s: State, r: Req) { r < |s.reqs| }

  ghost predicate HoldsReq(pc: WorkerPc) {
    pc.Taken? || pc.Ready? || pc.Running? || pc.Returned? || pc.HandBack?
  }

  /** When a step can be taken; the last three lines of CallSubmit and CallCancel are the caller's duties. */
  ghost predicate Enabled(s: State, step: Step) {
    match step
    case WLock(i) => WorkerAt(s, i) && s.workers[i] == Start && s.mutex == Free
    case WWait(i) => WorkerAt(s, i) && s.workers[i] == Check && s.wq == []
    case WTake(i) => WorkerAt(s, i) && s.workers[i] == Check && s.wq != [] && s.wq[0].Work? && ReqAt(s, s.wq[0].r)
    case WSeeExit(i, wake) =>
      WorkerAt(s, i) && s.workers[i] == Check && s.wq != [] && s.wq[0] == Exit && MaySignal(s.workers, wake)
    case WUnlock(i) => WorkerAt(s, i) && (s.workers[i] == Leaving || s.workers[i].Taken?)
    case WRun(i) => WorkerAt(s, i) && s.workers[i].Ready?
    case WReturn(i) => WorkerAt(s, i) && s.workers[i].Running?
    case WLockLoop(i) =>
      && WorkerAt(s, i) && s.workers[i].Returned? && ReqAt(s, s.workers[i].r)
      && LoopAt(s, s.reqs[s.workers[i].r].loop) && s.loops[s.reqs[s.workers[i].r].loop].owner == Free
    case WHandBack(i) =>
      && WorkerAt(s, i) && s.workers[i].HandBack? && ReqAt(s, s.workers[i].r)
      && LoopAt(s, s.reqs[s.workers[i].r].loop)
    case WReacquire(i) => WorkerAt(s, i) && s.workers[i] == Woken && s.mutex == Free
    case Spurious(i) => WorkerAt(s, i) && s.workers[i] == Waiting

    case CallSubmit(l, r) =>
      && LoopAt(s, l) && s.loops[l].pc == Idle
      && ReqAt(s, r) && s.reqs[r].place == Outside
    case LPostLock(l) => LoopAt(s, l) && s.loops[l].pc.PostLock? && s.mutex == Free
    case LPost(l, wake) =>
      && LoopAt(s, l) && s.loops[l].pc.Post? && ReqAt(s, s.loops[l].pc.r)
      && (if s.idle > 0 then MaySignal(s.workers, wake) else wake == -1)

    case CallCancel(l, r) =>
      && LoopAt(s, l) && s.loops[l].pc == Idle
      && ReqAt(s, r) && s.reqs[r].loop == l
      && !s.reqs[r].place.Outside? && !s.reqs[r].place.Posting?
    case LCancelLock(l) => LoopAt(s, l) && s.loops[l].pc.CancelLock? && s.mutex == Free
    case LCancelLock2(l) => LoopAt(s, l) && s.loops[l].pc.CancelLock2? && s.loops[l].owner == Free
    case LCancelTest(l) => LoopAt(s, l) && s.loops[l].pc.CancelTest? && ReqAt(s, s.loops[l].pc.r)
    case LCancelUnlock(l) => LoopAt(s, l) && s.loops[l].pc.CancelUnlock?
    case LCancelMark(l) => LoopAt(s, l) && s.loops[l].pc.CancelMark? && ReqAt(s, s.loops[l].pc.r)
    case LCancelRelock(l) => LoopAt(s, l) && s.loops[l].pc.CancelRelock? && s.loops[l].owner == Free
    case LCancelInsert(l) => LoopAt(s, l) && s.loops[l].pc.CancelInsert? && ReqAt(s, s.loops[l].pc.r)

    case DrainStart(l) => LoopAt(s, l) && s.loops[l].pc == Idle && !s.loops[l].draining && s.loops[l].async
    case LDrainLock(l) => LoopAt(s, l) && s.loops[l].pc == DrainLock && s.loops[l].owner == Free
    case LDrainMove(l) => LoopAt(s, l) && s.loops[l].pc == DrainMove
    case LDone(l) =>
      && LoopAt(s, l) && s.loops[l].pc == Idle && s.loops[l].draining
      && s.loops[l].drain != [] && ReqAt(s, s.loops[l].drain[0])
    case LDrainEnd(l) => LoopAt(s, l) && s.loops[l].pc == Idle && s.loops[l].draining && s.loops[l].drain == []

    case CleanBegin => s.cleaner == NotBegun
    case CLock => s.cleaner == ExitLock && s.mutex == Free
    case CPost(wake) => s.cleaner == ExitPost && (if s.idle > 0 then MaySignal(s.workers, wake) else wake == -1)
    case CJoin => s.cleaner.Joining? && (s.cleaner.i < |s.workers| ==> s.workers[s.cleaner.i] == Exited)
  }

  function SetWorker(s: State, i: nat, pc: WorkerPc): State
    requires i < |s.workers|
  { s.(workers := s.workers[i := pc]) }

  function SetLoop(s: State, l: nat, lp: Loop): State
    requires l < |s.loops|
  { s.(loops := s.loops[l := lp]) }

  function SetPc(s: State, l: nat, pc: LoopPc): State
    requires l < |s.loops|
  { SetLoop(s, l, s.loops[l].(pc := pc)) }

  function SetReq(s: State, r: Req, q: Request): State
    requires r < |s.reqs|
  { s.(reqs := s.reqs[r := q]) }

  function SetPlace(s: State, r: Req, p: Place): State
    requires r < |s.reqs|
  { SetReq(s, r, s.reqs[r].(place := p)) }

  function Log(s: State, e: Event): State { s.(log := s.log + [e]) }

  /** `cancelled = !QUEUE_EMPTY(&w->wq) && w->work != NULL` */
  predicate Cancellable(q: Request) { q.linked && q.fn != Null }

  /** QUEUE_REMOVE(&w->wq): unlinks r from whichever queue it is in and leaves its own links dangling. */
  function Unlink(s: State, r: Req): State {
    s.(wq := Without(s.wq, Work(r)),
       loops := seq(|s.loops|, k requires 0 <= k < |s.loops| =>
         s.loops[k].(wq := Without(s.loops[k].wq, r), drain := Without(s.loops[k].drain, r))))
  }

  function WorkerStep(s: State, step: Step): State
    requires Enabled(s, step)
  {
    match step
    case WLock(i) => SetWorker(s, i, Check).(mutex := ByWorker(i))
    case WWait(i) => SetWorker(s, i, Waiting).(idle := s.idle + 1, mutex := Free)
    case WTake(i) =>
      var r := s.wq[0].r;
      Log(SetReq(SetWorker(s, i, Taken(r)).(wq := s.wq[1..]), r,
                 s.reqs[r].(linked := false, place := AtWorker(i))), Took(r))
    case WSeeExit(i, wake) => SetWorker(s.(workers := Signal(s.workers, wake)), i, Leaving)
    case WUnlock(i) =>
      SetWorker(s, i, if s.workers[i].Taken? then Ready(s.workers[i].r) else Exited).(mutex := Free)
    case WRun(i) => Log(SetWorker(s, i, Running(s.workers[i].r)), Ran(s.workers[i].r))
    case WReturn(i) => SetWorker(s, i, Returned(s.workers[i].r))
    case WLockLoop(i) =>
      var l := s.reqs[s.workers[i].r].loop;
      SetLoop(SetWorker(s, i, HandBack(s.workers[i].r)), l, s.loops[l].(owner := ByWorker(i)))
    case WHandBack(i) =>
      var r := s.workers[i].r;
      var l := s.reqs[r].loop;
      Log(SetReq(SetLoop(SetWorker(s, i, Start), l,
                         s.loops[l].(wq := s.loops[l].wq + [r], async := true, owner := Free)),
                 r, s.reqs[r].(fn := Null, linked := true, place := Finished(l))), HandedBack(r, l))
    case WReacquire(i) => SetWorker(s, i, Check).(idle := s.idle - 1, mutex := ByWorker(i))
    case Spurious(i) => SetWorker(s, i, Woken)
    case _ => s
  }

  function LoopStep(s: State, step: Step): State
    requires Enabled(s, step)
  {
    match step
    case CallSubmit(l, r) =>
      SetReq(SetPc(s, l, PostLock(r)), r, s.reqs[r].(loop := l, fn := User, place := Posting(l)))
    case LPostLock(l) => SetPc(s, l, Post(s.loops[l].pc.r)).(mutex := ByLoop(l))
    case LPost(l, wake) =>
      var r := s.loops[l].pc.r;
      Log(SetReq(SetPc(s, l, Idle), r, s.reqs[r].(linked := true, place := Queued))
            .(wq := s.wq + [Work(r)], workers := Signal(s.workers, wake), mutex := Free), Submitted(r, l))

    case CallCancel(l, r) => SetPc(s, l, CancelLock(r))
    case LCancelLock(l) => SetPc(s, l, CancelLock2(s.loops[l].pc.r)).(mutex := ByLoop(l))
    case LCancelLock2(l) => SetLoop(s, l, s.loops[l].(pc := CancelTest(s.loops[l].pc.r), owner := ByLoop(l)))
    case LCancelTest(l) =>
      var r := s.loops[l].pc.r;
      var ok := Cancellable(s.reqs[r]);
      var s1 := if ok then SetPlace(Unlink(s, r), r, Cancelling(l)) else s;
      Log(SetLoop(s1, l, s1.loops[l].(pc := CancelUnlock(r, ok), owner := Free)), CancelReturns(r, ok))
    case LCancelUnlock(l) =>
      SetPc(s, l, if s.loops[l].pc.ok then CancelMark(s.loops[l].pc.r) else Idle).(mutex := Free)
    case LCancelMark(l) =>
      var r := s.loops[l].pc.r;
      SetReq(SetPc(s, l, CancelRelock(r)), r, s.reqs[r].(fn := CancelledFn))
    case LCancelRelock(l) => SetLoop(s, l, s.loops[l].(pc := CancelInsert(s.loops[l].pc.r), owner := ByLoop(l)))
    case LCancelInsert(l) =>
      var r := s.loops[l].pc.r;
      Log(SetReq(SetLoop(s, l, s.loops[l].(wq := s.loops[l].wq + [r], async := true, owner := Free, pc := Idle)),
                 r, s.reqs[r].(linked := true, place := Finished(l))), HandedBack(r, l))

    case DrainStart(l) => SetLoop(s, l, s.loops[l].(async := false, pc := DrainLock))
    case LDrainLock(l) => SetLoop(s, l, s.loops[l].(pc := DrainMove, owner := ByLoop(l)))
    case LDrainMove(l) =>
      var lp := s.loops[l];
      SetLoop(s, l, lp.(drain := lp.wq, wq := [], draining := true, owner := Free, pc := Idle))
        .(reqs := seq(|s.reqs|, r requires 0 <= r < |s.reqs| =>
            if s.reqs[r].place == Finished(l) then s.reqs[r].(place := Draining(l)) else s.reqs[r]))
    case LDone(l) =>
      var r := s.loops[l].drain[0];
      Log(SetPlace(SetLoop(s, l, s.loops[l].(drain := s.loops[l].drain[1..])), r, Outside),
          Done(r, l, if s.reqs[r].fn == CancelledFn then Canceled else Ok))
    case LDrainEnd(l) => SetLoop(s, l, s.loops[l].(draining := false))
    case _ => s
  }

  function CleanerStep(s: State, step: Step): State
    requires Enabled(s, step)
  {
    match step
    case CleanBegin => s.(cleaner := ExitLock)
    case CLock => s.(cleaner := ExitPost, mutex := ByCleaner)
    case CPost(wake) =>
      s.(wq := s.wq + [Exit], workers := Signal(s.workers, wake), mutex := Free, cleaner := Joining(0))
    case CJoin => s.(cleaner := if s.cleaner.i < |s.workers| then Joining(s.cleaner.i + 1) else Joined)
    case _ => s
  }

  predicate IsWorkerStep(step: Step) {
    step.WLock? || step.WWait? || step.WTake? || step.WSeeExit? || step.WUnlock? || step.WRun?
    || step.WReturn? || step.WLockLoop? || step.WHandBack? || step.WReacquire? || step.Spurious?
  }

  predicate IsCleanerStep(step: Step) {
    step.CleanBegin? || step.CLock? || step.CPost? || step.CJoin?
  }

  function Apply(s: State, step: Step): State
    requires Enabled(s, step)
  {
    if IsWorkerStep(step) then WorkerStep(s, step)
    else if IsCleanerStep(step) then CleanerStep(s, step)
    else LoopStep(s, step)
  }

  /** `run` leads from s to t, one enabled step after the other. */
  ghost predicate Leads(s: State, run: seq<Step>, t: State)
    decreases |run|
  {
    if run == [] then s == t
    else Enabled(s, run[0]) && Leads(Apply(s, run[0]), run[1..], t)
  }

  /** Some run from an initial state ends in t. */
  ghost predicate Reachable(t: State) {
    exists s, run :: Init(s) && Leads(s, run, t)
  }
}
