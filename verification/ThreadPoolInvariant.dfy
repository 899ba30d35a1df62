/** The inductive invariant of the thread pool: locks, places of requests, and their fields. */
module ThreadPoolInvariant {
  import opened Sequences
  import opened ThreadPool

  ghost predicate HoldsMutex(pc: WorkerPc) { pc == Check || pc == Leaving || pc.Taken? }

  ghost predicate LoopHoldsMutex(pc: LoopPc) {
    pc.Post? || pc.CancelLock2? || pc.CancelTest? || pc.CancelUnlock?
  }

  ghost predicate LoopHoldsOwn(pc: LoopPc) { pc.CancelTest? || pc.CancelInsert? || pc == DrainMove }

  ghost predicate Carries(pc: WorkerPc, r: Req) { HoldsReq(pc) && pc.r == r }

  ghost predicate Posts(pc: LoopPc, r: Req) { pc == PostLock(r) || pc == LoopPc.Post(r) }

  ghost predicate Cancels(pc: LoopPc, r: Req) {
    pc == CancelUnlock(r, true) || pc == CancelMark(r) || pc == CancelRelock(r) || pc == CancelInsert(r)
  }

  ghost predicate PlaceIs(s: State, r: Req, p: Place) { r < |s.reqs| && s.reqs[r].place == p }

  ghost predicate Pending(q: Request) { !q.place.Outside? && !q.place.Posting? }

  /** What holds of worker i: the locks it has, and the request it has. */
  ghost predicate WorkerOk(s: State, i: nat)
    requires i < |s.workers|
  {
    var pc := s.workers[i];
    && (HoldsMutex(pc) <==> s.mutex == ByWorker(i))
    && (HoldsReq(pc) ==> PlaceIs(s, pc.r, AtWorker(i)))
    && (pc.HandBack? && s.reqs[pc.r].loop < |s.loops| ==> s.loops[s.reqs[pc.r].loop].owner == ByWorker(i))
  }

  /** What a loop thread's program counter says about the request it works on. */
  ghost predicate LoopPcOk(s: State, l: nat, pc: LoopPc) {
    match pc
    case PostLock(r) => PlaceIs(s, r, Posting(l))
    case Post(r) => PlaceIs(s, r, Posting(l))
    case CancelLock(r) => r < |s.reqs| && s.reqs[r].loop == l && Pending(s.reqs[r])
    case CancelLock2(r) => r < |s.reqs| && s.reqs[r].loop == l && Pending(s.reqs[r])
    case CancelTest(r) => r < |s.reqs| && s.reqs[r].loop == l && Pending(s.reqs[r])
    case CancelUnlock(r, ok) => ok ==> PlaceIs(s, r, Cancelling(l))
    case CancelMark(r) => PlaceIs(s, r, Cancelling(l))
    case CancelRelock(r) => PlaceIs(s, r, Cancelling(l)) && s.reqs[r].fn == CancelledFn
    case CancelInsert(r) => PlaceIs(s, r, Cancelling(l)) && s.reqs[r].fn == CancelledFn
    case _ => true
  }

  /** What holds of loop l: its locks, its request, its two queues. */
  ghost predicate LoopOk(s: State, l: nat)
    requires l < |s.loops|
  {
    var lp := s.loops[l];
    && (LoopHoldsMutex(lp.pc) <==> s.mutex == ByLoop(l))
    && (LoopHoldsOwn(lp.pc) <==> lp.owner == ByLoop(l))
    && (lp.owner.ByLoop? ==> lp.owner.l == l)
    && (lp.owner.ByWorker? ==>
          && lp.owner.i < |s.workers| && s.workers[lp.owner.i].HandBack?
          && s.workers[lp.owner.i].r < |s.reqs| && s.reqs[s.workers[lp.owner.i].r].loop == l)
    && lp.owner != ByCleaner
    && LoopPcOk(s, l, lp.pc)
    && (forall k :: 0 <= k < |lp.wq| ==> PlaceIs(s, lp.wq[k], Finished(l)))
    && (forall k :: 0 <= k < |lp.drain| ==> PlaceIs(s, lp.drain[k], Draining(l)))
    && NoDup(lp.wq) && NoDup(lp.drain)
    && (!lp.draining ==> lp.drain == [])
    && (lp.pc == DrainLock || lp.pc == DrainMove ==> !lp.draining)
  }

  /** What holds of request r: it is where its place says, and `work` and its link fit that place. */
  ghost predicate ReqOk(s: State, r: Req)
    requires r < |s.reqs|
  {
    var q := s.reqs[r];
    match q.place
    case Outside => true
    case Posting(l) => l < |s.loops| && q.loop == l && Posts(s.loops[l].pc, r) && q.fn == User
    case Queued => q.loop < |s.loops| && Work(r) in s.wq && q.fn == User && q.linked
    case AtWorker(i) => q.loop < |s.loops| && i < |s.workers| && Carries(s.workers[i], r) && q.fn == User && !q.linked
    case Cancelling(l) => l < |s.loops| && q.loop == l && Cancels(s.loops[l].pc, r) && q.fn != Null && q.linked
    case Finished(l) => l < |s.loops| && q.loop == l && r in s.loops[l].wq && q.fn != User && q.linked
    case Draining(l) => l < |s.loops| && q.loop == l && r in s.loops[l].drain && q.fn != User && q.linked
  }

  /** The global mutex and the global queue. */
  ghost predicate GlobalOk(s: State) {
    && (s.cleaner == ExitPost <==> s.mutex == ByCleaner)
    && (s.mutex.ByWorker? ==> s.mutex.i < |s.workers|)
    && (s.mutex.ByLoop? ==> s.mutex.l < |s.loops|)
    && NoDup(s.wq)
    && (forall k :: 0 <= k < |s.wq| && s.wq[k].Work? ==> PlaceIs(s, s.wq[k].r, Queued))
    && (Exit in s.wq <==> s.cleaner.Joining? || s.cleaner.Joined?)
  }

  ghost predicate WorkersOk(s: State) {
    forall i {:trigger s.workers[i]} {:trigger WorkerOk(s, i)} :: 0 <= i < |s.workers| ==>
      WorkerOk(s, i)
  }
  ghost predicate LoopsOk(s: State) {
    forall l {:trigger s.loops[l]} {:trigger LoopOk(s, l)} :: 0 <= l < |s.loops| ==>
      LoopOk(s, l)
  }
  ghost predicate ReqsOk(s: State) {
    forall r {:trigger s.reqs[r]} {:trigger ReqOk(s, r)} :: 0 <= r < |s.reqs| ==>
      ReqOk(s, r)
  }

  ghost predicate Inv(s: State) { GlobalOk(s) && WorkersOk(s) && LoopsOk(s) && ReqsOk(s) }

  lemma InitInv(s: State)
    requires Init(s)
    ensures Inv(s)
  {
  }

  // ----- control steps: they change program counters and locks but move no request ----

  predicate WorkerControl(step: Step) {
    step.WLock? || step.WWait? || step.WSeeExit? || step.WUnlock?
    || step.WRun? || step.WReturn? || step.WReacquire? || step.Spurious?
  }

  predicate LoopControl(step: Step) {
    step.LPostLock? || step.CallCancel? || step.LCancelLock? || step.LCancelLock2? || step.LCancelUnlock?
    || step.LCancelRelock? || step.DrainStart? || step.LDrainLock? || step.LDrainEnd?
  }

  lemma WorkerControlGlobal(s: State, step: Step)
    requires GlobalOk(s) && WorkersOk(s) && Enabled(s, step)
    requires WorkerControl(step)
    ensures GlobalOk(Apply(s, step))
  {
  }

  lemma WorkerControlWorkers(s: State, step: Step)
    requires WorkersOk(s) && Enabled(s, step)
    requires WorkerControl(step)
    ensures WorkersOk(Apply(s, step))
  {
  }

  lemma WorkerControlReqs(s: State, step: Step)
    requires ReqsOk(s) && Enabled(s, step)
    requires WorkerControl(step)
    ensures ReqsOk(Apply(s, step))
  {
  }

  lemma WorkerLockLoops(s: State, step: Step)
    requires LoopsOk(s) && GlobalOk(s) && WorkersOk(s) && Enabled(s, step)
    requires step.WLock? || step.WWait? || step.WUnlock? || step.WReacquire?
    ensures LoopsOk(Apply(s, step))
  {
  }

  lemma WorkerRunLoops(s: State, step: Step)
    requires LoopsOk(s) && Enabled(s, step)
    requires step.WSeeExit? || step.WRun? || step.WReturn? || step.Spurious?
    ensures LoopsOk(Apply(s, step))
  {
  }

  lemma CleanerGlobal(s: State, step: Step)
    requires GlobalOk(s) && WorkersOk(s) && Enabled(s, step)
    requires IsCleanerStep(step)
    ensures GlobalOk(Apply(s, step))
  {
  }

  lemma CleanerWorkers(s: State, step: Step)
    requires WorkersOk(s) && GlobalOk(s) && Enabled(s, step)
    requires IsCleanerStep(step)
    ensures WorkersOk(Apply(s, step))
  {
  }

  lemma CleanerLoops(s: State, step: Step)
    requires LoopsOk(s) && GlobalOk(s) && Enabled(s, step)
    requires IsCleanerStep(step)
    ensures LoopsOk(Apply(s, step))
  {
  }

  lemma CleanerReqs(s: State, step: Step)
    requires ReqsOk(s) && Enabled(s, step)
    requires IsCleanerStep(step)
    ensures ReqsOk(Apply(s, step))
  {
  }

  lemma LoopControlGlobalA(s: State, step: Step)
    requires GlobalOk(s) && LoopsOk(s) && Enabled(s, step)
    requires step.LPostLock? || step.CallCancel? || step.LCancelLock? || step.LCancelLock2? || step.LCancelUnlock?
    ensures GlobalOk(Apply(s, step))
  {
  }

  lemma LoopControlGlobalB(s: State, step: Step)
    requires GlobalOk(s) && Enabled(s, step)
    requires step.LCancelRelock? || step.DrainStart? || step.LDrainLock? || step.LDrainEnd?
    ensures GlobalOk(Apply(s, step))
  {
  }

  lemma LoopControlWorkersA(s: State, step: Step)
    requires WorkersOk(s) && LoopsOk(s) && Enabled(s, step)
    requires step.LPostLock? || step.CallCancel? || step.LCancelLock? || step.LCancelLock2? || step.LCancelUnlock?
    ensures WorkersOk(Apply(s, step))
  {
  }

  lemma LoopControlWorkersB(s: State, step: Step)
    requires WorkersOk(s) && LoopsOk(s) && Enabled(s, step)
    requires step.LCancelRelock? || step.DrainStart? || step.LDrainLock? || step.LDrainEnd?
    ensures WorkersOk(Apply(s, step))
  {
  }

  lemma LoopControlReqsA(s: State, step: Step)
    requires ReqsOk(s) && Enabled(s, step)
    requires step.LPostLock? || step.CallCancel? || step.LCancelLock? || step.LCancelLock2? || step.LCancelUnlock?
    ensures ReqsOk(Apply(s, step))
  {
  }

  lemma LoopControlReqsB(s: State, step: Step)
    requires ReqsOk(s) && Enabled(s, step)
    requires step.LCancelRelock? || step.DrainStart? || step.LDrainLock? || step.LDrainEnd?
    ensures ReqsOk(Apply(s, step))
  {
  }

  /** What holds of the other loops does not depend on the record of loop l. */
  lemma OneLoopKept(s: State, l: nat, lp: Loop)
    requires LoopsOk(s) && l < |s.loops| && LoopOk(SetLoop(s, l, lp), l)
    ensures LoopsOk(SetLoop(s, l, lp))
  {
  }

  lemma LPostLockLoops(s: State, l: nat)
    requires LoopsOk(s) && GlobalOk(s) && Enabled(s, LPostLock(l))
    ensures LoopsOk(Apply(s, LPostLock(l)))
  {
  }

  lemma CallCancelLoops(s: State, l: nat, r: Req)
    requires LoopsOk(s) && Enabled(s, CallCancel(l, r))
    ensures LoopsOk(Apply(s, CallCancel(l, r)))
  {
    OneLoopKept(s, l, Apply(s, CallCancel(l, r)).loops[l]);
  }

  lemma LCancelLockLoops(s: State, l: nat)
    requires LoopsOk(s) && GlobalOk(s) && Enabled(s, LCancelLock(l))
    ensures LoopsOk(Apply(s, LCancelLock(l)))
  {
  }

  lemma LCancelLock2Loops(s: State, l: nat)
    requires LoopsOk(s) && Enabled(s, LCancelLock2(l))
    ensures LoopsOk(Apply(s, LCancelLock2(l)))
  {
    OneLoopKept(s, l, Apply(s, LCancelLock2(l)).loops[l]);
  }

  lemma LCancelUnlockLoops(s: State, l: nat)
    requires LoopsOk(s) && GlobalOk(s) && Enabled(s, LCancelUnlock(l))
    ensures LoopsOk(Apply(s, LCancelUnlock(l)))
  {
  }

  lemma LCancelRelockLoops(s: State, l: nat)
    requires LoopsOk(s) && Enabled(s, LCancelRelock(l))
    ensures LoopsOk(Apply(s, LCancelRelock(l)))
  {
    OneLoopKept(s, l, Apply(s, LCancelRelock(l)).loops[l]);
  }

  lemma DrainStartLoops(s: State, l: nat)
    requires LoopsOk(s) && Enabled(s, DrainStart(l))
    ensures LoopsOk(Apply(s, DrainStart(l)))
  {
    OneLoopKept(s, l, Apply(s, DrainStart(l)).loops[l]);
  }

  lemma LDrainLockLoops(s: State, l: nat)
    requires LoopsOk(s) && Enabled(s, LDrainLock(l))
    ensures LoopsOk(Apply(s, LDrainLock(l)))
  {
    OneLoopKept(s, l, Apply(s, LDrainLock(l)).loops[l]);
  }

  lemma LDrainEndLoops(s: State, l: nat)
    requires LoopsOk(s) && Enabled(s, LDrainEnd(l))
    ensures LoopsOk(Apply(s, LDrainEnd(l)))
  {
    OneLoopKept(s, l, Apply(s, LDrainEnd(l)).loops[l]);
  }

  /** A step about a request of another loop leaves what holds of loop k. */
  lemma OtherLoopKept(s: State, t: State, k: nat, r: Req, q: Request)
    requires k < |s.loops| == |t.loops| && t.loops[k] == s.loops[k] && LoopOk(s, k)
    requires s.mutex == ByLoop(k) <==> t.mutex == ByLoop(k)
    requires |s.workers| == |t.workers|
    requires forall i :: 0 <= i < |s.workers| && s.workers[i].HandBack? ==> t.workers[i] == s.workers[i]
    requires r < |s.reqs| && t.reqs == s.reqs[r := q] && s.reqs[r].loop != k && q.loop != k
    requires s.reqs[r].place !in {Posting(k), Cancelling(k), Finished(k), Draining(k)}
    ensures LoopOk(t, k)
  {
  }

  // ----- steps that move a request ---------------------------------------------------

  lemma WTakeGlobal(s: State, i: nat)
    requires GlobalOk(s) && WorkersOk(s) && Enabled(s, WTake(i))
    ensures GlobalOk(Apply(s, WTake(i)))
  {
  }

  lemma WTakeWorkers(s: State, i: nat)
    requires WorkersOk(s) && GlobalOk(s) && Enabled(s, WTake(i))
    ensures WorkersOk(Apply(s, WTake(i)))
  {
  }

  lemma WTakeLoops(s: State, i: nat)
    requires LoopsOk(s) && GlobalOk(s) && WorkersOk(s) && Enabled(s, WTake(i))
    ensures LoopsOk(Apply(s, WTake(i)))
  {
  }

  lemma WTakeReqs(s: State, i: nat)
    requires ReqsOk(s) && GlobalOk(s) && Enabled(s, WTake(i))
    ensures ReqsOk(Apply(s, WTake(i)))
  {
  }

  lemma WLockLoopGlobal(s: State, i: nat)
    requires GlobalOk(s) && Enabled(s, WLockLoop(i))
    ensures GlobalOk(Apply(s, WLockLoop(i)))
  {
  }

  lemma WLockLoopWorkers(s: State, i: nat)
    requires WorkersOk(s) && Enabled(s, WLockLoop(i))
    ensures WorkersOk(Apply(s, WLockLoop(i)))
  {
  }

  lemma WLockLoopLoops(s: State, i: nat)
    requires LoopsOk(s) && ReqsOk(s) && Enabled(s, WLockLoop(i))
    ensures LoopsOk(Apply(s, WLockLoop(i)))
  {
  }

  lemma WLockLoopReqs(s: State, i: nat)
    requires ReqsOk(s) && Enabled(s, WLockLoop(i))
    ensures ReqsOk(Apply(s, WLockLoop(i)))
  {
  }

  lemma WHandBackGlobal(s: State, i: nat)
    requires GlobalOk(s) && WorkersOk(s) && Enabled(s, WHandBack(i))
    ensures GlobalOk(Apply(s, WHandBack(i)))
  {
  }

  lemma WHandBackWorkers(s: State, i: nat)
    requires WorkersOk(s) && Enabled(s, WHandBack(i))
    ensures WorkersOk(Apply(s, WHandBack(i)))
  {
  }

  lemma WHandBackReqs(s: State, i: nat)
    requires ReqsOk(s) && Enabled(s, WHandBack(i))
    ensures ReqsOk(Apply(s, WHandBack(i)))
  {
  }

  lemma CallSubmitGlobal(s: State, l: nat, r: Req)
    requires GlobalOk(s) && WorkersOk(s) && Enabled(s, CallSubmit(l,r))
    ensures GlobalOk(Apply(s, CallSubmit(l,r)))
  {
  }

  lemma CallSubmitWorkers(s: State, l: nat, r: Req)
    requires WorkersOk(s) && Enabled(s, CallSubmit(l,r))
    ensures WorkersOk(Apply(s, CallSubmit(l,r)))
  {
  }

  lemma CallSubmitLoops(s: State, l: nat, r: Req)
    requires LoopsOk(s) && WorkersOk(s) && Enabled(s, CallSubmit(l, r))
    ensures LoopsOk(Apply(s, CallSubmit(l, r)))
  {
    CallSubmitOwnLoop(s, l, r);
    forall k | 0 <= k < |s.loops| && k != l
      ensures LoopOk(Apply(s, CallSubmit(l, r)), k)
    {
      CallSubmitOtherLoop(s, l, r, k);
    }
  }

  lemma CallSubmitOwnLoop(s: State, l: nat, r: Req)
    requires l < |s.loops| && LoopOk(s, l) && WorkersOk(s) && Enabled(s, CallSubmit(l, r))
    ensures LoopOk(Apply(s, CallSubmit(l, r)), l)
  {
  }

  lemma CallSubmitOtherLoop(s: State, l: nat, r: Req, k: nat)
    requires WorkersOk(s) && Enabled(s, CallSubmit(l, r)) && k < |s.loops| && k != l && LoopOk(s, k)
    ensures LoopOk(Apply(s, CallSubmit(l, r)), k)
  {
    var t := Apply(s, CallSubmit(l, r));
    NobodyHasIt(s, t, r, t.reqs[r], k);
  }

  /** A change to a request that is nowhere leaves what holds of loop k, if it does not go there. */
  lemma NobodyHasIt(s: State, t: State, r: Req, q: Request, k: nat)
    requires k < |s.loops| == |t.loops| && t.loops[k] == s.loops[k] && LoopOk(s, k)
    requires t.mutex == s.mutex && t.workers == s.workers
    requires r < |s.reqs| && t.reqs == s.reqs[r := q] && s.reqs[r].place == Outside
    requires forall i :: 0 <= i < |s.workers| && s.workers[i].HandBack? ==> s.workers[i].r != r
    ensures LoopOk(t, k)
  {
  }

  lemma CallSubmitReqs(s: State, l: nat, r: Req)
    requires ReqsOk(s) && Enabled(s, CallSubmit(l,r))
    ensures ReqsOk(Apply(s, CallSubmit(l,r)))
  {
  }

  lemma LPostGlobal(s: State, l: nat, wake: int)
    requires GlobalOk(s) && LoopsOk(s) && Enabled(s, LPost(l,wake))
    ensures GlobalOk(Apply(s, LPost(l,wake)))
  {
  }

  lemma LPostWorkers(s: State, l: nat, wake: int)
    requires WorkersOk(s) && LoopsOk(s) && Enabled(s, LPost(l,wake))
    ensures WorkersOk(Apply(s, LPost(l,wake)))
  {
  }

  lemma LPostLoops(s: State, l: nat, wake: int)
    requires LoopsOk(s) && ReqsOk(s) && Enabled(s, LPost(l, wake))
    ensures LoopsOk(Apply(s, LPost(l, wake)))
  {
    LPostOwnLoop(s, l, wake);
    forall k | 0 <= k < |s.loops| && k != l
      ensures LoopOk(Apply(s, LPost(l, wake)), k)
    {
      LPostOtherLoop(s, l, wake, k);
    }
  }

  lemma LPostOwnLoop(s: State, l: nat, wake: int)
    requires l < |s.loops| && LoopOk(s, l) && Enabled(s, LPost(l, wake))
    ensures LoopOk(Apply(s, LPost(l, wake)), l)
  {
  }

  lemma LPostOtherLoop(s: State, l: nat, wake: int, k: nat)
    requires l < |s.loops| && LoopOk(s, l) && Enabled(s, LPost(l, wake)) && ReqOk(s, s.loops[l].pc.r)
    requires k < |s.loops| && k != l && LoopOk(s, k)
    ensures LoopOk(Apply(s, LPost(l, wake)), k)
  {
    var t, r := Apply(s, LPost(l, wake)), s.loops[l].pc.r;
    OtherLoopKept(s, t, k, r, t.reqs[r]);
  }

  lemma LPostReqs(s: State, l: nat, wake: int)
    requires ReqsOk(s) && GlobalOk(s) && LoopsOk(s) && Enabled(s, LPost(l,wake))
    ensures ReqsOk(Apply(s, LPost(l,wake)))
  {
  }

  lemma LCancelMarkGlobal(s: State, l: nat)
    requires GlobalOk(s) && WorkersOk(s) && Enabled(s, LCancelMark(l))
    ensures GlobalOk(Apply(s, LCancelMark(l)))
  {
  }

  lemma LCancelMarkWorkers(s: State, l: nat)
    requires WorkersOk(s) && GlobalOk(s) && Enabled(s, LCancelMark(l))
    ensures WorkersOk(Apply(s, LCancelMark(l)))
  {
  }

  lemma LCancelMarkLoops(s: State, l: nat)
    requires LoopsOk(s) && ReqsOk(s) && Enabled(s, LCancelMark(l))
    ensures LoopsOk(Apply(s, LCancelMark(l)))
  {
    LCancelMarkOwnLoop(s, l);
    forall k | 0 <= k < |s.loops| && k != l
      ensures LoopOk(Apply(s, LCancelMark(l)), k)
    {
      LCancelMarkOtherLoop(s, l, k);
    }
  }

  lemma LCancelMarkOwnLoop(s: State, l: nat)
    requires l < |s.loops| && LoopOk(s, l) && Enabled(s, LCancelMark(l))
    ensures LoopOk(Apply(s, LCancelMark(l)), l)
  {
    MarkedHere(s, Apply(s, LCancelMark(l)), l);
  }

  lemma MarkedHere(s: State, t: State, l: nat)
    requires l < |s.loops| && LoopOk(s, l) && s.loops[l].pc.CancelMark? && s.loops[l].pc.r < |s.reqs|
    requires t.mutex == s.mutex && t.workers == s.workers
    requires var r, lp := s.loops[l].pc.r, s.loops[l];
      t.reqs == s.reqs[r := s.reqs[r].(fn := CancelledFn)] && t.loops == s.loops[l := lp.(pc := CancelRelock(r))]
    ensures LoopOk(t, l)
  {
  }

  lemma LCancelMarkOtherLoop(s: State, l: nat, k: nat)
    requires l < |s.loops| && LoopOk(s, l) && Enabled(s, LCancelMark(l)) && ReqOk(s, s.loops[l].pc.r)
    requires k < |s.loops| && k != l && LoopOk(s, k)
    ensures LoopOk(Apply(s, LCancelMark(l)), k)
  {
    var t, r := Apply(s, LCancelMark(l)), s.loops[l].pc.r;
    OtherLoopKept(s, t, k, r, t.reqs[r]);
  }

  lemma LCancelMarkReqs(s: State, l: nat)
    requires ReqsOk(s) && LoopsOk(s) && Enabled(s, LCancelMark(l))
    ensures ReqsOk(Apply(s, LCancelMark(l)))
  {
  }

  lemma LCancelInsertGlobal(s: State, l: nat)
    requires GlobalOk(s) && LoopsOk(s) && Enabled(s, LCancelInsert(l))
    ensures GlobalOk(Apply(s, LCancelInsert(l)))
  {
  }

  lemma LCancelInsertWorkers(s: State, l: nat)
    requires WorkersOk(s) && LoopsOk(s) && Enabled(s, LCancelInsert(l))
    ensures WorkersOk(Apply(s, LCancelInsert(l)))
  {
  }

  lemma LCancelInsertLoops(s: State, l: nat)
    requires LoopsOk(s) && ReqsOk(s) && Enabled(s, LCancelInsert(l))
    ensures LoopsOk(Apply(s, LCancelInsert(l)))
  {
    LCancelInsertOwnLoop(s, l);
    forall k | 0 <= k < |s.loops| && k != l
      ensures LoopOk(Apply(s, LCancelInsert(l)), k)
    {
      LCancelInsertOtherLoop(s, l, k);
    }
  }

  lemma LCancelInsertOwnLoop(s: State, l: nat)
    requires l < |s.loops| && LoopOk(s, l) && Enabled(s, LCancelInsert(l))
    ensures LoopOk(Apply(s, LCancelInsert(l)), l)
  {
  }

  lemma LCancelInsertOtherLoop(s: State, l: nat, k: nat)
    requires l < |s.loops| && LoopOk(s, l) && Enabled(s, LCancelInsert(l)) && ReqOk(s, s.loops[l].pc.r)
    requires k < |s.loops| && k != l && LoopOk(s, k)
    ensures LoopOk(Apply(s, LCancelInsert(l)), k)
  {
    var t, r := Apply(s, LCancelInsert(l)), s.loops[l].pc.r;
    OtherLoopKept(s, t, k, r, t.reqs[r]);
  }

  lemma LCancelInsertReqs(s: State, l: nat)
    requires ReqsOk(s) && LoopsOk(s) && Enabled(s, LCancelInsert(l))
    ensures ReqsOk(Apply(s, LCancelInsert(l)))
  {
  }

  lemma LDrainMoveGlobal(s: State, l: nat)
    requires GlobalOk(s) && Enabled(s, LDrainMove(l))
    ensures GlobalOk(Apply(s, LDrainMove(l)))
  {
  }

  lemma LDrainMoveWorkers(s: State, l: nat)
    requires WorkersOk(s) && LoopsOk(s) && Enabled(s, LDrainMove(l))
    ensures WorkersOk(Apply(s, LDrainMove(l)))
  {
  }

  lemma LDrainMoveLoops(s: State, l: nat)
    requires LoopsOk(s) && WorkersOk(s) && Enabled(s, LDrainMove(l))
    ensures LoopsOk(Apply(s, LDrainMove(l)))
  {
    LDrainMoveOwnLoop(s, l);
    forall k | 0 <= k < |s.loops| && k != l
      ensures LoopOk(Apply(s, LDrainMove(l)), k)
    {
      LDrainMoveOtherLoop(s, l, k);
    }
  }

  lemma LDrainMoveOwnLoop(s: State, l: nat)
    requires l < |s.loops| && LoopOk(s, l) && WorkersOk(s) && Enabled(s, LDrainMove(l))
    ensures LoopOk(Apply(s, LDrainMove(l)), l)
  {
  }

  lemma LDrainMoveOtherLoop(s: State, l: nat, k: nat)
    requires Enabled(s, LDrainMove(l)) && k < |s.loops| && k != l && LoopOk(s, k)
    ensures LoopOk(Apply(s, LDrainMove(l)), k)
  {
    DrainedElsewhere(s, Apply(s, LDrainMove(l)), l, k);
  }

  /** The move of loop l's finished requests to its drain queue leaves what holds of loop k. */
  lemma DrainedElsewhere(s: State, t: State, l: nat, k: nat)
    requires k < |s.loops| == |t.loops| && k != l && t.loops[k] == s.loops[k] && LoopOk(s, k)
    requires t.mutex == s.mutex && t.workers == s.workers && |t.reqs| == |s.reqs|
    requires forall r :: 0 <= r < |s.reqs| ==>
      t.reqs[r] == if s.reqs[r].place == Finished(l) then s.reqs[r].(place := Draining(l)) else s.reqs[r]
    ensures LoopOk(t, k)
  {
  }

  lemma LDrainMoveReqs(s: State, l: nat)
    requires ReqsOk(s) && GlobalOk(s) && LoopsOk(s) && Enabled(s, LDrainMove(l))
    ensures ReqsOk(Apply(s, LDrainMove(l)))
  {
  }

  lemma LDoneGlobal(s: State, l: nat)
    requires GlobalOk(s) && LoopsOk(s) && Enabled(s, LDone(l))
    ensures GlobalOk(Apply(s, LDone(l)))
  {
  }

  lemma LDoneWorkers(s: State, l: nat)
    requires WorkersOk(s) && LoopsOk(s) && Enabled(s, LDone(l))
    ensures WorkersOk(Apply(s, LDone(l)))
  {
  }

  lemma LDoneLoops(s: State, l: nat)
    requires LoopsOk(s) && GlobalOk(s) && ReqsOk(s) && Enabled(s, LDone(l))
    ensures LoopsOk(Apply(s, LDone(l)))
  {
    LDoneOwnLoop(s, l);
    forall k | 0 <= k < |s.loops| && k != l
      ensures LoopOk(Apply(s, LDone(l)), k)
    {
      LDoneOtherLoop(s, l, k);
    }
  }

  lemma LDoneOwnLoop(s: State, l: nat)
    requires LoopsOk(s) && GlobalOk(s) && ReqsOk(s) && Enabled(s, LDone(l))
    ensures LoopOk(Apply(s, LDone(l)), l)
  {
  }

  lemma LDoneOtherLoop(s: State, l: nat, k: nat)
    requires l < |s.loops| && LoopOk(s, l) && Enabled(s, LDone(l))
    requires ReqOk(s, s.loops[l].drain[0])
    requires k < |s.loops| && k != l && LoopOk(s, k)
    ensures LoopOk(Apply(s, LDone(l)), k)
  {
    var t, r := Apply(s, LDone(l)), s.loops[l].drain[0];
    assert PlaceIs(s, r, Draining(l)) && ReqOk(s, r);
    OtherLoopKept(s, t, k, r, t.reqs[r]);
  }

  lemma LDoneReqs(s: State, l: nat)
    requires ReqsOk(s) && Enabled(s, LDone(l))
    ensures ReqsOk(Apply(s, LDone(l)))
  {
  }

  lemma WHandBackOwnLoop(s: State, i: nat)
    requires WorkersOk(s) && LoopsOk(s) && ReqsOk(s) && Enabled(s, WHandBack(i))
    ensures LoopOk(Apply(s, WHandBack(i)), s.reqs[s.workers[i].r].loop)
  {
  }

  lemma WHandBackLoops(s: State, i: nat)
    requires WorkersOk(s) && LoopsOk(s) && ReqsOk(s) && Enabled(s, WHandBack(i))
    ensures LoopsOk(Apply(s, WHandBack(i)))
  {
    WHandBackOwnLoop(s, i);
    var l := s.reqs[s.workers[i].r].loop;
    forall k | 0 <= k < |s.loops| && k != l
      ensures LoopOk(Apply(s, WHandBack(i)), k)
    {
      WHandBackOtherLoop(s, i, k);
    }
  }

  lemma WHandBackOtherLoop(s: State, i: nat, k: nat)
    requires WorkersOk(s) && LoopsOk(s) && Enabled(s, WHandBack(i))
    requires k < |s.loops| && k != s.reqs[s.workers[i].r].loop
    ensures LoopOk(Apply(s, WHandBack(i)), k)
  {
  }

  /** QUEUE_REMOVE reaches no queue but the global one and the two of the request's own loop. */
  lemma UnlinkIsLocal(s: State, l: nat, r: Req)
    requires LoopsOk(s) && ReqsOk(s) && l < |s.loops| && r < |s.reqs| && s.reqs[r].loop == l
    ensures Unlink(s, r) == s.(wq := Without(s.wq, Work(r)), loops := s.loops[l := s.loops[l].(
              wq := Without(s.loops[l].wq, r), drain := Without(s.loops[l].drain, r))])
  {
    var lp := s.loops[l].(wq := Without(s.loops[l].wq, r), drain := Without(s.loops[l].drain, r));
    var a, b := Unlink(s, r).loops, s.loops[l := lp];
    forall k | 0 <= k < |s.loops|
      ensures a[k] == b[k]
    {
      if k != l { NotElsewhere(s, k, r); }
    }
    assert a == b;
  }

  lemma NotElsewhere(s: State, k: nat, r: Req)
    requires k < |s.loops| && LoopOk(s, k) && r < |s.reqs| && ReqOk(s, r) && s.reqs[r].loop != k
    ensures r !in s.loops[k].wq && r !in s.loops[k].drain
  {
  }

  /** The state after a cancel that succeeds, without the comprehension of Unlink. */
  ghost function AfterUnlink(s: State, l: nat): State
    requires Enabled(s, LCancelTest(l))
  {
    var r := s.loops[l].pc.r;
    var lp := s.loops[l];
    s.(wq := Without(s.wq, Work(r)),
       loops := s.loops[l := lp.(wq := Without(lp.wq, r), drain := Without(lp.drain, r),
                                 pc := CancelUnlock(r, true), owner := Free)],
       reqs := s.reqs[r := s.reqs[r].(place := Cancelling(l))],
       log := s.log + [CancelReturns(r, true)])
  }

  lemma CancelTestState(s: State, l: nat)
    requires LoopsOk(s) && ReqsOk(s) && Enabled(s, LCancelTest(l)) && Cancellable(s.reqs[s.loops[l].pc.r])
    ensures Apply(s, LCancelTest(l)) == AfterUnlink(s, l)
    ensures !s.reqs[s.loops[l].pc.r].place.AtWorker?
  {
    var r := s.loops[l].pc.r;
    assert LoopOk(s, l) && ReqOk(s, r);
    UnlinkIsLocal(s, l, r);
    HitState(s, l);
  }

  lemma HitState(s: State, l: nat)
    requires Enabled(s, LCancelTest(l)) && Cancellable(s.reqs[s.loops[l].pc.r])
    requires var r, lp := s.loops[l].pc.r, s.loops[l];
      Unlink(s, r) == s.(wq := Without(s.wq, Work(r)),
                         loops := s.loops[l := lp.(wq := Without(lp.wq, r), drain := Without(lp.drain, r))])
    ensures Apply(s, LCancelTest(l)) == AfterUnlink(s, l)
  {
  }

  lemma CancelHitGlobal(s: State, l: nat)
    requires Inv(s) && Enabled(s, LCancelTest(l)) && Cancellable(s.reqs[s.loops[l].pc.r])
    ensures GlobalOk(AfterUnlink(s, l))
  {
    var r := s.loops[l].pc.r;
    var wq := Without(s.wq, Work(r));
    forall k | 0 <= k < |wq| && wq[k].Work?
      ensures PlaceIs(AfterUnlink(s, l), wq[k].r, Queued)
    {
      assert wq[k] in wq;
      assert wq[k] in s.wq && wq[k].r != r;
    }
  }

  lemma CancelHitWorkers(s: State, l: nat)
    requires Inv(s) && Enabled(s, LCancelTest(l)) && Cancellable(s.reqs[s.loops[l].pc.r])
    ensures WorkersOk(AfterUnlink(s, l))
  {
    CancelTestState(s, l);
  }

  lemma CancelHitOwnLoop(s: State, l: nat)
    requires Inv(s) && Enabled(s, LCancelTest(l)) && Cancellable(s.reqs[s.loops[l].pc.r])
    ensures LoopOk(AfterUnlink(s, l), l)
  {
    var r := s.loops[l].pc.r;
    var t := AfterUnlink(s, l);
    assert LoopOk(s, l);
    forall k | 0 <= k < |t.loops[l].wq|
      ensures PlaceIs(t, t.loops[l].wq[k], Finished(l))
    {
      assert t.loops[l].wq[k] in t.loops[l].wq;
      assert t.loops[l].wq[k] in s.loops[l].wq;
    }
    forall k | 0 <= k < |t.loops[l].drain|
      ensures PlaceIs(t, t.loops[l].drain[k], Draining(l))
    {
      assert t.loops[l].drain[k] in t.loops[l].drain;
      assert t.loops[l].drain[k] in s.loops[l].drain;
    }
  }

  lemma CancelHitLoops(s: State, l: nat)
    requires Inv(s) && Enabled(s, LCancelTest(l)) && Cancellable(s.reqs[s.loops[l].pc.r])
    ensures LoopsOk(AfterUnlink(s, l))
  {
    CancelHitOwnLoop(s, l);
    forall k | 0 <= k < |s.loops| && k != l
      ensures LoopOk(AfterUnlink(s, l), k)
    {
      CancelHitOtherLoop(s, l, k);
    }
  }

  lemma CancelHitOtherLoop(s: State, l: nat, k: nat)
    requires LoopsOk(s) && ReqsOk(s) && Enabled(s, LCancelTest(l)) && Cancellable(s.reqs[s.loops[l].pc.r])
    requires k < |s.loops| && k != l
    ensures LoopOk(AfterUnlink(s, l), k)
  {
    var t, r := AfterUnlink(s, l), s.loops[l].pc.r;
    assert LoopOk(s, k) && LoopOk(s, l) && ReqOk(s, r);
    OtherLoopKept(s, t, k, r, t.reqs[r]);
  }

  lemma CancelHitReqs(s: State, l: nat)
    requires Inv(s) && Enabled(s, LCancelTest(l)) && Cancellable(s.reqs[s.loops[l].pc.r])
    ensures ReqsOk(AfterUnlink(s, l))
  {
    forall q | 0 <= q < |s.reqs| ensures ReqOk(AfterUnlink(s, l), q) { CancelHitReq(s, l, q); }
  }

  lemma CancelHitReq(s: State, l: nat, q: Req)
    requires GlobalOk(s) && LoopsOk(s) && Enabled(s, LCancelTest(l)) && Cancellable(s.reqs[s.loops[l].pc.r])
    requires q < |s.reqs| && ReqOk(s, q)
    ensures ReqOk(AfterUnlink(s, l), q)
  {
  }

  lemma CancelMiss(s: State, l: nat)
    requires GlobalOk(s) && LoopsOk(s) && Enabled(s, LCancelTest(l)) && !Cancellable(s.reqs[s.loops[l].pc.r])
    ensures GlobalOk(Apply(s, LCancelTest(l))) && LoopsOk(Apply(s, LCancelTest(l)))
  {
  }

  lemma CancelMissReqs(s: State, l: nat)
    requires Inv(s) && Enabled(s, LCancelTest(l)) && !Cancellable(s.reqs[s.loops[l].pc.r])
    ensures WorkersOk(Apply(s, LCancelTest(l))) && ReqsOk(Apply(s, LCancelTest(l)))
  {
  }

  lemma CancelTestInv(s: State, l: nat)
    requires Inv(s) && Enabled(s, LCancelTest(l))
    ensures Inv(Apply(s, LCancelTest(l)))
  {
    if Cancellable(s.reqs[s.loops[l].pc.r]) {
      CancelTestState(s, l);
      CancelHitGlobal(s, l);
      CancelHitWorkers(s, l);
      CancelHitLoops(s, l);
      CancelHitReqs(s, l);
    } else {
      CancelMiss(s, l);
      CancelMissReqs(s, l);
    }
  }

  lemma WorkerControlInv(s: State, step: Step)
    requires Inv(s) && Enabled(s, step) && WorkerControl(step)
    ensures Inv(Apply(s, step))
  {
    WorkerControlGlobal(s, step);
    WorkerControlWorkers(s, step);
    WorkerControlReqs(s, step);
    if step.WSeeExit? || step.WRun? || step.WReturn? || step.Spurious? {
      WorkerRunLoops(s, step);
    } else {
      WorkerLockLoops(s, step);
    }
  }

  lemma CleanerInv(s: State, step: Step)
    requires Inv(s) && Enabled(s, step) && IsCleanerStep(step)
    ensures Inv(Apply(s, step))
  {
    CleanerGlobal(s, step);
    CleanerWorkers(s, step);
    CleanerLoops(s, step);
    CleanerReqs(s, step);
  }

  lemma LoopControlA(s: State, step: Step)
    requires Inv(s) && Enabled(s, step)
    requires step.LPostLock? || step.CallCancel? || step.LCancelLock? || step.LCancelLock2? || step.LCancelUnlock?
    ensures GlobalOk(Apply(s, step)) && WorkersOk(Apply(s, step)) && ReqsOk(Apply(s, step))
  {
    LoopControlGlobalA(s, step);
    LoopControlWorkersA(s, step);
    LoopControlReqsA(s, step);
  }

  lemma LoopControlB(s: State, step: Step)
    requires Inv(s) && Enabled(s, step)
    requires step.LCancelRelock? || step.DrainStart? || step.LDrainLock? || step.LDrainEnd?
    ensures GlobalOk(Apply(s, step)) && WorkersOk(Apply(s, step)) && ReqsOk(Apply(s, step))
  {
    LoopControlGlobalB(s, step);
    LoopControlWorkersB(s, step);
    LoopControlReqsB(s, step);
  }

  lemma LoopControlInv(s: State, step: Step)
    requires Inv(s) && Enabled(s, step) && LoopControl(step)
    ensures Inv(Apply(s, step))
  {
    match step
    case LPostLock(l) => LPostLockLoops(s, l); LoopControlA(s, step);
    case CallCancel(l, r) => CallCancelLoops(s, l, r); LoopControlA(s, step);
    case LCancelLock(l) => LCancelLockLoops(s, l); LoopControlA(s, step);
    case LCancelLock2(l) => LCancelLock2Loops(s, l); LoopControlA(s, step);
    case LCancelUnlock(l) => LCancelUnlockLoops(s, l); LoopControlA(s, step);
    case LCancelRelock(l) => LCancelRelockLoops(s, l); LoopControlB(s, step);
    case DrainStart(l) => DrainStartLoops(s, l); LoopControlB(s, step);
    case LDrainLock(l) => LDrainLockLoops(s, l); LoopControlB(s, step);
    case LDrainEnd(l) => LDrainEndLoops(s, l); LoopControlB(s, step);
  }

  lemma WTakeInv(s: State, i: nat)
    requires Inv(s) && Enabled(s, WTake(i))
    ensures Inv(Apply(s, WTake(i)))
  {
    WTakeGlobal(s, i);
    WTakeWorkers(s, i);
    WTakeLoops(s, i);
    WTakeReqs(s, i);
  }

  lemma WLockLoopInv(s: State, i: nat)
    requires Inv(s) && Enabled(s, WLockLoop(i))
    ensures Inv(Apply(s, WLockLoop(i)))
  {
    WLockLoopGlobal(s, i);
    WLockLoopWorkers(s, i);
    WLockLoopLoops(s, i);
    WLockLoopReqs(s, i);
  }

  lemma WHandBackInv(s: State, i: nat)
    requires Inv(s) && Enabled(s, WHandBack(i))
    ensures Inv(Apply(s, WHandBack(i)))
  {
    WHandBackGlobal(s, i);
    WHandBackWorkers(s, i);
    WHandBackLoops(s, i);
    WHandBackReqs(s, i);
  }

  lemma CallSubmitInv(s: State, l: nat, r: Req)
    requires Inv(s) && Enabled(s, CallSubmit(l, r))
    ensures Inv(Apply(s, CallSubmit(l, r)))
  {
    CallSubmitGlobal(s, l, r);
    CallSubmitWorkers(s, l, r);
    CallSubmitLoops(s, l, r);
    CallSubmitReqs(s, l, r);
  }

  lemma LPostInv(s: State, l: nat, wake: int)
    requires Inv(s) && Enabled(s, LPost(l, wake))
    ensures Inv(Apply(s, LPost(l, wake)))
  {
    LPostGlobal(s, l, wake);
    LPostWorkers(s, l, wake);
    LPostLoops(s, l, wake);
    LPostReqs(s, l, wake);
  }

  lemma LCancelMarkInv(s: State, l: nat)
    requires Inv(s) && Enabled(s, LCancelMark(l))
    ensures Inv(Apply(s, LCancelMark(l)))
  {
    LCancelMarkGlobal(s, l);
    LCancelMarkWorkers(s, l);
    LCancelMarkLoops(s, l);
    LCancelMarkReqs(s, l);
  }

  lemma LCancelInsertInv(s: State, l: nat)
    requires Inv(s) && Enabled(s, LCancelInsert(l))
    ensures Inv(Apply(s, LCancelInsert(l)))
  {
    LCancelInsertGlobal(s, l);
    LCancelInsertWorkers(s, l);
    LCancelInsertLoops(s, l);
    LCancelInsertReqs(s, l);
  }

  lemma LDrainMoveInv(s: State, l: nat)
    requires Inv(s) && Enabled(s, LDrainMove(l))
    ensures Inv(Apply(s, LDrainMove(l)))
  {
    LDrainMoveGlobal(s, l);
    LDrainMoveWorkers(s, l);
    LDrainMoveLoops(s, l);
    LDrainMoveReqs(s, l);
  }

  lemma LDoneInv(s: State, l: nat)
    requires Inv(s) && Enabled(s, LDone(l))
    ensures Inv(Apply(s, LDone(l)))
  {
    LDoneGlobal(s, l);
    LDoneWorkers(s, l);
    LDoneLoops(s, l);
    LDoneReqs(s, l);
  }

  /** Every step keeps the invariant. */
  lemma StepInv(s: State, step: Step)
    requires Inv(s) && Enabled(s, step)
    ensures Inv(Apply(s, step))
  {
    if WorkerControl(step) {
      WorkerControlInv(s, step);
    } else if IsCleanerStep(step) {
      CleanerInv(s, step);
    } else if LoopControl(step) {
      LoopControlInv(s, step);
    } else {
      match step
      case LCancelTest(l) => CancelTestInv(s, l);
      case WTake(i) => WTakeInv(s, i);
      case WLockLoop(i) => WLockLoopInv(s, i);
      case WHandBack(i) => WHandBackInv(s, i);
      case CallSubmit(l, r) => CallSubmitInv(s, l, r);
      case LPost(l, wake) => LPostInv(s, l, wake);
      case LCancelMark(l) => LCancelMarkInv(s, l);
      case LCancelInsert(l) => LCancelInsertInv(s, l);
      case LDrainMove(l) => LDrainMoveInv(s, l);
      case LDone(l) => LDoneInv(s, l);
    }
  }
}
