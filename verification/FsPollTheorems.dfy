/** What holds in every state the fs-poll watchers of a loop can reach (deps/libuv/src/fs-poll.c). */
module FsPollTheorems {
  import opened ChangeDetector
  import opened FsPollState

  // ----- runs -------------------------------------------------------------------------------

  /** Events the loop cannot produce in s are passed over. */
  function Next(s: State, e: Event): State {
    match e
    case User(a) => Performed(s, a)
    case StatDone(c, r, script) => if CanPoll(s, c) && Sane(r) then Polled(s, c, r, script) else s
    case TimerExpires(c) => if CanExpire(s, c) then Expired(s, c) else s
    case TimerClosed(c) => if c in s.closing then Freed(s, c) else s
  }

  function After(events: seq<Event>): State {
    if events == [] then START else Next(After(events[..|events| - 1]), events[|events| - 1])
  }

  lemma NextGood(s: State, e: Event)
    requires Good(s) && s.running == None
    ensures Good(Next(s, e)) && Next(s, e).running == None
  {
    match e
    case User(a) =>
      PerformGood(s, a);
      PerformKept(s, a, 0);
    case StatDone(c, r, script) => if CanPoll(s, c) && Sane(r) { PollGood(s, c, r, script); }
    case TimerExpires(c) => if CanExpire(s, c) { ExpireGood(s, c); }
    case TimerClosed(c) => if c in s.closing { FreeGood(s, c); }
  }

  /** Every state of every run is good. */
  lemma {:induction false} ReachableGood(events: seq<Event>)
    ensures Good(After(events)) && After(events).running == None
    decreases |events|
  {
    if events == [] {
      assert Linked(START.handles, START.ctxs);
    } else {
      ReachableGood(events[..|events| - 1]);
      NextGood(After(events[..|events| - 1]), events[|events| - 1]);
    }
  }

  // ----- moments ----------------------------------------------------------------------------

  /**
   * A moment of a run: between two events, or inside a user callback that has done script so
   * far. The callback is made by the poll_cb of c for the result r, the event after events.
   */
  datatype Moment = Between(events: seq<Event>) | Inside(events: seq<Event>, c: nat, r: Result, script: seq<Action>)

  /** poll_cb of c makes a callback for r. */
  predicate Calls(s: State, c: nat, r: Result) {
    CanPoll(s, c) && Sane(r) && s.ctxs[c].parent.Some? && Notify(s.ctxs[c].busy, s.ctxs[c].statbuf, r).Some?
  }

  predicate Possible(m: Moment) { m.Inside? ==> Calls(After(m.events), m.c, m.r) }

  /** The state in which user code is entered. */
  function Calling(s: State, c: nat, r: Result): State
    requires Calls(s, c, r)
  {
    var e := Notify(s.ctxs[c].busy, s.ctxs[c].statbuf, r).value;
    Entered(s, c).(told := s.told[c := s.told[c] + [e]])
  }

  function At(m: Moment): State
    requires Possible(m)
  {
    match m
    case Between(events) => After(events)
    case Inside(events, c, r, script) => Scripted(Calling(After(events), c, r), script)
  }

  /** A callback that has done all of its script goes on to the state after the event. */
  lemma CallbackReturns(m: Moment)
    requires Possible(m) && m.Inside?
    ensures var s := At(m);
      && m.c in s.ctxs && m.c in s.heard && CanLeave(Recorded(s, m.c, m.r), m.c)
      && After(m.events + [StatDone(m.c, m.r, m.script)]) == Left(Recorded(s, m.c, m.r), m.c)
  {
    var events := m.events + [StatDone(m.c, m.r, m.script)];
    assert events[..|events| - 1] == m.events;
    ReachableGood(m.events);
    PollOnward(After(m.events), m.c, m.r, m.script);
    MomentGood(m);
  }

  /** Every state of every run is good, the states inside callbacks included. */
  lemma MomentGood(m: Moment)
    requires Possible(m)
    ensures Good(At(m)) && At(m).running == if m.Inside? then Some(m.c) else None
    ensures m.Inside? ==>
      var s := After(m.events);
      && m.c in At(m).ctxs && m.c in At(m).heard && m.c in At(m).told
      && At(m).heard[m.c] == s.heard[m.c] && At(m).told[m.c] == Calling(s, m.c, m.r).told[m.c]
      && At(m).ctxs[m.c].statbuf == s.ctxs[m.c].statbuf
      && Faithful(s.ctxs[m.c], s.heard[m.c], s.told[m.c])
  {
    ReachableGood(m.events);
    if m.Inside? {
      var s := After(m.events);
      EnterGood(s, m.c);
      CallGood(Entered(s, m.c), m.c, Notify(s.ctxs[m.c].busy, s.ctxs[m.c].statbuf, m.r).value, m.script);
    }
  }

  // ----- places, pointers, reports, assertions --------------------------------------------------

  datatype Place = StatInFlight | CallbackRunning | TimerArmed | TimerClosing

  predicate InPlace(s: State, c: nat, p: Place) {
    match p
    case StatInFlight => c in s.stats
    case CallbackRunning => s.running == Some(c)
    case TimerArmed => c in s.armed
    case TimerClosing => c in s.closing
  }

  /** At any moment a live context is in exactly one of four places, and only live ones are in any. */
  lemma OnePlace(m: Moment, c: nat)
    requires Possible(m)
    ensures c in At(m).ctxs <==> exists p :: InPlace(At(m), c, p)
    ensures forall p, q :: InPlace(At(m), c, p) && InPlace(At(m), c, q) ==> p == q
    ensures InPlace(At(m), c, CallbackRunning) <==> m.Inside? && m.c == c
  {
    MomentGood(m);
    var s := At(m);
    assert c in s.ctxs <==> c in s.ctxs.Keys;
    assert c in s.armed <==> c in s.armed.Keys;
    if c in s.ctxs {
      assert InPlace(s, c, StatInFlight) || InPlace(s, c, CallbackRunning)
        || InPlace(s, c, TimerArmed) || InPlace(s, c, TimerClosing);
    }
  }

  /** At any moment an active handle and its context point at each other, and no other pair does. */
  lemma PointersAgree(m: Moment, h: nat, c: nat)
    requires Possible(m) && h in At(m).handles
    ensures var s := At(m);
      && (s.handles[h].active <==> s.handles[h].pollCtx.Some?)
      && (s.handles[h].pollCtx == Some(c) <==> c in s.ctxs && s.ctxs[c].parent == Some(h))
  {
    MomentGood(m);
    assert Watches(At(m).handles, h, c) <==> Serves(At(m).ctxs, c, h);
  }

  /**
   * At any moment a context has reported what the change detector makes of its results; inside
   * its own callback that includes the result being reported, which it has not yet remembered.
   */
  lemma ReportsAreChanges(m: Moment, c: nat)
    requires Possible(m) && c in At(m).ctxs
    ensures var s := At(m);
      && c in s.heard && c in s.told && s.ctxs[c].statbuf == LastGood(s.heard[c])
      && s.told[c] == Reports(s.heard[c] + if m.Inside? && m.c == c then [m.r] else [])
  {
    MomentGood(m);
    var s := At(m);
    if m.Inside? && m.c == c {
      NotifyIsChange(s.heard[c], m.r);
      Snoc(s.heard[c], m.r);
    } else {
      assert Faithful(s.ctxs[c], s.heard[c], s.told[c]);
      assert s.heard[c] + [] == s.heard[c];
    }
  }

  /**
   * No assertion of the source can fail. At any moment, inside callbacks too, an action of user
   * code goes through unless user code neglects its own duties. Between events a delivered
   * result, an expired timer and a close callback find what they expect, and when a callback
   * returns the timer of its context is not yet closed.
   */
  lemma AssertionsHold(m: Moment, c: nat, a: Action)
    requires Possible(m)
    ensures CanPerform(At(m), a) <==> Proper(At(m), a)
    ensures m.Between? ==>
      var s := At(m);
      && (c in s.stats ==> CanPoll(s, c))
      && (c in s.armed && s.armed[c] <= s.now ==> CanExpire(s, c))
      && (c in s.closing ==> c in s.ctxs)
    ensures m.Inside? ==>
      m.c in At(m).ctxs && m.c in At(m).heard && CanLeave(Recorded(At(m), m.c, m.r), m.c)
  {
    MomentGood(m);
    var s := At(m);
    OnlyUserErrors(s, a);
    if m.Between? {
      if c in s.stats { EnterGood(s, c); }
      if c in s.armed && s.armed[c] <= s.now { ExpireGood(s, c); }
      if c in s.closing { FreeGood(s, c); }
    } else {
      CallbackReturns(m);
    }
  }

  // ----- the timer and the first start ------------------------------------------------------------

  /**
   * The last poll of x began whole intervals after the first start, put off by how late its
   * timers have run; and if they ran on time it was not put off at all.
   */
  ghost predicate InStep(first: nat, late: nat, x: Ctx, onTime: bool) {
    && x.interval > 0 && first + late <= x.start && (x.start - first - late) % x.interval == 0
    && (onTime ==> late == 0)
  }

  ghost predicate Regular(s: State, onTime: bool) {
    forall c {:trigger c in s.ctxs} :: c in s.ctxs ==>
      c in s.began && c in s.late && InStep(s.began[c], s.late[c], s.ctxs[c], onTime)
  }

  lemma StopRegular(s: State, h: nat, onTime: bool)
    requires Regular(s, onTime) && CanStop(s, h)
    ensures Regular(Stopped(s, h), onTime)
  {
    var t := Stopped(s, h);
    forall c | c in t.ctxs
      ensures c in t.began && c in t.late && InStep(t.began[c], t.late[c], t.ctxs[c], onTime)
    {
      assert c in s.ctxs && t.ctxs[c].interval == s.ctxs[c].interval && t.ctxs[c].start == s.ctxs[c].start;
    }
  }

  lemma StartRegular(s: State, h: nat, memory: Option<nat>, cb: nat, path: string, interval: nat, onTime: bool)
    requires Regular(s, onTime) && CanStart(s, h, memory)
    ensures Regular(Started(s, h, memory, cb, path, interval), onTime)
  {
    var t := Started(s, h, memory, cb, path, interval);
    forall c | c in t.ctxs
      ensures c in t.began && c in t.late && InStep(t.began[c], t.late[c], t.ctxs[c], onTime)
    {
      if memory == Some(c) && c !in s.ctxs {
        assert InStep(s.now, 0, NewCtx(s, h, cb, path, interval), onTime);
      } else {
        assert c in s.ctxs;
      }
    }
  }

  lemma PerformRegular(s: State, a: Action, onTime: bool)
    requires Regular(s, onTime)
    ensures Regular(Performed(s, a), onTime)
  {
    match a
    case StartHandle(h, memory, cb, path, every) =>
      if CanStart(s, h, memory) { StartRegular(s, h, memory, cb, path, every, onTime); }
    case StopHandle(h) => if CanStop(s, h) { StopRegular(s, h, onTime); }
    case _ =>
  }

  lemma {:induction false} ScriptRegular(s: State, script: seq<Action>, onTime: bool)
    requires Regular(s, onTime)
    ensures Regular(Scripted(s, script), onTime)
    decreases |script|
  {
    if script != [] {
      ScriptRegular(s, script[..|script| - 1], onTime);
      PerformRegular(Scripted(s, script[..|script| - 1]), script[|script| - 1], onTime);
    }
  }

  lemma NoticeRegular(s: State, c: nat, r: Result, script: seq<Action>, onTime: bool)
    requires Regular(s, onTime) && c in s.ctxs && c in s.heard && c in s.told
    ensures Regular(Noticed(s, c, r, script), onTime)
  {
    match Notify(s.ctxs[c].busy, s.ctxs[c].statbuf, r)
    case None =>
    case Some(e) => ScriptRegular(s.(told := s.told[c := s.told[c] + [e]]), script, onTime);
  }

  /** Entering and leaving poll_cb touch no context. */
  lemma EnterRegular(s: State, c: nat, onTime: bool)
    requires Regular(s, onTime)
    ensures Regular(Entered(s, c), onTime)
  {
  }

  lemma LeaveRegular(s: State, c: nat, onTime: bool)
    requires Regular(s, onTime) && CanLeave(s, c)
    ensures Regular(Left(s, c), onTime)
  {
    assert Left(s, c).ctxs == s.ctxs;
  }

  lemma PollRegular(s: State, c: nat, r: Result, script: seq<Action>, onTime: bool)
    requires Regular(s, onTime) && CanPoll(s, c)
    ensures Regular(Polled(s, c, r, script), onTime)
  {
    var t := Entered(s, c);
    EnterRegular(s, c, onTime);
    if s.ctxs[c].parent.Some? { NoticeRegular(t, c, r, script, onTime); }
    var u := if s.ctxs[c].parent == None then t else Noticed(t, c, r, script);
    if CanLeave(u, c) { LeaveRegular(u, c, onTime); }
  }

  /** The poll that a late timer begins is put off by as much. */
  lemma ExpireRegular(s: State, c: nat, onTime: bool)
    requires Regular(s, onTime) && Timed(s.ctxs, s.armed, s.now) && CanExpire(s, c)
    requires onTime ==> s.armed[c] == s.now
    ensures Regular(Expired(s, c), onTime)
  {
    assert OnGrid(s.ctxs[c], s.armed[c]);
    SameGrid(s.began[c] + s.late[c], s.ctxs[c].start, s.armed[c], s.ctxs[c].interval);
    var t := Expired(s, c);
    assert InStep(t.began[c], t.late[c], t.ctxs[c], onTime);
  }

  lemma NextRegular(s: State, e: Event, onTime: bool)
    requires Regular(s, onTime) && Timed(s.ctxs, s.armed, s.now)
    requires onTime && e.TimerExpires? && CanExpire(s, e.c) ==> s.armed[e.c] == s.now
    ensures Regular(Next(s, e), onTime)
  {
    match e
    case User(a) => PerformRegular(s, a, onTime);
    case StatDone(c, r, script) => if CanPoll(s, c) { PollRegular(s, c, r, script, onTime); }
    case TimerExpires(c) => if CanExpire(s, c) { ExpireRegular(s, c, onTime); }
    case TimerClosed(c) =>
  }

  /** Every timer ran at the moment it was due. */
  ghost predicate Punctual(events: seq<Event>) {
    events == [] ||
      var before, e := events[..|events| - 1], events[|events| - 1];
      && Punctual(before)
      && (e.TimerExpires? && CanExpire(After(before), e.c) ==> After(before).armed[e.c] == After(before).now)
  }

  lemma {:induction false} ReachableRegular(events: seq<Event>, onTime: bool)
    requires onTime ==> Punctual(events)
    ensures Regular(After(events), onTime)
    decreases |events|
  {
    if events != [] {
      var before := events[..|events| - 1];
      ReachableRegular(before, onTime);
      ReachableGood(before);
      NextRegular(After(before), events[|events| - 1], onTime);
    }
  }

  lemma MomentRegular(m: Moment)
    requires Possible(m)
    ensures Regular(At(m), false)
  {
    ReachableRegular(m.events, false);
    if m.Inside? { ScriptRegular(Calling(After(m.events), m.c, m.r), m.script, false); }
  }

  lemma GridAndLateness(first: nat, late: nat, x: Ctx, due: nat)
    requires InStep(first, late, x, false) && OnGrid(x, due)
    ensures first + late <= x.start < due
    ensures (due - first) % x.interval == 0 <==> late % x.interval == 0
  {
    SameGrid(first + late, x.start, due, x.interval);
    SameGrid(first, first + late, due, x.interval);
  }

  /**
   * At any moment an armed timer is due whole intervals after the first start exactly if the
   * timers of its context have been late by whole intervals, taken together.
   */
  lemma GridOfFirstStart(m: Moment, c: nat)
    requires Possible(m) && c in At(m).armed
    ensures var s := At(m);
      && c in s.ctxs && c in s.began && c in s.late && s.ctxs[c].interval > 0
      && s.began[c] + s.late[c] <= s.ctxs[c].start < s.armed[c]
      && ((s.armed[c] - s.began[c]) % s.ctxs[c].interval == 0 <==> s.late[c] % s.ctxs[c].interval == 0)
  {
    MomentGood(m);
    MomentRegular(m);
    var s := At(m);
    assert c in s.armed.Keys && c in s.ctxs.Keys;
    assert OnGrid(s.ctxs[c], s.armed[c]);
    GridAndLateness(s.began[c], s.late[c], s.ctxs[c], s.armed[c]);
  }

  lemma NeverLate(s: State, c: nat)
    requires Regular(s, true) && c in s.ctxs
    ensures c in s.began && c in s.late && s.late[c] == 0 && s.ctxs[c].interval > 0
    ensures s.began[c] <= s.ctxs[c].start && (s.ctxs[c].start - s.began[c]) % s.ctxs[c].interval == 0
  {
    assert InStep(s.began[c], s.late[c], s.ctxs[c], true);
  }

  /** If every timer runs on time, none has been late and all polls stay on the grid of the first start. */
  lemma PunctualIsRegular(events: seq<Event>, c: nat)
    requires Punctual(events) && c in After(events).ctxs
    ensures var s := After(events);
      && c in s.began && c in s.late && s.late[c] == 0 && s.ctxs[c].interval > 0
      && s.began[c] <= s.ctxs[c].start && (s.ctxs[c].start - s.began[c]) % s.ctxs[c].interval == 0
  {
    ReachableRegular(events, true);
    NeverLate(After(events), c);
  }

  /** A run in which a timer that is due at 110 runs at 113: the next one is due at 123. */
  const LATE := [
    User(InitHandle(0)), User(PassTime(100)), User(StartHandle(0, Some(1), 0, "", 10)),
    StatDone(1, Got(ZERO), []), User(PassTime(13)), TimerExpires(1), StatDone(1, Got(ZERO), [])]

  lemma AfterNext(events: seq<Event>, i: nat)
    requires i < |events|
    ensures After(events[..i + 1]) == Next(After(events[..i]), events[i])
  {
    assert events[..i + 1][..i] == events[..i];
  }

  /** Its states after the start, the first result, and the late timer. */
  const STARTED := State(100, map[0 := Handle(true, Some(1))],
    map[1 := Ctx(Some(0), 0, 10, 100, 0, "", ZERO)], {1}, None, map[], {},
    map[1 := []], map[1 := []], map[1 := 100], map[1 := 0])

  const WAITING := STARTED.(
    ctxs := map[1 := Ctx(Some(0), 1, 10, 100, 0, "", ZERO)], stats := {}, armed := map[1 := 110],
    heard := map[1 := [Got(ZERO)]])

  const DELAYED := WAITING.(
    now := 113, ctxs := map[1 := Ctx(Some(0), 1, 10, 113, 0, "", ZERO)], stats := {1}, armed := map[],
    late := map[1 := 3])

  lemma LateStart()
    ensures After(LATE[..3]) == STARTED
  {
    AfterNext(LATE, 0);
    AfterNext(LATE, 1);
    AfterNext(LATE, 2);
  }

  lemma LateWait()
    ensures Next(STARTED, StatDone(1, Got(ZERO), [])) == WAITING
  {
    assert [] + [Got(ZERO)] == [Got(ZERO)];
  }

  lemma LateExpiry()
    ensures Next(WAITING.(now := 113), TimerExpires(1)) == DELAYED
  {
  }

  lemma LateEnd()
    ensures var s := Next(DELAYED, StatDone(1, Got(ZERO), []));
      && s.armed == map[1 := 123] && s.began == DELAYED.began && s.late == DELAYED.late
      && 1 in s.ctxs && s.ctxs[1].interval == 10
  {
  }

  lemma LateWaits()
    ensures After(LATE[..4]) == WAITING
  {
    LateStart();
    LateWait();
    AfterNext(LATE, 3);
  }

  lemma LatePasses()
    ensures After(LATE[..5]) == WAITING.(now := 113)
  {
    LateWaits();
    AfterNext(LATE, 4);
  }

  lemma LatePolls()
    ensures After(LATE[..6]) == DELAYED
  {
    LatePasses();
    LateExpiry();
    AfterNext(LATE, 5);
  }

  lemma LateTimerDrifts()
    ensures After(LATE[..4]).armed == map[1 := 110] && After(LATE[..5]).now == 113
    ensures var s := After(LATE);
      && 1 in s.armed && 1 in s.ctxs && 1 in s.began && 1 in s.late
      && s.began[1] == 100 && s.late[1] == 3 && s.ctxs[1].interval == 10 && s.armed[1] == 123
  {
    LateWaits();
    LatePasses();
    LatePolls();
    LateEnd();
    AfterNext(LATE, 6);
    assert LATE[..7] == LATE;
  }

  // ----- after a stop -------------------------------------------------------------------------

  /** c goes on being stopped, silent, and closing if it was. */
  ghost predicate Silent(s: State, t: State, c: nat) {
    && c in s.ctxs && c in t.ctxs && t.ctxs[c] == s.ctxs[c]
    && c in s.told && c in t.told && t.told[c] == s.told[c]
    && (c in s.closing ==> c in t.closing)
  }

  lemma PerformSilent(s: State, a: Action, c: nat)
    requires Good(s) && c in s.ctxs && s.ctxs[c].parent == None
    ensures Silent(s, Performed(s, a), c)
  {
    assert c in s.told;
    if a.StopHandle? && a.h in s.handles && s.handles[a.h].active {
      LinkedStop(s.handles, s.ctxs, a.h);
    }
  }

  lemma {:induction false} ScriptSilent(s: State, script: seq<Action>, c: nat)
    requires Good(s) && c in s.ctxs && s.ctxs[c].parent == None
    ensures Silent(s, Scripted(s, script), c)
    decreases |script|
  {
    if script != [] {
      var n := |script| - 1;
      ScriptSilent(s, script[..n], c);
      ScriptGood(s, script[..n], c);
      PerformSilent(Scripted(s, script[..n]), script[n], c);
    }
  }

  lemma NoticeSilent(s: State, d: nat, r: Result, script: seq<Action>, c: nat)
    requires Good(s) && s.running == Some(d) && d in s.ctxs
    requires c in s.ctxs && s.ctxs[c].parent == None && c != d
    ensures Silent(s, Noticed(s, d, r, script), c)
  {
    match Notify(s.ctxs[d].busy, s.ctxs[d].statbuf, r)
    case None =>
    case Some(e) =>
      CallGood(s, d, e, script);
      ScriptSilent(s.(told := s.told[d := s.told[d] + [e]]), script, c);
  }

  lemma LeaveSilent(s: State, d: nat, c: nat)
    requires c in s.ctxs && c in s.told
    ensures Silent(s, if CanLeave(s, d) then Left(s, d) else s, c)
  {
  }

  lemma PollSilent(s: State, d: nat, r: Result, script: seq<Action>, c: nat)
    requires Good(s) && CanPoll(s, d) && c in s.ctxs && c in s.told && s.ctxs[c].parent == None
    ensures Silent(s, Polled(s, d, r, script), c)
  {
    EnterGood(s, d);
    var t := Entered(s, d);
    if s.ctxs[d].parent == None {
      LeaveSilent(t, d, c);
    } else {
      NoticeSilent(t, d, r, script, c);
      LeaveSilent(Noticed(t, d, r, script), d, c);
    }
  }

  lemma NextSilent(s: State, e: Event, c: nat)
    requires Good(s) && s.running == None && c in s.ctxs && s.ctxs[c].parent == None
    ensures Silent(s, Next(s, e), c) || (e == TimerClosed(c) && c in s.closing && c !in Next(s, e).ctxs)
  {
    assert c in s.told;
    match e
    case User(a) => PerformSilent(s, a, c);
    case StatDone(d, r, script) =>
      if CanPoll(s, d) && Sane(r) { PollSilent(s, d, r, script, c); }
    case TimerExpires(d) =>
    case TimerClosed(d) =>
  }

  /** The memory of c is freed by event i of later, before which it was silent and closing. */
  ghost predicate FreedBy(before: seq<Event>, later: seq<Event>, i: nat, c: nat) {
    && i < |later| && later[i] == TimerClosed(c)
    && Silent(After(before), After(before + later[..i]), c) && c in After(before + later[..i]).closing
    && c !in After(before + later[..i + 1]).ctxs
  }

  lemma {:induction false} OneMore(before: seq<Event>, later: seq<Event>, c: nat)
    requires later != [] && c in After(before).ctxs && After(before).ctxs[c].parent == None
    requires Silent(After(before), After(before + later[..|later| - 1]), c)
    ensures Silent(After(before), After(before + later), c) || FreedBy(before, later, |later| - 1, c)
  {
    var n := |later| - 1;
    var all, sooner := before + later, before + later[..n];
    assert all[..|all| - 1] == sooner && all[|all| - 1] == later[n];
    ReachableGood(sooner);
    NextSilent(After(sooner), later[n], c);
    assert later[..n + 1] == later;
  }

  /**
   * Once stopped, a context never calls back again: in every later state it is as it was, but
   * perhaps closing, unless its memory has been freed after its timer was closed.
   */
  lemma {:induction false} StoppedStaysSilent(before: seq<Event>, later: seq<Event>, c: nat)
    requires c in After(before).ctxs && After(before).ctxs[c].parent == None
    ensures Silent(After(before), After(before + later), c) || exists i: nat :: FreedBy(before, later, i, c)
    decreases |later|
  {
    ReachableGood(before);
    if later == [] {
      assert before + later == before;
      assert c in After(before).told;
    } else {
      var n := |later| - 1;
      StoppedStaysSilent(before, later[..n], c);
      if i: nat :| FreedBy(before, later[..n], i, c) {
        assert later[..n][..i] == later[..i] && later[..n][..i + 1] == later[..i + 1];
        assert FreedBy(before, later, i, c);
      } else {
        OneMore(before, later, c);
      }
    }
  }

  lemma {:induction false} ScriptsJoin(s: State, script: seq<Action>, more: seq<Action>)
    ensures Scripted(s, script + more) == Scripted(Scripted(s, script), more)
    decreases |more|
  {
    if more == [] {
      assert script + more == script;
    } else {
      var n := |more| - 1;
      assert (script + more)[..|script + more| - 1] == script + more[..n];
      ScriptsJoin(s, script, more[..n]);
    }
  }

  lemma StoppedSoFar(m: Moment, more: seq<Action>, d: nat)
    requires Possible(m) && m.Inside? && d in At(m).ctxs && At(m).ctxs[d].parent == None && d in At(m).told
    ensures Possible(m.(script := m.script + more)) && Silent(At(m), At(m.(script := m.script + more)), d)
  {
    MomentGood(m);
    ScriptSilent(At(m), more, d);
    ScriptsJoin(Calling(After(m.events), m.c, m.r), m.script, more);
  }

  /**
   * The same for a stop inside a callback, perhaps of the very context that calls back:
   * whatever more the callback does, the context has made its last report.
   */
  lemma StoppedInside(m: Moment, more: seq<Action>, d: nat)
    requires Possible(m) && m.Inside? && d in At(m).ctxs && At(m).ctxs[d].parent == None && d in At(m).told
    ensures var t := After(m.events + [StatDone(m.c, m.r, m.script + more)]);
      d in t.ctxs && t.ctxs[d].parent == None && d in t.told && t.told[d] == At(m).told[d]
  {
    StoppedSoFar(m, more, d);
    CallbackReturns(m.(script := m.script + more));
  }
}
