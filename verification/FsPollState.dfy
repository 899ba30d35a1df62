/**
 * The fs-poll watchers of a loop as a state machine (deps/libuv/src/fs-poll.c). A poll_ctx is
 * known by its address; the loop's own lists hold addresses too, so a dangling one is visible.
 */
module FsPollState {
  import opened ChangeDetector

  datatype Ctx = Ctx(
    parent: Option<nat>, busy: int, interval: nat, start: nat, cb: nat, path: string, statbuf: Stat)

  datatype Handle = Handle(active: bool, pollCtx: Option<nat>)

  datatype State = State(
    now: nat,
    handles: map<nat, Handle>,
    /** allocated contexts */
    ctxs: map<nat, Ctx>,
    /** contexts whose fs_req is in flight */
    stats: set<nat>,
    /** the context whose poll_cb is on the stack */
    running: Option<nat>,
    /** active timers and when they are due */
    armed: map<nat, nat>,
    /** timers passed to uv_close whose close callback has not run */
    closing: set<nat>,
    /** the results each context took notice of, and the user callbacks it made */
    heard: map<nat, seq<Result>>,
    told: map<nat, seq<Report>>,
    /** when each context was started */
    began: map<nat, nat>,
    /** by how much its timers have run late since, taken together */
    late: map<nat, nat>)

  const START := State(0, map[], map[], {}, None, map[], {}, map[], map[], map[], map[])

  /** What user code may do, from a callback or between loop iterations. */
  datatype Action =
    | InitHandle(h: nat)
    | StartHandle(h: nat, memory: Option<nat>, cb: nat, path: string, every: nat)
    | StopHandle(h: nat)
    | PassTime(ms: nat)

  /** What the loop may do: deliver a stat result, run an expired timer, finish closing one. */
  datatype Event =
    | User(action: Action)
    | StatDone(c: nat, result: Result, script: seq<Action>)
    | TimerExpires(c: nat)
    | TimerClosed(c: nat)

  // ----- what every reachable state satisfies -------------------------------------------------

  /** Every allocated context is in exactly one place, and only allocated ones are anywhere. */
  ghost predicate Placed(live: set<nat>, stats: set<nat>, running: Option<nat>, armed: set<nat>, closing: set<nat>) {
    && live == stats + armed + closing + (match running case None => {} case Some(c) => {c})
    && stats !! armed && stats !! closing && armed !! closing
    && (running.Some? ==> running.value !in stats + armed + closing)
  }

  ghost predicate Watches(handles: map<nat, Handle>, h: nat, c: nat) {
    h in handles && handles[h].pollCtx == Some(c)
  }

  ghost predicate Serves(ctxs: map<nat, Ctx>, c: nat, h: nat) {
    c in ctxs && ctxs[c].parent == Some(h)
  }

  /** An active handle and its context point at each other. */
  ghost predicate Linked(handles: map<nat, Handle>, ctxs: map<nat, Ctx>) {
    && (forall h :: h in handles ==> (handles[h].active <==> handles[h].pollCtx.Some?))
    && (forall h, c {:trigger Watches(handles, h, c)} {:trigger Serves(ctxs, c, h)} ::
          Watches(handles, h, c) <==> Serves(ctxs, c, h))
  }

  /** Only stopped contexts are closed; an armed timer belongs to one that is not stopped. */
  ghost predicate Owned(ctxs: map<nat, Ctx>, armed: set<nat>, closing: set<nat>) {
    && (forall c :: c in closing && c in ctxs ==> ctxs[c].parent == None)
    && (forall c :: c in armed && c in ctxs ==> ctxs[c].parent.Some?)
  }

  ghost predicate OnGrid(x: Ctx, due: nat) {
    x.interval > 0 && due > x.start && (due - x.start) % x.interval == 0
  }

  /** An armed timer is due whole intervals after the last poll began. */
  ghost predicate Timed(ctxs: map<nat, Ctx>, armed: map<nat, nat>, now: nat) {
    && (forall c :: c in ctxs ==> ctxs[c].interval > 0 && ctxs[c].start <= now)
    && (forall c :: c in armed && c in ctxs ==> OnGrid(ctxs[c], armed[c]))
  }

  /** What a context remembers, and what it reported, is what the change detector says. */
  ghost predicate Faithful(x: Ctx, rs: seq<Result>, reports: seq<Report>) {
    && (forall i :: 0 <= i < |rs| ==> Sane(rs[i]))
    && x.busy == Busy(rs)
    && x.statbuf == LastGood(rs)
    && reports == Reports(rs)
  }

  ghost predicate Detecting(ctxs: map<nat, Ctx>, running: Option<nat>,
      heard: map<nat, seq<Result>>, told: map<nat, seq<Report>>) {
    && (forall c :: c in ctxs ==> c in heard && c in told)
    && (forall c :: c in ctxs && c in heard && c in told && running != Some(c) ==>
          Faithful(ctxs[c], heard[c], told[c]))
  }

  ghost predicate Good(s: State) {
    && Placed(s.ctxs.Keys, s.stats, s.running, s.armed.Keys, s.closing)
    && Linked(s.handles, s.ctxs)
    && Owned(s.ctxs, s.armed.Keys, s.closing)
    && Timed(s.ctxs, s.armed, s.now)
    && Detecting(s.ctxs, s.running, s.heard, s.told)
  }

  lemma SameGood(s: State, t: State)
    requires Good(s) && s == t
    ensures Good(t)
  {
  }

  // ----- uv_close on a timer --------------------------------------------------------------

  /** Never twice, and never after the context was freed. */
  predicate CanClose(s: State, c: nat) { c in s.ctxs && c !in s.closing }

  function Closed(s: State, c: nat): State
    requires CanClose(s, c)
  { s.(armed := s.armed - {c}, closing := s.closing + {c}) }

  // ----- uv_fs_poll_stop ------------------------------------------------------------------

  /** What its two assertions demand, and uv_close. */
  predicate CanStop(s: State, h: nat) {
    && h in s.handles
    && (s.handles[h].active ==>
          && s.handles[h].pollCtx.Some?
          && var c := s.handles[h].pollCtx.value;
          && c in s.ctxs && s.ctxs[c].parent.Some? && (c in s.armed ==> CanClose(s, c)))
  }

  function Stopped(s: State, h: nat): State
    requires CanStop(s, h)
  {
    if !s.handles[h].active then s
    else
      var c := s.handles[h].pollCtx.value;
      var t := s.(
        ctxs := s.ctxs[c := s.ctxs[c].(parent := None)],
        handles := s.handles[h := Handle(false, None)]);
      if c in s.armed then Closed(t, c) else t
  }

  lemma LinkedStop(handles: map<nat, Handle>, ctxs: map<nat, Ctx>, h: nat)
    requires Linked(handles, ctxs) && h in handles && handles[h].active
    ensures var c := handles[h].pollCtx.value;
      && c in ctxs && ctxs[c].parent == Some(h)
      && Linked(handles[h := Handle(false, None)], ctxs[c := ctxs[c].(parent := None)])
  {
    var c := handles[h].pollCtx.value;
    assert Watches(handles, h, c) && Serves(ctxs, c, h);
    var hs, cs := handles[h := Handle(false, None)], ctxs[c := ctxs[c].(parent := None)];
    forall i, k ensures Watches(hs, i, k) <==> Serves(cs, k, i) {
      assert Watches(handles, i, k) <==> Serves(ctxs, k, i);
    }
  }

  /** A context may lose its parent without other consequences for what it remembers. */
  lemma DetectingStop(ctxs: map<nat, Ctx>, running: Option<nat>,
      heard: map<nat, seq<Result>>, told: map<nat, seq<Report>>, c: nat)
    requires Detecting(ctxs, running, heard, told) && c in ctxs
    ensures Detecting(ctxs[c := ctxs[c].(parent := None)], running, heard, told)
  {
  }

  lemma OwnedStop(ctxs: map<nat, Ctx>, armed: set<nat>, closing: set<nat>, c: nat)
    requires Owned(ctxs, armed, closing) && c in ctxs
    ensures Owned(ctxs[c := ctxs[c].(parent := None)], armed - {c}, closing + if c in armed then {c} else {})
  {
  }

  lemma TimedStop(ctxs: map<nat, Ctx>, armed: map<nat, nat>, now: nat, c: nat)
    requires Timed(ctxs, armed, now) && c in ctxs
    ensures Timed(ctxs[c := ctxs[c].(parent := None)], armed - {c}, now)
  {
  }

  lemma PlacedStop(live: set<nat>, stats: set<nat>, running: Option<nat>,
      armed: set<nat>, closing: set<nat>, c: nat)
    requires Placed(live, stats, running, armed, closing)
    ensures Placed(live, stats, running, armed - {c}, closing + if c in armed then {c} else {})
  {
  }

  lemma StopAllowed(s: State, h: nat)
    requires Good(s) && h in s.handles
    ensures CanStop(s, h)
  {
    if s.handles[h].active { LinkedStop(s.handles, s.ctxs, h); }
  }

  lemma StopGood(s: State, h: nat)
    requires Good(s) && h in s.handles
    ensures CanStop(s, h) && Good(Stopped(s, h))
  {
    StopAllowed(s, h);
    if s.handles[h].active {
      var c := s.handles[h].pollCtx.value;
      LinkedStop(s.handles, s.ctxs, h);
      DetectingStop(s.ctxs, s.running, s.heard, s.told, c);
      OwnedStop(s.ctxs, s.armed.Keys, s.closing, c);
      TimedStop(s.ctxs, s.armed, s.now, c);
      PlacedStop(s.ctxs.Keys, s.stats, s.running, s.armed.Keys, s.closing, c);
      StoppedFields(s, h);
    }
  }

  lemma StoppedFields(s: State, h: nat)
    requires CanStop(s, h) && s.handles[h].active
    ensures var c, t := s.handles[h].pollCtx.value, Stopped(s, h);
      && t.closing == s.closing + (if c in s.armed then {c} else {})
      && t.armed == s.armed - {c} && t.armed.Keys == s.armed.Keys - {c}
      && t.ctxs.Keys == s.ctxs.Keys
  {
  }

  // ----- uv_fs_poll_start -----------------------------------------------------------------

  /** memory is what the allocator returned: null, or an address not in use. */
  predicate CanStart(s: State, h: nat, memory: Option<nat>) {
    h in s.handles && (memory.Some? ==> memory.value !in s.ctxs)
  }

  function NewCtx(s: State, h: nat, cb: nat, path: string, interval: nat): Ctx {
    Ctx(Some(h), 0, if interval == 0 then 1 else interval, s.now, cb, path, ZERO)
  }

  function Started(s: State, h: nat, memory: Option<nat>, cb: nat, path: string, interval: nat): State
    requires CanStart(s, h, memory)
  {
    if s.handles[h].active || memory == None then s
    else
      var c := memory.value;
      s.(
        ctxs := s.ctxs[c := NewCtx(s, h, cb, path, interval)],
        stats := s.stats + {c},
        handles := s.handles[h := Handle(true, Some(c))],
        heard := s.heard[c := []],
        told := s.told[c := []],
        began := s.began[c := s.now],
        late := s.late[c := 0])
  }

  lemma LinkedStart(handles: map<nat, Handle>, ctxs: map<nat, Ctx>, h: nat, c: nat, x: Ctx)
    requires Linked(handles, ctxs) && h in handles && !handles[h].active
    requires c !in ctxs && x.parent == Some(h)
    ensures Linked(handles[h := Handle(true, Some(c))], ctxs[c := x])
  {
    var hs, cs := handles[h := Handle(true, Some(c))], ctxs[c := x];
    forall i, k ensures Watches(hs, i, k) <==> Serves(cs, k, i) {
      assert Watches(handles, i, k) <==> Serves(ctxs, k, i);
    }
  }

  lemma DetectingStart(ctxs: map<nat, Ctx>, running: Option<nat>,
      heard: map<nat, seq<Result>>, told: map<nat, seq<Report>>, c: nat, x: Ctx)
    requires Detecting(ctxs, running, heard, told) && x.busy == 0 && x.statbuf == ZERO
    ensures Detecting(ctxs[c := x], running, heard[c := []], told[c := []])
  {
  }

  lemma StartGood(s: State, h: nat, memory: Option<nat>, cb: nat, path: string, interval: nat)
    requires Good(s) && CanStart(s, h, memory)
    ensures Good(Started(s, h, memory, cb, path, interval))
  {
    if !s.handles[h].active && memory.Some? {
      var c, x := memory.value, NewCtx(s, h, cb, path, interval);
      LinkedStart(s.handles, s.ctxs, h, c, x);
      DetectingStart(s.ctxs, s.running, s.heard, s.told, c, x);
      PlacedStart(s.ctxs.Keys, s.stats, s.running, s.armed.Keys, s.closing, c);
      assert s.ctxs[c := x].Keys == s.ctxs.Keys + {c};
      assert c !in s.armed.Keys && c !in s.closing;
      OwnedStart(s.ctxs, s.armed.Keys, s.closing, c, x);
      TimedStart(s.ctxs, s.armed, s.now, c, x);
    }
  }

  lemma PlacedStart(live: set<nat>, stats: set<nat>, running: Option<nat>,
      armed: set<nat>, closing: set<nat>, c: nat)
    requires Placed(live, stats, running, armed, closing) && c !in live
    ensures Placed(live + {c}, stats + {c}, running, armed, closing)
  {
  }

  lemma OwnedStart(ctxs: map<nat, Ctx>, armed: set<nat>, closing: set<nat>, c: nat, x: Ctx)
    requires Owned(ctxs, armed, closing) && c !in armed && c !in closing
    ensures Owned(ctxs[c := x], armed, closing)
  {
  }

  lemma TimedStart(ctxs: map<nat, Ctx>, armed: map<nat, nat>, now: nat, c: nat, x: Ctx)
    requires Timed(ctxs, armed, now) && c !in armed && x.interval > 0 && x.start <= now
    ensures Timed(ctxs[c := x], armed, now)
  {
  }

  // ----- user code --------------------------------------------------------------------------

  predicate CanPerform(s: State, a: Action) {
    match a
    case InitHandle(h) => true
    case StartHandle(h, memory, _, _, _) => CanStart(s, h, memory)
    case StopHandle(h) => CanStop(s, h)
    case PassTime(_) => true
  }

  /** An action on a handle that does not exist, or a block that is in use, cannot happen. */
  function Performed(s: State, a: Action): State {
    if !CanPerform(s, a) then s
    else
      match a
      case InitHandle(h) => if h in s.handles then s else s.(handles := s.handles[h := Handle(false, None)])
      case StartHandle(h, memory, cb, path, every) => Started(s, h, memory, cb, path, every)
      case StopHandle(h) => Stopped(s, h)
      case PassTime(ms) => s.(now := s.now + ms)
  }

  /** What user code has to see to: the handle is there, and the allocator returns free memory. */
  predicate Proper(s: State, a: Action) {
    match a
    case StartHandle(h, memory, _, _, _) => CanStart(s, h, memory)
    case StopHandle(h) => h in s.handles
    case _ => true
  }

  /** Nothing else, and no assertion of the source, ever rules an action out. */
  lemma OnlyUserErrors(s: State, a: Action)
    requires Good(s)
    ensures CanPerform(s, a) <==> Proper(s, a)
  {
    if a.StopHandle? && a.h in s.handles { StopAllowed(s, a.h); }
  }

  /** s may go on to t while c stays on the stack: c is only ever stopped. */
  ghost predicate Kept(s: State, t: State, c: nat) {
    && t.running == s.running && t.now >= s.now
    && (c in s.ctxs && c in s.heard && c in s.told ==>
          && c in t.ctxs && (t.ctxs[c] == s.ctxs[c] || t.ctxs[c] == s.ctxs[c].(parent := None))
          && c in t.heard && t.heard[c] == s.heard[c]
          && c in t.told && t.told[c] == s.told[c])
  }

  lemma LinkedInit(handles: map<nat, Handle>, ctxs: map<nat, Ctx>, h: nat)
    requires Linked(handles, ctxs) && h !in handles
    ensures Linked(handles[h := Handle(false, None)], ctxs)
  {
    var hs := handles[h := Handle(false, None)];
    forall i, k ensures Watches(hs, i, k) <==> Serves(ctxs, k, i) {
      assert Watches(handles, i, k) <==> Serves(ctxs, k, i);
    }
  }

  lemma PerformKept(s: State, a: Action, c: nat)
    ensures Kept(s, Performed(s, a), c)
  {
  }

  lemma PerformGood(s: State, a: Action)
    requires Good(s)
    ensures Good(Performed(s, a))
  {
    match a
    case InitHandle(h) => if h !in s.handles { LinkedInit(s.handles, s.ctxs, h); }
    case StartHandle(h, memory, cb, path, every) =>
      if CanStart(s, h, memory) { StartGood(s, h, memory, cb, path, every); }
    case StopHandle(h) => if h in s.handles { StopGood(s, h); }
    case PassTime(_) =>
  }

  /** What the user callback does. */
  function Scripted(s: State, script: seq<Action>): State
    decreases |script|
  {
    if script == [] then s else Performed(Scripted(s, script[..|script| - 1]), script[|script| - 1])
  }

  lemma {:induction false} ScriptGood(s: State, script: seq<Action>, c: nat)
    requires Good(s)
    ensures Good(Scripted(s, script)) && Kept(s, Scripted(s, script), c)
    decreases |script|
  {
    if script != [] {
      var n := |script| - 1;
      ScriptGood(s, script[..n], c);
      PerformGood(Scripted(s, script[..n]), script[n]);
      PerformKept(Scripted(s, script[..n]), script[n], c);
    }
  }

  // ----- poll_cb ----------------------------------------------------------------------------

  predicate CanPoll(s: State, c: nat) {
    s.running == None && c in s.stats && c in s.ctxs && c in s.heard && c in s.told
  }

  function Entered(s: State, c: nat): State {
    s.(stats := s.stats - {c}, running := Some(c))
  }

  /** What c remembers of the result r. */
  function Recorded(s: State, c: nat, r: Result): State
    requires c in s.ctxs && c in s.heard
  {
    var x := match r
      case Failed(code) => s.ctxs[c].(busy := code)
      case Got(statbuf) => s.ctxs[c].(busy := 1, statbuf := statbuf);
    s.(ctxs := s.ctxs[c := x], heard := s.heard[c := s.heard[c] + [r]])
  }

  /** The user callback of c, if there is something to report, and then the memory of it. */
  function Noticed(s: State, c: nat, r: Result, script: seq<Action>): State
    requires c in s.ctxs && c in s.heard && c in s.told
  {
    var t := match Notify(s.ctxs[c].busy, s.ctxs[c].statbuf, r)
      case None => s
      case Some(e) => Scripted(s.(told := s.told[c := s.told[c] + [e]]), script);
    if c in t.ctxs && c in t.heard then Recorded(t, c, r) else t
  }

  predicate CanLeave(s: State, c: nat) {
    && c in s.ctxs && c !in s.closing
    && s.ctxs[c].interval > 0 && s.ctxs[c].start <= s.now
  }

  /** The end of poll_cb: a stopped context is closed, any other waits for its timer. */
  function Left(s: State, c: nat): State
    requires CanLeave(s, c)
  {
    var t := s.(running := None);
    if s.ctxs[c].parent == None then Closed(t, c)
    else t.(armed := s.armed[c := Due(s.ctxs[c].start, s.now, s.ctxs[c].interval)])
  }

  function Polled(s: State, c: nat, r: Result, script: seq<Action>): State
    requires CanPoll(s, c)
  {
    var t := Entered(s, c);
    var u := if s.ctxs[c].parent == None then t else Noticed(t, c, r, script);
    if CanLeave(u, c) then Left(u, c) else u
  }

  lemma EnterGood(s: State, c: nat)
    requires Good(s) && s.running == None && c in s.stats
    ensures Good(Entered(s, c)) && CanPoll(s, c)
    ensures Faithful(s.ctxs[c], s.heard[c], s.told[c])
  {
    assert c in s.ctxs.Keys;
  }

  lemma DueOnGrid(x: Ctx, now: nat)
    requires x.interval > 0 && x.start <= now
    ensures OnGrid(x, Due(x.start, now, x.interval))
  {
    DueIsNext(x.start, now, x.interval);
    AddMultiple(0, (now - x.start) / x.interval + 1, x.interval);
  }

  /** The context on the stack goes to the closing ones or to the armed ones. */
  lemma PlacedLeave(live: set<nat>, stats: set<nat>, armed: set<nat>, closing: set<nat>, c: nat)
    requires Placed(live, stats, Some(c), armed, closing)
    ensures Placed(live, stats, None, armed - {c}, closing + {c})
    ensures Placed(live, stats, None, armed + {c}, closing)
  {
  }

  lemma DetectingLeave(ctxs: map<nat, Ctx>, c: nat,
      heard: map<nat, seq<Result>>, told: map<nat, seq<Report>>)
    requires Detecting(ctxs, Some(c), heard, told) && c in ctxs && Faithful(ctxs[c], heard[c], told[c])
    ensures Detecting(ctxs, None, heard, told)
  {
  }

  lemma OwnedLeave(ctxs: map<nat, Ctx>, armed: set<nat>, closing: set<nat>, c: nat)
    requires Owned(ctxs, armed, closing) && c in ctxs
    ensures ctxs[c].parent == None ==> Owned(ctxs, armed - {c}, closing + {c})
    ensures ctxs[c].parent.Some? ==> Owned(ctxs, armed + {c}, closing)
  {
  }

  lemma TimedLeave(ctxs: map<nat, Ctx>, armed: map<nat, nat>, now: nat, c: nat)
    requires Timed(ctxs, armed, now) && c in ctxs
    ensures Timed(ctxs, armed - {c}, now)
    ensures Timed(ctxs, armed[c := Due(ctxs[c].start, now, ctxs[c].interval)], now)
  {
    DueOnGrid(ctxs[c], now);
  }

  lemma LeaveGood(s: State, c: nat)
    requires Good(s) && s.running == Some(c) && c in s.ctxs && Faithful(s.ctxs[c], s.heard[c], s.told[c])
    ensures CanLeave(s, c) && Good(Left(s, c))
  {
    PlacedLeave(s.ctxs.Keys, s.stats, s.armed.Keys, s.closing, c);
    DetectingLeave(s.ctxs, c, s.heard, s.told);
    OwnedLeave(s.ctxs, s.armed.Keys, s.closing, c);
    TimedLeave(s.ctxs, s.armed, s.now, c);
    var t := Left(s, c);
    assert t.armed.Keys == if s.ctxs[c].parent == None then s.armed.Keys - {c} else s.armed.Keys + {c};
  }

  lemma LinkedKeep(handles: map<nat, Handle>, ctxs: map<nat, Ctx>, c: nat, x: Ctx)
    requires Linked(handles, ctxs) && c in ctxs && x.parent == ctxs[c].parent
    ensures Linked(handles, ctxs[c := x])
    ensures x.parent.Some? ==> Watches(handles, x.parent.value, c)
  {
    var cs := ctxs[c := x];
    forall i, k ensures Watches(handles, i, k) <==> Serves(cs, k, i) {
      assert Watches(handles, i, k) <==> Serves(ctxs, k, i);
    }
    assert x.parent.Some? ==> Serves(ctxs, c, x.parent.value);
  }

  /** While c is on the stack its memory may change. */
  lemma RememberGood(s: State, c: nat, x: Ctx, rs: seq<Result>, reports: seq<Report>)
    requires Good(s) && s.running == Some(c) && c in s.ctxs
    requires x == s.ctxs[c].(busy := x.busy, statbuf := x.statbuf)
    ensures Good(s.(ctxs := s.ctxs[c := x], heard := s.heard[c := rs], told := s.told[c := reports]))
  {
    LinkedKeep(s.handles, s.ctxs, c, x);
    var cs := s.ctxs[c := x];
    assert cs.Keys == s.ctxs.Keys;
    assert Detecting(cs, s.running, s.heard[c := rs], s.told[c := reports]);
    assert Timed(cs, s.armed, s.now);
    assert Owned(cs, s.armed.Keys, s.closing);
  }

  /** The user callback runs with nothing changed but what c has told. */
  lemma CallGood(s: State, c: nat, e: Report, script: seq<Action>)
    requires Good(s) && s.running == Some(c) && c in s.ctxs && c in s.heard && c in s.told
    ensures var u := s.(told := s.told[c := s.told[c] + [e]]);
      Good(u) && Good(Scripted(u, script)) && Kept(u, Scripted(u, script), c)
  {
    var u := s.(told := s.told[c := s.told[c] + [e]]);
    RememberGood(s, c, s.ctxs[c], s.heard[c], u.told[c]);
    assert s.ctxs[c := s.ctxs[c]] == s.ctxs && s.heard[c := s.heard[c]] == s.heard;
    ScriptGood(u, script, c);
  }

  lemma RecordGood(s: State, c: nat, r: Result)
    requires Good(s) && s.running == Some(c) && c in s.ctxs && Sane(r)
    requires forall i :: 0 <= i < |s.heard[c]| ==> Sane(s.heard[c][i])
    requires s.ctxs[c].statbuf == LastGood(s.heard[c]) && s.told[c] == Reports(s.heard[c] + [r])
    ensures var t := Recorded(s, c, r);
      Good(t) && t.running == Some(c) && c in t.ctxs && Faithful(t.ctxs[c], t.heard[c], t.told[c])
  {
    var t, rs := Recorded(s, c, r), s.heard[c] + [r];
    Snoc(s.heard[c], r);
    RememberGood(s, c, t.ctxs[c], rs, s.told[c]);
    assert s.told[c := s.told[c]] == s.told;
  }

  lemma NoticeGood(s: State, c: nat, r: Result, script: seq<Action>)
    requires Good(s) && s.running == Some(c) && c in s.ctxs && Sane(r)
    requires Faithful(s.ctxs[c], s.heard[c], s.told[c])
    ensures var t := Noticed(s, c, r, script);
      && Good(t) && t.running == Some(c) && c in t.ctxs
      && t.heard[c] == s.heard[c] + [r]
      && Faithful(t.ctxs[c], t.heard[c], t.told[c])
  {
    NotifyIsChange(s.heard[c], r);
    Snoc(s.heard[c], r);
    match Notify(s.ctxs[c].busy, s.ctxs[c].statbuf, r)
    case None =>
      assert s.told[c] + [] == s.told[c];
      RecordGood(s, c, r);
    case Some(e) =>
      CallGood(s, c, e, script);
      RecordGood(Scripted(s.(told := s.told[c := s.told[c] + [e]]), script), c, r);
  }

  /** The result of a stopped context is dropped and the context closed. */
  lemma PollStopped(s: State, c: nat, r: Result, script: seq<Action>)
    requires Good(s) && s.running == None && c in s.stats && c in s.ctxs && s.ctxs[c].parent == None
    ensures CanPoll(s, c) && CanLeave(Entered(s, c), c)
    ensures var t := Polled(s, c, r, script);
      && Good(t) && t.running == None && c in t.closing
      && t.ctxs == s.ctxs && t.heard == s.heard && t.told == s.told
  {
    EnterGood(s, c);
    LeaveGood(Entered(s, c), c);
  }

  /** Any other is noticed, and then the context goes on or is closed. */
  lemma PollOnward(s: State, c: nat, r: Result, script: seq<Action>)
    requires Good(s) && s.running == None && c in s.stats && c in s.ctxs && s.ctxs[c].parent.Some? && Sane(r)
    ensures CanPoll(s, c)
    ensures var u := Noticed(Entered(s, c), c, r, script);
      && c in u.ctxs && c in u.heard && CanLeave(u, c) && Polled(s, c, r, script) == Left(u, c)
      && Good(Left(u, c)) && u.heard[c] == s.heard[c] + [r] && u.told[c] == Reports(s.heard[c] + [r])
  {
    EnterGood(s, c);
    NoticeGood(Entered(s, c), c, r, script);
    LeaveGood(Noticed(Entered(s, c), c, r, script), c);
  }

  /** One stat result: the change is reported, once, and the context goes on or is closed. */
  lemma PollGood(s: State, c: nat, r: Result, script: seq<Action>)
    requires Good(s) && s.running == None && c in s.stats && Sane(r)
    ensures CanPoll(s, c)
    ensures var t := Polled(s, c, r, script);
      && Good(t) && t.running == None && c in t.ctxs
      && (s.ctxs[c].parent == None ==>
            c in t.closing && t.ctxs == s.ctxs && t.heard == s.heard && t.told == s.told)
      && (s.ctxs[c].parent.Some? ==>
            && t.heard[c] == s.heard[c] + [r]
            && t.told[c] == s.told[c] + (match Change(s.heard[c], r) case None => [] case Some(e) => [e])
            && if t.ctxs[c].parent == None then c in t.closing
               else c in t.armed && t.armed[c] == Due(t.ctxs[c].start, t.now, t.ctxs[c].interval))
  {
    EnterGood(s, c);
    if s.ctxs[c].parent == None {
      PollStopped(s, c, r, script);
    } else {
      PollOnward(s, c, r, script);
      Snoc(s.heard[c], r);
    }
  }

  // ----- timer_cb and timer_close_cb ----------------------------------------------------------

  /** What its two assertions demand. */
  predicate CanExpire(s: State, c: nat) {
    && s.running == None && c in s.armed && s.armed[c] <= s.now && c in s.ctxs && s.ctxs[c].parent.Some?
    && var h := s.ctxs[c].parent.value; h in s.handles && s.handles[h].pollCtx == Some(c)
  }

  function Lateness(s: State, c: nat): nat { if c in s.late then s.late[c] else 0 }

  function Expired(s: State, c: nat): State
    requires CanExpire(s, c)
  {
    s.(armed := s.armed - {c}, ctxs := s.ctxs[c := s.ctxs[c].(start := s.now)], stats := s.stats + {c},
       late := s.late[c := Lateness(s, c) + (s.now - s.armed[c])])
  }

  lemma PlacedExpire(live: set<nat>, stats: set<nat>, armed: set<nat>, closing: set<nat>, c: nat)
    requires Placed(live, stats, None, armed, closing) && c in armed
    ensures Placed(live, stats + {c}, None, armed - {c}, closing)
  {
  }

  /** Only the start of c changes, and its timer is gone. */
  lemma RestExpire(ctxs: map<nat, Ctx>, armed: map<nat, nat>, closing: set<nat>, now: nat,
      heard: map<nat, seq<Result>>, told: map<nat, seq<Report>>, c: nat)
    requires Owned(ctxs, armed.Keys, closing) && Timed(ctxs, armed, now) && Detecting(ctxs, None, heard, told)
    requires c in ctxs
    ensures var cs := ctxs[c := ctxs[c].(start := now)];
      && Owned(cs, armed.Keys - {c}, closing) && Timed(cs, armed - {c}, now) && Detecting(cs, None, heard, told)
  {
  }

  lemma ExpireGood(s: State, c: nat)
    requires Good(s) && s.running == None && c in s.armed && s.armed[c] <= s.now
    ensures CanExpire(s, c) && Good(Expired(s, c))
  {
    assert c in s.armed.Keys && c in s.ctxs.Keys;
    LinkedKeep(s.handles, s.ctxs, c, s.ctxs[c].(start := s.now));
    PlacedExpire(s.ctxs.Keys, s.stats, s.armed.Keys, s.closing, c);
    RestExpire(s.ctxs, s.armed, s.closing, s.now, s.heard, s.told, c);
    var t := Expired(s, c);
    assert t.ctxs.Keys == s.ctxs.Keys && t.armed.Keys == s.armed.Keys - {c};
  }

  /** The context is freed. */
  function Freed(s: State, c: nat): State {
    s.(closing := s.closing - {c}, ctxs := s.ctxs - {c})
  }

  lemma LinkedFree(handles: map<nat, Handle>, ctxs: map<nat, Ctx>, c: nat)
    requires Linked(handles, ctxs) && c in ctxs && ctxs[c].parent == None
    ensures Linked(handles, ctxs - {c})
    ensures forall h :: h in handles ==> handles[h].pollCtx != Some(c)
  {
    var cs := ctxs - {c};
    forall i, k ensures Watches(handles, i, k) <==> Serves(cs, k, i) {
      assert Watches(handles, i, k) <==> Serves(ctxs, k, i);
    }
    forall h | h in handles ensures handles[h].pollCtx != Some(c) {
      assert Watches(handles, h, c) <==> Serves(ctxs, c, h);
    }
  }

  /** After that nothing refers to it: no list of the loop and no handle. */
  lemma FreeGood(s: State, c: nat)
    requires Good(s) && c in s.closing
    ensures c in s.ctxs && Good(Freed(s, c))
    ensures var t := Freed(s, c);
      && c !in t.stats && c !in t.armed && c !in t.closing && t.running != Some(c)
      && forall h :: h in t.handles ==> t.handles[h].pollCtx != Some(c)
  {
    assert c in s.ctxs.Keys;
    LinkedFree(s.handles, s.ctxs, c);
    var t := Freed(s, c);
    assert t.ctxs.Keys == s.ctxs.Keys - {c};
    assert Placed(t.ctxs.Keys, t.stats, t.running, t.armed.Keys, t.closing);
    assert Detecting(t.ctxs, t.running, t.heard, t.told);
  }
}
