/** What uv_fs_poll_start and uv_fs_poll_stop do, and what follows for the rest of a run. */
module FsPollCalls {
  import opened ChangeDetector
  import opened FsPollState
  import opened FsPollTheorems

  // ----- one call -------------------------------------------------------------------------------

  /** Handles other than h are as they were. */
  ghost predicate OtherHandles(s: State, t: State, h: nat) {
    t.handles.Keys == s.handles.Keys && forall i :: i in s.handles && i != h ==> t.handles[i] == s.handles[i]
  }

  /** Contexts other than c are as they were, with all that the loop has in store for them. */
  ghost predicate OtherContexts(s: State, t: State, c: nat) {
    t.now == s.now && t.running == s.running && Others(s, t, c)
  }

  ghost predicate Others(s: State, t: State, c: nat) {
    && t.ctxs - {c} == s.ctxs - {c} && t.stats - {c} == s.stats - {c} && t.closing - {c} == s.closing - {c}
    && t.armed - {c} == s.armed - {c} && t.heard - {c} == s.heard - {c} && t.told - {c} == s.told - {c}
  }

  /** A stop stops: the handle lets go of its context, which lets go of it and closes an armed timer. */
  lemma StopStops(s: State, h: nat)
    requires Good(s) && h in s.handles
    ensures var t := Performed(s, StopHandle(h));
      && h in t.handles && !t.handles[h].active && t.handles[h].pollCtx == None && OtherHandles(s, t, h)
      && if !s.handles[h].active then t == s else
           s.handles[h].pollCtx.Some? &&
           var c := s.handles[h].pollCtx.value;
           && c in s.ctxs && c in t.ctxs && t.ctxs[c] == s.ctxs[c].(parent := None) && OtherContexts(s, t, c)
           && c !in t.armed && (c in t.closing <==> c in s.armed || c in s.closing) && (c in t.stats <==> c in s.stats)
           && t.heard == s.heard && t.told == s.told
  {
    StopAllowed(s, h);
    assert s.handles[h].active <==> s.handles[h].pollCtx.Some?;
  }

  /** A start of an idle handle begins to watch just what it was asked to; any other changes nothing. */
  lemma StartStarts(s: State, h: nat, memory: Option<nat>, cb: nat, path: string, every: nat)
    requires Good(s) && h in s.handles && (memory.Some? ==> memory.value !in s.ctxs)
    ensures var t := Performed(s, StartHandle(h, memory, cb, path, every));
      if s.handles[h].active || memory == None then t == s else
        var c := memory.value;
        && h in t.handles && t.handles[h].active && t.handles[h].pollCtx == Some(c) && OtherHandles(s, t, h)
        && c in t.ctxs && t.ctxs[c].parent == Some(h) && OtherContexts(s, t, c)
        && t.ctxs[c].cb == cb && t.ctxs[c].path == path && t.ctxs[c].interval == (if every == 0 then 1 else every)
        && t.ctxs[c].busy == 0 && t.ctxs[c].statbuf == ZERO && t.ctxs[c].start == s.now
        && c in t.stats && c !in t.armed && c !in t.closing
        && c in t.heard && t.heard[c] == [] && c in t.told && t.told[c] == []
  {
    if !s.handles[h].active && memory.Some? {
      var c, x := memory.value, NewCtx(s, h, cb, path, every);
      assert c !in s.ctxs.Keys && c !in s.armed.Keys;
      Rewritten(s.ctxs, c, x);
      Rewritten(s.heard, c, []);
      Rewritten(s.told, c, []);
      Regrouped(s.stats, c);
    }
  }

  /** An expired timer starts a stat of its own context; one that is not due does not. */
  lemma TimerPolls(s: State, c: nat)
    requires Good(s) && s.running == None && c in s.armed
    ensures var t := Next(s, TimerExpires(c));
      if s.armed[c] > s.now then t == s else
        && c in s.ctxs && c in t.ctxs && t.ctxs[c] == s.ctxs[c].(start := s.now) && c in t.stats && c !in t.armed
        && OtherContexts(s, t, c) && t.handles == s.handles && t.heard == s.heard && t.told == s.told
  {
    if s.armed[c] <= s.now {
      ExpireGood(s, c);
      Rewritten(s.armed, c, 0);
      Rewritten(s.ctxs, c, s.ctxs[c].(start := s.now));
      Regrouped(s.stats, c);
    }
  }

  lemma NoticeOthers(s: State, c: nat, r: Result)
    requires c in s.ctxs && c in s.heard && c in s.told
    ensures var t := Noticed(s, c, r, []); Others(s, t, c) && t.now == s.now && t.handles == s.handles
  {
    match Notify(s.ctxs[c].busy, s.ctxs[c].statbuf, r)
    case None => RecordOthers(s, c, r);
    case Some(e) =>
      var t := s.(told := s.told[c := s.told[c] + [e]]);
      Rewritten(s.told, c, t.told[c]);
      RecordOthers(t, c, r);
  }

  lemma RecordOthers(s: State, c: nat, r: Result)
    requires c in s.ctxs && c in s.heard
    ensures var t := Recorded(s, c, r); Others(s, t, c) && t.now == s.now && t.handles == s.handles
  {
    Rewritten(s.ctxs, c, Recorded(s, c, r).ctxs[c]);
    Rewritten(s.heard, c, Recorded(s, c, r).heard[c]);
  }

  lemma Rewritten<V>(m: map<nat, V>, c: nat, x: V)
    ensures m[c := x] - {c} == m - {c} && m - {c} - {c} == m - {c}
  {
  }

  lemma Regrouped(a: set<nat>, c: nat)
    ensures a + {c} - {c} == a - {c} && a - {c} - {c} == a - {c}
  {
  }

  lemma LeaveOthers(s: State, c: nat)
    requires CanLeave(s, c)
    ensures var t := Left(s, c); Others(s, t, c) && t.now == s.now && t.handles == s.handles && t.running == None
  {
    if s.ctxs[c].parent == None {
      Rewritten(s.armed, c, 0);
      Regrouped(s.closing, c);
    } else {
      Rewritten(s.armed, c, Due(s.ctxs[c].start, s.now, s.ctxs[c].interval));
    }
  }

  /** A stat result, if the callback leaves other handles alone, concerns its own context only. */
  lemma PollConcernsOne(s: State, c: nat, r: Result)
    requires Good(s) && s.running == None && c in s.stats && Sane(r)
    ensures OtherContexts(s, Next(s, StatDone(c, r, [])), c) && Next(s, StatDone(c, r, [])).handles == s.handles
  {
    EnterGood(s, c);
    var t := Entered(s, c);
    if s.ctxs[c].parent == None {
      PollStopped(s, c, r, []);
      LeaveOthers(t, c);
    } else {
      PollOnward(s, c, r, []);
      var u := Noticed(t, c, r, []);
      NoticeOthers(t, c, r);
      LeaveOthers(u, c);
    }
  }

  /** The close callback frees its own context. */
  lemma CloseFrees(s: State, c: nat)
    requires Good(s) && s.running == None && c in s.closing
    ensures var t := Next(s, TimerClosed(c));
      c !in t.ctxs && c !in t.closing && OtherContexts(s, t, c) && t.handles == s.handles
  {
    FreeGood(s, c);
  }

  // ----- no report after a stop -------------------------------------------------------------------

  /** Whatever happens after a stop between events, the context it stopped has made its last report. */
  lemma SilentAfterStop(before: seq<Event>, h: nat, later: seq<Event>)
    requires h in After(before).handles && After(before).handles[h].active
    ensures var s, stop := After(before), before + [User(StopHandle(h))];
      && s.handles[h].pollCtx.Some?
      && var c := s.handles[h].pollCtx.value;
         && c in s.told && c in After(stop).told && After(stop).told[c] == s.told[c]
         && (Silent(After(stop), After(stop + later), c) || exists i: nat :: FreedBy(stop, later, i, c))
  {
    var s, stop := After(before), before + [User(StopHandle(h))];
    assert stop[..|stop| - 1] == before;
    ReachableGood(before);
    StopStops(s, h);
    var c := s.handles[h].pollCtx.value;
    assert c in s.heard && c in s.told;
    StoppedStaysSilent(stop, later, c);
  }

  /** Nor after a stop inside a callback, its own included. */
  lemma SilentAfterInnerStop(m: Moment, h: nat, more: seq<Action>, later: seq<Event>)
    requires Possible(m) && m.Inside? && h in At(m).handles && At(m).handles[h].active
    ensures var s := At(m);
      var stop := m.events + [StatDone(m.c, m.r, m.script + [StopHandle(h)] + more)];
      && s.handles[h].pollCtx.Some?
      && var c := s.handles[h].pollCtx.value;
         && c in s.told && c in After(stop).told && After(stop).told[c] == s.told[c]
         && (Silent(After(stop), After(stop + later), c) || exists i: nat :: FreedBy(stop, later, i, c))
  {
    MomentGood(m);
    var n := m.(script := m.script + [StopHandle(h)]);
    ScriptsJoin(Calling(After(m.events), m.c, m.r), m.script, [StopHandle(h)]);
    assert Scripted(At(m), [StopHandle(h)][..0]) == At(m);
    StopStops(At(m), h);
    var c := At(m).handles[h].pollCtx.value;
    assert c in At(m).told && At(n) == Performed(At(m), StopHandle(h));
    StoppedInside(n, more, c);
    StoppedStaysSilent(m.events + [StatDone(m.c, m.r, n.script + more)], later, c);
  }

  // ----- the arguments of the start ---------------------------------------------------------------

  /** The arguments of uv_fs_poll_start. */
  datatype Args = Args(h: nat, cb: nat, path: string, every: nat)

  /** The arguments with which each context was last started, kept by watching the calls alone. */
  function Asked(s: State, a: Action, asked: map<nat, Args>): map<nat, Args> {
    match a
    case StartHandle(h, Some(c), cb, path, every) =>
      if h in s.handles && !s.handles[h].active && c !in s.ctxs then asked[c := Args(h, cb, path, every)] else asked
    case _ => asked
  }

  function AskedBy(s: State, script: seq<Action>, asked: map<nat, Args>): map<nat, Args>
    decreases |script|
  {
    if script == [] then asked else
      var n := |script| - 1;
      Asked(Scripted(s, script[..n]), script[n], AskedBy(s, script[..n], asked))
  }

  function AskedIn(events: seq<Event>): map<nat, Args> {
    if events == [] then map[] else
      var n := |events| - 1;
      var s, asked := After(events[..n]), AskedIn(events[..n]);
      match events[n]
      case User(a) => Asked(s, a, asked)
      case StatDone(c, r, script) => if Calls(s, c, r) then AskedBy(Calling(s, c, r), script, asked) else asked
      case _ => asked
  }

  function AskedAt(m: Moment): map<nat, Args>
    requires Possible(m)
  {
    match m
    case Between(events) => AskedIn(events)
    case Inside(events, c, r, script) => AskedBy(Calling(After(events), c, r), script, AskedIn(events))
  }

  ghost predicate Obeys(x: Ctx, a: Args) {
    && x.cb == a.cb && x.path == a.path && x.interval == (if a.every == 0 then 1 else a.every)
    && (x.parent.Some? ==> x.parent == Some(a.h))
  }

  /** Every context watches what its start asked for. */
  ghost predicate AllObey(s: State, asked: map<nat, Args>) {
    forall c :: c in s.ctxs ==> c in asked && Obeys(s.ctxs[c], asked[c])
  }

  lemma PerformObeys(s: State, a: Action, asked: map<nat, Args>)
    requires Good(s) && AllObey(s, asked)
    ensures AllObey(Performed(s, a), Asked(s, a, asked))
  {
    match a
    case StopHandle(h) => if h in s.handles { StopObeys(s, h, asked); }
    case StartHandle(h, memory, cb, path, every) => if CanStart(s, h, memory) { StartObeys(s, a, asked); }
    case _ =>
  }

  lemma StartObeys(s: State, a: Action, asked: map<nat, Args>)
    requires Good(s) && a.StartHandle? && CanStart(s, a.h, a.memory) && AllObey(s, asked)
    ensures AllObey(Performed(s, a), Asked(s, a, asked))
  {
    StartStarts(s, a.h, a.memory, a.cb, a.path, a.every);
  }

  lemma StopObeys(s: State, h: nat, asked: map<nat, Args>)
    requires Good(s) && h in s.handles && AllObey(s, asked)
    ensures AllObey(Performed(s, StopHandle(h)), asked)
  {
    var t := Performed(s, StopHandle(h));
    StopStops(s, h);
    forall c | c in t.ctxs ensures c in asked && Obeys(t.ctxs[c], asked[c]) {
      assert c in s.ctxs;
    }
  }

  lemma {:induction false} ScriptObeys(s: State, script: seq<Action>, asked: map<nat, Args>)
    requires Good(s) && AllObey(s, asked)
    ensures AllObey(Scripted(s, script), AskedBy(s, script, asked))
    decreases |script|
  {
    if script != [] {
      var n := |script| - 1;
      ScriptObeys(s, script[..n], asked);
      ScriptGood(s, script[..n], 0);
      PerformObeys(Scripted(s, script[..n]), script[n], AskedBy(s, script[..n], asked));
    }
  }

  lemma CallObeys(s: State, c: nat, r: Result, script: seq<Action>, asked: map<nat, Args>)
    requires Good(s) && Calls(s, c, r) && AllObey(s, asked)
    ensures AllObey(Scripted(Calling(s, c, r), script), AskedBy(Calling(s, c, r), script, asked))
  {
    EnterGood(s, c);
    CallGood(Entered(s, c), c, Notify(s.ctxs[c].busy, s.ctxs[c].statbuf, r).value, []);
    ScriptObeys(Calling(s, c, r), script, asked);
  }

  lemma LeaveObeys(s: State, c: nat, r: Result, asked: map<nat, Args>)
    requires AllObey(s, asked) && c in s.ctxs && c in s.heard && CanLeave(Recorded(s, c, r), c)
    ensures AllObey(Left(Recorded(s, c, r), c), asked)
  {
    assert forall d :: d in Recorded(s, c, r).ctxs ==> d in s.ctxs;
  }

  /** A result of which nobody is told leaves what the contexts watch alone. */
  lemma QuietPollObeys(s: State, c: nat, r: Result, script: seq<Action>, asked: map<nat, Args>)
    requires Good(s) && CanPoll(s, c) && Sane(r) && !Calls(s, c, r) && AllObey(s, asked)
    ensures AllObey(Polled(s, c, r, script), asked)
  {
    if s.ctxs[c].parent == None {
      PollStopped(s, c, r, script);
    } else {
      PollOnward(s, c, r, script);
      LeaveObeys(Entered(s, c), c, r, asked);
    }
  }

  lemma OthersObey(s: State, e: Event, asked: map<nat, Args>)
    requires AllObey(s, asked) && (e.TimerExpires? || e.TimerClosed?)
    ensures AllObey(Next(s, e), asked)
  {
    assert forall d :: d in Next(s, e).ctxs ==> d in s.ctxs;
  }

  lemma {:induction false} EventsObey(events: seq<Event>)
    ensures AllObey(After(events), AskedIn(events))
    decreases |events|
  {
    if events != [] {
      var n := |events| - 1;
      var before := events[..n];
      var s, asked := After(before), AskedIn(before);
      EventsObey(before);
      ReachableGood(before);
      match events[n]
      case User(a) => PerformObeys(s, a, asked);
      case StatDone(c, r, script) =>
        if Calls(s, c, r) { CalledObeys(before, c, r, script); }
        else if CanPoll(s, c) && Sane(r) { QuietPollObeys(s, c, r, script, asked); }
      case _ => OthersObey(s, events[n], asked);
    }
  }

  lemma CalledObeys(before: seq<Event>, c: nat, r: Result, script: seq<Action>)
    requires Calls(After(before), c, r) && AllObey(After(before), AskedIn(before))
    ensures var s := After(before);
      AllObey(After(before + [StatDone(c, r, script)]), AskedBy(Calling(s, c, r), script, AskedIn(before)))
  {
    var s, m := After(before), Inside(before, c, r, script);
    ReachableGood(before);
    CallObeys(s, c, r, script, AskedIn(before));
    CallbackReturns(m);
    LeaveObeys(At(m), c, r, AskedBy(Calling(s, c, r), script, AskedIn(before)));
  }

  /**
   * At any moment a context has the callback, the path and the interval of the start that made
   * it, and no parent but the handle of that start.
   */
  lemma ArgumentsKept(m: Moment, c: nat)
    requires Possible(m) && c in At(m).ctxs
    ensures c in AskedAt(m) && Obeys(At(m).ctxs[c], AskedAt(m)[c])
  {
    EventsObey(m.events);
    if m.Inside? {
      ReachableGood(m.events);
      CallObeys(After(m.events), m.c, m.r, m.script, AskedIn(m.events));
    }
  }
}
