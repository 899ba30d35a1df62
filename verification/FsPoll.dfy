/** The functions of deps/libuv/src/fs-poll.c as they update the loop and its contexts. */
module FsPoll {
  import opened ChangeDetector
  import opened FsPollState
  import opened FsPollTheorems

  const UV_ENOMEM := -12

  class Loop {
    var now: nat
    var handles: map<nat, Handle>
    var ctxs: map<nat, Ctx>
    var stats: set<nat>
    var running: Option<nat>
    var armed: map<nat, nat>
    var closing: set<nat>
    ghost var heard: map<nat, seq<Result>>
    ghost var told: map<nat, seq<Report>>
    ghost var began: map<nat, nat>
    ghost var late: map<nat, nat>

    ghost function Value(): State
      reads this
    { State(now, handles, ctxs, stats, running, armed, closing, heard, told, began, late) }

    constructor ()
      ensures Value() == START && Good(Value())
    {
      now, handles, ctxs, stats, running, armed, closing := 0, map[], map[], {}, None, map[], {};
      heard, told, began, late := map[], map[], map[], map[];
      new;
      ReachableGood([]);
    }

    /** uv_close with timer_close_cb */
    method Close(c: nat)
      requires CanClose(Value(), c)
      modifies `armed, `closing
      ensures Value() == Closed(old(Value()), c)
    {
      armed := armed - {c};
      closing := closing + {c};
    }

    /** uv_fs_poll_stop */
    method Stop(h: nat)
      requires Good(Value()) && h in handles
      modifies `handles, `ctxs, `armed, `closing
      ensures CanStop(old(Value()), h) && Value() == Stopped(old(Value()), h)
      ensures Good(Value())
    {
      ghost var s := Value();
      StopGood(s, h);
      StopFields(h);
      SameGood(Stopped(s, h), Value());
    }

    /** The assignments of uv_fs_poll_stop. */
    method StopFields(h: nat)
      requires CanStop(Value(), h)
      modifies `handles, `ctxs, `armed, `closing
      ensures Value() == Stopped(old(Value()), h)
    {
      if !handles[h].active { return; }
      var c := handles[h].pollCtx.value;
      assert ctxs[c].parent.Some?;
      ctxs := ctxs[c := ctxs[c].(parent := None)];
      handles := handles[h := handles[h].(pollCtx := None)];
      if c in armed { Close(c); }
      handles := handles[h := handles[h].(active := false)];
      assert handles == old(handles)[h := Handle(false, None)];
    }

    /** uv_fs_poll_start */
    method Start(h: nat, memory: Option<nat>, cb: nat, path: string, interval: nat) returns (code: int)
      requires Good(Value()) && CanStart(Value(), h, memory)
      modifies `handles, `ctxs, `stats, `heard, `told, `began, `late
      ensures Value() == Started(old(Value()), h, memory, cb, path, interval)
      ensures code == if !old(handles[h].active) && memory == None then UV_ENOMEM else 0
      ensures Good(Value())
    {
      ghost var s := Value();
      StartGood(s, h, memory, cb, path, interval);
      code := StartFields(h, memory, cb, path, interval);
      SameGood(Started(s, h, memory, cb, path, interval), Value());
    }

    /** The assignments of uv_fs_poll_start. */
    method StartFields(h: nat, memory: Option<nat>, cb: nat, path: string, interval: nat) returns (code: int)
      requires CanStart(Value(), h, memory)
      modifies `handles, `ctxs, `stats, `heard, `told, `began, `late
      ensures Value() == Started(old(Value()), h, memory, cb, path, interval)
      ensures code == if !old(handles[h].active) && memory == None then UV_ENOMEM else 0
    {
      if handles[h].active { return 0; }
      if memory == None { return UV_ENOMEM; }
      var c := memory.value;
      Allocate(c, h, cb, path, interval);
      handles := handles[h := handles[h].(pollCtx := Some(c))];
      handles := handles[h := handles[h].(active := true)];
      assert handles == old(handles)[h := Handle(true, Some(c))];
      return 0;
    }

    /** The new context, its timer and its first stat. */
    method Allocate(c: nat, h: nat, cb: nat, path: string, interval: nat)
      modifies `ctxs, `stats, `heard, `told, `began, `late
      ensures var s := old(Value());
        Value() == s.(ctxs := s.ctxs[c := NewCtx(s, h, cb, path, interval)], stats := s.stats + {c},
                      heard := s.heard[c := []], told := s.told[c := []],
                      began := s.began[c := s.now], late := s.late[c := 0])
    {
      ctxs := ctxs[c := Ctx(Some(h), 0, if interval != 0 then interval else 1, now, cb, path, ZERO)];
      heard, told := heard[c := []], told[c := []];
      began, late := began[c := now], late[c := 0];
      stats := stats + {c};
    }

    /** User code; an action against its own duties does not happen. */
    method Perform(a: Action)
      requires Good(Value())
      modifies this
      ensures Value() == Performed(old(Value()), a) && Good(Value())
    {
      OnlyUserErrors(Value(), a);
      PerformGood(Value(), a);
      match a {
        case InitHandle(h) =>
          if h !in handles { handles := handles[h := Handle(false, None)]; }
        case StartHandle(h, memory, cb, path, every) =>
          if h in handles && (memory.Some? ==> memory.value !in ctxs) {
            var _ := Start(h, memory, cb, path, every);
          }
        case StopHandle(h) =>
          if h in handles { Stop(h); }
        case PassTime(ms) =>
          now := now + ms;
      }
    }

    /** The user callback, which may stop or restart any handle, this one included. */
    method CallUser(c: nat, report: Report, script: seq<Action>)
      requires Good(Value()) && running == Some(c) && c in ctxs && c in heard && c in told
      modifies this
      ensures Value() == var s := old(Value()); Scripted(s.(told := s.told[c := s.told[c] + [report]]), script)
      ensures Good(Value())
    {
      ghost var s := Value().(told := told[c := told[c] + [report]]);
      CallGood(Value(), c, report, []);
      told := told[c := told[c] + [report]];
      SameGood(s, Value());
      for i := 0 to |script|
        invariant Value() == Scripted(s, script[..i]) && Good(Value())
      {
        Perform(script[i]);
        assert script[..i + 1][..i] == script[..i];
      }
      assert script[..|script|] == script;
    }

    /** poll_cb for context c; script is what user code does when it is called. */
    method PollCb(c: nat, r: Result, script: seq<Action>)
      requires Good(Value()) && running == None && c in stats && Sane(r)
      modifies this
      ensures CanPoll(old(Value()), c) && Value() == Polled(old(Value()), c, r, script)
      ensures Good(Value()) && running == None
    {
      EnterGood(Value(), c);
      if ctxs[c].parent == None {
        Drop(c, r, script);
      } else {
        Take(c, r, script);
      }
    }

    /** poll_cb when the handle has been stopped or closed. */
    method Drop(c: nat, r: Result, ghost script: seq<Action>)
      requires Good(Value()) && running == None && c in stats && c in ctxs && ctxs[c].parent == None
      modifies this
      ensures CanPoll(old(Value()), c) && Value() == Polled(old(Value()), c, r, script)
      ensures Good(Value()) && running == None
    {
      ghost var s := Value();
      PollStopped(s, c, r, script);
      Enter(c);
      Close(c);
      running := None;
      SameGood(Polled(s, c, r, script), Value());
    }

    /** poll_cb otherwise. */
    method Take(c: nat, r: Result, script: seq<Action>)
      requires Good(Value()) && running == None && c in stats && c in ctxs && ctxs[c].parent.Some? && Sane(r)
      modifies this
      ensures CanPoll(old(Value()), c) && Value() == Polled(old(Value()), c, r, script)
      ensures Good(Value()) && running == None
    {
      ghost var s := Value();
      EnterGood(s, c);
      PollOnward(s, c, r, script);
      Enter(c);
      Notice(c, r, script);
      Leave(c);
      SameGood(Polled(s, c, r, script), Value());
    }

    method Enter(c: nat)
      modifies `stats, `running
      ensures Value() == Entered(old(Value()), c)
    {
      stats := stats - {c};
      running := Some(c);
    }

    /** The part of poll_cb that looks at the result. */
    method Notice(c: nat, r: Result, script: seq<Action>)
      requires Good(Value()) && running == Some(c) && c in ctxs && c in heard && c in told
      modifies this
      ensures Value() == Noticed(old(Value()), c, r, script)
    {
      match r {
        case Failed(code) =>
          if ctxs[c].busy != code {
            CallGood(Value(), c, Report(code, ctxs[c].statbuf, ZERO), script);
            CallUser(c, Report(code, ctxs[c].statbuf, ZERO), script);
          }
        case Got(statbuf) =>
          if ctxs[c].busy != 0 {
            if ctxs[c].busy < 0 || !StatEq(ctxs[c].statbuf, statbuf) {
              CallGood(Value(), c, Report(0, ctxs[c].statbuf, statbuf), script);
              CallUser(c, Report(0, ctxs[c].statbuf, statbuf), script);
            }
          }
      }
      Record(c, r);
    }

    /** What poll_cb stores after the callback, if there was one. */
    method Record(c: nat, r: Result)
      requires c in ctxs && c in heard
      modifies `ctxs, `heard
      ensures Value() == Recorded(old(Value()), c, r)
    {
      match r {
        case Failed(code) =>
          ctxs := ctxs[c := ctxs[c].(busy := code)];
        case Got(statbuf) =>
          ctxs := ctxs[c := ctxs[c].(statbuf := statbuf)];
          ctxs := ctxs[c := ctxs[c].(busy := 1)];
      }
      heard := heard[c := heard[c] + [r]];
    }

    /** The end of poll_cb, from the label out on. */
    method Leave(c: nat)
      requires CanLeave(Value(), c)
      modifies `running, `armed, `closing
      ensures Value() == Left(old(Value()), c)
    {
      running := None;
      if ctxs[c].parent == None {
        Close(c);
        return;
      }
      var interval := ctxs[c].interval;
      interval := interval - (now - ctxs[c].start) % interval;
      armed := armed[c := now + interval];
    }

    /** timer_cb, which the loop calls after taking the expired timer off its heap. */
    method TimerCb(c: nat)
      requires Good(Value()) && running == None && c in armed && armed[c] <= now
      modifies `ctxs, `armed, `stats, `late
      ensures CanExpire(old(Value()), c) && Value() == Expired(old(Value()), c)
      ensures Good(Value())
    {
      ghost var s := Value();
      ExpireGood(s, c);
      Poll(c);
      SameGood(Expired(s, c), Value());
    }

    /** The assertions and assignments of timer_cb. */
    method Poll(c: nat)
      requires CanExpire(Value(), c)
      modifies `ctxs, `armed, `stats, `late
      ensures Value() == Expired(old(Value()), c)
    {
      late := late[c := Lateness(Value(), c) + (now - armed[c])];
      armed := armed - {c};
      assert ctxs[c].parent.Some? && handles[ctxs[c].parent.value].pollCtx == Some(c);
      ctxs := ctxs[c := ctxs[c].(start := now)];
      stats := stats + {c};
    }

    /** timer_close_cb: the context is freed, and no handle leads to it. */
    method TimerCloseCb(c: nat)
      requires Good(Value()) && c in closing
      modifies `ctxs, `closing
      ensures c in old(ctxs) && Value() == Freed(old(Value()), c)
      ensures Good(Value()) && forall h :: h in handles ==> handles[h].pollCtx != Some(c)
    {
      FreeGood(Value(), c);
      closing := closing - {c};
      ctxs := ctxs - {c};
    }

    /** Lets events happen in any order; those the loop cannot produce are passed over. */
    method Run(events: seq<Event>)
      requires Value() == START
      modifies this
      ensures Value() == After(events) && Good(Value())
    {
      assert events[..0] == [];
      ReachableGood([]);
      for i := 0 to |events|
        invariant Value() == After(events[..i]) && Good(Value()) && running == None
      {
        assert events[..i + 1][..i] == events[..i];
        ReachableGood(events[..i + 1]);
        Step(events[i]);
      }
      assert events[..|events|] == events;
    }

    method Step(e: Event)
      requires Good(Value()) && running == None
      modifies this
      ensures Value() == Next(old(Value()), e) && Good(Value())
    {
      match e {
        case User(a) =>
          Perform(a);
        case StatDone(c, r, script) =>
          if c in stats && Sane(r) { PollCb(c, r, script); }
        case TimerExpires(c) =>
          if c in armed && armed[c] <= now { TimerCb(c); }
        case TimerClosed(c) =>
          if c in closing { TimerCloseCb(c); }
      }
    }
  }
}
