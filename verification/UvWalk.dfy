/** uv_walk (deps/libuv/src/uv-common.c:347-363) over the handle queue of a loop. */
module UvWalk {
  import opened Queue
  import opened Sequences

  /** The handles a walk reports: all but the internal ones, in order. */
  function External(s: seq<Node>): seq<Node> {
    if s == [] then [] else
      var last := s[|s| - 1];
      External(s[..|s| - 1]) + if last.internal then [] else [last]
  }

  /** Every external handle is there, and only once. */
  lemma {:induction false} ExternalOnce(s: seq<Node>)
    requires NoDup(s)
    ensures NoDup(External(s))
    ensures forall x :: x in External(s) <==> x in s && !x.internal
    decreases |s|
  {
    if s != [] {
      var t, last := s[..|s| - 1], s[|s| - 1];
      assert s == t + [last] && last !in t;
      ExternalOnce(t);
    }
  }

  // ----- what callbacks do to the queue, on numbers ----------------------------------------------

  /**
   * What a callback may do: initialise a handle, or walk the handles itself. The k-th call of
   * that walk does callbacks[k], and nothing behind the last of them.
   */
  datatype Act = Create(internal: bool) | Again(callbacks: seq<Callback>)

  datatype Callback = Callback(acts: seq<Act>)

  /** The queue of a loop, its handles numbered as they came to be; internal has the flag of each. */
  datatype Handles = Handles(q: seq<nat>, internal: seq<bool>)

  predicate Numbers(h: Handles) { forall i :: 0 <= i < |h.q| ==> h.q[i] < |h.internal| }

  function Calls(q: seq<nat>, internal: seq<bool>): nat
    requires Numbers(Handles(q, internal))
  {
    if q == [] then 0 else
      var n := |q| - 1;
      Calls(q[..n], internal) + if internal[q[n]] then 0 else 1
  }

  /** A new handle goes to the end of the queue. */
  function Created(h: Handles, internal: bool): Handles { Handles(h.q + [|h.internal|], h.internal + [internal]) }

  function Acted(h: Handles, act: Act): (g: Handles)
    requires Numbers(h)
    ensures Numbers(g) && |g.internal| >= |h.internal| && g.internal[..|h.internal|] == h.internal
    decreases act, 0
  {
    match act
    case Create(internal) => Created(h, internal)
    case Again(callbacks) => Walked(h, callbacks, |h.q|)
  }

  function Did(h: Handles, script: seq<Act>): (g: Handles)
    requires Numbers(h)
    ensures Numbers(g) && |g.internal| >= |h.internal| && g.internal[..|h.internal|] == h.internal
    decreases script, 0
  {
    if script == [] then h else
      var n := |script| - 1;
      Acted(Did(h, script[..n]), script[n])
  }

  /** The queue of the loop when a walk has taken done handles off its own and put them back. */
  function Walked(h: Handles, callbacks: seq<Callback>, done: nat): (g: Handles)
    requires Numbers(h) && done <= |h.q|
    ensures Numbers(g) && |g.internal| >= |h.internal| && g.internal[..|h.internal|] == h.internal
    decreases callbacks, done
  {
    if done == 0 then Handles([], h.internal) else
      var x := h.q[done - 1];
      var g := Walked(h, callbacks, done - 1);
      var back, k := g.(q := g.q + [x]), Calls(h.q[..done - 1], h.internal);
      if h.internal[x] || k >= |callbacks| then back else Did(back, callbacks[k].acts)
  }

  // ----- what is called back, on numbers ----------------------------------------------------------

  /** What happens in a walk and in those inside it; level says how deep it is nested. */
  datatype Entry =
    | Visit(level: nat, x: nat)           // the callback is called for handle x
    | Made(level: nat, internal: bool)    // a callback of that walk makes a handle
    | Nested(level: nat)                  // a callback of that walk begins a walk, one level deeper

  predicate InRange(t: seq<Entry>, n: nat) { forall i :: 0 <= i < |t| ==> t[i].Visit? ==> t[i].x < n }

  function ActTrace(h: Handles, act: Act, level: nat): (t: seq<Entry>)
    requires Numbers(h)
    ensures InRange(t, |Acted(h, act).internal|)
    decreases act, 0
  {
    match act
    case Create(internal) => [Made(level, internal)]
    case Again(callbacks) => [Nested(level)] + WalkTrace(h, callbacks, |h.q|, level + 1)
  }

  function ScriptTrace(h: Handles, script: seq<Act>, level: nat): (t: seq<Entry>)
    requires Numbers(h)
    ensures InRange(t, |Did(h, script).internal|)
    decreases script, 0
  {
    if script == [] then [] else
      var n := |script| - 1;
      ScriptTrace(h, script[..n], level) + ActTrace(Did(h, script[..n]), script[n], level)
  }

  function WalkTrace(h: Handles, callbacks: seq<Callback>, done: nat, level: nat): (t: seq<Entry>)
    requires Numbers(h) && done <= |h.q|
    ensures InRange(t, |Walked(h, callbacks, done).internal|)
    decreases callbacks, done
  {
    if done == 0 then [] else
      var x, g := h.q[done - 1], Walked(h, callbacks, done - 1);
      var t, back := WalkTrace(h, callbacks, done - 1, level), g.(q := g.q + [x]);
      t + CallTrace(h, callbacks, done - 1, back, level)
  }

  /** The call for the handle that has just been put back, if it is not internal. */
  function CallTrace(h: Handles, callbacks: seq<Callback>, done: nat, back: Handles, level: nat): (t: seq<Entry>)
    requires Numbers(h) && done < |h.q| && Numbers(back) && |back.internal| >= |h.internal|
    ensures var k := Calls(h.q[..done], h.internal);
      InRange(t, if h.internal[h.q[done]] || k >= |callbacks| then |back.internal|
                 else |Did(back, callbacks[k].acts).internal|)
    decreases callbacks, 0
  {
    var x, k := h.q[done], Calls(h.q[..done], h.internal);
    if h.internal[x] then []
    else [Visit(level, x)] + if k < |callbacks| then ScriptTrace(back, callbacks[k].acts, level) else []
  }

  /** The entries of one level. */
  function Level(t: seq<Entry>, level: nat): seq<Entry> {
    if t == [] then [] else
      var n := |t| - 1;
      Level(t[..n], level) + if t[n].level == level then [t[n]] else []
  }

  function Mark(act: Act, level: nat): Entry {
    match act
    case Create(internal) => Made(level, internal)
    case Again(_) => Nested(level)
  }

  function Marks(script: seq<Act>, level: nat): seq<Entry> {
    seq(|script|, i requires 0 <= i < |script| => Mark(script[i], level))
  }

  /** What a walk over q is to do at its own level: for the k-th external handle the k-th callback. */
  function Plan(q: seq<nat>, internal: seq<bool>, callbacks: seq<Callback>, level: nat): seq<Entry>
    requires Numbers(Handles(q, internal))
  {
    if q == [] then [] else
      var n := |q| - 1;
      var k := Calls(q[..n], internal);
      Plan(q[..n], internal, callbacks, level)
      + if internal[q[n]] then []
        else [Visit(level, q[n])] + if k < |callbacks| then Marks(callbacks[k].acts, level) else []
  }

  lemma {:induction false} LevelConcat(a: seq<Entry>, b: seq<Entry>, level: nat)
    ensures Level(a + b, level) == Level(a, level) + Level(b, level)
    decreases |b|
  {
    if b == [] {
      assert a + b == a;
    } else {
      var n := |b| - 1;
      assert (a + b)[..|a + b| - 1] == a + b[..n];
      LevelConcat(a, b[..n], level);
    }
  }

  lemma LevelOne(e: Entry, level: nat)
    ensures Level([e], level) == if e.level == level then [e] else []
  {
    assert [e][..0] == [];
  }

  lemma {:induction false} ActLevels(h: Handles, act: Act, level: nat, other: nat)
    requires Numbers(h) && other <= level
    ensures Level(ActTrace(h, act, level), other) == if other == level then [Mark(act, level)] else []
    decreases act, 0
  {
    LevelOne(Mark(act, level), other);
    match act
    case Create(_) =>
    case Again(callbacks) =>
      LevelConcat([Nested(level)], WalkTrace(h, callbacks, |h.q|, level + 1), other);
      WalkLevels(h, callbacks, |h.q|, level + 1, other);
  }

  lemma {:induction false} ScriptLevels(h: Handles, script: seq<Act>, level: nat, other: nat)
    requires Numbers(h) && other <= level
    ensures Level(ScriptTrace(h, script, level), other) == if other == level then Marks(script, level) else []
    decreases script, 0
  {
    if script != [] {
      var n := |script| - 1;
      ScriptLevels(h, script[..n], level, other);
      ActLevels(Did(h, script[..n]), script[n], level, other);
      LevelConcat(ScriptTrace(h, script[..n], level), ActTrace(Did(h, script[..n]), script[n], level), other);
      MarksOn(script, level);
    }
  }

  lemma MarksOn(script: seq<Act>, level: nat)
    requires script != []
    ensures var n := |script| - 1; Marks(script, level) == Marks(script[..n], level) + [Mark(script[n], level)]
  {
  }

  lemma {:induction false} CallLevels(h: Handles, callbacks: seq<Callback>, done: nat, back: Handles,
      level: nat, other: nat)
    requires Numbers(h) && done < |h.q| && Numbers(back) && |back.internal| >= |h.internal| && other <= level
    ensures var x, k := h.q[done], Calls(h.q[..done], h.internal);
      Level(CallTrace(h, callbacks, done, back, level), other) ==
      if h.internal[x] || other < level then [] else
        [Visit(level, x)] + if k < |callbacks| then Marks(callbacks[k].acts, level) else []
    decreases callbacks, 0
  {
    var x, k := h.q[done], Calls(h.q[..done], h.internal);
    LevelOne(Visit(level, x), other);
    if !h.internal[x] && k < |callbacks| {
      ScriptLevels(back, callbacks[k].acts, level, other);
      LevelConcat([Visit(level, x)], ScriptTrace(back, callbacks[k].acts, level), other);
    }
  }

  /**
   * However walks nest, a walk calls back every external handle that is there when it begins,
   * once and in order, and its k-th call does what the k-th callback is to do.
   */
  lemma {:induction false} WalkLevels(h: Handles, callbacks: seq<Callback>, done: nat, level: nat, other: nat)
    requires Numbers(h) && done <= |h.q| && other <= level
    ensures Level(WalkTrace(h, callbacks, done, level), other) ==
      if other == level then Plan(h.q[..done], h.internal, callbacks, level) else []
    decreases callbacks, done
  {
    if done > 0 {
      var was := done - 1;
      var g := Walked(h, callbacks, was);
      var back := g.(q := g.q + [h.q[was]]);
      WalkLevels(h, callbacks, was, level, other);
      CallLevels(h, callbacks, was, back, level, other);
      TraceOn(h, callbacks, was, level);
      LevelConcat(WalkTrace(h, callbacks, was, level), CallTrace(h, callbacks, was, back, level), other);
      PlanOn(h, callbacks, was, level);
    }
  }

  lemma TraceOn(h: Handles, callbacks: seq<Callback>, done: nat, level: nat)
    requires Numbers(h) && done < |h.q|
    ensures var g := Walked(h, callbacks, done);
      WalkTrace(h, callbacks, done + 1, level)
        == WalkTrace(h, callbacks, done, level) + CallTrace(h, callbacks, done, g.(q := g.q + [h.q[done]]), level)
  {
  }

  lemma PlanOn(h: Handles, callbacks: seq<Callback>, done: nat, level: nat)
    requires Numbers(h) && done < |h.q|
    ensures var x, k := h.q[done], Calls(h.q[..done], h.internal);
      Plan(h.q[..done + 1], h.internal, callbacks, level) == Plan(h.q[..done], h.internal, callbacks, level)
      + if h.internal[x] then []
        else [Visit(level, x)] + if k < |callbacks| then Marks(callbacks[k].acts, level) else []
  {
    assert h.q[..done + 1][..done] == h.q[..done];
  }

  /** A walk inside a callback does all that a walk over the queue of that moment is to do. */
  lemma NestedWalks(h: Handles, callbacks: seq<Callback>, level: nat)
    requires Numbers(h)
    ensures Level(ActTrace(h, Again(callbacks), level), level + 1) == Plan(h.q, h.internal, callbacks, level + 1)
  {
    var t := WalkTrace(h, callbacks, |h.q|, level + 1);
    LevelConcat([Nested(level)], t, level + 1);
    LevelOne(Nested(level), level + 1);
    WalkLevels(h, callbacks, |h.q|, level + 1, level + 1);
    AllOf(h.q);
    assert ActTrace(h, Again(callbacks), level) == [Nested(level)] + t;
  }

  /** The flags of the handles made. */
  function Makes(t: seq<Entry>): seq<bool> {
    if t == [] then [] else
      var n := |t| - 1;
      Makes(t[..n]) + if t[n].Made? then [t[n].internal] else []
  }

  lemma {:induction false} MakesConcat(a: seq<Entry>, b: seq<Entry>)
    ensures Makes(a + b) == Makes(a) + Makes(b)
    decreases |b|
  {
    if b == [] {
      assert a + b == a;
    } else {
      var n := |b| - 1;
      assert (a + b)[..|a + b| - 1] == a + b[..n];
      MakesConcat(a, b[..n]);
    }
  }

  lemma MakesOne(e: Entry)
    ensures Makes([e]) == if e.Made? then [e.internal] else []
  {
    assert [e][..0] == [];
  }

  lemma {:induction false} ActMakes(h: Handles, act: Act, level: nat)
    requires Numbers(h)
    ensures Acted(h, act).internal == h.internal + Makes(ActTrace(h, act, level))
    decreases act, 0
  {
    MakesOne(Mark(act, level));
    match act
    case Create(_) =>
    case Again(callbacks) =>
      MakesConcat([Nested(level)], WalkTrace(h, callbacks, |h.q|, level + 1));
      WalkMakes(h, callbacks, |h.q|, level + 1);
  }

  lemma {:induction false} ScriptMakes(h: Handles, script: seq<Act>, level: nat)
    requires Numbers(h)
    ensures Did(h, script).internal == h.internal + Makes(ScriptTrace(h, script, level))
    decreases script, 0
  {
    if script != [] {
      var n := |script| - 1;
      var p := Did(h, script[..n]);
      ScriptMakes(h, script[..n], level);
      ActMakes(p, script[n], level);
      MakesConcat(ScriptTrace(h, script[..n], level), ActTrace(p, script[n], level));
      Assoc(h.internal, Makes(ScriptTrace(h, script[..n], level)), Makes(ActTrace(p, script[n], level)));
    }
  }

  lemma {:induction false} CallMakes(h: Handles, callbacks: seq<Callback>, done: nat, back: Handles, level: nat)
    requires Numbers(h) && done < |h.q| && Numbers(back) && |back.internal| >= |h.internal|
    ensures var x, k := h.q[done], Calls(h.q[..done], h.internal);
      (if h.internal[x] || k >= |callbacks| then back.internal else Did(back, callbacks[k].acts).internal)
        == back.internal + Makes(CallTrace(h, callbacks, done, back, level))
    decreases callbacks, 0
  {
    var x, k := h.q[done], Calls(h.q[..done], h.internal);
    MakesOne(Visit(level, x));
    if !h.internal[x] && k < |callbacks| {
      ScriptMakes(back, callbacks[k].acts, level);
      MakesConcat([Visit(level, x)], ScriptTrace(back, callbacks[k].acts, level));
    }
  }

  /** The handles that are made are those the trace tells of. */
  lemma {:induction false} WalkMakes(h: Handles, callbacks: seq<Callback>, done: nat, level: nat)
    requires Numbers(h) && done <= |h.q|
    ensures Walked(h, callbacks, done).internal == h.internal + Makes(WalkTrace(h, callbacks, done, level))
    decreases callbacks, done
  {
    if done > 0 {
      var was := done - 1;
      var g := Walked(h, callbacks, was);
      var back := g.(q := g.q + [h.q[was]]);
      var t, u := WalkTrace(h, callbacks, was, level), CallTrace(h, callbacks, was, back, level);
      WalkMakes(h, callbacks, was, level);
      CallMakes(h, callbacks, was, back, level);
      TraceOn(h, callbacks, was, level);
      WalkedOn(h, callbacks, was);
      MakesConcat(t, u);
      Assoc(h.internal, Makes(t), Makes(u));
    }
  }

  // ----- no handle is lost, none moves past another ------------------------------------------------

  /** The handles numbered below n, in order. */
  function Olds(q: seq<nat>, n: nat): seq<nat> {
    if q == [] then [] else
      var last := q[|q| - 1];
      Olds(q[..|q| - 1], n) + if last < n then [last] else []
  }

  lemma OldsSnoc(q: seq<nat>, x: nat, n: nat)
    ensures Olds(q + [x], n) == Olds(q, n) + if x < n then [x] else []
  {
    assert (q + [x])[..|q|] == q;
  }

  lemma {:induction false} OldsIn(q: seq<nat>, n: nat, x: nat)
    ensures x in Olds(q, n) <==> x in q && x < n
    decreases |q|
  {
    if q != [] {
      assert q == q[..|q| - 1] + [q[|q| - 1]];
      OldsIn(q[..|q| - 1], n, x);
    }
  }

  lemma {:induction false} OldsOfOlds(q: seq<nat>, n: nat, m: nat)
    requires n <= m
    ensures Olds(Olds(q, m), n) == Olds(q, n)
    decreases |q|
  {
    if q != [] {
      var last := q[|q| - 1];
      OldsOfOlds(q[..|q| - 1], n, m);
      if last < m { OldsSnoc(Olds(q[..|q| - 1], m), last, n); } else { assert Olds(q, m) == Olds(q[..|q| - 1], m); }
    }
  }

  lemma {:induction false} AllOld(q: seq<nat>, n: nat)
    requires forall i :: 0 <= i < |q| ==> q[i] < n
    ensures Olds(q, n) == q
    decreases |q|
  {
    if q != [] {
      AllOld(q[..|q| - 1], n);
      assert q == q[..|q| - 1] + [q[|q| - 1]];
    }
  }

  /** Of the handles numbered below n the queue has q, in this order, and it has every later one once. */
  ghost predicate Keeps(q: seq<nat>, n: nat, g: Handles) {
    && n <= |g.internal| && Numbers(g) && NoDup(g.q) && Olds(g.q, n) == q
    && forall i :: n <= i < |g.internal| ==> i in g.q
  }

  lemma KeepsOn(q: seq<nat>, n: nat, p: Handles, g: Handles)
    requires Keeps(q, n, p) && Keeps(p.q, |p.internal|, g)
    ensures Keeps(q, n, g)
  {
    OldsOfOlds(g.q, n, |p.internal|);
    forall i | n <= i < |g.internal| ensures i in g.q {
      if i < |p.internal| { OldsIn(g.q, |p.internal|, i); }
    }
  }

  lemma KeepsBack(q: seq<nat>, n: nat, g: Handles, x: nat)
    requires Keeps(q, n, g) && x < n && x !in q
    ensures Keeps(q + [x], n, g.(q := g.q + [x]))
  {
    OldsIn(g.q, n, x);
    OldsSnoc(g.q, x, n);
  }

  lemma CreatedKeeps(h: Handles, internal: bool)
    requires Numbers(h) && NoDup(h.q)
    ensures Keeps(h.q, |h.internal|, Created(h, internal))
  {
    OldsSnoc(h.q, |h.internal|, |h.internal|);
    AllOld(h.q, |h.internal|);
  }

  lemma {:induction false} ActedKeeps(h: Handles, act: Act)
    requires Numbers(h) && NoDup(h.q)
    ensures Keeps(h.q, |h.internal|, Acted(h, act))
    decreases act, 0
  {
    match act
    case Create(internal) => CreatedKeeps(h, internal);
    case Again(callbacks) =>
      WalkedKeeps(h, callbacks, |h.q|);
      assert h.q[..|h.q|] == h.q;
  }

  lemma {:induction false} DidKeeps(h: Handles, script: seq<Act>)
    requires Numbers(h) && NoDup(h.q)
    ensures Keeps(h.q, |h.internal|, Did(h, script))
    decreases script, 0
  {
    if script == [] {
      AllOld(h.q, |h.internal|);
    } else {
      var n := |script| - 1;
      var p := Did(h, script[..n]);
      DidKeeps(h, script[..n]);
      ActedKeeps(p, script[n]);
      KeepsOn(h.q, |h.internal|, p, Acted(p, script[n]));
    }
  }

  /** What a walk makes of the queue when it takes off the next handle. */
  lemma WalkedOn(h: Handles, callbacks: seq<Callback>, done: nat)
    requires Numbers(h) && done < |h.q|
    ensures var x, g, k := h.q[done], Walked(h, callbacks, done), Calls(h.q[..done], h.internal);
      var back := g.(q := g.q + [x]);
      Walked(h, callbacks, done + 1)
        == if h.internal[x] || k >= |callbacks| then back else Did(back, callbacks[k].acts)
  {
  }

  lemma BackKeeps(h: Handles, g: Handles, done: nat)
    requires Numbers(h) && NoDup(h.q) && done < |h.q| && Keeps(h.q[..done], |h.internal|, g)
    ensures Keeps(h.q[..done + 1], |h.internal|, g.(q := g.q + [h.q[done]]))
  {
    KeepsBack(h.q[..done], |h.internal|, g, h.q[done]);
    assert h.q[..done] + [h.q[done]] == h.q[..done + 1];
  }

  /** A walk, however its callbacks nest, loses no handle and changes the order of none. */
  lemma {:induction false} WalkedKeeps(h: Handles, callbacks: seq<Callback>, done: nat)
    requires Numbers(h) && NoDup(h.q) && done <= |h.q|
    ensures Keeps(h.q[..done], |h.internal|, Walked(h, callbacks, done))
    decreases callbacks, done
  {
    if done > 0 {
      var was := done - 1;
      var x, g, k := h.q[was], Walked(h, callbacks, was), Calls(h.q[..was], h.internal);
      var back := g.(q := g.q + [x]);
      WalkedKeeps(h, callbacks, was);
      BackKeeps(h, g, was);
      WalkedOn(h, callbacks, was);
      if !h.internal[x] && k < |callbacks| {
        DidKeeps(back, callbacks[k].acts);
        KeepsOn(h.q[..done], |h.internal|, back, Did(back, callbacks[k].acts));
      }
    }
  }

  /** New handles stand right behind the handle whose callback makes them. */
  lemma {:induction false} CreatedBehind(h: Handles, script: seq<Act>)
    requires Numbers(h) && forall i :: 0 <= i < |script| ==> script[i].Create?
    ensures var g, n := Did(h, script), |h.internal|;
      && |g.internal| == n + |script| && g.q == h.q + seq(|script|, i => n + i)
      && forall i :: 0 <= i < |script| ==> g.internal[n + i] == script[i].internal
    decreases |script|
  {
    if script != [] { CreatedBehind(h, script[..|script| - 1]); }
  }

  // ----- the nodes --------------------------------------------------------------------------------

  /** The nodes with these numbers. */
  function Picked(table: seq<Node>, q: seq<nat>): (s: seq<Node>)
    requires forall i :: 0 <= i < |q| ==> q[i] < |table|
    ensures |s| == |q| && forall i :: 0 <= i < |q| ==> s[i] == table[q[i]]
  { seq(|q|, i requires 0 <= i < |q| => table[q[i]]) }

  /** The queue of loop is h, where table lists the handles by number. */
  ghost predicate Stands(loop: Node, table: seq<Node>, h: Handles)
    reads loop, table
  {
    && Numbers(h) && |table| == |h.internal| && NoDup(table) && loop !in table
    && (forall i :: 0 <= i < |table| ==> table[i].internal == h.internal[i])
    && Ring(loop, Picked(table, h.q))
  }

  /** Appending to one queue leaves another as it is. */
  method AppendApart(loop: Node, q: Node, ghost after: seq<Node>, ghost queue: Node, ghost left: seq<Node>)
    requires Ring(loop, after) && Ring(queue, left) && Apart(loop, after, queue, left)
    requires q != loop && q !in after && q != queue && q !in left
    modifies loop, q, loop.prev
    ensures Ring(loop, after + [q]) && Ring(queue, left) && Apart(loop, after + [q], queue, left)
  {
    assert loop.prev == loop || loop.prev in after;
    InsertTail(loop, q, after);
  }

  lemma SameRing(h: Node, s: seq<Node>, t: seq<Node>)
    requires Ring(h, s) && s == t
    ensures Ring(h, t)
  {
  }

  /** Unlinking from one queue leaves another as it is. */
  method RemoveApart(queue: Node, ghost first: Node, ghost tail: seq<Node>, ghost loop: Node, ghost after: seq<Node>)
    returns (q: Node)
    requires Ring(queue, [first] + tail) && Ring(loop, after) && Apart(loop, after, queue, [first] + tail)
    modifies queue, queue.next, queue.next.next
    ensures q == first && q !in tail
    ensures Ring(queue, tail) && Ring(loop, after) && Apart(loop, after, queue, tail)
  {
    ghost var rest := [first] + tail;
    ghost var left := rest[1..];
    EmptyAndHead(queue, rest);
    q := Head(queue);
    assert q.prev == queue && (if tail == [] then q.next == queue else q.next == rest[1] && rest[1] in rest);
    assert queue !in after && queue != loop && q.next !in after && q.next != loop;
    Remove(q, queue, rest, 0);
    SameRing(queue, rest[..0] + left, tail);
  }

  /** The handles called back in t. */
  function Shown(t: seq<Entry>, table: seq<Node>): seq<Node>
    requires InRange(t, |table|)
  {
    if t == [] then [] else
      var n := |t| - 1;
      Shown(t[..n], table) + if t[n].Visit? then [table[t[n].x]] else []
  }

  lemma {:induction false} ShownLater(t: seq<Entry>, table: seq<Node>, more: seq<Node>)
    requires InRange(t, |table|)
    ensures InRange(t, |table + more|) && Shown(t, table + more) == Shown(t, table)
    decreases |t|
  {
    if t != [] { ShownLater(t[..|t| - 1], table, more); }
  }

  lemma {:induction false} ShownConcat(t: seq<Entry>, u: seq<Entry>, table: seq<Node>)
    requires InRange(t, |table|) && InRange(u, |table|)
    ensures Shown(t + u, table) == Shown(t, table) + Shown(u, table)
    decreases |u|
  {
    if u == [] {
      assert t + u == t;
    } else {
      var n := |u| - 1;
      assert (t + u)[..|t + u| - 1] == t + u[..n];
      ShownConcat(t, u[..n], table);
    }
  }

  /** Two stretches of a trace, the second told when there are more handles. */
  lemma ShownOn(t: seq<Entry>, u: seq<Entry>, table: seq<Node>, more: seq<Node>)
    requires InRange(t, |table|) && InRange(u, |table + more|)
    ensures InRange(t + u, |table + more|) && Shown(t + u, table + more) == Shown(t, table) + Shown(u, table + more)
  {
    ShownLater(t, table, more);
    ShownConcat(t, u, table + more);
  }

  lemma ShownOne(e: Entry, table: seq<Node>)
    requires InRange([e], |table|)
    ensures e.Visit? ==> e.x < |table| && Shown([e], table) == [table[e.x]]
    ensures !e.Visit? ==> Shown([e], table) == []
  {
    assert [e][..0] == [] && [e][0] == e;
  }

  lemma PickedNoDup(table: seq<Node>, q: seq<nat>)
    requires (forall i :: 0 <= i < |q| ==> q[i] < |table|) && NoDup(Picked(table, q))
    ensures NoDup(q)
  {
    forall i, j | 0 <= i < j < |q| ensures q[i] != q[j] {
      assert Picked(table, q)[i] != Picked(table, q)[j];
    }
  }

  /** Whatever stands in the queue later stood there before or is new. */
  lemma OnlyThese(table: seq<Node>, added: seq<Node>, q: seq<nat>, g: Handles)
    requires (forall i :: 0 <= i < |q| ==> q[i] < |table|) && Keeps(q, |table|, g) && |g.internal| == |table + added|
    ensures forall i :: 0 <= i < |g.q| ==>
      Picked(table + added, g.q)[i] in Picked(table, q) || Picked(table + added, g.q)[i] in added
  {
    forall i | 0 <= i < |g.q|
      ensures Picked(table + added, g.q)[i] in Picked(table, q) || Picked(table + added, g.q)[i] in added
    {
      var k := g.q[i];
      if k < |table| {
        OldsIn(g.q, |table|, k);
        var j :| 0 <= j < |q| && q[j] == k;
        assert Picked(table, q)[j] == table[k];
      } else {
        assert (table + added)[k] == added[k - |table|];
      }
    }
  }

  lemma {:induction false} CallsCount(table: seq<Node>, q: seq<nat>, internal: seq<bool>)
    requires Numbers(Handles(q, internal)) && |internal| <= |table|
    requires forall i :: 0 <= i < |internal| ==> table[i].internal == internal[i]
    ensures |External(Picked(table, q))| == Calls(q, internal)
    decreases |q|
  {
    if q != [] {
      var n := |q| - 1;
      assert Picked(table, q)[..n] == Picked(table, q[..n]);
      CallsCount(table, q[..n], internal);
    }
  }

  // ----- the walk ---------------------------------------------------------------------------------

  /** uv__handle_init puts the new handle at the end of the loop's queue. */
  method MakeHandle(loop: Node, internal: bool, ghost table: seq<Node>, ghost h: Handles)
    returns (ghost more: seq<Node>)
    requires Stands(loop, table, h)
    modifies loop, Picked(table, h.q)
    ensures fresh(more) && Stands(loop, table + more, Created(h, internal))
  {
    ghost var s := Picked(table, h.q);
    assert loop.prev == loop || loop.prev in s;
    var x := new Node(internal);
    InsertTail(loop, x, s);
    more := [x];
    SameRing(loop, s + [x], Picked(table + [x], h.q + [|table|]));
  }

  /** One thing that a callback does; told lists the handles that are called back in it. */
  method PerformOne(loop: Node, act: Act, ghost level: nat, ghost table: seq<Node>, ghost h: Handles)
    returns (told: seq<Node>, ghost more: seq<Node>)
    requires Stands(loop, table, h)
    modifies loop, Picked(table, h.q)
    ensures fresh(more) && Stands(loop, table + more, Acted(h, act))
    ensures told == Shown(ActTrace(h, act, level), table + more)
    decreases act, 0
  {
    match act
    case Create(internal) =>
      more := MakeHandle(loop, internal, table, h);
      told := [];
      ShownOne(Made(level, internal), table + more);
    case Again(callbacks) =>
      var called;
      called, told, more := Walk(loop, callbacks, level + 1, table, h);
      ShownOne(Nested(level), table);
      ShownOn([Nested(level)], WalkTrace(h, callbacks, |h.q|, level + 1), table, more);
  }

  /** A callback. */
  method Perform(loop: Node, acts: seq<Act>, ghost level: nat, ghost table: seq<Node>, ghost h: Handles)
    returns (told: seq<Node>, ghost added: seq<Node>)
    requires Stands(loop, table, h)
    modifies loop, Picked(table, h.q)
    ensures fresh(added) && Stands(loop, table + added, Did(h, acts))
    ensures told == Shown(ScriptTrace(h, acts, level), table + added)
    decreases acts, 1
  {
    told, added := [], [];
    assert table + added == table && acts[..0] == [];
    PickedNoDup(table, h.q);
    for i := 0 to |acts|
      invariant forall j :: 0 <= j < |added| ==> fresh(added[j])
      invariant Stands(loop, table + added, Did(h, acts[..i]))
      invariant told == Shown(ScriptTrace(h, acts[..i], level), table + added)
    {
      told, added := PerformNext(loop, acts, i, level, table, added, h, told);
    }
    AllOf(acts);
  }

  /** The next thing, with what has been told and added before. */
  method PerformNext(loop: Node, acts: seq<Act>, i: nat, ghost level: nat, ghost table: seq<Node>,
      ghost added: seq<Node>, ghost h: Handles, told: seq<Node>)
    returns (all: seq<Node>, ghost grown: seq<Node>)
    requires Numbers(h) && |h.internal| == |table| && NoDup(h.q) && i < |acts|
    requires Stands(loop, table + added, Did(h, acts[..i]))
    requires told == Shown(ScriptTrace(h, acts[..i], level), table + added)
    modifies loop, Picked(table, h.q), added
    ensures Stands(loop, table + grown, Did(h, acts[..i + 1]))
    ensures all == Shown(ScriptTrace(h, acts[..i + 1], level), table + grown)
    ensures forall j :: 0 <= j < |grown| ==> grown[j] in added || fresh(grown[j])
    decreases acts, 0
  {
    ghost var g := Did(h, acts[..i]);
    DidKeeps(h, acts[..i]);
    OnlyThese(table, added, h.q, g);
    var inner;
    ghost var more;
    inner, more := PerformOne(loop, acts[i], level, table + added, g);
    grown := added + more;
    ScriptOn(h, acts, i, level, table, added, more);
    all := told + inner;
  }

  lemma ScriptOn(h: Handles, acts: seq<Act>, i: nat, level: nat, table: seq<Node>, added: seq<Node>, more: seq<Node>)
    requires Numbers(h) && i < |acts| && |Did(h, acts[..i]).internal| == |table + added|
    requires |Acted(Did(h, acts[..i]), acts[i]).internal| == |table + added + more|
    ensures Did(h, acts[..i + 1]) == Acted(Did(h, acts[..i]), acts[i]) && table + added + more == table + (added + more)
    ensures Shown(ScriptTrace(h, acts[..i + 1], level), table + added + more) ==
      Shown(ScriptTrace(h, acts[..i], level), table + added)
      + Shown(ActTrace(Did(h, acts[..i]), acts[i], level), table + added + more)
  {
    assert acts[..i + 1][..i] == acts[..i];
    Assoc(table, added, more);
    ShownOn(ScriptTrace(h, acts[..i], level), ActTrace(Did(h, acts[..i]), acts[i], level), table + added, more);
  }

  /** Where a walk over h stands once done of its handles are reported. */
  ghost predicate Walking(loop: Node, queue: Node, table: seq<Node>, added: seq<Node>, h: Handles,
      callbacks: seq<Callback>, done: nat, called: seq<Node>)
    requires Numbers(h) && |h.internal| == |table| && done <= |h.q|
    reads loop, queue, table, added
  {
    && Stands(loop, table + added, Walked(h, callbacks, done))
    && Ring(queue, Picked(table, h.q)[done..]) && queue !in table + added && queue != loop
    && called == External(Picked(table, h.q)[..done])
  }

  /** The handles still to be reported are not yet back in the loop's queue. */
  lemma StillApart(loop: Node, queue: Node, table: seq<Node>, added: seq<Node>, h: Handles, g: Handles, done: nat)
    requires Numbers(h) && |h.internal| == |table| && NoDup(h.q) && done <= |h.q| && Keeps(h.q[..done], |table|, g)
    requires |g.internal| == |table + added| && NoDup(table + added) && loop !in table + added
    requires queue !in table + added && queue != loop
    ensures Apart(loop, Picked(table + added, g.q), queue, Picked(table, h.q)[done..])
  {
    forall i, j | 0 <= i < |g.q| && done <= j < |h.q|
      ensures Picked(table + added, g.q)[i] != Picked(table, h.q)[j]
    {
      OldsIn(g.q, |table|, g.q[i]);
      assert (table + added)[h.q[j]] == table[h.q[j]];
      assert h.q[j] !in h.q[..done];
    }
    assert forall x :: x in Picked(table + added, g.q) ==> x in table + added;
    assert forall x :: x in Picked(table, h.q)[done..] ==> x in table && x in table + added;
  }

  /**
   * uv_walk: calls back the external handles that are there at entry, each once and in order;
   * told also lists the calls of the walks inside its callbacks.
   */
  method Walk(loop: Node, callbacks: seq<Callback>, ghost level: nat, ghost table: seq<Node>, ghost h: Handles)
    returns (called: seq<Node>, told: seq<Node>, ghost added: seq<Node>)
    requires Stands(loop, table, h)
    modifies loop, Picked(table, h.q)
    ensures called == External(Picked(table, h.q)) && fresh(added)
    ensures Stands(loop, table + added, Walked(h, callbacks, |h.q|))
    ensures told == Shown(WalkTrace(h, callbacks, |h.q|, level), table + added)
    decreases callbacks, 4
  {
    ghost var s := Picked(table, h.q);
    PickedNoDup(table, h.q);
    assert loop.prev == loop || (s != [] && loop.prev == s[|s| - 1]);
    var queue := new Node(false);
    Move(loop, queue, s);
    assert table + [] == table && s[..0] == [] && s[0..] == s;
    SameRing(loop, [], Picked(table + [], []));
    called, told, added := Drain(loop, queue, callbacks, level, table, h);
  }

  /** The loop of uv_walk. */
  method Drain(loop: Node, queue: Node, callbacks: seq<Callback>, ghost level: nat, ghost table: seq<Node>,
      ghost h: Handles)
    returns (called: seq<Node>, told: seq<Node>, ghost added: seq<Node>)
    requires Numbers(h) && |h.internal| == |table| && NoDup(h.q)
    requires forall i :: 0 <= i < |table| ==> table[i].internal == h.internal[i]
    requires Walking(loop, queue, table, [], h, callbacks, 0, [])
    modifies loop, queue, Picked(table, h.q)
    ensures called == External(Picked(table, h.q)) && fresh(added)
    ensures Stands(loop, table + added, Walked(h, callbacks, |h.q|))
    ensures told == Shown(WalkTrace(h, callbacks, |h.q|, level), table + added)
    decreases callbacks, 3
  {
    ghost var s := Picked(table, h.q);
    called, told, added := [], [], [];
    ghost var done := 0;
    EmptyAndHead(queue, s[done..]);
    while !Empty(queue)
      invariant done <= |s| && forall i :: 0 <= i < |added| ==> fresh(added[i])
      invariant Walking(loop, queue, table, added, h, callbacks, done, called)
      invariant told == Shown(WalkTrace(h, callbacks, done, level), table + added)
      decreases |s| - done
    {
      EmptyAndHead(queue, s[done..]);
      called, told, added := OneRound(loop, queue, callbacks, level, table, added, h, done, called, told);
      done := done + 1;
    }
    EmptyAndHead(queue, s[done..]);
    assert done == |s|;
    AllOf(s);
  }

  lemma AllOf<T>(s: seq<T>)
    ensures s[..|s|] == s && s[0..] == s
  {
  }

  /** A round, with what the rounds before have told and added. */
  method OneRound(loop: Node, queue: Node, callbacks: seq<Callback>, ghost level: nat, ghost table: seq<Node>,
      ghost added: seq<Node>, ghost h: Handles, ghost done: nat, called: seq<Node>, told: seq<Node>)
    returns (now: seq<Node>, all: seq<Node>, ghost grown: seq<Node>)
    requires Numbers(h) && |h.internal| == |table| && NoDup(h.q) && done < |h.q|
    requires forall i :: 0 <= i < |table| ==> table[i].internal == h.internal[i]
    requires Walking(loop, queue, table, added, h, callbacks, done, called)
    requires told == Shown(WalkTrace(h, callbacks, done, level), table + added)
    modifies loop, queue, Picked(table, h.q), added
    ensures Walking(loop, queue, table, grown, h, callbacks, done + 1, now)
    ensures all == Shown(WalkTrace(h, callbacks, done + 1, level), table + grown)
    ensures forall i :: 0 <= i < |grown| ==> grown[i] in added || fresh(grown[i])
    decreases callbacks, 2
  {
    var inner;
    ghost var more;
    now, inner, more := Round(loop, queue, callbacks, level, table, added, h, done, called);
    grown := added + more;
    ToldOn(h, callbacks, done, level, table, added, more);
    all := told + inner;
  }

  lemma ToldOn(h: Handles, callbacks: seq<Callback>, done: nat, level: nat, table: seq<Node>, added: seq<Node>,
      more: seq<Node>)
    requires Numbers(h) && done < |h.q| && |Walked(h, callbacks, done).internal| == |table + added|
    requires |Walked(h, callbacks, done + 1).internal| == |table + added + more|
    ensures var g := Walked(h, callbacks, done);
      var u := CallTrace(h, callbacks, done, g.(q := g.q + [h.q[done]]), level);
      && InRange(u, |table + added + more|) && table + (added + more) == table + added + more
      && Shown(WalkTrace(h, callbacks, done + 1, level), table + added + more)
         == Shown(WalkTrace(h, callbacks, done, level), table + added) + Shown(u, table + added + more)
  {
    WalkedOn(h, callbacks, done);
    TraceOn(h, callbacks, done, level);
    Assoc(table, added, more);
    var g := Walked(h, callbacks, done);
    var u := CallTrace(h, callbacks, done, g.(q := g.q + [h.q[done]]), level);
    ShownOn(WalkTrace(h, callbacks, done, level), u, table + added, more);
  }

  /** The first handle goes from the walk's own queue back to the end of the loop's. */
  method PutBack(loop: Node, queue: Node, ghost table: seq<Node>, ghost added: seq<Node>,
      ghost h: Handles, ghost g: Handles, ghost done: nat)
    returns (q: Node)
    requires Numbers(h) && |h.internal| == |table| && NoDup(h.q) && done < |h.q| && Keeps(h.q[..done], |table|, g)
    requires Stands(loop, table + added, g) && queue !in table + added && queue != loop
    requires Ring(queue, Picked(table, h.q)[done..])
    modifies loop, queue, Picked(table, h.q), added
    ensures q == table[h.q[done]] && Ring(queue, Picked(table, h.q)[done + 1..])
    ensures Stands(loop, table + added, g.(q := g.q + [h.q[done]]))
  {
    ghost var s, after := Picked(table, h.q), Picked(table + added, g.q);
    ghost var tail := s[done + 1..];
    assert s[done..] == [s[done]] + tail;
    StillApart(loop, queue, table, added, h, g, done);
    OnlyThese(table, added, h.q[..done], g);
    assert loop.prev == loop || (g.q != [] && loop.prev == after[|g.q| - 1]);
    assert Picked(table, h.q[..done]) == s[..done];
    q := RemoveApart(queue, s[done], tail, loop, after);
    AppendApart(loop, q, after, queue, tail);
    SameRing(loop, after + [q], Picked(table + added, g.q + [h.q[done]]));
  }

  /** A callback leaves the handles still to be reported alone. */
  method Report(loop: Node, acts: seq<Act>, ghost level: nat, ghost table: seq<Node>, ghost g: Handles,
      ghost queue: Node, ghost left: seq<Node>)
    returns (told: seq<Node>, ghost more: seq<Node>)
    requires Stands(loop, table, g) && Ring(queue, left) && Apart(loop, Picked(table, g.q), queue, left)
    modifies loop, Picked(table, g.q)
    ensures fresh(more) && Stands(loop, table + more, Did(g, acts)) && Ring(queue, left)
    ensures told == Shown(ScriptTrace(g, acts, level), table + more)
    decreases acts, 2
  {
    forall i, j | 0 <= i < |left| && 0 <= j < |g.q| ensures Picked(table, g.q)[j] != left[i] {
      assert left[i] in left && Picked(table, g.q)[j] in Picked(table, g.q);
    }
    told, more := Perform(loop, acts, level, table, g);
  }

  lemma ExternalSnoc(s: seq<Node>, q: Node)
    ensures External(s + [q]) == External(s) + if q.internal then [] else [q]
  {
    assert (s + [q])[..|s|] == s;
  }

  /** The k-th call of the walk, by which done handles are back in the loop's queue, now g. */
  method Call(loop: Node, callbacks: seq<Callback>, k: nat, ghost level: nat, ghost table: seq<Node>,
      ghost added: seq<Node>, ghost h: Handles, ghost g: Handles, ghost queue: Node, ghost done: nat)
    returns (told: seq<Node>, ghost more: seq<Node>)
    requires Numbers(h) && |h.internal| == |table| && NoDup(h.q) && done <= |h.q| && Keeps(h.q[..done], |table|, g)
    requires Stands(loop, table + added, g) && queue !in table + added && queue != loop
    requires Ring(queue, Picked(table, h.q)[done..])
    modifies loop, Picked(table, h.q), added
    ensures fresh(more) && Ring(queue, Picked(table, h.q)[done..])
    ensures Stands(loop, table + added + more, if k < |callbacks| then Did(g, callbacks[k].acts) else g)
    ensures told ==
      if k < |callbacks| then Shown(ScriptTrace(g, callbacks[k].acts, level), table + added + more) else []
    decreases callbacks, 0
  {
    told, more := [], [];
    assert table + added + more == table + added;
    if k < |callbacks| {
      StillApart(loop, queue, table, added, h, g, done);
      assert Picked(table, h.q[..done]) == Picked(table, h.q)[..done];
      OnlyThese(table, added, h.q[..done], g);
      told, more := Report(loop, callbacks[k].acts, level, table + added, g, queue, Picked(table, h.q)[done..]);
    }
  }

  /** The body of its loop. */
  method Round(loop: Node, queue: Node, callbacks: seq<Callback>, ghost level: nat, ghost table: seq<Node>,
      ghost added: seq<Node>, ghost h: Handles, ghost done: nat, called: seq<Node>)
    returns (now: seq<Node>, told: seq<Node>, ghost more: seq<Node>)
    requires Numbers(h) && |h.internal| == |table| && NoDup(h.q) && done < |h.q|
    requires forall i :: 0 <= i < |table| ==> table[i].internal == h.internal[i]
    requires Walking(loop, queue, table, added, h, callbacks, done, called)
    modifies loop, queue, Picked(table, h.q), added
    ensures fresh(more) && Walking(loop, queue, table, added + more, h, callbacks, done + 1, now)
    ensures var g := Walked(h, callbacks, done);
      var u := CallTrace(h, callbacks, done, g.(q := g.q + [h.q[done]]), level);
      InRange(u, |table + added + more|) && told == Shown(u, table + added + more)
    decreases callbacks, 1
  {
    ghost var s, g, x := Picked(table, h.q), Walked(h, callbacks, done), h.q[done];
    ghost var back := g.(q := g.q + [x]);
    WalkedKeeps(h, callbacks, done);
    var q := PutBack(loop, queue, table, added, h, g, done);
    CallsAndCalled(table, h, done);
    WalkedOn(h, callbacks, done);
    if q.internal {
      assert added + [] == added;
      return called, [], [];
    }
    now := called + [q];
    BackKeeps(h, g, done);
    var inner;
    inner, more := Call(loop, callbacks, |called|, level, table, added, h, back, queue, done + 1);
    Assoc(table, added, more);
    ToldHere(h, callbacks, done, back, level, table + added, more);
    told := [q] + inner;
  }

  lemma ToldHere(h: Handles, callbacks: seq<Callback>, done: nat, back: Handles, level: nat, table: seq<Node>,
      more: seq<Node>)
    requires Numbers(h) && done < |h.q| && Numbers(back) && |h.internal| <= |back.internal| == |table|
    requires !h.internal[h.q[done]]
    requires var k := Calls(h.q[..done], h.internal);
      |table + more| == if k < |callbacks| then |Did(back, callbacks[k].acts).internal| else |back.internal|
    ensures var k, u := Calls(h.q[..done], h.internal), CallTrace(h, callbacks, done, back, level);
      InRange(u, |table + more|) && Shown(u, table + more) == [table[h.q[done]]]
        + if k < |callbacks| then Shown(ScriptTrace(back, callbacks[k].acts, level), table + more) else []
  {
    var k, e := Calls(h.q[..done], h.internal), Visit(level, h.q[done]);
    ShownOne(e, table);
    if k < |callbacks| {
      ShownOn([e], ScriptTrace(back, callbacks[k].acts, level), table, more);
    } else {
      ShownLater([e], table, more);
      assert [e] + [] == [e];
    }
  }

  lemma CallsAndCalled(table: seq<Node>, h: Handles, done: nat)
    requires Numbers(h) && |h.internal| == |table| && done < |h.q|
    requires forall i :: 0 <= i < |table| ==> table[i].internal == h.internal[i]
    ensures var s := Picked(table, h.q);
      && |External(s[..done])| == Calls(h.q[..done], h.internal)
      && External(s[..done + 1]) == External(s[..done]) + if s[done].internal then [] else [s[done]]
  {
    var s := Picked(table, h.q);
    assert Picked(table, h.q[..done]) == s[..done] && s[..done + 1] == s[..done] + [s[done]];
    CallsCount(table, h.q[..done], h.internal);
    ExternalSnoc(s[..done], s[done]);
  }
}
