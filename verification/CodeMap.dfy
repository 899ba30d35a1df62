/** The index of dynamic code in deps/v8/tools/codemap.js. */
module CodeMap {
  import opened InetText

  /** A code entry covers size addresses from its key on; named is nameUpdated_. */
  datatype Entry = Entry(size: nat, name: string, named: bool)

  type Code = map<int, Entry>

  predicate Covers(m: Code, k: int, addr: int) { k in m && k <= addr < k + m[k].size }

  predicate Overlaps(m: Code, k: int, start: int, end: int) { k in m && k < end && start < k + m[k].size }

  // ----- searching the tree -------------------------------------------------------------------

  /** Whether k is the greatest key not above x; the splay tree finds it. */
  ghost predicate IsGreatest(keys: set<int>, x: int, k: int) {
    k in keys && k <= x && forall j :: j in keys && j <= x ==> j <= k
  }

  lemma {:induction false} GreatestExists(keys: set<int>, x: int)
    requires exists k :: k in keys && k <= x
    ensures exists k :: IsGreatest(keys, x, k)
    decreases |keys|
  {
    var k :| k in keys && k <= x;
    var rest := keys - {k};
    if exists j :: j in rest && j <= x {
      GreatestExists(rest, x);
      var g :| IsGreatest(rest, x, g);
      assert forall j :: j in keys ==> j in rest || j == k;
      assert IsGreatest(keys, x, if g < k then k else g);
    } else {
      assert forall j :: j in keys && j <= x ==> j in rest || j == k;
      assert IsGreatest(keys, x, k);
    }
  }

  /** findGreatestLessThan of the imported tree, which despite its name also finds x itself. */
  function Greatest(m: Code, x: int): (r: Option<int>)
    ensures r.None? ==> forall k :: k in m ==> k > x
    ensures r.Some? ==> IsGreatest(m.Keys, x, r.value)
  {
    if k :| k in m.Keys && k <= x then
      GreatestExists(m.Keys, x);
      var g :| g in m.Keys && g <= x && forall j :: j in m.Keys && j <= x ==> j <= g;
      Some(g)
    else None
  }

  lemma {:induction false} EndsExist(keys: set<int>)
    requires exists k :: k in keys
    ensures exists k :: k in keys && forall j :: j in keys ==> k <= j
    ensures exists k :: k in keys && forall j :: j in keys ==> j <= k
    decreases |keys|
  {
    var x :| x in keys;
    var rest := keys - {x};
    assert forall j :: j in keys ==> j in rest || j == x;
    if exists k :: k in rest {
      EndsExist(rest);
      var a :| a in rest && forall j :: j in rest ==> a <= j;
      var b :| b in rest && forall j :: j in rest ==> j <= b;
      var least, most := if a < x then a else x, if b > x then b else x;
      assert least in keys && forall j :: j in keys ==> least <= j;
      assert most in keys && forall j :: j in keys ==> j <= most;
    }
  }

  /** findMin and findMax */
  function Ends(m: Code): (r: (int, int))
    requires exists k :: k in m
    ensures r.0 in m && r.1 in m && forall k :: k in m ==> r.0 <= k <= r.1
  {
    assert exists k :: k in m.Keys by {
      var k :| k in m;
      assert k in m.Keys;
    }
    EndsExist(m.Keys);
    var a :| a in m.Keys && forall j :: j in m.Keys ==> a <= j;
    var b :| b in m.Keys && forall j :: j in m.Keys ==> j <= b;
    (a, b)
  }

  /** Some entry begins behind k and not behind addr. */
  ghost predicate Shadowed(m: Code, k: int, addr: int) { exists j :: j in m && k < j <= addr }

  /** findInTree_: the entry that covers addr, unless another begins in between. */
  function FindInTree(m: Code, addr: int): (r: Option<int>)
    ensures forall k :: r == Some(k) <==> Covers(m, k, addr) && !Shadowed(m, k, addr)
  {
    match Greatest(m, addr)
    case None => None
    case Some(k) => if addr >= k && addr < k + m[k].size then Some(k) else None
  }

  // ----- disjoint ranges ----------------------------------------------------------------------

  /** No address belongs to two entries. Entries of size 0 have none and may stand anywhere. */
  ghost predicate Disjoint(m: Code) {
    forall j, k :: j in m && k in m && j < k && m[k].size > 0 ==> j + m[j].size <= k
  }

  ghost predicate NoneEmpty(m: Code) { forall k :: k in m ==> m[k].size > 0 }

  /** An empty entry begins inside the entry that covers addr, and not behind addr. */
  ghost predicate EmptyBefore(m: Code, addr: int) {
    exists j, k :: j in m && m[j].size == 0 && Covers(m, k, addr) && k < j <= addr
  }

  /** The lookup agrees with a search through all entries exactly if no empty entry is in its way. */
  lemma LookupIsBruteForce(m: Code, addr: int)
    requires Disjoint(m)
    ensures (forall k :: FindInTree(m, addr) == Some(k) <==> Covers(m, k, addr)) <==> !EmptyBefore(m, addr)
  {
    if EmptyBefore(m, addr) {
      var j, k :| j in m && m[j].size == 0 && Covers(m, k, addr) && k < j <= addr;
      assert Shadowed(m, k, addr);
      assert FindInTree(m, addr) != Some(k);
    } else {
      forall k | Covers(m, k, addr) ensures !Shadowed(m, k, addr) {
        if j :| j in m && k < j <= addr { assert false; }
      }
    }
  }

  /** The downward search ends at the first entry that does not begin behind start. */
  predicate Reached(m: Code, k: int, start: int) { k >= start || forall j :: j in m.Keys && k < j ==> start < j }

  /** What deleteAllCoveredNodes_ leaves: all but the overlapping entries that its search reaches. */
  function Cleared(m: Code, start: int, end: int): Code {
    map k | k in m && !(start < end && Overlaps(m, k, start, end) && Reached(m, k, start)) :: m[k]
  }

  /** What addCode leaves; the tree keeps an entry it already has at a key. */
  function Added(m: Code, start: int, e: Entry): Code {
    var c := Cleared(m, start, start + e.size);
    if start in c then c else c[start := e]
  }

  /** An overlapping entry that the search does not reach: another begins between it and start. */
  ghost predicate Hidden(m: Code, start: int) {
    exists j, k :: k in m && j in m && k < j < start < k + m[k].size
  }

  /** A key is still taken exactly if its entry is empty or the new one is. */
  lemma KeyTaken(m: Code, start: int, n: nat)
    ensures start in Cleared(m, start, start + n) <==> start in m && (m[start].size == 0 || n == 0)
  {
  }

  /** addCode keeps the ranges disjoint exactly if the entry has no range, is dropped, or hides no overlap. */
  lemma AddedDisjoint(m: Code, start: int, e: Entry)
    requires Disjoint(m)
    ensures Disjoint(Added(m, start, e)) <==>
      e.size == 0 || (start in m && m[start].size == 0) || !Hidden(m, start)
  {
    KeyTaken(m, start, e.size);
    var c, t := Cleared(m, start, start + e.size), Added(m, start, e);
    if e.size > 0 && start !in c {
      assert t == c[start := e];
      if Hidden(m, start) {
        var j, k :| k in m && j in m && k < j < start < k + m[k].size;
        assert !Reached(m, k, start);
        assert k in t && start in t && t[k] == m[k] && t[start] == e;
      } else {
        forall j, k | j in t && k in t && j < k && t[k].size > 0 ensures j + t[j].size <= k {
          if k == start {
            assert j in m && !(Overlaps(m, j, start, start + e.size) && Reached(m, j, start));
          } else if j == start {
            assert !Overlaps(m, k, start, start + e.size) || !Reached(m, k, start);
          }
        }
      }
    }
  }

  /** Without empty entries it always does, and discards exactly what the new entry overlaps. */
  lemma AddedExactly(m: Code, start: int, e: Entry)
    requires Disjoint(m) && NoneEmpty(m) && e.size > 0
    ensures Disjoint(Added(m, start, e)) && NoneEmpty(Added(m, start, e))
    ensures forall k :: k in Added(m, start, e) <==> k == start || (k in m && !Overlaps(m, k, start, start + e.size))
    ensures forall k :: k in Added(m, start, e) ==> Added(m, start, e)[k] == if k == start then e else m[k]
  {
    AddedDisjoint(m, start, e);
    KeyTaken(m, start, e.size);
    forall k | Overlaps(m, k, start, start + e.size) ensures Reached(m, k, start) {
    }
  }

  /** In any tree: what is at the key afterwards, which other entries stay, and that they are as before. */
  lemma AddedAnywhere(m: Code, start: int, e: Entry)
    ensures var t := Added(m, start, e);
      && start in t && t[start] == (if start in m && (m[start].size == 0 || e.size == 0) then m[start] else e)
      && forall k :: k != start ==>
           && (k in t <==> k in m && (e.size == 0 || !Overlaps(m, k, start, start + e.size) || Skipped(m, k, start)))
           && (k in t ==> t[k] == m[k])
  {
    KeyTaken(m, start, e.size);
    forall k | k in m && k != start ensures Reached(m, k, start) <==> !Skipped(m, k, start) {
      if !Reached(m, k, start) {
        var j :| j in m.Keys && k < j && !(start < j);
      }
    }
  }

  /** Another entry begins behind k and not behind start, so the search does not get to k. */
  ghost predicate Skipped(m: Code, k: int, start: int) { exists j :: j in m && k < j <= start }

  /** With one it may not: 7..9 is added into 0..10, which an empty entry at 5 hides. */
  lemma HiddenOverlap()
    ensures var m: Code := map[0 := Entry(10, "a", false), 5 := Entry(0, "b", false)];
      var t := Added(m, 7, Entry(2, "c", false));
      Disjoint(m) && Covers(t, 0, 7) && Covers(t, 7, 7) && Covers(t, 0, 9) && FindInTree(t, 9) == None
  {
    var m: Code := map[0 := Entry(10, "a", false), 5 := Entry(0, "b", false)];
    var t := Added(m, 7, Entry(2, "c", false));
    assert 5 in m.Keys && !Reached(m, 0, 7);
    assert Covers(t, 0, 7) && 7 in t && t[7].size == 2;
    forall k ensures !(Covers(t, k, 9) && !Shadowed(t, k, 9)) {
      if k < 7 { assert Shadowed(t, k, 9); }
    }
    assert forall k :: FindInTree(t, 9) != Some(k);
  }

  // ----- names --------------------------------------------------------------------------------

  /** The names every object has, `{}` included. */
  const INHERITED := {
    "constructor", "hasOwnProperty", "isPrototypeOf", "propertyIsEnumerable", "toLocaleString", "toString", "valueOf",
    PROTO, "__defineGetter__", "__defineSetter__", "__lookupGetter__", "__lookupSetter__"}

  /** The one of them that cannot be set to a number. */
  const PROTO := "__proto__"

  /** A property of knownNames_; counting on from a function gives NaN. */
  datatype Count = Num(n: nat) | NaN

  function Text(c: Count): string { if c == NaN then "NaN" else Dec(c.n) }

  function Numbered(name: string, c: Count): string { name + " {" + Text(c) + "}" }

  /** How often a name has been asked for. */
  function Uses(requests: seq<string>, name: string): nat {
    if requests == [] then 0 else
      var n := |requests| - 1;
      Uses(requests[..n], name) + if requests[n] == name then 1 else 0
  }

  predicate Plain(requests: seq<string>, name: string) { name !in INHERITED && Uses(requests, name) == 0 }

  /** The count that request gets unless it gets the plain name. */
  function CountFor(requests: seq<string>, name: string): Count {
    if name in INHERITED then NaN else Num(Uses(requests, name))
  }

  /** What the generator answers after these requests: the plain name first, then `name {1}`, `name {2}`. */
  function Given(requests: seq<string>, name: string): string {
    if Plain(requests, name) then name else Numbered(name, CountFor(requests, name))
  }

  function GivenAt(requests: seq<string>, i: nat): string
    requires i < |requests|
  { Given(requests[..i], requests[i]) }

  lemma NoBrace(c: Count)
    ensures '{' !in Text(c)
  {
    if c.Num? { DecVal(c.n); }
  }

  /** A numbered name says what it was made from. */
  lemma NumberedUnique(a: string, b: string, c: Count, d: Count)
    requires Numbered(a, c) == Numbered(b, d)
    ensures a == b && Text(c) == Text(d)
  {
    NoBrace(c);
    NoBrace(d);
    var s, t := Numbered(a, c), Numbered(b, d);
    assert s[|a| + 1] == '{' && t[|b| + 1] == '{';
    assert forall i :: |a| + 2 <= i < |s| - 1 ==> s[i] == Text(c)[i - |a| - 2];
    assert forall i :: |b| + 2 <= i < |t| - 1 ==> t[i] == Text(d)[i - |b| - 2];
    assert |a| == |b|;
    assert s[..|a|] == a && t[..|b|] == b;
    assert s[|a| + 2..|s| - 1] == Text(c) && t[|b| + 2..|t| - 1] == Text(d);
  }

  lemma {:induction false} UsesGrow(requests: seq<string>, i: nat, j: nat)
    requires i < j <= |requests|
    ensures Uses(requests[..j], requests[i]) > Uses(requests[..i], requests[i])
    decreases j
  {
    assert requests[..j][..j - 1] == requests[..j - 1];
    if i < j - 1 { UsesGrow(requests, i, j - 1); }
  }

  /**
   * The names that two requests of a run get are the same only in two cases: if both ask for one
   * name that every object has; and if one of them gets its plain name, and that is spelled
   * like the other's numbered name.
   */
  lemma NamesClash(requests: seq<string>, i: nat, j: nat)
    requires i < j < |requests|
    ensures GivenAt(requests, i) == GivenAt(requests, j) <==>
      if requests[i] == requests[j] then requests[i] in INHERITED
      else Spelled(requests, i, j) || Spelled(requests, j, i)
  {
    var a, b := requests[i], requests[j];
    var p, q := requests[..i], requests[..j];
    UsesGrow(requests, i, j);
    if !Plain(p, a) && !Plain(q, b) && GivenAt(requests, i) == GivenAt(requests, j) {
      NumberedUnique(a, b, CountFor(p, a), CountFor(q, b));
      if a !in INHERITED {
        DecVal(Uses(p, a));
        DecVal(Uses(q, a));
      }
    }
  }

  /** Request i gets its plain name, which looks like the numbered one of request j. */
  predicate Spelled(requests: seq<string>, i: nat, j: nat)
    requires i < |requests| && j < |requests|
  {
    && Plain(requests[..i], requests[i]) && !Plain(requests[..j], requests[j])
    && requests[i] == Numbered(requests[j], CountFor(requests[..j], requests[j]))
  }

  /** An input for each case. */
  lemma ClashingNames()
    ensures GivenAt(["toString", "toString"], 0) == GivenAt(["toString", "toString"], 1) == "toString {NaN}"
    ensures GivenAt(["f", "f", "f {1}"], 1) == GivenAt(["f", "f", "f {1}"], 2) == "f {1}"
  {
    var s, t := ["toString", "toString"], ["f", "f", "f {1}"];
    assert "toString" in INHERITED;
    assert Text(NaN) == "NaN" && Dec(1) == "1";
    assert t[..1] == ["f"] && t[..2] == ["f", "f"] && ["f", "f"][..1] == ["f"] && ["f"][..0] == [];
    assert Uses(["f"], "f") == 1 && Uses(["f", "f"], "f {1}") == 0;
  }

  /** knownNames_ after these requests */
  ghost predicate Tallied(names: map<string, Count>, requests: seq<string>) {
    forall name ::
      if name in INHERITED then name in names ==> names[name] == NaN
      else if Uses(requests, name) == 0 then name !in names
      else name in names && names[name] == Num(Uses(requests, name) - 1)
  }

  // ----- runs ---------------------------------------------------------------------------------

  /** The dynamic code, the names asked for so far, and by which request each named entry got its name. */
  datatype Index = Index(code: Code, requests: seq<string>, turn: map<int, nat>)

  const NONE := Index(map[], [], map[])

  function Kept(turn: map<int, nat>, code: Code): map<int, nat> { map k | k in turn && k in code :: turn[k] }

  function AddedTo(x: Index, start: int, e: Entry): Index {
    x.(code := Added(x.code, start, e), turn := Kept(x.turn, Cleared(x.code, start, start + e.size)))
  }

  function DeletedFrom(x: Index, start: int): Index { x.(code := x.code - {start}, turn := x.turn - {start}) }

  /** An entry that is moved onto the key of an empty one is lost. */
  function MovedIn(x: Index, from: int, to: int): Index
    requires from in x.code
  {
    var e, y := x.code[from], DeletedFrom(x, from);
    var z := AddedTo(y, to, e);
    if from in x.turn && to !in Cleared(y.code, to, to + e.size) then z.(turn := z.turn[to := x.turn[from]]) else z
  }

  /** A lookup gives the entry at k its final name, unless it has one. */
  function NamedIn(x: Index, k: int): Index
    requires k in x.code
  {
    var e := x.code[k];
    if e.named then x else
      Index(x.code[k := Entry(e.size, Given(x.requests, e.name), true)], x.requests + [e.name],
            x.turn[k := |x.requests|])
  }

  datatype Op =
    | Add(start: int, size: nat, name: string)
    | Move(from: int, to: int)
    | Delete(start: int)
    | Find(addr: nat)

  const PAGE_SIZE := 4096

  /** An unknown address is an exception that changes nothing; static pages hide dynamic code. */
  function Next(x: Index, op: Op, pages: set<int>): Index {
    match op
    case Add(start, size, name) => AddedTo(x, start, Entry(size, name, false))
    case Move(from, to) => if from in x.code then MovedIn(x, from, to) else x
    case Delete(start) => DeletedFrom(x, start)
    case Find(addr) =>
      if addr / PAGE_SIZE in pages then x else
        match FindInTree(x.code, addr)
        case None => x
        case Some(k) => NamedIn(x, k)
  }

  function After(ops: seq<Op>, pages: set<int>): Index {
    if ops == [] then NONE else Next(After(ops[..|ops| - 1], pages), ops[|ops| - 1], pages)
  }

  /** The named entries are those with a turn; no two have the same, and their names are what that turn gave. */
  ghost predicate InTurn(x: Index) {
    && (forall k :: k in x.turn <==> k in x.code && x.code[k].named)
    && (forall k :: k in x.turn ==> x.turn[k] < |x.requests| && x.code[k].name == GivenAt(x.requests, x.turn[k]))
    && (forall j, k :: j in x.turn && k in x.turn && x.turn[j] == x.turn[k] ==> j == k)
  }

  lemma NextInTurn(x: Index, op: Op, pages: set<int>)
    requires InTurn(x)
    ensures InTurn(Next(x, op, pages))
  {
    if op.Find? && op.addr / PAGE_SIZE !in pages && FindInTree(x.code, op.addr).Some? {
      NamedInTurn(x, FindInTree(x.code, op.addr).value);
    }
  }

  lemma NamedInTurn(x: Index, k: int)
    requires InTurn(x) && k in x.code
    ensures InTurn(NamedIn(x, k))
  {
    var y := NamedIn(x, k);
    forall j | j in y.turn
      ensures y.turn[j] < |y.requests| && y.code[j].name == GivenAt(y.requests, y.turn[j])
    {
      var i := y.turn[j];
      assert i < |x.requests| ==> y.requests[..i] == x.requests[..i];
      assert y != x ==> y.requests[..|x.requests|] == x.requests;
    }
  }

  lemma {:induction false} RunInTurn(ops: seq<Op>, pages: set<int>)
    ensures InTurn(After(ops, pages))
    decreases |ops|
  {
    if ops != [] {
      RunInTurn(ops[..|ops| - 1], pages);
      NextInTurn(After(ops[..|ops| - 1], pages), ops[|ops| - 1], pages);
    }
  }

  /** In every run, two entries named by lookups differ in name but for the two kinds of clash. */
  lemma NamedApart(ops: seq<Op>, pages: set<int>, j: int, k: int)
    requires var x := After(ops, pages); j in x.code && k in x.code && j != k && x.code[j].named && x.code[k].named
    ensures var x := After(ops, pages);
      && j in x.turn && k in x.turn && x.turn[j] < |x.requests| && x.turn[k] < |x.requests|
      && var a, b := x.turn[j], x.turn[k];
         (x.code[j].name == x.code[k].name <==>
            if x.requests[a] == x.requests[b] then x.requests[a] in INHERITED
            else Spelled(x.requests, a, b) || Spelled(x.requests, b, a))
  {
    RunInTurn(ops, pages);
    var x := After(ops, pages);
    var a, b := x.turn[j], x.turn[k];
    if a < b { NamesClash(x.requests, a, b); } else { NamesClash(x.requests, b, a); }
  }

  /** If no entry is added empty, then after every run lookups agree with a search through all entries. */
  lemma {:induction false} RunDisjoint(ops: seq<Op>, pages: set<int>, addr: int)
    requires forall i :: 0 <= i < |ops| && ops[i].Add? ==> ops[i].size > 0
    ensures var m := After(ops, pages).code;
      Disjoint(m) && NoneEmpty(m) && forall k :: FindInTree(m, addr) == Some(k) <==> Covers(m, k, addr)
    decreases |ops|
  {
    if ops != [] {
      var n := |ops| - 1;
      RunDisjoint(ops[..n], pages, addr);
      NextDisjoint(After(ops[..n], pages), ops[n], pages);
    }
    LookupIsBruteForce(After(ops, pages).code, addr);
  }

  lemma NextDisjoint(x: Index, op: Op, pages: set<int>)
    requires Disjoint(x.code) && NoneEmpty(x.code) && (op.Add? ==> op.size > 0)
    ensures var m := Next(x, op, pages).code; Disjoint(m) && NoneEmpty(m)
  {
    match op
    case Add(start, size, name) => AddedExactly(x.code, start, Entry(size, name, false));
    case Move(from, to) =>
      if from in x.code { AddedExactly(x.code - {from}, to, x.code[from]); }
    case _ =>
  }

  // ----- what each operation does, seen on the entries ------------------------------------------

  /** A moved entry is at its new key, as it was, unless that key is still taken. */
  lemma MovedAnywhere(x: Index, from: int, to: int, pages: set<int>)
    requires from in x.code
    ensures var m, e, y := x.code, x.code[from], Next(x, Move(from, to), pages);
      var taken := to in m && to != from && (m[to].size == 0 || e.size == 0);
      && to in y.code && y.code[to] == (if taken then m[to] else e) && y.requests == x.requests
      && (from != to ==> from !in y.code)
      && (forall k :: k in y.code && k != to ==> k in m && k != from && y.code[k] == m[k])
      && (forall k :: k in m && k != from && k != to ==>
            (k in y.code <==> e.size == 0 || !Overlaps(m, k, to, to + e.size) || Skipped(m - {from}, k, to)))
  {
    AddedAnywhere(x.code - {from}, to, x.code[from]);
  }

  /** Over disjoint ranges without empty entries it replaces exactly what it then overlaps. */
  lemma MovedExactly(x: Index, from: int, to: int, pages: set<int>)
    requires Disjoint(x.code) && NoneEmpty(x.code) && from in x.code
    ensures var m, e, y := x.code, x.code[from], Next(x, Move(from, to), pages);
      && (forall k :: k in y.code <==>
            k == to || (k in m && k != from && !Overlaps(m, k, to, to + e.size)))
      && y.code[to] == e && forall k :: k in y.code && k != to ==> y.code[k] == m[k]
  {
    AddedExactly(x.code - {from}, to, x.code[from]);
  }

  /** An entry that is added under a free key is there, with no name from the generator yet. */
  lemma AddedThere(x: Index, start: int, size: nat, name: string, pages: set<int>)
    ensures var m, y := x.code, Next(x, Add(start, size, name), pages);
      && start in y.code && y.requests == x.requests
      && y.code[start] ==
           (if start in m && (m[start].size == 0 || size == 0) then m[start] else Entry(size, name, false))
      && forall k :: k in y.code && k != start ==> k in m && y.code[k] == m[k]
  {
    AddedAnywhere(x.code, start, Entry(size, name, false));
  }

  lemma DeletedExactly(x: Index, start: int, pages: set<int>)
    ensures var y := Next(x, Delete(start), pages);
      && (forall k :: k in y.code <==> k in x.code && k != start) && y.requests == x.requests
      && forall k :: k in y.code ==> y.code[k] == x.code[k]
  {
  }

  /** A lookup leaves all but the name of the entry it finds, and that has its final name afterwards. */
  lemma FoundNamed(x: Index, addr: nat, k: int, pages: set<int>)
    requires addr / PAGE_SIZE !in pages && Covers(x.code, k, addr) && !Shadowed(x.code, k, addr)
    ensures var y := Next(x, Find(addr), pages);
      && y.code.Keys == x.code.Keys && (forall j :: j in x.code && j != k ==> y.code[j] == x.code[j])
      && y.code[k].size == x.code[k].size && y.code[k].named
      && if x.code[k].named then y == x
         else y.requests == x.requests + [x.code[k].name] && y.code[k].name == GivenAt(y.requests, |x.requests|)
  {
    assert FindInTree(x.code, addr) == Some(k);
    assert (x.requests + [x.code[k].name])[..|x.requests|] == x.requests;
  }

  /** One that finds nothing, or static code, changes nothing. */
  lemma FoundNothing(x: Index, addr: nat, pages: set<int>)
    requires addr / PAGE_SIZE in pages || forall k :: Covers(x.code, k, addr) ==> Shadowed(x.code, k, addr)
    ensures Next(x, Find(addr), pages) == x
  {
  }

  datatype Found =
    | Nothing
    | Dynamic(key: int, offset: int)
    | Static(key: int, offset: int)
    | Library(key: int, offset: int)

  // ----- the class ----------------------------------------------------------------------------

  class Map {
    var dynamics: Code
    var statics: Code
    var libraries: Code
    /** pages occupied with static code */
    var pages: set<int>
    /** knownNames_ of dynamicsNameGen_ */
    var names: map<string, Count>
    ghost var requests: seq<string>
    ghost var turn: map<int, nat>

    /** The generator's table is that of its requests. */
    ghost predicate Valid()
      reads this
    { Tallied(names, requests) }

    ghost function Value(): Index
      reads this
    { Index(dynamics, requests, turn) }

    constructor ()
      ensures Valid() && Value() == NONE && pages == {}
    {
      dynamics, statics, libraries, pages, names := map[], map[], map[], {}, map[];
      requests, turn := [], map[];
    }

    /** Removes the entries that overlap start..end, down to the first that does not begin behind start. */
    method DeleteAllCoveredNodes(start: int, end: int)
      modifies `dynamics
      ensures dynamics == Cleared(old(dynamics), start, end)
    {
      var m := dynamics;
      var toDelete: seq<int> := [];
      var addr := end - 1;
      while addr >= start
        invariant addr < end && (start >= end ==> toDelete == [])
        invariant forall k :: k in toDelete <==>
          k > addr && start < end && Overlaps(m, k, start, end) && Reached(m, k, start)
        invariant addr == end - 1 || addr + 1 in m
        decreases addr - start
      {
        var node := Greatest(m, addr);
        if node == None { break; }
        var start2 := node.value;
        var end2 := start2 + m[start2].size;
        assert Reached(m, start2, start) by {
          assert addr + 1 in m ==> addr + 1 in m.Keys;
        }
        if start2 < end && start < end2 { toDelete := toDelete + [start2]; }
        addr := start2 - 1;
      }
      forall k | start < end && Overlaps(m, k, start, end) && Reached(m, k, start) ensures k in toDelete {
        assert addr + 1 in m ==> addr + 1 in m.Keys;
      }
      for i := 0 to |toDelete|
        invariant dynamics == m - (set j | 0 <= j < i :: toDelete[j])
      {
        dynamics := dynamics - {toDelete[i]};
      }
    }

    /** addCode */
    method AddCode(start: int, e: Entry)
      modifies `dynamics, `turn
      ensures Value() == AddedTo(old(Value()), start, e)
    {
      DeleteAllCoveredNodes(start, start + e.size);
      turn := Kept(turn, dynamics);
      if start !in dynamics { dynamics := dynamics[start := e]; }
    }

    /** moveCode; false stands for the exception on an unknown address. */
    method MoveCode(from: int, to: int) returns (known: bool)
      modifies `dynamics, `turn
      ensures known == (from in old(dynamics))
      ensures Value() == if known then MovedIn(old(Value()), from, to) else old(Value())
    {
      if from !in dynamics { return false; }
      var e := dynamics[from];
      ghost var x := Value();
      dynamics, turn := dynamics - {from}, turn - {from};
      AddCode(to, e);
      if from in x.turn && to !in Cleared(x.code - {from}, to, to + e.size) { turn := turn[to := x.turn[from]]; }
      return true;
    }

    method DeleteCode(start: int) returns (known: bool)
      modifies `dynamics, `turn
      ensures known == (start in old(dynamics)) && Value() == DeletedFrom(old(Value()), start)
    {
      if start !in dynamics {
        turn := turn - {start};
        return false;
      }
      dynamics, turn := dynamics - {start}, turn - {start};
      return true;
    }

    /**
     * Outside the pages of static code: the entry that covers addr, unless another begins in
     * between, and nothing but that entry's name changes.
     */
    method FindAddress(addr: nat) returns (r: Found)
      requires Valid()
      modifies `dynamics, `names, `requests, `turn
      ensures Valid()
      ensures addr / PAGE_SIZE !in pages ==>
        && (r == Nothing || r.Dynamic?)
        && forall k :: r == Dynamic(k, addr - k) <==>
             Covers(old(dynamics), k, addr) && !Shadowed(old(dynamics), k, addr)
      ensures addr / PAGE_SIZE in pages ==>
        match r
        case Static(k, i) => Covers(statics, k, addr) && i == addr - k
        case Library(k, i) => Covers(libraries, k, addr) && i == addr - k && FindInTree(statics, addr) == None
        case Nothing => FindInTree(statics, addr) == None && FindInTree(libraries, addr) == None
        case Dynamic(_, _) => false
      ensures Value() == Next(old(Value()), Find(addr), pages)
    {
      if addr / PAGE_SIZE in pages {
        var result := FindInTree(statics, addr);
        if result.Some? { return Static(result.value, addr - result.value); }
        result := FindInTree(libraries, addr);
        return if result.Some? then Library(result.value, addr - result.value) else Nothing;
      }
      if some :| some in dynamics {
        var (min, max) := Ends(dynamics);
        if addr < max + dynamics[max].size && addr >= min {
          var found := FindInTree(dynamics, addr);
          if found == None { return Nothing; }
          var key := found.value;
          Dedupe(key);
          return Dynamic(key, addr - key);
        }
      }
      return Nothing;
    }

    /** The entry at key gets its final name, unless it has one. */
    method Dedupe(key: int)
      requires Valid() && key in dynamics
      modifies `dynamics, `names, `requests, `turn
      ensures Valid() && Value() == NamedIn(old(Value()), key)
    {
      var entry := dynamics[key];
      if !entry.named {
        turn := turn[key := |requests|];
        var name := GetName(entry.name);
        dynamics := dynamics[key := Entry(entry.size, name, true)];
      }
    }

    /** getName of the generator for duplicate names */
    method GetName(name: string) returns (res: string)
      requires Valid()
      modifies `names, `requests
      ensures Valid() && requests == old(requests) + [name] && res == Given(old(requests), name)
    {
      ghost var before := requests;
      requests := before + [name];
      assert requests[..|before|] == before;
      if name !in names && name !in INHERITED {
        names := names[name := Num(0)];
        return name;
      }
      var count := if name in names && names[name].Num? then Num(names[name].n + 1) else NaN;
      if name != PROTO { names := names[name := count]; }
      return name + " {" + Text(count) + "}";
    }

    /** Any sequence of operations on a new map leads to the state the theorems speak of. */
    method Run(ops: seq<Op>)
      requires Valid() && Value() == NONE
      modifies `dynamics, `names, `requests, `turn
      ensures Valid() && Value() == After(ops, pages)
    {
      for i := 0 to |ops|
        invariant Valid() && Value() == After(ops[..i], pages)
      {
        assert ops[..i + 1][..i] == ops[..i];
        match ops[i] {
          case Add(start, size, name) => AddCode(start, Entry(size, name, false));
          case Move(from, to) => var _ := MoveCode(from, to);
          case Delete(start) => var _ := DeleteCode(start);
          case Find(addr) => var _ := FindAddress(addr);
        }
      }
      assert ops[..|ops|] == ops;
    }
  }
}
