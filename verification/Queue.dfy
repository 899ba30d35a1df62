/** The intrusive circular queue of deps/libuv/src/queue.h, as sequences of nodes. */
module Queue {
  import opened Sequences

  /** A QUEUE: the two pointers embedded in a handle or standing alone as a header. */
  class Node {
    var next: Node?
    var prev: Node?
    /** UV__HANDLE_INTERNAL of the handle the node is embedded in */
    const internal: bool

    constructor (internal: bool)
      ensures this.internal == internal
    {
      this.internal := internal;
      next, prev := null, null;
    }
  }

  /** The header h and the nodes s, in this order, make a circle in both directions. */
  ghost predicate Ring(h: Node, s: seq<Node>)
    reads h, s
  {
    && h !in s && NoDup(s)
    && h.next == (if s == [] then h else s[0])
    && h.prev == (if s == [] then h else s[|s| - 1])
    && (forall i {:trigger s[i].next} :: 0 <= i < |s| ==> s[i].next == (if i == |s| - 1 then h else s[i + 1]))
    && (forall i {:trigger s[i].prev} :: 0 <= i < |s| ==> s[i].prev == (if i == 0 then h else s[i - 1]))
  }

  /** Two queues without a common node. */
  ghost predicate Apart(h: Node, s: seq<Node>, n: Node, t: seq<Node>) {
    h != n && h !in t && n !in s && forall x :: x in s ==> x !in t
  }

  lemma {:induction false} RingAgrees(h: Node, s: seq<Node>, t: seq<Node>, k: nat)
    requires Ring(h, s) && Ring(h, t) && k < |s|
    ensures k < |t| && s[k] == t[k]
  {
    assert s[k] != h;
    if k > 0 {
      RingAgrees(h, s, t, k - 1);
      assert s[k - 1].next == s[k];
    }
  }

  /** A ring determines its sequence. */
  lemma RingUnique(h: Node, s: seq<Node>, t: seq<Node>)
    requires Ring(h, s) && Ring(h, t)
    ensures s == t
  {
    forall k | 0 <= k < |s| ensures k < |t| && s[k] == t[k] { RingAgrees(h, s, t, k); }
    if |s| < |t| { RingAgrees(h, t, s, |s|); }
  }

  method Init(q: Node)
    modifies q
    ensures Ring(q, [])
  {
    q.next := q;
    q.prev := q;
  }

  predicate Empty(h: Node)
    reads h
  { h == h.next }

  function Head(h: Node): Node?
    reads h
  { h.next }

  lemma EmptyAndHead(h: Node, s: seq<Node>)
    requires Ring(h, s)
    ensures Empty(h) <==> s == []
    ensures s != [] ==> Head(h) == s[0]
  {
    if s != [] { assert s[0] in s; }
  }

  method InsertHead(h: Node, q: Node, ghost s: seq<Node>)
    requires Ring(h, s) && q != h && q !in s
    modifies h, q, h.next
    ensures Ring(h, [q] + s)
  {
    q.next := h.next;
    q.prev := h;
    q.next.prev := q;
    h.next := q;
  }

  method InsertTail(h: Node, q: Node, ghost s: seq<Node>)
    requires Ring(h, s) && q != h && q !in s
    modifies h, q, h.prev
    ensures Ring(h, s + [q])
  {
    q.next := h;
    q.prev := h.prev;
    q.prev.next := q;
    h.prev := q;
  }

  /** q is unlinked from whatever queue it is in; its own links stay. */
  method Remove(q: Node, ghost h: Node, ghost s: seq<Node>, ghost k: nat)
    requires Ring(h, s) && k < |s| && s[k] == q
    modifies q.prev, q.next
    ensures Ring(h, s[..k] + s[k + 1..])
  {
    q.prev.next := q.next;
    q.next.prev := q.prev;
    assert SkipLinks(h, s, k);
    SkipRing(h, s, k);
  }

  ghost predicate SkipLinks(h: Node, s: seq<Node>, k: nat)
    requires k < |s|
    reads h, s
  {
    && h.next == (if |s| == 1 then h else if k == 0 then s[1] else s[0])
    && h.prev == (if |s| == 1 then h else if k == |s| - 1 then s[k - 1] else s[|s| - 1])
    && (forall i {:trigger s[i].next} :: 0 <= i < |s| && i != k ==>
         s[i].next == (if i == |s| - 1 || (i == k - 1 && k == |s| - 1) then h
                       else if i == k - 1 then s[k + 1] else s[i + 1]))
    && (forall i {:trigger s[i].prev} :: 0 <= i < |s| && i != k ==>
         s[i].prev == (if i == 0 || (i == 1 && k == 0) then h
                       else if i == k + 1 then s[k - 1] else s[i - 1]))
  }

  lemma SkipRing(h: Node, s: seq<Node>, k: nat)
    requires h !in s && NoDup(s) && k < |s| && SkipLinks(h, s, k)
    ensures Ring(h, s[..k] + s[k + 1..])
  {
    var t := s[..k] + s[k + 1..];
    assert forall i :: 0 <= i < |t| ==> t[i] == s[if i < k then i else i + 1];
    forall i, j | 0 <= i < j < |t| ensures t[i] != t[j] {
      assert s[if i < k then i else i + 1] != s[if j < k then j else j + 1];
    }
    forall i | 0 <= i < |t|
      ensures t[i].next == (if i == |t| - 1 then h else t[i + 1])
      ensures t[i].prev == (if i == 0 then h else t[i - 1])
    {
    }
  }

  /** The nodes of n, which is no longer a queue afterwards, go behind those of h. */
  method Add(h: Node, n: Node, ghost s: seq<Node>, ghost t: seq<Node>)
    requires Ring(h, s) && Ring(n, t) && Apart(h, s, n, t)
    modifies h, n, h.prev, n.next, n.prev
    ensures Ring(h, s + t)
  {
    h.prev.next := n.next;
    n.next.prev := h.prev;
    h.prev := n.prev;
    h.prev.next := h;
    forall i, j | 0 <= i < |s| && 0 <= j < |t| ensures s[i] != t[j] { assert s[i] in s && t[j] in t; }
    assert forall i :: 0 <= i < |s| ==> s[i] != h && s[i] != n;
    assert forall i :: 0 <= i < |t| ==> t[i] != h && t[i] != n;
    assert JoinLinks(h, s, t);
    JoinRing(h, s, t);
  }

  ghost predicate JoinLinks(h: Node, s: seq<Node>, t: seq<Node>)
    reads h, s, t
  {
    && h.next == (if s != [] then s[0] else if t != [] then t[0] else h)
    && h.prev == (if t != [] then t[|t| - 1] else if s != [] then s[|s| - 1] else h)
    && (forall i {:trigger s[i].next} :: 0 <= i < |s| ==>
         s[i].next == (if i < |s| - 1 then s[i + 1] else if t == [] then h else t[0]))
    && (forall i {:trigger s[i].prev} :: 0 <= i < |s| ==> s[i].prev == (if i == 0 then h else s[i - 1]))
    && (forall i {:trigger t[i].next} :: 0 <= i < |t| ==> t[i].next == (if i < |t| - 1 then t[i + 1] else h))
    && (forall i {:trigger t[i].prev} :: 0 <= i < |t| ==>
         t[i].prev == (if i > 0 then t[i - 1] else if s == [] then h else s[|s| - 1]))
  }

  lemma JoinRing(h: Node, s: seq<Node>, t: seq<Node>)
    requires h !in s && h !in t && NoDup(s) && NoDup(t) && forall x :: x in s ==> x !in t
    requires JoinLinks(h, s, t)
    ensures Ring(h, s + t)
  {
    var r := s + t;
    forall i, j | 0 <= i < j < |r| ensures r[i] != r[j] {
      if i < |s| <= j { assert s[i] in s && t[j - |s|] in t; }
    }
    forall i | 0 <= i < |r|
      ensures r[i].next == (if i == |r| - 1 then h else r[i + 1])
      ensures r[i].prev == (if i == 0 then h else r[i - 1])
    {
      if i < |s| {
        assert r[i] == s[i];
      } else {
        assert r[i] == t[i - |s|];
      }
    }
  }

  /** The nodes from q on move to the header n, which need not be initialised. */
  method Split(h: Node, q: Node, n: Node, ghost s: seq<Node>, ghost k: nat)
    requires Ring(h, s) && k < |s| && s[k] == q
    requires n != h && n !in s
    modifies h, n, q, h.prev, q.prev
    ensures Ring(h, s[..k]) && Ring(n, s[k..])
  {
    n.prev := h.prev;
    n.prev.next := n;
    n.next := q;
    h.prev := q.prev;
    h.prev.next := h;
    q.prev := n;
    assert forall i {:trigger s[i].next} :: 0 <= i < |s| ==>
      s[i].next == (if i == |s| - 1 then n else if i == k - 1 then h else s[i + 1]);
    assert forall i {:trigger s[i].prev} :: 0 <= i < |s| ==>
      s[i].prev == (if i == k then n else if i == 0 then h else s[i - 1]);
    assert forall i :: 0 <= i < |s| - k ==> s[k..][i] == s[i + k];
  }

  /** All nodes move to the header n. */
  method Move(h: Node, n: Node, ghost s: seq<Node>)
    requires Ring(h, s) && n != h && n !in s
    modifies h, n, h.next, h.prev
    ensures Ring(h, []) && Ring(n, s)
  {
    EmptyAndHead(h, s);
    if Empty(h) {
      Init(n);
    } else {
      var q := Head(h);
      Split(h, q, n, s, 0);
      assert s[..0] == [] && s[0..] == s;
    }
  }

  /** QUEUE_FOREACH with a body that leaves the queue alone. */
  method ForEach(h: Node, ghost s: seq<Node>) returns (visited: seq<Node>)
    requires Ring(h, s)
    ensures visited == s
  {
    visited := [];
    var q := h.next;
    while q != h
      invariant |visited| <= |s| && visited == s[..|visited|]
      invariant q == if |visited| == |s| then h else s[|visited|]
      decreases |s| - |visited|
    {
      visited := visited + [q];
      q := q.next;
    }
  }
}
