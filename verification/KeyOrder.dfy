/** Sequences of nodes in ascending order of their keys. */
module KeyOrder {
  import opened Links

  /** Strictly ascending keys. */
  ghost predicate Sorted(s: seq<Ptr>, key: Ptr -> int) {
    forall i, j :: 0 <= i < j < |s| ==> key(s[i]) < key(s[j])
  }

  ghost predicate AllBelow(s: seq<Ptr>, key: Ptr -> int, k: int) { forall i :: 0 <= i < |s| ==> key(s[i]) < k }
  ghost predicate AllAbove(s: seq<Ptr>, key: Ptr -> int, k: int) { forall i :: 0 <= i < |s| ==> k < key(s[i]) }

  lemma SortedParts(a: seq<Ptr>, n: Ptr, b: seq<Ptr>, key: Ptr -> int)
    requires Sorted(a + [n] + b, key)
    ensures Sorted(a, key) && Sorted(b, key) && AllBelow(a, key, key(n)) && AllAbove(b, key, key(n))
  {
    var s := a + [n] + b;
    assert s[|a|] == n;
    assert forall i :: 0 <= i < |a| ==> s[i] == a[i];
    assert forall i :: 0 <= i < |b| ==> b[i] == s[|a| + 1 + i];
  }

  lemma SortedSplit(a: seq<Ptr>, n: Ptr, b: seq<Ptr>, key: Ptr -> int)
    ensures Sorted(a + [n] + b, key) <==>
      Sorted(a, key) && Sorted(b, key) && AllBelow(a, key, key(n)) && AllAbove(b, key, key(n))
  {
    var s := a + [n] + b;
    assert forall i :: 0 <= i < |a| ==> s[i] == a[i];
    assert s[|a|] == n;
    assert forall i :: 0 <= i < |b| ==> s[|a| + 1 + i] == b[i];
    if Sorted(s, key) { SortedParts(a, n, b, key); }
    if Sorted(a, key) && Sorted(b, key) && AllBelow(a, key, key(n)) && AllAbove(b, key, key(n)) {
      forall i, j | 0 <= i < j < |s|
        ensures key(s[i]) < key(s[j])
      {
        if j > |a| { assert s[j] == b[j - |a| - 1]; }
        if i > |a| { assert s[i] == b[i - |a| - 1]; }
      }
    }
  }

  /** Ascending keys keep the nodes distinct. */
  lemma SortedDistinct(s: seq<Ptr>, key: Ptr -> int, i: nat, j: nat)
    requires Sorted(s, key) && i < |s| && j < |s| && s[i] == s[j]
    ensures i == j
  {
  }

  lemma SortedPrefix(a: seq<Ptr>, b: seq<Ptr>, key: Ptr -> int)
    requires Sorted(a + b, key)
    ensures Sorted(a, key)
  {
    forall i, j | 0 <= i < j < |a|
      ensures key(a[i]) < key(a[j])
    {
      assert a[i] == (a + b)[i] && a[j] == (a + b)[j];
    }
  }

  lemma AboveConcat(n: Ptr, a: seq<Ptr>, b: seq<Ptr>, key: Ptr -> int, k: int)
    requires k < key(n) && AllAbove(a + b, key, key(n))
    ensures AllAbove([n] + a + b, key, k)
  {
    assert forall i :: 1 <= i < |[n] + a + b| ==> ([n] + a + b)[i] == (a + b)[i - 1];
  }

  lemma SortedInsert(a: seq<Ptr>, n: Ptr, b: seq<Ptr>, key: Ptr -> int)
    requires Sorted(a + [] + b, key) && AllBelow(a, key, key(n)) && AllAbove(b, key, key(n))
    ensures Sorted(a + [n] + b, key)
  {
    var s := a + [] + b;
    forall i, j | 0 <= i < j < |a|
      ensures key(a[i]) < key(a[j])
    {
      assert a[i] == s[i] && a[j] == s[j];
    }
    forall i, j | 0 <= i < j < |b|
      ensures key(b[i]) < key(b[j])
    {
      assert b[i] == s[|a| + i] && b[j] == s[|a| + j];
    }
    SortedSplit(a, n, b, key);
  }

  /** s' is s with n put in somewhere. */
  ghost predicate Inserted(s: seq<Ptr>, n: Ptr, s': seq<Ptr>) {
    exists k :: 0 <= k <= |s| && s' == s[..k] + [n] + s[k..]
  }

  lemma InsertedBetween(a: seq<Ptr>, n: Ptr, b: seq<Ptr>)
    ensures Inserted(a + b, n, a + [n] + b)
  {
    var k := |a|;
    assert (a + b)[..k] == a && (a + b)[k..] == b;
  }

  /** Who belongs to an ascending sequence with n put in. */
  lemma InsertedMembers(s: seq<Ptr>, n: Ptr, s': seq<Ptr>, key: Ptr -> int)
    requires Inserted(s, n, s') && Sorted(s', key)
    ensures forall x :: x in s' <==> x in s || x == n
    ensures forall x :: x in s ==> key(x) != key(n)
  {
    var k :| 0 <= k <= |s| && s' == s[..k] + [n] + s[k..];
    assert s == s[..k] + s[k..];
    SortedParts(s[..k], n, s[k..], key);
    forall x | x in s ensures key(x) != key(n) {
      var i :| 0 <= i < |s| && s[i] == x;
      assert if i < k then s[i] == s[..k][i] else s[i] == s[k..][i - k];
    }
  }

  // ----- the set a tree stands for ------------------------------------------------------

  /** A call on a tree: add n unless its key is there, or remove the node with n's key. */
  datatype Op = Put(n: Ptr) | Take(n: Ptr)

  /** The nodes by their keys after the calls ops on an empty tree. */
  function Stored(ops: seq<Op>, key: Ptr -> int): map<int, Ptr> {
    if ops == [] then map[] else
      var m := Stored(ops[..|ops| - 1], key);
      match ops[|ops| - 1]
      case Put(n) => if key(n) in m then m else m[key(n) := n]
      case Take(n) => m - {key(n)}
  }

  ghost predicate Holds(s: seq<Ptr>, m: map<int, Ptr>, key: Ptr -> int) {
    forall n :: n in s <==> key(n) in m && m[key(n)] == n
  }

  lemma StoredKeys(ops: seq<Op>, key: Ptr -> int, k: int)
    requires k in Stored(ops, key)
    ensures key(Stored(ops, key)[k]) == k
    decreases |ops|
  {
    var m, op := Stored(ops[..|ops| - 1], key), ops[|ops| - 1];
    if k in m { StoredKeys(ops[..|ops| - 1], key, k); }
  }

  lemma HoldsPut(s: seq<Ptr>, n: Ptr, s': seq<Ptr>, m: map<int, Ptr>, key: Ptr -> int)
    requires Holds(s, m, key) && Inserted(s, n, s') && Sorted(s', key) && key(n) !in m
    ensures Holds(s', m[key(n) := n], key)
  {
    InsertedMembers(s, n, s', key);
  }

  lemma HoldsTake(s: seq<Ptr>, n: Ptr, s': seq<Ptr>, m: map<int, Ptr>, key: Ptr -> int)
    requires Holds(s', m, key) && Inserted(s, n, s') && Sorted(s', key)
    ensures Holds(s, m - {key(n)}, key)
  {
    InsertedMembers(s, n, s', key);
  }

  /** Whether the key of n is taken can be read off the nodes or off the map. */
  lemma HoldsKey(s: seq<Ptr>, ops: seq<Op>, key: Ptr -> int, n: Ptr)
    requires Holds(s, Stored(ops, key), key)
    ensures key(n) in Stored(ops, key) <==> exists x :: x in s && key(x) == key(n)
  {
    if key(n) in Stored(ops, key) {
      StoredKeys(ops, key, key(n));
      assert Stored(ops, key)[key(n)] in s;
    }
  }

  lemma FirstAbove(a: seq<Ptr>, b: seq<Ptr>, key: Ptr -> int, k: int)
    requires Sorted(a + [] + b, key) && AllBelow(a, key, k) && AllAbove(b, key, k)
    ensures forall n :: n in a + [] + b && key(n) >= k ==> b != [] && key(n) >= key(b[0])
  {
    var s := a + [] + b;
    assert forall i :: 0 <= i < |a| ==> s[i] == a[i];
    assert b != [] ==> b[0] == s[|a|];
    forall n | n in s && key(n) >= k
      ensures b != [] && key(n) >= key(b[0])
    {
      var i :| 0 <= i < |s| && s[i] == n;
    }
  }

  lemma SortedDrop(a: seq<Ptr>, n: Ptr, b: seq<Ptr>, key: Ptr -> int)
    requires Sorted(a + [n] + b, key)
    ensures Sorted(a + b, key)
  {
    forall i, j | 0 <= i < j < |a + b|
      ensures key((a + b)[i]) < key((a + b)[j])
    {
      assert (a + [n] + b)[if i < |a| then i else i + 1] == (a + b)[i];
      assert (a + [n] + b)[if j < |a| then j else j + 1] == (a + b)[j];
    }
  }

  /** And the keys. */
  lemma SortedKeys(s: seq<Ptr>, key: Ptr -> int, i: nat, j: nat)
    requires Sorted(s, key) && i < |s| && j < |s| && key(s[i]) == key(s[j])
    ensures i == j
  {
  }

  /** A new node just below n, and just above n. */
  lemma PutBelow(l: seq<Ptr>, n: Ptr, r: seq<Ptr>, e: Ptr, key: Ptr -> int)
    requires Sorted(l + [n] + r, key) && AllBelow(l, key, key(e)) && key(e) < key(n)
    ensures Sorted(l + [e] + ([n] + r), key)
  {
    SortedSplit(l, n, r, key);
    SortedSplit([], n, r, key);
    assert [] + [n] + r == [n] + r;
    SortedSplit(l, e, [n] + r, key);
  }

  lemma PutAbove(l: seq<Ptr>, n: Ptr, r: seq<Ptr>, e: Ptr, key: Ptr -> int)
    requires Sorted(l + [n] + r, key) && AllAbove(r, key, key(e)) && key(e) > key(n)
    ensures Sorted(l + [n] + [e] + r, key)
  {
    SortedSplit(l, n, r, key);
    SortedSplit(l, n, [], key);
    assert l + [n] + [] == l + [n];
    SortedSplit(l + [n], e, r, key);
  }

  /** Element i of s, or NULL beyond either end. */
  function Nth(s: seq<Ptr>, i: int): Ptr { if 0 <= i < |s| then s[i] else NULL }

  /** A key below all, and one above all. */
  lemma {:induction false} Bounds(s: seq<Ptr>, key: Ptr -> int) returns (lo: int, hi: int)
    ensures AllAbove(s, key, lo) && AllBelow(s, key, hi)
  {
    if s == [] {
      lo, hi := 0, 0;
    } else {
      lo, hi := Bounds(s[1..], key);
      var k := key(s[0]);
      lo, hi := if lo < k then lo else k - 1, if hi > k then hi else k + 1;
      assert forall i :: 1 <= i < |s| ==> s[i] == s[1..][i - 1];
    }
  }
}
