/**
 * IPv6 text: the grammar of section 2.2 of RFC 4291 and the parser inet_pton6
 * (deps/libuv/src/inet.c:225-309), which accepts exactly that grammar.
 */
module Inet6 {
  import opened InetText
  import opened Inet4
  import opened Sequences

  // ----- the grammar ------------------------------------------------------------------

  /** One to four hexadecimal digits. */
  predicate IsGroup(p: string) { 1 <= |p| <= 4 && AllHex(p) }

  predicate IsQuad(p: string) { Parse4(p).Some? }

  /** Groups; the last piece may be a dotted quad when quad says so. */
  predicate Pieces(f: seq<string>, quad: bool) {
    if f == [] then true
    else if |f| == 1 then IsGroup(f[0]) || (quad && IsQuad(f[0]))
    else IsGroup(f[0]) && Pieces(f[1..], quad)
  }

  /** The two bytes of a 16-bit word, high byte first. */
  function Word(w: nat): (b: seq<byte>)
    ensures |b| == 2
  { [w / 256 % 256, w % 256] }

  function PieceBytes(p: string): (b: seq<byte>)
    requires IsGroup(p) || IsQuad(p)
    ensures |b| == if IsGroup(p) then 2 else 4
  {
    if IsGroup(p) then Word(HexVal(p)) else Parse4(p).value
  }

  function Bytes(f: seq<string>, quad: bool): seq<byte>
    requires Pieces(f, quad)
  {
    if f == [] then [] else PieceBytes(f[0]) + Bytes(f[1..], quad)
  }

  function Zeros(n: nat): (z: seq<byte>)
    ensures |z| == n && forall i :: 0 <= i < n ==> z[i] == 0
  { seq(n, _ => 0) }

  /** An address as written: pieces, and where gap is set a "::" followed by more pieces. */
  datatype Addr = Addr(left: seq<string>, gap: bool, right: seq<string>)

  function Text(a: Addr): string {
    if a.gap then Join(a.left, ':') + "::" + Join(a.right, ':') else Join(a.left, ':')
  }

  /** Without a gap the pieces make 16 bytes; a gap stands for at least one zero group. */
  predicate Valid(a: Addr) {
    if a.gap then
      && Pieces(a.left, false) && Pieces(a.right, true)
      && |Bytes(a.left, false)| + |Bytes(a.right, true)| <= 14
    else
      a.right == [] && Pieces(a.left, true) && |Bytes(a.left, true)| == 16
  }

  function Value(a: Addr): (b: seq<byte>)
    requires Valid(a)
    ensures |b| == 16
  {
    if a.gap then
      var l, r := Bytes(a.left, false), Bytes(a.right, true);
      l + Zeros(16 - |l| - |r|) + r
    else Bytes(a.left, true)
  }

  // ----- the scanner ------------------------------------------------------------------

  /** From the end of the loop on: b is what tmp holds, colon where the "::" stood. */
  function Expand(b: seq<byte>, colon: Option<nat>): Option<seq<byte>>
    requires colon.Some? ==> colon.value <= |b|
  {
    match colon
    case None => if |b| == 16 then Some(b) else None
    case Some(k) => if |b| < 16 then Some(b[..k] + Zeros(16 - |b|) + b[k..]) else None
  }

  /** The pending group g, if any, is stored first. */
  function Close(b: seq<byte>, colon: Option<nat>, g: string): Option<seq<byte>>
    requires AllHex(g) && |b| <= 16 && (colon.Some? ==> colon.value <= |b|)
  {
    if g == [] then Expand(b, colon)
    else if |b| + 2 > 16 then None
    else Expand(b + Word(HexVal(g)), colon)
  }

  /** What the loop of inet_pton6 makes of the rest s; g holds the digits since curtok. */
  function Scan6(s: string, b: seq<byte>, colon: Option<nat>, g: string): Option<seq<byte>>
    requires AllHex(g) && |b| <= 16 && (colon.Some? ==> colon.value <= |b|)
  {
    if s == [] then Close(b, colon, g)
    else if HexDigit(s[0]).Some? then
      if |g| + 1 > 4 then None else Scan6(s[1..], b, colon, g + [s[0]])
    else if s[0] == ':' then
      if g == [] then
        if colon.Some? then None else Scan6(s[1..], b, Some(|b|), [])
      else if |s| == 1 then None
      else if |b| + 2 > 16 then None
      else Scan6(s[1..], b + Word(HexVal(g)), colon, [])
    else if s[0] == '.' && |b| + 4 <= 16 then
      match Parse4(g + s)
      case None => None
      case Some(q) => Close(b + q, colon, [])
    else None
  }

  function Parse6(s: string): Option<seq<byte>> {
    if s == [] || s[0] != ':' then Scan6(s, [], None, [])
    else if |s| == 1 || s[1] != ':' then None
    else Scan6(s[1..], [], None, [])
  }

  // ----- every text of the grammar is accepted with its value ---------------------------

  lemma {:induction false} ScanGroup(p: string, s: string, b: seq<byte>, colon: Option<nat>, g: string)
    requires |b| <= 16 && (colon.Some? ==> colon.value <= |b|)
    requires AllHex(g) && AllHex(p) && |g| + |p| <= 4
    ensures AllHex(g + p) && Scan6(p + s, b, colon, g) == Scan6(s, b, colon, g + p)
    decreases |p|
  {
    if p == [] {
      assert p + s == s && g + p == g;
    } else {
      assert (p + s)[0] == p[0] && (p + s)[1..] == p[1..] + s;
      assert g + p == g + [p[0]] + p[1..];
      ScanGroup(p[1..], s, b, colon, g + [p[0]]);
    }
  }

  /** A dotted quad starts with at most three digits and a dot. */
  lemma QuadStart(q: string) returns (p: string, rest: string)
    requires IsQuad(q)
    ensures q == p + ['.'] + rest && 1 <= |p| <= 3 && AllHex(p) && !AllHex(q)
  {
    var f := Split(q, '.');
    OctetLength(f[0]);
    p := f[0];
    SplitFirst(q, '.');
    rest := q[|p| + 1..];
    assert q == p + ['.'] + rest;
    assert q[|p|] == '.';
  }

  lemma {:induction false} SplitFirst(s: string, sep: char)
    ensures var f := Split(s, sep)[0];
      |f| <= |s| && f == s[..|f|] && (|Split(s, sep)| > 1 ==> |f| < |s| && s[|f|] == sep)
  {
    if s != [] && s[0] != sep { SplitFirst(s[1..], sep); }
  }

  /** The last piece, a group or a quad. */
  lemma {:induction false} ScanLast(p: string, b: seq<byte>, colon: Option<nat>)
    requires IsGroup(p) || IsQuad(p)
    requires |b| + |PieceBytes(p)| <= 16 && (colon.Some? ==> colon.value <= |b|)
    ensures Scan6(p, b, colon, []) == Expand(b + PieceBytes(p), colon)
  {
    if IsGroup(p) {
      ScanGroup(p, [], b, colon, []);
      assert p + [] == p && [] + p == p;
    } else {
      var h, rest := QuadStart(p);
      ScanGroup(h, ['.'] + rest, b, colon, []);
      assert h + (['.'] + rest) == p && [] + h == h;
    }
  }

  /** A piece with a colon and more text behind it. */
  lemma ScanPiece(p: string, s: string, b: seq<byte>, colon: Option<nat>)
    requires IsGroup(p) && |b| + 2 <= 16 && (colon.Some? ==> colon.value <= |b|)
    requires s != []
    ensures Scan6(p + [':'] + s, b, colon, []) == Scan6(s, b + PieceBytes(p), colon, [])
  {
    var t := [':'] + s;
    ScanGroup(p, t, b, colon, []);
    assert p + t == p + [':'] + s && [] + p == p;
    assert t[0] == ':' && t[1..] == s;
  }

  lemma JoinNonEmpty(f: seq<string>, quad: bool)
    requires Pieces(f, quad) && f != []
    ensures Join(f, ':') != []
  {
    if |f| == 1 && !IsGroup(f[0]) { var _, _ := QuadStart(f[0]); }
  }

  lemma {:induction false} ScanRight(f: seq<string>, b: seq<byte>, colon: Option<nat>)
    requires Pieces(f, true) && |b| + |Bytes(f, true)| <= 16
    requires colon.Some? ==> colon.value <= |b|
    ensures Scan6(Join(f, ':'), b, colon, []) == Expand(b + Bytes(f, true), colon)
    decreases |f|
  {
    if f == [] {
      assert b + [] == b;
    } else if |f| == 1 {
      ScanLast(f[0], b, colon);
      assert Bytes(f[1..], true) == [] && PieceBytes(f[0]) + [] == PieceBytes(f[0]);
    } else {
      JoinNonEmpty(f[1..], true);
      ScanPiece(f[0], Join(f[1..], ':'), b, colon);
      ScanRight(f[1..], b + PieceBytes(f[0]), colon);
      assert b + PieceBytes(f[0]) + Bytes(f[1..], true) == b + Bytes(f, true);
    }
  }

  /** The text of "left::right" once the colon before the gap has been read. */
  function Gapped(left: seq<string>, right: seq<string>): (s: string)
    ensures s != []
    ensures left != [] ==> s == Join(left, ':') + "::" + Join(right, ':')
  {
    if left == [] then [':'] + Join(right, ':')
    else
      var t := Gapped(left[1..], right);
      assert |left| == 1 ==> left[0] + [':'] + t == left[0] + "::" + Join(right, ':');
      assert |left| > 1 ==>
        left[0] + [':'] + t == left[0] + [':'] + Join(left[1..], ':') + "::" + Join(right, ':');
      left[0] + [':'] + t
  }

  lemma ScanGap(right: seq<string>, b: seq<byte>)
    requires Pieces(right, true) && |b| + |Bytes(right, true)| <= 14
    ensures Scan6(Gapped([], right), b, None, []) == Expand(b + Bytes(right, true), Some(|b|))
  {
    var s := Gapped([], right);
    assert s[0] == ':' && s[1..] == Join(right, ':');
    ScanRight(right, b, Some(|b|));
  }

  /** l and r are all the bytes stored before and after the gap. */
  lemma {:induction false} ScanLeft(left: seq<string>, right: seq<string>, b: seq<byte>, l: seq<byte>, r: seq<byte>)
    requires Pieces(left, false) && l == b + Bytes(left, false)
    requires Pieces(right, true) && r == Bytes(right, true) && |l| + |r| <= 14
    ensures Scan6(Gapped(left, right), b, None, []) == Expand(l + r, Some(|l|))
    decreases |left|
  {
    if left == [] {
      ScanGap(right, b);
      assert l == b;
    } else {
      var p := PieceBytes(left[0]);
      assert l == b + p + Bytes(left[1..], false);
      ScanPiece(left[0], Gapped(left[1..], right), b, None);
      ScanLeft(left[1..], right, b + p, l, r);
    }
  }

  lemma FirstIsNotColon(f: seq<string>, quad: bool)
    requires Pieces(f, quad) && f != []
    ensures Join(f, ':') != [] && Join(f, ':')[0] != ':'
  {
    if !IsGroup(f[0]) {
      var p, rest := QuadStart(f[0]);
      assert f[0][0] == p[0];
    }
    assert HexDigit(f[0][0]).Some?;
    assert Join(f, ':')[0] == f[0][0];
  }

  /** The text left to read of an address whose first pieces are gone. */
  function Rest(a: Addr): string {
    if a.gap then Gapped(a.left, a.right) else Join(a.left, ':')
  }

  /** Only an address that starts with its gap has one more colon in front. */
  lemma TextOfRest(a: Addr)
    requires a.gap && Pieces(a.left, false)
    ensures Rest(a) != []
    ensures a.left == [] ==> Rest(a)[0] == ':' && Text(a) == [':'] + Rest(a)
    ensures a.left != [] ==> Rest(a)[0] != ':' && Text(a) == Rest(a)
  {
    if a.left != [] {
      FirstIsNotColon(a.left, false);
      assert Rest(a)[0] == Join(a.left, ':')[0];
    } else {
      var r := Join(a.right, ':');
      assert Join(a.left, ':') + "::" + r == [':'] + ([':'] + r);
    }
  }

  lemma GappedAccepted(left: seq<string>, right: seq<string>, l: seq<byte>, r: seq<byte>)
    requires Pieces(left, false) && l == Bytes(left, false)
    requires Pieces(right, true) && r == Bytes(right, true) && |l| + |r| <= 14
    ensures Scan6(Gapped(left, right), [], None, []) == Some(l + Zeros(16 - |l| - |r|) + r)
  {
    assert [] + l == l;
    ScanLeft(left, right, [], l, r);
    assert (l + r)[..|l|] == l && (l + r)[|l|..] == r;
  }

  /** Completeness: a text of the grammar is accepted with the value the grammar gives it. */
  lemma GrammarAccepted(a: Addr)
    requires Valid(a)
    ensures Parse6(Text(a)) == Some(Value(a))
  {
    if !a.gap {
      FirstIsNotColon(a.left, true);
      ScanRight(a.left, [], None);
      assert [] + Bytes(a.left, true) == Bytes(a.left, true);
    } else {
      GappedAccepted(a.left, a.right, Bytes(a.left, false), Bytes(a.right, true));
      TextOfRest(a);
      assert a.left == [] ==> Text(a)[1..] == Gapped(a.left, a.right);
    }
  }

  // ----- every accepted text belongs to the grammar -------------------------------------

  lemma PiecesCons(p: string, f: seq<string>, quad: bool)
    requires IsGroup(p) && f != [] && Pieces(f, quad)
    ensures Pieces([p] + f, quad) && Bytes([p] + f, quad) == Word(HexVal(p)) + Bytes(f, quad)
    ensures Join([p] + f, ':') == p + [':'] + Join(f, ':')
  {
    assert ([p] + f)[1..] == f;
  }

  lemma PieceOne(p: string, quad: bool)
    requires IsGroup(p) || (quad && IsQuad(p))
    ensures Pieces([p], quad) && Bytes([p], quad) == PieceBytes(p)
  {
    assert [p][1..] == [] && PieceBytes(p) + [] == PieceBytes(p);
  }

  lemma QuadPiece(g: string, s: string)
    requires s != [] && s[0] == '.' && Parse4(g + s).Some?
    ensures Pieces([g + s], true) && Bytes([g + s], true) == Parse4(g + s).value
  {
    assert (g + s)[|g|] == '.';
    PieceOne(g + s, true);
  }

  /** A group and a colon read before the pieces f. */
  lemma GroupBefore(g: string, s: string, f: seq<string>, b: seq<byte>)
    requires IsGroup(g) && f != [] && Pieces(f, true)
    requires s != [] && s[0] == ':' && Join(f, ':') == s[1..]
    ensures Pieces([g] + f, true) && Join([g] + f, ':') == g + s
    ensures b + Word(HexVal(g)) + Bytes(f, true) == b + Bytes([g] + f, true)
  {
    PiecesCons(g, f, true);
    var w, r := Word(HexVal(g)), Bytes(f, true);
    assert b + w + r == b + (w + r);
    assert s == [':'] + s[1..];
    assert g + [':'] + s[1..] == g + ([':'] + s[1..]);
  }

  /** The rest of an accepting run that has passed a "::" reads pieces. */
  lemma {:induction false} RightOfRun(s: string, b: seq<byte>, k: nat, g: string) returns (f: seq<string>)
    requires AllHex(g) && |g| <= 4 && k <= |b| <= 16 && |b| % 2 == 0
    requires Scan6(s, b, Some(k), g).Some?
    ensures Pieces(f, true) && Join(f, ':') == g + s && (f == [] <==> g + s == [])
    ensures |b| + |Bytes(f, true)| <= 14
    ensures Scan6(s, b, Some(k), g) == Expand(b + Bytes(f, true), Some(k))
    decreases |s|
  {
    if s == [] {
      f := if g == [] then [] else [g];
      if g != [] { PieceOne(g, true); }
      assert b + [] == b && g + s == g;
    } else if HexDigit(s[0]).Some? {
      assert g + [s[0]] + s[1..] == g + s;
      f := RightOfRun(s[1..], b, k, g + [s[0]]);
    } else if s[0] == ':' {
      var rest := RightOfRun(s[1..], b + Word(HexVal(g)), k, []);
      f := [g] + rest;
      assert [] + s[1..] == s[1..];
      GroupBefore(g, s, rest, b);
    } else {
      f := [g + s];
      QuadPiece(g, s);
    }
  }

  /** What an address adds to the bytes b already stored. */
  ghost predicate Completes(a: Addr, b: seq<byte>, v: seq<byte>) {
    if a.gap then
      && Pieces(a.left, false) && Pieces(a.right, true)
      && var l, r := b + Bytes(a.left, false), Bytes(a.right, true);
      && |l| + |r| <= 14
      && v == l + Zeros(16 - |l| - |r|) + r
    else
      && a.right == [] && Pieces(a.left, true)
      && v == b + Bytes(a.left, true) && |v| == 16
  }

  /** The rest of an accepting run that has not passed a "::" reads the rest of an address. */
  lemma {:induction false} AddrOfRun(s: string, b: seq<byte>, g: string, v: seq<byte>) returns (a: Addr)
    requires AllHex(g) && |g| <= 4 && |b| <= 16 && |b| % 2 == 0
    requires Scan6(s, b, None, g) == Some(v)
    ensures Completes(a, b, v) && Rest(a) == g + s
    ensures g + s != [] ==> a.gap || a.left != []
    decreases |s|
  {
    if s == [] {
      a := Addr(if g == [] then [] else [g], false, []);
      if g != [] { PieceOne(g, true); }
      assert b + [] == b && g + s == g;
    } else if HexDigit(s[0]).Some? {
      assert g + [s[0]] + s[1..] == g + s;
      a := AddrOfRun(s[1..], b, g + [s[0]], v);
    } else if s[0] == ':' && g == [] {
      var right := RightOfRun(s[1..], b, |b|, []);
      a := Addr([], true, right);
      var r := Bytes(right, true);
      assert [] + s[1..] == s[1..] && [':'] + s[1..] == g + s;
      assert b + [] == b && (b + r)[..|b|] == b && (b + r)[|b|..] == r;
    } else if s[0] == ':' {
      a := AddrOfGroup(s, b, g, v);
    } else {
      a := Addr([g + s], false, []);
      QuadPiece(g, s);
    }
  }

  lemma GroupBeforeGap(g: string, s: string, a: Addr, b: seq<byte>, v: seq<byte>)
    requires IsGroup(g) && s != [] && s[0] == ':'
    requires a.gap && Completes(a, b + Word(HexVal(g)), v) && Rest(a) == s[1..]
    ensures var c := a.(left := [g] + a.left); Completes(c, b, v) && Rest(c) == g + s
  {
    var w, f := Word(HexVal(g)), [g] + a.left;
    assert f[1..] == a.left && Pieces(f, false) && Bytes(f, false) == w + Bytes(a.left, false);
    Assoc(b, w, Bytes(a.left, false));
    Assoc(g, [':'], s[1..]);
    assert s == [':'] + s[1..];
  }

  lemma AddrOfGroup(s: string, b: seq<byte>, g: string, v: seq<byte>) returns (a: Addr)
    requires AllHex(g) && 0 < |g| <= 4 && |b| <= 16 && |b| % 2 == 0
    requires s != [] && s[0] == ':' && Scan6(s, b, None, g) == Some(v)
    ensures Completes(a, b, v) && Rest(a) == g + s && a.left != []
    decreases |s|, 0
  {
    var rest := AddrOfRun(s[1..], b + Word(HexVal(g)), [], v);
    assert [] + s[1..] == s[1..];
    a := rest.(left := [g] + rest.left);
    if rest.gap {
      GroupBeforeGap(g, s, rest, b, v);
    } else {
      GroupBefore(g, s, rest.left, b);
    }
  }

  lemma CompletesAll(a: Addr, v: seq<byte>)
    requires Completes(a, [], v)
    ensures Valid(a) && Value(a) == v
  {
    if a.gap {
      assert [] + Bytes(a.left, false) == Bytes(a.left, false);
    } else {
      assert [] + Bytes(a.left, true) == Bytes(a.left, true);
    }
  }

  /** Soundness: an accepted text belongs to the grammar and gets the value the grammar gives it. */
  lemma AcceptedGrammar(s: string, v: seq<byte>) returns (a: Addr)
    requires Parse6(s) == Some(v)
    ensures Valid(a) && Text(a) == s && Value(a) == v
  {
    var skip := s != [] && s[0] == ':';
    var t := if skip then s[1..] else s;
    a := AddrOfRun(t, [], [], v);
    assert [] + t == t;
    CompletesAll(a, v);
    assert skip ==> s == [':'] + t && t[0] == ':';
    if a.gap { TextOfRest(a); } else { FirstIsNotColon(a.left, true); }
  }

  /** inet_pton6 accepts exactly the grammar, with exactly its values. */
  lemma ParseIsGrammar(s: string, v: seq<byte>)
    ensures Parse6(s) == Some(v) <==> exists a :: Valid(a) && Text(a) == s && Value(a) == v
  {
    if Parse6(s) == Some(v) { var a := AcceptedGrammar(s, v); }
    forall a | Valid(a) && Text(a) == s && Value(a) == v ensures Parse6(s) == Some(v) { GrammarAccepted(a); }
  }
}
