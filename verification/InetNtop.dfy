/**
 * Address to text: inet_ntop6 and uv_inet_ntop (deps/libuv/src/inet.c:40-154), which write
 * the form of sections 4 and 5 of RFC 5952, and the round trip through inet_pton6.
 */
module InetNtop {
  import opened InetText
  import opened Inet4
  import opened Inet6

  // ----- words and zero runs ------------------------------------------------------------

  type word = w: int | 0 <= w < 65536

  /** The eight 16-bit words of an address. */
  function Words(b: seq<byte>): (w: seq<word>)
    requires |b| == 16
    ensures |w| == 8
  { seq(8, i requires 0 <= i < 8 => (b[2 * i] as int) * 256 + (b[2 * i + 1] as int)) }

  /** len words from base on are zero. */
  predicate ZeroRun(w: seq<word>, base: nat, len: nat) {
    base + len <= |w| && forall i :: base <= i < base + len ==> w[i] == 0
  }

  /** base and len are the leftmost of the longest zero runs of two words or more; -1 for none. */
  ghost predicate Longest(w: seq<word>, base: int, len: nat) {
    if base < 0 then
      base == -1 && forall s: nat, n: nat :: ZeroRun(w, s, n) ==> n < 2
    else
      && len >= 2 && ZeroRun(w, base, len)
      && forall s: nat, n: nat :: ZeroRun(w, s, n) ==> n <= len && (n == len ==> base <= s)
  }

  /** What the search knows before word i: the best run that ended, and the run that has not. */
  ghost predicate Searched(w: seq<word>, i: nat, best: int, bestLen: nat, cur: int, curLen: nat) {
    && i <= |w| && -1 <= best && -1 <= cur
    && (if cur == -1 then i == 0 || w[i - 1] != 0
        else cur + curLen == i && curLen >= 1 && ZeroRun(w, cur, curLen) && (cur == 0 || w[cur - 1] != 0))
    && var end := if cur == -1 then i else cur;
      if best == -1 then
        forall s: nat, n: nat :: ZeroRun(w, s, n) && s + n <= end ==> n == 0
      else
        && bestLen >= 1 && ZeroRun(w, best, bestLen) && best + bestLen <= end
        && forall s: nat, n: nat :: ZeroRun(w, s, n) && s + n <= end ==> n <= bestLen && (n == bestLen ==> best <= s)
  }

  /** A run that reaches past the start of the pending one lies inside it. */
  lemma PendingRun(w: seq<word>, cur: nat, curLen: nat, s: nat, n: nat)
    requires ZeroRun(w, cur, curLen) && (cur == 0 || w[cur - 1] != 0)
    requires ZeroRun(w, s, n) && cur < s + n <= cur + curLen && n > 0
    ensures cur <= s
  {
    if cur > 0 {
      var before := w[cur - 1];
      assert s <= cur - 1 < s + n ==> before == 0;
    }
  }

  /** The pending run ends at i and competes with the best. */
  lemma RunEnds(w: seq<word>, i: nat, best: int, bestLen: nat, cur: int, curLen: nat)
    requires Searched(w, i, best, bestLen, cur, curLen) && cur != -1
    ensures var better := best == -1 || curLen > bestLen;
      var b, l := if better then cur else best, if better then curLen else bestLen;
      && b >= 0 && l >= 1 && ZeroRun(w, b, l) && b + l <= i
      && forall s: nat, n: nat :: ZeroRun(w, s, n) && s + n <= i ==> n <= l && (n == l ==> b <= s)
  {
    forall s: nat, n: nat | ZeroRun(w, s, n) && s + n <= i && n > 0 && s + n > cur ensures cur <= s && n <= curLen {
      PendingRun(w, cur, curLen, s, n);
    }
  }

  /** The search for the run to shorten. */
  method BestRun(words: array<word>) returns (base: int, len: nat)
    requires words.Length == 8
    ensures Longest(words[..], base, len)
  {
    base, len := -1, 0;
    var curBase: int, curLen: nat := -1, 0;
    ghost var w := words[..];
    for i := 0 to 8
      invariant Searched(w, i, base, len, curBase, curLen)
    {
      if words[i] == 0 {
        if curBase == -1 {
          curBase, curLen := i, 1;
        } else {
          curLen := curLen + 1;
        }
      } else {
        NoRunThrough(w, i);
        if curBase != -1 {
          RunEnds(w, i, base, len, curBase, curLen);
          if base == -1 || curLen > len { base, len := curBase, curLen; }
          curBase := -1;
        }
      }
    }
    if curBase != -1 {
      RunEnds(w, 8, base, len, curBase, curLen);
      if base == -1 || curLen > len { base, len := curBase, curLen; }
    }
    if base != -1 && len < 2 { base := -1; }
  }

  lemma NoRunThrough(w: seq<word>, i: nat)
    requires i < |w| && w[i] != 0
    ensures forall s: nat, n: nat :: ZeroRun(w, s, n) && n > 0 && s + n <= i + 1 ==> s + n <= i
  {
    var x := w[i];
    forall s: nat, n: nat | ZeroRun(w, s, n) && n > 0 && s + n <= i + 1 ensures s + n <= i {
      assert s <= i < s + n ==> x == 0;
    }
  }

  /** There is only one such run. */
  lemma LongestUnique(w: seq<word>, base1: int, len1: nat, base2: int, len2: nat)
    requires Longest(w, base1, len1) && Longest(w, base2, len2)
    ensures base1 == base2 && (base1 >= 0 ==> len1 == len2)
  {
  }

  // ----- the canonical text ---------------------------------------------------------------

  function Hexes(w: seq<word>): (f: seq<string>)
    ensures |f| == |w|
  {
    if w == [] then [] else [Hex(w[0])] + Hexes(w[1..])
  }

  /** IPv4-compatible and IPv4-mapped addresses. */
  predicate Embeds(w: seq<word>, base: int, len: nat)
    requires |w| == 8
  { base == 0 && (len == 6 || (len == 5 && w[5] == 0xffff)) }

  /** The address b written with the zero run at base shortened. */
  function Shortened(b: seq<byte>, base: int, len: nat): Addr
    requires |b| == 16 && -1 <= base && (base >= 0 ==> base + len <= 8)
  {
    var w := Words(b);
    if base < 0 then Addr(Hexes(w), false, [])
    else if Embeds(w, base, len) then Addr([], true, Hexes(w[len..6]) + [Text4(b[12..])])
    else Addr(Hexes(w[..base]), true, Hexes(w[base + len..]))
  }

  /** t is the text for b: section 4.2 of RFC 5952, with section 5 for embedded IPv4 addresses. */
  ghost predicate Canonical(b: seq<byte>, t: string)
    requires |b| == 16
  {
    exists base, len :: Longest(Words(b), base, len) && t == Text(Shortened(b, base, len))
  }

  lemma CanonicalUnique(b: seq<byte>, t: string, u: string)
    requires |b| == 16 && Canonical(b, t) && Canonical(b, u)
    ensures t == u
  {
    var base1, len1 :| Longest(Words(b), base1, len1) && t == Text(Shortened(b, base1, len1));
    var base2, len2 :| Longest(Words(b), base2, len2) && u == Text(Shortened(b, base2, len2));
    LongestUnique(Words(b), base1, len1, base2, len2);
  }

  // ----- the round trip ---------------------------------------------------------------

  /** The bytes of words. */
  function Flat(w: seq<word>): (b: seq<byte>)
    ensures |b| == 2 * |w|
  {
    if w == [] then [] else Word(w[0]) + Flat(w[1..])
  }

  lemma {:induction false} FlatAt(w: seq<word>, i: nat)
    requires i < |w|
    ensures Flat(w)[2 * i] == w[i] / 256 && Flat(w)[2 * i + 1] == w[i] % 256
    decreases |w|
  {
    if i > 0 {
      FlatAt(w[1..], i - 1);
      assert Flat(w)[2 * i] == Flat(w[1..])[2 * (i - 1)];
      assert Flat(w)[2 * i + 1] == Flat(w[1..])[2 * (i - 1) + 1];
    }
  }

  lemma TwoBytes(high: byte, low: byte)
    ensures var w := (high as int) * 256 + low; w / 256 == high && w % 256 == low
  {
  }

  lemma FlatWords(b: seq<byte>)
    requires |b| == 16
    ensures Flat(Words(b)) == b
  {
    var w := Words(b);
    forall i | 0 <= i < 8 ensures Flat(w)[2 * i] == b[2 * i] && Flat(w)[2 * i + 1] == b[2 * i + 1] {
      FlatAt(w, i);
      TwoBytes(b[2 * i], b[2 * i + 1]);
    }
    forall k | 0 <= k < 16 ensures Flat(w)[k] == b[k] {
      var i := k / 2;
      assert k == 2 * i || k == 2 * i + 1;
    }
  }

  lemma {:induction false} FlatConcat(u: seq<word>, v: seq<word>)
    ensures Flat(u + v) == Flat(u) + Flat(v)
    decreases |u|
  {
    if u == [] {
      assert u + v == v;
    } else {
      assert (u + v)[0] == u[0] && (u + v)[1..] == u[1..] + v;
      FlatConcat(u[1..], v);
    }
  }

  lemma {:induction false} FlatZeros(w: seq<word>)
    requires forall i :: 0 <= i < |w| ==> w[i] == 0
    ensures Flat(w) == Zeros(2 * |w|)
    decreases |w|
  {
    if w != [] { FlatZeros(w[1..]); }
  }

  lemma HexWord(w: word)
    ensures IsGroup(Hex(w)) && HexVal(Hex(w)) == w && PieceBytes(Hex(w)) == Word(w)
  {
    HexHexVal(w);
    assert Pow16(4) == 16 * Pow16(3) == 65536 by {
      assert Pow16(1) == 16 && Pow16(2) == 16 * Pow16(1) && Pow16(3) == 16 * Pow16(2);
    }
    HexLength(w, 4, 65536);
  }

  lemma {:induction false} HexesPieces(w: seq<word>, quad: bool)
    ensures Pieces(Hexes(w), quad) && Bytes(Hexes(w), quad) == Flat(w)
    decreases |w|
  {
    if w != [] {
      HexWord(w[0]);
      HexesPieces(w[1..], quad);
      var f := Hexes(w);
      assert f[0] == Hex(w[0]) && f[1..] == Hexes(w[1..]);
    }
  }

  lemma QuadOnly(q: seq<byte>)
    requires |q| == 4
    ensures var f := [Text4(q)]; Pieces(f, true) && Bytes(f, true) == q
  {
    var t := Text4(q);
    RoundTrip4(q);
    PieceOne(t, true);
    if IsGroup(t) { var _, _ := QuadStart(t); }
  }

  /** Groups with the quad for the last four bytes behind them. */
  lemma {:induction false} HexesQuad(w: seq<word>, q: seq<byte>)
    requires |q| == 4
    ensures var f := Hexes(w) + [Text4(q)]; Pieces(f, true) && Bytes(f, true) == Flat(w) + q
    decreases |w|
  {
    var t := Text4(q);
    var f := Hexes(w) + [t];
    if w == [] {
      QuadOnly(q);
      assert f == [t] && [] + q == q;
    } else {
      var g := Hexes(w[1..]) + [t];
      HexWord(w[0]);
      HexesQuad(w[1..], q);
      assert f == [Hex(w[0])] + g;
      PiecesCons(Hex(w[0]), g, true);
      assert Word(w[0]) + (Flat(w[1..]) + q) == Word(w[0]) + Flat(w[1..]) + q;
    }
  }

  lemma FlatThree(l: seq<word>, z: seq<word>, r: seq<word>)
    ensures Flat(l + (z + r)) == Flat(l) + Flat(z) + Flat(r)
  {
    FlatConcat(l, z + r);
    FlatConcat(z, r);
    assert Flat(l) + (Flat(z) + Flat(r)) == Flat(l) + Flat(z) + Flat(r);
  }

  /** The bytes around a zero run. */
  lemma RunSplit(b: seq<byte>, base: nat, len: nat)
    requires |b| == 16 && ZeroRun(Words(b), base, len)
    ensures b == Flat(Words(b)[..base]) + Zeros(2 * len) + Flat(Words(b)[base + len..])
  {
    var w := Words(b);
    var z := w[base..base + len];
    assert w == w[..base] + (z + w[base + len..]);
    FlatWords(b);
    FlatThree(w[..base], z, w[base + len..]);
    FlatZeros(z);
  }

  lemma EmbeddedTail(b: seq<byte>, len: nat)
    requires |b| == 16 && len <= 6
    ensures Flat(Words(b)[len..6]) + b[12..] == Flat(Words(b)[len..])
  {
    var w := Words(b);
    FlatWords(b);
    assert w == w[..6] + w[6..] && w[len..] == w[len..6] + w[6..];
    FlatConcat(w[..6], w[6..]);
    FlatConcat(w[len..6], w[6..]);
    assert Flat(w[6..]) == b[12..];
  }

  lemma EmbeddedValue(b: seq<byte>, len: nat)
    requires |b| == 16 && 1 <= len && ZeroRun(Words(b), 0, len) && Embeds(Words(b), 0, len)
    ensures Valid(Shortened(b, 0, len)) && Value(Shortened(b, 0, len)) == b
  {
    var w := Words(b);
    var r := Flat(w[len..]);
    RunSplit(b, 0, len);
    assert w[..0] == [] && b == Zeros(2 * len) + r by { assert [] + Zeros(2 * len) == Zeros(2 * len); }
    HexesQuad(w[len..6], b[12..]);
    EmbeddedTail(b, len);
    var a := Shortened(b, 0, len);
    assert a.left == [] && Bytes(a.left, false) == [] && Bytes(a.right, true) == r;
    assert Value(a) == [] + Zeros(2 * len) + r;
  }

  lemma PlainValue(b: seq<byte>, base: nat, len: nat)
    requires |b| == 16 && 1 <= len && ZeroRun(Words(b), base, len) && !Embeds(Words(b), base, len)
    ensures Valid(Shortened(b, base, len)) && Value(Shortened(b, base, len)) == b
  {
    var w := Words(b);
    RunSplit(b, base, len);
    HexesPieces(w[..base], false);
    HexesPieces(w[base + len..], true);
  }

  /** However a zero run is shortened, the text denotes the address. */
  lemma ShortenedValue(b: seq<byte>, base: int, len: nat)
    requires |b| == 16 && -1 <= base && (base >= 0 ==> len >= 1 && ZeroRun(Words(b), base, len))
    ensures Valid(Shortened(b, base, len)) && Value(Shortened(b, base, len)) == b
  {
    if base < 0 {
      HexesPieces(Words(b), true);
      FlatWords(b);
    } else if Embeds(Words(b), base, len) {
      EmbeddedValue(b, len);
    } else {
      PlainValue(b, base, len);
    }
  }

  /** The main round trip: parsing the canonical text gives back the address. */
  lemma RoundTrip6(b: seq<byte>, t: string)
    requires |b| == 16 && Canonical(b, t)
    ensures Parse6(t) == Some(b)
  {
    var base, len :| Longest(Words(b), base, len) && t == Text(Shortened(b, base, len));
    ShortenedValue(b, base, len);
    GrammarAccepted(Shortened(b, base, len));
  }

  // ----- inet_ntop6 ---------------------------------------------------------------------

  /** The text written before word i, up to but without the colon in front of it. */
  function Partial(w: seq<word>, base: int, len: nat, i: nat): string
    requires |w| == 8 && i <= 8 && -1 <= base && (base >= 0 ==> base + len <= 8)
  {
    if base < 0 || i <= base then Join(Hexes(w[..i]), ':')
    else if i <= base + len then Join(Hexes(w[..base]), ':') + ":"
    else Join(Hexes(w[..base]), ':') + "::" + Join(Hexes(w[base + len..i]), ':')
  }

  lemma {:induction false} HexesSnoc(w: seq<word>, x: word)
    ensures Hexes(w + [x]) == Hexes(w) + [Hex(x)]
    decreases |w|
  {
    if w == [] {
      assert w + [x] == [x] && [x][1..] == [];
    } else {
      assert (w + [x])[0] == w[0] && (w + [x])[1..] == w[1..] + [x];
      HexesSnoc(w[1..], x);
    }
  }

  /** One more group behind those of w[from..i]. */
  lemma JoinMore(w: seq<word>, from: nat, i: nat)
    requires from <= i < |w|
    ensures Join(Hexes(w[from..i + 1]), ':') ==
      (if from < i then Join(Hexes(w[from..i]), ':') + ":" else "") + Hex(w[i])
  {
    var u := w[from..i];
    assert w[from..i + 1] == u + [w[i]];
    HexesSnoc(u, w[i]);
    if from < i {
      JoinSnoc(Hexes(u), Hex(w[i]), ':');
    } else {
      assert [] + [Hex(w[i])] == [Hex(w[i])];
    }
  }

  lemma PartialBefore(w: seq<word>, base: int, len: nat, i: nat)
    requires |w| == 8 && i < 8 && -1 <= base && (base >= 0 ==> i < base && base + len <= 8)
    ensures Partial(w, base, len, i + 1) == Partial(w, base, len, i) + (if i != 0 then ":" else "") + Hex(w[i])
  {
    JoinMore(w, 0, i);
    assert w[0..i] == w[..i] && w[0..i + 1] == w[..i + 1];
  }

  lemma PartialAfter(w: seq<word>, base: nat, len: nat, i: nat)
    requires |w| == 8 && len >= 1 && base + len <= i < 8
    ensures Partial(w, base, len, i + 1) == Partial(w, base, len, i) + ":" + Hex(w[i])
  {
    var left, x := Join(Hexes(w[..base]), ':'), Hex(w[i]);
    JoinMore(w, base + len, i);
    if i == base + len {
      assert left + "::" + ("" + x) == left + ":" + ":" + x;
    } else {
      var r := Join(Hexes(w[base + len..i]), ':');
      assert left + "::" + (r + ":" + x) == left + "::" + r + ":" + x;
    }
  }

  /** What one round of the loop adds outside the embedded case. */
  lemma PartialStep(w: seq<word>, base: int, len: nat, i: nat)
    requires |w| == 8 && i < 8 && -1 <= base && (base >= 0 ==> len >= 1 && base + len <= 8)
    ensures base >= 0 && base <= i < base + len ==>
      Partial(w, base, len, i + 1) == Partial(w, base, len, i) + (if i == base then ":" else "")
    ensures !(base >= 0 && base <= i < base + len) ==>
      Partial(w, base, len, i + 1) == Partial(w, base, len, i) + (if i != 0 then ":" else "") + Hex(w[i])
  {
    if base < 0 || i < base {
      PartialBefore(w, base, len, i);
    } else if i >= base + len {
      PartialAfter(w, base, len, i);
    }
  }

  lemma PartialEnd(b: seq<byte>, base: int, len: nat)
    requires |b| == 16 && -1 <= base && (base >= 0 ==> len >= 1 && base + len <= 8)
    requires base < 0 || !Embeds(Words(b), base, len)
    ensures Text(Shortened(b, base, len)) ==
      Partial(Words(b), base, len, 8) + (if base != -1 && base + len == 8 then ":" else "")
  {
    var w := Words(b);
    assert w[..8] == w;
    if base >= 0 {
      var left := Join(Hexes(w[..base]), ':');
      assert w[base + len..8] == w[base + len..];
      assert base + len == 8 ==> Join(Hexes(w[base + len..]), ':') == "";
      assert left + ":" + ":" == left + "::" == left + "::" + "";
    }
  }

  lemma PartialEmbedded(b: seq<byte>, len: nat)
    requires |b| == 16 && Embeds(Words(b), 0, len)
    ensures Text(Shortened(b, 0, len)) == Partial(Words(b), 0, len, 6) + ":" + Text4(b[12..])
    ensures |Partial(Words(b), 0, len, 6)| <= 6
  {
    var w, q := Words(b), Text4(b[12..]);
    var h := Hexes(w[len..6]);
    assert w[..0] == [] && Hexes(w[..0]) == [];
    assert Text(Shortened(b, 0, len)) == "" + "::" + Join(h + [q], ':');
    if len == 6 {
      assert w[6..6] == [] && h + [q] == [q];
      assert "" + "::" + q == "" + ":" + ":" + q;
    } else {
      HexWord(w[5]);
      assert w[5..6] == [w[5]];
      OneGroup(w[5], q);
      Colons(Hex(w[5]), q);
    }
  }

  lemma Colons(r: string, q: string)
    ensures "" + "::" + (r + ":" + q) == "" + "::" + r + ":" + q
  {
  }

  lemma OneGroup(x: word, q: string)
    ensures Join(Hexes([x]), ':') == Hex(x) && Join(Hexes([x]) + [q], ':') == Hex(x) + ":" + q
  {
    assert Hexes([x]) == [Hex(x)];
    JoinSnoc([Hex(x)], q, ':');
  }

  /** The words of src, accumulated byte by byte. */
  method LoadWords(src: array<byte>) returns (words: array<word>)
    requires src.Length == 16
    ensures fresh(words) && words.Length == 8 && words[..] == Words(src[..])
  {
    words := new word[8](_ => 0);
    for i := 0 to 16
      invariant forall k :: 0 <= k < 8 ==>
        var high, low := if 2 * k < i then src[2 * k] else 0, if 2 * k + 1 < i then src[2 * k + 1] else 0;
        words[k] == (high as int) * 256 + low
    {
      // The shifted byte and the word have no common bits, so `|=` adds.
      words[i / 2] := words[i / 2] + if i % 2 == 0 then (src[i] as int) * 256 else src[i];
    }
  }

  /** sprintf: s and a NUL at tmp[tp..]; it must fit. */
  method Print(tmp: array<char>, tp: nat, s: string)
    requires tp + |s| + 1 <= tmp.Length
    modifies tmp
    ensures tmp[..tp + |s|] == old(tmp[..tp]) + s
  {
    forall k | 0 <= k < |s| { tmp[tp + k] := s[k]; }
    tmp[tp + |s|] := '\0';
  }

  method Put(tmp: array<char>, tp: nat, c: char)
    requires tp < tmp.Length
    modifies tmp
    ensures tmp[..tp + 1] == old(tmp[..tp]) + [c]
  {
    tmp[tp] := c;
  }

  /** `if (when) *tp++ = ':';` */
  method PutColon(tmp: array<char>, at: nat, when: bool) returns (tp: nat)
    requires at < tmp.Length
    modifies tmp
    ensures tp == at + (if when then 1 else 0)
    ensures tmp[..tp] == old(tmp[..at]) + if when then ":" else ""
  {
    tp := at;
    if when {
      Put(tmp, tp, ':');
      tp := tp + 1;
    }
  }

  /** `tp += sprintf(tp, "%x", w);` */
  method PutWord(tmp: array<char>, at: nat, w: word) returns (tp: nat)
    requires at + 5 <= tmp.Length
    modifies tmp
    ensures at < tp <= at + 4
    ensures tmp[..tp] == old(tmp[..at]) + Hex(w)
  {
    HexWord(w);
    var x := Hex(w);
    Print(tmp, at, x);
    tp := at + |x|;
  }

  /** Formats src with the run at base shortened; the 46 bytes of tmp are enough. */
  method Format(src: array<byte>, words: array<word>, base: int, len: nat, tmp: array<char>) returns (tp: nat)
    requires src.Length == 16 && words.Length == 8 && words[..] == Words(src[..]) && tmp.Length == 46
    requires -1 <= base && (base >= 0 ==> len >= 2 && base + len <= 8)
    modifies tmp
    ensures tp <= 45 && tmp[..tp] == Text(Shortened(old(src[..]), base, len))
  {
    ghost var b, w := src[..], words[..];
    tp := 0;
    var i := 0;
    while i < 8
      invariant 0 <= i <= 8 && tp <= 5 * i
      invariant tmp[..tp] == Partial(w, base, len, i)
      invariant base == 0 && i > 6 ==> !Embeds(w, base, len)
    {
      PartialStep(w, base, len, i);
      if base != -1 && base <= i < base + len {
        tp := PutColon(tmp, tp, i == base);
        i := i + 1;
        continue;
      }
      tp := PutColon(tmp, tp, i != 0);
      var last := words[7];
      assert base == 0 && len == 7 ==> i != 6; // so the second alternative never decides
      if i == 6 && base == 0 && (len == 6 || (len == 7 && last != 1) || (len == 5 && words[5] == 0xffff)) {
        PartialEmbedded(b, len);
        tp := Embed(src, tmp, tp);
        return;
      }
      tp := PutWord(tmp, tp, words[i]);
      i := i + 1;
    }
    PartialEnd(b, base, len);
    tp := PutColon(tmp, tp, base != -1 && base + len == 8);
  }

  /** The nested inet_ntop4, which cannot fail here, and the strlen after it. */
  method Embed(src: array<byte>, tmp: array<char>, at: nat) returns (tp: nat)
    requires src.Length == 16 && tmp.Length == 46 && at <= 7
    modifies tmp
    ensures tp <= at + 15 && tmp[..tp] == old(tmp[..at]) + Text4(old(src[12..]))
  {
    ghost var before, t := tmp[..at], Text4(src[12..]);
    assert src[12..16] == src[12..];
    RoundTrip4(src[12..]);
    var err := Ntop4(src, 12, tmp, at, 46 - at);
    assert err == OK;
    assert forall k :: at <= k < at + |t| ==> tmp[k] == t[k - at];
    tp := at;
    while tmp[tp] != '\0'
      invariant at <= tp <= at + |t|
      invariant forall k :: at <= k < at + |t| ==> tmp[k] != '\0'
      decreases at + |t| - tp
    {
      assert tp < at + |t|;
      tp := tp + 1;
    }
  }

  /** Writes the canonical text of src and its NUL at dst, or nothing when it does not fit. */
  method Ntop6(src: array<byte>, dst: array<char>, size: nat) returns (code: Code, ghost text: string)
    requires src.Length == 16 && size <= dst.Length
    modifies dst
    ensures Canonical(old(src[..]), text) && |text| <= 45
    ensures code == if |text| + 1 > size then ENOSPC else OK
    ensures code == OK ==> dst[..|text| + 1] == text + ['\0'] && dst[|text| + 1..] == old(dst[|text| + 1..])
    ensures code != OK ==> dst[..] == old(dst[..])
  {
    var tmp := new char[46];
    var words := LoadWords(src);
    var base, len := BestRun(words);
    var tp := Format(src, words, base, len, tmp);
    text := tmp[..tp];
    if tp + 1 > size { return ENOSPC, text; }
    CopyText(dst, tmp, tp);
    return OK, text;
  }

  /** The text and the zero byte that ends it. */
  method CopyText(dst: array<char>, tmp: array<char>, n: nat)
    requires n < dst.Length && n <= tmp.Length && dst != tmp
    modifies dst
    ensures dst[..n + 1] == tmp[..n] + ['\0'] && dst[n + 1..] == old(dst[n + 1..])
  {
    forall k | 0 <= k < n + 1 { dst[k] := if k < n then tmp[k] else '\0'; }
  }

  /** uv_inet_ntop */
  method Ntop(af: Family, src: array<byte>, dst: array<char>, size: nat) returns (code: Code, ghost text: string)
    requires af == INET ==> src.Length == 4
    requires af == INET6 ==> src.Length == 16
    requires size <= dst.Length
    modifies dst
    ensures af == INET ==> text == Text4(old(src[..]))
    ensures af == INET6 ==> Canonical(old(src[..]), text)
    ensures code == if af == OtherFamily then EAFNOSUPPORT else if |text| + 1 > size then ENOSPC else OK
    ensures code == OK ==> dst[..|text| + 1] == text + ['\0']
    ensures code == OK ==> (if af == INET then Parse4(text) else Parse6(text)) == Some(old(src[..]))
    ensures size >= 46 ==> code != ENOSPC
    ensures code != OK ==> dst[..] == old(dst[..])
  {
    match af {
      case INET =>
        text := Text4(src[..]);
        assert src[0..0 + 4] == src[..];
        RoundTrip4(src[..]);
        code := Ntop4(src, 0, dst, 0, size);
        if code == OK { assert dst[..|text|] == text; }
      case INET6 =>
        ghost var b := src[..];
        code, text := Ntop6(src, dst, size);
        RoundTrip6(b, text);
      case OtherFamily =>
        code, text := EAFNOSUPPORT, "";
    }
  }
}
