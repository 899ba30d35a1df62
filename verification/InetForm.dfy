/**
 * What an address looks like in text: sections 4 and 5 of RFC 5952, stated on the grammar and
 * on the words of the address, without the printer.
 */
module InetForm {
  import opened Sequences
  import opened InetText
  import opened Inet4
  import opened Inet6
  import opened InetNtop

  // ----- the form -----------------------------------------------------------------------

  predicate LowerDigits(p: string) { forall i :: 0 <= i < |p| ==> p[i] in DIGITS }

  /** Sections 4.1 and 4.3: lower case, no leading zeros. */
  predicate LowerGroup(p: string) {
    1 <= |p| <= 4 && LowerDigits(p) && (p[0] == '0' ==> |p| == 1)
  }

  predicate LowerGroups(f: seq<string>) { forall i :: 0 <= i < |f| ==> LowerGroup(f[i]) }

  /** Section 5: IPv4-compatible addresses, but for those below 1.0.0, and IPv4-mapped ones. */
  predicate Dotted(w: seq<word>)
    requires |w| == 8
  {
    && w[0] == 0 && w[1] == 0 && w[2] == 0 && w[3] == 0 && w[4] == 0
    && ((w[5] == 0 && w[6] != 0) || w[5] == 0xffff)
  }

  /** Section 4.2: "::" stands for the leftmost of the longest runs of zero words, of two or more. */
  ghost predicate GapRight(w: seq<word>, l: nat, r: nat) {
    && l + r <= 6 && ZeroRun(w, l, 8 - l - r)
    && forall s: nat, n: nat :: ZeroRun(w, s, n) ==> n <= 8 - l - r && (n == 8 - l - r ==> l <= s)
  }

  ghost predicate Form(b: seq<byte>, a: Addr)
    requires |b| == 16
  {
    var w := Words(b);
    && Valid(a) && Value(a) == b && LowerGroups(a.left)
    && (a.gap <==> exists s: nat :: ZeroRun(w, s, 2))
    && (a.gap ==> GapRight(w, |a.left|, |Bytes(a.right, true)| / 2))
    && (Dotted(w) ==> a.gap)
    && if Dotted(w) then QuadLast(b, a.right) else LowerGroups(a.right)
  }

  /** Groups, and the last four bytes as a dotted quad. */
  ghost predicate QuadLast(b: seq<byte>, f: seq<string>)
    requires |b| == 16
  {
    f != [] && LowerGroups(f[..|f| - 1]) && Parse4(f[|f| - 1]) == Some(b[12..])
  }

  // ----- canonical texts have the form ----------------------------------------------------

  lemma {:induction false} HexIsLower(n: nat)
    ensures Hex(n) != [] && LowerDigits(Hex(n)) && (Hex(n)[0] == '0' ==> n == 0)
  {
    HexTables(HexChar(n % 16));
    if n >= 16 {
      HexIsLower(n / 16);
    } else {
      LowerChar(n);
    }
    LowerChar(n % 16);
  }

  lemma LowerChar(d: nat)
    requires d < 16
    ensures HexChar(d) == DIGITS[d]
  {
    DigitAt(d);
  }

  lemma GroupOfWord(w: word)
    ensures LowerGroup(Hex(w))
  {
    HexWord(w);
    HexIsLower(w);
    if w == 0 { assert |Hex(0)| == 1; }
  }

  lemma {:induction false} HexesAreLower(w: seq<word>)
    ensures LowerGroups(Hexes(w))
    decreases |w|
  {
    if w != [] {
      GroupOfWord(w[0]);
      HexesAreLower(w[1..]);
      assert Hexes(w)[1..] == Hexes(w[1..]);
      forall i | 0 <= i < |w| ensures LowerGroup(Hexes(w)[i]) {
        if i > 0 { assert Hexes(w)[i] == Hexes(w[1..])[i - 1]; }
      }
    }
  }

  /** The two definitions of the embedded form agree. */
  lemma DottedIsEmbedded(w: seq<word>, base: int, len: nat)
    requires |w| == 8 && Longest(w, base, len)
    ensures Dotted(w) <==> Embeds(w, base, len)
  {
    if Dotted(w) {
      var n := if w[5] == 0 then 6 else 5;
      assert ZeroRun(w, 0, n);
      assert base == 0;
      var five, six := w[5], w[6];
      assert len > n ==> (if n == 5 then five else six) == 0;
    } else if Embeds(w, base, len) {
      assert len == 6 && w[6] == 0 ==> ZeroRun(w, 0, 7);
    }
  }

  lemma RunMeansGap(w: seq<word>, base: int, len: nat)
    requires |w| == 8 && Longest(w, base, len)
    ensures base >= 0 <==> exists s: nat :: ZeroRun(w, s, 2)
  {
    if base >= 0 { assert ZeroRun(w, base, 2); }
  }

  lemma NoGapForm(b: seq<byte>, len: nat)
    requires |b| == 16 && Longest(Words(b), -1, len)
    ensures Form(b, Shortened(b, -1, len))
  {
    var w := Words(b);
    ShortenedValue(b, -1, len);
    DottedIsEmbedded(w, -1, len);
    RunMeansGap(w, -1, len);
    HexesAreLower(w);
  }

  lemma EmbeddedForm(b: seq<byte>, len: nat)
    requires |b| == 16 && Longest(Words(b), 0, len) && Embeds(Words(b), 0, len)
    ensures Form(b, Shortened(b, 0, len))
  {
    var w, a := Words(b), Shortened(b, 0, len);
    ShortenedValue(b, 0, len);
    DottedIsEmbedded(w, 0, len);
    RunMeansGap(w, 0, len);
    HexesAreLower(w[len..6]);
    HexesQuad(w[len..6], b[12..]);
    RoundTrip4(b[12..]);
    assert a.right[..|a.right| - 1] == Hexes(w[len..6]);
    assert QuadLast(b, a.right) && LowerGroups(a.left);
    assert |Bytes(a.right, true)| / 2 == 8 - len;
    assert GapRight(w, 0, 8 - len);
  }

  lemma PlainForm(b: seq<byte>, base: nat, len: nat)
    requires |b| == 16 && Longest(Words(b), base, len) && !Embeds(Words(b), base, len)
    ensures Form(b, Shortened(b, base, len))
  {
    var w, a := Words(b), Shortened(b, base, len);
    ShortenedValue(b, base, len);
    DottedIsEmbedded(w, base, len);
    RunMeansGap(w, base, len);
    HexesAreLower(w[..base]);
    HexesAreLower(w[base + len..]);
    HexesPieces(w[base + len..], true);
    assert |Bytes(a.right, true)| / 2 == 8 - base - len;
    assert GapRight(w, base, 8 - base - len);
  }

  /** Every canonical text has the form. */
  lemma CanonicalHasForm(b: seq<byte>, t: string) returns (a: Addr)
    requires |b| == 16 && Canonical(b, t)
    ensures Form(b, a) && Text(a) == t
  {
    var base: int, len: nat :| Longest(Words(b), base, len) && t == Text(Shortened(b, base, len));
    a := Shortened(b, base, len);
    if base < 0 { NoGapForm(b, len); }
    else if Embeds(Words(b), base, len) { EmbeddedForm(b, len); }
    else { PlainForm(b, base, len); }
  }

  // ----- only canonical texts have it -----------------------------------------------------

  lemma LowerIsHex(p: string)
    requires LowerDigits(p)
    ensures AllHex(p)
  {
    forall i | 0 <= i < |p| ensures HexDigit(p[i]).Some? { HexTables(p[i]); }
  }

  /** A number has one lower-case text without leading zeros. */
  lemma {:induction false} HexUnique(p: string)
    requires p != [] && LowerDigits(p) && (p[0] == '0' ==> |p| == 1)
    ensures AllHex(p) && Hex(HexVal(p)) == p
    decreases |p|
  {
    LowerIsHex(p);
    var q, c := p[..|p| - 1], p[|p| - 1];
    assert p == q + [c];
    LowerBack(c);
    if q != [] {
      HexUnique(q);
      Positive(q);
    }
    HexMore(HexVal(q), HexDigit(c).value, q);
  }

  /** One more digit. */
  lemma HexMore(v: nat, d: nat, q: string)
    requires d < 16 && if v == 0 then q == [] else Hex(v) == q
    ensures Hex(16 * v + d) == q + [HexChar(d)]
  {
    if v > 0 { assert (16 * v + d) / 16 == v && (16 * v + d) % 16 == d; }
  }

  lemma LowerBack(c: char)
    requires c in DIGITS
    ensures HexDigit(c).Some? && HexDigit(c).value < 16 && HexChar(HexDigit(c).value) == c
  {
    var i :| 0 <= i < |DIGITS| && DIGITS[i] == c;
    LowerChar(i);
  }

  lemma {:induction false} Positive(p: string)
    requires p != [] && AllHex(p) && p[0] != '0'
    ensures HexVal(p) > 0
    decreases |p|
  {
    if |p| > 1 { Positive(p[..|p| - 1]); } else { assert p[..0] == []; }
  }

  lemma {:induction false} DecUnique(f: string)
    requires f != [] && AllDigits(f) && (f[0] == '0' ==> |f| == 1)
    ensures Dec(Val(f)) == f
    decreases |f|
  {
    var q, c := f[..|f| - 1], f[|f| - 1];
    assert f == q + [c] && Digit(DigitVal(c)) == c;
    if q != [] {
      DecUnique(q);
      LeadingDigit(q);
      Pow10Monotone(0, |q| - 1);
    }
  }

  lemma DecsCons(x: byte, v: seq<byte>)
    ensures Decs([x] + v) == [Dec(x)] + Decs(v)
  {
    assert ([x] + v)[1..] == v;
  }

  lemma {:induction false} DecsUnique(f: seq<string>)
    requires AllOctets(f)
    ensures Decs(Vals(f)) == f
    decreases |f|
  {
    if f != [] {
      assert AllOctets(f[1..]);
      DecUnique(f[0]);
      DecsUnique(f[1..]);
      DecsCons(Val(f[0]), Vals(f[1..]));
      assert f == [f[0]] + f[1..];
    }
  }

  /** An IPv4 address has one text. */
  lemma QuadUnique(p: string)
    requires IsQuad(p)
    ensures p == Text4(Parse4(p).value)
  {
    var f := Split(p, '.');
    assert [] + Vals(f) == Vals(f);
    DecsUnique(f);
    JoinSplit(p, '.');
  }

  lemma WordUnique(u: nat, v: nat)
    requires u < 65536 && v < 65536 && Word(u) == Word(v)
    ensures u == v
  {
    assert Word(u)[0] == Word(v)[0] && Word(u)[1] == Word(v)[1];
    assert u == 256 * (u / 256) + u % 256 && v == 256 * (v / 256) + v % 256;
  }

  lemma SmallGroup(p: string)
    requires LowerGroup(p)
    ensures IsGroup(p) && HexVal(p) < 65536 && Hex(HexVal(p)) == p
  {
    HexUnique(p);
    GroupBound(p, 4);
    assert Pow16(4) == 65536 by {
      assert Pow16(1) == 16 && Pow16(2) == 16 * Pow16(1) && Pow16(3) == 16 * Pow16(2) && Pow16(4) == 16 * Pow16(3);
    }
  }

  lemma {:induction false} GroupBound(p: string, k: nat)
    requires AllHex(p) && |p| <= k
    ensures HexVal(p) < Pow16(k)
    decreases k
  {
    if p == [] {
      Pow16Positive(k);
    } else {
      GroupBound(p[..|p| - 1], k - 1);
      HexTables(p[|p| - 1]);
    }
  }

  lemma {:induction false} Pow16Positive(k: nat)
    ensures Pow16(k) > 0
  {
    if k > 0 { Pow16Positive(k - 1); }
  }

  lemma FirstPiece(f: seq<string>, quad: bool)
    requires f != [] && LowerGroups(f) && Pieces(f, quad)
    ensures |Bytes(f, quad)| >= 2 && IsGroup(f[0])
    ensures Word(HexVal(f[0])) == Bytes(f, quad)[..2]
    ensures LowerGroups(f[1..]) && Pieces(f[1..], quad) && Bytes(f[1..], quad) == Bytes(f, quad)[2..]
  {
    SmallGroup(f[0]);
  }

  lemma FirstUnique(f: seq<string>, g: seq<string>, quad: bool)
    requires f != [] && g != [] && LowerGroups(f) && LowerGroups(g) && Pieces(f, quad) && Pieces(g, quad)
    requires Bytes(f, quad) == Bytes(g, quad)
    ensures f[0] == g[0]
  {
    FirstPiece(f, quad);
    FirstPiece(g, quad);
    SmallGroup(f[0]);
    SmallGroup(g[0]);
    WordUnique(HexVal(f[0]), HexVal(g[0]));
  }

  /** Groups in that form are determined by their bytes. */
  lemma {:induction false} GroupsUnique(f: seq<string>, g: seq<string>, quad: bool)
    requires LowerGroups(f) && LowerGroups(g) && Pieces(f, quad) && Pieces(g, quad)
    requires Bytes(f, quad) == Bytes(g, quad)
    ensures f == g
    decreases |f|
  {
    if f == [] {
      if g != [] { FirstPiece(g, quad); }
    } else {
      FirstPiece(f, quad);
      if g != [] {
        FirstPiece(g, quad);
        FirstUnique(f, g, quad);
        GroupsUnique(f[1..], g[1..], quad);
        assert f == [f[0]] + f[1..] && g == [g[0]] + g[1..];
      }
    }
  }

  lemma {:induction false} GroupsBytes(f: seq<string>, quad: bool)
    requires LowerGroups(f)
    ensures Pieces(f, quad) && |Bytes(f, quad)| == 2 * |f|
    decreases |f|
  {
    if f != [] {
      SmallGroup(f[0]);
      assert LowerGroups(f[1..]);
      GroupsBytes(f[1..], quad);
    }
  }

  /** Groups with a dotted quad behind them. */
  lemma {:induction false} QuadBehind(f: seq<string>, p: string)
    requires LowerGroups(f) && IsQuad(p)
    ensures Pieces(f, false) && Pieces(f + [p], true) && Bytes(f + [p], true) == Bytes(f, false) + Parse4(p).value
    decreases |f|
  {
    if f == [] {
      QuadIsNoGroup(p);
      PieceOne(p, true);
      assert f + [p] == [p];
    } else {
      SmallGroup(f[0]);
      assert LowerGroups(f[1..]);
      QuadBehind(f[1..], p);
      QuadMore(f, p);
    }
  }

  lemma GroupInFront(f: seq<string>)
    requires f != [] && IsGroup(f[0]) && Pieces(f[1..], false)
    ensures Pieces(f, false) && Bytes(f, false) == Word(HexVal(f[0])) + Bytes(f[1..], false)
  {
  }

  lemma QuadMore(f: seq<string>, p: string)
    requires f != [] && IsGroup(f[0]) && IsQuad(p) && Pieces(f[1..], false) && Pieces(f[1..] + [p], true)
    requires Bytes(f[1..] + [p], true) == Bytes(f[1..], false) + Parse4(p).value
    ensures Pieces(f, false) && Pieces(f + [p], true) && Bytes(f + [p], true) == Bytes(f, false) + Parse4(p).value
  {
    GroupInFront(f);
    Assoc([f[0]], f[1..], [p]);
    assert f == [f[0]] + f[1..];
    PiecesCons(f[0], f[1..] + [p], true);
    Assoc(Word(HexVal(f[0])), Bytes(f[1..], false), Parse4(p).value);
  }

  lemma QuadIsNoGroup(p: string)
    requires IsQuad(p)
    ensures !IsGroup(p)
  {
    if IsGroup(p) { var _, _ := QuadStart(p); }
  }

  lemma QuadsUnique(f: seq<string>, g: seq<string>, p: string, q: string)
    requires LowerGroups(f) && LowerGroups(g) && IsQuad(p) && IsQuad(q) && Parse4(p) == Parse4(q)
    requires Pieces(f + [p], true) && Pieces(g + [q], true) && Bytes(f + [p], true) == Bytes(g + [q], true)
    ensures f == g && p == q
  {
    QuadUnique(p);
    QuadUnique(q);
    QuadBehind(f, p);
    QuadBehind(g, q);
    var v := Parse4(p).value;
    assert Bytes(f, false) == (Bytes(f, false) + v)[..|Bytes(f, false) + v| - 4];
    assert Bytes(g, false) == (Bytes(g, false) + v)[..|Bytes(g, false) + v| - 4];
    GroupsUnique(f, g, false);
  }

  lemma QuadSplit(b: seq<byte>, f: seq<string>) returns (g: seq<string>, p: string)
    requires |b| == 16 && QuadLast(b, f)
    ensures f == g + [p] && LowerGroups(g) && Parse4(p) == Some(b[12..])
  {
    g, p := f[..|f| - 1], f[|f| - 1];
  }

  lemma RightUnique(b: seq<byte>, f: seq<string>, g: seq<string>)
    requires |b| == 16 && QuadLast(b, f) && QuadLast(b, g) && Pieces(f, true) && Pieces(g, true)
    requires Bytes(f, true) == Bytes(g, true)
    ensures f == g
  {
    var h, p := QuadSplit(b, f);
    var k, q := QuadSplit(b, g);
    QuadsUnique(h, k, p, q);
  }

  lemma {:induction false} EvenBytes(f: seq<string>, quad: bool)
    requires Pieces(f, quad)
    ensures |Bytes(f, quad)| % 2 == 0
    decreases |f|
  {
    if f != [] { EvenBytes(f[1..], quad); }
  }

  lemma GapUnique(w: seq<word>, l: nat, r: nat, m: nat, n: nat)
    requires GapRight(w, l, r) && GapRight(w, m, n)
    ensures l == m && r == n
  {
  }

  lemma Cut(b: seq<byte>, a: Addr)
    requires |b| == 16 && Form(b, a) && a.gap
    ensures var l, r := 2 * |a.left|, |Bytes(a.right, true)|;
      l + r <= 16 && Bytes(a.left, false) == b[..l] && Bytes(a.right, true) == b[16 - r..]
  {
    GroupsBytes(a.left, false);
  }

  lemma GappedUnique(b: seq<byte>, a: Addr, c: Addr)
    requires |b| == 16 && Form(b, a) && Form(b, c) && a.gap && c.gap
    ensures a == c
  {
    GapUnique(Words(b), |a.left|, |Bytes(a.right, true)| / 2, |c.left|, |Bytes(c.right, true)| / 2);
    EvenBytes(a.right, true);
    EvenBytes(c.right, true);
    Cut(b, a);
    Cut(b, c);
    GroupsUnique(a.left, c.left, false);
    if Dotted(Words(b)) { RightUnique(b, a.right, c.right); } else { GroupsUnique(a.right, c.right, true); }
  }

  /** An address is written in that form in one way only. */
  lemma FormUnique(b: seq<byte>, a: Addr, c: Addr)
    requires |b| == 16 && Form(b, a) && Form(b, c)
    ensures a == c
  {
    if a.gap {
      GappedUnique(b, a, c);
    } else {
      GroupsUnique(a.left, c.left, true);
    }
  }

  /** inet_ntop6 prints t for b only if t is the text of that form, and no other text is. */
  lemma PrintedIsForm(b: seq<byte>, t: string, a: Addr)
    requires |b| == 16 && Canonical(b, t)
    ensures Form(b, a) ==> Text(a) == t
    ensures exists c :: Form(b, c) && Text(c) == t
  {
    var c := CanonicalHasForm(b, t);
    if Form(b, a) { FormUnique(b, a, c); }
  }

  // ----- the characters of the text -------------------------------------------------------

  /** What a joined text consists of. */
  lemma {:induction false} JoinChars(f: seq<string>, sep: char, x: char)
    ensures x in Join(f, sep) <==> (exists i :: 0 <= i < |f| && x in f[i]) || (x == sep && |f| > 1)
    decreases |f|
  {
    if |f| > 1 {
      JoinChars(f[1..], sep, x);
      if x in Join(f[1..], sep) && !(x == sep) {
        var i :| 0 <= i < |f| - 1 && x in f[1..][i];
        assert x in f[i + 1];
      }
      if i :| 0 <= i < |f| && x in f[i] {
        if i > 0 { assert x in f[1..][i - 1]; }
      }
    } else if |f| == 1 {
      assert Join(f, sep) == f[0];
    }
  }

  lemma QuadChars(p: string, x: char)
    requires IsQuad(p) && x in p
    ensures x in DIGITS || x == '.'
  {
    var f := Split(p, '.');
    JoinSplit(p, '.');
    JoinChars(f, '.', x);
    if x != '.' {
      var i :| 0 <= i < |f| && x in f[i];
      var k :| 0 <= k < |f[i]| && f[i][k] == x;
      assert IsOctet(f[i]);
      HexTables(x);
    }
  }

  lemma QuadHasDot(p: string)
    requires IsQuad(p)
    ensures '.' in p
  {
    JoinSplit(p, '.');
    JoinChars(Split(p, '.'), '.', '.');
  }

  lemma NoDotBelow(f: seq<string>)
    requires LowerGroups(f)
    ensures '.' !in Join(f, ':') && forall x :: x in Join(f, ':') ==> x in DIGITS || x == ':'
  {
    forall x | x in Join(f, ':') ensures x in DIGITS || x == ':' {
      JoinChars(f, ':', x);
      if x != ':' {
        var i :| 0 <= i < |f| && x in f[i];
        var k :| 0 <= k < |f[i]| && f[i][k] == x;
        assert LowerGroup(f[i]);
      }
    }
    assert '.' !in DIGITS;
  }

  lemma RightChars(b: seq<byte>, f: seq<string>, x: char)
    requires |b| == 16 && QuadLast(b, f)
    ensures '.' in Join(f, ':')
    ensures x in Join(f, ':') ==> x in DIGITS || x == ':' || x == '.'
  {
    var n := |f| - 1;
    QuadHasDot(f[n]);
    JoinChars(f, ':', '.');
    JoinChars(f, ':', x);
    if x in Join(f, ':') && x != ':' {
      var i :| 0 <= i < |f| && x in f[i];
      if i == n {
        QuadChars(f[n], x);
      } else {
        assert LowerGroup(f[..n][i]);
      }
    }
  }

  /**
   * The text that inet_ntop6 prints has lower-case digits, colons and dots only, and it has a
   * dot exactly if the address is IPv4-compatible or IPv4-mapped.
   */
  lemma PrintedChars(b: seq<byte>, t: string, x: char)
    requires |b| == 16 && Canonical(b, t)
    ensures x in t ==> x in DIGITS || x == ':' || x == '.'
    ensures '.' in t <==> Dotted(Words(b))
  {
    var a := CanonicalHasForm(b, t);
    NoDotBelow(a.left);
    if Dotted(Words(b)) { RightChars(b, a.right, x); } else { NoDotBelow(a.right); }
  }

  // ----- an example -----------------------------------------------------------------------

  const LINK_LOCAL: seq<byte> := [0xfe, 0x80, 0, 0, 0, 0, 0, 0, 0, 0, 0, 0, 0, 0, 0x02, 0x0a]

  lemma LinkLocalHex()
    ensures AllHex("fe80") && HexVal("fe80") == 0xfe80 && AllHex("20a") && HexVal("20a") == 0x20a
  {
    assert "fe80"[..3] == "fe8" && "fe8"[..2] == "fe" && "fe"[..1] == "f" && "f"[..0] == "";
    assert "20a"[..2] == "20" && "20"[..1] == "2" && "2"[..0] == "";
  }

  lemma LinkLocalValue()
    ensures var a := Addr(["fe80"], true, ["20a"]);
      Valid(a) && Value(a) == LINK_LOCAL && |Bytes(a.right, true)| == 2
  {
    LinkLocalHex();
    assert Bytes(["fe80"], false) == [0xfe, 0x80];
    assert Bytes(["20a"], true) == [0x02, 0x0a];
  }

  /** High bytes come first, and the gap is in the middle. */
  lemma ParsesLinkLocal()
    ensures Parse6("fe80::20a") == Some(LINK_LOCAL)
  {
    var a := Addr(["fe80"], true, ["20a"]);
    LinkLocalValue();
    GrammarAccepted(a);
    assert Text(a) == "fe80" + "::" + "20a" == "fe80::20a";
  }
}
