/** IPv4 text: inet_ntop4 and inet_pton4 (deps/libuv/src/inet.c:53-65, 186-222). */
module Inet4 {
  import opened InetText

  // ----- the grammar ------------------------------------------------------------------

  /** A decimal number below 256 written without leading zeros. */
  predicate IsOctet(f: string) {
    f != [] && AllDigits(f) && (f[0] == '0' ==> |f| == 1) && Val(f) < 256
  }

  predicate AllOctets(f: seq<string>) { forall i :: 0 <= i < |f| ==> IsOctet(f[i]) }

  function Vals(f: seq<string>): (b: seq<byte>)
    requires AllOctets(f)
    ensures |b| == |f|
  {
    if f == [] then [] else [Val(f[0])] + Vals(f[1..])
  }

  /** done followed by the octets f, if that makes four octets. */
  function Quad(done: seq<byte>, f: seq<string>): (r: Option<seq<byte>>)
    ensures r.Some? ==> |r.value| == 4
  {
    if |done| + |f| == 4 && AllOctets(f) then Some(done + Vals(f)) else None
  }

  /** The address a text denotes: exactly four octets with dots between them. */
  function Parse4(s: string): (r: Option<seq<byte>>)
    ensures r.Some? ==> |r.value| == 4
  { Quad([], Split(s, '.')) }

  function Decs(b: seq<byte>): (f: seq<string>)
    ensures |f| == |b|
  {
    if b == [] then [] else [Dec(b[0])] + Decs(b[1..])
  }

  function Text4(b: seq<byte>): string
    requires |b| == 4
  { Join(Decs(b), '.') }

  function Pow10(k: nat): nat { if k == 0 then 1 else 10 * Pow10(k - 1) }

  lemma {:induction false} LeadingDigit(f: string)
    requires f != [] && AllDigits(f) && f[0] != '0'
    ensures Val(f) >= Pow10(|f| - 1)
    decreases |f|
  {
    if |f| > 1 {
      LeadingDigit(f[..|f| - 1]);
    } else {
      assert f[..0] == [];
    }
  }

  lemma {:induction false} Pow10Monotone(j: nat, k: nat)
    requires j <= k
    ensures 1 <= Pow10(j) <= Pow10(k)
    decreases k
  {
    if j < k { Pow10Monotone(j, k - 1); } else if j > 0 { Pow10Monotone(j - 1, k - 1); }
  }

  lemma OctetLength(f: string)
    requires IsOctet(f)
    ensures |f| <= 3
  {
    if f[0] != '0' {
      LeadingDigit(f);
      assert Pow10(3) == 10 * Pow10(2) && Pow10(2) == 10 * Pow10(1) && Pow10(1) == 10;
      if |f| > 3 { Pow10Monotone(3, |f| - 1); }
    }
  }

  lemma {:induction false} DecsAreOctets(b: seq<byte>)
    ensures AllOctets(Decs(b)) && Vals(Decs(b)) == b
    ensures forall i :: 0 <= i < |b| ==> '.' !in Decs(b)[i] && '\0' !in Decs(b)[i]
    ensures |Join(Decs(b), '.')| <= 4 * |b| && '\0' !in Join(Decs(b), '.')
    ensures b != [] ==> 0 < |Join(Decs(b), '.')| < 4 * |b|
  {
    if b != [] {
      DecVal(b[0]);
      DecLength(b[0]);
      DecsAreOctets(b[1..]);
      assert b == [b[0]] + b[1..];
      var f := Decs(b);
      assert f[0] == Dec(b[0]) && f[1..] == Decs(b[1..]);
      forall i | 0 <= i < |b| ensures IsOctet(f[i]) && '.' !in f[i] && '\0' !in f[i] {
        if i > 0 { assert f[i] == f[1..][i - 1]; } else { assert f[0][0] == '0' ==> b[0] == 0; }
      }
      assert |b| == 1 || Join(f, '.') == f[0] + ['.'] + Join(f[1..], '.');
    }
  }

  /** Reading back what was printed gives the same address. */
  lemma RoundTrip4(b: seq<byte>)
    requires |b| == 4
    ensures Parse4(Text4(b)) == Some(b)
    ensures 0 < |Text4(b)| <= 15 && '\0' !in Text4(b)
  {
    DecsAreOctets(b);
    SplitJoin(Decs(b), '.');
    assert [] + b == b;
  }

  // ----- the scanner ------------------------------------------------------------------

  /**
   * What the loop of inet_pton4 makes of the rest s when the octets in done are complete,
   * the current one is cur so far, and saw says whether it has a digit yet.
   */
  function Scan(s: string, done: seq<byte>, cur: byte, saw: bool): Option<seq<byte>> {
    if s == [] then
      if |done| + (if saw then 1 else 0) < 4 then None else Some(done + [cur])
    else if IsDigit(s[0]) then
      var nw := cur * 10 + DigitVal(s[0]);
      if saw && cur == 0 then None
      else if nw > 255 then None
      else if !saw && |done| + 1 > 4 then None
      else Scan(s[1..], done, nw, true)
    else if s[0] == '.' && saw then
      if |done| + 1 == 4 then None else Scan(s[1..], done + [cur], 0, false)
    else
      None
  }

  /** pre holds the digits of the current octet. */
  ghost predicate Current(pre: string, cur: byte, saw: bool) {
    AllDigits(pre) && cur == Val(pre) && (if saw then IsOctet(pre) else pre == [])
  }

  lemma BadField(f: seq<string>, done: seq<byte>)
    requires f != [] && !IsOctet(f[0])
    ensures Quad(done, f) == None
  {
  }

  /** A field that goes on after a complete zero or past 255 is no octet. */
  lemma BadDigit(pre: string, ch: char, cur: byte, saw: bool, more: string)
    requires Current(pre, cur, saw) && IsDigit(ch)
    requires (saw && cur == 0) || cur * 10 + DigitVal(ch) > 255
    ensures !IsOctet(pre + [ch] + more)
  {
    var f := pre + [ch];
    assert f[..|f| - 1] == pre;
    if AllDigits(f + more) {
      ValMonotone(f, more);
      if saw && cur == 0 {
        assert pre + [] == pre && pre[..1] + pre[1..] == pre;
        ValMonotone(pre[..1], pre[1..]);
        assert pre[..1][..0] == [];
        assert Val(pre[..1]) == DigitVal(pre[0]);
        assert (f + more)[0] == '0';
      }
    }
  }

  /** The scanner computes the grammar's value from every intermediate state. */
  lemma {:induction false} ScanIsQuad(s: string, done: seq<byte>, pre: string, cur: byte, saw: bool)
    requires |done| <= 3 && Current(pre, cur, saw)
    ensures Scan(s, done, cur, saw) == Quad(done, Split(pre + s, '.'))
    decreases |s|
  {
    assert '.' !in pre;
    SplitExtend(pre, s, '.');
    var f := Split(pre + s, '.');
    if s == [] {
      assert pre + [] == pre && Split(s, '.')[1..] == [];
      assert f == [pre];
      if saw { assert Vals(f) == [cur]; } else { BadField(f, done); }
    } else if IsDigit(s[0]) {
      ScanDigit(s, done, pre, cur, saw);
    } else if s[0] == '.' {
      var rest := Split(s[1..], '.');
      assert f[0] == pre && f == [pre] + rest;
      if saw {
        if |done| == 3 {
        } else {
          ScanIsQuad(s[1..], done + [cur], [], 0, false);
          assert [] + s[1..] == s[1..];
          NextField(done, pre, cur, rest);
        }
      } else {
        BadField(f, done);
      }
    } else {
      var g := Split(s[1..], '.');
      assert f[0] == pre + ([s[0]] + g[0]);
      assert f[0][|pre|] == s[0];
      BadField(f, done);
    }
  }

  lemma NextField(done: seq<byte>, pre: string, cur: byte, rest: seq<string>)
    requires IsOctet(pre) && cur == Val(pre)
    ensures Quad(done + [cur], rest) == Quad(done, [pre] + rest)
  {
    var f := [pre] + rest;
    assert f[1..] == rest && f[0] == pre;
    assert AllOctets(f) ==> AllOctets(rest);
    if AllOctets(rest) {
      forall i | 0 <= i < |f| ensures IsOctet(f[i]) { if i > 0 { assert f[i] == rest[i - 1]; } }
      assert done + [cur] + Vals(rest) == done + Vals(f);
    }
  }

  lemma {:induction false} ScanDigit(s: string, done: seq<byte>, pre: string, cur: byte, saw: bool)
    requires |done| <= 3 && Current(pre, cur, saw)
    requires s != [] && IsDigit(s[0])
    ensures Scan(s, done, cur, saw) == Quad(done, Split(pre + s, '.'))
    decreases |s|, 0
  {
    var ch, nw := s[0], cur * 10 + DigitVal(s[0]);
    var next := pre + [ch];
    assert next + s[1..] == pre + s && next[..|next| - 1] == pre;
    assert '.' !in next;
    assert saw && |pre| == 1 ==> Val(pre) == DigitVal(pre[0]) by { assert saw ==> pre[..0] == []; }
    if (saw && cur == 0) || nw > 255 {
      SplitExtend(next, s[1..], '.');
      BadDigit(pre, ch, cur, saw, Split(s[1..], '.')[0]);
      BadField(Split(pre + s, '.'), done);
    } else {
      assert IsOctet(next);
      ScanIsQuad(s[1..], done, next, nw, true);
    }
  }

  method Memcpy(dst: array<byte>, off: nat, src: array<byte>)
    requires off + src.Length <= dst.Length && dst != src
    modifies dst
    ensures dst[off..off + src.Length] == src[..]
    ensures dst[..off] == old(dst[..off]) && dst[off + src.Length..] == old(dst[off + src.Length..])
  {
    forall k | 0 <= k < src.Length { dst[off + k] := src[k]; }
  }

  // ----- inet_pton4 -------------------------------------------------------------------

  /** Writes the four octets at dst[off..] when the text at src[from..] is an IPv4 address. */
  method Pton4(src: CString, from: nat, dst: array<byte>, off: nat) returns (code: Code)
    requires from <= |src| && off + 4 <= dst.Length
    modifies dst
    ensures code == match Parse4(src[from..]) case Some(_) => OK case None => EINVAL
    ensures code == OK ==> Parse4(src[from..]) == Some(dst[off..off + 4])
    ensures code == OK ==> dst[..off] == old(dst[..off]) && dst[off + 4..] == old(dst[off + 4..])
    ensures code != OK ==> dst[..] == old(dst[..])
  {
    var tmp := new byte[4](_ => 0);
    var sawDigit, octets, tp, i := false, 0, 0, from;
    ghost var goal := Parse4(src[from..]);
    ScanIsQuad(src[from..], [], [], 0, false);
    assert [] + src[from..] == src[from..] && tmp[..0] == [];
    tmp[0] := 0;
    while CharAt(src, i) != '\0'
      invariant from <= i <= |src| && 0 <= tp < 4
      invariant octets == tp + if sawDigit then 1 else 0
      invariant Scan(src[i..], tmp[..tp], tmp[tp], sawDigit) == goal
      invariant dst[..] == old(dst[..])
      decreases |src| - i
    {
      var ch := src[i];
      assert src[i..][0] == ch && src[i..][1..] == src[i + 1..];
      i := i + 1;
      if IsDigit(ch) {
        var nw := tmp[tp] * 10 + DigitVal(ch);
        if sawDigit && tmp[tp] == 0 { return EINVAL; }
        if nw > 255 { return EINVAL; }
        ghost var done := tmp[..tp];
        tmp[tp] := nw;
        assert tmp[..tp] == done;
        if !sawDigit {
          octets := octets + 1;
          assert octets <= 4;
          if octets > 4 { return EINVAL; }
          sawDigit := true;
        }
      } else if ch == '.' && sawDigit {
        if octets == 4 { return EINVAL; }
        ghost var done := tmp[..tp + 1];
        assert done == tmp[..tp] + [tmp[tp]];
        tp := tp + 1;
        tmp[tp] := 0;
        assert tmp[..tp] == done;
        sawDigit := false;
      } else {
        return EINVAL;
      }
    }
    assert src[i..] == [];
    if octets < 4 { return EINVAL; }
    assert tmp[..3] + [tmp[3]] == tmp[..];
    Memcpy(dst, off, tmp);
    return OK;
  }

  // ----- inet_ntop4 -------------------------------------------------------------------

  lemma FourDecs(b: seq<byte>)
    requires |b| == 4
    ensures Decs(b) == [Dec(b[0]), Dec(b[1]), Dec(b[2]), Dec(b[3])]
  {
    assert b[1..] == [b[1], b[2], b[3]] && b[1..][1..] == [b[2], b[3]] && b[1..][1..][1..] == [b[3]];
    assert Decs([b[3]]) == [Dec(b[3])];
    assert Decs([b[2], b[3]]) == [Dec(b[2])] + Decs([b[3]]);
    assert Decs([b[1], b[2], b[3]]) == [Dec(b[1])] + Decs([b[2], b[3]]);
  }

  /**
   * Prints src[from..from + 4] at dst[off..off + size], padding with NULs as strncpy
   * does; a size that cannot hold the text and its NUL leaves dst alone.
   */
  method Ntop4(src: array<byte>, from: nat, dst: array<char>, off: nat, size: nat) returns (code: Code)
    requires from + 4 <= src.Length && off + size <= dst.Length
    modifies dst
    ensures code == if |Text4(src[from..from + 4])| < size then OK else ENOSPC
    ensures code == OK ==>
      var t := Text4(src[from..from + 4]);
      && (forall k :: 0 <= k < |t| ==> dst[off + k] == t[k])
      && (forall k :: off + |t| <= k < off + size ==> dst[k] == '\0')
    ensures forall k :: 0 <= k < dst.Length && (code == OK ==> !(off <= k < off + size)) ==> dst[k] == old(dst[k])
  {
    ghost var b := src[from..from + 4];
    var tmp := Join([Dec(src[from]), Dec(src[from + 1]), Dec(src[from + 2]), Dec(src[from + 3])], '.');
    FourDecs(b);
    assert tmp == Text4(b);
    RoundTrip4(b);
    var l := |tmp|;
    if l <= 0 || l >= size { return ENOSPC; }
    forall k | off <= k < off + size { dst[k] := CharAt(tmp, k - off); }
    dst[off + size - 1] := '\0';
    assert src[from..from + 4] == b;
    return OK;
  }
}
