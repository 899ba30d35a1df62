/** Numbers and separated fields in text, as deps/libuv/src/inet.c reads and writes them. */
module InetText {

  /** What a char* denotes: the characters before the terminating NUL. */
  type CString = s: string | '\0' !in s

  type byte = b: int | 0 <= b < 256

  datatype Option<T> = None | Some(value: T)

  /** 0, UV_ENOSPC, UV_EINVAL, UV_EAFNOSUPPORT */
  datatype Code = OK | ENOSPC | EINVAL | EAFNOSUPPORT

  /** AF_INET, AF_INET6 and all others */
  datatype Family = INET | INET6 | OtherFamily

  /** `*p` for a pointer i characters into s. */
  function CharAt(s: CString, i: nat): char { if i < |s| then s[i] else '\0' }

  // ----- fields -----------------------------------------------------------------------

  /** The fields of s between occurrences of sep; always at least one. */
  function Split(s: string, sep: char): (f: seq<string>)
    ensures |f| > 0
  {
    if s == [] then [[]]
    else
      var rest := Split(s[1..], sep);
      if s[0] == sep then [[]] + rest else [[s[0]] + rest[0]] + rest[1..]
  }

  /** The fields f with sep between them. */
  function Join(f: seq<string>, sep: char): string {
    if f == [] then [] else if |f| == 1 then f[0] else f[0] + [sep] + Join(f[1..], sep)
  }

  /** A sep-free prefix only lengthens the first field. */
  lemma {:induction false} SplitExtend(p: string, s: string, sep: char)
    requires sep !in p
    ensures Split(p + s, sep) == [p + Split(s, sep)[0]] + Split(s, sep)[1..]
    decreases |p|
  {
    if p == [] {
      var f := Split(s, sep);
      assert p + s == s && p + f[0] == f[0];
      assert f == [f[0]] + f[1..];
    } else {
      var t := p + s;
      assert t[0] == p[0] && t[1..] == p[1..] + s;
      SplitExtend(p[1..], s, sep);
      var f, r := Split(s, sep), Split(t[1..], sep);
      assert r[0] == p[1..] + f[0] && r[1..] == f[1..];
      assert [t[0]] + r[0] == p + f[0];
    }
  }

  lemma {:induction false} SplitJoin(f: seq<string>, sep: char)
    requires f != [] && forall i :: 0 <= i < |f| ==> sep !in f[i]
    ensures Split(Join(f, sep), sep) == f
    decreases |f|
  {
    if |f| == 1 {
      SplitExtend(f[0], [], sep);
      assert f[0] + [] == f[0];
    } else {
      var rest := Join(f[1..], sep);
      SplitJoin(f[1..], sep);
      var s := [sep] + rest;
      assert s[0] == sep && s[1..] == rest;
      assert Split(s, sep) == [[]] + f[1..];
      assert Join(f, sep) == f[0] + s;
      SplitExtend(f[0], s, sep);
      assert f[0] + [] == f[0] && Split(s, sep)[1..] == f[1..];
    }
  }

  lemma {:induction false} JoinSplit(s: string, sep: char)
    ensures Join(Split(s, sep), sep) == s
  {
    if s != [] {
      var f := Split(s[1..], sep);
      JoinSplit(s[1..], sep);
      assert s == [s[0]] + s[1..];
      if s[0] == sep {
        assert ([[]] + f)[1..] == f;
      } else {
        var g := [[s[0]] + f[0]] + f[1..];
        assert g[1..] == f[1..];
        assert |f| > 1 ==> Join(g, sep) == [s[0]] + f[0] + [sep] + Join(f[1..], sep);
      }
    }
  }

  /** Fields of at most n characters. */
  lemma {:induction false} JoinBound(f: seq<string>, sep: char, n: nat)
    requires f != [] && forall i :: 0 <= i < |f| ==> |f[i]| <= n
    ensures |Join(f, sep)| + 1 <= |f| * (n + 1)
    decreases |f|
  {
    if |f| > 1 {
      JoinBound(f[1..], sep, n);
      assert |f| * (n + 1) == (n + 1) + (|f| - 1) * (n + 1);
    }
  }

  lemma {:induction false} JoinSnoc(f: seq<string>, x: string, sep: char)
    requires f != []
    ensures Join(f + [x], sep) == Join(f, sep) + [sep] + x
    decreases |f|
  {
    if |f| == 1 {
      assert (f + [x])[1..] == [x];
    } else {
      assert (f + [x])[1..] == f[1..] + [x];
      JoinSnoc(f[1..], x, sep);
    }
  }

  // ----- decimal ----------------------------------------------------------------------

  predicate IsDigit(c: char) { '0' <= c <= '9' }

  function DigitVal(c: char): nat
    requires IsDigit(c)
  { c as int - '0' as int }

  function Digit(d: nat): (c: char)
    requires d < 10
    ensures IsDigit(c) && DigitVal(c) == d
  { ('0' as int + d) as char }

  predicate AllDigits(s: string) { forall i :: 0 <= i < |s| ==> IsDigit(s[i]) }

  function Val(s: string): nat
    requires AllDigits(s)
  {
    if s == [] then 0 else 10 * Val(s[..|s| - 1]) + DigitVal(s[|s| - 1])
  }

  /** "%u" */
  function Dec(n: nat): string { if n < 10 then [Digit(n)] else Dec(n / 10) + [Digit(n % 10)] }

  lemma {:induction false} DecVal(n: nat)
    ensures AllDigits(Dec(n)) && Val(Dec(n)) == n
    ensures Dec(n) != [] && (Dec(n)[0] == '0' ==> n == 0)
  {
    if n >= 10 {
      DecVal(n / 10);
      var s := Dec(n);
      assert s[..|s| - 1] == Dec(n / 10) && s[|s| - 1] == Digit(n % 10);
    }
  }

  lemma DecLength(n: nat)
    requires n < 1000
    ensures 1 <= |Dec(n)| <= 3
  {
    assert n >= 10 ==> Dec(n) == Dec(n / 10) + [Digit(n % 10)];
    if n >= 100 {
      var k := n / 10;
      assert Dec(k) == Dec(k / 10) + [Digit(k % 10)] && k / 10 < 10;
    }
  }

  /** More digits do not make a number smaller. */
  lemma {:induction false} ValMonotone(a: string, b: string)
    requires AllDigits(a + b)
    ensures AllDigits(a) && Val(a) <= Val(a + b)
    decreases |b|
  {
    assert forall i :: 0 <= i < |a| ==> (a + b)[i] == a[i];
    if b == [] {
      assert a + b == a;
    } else {
      var s := a + b;
      assert s[..|s| - 1] == a + b[..|b| - 1];
      ValMonotone(a, b[..|b| - 1]);
    }
  }

  // ----- hexadecimal ------------------------------------------------------------------

  /** Position in xdigits_l or xdigits_u. */
  function HexDigit(c: char): Option<nat> {
    if '0' <= c <= '9' then Some(c as int - '0' as int)
    else if 'a' <= c <= 'f' then Some(c as int - 'a' as int + 10)
    else if 'A' <= c <= 'F' then Some(c as int - 'A' as int + 10)
    else None
  }

  const DIGITS := "0123456789abcdef"

  const CAPITALS := "0123456789ABCDEF"

  lemma DigitAt(i: nat)
    requires i < 16
    ensures DIGITS[i] as int == if i < 10 then '0' as int + i else 'a' as int + i - 10
  {
    assert DIGITS[0] == '0' && DIGITS[1] == '1' && DIGITS[2] == '2' && DIGITS[3] == '3' && DIGITS[4] == '4'
      && DIGITS[5] == '5' && DIGITS[6] == '6' && DIGITS[7] == '7' && DIGITS[8] == '8' && DIGITS[9] == '9';
  }

  lemma CapitalAt(i: nat)
    requires i < 16
    ensures CAPITALS[i] as int == if i < 10 then '0' as int + i else 'A' as int + i - 10
  {
    assert CAPITALS[0] == '0' && CAPITALS[1] == '1' && CAPITALS[2] == '2' && CAPITALS[3] == '3' && CAPITALS[4] == '4'
      && CAPITALS[5] == '5' && CAPITALS[6] == '6' && CAPITALS[7] == '7' && CAPITALS[8] == '8' && CAPITALS[9] == '9';
  }

  /** The tables of the source: a digit's value is its place in one of them. */
  lemma HexTables(c: char)
    ensures HexDigit(c).Some? <==> c in DIGITS || c in CAPITALS
    ensures HexDigit(c).Some? ==> var v := HexDigit(c).value; v < 16 && (DIGITS[v] == c || CAPITALS[v] == c)
    ensures IsDigit(c) ==> DigitVal(c) < 10 && DIGITS[DigitVal(c)] == c
  {
    if HexDigit(c).Some? {
      DigitAt(HexDigit(c).value);
      CapitalAt(HexDigit(c).value);
    }
    if c in DIGITS {
      var i :| 0 <= i < |DIGITS| && DIGITS[i] == c;
      DigitAt(i);
    }
    if c in CAPITALS {
      var i :| 0 <= i < |CAPITALS| && CAPITALS[i] == c;
      CapitalAt(i);
    }
    if IsDigit(c) { DigitAt(DigitVal(c)); }
  }

  predicate AllHex(s: string) { forall i :: 0 <= i < |s| ==> HexDigit(s[i]).Some? }

  function HexVal(s: string): nat
    requires AllHex(s)
  {
    if s == [] then 0 else 16 * HexVal(s[..|s| - 1]) + HexDigit(s[|s| - 1]).value
  }

  function HexChar(d: nat): (c: char)
    requires d < 16
    ensures HexDigit(c) == Some(d)
  { if d < 10 then ('0' as int + d) as char else ('a' as int + d - 10) as char }

  /** "%x" */
  function Hex(n: nat): string { if n < 16 then [HexChar(n)] else Hex(n / 16) + [HexChar(n % 16)] }

  lemma {:induction false} HexHexVal(n: nat)
    ensures AllHex(Hex(n)) && HexVal(Hex(n)) == n && Hex(n) != []
  {
    if n >= 16 {
      HexHexVal(n / 16);
      var s := Hex(n);
      assert s[..|s| - 1] == Hex(n / 16) && s[|s| - 1] == HexChar(n % 16);
    }
  }

  lemma {:induction false} HexLength(n: nat, k: nat, bound: nat)
    requires k >= 1 && n < bound && bound == Pow16(k)
    ensures 1 <= |Hex(n)| <= k
    decreases k
  {
    if n >= 16 {
      assert k > 1;
      HexLength(n / 16, k - 1, Pow16(k - 1));
    }
  }

  function Pow16(k: nat): nat { if k == 0 then 1 else 16 * Pow16(k - 1) }
}
