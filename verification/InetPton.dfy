/** Text to address: inet_pton6 and uv_inet_pton (deps/libuv/src/inet.c:157-183, 225-309). */
module InetPton {
  import opened InetText
  import opened Inet4
  import opened Inet6

  /**
   * The overlapping shift done by hand: the n bytes from colonp up to tp move to the end
   * of tmp, the last one first, and the bytes they leave become zero.
   */
  method ShiftTail(tmp: array<byte>, colonp: nat, tp: nat)
    requires tmp.Length == 16 && colonp <= tp < 16
    requires forall k :: tp <= k < 16 ==> tmp[k] == 0
    modifies tmp
    ensures Some(tmp[..]) == Expand(old(tmp[..tp]), Some(colonp))
  {
    var endp, n := 16, tp - colonp;
    ghost var b := tmp[..tp];
    for i := 1 to n + 1
      invariant forall k {:trigger tmp[k]} :: 0 <= k <= tp - i ==> tmp[k] == b[k]
      invariant forall k {:trigger tmp[k]} :: tp - i < k <= 16 - i && k < 16 ==> tmp[k] == 0
      invariant forall k {:trigger tmp[k]} :: 16 - i < k < 16 ==> tmp[k] == b[k - (16 - tp)]
    {
      tmp[endp - i] := tmp[colonp + n - i];
      tmp[colonp + n - i] := 0;
    }
    Spread(b, colonp, tmp[..]);
  }

  /** What the shift leaves, byte by byte. */
  lemma Spread(b: seq<byte>, k: nat, all: seq<byte>)
    requires k <= |b| < 16 == |all|
    requires forall j {:trigger all[j]} :: 0 <= j < k ==> all[j] == b[j]
    requires forall j {:trigger all[j]} :: k <= j < k + 16 - |b| ==> all[j] == 0
    requires forall j {:trigger all[j]} :: k + 16 - |b| <= j < 16 ==> all[j] == b[j - (16 - |b|)]
    ensures all == b[..k] + Zeros(16 - |b|) + b[k..]
  {
  }

  /** Stores the 16-bit val at tmp[tp]. */
  method Store(tmp: array<byte>, tp: nat, val: nat)
    requires tp + 2 <= tmp.Length
    modifies tmp
    ensures tmp[..tp + 2] == old(tmp[..tp]) + Word(val)
    ensures forall k :: tp + 2 <= k < tmp.Length ==> tmp[k] == old(tmp[k])
  {
    tmp[tp] := val / 256 % 256;
    tmp[tp + 1] := val % 256;
  }

  /** The part after the loop; seen says how many digits of val are pending. */
  method Finish(tmp: array<byte>, at: nat, colonp: Option<nat>, seen: nat, val: nat, ghost g: string)
    returns (code: Code)
    requires tmp.Length == 16 && at <= 16 && (colonp.Some? ==> colonp.value <= at)
    requires forall k :: at <= k < 16 ==> tmp[k] == 0
    requires AllHex(g) && seen == |g| && val == HexVal(g)
    modifies tmp
    ensures code == match Close(old(tmp[..at]), colonp, g) case Some(_) => OK case None => EINVAL
    ensures code == OK ==> Close(old(tmp[..at]), colonp, g) == Some(tmp[..])
  {
    var tp := at;
    ghost var b := tmp[..at];
    if seen != 0 {
      if tp + 2 > 16 { return EINVAL; }
      Store(tmp, tp, val);
      b := b + Word(val);
      tp := tp + 2;
    }
    assert tmp[..tp] == b;
    match colonp {
      case Some(k) =>
        if tp == 16 { return EINVAL; }
        ShiftTail(tmp, k, tp);
        tp := 16;
      case None =>
    }
    if tp != 16 { return EINVAL; }
    assert tmp[..16] == tmp[..];
    return OK;
  }

  /** An embedded IPv4 address ends the text. */
  method QuadTail(src: CString, curtok: nat, tmp: array<byte>, at: nat, colonp: Option<nat>) returns (code: Code)
    requires curtok <= |src| && tmp.Length == 16 && at + 4 <= 16
    requires colonp.Some? ==> colonp.value <= at
    requires forall k :: at <= k < 16 ==> tmp[k] == 0
    modifies tmp
    ensures var r := match Parse4(src[curtok..])
        case Some(q) => Close(old(tmp[..at]) + q, colonp, [])
        case None => None;
      && code == (match r case Some(_) => OK case None => EINVAL)
      && (code == OK ==> r == Some(tmp[..]))
  {
    ghost var b := tmp[..at];
    var err := Pton4(src, curtok, tmp, at);
    if err != OK { return EINVAL; }
    assert tmp[..at + 4] == b + tmp[at..at + 4];
    assert forall k :: at + 4 <= k < 16 ==> tmp[k] == tmp[at + 4..][k - (at + 4)];
    code := Finish(tmp, at + 4, colonp, 0, 0, []);
  }

  /** The scanner at a hexadecimal digit: the current group grows by it. */
  lemma DigitOn(src: CString, curtok: nat, i: nat, b: seq<byte>, colonp: Option<nat>)
    requires curtok <= i < |src| && AllHex(src[curtok..i]) && HexDigit(src[i]).Some?
    requires |b| <= 16 && (colonp.Some? ==> colonp.value <= |b|)
    ensures AllHex(src[curtok..i + 1])
    ensures HexVal(src[curtok..i + 1]) == HexVal(src[curtok..i]) * 16 + HexDigit(src[i]).value
    ensures Scan6(src[i..], b, colonp, src[curtok..i])
         == if i + 1 - curtok > 4 then None else Scan6(src[i + 1..], b, colonp, src[curtok..i + 1])
  {
    var g, h := src[curtok..i], src[curtok..i + 1];
    assert h == g + [src[i]] && h[..|h| - 1] == g;
    assert src[i..][0] == src[i] && src[i..][1..] == src[i + 1..];
  }

  /** The scanner at a colon that may not stand there. */
  lemma ColonBad(src: CString, curtok: nat, i: nat, b: seq<byte>, colonp: Option<nat>)
    requires curtok <= i < |src| && AllHex(src[curtok..i]) && src[i] == ':'
    requires |b| <= 16 && (colonp.Some? ==> colonp.value <= |b|)
    requires if i == curtok then colonp.Some? else i + 1 == |src| || |b| + 2 > 16
    ensures Scan6(src[i..], b, colonp, src[curtok..i]) == None
  {
  }

  /** The scanner at the second of two colons: the run of zeros stands here. */
  lemma ZerosOn(src: CString, i: nat, b: seq<byte>)
    requires i < |src| && src[i] == ':' && |b| <= 16
    ensures Scan6(src[i..], b, None, src[i..i]) == Scan6(src[i + 1..], b, Some(|b|), src[i + 1..i + 1])
  {
    assert src[i..][1..] == src[i + 1..] && src[i + 1..i + 1] == [];
  }

  /** The scanner at the colon that ends a group. */
  lemma GroupOn(src: CString, curtok: nat, i: nat, b: seq<byte>, colonp: Option<nat>, more: seq<byte>)
    requires curtok < i < |src| && AllHex(src[curtok..i]) && src[i] == ':' && i + 1 < |src|
    requires |b| + 2 <= 16 && (colonp.Some? ==> colonp.value <= |b|)
    requires more == b + Word(HexVal(src[curtok..i]))
    ensures Scan6(src[i..], b, colonp, src[curtok..i]) == Scan6(src[i + 1..], more, colonp, src[i + 1..i + 1])
  {
    assert src[i..][1..] == src[i + 1..] && src[i + 1..i + 1] == [];
  }

  /** The scanner at any other character: only a dot with room for four bytes can follow. */
  lemma OtherOn(src: CString, curtok: nat, i: nat, b: seq<byte>, colonp: Option<nat>)
    requires curtok <= i < |src| && AllHex(src[curtok..i]) && src[i] != ':' && HexDigit(src[i]).None?
    requires |b| <= 16 && (colonp.Some? ==> colonp.value <= |b|)
    ensures Scan6(src[i..], b, colonp, src[curtok..i])
         == if src[i] == '.' && |b| + 4 <= 16 then
              match Parse4(src[curtok..]) case Some(q) => Close(b + q, colonp, []) case None => None
            else None
  {
    assert src[i..][0] == src[i];
    assert src[curtok..i] + src[i..] == src[curtok..];
  }

  /** Writes the 16 bytes at dst when src is an IPv6 address, and leaves dst alone otherwise. */
  method Pton6(src: CString, dst: array<byte>) returns (code: Code)
    requires dst.Length == 16
    modifies dst
    ensures code == match Parse6(src) case Some(_) => OK case None => EINVAL
    ensures code == OK ==> Parse6(src) == Some(dst[..])
    ensures code != OK ==> dst[..] == old(dst[..])
  {
    var tmp := new byte[16](_ => 0);
    var tp, colonp: Option<nat>, i := 0, None, 0;
    if CharAt(src, i) == ':' {
      i := i + 1;
      if CharAt(src, i) != ':' { return EINVAL; }
    }
    var curtok, seen, val := i, 0, 0;
    assert src[0..] == src && tmp[..0] == [] && src[i..i] == [];
    while CharAt(src, i) != '\0'
      invariant curtok <= i <= |src| && 0 <= tp <= 16 && seen <= 4
      invariant colonp.Some? ==> colonp.value <= tp
      invariant forall k :: tp <= k < 16 ==> tmp[k] == 0
      invariant AllHex(src[curtok..i]) && seen == i - curtok && val == HexVal(src[curtok..i])
      invariant Parse6(src) == Scan6(src[i..], tmp[..tp], colonp, src[curtok..i])
      invariant dst[..] == old(dst[..])
      decreases |src| - i
    {
      var ch := src[i];
      ghost var at, from, b := i, curtok, tmp[..tp];
      i := i + 1;
      var pch := HexDigit(ch);
      if pch.Some? {
        DigitOn(src, curtok, at, b, colonp);
        val := val * 16 + pch.value;
        seen := seen + 1;
        if seen > 4 { return EINVAL; }
        continue;
      }
      if ch == ':' {
        curtok := i;
        if seen == 0 {
          if colonp.Some? {
            ColonBad(src, from, at, b, colonp);
            return EINVAL;
          }
          ZerosOn(src, at, b);
          colonp := Some(tp);
          continue;
        } else if CharAt(src, i) == '\0' {
          ColonBad(src, from, at, b, colonp);
          return EINVAL;
        }
        if tp + 2 > 16 {
          ColonBad(src, from, at, b, colonp);
          return EINVAL;
        }
        Store(tmp, tp, val);
        tp := tp + 2;
        GroupOn(src, from, at, b, colonp, tmp[..tp]);
        seen := 0;
        val := 0;
        continue;
      }
      OtherOn(src, curtok, at, b, colonp);
      if ch == '.' && tp + 4 <= 16 {
        code := QuadTail(src, curtok, tmp, tp, colonp);
        if code == OK { Copy16(dst, tmp); }
        return code;
      }
      return EINVAL;
    }
    assert src[i..] == [];
    code := Finish(tmp, tp, colonp, seen, val, src[curtok..i]);
    if code == OK { Copy16(dst, tmp); }
  }

  method Copy16(dst: array<byte>, tmp: array<byte>)
    requires dst.Length == tmp.Length == 16 && dst != tmp
    modifies dst
    ensures dst[..] == tmp[..] == old(tmp[..])
  {
    forall k | 0 <= k < 16 { dst[k] := tmp[k]; }
  }

  // ----- uv_inet_pton -----------------------------------------------------------------

  lemma QuadBound(q: string)
    requires IsQuad(q)
    ensures |q| <= 15
  {
    var f := Split(q, '.');
    forall i | 0 <= i < |f| ensures |f[i]| <= 3 { OctetLength(f[i]); }
    JoinBound(f, '.', 3);
    JoinSplit(q, '.');
  }

  /** Five characters for every two bytes, and six more for a dotted quad, are enough. */
  lemma {:induction false} PiecesBound(f: seq<string>, quad: bool)
    requires Pieces(f, quad)
    ensures 2 * |Join(f, ':')| <= 5 * |Bytes(f, quad)| + (if quad then 12 else 0)
    ensures f != [] ==> 2 * |Join(f, ':')| + 2 <= 5 * |Bytes(f, quad)| + (if quad then 12 else 0)
    decreases |f|
  {
    if |f| == 1 {
      if !IsGroup(f[0]) { QuadBound(f[0]); }
    } else if f != [] {
      PiecesBound(f[1..], quad);
    }
  }

  /** No IPv6 address is longer than the buffer of uv_inet_pton allows. */
  lemma AddressFits(s: string)
    requires Parse6(s).Some?
    ensures |s| <= 45
  {
    var a := AcceptedGrammar(s, Parse6(s).value);
    PiecesBound(a.left, !a.gap);
    PiecesBound(a.right, true);
  }

  /** The part of s before its first '%', all of s when it has none. */
  function BeforeZone(s: CString): (r: CString)
    ensures r <= s && '%' !in r && (|r| < |s| ==> s[|r|] == '%')
  {
    if s == [] || s[0] == '%' then [] else
      var t: CString := s[1..];
      [s[0]] + BeforeZone(t)
  }

  /** uv_inet_pton; a zone index behind '%' is ignored. */
  method Pton(af: Family, src: Option<CString>, dst: array?<byte>) returns (code: Code)
    requires dst != null && af == INET ==> dst.Length == 4
    requires dst != null && af == INET6 ==> dst.Length == 16
    modifies dst
    ensures src == None || dst == null ==> code == EINVAL
    ensures src.Some? && dst != null && af == OtherFamily ==> code == EAFNOSUPPORT
    ensures src.Some? && dst != null && af == INET ==>
      code == (match Parse4(src.value) case Some(_) => OK case None => EINVAL)
    ensures src.Some? && dst != null && af == INET && code == OK ==> Parse4(src.value) == Some(dst[..])
    ensures src.Some? && dst != null && af == INET6 ==>
      code == (match Parse6(BeforeZone(src.value)) case Some(_) => OK case None => EINVAL)
    ensures src.Some? && dst != null && af == INET6 && code == OK ==>
      Parse6(BeforeZone(src.value)) == Some(dst[..])
    ensures code != OK && dst != null ==> dst[..] == old(dst[..])
  {
    if src == None || dst == null { return EINVAL; }
    match af {
      case INET =>
        assert src.value[0..] == src.value;
        code := Pton4(src.value, 0, dst, 0);
        assert dst[0..0 + 4] == dst[..];
      case INET6 =>
        var s := BeforeZone(src.value);
        if |s| < |src.value| && |s| > 46 - 1 {
          if Parse6(s).Some? { AddressFits(s); }
          return EINVAL;
        }
        code := Pton6(s, dst);
      case OtherFamily =>
        code := EAFNOSUPPORT;
    }
  }
}
