// SLPCompareString: comparison of strings after trimming, unescaping and folding white space.
module StringCompare {
  import opened Bytes

  const BACKSLASH: byte := 92

  /** isspace and tolower of the C locale. */
  predicate IsSpace(c: byte) {
    c == 32 || 9 <= c <= 13
  }

  function ToLower(c: byte): byte {
    if 65 <= c <= 90 then c + 32 else c
  }

  function Lower(s: seq<byte>): (r: seq<byte>)
    ensures |r| == |s| && forall i :: 0 <= i < |s| ==> r[i] == ToLower(s[i])
  {
    seq(|s|, i requires 0 <= i < |s| => ToLower(s[i]))
  }

  /** usaupr: clears the case bit of 0x40-0x7F. */
  function Usaupr(c: byte): byte {
    if 96 <= c < 128 then c - 32 else c
  }

  predicate IsHex(c: byte) {
    48 <= Usaupr(c) <= 57 || 65 <= Usaupr(c) <= 70
  }

  function Hex2Bin(c: byte): (d: nat)
    requires IsHex(c)
    ensures d < 16
  {
    if Usaupr(c) <= 57 then Usaupr(c) - 48 else Usaupr(c) - 55
  }

  // ----- Unescaping -----

  function Escaped(hi: byte, lo: byte): byte
    requires IsHex(hi) && IsHex(lo)
  {
    Hex2Bin(hi) * 16 + Hex2Bin(lo)
  }

  predicate EscapeAt(s: seq<byte>) {
    |s| >= 3 && s[0] == BACKSLASH && IsHex(s[1]) && IsHex(s[2])
  }

  /** A string with every escape sequence replaced; a backslash that starts none stands for itself. */
  function Unescaped(s: seq<byte>): (r: seq<byte>)
    ensures |r| <= |s| && (s != [] ==> r != [])
  {
    if s == [] then []
    else if EscapeAt(s) then [Escaped(s[1], s[2])] + Unescaped(s[3..])
    else [s[0]] + Unescaped(s[1..])
  }

  /** One step of the unescaper at position `i`, after the bytes `done`: the byte it yields and how far it moves. */
  lemma UnescapedAt(done: seq<byte>, s: seq<byte>, i: nat)
    requires i < |s|
    ensures var esc := i + 3 <= |s| && s[i] == BACKSLASH && IsHex(s[i + 1]) && IsHex(s[i + 2]);
            done + Unescaped(s[i..]) == if esc then done + [Escaped(s[i + 1], s[i + 2])] + Unescaped(s[i + 3..])
                                        else done + [s[i]] + Unescaped(s[i + 1..])
  {
    var t := s[i..];
    assert t[1..] == s[i + 1..];
    if |t| >= 3 { assert t[3..] == s[i + 3..] && t[1] == s[i + 1] && t[2] == s[i + 2]; }
    forall c: byte, r: seq<byte> ensures done + ([c] + r) == done + [c] + r {}
  }

  /** SLPUnescapeInPlace on the first `len` bytes of `str`. */
  method UnescapeInPlace(len: nat, str: array<byte>) returns (n: nat)
    requires len <= str.Length
    modifies str
    ensures n <= len && str[..n] == Unescaped(old(str[..len]))
    ensures forall k :: len <= k < str.Length ==> str[k] == old(str[k])
  {
    hide Unescaped, Hex2Bin, IsHex, Escaped;
    var fp, tp := 0, 0;
    n := len;
    ghost var was := str[..len];
    assert str[..0] + Unescaped(was[0..]) == Unescaped(was) by { assert was[0..] == was; }
    while fp < len
      invariant 0 <= tp <= fp <= len && n == tp + (len - fp)
      invariant forall k :: fp <= k < str.Length ==> str[k] == old(str[k])
      invariant str[..tp] + Unescaped(was[fp..]) == Unescaped(was)
    {
      ghost var done := str[..tp];
      UnescapedAt(done, was, fp);
      var c := str[fp];
      fp := fp + 1;
      if fp + 2 <= len && c == BACKSLASH && str[fp] != 0 && IsHex(str[fp]) && IsHex(str[fp + 1]) {
        c := Escaped(str[fp], str[fp + 1]);
        fp := fp + 2;
        n := n - 2;
      } else if fp + 2 <= len {
        NulIsNotHex(str[fp]);
      }
      str[tp] := c;
      tp := tp + 1;
      assert str[..tp] == done + [c];
    }
    assert Unescaped(was[len..]) == [] by { assert was[len..] == []; UnescapedNil(); }
  }

  lemma NulIsNotHex(c: byte)
    ensures c == 0 ==> !IsHex(c)
  {
  }

  lemma UnescapedNil()
    ensures Unescaped([]) == []
  {
  }

  // ----- White space -----

  function SkipSpaces(s: seq<byte>, p: nat): (q: nat)
    requires p <= |s|
    ensures p <= q <= |s|
    decreases |s| - p
  {
    if p < |s| && IsSpace(s[p]) then SkipSpaces(s, p + 1) else p
  }

  /** Moving the bytes from `q` on down to `w`, inside the buffer. */
  function Shifted(s: seq<byte>, w: nat, q: nat): (r: seq<byte>)
    requires w <= q <= |s|
    ensures |r| == |s|
  {
    s[..w] + s[q..] + s[w + |s| - q..]
  }

  /**
   * What the folding loop leaves: it goes on after the old end of a run although the bytes behind it have
   * moved down, so a run that moves under the scan position is not folded. It goes on to the old end of the
   * buffer, too, so runs in the bytes left there by a move are taken off the length of the text.
   */
  function FoldFrom(s: seq<byte>, p: nat, len: nat): (r: seq<byte>)
    requires len <= |s| <= len + p && (p > 0 ==> len > 0)
    ensures s != [] ==> r != []
    decreases |s| - p
  {
    if p >= |s| then s[..len]
    else if IsSpace(s[p]) then
      var q := SkipSpaces(s, p + 1);
      FoldFrom(Shifted(s, p + 1, q), q + 1, len - (q - (p + 1)))
    else FoldFrom(s, p + 1, len)
  }

  function Folded(s: seq<byte>): (r: seq<byte>)
    ensures s != [] ==> r != []
  {
    FoldFrom(s, 0, |s|)
  }

  /** The loop is not a full folder: of "a  b  c" it leaves "a b  c", since the second run moves under the scan. */
  lemma FoldIsPartial()
    ensures Folded([97, 32, 32, 98, 32, 32, 99]) == [97, 32, 98, 32, 32, 99]
  {
    var s: seq<byte> := [97, 32, 32, 98, 32, 32, 99];
    var t: seq<byte> := [97, 32, 98, 32, 32, 99, 99];
    assert SkipSpaces(s, 2) == 3 && Shifted(s, 2, 3) == t;
    assert FoldFrom(s, 0, 7) == FoldFrom(s, 1, 7) == FoldFrom(t, 4, 6);
    assert SkipSpaces(t, 5) == 5 && Shifted(t, 5, 5) == t;
    assert FoldFrom(t, 4, 6) == FoldFrom(t, 6, 6) == FoldFrom(t, 7, 6) == t[..6];
  }

  /** SLPFoldWhiteSpace on the first `len0` bytes of `str`. */
  method FoldWhiteSpace(len0: nat, str: array<byte>) returns (len: nat)
    requires len0 <= str.Length
    modifies str
    ensures len <= len0 && str[..len] == Folded(old(str[..len0]))
  {
    hide Shifted, SkipSpaces;
    var p := 0;
    len := len0;
    ghost var goal := Folded(str[..len0]);
    while p < len0
      invariant len <= len0 <= len + p && (p > 0 ==> len > 0)
      invariant FoldFrom(str[..len0], p, len) == goal
      decreases len0 - p
    {
      if IsSpace(str[p]) {
        var ws2p := p + 1;
        p := ScanSpaces(str, ws2p, len0);
        len := len - (p - ws2p);
        Move(str, ws2p, p, len0);
      }
      p := p + 1;
    }
    assert str[..len0][..len] == str[..len];
  }

  /** Scan till a byte that is not white space. */
  method ScanSpaces(str: array<byte>, from: nat, end: nat) returns (p: nat)
    requires from <= end <= str.Length
    ensures p == SkipSpaces(str[..end], from)
  {
    p := from;
    while p < end && IsSpace(str[p])
      invariant from <= p <= end && SkipSpaces(str[..end], p) == SkipSpaces(str[..end], from)
    {
      p := p + 1;
    }
  }

  /** memmove(str + to, str + from, end - from). */
  method Move(str: array<byte>, to: nat, from: nat, end: nat)
    requires to <= from <= end <= str.Length
    modifies str
    ensures str[..end] == Shifted(old(str[..end]), to, from) && str[end..] == old(str[end..])
  {
    hide Shifted;
    ghost var was, n := str[..], end - from;
    forall k | 0 <= k < end - from { str[to + k] := str[from + k]; }
    assert str[to..to + n] == was[from..end] && str[..to] == was[..to] && str[to + n..] == was[to + n..];
    MovedIsShifted(was[..end], str[..end], to, from);
    assert str[end..] == was[end..];
  }

  lemma MovedIsShifted(was: seq<byte>, now: seq<byte>, to: nat, from: nat)
    requires to <= from <= |was| == |now|
    requires var n := |was| - from;
      now[..to] == was[..to] && now[to..to + n] == was[from..] && now[to + n..] == was[to + n..]
    ensures now == Shifted(was, to, from)
  {
    var n := |was| - from;
    assert now == now[..to] + now[to..to + n] + now[to + n..];
  }

  // ----- Comparing -----

  /** The part strncasecmp looks at: up to the first NUL. */
  function UptoNul(s: seq<byte>): seq<byte> {
    if s == [] || s[0] == 0 then [] else [s[0]] + UptoNul(s[1..])
  }

  /** strncasecmp of two buffers of equal length. */
  function CaseCompare(s: seq<byte>, t: seq<byte>): int
    requires |s| == |t|
  {
    if s == [] then 0
    else if ToLower(s[0]) != ToLower(t[0]) then ToLower(s[0]) as int - ToLower(t[0]) as int
    else if s[0] == 0 then 0
    else CaseCompare(s[1..], t[1..])
  }

  lemma {:induction false} CaseCompareZero(s: seq<byte>, t: seq<byte>)
    requires |s| == |t|
    ensures CaseCompare(s, t) == 0 <==> Lower(UptoNul(s)) == Lower(UptoNul(t))
  {
    if s != [] {
      var a, b := Lower(UptoNul(s)), Lower(UptoNul(t));
      CaseCompareZero(s[1..], t[1..]);
      if s[0] != 0 && t[0] != 0 {
        assert a == [ToLower(s[0])] + Lower(UptoNul(s[1..]));
        assert b == [ToLower(t[0])] + Lower(UptoNul(t[1..]));
        assert a[1..] == Lower(UptoNul(s[1..])) && b[1..] == Lower(UptoNul(t[1..]));
      } else if s[0] != 0 {
        assert |a| > 0 && |b| == 0;
      } else if t[0] != 0 {
        assert |b| > 0 && |a| == 0;
      }
    }
  }

  /** The position that decides: the letters are equal up to case before it, and there is no NUL. */
  ghost predicate DecidesAt(s: seq<byte>, t: seq<byte>, k: nat) {
    && k < |s| == |t| && (forall i :: 0 <= i < k ==> ToLower(s[i]) == ToLower(t[i]) && s[i] != 0)
    && ToLower(s[k]) != ToLower(t[k])
  }

  /** A result other than 0 has the sign of the first difference. */
  lemma {:induction false} CaseCompareSign(s: seq<byte>, t: seq<byte>) returns (k: nat)
    requires |s| == |t| && CaseCompare(s, t) != 0
    ensures DecidesAt(s, t, k) && (CaseCompare(s, t) < 0 <==> ToLower(s[k]) < ToLower(t[k]))
  {
    if ToLower(s[0]) != ToLower(t[0]) {
      k := 0;
    } else {
      var j := CaseCompareSign(s[1..], t[1..]);
      k := j + 1;
      forall i | 0 <= i < k ensures ToLower(s[i]) == ToLower(t[i]) && s[i] != 0 {
        assert i > 0 ==> s[i] == s[1..][i - 1] && t[i] == t[1..][i - 1];
      }
    }
  }

  function TrimFront(s: seq<byte>): seq<byte> {
    if s != [] && IsSpace(s[0]) then TrimFront(s[1..]) else s
  }

  function TrimBack(s: seq<byte>): seq<byte> {
    if s != [] && IsSpace(s[|s| - 1]) then TrimBack(s[..|s| - 1]) else s
  }

  function Trimmed(s: seq<byte>): seq<byte> {
    TrimBack(TrimFront(s))
  }

  /** What SLPCompareString makes of a string: two strings compare equal exactly when this is the same. */
  datatype Canon = Canon(len: nat, text: seq<byte>)

  function CanonOf(s: seq<byte>): (c: Canon)
    ensures c.len == 0 <==> Trimmed(s) == []
  {
    var t := Trimmed(s);
    if t == [] then Canon(0, []) else
      var f := Folded(Unescaped(t));
      Canon(|f|, Lower(UptoNul(f)))
  }

  /** SLPCompareString() == 0. */
  predicate Same(s: seq<byte>, t: seq<byte>) {
    CanonOf(s) == CanonOf(t)
  }

  method TrimLoops(str: seq<byte>) returns (s: seq<byte>)
    ensures s == Trimmed(str)
  {
    s := str;
    while |s| > 0 && IsSpace(s[0])
      invariant TrimFront(s) == TrimFront(str)
      decreases |s|
    {
      s := s[1..];
    }
    while |s| > 0 && IsSpace(s[|s| - 1])
      invariant TrimBack(s) == Trimmed(str)
      decreases |s|
    {
      s := s[..|s| - 1];
    }
  }

  /** The modifiable copy of a trimmed string, unescaped and folded in place. */
  method Normalize(s: seq<byte>) returns (cpy: array<byte>, len: nat)
    ensures fresh(cpy) && len <= cpy.Length && cpy[..len] == Folded(Unescaped(s))
  {
    cpy := new byte[|s|](i requires 0 <= i < |s| => s[i]);
    assert cpy[..|s|] == s;
    len := UnescapeInPlace(|s|, cpy);
    len := FoldWhiteSpace(len, cpy);
  }

  /** The length and the bytes that are compared in the end. */
  function Compared(s: seq<byte>): seq<byte> {
    if Trimmed(s) == [] then [] else Folded(Unescaped(Trimmed(s)))
  }

  /**
   * SLPCompareString: zero exactly for strings with the same canonical form. Of two others an empty one is less, the
   * longer one is less, and the first difference decides between texts of one length.
   */
  method CompareString(str1: seq<byte>, str2: seq<byte>) returns (result: int)
    ensures result == 0 <==> Same(str1, str2)
    ensures var s, t := Compared(str1), Compared(str2);
      && (|s| == 0 < |t| ==> result < 0) && (|t| == 0 < |s| ==> result > 0)
      && (0 < |s| < |t| ==> result > 0) && (0 < |t| < |s| ==> result < 0)
      && (|s| == |t| ==> result == CaseCompare(s, t))
  {
    var s := TrimLoops(str1);
    var t := TrimLoops(str2);
    if |s| == 0 || |t| == 0 {
      if |s| == |t| { return 0; }
      if |s| < |t| { return -1; }
      return 1;
    }
    var cpy1, len1 := Normalize(s);
    var cpy2, len2 := Normalize(t);
    if len1 == len2 {
      CaseCompareZero(cpy1[..len1], cpy2[..len2]);
      return CaseCompare(cpy1[..len1], cpy2[..len2]);
    } else if len1 > len2 {
      return -1;
    } else {
      return 1;
    }
  }
}
