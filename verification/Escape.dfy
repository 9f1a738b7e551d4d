// SLPEscape, SLPUnescape and SLPParseAttrs: attribute lists with escaped ids and values.
module Escape {
  import opened Bytes
  import opened StringCompare

  const LPAREN: byte := 40
  const RPAREN: byte := 41
  const EQUALS: byte := 61

  /** One of "(),\!<=>~". */
  predicate Reserved(c: byte) {
    c == LPAREN || c == RPAREN || c == COMMA || c == BACKSLASH || c == 33 || c == 60
    || c == EQUALS || c == 62 || c == 126
  }

  predicate NeedsEscape(c: byte) {
    Reserved(c) || c <= 0x1F || c == 0x7F
  }

  /** One of "\r\n\t_". */
  predicate BadTag(c: byte) {
    c == 13 || c == 10 || c == 9 || c == 95
  }

  ghost predicate GoodTag(s: seq<byte>) {
    forall i :: 0 <= i < |s| ==> !BadTag(s[i])
  }

  // ----- Escaping -----

  function HexChar(d: nat): byte
    requires d < 16
  {
    if d <= 9 then 48 + d else 55 + d
  }

  /** The three bytes of an escape; the first digit is computed as (c & 0xF0) / 0x0F. */
  function EscapeByte(c: byte): seq<byte>
    requires NeedsEscape(c)
  {
    [BACKSLASH, HexChar((c as int - c as int % 16) / 15), HexChar(c as int % 16)]
  }

  function EscapeText(s: seq<byte>): seq<byte> {
    if s == [] then []
    else (if NeedsEscape(s[0]) then EscapeByte(s[0]) else [s[0]]) + EscapeText(s[1..])
  }

  function CountEscapes(s: seq<byte>): nat {
    if s == [] then 0 else (if NeedsEscape(s[0]) then 1 else 0) + CountEscapes(s[1..])
  }

  lemma {:induction false} EscapeLength(s: seq<byte>)
    ensures |EscapeText(s)| == |s| + 2 * CountEscapes(s)
  {
    if s != [] { EscapeLength(s[1..]); }
  }

  lemma EscapeStep(s: seq<byte>, i: nat)
    requires i < |s|
    ensures EscapeText(s[i..]) == (if NeedsEscape(s[i]) then EscapeByte(s[i]) else [s[i]]) + EscapeText(s[i + 1..])
    ensures CountEscapes(s[i..]) == (if NeedsEscape(s[i]) then 1 else 0) + CountEscapes(s[i + 1..])
  {
    assert s[i..][1..] == s[i + 1..];
  }

  /** The first loop of SLPEscape. */
  method CheckAndCount(s: seq<byte>, isTag: bool) returns (ok: bool, amount: nat)
    ensures ok <==> isTag ==> GoodTag(s)
    ensures ok ==> amount == CountEscapes(s)
  {
    hide CountEscapes, NeedsEscape, BadTag;
    amount := 0;
    var i := 0;
    assert s[0..] == s;
    while i < |s|
      invariant i <= |s| && amount + CountEscapes(s[i..]) == CountEscapes(s)
      invariant isTag ==> forall k :: 0 <= k < i ==> !BadTag(s[k])
    {
      EscapeStep(s, i);
      if isTag && BadTag(s[i]) { return false, amount; }
      if NeedsEscape(s[i]) { amount := amount + 1; }
      i := i + 1;
    }
    assert CountEscapes(s[|s|..]) == 0 by { NoEscapes(s[|s|..]); }
    return true, amount;
  }

  lemma NoEscapes(s: seq<byte>)
    requires s == []
    ensures EscapeText(s) == [] && CountEscapes(s) == 0
  {
  }

  /** SLPEscape: the escaped text fills the allocated buffer, with its terminator, exactly. */
  method SLPEscape(s: seq<byte>, isTag: bool) returns (out: Option<array<byte>>)
    ensures out == None <==> isTag && !GoodTag(s)
    ensures out.Some? ==> fresh(out.value) && out.value[..] == EscapeText(s) + [0]
  {
    hide EscapeText, CountEscapes, NeedsEscape, EscapeByte, GoodTag;
    var ok, amount := CheckAndCount(s, isTag);
    if !ok { return None; }
    var buf := new byte[|s| + amount * 2 + 1](_ => 0);
    EscapeLength(s);
    var i, o := 0, 0;
    assert s[0..] == s;
    while i < |s|
      invariant i <= |s| && 0 <= o < buf.Length && o + |EscapeText(s[i..])| + 1 == buf.Length
      invariant buf[..o] + EscapeText(s[i..]) == EscapeText(s)
    {
      EscapeStep(s, i);
      ghost var done, rest := buf[..o], EscapeText(s[i + 1..]);
      var piece := if NeedsEscape(s[i]) then EscapeByte(s[i]) else [s[i]];
      o := Store(buf, o, piece);
      assert done + (piece + rest) == done + piece + rest;
      i := i + 1;
    }
    NoEscapes(s[|s|..]);
    buf[o] := 0;
    assert buf[..] == buf[..o] + [0];
    return Some(buf);
  }

  method Store(buf: array<byte>, o: nat, piece: seq<byte>) returns (next: nat)
    requires o + |piece| <= buf.Length
    modifies buf
    ensures next == o + |piece| && buf[..next] == old(buf[..o]) + piece
  {
    forall k | 0 <= k < |piece| { buf[o + k] := piece[k]; }
    next := o + |piece|;
  }

  // ----- Unescaping -----

  /** The digits SLPUnescape knows: upper case only. */
  predicate UpperHex(c: byte) {
    48 <= c <= 57 || 65 <= c <= 70
  }

  function UpperHexValue(c: byte): (d: nat)
    requires UpperHex(c)
    ensures d < 16
  {
    if c <= 57 then c - 48 else c - 55
  }

  /** The text without escapes; none if a backslash does not start an escape. */
  function UnescapeText(s: seq<byte>): Option<seq<byte>> {
    if s == [] then Some([])
    else if s[0] != BACKSLASH then
      match UnescapeText(s[1..])
      case None => None
      case Some(r) => Some([s[0]] + r)
    else if |s| < 3 || !UpperHex(s[1]) || !UpperHex(s[2]) then None
    else
      match UnescapeText(s[3..])
      case None => None
      case Some(r) => Some([UpperHexValue(s[1]) * 16 + UpperHexValue(s[2])] + r)
  }

  /** UnescapeText with the bytes before `s` already produced. */
  function Continued(done: seq<byte>, s: seq<byte>): Option<seq<byte>> {
    match UnescapeText(s)
    case None => None
    case Some(r) => Some(done + r)
  }

  lemma ContinuedStep(done: seq<byte>, s: seq<byte>, i: nat)
    requires i < |s|
    ensures Continued(done, s[i..]) ==
      if s[i] != BACKSLASH then Continued(done + [s[i]], s[i + 1..])
      else if i + 3 > |s| || !UpperHex(s[i + 1]) || !UpperHex(s[i + 2]) then None
      else Continued(done + [UpperHexValue(s[i + 1]) * 16 + UpperHexValue(s[i + 2])], s[i + 3..])
  {
    var t := s[i..];
    assert t[1..] == s[i + 1..];
    if |t| >= 3 { assert t[3..] == s[i + 3..] && t[1] == s[i + 1] && t[2] == s[i + 2]; }
    assert forall x: byte, r: seq<byte> :: done + ([x] + r) == done + [x] + r;
  }

  lemma ContinuedEnd(done: seq<byte>, s: seq<byte>)
    requires s == []
    ensures Continued(done, s) == Some(done)
  {
    assert done + [] == done;
  }

  /** Where the scan refuses the string: at the first backslash without two digits behind it, or nowhere. */
  function Refusal(s: seq<byte>): (r: nat)
    ensures r <= |s|
  {
    if s == [] then 0
    else if s[0] != BACKSLASH then 1 + Refusal(s[1..])
    else if |s| < 3 || !UpperHex(s[1]) || !UpperHex(s[2]) then 0
    else 3 + Refusal(s[3..])
  }

  /** How many bytes it has stored by then. */
  function Stored(s: seq<byte>): (n: nat)
    ensures n <= |s|
  {
    if s == [] then 0
    else if s[0] != BACKSLASH then 1 + Stored(s[1..])
    else if |s| < 3 || !UpperHex(s[1]) || !UpperHex(s[2]) then 0
    else 1 + Stored(s[3..])
  }

  lemma StoredStep(s: seq<byte>, i: nat)
    requires i < |s|
    ensures Stored(s[i..]) ==
      if s[i] != BACKSLASH then 1 + Stored(s[i + 1..])
      else if i + 3 > |s| || !UpperHex(s[i + 1]) || !UpperHex(s[i + 2]) then 0
      else 1 + Stored(s[i + 3..])
  {
    var t := s[i..];
    assert t[1..] == s[i + 1..];
    if |t| >= 3 { assert t[3..] == s[i + 3..] && t[1] == s[i + 1] && t[2] == s[i + 2]; }
  }

  /**
   * SLPUnescape, and how many bytes it stores before it returns. The output grows here; StoredFits says when it
   * keeps to the source's buffer.
   */
  method SLPUnescape(s: seq<byte>, isTag: bool) returns (out: Option<seq<byte>>, stored: nat)
    ensures out == if isTag && !GoodTag(s) then None else UnescapeText(s)
    ensures stored == if isTag && !GoodTag(s) then 0 else Stored(s)
  {
    hide UnescapeText, Continued, BadTag, UpperHex, Stored;
    var i := 0;
    while i < |s|
      invariant i <= |s| && (isTag ==> forall k :: 0 <= k < i ==> !BadTag(s[k]))
    {
      if isTag && BadTag(s[i]) { return None, 0; }
      i := i + 1;
    }
    var done: seq<byte> := [];
    i := 0;
    Whole(s);
    while i < |s|
      invariant i <= |s| && Continued(done, s[i..]) == UnescapeText(s) && |done| + Stored(s[i..]) == Stored(s)
      decreases |s| - i
    {
      ContinuedStep(done, s, i);
      StoredStep(s, i);
      var c := s[i];
      if c == BACKSLASH {
        if i + 2 >= |s| || !UpperHex(s[i + 1]) || !UpperHex(s[i + 2]) { return None, |done|; }
        c := UpperHexValue(s[i + 1]) * 16 + UpperHexValue(s[i + 2]);
        i := i + 2;
      }
      done := done + [c];
      i := i + 1;
    }
    ContinuedEnd(done, s[i..]);
    return Some(done), |done|;
  }

  lemma Whole(s: seq<byte>)
    ensures Continued([], s[0..]) == UnescapeText(s) && Stored(s[0..]) == Stored(s)
  {
    assert s[0..] == s;
    assert forall r: seq<byte> :: [] + r == r;
  }

  function Backslashes(s: seq<byte>): nat {
    if s == [] then 0 else (if s[0] == BACKSLASH then 1 else 0) + Backslashes(s[1..])
  }

  /** The size of the buffer that is allocated, NUL included. */
  function BufferSize(s: seq<byte>): nat {
    (|s| - 2 * Backslashes(s) + 1) % SIZES
  }

  lemma {:induction false} StoredIs(s: seq<byte>)
    ensures var r := Refusal(s); Stored(s) + 2 * Backslashes(s) == r + 2 * Backslashes(s[r..])
    decreases |s|
  {
    if s != [] {
      var r := Refusal(s);
      if s[0] != BACKSLASH {
        StoredIs(s[1..]);
        assert s[r..] == s[1..][r - 1..];
      } else if |s| < 3 || !UpperHex(s[1]) || !UpperHex(s[2]) {
        assert s[0..] == s;
      } else {
        StoredIs(s[3..]);
        assert s[r..] == s[3..][r - 3..];
        assert s[1..][1..] == s[2..] && s[2..][1..] == s[3..];
        assert Backslashes(s[1..]) == Backslashes(s[2..]) == Backslashes(s[3..]);
      }
    } else {
      assert s[0..] == s;
    }
  }

  lemma Wrapped(n: int)
    requires 0 <= n + SIZES && n < SIZES
    ensures n % SIZES == if n < 0 then n + SIZES else n
  {
  }

  /**
   * Main result: what is stored, before a refusal or in all, keeps to the buffer if and only if the size of the
   * buffer wraps, or backslashes are at most half of what is not scanned any more (counting its NUL).
   */
  lemma StoredFits(s: seq<byte>)
    requires |s| < SIZES / 2
    ensures var rest := s[Refusal(s)..];
            Stored(s) <= BufferSize(s) <==> |s| + 1 < 2 * Backslashes(s) || 2 * Backslashes(rest) <= |rest| + 1
  {
    hide Stored, Backslashes, Refusal;
    StoredIs(s);
    BackslashesAtMost(s);
    Wrapped(|s| - 2 * Backslashes(s) + 1);
  }

  lemma {:induction false} BackslashesAtMost(s: seq<byte>)
    ensures Backslashes(s) <= |s|
  {
    if s != [] { BackslashesAtMost(s[1..]); }
  }

  /** A failing input: of three letters and two backslashes three bytes are stored in a buffer of two. */
  lemma StoredPastBuffer()
    ensures var s := [97, 98, 99, BACKSLASH, BACKSLASH]; Stored(s) == 3 && BufferSize(s) == 2
  {
    var s := [97, 98, 99, BACKSLASH, BACKSLASH];
    assert s[1..][1..] == s[2..] && s[2..][1..] == s[3..] && s[3..] == [BACKSLASH, BACKSLASH];
    var b: seq<byte> := [BACKSLASH, BACKSLASH];
    assert b[1..] == [BACKSLASH] && b[1..][1..] == [];
    assert Backslashes(b[1..]) == 1 && Backslashes(b) == 2 && Backslashes(s[2..]) == 2;
    assert Backslashes(s[1..]) == 2 && Backslashes(s) == 2;
    assert Stored(b) == 0 && Stored(s[2..]) == 1 && Stored(s[1..]) == 2;
  }

  /** An accepted string fills the buffer that is computed by counting backslashes. */
  lemma {:induction false} UnescapeFits(s: seq<byte>)
    requires UnescapeText(s).Some?
    ensures |UnescapeText(s).value| == |s| - 2 * Backslashes(s)
    decreases |s|
  {
    if s != [] {
      if s[0] != BACKSLASH {
        UnescapeFits(s[1..]);
      } else {
        UnescapeFits(s[3..]);
        assert s[1..][1..] == s[2..] && s[2..][1..] == s[3..];
        assert Backslashes(s[1..]) == Backslashes(s[2..]) == Backslashes(s[3..]);
      }
    }
  }

  function Piece(c: byte): (p: seq<byte>)
    ensures |p| > 0
  {
    if NeedsEscape(c) then EscapeByte(c) else [c]
  }

  // ----- Round trips -----

  lemma EscapeByteBack(c: byte)
    requires NeedsEscape(c)
    ensures var e := EscapeByte(c);
            UpperHex(e[1]) && UpperHex(e[2]) && UpperHexValue(e[1]) * 16 + UpperHexValue(e[2]) == c
  {
    assert (c as int - c as int % 16) / 15 == c as int / 16;
  }

  /** Main result: unescaping undoes escaping. */
  lemma {:induction false} UnescapeOfEscape(s: seq<byte>)
    ensures UnescapeText(EscapeText(s)) == Some(s)
  {
    hide EscapeByte, NeedsEscape, UnescapeText, EscapeText;
    if s != [] {
      UnescapeOfEscape(s[1..]);
      UnescapePiece(s[0], EscapeText(s[1..]), s[1..]);
      PieceFirst(s);
    } else {
      NoEscapes(s);
      NothingToUnescape(s);
    }
  }

  lemma NothingToUnescape(s: seq<byte>)
    requires s == []
    ensures UnescapeText(s) == Some(s)
  {
  }

  lemma UnescapePiece(c: byte, rest: seq<byte>, text: seq<byte>)
    requires UnescapeText(rest) == Some(text)
    ensures UnescapeText(Piece(c) + rest) == Some([c] + text)
  {
    hide EscapeByte, UpperHex, UpperHexValue;
    var e := Piece(c) + rest;
    if NeedsEscape(c) {
      EscapeByteBack(c);
      EscapeByteShape(c);
      assert e[3..] == rest;
    } else {
      assert e[1..] == rest && e[0] == c;
    }
  }

  lemma EscapeByteShape(c: byte)
    requires NeedsEscape(c)
    ensures |EscapeByte(c)| == 3 && EscapeByte(c)[0] == BACKSLASH
  {
  }

  /** SLPUnescapeInPlace gives the same text for every string that SLPUnescape accepts. */
  lemma {:induction false} UnescapersAgree(s: seq<byte>)
    requires UnescapeText(s).Some?
    ensures Unescaped(s) == UnescapeText(s).value
    decreases |s|
  {
    if s != [] {
      if s[0] != BACKSLASH { UnescapersAgree(s[1..]); } else { UnescapersAgree(s[3..]); }
    }
  }

  // ----- Attribute lists -----

  /** The length of the part before the first '=' or ')'. */
  function TagLength(s: seq<byte>): (n: nat)
    ensures n <= |s| && (n < |s| ==> s[n] == EQUALS || s[n] == RPAREN)
    ensures forall i :: 0 <= i < n ==> s[i] != EQUALS && s[i] != RPAREN
  {
    if s == [] || s[0] == EQUALS || s[0] == RPAREN then 0 else 1 + TagLength(s[1..])
  }

  /** strncasecmp of equally long texts is 0. */
  predicate SameTag(a: seq<byte>, b: seq<byte>) {
    |a| == |b| && CaseCompare(a, b) == 0
  }

  /** The value of the first parenthesized attribute with the id. */
  function AttrValue(list: seq<byte>, id: seq<byte>): Option<seq<byte>> {
    if list == [] then None
    else if list[0] != LPAREN then AttrValue(list[1..], id)
    else
      var s := list[1..];
      var n := TagLength(s);
      if SameTag(s[..n], id) then Some(s[if n < |s| && s[n] == EQUALS then n + 1 else n..IndexOf(s, RPAREN, n)])
      else AttrValue(s, id)
  }

  lemma SkipStep(list: seq<byte>, i: nat, id: seq<byte>)
    requires i <= |list|
    ensures i == |list| ==> AttrValue(list[i..], id) == None
    ensures i < |list| && list[i] != LPAREN ==> AttrValue(list[i..], id) == AttrValue(list[i + 1..], id)
  {
    if i < |list| { assert list[i..][1..] == list[i + 1..]; }
  }

  lemma OpenStep(list: seq<byte>, i: nat, id: seq<byte>)
    requires i < |list| && list[i] == LPAREN
    ensures var b := i + 1; var e := b + TagLength(list[b..]);
            AttrValue(list[i..], id) ==
              if SameTag(list[b..e], id) then
                Some(list[if e < |list| && list[e] == EQUALS then e + 1 else e..b + IndexOf(list[b..], RPAREN, e - b)])
              else AttrValue(list[b..], id)
  {
    hide CaseCompare, TagLength, IndexOf;
    var s := list[i + 1..];
    assert list[i..][1..] == s;
    var n := TagLength(s);
    assert list[i + 1..i + 1 + n] == s[..n];
    var v, e := if n < |s| && s[n] == EQUALS then n + 1 else n, IndexOf(s, RPAREN, n);
    assert list[i + 1 + v..i + 1 + e] == s[v..e];
  }

  /** SLPParseAttrs; `None` stands for SLP_PARSE_ERROR. */
  method SLPParseAttrs(list: seq<byte>, id: seq<byte>) returns (val: Option<seq<byte>>)
    ensures val == AttrValue(list, id)
  {
    hide CaseCompare, IndexOf, TagLength, AttrValue;
    var slider1 := 0;
    assert list[0..] == list;
    while true
      invariant 0 <= slider1 <= |list| && AttrValue(list[slider1..], id) == AttrValue(list, id)
      decreases |list| - slider1
    {
      slider1 := ScanParen(list, slider1, id);
      if slider1 == |list| { return None; }
      OpenStep(list, slider1, id);
      slider1 := slider1 + 1;
      var slider2 := ScanTag(list, slider1);
      if |id| == slider2 - slider1 && CaseCompare(list[slider1..slider2], id) == 0 {
        ghost var begin := slider1;
        slider1 := slider2;
        if slider1 < |list| && list[slider1] == EQUALS { slider1 := slider1 + 1; }
        slider2 := ScanValue(list, begin, slider2);
        return Some(list[slider1..slider2]);
      }
    }
  }

  /** The search for an opening parenthesis. */
  method ScanParen(list: seq<byte>, from: nat, id: seq<byte>) returns (p: nat)
    requires from <= |list|
    ensures from <= p <= |list| && AttrValue(list[p..], id) == AttrValue(list[from..], id)
    ensures if p == |list| then AttrValue(list[from..], id) == None else list[p] == LPAREN
  {
    hide AttrValue;
    p := from;
    while p < |list| && list[p] != LPAREN
      invariant from <= p <= |list| && AttrValue(list[p..], id) == AttrValue(list[from..], id)
    {
      SkipStep(list, p, id);
      p := p + 1;
    }
    SkipStep(list, p, id);
  }

  method ScanTag(list: seq<byte>, from: nat) returns (e: nat)
    requires from <= |list|
    ensures from <= e <= |list| && e - from == TagLength(list[from..])
  {
    e := from;
    while e < |list| && list[e] != EQUALS && list[e] != RPAREN
      invariant from <= e <= |list| && e - from + TagLength(list[e..]) == TagLength(list[from..])
    {
      assert list[e..][1..] == list[e + 1..];
      e := e + 1;
    }
  }

  /** The end of the value, as a position in the text from `begin` on. */
  method ScanValue(list: seq<byte>, ghost begin: nat, from: nat) returns (e: nat)
    requires begin <= from <= |list|
    ensures from <= e <= |list| && e - begin == IndexOf(list[begin..], RPAREN, from - begin)
  {
    e := from;
    while e < |list| && list[e] != RPAREN
      invariant from <= e <= |list|
      invariant IndexOf(list[begin..], RPAREN, e - begin) == IndexOf(list[begin..], RPAREN, from - begin)
    {
      e := e + 1;
    }
  }

  // ----- The law of the three functions -----

  /** An attribute before it is written: its id and its value. */
  datatype Attribute = Attribute(id: seq<byte>, value: seq<byte>)

  function AttrText(a: Attribute): seq<byte> {
    [LPAREN] + EscapeText(a.id) + [EQUALS] + EscapeText(a.value) + [RPAREN]
  }

  /** "(id=value),(id=value),..." */
  function ListText(attrs: seq<Attribute>): seq<byte> {
    if attrs == [] then []
    else AttrText(attrs[0]) + (if |attrs| == 1 then [] else [COMMA]) + ListText(attrs[1..])
  }

  function FirstWithId(attrs: seq<Attribute>, id: seq<byte>): (k: nat)
    ensures k <= |attrs| && (k < |attrs| ==> Lower(attrs[k].id) == Lower(id))
    ensures forall i :: 0 <= i < k ==> Lower(attrs[i].id) != Lower(id)
  {
    if attrs == [] || Lower(attrs[0].id) == Lower(id) then 0 else 1 + FirstWithId(attrs[1..], id)
  }

  /** Only the backslash of an escape is reserved in escaped text. */
  ghost predicate Plain(s: seq<byte>) {
    forall i :: 0 <= i < |s| ==> s[i] != LPAREN && s[i] != RPAREN && s[i] != EQUALS && s[i] != 0
  }

  lemma {:induction false} EscapedIsPlain(s: seq<byte>)
    ensures Plain(EscapeText(s))
  {
    if s != [] { EscapedIsPlain(s[1..]); }
  }

  lemma {:induction false} SkipPlain(a: seq<byte>, b: seq<byte>, id: seq<byte>)
    requires forall i :: 0 <= i < |a| ==> a[i] != LPAREN
    ensures AttrValue(a + b, id) == AttrValue(b, id)
  {
    if a == [] {
      assert a + b == b;
    } else {
      assert (a + b)[1..] == a[1..] + b;
      SkipPlain(a[1..], b, id);
    }
  }

  lemma {:induction false} TagLengthIs(s: seq<byte>, n: nat)
    requires n < |s| && s[n] == EQUALS && forall i :: 0 <= i < n ==> s[i] != EQUALS && s[i] != RPAREN
    ensures TagLength(s) == n
  {
  }

  lemma {:induction false} ParenAt(s: seq<byte>, from: nat, e: nat)
    requires from <= e < |s| && s[e] == RPAREN && forall i :: from <= i < e ==> s[i] != RPAREN
    ensures IndexOf(s, RPAREN, from) == e
    decreases e - from
  {
    if from < e { ParenAt(s, from + 1, e); }
  }

  /** One attribute in front: it answers the request, or it is skipped. */
  lemma FirstAttr(tag: seq<byte>, value: seq<byte>, rest: seq<byte>, id: seq<byte>)
    requires Plain(tag) && Plain(value)
    ensures AttrValue([LPAREN] + tag + [EQUALS] + value + [RPAREN] + rest, id)
         == if SameTag(tag, id) then Some(value) else AttrValue(rest, id)
  {
    hide CaseCompare, TagLength, IndexOf;
    var list := [LPAREN] + tag + [EQUALS] + value + [RPAREN] + rest;
    var s := list[1..];
    var n := |tag|;
    assert s == tag + [EQUALS] + value + [RPAREN] + rest;
    TagLengthIs(s, n);
    ParenAt(s, n, n + 1 + |value|);
    assert s[..n] == tag && s[n + 1..n + 1 + |value|] == value;
    var skipped := tag + [EQUALS] + value + [RPAREN];
    assert s == skipped + rest;
    SkipPlain(skipped, rest, id);
  }

  lemma {:induction false} UptoNulWhole(s: seq<byte>)
    requires forall i :: 0 <= i < |s| ==> s[i] != 0
    ensures UptoNul(s) == s
  {
    if s != [] { UptoNulWhole(s[1..]); }
  }

  lemma SameTagIs(a: seq<byte>, b: seq<byte>)
    requires Plain(a) && Plain(b)
    ensures SameTag(a, b) <==> Lower(a) == Lower(b)
  {
    UptoNulWhole(a);
    UptoNulWhole(b);
    if |a| == |b| { CaseCompareZero(a, b); }
  }

  lemma PieceCase(x: byte, y: byte)
    ensures Lower(Piece(x)) == Lower(Piece(y)) <==> ToLower(x) == ToLower(y)
    ensures ToLower(Piece(x)[0]) == ToLower(Piece(y)[0]) ==> |Piece(x)| == |Piece(y)|
  {
    if NeedsEscape(x) && NeedsEscape(y) {
      EscapeByteBack(x);
      EscapeByteBack(y);
      var p, q := Piece(x), Piece(y);
      if Lower(p) == Lower(q) { assert ToLower(p[1]) == ToLower(q[1]) && ToLower(p[2]) == ToLower(q[2]); }
    } else if !NeedsEscape(x) && !NeedsEscape(y) {
      if Lower([x]) == Lower([y]) { assert Lower([x])[0] == Lower([y])[0]; }
    }
  }

  lemma LowerConcat(a: seq<byte>, b: seq<byte>)
    ensures Lower(a + b) == Lower(a) + Lower(b)
  {
  }

  /** Escaping keeps ids apart that differ in more than case, and no others. */
  lemma {:induction false} EscapedTags(a: seq<byte>, b: seq<byte>)
    ensures Lower(EscapeText(a)) == Lower(EscapeText(b)) <==> Lower(a) == Lower(b)
  {
    hide NeedsEscape, EscapeByte, Piece, ToLower;
    if a == [] || b == [] {
      EscapeNonEmpty(a);
      EscapeNonEmpty(b);
    } else {
      EscapedTags(a[1..], b[1..]);
      PieceCase(a[0], b[0]);
      Peel(Piece(a[0]), EscapeText(a[1..]), Piece(b[0]), EscapeText(b[1..]));
      Peel([a[0]], a[1..], [b[0]], b[1..]);
      PieceFirst(a);
      PieceFirst(b);
      assert Lower([a[0]]) == Lower([b[0]]) <==> ToLower(a[0]) == ToLower(b[0]) by { OneLower(a[0], b[0]); }
    }
  }

  lemma EscapeNonEmpty(s: seq<byte>)
    ensures EscapeText(s) == [] <==> s == []
    ensures Lower(s) == [] <==> s == []
    ensures Lower(EscapeText(s)) == [] <==> s == []
  {
  }

  lemma PieceFirst(s: seq<byte>)
    requires s != []
    ensures EscapeText(s) == Piece(s[0]) + EscapeText(s[1..]) && s == [s[0]] + s[1..]
  {
  }

  lemma OneLower(x: byte, y: byte)
    ensures Lower([x]) == Lower([y]) <==> ToLower(x) == ToLower(y)
  {
    if Lower([x]) == Lower([y]) { assert Lower([x])[0] == Lower([y])[0]; }
  }

  /** Texts that agree on the length of their first parts are equal up to case part by part. */
  lemma Peel(p: seq<byte>, s: seq<byte>, q: seq<byte>, t: seq<byte>)
    requires p != [] && q != [] && (ToLower(p[0]) == ToLower(q[0]) ==> |p| == |q|)
    ensures Lower(p + s) == Lower(q + t) <==> Lower(p) == Lower(q) && Lower(s) == Lower(t)
  {
    hide ToLower;
    LowerConcat(p, s);
    LowerConcat(q, t);
    var x, y := Lower(p + s), Lower(q + t);
    if Lower(p) == Lower(q) { assert Lower(p)[0] == Lower(q)[0]; }
    if x == y {
      assert x[0] == ToLower(p[0]) && y[0] == ToLower(q[0]);
      assert x[..|p|] == Lower(p) && y[..|q|] == Lower(q) && x[|p|..] == Lower(s) && y[|q|..] == Lower(t);
    }
  }

  lemma {:induction false} LookupText(attrs: seq<Attribute>, id: seq<byte>)
    ensures var k := FirstWithId(attrs, id);
            AttrValue(ListText(attrs), EscapeText(id)) == if k < |attrs| then Some(EscapeText(attrs[k].value)) else None
  {
    hide EscapeText, SameTag, TagLength;
    if attrs != [] {
      var a, e := attrs[0], EscapeText(id);
      var comma := if |attrs| == 1 then [] else [COMMA];
      var rest := ListText(attrs[1..]);
      EscapedIsPlain(a.id);
      EscapedIsPlain(a.value);
      EscapedIsPlain(id);
      assert ListText(attrs) ==
               [LPAREN] + EscapeText(a.id) + [EQUALS] + EscapeText(a.value) + [RPAREN] + (comma + rest);
      FirstAttr(EscapeText(a.id), EscapeText(a.value), comma + rest, e);
      SameTagIs(EscapeText(a.id), e);
      EscapedTags(a.id, id);
      SkipPlain(comma, rest, e);
      LookupText(attrs[1..], id);
    }
  }

  /**
   * Main result: looking an escaped id up in a written attribute list and unescaping what is found gives the
   * original value of the first attribute with that id up to case, or a parse error if there is none. (SLPEscape
   * lets an id through when it is a good tag.)
   */
  lemma AttributeLaw(attrs: seq<Attribute>, id: seq<byte>)
    ensures var k := FirstWithId(attrs, id); var found := AttrValue(ListText(attrs), EscapeText(id));
            && (k < |attrs| ==> found.Some? && UnescapeText(found.value) == Some(attrs[k].value))
            && (k == |attrs| ==> found == None)
  {
    LookupText(attrs, id);
    var k := FirstWithId(attrs, id);
    if k < |attrs| { UnescapeOfEscape(attrs[k].value); }
  }
}
