// Which bytes are escaped, how, and which texts are read back (section 5 of RFC 2608).
module EscapeLaws {
  import opened Bytes
  import opened StringCompare
  import opened Escape

  /** One of "(),\!<=>~", or a control character. */
  predicate MustEscape(c: byte) {
    c in [40, 41, 44, 92, 33, 60, 61, 62, 126] || c < 32 || c == 127
  }

  /** A byte as a backslash and two upper-case digits. */
  function EscapeOf(c: byte): seq<byte> {
    [BACKSLASH, UPPER_DIGITS[c / 16], UPPER_DIGITS[c % 16]]
  }

  lemma DigitIs(c: byte, d: nat)
    requires d < 16
    ensures Escape.HexChar(d) == UPPER_DIGITS[d]
    ensures (UpperHex(c) && UpperHexValue(c) == d) <==> c == UPPER_DIGITS[d]
  {
  }

  lemma NeedsIs(c: byte)
    ensures NeedsEscape(c) <==> MustEscape(c)
  {
  }

  lemma FirstDigit(c: byte)
    requires c < 128
    ensures (c as int - c as int % 16) / 15 == c as int / 16
  {
  }

  /** Main result: exactly the reserved and the control characters are escaped, by their two digits. */
  lemma EscapedFirst(c: byte, rest: seq<byte>)
    ensures EscapeText([c] + rest) == (if MustEscape(c) then EscapeOf(c) else [c]) + EscapeText(rest)
  {
    hide Escape.HexChar, NeedsEscape;
    NeedsIs(c);
    if MustEscape(c) { FirstDigit(c); }
    DigitIs(c, c as int / 16);
    DigitIs(c, c as int % 16);
    assert ([c] + rest)[1..] == rest;
  }

  /** No reserved or control character but the backslashes of escapes. */
  ghost predicate Safe(e: seq<byte>) {
    forall i :: 0 <= i < |e| && MustEscape(e[i]) ==>
      && e[i] == BACKSLASH && i + 2 < |e| && e[i + 1] in UPPER_DIGITS && e[i + 2] in UPPER_DIGITS
  }

  /** Main result: escaped text has no reserved or control character but the backslashes of its escapes. */
  lemma {:induction false} EscapedIsSafe(s: seq<byte>)
    ensures Safe(EscapeText(s))
  {
    hide MustEscape, Safe;
    if s != [] {
      var c, rest := s[0], s[1..];
      assert s == [c] + rest;
      EscapedFirst(c, rest);
      EscapedIsSafe(rest);
      SafeConcat(if MustEscape(c) then EscapeOf(c) else [c], EscapeText(rest));
      if MustEscape(c) { SafeEscape(c); } else { PlainIsSafe(c); }
    } else {
      NothingIsSafe();
    }
  }

  lemma SafeConcat(a: seq<byte>, b: seq<byte>)
    ensures Safe(a) && Safe(b) ==> Safe(a + b)
  {
    hide MustEscape;
    if Safe(a) && Safe(b) {
      var e, n := a + b, |a|;
      forall i | 0 <= i < |e| && MustEscape(e[i])
        ensures e[i] == BACKSLASH && i + 2 < |e| && e[i + 1] in UPPER_DIGITS && e[i + 2] in UPPER_DIGITS
      {
        if i >= n { assert e[i] == b[i - n]; }
      }
    }
  }

  lemma PlainIsSafe(c: byte)
    requires !MustEscape(c)
    ensures Safe([c])
  {
  }

  lemma NothingIsSafe()
    ensures EscapeText([]) == [] && Safe([])
  {
  }

  lemma SafeEscape(c: byte)
    ensures Safe(EscapeOf(c))
  {
    hide MustEscape;
    DigitsAreSafe(c / 16);
    DigitsAreSafe(c % 16);
  }

  lemma DigitsAreSafe(d: nat)
    requires d < 16
    ensures UPPER_DIGITS[d] in UPPER_DIGITS && !MustEscape(UPPER_DIGITS[d])
  {
  }

  /** The characters that SLPEscape refuses in a tag: carriage return, line feed, tab, and '_'. */
  lemma TagsRefused(s: seq<byte>)
    ensures GoodTag(s) <==> forall i :: 0 <= i < |s| ==> s[i] !in [13, 10, 9, 95]
  {
  }

  // ----- What SLPUnescape reads -----

  /** A byte that stands for itself, or an escape. */
  predicate PieceOf(p: seq<byte>, c: byte) {
    p == EscapeOf(c) || (p == [c] && c != BACKSLASH)
  }

  ghost predicate PiecesOf(ps: seq<seq<byte>>, t: seq<byte>) {
    |ps| == |t| && forall i :: 0 <= i < |t| ==> PieceOf(ps[i], t[i])
  }

  function Concat(ps: seq<seq<byte>>): seq<byte> {
    if ps == [] then [] else ps[0] + Concat(ps[1..])
  }

  lemma OnePiece(c: byte, p: seq<byte>, rest: seq<byte>)
    requires PieceOf(p, c)
    ensures UnescapeText(p + rest) == match UnescapeText(rest) case None => None case Some(t) => Some([c] + t)
  {
    hide UpperHex, UpperHexValue;
    var h, l := c as int / 16, c as int % 16;
    DigitIs(UPPER_DIGITS[h], h);
    DigitIs(UPPER_DIGITS[l], l);
    var s := p + rest;
    if p == EscapeOf(c) {
      assert s[3..] == rest && s[1] == UPPER_DIGITS[h] && s[2] == UPPER_DIGITS[l];
    } else {
      assert s[1..] == rest;
    }
  }

  lemma {:induction false} PiecesRead(ps: seq<seq<byte>>, t: seq<byte>)
    requires PiecesOf(ps, t)
    ensures UnescapeText(Concat(ps)) == Some(t)
  {
    hide PieceOf;
    if ps == [] {
      NothingToUnescape([]);
    } else {
      OnePiece(t[0], ps[0], Concat(ps[1..]));
      PiecesRead(ps[1..], t[1..]);
      assert [t[0]] + t[1..] == t;
    }
  }

  lemma {:induction false} ReadPieces(s: seq<byte>, t: seq<byte>) returns (ps: seq<seq<byte>>)
    requires UnescapeText(s) == Some(t)
    ensures PiecesOf(ps, t) && Concat(ps) == s
    decreases |s|
  {
    if s == [] {
      ps := [];
    } else {
      var n := if s[0] == BACKSLASH then 3 else 1;
      var more := ReadPieces(s[n..], t[1..]);
      ps := [s[..n]] + more;
      FirstPiece(s, t);
      assert ps[1..] == more && s[..n] + s[n..] == s;
      forall i | 0 <= i < |t| ensures PieceOf(ps[i], t[i]) {
        assert i > 0 ==> ps[i] == more[i - 1] && t[i] == t[1..][i - 1];
      }
    }
  }

  lemma FirstPiece(s: seq<byte>, t: seq<byte>)
    requires UnescapeText(s) == Some(t) && s != []
    ensures var n := if s[0] == BACKSLASH then 3 else 1;
            && n <= |s| && t != [] && PieceOf(s[..n], t[0]) && UnescapeText(s[n..]) == Some(t[1..])
  {
    hide UpperHex, UpperHexValue, EscapeOf;
    if s[0] == BACKSLASH {
      TwoDigits(s[1], s[2]);
      assert s[..3] == [BACKSLASH, s[1], s[2]];
      var c := UpperHexValue(s[1]) * 16 + UpperHexValue(s[2]);
      TailOf(c, UnescapeText(s[3..]).value);
    } else {
      assert s[..1] == [s[0]];
      TailOf(s[0], UnescapeText(s[1..]).value);
    }
  }

  lemma TailOf(c: byte, t: seq<byte>)
    ensures ([c] + t)[0] == c && ([c] + t)[1..] == t
  {
  }

  lemma TwoDigits(a: byte, b: byte)
    requires UpperHex(a) && UpperHex(b)
    ensures EscapeOf(UpperHexValue(a) * 16 + UpperHexValue(b)) == [BACKSLASH, a, b]
  {
    hide UpperHex, UpperHexValue, EscapeOf;
    var h, l := UpperHexValue(a), UpperHexValue(b);
    DigitIs(a, h);
    DigitIs(b, l);
    EscapeOfDigits(h, l);
  }

  lemma EscapeOfDigits(h: nat, l: nat)
    requires h < 16 && l < 16
    ensures EscapeOf(h * 16 + l) == [BACKSLASH, UPPER_DIGITS[h], UPPER_DIGITS[l]]
  {
    Halves(h, l);
  }

  lemma Halves(h: nat, l: nat)
    requires l < 16
    ensures (h * 16 + l) / 16 == h && (h * 16 + l) % 16 == l
  {
  }

  /**
   * Main result: the texts that are read as `t` are exactly those in which every byte of `t` stands for itself, if it
   * is no backslash, or is escaped by two upper-case digits.
   */
  lemma UnescapeLanguage(s: seq<byte>, t: seq<byte>)
    ensures UnescapeText(s) == Some(t) <==> exists ps :: PiecesOf(ps, t) && Concat(ps) == s
  {
    hide UnescapeText, PiecesOf, Concat;
    if UnescapeText(s) == Some(t) { var ps := ReadPieces(s, t); }
    forall ps | PiecesOf(ps, t) && Concat(ps) == s ensures UnescapeText(s) == Some(t) { PiecesRead(ps, t); }
  }

  // ----- Attributes without a value -----

  /** A keyword in parentheses has the empty value. */
  lemma KeywordAttr(tag: seq<byte>, rest: seq<byte>, id: seq<byte>)
    requires Plain(tag)
    ensures AttrValue([40] + tag + [41] + rest, id) == if SameTag(tag, id) then Some([]) else AttrValue(rest, id)
  {
    hide CaseCompare, TagLength, IndexOf;
    var list := [40] + tag + [41] + rest;
    var s, n := list[1..], |tag|;
    assert s == tag + [41] + rest && list[0] == LPAREN;
    TagEnds(s, n);
    ParenAt(s, n, n);
    assert s[..n] == tag && s[n..n] == [];
    assert s == (tag + [41]) + rest;
    SkipPlain(tag + [41], rest, id);
  }

  lemma {:induction false} TagEnds(s: seq<byte>, n: nat)
    requires n < |s| && s[n] == RPAREN && forall i :: 0 <= i < n ==> s[i] != EQUALS && s[i] != RPAREN
    ensures TagLength(s) == n
  {
    if n > 0 { TagEnds(s[1..], n - 1); }
  }
}
