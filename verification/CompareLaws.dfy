// What the comparison of strings does not see: case, blanks at the ends, and how a byte is escaped.
module CompareLaws {
  import opened Bytes
  import opened StringCompare
  import opened Folding

  /** The same byte, or the same letter of ASCII in the other case. */
  predicate SameLetter(a: byte, b: byte) {
    a == b || (65 <= a <= 90 && b == a + 32) || (65 <= b <= 90 && a == b + 32)
  }

  predicate SameLetters(s: seq<byte>, t: seq<byte>) {
    |s| == |t| && forall i :: 0 <= i < |s| ==> SameLetter(s[i], t[i])
  }

  lemma LetterIs(a: byte, b: byte)
    ensures SameLetter(a, b) <==> ToLower(a) == ToLower(b)
    ensures SameLetter(a, b) ==> IsSpace(a) == IsSpace(b) && (a == 0 <==> b == 0)
    ensures SameLetter(a, b) ==> (a == BACKSLASH <==> b == BACKSLASH)
    ensures SameLetter(a, b) ==> IsHex(a) == IsHex(b) && (IsHex(a) ==> Hex2Bin(a) == Hex2Bin(b))
  {
  }

  lemma LettersAre(s: seq<byte>, t: seq<byte>)
    ensures SameLetters(s, t) <==> Lower(s) == Lower(t)
  {
    hide ToLower, SameLetter;
    if Lower(s) == Lower(t) {
      assert |s| == |t|;
      forall i | 0 <= i < |s| ensures SameLetter(s[i], t[i]) {
        assert Lower(s)[i] == Lower(t)[i];
        LetterIs(s[i], t[i]);
      }
    }
    if SameLetters(s, t) {
      forall i | 0 <= i < |s| ensures ToLower(s[i]) == ToLower(t[i]) { LetterIs(s[i], t[i]); }
      assert Lower(s) == Lower(t);
    }
  }

  /** Main result: ordinary strings compare equal if and only if, made plain, they have the same letters. */
  lemma SameIsLetters(a: seq<byte>, b: seq<byte>)
    requires Ordinary(a) && Ordinary(b)
    ensures Same(a, b) <==> SameLetters(Plain(a), Plain(b))
  {
    hide Ordinary, Plain, CanonOf;
    SameMeans(a, b);
    LettersAre(Plain(a), Plain(b));
  }

  // ----- Case -----

  lemma {:induction false} TrimFrontCase(s: seq<byte>, t: seq<byte>)
    requires SameLetters(s, t)
    ensures SameLetters(TrimFront(s), TrimFront(t))
  {
    if s != [] {
      LetterIs(s[0], t[0]);
      if IsSpace(s[0]) { TrimFrontCase(s[1..], t[1..]); }
    }
  }

  lemma {:induction false} TrimBackCase(s: seq<byte>, t: seq<byte>)
    requires SameLetters(s, t)
    ensures SameLetters(TrimBack(s), TrimBack(t))
  {
    if s != [] {
      var n := |s| - 1;
      LetterIs(s[n], t[n]);
      if IsSpace(s[n]) { TrimBackCase(s[..n], t[..n]); }
    }
  }

  lemma SameConcat(a: seq<byte>, b: seq<byte>, c: seq<byte>, d: seq<byte>)
    requires SameLetters(a, b) && SameLetters(c, d)
    ensures SameLetters(a + c, b + d)
  {
  }

  lemma EscapeCase(s: seq<byte>, t: seq<byte>)
    requires SameLetters(s, t)
    ensures EscapeAt(s) == EscapeAt(t) && (EscapeAt(s) ==> Escaped(s[1], s[2]) == Escaped(t[1], t[2]))
  {
    hide SameLetter, Hex2Bin, IsHex;
    if |s| >= 3 {
      LetterIs(s[0], t[0]);
      LetterIs(s[1], t[1]);
      LetterIs(s[2], t[2]);
    }
  }

  lemma {:induction false} UnescapedCase(s: seq<byte>, t: seq<byte>)
    requires SameLetters(s, t)
    ensures SameLetters(Unescaped(s), Unescaped(t))
    decreases |s|
  {
    hide SameLetter, EscapeAt, Escaped;
    if s != [] {
      EscapeCase(s, t);
      if EscapeAt(s) {
        EscapeLength3(s);
        EscapeLength3(t);
        UnescapedCase(s[3..], t[3..]);
        SameByte(Escaped(s[1], s[2]));
        SameConcat([Escaped(s[1], s[2])], [Escaped(t[1], t[2])], Unescaped(s[3..]), Unescaped(t[3..]));
      } else {
        UnescapedCase(s[1..], t[1..]);
        SameConcat([s[0]], [t[0]], Unescaped(s[1..]), Unescaped(t[1..]));
      }
    }
  }

  lemma EscapeLength3(s: seq<byte>)
    requires EscapeAt(s)
    ensures |s| >= 3 && IsHex(s[1]) && IsHex(s[2])
  {
  }

  lemma SameByte(c: byte)
    ensures SameLetter(c, c)
  {
  }

  lemma SkipCase(s: seq<byte>, t: seq<byte>, p: nat)
    requires SameLetters(s, t) && p <= |s|
    ensures SkipSpaces(s, p) == SkipSpaces(t, p)
    decreases |s| - p
  {
    hide SameLetter, IsSpace;
    if p < |s| {
      LetterIs(s[p], t[p]);
      if IsSpace(s[p]) { SkipCase(s, t, p + 1); }
    }
  }

  lemma {:induction false} FoldCase(s: seq<byte>, t: seq<byte>, p: nat, len: nat)
    requires SameLetters(s, t) && len <= |s| <= len + p && (p > 0 ==> len > 0)
    ensures SameLetters(FoldFrom(s, p, len), FoldFrom(t, p, len))
    decreases |s| - p
  {
    hide SameLetter, IsSpace, SkipSpaces, Shifted;
    if p < |s| {
      LetterIs(s[p], t[p]);
      if IsSpace(s[p]) {
        SkipCase(s, t, p + 1);
        var q := SkipSpaces(s, p + 1);
        ShiftCase(s, t, p + 1, q);
        FoldCase(Shifted(s, p + 1, q), Shifted(t, p + 1, q), q + 1, len - (q - (p + 1)));
      } else {
        FoldCase(s, t, p + 1, len);
      }
    }
  }

  lemma ShiftCase(s: seq<byte>, t: seq<byte>, w: nat, q: nat)
    requires SameLetters(s, t) && w <= q <= |s|
    ensures SameLetters(Shifted(s, w, q), Shifted(t, w, q))
  {
    hide SameLetter;
    SameConcat(s[..w], t[..w], s[q..], t[q..]);
    SameConcat(s[..w] + s[q..], t[..w] + t[q..], s[w + |s| - q..], t[w + |t| - q..]);
  }

  lemma {:induction false} UptoNulCase(s: seq<byte>, t: seq<byte>)
    requires SameLetters(s, t)
    ensures SameLetters(UptoNul(s), UptoNul(t))
  {
    if s != [] {
      LetterIs(s[0], t[0]);
      UptoNulCase(s[1..], t[1..]);
    }
  }

  /** Main result: strings that differ in the case of letters only, wherever they stand, compare equal. */
  lemma CaseIgnored(s: seq<byte>, t: seq<byte>)
    requires SameLetters(s, t)
    ensures Same(s, t)
  {
    hide SameLetters, FoldFrom, UptoNul, Unescaped;
    assert |s| == |t| by { CaseLength(s, t); }
    TrimFrontCase(s, t);
    TrimBackCase(TrimFront(s), TrimFront(t));
    var a, b := Trimmed(s), Trimmed(t);
    CaseLength(a, b);
    UnescapedCase(a, b);
    var u, v := Unescaped(a), Unescaped(b);
    CaseLength(u, v);
    FoldCase(u, v, 0, |u|);
    CaseLength(Folded(u), Folded(v));
    UptoNulCase(Folded(u), Folded(v));
    LettersAre(UptoNul(Folded(u)), UptoNul(Folded(v)));
  }

  lemma CaseLength(s: seq<byte>, t: seq<byte>)
    requires SameLetters(s, t)
    ensures |s| == |t|
  {
  }

  // ----- Blanks -----

  /** A blank of the C locale: a space, or a character from tab to carriage return. */
  predicate Blank(c: byte) {
    c in [32, 9, 10, 11, 12, 13]
  }

  lemma {:induction false} FrontBlanks(pre: seq<byte>, s: seq<byte>)
    requires forall i :: 0 <= i < |pre| ==> Blank(pre[i])
    ensures TrimFront(pre + s) == TrimFront(s)
  {
    if pre == [] {
      assert pre + s == s;
    } else {
      assert Blank(pre[0]);
      assert (pre + s)[1..] == pre[1..] + s;
      FrontBlanks(pre[1..], s);
    }
  }

  lemma {:induction false} BackBlanks(s: seq<byte>, post: seq<byte>)
    requires forall i :: 0 <= i < |post| ==> Blank(post[i])
    ensures TrimBack(s + post) == TrimBack(s)
  {
    if post == [] {
      assert s + post == s;
    } else {
      var n := |post| - 1;
      assert Blank(post[n]);
      assert (s + post)[..|s| + n] == s + post[..n];
      BackBlanks(s, post[..n]);
    }
  }

  lemma {:induction false} FrontOfBoth(s: seq<byte>, post: seq<byte>)
    requires forall i :: 0 <= i < |post| ==> Blank(post[i])
    ensures TrimBack(TrimFront(s + post)) == TrimBack(TrimFront(s))
  {
    if s != [] && IsSpace(s[0]) {
      assert (s + post)[1..] == s[1..] + post;
      FrontOfBoth(s[1..], post);
    } else if s != [] {
      BackBlanks(s, post);
    } else {
      assert s + post == post;
      FrontBlanks(post, []);
      assert post + [] == post;
    }
  }

  /** Main result: blanks at the ends do not matter. */
  lemma BlanksIgnored(pre: seq<byte>, s: seq<byte>, post: seq<byte>)
    requires forall i :: 0 <= i < |pre| ==> Blank(pre[i])
    requires forall i :: 0 <= i < |post| ==> Blank(post[i])
    ensures Same(pre + s + post, s)
  {
    hide TrimFront, TrimBack, Blank;
    assert pre + s + post == pre + (s + post);
    FrontBlanks(pre, s + post);
    FrontOfBoth(s, post);
  }

  /** Nothing else is trimmed. */
  lemma OnlyBlanks(s: seq<byte>)
    requires s == [] || (!Blank(s[0]) && !Blank(s[|s| - 1]))
    ensures Trimmed(s) == s
  {
  }

  // ----- Escapes -----

  /** The digits of an escape are those of the two tables. */
  lemma HexDigitIs(c: byte, d: nat)
    requires d < 16
    ensures (IsHex(c) && Hex2Bin(c) == d) <==> c == LOWER_DIGITS[d] || c == UPPER_DIGITS[d]
  {
  }

  /** Main result: a byte is written as a backslash and its two digits, in either case. */
  lemma EscapeRead(c: byte, hi: byte, lo: byte, rest: seq<byte>)
    requires hi == LOWER_DIGITS[c / 16] || hi == UPPER_DIGITS[c / 16]
    requires lo == LOWER_DIGITS[c % 16] || lo == UPPER_DIGITS[c % 16]
    ensures Unescaped([BACKSLASH, hi, lo] + rest) == [c] + Unescaped(rest)
  {
    hide IsHex, Hex2Bin;
    var h, l := c as int / 16, c as int % 16;
    HexDigitIs(hi, h);
    HexDigitIs(lo, l);
    var s := [BACKSLASH, hi, lo] + rest;
    assert s[3..] == rest && s[1] == hi && s[2] == lo;
  }
}
