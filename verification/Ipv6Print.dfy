// inet_ntop4 and inet_ntop6: the address-to-text printers, and the round trip through inet_pton6.
module Ipv6Print {
  import opened Bytes
  import opened Ipv6Text
  import opened Ipv6Parse
  import opened Ipv6Scan
  import opened Ipv6Language

  // ----- What the text of an address should be -----

  /** The eight 16-bit words of an address. */
  function Words(src: seq<byte>): (w: seq<nat>)
    requires |src| == 16
    ensures |w| == 8
  {
    seq(8, i requires 0 <= i < 8 => Word(src[2 * i], src[2 * i + 1]))
  }

  lemma WordAt(src: seq<byte>, i: nat)
    requires |src| == 16 && i < 8
    ensures Words(src)[i] == Word(src[2 * i], src[2 * i + 1])
  {
  }

  predicate AreWordsOf(w: seq<nat>, b: seq<byte>) {
    |b| == 2 * |w| && forall i {:trigger w[i]} :: 0 <= i < |w| ==> w[i] == Word(b[2 * i], b[2 * i + 1])
  }

  predicate ZeroRun(w: seq<nat>, base: int, len: int) {
    0 <= base && 0 < len && base + len <= |w| && forall i :: base <= i < base + len ==> w[i] == 0
  }

  /** The run that "::" stands for: the first of the longest zero runs of at least two words; base -1 if none. */
  ghost predicate IsCompressedRun(w: seq<nat>, base: int, len: int) {
    if base == -1 then forall b, l :: ZeroRun(w, b, l) ==> l < 2
    else
      && ZeroRun(w, base, len) && len >= 2
      && forall b, l :: ZeroRun(w, b, l) ==> l < len || (l == len && base <= b)
  }

  function HexGroups(w: seq<nat>): (gs: seq<seq<byte>>)
    ensures |gs| == |w|
  {
    seq(|w|, i requires 0 <= i < |w| => HexText(w[i]))
  }

  /** An IPv4 address in the ::/96 block or in the ::ffff:0:0/96 block. */
  predicate EmbedsIpv4(w: seq<nat>, base: int, len: int)
    requires |w| == 8
  {
    base == 0 && (len == 6 || (len == 5 && w[5] == 0xffff))
  }

  function TextOf(src: seq<byte>, base: int, len: int): seq<byte>
    requires |src| == 16 && (base == -1 || ZeroRun(Words(src), base, len))
  {
    var w := Words(src);
    if base == -1 then Join(HexGroups(w))
    else if EmbedsIpv4(w, base, len) then
      QuadPrefix(len) + DottedQuad(src[12..])
    else Join(HexGroups(w[..base])) + [COLON, COLON] + Join(HexGroups(w[base + len..]))
  }

  /** `text` is the canonical text of the address `src`. */
  ghost predicate IsTextOf(src: seq<byte>, text: seq<byte>)
    requires |src| == 16
  {
    exists base, len :: IsCompressedRun(Words(src), base, len) && text == TextOf(src, base, len)
  }

  // ----- The round trip -----

  lemma {:induction false} HexGroupsDenote(w: seq<nat>, b: seq<byte>)
    requires AreWordsOf(w, b)
    ensures AreGroups(HexGroups(w)) && GroupBytes(HexGroups(w)) == b
  {
    hide HexText, Val, HexDigits, Hi, Lo;
    var gs := HexGroups(w);
    if w != [] {
      assert AreWordsOf(w[1..], b[2..]) by {
        forall i | 0 <= i < |w| - 1 ensures w[1..][i] == Word(b[2..][2 * i], b[2..][2 * i + 1]) {
          assert w[i + 1] == Word(b[2 * (i + 1)], b[2 * (i + 1) + 1]);
        }
      }
      HexGroupsDenote(w[1..], b[2..]);
      assert gs[1..] == HexGroups(w[1..]);
      HexTextIsGroup(w[0]);
      HiLoOfWord(b[0], b[1]);
      assert b == [b[0], b[1]] + b[2..];
    }
  }

  lemma WordsSlice(src: seq<byte>, lo: nat, hi: nat)
    requires |src| == 16 && lo <= hi <= 8
    ensures AreWordsOf(Words(src)[lo..hi], src[2 * lo..2 * hi])
  {
    forall i | 0 <= i < hi - lo
      ensures Words(src)[lo..hi][i] == Word(src[2 * lo..2 * hi][2 * i], src[2 * lo..2 * hi][2 * i + 1])
    {
      WordAt(src, lo + i);
    }
  }

  lemma WholeWords(src: seq<byte>)
    requires |src| == 16
    ensures AreWordsOf(Words(src), src)
  {
    forall i | 0 <= i < 8 ensures Words(src)[i] == Word(src[2 * i], src[2 * i + 1]) { WordAt(src, i); }
  }

  lemma ZeroWord(src: seq<byte>, k: nat)
    requires |src| == 16 && k < 16 && Words(src)[k / 2] == 0
    ensures src[k] == 0
  {
    var i := k / 2;
    WordAt(src, i);
    assert k == 2 * i || k == 2 * i + 1;
  }

  lemma ZeroWords(src: seq<byte>, base: nat, len: nat)
    requires |src| == 16 && ZeroRun(Words(src), base, len)
    ensures src[2 * base..2 * (base + len)] == Zeros(2 * len)
  {
    var from, to := 2 * base, 2 * (base + len);
    forall k | from <= k < to ensures src[k] == 0 { ZeroWord(src, k); }
    AllZero(src[from..to]);
  }

  lemma AllZero(s: seq<byte>)
    requires forall k :: 0 <= k < |s| ==> s[k] == 0
    ensures s == Zeros(|s|)
  {
  }

  /** What precedes the dotted quad: "::" or "::ffff:". */
  function QuadPrefix(len: int): seq<byte> {
    [COLON, COLON] + (if len == 5 then HexText(0xffff) + [COLON] else [])
  }

  /** The address text whose "::" stands for the first `len` words, with the quad after it. */
  function Embedded(len: int, quad: seq<byte>): Mixed {
    CompressedMixed([], if len == 5 then [HexText(0xffff)] else [], quad)
  }

  /** The text with an embedded IPv4 part is read back, although its first digits are first read as hexadecimal. */
  lemma EmbeddedParses(src: seq<byte>, len: int)
    requires |src| == 16 && ZeroRun(Words(src), 0, len) && EmbedsIpv4(Words(src), 0, len)
    ensures Pton6(QuadPrefix(len) + DottedQuad(src[12..])) == Some(src)
  {
    hide Pton6, Words, DottedQuad, Mixed.Denotes, Mixed.Text;
    var m := Embedded(len, src[12..]);
    HexTextIsGroup(0xffff);
    EmbeddedText(len, src[12..]);
    MixedParses(m);
    EmbeddedDenotes(src, len);
  }

  lemma EmbeddedText(len: int, quad: seq<byte>)
    requires |quad| == 4 && Embedded(len, quad).WellFormed()
    ensures Embedded(len, quad).Text() == QuadPrefix(len) + DottedQuad(quad)
  {
    hide DottedQuad, HexText;
    var h, q := HexText(0xffff), DottedQuad(quad);
    assert Colonized([h]) == h + [COLON] + [] == h + [COLON];
    assert [] + [COLON, COLON] == [COLON, COLON] && [] + q == q && [COLON, COLON] + [] == [COLON, COLON];
    assert [COLON, COLON] + (h + [COLON] + q) == [COLON, COLON] + (h + [COLON]) + q;
  }

  lemma EmbeddedDenotes(src: seq<byte>, len: int)
    requires |src| == 16 && ZeroRun(Words(src), 0, len) && EmbedsIpv4(Words(src), 0, len)
    requires Embedded(len, src[12..]).WellFormed()
    ensures Embedded(len, src[12..]).Denotes() == src
  {
    hide Words, HexText, IsToken;
    var post := Embedded(len, src[12..]).post;
    ZeroWords(src, 0, len);
    FfffOctets();
    NoTokens();
    if len == 5 {
      WordAt(src, 5);
      assert src[10] == 255 && src[11] == 255;
    }
    assert src[0..2 * len] == Zeros(2 * len) && GroupBytes(post) == src[2 * len..12];
    Rejoin(src, 2 * len);
  }

  lemma Rejoin(s: seq<byte>, i: nat)
    requires i <= 12 && |s| == 16
    ensures [] + s[0..i] + (s[i..12] + s[12..]) == s
  {
  }

  lemma FfffOctets()
    ensures AreTokens([HexText(0xffff)]) && GroupBytes([HexText(0xffff)]) == [255, 255]
  {
    hide HexText, Val, HexDigits;
    HexTextIsGroup(0xffff);
    PushToken([], HexText(0xffff));
    HiLoShift(0xffff);
    assert [] + GroupBytes([HexText(0xffff)]) == [255, 255];
  }

  /**
   * Main result: reading the canonical text of any of the 2^128 addresses gives the address back.
   */
  lemma PrintParseRoundTrip(src: seq<byte>, text: seq<byte>)
    requires |src| == 16 && IsTextOf(src, text)
    ensures Pton6(text) == Some(src)
  {
    hide Pton6, Words, Join, GroupBytes, DottedQuad, QuadPrefix, HexGroups, AreWordsOf, IsGroup;
    var base, len :| IsCompressedRun(Words(src), base, len) && text == TextOf(src, base, len);
    var w := Words(src);
    if base == -1 {
      WholeWords(src);
      HexGroupsDenote(w, src);
      ShorthandParses(Full(HexGroups(w)));
    } else if EmbedsIpv4(w, base, len) {
      EmbeddedParses(src, len);
    } else {
      CompressedParses(src, base, len);
    }
  }

  lemma CompressedParses(src: seq<byte>, base: nat, len: nat)
    requires |src| == 16 && ZeroRun(Words(src), base, len)
    ensures var w := Words(src);
            Pton6(Join(HexGroups(w[..base])) + [COLON, COLON] + Join(HexGroups(w[base + len..]))) == Some(src)
  {
    hide Pton6, GroupBytes, Join, Words;
    var w := Words(src);
    var sh := Compressed(HexGroups(w[..base]), HexGroups(w[base + len..]));
    SlicesDenote(src, base, len);
    ShorthandParses(sh);
    ZeroWords(src, base, len);
    SplitInThree(src, 2 * base, 2 * (base + len));
  }

  lemma SlicesDenote(src: seq<byte>, base: nat, len: nat)
    requires |src| == 16 && base + len <= 8
    ensures var w := Words(src); var pre, post := HexGroups(w[..base]), HexGroups(w[base + len..]);
            AreGroups(pre) && AreGroups(post)
            && GroupBytes(pre) == src[0..2 * base] && GroupBytes(post) == src[2 * (base + len)..16]
  {
    var w := Words(src);
    WordsSlice(src, 0, base);
    WordsSlice(src, base + len, 8);
    assert w[0..base] == w[..base] && w[base + len..8] == w[base + len..];
    HexGroupsDenote(w[..base], src[0..2 * base]);
    HexGroupsDenote(w[base + len..], src[2 * (base + len)..16]);
  }

  lemma SplitInThree(s: seq<byte>, i: nat, j: nat)
    requires i <= j <= |s|
    ensures s == s[0..i] + s[i..j] + s[j..|s|]
  {
  }

  /** Two addresses with the same text are the same address. */
  lemma PrinterInjective(a: seq<byte>, b: seq<byte>, text: seq<byte>)
    requires |a| == 16 && |b| == 16 && IsTextOf(a, text) && IsTextOf(b, text)
    ensures a == b
  {
    PrintParseRoundTrip(a, text);
    PrintParseRoundTrip(b, text);
  }

  /** An address has one canonical text only. */
  lemma TextUnique(src: seq<byte>, t: seq<byte>, u: seq<byte>)
    requires |src| == 16 && IsTextOf(src, t) && IsTextOf(src, u)
    ensures t == u
  {
    hide Words, ZeroRun, Join, HexGroups, DottedQuad, QuadPrefix;
    var b, l :| IsCompressedRun(Words(src), b, l) && t == TextOf(src, b, l);
    var c, m :| IsCompressedRun(Words(src), c, m) && u == TextOf(src, c, m);
    RunUnique(Words(src), b, l, c, m);
  }

  lemma RunUnique(w: seq<nat>, b: int, l: int, c: int, m: int)
    requires IsCompressedRun(w, b, l) && IsCompressedRun(w, c, m)
    ensures b == c && (b != -1 ==> l == m)
  {
    hide ZeroRun;
    if b != -1 { assert ZeroRun(w, b, l); }
    if c != -1 { assert ZeroRun(w, c, m); }
  }
}
