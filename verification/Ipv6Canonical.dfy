// The canonical texts of the kinds of addresses that section 2.2 of RFC 4291 shows.
module Ipv6Canonical {
  import opened Bytes
  import opened Ipv6Text
  import opened Ipv6Parse
  import opened Ipv6Print

  /** The run that is compressed decides the text. */
  lemma TextOfRun(src: seq<byte>, base: int, len: int, text: seq<byte>)
    requires |src| == 16 && IsCompressedRun(Words(src), base, len)
    ensures base == -1 || ZeroRun(Words(src), base, len)
    ensures IsTextOf(src, text) <==> text == TextOf(src, base, len)
  {
    hide Words, TextOf, ZeroRun;
    if IsTextOf(src, text) { TextUnique(src, text, TextOf(src, base, len)); }
  }

  lemma Misses(w: seq<nat>, b: int, l: int, i: nat)
    requires ZeroRun(w, b, l) && i < |w| && w[i] != 0
    ensures i < b || b + l <= i
  {
  }

  lemma ZeroText()
    ensures HexText(0) == [ZERO_DIGIT]
  {
  }

  /** Of two longest runs the first is compressed. */
  lemma FirstLongest(src: seq<byte>, a: nat, b: nat, c: nat, d: nat, text: seq<byte>)
    requires |src| == 16 && Words(src) == [a, 0, 0, b, c, 0, 0, d] && a != 0 && b != 0 && c != 0 && d != 0
    ensures IsTextOf(src, text) <==>
            text == HexText(a) + [COLON, COLON] + Join([HexText(b), HexText(c), [ZERO_DIGIT], [ZERO_DIGIT], HexText(d)])
  {
    hide Words, HexText, IsTextOf;
    var w := Words(src);
    forall s, l | ZeroRun(w, s, l) ensures l < 2 || (l == 2 && 1 <= s) {
      Misses(w, s, l, 0);
      Misses(w, s, l, 3);
      Misses(w, s, l, 4);
      Misses(w, s, l, 7);
    }
    TextOfRun(src, 1, 2, text);
    ZeroText();
    assert HexGroups(w[..1]) == [HexText(a)];
    assert HexGroups(w[3..]) == [HexText(b), HexText(c), HexText(0), HexText(0), HexText(d)];
  }

  /** A longer run is compressed before a shorter one that comes first. */
  lemma LongestRun(src: seq<byte>, a: nat, b: nat, c: nat, text: seq<byte>)
    requires |src| == 16 && Words(src) == [a, 0, 0, b, 0, 0, 0, c] && a != 0 && b != 0 && c != 0
    ensures IsTextOf(src, text) <==>
            text == Join([HexText(a), [ZERO_DIGIT], [ZERO_DIGIT], HexText(b)]) + [COLON, COLON] + HexText(c)
  {
    hide Words, HexText, IsTextOf;
    var w := Words(src);
    forall s, l | ZeroRun(w, s, l) ensures l < 3 || (l == 3 && 4 <= s) {
      Misses(w, s, l, 0);
      Misses(w, s, l, 3);
      Misses(w, s, l, 7);
    }
    TextOfRun(src, 4, 3, text);
    ZeroText();
    assert HexGroups(w[..4]) == [HexText(a), HexText(0), HexText(0), HexText(b)];
    assert HexGroups(w[7..]) == [HexText(c)];
  }

  /** A single zero word is printed. */
  lemma SingleZero(src: seq<byte>, a: nat, w: seq<nat>, text: seq<byte>)
    requires |src| == 16 && |w| == 6 && Words(src) == [a, 0] + w && a != 0 && forall i :: 0 <= i < 6 ==> w[i] != 0
    ensures IsTextOf(src, text) <==> text == Join([HexText(a), [ZERO_DIGIT]] + HexGroups(w))
  {
    hide Words, HexText, IsTextOf;
    var v := Words(src);
    forall i | 2 <= i < 8 ensures v[i] != 0 { assert v[i] == w[i - 2]; }
    forall s, l | ZeroRun(v, s, l) ensures l < 2 {
      Misses(v, s, l, 0);
      Misses(v, s, l, 2);
      if s >= 2 { Misses(v, s, l, s); }
    }
    TextOfRun(src, -1, 0, text);
    ZeroText();
    assert HexGroups(v) == [HexText(a), HexText(0)] + HexGroups(w);
  }

  lemma ZeroFront(src: seq<byte>, n: nat)
    requires |src| == 16 && n <= 8 && forall i :: 0 <= i < 2 * n ==> src[i] == 0
    ensures forall i :: 0 <= i < n ==> Words(src)[i] == 0
  {
  }

  /** The unspecified address is "::". */
  lemma Unspecified(text: seq<byte>)
    ensures IsTextOf(Zeros(16), text) <==> text == [COLON, COLON]
  {
    hide IsTextOf, Words;
    var w := Words(Zeros(16));
    ZeroFront(Zeros(16), 8);
    TextOfRun(Zeros(16), 0, 8, text);
    assert HexGroups(w[..0]) == [] && HexGroups(w[8..]) == [];
  }

  /** The loopback address is "::1". */
  lemma Loopback(text: seq<byte>)
    ensures IsTextOf(Zeros(15) + [1], text) <==> text == [58, 58, 49]
  {
    hide IsTextOf, Words;
    var src := Zeros(15) + [1];
    var w := Words(src);
    ZeroFront(src, 7);
    WordAt(src, 7);
    forall s, l | ZeroRun(w, s, l) ensures l < 7 || (l == 7 && 0 <= s) { Misses(w, s, l, 7); }
    TextOfRun(src, 0, 7, text);
    assert HexText(1) == [49];
    assert HexGroups(w[..0]) == [] && HexGroups(w[7..]) == [HexText(1)];
  }

  /** An IPv4-mapped address is "::ffff:" and the dotted quad. */
  lemma Mapped(quad: seq<byte>, text: seq<byte>)
    requires |quad| == 4
    ensures var src := Zeros(10) + [255, 255] + quad;
            IsTextOf(src, text) <==> text == [58, 58, 102, 102, 102, 102, 58] + DottedQuad(quad)
  {
    hide IsTextOf, DottedQuad, Words;
    var src := Zeros(10) + [255, 255] + quad;
    var w := Words(src);
    ZeroFront(src, 5);
    WordAt(src, 5);
    forall s, l | ZeroRun(w, s, l) ensures l < 5 || (l == 5 && 0 <= s) { Misses(w, s, l, 5); }
    TextOfRun(src, 0, 5, text);
    assert src[12..] == quad;
    assert HexText(0xffff) == HexText(0xfff) + [102] == HexText(0xff) + [102] + [102] == [102, 102, 102, 102];
    assert QuadPrefix(5) == [COLON, COLON, 102, 102, 102, 102, COLON];
  }

  /** An IPv4-compatible address is "::" and the dotted quad, if its first word is not zero. */
  lemma Compatible(quad: seq<byte>, text: seq<byte>)
    requires |quad| == 4 && (quad[0] != 0 || quad[1] != 0)
    ensures IsTextOf(Zeros(12) + quad, text) <==> text == [COLON, COLON] + DottedQuad(quad)
  {
    hide IsTextOf, DottedQuad, Words;
    var src := Zeros(12) + quad;
    var w := Words(src);
    ZeroFront(src, 6);
    WordAt(src, 6);
    forall s, l | ZeroRun(w, s, l) ensures l < 6 || (l == 6 && 0 <= s) { Misses(w, s, l, 6); }
    TextOfRun(src, 0, 6, text);
    assert src[12..] == quad;
    assert QuadPrefix(6) == [COLON, COLON];
  }

  /** A dotted quad. */
  lemma LocalHost()
    ensures DottedQuad([127, 0, 0, 1]) == [49, 50, 55, 46, 48, 46, 48, 46, 49]
  {
    assert DecText(127) == DecText(12) + [55] == DecText(1) + [50] + [55] == [49, 50, 55];
  }
}
