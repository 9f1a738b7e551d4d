// The printing loops of inet_ntop4 and inet_ntop6, proved to produce the canonical text.
module Ipv6Printer {
  import opened Bytes
  import opened Ipv6Text
  import opened Ipv6Parse
  import opened Ipv6Print

  /** strncpy from a terminated buffer: the text, then NULs up to `size`. */
  method CopyOut(dst: array<byte>, at: nat, size: nat, text: seq<byte>)
    requires at + size <= dst.Length && |text| < size
    modifies dst
    ensures dst[..] == old(dst[..at]) + text + Zeros(size - |text|) + old(dst[at + size..])
  {
    forall k | 0 <= k < size { dst[at + k] := if k < |text| then text[k] else 0; }
  }

  /** inet_ntop4, writing at `dst[at..]` with room for `size` bytes. */
  method InetNtop4(src: seq<byte>, dst: array<byte>, at: nat, size: nat) returns (ok: bool)
    requires |src| == 4 && at + size <= dst.Length
    modifies dst
    ensures ok == (|DottedQuad(src)| < size)
    ensures !ok ==> dst[..] == old(dst[..])
    ensures ok ==> dst[..] == old(dst[..at]) + DottedQuad(src) + Zeros(size - |DottedQuad(src)|) + old(dst[at + size..])
  {
    if |DottedQuad(src)| >= size { return false; }
    CopyOut(dst, at, size, DottedQuad(src));
    return true;
  }

  lemma DottedQuadFits(q: seq<byte>)
    requires |q| == 4
    ensures |DottedQuad(q)| <= 15
  {
    forall i | 0 <= i < 4 ensures |DecText(q[i])| <= 3 { assert |DecText(q[i] / 10)| <= 2; }
  }

  /** The bytewise address copied into words. */
  method LoadWords(src: seq<byte>) returns (words: array<nat>)
    requires |src| == 16
    ensures fresh(words) && words[..] == Words(src)
  {
    words := new nat[8](_ => 0);
    for i := 0 to 16
      invariant forall k :: 0 <= k < 8 ==> words[k] == PartWord(src, i, k)
    {
      ghost var was := words[..];
      var j := i / 2;
      words[j] := words[j] + src[i] as int * (if i % 2 == 0 then 256 else 1);
      forall k | 0 <= k < 8 ensures words[k] == PartWord(src, i + 1, k) { PartNext(src, i, k); }
    }
  }

  /** The word `k` after the first `i` octets have been copied. */
  function PartWord(src: seq<byte>, i: nat, k: nat): nat
    requires |src| == 16 && k < 8
  {
    (if 2 * k < i then src[2 * k] as int * 256 else 0) + (if 2 * k + 1 < i then src[2 * k + 1] as int else 0)
  }

  lemma PartNext(src: seq<byte>, i: nat, k: nat)
    requires |src| == 16 && i < 16 && k < 8
    ensures PartWord(src, i + 1, k)
         == PartWord(src, i, k) + if k == i / 2 then src[i] as int * (if i % 2 == 0 then 256 else 1) else 0
  {
  }

  /** Every zero run of `w` that ends by `limit` is beaten by the run (base, len), which is one of them. */
  ghost predicate BestUpTo(w: seq<nat>, limit: int, base: int, len: int) {
    && (base != -1 ==> ZeroRun(w, base, len) && base + len <= limit)
    && forall b, l :: ZeroRun(w, b, l) && b + l <= limit ==> base != -1 && (l < len || (l == len && base <= b))
  }

  /** The run scan of inet_ntop6. */
  method FindRun(w: seq<nat>) returns (base: int, len: int)
    requires |w| == 8
    ensures IsCompressedRun(w, base, len)
  {
    var curBase, curLen := -1, 0;
    base, len := -1, 0;
    for i := 0 to 8
      invariant curBase != -1 ==> ZeroRun(w, curBase, curLen) && curBase + curLen == i
      invariant curBase > 0 ==> w[curBase - 1] != 0
      invariant curBase == -1 && i > 0 ==> w[i - 1] != 0
      invariant BestUpTo(w, if curBase == -1 then i else curBase, base, len)
    {
      if w[i] == 0 {
        if curBase == -1 {
          curBase, curLen := i, 1;
        } else {
          curLen := curLen + 1;
        }
      } else {
        if curBase != -1 {
          CloseRun(w, i, base, len, curBase, curLen);
          if base == -1 || curLen > len { base, len := curBase, curLen; }
          curBase := -1;
        }
        assert forall b, l :: ZeroRun(w, b, l) ==> w[b + l - 1] == 0;
      }
    }
    if curBase != -1 {
      CloseRun(w, 8, base, len, curBase, curLen);
      if base == -1 || curLen > len { base, len := curBase, curLen; }
    }
    if base != -1 && len < 2 { base := -1; }
  }

  lemma CloseRun(w: seq<nat>, i: nat, base: int, len: int, curBase: int, curLen: int)
    requires i <= |w| && ZeroRun(w, curBase, curLen) && curBase + curLen == i
    requires curBase > 0 ==> w[curBase - 1] != 0
    requires BestUpTo(w, curBase, base, len)
    ensures if base == -1 || curLen > len then BestUpTo(w, i, curBase, curLen) else BestUpTo(w, i, base, len)
  {
    forall b, l | ZeroRun(w, b, l) && b + l <= i && b + l > curBase ensures b >= curBase && l <= curLen {
      assert forall k :: b <= k < b + l ==> w[k] == 0;
    }
  }

  /** What stands in the buffer after the first `i` words have been dealt with. */
  function Printed(w: seq<nat>, base: int, len: int, i: nat): seq<byte>
    requires i <= |w| && (base == -1 || ZeroRun(w, base, len))
  {
    if base == -1 || i <= base then Join(HexGroups(w[..i]))
    else if i <= base + len then Join(HexGroups(w[..base])) + [COLON]
    else Join(HexGroups(w[..base])) + [COLON, COLON] + Join(HexGroups(w[base + len..i]))
  }

  lemma HexGroupsAppend(w: seq<nat>, lo: nat, i: nat)
    requires lo <= i < |w|
    ensures Join(HexGroups(w[lo..i + 1]))
         == if lo == i then HexText(w[i]) else Join(HexGroups(w[lo..i])) + [COLON] + HexText(w[i])
  {
    assert HexGroups(w[lo..i + 1]) == HexGroups(w[lo..i]) + [HexText(w[i])];
    JoinAppend(HexGroups(w[lo..i]), HexText(w[i]));
  }

  /** One turn of the printing loop, for a word outside the compressed run. */
  lemma PrintedNext(w: seq<nat>, base: int, len: int, i: nat)
    requires i < |w| && (base == -1 || ZeroRun(w, base, len)) && !(base != -1 && base <= i < base + len)
    ensures Printed(w, base, len, i + 1) == Printed(w, base, len, i) + (if i != 0 then [COLON] else []) + HexText(w[i])
  {
    hide Join, HexGroups, HexText;
    if base == -1 || i < base {
      PrintedPlain(w, i);
    } else {
      HexGroupsAppend(w, base + len, i);
      PrintedTail(Join(HexGroups(w[..base])), Join(HexGroups(w[base + len..i])), HexText(w[i]));
    }
  }

  lemma PrintedPlain(w: seq<nat>, i: nat)
    requires i < |w|
    ensures Join(HexGroups(w[..i + 1])) == Join(HexGroups(w[..i])) + (if i != 0 then [COLON] else []) + HexText(w[i])
  {
    HexGroupsAppend(w, 0, i);
    assert w[0..i + 1] == w[..i + 1] && w[0..i] == w[..i];
    if i == 0 { assert HexGroups(w[..0]) == []; }
  }

  lemma PrintedTail(x: seq<byte>, j: seq<byte>, h: seq<byte>)
    ensures x + [COLON] + [COLON] + h == x + [COLON, COLON] + h
    ensures (x + [COLON, COLON] + j) + [COLON] + h == x + [COLON, COLON] + (j + [COLON] + h)
  {
  }

  /** snprintf of a text that fits, with its terminating NUL. */
  method Append(tmp: array<byte>, tp: nat, text: seq<byte>) returns (next: nat)
    requires tp + |text| < tmp.Length
    modifies tmp
    ensures next == tp + |text| && tmp[..next] == old(tmp[..tp]) + text && tmp[next] == 0
  {
    forall k | 0 <= k < |text| { tmp[tp + k] := text[k]; }
    tmp[tp + |text|] := 0;
    next := tp + |text|;
  }

  /** The embedded IPv4 part, printed into what is left of the buffer. */
  method AppendQuad(tmp: array<byte>, tp: nat, quad: seq<byte>) returns (next: nat)
    requires |quad| == 4 && tp + 15 < tmp.Length
    modifies tmp
    ensures next == tp + |DottedQuad(quad)| <= tp + 15 && tmp[..next] == old(tmp[..tp]) + DottedQuad(quad)
  {
    DottedQuadFits(quad);
    var ok := InetNtop4(quad, tmp, tp, tmp.Length - tp);
    next := tp + |DottedQuad(quad)|;
  }

  lemma PrintedStart(w: seq<nat>, base: int, len: int)
    requires base == -1 || ZeroRun(w, base, len)
    ensures Printed(w, base, len, 0) == []
  {
    assert HexGroups(w[..0]) == [];
  }

  /** One turn of the printing loop inside the compressed run. */
  lemma PrintedSkip(w: seq<nat>, base: int, len: int, i: nat)
    requires ZeroRun(w, base, len) && base <= i < base + len
    ensures Printed(w, base, len, i + 1) == Printed(w, base, len, i) + if i == base then [COLON] else []
  {
  }

  /** After the last word the text is there, up to a trailing colon. */
  lemma PrintedAll(w: seq<nat>, base: int, len: int)
    requires |w| == 8 && (base == -1 || ZeroRun(w, base, len))
    ensures Printed(w, base, len, 8) + (if base != -1 && base + len == 8 then [COLON] else []) ==
            if base == -1 then Join(HexGroups(w))
            else Join(HexGroups(w[..base])) + [COLON, COLON] + Join(HexGroups(w[base + len..]))
  {
    assert w[..8] == w && |HexGroups(w[8..])| == 0;
    if base != -1 && base + len == 8 {
      var x := Join(HexGroups(w[..base]));
      assert x + [COLON, COLON] + [] == x + [COLON] + [COLON];
    }
  }

  lemma PlainText(src: seq<byte>, base: int, len: int)
    requires |src| == 16 && (base == -1 || ZeroRun(Words(src), base, len)) && !EmbedsIpv4(Words(src), base, len)
    ensures TextOf(src, base, len) ==
            if base == -1 then Join(HexGroups(Words(src)))
            else Join(HexGroups(Words(src)[..base])) + [COLON, COLON] + Join(HexGroups(Words(src)[base + len..]))
  {
    hide Words, Join, HexGroups, ZeroRun;
  }

  /** The formatting loop of inet_ntop6 and the trailing colon: never writes past the buffer. */
  method Format(src: seq<byte>, base: int, len: int, tmp: array<byte>) returns (tp: nat)
    requires |src| == 16 && tmp.Length == 46 && IsCompressedRun(Words(src), base, len)
    modifies tmp
    ensures tp < 46 && tmp[..tp] == TextOf(src, base, len)
  {
    hide Words, Printed, TextOf, ZeroRun;
    var w := Words(src);
    tp := 0;
    var i := 0;
    PrintedStart(w, base, len);
    while i < 8
      invariant 0 <= i <= 8 && tp <= 5 * i && tp < 46 && tmp[..tp] == Printed(w, base, len, i)
      invariant EmbedsIpv4(w, base, len) ==> i <= 6
    {
      if base != -1 && base <= i < base + len {
        PrintedSkip(w, base, len, i);
        if i == base {
          tp := Append(tmp, tp, [COLON]);
        }
        i := i + 1;
        continue;
      }
      var last;
      tp, last := FormatWord(src, base, len, i, tmp, tp);
      if last { return; }
      i := i + 1;
    }
    PrintedAll(w, base, len);
    PlainText(src, base, len);
    if base != -1 && base + len == 8 {
      tp := Append(tmp, tp, [COLON]);
    }
  }

  /** One turn of the loop outside the compressed run; `last` when it printed the embedded IPv4 part. */
  method FormatWord(src: seq<byte>, base: int, len: int, i: nat, tmp: array<byte>, tp: nat)
      returns (next: nat, last: bool)
    requires |src| == 16 && tmp.Length == 46 && IsCompressedRun(Words(src), base, len)
    requires i < 8 && !(base != -1 && base <= i < base + len)
    requires tp <= 5 * i && tmp[..tp] == Printed(Words(src), base, len, i)
    modifies tmp
    ensures next < 46 && last == (i == 6 && EmbedsIpv4(Words(src), base, len))
    ensures last ==> tmp[..next] == TextOf(src, base, len)
    ensures !last ==> next <= 5 * (i + 1) && tmp[..next] == Printed(Words(src), base, len, i + 1)
  {
    hide Words, Printed, TextOf, ZeroRun, HexText, DottedQuad;
    var w := Words(src);
    next := tp;
    if i != 0 {
      next := Append(tmp, next, [COLON]);
    }
    if i == 6 && EmbedsIpv4(w, base, len) {
      QuadPrefixPrinted(src, len);
      next := AppendQuad(tmp, next, src[12..]);
      return next, true;
    }
    PrintedNext(w, base, len, i);
    WordAt(src, i);
    HexTextIsGroup(w[i]);
    next := Append(tmp, next, HexText(w[i]));
    return next, false;
  }

  lemma QuadPrefixPrinted(src: seq<byte>, len: int)
    requires |src| == 16 && ZeroRun(Words(src), 0, len) && EmbedsIpv4(Words(src), 0, len)
    ensures var before := Printed(Words(src), 0, len, 6) + [COLON];
      |before| <= 7 && TextOf(src, 0, len) == before + DottedQuad(src[12..])
  {
    hide Words, DottedQuad, HexText;
    var w := Words(src);
    assert HexGroups(w[..0]) == [];
    if len == 5 {
      HexTextIsGroup(0xffff);
      assert HexGroups(w[5..6]) == [HexText(0xffff)];
    }
  }

  lemma CanonicalText(src: seq<byte>, base: int, len: int) returns (text: seq<byte>)
    requires |src| == 16 && IsCompressedRun(Words(src), base, len)
    ensures text == TextOf(src, base, len) && IsTextOf(src, text)
  {
    text := TextOf(src, base, len);
  }

  /**
   * inet_ntop6: succeeds exactly when the canonical text and its NUL fit in `size` bytes, and then
   * leaves that text, padded with NULs, in `dst`.
   */
  method InetNtop6(src: seq<byte>, dst: array<byte>, size: nat) returns (ok: bool, ghost text: seq<byte>)
    requires |src| == 16 && size <= dst.Length
    modifies dst
    ensures IsTextOf(src, text) && |text| <= 45
    ensures ok == (|text| + 1 <= size)
    ensures !ok ==> dst[..] == old(dst[..])
    ensures ok ==> dst[..] == text + Zeros(size - |text|) + old(dst[size..])
  {
    hide TextOf, IsCompressedRun, IsTextOf, Words;
    var tmp := new byte[46];
    var words := LoadWords(src);
    var base, len := FindRun(words[..]);
    var tp := Format(src, base, len, tmp);
    text := CanonicalText(src, base, len);
    tmp[tp] := 0;
    assert tmp[..tp] == text;
    if tp + 1 > size { return false, text; }
    CopyOut(dst, 0, size, tmp[..tp]);
    return true, text;
  }
}
