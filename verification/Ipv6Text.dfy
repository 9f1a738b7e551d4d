// Colon-separated hexadecimal groups, and what a textual IPv6 address that is made of them denotes
// (section 2.2 of RFC 4291).
module Ipv6Text {
  import opened Bytes

  /** The value of a hexadecimal digit in either case, or -1: the two strchr searches of the parser. */
  function HexValue(c: byte): (d: int)
    ensures -1 <= d < 16
  {
    if 48 <= c <= 57 then c - 48
    else if 97 <= c <= 102 then c - 87
    else if 65 <= c <= 70 then c - 55
    else -1
  }

  function HexChar(d: int): (c: byte)
    requires 0 <= d < 16
    ensures HexValue(c) == d
  {
    if d < 10 then 48 + d else 87 + d
  }

  /** The digits are those of the two literal tables, and the printer uses the lower-case one. */
  lemma DigitTables(c: byte, d: nat)
    requires d < 16
    ensures HexValue(c) == d <==> c == LOWER_DIGITS[d] || c == UPPER_DIGITS[d]
    ensures HexChar(d) == LOWER_DIGITS[d]
  {
  }

  /** Lower-case hexadecimal without leading zeros, as "%x" prints it. */
  function HexText(w: nat): (t: seq<byte>)
    ensures |t| >= 1
  {
    if w < 16 then [HexChar(w)] else HexText(w / 16) + [HexChar(w % 16)]
  }

  /** Decimal without leading zeros, as "%u" prints it. */
  function DecText(n: nat): (t: seq<byte>)
    ensures |t| >= 1
    ensures forall i :: 0 <= i < |t| ==> 48 <= t[i] <= 57
  {
    if n < 10 then [48 + n] else DecText(n / 10) + [48 + n % 10]
  }

  predicate HexDigits(g: seq<byte>) {
    forall i :: 0 <= i < |g| ==> HexValue(g[i]) >= 0
  }

  /** The number a string of hexadecimal digits denotes. */
  function Val(g: seq<byte>): (v: nat)
    requires HexDigits(g)
  {
    if g == [] then 0 else Val(g[..|g| - 1]) * 16 + HexValue(g[|g| - 1])
  }

  lemma ValBound(g: seq<byte>)
    requires HexDigits(g) && |g| <= 4
    ensures Val(g) < (if |g| == 4 then 65536 else if |g| == 3 then 4096 else if |g| == 2 then 256 else 16)
  {
    if g != [] { ValBound(g[..|g| - 1]); }
  }

  /** What the parser takes for a group: hexadecimal digits, however many, that denote a 16-bit number. */
  predicate IsToken(g: seq<byte>) {
    g != [] && HexDigits(g) && Val(g) < 65536
  }

  predicate AreTokens(gs: seq<seq<byte>>) {
    forall i :: 0 <= i < |gs| ==> IsToken(gs[i])
  }

  predicate IsGroup(g: seq<byte>) {
    |g| <= 4 && IsToken(g)
  }

  /** A group proper: one to four hexadecimal digits. */
  lemma GroupMeans(g: seq<byte>)
    ensures IsGroup(g) <==> 1 <= |g| <= 4 && HexDigits(g)
  {
    if |g| <= 4 && HexDigits(g) { ValBound(g); }
  }

  predicate AreGroups(gs: seq<seq<byte>>) {
    forall i :: 0 <= i < |gs| ==> IsGroup(gs[i])
  }

  lemma GroupsAreTokens(gs: seq<seq<byte>>)
    requires AreGroups(gs)
    ensures AreTokens(gs)
  {
  }

  lemma GroupsConcat(a: seq<seq<byte>>, b: seq<seq<byte>>)
    requires AreGroups(a) && AreGroups(b)
    ensures AreGroups(a + b)
  {
  }

  lemma ValZeroPad(g: seq<byte>)
    requires HexDigits(g)
    ensures HexDigits([ZERO_DIGIT] + g) && Val([ZERO_DIGIT] + g) == Val(g)
  {
    var p := [ZERO_DIGIT] + g;
    if g != [] {
      ValZeroPad(g[..|g| - 1]);
      assert p[..|p| - 1] == [ZERO_DIGIT] + g[..|g| - 1];
    } else {
      assert p[..0] == [];
      assert Val(p) == Val(p[..0]) * 16 + HexValue(p[0]);
    }
  }

  /** Printing a 16-bit word gives a group that denotes it. */
  lemma {:induction false} HexTextIsGroup(w: nat)
    requires w < 65536
    ensures IsGroup(HexText(w)) && Val(HexText(w)) == w
    ensures |HexText(w)| == (if w < 16 then 1 else if w < 256 then 2 else if w < 4096 then 3 else 4)
  {
    var t := HexText(w);
    if w >= 16 {
      HexTextIsGroup(w / 16);
      assert t[..|t| - 1] == HexText(w / 16);
    } else {
      assert t[..0] == [];
      assert Val(t) == Val(t[..0]) * 16 + HexValue(t[0]);
    }
  }

  /** The groups of a text, separated by single colons. */
  function Join(gs: seq<seq<byte>>): seq<byte> {
    if gs == [] then [] else if |gs| == 1 then gs[0] else gs[0] + [COLON] + Join(gs[1..])
  }

  lemma {:induction false} JoinAppend(gs: seq<seq<byte>>, g: seq<byte>)
    ensures Join(gs + [g]) == if gs == [] then g else Join(gs) + [COLON] + g
  {
    if |gs| > 1 {
      JoinAppend(gs[1..], g);
      assert (gs + [g])[1..] == gs[1..] + [g];
      assert gs[0] + [COLON] + (Join(gs[1..]) + [COLON] + g) == gs[0] + [COLON] + Join(gs[1..]) + [COLON] + g;
    } else if |gs| == 1 {
      assert (gs + [g])[1..] == [g];
    } else {
      assert gs + [g] == [g];
    }
  }

  /** The two octets of each group, in network order. */
  function GroupBytes(gs: seq<seq<byte>>): (b: seq<byte>)
    requires AreTokens(gs)
    ensures |b| == 2 * |gs|
  {
    if gs == [] then [] else [Hi(Val(gs[0])), Lo(Val(gs[0]))] + GroupBytes(gs[1..])
  }

  lemma {:induction false} GroupBytesConcat(a: seq<seq<byte>>, b: seq<seq<byte>>)
    requires AreTokens(a) && AreTokens(b)
    ensures AreTokens(a + b) && GroupBytes(a + b) == GroupBytes(a) + GroupBytes(b)
  {
    forall i | 0 <= i < |a + b| ensures IsToken((a + b)[i]) {}
    if a == [] {
      assert a + b == b;
    } else {
      GroupBytesConcat(a[1..], b);
      assert (a + b)[0] == a[0] && (a + b)[1..] == a[1..] + b;
    }
  }

  /**
   * A well-formed address text without an embedded IPv4 part: eight groups, or at most seven
   * around one "::".
   */
  datatype Shorthand =
    | Full(groups: seq<seq<byte>>)
    | Compressed(pre: seq<seq<byte>>, post: seq<seq<byte>>)
  {
    predicate WellFormed() {
      match this
      case Full(gs) => |gs| == 8 && AreGroups(gs)
      case Compressed(pre, post) => |pre| + |post| <= 7 && AreGroups(pre) && AreGroups(post)
    }

    function Text(): seq<byte> {
      match this
      case Full(gs) => Join(gs)
      case Compressed(pre, post) => Join(pre) + [COLON, COLON] + Join(post)
    }

    /** The sixteen octets the text stands for. */
    function Denotes(): (b: seq<byte>)
      requires WellFormed()
      ensures |b| == 16
    {
      match this
      case Full(gs) => GroupBytes(gs)
      case Compressed(pre, post) => GroupBytes(pre) + Zeros(16 - 2 * |pre| - 2 * |post|) + GroupBytes(post)
    }
  }
}
