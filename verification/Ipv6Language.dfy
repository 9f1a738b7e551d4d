// The language inet_pton6 accepts, exactly, and the well-formed texts inside it (section 2.2 of RFC 4291).
module Ipv6Language {
  import opened Bytes
  import opened Ipv6Text
  import opened Ipv6Parse
  import opened Ipv6Scan

  /** Every text of the language is accepted and read as its octets. */
  lemma TextParses(a: Address)
    requires a.Valid()
    ensures Pton6(a.Text()) == Some(a.Octets())
  {
    hide Outcome, Spread, GroupBytes, Colonized, Last.Octets, Last.Text, Pton6, Address.Text;
    var s, tail := a.Text(), Colonized(a.post) + a.last.Text();
    FromStart(s);
    TextShape(a);
    assert s[0..] == s;
    OctetsFromNone(a);
    if a.double && a.pre == [] {
      assert s[1..] == [COLON] + tail && s[1] == s[1..][0];
      ReadDouble(s, 1, START.(curtok := 1), a.post, a.last);
    } else {
      NotEmpty(a);
      TokenStart(a.pre[0]);
      if a.double {
        var j := ReadGroups(s, 0, START, a.pre, [COLON] + tail);
        ReadDouble(s, j, Scan([] + a.Before(), -1, j, false, 0), a.post, a.last);
      } else {
        ReadTail(s, 0, START, a.pre, a.last);
      }
    }
  }

  lemma OctetsFromNone(a: Address)
    requires a.Valid()
    ensures [] + a.Before() == a.Before() && [] + a.After() == a.After()
    ensures !a.double ==> [] + (GroupBytes(a.pre) + a.last.Octets()) == a.Octets()
    ensures a.double && a.pre == [] ==> a.Before() == []
  {
    hide Last.Octets;
    if !a.double { assert [] + a.last.Octets() == a.last.Octets(); }
  }

  lemma NotEmpty(a: Address)
    requires a.Valid() && (!a.double || a.pre != [])
    ensures a.pre != []
  {
    if a.last.Group? { PushToken([], a.last.g); }
  }

  // ----- What is accepted is such a text -----

  /** The first position from `i` on without a hexadecimal digit. */
  function HexEnd(s: seq<byte>, i: nat): (k: nat)
    requires i <= |s|
    ensures i <= k <= |s| && HexDigits(s[i..k]) && (k < |s| ==> HexValue(s[k]) < 0)
    decreases |s| - i
  {
    if i == |s| || HexValue(s[i]) < 0 then i else
      var k := HexEnd(s, i + 1);
      assert forall j :: i < j < k ==> s[j] == s[i + 1..k][j - i - 1];
      k
  }

  /** One token of an accepted text: its digits end at `k`, before a colon, or it is the end of the text. */
  lemma NextToken(s: seq<byte>, i: nat, st: Scan) returns (k: nat, last: Option<Last>)
    requires i <= |s| && AtToken(i, st) && Outcome(s, i, st).Some?
    ensures last.Some? ==> last.value.Valid() && s[i..] == last.value.Text() && |st.out + last.value.Octets()| <= 16
    ensures last.None? ==> i <= k < |s| && s[k] == COLON
    ensures last.None? && i == k ==>
      st.colon < 0 && Outcome(s, i, st) == Outcome(s, k + 1, st.(curtok := k + 1, colon := |st.out|))
    ensures last.None? && i < k ==>
      && |st.out| <= 14 && IsToken(s[i..k]) && AreTokens([s[i..k]])
      && Outcome(s, i, st) == Outcome(s, k + 1, Scan(st.out + GroupBytes([s[i..k]]), st.colon, k + 1, false, 0))
  {
    hide Outcome, Finish, Pton4, GroupBytes;
    k, last := HexEnd(s, i), None;
    var g := s[i..k];
    var t := st.(val := Val(g), saw := k > i);
    ScanDigits(s, i, st, k);
    if i < k { PushToken(st.out, g); }
    if k == |s| {
      EndStep(s, t);
      FinishIs(t);
      last := Some(if i < k then Group(g) else Nothing);
    } else if s[k] == COLON {
      ColonStep(s, k, t);
    } else if s[k] == DOT {
      DotStep(s, k, t);
      last := Some(Dotted(s[i..]));
    } else {
      OtherStep(s, k, t);
    }
  }

  lemma ColonizedFirst(s: seq<byte>, i: nat, k: nat, gs: seq<seq<byte>>, rest: seq<byte>)
    requires i <= k < |s| && s[k] == COLON && s[k + 1..] == Colonized(gs) + rest
    ensures s[i..] == Colonized([s[i..k]] + gs) + rest
  {
    var g := s[i..k];
    assert ([g] + gs)[1..] == gs;
    assert s[i..] == g + [COLON] + s[k + 1..];
    assert g + [COLON] + (Colonized(gs) + rest) == g + [COLON] + Colonized(gs) + rest;
  }

  lemma TokensCons(g: seq<byte>, gs: seq<seq<byte>>)
    requires IsToken(g) && AreTokens(gs)
    ensures AreTokens([g] + gs) && AreTokens([g]) && GroupBytes([g] + gs) == GroupBytes([g]) + GroupBytes(gs)
  {
    GroupBytesConcat([g], gs);
  }

  /** After the "::". */
  lemma {:induction false} AcceptedTail(s: seq<byte>, i: nat, st: Scan) returns (gs: seq<seq<byte>>, last: Last)
    requires i <= |s| && AtToken(i, st) && st.colon >= 0 && Outcome(s, i, st).Some?
    ensures AreTokens(gs) && last.Valid() && s[i..] == Colonized(gs) + last.Text()
    ensures |st.out + (GroupBytes(gs) + last.Octets())| <= 16
    decreases |s| - i
  {
    hide Outcome, Last.Text, Last.Octets;
    var k, end := NextToken(s, i, st);
    if end.Some? {
      gs, last := [], end.value;
      assert [] + last.Text() == last.Text();
    } else {
      var g := s[i..k];
      gs, last := AcceptedTail(s, k + 1, Scan(st.out + GroupBytes([g]), st.colon, k + 1, false, 0));
      ColonizedFirst(s, i, k, gs, last.Text());
      TokensCons(g, gs);
      gs := [g] + gs;
    }
  }

  /** Before the "::", if there is one. */
  lemma {:induction false} AcceptedHead(s: seq<byte>, i: nat, st: Scan) returns (a: Address)
    requires i <= |s| && AtToken(i, st) && st.colon < 0 && Outcome(s, i, st).Some?
    ensures a.Tokens() && s[i..] == Colonized(a.pre) + RestOf(a)
    ensures if a.double then |st.out + a.Before() + a.After()| <= 16 else |st.out + a.Before() + a.After()| == 16
    decreases |s| - i
  {
    hide Outcome, Last.Text, Last.Octets;
    var k, end := NextToken(s, i, st);
    if end.Some? {
      a := Address([], false, [], end.value);
      ReadLast(s, i, st, end.value);
    } else if i == k {
      var post, last := AcceptedTail(s, k + 1, st.(curtok := k + 1, colon := |st.out|));
      a := Address([], true, post, last);
      assert s[i..] == [COLON] + s[k + 1..];
    } else {
      var g := s[i..k];
      var b := AcceptedHead(s, k + 1, Scan(st.out + GroupBytes([g]), st.colon, k + 1, false, 0));
      ColonizedFirst(s, i, k, b.pre, RestOf(b));
      TokensCons(g, b.pre);
      a := b.(pre := [g] + b.pre);
    }
  }

  /** The text of an address after the groups before the "::". */
  function RestOf(a: Address): seq<byte> {
    if a.double then [COLON] + (Colonized(a.post) + a.last.Text()) else a.last.Text()
  }

  lemma AcceptedText(s: seq<byte>) returns (a: Address)
    requires Pton6(s).Some?
    ensures a.Valid() && s == a.Text()
  {
    hide Outcome, Last.Text, Last.Octets, Colonized, Pton6;
    FromStart(s);
    var i := if |s| > 0 && s[0] == COLON then 1 else 0;
    a := AcceptedHead(s, i, START.(curtok := i));
    TextShape(a);
    LeadingColon(s, i, a);
  }

  lemma LeadingColon(s: seq<byte>, i: nat, a: Address)
    requires i <= |s| && a.Tokens() && s[i..] == Colonized(a.pre) + RestOf(a)
    requires i == (if |s| > 0 && s[0] == COLON then 1 else 0) && (i == 1 ==> |s| > 1 && s[1] == COLON)
    requires if a.double then |a.Before() + a.After()| <= 16 else |a.Before() + a.After()| == 16
    ensures s == a.Text()
  {
    hide Colonized, Last.Text, Last.Octets, Address.Text, IsToken;
    TextShape(a);
    ColonizedStart(a.pre, RestOf(a));
    if i == 1 {
      assert s[1..][0] == COLON && s == [COLON] + s[1..];
    } else {
      assert s[0..] == s;
    }
    if a.pre == [] && !a.double { NotEmpty(a); }
  }

  lemma ColonizedStart(gs: seq<seq<byte>>, rest: seq<byte>)
    requires AreTokens(gs)
    ensures gs == [] ==> Colonized(gs) + rest == rest
    ensures gs != [] ==> Colonized(gs) + rest != [] && (Colonized(gs) + rest)[0] != COLON
  {
    if gs != [] { TokenStart(gs[0]); }
  }

  /**
   * Main result: the parser accepts exactly these texts: groups that denote 16-bit numbers, with any number of
   * digits, with at most one "::", ending in a colon, a group or a dotted quad, and of sixteen octets in all or at
   * most sixteen around the "::".
   */
  lemma AcceptedLanguage(s: seq<byte>)
    ensures Pton6(s).Some? <==> exists a: Address :: a.Valid() && a.Text() == s
    ensures forall a: Address :: a.Valid() && a.Text() == s ==> Pton6(s) == Some(a.Octets())
  {
    hide Pton6, Address.Text, Address.Valid, Address.Octets;
    if Pton6(s).Some? { var a := AcceptedText(s); }
    forall a: Address | a.Valid() && a.Text() == s ensures Pton6(s) == Some(a.Octets()) { TextParses(a); }
  }

  // ----- The texts of RFC 4291 -----

  lemma {:induction false} JoinColonized(gs: seq<seq<byte>>, rest: seq<byte>)
    requires gs != []
    ensures Join(gs) + ([COLON] + rest) == Colonized(gs) + rest
  {
    if |gs| > 1 {
      JoinColonized(gs[1..], rest);
      Reassociate(gs[0] + [COLON], Join(gs[1..]), [COLON] + rest);
      Reassociate(gs[0] + [COLON], Colonized(gs[1..]), rest);
    } else {
      Reassociate(gs[0], [COLON], rest);
      assert gs[0] + [COLON] + [] == gs[0] + [COLON];
    }
  }

  lemma {:induction false} JoinEnding(gs: seq<seq<byte>>)
    requires gs != []
    ensures Join(gs) == Colonized(gs[..|gs| - 1]) + gs[|gs| - 1]
  {
    var n := |gs| - 1;
    if n > 0 {
      JoinEnding(gs[1..]);
      assert gs[..n][1..] == gs[1..][..n - 1];
      Reassociate(gs[0] + [COLON], Colonized(gs[1..][..n - 1]), gs[n]);
    } else {
      assert [] + gs[0] == gs[0];
    }
  }

  lemma Reassociate(a: seq<byte>, b: seq<byte>, c: seq<byte>)
    ensures a + b + c == a + (b + c)
  {
  }

  /** Groups, of which the last ends the text. */
  function Ending(double: bool, pre: seq<seq<byte>>, gs: seq<seq<byte>>): Address
    requires double || pre == []
  {
    var n := |gs| - 1;
    if gs == [] then Address(pre, double, [], Nothing)
    else if double then Address(pre, true, gs[..n], Group(gs[n]))
    else Address(gs[..n], false, [], Group(gs[n]))
  }

  lemma GroupsSplit(gs: seq<seq<byte>>)
    requires gs != [] && AreTokens(gs)
    ensures var n := |gs| - 1;
      AreTokens(gs[..n]) && AreTokens([gs[n]]) && GroupBytes(gs[..n]) + GroupBytes([gs[n]]) == GroupBytes(gs)
  {
    hide GroupBytes, IsToken;
    var n := |gs| - 1;
    GroupBytesConcat(gs[..n], [gs[n]]);
    assert gs == gs[..n] + [gs[n]];
  }

  lemma PlainEnding(gs: seq<seq<byte>>)
    requires AreTokens(gs)
    ensures var a := Ending(false, [], gs);
      !a.double && a.Tokens() && a.Before() + a.After() == GroupBytes(gs) && a.Text() == Join(gs)
  {
    hide GroupBytes, Colonized, Join;
    var a := Ending(false, [], gs);
    TextShape(a);
    NoTokens();
    if gs != [] {
      JoinEnding(gs);
      GroupsSplit(gs);
      assert [] + a.last.Octets() == a.last.Octets();
    } else {
      assert Colonized([]) == [] && Join([]) == [] by { NoText(); }
    }
  }

  lemma NoText()
    ensures Colonized([]) == [] && Join([]) == []
  {
  }

  lemma DoubleEnding(pre: seq<seq<byte>>, gs: seq<seq<byte>>)
    requires AreTokens(pre) && AreTokens(gs)
    ensures var a := Ending(true, pre, gs);
      && a.double && a.Tokens() && a.Before() == GroupBytes(pre) && a.After() == GroupBytes(gs)
      && a.Text() == Join(pre) + [COLON, COLON] + Join(gs)
  {
    hide GroupBytes, Colonized, Join;
    var a := Ending(true, pre, gs);
    TextShape(a);
    DoubleText(pre, Join(gs));
    NoTokens();
    NoText();
    if gs != [] {
      JoinEnding(gs);
      GroupsSplit(gs);
    }
  }

  lemma DoubleText(pre: seq<seq<byte>>, tail: seq<byte>)
    ensures Join(pre) + [COLON, COLON] + tail
         == if pre == [] then [COLON] + ([COLON] + tail) else Colonized(pre) + ([COLON] + tail)
  {
    assert Join(pre) + [COLON, COLON] + tail == Join(pre) + ([COLON] + ([COLON] + tail));
    if pre == [] {
      assert [] + ([COLON] + ([COLON] + tail)) == [COLON] + ([COLON] + tail);
    } else {
      JoinColonized(pre, [COLON] + tail);
    }
  }

  lemma SpreadSplit(a: seq<byte>, b: seq<byte>)
    requires |a| + |b| <= 16
    ensures Spread(a + b, |a|) == if |a| + |b| == 16 then a + Zeros(|b|) else a + Zeros(16 - |a| - |b|) + b
  {
    assert (a + b)[..|a|] == a && (a + b)[|a|..] == b;
  }

  /** Every well-formed text without an embedded IPv4 part is accepted and read as the octets it denotes. */
  lemma ShorthandParses(sh: Shorthand)
    requires sh.WellFormed()
    ensures Pton6(sh.Text()) == Some(sh.Denotes())
  {
    hide Pton6, Spread, GroupBytes, Join, Colonized, Address.Text, Address.Before, Address.After, Ending;
    hide AreGroups, AreTokens;
    match sh
    case Full(gs) =>
      GroupsAreTokens(gs);
      PlainEnding(gs);
      TextParses(Ending(false, [], gs));
    case Compressed(pre, post) =>
      GroupsAreTokens(pre);
      GroupsAreTokens(post);
      DoubleEnding(pre, post);
      TextParses(Ending(true, pre, post));
      SpreadSplit(GroupBytes(pre), GroupBytes(post));
  }

  /** A text with an embedded IPv4 part: six groups and a quad, or at most five around one "::" and a quad. */
  datatype Mixed =
    | FullMixed(groups: seq<seq<byte>>, quad: seq<byte>)
    | CompressedMixed(pre: seq<seq<byte>>, post: seq<seq<byte>>, quad: seq<byte>)
  {
    predicate WellFormed() {
      |quad| == 4 &&
      match this
      case FullMixed(gs, _) => |gs| == 6 && AreGroups(gs)
      case CompressedMixed(pre, post, _) => |pre| + |post| <= 5 && AreGroups(pre) && AreGroups(post)
    }

    function Text(): seq<byte>
      requires WellFormed()
    {
      match this
      case FullMixed(gs, _) => Colonized(gs) + DottedQuad(quad)
      case CompressedMixed(pre, post, _) => Join(pre) + [COLON, COLON] + (Colonized(post) + DottedQuad(quad))
    }

    function Denotes(): (b: seq<byte>)
      requires WellFormed()
      ensures |b| == 16
    {
      match this
      case FullMixed(gs, _) => GroupBytes(gs) + quad
      case CompressedMixed(pre, post, _) =>
        GroupBytes(pre) + Zeros(12 - 2 * |pre| - 2 * |post|) + (GroupBytes(post) + quad)
    }
  }

  /** Every well-formed text with an embedded IPv4 part is accepted and read as the octets it denotes. */
  lemma MixedParses(m: Mixed)
    requires m.WellFormed()
    ensures Pton6(m.Text()) == Some(m.Denotes())
  {
    hide Pton6, Pton4, Spread, GroupBytes, Join, Colonized, Address.Text, AreGroups, AreTokens, DottedQuad;
    var last := Dotted(DottedQuad(m.quad));
    DottedQuadRoundTrip(m.quad);
    match m
    case FullMixed(gs, quad) =>
      var a := Address(gs, false, [], last);
      GroupsAreTokens(gs);
      NoTokens();
      TextShape(a);
      assert [] + quad == quad;
      TextParses(a);
    case CompressedMixed(pre, post, quad) =>
      var a := Address(pre, true, post, last);
      GroupsAreTokens(pre);
      GroupsAreTokens(post);
      TextShape(a);
      DoubleText(pre, Colonized(post) + DottedQuad(quad));
      TextParses(a);
      SpreadSplit(GroupBytes(pre), GroupBytes(post) + quad);
  }

  lemma NoTokens()
    ensures AreTokens([]) && GroupBytes([]) == []
  {
  }

  /**
   * The header comment says a "::" in a full address is ignored. It is not: a text of sixteen octets with a "::"
   * among them, whatever its form, is accepted, but the octets after the "::" read as zero. The "::" is ignored
   * exactly when they are zero.
   */
  lemma FullWithDoubleColon(a: Address)
    requires a.Tokens() && a.double && |a.Before() + a.After()| == 16
    ensures var r := Pton6(a.Text());
      && r == Some(a.Before() + Zeros(|a.After()|))
      && (r == Some(a.Before() + a.After()) <==> a.After() == Zeros(|a.After()|))
  {
    hide Pton6, Address.Text, Address.Before, Address.After;
    TextParses(a);
    SpreadSplit(a.Before(), a.After());
    SuffixesAgree(a.Before(), a.After(), Zeros(|a.After()|));
  }

  lemma SuffixesAgree(a: seq<byte>, b: seq<byte>, c: seq<byte>)
    ensures a + b == a + c <==> b == c
  {
    assert (a + b)[|a|..] == b && (a + c)[|a|..] == c;
  }

  lemma DigitIsToken(d: byte)
    requires 48 <= d <= 57
    ensures IsToken([d]) && Val([d]) == d - 48
  {
    assert [d][..0] == [] && Val([d][..0]) == 0;
  }

  /** A failing input: "1:2:3:4:5:6:7::8" is read as 1:2:3:4:5:6:7:0. */
  lemma EighthGroupLost()
    ensures var a := Address([[49], [50], [51], [52], [53], [54], [55]], true, [], Group([56]));
      && a.Valid() && a.After() == [0, 8]
      && Pton6(a.Text()) == Some(a.Before() + [0, 0])
  {
    hide Pton6, Val, HexDigits, IsToken;
    var a := Address([[49], [50], [51], [52], [53], [54], [55]], true, [], Group([56]));
    forall i | 0 <= i < 7 ensures IsToken(a.pre[i]) {
      DigitIsToken(49 + i);
      assert a.pre[i] == [49 + i];
    }
    DigitIsToken(56);
    NoTokens();
    PushToken([], [56]);
    HiLoShift(8);
    assert [] + GroupBytes([[56]]) == [0, 8];
    FullWithDoubleColon(a);
    assert Zeros(2) == [0, 0];
  }
}
