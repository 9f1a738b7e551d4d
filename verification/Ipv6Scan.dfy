// The texts of which the language of inet_pton6 consists, and what its scanning loop makes of their parts: a token, a
// group with its colon, a "::", and the end of a text.
module Ipv6Scan {
  import opened Bytes
  import opened Ipv6Text
  import opened Ipv6Parse

  // ----- The texts -----

  /** How a text ends: with a colon or nothing, with a group, or with a dotted quad. */
  datatype Last = Nothing | Group(g: seq<byte>) | Dotted(text: seq<byte>)
  {
    predicate Valid() {
      match this
      case Nothing => true
      case Group(g) => IsToken(g)
      case Dotted(t) => Pton4(t).Some?
    }

    function Text(): seq<byte> {
      match this
      case Nothing => []
      case Group(g) => g
      case Dotted(t) => t
    }

    function Octets(): (b: seq<byte>)
      requires Valid()
    {
      match this
      case Nothing => []
      case Group(g) => GroupBytes([g])
      case Dotted(t) => Pton4(t).value
    }
  }

  /** Groups with a colon after each. */
  function Colonized(gs: seq<seq<byte>>): seq<byte> {
    if gs == [] then [] else gs[0] + [COLON] + Colonized(gs[1..])
  }

  /** The groups before the "::", whether there is one, the groups after it, and the end. */
  datatype Address = Address(pre: seq<seq<byte>>, double: bool, post: seq<seq<byte>>, last: Last)
  {
    predicate Tokens() {
      AreTokens(pre) && AreTokens(post) && last.Valid() && (!double ==> post == [])
    }

    function Before(): seq<byte>
      requires Tokens()
    {
      GroupBytes(pre)
    }

    function After(): seq<byte>
      requires Tokens()
    {
      GroupBytes(post) + last.Octets()
    }

    /** Sixteen octets in all, or at most sixteen around a "::". */
    predicate Valid() {
      Tokens() && if double then |Before() + After()| <= 16 else |Before() + After()| == 16
    }

    function Text(): seq<byte> {
      (if double && pre == [] then [COLON] else []) + Colonized(pre) + (if double then [COLON] else [])
      + Colonized(post) + last.Text()
    }

    /** What the parser reads: with a "::" and no room left, the octets after it are zero. */
    function Octets(): (b: seq<byte>)
      requires Valid()
      ensures |b| == 16
    {
      if double then Spread(Before() + After(), |Before()|) else Before() + After()
    }
  }

  // ----- One token -----

  /** The scanner at the start of a token. */
  ghost predicate AtToken(i: nat, st: Scan) {
    st.Ok() && st.curtok == i && !st.saw && st.val == 0
  }

  /** The result of scanning on from `i` and finishing. */
  function Outcome(s: seq<byte>, i: nat, st: Scan): Option<seq<byte>>
    requires i <= |s| && st.curtok <= i && st.Ok()
  {
    match ScanFrom(s, i, st)
    case None => None
    case Some(t) => Finish(t)
  }

  function Spreaded(all: seq<byte>, colon: int): Option<seq<byte>>
    requires |all| <= 16 && colon <= |all|
  {
    if colon >= 0 then Some(Spread(all, colon)) else if |all| == 16 then Some(all) else None
  }

  lemma DigitStep(s: seq<byte>, k: nat, st: Scan)
    requires k < |s| && HexValue(s[k]) >= 0 && st.curtok <= k && st.Ok()
    ensures var v := st.val * 16 + HexValue(s[k]);
      Outcome(s, k, st) == if v > 0xffff then None else Outcome(s, k + 1, st.(val := v, saw := true))
  {
    hide Finish, Pton4;
  }

  lemma ValStep(s: seq<byte>, i: nat, k: nat)
    requires i < k <= |s| && HexDigits(s[i..k])
    ensures HexDigits(s[i..k - 1]) && HexValue(s[k - 1]) >= 0
    ensures Val(s[i..k]) == Val(s[i..k - 1]) * 16 + HexValue(s[k - 1])
  {
    var g, n := s[i..k], k - i;
    assert g[..n - 1] == s[i..k - 1] && g[n - 1] == s[k - 1] && HexValue(g[n - 1]) >= 0;
  }

  /** The digits from `i` to `k` are read as one number, or refused if it is too large. */
  lemma {:induction false} ScanDigits(s: seq<byte>, i: nat, st: Scan, k: nat)
    requires i <= k <= |s| && AtToken(i, st) && HexDigits(s[i..k])
    ensures Val(s[i..k]) > 0xffff ==> Outcome(s, i, st) == None
    ensures Val(s[i..k]) <= 0xffff ==>
      Outcome(s, i, st) == Outcome(s, k, st.(val := Val(s[i..k]), saw := k > i))
    decreases k
  {
    hide Outcome, HexDigits, HexValue, Val;
    if i < k {
      ValStep(s, i, k);
      ScanDigits(s, i, st, k - 1);
      var v := Val(s[i..k - 1]);
      if v <= 0xffff { DigitStep(s, k - 1, st.(val := v, saw := k - 1 > i)); }
    } else {
      NoDigits(s[i..k]);
    }
  }

  lemma NoDigits(g: seq<byte>)
    requires g == []
    ensures HexDigits(g) && Val(g) == 0
  {
  }

  lemma EndStep(s: seq<byte>, st: Scan)
    requires st.curtok <= |s| && st.Ok()
    ensures Outcome(s, |s|, st) == Finish(st)
  {
  }

  lemma ColonStep(s: seq<byte>, k: nat, st: Scan)
    requires k < |s| && s[k] == COLON && st.curtok <= k && st.Ok() && (!st.saw ==> st.val == 0)
    ensures !st.saw && st.colon >= 0 ==> Outcome(s, k, st) == None
    ensures !st.saw && st.colon < 0 ==> Outcome(s, k, st) == Outcome(s, k + 1, st.(curtok := k + 1, colon := |st.out|))
    ensures st.saw && |st.out| > 14 ==> Outcome(s, k, st) == None
    ensures st.saw && |st.out| <= 14 ==>
      Outcome(s, k, st) == Outcome(s, k + 1, Scan(Push(st.out, st.val), st.colon, k + 1, false, 0))
  {
    hide Finish, Pton4;
  }

  lemma DotStep(s: seq<byte>, k: nat, st: Scan)
    requires k < |s| && s[k] == DOT && st.curtok <= k && st.Ok()
    ensures var q := Pton4(s[st.curtok..]);
      Outcome(s, k, st) ==
        if |st.out| <= 12 && q.Some? then Spreaded(st.out + q.value, st.colon) else None
  {
    hide Pton4;
  }

  lemma OtherStep(s: seq<byte>, k: nat, st: Scan)
    requires k < |s| && s[k] != COLON && s[k] != DOT && HexValue(s[k]) < 0 && st.curtok <= k && st.Ok()
    ensures Outcome(s, k, st) == None
  {
  }

  lemma FinishIs(st: Scan)
    requires st.Ok()
    ensures !st.saw ==> Finish(st) == Spreaded(st.out, st.colon)
    ensures st.saw && |st.out| > 14 ==> Finish(st) == None
    ensures st.saw && |st.out| <= 14 ==> Finish(st) == Spreaded(Push(st.out, st.val), st.colon)
  {
  }

  lemma PushToken(out: seq<byte>, g: seq<byte>)
    requires IsToken(g)
    ensures AreTokens([g]) && Push(out, Val(g)) == out + GroupBytes([g])
  {
    assert |[g][1..]| == 0;
  }

  lemma TokensFirst(gs: seq<seq<byte>>)
    requires gs != [] && AreTokens(gs)
    ensures AreTokens([gs[0]]) && AreTokens(gs[1..]) && GroupBytes(gs) == GroupBytes([gs[0]]) + GroupBytes(gs[1..])
  {
    PushToken([], gs[0]);
  }

  // ----- What the texts are read as -----

  /** A group and the colon after it. */
  lemma ReadGroup(s: seq<byte>, i: nat, st: Scan, g: seq<byte>, rest: seq<byte>)
    requires i <= |s| && AtToken(i, st) && IsToken(g) && s[i..] == g + [COLON] + rest && |st.out| <= 14
    ensures AreTokens([g]) && i + |g| < |s| && s[i + |g| + 1..] == rest
    ensures var j := i + |g| + 1;
      Outcome(s, i, st) == Outcome(s, j, Scan(st.out + GroupBytes([g]), st.colon, j, false, 0))
  {
    hide Outcome, GroupBytes;
    var k := i + |g|;
    assert s[i..k] == s[i..][..|g|] == g && s[k] == s[i..][|g|] == COLON;
    assert s[k + 1..] == s[i..][|g| + 1..] == rest;
    ScanDigits(s, i, st, k);
    ColonStep(s, k, st.(val := Val(g), saw := true));
    PushToken(st.out, g);
  }

  lemma {:induction false} ReadGroups(s: seq<byte>, i: nat, st: Scan, gs: seq<seq<byte>>, rest: seq<byte>)
      returns (j: nat)
    requires i <= |s| && AtToken(i, st) && AreTokens(gs) && s[i..] == Colonized(gs) + rest
    requires |st.out| + 2 * |gs| <= 16
    ensures i <= j <= |s| && s[j..] == rest
    ensures Outcome(s, i, st) == Outcome(s, j, Scan(st.out + GroupBytes(gs), st.colon, j, false, 0))
    decreases |gs|
  {
    hide Outcome, GroupBytes;
    if gs == [] {
      j := i;
      NoGroups(st.out);
      assert [] + rest == rest;
    } else {
      var g, more := gs[0], Colonized(gs[1..]) + rest;
      assert g + [COLON] + Colonized(gs[1..]) + rest == g + [COLON] + more;
      ReadGroup(s, i, st, g, more);
      TokensFirst(gs);
      var k := i + |g| + 1;
      var out := st.out + GroupBytes([g]);
      j := ReadGroups(s, k, Scan(out, st.colon, k, false, 0), gs[1..], rest);
      assert out + GroupBytes(gs[1..]) == st.out + GroupBytes(gs);
    }
  }

  lemma NoGroups(out: seq<byte>)
    ensures out + GroupBytes([]) == out
  {
  }

  /** The end of a text. */
  lemma ReadLast(s: seq<byte>, i: nat, st: Scan, last: Last)
    requires i <= |s| && AtToken(i, st) && last.Valid() && s[i..] == last.Text() && |st.out + last.Octets()| <= 16
    ensures Outcome(s, i, st) == Spreaded(st.out + last.Octets(), st.colon)
  {
    hide Outcome, Finish, Pton4, Spreaded;
    match last
    case Nothing =>
      EndStep(s, st);
      FinishIs(st);
      assert st.out + [] == st.out;
    case Group(g) =>
      assert s[i..|s|] == g;
      ScanDigits(s, i, st, |s|);
      var t := st.(val := Val(g), saw := true);
      EndStep(s, t);
      FinishIs(t);
      PushToken(st.out, g);
    case Dotted(q) =>
      var n := DottedStart(q);
      assert s[i..i + n] == s[i..][..n] == q[..n] && s[i + n] == s[i..][n] == DOT;
      DecimalIsHex(q[..n]);
      ScanDigits(s, i, st, i + n);
      DotStep(s, i + n, st.(val := Val(q[..n]), saw := true));
  }

  lemma DecimalIsHex(d: seq<byte>)
    requires |d| <= 3 && forall i :: 0 <= i < |d| ==> 48 <= d[i] <= 57
    ensures HexDigits(d) && Val(d) <= 0xffff
  {
    ValBound(d);
  }

  lemma DottedStart(q: seq<byte>) returns (n: nat)
    requires Pton4(q).Some?
    ensures 0 < n <= 3 && n < |q| && q[n] == DOT && forall i :: 0 <= i < n ==> 48 <= q[i] <= 57
  {
    n := QuadStart(q, 0, false);
  }

  /** A dotted quad begins with at most three digits and a dot. */
  lemma {:induction false} QuadStart(q: seq<byte>, cur: byte, saw: bool) returns (n: nat)
    requires match ScanQuad(Quad([], cur, saw), q) case None => false case Some(t) => |t.done| == 3
    requires !saw ==> cur == 0
    ensures n < |q| && q[n] == DOT && (!saw ==> n > 0) && forall i :: 0 <= i < n ==> 48 <= q[i] <= 57
    ensures n <= if !saw then 3 else if cur == 0 || cur >= 100 then 0 else if cur >= 10 then 1 else 2
    decreases |q|
  {
    if 48 <= q[0] <= 57 {
      var m := QuadStart(q[1..], cur * 10 + (q[0] - 48), true);
      n := m + 1;
      forall i | 0 <= i < n ensures 48 <= q[i] <= 57 { assert i > 0 ==> q[i] == q[1..][i - 1]; }
    } else {
      n := 0;
    }
  }

  /** What follows the first groups. */
  lemma ReadTail(s: seq<byte>, i: nat, st: Scan, gs: seq<seq<byte>>, last: Last)
    requires i <= |s| && AtToken(i, st) && AreTokens(gs) && last.Valid() && s[i..] == Colonized(gs) + last.Text()
    requires |st.out + (GroupBytes(gs) + last.Octets())| <= 16
    ensures Outcome(s, i, st) == Spreaded(st.out + (GroupBytes(gs) + last.Octets()), st.colon)
  {
    hide Outcome, Spreaded, GroupBytes, Colonized, Last.Octets, Last.Text;
    var j := ReadGroups(s, i, st, gs, last.Text());
    var out := st.out + GroupBytes(gs);
    assert out + last.Octets() == st.out + (GroupBytes(gs) + last.Octets());
    ReadLast(s, j, Scan(out, st.colon, j, false, 0), last);
  }

  lemma FromStart(s: seq<byte>)
    ensures var i := if |s| > 0 && s[0] == COLON then 1 else 0;
      Pton6(s) == if i == 1 && (|s| == 1 || s[1] != COLON) then None else Outcome(s, i, START.(curtok := i))
  {
  }

  lemma TokenStart(g: seq<byte>)
    requires IsToken(g)
    ensures g[0] != COLON && g[0] != DOT
  {
    assert HexValue(g[0]) >= 0;
  }

  /** The "::" and what follows it, from its last colon on. */
  lemma ReadDouble(s: seq<byte>, j: nat, st: Scan, gs: seq<seq<byte>>, last: Last)
    requires j <= |s| && AtToken(j, st) && st.colon < 0 && AreTokens(gs) && last.Valid()
    requires s[j..] == [COLON] + (Colonized(gs) + last.Text()) && |st.out + (GroupBytes(gs) + last.Octets())| <= 16
    ensures Outcome(s, j, st) == Some(Spread(st.out + (GroupBytes(gs) + last.Octets()), |st.out|))
  {
    hide Outcome, Spread, GroupBytes, Colonized, Last.Octets, Last.Text;
    assert s[j] == s[j..][0] && s[j + 1..] == s[j..][1..] == Colonized(gs) + last.Text();
    ColonStep(s, j, st);
    ReadTail(s, j + 1, st.(curtok := j + 1, colon := |st.out|), gs, last);
  }

  lemma TextShape(a: Address)
    requires a.Tokens()
    ensures var tail := Colonized(a.post) + a.last.Text();
      a.Text() == if !a.double then Colonized(a.pre) + a.last.Text()
                  else if a.pre == [] then [COLON] + ([COLON] + tail)
                  else Colonized(a.pre) + ([COLON] + tail)
    ensures a.pre != [] ==> a.Text() != [] && a.Text()[0] == a.pre[0][0]
  {
    hide Last.Text, Last.Octets;
    var c, p, l := Colonized(a.pre), Colonized(a.post), a.last.Text();
    assert [] + c + [] + [] + l == c + l && [] + c + [COLON] + p + l == c + ([COLON] + (p + l));
    assert [COLON] + [] + [COLON] + p + l == [COLON] + ([COLON] + (p + l));
  }
}
