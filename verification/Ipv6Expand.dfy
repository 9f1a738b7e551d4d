// SLPNetExpandIpv6Addr: from shorthand to the full 39-character form.
module Ipv6Expand {
  import opened Bytes
  import opened Ipv6Text
  import opened Ipv6Parse
  import opened Ipv6Language

  // ----- The full form of a shorthand -----

  function Pad(g: seq<byte>): (p: seq<byte>)
    requires IsGroup(g)
    ensures |p| == 4
  {
    seq(4 - |g|, _ => ZERO_DIGIT) + g
  }

  const NIL_GROUP: seq<byte> := [ZERO_DIGIT, ZERO_DIGIT, ZERO_DIGIT, ZERO_DIGIT]

  function PadAll(gs: seq<seq<byte>>): (r: seq<seq<byte>>)
    requires AreGroups(gs)
    ensures |r| == |gs| && forall i :: 0 <= i < |r| ==> r[i] == Pad(gs[i])
  {
    seq(|gs|, i requires 0 <= i < |gs| => Pad(gs[i]))
  }

  function NilGroups(n: nat): (r: seq<seq<byte>>)
    ensures |r| == n && forall i :: 0 <= i < n ==> r[i] == NIL_GROUP
  {
    seq(n, _ => NIL_GROUP)
  }

  function FullGroups(sh: Shorthand): (r: seq<seq<byte>>)
    requires sh.WellFormed()
    ensures |r| == 8 && forall i :: 0 <= i < 8 ==> |r[i]| == 4
  {
    match sh
    case Full(gs) => PadAll(gs)
    case Compressed(pre, post) => PadAll(pre) + NilGroups(8 - |pre| - |post|) + PadAll(post)
  }

  lemma PadKeepsValue(g: seq<byte>)
    requires IsGroup(g)
    ensures IsGroup(Pad(g)) && Val(Pad(g)) == Val(g)
    decreases 4 - |g|
  {
    if |g| < 4 {
      ValZeroPad(g);
      PadKeepsValue([ZERO_DIGIT] + g);
      assert Pad([ZERO_DIGIT] + g) == Pad(g);
    } else {
      assert Pad(g) == g;
    }
  }

  lemma {:induction false} PadAllDenotes(gs: seq<seq<byte>>)
    requires AreGroups(gs)
    ensures AreGroups(PadAll(gs)) && GroupBytes(PadAll(gs)) == GroupBytes(gs)
  {
    forall i | 0 <= i < |gs| ensures IsGroup(PadAll(gs)[i]) { PadKeepsValue(gs[i]); }
    if gs != [] {
      PadAllDenotes(gs[1..]);
      PadKeepsValue(gs[0]);
      assert PadAll(gs)[1..] == PadAll(gs[1..]);
    }
  }

  lemma NilGroupIsZero()
    ensures IsGroup(NIL_GROUP) && Val(NIL_GROUP) == 0
  {
    var z := [ZERO_DIGIT];
    assert z + [] == z && z + z == [ZERO_DIGIT, ZERO_DIGIT] && z + (z + z) == [ZERO_DIGIT, ZERO_DIGIT, ZERO_DIGIT];
    assert z + (z + (z + z)) == NIL_GROUP;
    ValZeroPad([]);
    ValZeroPad(z);
    ValZeroPad(z + z);
    ValZeroPad(z + (z + z));
  }

  lemma {:induction false} NilGroupsDenote(n: nat)
    ensures AreGroups(NilGroups(n)) && GroupBytes(NilGroups(n)) == Zeros(2 * n)
  {
    hide Val, HexDigits;
    NilGroupIsZero();
    if n > 0 {
      NilGroupsDenote(n - 1);
      assert NilGroups(n)[1..] == NilGroups(n - 1);
      assert Zeros(2 * n) == [0, 0] + Zeros(2 * (n - 1));
    }
  }

  lemma FullGroupsDenote(sh: Shorthand)
    requires sh.WellFormed()
    ensures AreGroups(FullGroups(sh)) && GroupBytes(FullGroups(sh)) == sh.Denotes()
  {
    match sh
    case Full(gs) => PadAllDenotes(gs);
    case Compressed(pre, post) =>
      CompressedDenotes(pre, post);
  }

  lemma CompressedDenotes(pre: seq<seq<byte>>, post: seq<seq<byte>>)
    requires AreGroups(pre) && AreGroups(post) && |pre| + |post| <= 7
    ensures var gs := PadAll(pre) + NilGroups(8 - |pre| - |post|) + PadAll(post);
            AreGroups(gs) && GroupBytes(gs) == Compressed(pre, post).Denotes()
  {
    hide GroupBytes, AreGroups, AreTokens, NilGroups, PadAll;
    var nils := NilGroups(8 - |pre| - |post|);
    PadAllDenotes(pre);
    PadAllDenotes(post);
    NilGroupsDenote(8 - |pre| - |post|);
    GroupsAreTokens(PadAll(pre));
    GroupsAreTokens(nils);
    GroupsAreTokens(PadAll(post));
    GroupsConcat(PadAll(pre), nils);
    GroupsConcat(PadAll(pre) + nils, PadAll(post));
    GroupBytesConcat(PadAll(pre), nils);
    GroupBytesConcat(PadAll(pre) + nils, PadAll(post));
  }

  /** Main result: the expansion of a shorthand is read by inet_pton6 as the same sixteen octets. */
  lemma ExpansionKeepsAddress(sh: Shorthand)
    requires sh.WellFormed()
    ensures Pton6(Join(FullGroups(sh))) == Pton6(sh.Text()) == Some(sh.Denotes())
  {
    hide Pton6, Join, GroupBytes, FullGroups, IsGroup;
    ShorthandParses(sh);
    FullGroupsDenote(sh);
    ShorthandParses(Full(FullGroups(sh)));
  }

  /** Expanding the full form changes nothing. */
  lemma ExpansionIdempotent(sh: Shorthand)
    requires sh.WellFormed()
    ensures Full(FullGroups(sh)).WellFormed() && FullGroups(Full(FullGroups(sh))) == FullGroups(sh)
  {
    FullGroupsDenote(sh);
    PadAllFixed(FullGroups(sh));
  }

  lemma PadAllFixed(gs: seq<seq<byte>>)
    requires AreGroups(gs) && forall i :: 0 <= i < |gs| ==> |gs[i]| == 4
    ensures PadAll(gs) == gs
  {
    forall i | 0 <= i < |gs| ensures Pad(gs[i]) == gs[i] {}
  }

  // ----- The expander as a function -----

  /** strncpy of `g` to position `at` of the template; `None` if a byte falls outside. */
  function Put(t: seq<byte>, at: int, g: seq<byte>): (r: Option<seq<byte>>)
    ensures r.Some? ==> |r.value| == |t|
  {
    if g == [] then Some(t)
    else if at < 0 || at + |g| > |t| then None
    else Some(t[..at] + g + t[at + |g|..])
  }

  /** strstr(s, "::"), or |s| when there is none. */
  function FindDouble(s: seq<byte>, from: nat): (k: nat)
    requires from <= |s|
    ensures from <= k <= |s|
    decreases |s| - from
  {
    if from == |s| || At(s, from, [COLON, COLON]) then from else FindDouble(s, from + 1)
  }

  /** Where the part before the "::" ends: there, or else at a comma or at the end of the text. */
  function PreEnd(s: seq<byte>): (end: nat)
    ensures end <= |s|
  {
    if FindDouble(s, 0) == |s| then IndexOf(s, COMMA, 0) else FindDouble(s, 0)
  }

  /** handlePreArea from the group at `i` on, which belongs to slot `k` of the template. */
  function PreArea(s: seq<byte>, end: nat, i: nat, k: nat, t: seq<byte>): (r: Option<seq<byte>>)
    requires end <= |s|
    ensures r.Some? ==> |r.value| == |t|
    decreases |s| - i
  {
    if i >= end then Some(t) else
      var j := IndexOf(s, COLON, i);
      var g := s[i..if j < |s| then j else end];
      match Put(t, 5 * k + 4 - |g|, g)
      case None => None
      case Some(u) => if j < |s| then PreArea(s, end, j + 1, k + 1, u) else Some(u)
  }

  /** strrchr, or -1. */
  function LastIndexOf(s: seq<byte>, c: byte): (k: int)
    ensures -1 <= k < |s| && (k >= 0 ==> s[k] == c) && forall i :: k < i < |s| ==> s[i] != c
  {
    if s == [] then -1 else if s[|s| - 1] == c then |s| - 1 else LastIndexOf(s[..|s| - 1], c)
  }

  /** handlePostArea on what is left of its copy; the last group goes to the left of `at`. */
  function PostArea(copy: seq<byte>, at: int, t: seq<byte>): (r: Option<seq<byte>>)
    ensures r.Some? ==> |r.value| == |t|
    decreases |copy|
  {
    var k := LastIndexOf(copy, COLON);
    if k < 0 || k >= |copy| - 1 then Some(t) else
      match Put(t, at - (|copy| - k - 1), copy[k + 1..])
      case None => None
      case Some(u) => PostArea(copy[..k], at - 5, u)
  }

  /** The copy that handlePostArea makes is this long, with its NUL. */
  const COPY_SIZE: nat := 256

  /** What SLPNetExpandIpv6Addr writes; `None` if it leaves the template, or the copy has no NUL. */
  function Expanded(s: seq<byte>): (r: Option<seq<byte>>)
    ensures r.Some? ==> |r.value| == 39
  {
    match PreArea(s, PreEnd(s), 0, 0, Template())
    case None => None
    case Some(t) =>
      var d := FindDouble(s, 0);
      if d == |s| then Some(t)
      else if |s| - d > COPY_SIZE then None
      else PostArea(s[d + 1..], 39, t)
  }

  function Template(): (t: seq<byte>)
    ensures |t| == 39
  {
    seq(39, i requires 0 <= i < 39 => if i % 5 == 4 then COLON else ZERO_DIGIT)
  }

  // ----- The code -----

  /** The bytes after the template's 39 are the same. */
  ghost predicate KeepsRest(r: seq<byte>, was: seq<byte>) {
    |r| == |was| >= 39 && r[39..] == was[39..]
  }

  method PutAt(result: array<byte>, at: int, g: seq<byte>) returns (inside: bool)
    requires result.Length >= 39
    modifies result
    ensures var p := Put(old(result[..39]), at, g);
            inside == p.Some? && (inside ==> result[..39] == p.value && KeepsRest(result[..], old(result[..])))
  {
    if g == [] { return true; }
    if at < 0 || at + |g| > 39 { return false; }
    ghost var was := result[..];
    forall j | 0 <= j < |g| { result[at + j] := g[j]; }
    assert result[..39] == was[..at] + g + was[at + |g|..39];
    assert was[..39][at + |g|..] == was[at + |g|..39];
    return true;
  }

  method HandlePreArea(start: seq<byte>, result: array<byte>) returns (inside: bool)
    requires result.Length >= 39
    modifies result
    ensures var p := PreArea(start, PreEnd(start), 0, 0, old(result[..39]));
            inside == p.Some? && (inside ==> result[..39] == p.value && KeepsRest(result[..], old(result[..])))
  {
    hide FindDouble, IndexOf, Put;
    var end := FindDouble(start, 0);
    if end == |start| { end := IndexOf(start, COMMA, 0); }
    var slider1, k := 0, 0;
    ghost var goal := PreArea(start, end, 0, 0, result[..39]);
    while slider1 < end
      invariant PreArea(start, end, slider1, k, result[..39]) == goal && KeepsRest(result[..], old(result[..]))
      decreases |start| - slider1
    {
      var slider2 := IndexOf(start, COLON, slider1);
      if slider2 < |start| {
        inside := PutAt(result, 5 * k + 4 - (slider2 - slider1), start[slider1..slider2]);
        if !inside { return; }
        slider1 := slider2 + 1;
        k := k + 1;
      } else {
        inside := PutAt(result, 5 * k + 4 - (end - slider1), start[slider1..end]);
        return;
      }
    }
    return true;
  }

  method HandlePostArea(start: seq<byte>, result: array<byte>) returns (inside: bool)
    requires result.Length >= 39
    modifies result
    ensures var p := if |start| >= COPY_SIZE then None else PostArea(start, 39, old(result[..39]));
            inside == p.Some? && (inside ==> result[..39] == p.value && KeepsRest(result[..], old(result[..])))
  {
    hide LastIndexOf, Put;
    if |start| >= COPY_SIZE { return false; }
    var ourCopy, at := start, 39;
    ghost var goal := PostArea(start, 39, result[..39]);
    while |ourCopy| > 0
      invariant PostArea(ourCopy, at, result[..39]) == goal && KeepsRest(result[..], old(result[..]))
      decreases |ourCopy|
    {
      var slider2 := LastIndexOf(ourCopy, COLON);
      if slider2 >= 0 && slider2 < |ourCopy| - 1 {
        inside := PutAt(result, at - (|ourCopy| - slider2 - 1), ourCopy[slider2 + 1..]);
        if !inside { return; }
        at := at - 5;
        ourCopy := ourCopy[..slider2];
      } else {
        break;
      }
    }
    return true;
  }

  /**
   * SLPNetExpandIpv6Addr: the expansion and its NUL fill the first 40 bytes. `inside` is false for a text that makes
   * it leave the template; what happens then is not modelled.
   */
  method ExpandIpv6Addr(ipv6Addr: seq<byte>, result: array<byte>, resultSize: nat) returns (sts: int, inside: bool)
    requires resultSize <= result.Length
    modifies result
    ensures sts == if resultSize < 40 then -1 else 0
    ensures sts == -1 ==> inside && result[..] == old(result[..])
    ensures sts == 0 ==> inside == Expanded(ipv6Addr).Some?
    ensures sts == 0 && inside ==>
              result[..39] == Expanded(ipv6Addr).value && result[39] == 0 && result[40..] == old(result[40..])
  {
    hide FindDouble, PreArea, PostArea, PreEnd;
    if resultSize < 40 { return -1, true; }
    ghost var was := result[..];
    forall j | 0 <= j < 40 { result[j] := if j == 39 then 0 else if j % 5 == 4 then COLON else ZERO_DIGIT; }
    ghost var blank := result[..];
    assert result[..39] == Template();
    inside := HandlePreArea(ipv6Addr, result);
    if inside {
      var doublec := FindDouble(ipv6Addr, 0);
      if doublec < |ipv6Addr| {
        inside := HandlePostArea(ipv6Addr[doublec + 1..], result);
      }
      if inside { assert result[39..] == blank[39..] && result[40..] == blank[39..][1..] == was[40..]; }
    }
    return 0, inside;
  }
}
