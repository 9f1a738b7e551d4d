// Where SLPNetExpandIpv6Addr puts the groups: the slots of the template, what the two parts of a text leave in them,
// and the expansion of a well-formed shorthand that this makes.
module Ipv6Slots {
  import opened Bytes
  import opened Ipv6Text
  import opened Ipv6Scan
  import opened Ipv6Language
  import opened Ipv6Expand

  // ----- The slots of the template -----

  /** The first groups stand in their slots of the template, with a colon behind each but the eighth. */
  ghost predicate Slots(t: seq<byte>, groups: seq<seq<byte>>) {
    |groups| <= 8 && |t| == 39 && forall k :: 0 <= k < |groups| ==> Slot(t, groups[k], k)
  }

  ghost predicate Slot(t: seq<byte>, g: seq<byte>, k: nat)
    requires |t| == 39 && k < 8
  {
    t[5 * k..5 * k + 4] == g && (k < 7 ==> t[5 * k + 4] == COLON)
  }

  lemma {:induction false} SlotsJoin(t: seq<byte>, groups: seq<seq<byte>>, k: nat)
    requires Slots(t, groups) && |groups| == 8 && k < 8
    ensures t[5 * k..] == Join(groups[k..])
    decreases 8 - k
  {
    assert Slot(t, groups[k], k);
    if k < 7 {
      SlotsJoin(t, groups, k + 1);
      assert t[5 * k..] == t[5 * k..5 * k + 4] + [t[5 * k + 4]] + t[5 * (k + 1)..];
      assert groups[k..][1..] == groups[k + 1..];
    } else {
      assert groups[7..] == [groups[7]];
    }
  }

  lemma TemplateSlots()
    ensures Slots(Template(), NilGroups(8))
  {
    var t, gs := Template(), NilGroups(8);
    assert forall k :: 0 <= k < |gs| ==> Slot(t, gs[k], k);
  }

  /** A group fills its blank slot and leaves what follows alone. */
  lemma PutGroup(t: seq<byte>, groups: seq<seq<byte>>, k: nat, g: seq<byte>) returns (u: seq<byte>)
    requires Slots(t, groups) && k < |groups| && groups[k] == NIL_GROUP && IsGroup(g)
    ensures Put(t, 5 * k + 4 - |g|, g) == Some(u)
    ensures |u| == |t| && Slots(u, groups[k := Pad(g)]) && u[5 * k + 4..] == t[5 * k + 4..]
  {
    var at := 5 * k + 4 - |g|;
    u := t[..at] + g + t[at + |g|..];
    var next := groups[k := Pad(g)];
    forall i | 0 <= i < |groups| ensures Slot(u, next[i], i) {
      assert Slot(t, groups[i], i);
      if i == k {
        PadFits(t[5 * k..5 * k + 4], u[5 * k..5 * k + 4], g);
      } else {
        assert u[5 * i..5 * i + 4] == t[5 * i..5 * i + 4];
      }
    }
  }

  lemma PadFits(blank: seq<byte>, slot: seq<byte>, g: seq<byte>)
    requires IsGroup(g) && blank == NIL_GROUP && |slot| == 4
    requires forall j :: 0 <= j < 4 ==> slot[j] == if j < 4 - |g| then blank[j] else g[j - (4 - |g|)]
    ensures slot == Pad(g)
  {
  }

  // ----- The part before the "::" -----

  lemma {:induction false} FindDoubleAt(s: seq<byte>, from: nat, k: nat)
    requires from <= k <= |s| && (k == |s| || At(s, k, [COLON, COLON]))
    requires forall i :: from <= i < k ==> !At(s, i, [COLON, COLON])
    ensures FindDouble(s, from) == k
    decreases k - from
  {
    if from < k { FindDoubleAt(s, from + 1, k); }
  }

  lemma FirstColon(s: seq<byte>, i: nat, g: seq<byte>)
    requires IsGroup(g) && i + |g| <= |s| && s[i..i + |g|] == g && (i + |g| == |s| || s[i + |g|] == COLON)
    ensures IndexOf(s, COLON, i) == i + |g|
  {
    forall k | i <= k < i + |g| ensures s[k] != COLON { assert s[k] == g[k - i] && HexValue(g[k - i]) >= 0; }
  }

  /** The slots after `n` groups of the front part have been placed. */
  function Front(gs: seq<seq<byte>>, n: nat): (r: seq<seq<byte>>)
    requires AreGroups(gs) && n <= |gs| <= 8
    ensures |r| == 8
  {
    PadAll(gs[..n]) + NilGroups(8 - n)
  }

  lemma FrontNone(gs: seq<seq<byte>>)
    requires AreGroups(gs) && |gs| <= 8
    ensures Front(gs, 0) == NilGroups(8)
  {
  }

  lemma FrontNext(gs: seq<seq<byte>>, n: nat)
    requires AreGroups(gs) && n < |gs| <= 8
    ensures Front(gs, n)[n] == NIL_GROUP && Front(gs, n)[n := Pad(gs[n])] == Front(gs, n + 1)
  {
    var f, h := Front(gs, n)[n := Pad(gs[n])], Front(gs, n + 1);
    forall i | 0 <= i < 8 ensures f[i] == h[i] {
      if i < n { assert gs[..n][i] == gs[..n + 1][i]; }
    }
  }

  lemma NoneColonized(rest: seq<byte>)
    ensures Colonized([]) == [] && [] + rest == rest
  {
  }

  lemma FirstColonized(g: seq<byte>, gs: seq<seq<byte>>, rest: seq<byte>)
    ensures Colonized([g] + gs) + rest == g + [COLON] + (Colonized(gs) + rest)
    ensures |Colonized([g] + gs)| == |g| + 1 + |Colonized(gs)|
  {
    assert ([g] + gs)[1..] == gs;
    Reassociate(g + [COLON], Colonized(gs), rest);
  }

  lemma GroupHere(s: seq<byte>, i: nat, g: seq<byte>, more: seq<byte>)
    requires i <= |s| && s[i..] == g + [COLON] + more
    ensures var j := i + |g|; j < |s| && s[i..j] == g && s[j] == COLON && s[j + 1..] == more
  {
    var j := i + |g|;
    assert s[i..j] == s[i..][..|g|] && s[j] == s[i..][|g|] && s[j + 1..] == s[i..][|g| + 1..];
  }

  lemma GroupAt(gs: seq<seq<byte>>, i: nat)
    requires AreGroups(gs) && i < |gs|
    ensures IsGroup(gs[i]) && gs[i] != []
  {
  }

  lemma PreAreaStep(s: seq<byte>, end: nat, i: nat, k: nat, g: seq<byte>, t: seq<byte>, u: seq<byte>)
    requires i < end <= |s| && i + |g| < |s| && IndexOf(s, COLON, i) == i + |g| && s[i..i + |g|] == g
    requires Put(t, 5 * k + 4 - |g|, g) == Some(u)
    ensures PreArea(s, end, i, k, t) == PreArea(s, end, i + |g| + 1, k + 1, u)
  {
  }

  /** Groups with a colon behind each are put into the next slots. */
  lemma {:induction false} PreAreaGroups(
      s: seq<byte>, end: nat, i: nat, gs: seq<seq<byte>>, n: nat, rest: seq<byte>, t: seq<byte>)
    returns (u: seq<byte>)
    requires AreGroups(gs) && n <= |gs| <= 8 && i <= |s| && s[i..] == Colonized(gs[n..]) + rest
    requires i + |Colonized(gs[n..])| <= end + 1 && end <= |s| && Slots(t, Front(gs, n))
    ensures Slots(u, Front(gs, |gs|)) && i + |Colonized(gs[n..])| <= |s|
    ensures PreArea(s, end, i, n, t) == PreArea(s, end, i + |Colonized(gs[n..])|, |gs|, u)
    decreases |gs| - n
  {
    hide Slots, Front, IndexOf, IsGroup, AreGroups, Put, PreArea, Pad, Colonized;
    if n == |gs| {
      u := t;
      assert gs[n..] == [];
      NoneColonized(rest);
    } else {
      var g, more := gs[n], Colonized(gs[n + 1..]) + rest;
      assert gs[n..] == [g] + gs[n + 1..];
      GroupAt(gs, n);
      FirstColonized(g, gs[n + 1..], rest);
      var j := i + |g|;
      GroupHere(s, i, g, more);
      FirstColon(s, i, g);
      FrontNext(gs, n);
      var v := PutGroup(t, Front(gs, n), n, g);
      PreAreaStep(s, end, i, n, g, t, v);
      u := PreAreaGroups(s, end, j + 1, gs, n + 1, rest, v);
    }
  }

  /** The text after the last colon is put to the left of its slot's end. */
  lemma PreAreaLast(s: seq<byte>, end: nat, i: nat, k: nat, tail: seq<byte>, t: seq<byte>)
    requires i < end <= |s| && s[i..end] == tail && forall j :: i <= j < |s| ==> s[j] != COLON
    ensures PreArea(s, end, i, k, t) == Put(t, 5 * k + 4 - |tail|, tail)
  {
  }

  /** In groups with colons behind them and a tail without, there is neither a comma nor a "::". */
  lemma {:induction false} ColonizedInside(gs: seq<seq<byte>>, tail: seq<byte>, i: nat)
    requires AreGroups(gs) && tail != [] && i < |Colonized(gs) + tail|
    requires forall j :: 0 <= j < |tail| ==> tail[j] != COLON && tail[j] != COMMA
    ensures var s := Colonized(gs) + tail;
            s[i] != COMMA && (s[i] == COLON ==> i + 1 < |s| && s[i + 1] != COLON)
  {
    var s := Colonized(gs) + tail;
    if gs == [] {
      assert s == tail;
    } else {
      var g, more := gs[0], Colonized(gs[1..]) + tail;
      assert [g] + gs[1..] == gs && IsGroup(g);
      FirstColonized(g, gs[1..], tail);
      assert s == g + [COLON] + more;
      if i < |g| {
        assert s[i] == g[i] && HexValue(g[i]) >= 0;
      } else if i == |g| {
        assert s[i + 1] == more[0];
        if gs[1..] != [] {
          assert IsGroup(gs[1]) && more[0] == gs[1][0] && HexValue(gs[1][0]) >= 0;
        } else {
          NoneColonized(tail);
        }
      } else {
        ColonizedInside(gs[1..], tail, i - |g| - 1);
        assert s[i] == more[i - |g| - 1];
        assert i + 1 < |s| ==> s[i + 1] == more[i - |g|];
      }
    }
  }

  lemma DoubleAt(s: seq<byte>, i: nat)
    ensures At(s, i, [COLON, COLON]) <==> i + 1 < |s| && s[i] == COLON && s[i + 1] == COLON
  {
    if At(s, i, [COLON, COLON]) {
      AtIndex(s, i, [COLON, COLON], 0);
      AtIndex(s, i, [COLON, COLON], 1);
    }
  }

  lemma FirstComma(s: seq<byte>, end: nat)
    requires end <= |s| && (end < |s| ==> s[end] == COMMA) && forall i :: 0 <= i < end ==> s[i] != COMMA
    ensures IndexOf(s, COMMA, 0) == end
  {
  }

  /** A text without "::": groups with colons behind them, and a tail; what follows a comma is not looked at. */
  lemma WholeExpands(gs: seq<seq<byte>>, tail: seq<byte>, scope: seq<byte>) returns (t: seq<byte>)
    requires AreGroups(gs) && |gs| <= 7 && tail != [] && (scope == [] || scope[0] == COMMA)
    requires forall j :: 0 <= j < |tail| ==> tail[j] != COLON && tail[j] != COMMA
    requires forall j :: 0 <= j < |scope| ==> scope[j] != COLON
    ensures Slots(t, Front(gs, |gs|))
    ensures Expanded(Colonized(gs) + tail + scope) == Put(t, 5 * |gs| + 4 - |tail|, tail)
  {
    hide Slots, Front, Colonized, PreArea, Put, FindDouble, IndexOf, AreGroups;
    var front, s := Colonized(gs) + tail, Colonized(gs) + tail + scope;
    var n, end := |Colonized(gs)|, |front|;
    forall i | 0 <= i < |s| ensures !At(s, i, [COLON, COLON]) && (i < end ==> s[i] != COMMA) {
      if i < end {
        ColonizedInside(gs, tail, i);
        assert s[i] == front[i] && (i + 1 < end ==> s[i + 1] == front[i + 1]);
      } else {
        assert s[i] == scope[i - end];
      }
      DoubleAt(s, i);
    }
    FindDoubleAt(s, 0, |s|);
    FirstComma(s, end);
    TemplateSlots();
    FrontNone(gs);
    assert front + scope == Colonized(gs) + (tail + scope);
    assert s[0..] == s && gs[0..] == gs;
    t := PreAreaGroups(s, end, 0, gs, 0, tail + scope, Template());
    assert s[n..end] == tail;
    forall j | n <= j < |s| ensures s[j] != COLON { assert s[j] == (tail + scope)[j - n]; }
    PreAreaLast(s, end, n, |gs|, tail, t);
  }

  /** The part before a "::". */
  lemma FrontExpands(pre: seq<seq<byte>>, rest: seq<byte>) returns (t: seq<byte>)
    requires AreGroups(pre) && |pre| <= 8
    ensures var s := Join(pre) + [COLON, COLON] + rest;
            && FindDouble(s, 0) == |Join(pre)| && s[|Join(pre)| + 1..] == [COLON] + rest
            && PreArea(s, PreEnd(s), 0, 0, Template()) == Some(t)
    ensures Slots(t, Front(pre, |pre|))
  {
    hide Slots, Front, Colonized, Join, PreArea, Put, FindDouble, IndexOf, AreGroups, IsGroup;
    var s, end := Join(pre) + [COLON, COLON] + rest, |Join(pre)|;
    assert s[end + 1..] == [COLON] + rest && s[end] == COLON && s[end + 1] == COLON;
    DoubleAt(s, end);
    forall i | 0 <= i < end ensures !At(s, i, [COLON, COLON]) {
      JoinInside(pre, i);
      DoubleAt(s, i);
      assert s[i] == Join(pre)[i] && (i + 1 < end ==> s[i + 1] == Join(pre)[i + 1]);
    }
    FindDoubleAt(s, 0, end);
    TemplateSlots();
    FrontNone(pre);
    DoubleText(pre, rest);
    if pre == [] {
      NoText();
      t := Template();
      PreAreaDone(s, end, 0, 0, t);
    } else {
      JoinColonized(pre, []);
      assert Join(pre) + ([COLON] + []) == Join(pre) + [COLON] && Colonized(pre) + [] == Colonized(pre);
      assert s[0..] == s && pre[0..] == pre;
      t := PreAreaGroups(s, end, 0, pre, 0, [COLON] + rest, Template());
      PreAreaDone(s, end, |Colonized(pre)|, |pre|, t);
    }
  }

  lemma PreAreaDone(s: seq<byte>, end: nat, i: nat, k: nat, t: seq<byte>)
    requires end <= |s| && i >= end
    ensures PreArea(s, end, i, k, t) == Some(t)
  {
  }

  lemma JoinInside(gs: seq<seq<byte>>, i: nat)
    requires AreGroups(gs) && i < |Join(gs)|
    ensures Join(gs)[i] == COLON ==> i + 1 < |Join(gs)| && Join(gs)[i + 1] != COLON
  {
    var n := |gs| - 1;
    JoinEnding(gs);
    assert IsGroup(gs[n]);
    forall j | 0 <= j < |gs[n]| ensures gs[n][j] != COLON && gs[n][j] != COMMA { assert HexValue(gs[n][j]) >= 0; }
    ColonizedInside(gs[..n], gs[n], i);
  }

  // ----- The part after the "::" -----

  /** `n` slots after the last `|post| - m` groups of the back part have been placed. */
  function Back(pre: seq<seq<byte>>, post: seq<seq<byte>>, n: nat, m: nat): (r: seq<seq<byte>>)
    requires AreGroups(pre) && AreGroups(post) && |pre| + |post| <= n && m <= |post|
    ensures |r| == n
  {
    PadAll(pre) + NilGroups(n - |pre| - |post| + m) + PadAll(post[m..])
  }

  lemma BackNext(pre: seq<seq<byte>>, post: seq<seq<byte>>, n: nat, m: nat)
    requires AreGroups(pre) && AreGroups(post) && |pre| + |post| <= n && 0 < m <= |post|
    ensures var k := n - 1 - |post| + m;
            && Back(pre, post, n, m)[k] == NIL_GROUP
            && Back(pre, post, n, m)[k := Pad(post[m - 1])] == Back(pre, post, n, m - 1)
  {
    var k := n - 1 - |post| + m;
    var f, h := Back(pre, post, n, m)[k := Pad(post[m - 1])], Back(pre, post, n, m - 1);
    forall i | 0 <= i < n ensures f[i] == h[i] {
      if i > k { assert post[m..][i - k - 1] == post[m - 1..][i - k]; }
    }
  }

  /** The text from the second colon of the "::" when `m` groups follow it, and its last group. */
  function PostText(post: seq<seq<byte>>, m: nat): seq<byte>
    requires m <= |post|
  {
    if m == 0 then [] else [COLON] + Join(post[..m])
  }

  lemma PostTextLast(post: seq<seq<byte>>, m: nat)
    requires AreGroups(post) && 0 < m <= |post|
    ensures PostText(post, m) == PostText(post, m - 1) + [COLON] + post[m - 1]
  {
    JoinAppend(post[..m - 1], post[m - 1]);
    assert post[..m] == post[..m - 1] + [post[m - 1]];
  }

  lemma LastColon(s: seq<byte>, front: seq<byte>, g: seq<byte>)
    requires IsGroup(g) && s == front + [COLON] + g
    ensures LastIndexOf(s, COLON) == |front| && s[|front| + 1..] == g && s[..|front|] == front
  {
    forall i | |front| < i < |s| ensures s[i] != COLON {
      assert s[i] == g[i - |front| - 1] && HexValue(g[i - |front| - 1]) >= 0;
    }
    assert s[|front|] == COLON;
  }

  /** The last colon of the text, and what stands on both sides of it. */
  lemma PostStep(post: seq<seq<byte>>, m: nat)
    requires AreGroups(post) && 0 < m <= |post|
    ensures var t, k := PostText(post, m), |PostText(post, m - 1)|;
      LastIndexOf(t, COLON) == k && k + 1 + |post[m - 1]| == |t| && k < |t| - 1
      && t[..k] == PostText(post, m - 1) && t[k + 1..] == post[m - 1]
  {
    PostTextLast(post, m);
    LastColon(PostText(post, m), PostText(post, m - 1), post[m - 1]);
    assert IsGroup(post[m - 1]);
  }

  lemma PostAreaStep(copy: seq<byte>, k: nat, at: int, t: seq<byte>, u: seq<byte>)
    requires LastIndexOf(copy, COLON) == k < |copy| - 1 && Put(t, at - (|copy| - k - 1), copy[k + 1..]) == Some(u)
    ensures PostArea(copy, at, t) == PostArea(copy[..k], at - 5, u)
  {
  }

  lemma PostAreaDone(copy: seq<byte>, at: int, t: seq<byte>)
    requires copy == [] || copy == [COLON]
    ensures PostArea(copy, at, t) == Some(t)
  {
  }

  /** The groups are put into the last of `n` slots, from the last to the first; what follows is left alone. */
  lemma {:induction false} PostAreaGroups(
      pre: seq<seq<byte>>, post: seq<seq<byte>>, n: nat, m: nat, t: seq<byte>) returns (u: seq<byte>)
    requires AreGroups(pre) && AreGroups(post) && |pre| + |post| <= n <= 8 && m <= |post|
    requires n > 0 && Slots(t, Back(pre, post, n, m)) && 5 * n - 1 <= |t|
    ensures PostArea(PostText(post, m), 5 * (n - |post| + m) - 1, t) == Some(u)
    ensures Slots(u, Back(pre, post, n, 0)) && 5 * n - 1 <= |u| && u[5 * n - 1..] == t[5 * n - 1..]
    decreases m
  {
    hide Slots, Back, PostText, PostArea, Put, LastIndexOf, Pad, IsGroup, AreGroups;
    if m == 0 {
      u := t;
      NoPostText(post);
      PostAreaDone([], 5 * (n - |post|) - 1, t);
    } else {
      var g, k := post[m - 1], n - 1 - |post| + m;
      GroupAt(post, m - 1);
      BackNext(pre, post, n, m);
      var v := PutGroup(t, Back(pre, post, n, m), k, g);
      PostStep(post, m);
      PostAreaStep(PostText(post, m), |PostText(post, m - 1)|, 5 * k + 4, t, v);
      u := PostAreaGroups(pre, post, n, m - 1, v);
      SameEnd(t, v, 5 * k + 4, 5 * n - 1);
    }
  }

  lemma SameEnd(a: seq<byte>, b: seq<byte>, i: nat, j: nat)
    requires i <= j <= |a| == |b| && a[i..] == b[i..]
    ensures a[j..] == b[j..]
  {
    SliceAgain(a, i, j);
    SliceAgain(b, i, j);
  }

  lemma SliceAgain(t: seq<byte>, a: nat, b: nat)
    requires a <= b <= |t|
    ensures t[a..][b - a..] == t[b..]
  {
  }

  lemma NoPostText(post: seq<seq<byte>>)
    ensures PostText(post, 0) == []
  {
  }

  lemma {:induction false} JoinLength(gs: seq<seq<byte>>)
    requires AreGroups(gs)
    ensures |Join(gs)| <= 5 * |gs|
  {
    if gs != [] {
      assert IsGroup(gs[0]);
      JoinLength(gs[1..]);
    }
  }

  /** Main result: a well-formed shorthand is expanded to its full form. */
  lemma ShorthandExpands(sh: Shorthand)
    requires sh.WellFormed()
    ensures Expanded(sh.Text()) == Some(Join(FullGroups(sh)))
  {
    match sh
    case Full(gs) => FullExpands(gs);
    case Compressed(pre, post) => CompressedExpands(pre, post);
  }

  lemma FullExpands(gs: seq<seq<byte>>)
    requires AreGroups(gs) && |gs| == 8
    ensures Expanded(Join(gs)) == Some(Join(PadAll(gs)))
  {
    hide AreGroups, PadAll;
    ScopeIgnored(gs, []);
    assert Join(gs) + [] == Join(gs);
  }

  /** Main result: what follows a comma behind eight groups, as far as it has no colon, does not matter. */
  lemma ScopeIgnored(gs: seq<seq<byte>>, scope: seq<byte>)
    requires AreGroups(gs) && |gs| == 8 && (scope == [] || scope[0] == COMMA)
    requires forall j :: 0 <= j < |scope| ==> scope[j] != COLON
    ensures Expanded(Join(gs) + scope) == Some(Join(PadAll(gs)))
  {
    hide Slots, Front, Colonized, Join, Expanded, Put, Pad, AreGroups, IsGroup;
    var g := gs[7];
    LastGroup(gs);
    JoinEnding(gs);
    var t := WholeExpands(gs[..7], g, scope);
    FrontLast(gs);
    var u := PutGroup(t, Front(gs[..7], 7), 7, g);
    SlotsJoin(u, PadAll(gs), 0);
    assert u[0..] == u && PadAll(gs)[0..] == PadAll(gs);
  }

  /** A first group of more than four characters is put in front of the buffer. */
  lemma LongGroupLeaves(g: seq<byte>, rest: seq<byte>)
    requires |g| > 4 && forall i :: 0 <= i < |g| ==> g[i] != COLON && g[i] != COMMA
    ensures Expanded(g + [COLON] + rest) == None
  {
    hide IndexOf;
    var s := g + [COLON] + rest;
    assert IndexOf(s, COLON, 0) == |g| by {
      assert s[|g|] == COLON;
      forall i | 0 <= i < |g| ensures s[i] != COLON { assert s[i] == g[i]; }
    }
    assert PreEnd(s) > 0 by {
      assert s[0] == g[0];
      DoubleAt(s, 0);
    }
    assert Put(Template(), 4 - |g|, g) == None;
    LongFirst(s, PreEnd(s), g);
  }

  lemma LongFirst(s: seq<byte>, end: nat, g: seq<byte>)
    requires 0 < end <= |s| && IndexOf(s, COLON, 0) == |g| < |s| && s[0..|g|] == g
    requires Put(Template(), 4 - |g|, g) == None
    ensures PreArea(s, end, 0, 0, Template()) == None
  {
  }

  lemma LastGroup(gs: seq<seq<byte>>)
    requires AreGroups(gs) && |gs| == 8
    ensures AreGroups(gs[..7]) && IsGroup(gs[7]) && gs[7] != []
    ensures forall j :: 0 <= j < |gs[7]| ==> gs[7][j] != COLON && gs[7][j] != COMMA
  {
    assert IsGroup(gs[7]);
    forall j | 0 <= j < |gs[7]| ensures gs[7][j] != COLON && gs[7][j] != COMMA { assert HexValue(gs[7][j]) >= 0; }
  }

  lemma FrontLast(gs: seq<seq<byte>>)
    requires AreGroups(gs) && |gs| == 8 && AreGroups(gs[..7])
    ensures Front(gs[..7], 7)[7] == NIL_GROUP && Front(gs[..7], 7)[7 := Pad(gs[7])] == PadAll(gs)
  {
    assert gs[..7][..7] == gs[..7];
  }

  lemma CompressedExpands(pre: seq<seq<byte>>, post: seq<seq<byte>>)
    requires AreGroups(pre) && AreGroups(post) && |pre| + |post| <= 7
    ensures var sh := Compressed(pre, post); Expanded(sh.Text()) == Some(Join(FullGroups(sh)))
  {
    hide Slots, Front, Back, Join, Put, Pad, AreGroups, IsGroup, PreArea, PostArea, FindDouble, PostText, PreEnd;
    var sh := Compressed(pre, post);
    var t := FrontExpands(pre, Join(post));
    JoinLength(post);
    PartsMeet(pre, post);
    PostTextWhole(post);
    var u := PostAreaGroups(pre, post, 8, |post|, t);
    if post == [] {
      PostAreaDone([COLON], 39, t);
      PostAreaDone([], 39, t);
    }
    SlotsJoin(u, FullGroups(sh), 0);
    assert u[0..] == u && FullGroups(sh)[0..] == FullGroups(sh);
  }

  /** What the two parts leave in the template is the full form. */
  lemma PartsMeet(pre: seq<seq<byte>>, post: seq<seq<byte>>)
    requires AreGroups(pre) && AreGroups(post) && |pre| + |post| <= 7
    ensures Front(pre, |pre|) == Back(pre, post, 8, |post|)
    ensures Back(pre, post, 8, 0) == FullGroups(Compressed(pre, post))
  {
    hide Pad, PadAll, NilGroups, IsGroup, AreGroups;
    assert pre[..|pre|] == pre && post[0..] == post && post[|post|..] == [];
    NonePadded(PadAll(pre) + NilGroups(8 - |pre|));
  }

  lemma NonePadded(gs: seq<seq<byte>>)
    ensures AreGroups([]) && gs + PadAll([]) == gs
  {
  }

  lemma PostTextWhole(post: seq<seq<byte>>)
    ensures [COLON] + Join(post) == if post == [] then [COLON] else PostText(post, |post|)
    ensures post == [] ==> PostText(post, 0) == []
  {
    assert post[..|post|] == post;
    if post == [] { assert [COLON] + Join(post) == [COLON]; }
  }
}
