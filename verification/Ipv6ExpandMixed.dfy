// SLPNetExpandIpv6Addr on the forms of an address with an embedded IPv4 part: what the expansion of such a text is,
// when the parser refuses it, and when it keeps the address.
module Ipv6ExpandMixed {
  import opened Bytes
  import opened Ipv6Text
  import opened Ipv6Parse
  import opened Ipv6Scan
  import opened Ipv6Language
  import opened Ipv6Expand
  import opened Ipv6Slots

  // ----- Counting colons -----

  function Colons(s: seq<byte>): nat {
    if s == [] then 0 else Colons(s[..|s| - 1]) + if s[|s| - 1] == COLON then 1 else 0
  }

  lemma {:induction false} ColonsConcat(a: seq<byte>, b: seq<byte>)
    ensures Colons(a + b) == Colons(a) + Colons(b)
  {
    if b == [] {
      assert a + b == a;
    } else {
      var n := |b| - 1;
      assert (a + b)[..|a| + n] == a + b[..n];
      ColonsConcat(a, b[..n]);
    }
  }

  lemma {:induction false} NoColons(s: seq<byte>)
    requires forall i :: 0 <= i < |s| ==> s[i] != COLON
    ensures Colons(s) == 0
  {
    if s != [] { NoColons(s[..|s| - 1]); }
  }

  lemma {:induction false} ColonizedColons(gs: seq<seq<byte>>)
    requires AreTokens(gs)
    ensures Colons(Colonized(gs)) == |gs|
    ensures gs != [] ==> Colonized(gs) != [] && Colonized(gs)[|Colonized(gs)| - 1] == COLON
  {
    if gs != [] {
      var g := gs[0];
      assert IsToken(g);
      forall i | 0 <= i < |g| ensures g[i] != COLON { assert HexValue(g[i]) >= 0; }
      NoColons(g);
      ColonizedColons(gs[1..]);
      ColonsConcat(g + [COLON], Colonized(gs[1..]));
      ColonsConcat(g, [COLON]);
      assert [COLON][..0] == [];
    }
  }

  lemma {:induction false} ScannedChars(q: Quad, s: seq<byte>)
    requires ScanQuad(q, s).Some?
    ensures forall i :: 0 <= i < |s| ==> s[i] == DOT || 48 <= s[i] <= 57
    decreases |s|
  {
    if s != [] {
      ScannedChars(StepQuad(q, s[0]).value, s[1..]);
      forall i | 0 <= i < |s| ensures s[i] == DOT || 48 <= s[i] <= 57 { assert i > 0 ==> s[i] == s[1..][i - 1]; }
    }
  }

  lemma LastHasNoColon(last: Last)
    requires last.Valid()
    ensures forall i :: 0 <= i < |last.Text()| ==> last.Text()[i] != COLON
  {
    match last
    case Nothing =>
    case Group(g) => forall i | 0 <= i < |g| ensures g[i] != COLON { assert HexValue(g[i]) >= 0; }
    case Dotted(t) => ScannedChars(Quad([], 0, false), t);
  }

  lemma DoubleSeen(a: Address)
    requires a.Tokens() && a.double
    ensures var s := a.Text();
            s != [] && (s[0] == COLON || exists i :: 0 < i < |s| && s[i - 1] == COLON && s[i] == COLON)
  {
    hide Colonized, Last.Text, Address.Text;
    TextShape(a);
    ColonizedColons(a.pre);
    var s, n := a.Text(), |Colonized(a.pre)|;
    if a.pre != [] { assert s[n - 1] == COLON && s[n] == COLON; }
  }

  /** An accepted text whose colons all stand between other characters: so many groups, and an end without colons. */
  lemma SingleColons(s: seq<byte>) returns (a: Address)
    requires Pton6(s).Some? && s != [] && s[0] != COLON
    requires forall i :: 0 < i < |s| ==> s[i - 1] != COLON || s[i] != COLON
    ensures a.Valid() && !a.double && s == Colonized(a.pre) + a.last.Text() && |a.pre| == Colons(s) >= 6
    ensures |a.pre| == 6 ==> a.last.Dotted?
    ensures forall i :: |Colonized(a.pre)| <= i < |s| ==> s[i] != COLON
  {
    hide Pton6, Colonized, Last.Text;
    a := AcceptedText(s);
    TextShape(a);
    ColonizedColons(a.pre);
    var n := |Colonized(a.pre)|;
    if a.double { DoubleSeen(a); }
    LastHasNoColon(a.last);
    NoColons(a.last.Text());
    ColonsConcat(Colonized(a.pre), a.last.Text());
    forall i | n <= i < |s| ensures s[i] != COLON { assert s[i] == a.last.Text()[i - n]; }
  }

  // ----- Dotted quads -----

  lemma {:induction false} DecTextLength(n: nat)
    requires n < 1000
    ensures |DecText(n)| <= 3
  {
    if n >= 10 {
      DecTextIsShort(n / 10);
    }
  }

  lemma DecTextIsShort(n: nat)
    requires n < 100
    ensures |DecText(n)| <= 2
  {
    if n >= 10 { assert |DecText(n / 10)| == 1; }
  }

  /** A dotted quad has 7 to 15 characters, digits and dots, and a digit first. */
  lemma QuadText(q: seq<byte>)
    requires |q| == 4
    ensures 7 <= |DottedQuad(q)| <= 15 && 48 <= DottedQuad(q)[0] <= 57
    ensures forall i :: 0 <= i < |DottedQuad(q)| ==> DottedQuad(q)[i] != COLON && DottedQuad(q)[i] != COMMA
  {
    hide DecText;
    forall i | 0 <= i < 4 ensures |DecText(q[i])| <= 3 { DecTextLength(q[i]); }
    var a, b, c, d := DecText(q[0]), DecText(q[1]), DecText(q[2]), DecText(q[3]);
    var dot: seq<byte> := [DOT];
    QuadChars(a, dot);
    QuadChars(a + dot, b);
    QuadChars(a + dot + b, dot);
    QuadChars(a + dot + b + dot, c);
    QuadChars(a + dot + b + dot + c, dot);
    QuadChars(a + dot + b + dot + c + dot, d);
    assert DottedQuad(q)[0] == a[0];
  }

  predicate Dotted4(s: seq<byte>) {
    forall i :: 0 <= i < |s| ==> s[i] == DOT || 48 <= s[i] <= 57
  }

  lemma QuadChars(a: seq<byte>, b: seq<byte>)
    ensures Dotted4(a) && Dotted4(b) ==> Dotted4(a + b)
  {
  }

  /** A leading zero, or four characters without a dot, are refused. */
  lemma NotQuad(s: seq<byte>)
    requires |s| >= 4
    requires (s[0] == ZERO_DIGIT && s[1] != DOT) || forall i :: 0 <= i < 4 ==> s[i] != DOT
    ensures Pton4(s) == None
  {
    if Pton4(s).Some? {
      var n := DottedStart(s);
      if s[0] == ZERO_DIGIT && s[1] != DOT {
        LeadingZero(s);
      }
    }
  }

  lemma LeadingZero(s: seq<byte>)
    requires |s| >= 2 && s[0] == ZERO_DIGIT && s[1] != DOT
    ensures Pton4(s) == None
  {
    assert s[1..][0] == s[1];
    assert StepQuad(Quad([], 0, false), s[0]) == Some(Quad([], 0, true));
    assert StepQuad(Quad([], 0, true), s[1]) == None;
    assert ScanQuad(Quad([], 0, true), s[1..]) == None;
  }

  // ----- Where the colons of an expansion are -----

  /** A colon behind every fourth character, as far as `n`. */
  ghost predicate Spaced(t: seq<byte>, n: nat) {
    forall x :: 0 <= x < |t| ==> (t[x] == COLON <==> x % 5 == 4 && x < n)
  }

  lemma {:induction false} SpacedColons(t: seq<byte>, n: nat)
    requires Spaced(t, n)
    ensures Colons(t) == (if |t| < n then |t| else n) / 5
    decreases |t|
  {
    if t != [] { SpacedColons(t[..|t| - 1], n); }
  }

  lemma SlotsSpaced(t: seq<byte>, groups: seq<seq<byte>>)
    requires Slots(t, groups) && |groups| == 8 && AreGroups(groups)
    ensures |t| == 39 && Spaced(t, 39)
  {
    forall x | 0 <= x < 39 ensures t[x] == COLON <==> x % 5 == 4 {
      var k := x / 5;
      assert Slot(t, groups[k], k) && IsGroup(groups[k]);
      if x % 5 != 4 { assert t[x] == groups[k][x % 5] && HexValue(groups[k][x % 5]) >= 0; }
    }
  }

  lemma FrontGroups(pre: seq<seq<byte>>)
    requires AreGroups(pre) && |pre| <= 8
    ensures AreGroups(Front(pre, |pre|))
  {
    hide IsGroup, Pad;
    PadAllDenotes(pre[..|pre|]);
    NilGroupsDenote(8 - |pre|);
    GroupsConcat(PadAll(pre[..|pre|]), NilGroups(8 - |pre|));
  }

  /** A text without colons at the end of the template takes the place of the colons there. */
  lemma PutAtEnd(t: seq<byte>, q: seq<byte>) returns (u: seq<byte>)
    requires Spaced(t, |t|) && 0 < |q| <= |t| && forall i :: 0 <= i < |q| ==> q[i] != COLON
    ensures var at := |t| - |q|; Put(t, at, q) == Some(u) && u == t[..at] + q && Spaced(u, at)
  {
    var at := |t| - |q|;
    u := t[..at] + q;
    assert t[at + |q|..] == [] && u + [] == u;
    forall x | 0 <= x < |t| ensures u[x] == COLON <==> x % 5 == 4 && x < at { assert x >= at ==> u[x] == q[x - at]; }
  }

  /** The groups behind the "::" are put between the colons. */
  lemma {:induction false} PostAreaSpaced(post: seq<seq<byte>>, m: nat, at: nat, t: seq<byte>, n: nat)
    returns (u: seq<byte>)
    requires AreGroups(post) && m <= |post| && at % 5 == 4 && 5 * m <= at + 1 && at <= |t| && Spaced(t, n)
    ensures PostArea(PostText(post, m), at, t) == Some(u) && |u| == |t| && Spaced(u, n)
    decreases m
  {
    hide Spaced, PostText, PostArea, Put, LastIndexOf, IsGroup;
    if m == 0 {
      u := t;
      NoPostText(post);
      PostAreaDone([], at, t);
    } else {
      var g := post[m - 1];
      GroupShape(g);
      PostStep(post, m);
      var v := PutInSlot(t, n, at, g);
      PostAreaStep(PostText(post, m), |PostText(post, m - 1)|, at, t, v);
      if m == 1 {
        NoPostText(post);
        PostAreaDone([], at - 5, v);
        u := v;
      } else {
        u := PostAreaSpaced(post, m - 1, at - 5, v, n);
      }
    }
  }

  lemma GroupShape(g: seq<byte>)
    requires IsGroup(g)
    ensures 1 <= |g| <= 4 && forall i :: 0 <= i < |g| ==> g[i] != COLON && g[i] != DOT && g[i] != COMMA
  {
    forall i | 0 <= i < |g| ensures g[i] != COLON && g[i] != DOT && g[i] != COMMA { assert HexValue(g[i]) >= 0; }
  }

  lemma PutInSlot(t: seq<byte>, n: nat, at: nat, g: seq<byte>) returns (u: seq<byte>)
    requires Spaced(t, n) && at % 5 == 4 && 0 < |g| <= 4 && at <= |t|
    requires forall i :: 0 <= i < |g| ==> g[i] != COLON
    ensures Put(t, at - |g|, g) == Some(u) && |u| == |t| && Spaced(u, n)
  {
    var from := at - |g|;
    u := t[..from] + g + t[at..];
    forall x | 0 <= x < |t| ensures u[x] == COLON <==> x % 5 == 4 && x < n {
      assert from <= x < at ==> u[x] == g[x - from] && x % 5 != 4;
    }
  }

  // ----- The quad is put first -----

  lemma {:induction false} ColonizedLength(gs: seq<seq<byte>>)
    requires AreGroups(gs)
    ensures |Colonized(gs)| <= 5 * |gs|
  {
    if gs != [] {
      assert IsGroup(gs[0]);
      ColonizedLength(gs[1..]);
    }
  }

  lemma CopyShape(post: seq<seq<byte>>, q: seq<byte>)
    ensures [COLON] + (Colonized(post) + q) == PostText(post, |post|) + [COLON] + q
  {
    hide Colonized, Join;
    assert post[..|post|] == post;
    NoneColonized(q);
    if post != [] {
      JoinColonized(post, q);
      Reassociate([COLON] + Join(post), [COLON], q);
      Reassociate([COLON], Join(post), [COLON] + q);
    }
  }

  /** After the front part the quad is put to the end of the template. */
  lemma QuadFirst(pre: seq<seq<byte>>, post: seq<seq<byte>>, quad: seq<byte>) returns (t: seq<byte>, v: seq<byte>)
    requires CompressedMixed(pre, post, quad).WellFormed()
    ensures Slots(t, Front(pre, |pre|)) && AreGroups(Front(pre, |pre|)) && |t| == 39 && Spaced(t, 39)
    ensures var q := DottedQuad(quad);
      && 7 <= |q| <= 15 && v == t[..39 - |q|] + q && Spaced(v, 39 - |q|)
      && Expanded(CompressedMixed(pre, post, quad).Text()) == PostArea(PostText(post, |post|), 34, v)
  {
    hide Slots, Front, Colonized, Join, Put, AreGroups, IsGroup, PreArea, PostArea, FindDouble, PostText, PreEnd;
    hide DottedQuad, Spaced;
    var q := DottedQuad(quad);
    QuadText(quad);
    t := FrontExpands(pre, Colonized(post) + q);
    FrontGroups(pre);
    SlotsSpaced(t, Front(pre, |pre|));
    ColonizedLength(post);
    CopyShape(post, q);
    v := PutAtEnd(t, q);
    var copy := PostText(post, |post|) + [COLON] + q;
    LastColonBefore(copy, PostText(post, |post|), q);
    PostAreaStep(copy, |PostText(post, |post|)|, 39, t, v);
  }

  lemma LastColonBefore(s: seq<byte>, front: seq<byte>, q: seq<byte>)
    requires s == front + [COLON] + q && forall i :: 0 <= i < |q| ==> q[i] != COLON
    ensures LastIndexOf(s, COLON) == |front| && s[|front| + 1..] == q && s[..|front|] == front
  {
    forall i | |front| < i < |s| ensures s[i] != COLON { assert s[i] == q[i - |front| - 1]; }
    assert s[|front|] == COLON;
  }

  // ----- Refused expansions -----

  /** A long quad covers the colon of the sixth slot. */
  lemma LongQuadRefused(pre: seq<seq<byte>>, post: seq<seq<byte>>, quad: seq<byte>) returns (u: seq<byte>)
    requires CompressedMixed(pre, post, quad).WellFormed() && |DottedQuad(quad)| >= 10
    ensures Expanded(CompressedMixed(pre, post, quad).Text()) == Some(u) && Pton6(u) == None
  {
    hide Slots, Front, Expanded, PostArea, PostText, DottedQuad, Pton6;
    var t, v := QuadFirst(pre, post, quad);
    var n := 39 - |DottedQuad(quad)|;
    u := PostAreaSpaced(post, |post|, 34, v, n);
    FewColons(u, n);
  }

  lemma FewColons(u: seq<byte>, n: nat)
    requires |u| == 39 && n < 30 && Spaced(u, n)
    ensures Pton6(u) == None
  {
    hide Pton6;
    SpacedColons(u, n);
    if Pton6(u).Some? { var a := SingleColons(u); }
  }

  /** In the full form the quad is put to the left of the last slot. */
  lemma FullMixedRefused(gs: seq<seq<byte>>, quad: seq<byte>) returns (u: seq<byte>)
    requires FullMixed(gs, quad).WellFormed()
    ensures Expanded(FullMixed(gs, quad).Text()) == Some(u) && Pton6(u) == None
  {
    hide Slots, Front, Expanded, DottedQuad, Pton6, AreGroups, IsGroup, Colonized;
    var q := DottedQuad(quad);
    QuadText(quad);
    var t := WholeExpands(gs, q, []);
    assert Colonized(gs) + q + [] == Colonized(gs) + q;
    FrontGroups(gs);
    SlotsSpaced(t, Front(gs, 6));
    BlankEnd(t, gs);
    var n := 34 - |q|;
    u := t[..n] + q + t[34..];
    SpacedColons(t[..n], n);
    NoColons(q);
    ColonsConcat(t[..n], q);
    ColonsConcat(t[..n] + q, t[34..]);
    EndColons(t);
    if Pton6(u).Some? { EndNotDotted(u, t, q); }
  }

  lemma BlankEnd(t: seq<byte>, gs: seq<seq<byte>>)
    requires AreGroups(gs) && |gs| == 6 && Slots(t, Front(gs, 6))
    ensures t[34..] == [COLON] + NIL_GROUP
  {
    var f := Front(gs, 6);
    assert Slot(t, f[6], 6) && Slot(t, f[7], 7);
    assert f[7] == NIL_GROUP;
    assert t[34..] == [t[34]] + t[35..39];
  }

  lemma EndColons(t: seq<byte>)
    requires |t| == 39 && t[34..] == [COLON] + NIL_GROUP
    ensures Colons(t[34..]) == 1
  {
    NoColons(NIL_GROUP);
    ColonsConcat([COLON], NIL_GROUP);
    assert [COLON][..0] == [];
  }

  lemma EndColonsAt(u: seq<byte>, t: seq<byte>, q: seq<byte>)
    requires |t| == 39 && Spaced(t, 39) && 7 <= |q| <= 15 && u == t[..34 - |q|] + q + t[34..]
    requires (forall i :: 0 <= i < |q| ==> q[i] != COLON) && t[34..] == [COLON] + NIL_GROUP
    ensures |u| == 39 && forall x :: 0 <= x < 39 ==> (u[x] == COLON <==> (x % 5 == 4 && x < 34 - |q|) || x == 34)
    ensures forall x :: 34 < x < 39 ==> u[x] == ZERO_DIGIT
  {
    forall x | 0 <= x < 39 ensures u[x] == COLON <==> (x % 5 == 4 && x < 34 - |q|) || x == 34 {
      if 34 - |q| <= x < 34 { assert u[x] == q[x - (34 - |q|)]; }
      if x >= 34 { assert u[x] == t[34..][x - 34]; }
    }
    forall x | 34 < x < 39 ensures u[x] == ZERO_DIGIT { assert u[x] == t[34..][x - 34] == NIL_GROUP[x - 35]; }
  }

  lemma NoDotAtEnd(u: seq<byte>, a: Address)
    requires |u| == 39 && u[34] == COLON && (forall x :: 34 < x < 39 ==> u[x] == ZERO_DIGIT)
    requires a.Valid() && u == Colonized(a.pre) + a.last.Text()
    requires forall i :: |Colonized(a.pre)| <= i < |u| ==> u[i] != COLON
    ensures !a.last.Dotted?
  {
    hide Colonized;
    var n, q := |Colonized(a.pre)|, a.last.Text();
    assert n > 34;
    forall i | 0 <= i < |q| ensures q[i] == ZERO_DIGIT { assert q[i] == u[n + i]; }
    if a.last.Dotted? { var k := DottedStart(q); }
  }

  lemma EndNotDotted(u: seq<byte>, t: seq<byte>, q: seq<byte>)
    requires |t| == 39 && Spaced(t, 39) && 7 <= |q| <= 15 && u == t[..34 - |q|] + q + t[34..]
    requires (forall i :: 0 <= i < |q| ==> q[i] != COLON) && t[34..] == [COLON] + NIL_GROUP && Colons(u) <= 6
    ensures Pton6(u) == None
  {
    hide Pton6, Colonized;
    EndColonsAt(u, t, q);
    if Pton6(u).Some? {
      var a := SingleColons(u);
      NoDotAtEnd(u, a);
    }
  }

  // ----- Quads of at most nine characters -----

  /** What stands in the last nine characters: the quad, and over it the last group of the back part. */
  function LastNine(post: seq<seq<byte>>, q: seq<byte>): (r: seq<byte>)
    requires AreGroups(post) && |q| <= 9
    ensures |r| == 9
  {
    var w := seq(9 - |q|, _ => ZERO_DIGIT) + q;
    if post == [] then w else
      var g := post[|post| - 1];
      assert IsGroup(g);
      w[..4 - |g|] + g + w[4..]
  }

  /** The groups before them: those of the back part, but for the last, move up. */
  function SixGroups(pre: seq<seq<byte>>, post: seq<seq<byte>>): (r: seq<seq<byte>>)
    requires AreGroups(pre) && AreGroups(post) && |pre| + |post| <= 5
    ensures |r| == 6
  {
    var moved := Moved(post);
    PadAll(pre) + NilGroups(6 - |pre| - |moved|) + PadAll(moved)
  }

  function Moved(post: seq<seq<byte>>): (r: seq<seq<byte>>)
    requires AreGroups(post)
    ensures AreGroups(r) && |r| == if post == [] then 0 else |post| - 1
  {
    if post == [] then [] else post[..|post| - 1]
  }

  lemma SameSlice(a: seq<byte>, b: seq<byte>, n: nat, i: nat, j: nat)
    requires i <= j < n <= |a| && n <= |b| && a[..n] == b[..n]
    ensures a[i..j] == b[i..j] && a[j] == b[j]
  {
    assert a[..n][i..j] == a[i..j] && b[..n][i..j] == b[i..j] && a[..n][j] == a[j] && b[..n][j] == b[j];
  }

  lemma FirstSix(t: seq<byte>, pre: seq<seq<byte>>, v: seq<byte>)
    requires AreGroups(pre) && |pre| <= 6 && Slots(t, Front(pre, |pre|)) && |v| == 39 && v[..30] == t[..30]
    ensures Slots(v, PadAll(pre) + NilGroups(6 - |pre|))
    ensures t[30..] == NIL_GROUP + [COLON] + NIL_GROUP
  {
    var f, six := Front(pre, |pre|), PadAll(pre) + NilGroups(6 - |pre|);
    assert pre[..|pre|] == pre;
    forall k | 0 <= k < 6 ensures Slot(v, six[k], k) {
      assert Slot(t, f[k], k) && six[k] == f[k];
      SameSlice(v, t, 30, 5 * k, 5 * k + 4);
    }
    assert Slot(t, f[6], 6) && Slot(t, f[7], 7) && f[6] == NIL_GROUP && f[7] == NIL_GROUP;
    assert t[30..] == t[30..34] + [t[34]] + t[35..39];
  }

  lemma ShortQuad(pre: seq<seq<byte>>, post: seq<seq<byte>>, quad: seq<byte>) returns (u: seq<byte>)
    requires CompressedMixed(pre, post, quad).WellFormed() && |DottedQuad(quad)| <= 9
    ensures Expanded(CompressedMixed(pre, post, quad).Text()) == Some(u)
    ensures Slots(u, SixGroups(pre, post)) && u[30..] == LastNine(post, DottedQuad(quad))
  {
    hide Slots, Front, Expanded, PostArea, PostText, DottedQuad, Spaced, IsGroup, Pad, PadAll, NilGroups, SixGroups;
    var q := DottedQuad(quad);
    var t, v := QuadFirst(pre, post, quad);
    FirstSix(t, pre, v);
    NinePut(t, v, q);
    u := GroupsOverQuad(pre, post, q, v);
  }

  /** Then the groups behind the "::", of which the last comes over the quad. */
  lemma GroupsOverQuad(pre: seq<seq<byte>>, post: seq<seq<byte>>, q: seq<byte>, v: seq<byte>) returns (u: seq<byte>)
    requires AreGroups(pre) && AreGroups(post) && |pre| + |post| <= 5 && |q| <= 9 && |v| == 39
    requires Slots(v, PadAll(pre) + NilGroups(6 - |pre|)) && v[30..] == LastNine([], q)
    ensures PostArea(PostText(post, |post|), 34, v) == Some(u)
    ensures Slots(u, SixGroups(pre, post)) && u[30..] == LastNine(post, q)
  {
    hide Slots, PostArea, PostText, IsGroup, Pad, PadAll, Back, NilGroups, Put;
    if post == [] {
      u := v;
      NoPostText(post);
      PostAreaDone([], 34, v);
      NonePadded(PadAll(pre) + NilGroups(6 - |pre|));
    } else {
      var m := |post| - 1;
      var g := post[m];
      GroupShape(g);
      var w := v[..34 - |g|] + g + v[34..];
      PutNine(v, g, w);
      FirstSixKept(v, w, PadAll(pre) + NilGroups(6 - |pre|));
      PostStep(post, m + 1);
      PostAreaStep(PostText(post, m + 1), |PostText(post, m)|, 34, v, w);
      MovedBack(pre, post);
      u := PostAreaGroups(pre, post[..m], 6, m, w);
      SliceAgain(u, 29, 30);
      SliceAgain(w, 29, 30);
    }
  }

  lemma NinePut(t: seq<byte>, v: seq<byte>, q: seq<byte>)
    requires |t| == 39 && t[30..] == NIL_GROUP + [COLON] + NIL_GROUP && 7 <= |q| <= 9 && v == t[..39 - |q|] + q
    ensures v[..30] == t[..30] && v[30..] == seq(9 - |q|, _ => ZERO_DIGIT) + q
  {
    forall x | 30 <= x < 39 - |q| ensures t[x] == ZERO_DIGIT { assert t[x] == t[30..][x - 30]; }
  }

  lemma PutNine(v: seq<byte>, g: seq<byte>, w: seq<byte>)
    requires |v| == 39 && 1 <= |g| <= 4 && w == v[..34 - |g|] + g + v[34..]
    ensures |w| == 39 && Put(v, 34 - |g|, g) == Some(w) && w[..30] == v[..30]
    ensures w[30..] == v[30..][..4 - |g|] + g + v[30..][4..]
  {
  }

  lemma FirstSixKept(v: seq<byte>, w: seq<byte>, six: seq<seq<byte>>)
    requires |six| == 6 && Slots(v, six) && |w| == 39 && w[..30] == v[..30]
    ensures Slots(w, six)
  {
    forall k | 0 <= k < 6 ensures Slot(w, six[k], k) {
      assert Slot(v, six[k], k);
      SameSlice(w, v, 30, 5 * k, 5 * k + 4);
    }
  }

  lemma MovedBack(pre: seq<seq<byte>>, post: seq<seq<byte>>)
    requires AreGroups(pre) && AreGroups(post) && |pre| + |post| <= 5 && post != []
    ensures var m := |post| - 1; var moved := post[..m];
      && AreGroups(moved) && PostText(post, m) == PostText(moved, m)
      && Back(pre, moved, 6, m) == PadAll(pre) + NilGroups(6 - |pre|)
      && Back(pre, moved, 6, 0) == SixGroups(pre, post)
  {
    hide Pad, PadAll, NilGroups, IsGroup;
    var m := |post| - 1;
    var moved := post[..m];
    assert moved[..m] == moved && moved[m..] == [] && moved[0..] == moved;
    NonePadded(PadAll(pre) + NilGroups(6 - |pre|));
  }

  lemma SixSlots(u: seq<byte>, six: seq<seq<byte>>)
    requires Slots(u, six) && |six| == 6 && AreGroups(six)
    ensures |u| == 39 && forall x :: 0 <= x < 30 ==> (u[x] == COLON <==> x % 5 == 4)
    ensures u == Colonized(six) + u[30..]
  {
    forall x | 0 <= x < 30 ensures u[x] == COLON <==> x % 5 == 4 {
      var k := x / 5;
      assert Slot(u, six[k], k) && IsGroup(six[k]);
      if x % 5 != 4 { assert u[x] == six[k][x % 5] && HexValue(six[k][x % 5]) >= 0; }
    }
    SlotsColonized(u, six, 0);
    assert six[0..] == six && u[0..30] + u[30..] == u;
  }

  lemma {:induction false} SlotsColonized(u: seq<byte>, six: seq<seq<byte>>, k: nat)
    requires Slots(u, six) && |six| == 6 && k <= 6
    ensures u[5 * k..30] == Colonized(six[k..])
    decreases 6 - k
  {
    if k < 6 {
      assert Slot(u, six[k], k);
      SlotsColonized(u, six, k + 1);
      assert u[5 * k..30] == u[5 * k..5 * k + 4] + [u[5 * k + 4]] + u[5 * (k + 1)..30];
      assert six[k..][1..] == six[k + 1..];
    }
  }

  lemma PaddedBytes(pre: seq<seq<byte>>, n: nat, post: seq<seq<byte>>)
    requires AreGroups(pre) && AreGroups(post)
    ensures var gs := PadAll(pre) + NilGroups(n) + PadAll(post);
            && AreGroups(gs) && AreTokens(pre) && AreTokens(post) && AreTokens(gs)
            && GroupBytes(gs) == GroupBytes(pre) + Zeros(2 * n) + GroupBytes(post)
  {
    hide AreGroups, AreTokens, PadAll, NilGroups, GroupBytes;
    var a, z, b := PadAll(pre), NilGroups(n), PadAll(post);
    GroupsAreTokens(pre);
    GroupsAreTokens(post);
    PadAllDenotes(pre);
    PadAllDenotes(post);
    NilGroupsDenote(n);
    GroupsAreTokens(a);
    GroupsAreTokens(z);
    GroupsAreTokens(b);
    GroupsConcat(a, z);
    GroupsConcat(a + z, b);
    GroupBytesConcat(a, z);
    GroupBytesConcat(a + z, b);
  }

  lemma SixAreGroups(pre: seq<seq<byte>>, post: seq<seq<byte>>)
    requires AreGroups(pre) && AreGroups(post) && |pre| + |post| <= 5
    ensures AreTokens(pre) && AreTokens(Moved(post))
    ensures AreGroups(SixGroups(pre, post)) && AreTokens(SixGroups(pre, post))
    ensures GroupBytes(SixGroups(pre, post))
         == GroupBytes(pre) + Zeros(2 * (6 - |pre| - |Moved(post)|)) + GroupBytes(Moved(post))
  {
    hide AreGroups, AreTokens, PadAll, NilGroups, Moved, GroupBytes;
    PaddedBytes(pre, 6 - |pre| - |Moved(post)|, Moved(post));
  }

  /** Six groups and nine characters are read as the groups and the quad that the characters are, or refused. */
  lemma SixAndNine(u: seq<byte>, six: seq<seq<byte>>)
    requires Slots(u, six) && |six| == 6 && AreGroups(six) && AreTokens(six)
    requires |u| == 39 && forall i :: 30 <= i < 39 ==> u[i] != COLON
    ensures Pton6(u) == match Pton4(u[30..]) case None => None case Some(q) => Some(GroupBytes(six) + q)
  {
    hide Pton6, Pton4, Slots, Colonized, IsGroup, GroupBytes;
    SixSlots(u, six);
    var nine := u[30..];
    if Pton4(nine).Some? {
      var a := Address(six, false, [], Dotted(nine));
      NoTokens();
      TextShape(a);
      assert [] + Pton4(nine).value == Pton4(nine).value;
      TextParses(a);
    } else if Pton6(u).Some? {
      assert Spaced(u, 30) by { assert forall x :: 30 <= x < 39 ==> u[x] != COLON; }
      SpacedColons(u, 30);
      var a := SingleColons(u);
      LastBehind(u, a);
    }
  }

  /** The end of an accepted text is what stands behind its last colon. */
  lemma LastBehind(u: seq<byte>, a: Address)
    requires |u| == 39 && u[29] == COLON && a.pre != [] && AreTokens(a.pre) && u == Colonized(a.pre) + a.last.Text()
    requires forall i :: 30 <= i < 39 ==> u[i] != COLON
    requires forall i :: |Colonized(a.pre)| <= i < |u| ==> u[i] != COLON
    ensures a.last.Text() == u[30..]
  {
    hide Colonized, Last.Text;
    ColonizedColons(a.pre);
    var n := |Colonized(a.pre)|;
    assert u[n - 1] == COLON;
    assert n == 30;
    assert u[n..] == a.last.Text();
  }

  /** In the last nine characters there is no colon, and if the quad is shorter they are no quad. */
  lemma NineShape(post: seq<seq<byte>>, quad: seq<byte>)
    requires AreGroups(post) && |quad| == 4 && |DottedQuad(quad)| <= 9
    ensures var nine := LastNine(post, DottedQuad(quad));
            && (forall i :: 0 <= i < 9 ==> nine[i] != COLON)
            && (|DottedQuad(quad)| < 9 ==> Pton4(nine) == None)
  {
    hide Pton4, DottedQuad, IsGroup;
    QuadText(quad);
    var q := DottedQuad(quad);
    var nine := LastNine(post, q);
    if post != [] { GroupShape(post[|post| - 1]); }
    if |q| < 9 { NotQuad(nine); }
  }

  // ----- Main results -----

  /**
   * Of the forms with an embedded IPv4 part, the expansion of a full one, and of one whose dotted quad has not nine
   * characters, is refused by the parser.
   */
  lemma MixedRefused(m: Mixed)
    requires m.WellFormed() && (m.FullMixed? || |DottedQuad(m.quad)| != 9)
    ensures Expanded(m.Text()).Some? && Pton6(Expanded(m.Text()).value) == None
  {
    hide Expanded, Pton6, DottedQuad, Slots, IsGroup;
    match m
    case FullMixed(gs, quad) => var u := FullMixedRefused(gs, quad);
    case CompressedMixed(pre, post, quad) =>
      if |DottedQuad(quad)| >= 10 {
        var u := LongQuadRefused(pre, post, quad);
      } else {
        var u := NineRead(pre, post, quad);
        NineShape(post, quad);
      }
  }

  lemma NineRead(pre: seq<seq<byte>>, post: seq<seq<byte>>, quad: seq<byte>) returns (u: seq<byte>)
    requires CompressedMixed(pre, post, quad).WellFormed() && |DottedQuad(quad)| <= 9
    ensures Expanded(CompressedMixed(pre, post, quad).Text()) == Some(u) && AreTokens(SixGroups(pre, post))
    ensures Pton6(u) == match Pton4(LastNine(post, DottedQuad(quad)))
                        case None => None
                        case Some(q) => Some(GroupBytes(SixGroups(pre, post)) + q)
  {
    hide Expanded, Pton4, Pton6, DottedQuad, Slots, IsGroup, SixGroups, LastNine, GroupBytes;
    u := ShortQuad(pre, post, quad);
    SixAreGroups(pre, post);
    NineShape(post, quad);
    SixSlots(u, SixGroups(pre, post));
    forall i | 30 <= i < 39 ensures u[i] != COLON { assert u[i] == u[30..][i - 30]; }
    SixAndNine(u, SixGroups(pre, post));
  }

  lemma {:induction false} MovedZeros(b: seq<byte>)
    requires |b| % 2 == 0
    ensures b != [] ==> (Zeros(2) + b[..|b| - 2] == b <==> b == Zeros(|b|))
  {
    if |b| >= 2 {
      var a := b[..|b| - 2];
      MovedZeros(a);
      var moved := Zeros(2) + a;
      if moved == b {
        assert a != [] ==> Zeros(2) + a[..|a| - 2] == a by { assert a != [] ==> a == moved[..|a|]; }
        assert b[|b| - 2] == moved[|b| - 2] && b[|b| - 1] == moved[|b| - 1];
        forall i | 0 <= i < |b| ensures b[i] == 0 { assert i < |a| ==> b[i] == a[i]; }
      }
    }
  }

  lemma SixBytes(pre: seq<seq<byte>>, post: seq<seq<byte>>)
    requires AreGroups(pre) && AreGroups(post) && |pre| + |post| <= 5
    ensures AreTokens(pre) && AreTokens(post) && AreTokens(SixGroups(pre, post))
    ensures var b := GroupBytes(post); var n := if post == [] then 0 else |b| - 2;
            GroupBytes(SixGroups(pre, post)) == GroupBytes(pre) + Zeros(12 - 2 * |pre| - n) + b[..n]
  {
    hide IsGroup, IsToken, AreGroups, AreTokens, SixGroups, GroupBytes, Moved;
    GroupsAreTokens(post);
    SixAreGroups(pre, post);
    MovedBytes(post);
  }

  lemma MovedBytes(post: seq<seq<byte>>)
    requires AreGroups(post) && AreTokens(post) && AreTokens(Moved(post))
    ensures GroupBytes(Moved(post)) == GroupBytes(post)[..2 * |Moved(post)|]
  {
    hide IsGroup, IsToken, GroupBytes;
    if post != [] { GroupsSplit(post); } else { NoTokens(); }
  }

  /** The octets of the six groups are those of the address if and only if the groups of the back part are zero. */
  lemma SixMean(pre: seq<seq<byte>>, post: seq<seq<byte>>)
    requires AreGroups(pre) && AreGroups(post) && |pre| + |post| <= 5
    ensures AreTokens(pre) && AreTokens(post) && AreTokens(SixGroups(pre, post))
    ensures var b := GroupBytes(post);
            GroupBytes(SixGroups(pre, post)) == GroupBytes(pre) + Zeros(12 - 2 * |pre| - 2 * |post|) + b
            <==> b == Zeros(|b|)
  {
    hide IsGroup, IsToken, AreGroups, AreTokens, SixGroups, GroupBytes, Zeros;
    SixBytes(pre, post);
    var a, b := GroupBytes(pre), GroupBytes(post);
    assert |a| == 2 * |pre| && |b| == 2 * |post|;
    MovedMean(a, b);
  }

  lemma MovedMean(a: seq<byte>, b: seq<byte>)
    requires |b| % 2 == 0 && |a| + |b| <= 10
    ensures var n := if b == [] then 0 else |b| - 2;
            a + Zeros(12 - |a| - n) + b[..n] == a + Zeros(12 - |a| - |b|) + b <==> b == Zeros(|b|)
  {
    if b != [] {
      var n, z := |b| - 2, Zeros(12 - |a| - |b|);
      MovedZeros(b);
      assert Zeros(12 - |a| - n) == z + Zeros(2);
      assert a + (z + Zeros(2)) + b[..n] == a + z + (Zeros(2) + b[..n]);
      SuffixesAgree(a + z, Zeros(2) + b[..n], b);
    }
  }

  /**
   * The expansion keeps the address if and only if there is a "::", the quad has nine characters, the groups between
   * the two are zero, and the last of them does not change the characters that it is put over.
   */
  lemma MixedKeptIff(m: Mixed)
    requires m.WellFormed()
    ensures Expanded(m.Text()).Some?
    ensures m.CompressedMixed? ==> AreTokens(m.post)
    ensures Pton6(Expanded(m.Text()).value) == Pton6(m.Text()) <==>
            m.CompressedMixed? && |DottedQuad(m.quad)| == 9 && GroupBytes(m.post) == Zeros(2 * |m.post|)
            && LastNine(m.post, DottedQuad(m.quad)) == DottedQuad(m.quad)
  {
    hide Expanded, Pton4, Pton6, DottedQuad, IsGroup, GroupBytes, SixGroups, LastNine, Mixed.Text;
    MixedParses(m);
    if m.FullMixed? || |DottedQuad(m.quad)| != 9 {
      if m.CompressedMixed? { GroupsAreTokens(m.post); }
      MixedRefused(m);
    } else {
      var pre, post := m.pre, m.post;
      var u := NineRead(pre, post, m.quad);
      SixMean(pre, post);
      QuadLanguage(LastNine(post, DottedQuad(m.quad)), m.quad);
      var six, front := GroupBytes(SixGroups(pre, post)), GroupBytes(pre) + Zeros(12 - 2 * |pre| - 2 * |post|);
      var p := Pton4(LastNine(post, DottedQuad(m.quad)));
      assert m.Denotes() == front + GroupBytes(post) + m.quad;
      if p.Some? { SamePair(six, p.value, front + GroupBytes(post), m.quad); }
    }
  }

  lemma SamePair(a: seq<byte>, b: seq<byte>, c: seq<byte>, d: seq<byte>)
    requires |a| == |c|
    ensures a + b == c + d <==> a == c && b == d
  {
    assert (a + b)[..|a|] == a && (c + d)[..|c|] == c && (a + b)[|a|..] == b && (c + d)[|c|..] == d;
  }

  lemma TwoQuads()
    ensures DottedQuad([10, 2, 3, 40]) == [49, 48, DOT, 50, DOT, 51, DOT, 52, 48]
    ensures DottedQuad([10, 9, 3, 40]) == [49, 48, DOT, 57, DOT, 51, DOT, 52, 48]
  {
    assert DecText(10) == DecText(1) + [48] == [49, 48];
    assert DecText(40) == DecText(4) + [48] == [52, 48];
  }

  /** A failing input: "::9:10.2.3.40" is expanded to a text that is read as "::10.9.3.40". */
  lemma QuadMisread()
    ensures var m := CompressedMixed([], [[57]], [10, 2, 3, 40]);
      && m.WellFormed() && Expanded(m.Text()).Some?
      && Pton6(m.Text()) == Some(Zeros(10) + [0, 9, 10, 2, 3, 40])
      && Pton6(Expanded(m.Text()).value) == Some(Zeros(12) + [10, 9, 3, 40])
  {
    hide Pton4, Pton6, Expanded, DottedQuad, Val, HexDigits, DecText;
    var m := CompressedMixed([], [[57]], [10, 2, 3, 40]);
    DigitIsToken(57);
    MixedParses(m);
    NoTokens();
    PushToken([], [57]);
    HiLoShift(9);
    assert [] + GroupBytes([[57]]) == [0, 9];
    assert m.Denotes() == Zeros(10) + [0, 9, 10, 2, 3, 40];
    TwoQuads();
    var nine := LastNine([[57]], DottedQuad(m.quad));
    assert nine == DottedQuad([10, 9, 3, 40]);
    DottedQuadRoundTrip([10, 9, 3, 40]);
    var u := NineRead([], [[57]], m.quad);
    SixBytes([], [[57]]);
    assert [] + Zeros(12) + GroupBytes([[57]])[..0] == Zeros(12);
  }
}
