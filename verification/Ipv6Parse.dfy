// inet_pton4 and inet_pton6: the text-to-address scanners, as functions and as the loops of the source.
module Ipv6Parse {
  import opened Bytes
  import opened Ipv6Text

  // ----- IPv4 -----

  /** The scanner's state: closed octets, the octet being built, and whether it has a digit yet. */
  datatype Quad = Quad(done: seq<byte>, cur: byte, sawDigit: bool)

  function StepQuad(q: Quad, ch: byte): Option<Quad> {
    if 48 <= ch <= 57 then
      var newc: int := q.cur as int * 10 + (ch - 48);
      if (q.sawDigit && q.cur == 0) || newc > 255 || (!q.sawDigit && |q.done| >= 4) then None
      else Some(Quad(q.done, newc, true))
    else if ch == DOT && q.sawDigit then
      if |q.done| + 1 == 4 then None else Some(Quad(q.done + [q.cur], 0, false))
    else None
  }

  function ScanQuad(q: Quad, s: seq<byte>): Option<Quad>
    decreases |s|
  {
    if s == [] then Some(q) else
      match StepQuad(q, s[0])
      case None => None
      case Some(q') => ScanQuad(q', s[1..])
  }

  /** What inet_pton4 computes: the four octets, or nothing. */
  function Pton4(s: seq<byte>): (r: Option<seq<byte>>)
    ensures r.Some? ==> |r.value| == 4
  {
    match ScanQuad(Quad([], 0, false), s)
    case None => None
    case Some(q) => if q.sawDigit && |q.done| == 3 then Some(q.done + [q.cur]) else None
  }

  lemma {:induction false} ScanQuadAppend(q: Quad, a: seq<byte>, b: seq<byte>)
    ensures ScanQuad(q, a).None? ==> ScanQuad(q, a + b).None?
    ensures ScanQuad(q, a).Some? ==> ScanQuad(q, a + b) == ScanQuad(ScanQuad(q, a).value, b)
    decreases |a|
  {
    if a == [] {
      assert a + b == b;
    } else {
      assert (a + b)[0] == a[0] && (a + b)[1..] == a[1..] + b;
      match StepQuad(q, a[0])
      case None =>
      case Some(q') => ScanQuadAppend(q', a[1..], b);
    }
  }

  lemma {:induction false} ScanDec(done: seq<byte>, n: byte)
    requires |done| <= 3
    ensures ScanQuad(Quad(done, 0, false), DecText(n)) == Some(Quad(done, n, true))
  {
    if n < 10 {
      assert DecText(n)[1..] == [];
    } else {
      ScanDec(done, n / 10);
      ScanQuadAppend(Quad(done, 0, false), DecText(n / 10), [48 + n % 10]);
      assert [48 + n % 10][1..] == [];
    }
  }

  /** The dotted quad of four octets. */
  function DottedQuad(q: seq<byte>): seq<byte>
    requires |q| == 4
  {
    DecText(q[0]) + [DOT] + DecText(q[1]) + [DOT] + DecText(q[2]) + [DOT] + DecText(q[3])
  }

  lemma ScanDecDot(done: seq<byte>, n: byte, rest: seq<byte>)
    requires |done| <= 2
    ensures ScanQuad(Quad(done, 0, false), DecText(n) + [DOT] + rest) == ScanQuad(Quad(done + [n], 0, false), rest)
  {
    ScanDec(done, n);
    assert DecText(n) + [DOT] + rest == DecText(n) + ([DOT] + rest);
    ScanQuadAppend(Quad(done, 0, false), DecText(n), [DOT] + rest);
    assert ([DOT] + rest)[1..] == rest;
  }

  /** Printing four octets and scanning the text gives them back. */
  lemma DottedQuadRoundTrip(q: seq<byte>)
    requires |q| == 4
    ensures Pton4(DottedQuad(q)) == Some(q)
  {
    hide DecText, ScanQuad, StepQuad;
    var t3 := DecText(q[3]);
    var t2 := DecText(q[2]) + [DOT] + t3;
    var t1 := DecText(q[1]) + [DOT] + t2;
    assert DottedQuad(q) == DecText(q[0]) + [DOT] + t1;
    ScanDecDot([], q[0], t1);
    ScanDecDot([q[0]], q[1], t2);
    assert [q[0]] + [q[1]] == q[..2];
    ScanDecDot(q[..2], q[2], t3);
    assert q[..2] + [q[2]] == q[..3];
    ScanDec(q[..3], q[3]);
    assert [] + [q[0]] == [q[0]] && q[..3] + [q[3]] == q;
  }

  /** Octets, with a dot behind each. */
  function DottedOctets(q: seq<byte>): seq<byte> {
    if q == [] then [] else DottedOctets(q[..|q| - 1]) + DecText(q[|q| - 1]) + [DOT]
  }

  /** What has been scanned is the text of the closed octets, and of the one being built. */
  lemma {:induction false} ScannedText(s: seq<byte>) returns (q: Quad)
    requires ScanQuad(Quad([], 0, false), s).Some?
    ensures ScanQuad(Quad([], 0, false), s) == Some(q) && (!q.sawDigit ==> q.cur == 0)
    ensures s == DottedOctets(q.done) + if q.sawDigit then DecText(q.cur) else []
  {
    if s == [] {
      q := Quad([], 0, false);
    } else {
      var n, c := |s| - 1, s[|s| - 1];
      assert s == s[..n] + [c];
      ScanQuadAppend(Quad([], 0, false), s[..n], [c]);
      var p := ScannedText(s[..n]);
      assert ScanQuad(p, [c]) == StepQuad(p, c) by { assert [c][1..] == []; }
      q := StepQuad(p, c).value;
      ScannedStep(p, c);
    }
  }

  lemma ScannedStep(p: Quad, c: byte)
    requires StepQuad(p, c).Some? && (!p.sawDigit ==> p.cur == 0)
    ensures var q := StepQuad(p, c).value;
            && (!q.sawDigit ==> q.cur == 0)
            && DottedOctets(p.done) + (if p.sawDigit then DecText(p.cur) else []) + [c]
               == DottedOctets(q.done) + if q.sawDigit then DecText(q.cur) else []
  {
    hide DecText, DottedOctets;
    var q, d := StepQuad(p, c).value, DottedOctets(p.done);
    if 48 <= c <= 57 {
      if p.sawDigit {
        NextDigit(p.cur, c);
        assert d + DecText(p.cur) + [c] == d + (DecText(p.cur) + [c]);
      } else {
        OneDigit(c);
        assert d + [] == d;
      }
    } else {
      NextOctet(p.done, p.cur);
      assert DottedOctets(q.done) + [] == DottedOctets(q.done);
    }
  }

  lemma NextDigit(n: nat, c: byte)
    requires n > 0 && 48 <= c <= 57
    ensures DecText(n * 10 + (c - 48)) == DecText(n) + [c]
  {
    assert (n * 10 + (c - 48)) / 10 == n && (n * 10 + (c - 48)) % 10 == c - 48;
  }

  lemma OneDigit(c: byte)
    requires 48 <= c <= 57
    ensures DecText(c - 48) == [c]
  {
  }

  lemma NextOctet(done: seq<byte>, n: byte)
    ensures DottedOctets(done + [n]) == DottedOctets(done) + DecText(n) + [DOT]
  {
    assert (done + [n])[..|done|] == done;
  }

  /** Main result: the texts that inet_pton4 accepts are exactly the dotted quads, without leading zeros. */
  lemma QuadLanguage(s: seq<byte>, q: seq<byte>)
    requires |q| == 4
    ensures Pton4(s) == Some(q) <==> s == DottedQuad(q)
  {
    hide ScanQuad, DecText;
    DottedQuadRoundTrip(q);
    if Pton4(s) == Some(q) {
      var p := ScannedText(s);
      assert q[..3] == p.done && q[3] == p.cur;
      FourOctets(p.done, p.cur);
    }
  }

  lemma FourOctets(done: seq<byte>, last: byte)
    requires |done| == 3
    ensures DottedOctets(done) + DecText(last) == DottedQuad(done + [last])
  {
    hide DecText;
    assert done[..2][..1] == done[..1] && done[..1][..0] == [];
    var a, b, c := DecText(done[0]), DecText(done[1]), DecText(done[2]);
    assert DottedOctets(done[..1]) == a + [DOT] by { assert [] + a == a; }
    assert DottedOctets(done[..2]) == a + [DOT] + b + [DOT];
  }

  /** inet_pton4: leaves `dst` alone unless it succeeds. */
  method InetPton4(s: seq<byte>, dst: array<byte>, at: nat) returns (ok: bool)
    requires at + 4 <= dst.Length
    modifies dst
    ensures ok == Pton4(s).Some?
    ensures !ok ==> dst[..] == old(dst[..])
    ensures ok ==> dst[..] == old(dst[..at]) + Pton4(s).value + old(dst[at + 4..])
  {
    var tmp := new byte[4](_ => 0);
    var sawDigit, octets, tp, i := false, 0, 0, 0;
    ghost var goal := ScanQuad(Quad([], 0, false), s);
    while i < |s|
      invariant 0 <= i <= |s| && 0 <= tp < 4 && octets == tp + (if sawDigit then 1 else 0)
      invariant !sawDigit ==> tmp[tp] == 0
      invariant ScanQuad(Quad(tmp[..tp], tmp[tp], sawDigit), s[i..]) == goal
      invariant dst[..] == old(dst[..])
    {
      var ch := s[i];
      assert s[i..][1..] == s[i + 1..];
      if 48 <= ch <= 57 {
        var newc: int := tmp[tp] as int * 10 + (ch - 48);
        if sawDigit && tmp[tp] == 0 { return false; }
        if newc > 255 { return false; }
        tmp[tp] := newc;
        if !sawDigit {
          octets := octets + 1;
          if octets > 4 { return false; }
          sawDigit := true;
        }
      } else if ch == DOT && sawDigit {
        if octets == 4 { return false; }
        ghost var closed := tmp[..tp] + [tmp[tp]];
        tp := tp + 1;
        tmp[tp] := 0;
        sawDigit := false;
        assert tmp[..tp] == closed;
      } else {
        return false;
      }
      i := i + 1;
    }
    assert s[i..] == [];
    if octets < 4 { return false; }
    assert tmp[..3] + [tmp[3]] == tmp[..];
    forall k | 0 <= k < 4 { dst[at + k] := tmp[k]; }
    return true;
  }

  // ----- IPv6 -----

  /**
   * The scanner's state: octets stored so far, their count when "::" was met (-1: not met), where the
   * current token starts, whether it has a digit, and its value.
   */
  datatype Scan = Scan(out: seq<byte>, colon: int, curtok: nat, saw: bool, val: nat)
  {
    ghost predicate Ok() {
      |out| <= 16 && -1 <= colon <= |out| && val < 65536
    }
  }

  function Push(out: seq<byte>, val: nat): seq<byte>
    requires val < 65536
  {
    out + [Hi(val), Lo(val)]
  }

  datatype Next = Reject | Stop(st: Scan) | Go(st: Scan)

  /** What one turn of the scanning loop makes of the character at `i`. */
  function StepScan(s: seq<byte>, i: nat, st: Scan): (n: Next)
    requires i < |s| && st.curtok <= i && st.Ok()
    ensures !n.Reject? ==> n.st.Ok() && n.st.curtok <= i + 1
  {
    var d := HexValue(s[i]);
    if d >= 0 then
      if st.val * 16 + d > 0xffff then Reject
      else Go(st.(val := st.val * 16 + d, saw := true))
    else if s[i] == COLON then
      if !st.saw then
        if st.colon >= 0 then Reject else Go(st.(curtok := i + 1, colon := |st.out|))
      else if |st.out| + 2 > 16 then Reject
      else Go(st.(curtok := i + 1, out := Push(st.out, st.val), saw := false, val := 0))
    else if s[i] == DOT && |st.out| + 4 <= 16 then
      match Pton4(s[st.curtok..])
      case None => Reject
      case Some(q) => Stop(st.(out := st.out + q, saw := false))
    else Reject
  }

  function ScanFrom(s: seq<byte>, i: nat, st: Scan): (r: Option<Scan>)
    requires i <= |s| && st.curtok <= i && st.Ok()
    ensures r.Some? ==> r.value.Ok()
    decreases |s| - i
  {
    if i == |s| then Some(st) else
      match StepScan(s, i, st)
      case Reject => None
      case Stop(t) => Some(t)
      case Go(t) => ScanFrom(s, i + 1, t)
  }

  /**
   * Spreading the octets around the "::". When there is no room left the shifting loop of the
   * source clears the octets it should move.
   */
  function Spread(out: seq<byte>, colon: nat): (r: seq<byte>)
    requires colon <= |out| <= 16
    ensures |r| == 16
  {
    if |out| == 16 then out[..colon] + Zeros(16 - colon)
    else out[..colon] + Zeros(16 - |out|) + out[colon..]
  }

  function Finish(st: Scan): (r: Option<seq<byte>>)
    requires st.Ok()
    ensures r.Some? ==> |r.value| == 16
  {
    if st.saw && |st.out| + 2 > 16 then None else
      var out := if st.saw then Push(st.out, st.val) else st.out;
      if st.colon >= 0 then Some(Spread(out, st.colon))
      else if |out| == 16 then Some(out) else None
  }

  const START: Scan := Scan([], -1, 0, false, 0)

  /** What inet_pton6 computes: the sixteen octets, or nothing. */
  function Pton6(s: seq<byte>): (r: Option<seq<byte>>)
    ensures r.Some? ==> |r.value| == 16
  {
    var leading := |s| > 0 && s[0] == COLON;
    if leading && !(|s| > 1 && s[1] == COLON) then None else
      var i := if leading then 1 else 0;
      match ScanFrom(s, i, START.(curtok := i))
      case None => None
      case Some(st) => Finish(st)
  }

  /** inet_pton6: leaves `dst` alone unless it succeeds. */
  method InetPton6(s: seq<byte>, dst: array<byte>) returns (ok: bool)
    requires dst.Length >= 16
    modifies dst
    ensures ok == Pton6(s).Some?
    ensures !ok ==> dst[..] == old(dst[..])
    ensures ok ==> dst[..16] == Pton6(s).value && dst[16..] == old(dst[16..])
  {
    var tmp := new byte[16](_ => 0);
    var i := 0;
    if |s| > 0 && s[0] == COLON {
      i := 1;
      if !(|s| > 1 && s[1] == COLON) { return false; }
    }
    var good, tp, colonp, saw, val, tok := ScanText(s, i, tmp);
    if !good { return false; }
    good := Complete(tmp, tp, colonp, saw, val, tok);
    if !good { return false; }
    assert tmp[..16] == tmp[..];
    forall k | 0 <= k < 16 { dst[k] := tmp[k]; }
    return true;
  }

  /** The main loop of inet_pton6. */
  method ScanText(s: seq<byte>, start: nat, tmp: array<byte>)
    returns (ok: bool, tp: nat, colonp: int, saw: bool, val: nat, curtok: nat)
    requires start <= |s| && tmp.Length == 16 && forall k :: 0 <= k < 16 ==> tmp[k] == 0
    modifies tmp
    ensures ok == ScanFrom(s, start, START.(curtok := start)).Some?
    ensures ok ==> tp <= 16 && -1 <= colonp <= tp && val < 65536
    ensures ok ==> ScanFrom(s, start, START.(curtok := start)).value == Scan(tmp[..tp], colonp, curtok, saw, val)
    ensures ok ==> forall k :: tp <= k < 16 ==> tmp[k] == 0
  {
    tp, colonp, curtok, saw, val := 0, -1, start, false, 0;
    ghost var goal := ScanFrom(s, start, START.(curtok := start));
    assert tmp[..0] == [];
    var i := start;
    while i < |s|
      invariant 0 <= curtok <= i <= |s| && 0 <= tp <= 16 && -1 <= colonp <= tp && 0 <= val < 65536
      invariant ScanFrom(s, i, Scan(tmp[..tp], colonp, curtok, saw, val)) == goal
      invariant forall k :: tp <= k < 16 ==> tmp[k] == 0
    {
      var ch := s[i];
      var d := HexValue(ch);
      i := i + 1;
      if d >= 0 {
        val := val * 16 + d;
        if val > 0xffff { return false, tp, colonp, saw, val, curtok; }
        saw := true;
        continue;
      }
      if ch == COLON {
        curtok := i;
        if !saw {
          if colonp >= 0 { return false, tp, colonp, saw, val, curtok; }
          colonp := tp;
          continue;
        }
        if tp + 2 > 16 { return false, tp, colonp, saw, val, curtok; }
        StoreWord(tmp, tp, val);
        tp := tp + 2;
        saw, val := false, 0;
        continue;
      }
      if ch == DOT && tp + 4 <= 16 {
        ghost var before := tmp[..];
        var four := InetPton4(s[curtok..], tmp, tp);
        if four {
          assert tmp[..tp + 4] == before[..tp] + Pton4(s[curtok..]).value;
          assert forall k :: tp + 4 <= k < 16 ==> tmp[k] == before[tp + 4..][k - tp - 4] == 0;
          return true, tp + 4, colonp, false, val, curtok;
        }
      }
      return false, tp, colonp, saw, val, curtok;
    }
    return true, tp, colonp, saw, val, curtok;
  }

  /** The end of inet_pton6: the last group, the move of the tail, and the length check. */
  method Complete(tmp: array<byte>, tp0: nat, colonp: int, saw: bool, val: nat, ghost curtok: nat) returns (ok: bool)
    requires tmp.Length == 16 && tp0 <= 16 && -1 <= colonp <= tp0 && val < 65536
    requires forall k :: tp0 <= k < 16 ==> tmp[k] == 0
    modifies tmp
    ensures Scan(old(tmp[..tp0]), colonp, curtok, saw, val).Ok()
    ensures var f := Finish(Scan(old(tmp[..tp0]), colonp, curtok, saw, val));
            ok == f.Some? && (ok ==> tmp[..] == f.value)
  {
    var tp := tp0;
    if saw {
      if tp + 2 > 16 { return false; }
      StoreWord(tmp, tp, val);
      tp := tp + 2;
    }
    if colonp >= 0 {
      ShiftTail(tmp, tp, colonp);
      tp := 16;
    }
    if tp != 16 { return false; }
    assert tmp[..16] == tmp[..];
    return true;
  }

  /** Store a 16-bit word at the write position. */
  method StoreWord(tmp: array<byte>, tp: nat, val: nat)
    requires tp + 2 <= tmp.Length && val < 65536
    modifies tmp
    ensures tmp[..tp + 2] == Push(old(tmp[..tp]), val)
    ensures forall k :: tp + 2 <= k < tmp.Length ==> tmp[k] == old(tmp[k])
  {
    HiLoShift(val);
    tmp[tp], tmp[tp + 1] := val / 256, val % 256;
  }

  /** The hand-written overlapping move to the end of the buffer. */
  method ShiftTail(tmp: array<byte>, tp: nat, colonp: nat)
    requires tmp.Length == 16 && colonp <= tp <= 16
    requires forall k :: tp <= k < 16 ==> tmp[k] == 0
    modifies tmp
    ensures tmp[..] == Spread(old(tmp[..tp]), colonp)
  {
    hide Moving, Spread;
    var n := tp - colonp;
    ghost var was := tmp[..tp];
    MoveNone(tmp[..], was);
    for i := 1 to n + 1
      invariant tmp[..] == Moving(was, i - 1)
    {
      MoveOne(was, i);
      ghost var m := tmp[..];
      tmp[16 - i] := tmp[colonp + n - i];
      tmp[colonp + n - i] := 0;
      assert tmp[..] == m[16 - i := m[tp - i]][tp - i := 0];
    }
    MoveAll(was, colonp);
  }

  /** The buffer after the last `i` octets have been moved. */
  ghost function Moving(was: seq<byte>, i: nat): (r: seq<byte>)
    requires i <= |was| <= 16
    ensures |r| == 16
  {
    var kept := |was| - i;
    if |was| < 16 then was[..kept] + Zeros(16 - |was|) + was[kept..] else was[..kept] + Zeros(i)
  }

  lemma MoveOne(was: seq<byte>, i: nat)
    requires 0 < i <= |was| <= 16
    ensures var m := Moving(was, i - 1); var k := |was| - i; Moving(was, i) == m[16 - i := m[k]][k := 0]
  {
    var m, k := Moving(was, i - 1), |was| - i;
    var next, goal := m[16 - i := m[k]][k := 0], Moving(was, i);
    forall j | 0 <= j < 16 ensures next[j] == goal[j] {}
  }

  lemma MoveNone(m: seq<byte>, was: seq<byte>)
    requires |was| <= |m| == 16 && m[..|was|] == was && forall k :: |was| <= k < 16 ==> m[k] == 0
    ensures Moving(was, 0) == m
  {
    assert was[|was|..] == [];
  }

  lemma MoveAll(was: seq<byte>, colonp: nat)
    requires colonp <= |was| <= 16
    ensures Moving(was, |was| - colonp) == Spread(was, colonp)
  {
  }
}
