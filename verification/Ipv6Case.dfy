// The case of hexadecimal digits does not matter to the parser.
module Ipv6Case {
  import opened Bytes
  import opened Ipv6Text
  import opened Ipv6Parse

  /** A text with 'a' to 'f' in place of 'A' to 'F'. */
  function LowerHex(s: seq<byte>): (t: seq<byte>)
    ensures |t| == |s| && forall i :: 0 <= i < |s| ==> t[i] == if 65 <= s[i] <= 70 then s[i] + 32 else s[i]
  {
    seq(|s|, i requires 0 <= i < |s| => if 65 <= s[i] <= 70 then s[i] + 32 else s[i])
  }

  lemma SameDigit(c: byte)
    requires 65 <= c <= 70
    ensures HexValue(c) == HexValue(c + 32) >= 0
  {
  }

  /** No letter is part of a dotted quad. */
  lemma {:induction false} QuadCase(q: Quad, s: seq<byte>)
    ensures ScanQuad(q, LowerHex(s)) == ScanQuad(q, s)
    decreases |s|
  {
    if s != [] {
      assert LowerHex(s)[1..] == LowerHex(s[1..]);
      if StepQuad(q, s[0]).Some? { QuadCase(StepQuad(q, s[0]).value, s[1..]); }
    }
  }

  lemma StepCase(s: seq<byte>, i: nat, st: Scan)
    requires i < |s| && st.curtok <= i && st.Ok()
    ensures StepScan(LowerHex(s), i, st) == StepScan(s, i, st)
  {
    hide ScanQuad;
    var t := LowerHex(s);
    assert t[st.curtok..] == LowerHex(s[st.curtok..]);
    QuadCase(Quad([], 0, false), s[st.curtok..]);
    if 65 <= s[i] <= 70 { SameDigit(s[i]); }
  }

  lemma {:induction false} ScanCase(s: seq<byte>, i: nat, st: Scan)
    requires i <= |s| && st.curtok <= i && st.Ok()
    ensures ScanFrom(LowerHex(s), i, st) == ScanFrom(s, i, st)
    decreases |s| - i
  {
    hide StepScan;
    if i < |s| {
      StepCase(s, i, st);
      match StepScan(s, i, st)
      case Go(t) => ScanCase(s, i + 1, t);
      case _ =>
    }
  }

  /** Main result: a text is accepted, and read as the same octets, whatever the case of its digits. */
  lemma CaseIgnored(s: seq<byte>)
    ensures Pton6(LowerHex(s)) == Pton6(s)
  {
    hide ScanFrom;
    var i := if |s| > 0 && s[0] == COLON then 1 else 0;
    if i <= |s| { ScanCase(s, i, START.(curtok := i)); }
  }
}
