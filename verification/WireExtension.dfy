// v2ParseExtension: a chain of extensions linked by offsets, which may be circular.
module WireExtension {
  import opened Bytes
  import opened WireFormat
  import opened WireParse

  // ----- What a chain is -----

  predicate IsPid(m: seq<byte>, o: nat)
    requires o + 2 <= |m|
  {
    Get16(m, o) == PID_EXTENSION || Get16(m, o) == PID_EXTENSION_EXP
  }

  /** `offs` are the offsets met from `first` until the end mark 0, each with its header inside the message. */
  ghost predicate Chain(m: seq<byte>, end: nat, first: nat, offs: seq<nat>)
    requires end <= |m|
    decreases |offs|
  {
    if offs == [] then first == 0
    else first == offs[0] != 0 && first + 5 <= end && Chain(m, end, Get24(m, first + 2), offs[1..])
  }

  /** Why the parser stops at an extension, or 0: a truncated PID, or an option that must be understood. */
  function Objection(m: seq<byte>, end: nat, fn: byte, o: nat): nat
    requires end <= |m| && o + 5 <= end
  {
    if IsPid(m, o) then (if fn == SRVREG && o + 9 > end then PARSE_ERROR else 0)
    else if 0x4000 <= Get16(m, o) <= 0x7FFF then OPTION_NOT_UNDERSTOOD
    else 0
  }

  ghost predicate AllAcceptable(m: seq<byte>, end: nat, fn: byte, offs: seq<nat>)
    requires end <= |m|
  {
    forall i :: 0 <= i < |offs| ==> offs[i] + 5 <= end && Objection(m, end, fn, offs[i]) == 0
  }

  /** The process id after the extensions at `offs`: the last PID extension of a registration decides. */
  function LastPid(m: seq<byte>, fn: byte, offs: seq<nat>, pid: nat): nat {
    if offs == [] then pid else
      var o := offs[|offs| - 1];
      if o + 9 <= |m| && IsPid(m, o) && fn == SRVREG then Get32(m, o + 5) else LastPid(m, fn, offs[..|offs| - 1], pid)
  }

  /** The parser as a function: its status and the process id it leaves. */
  function Walk(m: seq<byte>, end: nat, fn: byte, next: nat, bufsz: int, pid: nat): (r: (nat, nat))
    requires end <= |m|
    decreases bufsz
  {
    if next == 0 then (0, pid)
    else if bufsz - 5 <= 0 || next + 5 > end then (PARSE_ERROR, pid)
    else if Objection(m, end, fn, next) != 0 then (Objection(m, end, fn, next), pid)
    else
      Walk(m, end, fn, Get24(m, next + 2), bufsz - 5,
           if IsPid(m, next) && fn == SRVREG then Get32(m, next + 5) else pid)
  }

  /** v2ParseExtension: terminates on every buffer and reads inside the message only. */
  method V2ParseExtension(buffer: SLPBuffer, fn: byte, extoffset: nat, pid0: nat) returns (status: nat, pid: nat)
    requires buffer.Valid()
    modifies buffer`curpos
    ensures (status, pid) == Walk(buffer.data[..], buffer.end, fn, extoffset, buffer.end, pid0)
  {
    var bufsz: int := buffer.end;
    var nextoffset := extoffset;
    pid := pid0;
    ghost var m := buffer.data[..];
    while nextoffset != 0
      invariant buffer.data[..] == m
      invariant Walk(m, buffer.end, fn, nextoffset, bufsz, pid) == Walk(m, buffer.end, fn, extoffset, buffer.end, pid0)
      decreases bufsz
    {
      ghost var at := nextoffset;
      bufsz := bufsz - 5;
      if bufsz <= 0 { return PARSE_ERROR, pid; }
      buffer.curpos := nextoffset;
      if buffer.curpos + 5 > buffer.end { return PARSE_ERROR, pid; }
      var extid := buffer.GetUINT16();
      nextoffset := buffer.GetUINT24();
      if extid == PID_EXTENSION || extid == PID_EXTENSION_EXP {
        if fn == SRVREG {
          if buffer.curpos + 4 > buffer.end { return PARSE_ERROR, pid; }
          pid := buffer.GetUINT32();
        }
      } else if 0x4000 <= extid <= 0x7FFF {
        return OPTION_NOT_UNDERSTOOD, pid;
      }
    }
    return 0, pid;
  }

  // ----- When the walk succeeds -----

  lemma {:induction false} LastPidFirst(m: seq<byte>, fn: byte, offs: seq<nat>, pid: nat)
    requires offs != []
    ensures LastPid(m, fn, offs, pid)
         == (var o := offs[0];
             LastPid(m, fn, offs[1..], if o + 9 <= |m| && IsPid(m, o) && fn == SRVREG then Get32(m, o + 5) else pid))
  {
    var n := |offs| - 1;
    if n > 0 {
      LastPidFirst(m, fn, offs[..n], pid);
      assert offs[..n][1..] == offs[1..][..n - 1];
    } else {
      assert offs[..0] == [];
    }
  }

  ghost predicate InBounds(end: nat, offs: seq<nat>) {
    forall i :: 0 <= i < |offs| ==> offs[i] + 5 <= end
  }

  /** The first extension the parser objects to, or |offs|. */
  ghost function FirstBad(m: seq<byte>, end: nat, fn: byte, offs: seq<nat>): (k: nat)
    requires end <= |m| && InBounds(end, offs)
    ensures k <= |offs| && (k < |offs| ==> Objection(m, end, fn, offs[k]) != 0)
    ensures forall i :: 0 <= i < k ==> Objection(m, end, fn, offs[i]) == 0
  {
    if offs == [] || Objection(m, end, fn, offs[0]) != 0 then 0 else 1 + FirstBad(m, end, fn, offs[1..])
  }

  /** Along a chain that is short enough, the first objection decides, or there is none. */
  lemma {:induction false} WalkStatus(
      m: seq<byte>, end: nat, fn: byte, first: nat, bufsz: int, pid: nat, offs: seq<nat>)
    requires end <= |m| && Chain(m, end, first, offs) && (offs == [] || 5 * |offs| < bufsz)
    ensures InBounds(end, offs)
    ensures var k := FirstBad(m, end, fn, offs);
      Walk(m, end, fn, first, bufsz, pid)
      == (if k < |offs| then Objection(m, end, fn, offs[k]) else 0, LastPid(m, fn, offs[..k], pid))
    decreases |offs|
  {
    hide Objection, IsPid, Get24, Get32;
    ChainInBounds(m, end, first, offs);
    var k := FirstBad(m, end, fn, offs);
    if offs != [] && k > 0 {
      NoObjection(m, end, fn, first);
      var pid' := if IsPid(m, first) && fn == SRVREG then Get32(m, first + 5) else pid;
      WalkStatus(m, end, fn, Get24(m, first + 2), bufsz - 5, pid', offs[1..]);
      LastPidFirst(m, fn, offs[..k], pid);
      assert offs[..k][1..] == offs[1..][..k - 1];
    }
  }

  lemma NoObjection(m: seq<byte>, end: nat, fn: byte, o: nat)
    requires end <= |m| && o + 5 <= end && Objection(m, end, fn, o) == 0
    ensures IsPid(m, o) && fn == SRVREG ==> o + 9 <= |m|
  {
  }

  lemma WalkChain(m: seq<byte>, end: nat, fn: byte, first: nat, bufsz: int, pid: nat, offs: seq<nat>)
    requires end <= |m| && Chain(m, end, first, offs) && AllAcceptable(m, end, fn, offs)
    requires offs == [] || 5 * |offs| < bufsz
    ensures Walk(m, end, fn, first, bufsz, pid) == (0, LastPid(m, fn, offs, pid))
  {
    hide Objection, Walk, LastPid, Chain;
    WalkStatus(m, end, fn, first, bufsz, pid, offs);
    assert offs[..|offs|] == offs;
  }

  lemma {:induction false} WalkFindsChain(m: seq<byte>, end: nat, fn: byte, first: nat, bufsz: int, pid: nat)
      returns (offs: seq<nat>)
    requires end <= |m| && Walk(m, end, fn, first, bufsz, pid).0 == 0
    ensures Chain(m, end, first, offs) && AllAcceptable(m, end, fn, offs) && (offs == [] || 5 * |offs| < bufsz)
    decreases bufsz
  {
    if first == 0 {
      offs := [];
    } else {
      var pid' := if IsPid(m, first) && fn == SRVREG then Get32(m, first + 5) else pid;
      var rest := WalkFindsChain(m, end, fn, Get24(m, first + 2), bufsz - 5, pid');
      offs := [first] + rest;
      assert offs[1..] == rest;
    }
  }

  /**
   * Main result: the status is 0 exactly when a finite chain of in-bounds, acceptable extensions ends in 0
   * and is short enough; the process id is then that of the last PID extension. A circular chain ends in 0
   * nowhere, so it is always rejected.
   */
  lemma AcceptedChains(m: seq<byte>, end: nat, fn: byte, first: nat, pid: nat)
    requires end <= |m|
    ensures Walk(m, end, fn, first, end, pid).0 == 0
       <==> exists offs :: Chain(m, end, first, offs) && AllAcceptable(m, end, fn, offs)
                          && (offs == [] || 5 * |offs| < end)
    ensures forall offs :: Chain(m, end, first, offs) && Walk(m, end, fn, first, end, pid).0 == 0
                       ==> Walk(m, end, fn, first, end, pid).1 == LastPid(m, fn, offs, pid)
  {
    if Walk(m, end, fn, first, end, pid).0 == 0 {
      var found := WalkFindsChain(m, end, fn, first, end, pid);
      WalkChain(m, end, fn, first, end, pid, found);
      forall offs | Chain(m, end, first, offs) ensures offs == found {
        ChainUnique(m, end, first, offs, found);
      }
    }
    forall offs | Chain(m, end, first, offs) && AllAcceptable(m, end, fn, offs) && (offs == [] || 5 * |offs| < end)
      ensures Walk(m, end, fn, first, end, pid).0 == 0
    {
      WalkChain(m, end, fn, first, end, pid, offs);
    }
  }

  lemma {:induction false} ChainUnique(m: seq<byte>, end: nat, first: nat, a: seq<nat>, b: seq<nat>)
    requires end <= |m| && Chain(m, end, first, a) && Chain(m, end, first, b)
    ensures a == b
    decreases |a|
  {
    if a != [] {
      ChainUnique(m, end, Get24(m, first + 2), a[1..], b[1..]);
      assert a == [a[0]] + a[1..] && b == [b[0]] + b[1..];
    }
  }

  // ----- Chains whose headers do not overlap are never too long -----

  ghost predicate DisjointHeaders(offs: seq<nat>) {
    forall i, j :: 0 <= i < j < |offs| ==> offs[i] + 5 <= offs[j] || offs[j] + 5 <= offs[i]
  }

  ghost function Cover(offs: seq<nat>): set<nat> {
    if offs == [] then {} else Five(offs[0]) + Cover(offs[1..])
  }

  ghost function Five(o: nat): (s: set<nat>)
    ensures |s| == 5 && forall x :: x in s <==> o <= x < o + 5
  {
    {o, o + 1, o + 2, o + 3, o + 4}
  }

  lemma {:induction false} CoverMember(offs: seq<nat>, x: nat)
    requires x in Cover(offs)
    ensures exists i :: 0 <= i < |offs| && offs[i] <= x < offs[i] + 5
  {
    if offs[0] <= x < offs[0] + 5 {
    } else {
      CoverMember(offs[1..], x);
      var i :| 0 <= i < |offs[1..]| && offs[1..][i] <= x < offs[1..][i] + 5;
      assert offs[i + 1] == offs[1..][i];
    }
  }

  lemma {:induction false} CoverSize(offs: seq<nat>)
    requires DisjointHeaders(offs)
    ensures |Cover(offs)| == 5 * |offs|
  {
    if offs != [] {
      var o, rest := offs[0], offs[1..];
      CoverSize(rest);
      forall x | x in Cover(rest) ensures x !in Five(o) {
        CoverMember(rest, x);
        var i :| 0 <= i < |rest| && rest[i] <= x < rest[i] + 5;
        assert rest[i] == offs[i + 1];
      }
      assert Five(o) !! Cover(rest);
    }
  }

  lemma {:induction false} RangeSize(s: set<nat>, n: nat)
    requires forall x :: x in s ==> 1 <= x < n
    ensures |s| < n || (n == 0 && s == {})
  {
    if n > 0 {
      var t := s - {n - 1};
      RangeSize(t, n - 1);
      assert n == 1 ==> s == {};
      assert s == t || s == t + {n - 1};
    } else {
      assert s == {};
    }
  }

  /**
   * Main result: a chain whose five-byte headers do not overlap is never taken for a circular one. The status is
   * its first objection, or 0 if there is none, and the process id is that of the last PID extension before it.
   */
  lemma DisjointChainDecides(m: seq<byte>, end: nat, fn: byte, first: nat, pid: nat, offs: seq<nat>)
    requires end <= |m| && Chain(m, end, first, offs) && DisjointHeaders(offs)
    ensures InBounds(end, offs)
    ensures var k := FirstBad(m, end, fn, offs);
      Walk(m, end, fn, first, end, pid)
      == (if k < |offs| then Objection(m, end, fn, offs[k]) else 0, LastPid(m, fn, offs[..k], pid))
  {
    hide Objection, Walk, LastPid;
    CoverSize(offs);
    ChainInBounds(m, end, first, offs);
    forall x | x in Cover(offs) ensures 1 <= x < end { CoverMember(offs, x); }
    RangeSize(Cover(offs), end);
    WalkStatus(m, end, fn, first, end, pid, offs);
  }

  lemma {:induction false} ChainInBounds(m: seq<byte>, end: nat, first: nat, offs: seq<nat>)
    requires end <= |m| && Chain(m, end, first, offs)
    ensures InBounds(end, offs) && forall i :: 0 <= i < |offs| ==> 1 <= offs[i]
    decreases |offs|
  {
    if offs != [] {
      ChainInBounds(m, end, Get24(m, first + 2), offs[1..]);
      forall i | 0 <= i < |offs| ensures 1 <= offs[i] && offs[i] + 5 <= end {
        if i > 0 { assert offs[i] == offs[1..][i - 1]; }
      }
    }
  }

  // ----- One extension -----

  /**
   * What becomes of a message with one extension: the PID of a registration (function 3) is read if it is all there,
   * else a parse error (2), and ignored in other messages; an unknown option is not understood (12) if its id is in
   * the range 0x4000-0x7FFF that must be (section 9.1 of RFC 2608), and ignored otherwise.
   */
  lemma OneExtension(m: seq<byte>, end: nat, fn: byte, o: nat, id: nat, pid: nat)
    requires id < 65536 && 0 < o && o + 5 <= end <= |m| && At(m, o, U16(id) + U24(0))
    ensures Walk(m, end, fn, o, end, pid) ==
            if id == 0x4001 || id == 0x9799 then
              if fn != 3 then (0, pid) else if o + 9 > end then (2, pid) else (0, Get32(m, o + 5))
            else if 0x4000 <= id <= 0x7FFF then (12, pid)
            else (0, pid)
  {
    hide U16, U24, Get16, Get24, Get32;
    Read16(m, o, id, U24(0));
    assert U24(0) + [] == U24(0);
    Read24(m, o + 2, 0, []);
  }
}
