// The writers of the user agent library, which fill an allocated block through a moving cursor.
module WireWrite {
  import opened Bytes
  import opened WireFormat

  /** The bytes before the cursor, and the promise that nothing before the old cursor changed. */
  twostate predicate Wrote(buf: array<byte>, from: nat, to: nat, text: seq<byte>)
    reads buf
  {
    from <= to <= buf.Length && buf[..to] == old(buf[..from]) + text
  }

  method PutUINT16(buf: array<byte>, cur: nat, val: nat) returns (next: nat)
    requires cur + 2 <= buf.Length
    modifies buf
    ensures next == cur + 2 && Wrote(buf, cur, next, U16(val))
  {
    hide Hi, Lo;
    Shifts(val);
    buf[cur], buf[cur + 1] := (val / 256) % 256, val % 256;
    next := cur + 2;
  }

  method PutUINT24(buf: array<byte>, cur: nat, val: nat) returns (next: nat)
    requires cur + 3 <= buf.Length
    modifies buf
    ensures next == cur + 3 && Wrote(buf, cur, next, U24(val))
  {
    hide Hi, Lo;
    Shifts(val);
    buf[cur], buf[cur + 1], buf[cur + 2] := (val / 65536) % 256, (val / 256) % 256, val % 256;
    next := cur + 3;
  }

  method PutUINT32(buf: array<byte>, cur: nat, val: nat) returns (next: nat)
    requires cur + 4 <= buf.Length
    modifies buf
    ensures next == cur + 4 && Wrote(buf, cur, next, U32(val))
  {
    hide Hi, Lo;
    Shifts(val);
    buf[cur], buf[cur + 1] := (val / 16777216) % 256, (val / 65536) % 256;
    buf[cur + 2], buf[cur + 3] := (val / 256) % 256, val % 256;
    next := cur + 4;
  }

  /** The octets of a number as the macros shift and mask them. */
  lemma Shifts(v: nat)
    ensures Lo(v) == v % 256 && Lo(Hi(v)) == (v / 256) % 256
    ensures Lo(Hi(Hi(v))) == (v / 65536) % 256 && Lo(Hi(Hi(Hi(v)))) == (v / 16777216) % 256
  {
    hide Hi, Lo;
    HiLoShift(v);
    HiLoShift(v / 256);
    HiLoShift(v / 256 / 256);
    HiLoShift(v / 256 / 256 / 256);
    Quotients(v);
  }

  lemma Quotients(v: nat)
    ensures v / 256 / 256 == v / 65536 && v / 256 / 256 / 256 == v / 16777216
  {
  }

  /** memcpy and the advance of the cursor. */
  method PutBytes(buf: array<byte>, cur: nat, s: seq<byte>) returns (next: nat)
    requires cur + |s| <= buf.Length
    modifies buf
    ensures next == cur + |s| && Wrote(buf, cur, next, s)
  {
    forall k | 0 <= k < |s| { buf[cur + k] := s[k]; }
    next := cur + |s|;
  }

  method PutL16String(buf: array<byte>, cur: nat, s: seq<byte>) returns (next: nat)
    requires cur + 2 + |s| <= buf.Length
    modifies buf
    ensures next == cur + 2 + |s| && Wrote(buf, cur, next, L16(s))
  {
    hide U16;
    next := PutUINT16(buf, cur, |s|);
    next := PutBytes(buf, next, s);
  }

  /** SizeofURLEntry counts two bytes for the number of authentication blocks, one more than is written. */
  function SizeofURLEntry(urllen: nat, urlauthlen: nat): (n: nat) {
    1 + 2 + 2 + urllen + 2 + urlauthlen
  }

  lemma EntryPieces(u: Url)
    ensures u.Entry() == [0] + U16(u.lifetime) + U16(|u.url|) + u.url + [u.auth.Count()] + u.auth.Block()
  {
    hide U16, Auth.Block, Auth.Count;
    var a, b, c, d, e := U16(u.lifetime), U16(|u.url|), u.url, [u.auth.Count()], u.auth.Block();
    assert [0] + a + b + c + d + e == [0] + (a + (b + (c + (d + e))));
  }

  lemma BlockPieces(a: Auth)
    requires a.Auth?
    ensures a.Block() == U16(2) + U16(a.Size()) + U32(0xffffffff) + U16(|a.spi|) + a.spi + a.signature
  {
    hide U16, U32;
    var x, y, z, w := U16(2), U16(a.Size()), U32(0xffffffff), U16(|a.spi|);
    assert x + y + z + w + a.spi + a.signature == x + (y + (z + (w + (a.spi + a.signature))));
  }

  lemma BodyPieces(r: Reg)
    ensures r.Body() == Fields(r) + r.Extension()
  {
    hide Url.Entry, L16, Auth.Block, Reg.Extension;
    var a, b, c, d := r.url.Entry(), L16(r.srvtype), L16(r.scopes), L16(r.attrs);
    var e, f, g := [r.attrAuth.Count()], r.attrAuth.Block(), r.Extension();
    assert a + b + c + d + e + f + g == a + (b + (c + (d + (e + (f + g)))));
  }

  lemma Joined(x: seq<byte>, a: seq<byte>, b: seq<byte>, c: seq<byte>, d: seq<byte>)
    ensures x + a + b + c + d == x + (a + b + c + d)
  {
  }

  /** The fields of slp_PutURLEntry before the authentication blocks. */
  method PutURLFields(buf: array<byte>, cur: nat, lifetime: nat, url: seq<byte>) returns (next: nat)
    requires cur + 5 + |url| <= buf.Length
    modifies buf
    ensures next == cur + 5 + |url| && Wrote(buf, cur, next, [0] + U16(lifetime) + U16(|url|) + url)
  {
    hide U16;
    ghost var before := buf[..cur];
    buf[cur] := 0;
    assert buf[..cur + 1] == before + [0];
    next := PutUINT16(buf, cur + 1, lifetime);
    next := PutUINT16(buf, next, |url|);
    next := PutBytes(buf, next, url);
    Joined(before, [0], U16(lifetime), U16(|url|), url);
  }

  /** slp_PutURLEntry, given an authentication block that is already laid out. */
  method PutURLEntry(buf: array<byte>, cur: nat, lifetime: nat, url: seq<byte>, urlauth: seq<byte>, ghost u: Url)
    returns (next: nat)
    requires u.lifetime == lifetime && u.url == url && u.auth.Block() == urlauth
    requires cur + SizeofURLEntry(|url|, |urlauth|) <= buf.Length + 1
    modifies buf
    ensures next == cur + u.Size() && Wrote(buf, cur, next, u.Entry())
  {
    hide U16, Auth.Block, Url.Entry;
    EntryPieces(u);
    ghost var before := buf[..cur];
    next := PutURLFields(buf, cur, lifetime, url);
    ghost var fields, count := [0] + U16(lifetime) + U16(|url|) + url, [u.auth.Count()];
    buf[next] := if |urlauth| != 0 then 1 else 0;
    next := next + 1;
    assert buf[..next] == before + fields + count;
    if |urlauth| > 0 {
      next := PutBytes(buf, next, urlauth);
    } else {
      assert buf[..next] == before + fields + count + urlauth;
    }
    Joined(before, fields, count, urlauth, []);
    assert before + fields + count + urlauth + [] == before + fields + count + urlauth;
    assert fields + count + urlauth + [] == fields + count + urlauth;
  }

  /** SLPAuthSignDigest, with the signature bytes given: the block fills its allocation exactly. */
  method SignDigest(spistr: seq<byte>, signature: seq<byte>) returns (authblock: array<byte>)
    ensures fresh(authblock) && authblock[..] == Auth.Auth(spistr, signature).Block()
  {
    hide U16, U32, Auth.Block;
    BlockPieces(Auth.Auth(spistr, signature));
    var authblocklen := |spistr| + |signature| + 10;
    authblock := new byte[authblocklen];
    var curpos := PutUINT16(authblock, 0, 0x0002);
    curpos := PutUINT16(authblock, curpos, authblocklen);
    curpos := PutUINT32(authblock, curpos, 0xffffffff);
    curpos := PutUINT16(authblock, curpos, |spistr|);
    curpos := PutBytes(authblock, curpos, spistr);
    curpos := PutBytes(authblock, curpos, signature);
    assert authblock[..curpos] == authblock[..];
  }

  /** The Watch Registration PID extension: id, no next extension, process id. */
  method PutPid(buf: array<byte>, cur: nat, pid: nat) returns (next: nat)
    requires cur + 9 <= buf.Length
    modifies buf
    ensures next == cur + 9 && Wrote(buf, cur, next, U16(PID_EXTENSION_EXP) + (U24(0) + U32(pid)))
  {
    hide U16, U24, U32;
    next := PutUINT16(buf, cur, PID_EXTENSION_EXP);
    next := PutUINT24(buf, next, 0);
    next := PutUINT32(buf, next, pid);
  }

  /** The three strings of a registration. */
  method PutStrings(buf: array<byte>, cur: nat, a: seq<byte>, b: seq<byte>, c: seq<byte>) returns (next: nat)
    requires cur + 6 + |a| + |b| + |c| <= buf.Length
    modifies buf
    ensures next == cur + 6 + |a| + |b| + |c| && Wrote(buf, cur, next, L16(a) + L16(b) + L16(c))
  {
    hide L16;
    next := PutL16String(buf, cur, a);
    next := PutL16String(buf, next, b);
    next := PutL16String(buf, next, c);
  }

  /** The body up to the extension. */
  function Fields(r: Reg): seq<byte> {
    r.url.Entry() + L16(r.srvtype) + L16(r.scopes) + L16(r.attrs) + [r.attrAuth.Count()] + r.attrAuth.Block()
  }

  method PutFields(buf: array<byte>, r: Reg) returns (next: nat)
    requires r.ExtOffset() < buf.Length
    modifies buf
    ensures next == r.ExtOffset() && Wrote(buf, 0, next, Fields(r))
  {
    hide U16, Auth.Block, L16, Url.Entry;
    next := PutURLEntry(buf, 0, r.url.lifetime, r.url.url, r.url.auth.Block(), r.url);
    next := PutStrings(buf, next, r.srvtype, r.scopes, r.attrs);
    buf[next] := if r.attrAuth.Auth? then 1 else 0;
    next := next + 1;
    next := PutBytes(buf, next, r.attrAuth.Block());
    FieldsJoined(r.url.Entry(), L16(r.srvtype), L16(r.scopes), L16(r.attrs));
  }

  lemma FieldsJoined(e: seq<byte>, a: seq<byte>, b: seq<byte>, c: seq<byte>)
    ensures e + (a + b + c) == e + a + b + c
  {
  }

  /**
   * The body writer of ProcessSrvReg: allocates, writes and reports the offset of the extension. The text is
   * the body of the registration, and it fits its allocation with one byte left over.
   */
  method WriteSrvReg(r: Reg) returns (buf: array<byte>, len: nat, extoffset: nat)
    ensures fresh(buf) && len + 1 == buf.Length && buf[..len] == r.Body()
    ensures extoffset == if r.pid.Some? then r.ExtOffset() else 0
  {
    hide Fields, Reg.Body, Auth.Block, Url.Entry, L16, U16, U24, U32;
    extoffset := 0;
    buf := new byte[SizeofURLEntry(|r.url.url|, |r.url.auth.Block()|) + 2 + |r.srvtype| + 2 + |r.scopes|
                    + 2 + |r.attrs| + 1 + |r.attrAuth.Block()| + (if r.pid.Some? then 2 + 3 + 4 else 0)];
    len := PutFields(buf, r);
    if r.pid.Some? {
      extoffset := len;
      len := PutPid(buf, len, r.pid.value);
    }
    BodyPieces(r);
    assert buf[..len] == Fields(r) + r.Extension();
  }
}
