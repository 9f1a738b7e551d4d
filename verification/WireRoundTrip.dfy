// What the user agent writes is what the parsers read back.
module WireRoundTrip {
  import opened Bytes
  import opened WireFormat
  import opened WireParse
  import opened WireExtension
  import opened WireLayout

  // ----- Authentication blocks -----

  lemma AuthParses(m: seq<byte>, end: nat, cur: nat, a: Auth) returns (ab: AuthBlock)
    requires a.Auth? && a.Fits() && At(m, cur, a.Block()) && cur + a.Size() <= end < |m|
    ensures ParseAuth(m, end, cur) == Parsed(ab, cur + a.Size(), m) && AuthIs(m, ab, a, cur)
  {
    hide Get16, Get32, At, Auth.Block;
    AuthFields(m, cur, a);
    ab := AuthBlock(2, a.Size(), 0xffffffff, |a.spi|, cur + 10, cur + 10 + |a.spi|, a.Size(), cur);
  }

  lemma AuthsParse(m: seq<byte>, end: nat, cur: nat, a: Auth, rest: seq<byte>) returns (abs: seq<AuthBlock>)
    requires a.Fits() && At(m, cur, a.Block() + rest) && cur + a.Size() <= end < |m|
    ensures ParseAuths(m, end, cur, a.Count(), []) == Parsed(abs, cur + a.Size(), m)
    ensures AuthsAre(m, a.Count(), abs, a, cur) && At(m, cur + a.Size(), rest)
  {
    ReadBytes(m, cur, a.Block(), rest);
    abs := [];
    if a.Auth? {
      var ab := AuthParses(m, end, cur, a);
      abs := [] + [ab];
      assert ParseAuths(m, end, cur + a.Size(), 0, abs) == Parsed(abs, cur + a.Size(), m);
    }
  }

  // ----- URL entries -----

  /**
   * One entry: parsed to its fields, with the terminating NUL on the count byte, which has been read.
   * No other byte changes.
   */
  lemma UrlParses(m: seq<byte>, end: nat, cur: nat, u: Url, rest: seq<byte>) returns (e: UrlEntry)
    requires u.Fits() && At(m, cur, u.Entry() + rest) && cur + u.Size() <= end < |m|
    ensures var m' := m[cur + 5 + |u.url| := 0];
            ParseUrl(m, end, cur) == Parsed(e, cur + u.Size(), m') && UrlIs(m', e, u, cur) &&
            At(m', cur + u.Size(), rest)
  {
    hide U16, At, Auth.Block, Url.Entry, ParseAuths, ParseUrl;
    UrlLayout(m, cur, u, rest);
    var tail := cur + 5 + |u.url|;
    var auths := AuthsParse(m, end, tail + 1, u.auth, rest);
    e := UrlOut(m, end, cur, u, auths);
    AtStore(m, tail, 0, cur + 5, u.url);
    AtStore(m, tail, 0, tail + 1 + u.auth.Size(), rest);
    AuthsKept(m, tail, u.auth.Count(), auths, u.auth, tail + 1);
    AtNul(m, tail);
  }

  // ----- Replies -----

  /** One turn of the loop over the entries, after `done` has been parsed from `at` into `es`. */
  lemma UrlsStep(m: seq<byte>, end: nat, cur: nat, u: Url, rest: seq<byte>, at: nat, done: seq<Url>, es: seq<UrlEntry>)
    returns (e: UrlEntry)
    requires u.Fits() && At(m, cur, u.Entry() + rest) && cur + u.Size() <= end < |m|
    requires UrlsAre(m, es, done, at) && EntriesEnd(done, at) == cur
    ensures var m' := m[cur + 5 + |u.url| := 0];
            && ParseUrl(m, end, cur) == Parsed(e, cur + u.Size(), m') && At(m', cur + u.Size(), rest)
            && UrlsAre(m', es + [e], done + [u], at) && EntriesEnd(done + [u], at) == cur + u.Size()
  {
    e := UrlParses(m, end, cur, u, rest);
    UrlsKept(m, cur + 5 + |u.url|, es, done, at);
    UrlsAppend(m[cur + 5 + |u.url| := 0], es, done, at, e, u);
  }

  lemma {:induction false} UrlsParse(
      m: seq<byte>, end: nat, cur: nat, us: seq<Url>, at: nat, done: seq<Url>, es: seq<UrlEntry>)
    returns (m': seq<byte>, all: seq<UrlEntry>)
    requires AllFit(us) && At(m, cur, Entries(us)) && cur + |Entries(us)| <= end < |m|
    requires UrlsAre(m, es, done, at) && EntriesEnd(done, at) == cur
    ensures ParseUrls(m, end, cur, |us|, es) == Parsed(all, cur + |Entries(us)|, m') && UrlsAre(m', all, done + us, at)
    decreases |us|
  {
    hide ParseUrl, UrlsAre, EntriesEnd, Url.Entry;
    if us == [] {
      assert done + us == done;
      m', all := m, es;
    } else {
      var u, rest := us[0], us[1..];
      var e := UrlsStep(m, end, cur, u, Entries(rest), at, done, es);
      m', all := UrlsParse(m[cur + 5 + |u.url| := 0], end, cur + u.Size(), rest, at, done + [u], es + [e]);
      MoveFirst(done, us);
    }
  }

  function RplyBody(us: seq<Url>): seq<byte>
    requires |us| < 65536
  {
    U16(0) + (U16(|us|) + Entries(us))
  }

  /**
   * Main result: a reply body with error 0 and any number of written entries is parsed to exactly those
   * entries, in order, each at the place it was written.
   */
  lemma SrvRplyRoundTrip(m: seq<byte>, end: nat, cur: nat, us: seq<Url>)
    requires |us| < 65536 && AllFit(us) && At(m, cur, RplyBody(us)) && cur + |RplyBody(us)| <= end < |m|
    ensures var r := ParseSrvRply(m, end, cur);
            && r.Parsed? && r.cur == cur + |RplyBody(us)| && r.value.errorcode == 0 && r.value.urlcount == |us|
            && UrlsAre(r.mem, r.value.urlarray, us, cur + 4)
  {
    Read16(m, cur, 0, U16(|us|) + Entries(us));
    Read16(m, cur + 2, |us|, Entries(us));
    assert UrlsAre(m, [], [], cur + 4);
    var m', all := UrlsParse(m, end, cur + 4, us, cur + 4, [], []);
    assert [] + us == us;
  }

  /** An error code ends the reply: whatever follows is not read, and the caller learns the code. */
  lemma ErrorReply(m: seq<byte>, end: nat, cur: nat, e: nat)
    requires 0 < e < 65536 && At(m, cur, U16(e)) && cur + 4 <= end < |m|
    ensures ParseSrvRply(m, end, cur) == Parsed(SrvRply(e, 0, []), cur + 2, m)
  {
    assert U16(e) + [] == U16(e);
    Read16(m, cur, e, []);
  }

  // ----- Registrations -----

  lemma RegTailParses(m: seq<byte>, end: nat, cur: nat, r: Reg, url: UrlEntry, auths: seq<byte>) returns (p: SrvReg)
    requires r.Fits() && auths == r.attrAuth.Block() + r.Extension()
    requires At(m, cur, L16(r.srvtype) + (L16(r.scopes) + (L16(r.attrs) + ([r.attrAuth.Count()] + auths))))
    requires cur + 7 + |r.srvtype| + |r.scopes| + |r.attrs| + r.attrAuth.Size() <= end < |m|
    ensures var c4 := cur + 7 + |r.srvtype| + |r.scopes| + |r.attrs|;
            && ParseRegTail(m, end, cur, url) == Parsed(p, c4 + r.attrAuth.Size(), m)
            && p.urlentry == url && RegTailIs(m, p, r, c4) && At(m, c4 + r.attrAuth.Size(), r.Extension())
  {
    hide ParseL16, ParseAuths, ParseRegTail, AuthsAre, L16, Auth.Block, Reg.Extension;
    var c1 := cur + 2 + |r.srvtype|;
    var c2 := c1 + 2 + |r.scopes|;
    var c3 := c2 + 2 + |r.attrs|;
    RegTailLayout(m, end, cur, r.srvtype, r.scopes, r.attrs, [r.attrAuth.Count()] + auths);
    Read8(m, c3, r.attrAuth.Count(), auths);
    var abs := AuthsParse(m, end, c3 + 1, r.attrAuth, r.Extension());
    p := SrvReg(url, |r.srvtype|, cur + 2, |r.scopes|, c1 + 2, |r.attrs|, c2 + 2, r.attrAuth.Count(), abs);
    RegTailOut(m, end, cur, p, c1, c2, c3, c3 + 1 + r.attrAuth.Size());
  }

  /** A registration body: parsed to what was written, with the extension still in place after it. */
  lemma SrvRegParses(m: seq<byte>, end: nat, cur: nat, r: Reg) returns (p: SrvReg)
    requires r.Fits() && At(m, cur, r.Body()) && cur + |r.Body()| <= end < |m|
    ensures var m' := m[cur + 5 + |r.url.url| := 0];
            && ParseSrvReg(m, end, cur) == Parsed(p, cur + r.ExtOffset(), m')
            && RegIs(m', p, r, cur) && At(m', cur + r.ExtOffset(), r.Extension())
  {
    hide ParseUrl, ParseRegTail, UrlIs, RegTailIs, Auth.Block, Url.Entry, L16, Reg.Extension;
    var auths := r.attrAuth.Block() + r.Extension();
    var tail := L16(r.srvtype) + (L16(r.scopes) + (L16(r.attrs) + ([r.attrAuth.Count()] + auths)));
    var e := UrlParses(m, end, cur, r.url, tail);
    p := RegTailParses(m[cur + 5 + |r.url.url| := 0], end, cur + r.url.Size(), r, e, auths);
  }

  // ----- Whole messages -----

  /** The body of a message; those of other kinds are not modelled. */
  datatype Body = Registration(reg: SrvReg) | Reply(rply: SrvRply) | Other

  datatype Message = Message(header: MsgHeader, body: Body, pid: nat)

  function ParseBody(m: seq<byte>, end: nat, cur: nat, fn: byte): (r: Out<Body>)
    requires end < |m|
    ensures r.Parsed? ==> |r.mem| == |m|
    ensures r.Failed? ==> r.code != 0
  {
    if fn == SRVREG then
      match ParseSrvReg(m, end, cur)
      case Failed(code) => Failed(code)
      case Overrun => Overrun
      case Parsed(reg, c, m') => Parsed(Registration(reg), c, m')
    else if fn == SRVRPLY then
      match ParseSrvRply(m, end, cur)
      case Failed(code) => Failed(code)
      case Overrun => Overrun
      case Parsed(rply, c, m') => Parsed(Reply(rply), c, m')
    else Overrun
  }

  /** SLPv2MessageParseBuffer for registrations and replies: header, body, extensions. */
  function ParseMessage(m: seq<byte>, end: nat): (r: Out<Message>)
    requires end < |m|
  {
    match ParseHeader(m, end)
    case Failed(code) => Failed(code)
    case Overrun => Overrun
    case Parsed(h, c, _) =>
      match ParseBody(m, end, c, h.functionid)
      case Failed(code) => Failed(code)
      case Overrun => Overrun
      case Parsed(body, c', m') =>
        var (status, pid) := if h.extoffset != 0 then Walk(m', end, h.functionid, h.extoffset, end, 0) else (0, 0);
        if status != 0 then Failed(status) else Parsed(Message(h, body, pid), c', m')
  }

  /** SLPv2MessageParseBuffer. A message of another kind passes or fails the header check; its body is not modelled. */
  method SLPv2MessageParseBuffer(buffer: SLPBuffer) returns (status: int, msg: Message)
    requires buffer.Valid() && buffer.curpos == 0
    modifies buffer`curpos, buffer.data
    ensures var h, r := ParseHeader(old(buffer.data[..]), buffer.end), ParseMessage(old(buffer.data[..]), buffer.end);
      if h.Parsed? && h.value.functionid != SRVREG && h.value.functionid != SRVRPLY then msg.header == h.value
      else status == r.Status() && (r.Parsed? ==> msg == r.value && buffer.data[..] == r.mem)
  {
    hide ParseHeader, ParseSrvReg, ParseSrvRply, Walk;
    var result, header := SLPv2MessageParseHeader(buffer);
    msg := Message(header, Other, 0);
    if result != 0 { return result, msg; }
    if header.functionid == SRVREG {
      var reg;
      result, reg := V2ParseSrvReg(buffer);
      msg := msg.(body := Registration(reg));
    } else if header.functionid == SRVRPLY {
      var rply;
      result, rply := V2ParseSrvRply(buffer);
      msg := msg.(body := Reply(rply));
    }
    if result == 0 && header.extoffset != 0 {
      var pid;
      result, pid := V2ParseExtension(buffer, header.functionid, header.extoffset, 0);
      msg := msg.(pid := pid);
    }
    return result, msg;
  }

  /** A registration as it is sent: the extension offset of the body is shifted by the header size. */
  function RegText(h: Header, r: Reg): (t: seq<byte>)
    ensures |t| == h.Size() + |r.Body()|
  {
    h.Text(SRVREG, if r.pid.Some? then h.Size() + r.ExtOffset() else 0) + r.Body()
  }

  lemma HeaderParses(m: seq<byte>, end: nat, h: Header, fn: byte, extoffset: nat, rest: seq<byte>)
    requires h.Valid() && 1 <= fn <= 11 && extoffset < 0x1000000 && extoffset <= end
             && At(m, 0, h.Text(fn, extoffset) + rest)
    requires 18 <= end < |m| && h.Size() <= end
    ensures ParseHeader(m, end) ==
            Parsed(MsgHeader(2, fn, h.length, h.flags, extoffset, h.xid, |h.lang|, 14), h.Size(), m)
    ensures At(m, 14, h.lang) && At(m, h.Size(), rest)
  {
    AtConcat(m, 0, h.Text(fn, extoffset), rest);
    HeaderFields(m, h, fn, extoffset);
  }

  /** The written PID extension is the whole chain, and gives the process id back. */
  lemma PidWalk(m: seq<byte>, end: nat, at: nat, r: Reg)
    requires r.Fits() && r.pid.Some? && At(m, at, r.Extension()) && 0 < at && at + 9 <= end <= |m| && end > 9
    ensures Walk(m, end, SRVREG, at, end, 0) == (0, r.pid.value)
  {
    var t := U24(0) + U32(r.pid.value);
    Read16(m, at, PID_EXTENSION_EXP, t);
    Read24(m, at + 2, 0, U32(r.pid.value));
    assert U32(r.pid.value) + [] == U32(r.pid.value);
    Read32(m, at + 5, r.pid.value, []);
  }

  /**
   * Main result: a registration message, in a buffer of its size and one spare byte of any value, is parsed
   * back to the same URL, lifetime, type, scopes, attributes, authentication fields and process id, although
   * the parser has overwritten the count byte of the URL entry.
   */
  lemma SrvRegRoundTrip(h: Header, r: Reg, spare: byte)
    requires h.Valid() && r.Fits()
    ensures var end := |RegText(h, r)|; var p := ParseMessage(RegText(h, r) + [spare], end);
            && p.Parsed? && p.value.body.Registration? && RegIs(p.mem, p.value.body.reg, r, h.Size())
            && p.value.header.functionid == SRVREG && p.value.header.xid == h.xid && p.value.header.flags == h.flags
            && p.value.header.langtaglen == |h.lang| && At(p.mem, p.value.header.langtag, h.lang)
            && p.value.pid == (if r.pid.Some? then r.pid.value else 0)
  {
    var end, m := |RegText(h, r)|, RegText(h, r) + [spare];
    AtWhole(m);
    AtConcat(m, 0, RegText(h, r), [spare]);
    RegMessageParses(m, end, h, r);
  }

  lemma RegMessageParses(m: seq<byte>, end: nat, h: Header, r: Reg)
    requires h.Valid() && r.Fits() && end == |RegText(h, r)| < 0x1000000 && end < |m| && At(m, 0, RegText(h, r))
    ensures var p := ParseMessage(m, end);
            && p.Parsed? && p.value.body.Registration? && RegIs(p.mem, p.value.body.reg, r, h.Size())
            && p.value.header.functionid == SRVREG && p.value.header.xid == h.xid && p.value.header.flags == h.flags
            && p.value.header.langtaglen == |h.lang| && At(p.mem, p.value.header.langtag, h.lang)
            && p.value.pid == (if r.pid.Some? then r.pid.value else 0)
  {
    hide ParseHeader, ParseSrvReg, Walk, RegIs, ParseMessage, Reg.Body, Reg.Extension, Header.Text, At;
    var ext := if r.pid.Some? then h.Size() + r.ExtOffset() else 0;
    HeaderParses(m, end, h, SRVREG, ext, r.Body());
    var b := SrvRegParses(m, end, h.Size(), r);
    AfterBody(m, end, h, r, ext);
    var hd := MsgHeader(2, SRVREG, h.length, h.flags, ext, h.xid, |h.lang|, 14);
    MessageOut(m, end, hd, h.Size(), b, h.Size() + r.ExtOffset(),
               m[h.Size() + 5 + |r.url.url| := 0], if r.pid.Some? then r.pid.value else 0);
  }

  /** How the message parser puts its pieces together. */
  lemma MessageOut(m: seq<byte>, end: nat, hd: MsgHeader, c: nat, reg: SrvReg, c': nat, m': seq<byte>, pid: nat)
    requires end < |m| && hd.functionid == SRVREG
    requires ParseHeader(m, end) == Parsed(hd, c, m) && ParseSrvReg(m, end, c) == Parsed(reg, c', m')
    requires if hd.extoffset == 0 then pid == 0 else Walk(m', end, hd.functionid, hd.extoffset, end, 0) == (0, pid)
    ensures ParseMessage(m, end) == Parsed(Message(hd, Registration(reg), pid), c', m')
  {
    hide ParseHeader, ParseSrvReg, Walk;
  }

  /** The language tag and the extension survive the NUL that the body parser stores between them. */
  lemma AfterBody(m: seq<byte>, end: nat, h: Header, r: Reg, ext: nat)
    requires r.Fits() && ext == (if r.pid.Some? then h.Size() + r.ExtOffset() else 0)
    requires h.Size() + r.ExtOffset() + |r.Extension()| == end < |m|
    requires At(m, 14, h.lang) && At(m[h.Size() + 5 + |r.url.url| := 0], h.Size() + r.ExtOffset(), r.Extension())
    ensures var m' := m[h.Size() + 5 + |r.url.url| := 0];
            At(m', 14, h.lang) && (r.pid.Some? ==> ext != 0 && Walk(m', end, SRVREG, ext, end, 0) == (0, r.pid.value))
  {
    var q := h.Size() + 5 + |r.url.url|;
    AtStore(m, q, 0, 14, h.lang);
    if r.pid.Some? { PidWalk(m[q := 0], end, ext, r); }
  }

  // ----- Whole replies -----

  /** A reply as it is sent: the header and the body, without extensions. */
  function RplyText(h: Header, body: seq<byte>): (t: seq<byte>)
    ensures |t| == h.Size() + |body|
  {
    h.Text(SRVRPLY, 0) + body
  }

  function RplyHeader(h: Header): MsgHeader {
    MsgHeader(2, 2, h.length, h.flags, 0, h.xid, |h.lang|, 14)
  }

  lemma RplyMessageParses(m: seq<byte>, end: nat, h: Header, body: seq<byte>)
    requires h.Valid() && At(m, 0, RplyText(h, body)) && end == |RplyText(h, body)| < |m| && |body| >= 4
    ensures At(m, h.Size(), body) && At(m, 14, h.lang)
    ensures ParseMessage(m, end) ==
            match ParseSrvRply(m, end, h.Size())
            case Failed(code) => Failed(code)
            case Overrun => Overrun
            case Parsed(rply, c, m') => Parsed(Message(RplyHeader(h), Reply(rply), 0), c, m')
  {
    hide ParseHeader, ParseSrvRply, Walk, Header.Text, At;
    HeaderParses(m, end, h, SRVRPLY, 0, body);
  }

  /** A reply with an error code is a message whose caller learns that code, and nothing else. */
  lemma ErrorReplyMessage(h: Header, e: nat, rest: seq<byte>, spare: byte)
    requires h.Valid() && 0 < e < 65536 && |rest| >= 2
    ensures var t := RplyText(h, U16(e) + rest);
            ParseMessage(t + [spare], |t|) ==
            Parsed(Message(RplyHeader(h), Reply(SrvRply(e, 0, [])), 0), h.Size() + 2, t + [spare])
  {
    hide ParseSrvRply, ParseMessage, U16, At;
    var t := RplyText(h, U16(e) + rest);
    var m := t + [spare];
    AtWhole(m);
    AtConcat(m, 0, t, [spare]);
    RplyMessageParses(m, |t|, h, U16(e) + rest);
    AtConcat(m, h.Size(), U16(e), rest);
    ErrorReply(m, |t|, h.Size(), e);
  }

  /**
   * Main result: a reply message with any number of written entries, in a buffer of its size and one spare byte of
   * any value, is parsed back to exactly those entries, with the error code 0.
   */
  lemma SrvRplyMessage(h: Header, us: seq<Url>, spare: byte)
    requires h.Valid() && |us| < 65536 && AllFit(us)
    ensures var t := RplyText(h, RplyBody(us)); var p := ParseMessage(t + [spare], |t|);
            && p.Parsed? && p.value.header == RplyHeader(h) && At(p.mem, 14, h.lang) && p.value.pid == 0
            && p.value.body.Reply? && p.value.body.rply.errorcode == 0 && p.value.body.rply.urlcount == |us|
            && UrlsAre(p.mem, p.value.body.rply.urlarray, us, h.Size() + 4)
  {
    hide ParseSrvRply, ParseMessage, At, UrlsAre;
    var t := RplyText(h, RplyBody(us));
    var m, cur := t + [spare], h.Size();
    AtWhole(m);
    AtConcat(m, 0, t, [spare]);
    RplyMessageParses(m, |t|, h, RplyBody(us));
    SrvRplyRoundTrip(m, |t|, cur, us);
    RplyKeepsFront(m, |t|, cur);
    AtFront(m, ParseSrvRply(m, |t|, cur).mem, cur, 14, h.lang);
  }
}
