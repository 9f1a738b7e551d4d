// The SLPv2 parsers for URL entries, service replies and registrations, over a buffer with one spare byte.
module WireParse {
  import opened Bytes
  import opened WireFormat

  // ----- Parsed structures: strings are (offset, length) pairs into the buffer -----

  datatype AuthBlock = AuthBlock(bsd: nat, length: nat, timestamp: nat, spistrlen: nat, spistr: nat,
                                 authstruct: nat, blocklen: nat, block: nat)

  datatype UrlEntry = UrlEntry(reserved: byte, lifetime: nat, urllen: nat, url: nat, authcount: byte,
                               autharray: seq<AuthBlock>, blocklen: nat, block: nat)

  datatype SrvRply = SrvRply(errorcode: nat, urlcount: nat, urlarray: seq<UrlEntry>)

  datatype SrvReg = SrvReg(urlentry: UrlEntry, srvtypelen: nat, srvtype: nat, scopelistlen: nat, scopelist: nat,
                           attrlistlen: nat, attrlist: nat, authcount: byte, autharray: seq<AuthBlock>)

  datatype MsgHeader = MsgHeader(version: byte, functionid: byte, length: nat, flags: nat, extoffset: nat, xid: nat,
                                 langtaglen: nat, langtag: nat)

  const NIL_AUTH: AuthBlock := AuthBlock(0, 0, 0, 0, 0, 0, 0, 0)
  const NIL_URL: UrlEntry := UrlEntry(0, 0, 0, 0, 0, [], 0, 0)
  const NIL_REG: SrvReg := SrvReg(NIL_URL, 0, 0, 0, 0, 0, 0, 0, [])

  /**
   * The outcome of a parser: a value with the new cursor and the buffer it leaves, an error code, or a
   * read past the allocated block, which the source does not define.
   */
  datatype Out<+T> = Parsed(value: T, cur: nat, mem: seq<byte>) | Failed(code: nat) | Overrun
  {
    function Status(): int {
      match this
      case Parsed(_, _, _) => 0
      case Failed(code) => code
      case Overrun => -1
    }
  }

  // ----- The parsers as functions of the buffer -----

  function ParseAuth(m: seq<byte>, end: nat, cur: nat): (r: Out<AuthBlock>)
    requires end < |m|
    ensures r.Parsed? ==> cur <= r.cur <= end && r.mem == m
    ensures r.Failed? ==> r.code != 0
  {
    if end - cur < 10 then Failed(PARSE_ERROR) else
      var spilen := Get16(m, cur + 8);
      if cur + 10 + spilen > end then Failed(PARSE_ERROR) else
        var length := Get16(m, cur + 2);
        if cur + length > end then Failed(PARSE_ERROR) else
          Parsed(AuthBlock(Get16(m, cur), length, Get32(m, cur + 4), spilen, cur + 10, cur + 10 + spilen, length, cur),
                 cur + length, m)
  }

  function ParseAuths(m: seq<byte>, end: nat, cur: nat, n: nat, done: seq<AuthBlock>): (r: Out<seq<AuthBlock>>)
    requires end < |m|
    ensures r.Parsed? ==> cur <= r.cur && r.mem == m && (cur <= end ==> r.cur <= end)
    ensures r.Failed? ==> r.code != 0
    decreases n
  {
    if n == 0 then Parsed(done, cur, m) else
      match ParseAuth(m, end, cur)
      case Parsed(a, c, _) => ParseAuths(m, end, c, n - 1, done + [a])
      case Failed(code) => Failed(code)
      case Overrun => Overrun
  }

  function ParseUrl(m: seq<byte>, end: nat, cur: nat): (r: Out<UrlEntry>)
    requires end < |m|
    ensures r.Parsed? ==> cur < r.cur && |r.mem| == |m|
    ensures r.Failed? ==> r.code != 0
  {
    if end - cur < 6 then Failed(PARSE_ERROR) else
      var urllen := Get16(m, cur + 3);
      var tail := cur + 5 + urllen;
      if tail > end then Failed(PARSE_ERROR) else
        match ParseAuths(m, end, tail + 1, m[tail], [])
        case Parsed(auths, c, _) =>
          Parsed(UrlEntry(m[cur], Get16(m, cur + 1), urllen, cur + 5, m[tail], auths, c - cur, cur), c, m[tail := 0])
        case Failed(code) => Failed(code)
        case Overrun => Overrun
  }

  function ParseUrls(m: seq<byte>, end: nat, cur: nat, n: nat, done: seq<UrlEntry>): (r: Out<seq<UrlEntry>>)
    requires end < |m|
    ensures r.Parsed? ==> cur <= r.cur && |r.mem| == |m|
    ensures r.Failed? ==> r.code != 0
    decreases n
  {
    if n == 0 then Parsed(done, cur, m) else
      match ParseUrl(m, end, cur)
      case Parsed(e, c, m') => ParseUrls(m', end, c, n - 1, done + [e])
      case Failed(code) => Failed(code)
      case Overrun => Overrun
  }

  function ParseSrvRply(m: seq<byte>, end: nat, cur: nat): (r: Out<SrvRply>)
    requires end < |m|
    ensures r.Parsed? ==> |r.mem| == |m|
    ensures r.Failed? ==> r.code != 0
  {
    if end - cur < 4 then Failed(PARSE_ERROR)
    else if Get16(m, cur) != 0 then Parsed(SrvRply(Get16(m, cur), 0, []), cur + 2, m)
    else
      match ParseUrls(m, end, cur + 4, Get16(m, cur + 2), [])
      case Parsed(urls, c, m') => Parsed(SrvRply(0, Get16(m, cur + 2), urls), c, m')
      case Failed(code) => Failed(code)
      case Overrun => Overrun
  }

  /** A 16-bit length and the string after it: the value is the string's offset and length. */
  function ParseL16(m: seq<byte>, end: nat, cur: nat): (r: Out<(nat, nat)>)
    requires end < |m|
    ensures r.Parsed? ==> cur + 2 <= r.cur <= end && r.mem == m &&
                          r.value.0 == cur + 2 && r.value.0 + r.value.1 == r.cur
    ensures r.Failed? ==> r.code != 0
  {
    if cur + 2 > |m| then Overrun
    else if cur + 2 + Get16(m, cur) > end then Failed(PARSE_ERROR)
    else Parsed((cur + 2, Get16(m, cur)), cur + 2 + Get16(m, cur), m)
  }

  /** What follows the URL entry of a registration. */
  function ParseRegTail(m: seq<byte>, end: nat, cur: nat, url: UrlEntry): (r: Out<SrvReg>)
    requires end < |m|
    ensures r.Parsed? ==> r.mem == m
    ensures r.Failed? ==> r.code != 0
  {
    match ParseL16(m, end, cur)
    case Failed(code) => Failed(code)
    case Overrun => Overrun
    case Parsed(srvtype, c1, _) =>
      match ParseL16(m, end, c1)
      case Failed(code) => Failed(code)
      case Overrun => Overrun
      case Parsed(scopes, c2, _) =>
        match ParseL16(m, end, c2)
        case Failed(code) => Failed(code)
        case Overrun => Overrun
        case Parsed(attrs, c3, _) =>
          match ParseAuths(m, end, c3 + 1, m[c3], [])
          case Failed(code) => Failed(code)
          case Overrun => Overrun
          case Parsed(auths, c4, _) =>
            Parsed(SrvReg(url, srvtype.1, srvtype.0, scopes.1, scopes.0, attrs.1, attrs.0, m[c3], auths), c4, m)
  }

  function ParseSrvReg(m: seq<byte>, end: nat, cur: nat): (r: Out<SrvReg>)
    requires end < |m|
    ensures r.Parsed? ==> |r.mem| == |m|
    ensures r.Failed? ==> r.code != 0
  {
    match ParseUrl(m, end, cur)
    case Failed(code) => Failed(code)
    case Overrun => Overrun
    case Parsed(url, c, m') => ParseRegTail(m', end, c, url)
  }

  function ParseHeader(m: seq<byte>, end: nat): (r: Out<MsgHeader>)
    requires end < |m|
    ensures r.Parsed? ==> 14 <= r.cur <= end && r.mem == m && r.value.extoffset <= end
    ensures r.Failed? ==> r.code != 0
  {
    if end < 18 then Failed(PARSE_ERROR) else
      var lang := Get16(m, 12);
      if 14 + lang > end || m[1] < 1 || m[1] > 11 || Get16(m, 5) % 0x2000 != 0 || Get24(m, 7) > end then
        Failed(PARSE_ERROR)
      else Parsed(MsgHeader(m[0], m[1], Get24(m, 2), Get16(m, 5), Get24(m, 7), Get16(m, 10), lang, 14), 14 + lang, m)
  }

  // ----- The parsers of the source -----

  /** An SLPBuffer: `end` bytes of message and one spare byte for a terminating NUL. */
  class SLPBuffer {
    const data: array<byte>
    const end: nat
    var curpos: nat

    constructor (size: nat)
      ensures end == size && data.Length == size + 1 && curpos == 0 && fresh(data)
    {
      data := new byte[size + 1];
      end := size;
      curpos := 0;
    }

    predicate Valid()
      reads this
    {
      data.Length == end + 1
    }

    method GetUINT16() returns (v: nat)
      requires Valid() && curpos + 2 <= data.Length
      modifies this`curpos
      ensures v == Get16(data[..], old(curpos)) && curpos == old(curpos) + 2
    {
      v := data[curpos] as int * 256 + data[curpos + 1] as int;
      curpos := curpos + 2;
    }

    method GetUINT24() returns (v: nat)
      requires Valid() && curpos + 3 <= data.Length
      modifies this`curpos
      ensures v == Get24(data[..], old(curpos)) && curpos == old(curpos) + 3
    {
      v := data[curpos] as int * 65536 + data[curpos + 1] as int * 256 + data[curpos + 2] as int;
      curpos := curpos + 3;
    }

    method GetUINT32() returns (v: nat)
      requires Valid() && curpos + 4 <= data.Length
      modifies this`curpos
      ensures v == Get32(data[..], old(curpos)) && curpos == old(curpos) + 4
    {
      v := data[curpos] as int * 16777216 + data[curpos + 1] as int * 65536 + data[curpos + 2] as int * 256
         + data[curpos + 3] as int;
      curpos := curpos + 4;
    }

    method GetStrPtr(len: nat) returns (p: nat)
      modifies this`curpos
      ensures p == old(curpos) && curpos == p + len
    {
      p := curpos;
      curpos := curpos + len;
    }
  }

  /** v2ParseAuthBlock. */
  method V2ParseAuthBlock(buffer: SLPBuffer) returns (status: int, ab: AuthBlock)
    requires buffer.Valid()
    modifies buffer`curpos
    ensures var r := ParseAuth(buffer.data[..], buffer.end, old(buffer.curpos));
            status == r.Status() && (r.Parsed? ==> ab == r.value && buffer.curpos == r.cur)
  {
    if buffer.end - buffer.curpos < 10 { return PARSE_ERROR, NIL_AUTH; }
    var block := buffer.curpos;
    var bsd := buffer.GetUINT16();
    var length := buffer.GetUINT16();
    var timestamp := buffer.GetUINT32();
    var spistrlen := buffer.GetUINT16();
    var spistr := buffer.GetStrPtr(spistrlen);
    if buffer.curpos > buffer.end { return PARSE_ERROR, NIL_AUTH; }
    ab := AuthBlock(bsd, length, timestamp, spistrlen, spistr, buffer.curpos, length, block);
    buffer.curpos := block + length;
    if buffer.curpos > buffer.end { return PARSE_ERROR, NIL_AUTH; }
    return 0, ab;
  }

  /** The loop over the authentication blocks of a URL entry or an attribute list. */
  method V2ParseAuthBlocks(buffer: SLPBuffer, count: nat) returns (status: int, autharray: seq<AuthBlock>)
    requires buffer.Valid()
    modifies buffer`curpos
    ensures var r := ParseAuths(buffer.data[..], buffer.end, old(buffer.curpos), count, []);
            status == r.Status() && (r.Parsed? ==> autharray == r.value && buffer.curpos == r.cur)
  {
    autharray := [];
    ghost var m := buffer.data[..];
    for i := 0 to count
      invariant m == buffer.data[..]
      invariant ParseAuths(m, buffer.end, buffer.curpos, count - i, autharray)
                  == ParseAuths(m, buffer.end, old(buffer.curpos), count, [])
    {
      var result, ab := V2ParseAuthBlock(buffer);
      if result != 0 { return result, autharray; }
      autharray := autharray + [ab];
    }
    return 0, autharray;
  }

  lemma NoAuths(m: seq<byte>, end: nat, cur: nat)
    requires end < |m|
    ensures ParseAuths(m, end, cur, 0, []) == Parsed([], cur, m)
  {
  }

  /** v2ParseUrlEntry: the NUL it stores replaces the count byte it has already read. */
  method V2ParseUrlEntry(buffer: SLPBuffer) returns (status: int, entry: UrlEntry)
    requires buffer.Valid()
    modifies buffer`curpos, buffer.data
    ensures var r := ParseUrl(old(buffer.data[..]), buffer.end, old(buffer.curpos));
            status == r.Status() &&
            (r.Parsed? ==> entry == r.value && buffer.curpos == r.cur && buffer.data[..] == r.mem)
    ensures status != 0 ==> buffer.data[..] == old(buffer.data[..])
  {
    hide ParseAuths;
    if buffer.end - buffer.curpos < 6 { return PARSE_ERROR, NIL_URL; }
    ghost var m := buffer.data[..];
    var block := buffer.curpos;
    var reserved := buffer.data[buffer.curpos];
    buffer.curpos := buffer.curpos + 1;
    var lifetime := buffer.GetUINT16();
    var urllen := buffer.GetUINT16();
    var url := buffer.GetStrPtr(urllen);
    if buffer.curpos > buffer.end { return PARSE_ERROR, NIL_URL; }
    var authcount := buffer.data[buffer.curpos];
    buffer.curpos := buffer.curpos + 1;
    NoAuths(m, buffer.end, buffer.curpos);
    var autharray := [];
    if authcount != 0 {
      var result;
      result, autharray := V2ParseAuthBlocks(buffer, authcount);
      if result != 0 { return result, NIL_URL; }
    }
    entry := UrlEntry(reserved, lifetime, urllen, url, authcount, autharray, buffer.curpos - block, block);
    buffer.data[url + urllen] := 0;
    return 0, entry;
  }

  /** The loop over the URL entries of a reply. */
  method V2ParseUrlEntries(buffer: SLPBuffer, urlcount: nat) returns (status: int, urlarray: seq<UrlEntry>)
    requires buffer.Valid()
    modifies buffer`curpos, buffer.data
    ensures var r := ParseUrls(old(buffer.data[..]), buffer.end, old(buffer.curpos), urlcount, []);
            status == r.Status() &&
            (r.Parsed? ==> urlarray == r.value && buffer.curpos == r.cur && buffer.data[..] == r.mem)
  {
    urlarray := [];
    ghost var goal := ParseUrls(buffer.data[..], buffer.end, buffer.curpos, urlcount, []);
    for i := 0 to urlcount
      invariant ParseUrls(buffer.data[..], buffer.end, buffer.curpos, urlcount - i, urlarray) == goal
    {
      var result, entry := V2ParseUrlEntry(buffer);
      if result != 0 { return result, urlarray; }
      urlarray := urlarray + [entry];
    }
    return 0, urlarray;
  }

  /** v2ParseSrvRply. */
  method V2ParseSrvRply(buffer: SLPBuffer) returns (status: int, rply: SrvRply)
    requires buffer.Valid()
    modifies buffer`curpos, buffer.data
    ensures var r := ParseSrvRply(old(buffer.data[..]), buffer.end, old(buffer.curpos));
            status == r.Status() &&
            (r.Parsed? ==> rply == r.value && buffer.curpos == r.cur && buffer.data[..] == r.mem)
  {
    if buffer.end - buffer.curpos < 4 { return PARSE_ERROR, SrvRply(0, 0, []); }
    var errorcode := buffer.GetUINT16();
    if errorcode != 0 { return 0, SrvRply(errorcode, 0, []); }
    var urlcount := buffer.GetUINT16();
    var result, urlarray := V2ParseUrlEntries(buffer, urlcount);
    return result, SrvRply(0, urlcount, urlarray);
  }

  /** One length-prefixed string. */
  method V2ParseString(buffer: SLPBuffer) returns (status: int, len: nat, str: nat)
    requires buffer.Valid()
    modifies buffer`curpos
    ensures var r := ParseL16(buffer.data[..], buffer.end, old(buffer.curpos));
            status == r.Status() && (r.Parsed? ==> (str, len) == r.value && buffer.curpos == r.cur)
  {
    if buffer.curpos + 2 > buffer.data.Length { return -1, 0, 0; }
    len := buffer.GetUINT16();
    str := buffer.GetStrPtr(len);
    if buffer.curpos > buffer.end { return PARSE_ERROR, len, str; }
    return 0, len, str;
  }

  /** The part of v2ParseSrvReg after the URL entry. */
  method V2ParseRegTail(buffer: SLPBuffer, urlentry: UrlEntry) returns (status: int, reg: SrvReg)
    requires buffer.Valid()
    modifies buffer`curpos
    ensures var r := ParseRegTail(buffer.data[..], buffer.end, old(buffer.curpos), urlentry);
            status == r.Status() && (r.Parsed? ==> reg == r.value && buffer.curpos == r.cur)
  {
    hide ParseL16, ParseAuths;
    var result, srvtypelen, srvtype, scopelistlen, scopelist, attrlistlen, attrlist;
    result, srvtypelen, srvtype := V2ParseString(buffer);
    if result != 0 { return result, NIL_REG; }
    result, scopelistlen, scopelist := V2ParseString(buffer);
    if result != 0 { return result, NIL_REG; }
    result, attrlistlen, attrlist := V2ParseString(buffer);
    if result != 0 { return result, NIL_REG; }
    var authcount := buffer.data[buffer.curpos];
    buffer.curpos := buffer.curpos + 1;
    NoAuths(buffer.data[..], buffer.end, buffer.curpos);
    var autharray := [];
    if authcount != 0 {
      result, autharray := V2ParseAuthBlocks(buffer, authcount);
      if result != 0 { return result, NIL_REG; }
    }
    return 0, SrvReg(urlentry, srvtypelen, srvtype, scopelistlen, scopelist,
                     attrlistlen, attrlist, authcount, autharray);
  }

  /** v2ParseSrvReg. */
  method V2ParseSrvReg(buffer: SLPBuffer) returns (status: int, reg: SrvReg)
    requires buffer.Valid()
    modifies buffer`curpos, buffer.data
    ensures var r := ParseSrvReg(old(buffer.data[..]), buffer.end, old(buffer.curpos));
            status == r.Status() && (r.Parsed? ==> reg == r.value && buffer.curpos == r.cur && buffer.data[..] == r.mem)
  {
    var result, urlentry := V2ParseUrlEntry(buffer);
    if result != 0 { return result, NIL_REG; }
    status, reg := V2ParseRegTail(buffer, urlentry);
  }

  /** SLPv2MessageParseHeader, from the start of the buffer. */
  method SLPv2MessageParseHeader(buffer: SLPBuffer) returns (status: int, header: MsgHeader)
    requires buffer.Valid() && buffer.curpos == 0
    modifies buffer`curpos
    ensures var r := ParseHeader(buffer.data[..], buffer.end);
            status == r.Status() && (r.Parsed? ==> header == r.value && buffer.curpos == r.cur)
  {
    header := MsgHeader(0, 0, 0, 0, 0, 0, 0, 0);
    if buffer.end < 18 { return PARSE_ERROR, header; }
    var version := buffer.data[buffer.curpos];
    buffer.curpos := buffer.curpos + 1;
    var functionid := buffer.data[buffer.curpos];
    buffer.curpos := buffer.curpos + 1;
    var length := buffer.GetUINT24();
    var flags := buffer.GetUINT16();
    var extoffset := buffer.GetUINT24();
    var xid := buffer.GetUINT16();
    var langtaglen := buffer.GetUINT16();
    var langtag := buffer.GetStrPtr(langtaglen);
    header := MsgHeader(version, functionid, length, flags, extoffset, xid, langtaglen, langtag);
    if buffer.curpos > buffer.end { return PARSE_ERROR, header; }
    if functionid < 1 || functionid > 11 { return PARSE_ERROR, header; }
    if flags % 0x2000 != 0 { return PARSE_ERROR, header; }
    if extoffset > buffer.end { return PARSE_ERROR, header; }
    return 0, header;
  }
}
