// What the parsers accept lies inside the message, whatever the bytes of the message are.
module WireBounds {
  import opened Bytes
  import opened WireFormat
  import opened WireParse
  import opened WireLayout

  predicate StringInside(end: nat, str: nat, len: nat) {
    str + len <= end
  }

  ghost predicate AuthsInside(end: nat, count: byte, abs: seq<AuthBlock>) {
    && |abs| == count as int
    && forall i :: 0 <= i < |abs| ==>
         && StringInside(end, abs[i].spistr, abs[i].spistrlen) && StringInside(end, abs[i].block, abs[i].blocklen)
         && abs[i].spistr == abs[i].block + 10 && abs[i].authstruct == abs[i].spistr + abs[i].spistrlen
  }

  ghost predicate UrlInside(end: nat, e: UrlEntry) {
    StringInside(end, e.url, e.urllen) && AuthsInside(end, e.authcount, e.autharray)
  }

  lemma {:induction false} AuthsBound(m: seq<byte>, end: nat, cur: nat, n: byte, k: nat, done: seq<AuthBlock>)
    requires end < |m| && k <= n && AuthsInside(end, n - k, done)
    ensures var r := ParseAuths(m, end, cur, k, done); r.Parsed? ==> AuthsInside(end, n, r.value)
    decreases k
  {
    if k > 0 {
      var r := ParseAuth(m, end, cur);
      if r.Parsed? { AuthsBound(m, end, r.cur, n, k - 1, done + [r.value]); }
    }
  }

  lemma AuthsOf(m: seq<byte>, end: nat, cur: nat, n: byte)
    requires end < |m|
    ensures var r := ParseAuths(m, end, cur, n, []); r.Parsed? ==> AuthsInside(end, n, r.value)
  {
    AuthsBound(m, end, cur, n, n, []);
  }

  /** Main result: the strings of a parsed entry lie inside the message. */
  lemma UrlBound(m: seq<byte>, end: nat, cur: nat)
    requires end < |m|
    ensures var r := ParseUrl(m, end, cur); r.Parsed? ==> UrlInside(end, r.value) && r.value.url == cur + 5
  {
    hide ParseAuths, AuthsInside;
    if end - cur >= 6 {
      var tail := cur + 5 + Get16(m, cur + 3);
      if tail <= end { AuthsOf(m, end, tail + 1, m[tail]); }
    }
  }

  lemma {:induction false} UrlsBound(m: seq<byte>, end: nat, cur: nat, n: nat, done: seq<UrlEntry>)
    requires end < |m| && forall i :: 0 <= i < |done| ==> UrlInside(end, done[i])
    ensures var r := ParseUrls(m, end, cur, n, done);
            r.Parsed? ==> |r.value| == |done| + n && forall i :: 0 <= i < |r.value| ==> UrlInside(end, r.value[i])
    decreases n
  {
    hide UrlInside;
    if n > 0 {
      UrlBound(m, end, cur);
      var r := ParseUrl(m, end, cur);
      if r.Parsed? { UrlsBound(r.mem, end, r.cur, n - 1, done + [r.value]); }
    }
  }

  /** Main result: a parsed reply has as many entries as it says, all inside the message, or an error code and none. */
  lemma RplyBound(m: seq<byte>, end: nat, cur: nat)
    requires end < |m|
    ensures var r := ParseSrvRply(m, end, cur);
            r.Parsed? ==>
              && |r.value.urlarray| == r.value.urlcount && (r.value.errorcode != 0 ==> r.value.urlcount == 0)
              && forall i :: 0 <= i < |r.value.urlarray| ==> UrlInside(end, r.value.urlarray[i])
  {
    hide ParseUrls, UrlInside;
    if end - cur >= 4 { UrlsBound(m, end, cur + 4, Get16(m, cur + 2), []); }
  }

  ghost predicate TailInside(end: nat, p: SrvReg) {
    && AuthsInside(end, p.authcount, p.autharray) && StringInside(end, p.srvtype, p.srvtypelen)
    && StringInside(end, p.scopelist, p.scopelistlen) && StringInside(end, p.attrlist, p.attrlistlen)
  }

  /** Main result: the strings of a parsed registration lie inside the message. */
  lemma RegBound(m: seq<byte>, end: nat, cur: nat)
    requires end < |m|
    ensures var r := ParseSrvReg(m, end, cur);
            r.Parsed? ==> UrlInside(end, r.value.urlentry) && TailInside(end, r.value)
  {
    hide ParseUrl, ParseRegTail, UrlInside, AuthsInside;
    UrlBound(m, end, cur);
    var u := ParseUrl(m, end, cur);
    if u.Parsed? { TailBound(u.mem, end, u.cur, u.value); }
  }

  lemma TailBound(m: seq<byte>, end: nat, cur: nat, url: UrlEntry)
    requires end < |m|
    ensures var r := ParseRegTail(m, end, cur, url);
            r.Parsed? ==> r.value.urlentry == url && TailInside(end, r.value)
  {
    hide ParseL16, ParseAuths, AuthsInside;
    var a := ParseL16(m, end, cur);
    if a.Parsed? {
      var b := ParseL16(m, end, a.cur);
      if b.Parsed? {
        var c := ParseL16(m, end, b.cur);
        if c.Parsed? { AuthsOf(m, end, c.cur + 1, m[c.cur]); }
      }
    }
  }

  /** Main result: of the headers whose fields fit their octets, exactly these are accepted. */
  lemma HeaderIff(m: seq<byte>, end: nat, h: Header, fn: byte, extoffset: nat)
    requires h.Fits() && extoffset < 0x1000000 && At(m, 0, h.Text(fn, extoffset)) && end < |m|
    ensures var r := ParseHeader(m, end);
            if 18 <= end && h.Size() <= end && 1 <= fn <= 11 && h.flags % 0x2000 == 0 && extoffset <= end
            then r == Parsed(MsgHeader(2, fn, h.length, h.flags, extoffset, h.xid, |h.lang|, 14), h.Size(), m)
            else r == Failed(PARSE_ERROR)
  {
    hide Header.Text, At;
    HeaderFields(m, h, fn, extoffset);
  }

  /** The version and the function are the first two bytes. */
  lemma VersionRead(m: seq<byte>, end: nat)
    requires end < |m| && ParseHeader(m, end).Parsed?
    ensures ParseHeader(m, end).value.version == m[0] && ParseHeader(m, end).value.functionid == m[1]
  {
  }

  // ----- Blocks and entries of other writers -----

  /** An authentication block with any fields; the signature fills its length. */
  datatype Block = Block(bsd: nat, timestamp: nat, spi: seq<byte>, signature: seq<byte>)
  {
    predicate Fits() { bsd < 65536 && timestamp < 0x1_0000_0000 && Size() < 65536 }

    function Size(): nat { 10 + |spi| + |signature| }

    function Text(): (b: seq<byte>)
      ensures |b| == Size()
    {
      U16(bsd) + (U16(Size()) + (U32(timestamp) + (U16(|spi|) + (spi + signature))))
    }

    /** What the parser makes of it, at offset `at`. */
    function At(at: nat): AuthBlock {
      AuthBlock(bsd, Size(), timestamp, |spi|, at + 10, at + 10 + |spi|, Size(), at)
    }
  }

  function Texts(bs: seq<Block>): seq<byte> {
    if bs == [] then [] else bs[0].Text() + Texts(bs[1..])
  }

  function AuthsAt(bs: seq<Block>, at: nat): seq<AuthBlock> {
    if bs == [] then [] else [bs[0].At(at)] + AuthsAt(bs[1..], at + bs[0].Size())
  }

  lemma BlockRead(m: seq<byte>, end: nat, cur: nat, b: Block)
    requires b.Fits() && Bytes.At(m, cur, b.Text()) && cur + b.Size() <= end < |m|
    ensures ParseAuth(m, end, cur) == Parsed(b.At(cur), cur + b.Size(), m)
  {
    hide U16, U32, Bytes.At, Get16, Get32;
    var t4 := b.spi + b.signature;
    var t3 := U16(|b.spi|) + t4;
    var t2 := U32(b.timestamp) + t3;
    Read16(m, cur, b.bsd, U16(b.Size()) + t2);
    Read16(m, cur + 2, b.Size(), t2);
    Read32(m, cur + 4, b.timestamp, t3);
    Read16(m, cur + 8, |b.spi|, t4);
  }

  /** Main result: any number of blocks is read, in order, each where it stands. */
  lemma {:induction false} BlocksRead(m: seq<byte>, end: nat, cur: nat, bs: seq<Block>, done: seq<AuthBlock>)
    requires (forall i :: 0 <= i < |bs| ==> bs[i].Fits()) && Bytes.At(m, cur, Texts(bs))
    requires cur + |Texts(bs)| <= end < |m|
    ensures ParseAuths(m, end, cur, |bs|, done) == Parsed(done + AuthsAt(bs, cur), cur + |Texts(bs)|, m)
    decreases |bs|
  {
    hide Bytes.At, ParseAuth, Block.Text;
    if bs == [] {
      assert done + [] == done;
    } else {
      AtConcat(m, cur, bs[0].Text(), Texts(bs[1..]));
      BlockRead(m, end, cur, bs[0]);
      BlocksRead(m, end, cur + bs[0].Size(), bs[1..], done + [bs[0].At(cur)]);
      assert done + [bs[0].At(cur)] + AuthsAt(bs[1..], cur + bs[0].Size()) == done + AuthsAt(bs, cur);
    }
  }

  /** Main result: an entry with any reserved byte and any number of blocks is read to its fields. */
  lemma EntryRead(m: seq<byte>, end: nat, cur: nat, reserved: byte, lifetime: nat, url: seq<byte>, bs: seq<Block>)
    requires lifetime < 65536 && |url| < 65536 && |bs| < 256 && forall i :: 0 <= i < |bs| ==> bs[i].Fits()
    requires Bytes.At(m, cur, [reserved] + (U16(lifetime) + (U16(|url|) + (url + ([|bs| as int] + Texts(bs))))))
    requires cur + 6 + |url| + |Texts(bs)| <= end < |m|
    ensures var tail := cur + 5 + |url|; var size := 6 + |url| + |Texts(bs)|;
            ParseUrl(m, end, cur) ==
            Parsed(UrlEntry(reserved, lifetime, |url|, cur + 5, |bs| as int, AuthsAt(bs, tail + 1), size, cur),
                   cur + size, m[tail := 0])
  {
    hide U16, Bytes.At, Get16, ParseAuths, Texts;
    var tail := cur + 5 + |url|;
    var after := [|bs| as int] + Texts(bs);
    Read8(m, cur, reserved, U16(lifetime) + (U16(|url|) + (url + after)));
    Read16(m, cur + 1, lifetime, U16(|url|) + (url + after));
    Read16(m, cur + 3, |url|, url + after);
    ReadBytes(m, cur + 5, url, after);
    Read8(m, tail, |bs|, Texts(bs));
    BlocksRead(m, end, tail + 1, bs, []);
    assert [] + AuthsAt(bs, tail + 1) == AuthsAt(bs, tail + 1);
  }
}
