// The byte layout of SLPv2 messages, of their headers, URL entries, authentication blocks and extensions
// (sections 4.3, 8.2, 8.3, 9.1 and 9.2 of RFC 2608).
module WireFormat {
  import opened Bytes

  const SRVRPLY := 2
  const SRVREG := 3
  const PARSE_ERROR := 2
  const OPTION_NOT_UNDERSTOOD := 12
  const PID_EXTENSION := 0x4001
  const PID_EXTENSION_EXP := 0x9799

  // ----- Big-endian integers: the TO_UINT and AS_UINT macros -----

  function U16(v: nat): (b: seq<byte>)
    ensures |b| == 2
  {
    [Lo(Hi(v)), Lo(v)]
  }

  function U24(v: nat): (b: seq<byte>)
    ensures |b| == 3
  {
    [Lo(Hi(Hi(v))), Lo(Hi(v)), Lo(v)]
  }

  function U32(v: nat): (b: seq<byte>)
    ensures |b| == 4
  {
    [Lo(Hi(Hi(Hi(v)))), Lo(Hi(Hi(v))), Lo(Hi(v)), Lo(v)]
  }

  /** Network order: the first octet is the most significant. */
  lemma NetworkOrder(v: nat)
    ensures var b := U16(v); v < 0x10000 ==> b[0] as int * 256 + b[1] as int == v
    ensures var b := U24(v); v < 0x1000000 ==> b[0] as int * 65536 + b[1] as int * 256 + b[2] as int == v
    ensures var b := U32(v);
            v < 0x1_0000_0000 ==>
              b[0] as int * 16777216 + b[1] as int * 65536 + b[2] as int * 256 + b[3] as int == v
  {
    hide Hi, Lo;
    HiLoSum(v);
    HiLoSum(Hi(v));
    HiLoSum(Hi(Hi(v)));
    HiLoSum(Hi(Hi(Hi(v))));
  }

  function Get16(m: seq<byte>, p: nat): nat
    requires p + 2 <= |m|
  {
    m[p] as int * 256 + m[p + 1] as int
  }

  function Get24(m: seq<byte>, p: nat): nat
    requires p + 3 <= |m|
  {
    m[p] as int * 65536 + m[p + 1] as int * 256 + m[p + 2] as int
  }

  function Get32(m: seq<byte>, p: nat): nat
    requires p + 4 <= |m|
  {
    m[p] as int * 16777216 + m[p + 1] as int * 65536 + m[p + 2] as int * 256 + m[p + 3] as int
  }

  lemma Read16(m: seq<byte>, p: nat, v: nat, rest: seq<byte>)
    requires At(m, p, U16(v) + rest) && v < 65536
    ensures p + 2 <= |m| && Get16(m, p) == v && At(m, p + 2, rest)
  {
    hide Hi, Lo, At;
    AtConcat(m, p, U16(v), rest);
    AtFits(m, p, U16(v));
    AtIndex(m, p, U16(v), 0);
    AtIndex(m, p, U16(v), 1);
    HiLoSum(v);
    HiLoSum(Hi(v));
  }

  lemma Read24(m: seq<byte>, p: nat, v: nat, rest: seq<byte>)
    requires At(m, p, U24(v) + rest) && v < 0x1000000
    ensures p + 3 <= |m| && Get24(m, p) == v && At(m, p + 3, rest)
  {
    hide Hi, Lo, At;
    AtConcat(m, p, U24(v), rest);
    AtFits(m, p, U24(v));
    AtIndex(m, p, U24(v), 0);
    AtIndex(m, p, U24(v), 1);
    AtIndex(m, p, U24(v), 2);
    HiLoSum(v);
    HiLoSum(Hi(v));
    HiLoSum(Hi(Hi(v)));
  }

  lemma Read32(m: seq<byte>, p: nat, v: nat, rest: seq<byte>)
    requires At(m, p, U32(v) + rest) && v < 0x1_0000_0000
    ensures p + 4 <= |m| && Get32(m, p) == v && At(m, p + 4, rest)
  {
    hide Hi, Lo, At;
    AtConcat(m, p, U32(v), rest);
    AtFits(m, p, U32(v));
    AtIndex(m, p, U32(v), 0);
    AtIndex(m, p, U32(v), 1);
    AtIndex(m, p, U32(v), 2);
    AtIndex(m, p, U32(v), 3);
    HiLoSum(v);
    HiLoSum(Hi(v));
    HiLoSum(Hi(Hi(v)));
    HiLoSum(Hi(Hi(Hi(v))));
  }

  lemma AtFits(m: seq<byte>, p: nat, t: seq<byte>)
    requires At(m, p, t)
    ensures p + |t| <= |m|
  {
  }

  lemma ReadBytes(m: seq<byte>, p: nat, s: seq<byte>, rest: seq<byte>)
    requires At(m, p, s + rest)
    ensures At(m, p, s) && At(m, p + |s|, rest)
  {
    AtConcat(m, p, s, rest);
  }

  lemma Read8(m: seq<byte>, p: nat, b: byte, rest: seq<byte>)
    requires At(m, p, [b] + rest)
    ensures p + 1 <= |m| && m[p] == b && At(m, p + 1, rest)
  {
    AtConcat(m, p, [b], rest);
    AtIndex(m, p, [b], 0);
  }

  /** A store outside a text does not disturb it. */
  lemma AtStore(m: seq<byte>, q: nat, b: byte, p: nat, t: seq<byte>)
    requires q < |m| && At(m, p, t) && (q < p || p + |t| <= q)
    ensures At(m[q := b], p, t)
  {
    var m' := m[q := b];
    forall k | 0 <= k < |t| ensures SameAt(m', p, t, k) { AtIndex(m, p, t, k); }
  }

  // ----- What the user agent writes -----

  function L16(s: seq<byte>): (b: seq<byte>) {
    U16(|s|) + s
  }

  /** The inputs of one authentication block: the SPI string and the opaque signature. */
  datatype Auth = NoAuth | Auth(spi: seq<byte>, signature: seq<byte>)
  {
    function Count(): byte { if NoAuth? then 0 else 1 }

    function Size(): nat { if NoAuth? then 0 else |spi| + |signature| + 10 }

    predicate Fits() { Size() < 65536 }

    /** The layout SLPAuthSignDigest gives the block. */
    function Block(): (b: seq<byte>)
      ensures |b| == Size()
    {
      if NoAuth? then [] else U16(2) + (U16(Size()) + (U32(0xffffffff) + (U16(|spi|) + (spi + signature))))
    }
  }

  /** One URL entry as slp_PutURLEntry writes it. */
  datatype Url = Url(lifetime: nat, url: seq<byte>, auth: Auth)
  {
    predicate Fits() { lifetime < 65536 && |url| < 65536 && auth.Fits() }

    function Size(): nat { 6 + |url| + auth.Size() }

    function Entry(): (b: seq<byte>)
      ensures |b| == Size()
    {
      [0] + (U16(lifetime) + (U16(|url|) + (url + ([auth.Count()] + auth.Block()))))
    }
  }

  /** The parameters of a registration; `pid` is the Watch Registration PID extension, if it is sent. */
  datatype Reg = Reg(url: Url, srvtype: seq<byte>, scopes: seq<byte>, attrs: seq<byte>, attrAuth: Auth,
                     pid: Option<nat>)
  {
    predicate Fits() {
      && url.Fits() && attrAuth.Fits() && |srvtype| < 65536 && |scopes| < 65536 && |attrs| < 65536
      && (pid.Some? ==> pid.value < 0x1_0000_0000)
    }

    function Extension(): (b: seq<byte>) {
      if pid.None? then [] else U16(PID_EXTENSION_EXP) + (U24(0) + U32(pid.value))
    }

    /** The offset of the extension within the body. */
    function ExtOffset(): nat {
      url.Size() + 2 + |srvtype| + 2 + |scopes| + 2 + |attrs| + 1 + attrAuth.Size()
    }

    function Body(): (b: seq<byte>)
      ensures |b| == ExtOffset() + |Extension()|
    {
      url.Entry() + (L16(srvtype) + (L16(scopes) + (L16(attrs) +
       ([attrAuth.Count()] + (attrAuth.Block() + Extension())))))
    }
  }

  /** A version 2 header. The parser ignores the length field. */
  datatype Header = Header(length: nat, flags: nat, xid: nat, lang: seq<byte>)
  {
    /** Every field fits its octets. */
    predicate Fits() { length < 0x1000000 && flags < 65536 && xid < 65536 && |lang| < 65536 }

    /** The reserved flags are zero, too. */
    predicate Valid() { Fits() && flags % 0x2000 == 0 }

    function Size(): nat { 14 + |lang| }

    function Text(function_id: byte, extoffset: nat): (b: seq<byte>)
      ensures |b| == Size()
    {
      [2] + ([function_id] + (U24(length) + (U16(flags) + (U24(extoffset) + (U16(xid) + (U16(|lang|) + lang))))))
    }
  }
}
