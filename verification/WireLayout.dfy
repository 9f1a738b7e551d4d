// Where the fields of a written header, authentication block, URL entry and registration stand in a buffer, how the
// parsers put together what they find at those places, and what their stores leave alone.
module WireLayout {
  import opened Bytes
  import opened WireFormat
  import opened WireParse

  // ----- Parsed structures that stand for what was written -----

  ghost predicate AuthIs(m: seq<byte>, ab: AuthBlock, a: Auth, at: nat) {
    && a.Auth? && ab.bsd == 2 && ab.timestamp == 0xffffffff
    && ab.length == ab.blocklen == a.Size() && ab.block == at
    && ab.spistrlen == |a.spi| && ab.spistr == at + 10 && At(m, ab.spistr, a.spi)
    && ab.authstruct == at + 10 + |a.spi| && At(m, ab.authstruct, a.signature)
  }

  ghost predicate AuthsAre(m: seq<byte>, count: byte, abs: seq<AuthBlock>, a: Auth, at: nat) {
    && count == a.Count() && |abs| == count as int
    && (a.Auth? ==> AuthIs(m, abs[0], a, at))
  }

  /** The entry parsed at `at` is `u`, its URL is terminated, and its extent is that of the entry. */
  ghost predicate UrlIs(m: seq<byte>, e: UrlEntry, u: Url, at: nat) {
    && e.reserved == 0 && e.lifetime == u.lifetime
    && e.urllen == |u.url| && e.url == at + 5 && At(m, e.url, u.url) && At(m, e.url + e.urllen, [0])
    && AuthsAre(m, e.authcount, e.autharray, u.auth, at + 6 + |u.url|)
    && e.block == at && e.blocklen == u.Size()
  }

  ghost predicate RegTailIs(m: seq<byte>, p: SrvReg, r: Reg, at: nat) {
    && p.srvtypelen == |r.srvtype| && At(m, p.srvtype, r.srvtype)
    && p.scopelistlen == |r.scopes| && At(m, p.scopelist, r.scopes)
    && p.attrlistlen == |r.attrs| && At(m, p.attrlist, r.attrs)
    && AuthsAre(m, p.authcount, p.autharray, r.attrAuth, at)
  }

  ghost predicate RegIs(m: seq<byte>, p: SrvReg, r: Reg, at: nat) {
    UrlIs(m, p.urlentry, r.url, at) && RegTailIs(m, p, r, at + r.ExtOffset() - r.attrAuth.Size())
  }

  // ----- Where the fields stand -----

  lemma AuthFields(m: seq<byte>, cur: nat, a: Auth)
    requires a.Auth? && a.Fits() && At(m, cur, a.Block())
    ensures cur + a.Size() <= |m| && Get16(m, cur) == 2
            && Get16(m, cur + 2) == a.Size() && Get32(m, cur + 4) == 0xffffffff
    ensures Get16(m, cur + 8) == |a.spi| && At(m, cur + 10, a.spi) && At(m, cur + 10 + |a.spi|, a.signature)
  {
    hide U16, U32, At, Get16, Get32;
    var t4 := a.spi + a.signature;
    var t3 := U16(|a.spi|) + t4;
    var t2 := U32(0xffffffff) + t3;
    AtFits(m, cur, a.Block());
    Read16(m, cur, 2, U16(a.Size()) + t2);
    Read16(m, cur + 2, a.Size(), t2);
    Read32(m, cur + 4, 0xffffffff, t3);
    Read16(m, cur + 8, |a.spi|, t4);
    ReadBytes(m, cur + 10, a.spi, a.signature);
  }

  /** The fixed fields of an entry and its URL; `after` begins with the count byte. */
  lemma UrlFields(m: seq<byte>, cur: nat, lifetime: nat, url: seq<byte>, after: seq<byte>)
    requires lifetime < 65536 && |url| < 65536
    requires At(m, cur, [0] + (U16(lifetime) + (U16(|url|) + (url + after))))
    ensures var tail := cur + 5 + |url|;
            && tail <= |m| && m[cur] == 0 && Get16(m, cur + 1) == lifetime && Get16(m, cur + 3) == |url|
            && At(m, cur + 5, url) && At(m, tail, after)
  {
    var t2 := U16(|url|) + (url + after);
    Read8(m, cur, 0, U16(lifetime) + t2);
    Read16(m, cur + 1, lifetime, t2);
    Read16(m, cur + 3, |url|, url + after);
    ReadBytes(m, cur + 5, url, after);
  }

  /** The layout of an entry: its fields, its count byte, its authentication block, and what follows it. */
  lemma UrlLayout(m: seq<byte>, cur: nat, u: Url, rest: seq<byte>)
    requires u.Fits() && At(m, cur, u.Entry() + rest)
    ensures var tail := cur + 5 + |u.url|;
            && tail < |m| && m[cur] == 0 && Get16(m, cur + 1) == u.lifetime && Get16(m, cur + 3) == |u.url|
            && At(m, cur + 5, u.url) && m[tail] == u.auth.Count() && At(m, tail + 1, u.auth.Block() + rest)
  {
    hide U16, At, Auth.Block;
    var tail := cur + 5 + |u.url|;
    AtConcat(m, cur, u.Entry(), rest);
    UrlFields(m, cur, u.lifetime, u.url, [u.auth.Count()] + u.auth.Block());
    Read8(m, tail, u.auth.Count(), u.auth.Block());
    AtConcat(m, tail + 1, u.auth.Block(), rest);
  }

  /** How the entry parser puts its pieces together. */
  lemma UrlOut(m: seq<byte>, end: nat, cur: nat, u: Url, auths: seq<AuthBlock>) returns (e: UrlEntry)
    requires cur + 6 + |u.url| + u.auth.Size() <= end < |m|
    requires m[cur] == 0 && Get16(m, cur + 1) == u.lifetime && Get16(m, cur + 3) == |u.url|
    requires m[cur + 5 + |u.url|] == u.auth.Count()
    requires ParseAuths(m, end, cur + 6 + |u.url|, u.auth.Count(), []) == Parsed(auths, cur + u.Size(), m)
    ensures e == UrlEntry(0, u.lifetime, |u.url|, cur + 5, u.auth.Count(), auths, u.Size(), cur)
    ensures ParseUrl(m, end, cur) == Parsed(e, cur + u.Size(), m[cur + 5 + |u.url| := 0])
  {
    e := UrlEntry(0, u.lifetime, |u.url|, cur + 5, u.auth.Count(), auths, u.Size(), cur);
  }

  lemma L16Parses(m: seq<byte>, end: nat, cur: nat, s: seq<byte>, rest: seq<byte>)
    requires |s| < 65536 && At(m, cur, L16(s) + rest) && cur + 2 + |s| <= end < |m|
    ensures ParseL16(m, end, cur) == Parsed((cur + 2, |s|), cur + 2 + |s|, m)
    ensures At(m, cur + 2, s) && At(m, cur + 2 + |s|, rest)
  {
    AtConcat(m, cur, L16(s), rest);
    Read16(m, cur, |s|, s);
  }

  lemma RegTailLayout(
      m: seq<byte>, end: nat, cur: nat, srvtype: seq<byte>, scopes: seq<byte>, attrs: seq<byte>, after: seq<byte>)
    requires |srvtype| < 65536 && |scopes| < 65536 && |attrs| < 65536
    requires At(m, cur, L16(srvtype) + (L16(scopes) + (L16(attrs) + after)))
    requires cur + 6 + |srvtype| + |scopes| + |attrs| <= end < |m|
    ensures var c1 := cur + 2 + |srvtype|; var c2 := c1 + 2 + |scopes|; var c3 := c2 + 2 + |attrs|;
            && ParseL16(m, end, cur) == Parsed((cur + 2, |srvtype|), c1, m) && At(m, cur + 2, srvtype)
            && ParseL16(m, end, c1) == Parsed((c1 + 2, |scopes|), c2, m) && At(m, c1 + 2, scopes)
            && ParseL16(m, end, c2) == Parsed((c2 + 2, |attrs|), c3, m) && At(m, c2 + 2, attrs)
            && At(m, c3, after)
  {
    var t := L16(attrs) + after;
    L16Parses(m, end, cur, srvtype, L16(scopes) + t);
    L16Parses(m, end, cur + 2 + |srvtype|, scopes, t);
    L16Parses(m, end, cur + 4 + |srvtype| + |scopes|, attrs, after);
  }

  /** How the tail parser puts its pieces together. */
  lemma RegTailOut(m: seq<byte>, end: nat, cur: nat, p: SrvReg, c1: nat, c2: nat, c3: nat, c4: nat)
    requires end < |m| && ParseL16(m, end, cur) == Parsed((p.srvtype, p.srvtypelen), c1, m)
    requires ParseL16(m, end, c1) == Parsed((p.scopelist, p.scopelistlen), c2, m)
    requires ParseL16(m, end, c2) == Parsed((p.attrlist, p.attrlistlen), c3, m)
    requires c3 < |m| && m[c3] == p.authcount &&
             ParseAuths(m, end, c3 + 1, p.authcount, []) == Parsed(p.autharray, c4, m)
    ensures ParseRegTail(m, end, cur, p.urlentry) == Parsed(p, c4, m)
  {
    hide ParseL16, ParseAuths;
  }

  lemma HeaderFields(m: seq<byte>, h: Header, fn: byte, extoffset: nat)
    requires h.Fits() && extoffset < 0x1000000 && At(m, 0, h.Text(fn, extoffset))
    ensures |m| >= 14 && m[0] == 2 && m[1] == fn && Get24(m, 2) == h.length && Get16(m, 5) == h.flags
    ensures Get24(m, 7) == extoffset && Get16(m, 10) == h.xid && Get16(m, 12) == |h.lang| && At(m, 14, h.lang)
  {
    var t6 := U16(|h.lang|) + h.lang;
    var t5 := U16(h.xid) + t6;
    var t4 := U24(extoffset) + t5;
    var t3 := U16(h.flags) + t4;
    var t2 := U24(h.length) + t3;
    Read8(m, 0, 2, [fn] + t2);
    Read8(m, 1, fn, t2);
    Read24(m, 2, h.length, t3);
    Read16(m, 5, h.flags, t4);
    Read24(m, 7, extoffset, t5);
    Read16(m, 10, h.xid, t6);
    Read16(m, 12, |h.lang|, h.lang);
  }

  // ----- What stays where it is -----

  lemma AuthsKept(m: seq<byte>, q: nat, count: byte, abs: seq<AuthBlock>, a: Auth, at: nat)
    requires q < |m| && (q < at || at + a.Size() <= q) && AuthsAre(m, count, abs, a, at)
    ensures AuthsAre(m[q := 0], count, abs, a, at)
  {
    if a.Auth? {
      AtStore(m, q, 0, at + 10, a.spi);
      AtStore(m, q, 0, at + 10 + |a.spi|, a.signature);
    }
  }

  lemma AtNul(m: seq<byte>, q: nat)
    requires q < |m|
    ensures At(m[q := 0], q, [0])
  {
  }

  function Entries(us: seq<Url>): (b: seq<byte>) {
    if us == [] then [] else us[0].Entry() + Entries(us[1..])
  }

  ghost predicate AllFit(us: seq<Url>) {
    forall i :: 0 <= i < |us| ==> us[i].Fits()
  }

  /** Where the entries end. */
  function EntriesEnd(us: seq<Url>, at: nat): nat {
    if us == [] then at else EntriesEnd(us[..|us| - 1], at) + us[|us| - 1].Size()
  }

  /** Entry `i` is `us[i]`, parsed where it was written. */
  ghost predicate EntryIs(m: seq<byte>, es: seq<UrlEntry>, us: seq<Url>, at: nat, i: nat)
    requires i < |us| == |es|
  {
    UrlIs(m, es[i], us[i], EntriesEnd(us[..i], at))
  }

  /** The entries parsed from `at` on are `us`, in order and each where it was written. */
  ghost predicate UrlsAre(m: seq<byte>, es: seq<UrlEntry>, us: seq<Url>, at: nat) {
    |es| == |us| && forall i :: 0 <= i < |us| ==> EntryIs(m, es, us, at, i)
  }

  lemma UrlKept(m: seq<byte>, q: nat, e: UrlEntry, u: Url, at: nat)
    requires q < |m| && UrlIs(m, e, u, at) && at + u.Size() <= q
    ensures UrlIs(m[q := 0], e, u, at)
  {
    AtStore(m, q, 0, e.url, u.url);
    AtStore(m, q, 0, e.url + e.urllen, [0]);
    AuthsKept(m, q, e.authcount, e.autharray, u.auth, at + 6 + |u.url|);
  }

  lemma {:induction false} EntriesEndOrdered(us: seq<Url>, at: nat, i: nat)
    requires i < |us|
    ensures EntriesEnd(us[..i], at) + us[i].Size() <= EntriesEnd(us, at)
  {
    var n := |us| - 1;
    if i < n {
      EntriesEndOrdered(us[..n], at, i);
      assert us[..n][..i] == us[..i];
    }
  }

  lemma UrlsKept(m: seq<byte>, q: nat, es: seq<UrlEntry>, us: seq<Url>, at: nat)
    requires q < |m| && UrlsAre(m, es, us, at) && EntriesEnd(us, at) <= q
    ensures UrlsAre(m[q := 0], es, us, at)
  {
    var m' := m[q := 0];
    forall i | 0 <= i < |us| ensures EntryIs(m', es, us, at, i) {
      assert EntryIs(m, es, us, at, i);
      EntriesEndOrdered(us, at, i);
      UrlKept(m, q, es[i], us[i], EntriesEnd(us[..i], at));
    }
  }

  lemma UrlsAppend(m: seq<byte>, es: seq<UrlEntry>, us: seq<Url>, at: nat, e: UrlEntry, u: Url)
    requires UrlsAre(m, es, us, at) && UrlIs(m, e, u, EntriesEnd(us, at))
    ensures UrlsAre(m, es + [e], us + [u], at)
    ensures EntriesEnd(us + [u], at) == EntriesEnd(us, at) + u.Size()
  {
    var es', us' := es + [e], us + [u];
    assert us'[..|us|] == us;
    forall i | 0 <= i < |us'| ensures EntryIs(m, es', us', at, i) {
      if i < |us| {
        assert EntryIs(m, es, us, at, i);
        assert us'[..i] == us[..i];
      }
    }
  }

  lemma MoveFirst(done: seq<Url>, us: seq<Url>)
    requires us != []
    ensures done + [us[0]] + us[1..] == done + us
  {
  }

  /** The parser of entries changes nothing before them. */
  lemma {:induction false} UrlsKeepFront(m: seq<byte>, end: nat, cur: nat, n: nat, done: seq<UrlEntry>)
    requires end < |m| && cur <= |m|
    ensures var r := ParseUrls(m, end, cur, n, done); r.Parsed? ==> r.mem[..cur] == m[..cur]
    decreases n
  {
    if n > 0 {
      UrlKeepsFront(m, end, cur);
      var r := ParseUrl(m, end, cur);
      if r.Parsed? {
        if r.cur <= |m| {
          UrlsKeepFront(r.mem, end, r.cur, n - 1, done + [r.value]);
          var s := ParseUrls(r.mem, end, r.cur, n - 1, done + [r.value]);
          if s.Parsed? { assert s.mem[..r.cur][..cur] == r.mem[..r.cur][..cur]; }
        }
      }
    }
  }

  lemma UrlKeepsFront(m: seq<byte>, end: nat, cur: nat)
    requires end < |m| && cur <= |m|
    ensures var r := ParseUrl(m, end, cur); r.Parsed? ==> r.cur <= |m| && r.mem[..cur] == m[..cur]
  {
    hide ParseAuths;
    if end - cur >= 6 {
      var tail := cur + 5 + Get16(m, cur + 3);
      if tail <= end { AuthsEnd(m, end, tail + 1, m[tail]); }
    }
  }

  lemma AuthsEnd(m: seq<byte>, end: nat, cur: nat, n: nat)
    requires end < |m| && cur <= end + 1
    ensures var r := ParseAuths(m, end, cur, n, []); r.Parsed? ==> r.cur <= end + 1
  {
  }

  lemma RplyKeepsFront(m: seq<byte>, end: nat, cur: nat)
    requires end < |m| && cur + 4 <= |m|
    ensures var r := ParseSrvRply(m, end, cur); r.Parsed? ==> r.mem[..cur] == m[..cur]
  {
    hide ParseUrls;
    if end - cur >= 4 {
      UrlsKeepFront(m, end, cur + 4, Get16(m, cur + 2), []);
      var r := ParseUrls(m, end, cur + 4, Get16(m, cur + 2), []);
      if r.Parsed? { assert r.mem[..cur + 4][..cur] == m[..cur + 4][..cur]; }
    }
  }

  lemma AtFront(m: seq<byte>, m': seq<byte>, n: nat, p: nat, s: seq<byte>)
    requires n <= |m| == |m'| && m[..n] == m'[..n] && p + |s| <= n && At(m, p, s)
    ensures At(m', p, s)
  {
    forall k | 0 <= k < |s| ensures SameAt(m', p, s, k) {
      AtIndex(m, p, s, k);
      assert m'[..n][p + k] == m[..n][p + k];
    }
  }
}
