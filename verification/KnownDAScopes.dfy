// Scope questions put to the DA cache: which agent serves a scope list, and which scopes are known at all.
module KnownDAScopes {
  import opened Bytes
  import opened LinkedList
  import opened StringCompare
  import opened StringList
  import opened StringUnion
  import opened KnownDA

  // ----- KnownDAListFind -----

  /** SLPSubsetStringList() != 0. */
  predicate SubsetTest(list: seq<byte>, sublist: seq<byte>) {
    sublist != [] && list != [] && CountIn(Items(list), sublist) == Commas(sublist) + 1
  }

  function FirstPassing(c: seq<Advert>, scopes: seq<byte>): (k: nat)
    ensures k <= |c| && (k < |c| ==> SubsetTest(c[k].scopes, scopes))
    ensures forall i :: 0 <= i < k ==> !SubsetTest(c[i].scopes, scopes)
  {
    hide CountIn, Items, Commas;
    if c == [] || SubsetTest(c[0].scopes, scopes) then 0 else 1 + FirstPassing(c[1..], scopes)
  }

  /** KnownDAListFind without the security-parameter comparison, which is compiled in on request only. */
  method ListFind(cache: Cache, scopelist: seq<byte>) returns (daaddr: Option<Peer>)
    requires cache.Valid()
    ensures var c := cache.list.Values(); var k := FirstPassing(c, scopelist);
            daaddr == if k < |c| then Some(c[k].peer) else None
  {
    hide FirstPassing, CountIn, Items, DatabaseHandle.Valid, SLPList.Valid, Distinct;
    ghost var c := cache.list.Values();
    var dh := new DatabaseHandle(cache.list);
    while true
      invariant dh.Valid() && dh.database == cache.list && fresh(dh) && dh.pos <= FirstPassing(c, scopelist)
      decreases |c| - dh.pos
    {
      var entry := dh.Enum();
      if entry == null { return None; }
      assert entry.val == c[dh.pos - 1];
      var r := SubsetStringList(entry.val.scopes, scopelist);
      if r != 0 { return Some(entry.val.peer); }
    }
  }

  /** Every scope of the request is one of the agent's. */
  ghost predicate Covers(a: Advert, scopes: seq<byte>) {
    Canons(Items(scopes)) <= Canons(Items(a.scopes))
  }

  /**
   * Main result: when no list repeats a scope, the agent found is the first one in the cache whose scopes
   * cover the request, and none is found only when there is no such agent.
   */
  lemma FindsFirstCovering(c: seq<Advert>, scopes: seq<byte>)
    requires scopes != [] && !EndsInComma(scopes) && NoDuplicates(Items(scopes))
    requires forall i :: 0 <= i < |c| ==> NoDuplicates(Items(c[i].scopes))
    ensures var k := FirstPassing(c, scopes);
            && (k < |c| ==> Covers(c[k], scopes))
            && (forall i :: 0 <= i < k ==> !Covers(c[i], scopes))
  {
    hide CanonOf, CountIn, Commas, Items, Canons, NoDuplicates, FirstPassing;
    forall i | 0 <= i < |c| ensures SubsetTest(c[i].scopes, scopes) <==> Covers(c[i], scopes) {
      if c[i].scopes == [] {
        NothingCovers(scopes);
      } else {
        SubsetTestExact(c[i].scopes, scopes);
      }
    }
  }

  lemma NothingCovers(scopes: seq<byte>)
    requires scopes != []
    ensures !(Canons(Items(scopes)) <= Canons(Items([])))
  {
    hide CanonOf;
    assert CanonOf(Items(scopes)[0]) in Canons(Items(scopes));
    assert |Items([])| == 0;
  }

  // ----- KnownDAGetScopes -----

  const SCOPE_LIST_CHUNK_SIZE := 64

  /** xrealloc of a scope buffer to a larger size. */
  method Realloc(buf: array<byte>, size: nat) returns (out: array<byte>)
    requires buf.Length <= size
    ensures fresh(out) && out.Length == size && out[..buf.Length] == buf[..]
  {
    out := new byte[size](_ => 0);
    forall k | 0 <= k < buf.Length { out[k] := buf[k]; }
  }

  /**
   * One round of the grow-and-retry loop: the union of the scopes so far with `list`, in a buffer that is made
   * larger when it does not fit. The second attempt always succeeds.
   */
  method AddScopes(buf: array<byte>, len: nat, list: seq<byte>, before: byte, chunk: nat)
    returns (out: array<byte>, newlen: nat, retries: nat)
    requires len <= buf.Length
    modifies buf
    ensures (out == buf || fresh(out)) && newlen <= out.Length && retries <= 1
    ensures Union(old(buf[..len]), list, before, out.Length) == (true, out[..newlen])
  {
    hide Union, UnionFrom;
    ghost var scopes := buf[..len];
    var ok;
    out, retries := buf, 0;
    if |scopes| + |list| + 1 <= out.Length { UnionNeverFails(scopes, list, before, out.Length); }
    ok, newlen := UnionStringList(out, len, list, before, out, out.Length);
    while !ok
      invariant len <= out.Length && (out == buf || fresh(out)) && out[..len] == scopes && retries <= 1
      invariant ok ==> newlen <= out.Length && Union(scopes, list, before, out.Length) == (true, out[..newlen])
      invariant !ok ==> retries == 0 && newlen == len + |list| + 1 > out.Length
      decreases !ok
    {
      newlen := newlen + chunk;
      out := Realloc(out, newlen);
      retries := retries + 1;
      assert out[..len] == scopes;
      UnionNeverFails(scopes, list, before, newlen);
      ok, newlen := UnionStringList(out, len, list, before, out, newlen);
    }
  }

  predicate Clean(list: seq<byte>) {
    NoBackslash(list) && NoEmptyItems(list)
  }

  /** The scopes of all agents up to SLPCompareString. */
  ghost function AllScopes(c: seq<Advert>): set<Canon> {
    if c == [] then {} else AllScopes(c[..|c| - 1]) + Canons(Items(c[|c| - 1].scopes))
  }

  lemma {:induction false} AllScopesCover(c: seq<Advert>, k: nat)
    requires k < |c|
    ensures Canons(Items(c[k].scopes)) <= AllScopes(c)
  {
    if k < |c| - 1 { AllScopesCover(c[..|c| - 1], k); }
  }

  ghost predicate AllClean(c: seq<Advert>) {
    forall i :: 0 <= i < |c| ==> Clean(c[i].scopes)
  }

  /**
   * KnownDAGetScopes after discovery: a NUL-terminated list, which has exactly the scopes of every cached agent
   * and of net.slp.useScopes when these have no backslashes and no empty items. The byte before the scopes of an
   * agent is the low octet of their length in its message; `before` is the byte before those of the property.
   */
  method GetScopes(cache: Cache, useScopes: seq<byte>, before: byte) returns (scopelist: array<byte>, len: nat)
    requires cache.Valid()
    ensures len < scopelist.Length && scopelist[len] == 0
    ensures AllClean(cache.list.Values()) && Clean(useScopes) ==>
              Canons(Items(scopelist[..len])) == AllScopes(cache.list.Values()) + Canons(Items(useScopes))
  {
    hide CanonOf, Canons, Items, Clean, Union, AllScopes, DatabaseHandle.Valid, SLPList.Valid, SLPList.Values, Distinct;
    ghost var c := cache.list.Values();
    ghost var clean := AllClean(c);
    scopelist, len := new byte[SCOPE_LIST_CHUNK_SIZE], 0;
    var dh := new DatabaseHandle(cache.list);
    NoScopes(scopelist[..0], c);
    while true
      invariant dh.Valid() && dh.database == cache.list && fresh(dh) && fresh(scopelist) && dh.pos <= |c|
      invariant len <= scopelist.Length && (clean ==> !EndsInComma(scopelist[..len]))
      invariant clean ==> Canons(Items(scopelist[..len])) == AllScopes(c[..dh.pos])
      decreases |c| - dh.pos
    {
      var entry := dh.Enum();
      if entry == null { break; }
      AllScopesStep(c, dh.pos - 1);
      assert entry.val == c[dh.pos - 1];
      scopelist, len := MoreScopes(scopelist, len, entry.val.scopes, Lo(|entry.val.scopes|), SCOPE_LIST_CHUNK_SIZE);
    }
    assert c[..dh.pos] == c;
    scopelist, len := MoreScopes(scopelist, len, useScopes, before, 0);
    scopelist := Terminated(scopelist, len);
  }

  /** The list with a NUL after it, in a larger buffer if it fills this one. */
  method Terminated(buf: array<byte>, len: nat) returns (scopelist: array<byte>)
    requires len <= buf.Length
    modifies buf
    ensures len < scopelist.Length && scopelist[..len] == old(buf[..len]) && scopelist[len] == 0
  {
    if len == 0 { return new byte[1](_ => 0); }
    ghost var scopes := buf[..len];
    scopelist := buf;
    if len == buf.Length { scopelist := Realloc(buf, len + 1); }
    assert scopelist[..len] == scopes;
    scopelist[len] := 0;
    assert scopelist[..len] == scopes;
  }

  lemma AllScopesStep(c: seq<Advert>, n: nat)
    requires n < |c|
    ensures AllScopes(c[..n + 1]) == AllScopes(c[..n]) + Canons(Items(c[n].scopes))
  {
    hide Canons, Items;
    assert c[..n + 1][..n] == c[..n];
  }

  lemma NoScopes(list: seq<byte>, c: seq<Advert>)
    requires list == []
    ensures Canons(Items(list)) == AllScopes(c[..0]) && !EndsInComma(list)
  {
  }

  /** AddScopes for clean lists, in terms of the scopes. */
  method MoreScopes(buf: array<byte>, len: nat, list: seq<byte>, before: byte, chunk: nat)
    returns (out: array<byte>, newlen: nat)
    requires len <= buf.Length
    modifies buf
    ensures (out == buf || fresh(out)) && newlen <= out.Length
    ensures Clean(list) && !EndsInComma(old(buf[..len])) ==>
              && !EndsInComma(out[..newlen])
              && Canons(Items(out[..newlen])) == Canons(Items(old(buf[..len]))) + Canons(Items(list))
  {
    ghost var scopes := buf[..len];
    var retries;
    out, newlen, retries := AddScopes(buf, len, list, before, chunk);
    if Clean(list) && !EndsInComma(scopes) { UnionIsUnion(scopes, list, before, out.Length); }
  }
}
