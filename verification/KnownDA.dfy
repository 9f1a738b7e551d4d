// The cache of known directory agents: a database of advertisements without two for the same URL.
module KnownDA {
  import opened Bytes
  import opened LinkedList
  import opened StringCompare

  const AF_INET := 2
  const AF_INET6 := 10

  /** A socket address: family, host address, and the rest (port, scope id, padding). */
  datatype Peer = Peer(family: nat, addr: seq<byte>, rest: seq<byte>)

  /** SLPNetCompareAddrs() == 0: for IP addresses the port does not matter. */
  predicate SameAddr(a: Peer, b: Peer) {
    a.family == b.family && a.addr == b.addr && (a.family == AF_INET || a.family == AF_INET6 || a.rest == b.rest)
  }

  /** The parts of a DAAdvert message that the cache uses. */
  datatype Advert = Advert(url: seq<byte>, scopes: seq<byte>, peer: Peer)

  // ----- The cache as a sequence -----

  function FirstUrl(c: seq<Advert>, url: seq<byte>): (k: nat)
    ensures k <= |c| && (k < |c| ==> Same(c[k].url, url))
    ensures forall i :: 0 <= i < k ==> !Same(c[i].url, url)
  {
    hide CanonOf;
    if c == [] || Same(c[0].url, url) then 0 else 1 + FirstUrl(c[1..], url)
  }

  function FirstAddr(c: seq<Advert>, addr: Peer): (k: nat)
    ensures k <= |c| && (k < |c| ==> SameAddr(addr, c[k].peer))
    ensures forall i :: 0 <= i < k ==> !SameAddr(addr, c[i].peer)
  {
    if c == [] || SameAddr(addr, c[0].peer) then 0 else 1 + FirstAddr(c[1..], addr)
  }

  datatype Op = Add(advert: Advert) | Bad(addr: Peer) | ClearAll

  function Step(c: seq<Advert>, op: Op): seq<Advert> {
    match op
    case Add(a) => Without(c, FirstUrl(c, a.url)) + [a]
    case Bad(addr) => Without(c, FirstAddr(c, addr))
    case ClearAll => []
  }

  /** The cache after a run of operations from the empty cache. */
  function Run(ops: seq<Op>): seq<Advert> {
    if ops == [] then [] else Step(Run(ops[..|ops| - 1]), ops[|ops| - 1])
  }

  ghost predicate UniqueUrls(c: seq<Advert>) {
    forall i, j :: 0 <= i < j < |c| ==> !Same(c[i].url, c[j].url)
  }

  lemma StepKeepsUnique(c: seq<Advert>, op: Op)
    requires UniqueUrls(c)
    ensures UniqueUrls(Step(c, op))
  {
    hide CanonOf;
    match op
    case Add(a) => WithoutFirst(c, a.url);
    case Bad(addr) => WithoutUnique(c, FirstAddr(c, addr));
    case ClearAll =>
  }

  lemma WithoutUnique(c: seq<Advert>, k: nat)
    requires UniqueUrls(c)
    ensures UniqueUrls(Without(c, k))
  {
    hide CanonOf;
    var d := Without(c, k);
    forall i, j | 0 <= i < j < |d| ensures !Same(d[i].url, d[j].url) {
      var i', j' := if k < |c| && i >= k then i + 1 else i, if k < |c| && j >= k then j + 1 else j;
      assert d[i] == c[i'] && d[j] == c[j'];
    }
  }

  /** In a cache without duplicates, taking out the first match leaves no match. */
  lemma WithoutFirst(c: seq<Advert>, url: seq<byte>)
    requires UniqueUrls(c)
    ensures UniqueUrls(Without(c, FirstUrl(c, url)))
    ensures forall i :: 0 <= i < |Without(c, FirstUrl(c, url))| ==> !Same(Without(c, FirstUrl(c, url))[i].url, url)
  {
    hide CanonOf;
    var k := FirstUrl(c, url);
    var d := Without(c, k);
    WithoutUnique(c, k);
    forall i | 0 <= i < |d| ensures !Same(d[i].url, url) {
      if k < |c| && i >= k {
        assert d[i] == c[i + 1] && !Same(c[k].url, c[i + 1].url);
      } else {
        assert d[i] == c[i];
      }
    }
  }

  /** Main result: over every run, no two cached advertisements have URLs that compare equal. */
  lemma {:induction false} RunUnique(ops: seq<Op>)
    ensures UniqueUrls(Run(ops))
  {
    if ops != [] {
      RunUnique(ops[..|ops| - 1]);
      StepKeepsUnique(Run(ops[..|ops| - 1]), ops[|ops| - 1]);
    }
  }

  /**
   * A bad IP address takes out the first entry from the same host, whatever its port, and nothing if there is none. Of
   * another family of addresses, all of the address counts.
   */
  lemma BadTakesHost(c: seq<Advert>, addr: Peer, k: nat)
    requires k <= |c| && (k < |c| ==> SameHost(c[k].peer, addr))
    requires forall i :: 0 <= i < k ==> !SameHost(c[i].peer, addr)
    ensures Step(c, Bad(addr)) == if k < |c| then c[..k] + c[k + 1..] else c
  {
    if k < |c| { assert SameAddr(addr, c[k].peer); }
    assert FirstAddr(c, addr) == k;
  }

  /** An advertisement comes last, and takes the place of the first one whose URL compares equal, if there is one. */
  lemma AddComesLast(c: seq<Advert>, a: Advert, k: nat)
    requires k <= |c| && (k < |c| ==> Same(c[k].url, a.url)) && forall i :: 0 <= i < k ==> !Same(c[i].url, a.url)
    ensures Step(c, Op.Add(a)) == (if k < |c| then c[..k] + c[k + 1..] else c) + [a]
  {
    hide CanonOf;
    assert FirstUrl(c, a.url) == k;
  }

  predicate SameHost(a: Peer, b: Peer) {
    if b.family == 2 || b.family == 10 then (a.family, a.addr) == (b.family, b.addr) else a == b
  }

  function Lookup(c: seq<Advert>, url: seq<byte>): Option<Advert> {
    var k := FirstUrl(c, url);
    if k < |c| then Some(c[k]) else None
  }

  /**
   * The last advertisement for a URL that has not been removed since: a clearing removes every entry, a bad
   * address removes the one entry it hits.
   */
  function LastAdvert(ops: seq<Op>, url: seq<byte>): Option<Advert> {
    if ops == [] then None else
      var before, op := ops[..|ops| - 1], ops[|ops| - 1];
      match op
      case Add(a) => if Same(a.url, url) then Some(a) else LastAdvert(before, url)
      case Bad(addr) =>
        var c := Run(before);
        var k := FirstAddr(c, addr);
        if k < |c| && Same(c[k].url, url) then None else LastAdvert(before, url)
      case ClearAll => None
  }

  lemma LookupIs(c: seq<Advert>, url: seq<byte>, k: nat)
    requires k <= |c| && (k < |c| ==> Same(c[k].url, url)) && forall i :: 0 <= i < k ==> !Same(c[i].url, url)
    ensures FirstUrl(c, url) == k
  {
    hide CanonOf;
  }

  lemma LookupWithout(c: seq<Advert>, k: nat, url: seq<byte>)
    requires UniqueUrls(c)
    ensures Lookup(Without(c, k), url) == if k < |c| && Same(c[k].url, url) then None else Lookup(c, url)
  {
    hide CanonOf, FirstUrl, Without;
    var d, f := Without(c, k), FirstUrl(c, url);
    WithoutNone(c, k);
    if k < |c| {
      WithoutAt(c, k);
      if f == k {
        assert forall i :: k < i < |c| ==> !Same(c[k].url, c[i].url);
        LookupIs(d, url, |d|);
      } else {
        assert f < |c| ==> !Same(c[k].url, url) by {
          assert f < k ==> !Same(c[f].url, c[k].url);
        }
        LookupIs(d, url, if f > k then f - 1 else f);
      }
    }
  }

  lemma LookupAppend(c: seq<Advert>, a: Advert, url: seq<byte>)
    requires forall i :: 0 <= i < |c| ==> !Same(c[i].url, a.url)
    ensures Lookup(c + [a], url) == if Same(a.url, url) then Some(a) else Lookup(c, url)
  {
    hide CanonOf;
    var f := FirstUrl(c, url);
    assert forall i :: 0 <= i < |c| ==> (c + [a])[i] == c[i];
    if Same(a.url, url) {
      LookupIs(c + [a], url, |c|);
    } else {
      LookupIs(c + [a], url, if f < |c| then f else |c| + 1);
    }
  }

  /** Main result: over every run the cache holds, for each URL, the last advertisement that was not removed. */
  lemma {:induction false} RunHoldsLast(ops: seq<Op>, url: seq<byte>)
    ensures Lookup(Run(ops), url) == LastAdvert(ops, url)
  {
    hide CanonOf, Lookup;
    if ops != [] {
      var before, op := ops[..|ops| - 1], ops[|ops| - 1];
      var c := Run(before);
      RunHoldsLast(before, url);
      RunUnique(before);
      match op
      case Add(a) =>
        var k := FirstUrl(c, a.url);
        WithoutFirst(c, a.url);
        LookupWithout(c, k, url);
        LookupAppend(Without(c, k), a, url);
        assert k < |c| && Same(c[k].url, url) ==> Same(a.url, url);
      case Bad(addr) => LookupWithout(c, FirstAddr(c, addr), url);
      case ClearAll => LookupNothing(url);
    } else {
      LookupNothing(url);
    }
  }

  lemma LookupNothing(url: seq<byte>)
    ensures Lookup([], url) == None
  {
  }

  // ----- The database and its cursor handles -----

  /** A database handle: the list and a cursor, which stands before item `pos`. */
  class DatabaseHandle {
    const database: SLPList<Advert>
    var current: ListItem?<Advert>
    ghost var pos: nat

    ghost predicate Valid()
      reads this, database, database.nodes
    {
      && database.Valid() && pos <= |database.nodes|
      && current == (if pos < |database.nodes| then database.nodes[pos] else null)
    }

    /** SLPDatabaseOpen. */
    constructor (db: SLPList<Advert>)
      requires db.Valid()
      ensures Valid() && database == db && pos == 0
    {
      database := db;
      current := db.head;
      pos := 0;
    }

    /** SLPDatabaseEnum. */
    method Enum() returns (entry: ListItem?<Advert>)
      requires Valid()
      modifies this
      ensures Valid() && old(pos) <= |database.nodes|
      ensures entry == null <==> old(pos) == |database.nodes|
      ensures entry == null ==> pos == old(pos)
      ensures entry != null ==> pos == old(pos) + 1 && entry == database.nodes[old(pos)]
    {
      entry := current;
      assert pos < |database.nodes| ==> database.Linked(pos);
      if entry != null {
        current := entry.next;
        pos := pos + 1;
      }
    }
  }

  /** G_KnownDACache, with the entries that SLPDatabaseEntryDestroy has freed. */
  class Cache {
    const list: SLPList<Advert>
    ghost var freed: seq<ListItem<Advert>>

    /** The list is well formed, and no entry is on it twice, freed twice, or freed while on it. */
    ghost predicate Valid()
      reads this, list, list.nodes
    {
      list.Valid() && Distinct(freed + list.nodes)
    }

    constructor ()
      ensures Valid() && list.nodes == [] && freed == [] && fresh(list)
    {
      list := new SLPList<Advert>();
      freed := [];
    }

    /** SLPDatabaseRemove of the entry the handle has just enumerated. */
    method Remove(dh: DatabaseHandle, entry: ListItem<Advert>)
      requires Valid() && dh.Valid() && dh.database == list && dh.pos > 0 && list.nodes[dh.pos - 1] == entry
      modifies this, list, list.nodes, dh
      ensures Valid() && dh.Valid() && dh.pos == old(dh.pos) - 1
      ensures list.nodes == Without(old(list.nodes), dh.pos) && freed == old(freed) + [entry]
      ensures list.Values() == Without(old(list.Values()), dh.pos)
    {
      hide Distinct, SLPList.Valid, SLPList.Values, Records;
      ghost var k := dh.pos - 1;
      list.Unlink(entry, k);
      freed := freed + [entry];
      dh.pos := k;
      MoveDistinct(old(freed), old(list.nodes), k);
    }

    /** KnownDAAdd: replaces the entry with the same URL, if there is one, and appends. */
    method Add(a: Advert)
      requires Valid()
      modifies this, list, list.nodes
      ensures Valid() && list.Values() == Step(old(list.Values()), Op.Add(a))
      ensures |list.nodes| > 0 && fresh(list.nodes[|list.nodes| - 1])
      ensures var k := FirstUrl(old(list.Values()), a.url);
        list.nodes[..|list.nodes| - 1] == Without(old(list.nodes), k) && freed == old(freed) + Taken(old(list.nodes), k)
    {
      hide CanonOf, FirstUrl, DatabaseHandle.Valid, SLPList.Valid;
      ghost var c := list.Values();
      var dh := new DatabaseHandle(list);
      RemoveUrl(dh, a.url);
      ghost var kept := list.nodes;
      var added := new ListItem(a);
      list.LinkTail(added);
      AppendDistinct(freed + kept, added);
      assert freed + list.nodes == freed + kept + [added];
      assert list.nodes[..|kept|] == kept;
    }

    /** The loop of KnownDAAdd over the entries. */
    method RemoveUrl(dh: DatabaseHandle, url: seq<byte>)
      requires Valid() && dh.Valid() && dh.database == list && dh.pos == 0
      modifies this, list, list.nodes, dh
      ensures Valid() && list.Values() == Without(old(list.Values()), FirstUrl(old(list.Values()), url))
      ensures var k := FirstUrl(old(list.Values()), url);
        list.nodes == Without(old(list.nodes), k) && freed == old(freed) + Taken(old(list.nodes), k)
    {
      hide CanonOf, FirstUrl, DatabaseHandle.Valid, SLPList.Valid, Cache.Valid, Without, Taken;
      ghost var c := list.Values();
      NothingTaken(list.nodes);
      WithoutNone(c, |c|);
      while true
        invariant Valid() && dh.Valid() && dh.database == list && dh.pos <= FirstUrl(c, url)
        invariant list.nodes == old(list.nodes) && freed == old(freed)
        decreases |list.nodes| - dh.pos
      {
        var entry := dh.Enum();
        if entry == null { break; }
        assert entry.val == c[dh.pos - 1];
        var cmp := CompareString(entry.val.url, url);
        if cmp == 0 {
          OneTaken(list.nodes, dh.pos - 1);
          Remove(dh, entry);
          break;
        }
      }
    }

    /** KnownDABadDA: removes the first entry with the address. */
    method BadDA(addr: Peer)
      requires Valid()
      modifies this, list, list.nodes
      ensures Valid() && list.Values() == Step(old(list.Values()), Bad(addr))
      ensures var k := FirstAddr(old(list.Values()), addr);
        list.nodes == Without(old(list.nodes), k) && freed == old(freed) + Taken(old(list.nodes), k)
    {
      hide SameAddr, FirstAddr, DatabaseHandle.Valid, SLPList.Valid, Distinct;
      ghost var c := list.Values();
      var dh := new DatabaseHandle(list);
      while true
        invariant Valid() && dh.Valid() && dh.database == list && fresh(dh) && dh.pos <= FirstAddr(c, addr)
        invariant list.nodes == old(list.nodes) && freed == old(freed)
        decreases |list.nodes| - dh.pos
      {
        var entry := dh.Enum();
        if entry == null { break; }
        assert entry.val == c[dh.pos - 1];
        if SameAddr(addr, entry.val.peer) {
          Remove(dh, entry);
          break;
        }
      }
    }

    /** The enumerate-and-remove loop of KnownDAFreeAll: frees every entry once, in order. */
    method FreeAll()
      requires Valid()
      modifies this, list, list.nodes
      ensures Valid() && list.nodes == [] && freed == old(freed + list.nodes)
    {
      hide DatabaseHandle.Valid, SLPList.Valid, Distinct, Without;
      var dh := new DatabaseHandle(list);
      ghost var nodes, n := list.nodes, 0;
      while true
        invariant Valid() && dh.Valid() && dh.database == list && fresh(dh) && dh.pos == 0
        invariant n <= |nodes| && list.nodes == nodes[n..] && freed == old(freed) + nodes[..n]
        decreases |nodes| - n
      {
        var entry := dh.Enum();
        if entry == null { break; }
        NextItem(old(freed), nodes, n);
        Remove(dh, entry);
        n := n + 1;
      }
    }
  }

  lemma NothingTaken<T>(s: seq<T>)
    ensures Without(s, |s|) == s && Taken(s, |s|) == []
  {
  }

  lemma OneTaken<T>(s: seq<T>, k: nat)
    requires k < |s|
    ensures Taken(s, k) == [s[k]]
  {
  }

  lemma NextItem<T>(before: seq<T>, s: seq<T>, n: nat)
    requires n < |s|
    ensures Without(s[n..], 0) == s[n + 1..] && before + s[..n] + [s[n]] == before + s[..n + 1]
    ensures forall x :: x in s[n..] ==> x in s
  {
  }

  lemma AppendDistinct<T>(s: seq<T>, x: T)
    requires Distinct(s) && x !in s
    ensures Distinct(s + [x])
  {
  }

  lemma MoveDistinct<T>(freed: seq<T>, nodes: seq<T>, k: nat)
    requires k < |nodes| && Distinct(freed + nodes)
    ensures Distinct(freed + [nodes[k]] + Without(nodes, k))
  {
    var was, now := freed + nodes, freed + [nodes[k]] + Without(nodes, k);
    forall i | 0 <= i < |now| ensures now[i] == was[Origin(|freed|, k, i)] { OriginIs(freed, nodes, k, i); }
    forall i, j | 0 <= i < j < |now| ensures now[i] != now[j] {
      var i', j' := Origin(|freed|, k, i), Origin(|freed|, k, j);
      assert was[i'] != was[j'] by { if i' < j' {} else { assert j' < i'; } }
    }
  }

  lemma OriginIs<T>(freed: seq<T>, nodes: seq<T>, k: nat, i: nat)
    requires k < |nodes| && i < |freed| + |nodes|
    ensures Origin(|freed|, k, i) < |freed| + |nodes|
    ensures (freed + [nodes[k]] + Without(nodes, k))[i] == (freed + nodes)[Origin(|freed|, k, i)]
  {
  }

  function Origin(n: nat, k: nat, i: nat): nat {
    if i < n then i else if i == n then n + k else if i - n - 1 < k then i - 1 else i
  }
}
