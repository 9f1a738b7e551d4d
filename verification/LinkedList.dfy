// The doubly linked list under the DA cache, the property table, the collation list and the debug allocator.
module LinkedList {

  /** A list item; the record that embeds it is its value. */
  class ListItem<T> {
    const val: T
    var previous: ListItem?<T>
    var next: ListItem?<T>

    constructor (v: T)
      ensures val == v
    {
      val := v;
      previous, next := null, null;
    }
  }

  ghost predicate Distinct<T>(s: seq<T>) {
    forall i, j :: 0 <= i < j < |s| ==> s[i] != s[j]
  }

  /** The sequence without its element `k`; all of it if there is none. */
  function Without<T>(s: seq<T>, k: nat): seq<T> {
    if k < |s| then s[..k] + s[k + 1..] else s
  }

  lemma WithoutAt<T>(s: seq<T>, k: nat)
    requires k < |s|
    ensures |Without(s, k)| == |s| - 1
    ensures forall i :: 0 <= i < |s| - 1 ==> Without(s, k)[i] == s[if i < k then i else i + 1]
  {
  }

  lemma WithoutNone<T>(s: seq<T>, k: nat)
    ensures k >= |s| ==> Without(s, k) == s
  {
  }

  /** The element that Without takes out, if there is one. */
  function Taken<T>(s: seq<T>, k: nat): seq<T> {
    if k < |s| then [s[k]] else []
  }

  ghost function Records<T>(nodes: seq<ListItem<T>>): (vs: seq<T>)
    ensures |vs| == |nodes| && forall i :: 0 <= i < |vs| ==> vs[i] == nodes[i].val
  {
    seq(|nodes|, i requires 0 <= i < |nodes| => nodes[i].val)
  }

  lemma RecordsWithout<T>(nodes: seq<ListItem<T>>, k: nat)
    ensures Records(Without(nodes, k)) == Without(Records(nodes), k)
  {
  }

  class SLPList<T> {
    var head: ListItem?<T>
    var tail: ListItem?<T>
    var count: int
    ghost var nodes: seq<ListItem<T>>

    constructor ()
      ensures Valid() && nodes == []
    {
      head, tail, count := null, null, 0;
      nodes := [];
    }

    /** Item `i` points at its neighbours in `nodes`. */
    ghost predicate Linked(i: int)
      requires 0 <= i < |nodes|
      reads this, nodes
    {
      && nodes[i].previous == (if i == 0 then null else nodes[i - 1])
      && nodes[i].next == (if i == |nodes| - 1 then null else nodes[i + 1])
    }

    /** The links, the two ends and the count agree with the sequence of items. */
    ghost predicate Valid()
      reads this, nodes
    {
      && Distinct(nodes) && count == |nodes|
      && head == (if nodes == [] then null else nodes[0])
      && tail == (if nodes == [] then null else nodes[|nodes| - 1])
      && forall i :: 0 <= i < |nodes| ==> Linked(i)
    }

    /** The records on the list, in order. */
    ghost function Values(): (vs: seq<T>)
      reads this
      ensures |vs| == |nodes| && forall i :: 0 <= i < |vs| ==> vs[i] == nodes[i].val
    {
      Records(nodes)
    }

    /** SLPListUnlink of the item at position `k`. */
    method Unlink(item: ListItem<T>, ghost k: nat)
      requires Valid() && k < |nodes| && nodes[k] == item
      modifies this, nodes
      ensures Valid() && nodes == Without(old(nodes), k) && Values() == Without(old(Values()), k)
      ensures item.previous == old(item.previous) && item.next == old(item.next)
    {
      hide Records, Without;
      RecordsWithout(nodes, k);
      assert Linked(k);
      if item.previous != null { item.previous.next := item.next; }
      if item.next != null { item.next.previous := item.previous; }
      if item == head { head := item.next; }
      if item == tail { tail := item.previous; }
      count := count - 1;
      ghost var was := nodes;
      nodes := Without(nodes, k);
      WithoutAt(was, k);
      forall i | 0 <= i < |nodes| ensures Linked(i) {
        var j := if i < k then i else i + 1;
        assert nodes[i] == was[j] && old(Linked(j));
      }
    }

    /** SLPListLinkHead of an item that is on no list. */
    method LinkHead(item: ListItem<T>)
      requires Valid() && item !in nodes
      modifies this, nodes, item
      ensures Valid() && nodes == [item] + old(nodes) && Values() == [item.val] + old(Values())
    {
      item.previous := null;
      item.next := head;
      if head != null { head.previous := item; }
      head := item;
      if tail == null { tail := item; }
      count := count + 1;
      ghost var was := nodes;
      nodes := [item] + nodes;
      forall i | 0 <= i < |nodes| ensures Linked(i) {
        assert i > 0 ==> nodes[i] == was[i - 1] && old(Linked(i - 1));
      }
    }

    /** SLPListLinkTail of an item that is on no list. */
    method LinkTail(item: ListItem<T>)
      requires Valid() && item !in nodes
      modifies this, nodes, item
      ensures Valid() && nodes == old(nodes) + [item] && Values() == old(Values()) + [item.val]
    {
      item.previous := tail;
      item.next := null;
      if tail != null { tail.next := item; }
      tail := item;
      if head == null { head := item; }
      count := count + 1;
      ghost var was := nodes;
      nodes := nodes + [item];
      forall i | 0 <= i < |nodes| ensures Linked(i) {
        assert i < |was| ==> nodes[i] == was[i] && old(Linked(i));
      }
    }
  }
}
