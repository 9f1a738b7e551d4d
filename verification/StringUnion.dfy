// SLPUnionStringList: the union of two lists in a caller's buffer, which may hold the first list already.
module StringUnion {
  import opened Bytes
  import opened StringCompare
  import opened StringList

  // ----- The union as a function -----

  /** A comma that no backslash precedes; `before` is the byte of memory before the list. */
  predicate Separator(list: seq<byte>, before: byte, e: nat)
    requires e < |list|
  {
    list[e] == COMMA && (if e == 0 then before else list[e - 1]) != BACKSLASH
  }

  /** The end of the item at `from`: the next comma that no backslash precedes. */
  function UnescapedComma(list: seq<byte>, before: byte, from: nat): (e: nat)
    requires from <= |list|
    ensures from <= e <= |list| && (e < |list| ==> list[e] == COMMA)
    ensures forall i :: from <= i < e ==> !Separator(list, before, i)
    decreases |list| - from
  {
    if from == |list| || Separator(list, before, from) then from else UnescapedComma(list, before, from + 1)
  }

  function Appended(acc: seq<byte>, item: seq<byte>): seq<byte> {
    (if acc == [] then [] else acc + [COMMA]) + item
  }

  /** The union so far is `acc`; the items of `l2` from `from` on are to come. The flag is false if they do not fit. */
  function UnionFrom(l1: seq<byte>, l2: seq<byte>, before: byte, from: nat, acc: seq<byte>, cap: nat):
      (r: (bool, seq<byte>))
    decreases |l2| - from
  {
    if from >= |l2| then (true, acc) else
      var e := UnescapedComma(l2, before, from);
      var item := l2[from..e];
      if PositionFrom(l1, item, 0) != 0 then UnionFrom(l1, l2, before, e + 1, acc, cap)
      else if |acc| + |item| + 1 > cap then (false, acc)
      else UnionFrom(l1, l2, before, e + 1, Appended(acc, item), cap)
  }

  function Union(l1: seq<byte>, l2: seq<byte>, before: byte, cap: nat): (bool, seq<byte>) {
    if cap == 0 || cap < |l1| then (false, []) else UnionFrom(l1, l2, before, 0, l1, cap)
  }

  // ----- The loop of the source -----

  /**
   * SLPUnionStringList. The first list is the first `list1len` bytes of `list1`, which may be the output buffer
   * itself. On success `len` bytes of the buffer are the union; otherwise `len` is the size to retry with.
   * If the second list begins with a comma, the byte before it in memory is looked at.
   */
  method UnionStringList(
      list1: array<byte>, list1len: nat, list2: seq<byte>, before: byte, unionlist: array<byte>, cap: nat)
    returns (ok: bool, len: nat)
    requires list1len <= list1.Length && cap <= unionlist.Length
    modifies unionlist
    ensures var l1 := old(list1[..list1len]); var u := Union(l1, list2, before, cap);
            && ok == u.0
            && (ok ==> len == |u.1| <= cap && unionlist[..len] == u.1)
            && (!ok ==> len == list1len + |list2| + 1)
    ensures list1[..list1len] == old(list1[..list1len])
  {
    hide PositionFrom, UnescapedComma, Appended, UnionFrom;
    ghost var l1 := list1[..list1len];
    if cap == 0 || cap < list1len { return false, list1len + |list2| + 1; }
    CopyFront(list1, list1len, unionlist);
    var copiedlen := list1len;
    var itemend := 0;
    while itemend < |list2|
      invariant 0 <= itemend && list1len <= copiedlen <= cap && list1[..list1len] == l1 == unionlist[..list1len]
      invariant UnionFrom(l1, list2, before, itemend, unionlist[..copiedlen], cap)
                  == UnionFrom(l1, list2, before, 0, l1, cap)
      decreases |list2| - itemend
    {
      var itembegin := itemend;
      itemend := SeekSeparator(list2, before, itembegin);
      var item := list2[itembegin..itemend];
      var pos := ContainsStringList(list1[..list1len], item);
      UnionStep(l1, list2, before, itembegin, unionlist[..copiedlen], cap);
      if pos == 0 {
        if copiedlen + |item| + 1 > cap { return false, list1len + |list2| + 1; }
        copiedlen := AppendItem(unionlist, copiedlen, item, list1, list1len);
      }
      itemend := itemend + 1;
    }
    UnionEnd(l1, list2, before, itemend, unionlist[..copiedlen], cap);
    return true, copiedlen;
  }

  lemma UnionEnd(l1: seq<byte>, l2: seq<byte>, before: byte, from: nat, acc: seq<byte>, cap: nat)
    requires from >= |l2|
    ensures UnionFrom(l1, l2, before, from, acc, cap) == (true, acc)
  {
  }

  lemma UnionStep(l1: seq<byte>, l2: seq<byte>, before: byte, from: nat, acc: seq<byte>, cap: nat)
    requires from < |l2|
    ensures var e := UnescapedComma(l2, before, from); var item := l2[from..e];
            UnionFrom(l1, l2, before, from, acc, cap)
            == if PositionFrom(l1, item, 0) != 0 then UnionFrom(l1, l2, before, e + 1, acc, cap)
               else if |acc| + |item| + 1 > cap then (false, acc)
               else UnionFrom(l1, l2, before, e + 1, Appended(acc, item), cap)
  {
  }

  /** memcpy of the first list; nothing happens when the two are the same buffer. */
  method CopyFront(list1: array<byte>, len: nat, out: array<byte>)
    requires len <= list1.Length && len <= out.Length
    modifies out
    ensures out[..len] == old(list1[..len]) && list1[..len] == old(list1[..len])
  {
    forall k | 0 <= k < len { out[k] := list1[k]; }
  }

  /** A comma, unless the union is empty, and the item; the first list stays, also where it is in the buffer. */
  method AppendItem(out: array<byte>, len: nat, item: seq<byte>, list1: array<byte>, list1len: nat) returns (next: nat)
    requires list1len <= len && len + |item| + 1 <= out.Length && list1len <= list1.Length
    modifies out
    ensures len <= next == |Appended(old(out[..len]), item)| <= len + |item| + 1
    ensures out[..next] == Appended(old(out[..len]), item)
    ensures out[..list1len] == old(out[..list1len]) && list1[..list1len] == old(list1[..list1len])
  {
    next := len;
    if next != 0 {
      out[next] := COMMA;
      next := next + 1;
    }
    forall k | 0 <= k < |item| { out[next + k] := item[k]; }
    next := next + |item|;
  }

  method SeekSeparator(list: seq<byte>, before: byte, from: nat) returns (e: nat)
    requires from <= |list|
    ensures e == UnescapedComma(list, before, from)
  {
    e := from;
    while e != |list| && !(list[e] == COMMA && (if e == 0 then before else list[e - 1]) != BACKSLASH)
      invariant from <= e <= |list| && UnescapedComma(list, before, e) == UnescapedComma(list, before, from)
      decreases |list| - e
    {
      e := e + 1;
    }
  }

  // ----- The documented size always suffices -----

  lemma {:induction false} UnionFits(l1: seq<byte>, l2: seq<byte>, before: byte, from: nat, acc: seq<byte>, cap: nat)
    requires |l1| + |l2| + 1 <= cap && |acc| <= |l1| + from && from <= |l2| + 1 && l1 <= acc
    ensures UnionFrom(l1, l2, before, from, acc, cap).0 && l1 <= UnionFrom(l1, l2, before, from, acc, cap).1
    decreases |l2| - from
  {
    hide PositionFrom, UnescapedComma;
    if from < |l2| {
      var e := UnescapedComma(l2, before, from);
      if PositionFrom(l1, l2[from..e], 0) != 0 {
        UnionFits(l1, l2, before, e + 1, acc, cap);
      } else {
        UnionFits(l1, l2, before, e + 1, Appended(acc, l2[from..e]), cap);
      }
    }
  }

  /** Main result: with list1len + list2len + 1 bytes the union never fails, and the first list is its prefix. */
  lemma UnionNeverFails(l1: seq<byte>, l2: seq<byte>, before: byte, cap: nat)
    requires |l1| + |l2| + 1 <= cap
    ensures Union(l1, l2, before, cap).0 && l1 <= Union(l1, l2, before, cap).1
  {
    UnionFits(l1, l2, before, 0, l1, cap);
  }

  // ----- The union has the items of both lists -----

  /** A list whose items are all non-empty; it may itself be empty. */
  predicate NoEmptyItems(list: seq<byte>) {
    !EndsInComma(list) && forall i :: 0 <= i < |Items(list)| ==> Items(list)[i] != []
  }

  predicate NoBackslash(list: seq<byte>) {
    forall i :: 0 <= i < |list| ==> list[i] != BACKSLASH
  }

  lemma {:induction false} SeparatorsAreCommas(list: seq<byte>, before: byte, from: nat)
    requires from <= |list| && NoBackslash(list) && (from == 0 ==> list == [] || list[0] != COMMA)
    ensures UnescapedComma(list, before, from) == IndexOf(list, COMMA, from)
    decreases |list| - from
  {
    if from < |list| && list[from] != COMMA { SeparatorsAreCommas(list, before, from + 1); }
  }

  /** An item that is not empty does not begin with a comma. */
  lemma ItemStart(list: seq<byte>, from: nat)
    requires from < |list| && ItemsFrom(list, from)[0] != []
    ensures list[from] != COMMA
  {
    assert ItemsFrom(list, from)[0] == list[from..IndexOf(list, COMMA, from)];
  }

  lemma {:induction false} ItemsExtend(list: seq<byte>, item: seq<byte>, from: nat)
    requires from < |list| && !EndsInComma(list) && item != [] && forall i :: 0 <= i < |item| ==> item[i] != COMMA
    ensures ItemsFrom(list + [COMMA] + item, from) == ItemsFrom(list, from) + [item]
    decreases |list| - from
  {
    hide IndexOf, ItemsFrom;
    var l := list + [COMMA] + item;
    var e := IndexOf(list, COMMA, from);
    assert l[from..e] == list[from..e];
    CommaAt(l, from, e);
    ItemsAt(l, from);
    ItemsAt(list, from);
    if e < |list| {
      ItemsExtend(list, item, e + 1);
      assert [list[from..e]] + (ItemsFrom(list, e + 1) + [item]) == [list[from..e]] + ItemsFrom(list, e + 1) + [item];
    } else {
      LastItem(l, e + 1, item);
      ItemsAt(list, e + 1);
    }
  }

  lemma LastItem(l: seq<byte>, from: nat, item: seq<byte>)
    requires from < |l| && l[from..] == item && forall i :: 0 <= i < |item| ==> item[i] != COMMA
    ensures ItemsFrom(l, from) == [item]
  {
    forall i | from <= i < |l| ensures l[i] != COMMA { assert l[i] == item[i - from]; }
    CommaAt(l, from, |l|);
    assert l[from..|l|] == item && ItemsFrom(l, |l| + 1) == [];
  }

  lemma {:induction false} CommaAt(list: seq<byte>, from: nat, e: nat)
    requires from <= e <= |list| && (e < |list| ==> list[e] == COMMA)
    requires forall i :: from <= i < e ==> list[i] != COMMA
    ensures IndexOf(list, COMMA, from) == e
    decreases e - from
  {
    if from < e { CommaAt(list, from + 1, e); }
  }

  lemma AppendedItems(acc: seq<byte>, item: seq<byte>)
    requires !EndsInComma(acc) && item != [] && forall i :: 0 <= i < |item| ==> item[i] != COMMA
    ensures Items(Appended(acc, item)) == Items(acc) + [item] && !EndsInComma(Appended(acc, item))
  {
    if acc == [] {
      CommaAt(item, 0, |item|);
      assert item[0..|item|] == item && [] + item == item;
      assert ItemsFrom(item, |item| + 1) == [];
    } else {
      ItemsExtend(acc, item, 0);
    }
  }

  // ----- The items of the union -----

  /** The items that do not occur in `list`. */
  function NewItems(items: seq<seq<byte>>, list: seq<byte>): seq<seq<byte>> {
    if items == [] then []
    else (if PositionFrom(list, items[0], 0) != 0 then [] else [items[0]]) + NewItems(items[1..], list)
  }

  lemma NewItemsCons(item: seq<byte>, rest: seq<seq<byte>>, list: seq<byte>)
    ensures NewItems([item] + rest, list)
         == (if PositionFrom(list, item, 0) != 0 then [] else [item]) + NewItems(rest, list)
    ensures NewItems([], list) == []
  {
    hide PositionFrom;
    assert ([item] + rest)[1..] == rest;
  }

  lemma {:induction false} UnionFromItems(
      l1: seq<byte>, l2: seq<byte>, before: byte, from: nat, acc: seq<byte>, cap: nat)
    requires NoBackslash(l2) && !EndsInComma(acc) && UnionFrom(l1, l2, before, from, acc, cap).0
    requires forall i :: 0 <= i < |ItemsFrom(l2, from)| ==> ItemsFrom(l2, from)[i] != []
    ensures var u := UnionFrom(l1, l2, before, from, acc, cap).1;
            !EndsInComma(u) && Items(u) == Items(acc) + NewItems(ItemsFrom(l2, from), l1)
    decreases |l2| - from
  {
    hide CanonOf, PositionFrom, UnescapedComma, IndexOf, Items, ItemsFrom, UnionFrom, EndsInComma, Appended,
         NoBackslash, NewItems;
    ItemsAt(l2, from);
    if from < |l2| {
      UnionStep(l1, l2, before, from, acc, cap);
      var e := UnescapedComma(l2, before, from);
      ItemStart(l2, from);
      SeparatorsAreCommas(l2, before, from);
      var item, rest := l2[from..e], ItemsFrom(l2, e + 1);
      assert ItemsFrom(l2, from) == [item] + rest;
      forall i | 0 <= i < |rest| ensures rest[i] != [] { assert ItemsFrom(l2, from)[i + 1] == rest[i]; }
      NewItemsCons(item, rest, l1);
      assert ItemsFrom(l2, from)[0] == item;
      if PositionFrom(l1, item, 0) != 0 {
        UnionFromItems(l1, l2, before, e + 1, acc, cap);
      } else {
        AppendedItems(acc, item);
        UnionFromItems(l1, l2, before, e + 1, Appended(acc, item), cap);
      }
    } else {
      UnionEnd(l1, l2, before, from, acc, cap);
      NewItemsCons([], [], l1);
    }
  }

  /** The first list's items, and those of the second that the first has not, in order. */
  lemma UnionItems(l1: seq<byte>, l2: seq<byte>, before: byte, cap: nat)
    requires NoBackslash(l2) && !EndsInComma(l1) && NoEmptyItems(l2) && Union(l1, l2, before, cap).0
    ensures var u := Union(l1, l2, before, cap).1;
            !EndsInComma(u) && Items(u) == Items(l1) + NewItems(Items(l2), l1)
  {
    assert Items(l2) == ItemsFrom(l2, 0);
    UnionFromItems(l1, l2, before, 0, l1, cap);
  }

  lemma {:induction false} CanonsConcat(a: seq<seq<byte>>, b: seq<seq<byte>>)
    ensures Canons(a + b) == Canons(a) + Canons(b)
  {
    hide CanonOf, Canons;
    if a == [] {
      assert a + b == b;
      NoCanons();
    } else {
      CanonsConcat(a[1..], b);
      CanonsCons(a[0], a[1..]);
      CanonsCons(a[0], a[1..] + b);
      assert a == [a[0]] + a[1..] && a + b == [a[0]] + (a[1..] + b);
    }
  }

  /** The new items are those that the list has not, up to SLPCompareString. */
  lemma {:induction false} NewCanons(items: seq<seq<byte>>, list: seq<byte>)
    ensures Canons(NewItems(items, list)) == Canons(items) - Canons(Items(list))
  {
    hide CanonOf, Canons, PositionFrom, Items, NewItems;
    NoCanons();
    if items == [] {
      NewItemsCons([], [], list);
    } else {
      var item, rest := items[0], items[1..];
      assert items == [item] + rest;
      NewCanons(rest, list);
      NewItemsCons(item, rest, list);
      CanonsCons(item, rest);
      CanonsCons(item, NewItems(rest, list));
      ContainsMeans(list, item);
      assert [] + NewItems(rest, list) == NewItems(rest, list);
    }
  }

  /**
   * Main result: for lists without backslashes or empty items a successful union has, up to
   * SLPCompareString, exactly the items of the two lists.
   */
  lemma UnionIsUnion(l1: seq<byte>, l2: seq<byte>, before: byte, cap: nat)
    requires NoBackslash(l2) && !EndsInComma(l1) && NoEmptyItems(l2) && Union(l1, l2, before, cap).0
    ensures Canons(Items(Union(l1, l2, before, cap).1)) == Canons(Items(l1)) + Canons(Items(l2))
    ensures !EndsInComma(Union(l1, l2, before, cap).1)
  {
    hide Canons, Items, NewItems, Union;
    UnionItems(l1, l2, before, cap);
    CanonsConcat(Items(l1), NewItems(Items(l2), l1));
    NewCanons(Items(l2), l1);
  }

  lemma {:induction false} NoDuplicatesConcat(a: seq<seq<byte>>, b: seq<seq<byte>>)
    ensures NoDuplicates(a + b) <==> NoDuplicates(a) && NoDuplicates(b) && Canons(a) !! Canons(b)
  {
    hide CanonOf, Canons, NoDuplicates;
    if a == [] {
      assert a + b == b;
      NoCanons();
      NoneTwice();
    } else {
      NoDuplicatesConcat(a[1..], b);
      NoDuplicatesCons(a[0], a[1..]);
      NoDuplicatesCons(a[0], a[1..] + b);
      CanonsCons(a[0], a[1..]);
      CanonsConcat(a[1..], b);
      assert a == [a[0]] + a[1..] && a + b == [a[0]] + (a[1..] + b);
    }
  }

  lemma NoneTwice()
    ensures NoDuplicates([])
  {
  }

  /**
   * Main result: the union has no duplicates, as its comment promises, if and only if the first list has none and the
   * second repeats no item that the first has not.
   */
  lemma UnionUniqueIff(l1: seq<byte>, l2: seq<byte>, before: byte, cap: nat)
    requires NoBackslash(l2) && !EndsInComma(l1) && NoEmptyItems(l2) && Union(l1, l2, before, cap).0
    ensures NoDuplicates(Items(Union(l1, l2, before, cap).1))
       <==> NoDuplicates(Items(l1)) && NoDuplicates(NewItems(Items(l2), l1))
  {
    hide Canons, Items, NewItems, Union, NoDuplicates;
    UnionItems(l1, l2, before, cap);
    NoDuplicatesConcat(Items(l1), NewItems(Items(l2), l1));
    NewCanons(Items(l2), l1);
  }

  lemma {:induction false} NewItemsUnique(items: seq<seq<byte>>, list: seq<byte>)
    requires NoDuplicates(items)
    ensures NoDuplicates(NewItems(items, list))
  {
    hide CanonOf, Canons, PositionFrom, Items, NewItems, NoDuplicates;
    if items == [] {
      NewItemsCons([], [], list);
    } else {
      var item, rest := items[0], items[1..];
      assert items == [item] + rest;
      NoDuplicatesCons(item, rest);
      NewItemsUnique(rest, list);
      NewItemsCons(item, rest, list);
      NoDuplicatesCons(item, NewItems(rest, list));
      NewCanons(rest, list);
      assert [] + NewItems(rest, list) == NewItems(rest, list);
    }
  }

  /** The union of two lists without duplicates has none. */
  lemma UnionUnique(l1: seq<byte>, l2: seq<byte>, before: byte, cap: nat)
    requires NoBackslash(l2) && !EndsInComma(l1) && NoEmptyItems(l2) && Union(l1, l2, before, cap).0
    requires NoDuplicates(Items(l1)) && NoDuplicates(Items(l2))
    ensures NoDuplicates(Items(Union(l1, l2, before, cap).1))
  {
    hide Items, NewItems, Union, NoDuplicates;
    NewItemsUnique(Items(l2), l1);
    UnionUniqueIff(l1, l2, before, cap);
  }

  /** A failing input: the union of "" and "b,b" has b twice. */
  lemma RepeatedItemsAdded()
    ensures var b := [98, 44, 98]; Union([], b, 0, 4) == (true, b) && !NoDuplicates(Items(b))
  {
    hide CanonOf;
    var b, x: seq<byte> := [98, COMMA, 98], [98];
    assert UnescapedComma(b, 0, 0) == 1 && UnescapedComma(b, 0, 2) == 3 && b[0..1] == x == b[2..3];
    assert PositionFrom([], x, 0) == 0;
    assert UnionFrom([], b, 0, 4, b, 4) == (true, b);
    assert Appended([], x) == x && Appended(x, x) == b;
    assert UnionFrom([], b, 0, 2, x, 4) == (true, b);
    ItemsOfThree(98, 98);
    assert Same(Items(b)[0], Items(b)[1]);
  }

  // ----- Short buffers and escaped commas -----

  lemma {:induction false} UnionGrows(l1: seq<byte>, l2: seq<byte>, before: byte, from: nat, acc: seq<byte>, cap: nat)
    ensures var u := UnionFrom(l1, l2, before, from, acc, cap); u.0 ==> |acc| <= |u.1|
    decreases |l2| - from
  {
    hide PositionFrom, UnescapedComma;
    if from < |l2| {
      var e := UnescapedComma(l2, before, from);
      UnionGrows(l1, l2, before, e + 1, acc, cap);
      UnionGrows(l1, l2, before, e + 1, Appended(acc, l2[from..e]), cap);
    }
  }

  lemma {:induction false} UnionCapped(
      l1: seq<byte>, l2: seq<byte>, before: byte, from: nat, acc: seq<byte>, cap: nat, big: nat)
    requires acc != [] && |acc| <= cap && UnionFrom(l1, l2, before, from, acc, big).0
    ensures var u := UnionFrom(l1, l2, before, from, acc, big).1; var r := UnionFrom(l1, l2, before, from, acc, cap);
            (r.0 <==> |u| <= cap) && (r.0 ==> r.1 == u)
    decreases |l2| - from
  {
    hide PositionFrom, UnescapedComma, UnionFrom;
    if from < |l2| {
      UnionStep(l1, l2, before, from, acc, cap);
      UnionStep(l1, l2, before, from, acc, big);
      var e := UnescapedComma(l2, before, from);
      var item := l2[from..e];
      if PositionFrom(l1, item, 0) != 0 {
        UnionCapped(l1, l2, before, e + 1, acc, cap, big);
      } else {
        UnionGrows(l1, l2, before, e + 1, Appended(acc, item), big);
        if |acc| + |item| + 1 <= cap { UnionCapped(l1, l2, before, e + 1, Appended(acc, item), cap, big); }
      }
    } else {
      UnionEnd(l1, l2, before, from, acc, cap);
      UnionEnd(l1, l2, before, from, acc, big);
    }
  }

  /** Main result: with a non-empty first list, the union succeeds if and only if it fits the buffer. */
  lemma UnionFitsIff(l1: seq<byte>, l2: seq<byte>, before: byte, cap: nat)
    requires l1 != []
    ensures var u := Union(l1, l2, before, |l1| + |l2| + 1).1; var r := Union(l1, l2, before, cap);
            (r.0 <==> |u| <= cap) && (r.0 ==> r.1 == u)
  {
    hide UnionFrom;
    UnionNeverFails(l1, l2, before, |l1| + |l2| + 1);
    if cap >= |l1| { UnionCapped(l1, l2, before, 0, l1, cap, |l1| + |l2| + 1); }
  }

  lemma {:induction false} NoSeparator(list: seq<byte>, before: byte, from: nat)
    requires from <= |list| && forall i :: from <= i < |list| ==> !Separator(list, before, i)
    ensures UnescapedComma(list, before, from) == |list|
    decreases |list| - from
  {
    if from < |list| { NoSeparator(list, before, from + 1); }
  }

  /** Main result: commas behind a backslash do not separate: a second list with no others is one item. */
  lemma EscapedCommas(l1: seq<byte>, l2: seq<byte>, before: byte)
    requires l2 != [] && forall i :: 0 <= i < |l2| && l2[i] == COMMA ==> (if i == 0 then before else l2[i - 1]) == 92
    ensures Union(l1, l2, before, |l1| + |l2| + 1) ==
            (true, if PositionFrom(l1, l2, 0) != 0 then l1 else if l1 == [] then l2 else l1 + [COMMA] + l2)
  {
    hide PositionFrom, UnescapedComma, UnionFrom;
    NoSeparator(l2, before, 0);
    OneItemUnion(l1, l2, before);
  }

  lemma OneItemUnion(l1: seq<byte>, l2: seq<byte>, before: byte)
    requires l2 != [] && UnescapedComma(l2, before, 0) == |l2|
    ensures Union(l1, l2, before, |l1| + |l2| + 1) ==
            (true, if PositionFrom(l1, l2, 0) != 0 then l1 else if l1 == [] then l2 else l1 + [COMMA] + l2)
  {
    hide PositionFrom, UnescapedComma, UnionFrom, Appended;
    var cap := |l1| + |l2| + 1;
    assert l2[0..|l2|] == l2;
    UnionStep(l1, l2, before, 0, l1, cap);
    UnionEnd(l1, l2, before, |l2| + 1, l1, cap);
    UnionEnd(l1, l2, before, |l2| + 1, Appended(l1, l2), cap);
    AppendedIs(l1, l2);
  }

  lemma AppendedIs(acc: seq<byte>, item: seq<byte>)
    ensures Appended(acc, item) == if acc == [] then item else acc + [COMMA] + item
  {
    assert [] + item == item;
  }
}
