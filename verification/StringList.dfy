// Comma-separated string lists: membership, intersection, the counting subset test, and union.
module StringList {
  import opened Bytes
  import opened StringCompare

  // ----- The items of a list -----

  /** The items the scanning loops visit from offset `from` on; what follows a final comma is not visited. */
  function ItemsFrom(list: seq<byte>, from: nat): (items: seq<seq<byte>>)
    decreases |list| - from
  {
    if from >= |list| then [] else
      var e := IndexOf(list, COMMA, from);
      [list[from..e]] + ItemsFrom(list, e + 1)
  }

  function Items(list: seq<byte>): seq<seq<byte>> {
    ItemsFrom(list, 0)
  }

  /** The items of a list up to SLPCompareString. */
  ghost function Canons(items: seq<seq<byte>>): (s: set<Canon>) {
    set i | 0 <= i < |items| :: CanonOf(items[i])
  }

  ghost predicate Occurs(item: seq<byte>, items: seq<seq<byte>>) {
    CanonOf(item) in Canons(items)
  }

  /** No two items compare equal. */
  ghost predicate NoDuplicates(items: seq<seq<byte>>) {
    forall i, j :: 0 <= i < j < |items| ==> !Same(items[i], items[j])
  }

  lemma CanonsCons(item: seq<byte>, items: seq<seq<byte>>)
    ensures Canons([item] + items) == {CanonOf(item)} + Canons(items)
  {
    hide CanonOf;
    var all := [item] + items;
    forall c | c in {CanonOf(item)} + Canons(items) ensures c in Canons(all) {
      if c == CanonOf(item) {
        assert all[0] == item;
      } else {
        var i :| 0 <= i < |items| && c == CanonOf(items[i]);
        assert all[i + 1] == items[i];
      }
    }
  }

  // ----- SLPContainsStringList -----

  /** The 1-based byte position of the first matching item at or after `from`, or 0. */
  function PositionFrom(list: seq<byte>, str: seq<byte>, from: nat): (p: nat)
    ensures p == 0 || p > from
    decreases |list| - from
  {
    if from >= |list| then 0 else
      var e := IndexOf(list, COMMA, from);
      if Same(list[from..e], str) then 1 + from else PositionFrom(list, str, e + 1)
  }

  method ContainsStringList(list: seq<byte>, str: seq<byte>) returns (pos: nat)
    ensures pos == PositionFrom(list, str, 0)
  {
    hide CanonOf;
    var itemend := 0;
    while itemend < |list|
      invariant PositionFrom(list, str, itemend) == PositionFrom(list, str, 0)
      decreases |list| - itemend
    {
      var itembegin := itemend;
      itemend := SeekComma(list, itembegin);
      var cmp := CompareString(list[itembegin..itemend], str);
      if cmp == 0 { return 1 + itembegin; }
      itemend := itemend + 1;
    }
    return 0;
  }

  /** Seek to the end of the item, break on commas. */
  method SeekComma(list: seq<byte>, from: nat) returns (e: nat)
    requires from <= |list|
    ensures e == IndexOf(list, COMMA, from)
  {
    e := from;
    while e != |list| && list[e] != COMMA
      invariant from <= e <= |list| && IndexOf(list, COMMA, e) == IndexOf(list, COMMA, from)
      decreases |list| - e
    {
      e := e + 1;
    }
  }

  lemma {:induction false} PositionMeans(list: seq<byte>, str: seq<byte>, from: nat)
    ensures PositionFrom(list, str, from) != 0 <==> Occurs(str, ItemsFrom(list, from))
    decreases |list| - from
  {
    hide CanonOf, Canons, IndexOf, ItemsFrom;
    ItemsAt(list, from);
    if from < |list| {
      var e := IndexOf(list, COMMA, from);
      PositionMeans(list, str, e + 1);
      CanonsCons(list[from..e], ItemsFrom(list, e + 1));
    } else {
      NoCanons();
    }
  }

  lemma NoCanons()
    ensures Canons([]) == {}
  {
  }

  /** Main result for the search: a position is found exactly for the strings that occur in the list. */
  lemma ContainsMeans(list: seq<byte>, str: seq<byte>)
    ensures PositionFrom(list, str, 0) != 0 <==> Occurs(str, Items(list))
  {
    PositionMeans(list, str, 0);
  }

  /** Between `p` and `e` stands an item: after the start or a comma, before a comma or the end. */
  ghost predicate ItemAt(list: seq<byte>, p: nat, e: nat) {
    && p < |list| && p <= e <= |list| && (p == 0 || list[p - 1] == COMMA) && (e == |list| || list[e] == COMMA)
    && forall i :: p <= i < e ==> list[i] != COMMA
  }

  ghost predicate FoundAt(list: seq<byte>, str: seq<byte>, p: nat) {
    exists e: nat :: ItemAt(list, p, e) && Same(list[p..e], str)
  }

  ghost predicate NoneBetween(list: seq<byte>, str: seq<byte>, from: nat, to: nat) {
    forall q: nat, e: nat :: ItemAt(list, q, e) && from <= q < to ==> !Same(list[q..e], str)
  }

  lemma {:induction false} PositionFromIs(list: seq<byte>, str: seq<byte>, from: nat)
    requires from == 0 || from > |list| || list[from - 1] == COMMA
    ensures var p := PositionFrom(list, str, from);
            && (p > 0 ==> FoundAt(list, str, p - 1))
            && NoneBetween(list, str, from, if p == 0 then |list| else p - 1)
    decreases |list| - from
  {
    hide CanonOf;
    if from < |list| {
      var end := IndexOf(list, COMMA, from);
      assert ItemAt(list, from, end);
      if !Same(list[from..end], str) {
        PositionFromIs(list, str, end + 1);
        forall q: nat, e: nat | ItemAt(list, q, e) && from <= q <= end ensures q == from && e == end {
          OneItemThere(list, from, end, q, e);
        }
      }
    }
  }

  lemma OneItemThere(list: seq<byte>, from: nat, end: nat, q: nat, e: nat)
    requires ItemAt(list, from, end) && ItemAt(list, q, e) && from <= q <= end
    ensures q == from && e == end
  {
    assert q == 0 || list[q - 1] == COMMA;
  }

  /** Main result: what is found is one more than the position of the first item that compares equal. */
  lemma PositionIs(list: seq<byte>, str: seq<byte>)
    ensures var p := PositionFrom(list, str, 0);
            && (p > 0 ==> FoundAt(list, str, p - 1))
            && NoneBetween(list, str, 0, if p == 0 then |list| else p - 1)
  {
    hide CanonOf;
    PositionFromIs(list, str, 0);
  }

  // ----- SLPIntersectStringList -----

  /** How many of the items occur in `list`. */
  function CountIn(items: seq<seq<byte>>, list: seq<byte>): nat {
    if items == [] then 0
    else (if PositionFrom(list, items[0], 0) != 0 then 1 else 0) + CountIn(items[1..], list)
  }

  method IntersectStringList(list1: seq<byte>, list2: seq<byte>) returns (result: nat)
    ensures result == CountIn(Items(list1), list2)
  {
    hide PositionFrom;
    result := 0;
    var itemend := 0;
    while itemend < |list1|
      invariant result + CountIn(ItemsFrom(list1, itemend), list2) == CountIn(Items(list1), list2)
      decreases |list1| - itemend
    {
      var itembegin := itemend;
      itemend := SeekComma(list1, itembegin);
      ghost var item, rest := list1[itembegin..itemend], ItemsFrom(list1, itemend + 1);
      assert ([item] + rest)[1..] == rest;
      var pos := ContainsStringList(list2, list1[itembegin..itemend]);
      if pos != 0 { result := result + 1; }
      itemend := itemend + 1;
    }
  }

  // ----- SLPSubsetStringList -----

  function Commas(list: seq<byte>): nat {
    if list == [] then 0 else (if list[0] == COMMA then 1 else 0) + Commas(list[1..])
  }

  method SubsetStringList(list: seq<byte>, sublist: seq<byte>) returns (r: nat)
    ensures r == 1 <==> sublist != [] && list != [] && CountIn(Items(list), sublist) == Commas(sublist) + 1
    ensures r == 0 || r == 1
  {
    hide CountIn;
    if |sublist| == 0 || |list| == 0 { return 0; }
    var curpos, sublistcount := 0, 1;
    assert sublist[0..] == sublist;
    while curpos < |sublist|
      invariant 0 <= curpos <= |sublist| && sublistcount + Commas(sublist[curpos..]) == Commas(sublist) + 1
    {
      assert sublist[curpos..][1..] == sublist[curpos + 1..];
      if sublist[curpos] == COMMA { sublistcount := sublistcount + 1; }
      curpos := curpos + 1;
    }
    var common := IntersectStringList(list, sublist);
    return if common == sublistcount then 1 else 0;
  }

  predicate EndsInComma(list: seq<byte>) {
    list != [] && list[|list| - 1] == COMMA
  }

  lemma {:induction false} CommaFree(list: seq<byte>)
    requires forall i :: 0 <= i < |list| ==> list[i] != COMMA
    ensures Commas(list) == 0
  {
    if list != [] { CommaFree(list[1..]); }
  }

  lemma {:induction false} CommasSplit(a: seq<byte>, b: seq<byte>)
    ensures Commas(a + b) == Commas(a) + Commas(b)
  {
    if a == [] {
      assert a + b == b;
    } else {
      assert (a + b)[1..] == a[1..] + b;
      CommasSplit(a[1..], b);
    }
  }

  /** Counting commas counts items, unless the list ends in a comma: then it counts one more. */
  lemma {:induction false} CommasCountItems(list: seq<byte>, from: nat)
    requires from < |list|
    ensures Commas(list[from..]) + 1 == |ItemsFrom(list, from)| + if EndsInComma(list) then 1 else 0
    decreases |list| - from
  {
    hide IndexOf, Commas, ItemsFrom;
    var e := IndexOf(list, COMMA, from);
    ItemsAt(list, from);
    CommasBefore(list, from, e);
    if e + 1 < |list| {
      CommasCountItems(list, e + 1);
    } else {
      ItemsAt(list, e + 1);
      assert e < |list| ==> list[e + 1..] == [];
      assert EndsInComma(list) <==> e < |list|;
      NoCommas();
    }
  }

  lemma NoCommas()
    ensures Commas([]) == 0
  {
  }

  lemma ItemsAt(list: seq<byte>, from: nat)
    ensures from >= |list| ==> ItemsFrom(list, from) == []
    ensures from < |list| ==>
      var e := IndexOf(list, COMMA, from); ItemsFrom(list, from) == [list[from..e]] + ItemsFrom(list, e + 1)
  {
  }

  /** The commas from `from` on, when the first of them is at `e`. */
  lemma CommasBefore(list: seq<byte>, from: nat, e: nat)
    requires from <= e <= |list| && (e < |list| ==> list[e] == COMMA) && forall i :: from <= i < e ==> list[i] != COMMA
    ensures Commas(list[from..]) == if e < |list| then 1 + Commas(list[e + 1..]) else 0
  {
    hide Commas;
    CommaFree(list[from..e]);
    if e < |list| {
      assert list[from..] == list[from..e] + ([COMMA] + list[e + 1..]);
      CommasSplit(list[from..e], [COMMA] + list[e + 1..]);
      CommaFirst(list[e + 1..]);
    } else {
      assert list[from..] == list[from..e];
    }
  }

  lemma CommaFirst(rest: seq<byte>)
    ensures Commas([COMMA] + rest) == 1 + Commas(rest)
  {
    assert ([COMMA] + rest)[1..] == rest;
  }

  lemma NoDuplicatesCons(first: seq<byte>, rest: seq<seq<byte>>)
    ensures NoDuplicates([first] + rest) <==> NoDuplicates(rest) && !Occurs(first, rest)
  {
    hide CanonOf;
    var items := [first] + rest;
    if NoDuplicates(items) {
      forall j | 0 <= j < |rest| ensures CanonOf(first) != CanonOf(rest[j]) {
        assert !Same(items[0], items[j + 1]);
      }
      forall i, j | 0 <= i < j < |rest| ensures !Same(rest[i], rest[j]) {
        assert !Same(items[i + 1], items[j + 1]);
      }
    }
    if NoDuplicates(rest) && !Occurs(first, rest) {
      forall i, j | 0 <= i < j < |items| ensures !Same(items[i], items[j]) {
        assert items[j] == rest[j - 1];
        if i == 0 {
          assert CanonOf(rest[j - 1]) in Canons(rest);
        } else {
          assert items[i] == rest[i - 1];
        }
      }
    }
  }

  lemma {:induction false} CanonsSize(items: seq<seq<byte>>)
    ensures |Canons(items)| <= |items|
    ensures |Canons(items)| == |items| <==> NoDuplicates(items)
  {
    if items == [] {
      assert Canons(items) == {};
    } else {
      hide CanonOf, NoDuplicates, Canons;
      var first, rest := items[0], items[1..];
      assert items == [first] + rest;
      CanonsSize(rest);
      CanonsCons(first, rest);
      NoDuplicatesCons(first, rest);
      if Occurs(first, rest) {
        assert {CanonOf(first)} + Canons(rest) == Canons(rest);
      }
    }
  }

  lemma {:induction false} CountIsOverlap(items: seq<seq<byte>>, list: seq<byte>)
    requires NoDuplicates(items)
    ensures CountIn(items, list) == |Canons(items) * Canons(Items(list))|
  {
    hide CanonOf, PositionFrom, Items, NoDuplicates, Canons;
    var other := Canons(Items(list));
    if items == [] {
      NoCanons();
      assert Canons(items) * other == {};
    } else {
      var first, rest := items[0], items[1..];
      assert items == [first] + rest;
      NoDuplicatesCons(first, rest);
      CountIsOverlap(rest, list);
      CanonsCons(first, rest);
      ContainsMeans(list, first);
      OverlapCons(CanonOf(first), Canons(rest), other);
    }
  }

  lemma OverlapCons<T>(x: T, a: set<T>, b: set<T>)
    requires x !in a
    ensures |({x} + a) * b| == (if x in b then 1 else 0) + |a * b|
  {
    if x in b {
      assert ({x} + a) * b == {x} + a * b;
    } else {
      assert ({x} + a) * b == a * b;
    }
  }

  lemma SubsetSameSize<T>(a: set<T>, b: set<T>)
    requires a <= b
    ensures |a| <= |b| && (|a| == |b| <==> a == b)
  {
    assert b == a + (b - a);
    assert |b| == |a| + |b - a|;
    if |a| == |b| { assert b - a == {}; }
  }

  /**
   * Main result: although it only compares two counts, on a list without duplicates the test answers 1
   * exactly when every item of the sublist occurs in the list and the sublist has no duplicates itself.
   */
  lemma SubsetTestExact(list: seq<byte>, sublist: seq<byte>)
    requires sublist != [] && !EndsInComma(sublist) && NoDuplicates(Items(list))
    ensures CountIn(Items(list), sublist) == Commas(sublist) + 1
       <==> (NoDuplicates(Items(sublist)) && Canons(Items(sublist)) <= Canons(Items(list)))
  {
    var a, b := Canons(Items(list)), Canons(Items(sublist));
    CountIsOverlap(Items(list), sublist);
    CommasCountItems(sublist, 0);
    assert sublist[0..] == sublist;
    CanonsSize(Items(sublist));
    SubsetSameSize(a * b, b);
    assert a * b == b <==> b <= a;
  }

  lemma {:induction false} CountAtLeast(items: seq<seq<byte>>, list: seq<byte>, i: nat)
    requires i < |items| && PositionFrom(list, items[i], 0) != 0
    ensures CountIn(items, list) >= 1
  {
    hide PositionFrom;
    if i > 0 { CountAtLeast(items[1..], list, i - 1); }
  }

  lemma {:induction false} CountTwice(items: seq<seq<byte>>, list: seq<byte>, i: nat, j: nat)
    requires i < j < |items| && PositionFrom(list, items[i], 0) != 0 && PositionFrom(list, items[j], 0) != 0
    ensures CountIn(items, list) >= 2
  {
    hide PositionFrom;
    if i > 0 {
      CountTwice(items[1..], list, i - 1, j - 1);
    } else {
      CountAtLeast(items[1..], list, j - 1);
    }
  }

  lemma {:induction false} ItemHasNoComma(list: seq<byte>, from: nat, i: nat)
    requires i < |ItemsFrom(list, from)|
    ensures forall k :: 0 <= k < |ItemsFrom(list, from)[i]| ==> ItemsFrom(list, from)[i][k] != COMMA
    decreases |list| - from
  {
    hide IndexOf;
    var e := IndexOf(list, COMMA, from);
    if i > 0 { ItemHasNoComma(list, e + 1, i - 1); }
  }

  /** A text without a comma is a list of one item. */
  lemma OneItem(item: seq<byte>)
    requires item != [] && forall k :: 0 <= k < |item| ==> item[k] != COMMA
    ensures Items(item) == [item] && Commas(item) == 0 && NoDuplicates(Items(item))
    ensures Canons(Items(item)) == {CanonOf(item)}
  {
    hide CanonOf;
    CommaFree(item);
    assert IndexOf(item, COMMA, 0) == |item| && item[0..|item|] == item;
    assert ItemsFrom(item, |item| + 1) == [] && [item] + [] == [item];
    CanonsCons(item, []);
    assert |Canons([])| == 0;
  }

  /** The counts agree exactly when every item of the sublist occurs. */
  ghost predicate TestRight(list: seq<byte>, sublist: seq<byte>) {
    CountIn(Items(list), sublist) == Commas(sublist) + 1 <==> Canons(Items(sublist)) <= Canons(Items(list))
  }

  ghost predicate ProperSublist(sublist: seq<byte>) {
    sublist != [] && !EndsInComma(sublist) && NoDuplicates(Items(sublist))
  }

  /** An item as a sublist; a blank stands for the empty item, since no bytes are a list without items. */
  function AsSublist(item: seq<byte>): (sub: seq<byte>)
    ensures sub != []
  {
    if item == [] then [32] else item
  }

  lemma BlankIsEmpty()
    ensures Same([32], [])
  {
    assert Trimmed([32]) == [];
  }

  /** An item that the list repeats is counted twice. */
  lemma RepeatedItemDeceives(list: seq<byte>, i: nat, j: nat)
    requires i < j < |Items(list)| && Same(Items(list)[i], Items(list)[j])
    ensures var sub := AsSublist(Items(list)[i]); ProperSublist(sub) && !TestRight(list, sub)
  {
    hide CanonOf, CountIn, PositionFrom;
    var items := Items(list);
    var sub := AsSublist(items[i]);
    ItemHasNoComma(list, 0, i);
    BlankIsEmpty();
    OneItem(sub);
    ContainsMeans(sub, items[i]);
    ContainsMeans(sub, items[j]);
    CountTwice(items, sub, i, j);
    assert CanonOf(sub) in Canons(items);
  }

  /**
   * Main result: the test is right about every sublist without duplicates or a final comma if and only if the list
   * itself has no duplicates.
   */
  lemma TestRightIff(list: seq<byte>)
    ensures NoDuplicates(Items(list)) <==> forall sub :: ProperSublist(sub) ==> TestRight(list, sub)
  {
    hide CanonOf, CountIn, Commas, Canons, Items, ProperSublist, TestRight, AsSublist;
    if NoDuplicates(Items(list)) {
      forall sub | ProperSublist(sub) ensures TestRight(list, sub) { ProperRight(list, sub); }
    } else {
      var i, j :| 0 <= i < j < |Items(list)| && Same(Items(list)[i], Items(list)[j]);
      RepeatedItemDeceives(list, i, j);
    }
  }

  /** A list without duplicates is never said to contain a sublist that ends in a comma. */
  lemma FinalCommaRefused(list: seq<byte>, sub: seq<byte>)
    requires NoDuplicates(Items(list)) && EndsInComma(sub)
    ensures CountIn(Items(list), sub) != Commas(sub) + 1
  {
    hide CanonOf, CountIn, Commas, Canons, NoDuplicates;
    var a, b := Canons(Items(list)), Canons(Items(sub));
    CountIsOverlap(Items(list), sub);
    CommasCountItems(sub, 0);
    assert sub[0..] == sub;
    CanonsSize(Items(sub));
    SubsetSameSize(a * b, b);
  }

  lemma ProperRight(list: seq<byte>, sub: seq<byte>)
    requires NoDuplicates(Items(list)) && ProperSublist(sub)
    ensures TestRight(list, sub)
  {
    hide CanonOf, CountIn, Commas, Canons, Items, NoDuplicates;
    SubsetTestExact(list, sub);
  }

  /** A list with a duplicate deceives the test: "a,a" is said to contain "a,b". */
  lemma DuplicatesDeceive()
    ensures var list, sublist: seq<byte> := [97, COMMA, 97], [97, COMMA, 98];
            CountIn(Items(list), sublist) == Commas(sublist) + 1 && !Occurs([98], Items(list))
  {
    var list: seq<byte>, sublist: seq<byte> := [97, COMMA, 97], [97, COMMA, 98];
    var a: seq<byte>, b: seq<byte> := [97], [98];
    hide Commas, PositionFrom, CanonOf, ItemsFrom;
    ItemsOfThree(97, 97);
    ItemsOfThree(97, 98);
    OneByteCanon(97);
    OneByteCanon(98);
    assert Occurs(a, Items(sublist)) by { assert Items(sublist)[0] == a; }
    ContainsMeans(sublist, a);
    assert CountIn([a, a], sublist) == 2 by { CountTwo(a, sublist); }
    assert Commas(sublist) == 1 by {
      CommasSplit(a, [COMMA, 98]);
      CommasSplit([COMMA], b);
      assert sublist == a + [COMMA, 98] && [COMMA, 98] == [COMMA] + b;
      CommaFree(a);
      CommaFree(b);
    }
    assert a[0] != b[0];
    forall i | 0 <= i < |Items(list)| ensures CanonOf(b) != CanonOf(Items(list)[i]) {}
  }

  lemma CountTwo(a: seq<byte>, list: seq<byte>)
    requires PositionFrom(list, a, 0) != 0
    ensures CountIn([a, a], list) == 2
  {
    assert [a, a][1..] == [a] && [a] == [a] + [];
    assert CountIn([a], list) == 1;
  }

  lemma ItemsOfThree(x: byte, y: byte)
    requires x != COMMA && y != COMMA
    ensures Items([x, COMMA, y]) == [[x], [y]]
  {
    var l: seq<byte> := [x, COMMA, y];
    assert IndexOf(l, COMMA, 0) == 1 && IndexOf(l, COMMA, 2) == 3;
    assert l[0..1] == [x] && l[2..3] == [y];
    assert ItemsFrom(l, 4) == [];
    assert ItemsFrom(l, 2) == [[y]] + [];
    assert ItemsFrom(l, 0) == [[x]] + [[y]];
  }

  lemma OneByteCanon(x: byte)
    requires 97 <= x <= 122
    ensures CanonOf([x]) == Canon(1, [x])
  {
    var s: seq<byte> := [x];
    assert Trimmed(s) == s;
    assert |s[1..]| == 0;
    assert Unescaped(s) == s;
    assert FoldFrom(s, 1, 1) == s[..1] == s;
    assert Folded(s) == s;
    assert UptoNul(s) == s;
    assert Lower(s) == s;
  }
}
