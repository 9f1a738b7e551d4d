// The property table of slp_property.c as a map with write permissions.
module PropertyTable {
  import opened Bytes

  const SLP_PA_USERSET: nat := 1
  const SLP_PA_READONLY: nat := 2

  /** The value of a property and its permission flags. */
  datatype Prop = Prop(value: seq<byte>, attrs: nat)

  type Table = map<seq<byte>, Prop>

  /** A call of SLPPropertySet; a missing value removes the property. */
  datatype Assignment = Assignment(name: seq<byte>, value: Option<seq<byte>>, attrs: nat)

  /** May a property with flags `attrs` be replaced by a call with flags `given`? */
  predicate MayUpdate(attrs: nat, given: nat) {
    attrs == 0 || (attrs == SLP_PA_USERSET && given == SLP_PA_USERSET)
  }

  predicate Refused(m: Table, a: Assignment) {
    a.name == [] || (a.name in m && !MayUpdate(m[a.name].attrs, a.attrs))
  }

  function Assign(m: Table, a: Assignment): Table {
    if Refused(m, a) then m
    else match a.value
         case None => m - {a.name}
         case Some(v) => m[a.name := Prop(v, a.attrs)]
  }

  /** A call that is not refused removes the property exactly when it brings no value. */
  lemma RemovedIff(m: Table, a: Assignment)
    requires !Refused(m, a)
    ensures a.name !in Assign(m, a) <==> a.value.None?
  {
  }

  /** The comment on SLPPropertySet says that an empty value erases the property. It is stored. */
  lemma EmptyValueIsStored(m: Table, name: seq<byte>, attrs: nat)
    requires !Refused(m, Assignment(name, Some([]), attrs))
    ensures var r := Assign(m, Assignment(name, Some([]), attrs)); name in r && r[name] == Prop([], attrs)
  {
  }

  function AssignAll(m: Table, calls: seq<Assignment>): Table {
    if calls == [] then m else Assign(AssignAll(m, calls[..|calls| - 1]), calls[|calls| - 1])
  }

  lemma {:induction false} AssignAllConcat(m: Table, a: seq<Assignment>, b: seq<Assignment>)
    ensures AssignAll(m, a + b) == AssignAll(AssignAll(m, a), b)
  {
    if b == [] {
      assert a + b == a;
    } else {
      assert (a + b)[..|a + b| - 1] == a + b[..|b| - 1];
      AssignAllConcat(m, a, b[..|b| - 1]);
    }
  }

  // ----- What no run can do -----

  /** Main result: over every run, an entry that is neither clean nor user-settable never changes or disappears. */
  lemma {:induction false} FrozenStays(m: Table, calls: seq<Assignment>, name: seq<byte>)
    requires name in m && m[name].attrs != 0 && m[name].attrs != SLP_PA_USERSET
    ensures name in AssignAll(m, calls) && AssignAll(m, calls)[name] == m[name]
  {
    if calls != [] { FrozenStays(m, calls[..|calls| - 1], name); }
  }

  /** Main result: over every run without a user's call for the name, a user-settable entry stays. */
  lemma {:induction false} UserSetStays(m: Table, calls: seq<Assignment>, name: seq<byte>)
    requires name in m && m[name].attrs == SLP_PA_USERSET
    requires forall i :: 0 <= i < |calls| && calls[i].name == name ==> calls[i].attrs != SLP_PA_USERSET
    ensures name in AssignAll(m, calls) && AssignAll(m, calls)[name] == m[name]
  {
    if calls != [] { UserSetStays(m, calls[..|calls| - 1], name); }
  }

  // ----- Who wins -----

  /** The first call that freezes the name, or |calls|. */
  function FirstFreeze(calls: seq<Assignment>, name: seq<byte>): (k: nat)
    ensures k <= |calls| && (k < |calls| ==> calls[k].name == name && calls[k].attrs == SLP_PA_READONLY)
    ensures forall i :: 0 <= i < k ==> calls[i].name != name || calls[i].attrs != SLP_PA_READONLY
  {
    if calls == [] || (calls[0].name == name && calls[0].attrs == SLP_PA_READONLY) then 0
    else 1 + FirstFreeze(calls[1..], name)
  }

  /** The last call for the name, or -1. */
  function LastCall(calls: seq<Assignment>, name: seq<byte>): (k: int)
    ensures -1 <= k < |calls| && (k >= 0 ==> calls[k].name == name)
    ensures forall i :: k < i < |calls| ==> calls[i].name != name
  {
    if calls == [] || calls[|calls| - 1].name == name then |calls| - 1 else LastCall(calls[..|calls| - 1], name)
  }

  /** The calls made while reading configuration files set values, unrestricted or read-only. */
  predicate FileCalls(calls: seq<Assignment>) {
    forall i :: 0 <= i < |calls| ==> calls[i].value.Some? && (calls[i].attrs == 0 || calls[i].attrs == SLP_PA_READONLY)
  }

  /** The call whose value a name ends up with, or -1. */
  function Winner(calls: seq<Assignment>, name: seq<byte>): (k: int)
    ensures -1 <= k < |calls|
  {
    var k := FirstFreeze(calls, name);
    if k < |calls| then k else LastCall(calls, name)
  }

  lemma FirstFreezeIs(calls: seq<Assignment>, name: seq<byte>, k: nat)
    requires k <= |calls| && (k < |calls| ==> calls[k].name == name && calls[k].attrs == SLP_PA_READONLY)
    requires forall i :: 0 <= i < k ==> calls[i].name != name || calls[i].attrs != SLP_PA_READONLY
    ensures FirstFreeze(calls, name) == k
  {
  }

  lemma LastCallStep(before: seq<Assignment>, last: Assignment, name: seq<byte>)
    ensures LastCall(before + [last], name) == if last.name == name then |before| else LastCall(before, name)
  {
    assert (before + [last])[..|before|] == before;
  }

  /** What one more call does to the winner. */
  lemma WinnerStep(before: seq<Assignment>, last: Assignment, name: seq<byte>)
    ensures var calls := before + [last]; var k := FirstFreeze(before, name);
            Winner(calls, name) ==
                    if k < |before| then k else if last.name == name then |before| else Winner(before, name)
  {
    hide FirstFreeze, LastCall;
    var calls := before + [last];
    var k := FirstFreeze(before, name);
    LastCallStep(before, last, name);
    if k < |before| {
      FirstFreezeIs(calls, name, k);
    } else if last.name == name && last.attrs == SLP_PA_READONLY {
      FirstFreezeIs(calls, name, |before|);
    } else {
      FirstFreezeIs(calls, name, |calls|);
    }
  }

  /**
   * Main result: from an empty table each name ends up with its first read-only assignment, or, if there is none,
   * with its last assignment.
   */
  lemma {:induction false} FilesDecide(calls: seq<Assignment>, name: seq<byte>)
    requires FileCalls(calls) && name != []
    ensures var m := AssignAll(map[], calls); var k := Winner(calls, name);
            && (name in m <==> k >= 0)
            && (k >= 0 ==> m[name] == Prop(calls[k].value.value, calls[k].attrs))
  {
    hide Winner, FirstFreeze;
    if calls != [] {
      var before, last := calls[..|calls| - 1], calls[|calls| - 1];
      assert calls == before + [last];
      FilesDecide(before, name);
      WinnerStep(before, last, name);
      WinnerIs(before, name);
    } else {
      assert Winner(calls, name) < 0;
    }
  }

  /** A winner exists if a call froze the name; it is frozen exactly in that case. */
  lemma WinnerIs(calls: seq<Assignment>, name: seq<byte>)
    requires FileCalls(calls)
    ensures var k, w := FirstFreeze(calls, name), Winner(calls, name);
            && (k < |calls| ==> w == k)
            && (w >= 0 ==> calls[w].name == name && (calls[w].attrs != 0 <==> k < |calls|))
  {
  }
}
