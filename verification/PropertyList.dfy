// The list behind the property table: SLPPropertySet, the cleanup, and the reading of configuration files.
module PropertyList {
  import opened Bytes
  import opened LinkedList
  import opened PropertyTable

  datatype Entry = Entry(name: seq<byte>, prop: Prop)

  // ----- The list as a map -----

  function FindName(vs: seq<Entry>, name: seq<byte>): (k: nat)
    ensures k <= |vs| && (k < |vs| ==> vs[k].name == name)
    ensures forall i :: 0 <= i < k ==> vs[i].name != name
  {
    if vs == [] || vs[0].name == name then 0 else 1 + FindName(vs[1..], name)
  }

  /** What lookups see: the first entry of a name counts. */
  function TableOf(vs: seq<Entry>): Table {
    if vs == [] then map[] else TableOf(vs[1..])[vs[0].name := vs[0].prop]
  }

  ghost predicate UniqueNames(vs: seq<Entry>) {
    forall i, j :: 0 <= i < j < |vs| ==> vs[i].name != vs[j].name
  }

  lemma {:induction false} TableGet(vs: seq<Entry>, name: seq<byte>)
    ensures name in TableOf(vs) <==> FindName(vs, name) < |vs|
    ensures name in TableOf(vs) ==> TableOf(vs)[name] == vs[FindName(vs, name)].prop
  {
    if vs != [] { TableGet(vs[1..], name); }
  }

  lemma UniqueWithout(vs: seq<Entry>, k: nat)
    requires UniqueNames(vs) && k < |vs|
    ensures UniqueNames(Without(vs, k)) && forall i :: 0 <= i < |vs| - 1 ==> Without(vs, k)[i].name != vs[k].name
  {
    var rest := Without(vs, k);
    forall i | 0 <= i < |rest| ensures rest[i].name != vs[k].name {
      var i' := if i < k then i else i + 1;
      assert rest[i] == vs[i'];
    }
    forall i, j | 0 <= i < j < |rest| ensures rest[i].name != rest[j].name {
      var i', j' := if i < k then i else i + 1, if j < k then j else j + 1;
      assert rest[i] == vs[i'] && rest[j] == vs[j'];
    }
  }

  lemma UniqueTail(vs: seq<Entry>)
    requires UniqueNames(vs) && vs != []
    ensures UniqueNames(vs[1..]) && forall i :: 0 < i < |vs| ==> vs[i].name != vs[0].name
  {
  }

  lemma WithoutLater(vs: seq<Entry>, k: nat)
    requires k < |vs|
    ensures Without(vs, k) == if k == 0 then vs[1..] else [vs[0]] + Without(vs[1..], k - 1)
  {
  }

  lemma {:induction false} TableWithout(vs: seq<Entry>, k: nat)
    requires UniqueNames(vs) && k < |vs|
    ensures TableOf(Without(vs, k)) == TableOf(vs) - {vs[k].name}
  {
    hide FindName, Without, UniqueNames;
    var rest := Without(vs, k);
    WithoutLater(vs, k);
    UniqueTail(vs);
    if k == 0 {
      TableGet(rest, vs[0].name);
    } else {
      assert rest[1..] == Without(vs[1..], k - 1);
      TableWithout(vs[1..], k - 1);
    }
  }

  /** The list after a call of SLPPropertySet: a new entry is linked at the head. */
  function Updated(vs: seq<Entry>, a: Assignment): seq<Entry> {
    var k := FindName(vs, a.name);
    if a.name == [] || (k < |vs| && !MayUpdate(vs[k].prop.attrs, a.attrs)) then vs
    else (if a.value.Some? then [Entry(a.name, Prop(a.value.value, a.attrs))] else []) + Without(vs, k)
  }

  /** Main result: the list keeps its names unique and changes as the map does. */
  lemma UpdatedIsAssign(vs: seq<Entry>, a: Assignment)
    requires UniqueNames(vs)
    ensures UniqueNames(Updated(vs, a)) && TableOf(Updated(vs, a)) == Assign(TableOf(vs), a)
  {
    hide FindName, UniqueNames, Without, TableOf, MayUpdate;
    var k := FindName(vs, a.name);
    var rest := Without(vs, k);
    TableGet(vs, a.name);
    if k < |vs| {
      TableWithout(vs, k);
      UniqueWithout(vs, k);
      WithoutMembers(vs, k);
    } else {
      WithoutNone(vs, k);
    }
    if !Refused(TableOf(vs), a) {
      match a.value
      case None => assert [] + rest == rest;
      case Some(v) => UniqueCons(Entry(a.name, Prop(v, a.attrs)), rest);
    }
  }

  lemma RefusedIs(vs: seq<Entry>, a: Assignment)
    ensures var k := FindName(vs, a.name);
      Refused(TableOf(vs), a) <==> a.name == [] || (k < |vs| && !MayUpdate(vs[k].prop.attrs, a.attrs))
  {
    hide FindName, TableOf;
    TableGet(vs, a.name);
  }

  lemma UniqueCons(e: Entry, vs: seq<Entry>)
    requires UniqueNames(vs) && forall i :: 0 <= i < |vs| ==> vs[i].name != e.name
    ensures UniqueNames([e] + vs) && TableOf([e] + vs) == TableOf(vs)[e.name := e.prop]
  {
    assert ([e] + vs)[1..] == vs;
  }

  lemma WithoutMembers<T>(s: seq<T>, k: nat)
    ensures |Without(s, k)| == if k < |s| then |s| - 1 else |s|
    ensures forall i :: 0 <= i < |Without(s, k)| ==> Without(s, k)[i] in s
  {
  }

  // ----- The configuration -----

  /** A configuration file: its path, empty if not configured; whether it can be read; its name-value lines. */
  datatype ConfFile = ConfFile(path: seq<byte>, readable: bool, lines: seq<(seq<byte>, seq<byte>)>)

  function LineCalls(lines: seq<(seq<byte>, seq<byte>)>): (calls: seq<Assignment>)
    ensures |calls| == |lines| && FileCalls(calls)
  {
    seq(|lines|, i requires 0 <= i < |lines| => Assignment(lines[i].0, Some(lines[i].1), 0))
  }

  /** The calls that reading one file makes: its lines, then its path as a read-only property. */
  function FileAssignments(file: ConfFile, pathName: seq<byte>): (calls: seq<Assignment>)
    ensures FileCalls(calls)
  {
    if file.path == [] || !file.readable then []
    else LineCalls(file.lines) + [Assignment(pathName, Some(file.path), SLP_PA_READONLY)]
  }

  /**
   * The files of a configuration and the names of the properties that record their paths; the name of the MTU
   * property, and the value the kernel forces on it, if it does.
   */
  datatype Config = Config(
    defaults: seq<(seq<byte>, seq<byte>)>,
    global: ConfFile, env: ConfFile, app: ConfFile,
    globalName: seq<byte>, envName: seq<byte>, appName: seq<byte>,
    mtuName: seq<byte>, kernelMtu: Option<seq<byte>>)

  /** The call that InitializeMTUPropertyValue makes if the kernel forces another size. */
  function MtuCall(c: Config): (calls: seq<Assignment>)
    ensures FileCalls(calls)
  {
    if c.kernelMtu.None? then [] else [Assignment(c.mtuName, c.kernelMtu, 0)]
  }

  /** Defaults, then the global, environment and application files, then the adjustment of the MTU. */
  function Assignments(c: Config): (calls: seq<Assignment>)
    ensures FileCalls(calls)
  {
    FilesOf(c) + MtuCall(c)
  }

  function FilesOf(c: Config): (calls: seq<Assignment>)
    ensures FileCalls(calls)
  {
    LineCalls(c.defaults) + FileAssignments(c.global, c.globalName) + FileAssignments(c.env, c.envName)
    + FileAssignments(c.app, c.appName)
  }

  // ----- The operations on s_PropertyList -----

  class Properties {
    var list: SLPList<Entry>

    ghost predicate Valid()
      reads this, list, list.nodes
    {
      list.Valid() && UniqueNames(list.Values())
    }

    ghost function Contents(): (m: Table)
      reads this, list
    {
      TableOf(list.Values())
    }

    constructor ()
      ensures Valid() && Contents() == map[] && fresh(list)
    {
      list := new SLPList<Entry>();
    }

    /** Find. */
    method Find(name: seq<byte>) returns (property: ListItem?<Entry>, ghost k: nat)
      requires Valid()
      ensures k == FindName(list.Values(), name)
      ensures var f := FindName(list.Values(), name); property == if f < |list.nodes| then list.nodes[f] else null
    {
      hide FindName, UniqueNames;
      ghost var vs := list.Values();
      property, k := list.head, 0;
      while property != null && property.val.name != name
        invariant k <= |vs| && k <= FindName(vs, name)
        invariant property == if k < |list.nodes| then list.nodes[k] else null
        decreases |vs| - k
      {
        assert list.Linked(k) && vs[k] == property.val;
        property := property.next;
        k := k + 1;
      }
      assert k < |vs| ==> vs[k] == property.val;
    }

    /** Locates and possibly removes the old property; `update` tells whether a new one may take its place. */
    method RemoveOld(a: Assignment) returns (update: bool)
      requires Valid()
      modifies list, list.nodes
      ensures var vs := old(list.Values()); var k := FindName(vs, a.name);
              && update == (k == |vs| || MayUpdate(vs[k].prop.attrs, a.attrs))
              && list.Values() == if update then Without(vs, k) else vs
      ensures list.Valid() && forall i :: 0 <= i < |list.nodes| ==> list.nodes[i] in old(list.nodes)
    {
      hide FindName, TableOf, UniqueNames, SLPList.Valid, SLPList.Values, Without, Records;
      ghost var vs := list.Values();
      var oldprop, k := Find(a.name);
      update := true;
      if oldprop != null {
        assert oldprop.val == vs[k];
        update := oldprop.val.prop.attrs == 0
          || (oldprop.val.prop.attrs == SLP_PA_USERSET && a.attrs == SLP_PA_USERSET);
        if update {
          WithoutMembers(list.nodes, k);
          list.Unlink(oldprop, k);
        }
      } else {
        WithoutNone(vs, k);
      }
    }

    /** SLPPropertySet. */
    method Set(a: Assignment) returns (r: int)
      requires Valid()
      modifies this, list, list.nodes
      ensures Valid() && list == old(list)
      ensures forall i :: 0 <= i < |list.nodes| ==> list.nodes[i] in old(list.nodes) || fresh(list.nodes[i])
      ensures Contents() == Assign(old(Contents()), a)
      ensures r == if Refused(old(Contents()), a) then -1 else 0
    {
      hide FindName, TableOf, UniqueNames, SLPList.Valid, SLPList.Values, Without, Assign, Records, Refused, MayUpdate;
      ghost var vs := list.Values();
      UpdatedIsAssign(vs, a);
      RefusedIs(vs, a);
      if |a.name| == 0 { return -1; }
      var newprop: ListItem?<Entry> := null;
      if a.value.Some? { newprop := new ListItem(Entry(a.name, Prop(a.value.value, a.attrs))); }
      var update := RemoveOld(a);
      if newprop != null && update { list.LinkHead(newprop); }
      assert list.Values() == Updated(vs, a);
      return if update then 0 else -1;
    }

    /** SLPPropertyCleanup: every entry is freed once, in order, and the list is zeroed. */
    method Cleanup() returns (ghost freed: seq<ListItem<Entry>>)
      requires Valid()
      modifies list
      ensures Valid() && list.nodes == [] && Contents() == map[] && freed == old(list.nodes)
    {
      hide UniqueNames, TableOf;
      var property := list.head;
      freed := [];
      while property != null
        invariant |freed| <= |list.nodes| && freed == list.nodes[..|freed|]
        invariant property == if |freed| < |list.nodes| then list.nodes[|freed|] else null
        decreases |list.nodes| - |freed|
      {
        assert list.Linked(|freed|);
        var del := property;
        property := property.next;
        freed := freed + [del];
      }
      list.head, list.tail, list.count, list.nodes := null, null, 0, [];
      NoEntries(list.Values());
    }

    /** The calls that ReadFileProperties makes for the lines of a file. */
    method SetLines(lines: seq<(seq<byte>, seq<byte>)>)
      requires Valid()
      modifies this, list, list.nodes
      ensures Valid() && list == old(list)
              && forall i :: 0 <= i < |list.nodes| ==> list.nodes[i] in old(list.nodes) || fresh(list.nodes[i])
      ensures Contents() == AssignAll(old(Contents()), LineCalls(lines))
    {
      hide Assign, TableOf, UniqueNames, Properties.Valid, Properties.Contents, SLPList.Valid, SLPList.Values;
      var i := 0;
      ghost var m := Contents();
      while i < |lines|
        invariant i <= |lines| && Valid() && list == old(list)
        invariant forall i :: 0 <= i < |list.nodes| ==> list.nodes[i] in old(list.nodes) || fresh(list.nodes[i])
        invariant Contents() == AssignAll(m, LineCalls(lines)[..i])
      {
        var r := Set(Assignment(lines[i].0, Some(lines[i].1), 0));
        assert LineCalls(lines)[..i + 1][..i] == LineCalls(lines)[..i];
        i := i + 1;
      }
      assert LineCalls(lines)[..i] == LineCalls(lines);
    }

    /** Reading one file: its lines, and its path as a read-only property if it could be read. */
    method ReadFile(file: ConfFile, pathName: seq<byte>)
      requires Valid()
      modifies this, list, list.nodes
      ensures Valid() && list == old(list)
      ensures forall i :: 0 <= i < |list.nodes| ==> list.nodes[i] in old(list.nodes) || fresh(list.nodes[i])
      ensures Contents() == AssignAll(old(Contents()), FileAssignments(file, pathName))
    {
      hide Assign, TableOf, UniqueNames, LineCalls;
      if |file.path| != 0 && file.readable {
        SetLines(file.lines);
        var a := Assignment(pathName, Some(file.path), SLP_PA_READONLY);
        var r := Set(a);
        OneMore(old(Contents()), LineCalls(file.lines), a);
      }
    }

    /** SetDefaultValues; with unrestricted, named defaults no call on a clean table is refused. */
    method SetDefaults(defaults: seq<(seq<byte>, seq<byte>)>) returns (r: int)
      requires Valid() && Contents() == map[] && forall i :: 0 <= i < |defaults| ==> defaults[i].0 != []
      modifies this, list, list.nodes
      ensures Valid() && list == old(list)
      ensures forall i :: 0 <= i < |list.nodes| ==> list.nodes[i] in old(list.nodes) || fresh(list.nodes[i])
      ensures r == 0 && Contents() == AssignAll(map[], LineCalls(defaults))
    {
      hide TableOf, UniqueNames;
      var i := 0;
      while i < |defaults|
        invariant i <= |defaults| && Valid() && list == old(list)
        invariant forall k :: 0 <= k < |list.nodes| ==> list.nodes[k] in old(list.nodes) || fresh(list.nodes[k])
        invariant Contents() == AssignAll(map[], LineCalls(defaults)[..i])
        invariant forall n :: n in Contents() ==> Contents()[n].attrs == 0
      {
        r := Set(Assignment(defaults[i].0, Some(defaults[i].1), 0));
        if r != 0 { return -1; }
        assert LineCalls(defaults)[..i + 1][..i] == LineCalls(defaults)[..i];
        i := i + 1;
      }
      assert LineCalls(defaults)[..i] == LineCalls(defaults);
      return 0;
    }

    /** ReadPropertyFiles on a clean table. */
    method ReadPropertyFiles(c: Config) returns (r: int)
      requires Valid() && Contents() == map[] && forall i :: 0 <= i < |c.defaults| ==> c.defaults[i].0 != []
      modifies this, list, list.nodes
      ensures Valid() && list == old(list)
      ensures forall i :: 0 <= i < |list.nodes| ==> list.nodes[i] in old(list.nodes) || fresh(list.nodes[i])
      ensures r == 0 && Contents() == AssignAll(map[], FilesOf(c))
    {
      hide Assign, AssignAll, TableOf, UniqueNames, FileAssignments, LineCalls, Properties.Valid, Properties.Contents;
      r := SetDefaults(c.defaults);
      if r != 0 { return -1; }
      ReadFile(c.global, c.globalName);
      ReadFile(c.env, c.envName);
      ReadFile(c.app, c.appName);
      var a, b, d := LineCalls(c.defaults), FileAssignments(c.global, c.globalName), FileAssignments(c.env, c.envName);
      AssignAllConcat(map[], a, b);
      AssignAllConcat(map[], a + b, d);
      AssignAllConcat(map[], a + b + d, FileAssignments(c.app, c.appName));
      return 0;
    }

    /** SLPPropertyReinit: the cleanup, the files, and the adjustment of the MTU. */
    method Reinit(c: Config) returns (r: int)
      requires Valid() && forall i :: 0 <= i < |c.defaults| ==> c.defaults[i].0 != []
      modifies this, list, list.nodes
      ensures Valid() && r == 0 && Contents() == AssignAll(map[], Assignments(c))
    {
      hide Assign, TableOf, UniqueNames, FilesOf;
      ghost var freed := Cleanup();
      r := ReadPropertyFiles(c);
      if c.kernelMtu.Some? {
        var a := Assignment(c.mtuName, c.kernelMtu, 0);
        var s := Set(a);
        OneMore(map[], FilesOf(c), a);
      } else {
        assert FilesOf(c) + [] == FilesOf(c);
      }
    }
  }

  lemma OneMore(m: Table, calls: seq<Assignment>, a: Assignment)
    ensures AssignAll(m, calls + [a]) == Assign(AssignAll(m, calls), a)
  {
    assert (calls + [a])[..|calls|] == calls;
  }

  lemma NoEntries(vs: seq<Entry>)
    requires vs == []
    ensures UniqueNames(vs) && TableOf(vs) == map[]
  {
  }
}
