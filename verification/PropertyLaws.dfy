// What calls and configuration files do to the properties.
module PropertyLaws {
  import opened Bytes
  import opened PropertyTable
  import opened PropertyList

  // ----- One call -----

  /** A property that nobody has restricted, or that the user may set. */
  predicate UserMaySet(m: Table, name: seq<byte>) {
    name !in m || m[name].attrs == 0 || m[name].attrs == SLP_PA_USERSET
  }

  /** Main result: a user's call takes effect on every property that is not restricted to others. */
  lemma UserCallWorks(m: Table, name: seq<byte>, value: Option<seq<byte>>)
    requires name != [] && UserMaySet(m, name)
    ensures var r := Assign(m, Assignment(name, value, SLP_PA_USERSET));
            r == match value case Some(v) => m[name := Prop(v, SLP_PA_USERSET)] case None => m - {name}
  {
  }

  /** Any call takes effect on a property that nobody has restricted. */
  lemma CleanIsReplaced(m: Table, a: Assignment)
    requires a.name != [] && (a.name in m ==> m[a.name].attrs == 0)
    ensures Assign(m, a) == match a.value case Some(v) => m[a.name := Prop(v, a.attrs)] case None => m - {a.name}
  {
  }

  /** A property without a name is never set. */
  lemma NoName(m: Table, value: Option<seq<byte>>, attrs: nat)
    ensures Assign(m, Assignment([], value, attrs)) == m
  {
  }

  /**
   * Main result: after any run of a user's calls, a property that was not restricted to others has the value of the
   * last call for it, or is gone if that had none; without a call for it, it is as before.
   */
  lemma {:induction false} UserDecides(m: Table, calls: seq<Assignment>, name: seq<byte>)
    requires name != [] && UserMaySet(m, name) && forall i :: 0 <= i < |calls| ==> calls[i].attrs == SLP_PA_USERSET
    ensures var r, k := AssignAll(m, calls), LastCall(calls, name);
            && UserMaySet(r, name)
            && (k < 0 ==> (name in r <==> name in m) && (name in m ==> r[name] == m[name]))
            && (k >= 0 ==> match calls[k].value
                           case Some(v) => name in r && r[name] == Prop(v, SLP_PA_USERSET)
                           case None => name !in r)
  {
    if calls != [] {
      UserDecides(m, calls[..|calls| - 1], name);
    }
  }

  // ----- Configuration files -----

  /** The lines of a file that is configured and can be read. */
  function LinesOf(file: ConfFile): seq<(seq<byte>, seq<byte>)> {
    if file.path == [] || !file.readable then [] else file.lines
  }

  /** The value in the last line for a name. */
  function LastValue(lines: seq<(seq<byte>, seq<byte>)>, name: seq<byte>): Option<seq<byte>> {
    if lines == [] then None
    else if lines[|lines| - 1].0 == name then Some(lines[|lines| - 1].1)
    else LastValue(lines[..|lines| - 1], name)
  }

  /** What a table says of a name. */
  function Get(m: Table, name: seq<byte>): Option<Prop> {
    if name in m then Some(m[name]) else None
  }

  predicate Unrestricted(p: Option<Prop>) {
    p.Some? ==> p.value.attrs == 0
  }

  function Override(p: Option<Prop>, value: Option<seq<byte>>): Option<Prop> {
    if value.Some? then Some(Prop(value.value, 0)) else p
  }

  lemma {:induction false} LinesOverride(m: Table, lines: seq<(seq<byte>, seq<byte>)>, name: seq<byte>)
    requires name != [] && Unrestricted(Get(m, name))
    ensures Get(AssignAll(m, LineCalls(lines)), name) == Override(Get(m, name), LastValue(lines, name))
  {
    if lines != [] {
      var n := |lines| - 1;
      LinesOverride(m, lines[..n], name);
      assert LineCalls(lines)[..n] == LineCalls(lines[..n]);
    }
  }

  lemma FileOverrides(m: Table, file: ConfFile, pathName: seq<byte>, name: seq<byte>)
    requires name != [] && name != pathName && Unrestricted(Get(m, name))
    ensures Get(AssignAll(m, FileAssignments(file, pathName)), name)
         == Override(Get(m, name), LastValue(LinesOf(file), name))
  {
    hide LineCalls, LastValue;
    if file.path != [] && file.readable {
      LinesOverride(m, file.lines, name);
      OneMore(m, LineCalls(file.lines), Assignment(pathName, Some(file.path), SLP_PA_READONLY));
    } else {
      assert LastValue([], name) == None by { NoLines(name); }
    }
  }

  lemma NoLines(name: seq<byte>)
    ensures LastValue([], name) == None
  {
  }

  lemma InOrder(c: Config)
    ensures var a, b := LineCalls(c.defaults), FileAssignments(c.global, c.globalName);
            var d, e := FileAssignments(c.env, c.envName), FileAssignments(c.app, c.appName);
            AssignAll(map[], Assignments(c))
            == AssignAll(AssignAll(AssignAll(AssignAll(AssignAll(map[], a), b), d), e), MtuCall(c))
  {
    hide LineCalls, FileAssignments, MtuCall, AssignAll;
    var a, b := LineCalls(c.defaults), FileAssignments(c.global, c.globalName);
    var d, e := FileAssignments(c.env, c.envName), FileAssignments(c.app, c.appName);
    AssignAllConcat(map[], a, b);
    AssignAllConcat(map[], a + b, d);
    AssignAllConcat(map[], a + b + d, e);
    AssignAllConcat(map[], a + b + d + e, MtuCall(c));
  }

  /**
   * Main result: what a name that records no path ends up with is its last line in the file of the application, or
   * else in that of the environment, in the global file, or among the defaults; but the MTU is the kernel's.
   */
  lemma LaterFilesOverride(c: Config, name: seq<byte>)
    requires name != [] && name != c.globalName && name != c.envName && name != c.appName
    ensures var app, env := LastValue(LinesOf(c.app), name), LastValue(LinesOf(c.env), name);
            var global, default := LastValue(LinesOf(c.global), name), LastValue(c.defaults, name);
            Get(AssignAll(map[], Assignments(c)), name)
            == if name == c.mtuName && c.kernelMtu.Some? then Some(Prop(c.kernelMtu.value, 0))
               else if app.Some? then Some(Prop(app.value, 0))
               else if env.Some? then Some(Prop(env.value, 0))
               else if global.Some? then Some(Prop(global.value, 0))
               else if default.Some? then Some(Prop(default.value, 0)) else None
  {
    hide LineCalls, FileAssignments, AssignAll, LastValue, LinesOf;
    InOrder(c);
    var m0 := AssignAll(map[], LineCalls(c.defaults));
    var m1 := AssignAll(m0, FileAssignments(c.global, c.globalName));
    var m2 := AssignAll(m1, FileAssignments(c.env, c.envName));
    var m3 := AssignAll(m2, FileAssignments(c.app, c.appName));
    LinesOverride(map[], c.defaults, name);
    FileOverrides(m0, c.global, c.globalName, name);
    FileOverrides(m1, c.env, c.envName, name);
    FileOverrides(m2, c.app, c.appName, name);
    MtuOverrides(m3, c, name);
  }

  lemma MtuOverrides(m: Table, c: Config, name: seq<byte>)
    requires name != [] && Unrestricted(Get(m, name))
    ensures Get(AssignAll(m, MtuCall(c)), name)
         == if name == c.mtuName && c.kernelMtu.Some? then Some(Prop(c.kernelMtu.value, 0)) else Get(m, name)
  {
    if c.kernelMtu.Some? {
      assert [] + MtuCall(c) == MtuCall(c);
      OneMore(m, [], MtuCall(c)[0]);
    }
  }

  /** A file that is read records its path for good, whatever follows. */
  lemma PathStays(m: Table, file: ConfFile, pathName: seq<byte>, more: seq<Assignment>)
    requires pathName != [] && Unrestricted(Get(m, pathName)) && file.path != [] && file.readable
    ensures Get(AssignAll(AssignAll(m, FileAssignments(file, pathName)), more), pathName)
         == Some(Prop(file.path, SLP_PA_READONLY))
  {
    hide LineCalls;
    LinesOverride(m, file.lines, pathName);
    OneMore(m, LineCalls(file.lines), Assignment(pathName, Some(file.path), SLP_PA_READONLY));
    FrozenStays(AssignAll(m, FileAssignments(file, pathName)), more, pathName);
  }
}
