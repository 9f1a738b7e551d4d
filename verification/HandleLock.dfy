// The lock of an open handle, under threads in any interleaving.
module HandleLock {
  import opened Bytes

  datatype Op = FindSrvs | FindAttrs | FindSrvTypes | FindScopes | Reg | Dereg

  /** What a word of handle->params holds. */
  datatype Word = Number | Text | Function | Cookie

  /** The words of handle->params that the operation assigns, in the order of the assignments. */
  function Layout(op: Op): (words: seq<Word>)
    ensures |words| <= PARAM_WORDS
  {
    match op
    case FindSrvs | FindAttrs => [Number, Text, Number, Text, Number, Text, Function, Cookie]
    case FindSrvTypes => [Number, Text, Number, Text, Function, Cookie]
    case FindScopes => []
    case Reg =>
      [Number, Number, Number, Text, Text, Number, Text, Number, Number, Text, Function, Cookie]
    case Dereg => [Text, Number, Number, Text, Function, Cookie]
  }

  function Fields(op: Op): nat {
    |Layout(op)|
  }

  /** The words that hold caller's strings, in the order an asynchronous operation replaces them by copies. */
  function Copies(op: Op): seq<nat> {
    match op
    case FindSrvs | FindAttrs => [1, 3, 5]
    case FindSrvTypes => [1, 3]
    case FindScopes => []
    case Reg => [3, 4, 6, 9]
    case Dereg => [3, 0]
  }

  const PARAM_WORDS: nat := 12

  /** Threads of the application, and the worker started for an acquisition. */
  datatype Tid = App(id: nat) | Worker(ticket: nat)

  /** Where a thread is. `ticket` numbers the acquisition it works for. */
  datatype Pc =
    | Idle
    | Trying(op: Op)
    | Entered(op: Op, ticket: nat)
    | Setting(op: Op, ticket: nat, n: nat)
    | Copying(op: Op, ticket: nat, n: nat)
    | Starting(op: Op, ticket: nat)
    | Processing(op: Op, ticket: nat)
    | Releasing(ticket: nat)

  predicate Holds(pc: Pc) {
    !pc.Idle? && !pc.Trying?
  }

  datatype Event = Acquired(ticket: nat) | Released(ticket: nat)

  /** What became of an acquisition: a thread has processed its request, or a call on the way failed. */
  datatype Outcome = Served(tid: Tid, op: Op) | GaveUp(op: Op)

  /** Which acquisition wrote the word, and whether it is a copy owned by the handle. */
  datatype Param = Param(ticket: nat, copied: bool)

  /**
   * The shared handle, and the threads that start synchronous and asynchronous operations on it, any number of
   * them. A run is an interleaving of atomic steps; the schedule and the outcome of every fallible call are
   * arbitrary. `owner`, `tickets`, `log` and `outcomes` record the history; no step depends on them, but for the
   * number of the acquisition.
   */
  datatype State = State(
    inUse: int, isAsync: bool, params: seq<Param>, threads: map<Tid, Pc>,
    owner: Option<Tid>, tickets: nat, log: seq<Event>, outcomes: map<nat, Outcome>)

  function At(s: State, tid: Tid): Pc {
    if tid in s.threads then s.threads[tid] else Idle
  }

  function Goto(s: State, tid: Tid, pc: Pc): (r: State)
    ensures r == s.(threads := r.threads)
    ensures forall a :: At(r, a) == if a == tid then pc else At(s, a)
  {
    s.(threads := s.threads[tid := pc])
  }

  /** What the scheduled thread does: a call (if it is idle), its next statement, or that statement's failure. */
  datatype Choice = Call(op: Op) | Go | Fail

  /** SLPAtomicXchg on the lock word: the new word and the old one. */
  function Xchg(word: int, n: int): (int, int) {
    (n, word)
  }

  function Record(s: State, t: nat, outcome: Outcome): State {
    s.(outcomes := s.outcomes[t := outcome])
  }

  function Step(s: State, tid: Tid, choice: Choice): State {
    match At(s, tid)
    case Idle => if tid.App? && choice.Call? then Goto(s, tid, Trying(choice.op)) else s
    case Trying(op) =>
      var (word, was) := Xchg(s.inUse, 1);
      if was != 0 then Goto(s.(inUse := word), tid, Idle)
      else Goto(s.(inUse := word, owner := Some(tid), tickets := s.tickets + 1, log := s.log + [Acquired(s.tickets)]),
                tid, Entered(op, s.tickets))
    case Entered(op, t) =>
      if op == Reg && choice == Fail then Goto(Record(s, t, GaveUp(op)), tid, Releasing(t))
      else Goto(s, tid, Setting(op, t, 0))
    case Setting(op, t, n) =>
      if n < Fields(op) then
        if n < |s.params| then Goto(s.(params := s.params[n := Param(t, false)]), tid, Setting(op, t, n + 1)) else s
      else Goto(s, tid, if s.isAsync && op != FindScopes then Copying(op, t, 0) else Processing(op, t))
    case Copying(op, t, n) =>
      if n < |Copies(op)| then
        var f := Copies(op)[n];
        if f < |s.params| then Goto(s.(params := s.params[f := Param(t, true)]), tid, Copying(op, t, n + 1)) else s
      else Goto(s, tid, Starting(op, t))
    case Starting(op, t) =>
      if choice == Fail then Goto(Record(s, t, GaveUp(op)), tid, Releasing(t))
      else Goto(Goto(s, tid, Idle).(owner := Some(Worker(t))), Worker(t), Processing(op, t))
    case Processing(op, t) => Goto(Record(s, t, Served(tid, op)), tid, Releasing(t))
    case Releasing(t) => Goto(s.(inUse := 0, owner := None, log := s.log + [Released(t)]), tid, Idle)
  }

  /** An open handle that no operation has used. */
  predicate Initial(s: State) {
    && s.inUse == 0 && |s.params| == PARAM_WORDS && s.threads == map[]
    && s.owner == None && s.tickets == 0 && s.log == [] && s.outcomes == map[]
  }

  datatype Move = Move(tid: Tid, choice: Choice)

  function Run(s: State, moves: seq<Move>): State {
    if moves == [] then s else
      var before, last := Run(s, moves[..|moves| - 1]), moves[|moves| - 1];
      Step(before, last.tid, last.choice)
  }

  // ----- The invariant -----

  /** The words below `n` are the ones this acquisition wrote. */
  predicate Wrote(s: State, t: nat, n: nat) {
    n <= |s.params| && forall i :: 0 <= i < n ==> s.params[i].ticket == t
  }

  predicate Copied(s: State, op: Op, n: nat) {
    n <= |Copies(op)| && forall i :: 0 <= i < n ==> Copies(op)[i] < |s.params| && s.params[Copies(op)[i]].copied
  }

  predicate HolderOk(s: State, pc: Pc) {
    match pc
    case Idle | Trying(_) => true
    case Entered(_, t) => t == s.tickets - 1
    case Setting(op, t, n) => t == s.tickets - 1 && n <= Fields(op) && Wrote(s, t, n)
    case Copying(op, t, n) =>
      t == s.tickets - 1 && Wrote(s, t, Fields(op)) && Copied(s, op, n) && s.isAsync && op != FindScopes
    case Starting(op, t) =>
      t == s.tickets - 1 && Wrote(s, t, Fields(op)) && Copied(s, op, |Copies(op)|) && s.isAsync && op != FindScopes
    case Processing(op, t) =>
      t == s.tickets - 1 && Wrote(s, t, Fields(op)) && (s.isAsync ==> Copied(s, op, |Copies(op)|))
    case Releasing(t) => t == s.tickets - 1
  }

  /** The log is Acquired(0), Released(0), Acquired(1), ...; the last release is missing while the handle is owned. */
  predicate Alternates(s: State) {
    && |s.log| == 2 * s.tickets - (if s.owner.Some? then 1 else 0)
    && forall i :: 0 <= i < |s.log| ==> s.log[i] == if i % 2 == 0 then Acquired(i / 2) else Released(i / 2)
  }

  ghost predicate Inv(s: State) {
    && |s.params| == PARAM_WORDS
    && (s.inUse == if s.owner.Some? then 1 else 0)
    && (forall a :: Holds(At(s, a)) <==> s.owner == Some(a))
    && (s.owner.Some? ==> HolderOk(s, At(s, s.owner.value)))
    && (forall t :: At(s, Worker(t)).Trying? ==> false)
    && Alternates(s)
  }

  lemma TryKeepsInv(s: State, tid: Tid, choice: Choice)
    requires Inv(s) && At(s, tid).Trying?
    ensures Inv(Step(s, tid, choice))
  {
  }

  lemma SetKeepsInv(s: State, tid: Tid, choice: Choice)
    requires Inv(s) && (At(s, tid).Entered? || At(s, tid).Setting?)
    ensures Inv(Step(s, tid, choice))
  {
    hide Alternates, Layout;
    assert Alternates(Step(s, tid, choice)) by { SameLog(s, Step(s, tid, choice)); }
  }

  lemma CopyKeepsInv(s: State, tid: Tid, choice: Choice)
    requires Inv(s) && At(s, tid).Copying?
    ensures Inv(Step(s, tid, choice))
  {
    hide Alternates, Layout;
    assert Alternates(Step(s, tid, choice)) by { SameLog(s, Step(s, tid, choice)); }
  }

  lemma StartKeepsInv(s: State, tid: Tid, choice: Choice)
    requires Inv(s) && (At(s, tid).Starting? || At(s, tid).Processing?)
    ensures Inv(Step(s, tid, choice))
  {
    hide Alternates;
    assert Alternates(Step(s, tid, choice)) by { SameLog(s, Step(s, tid, choice)); }
  }

  lemma SameLog(s: State, s': State)
    requires Alternates(s) && s'.log == s.log && s'.tickets == s.tickets && s'.owner.Some? == s.owner.Some?
    ensures Alternates(s')
  {
  }

  lemma ReleaseKeepsInv(s: State, tid: Tid, choice: Choice)
    requires Inv(s) && At(s, tid).Releasing?
    ensures Inv(Step(s, tid, choice))
  {
  }

  lemma CallKeepsInv(s: State, tid: Tid, choice: Choice)
    requires Inv(s) && At(s, tid).Idle?
    ensures Inv(Step(s, tid, choice))
  {
    hide Alternates;
    assert Alternates(Step(s, tid, choice)) by { SameLog(s, Step(s, tid, choice)); }
  }

  lemma StepKeepsInv(s: State, tid: Tid, choice: Choice)
    requires Inv(s)
    ensures Inv(Step(s, tid, choice))
  {
    hide Alternates, HolderOk, Step, Inv;
    match At(s, tid)
    case Idle => CallKeepsInv(s, tid, choice);
    case Trying(_) => TryKeepsInv(s, tid, choice);
    case Entered(_, _) | Setting(_, _, _) => SetKeepsInv(s, tid, choice);
    case Copying(_, _, _) => CopyKeepsInv(s, tid, choice);
    case Starting(_, _) | Processing(_, _) => StartKeepsInv(s, tid, choice);
    case Releasing(_) => ReleaseKeepsInv(s, tid, choice);
  }

  lemma {:induction false} RunKeepsInv(s: State, moves: seq<Move>)
    requires Initial(s)
    ensures Inv(Run(s, moves))
  {
    if moves != [] {
      hide Step, Inv;
      var before, last := moves[..|moves| - 1], moves[|moves| - 1];
      RunKeepsInv(s, before);
      StepKeepsInv(Run(s, before), last.tid, last.choice);
    }
  }

  // ----- Main results, over every interleaving -----

  /** At most one operation owns the handle, and the lock word is non-zero exactly while one does. */
  lemma OneOwner(s: State, moves: seq<Move>)
    requires Initial(s)
    ensures var r := Run(s, moves);
            && (forall a, b :: Holds(At(r, a)) && Holds(At(r, b)) ==> a == b)
            && (r.inUse != 0 <==> exists a :: Holds(At(r, a)))
  {
    RunKeepsInv(s, moves);
    var r := Run(s, moves);
    assert r.owner.Some? ==> Holds(At(r, r.owner.value));
  }

  /**
   * Each acquisition is released exactly once, before the next one: the history is Acquired(0), Released(0),
   * Acquired(1), ..., and only while the handle is in use is the last release missing.
   */
  lemma ReleasedOnce(s: State, moves: seq<Move>)
    requires Initial(s)
    ensures var r := Run(s, moves);
            && |r.log| == 2 * r.tickets - (if r.inUse != 0 then 1 else 0)
            && forall i :: 0 <= i < |r.log| ==> r.log[i] == if i % 2 == 0 then Acquired(i / 2) else Released(i / 2)
  {
    RunKeepsInv(s, moves);
  }

  /** Only the owner writes handle->params. */
  lemma OwnerWritesParams(s: State, moves: seq<Move>, tid: Tid, choice: Choice)
    requires Initial(s) && Step(Run(s, moves), tid, choice).params != Run(s, moves).params
    ensures Holds(At(Run(s, moves), tid)) && Run(s, moves).inUse != 0
  {
    RunKeepsInv(s, moves);
  }

  /**
   * A request reads only words its own call has set; a worker finds copies in place of the caller's strings.
   */
  lemma OwnParameters(s: State, moves: seq<Move>, tid: Tid)
    requires Initial(s) && At(Run(s, moves), tid).Processing?
    ensures var r := Run(s, moves); var pc := At(r, tid);
            && Wrote(r, pc.ticket, Fields(pc.op)) && pc.ticket == r.tickets - 1
            && (tid.Worker? ==> Copied(r, pc.op, |Copies(pc.op)|))
  {
    RunKeepsInv(s, moves);
    if tid.Worker? { WorkersAreAsync(s, moves, tid); }
  }

  /** Copies are made of exactly the words that hold the caller's strings. */
  lemma CopiesAreTexts(op: Op, i: nat)
    requires i < Fields(op)
    ensures i in Copies(op) <==> Layout(op)[i] == Text
  {
    match op
    case FindSrvs | FindAttrs =>
    case FindSrvTypes =>
    case FindScopes =>
    case Reg =>
    case Dereg =>
  }

  /** Main result: a worker finds a copy, made for its own request, in place of every string of the caller. */
  lemma WorkersSeeCopies(s: State, moves: seq<Move>, t: nat, i: nat)
    requires Initial(s) && At(Run(s, moves), Worker(t)).Processing?
    requires var op := At(Run(s, moves), Worker(t)).op; i < |Layout(op)| && Layout(op)[i] == Text
    ensures var r := Run(s, moves); i < |r.params| && r.params[i].ticket == r.tickets - 1 && r.params[i].copied
  {
    hide Step, Copies, Layout;
    OwnParameters(s, moves, Worker(t));
    CopiesAreTexts(At(Run(s, moves), Worker(t)).op, i);
  }

  lemma {:induction false} WorkersAreAsync(s: State, moves: seq<Move>, tid: Tid)
    requires Initial(s) && tid.Worker? && At(Run(s, moves), tid) != Idle
    ensures Run(s, moves).isAsync
  {
    hide Step;
    assert moves != [];
    var before, last := Run(s, moves[..|moves| - 1]), moves[|moves| - 1];
    RunKeepsInv(s, moves[..|moves| - 1]);
    OnlyAsyncStarts(before, last.tid, last.choice, tid);
    if At(before, tid) != Idle { WorkersAreAsync(s, moves[..|moves| - 1], tid); }
  }

  lemma OnlyAsyncStarts(s: State, tid: Tid, choice: Choice, w: Tid)
    requires Inv(s) && w.Worker?
    ensures Step(s, tid, choice).isAsync == s.isAsync
    ensures At(s, w) == Idle && At(Step(s, tid, choice), w) != Idle ==> s.isAsync
  {
    hide Alternates, Copied, Wrote, Copies, Fields, Layout;
  }

  /** How many more steps the owner takes at most before it releases the handle. */
  function Work(s: State): int {
    if s.owner.None? then 0 else
      match At(s, s.owner.value)
      case Entered(op, _) => 6 + |Copies(op)| + Fields(op)
      case Setting(op, _, n) => 5 + |Copies(op)| + Fields(op) - n
      case Copying(op, _, n) => 4 + |Copies(op)| - n
      case Starting(_, _) => 3
      case Processing(_, _) => 2
      case _ => 1
  }

  lemma OwnerStep(s: State, choice: Choice)
    requires Inv(s) && s.owner.Some?
    ensures var s' := Step(s, s.owner.value, choice);
            && 0 <= Work(s') < Work(s) <= 22 && s.tickets > 0 && s'.tickets == s.tickets
            && s'.log == (if s'.owner.Some? then s.log else s.log + [Released(s.tickets - 1)])
            && (s'.owner.Some? ==> s'.owner == s.owner || s'.owner == Some(Worker(s.tickets - 1)))
  {
    hide Alternates, Wrote, Copies, Fields, Layout;
    OwnerTicket(s);
    var pc := At(s, s.owner.value);
    if pc.Entered? || pc.Setting? || pc.Copying? { CopiesBound(pc); }
  }

  lemma OwnerTicket(s: State)
    requires Inv(s) && s.owner.Some?
    ensures s.tickets > 0
  {
  }

  /** No operation sets and copies more than SLPReg. */
  lemma CopiesBound(pc: Pc)
    requires pc.Entered? || pc.Setting? || pc.Copying?
    ensures |Copies(pc.op)| <= 4 && Fields(pc.op) <= PARAM_WORDS
    ensures forall i :: 0 <= i < |Copies(pc.op)| ==> Copies(pc.op)[i] < PARAM_WORDS
  {
  }

  /** The steps of other threads, among them their failed exchanges, do not disturb the owner. */
  lemma OtherStep(s: State, tid: Tid, choice: Choice)
    requires Inv(s) && s.owner.Some? && s.owner != Some(tid)
    ensures var s' := Step(s, tid, choice);
      s'.owner == s.owner && s'.log == s.log && s'.tickets == s.tickets && Work(s') == Work(s)
  {
    hide Alternates, HolderOk;
    assert !Holds(At(s, tid));
  }

  lemma {:induction false} RunFirst(s: State, moves: seq<Move>)
    requires moves != []
    ensures Run(s, moves) == Run(Step(s, moves[0].tid, moves[0].choice), moves[1..])
  {
    hide Step;
    if |moves| > 1 {
      var n := |moves| - 1;
      RunFirst(s, moves[..n]);
      assert moves[..n][1..] == moves[1..][..n - 1];
    } else {
      assert moves[..0] == [] && moves[1..] == [];
    }
  }

  lemma {:induction false} RunConcat(s: State, a: seq<Move>, b: seq<Move>)
    ensures Run(s, a + b) == Run(Run(s, a), b)
  {
    hide Step;
    if b == [] {
      assert a + b == a;
    } else {
      var n := |b| - 1;
      assert (a + b)[..|a + b| - 1] == a + b[..n];
      RunConcat(s, a, b[..n]);
    }
  }

  lemma {:induction false} LogGrows(s: State, moves: seq<Move>)
    ensures s.log <= Run(s, moves).log
  {
    if moves != [] {
      hide Step;
      var before, last := Run(s, moves[..|moves| - 1]), moves[|moves| - 1];
      LogGrows(s, moves[..|moves| - 1]);
      LogStep(before, last.tid, last.choice);
    }
  }

  lemma LogStep(s: State, tid: Tid, choice: Choice)
    ensures s.log <= Step(s, tid, choice).log
  {
  }

  /** Who works for acquisition `t` after a step to `s`, if it was `who` before: the worker after the hand-over. */
  function Serving(s: State, t: nat, who: Tid): Tid {
    if s.owner == Some(Worker(t)) then Worker(t) else who
  }

  /** How often the schedule turns to the thread that works for acquisition `t`: `who`, and then its worker. */
  function Turns(s: State, t: nat, who: Tid, moves: seq<Move>): nat
    decreases |moves|
  {
    if moves == [] then 0 else
      var s' := Step(s, moves[0].tid, moves[0].choice);
      (if moves[0].tid == who then 1 else 0) + Turns(s', t, Serving(s', t, who), moves[1..])
  }

  lemma {:induction false} TurnsRelease(s: State, t: nat, who: Tid, moves: seq<Move>)
    requires Inv(s) && s.owner == Some(who) && s.tickets == t + 1
    ensures Turns(s, t, who, moves) >= Work(s) ==> Released(t) in Run(s, moves).log
    decreases |moves|
  {
    hide Step, Work, Alternates, HolderOk, Run;
    OwnerStep(s, Go);
    if moves != [] {
      var m, rest := moves[0], moves[1..];
      var s' := Step(s, m.tid, m.choice);
      RunFirst(s, moves);
      StepKeepsInv(s, m.tid, m.choice);
      if m.tid == who { OwnerStep(s, m.choice); } else { OtherStep(s, m.tid, m.choice); }
      if s'.owner.Some? {
        TurnsRelease(s', t, Serving(s', t, who), rest);
      } else {
        LogGrows(s', rest);
        assert s'.log[|s.log|] == Released(t);
      }
    }
  }

  /**
   * No path forgets the release, in any interleaving: whatever succeeds or fails on the way, and whatever other
   * threads do in between, once the schedule has turned 22 times to the owner, then its worker, the acquisition
   * has been released. (ReleasedOnce adds that this happens once.)
   */
  lemma EveryPathReleases(s: State, moves: seq<Move>, who: Tid, more: seq<Move>)
    requires Initial(s) && Holds(At(Run(s, moves), who))
    ensures var r := Run(s, moves);
      r.tickets > 0 &&
      (Turns(r, r.tickets - 1, who, more) >= 22 ==> Released(r.tickets - 1) in Run(s, moves + more).log)
  {
    hide Step, Work, Alternates, HolderOk, Run, Turns, At;
    RunKeepsInv(s, moves);
    var r := Run(s, moves);
    OwnerStep(r, Go);
    TurnsRelease(r, r.tickets - 1, who, more);
    RunConcat(s, moves, more);
  }

  // ----- Progress -----

  /**
   * Main result: in every interleaving, the exchange of a thread that tries the handle takes it if and only if it is
   * free; if not, the call is over, and only the lock word has been written, with the value that it had.
   */
  lemma FreeHandleIsTaken(s: State, moves: seq<Move>, tid: Tid, choice: Choice)
    requires Initial(s) && At(Run(s, moves), tid).Trying?
    ensures var r, after := Run(s, moves), Run(s, moves + [Move(tid, choice)]);
            && (r.inUse == 0 <==> Holds(At(after, tid)))
            && (r.inUse == 0 ==> At(after, tid) == Entered(At(r, tid).op, r.tickets))
            && (r.inUse != 0 ==> At(after, tid) == Idle && after == r.(threads := after.threads))
  {
    hide Alternates, HolderOk;
    assert (moves + [Move(tid, choice)])[..|moves|] == moves;
    RunKeepsInv(s, moves);
  }

  /** A call tries the handle, and nothing but a call does. */
  lemma CallTries(s: State, tid: Tid, choice: Choice)
    requires At(s, tid) == Idle
    ensures At(Step(s, tid, choice), tid) == if tid.App? && choice.Call? then Trying(choice.op) else Idle
  {
  }

  /** The worker of the acquisition on an asynchronous handle, but for SLPFindScopes; else the calling thread. */
  predicate RightThread(s: State, tid: Tid, op: Op, t: nat) {
    if s.isAsync && op != FindScopes then tid == Worker(t) else tid.App?
  }

  /** The outcome of an acquisition is recorded before its release. */
  ghost predicate Recorded(s: State) {
    forall t: nat :: t in s.outcomes <==>
      t < s.tickets && (t < s.tickets - 1 || s.owner.None? || At(s, s.owner.value).Releasing?)
  }

  ghost predicate RightlyServed(s: State) {
    forall t: nat :: t in s.outcomes && s.outcomes[t].Served? ==> RightThread(s, s.outcomes[t].tid, s.outcomes[t].op, t)
  }

  predicate RightOwner(s: State) {
    s.owner.Some? ==>
      match At(s, s.owner.value)
      case Processing(op, t) => RightThread(s, s.owner.value, op, t)
      case Releasing(_) => true
      case _ => s.owner.value.App?
  }

  lemma StepRecords(s: State, tid: Tid, choice: Choice)
    requires Inv(s) && Recorded(s)
    ensures Recorded(Step(s, tid, choice))
  {
    hide Inv, Step, Recorded;
    if s.owner == Some(tid) { OwnerRecords(s, tid, choice); } else { OtherRecords(s, tid, choice); }
  }

  lemma OwnerRecords(s: State, tid: Tid, choice: Choice)
    requires Inv(s) && Recorded(s) && s.owner == Some(tid)
    ensures Recorded(Step(s, tid, choice))
  {
    hide Alternates, Copied, Wrote, Copies, Fields, Layout;
    assert Holds(At(s, tid)) && s.tickets > 0 by { OwnerTicket(s); }
  }

  lemma OtherRecords(s: State, tid: Tid, choice: Choice)
    requires Inv(s) && Recorded(s) && s.owner != Some(tid)
    ensures Recorded(Step(s, tid, choice))
  {
    hide Alternates, HolderOk;
    assert !Holds(At(s, tid));
    if s.owner.None? { assert Step(s, tid, choice).outcomes == s.outcomes; }
  }

  lemma StepServes(s: State, tid: Tid, choice: Choice)
    requires Inv(s) && RightlyServed(s) && RightOwner(s)
    ensures Step(s, tid, choice).isAsync == s.isAsync && RightlyServed(Step(s, tid, choice))
  {
    hide Alternates, Copied, Wrote, Copies, Fields, Layout;
    if At(s, tid).Processing? { assert s.owner == Some(tid); }
  }

  lemma StepKeepsRight(s: State, tid: Tid, choice: Choice)
    requires Inv(s) && RightOwner(s)
    ensures RightOwner(Step(s, tid, choice))
  {
    hide Alternates, Copied, Wrote, Copies, Fields, Layout;
  }

  lemma {:induction false} RunAccounts(s: State, moves: seq<Move>)
    requires Initial(s)
    ensures var r := Run(s, moves); Recorded(r) && RightlyServed(r) && RightOwner(r) && r.isAsync == s.isAsync
  {
    if moves != [] {
      hide Inv, Step, Recorded, RightlyServed, RightOwner;
      var before, last := moves[..|moves| - 1], moves[|moves| - 1];
      RunKeepsInv(s, before);
      RunAccounts(s, before);
      StepRecords(Run(s, before), last.tid, last.choice);
      StepServes(Run(s, before), last.tid, last.choice);
      StepKeepsRight(Run(s, before), last.tid, last.choice);
    } else {
      InitiallyNone(s);
    }
  }

  lemma InitiallyNone(s: State)
    requires Initial(s)
    ensures Recorded(s) && RightlyServed(s) && RightOwner(s)
  {
  }

  /**
   * Main result: in every interleaving, what has been released has been processed, by its worker exactly if the handle
   * is asynchronous (but for SLPFindScopes), or a call on the way has failed.
   */
  lemma ReleasedIsServed(s: State, moves: seq<Move>, t: nat)
    requires Initial(s) && Released(t) in Run(s, moves).log
    ensures var r := Run(s, moves);
            t in r.outcomes && (r.outcomes[t].Served? ==>
              if s.isAsync && r.outcomes[t].op != FindScopes then r.outcomes[t].tid == Worker(t)
              else r.outcomes[t].tid.App?)
  {
    RunKeepsInv(s, moves);
    RunAccounts(s, moves);
  }

  /** Main result: a request is given up only when its registration check or the start of its worker failed. */
  lemma {:induction false} GivenUpHasFailed(s: State, moves: seq<Move>, t: nat) returns (i: nat)
    requires Initial(s) && t in Run(s, moves).outcomes && Run(s, moves).outcomes[t].GaveUp?
    ensures i < |moves| && moves[i].choice == Fail
    ensures var pc := At(Run(s, moves[..i]), moves[i].tid); pc == Entered(Reg, t) || (pc.Starting? && pc.ticket == t)
  {
    hide Step;
    var n := |moves| - 1;
    var before, last := moves[..n], moves[n];
    var r := Run(s, before);
    if t in r.outcomes && r.outcomes[t].GaveUp? {
      i := GivenUpHasFailed(s, before, t);
      assert before[..i] == moves[..i];
    } else {
      i := n;
      GivesUpNow(r, last.tid, last.choice, t);
    }
  }

  lemma GivesUpNow(s: State, tid: Tid, choice: Choice, t: nat)
    requires !(t in s.outcomes && s.outcomes[t].GaveUp?)
    requires var s' := Step(s, tid, choice); t in s'.outcomes && s'.outcomes[t].GaveUp?
    ensures choice == Fail
    ensures var pc := At(s, tid); pc == Entered(Reg, t) || (pc.Starting? && pc.ticket == t)
  {
  }
}
