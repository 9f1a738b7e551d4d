// The double-checked initialization of the property subsystem.
module PropertyInitLock {
  import opened Bytes

  /** What a thread is calling: the initialization or the cleanup. */
  datatype Job = Init | Exit

  datatype Pc =
    | Idle
    | Spinning(job: Job)
    | Checking(job: Job)
    | Doing(job: Job)
    | Flagging(job: Job)
    | Unlocking(job: Job, failed: bool)

  predicate Holds(pc: Pc) {
    !pc.Idle? && !pc.Spinning?
  }

  /**
   * s_PropInitLock, s_PropInited and the threads, any number of which call LIBSLPPropertyInit and
   * LIBSLPPropertyCleanup, in any interleaving. `owner` and `log` record the history: the log has the
   * successful SLPPropertyInit calls and the SLPPropertyExit calls.
   */
  datatype State = State(lock: int, inited: bool, threads: map<nat, Pc>, owner: Option<nat>, log: seq<Job>)

  function At(s: State, tid: nat): Pc {
    if tid in s.threads then s.threads[tid] else Idle
  }

  function Goto(s: State, tid: nat, pc: Pc): (r: State)
    ensures r == s.(threads := r.threads)
    ensures forall a :: At(r, a) == if a == tid then pc else At(s, a)
  {
    s.(threads := s.threads[tid := pc])
  }

  datatype Choice = Call(job: Job) | Go | Fail

  /** The job has nothing to do if the flag says so already. */
  predicate Done(s: State, job: Job) {
    s.inited == job.Init?
  }

  function Step(s: State, tid: nat, choice: Choice): State {
    match At(s, tid)
    case Idle => if choice.Call? && !Done(s, choice.job) then Goto(s, tid, Spinning(choice.job)) else s
    case Spinning(job) =>
      if s.lock != 0 then s.(lock := 1) else Goto(s.(lock := 1, owner := Some(tid)), tid, Checking(job))
    case Checking(job) => Goto(s, tid, if Done(s, job) then Unlocking(job, false) else Doing(job))
    case Doing(job) =>
      if job.Init? && choice.Fail? then Goto(s, tid, Unlocking(job, true))
      else Goto(s.(log := s.log + [job]), tid, Flagging(job))
    case Flagging(job) => Goto(s.(inited := job.Init?), tid, Unlocking(job, false))
    case Unlocking(_, _) => Goto(s.(lock := 0, owner := None), tid, Idle)
  }

  datatype Move = Move(tid: nat, choice: Choice)

  const INITIAL := State(0, false, map[], None, [])

  function Run(moves: seq<Move>): State {
    if moves == [] then INITIAL else
      var last := moves[|moves| - 1];
      Step(Run(moves[..|moves| - 1]), last.tid, last.choice)
  }

  predicate Alternating(log: seq<Job>) {
    forall i :: 0 <= i < |log| ==> log[i] == if i % 2 == 0 then Init else Exit
  }

  /** The log says that the subsystem is initialized. */
  predicate Live(log: seq<Job>) {
    log != [] && log[|log| - 1] == Init
  }

  predicate OwnerOk(s: State, pc: Pc) {
    match pc
    case Doing(job) => !Done(s, job) && s.inited == Live(s.log)
    case Flagging(job) => !Done(s, job) && s.inited != Live(s.log)
    case Unlocking(job, failed) => (if failed then job.Init? && !s.inited else Done(s, job)) && s.inited == Live(s.log)
    case _ => s.inited == Live(s.log)
  }

  ghost predicate Inv(s: State) {
    && s.lock == (if s.owner.Some? then 1 else 0)
    && (forall a: nat :: Holds(At(s, a)) <==> s.owner == Some(a))
    && Alternating(s.log)
    && (if s.owner.Some? then OwnerOk(s, At(s, s.owner.value)) else s.inited == Live(s.log))
  }

  lemma StepKeepsInv(s: State, tid: nat, choice: Choice)
    requires Inv(s)
    ensures Inv(Step(s, tid, choice))
  {
    var pc := At(s, tid);
    if pc.Doing? && !(pc.job.Init? && choice.Fail?) { AlternateMore(s.log, pc.job); }
  }

  lemma AlternateMore(log: seq<Job>, job: Job)
    requires Alternating(log) && Live(log) == job.Exit?
    ensures Alternating(log + [job]) && Live(log + [job]) == job.Init?
  {
  }

  lemma {:induction false} RunKeepsInv(moves: seq<Move>)
    ensures Inv(Run(moves))
  {
    if moves != [] {
      hide Step, Inv;
      var before, last := moves[..|moves| - 1], moves[|moves| - 1];
      RunKeepsInv(before);
      StepKeepsInv(Run(before), last.tid, last.choice);
    }
  }

  /**
   * Main result, over every interleaving: the successful initializations and the exits strictly alternate,
   * beginning with an initialization, and whenever the lock is free the flag says which of the two came last.
   */
  lemma InitAndExitAlternate(moves: seq<Move>)
    ensures var r := Run(moves);
            && (forall i :: 0 <= i < |r.log| ==> r.log[i] == if i % 2 == 0 then Init else Exit)
            && (r.lock == 0 ==> r.inited == (|r.log| % 2 == 1))
  {
    RunKeepsInv(moves);
  }

  /** No two threads are inside SLPPropertyInit or SLPPropertyExit at the same time. */
  lemma InitAndExitExclude(moves: seq<Move>, a: nat, b: nat)
    requires At(Run(moves), a).Doing? && At(Run(moves), b).Doing?
    ensures a == b
  {
    RunKeepsInv(moves);
  }

  // ----- Progress -----

  /**
   * Main result: in every interleaving, the exchange of a waiting thread takes the lock if and only if it is free, and
   * otherwise the thread waits on.
   */
  lemma FreeLockIsTaken(moves: seq<Move>, tid: nat, choice: Choice)
    requires At(Run(moves), tid).Spinning?
    ensures var r, after := Run(moves), Run(moves + [Move(tid, choice)]);
            && (r.lock == 0 <==> Holds(At(after, tid)))
            && (r.lock != 0 ==> At(after, tid) == At(r, tid) && after == r.(threads := after.threads))
            && (r.lock == 0 ==> At(after, tid) == Checking(At(r, tid).job))
  {
    assert (moves + [Move(tid, choice)])[..|moves|] == moves;
    RunKeepsInv(moves);
  }

  /**
   * Main result: in every interleaving, a thread that leaves has done its job, or found it done, unless the
   * initialization has failed; then nothing is initialized.
   */
  lemma LeavingHasDone(moves: seq<Move>, tid: nat)
    requires At(Run(moves), tid).Unlocking?
    ensures var r := Run(moves); var pc := At(r, tid);
            if pc.failed then pc.job == Init && !r.inited else r.inited == (pc.job == Init)
  {
    RunKeepsInv(moves);
  }

  /** The initialization is given up only when SLPPropertyInit failed. */
  lemma OnlyFailureFails(s: State, tid: nat, choice: Choice, a: nat)
    requires At(s, a) != Unlocking(Init, true) && At(Step(s, tid, choice), a) == Unlocking(Init, true)
    ensures a == tid && choice == Fail && At(s, a) == Doing(Init)
  {
  }

  /** A call waits for the lock unless the flag says that there is nothing to do. */
  lemma CallWaits(s: State, tid: nat, job: Job)
    requires At(s, tid) == Idle
    ensures At(Step(s, tid, Call(job)), tid) == if s.inited == (job == Init) then Idle else Spinning(job)
  {
  }
}
