/**
 * The fast-style death test as two processes and a pipe. Each event is one
 * system call of a process, the test statement, or a step of the macro around
 * it; a run is any interleaving of enabled events. The child's system calls fail only by being
 * interrupted, and nobody else holds an end of the pipe.
 */
module DeathTestProtocol {
  import opened Wrappers
  import opened DeathTest
  import opened RegexSyntax

  datatype Process = Parent | Child

  datatype ParentAt =
    | Piping | Forking
    | ClosingWriteEnd | Reading | ClosingReadEnd | Waiting | Judging
    | Finished(passed: bool)
    | Crashed

  /** Where control is in the macro's branch for the child; LeavingScope is where the sentinel's destructor runs. */
  datatype MacroAt = InStatement | AfterStatement | InCatch | LeavingScope

  datatype ChildAt =
    | Unborn
    | DroppingReadEnd | Running(at: MacroAt) | Aborting(reason: AbortReason) | Exiting
    | Ended(status: WaitStatus)

  /** How the test statement ends: returning stands for every jump out of it. */
  datatype Ending = FallsThrough | Throws | Returns | Dies(status: WaitStatus)

  datatype State = State(
    parent: ParentAt, child: ChildAt,
    pipe: seq<char>, writers: set<Process>, readers: set<Process>,
    spawned: bool, outcome: Outcome, status: Option<WaitStatus>,
    stderr: string,
    ending: Option<Ending>,    // what really happened
    aborts: seq<AbortReason>,  // the calls of Abort ever made
    written: nat)              // bytes ever put on the pipe

  /** The predicate and the regex of the test. */
  datatype Expectation = Expectation(accepts: WaitStatus -> bool, matches: string -> bool)

  datatype Event =
    | Interrupted(who: Process)
    | ParentCallFails
    | Pipes | Forks | ClosesWriteEnd | Reads(r: ReadResult) | ClosesReadEnd | Waits | Judges
    | ChildDropsReadEnd | StatementEnds(ending: Ending, output: string) | CallsAbort | ChildWrites | ChildExits

  const SIGPIPE := 13

  const INITIAL := State(Piping, Unborn, [], {}, {}, false, InProgress, None, "", None, [], 0)

  predicate ParentInSystemCall(s: State) {
    s.parent in {Piping, Forking, ClosingWriteEnd, Reading, ClosingReadEnd, Waiting}
  }

  /** Which system calls are made again when interrupted: not pipe and fork, for which that is a failure like others. */
  predicate Retries(s: State, p: Process) {
    match p
    case Parent => s.parent in {ClosingWriteEnd, Reading, ClosingReadEnd, Waiting}
    case Child => s.child == DroppingReadEnd || s.child.Aborting?
  }

  predicate Enabled(s: State, e: Event) {
    match e
    case Interrupted(p) => Retries(s, p)
    case ParentCallFails => ParentInSystemCall(s)
    case Pipes => s.parent == Piping
    case Forks => s.parent == Forking
    case ClosesWriteEnd => s.parent == ClosingWriteEnd
    case Reads(r) => s.parent == Reading &&
      (if s.pipe != [] then r == GotByte(s.pipe[0]) else r == EndOfFile && s.writers == {})
    case ClosesReadEnd => s.parent == ClosingReadEnd
    case Waits => s.parent == Waiting && s.child.Ended?
    case Judges => s.parent == Judging && s.status.Some?
    case ChildDropsReadEnd => s.child == DroppingReadEnd
    case StatementEnds(_, _) => s.child == Running(InStatement)
    case CallsAbort => s.child.Running? && s.child.at != InStatement
    case ChildWrites => s.child.Aborting?
    case ChildExits => s.child == Exiting
  }

  /** The argument of the call of Abort at this point; on leaving the scope it is in the sentinel's destructor. */
  function ReasonAt(at: MacroAt): AbortReason
    requires at != InStatement
  {
    match at
    case AfterStatement => DidNotDie
    case InCatch => ThrewException
    case LeavingScope => EncounteredReturn
  }

  function Crash(s: State): State {
    s.(parent := Crashed, writers := s.writers - {Parent}, readers := s.readers - {Parent})
  }

  function Next(s: State, e: Event, x: Expectation): State
    requires Enabled(s, e)
  {
    match e
    case Interrupted(_) => s
    case ParentCallFails => Crash(s)
    case Pipes => s.(parent := Forking, writers := {Parent}, readers := {Parent})
    case Forks => s.(parent := ClosingWriteEnd, child := DroppingReadEnd,
                     writers := s.writers + {Child}, readers := s.readers + {Child})
    case ClosesWriteEnd => s.(parent := Reading, writers := s.writers - {Parent}, spawned := true)
    case Reads(r) =>
      var s' := if r.GotByte? then s.(pipe := s.pipe[1..]) else s;
      (match Interpreted(r)
       case Some(o) => s'.(outcome := o, parent := ClosingReadEnd)
       case None => Crash(s'))
    case ClosesReadEnd => s.(parent := Waiting, readers := s.readers - {Parent})
    case Waits => s.(parent := Judging, status := Some(s.child.status))
    case Judges =>
      (match Verdict(s.spawned, s.outcome, x.accepts(s.status.value), x.matches(s.stderr))
       case Some(passed) => s.(parent := Finished(passed))
       case None => Crash(s))
    case ChildDropsReadEnd => s.(child := Running(InStatement), readers := s.readers - {Child})
    case StatementEnds(ending, output) =>
      var s' := s.(stderr := output, ending := Some(ending));
      (match ending
       case Dies(st) => s'.(child := Ended(st), writers := s.writers - {Child})
       case FallsThrough => s'.(child := Running(AfterStatement))
       case Throws => s'.(child := Running(InCatch))
       case Returns => s'.(child := Running(LeavingScope)))
    case CallsAbort => s.(child := Aborting(ReasonAt(s.child.at)), aborts := s.aborts + [ReasonAt(s.child.at)])
    case ChildWrites =>
      if s.readers == {} then s.(child := Ended(Signaled(SIGPIPE)), writers := s.writers - {Child})
      else s.(child := Exiting, pipe := s.pipe + [StatusByte(s.child.reason)], written := s.written + 1)
    // _exit: control does not come back to the macro, and no destructor is run
    case ChildExits => s.(child := Ended(Exited(1)), writers := s.writers - {Child})
  }

  datatype Trace = Start | Then(before: Trace, event: Event)

  function After(t: Trace, x: Expectation): State
    requires Run(t, x)
    decreases t, 1
  {
    if t.Start? then INITIAL else Next(After(t.before, x), t.event, x)
  }

  predicate Run(t: Trace, x: Expectation)
    decreases t, 0
  {
    t.Start? || (Run(t.before, x) && Enabled(After(t.before, x), t.event))
  }

  // ----- What every reachable state satisfies -----

  /** The outcome named after the ending, and the reason. */
  function OutcomeOf(ending: Ending): Outcome {
    match ending
    case Dies(_) => Died
    case FallsThrough => Lived
    case Throws => Threw
    case Returns => Returned
  }

  function ReasonOf(ending: Ending): AbortReason
    requires !ending.Dies?
  {
    match ending
    case FallsThrough => DidNotDie
    case Throws => ThrewException
    case Returns => EncounteredReturn
  }

  predicate ParentHasRead(s: State) {
    s.parent in {ClosingReadEnd, Waiting, Judging} || s.parent.Finished?
  }

  predicate CameOut(s: State) { s.ending.Some? && !s.ending.value.Dies? }

  /** Abort has been called once, with the reason that is named after the ending. */
  predicate AbortedOnce(s: State) { CameOut(s) && s.aborts == [ReasonOf(s.ending.value)] }

  /** Where the child is, given how the statement ended. */
  predicate ChildInv(s: State) {
    match s.child
    case Unborn => s.ending == None && s.aborts == [] && s.written == 0 && s.parent in {Piping, Forking, Crashed}
    case DroppingReadEnd => s.ending == None && s.aborts == [] && s.written == 0
    case Running(at) => s.aborts == [] && s.written == 0 &&
      if at == InStatement then s.ending == None else CameOut(s) && ReasonAt(at) == ReasonOf(s.ending.value)
    case Aborting(why) => AbortedOnce(s) && s.aborts == [why] && s.written == 0
    case Exiting => AbortedOnce(s) && s.written == 1
    case Ended(st) => s.ending.Some? && match s.ending.value
      case Dies(st') => st == st' && s.aborts == [] && s.written == 0
      case _ => AbortedOnce(s) && ((s.written == 1 && st == Exited(1)) || (s.written == 0 && s.parent == Crashed))
  }

  predicate PipeInv(s: State) {
    && (Child in s.writers <==> !s.child.Unborn? && !s.child.Ended?)
    && (Parent in s.writers <==> s.parent in {Forking, ClosingWriteEnd})
    && (Parent in s.readers <==> s.parent in {Forking, ClosingWriteEnd, Reading, ClosingReadEnd})
    && (s.parent in {Piping, Forking} ==> s.child == Unborn)
    // the parent gets past its read only when the byte is on the pipe or the child is gone
    && (ParentHasRead(s) ==> s.child == Exiting || s.child.Ended?)
    && (s.parent != Crashed ==>
        s.pipe == if s.written == 1 && !ParentHasRead(s) && CameOut(s) then [StatusByte(ReasonOf(s.ending.value))] else [])
  }

  predicate ParentInv(s: State) {
    && (s.spawned <==> s.parent == Reading || ParentHasRead(s) || (s.parent == Crashed && s.spawned))
    && (s.outcome != InProgress ==> s.ending.Some? && s.outcome == OutcomeOf(s.ending.value))
    && (s.parent != Crashed ==> (s.outcome != InProgress <==> ParentHasRead(s)))
    && (s.status.Some? ==> s.child == Ended(s.status.value))
    && (s.parent != Crashed ==> (s.status.Some? <==> s.parent == Judging || s.parent.Finished?))
  }

  predicate VerdictInv(s: State, x: Expectation) {
    s.parent.Finished? ==>
      (s.status.Some? && s.parent.passed == (s.outcome == Died && x.accepts(s.status.value) && x.matches(s.stderr)))
  }

  predicate Inv(s: State, x: Expectation) {
    ChildInv(s) && PipeInv(s) && ParentInv(s) && VerdictInv(s, x)
  }

  predicate IsChildEvent(e: Event) {
    e in {ChildDropsReadEnd, CallsAbort, ChildWrites, ChildExits} || e.StatementEnds?
  }

  lemma ChildStepKeepsInv(s: State, e: Event, x: Expectation)
    requires Inv(s, x) && Enabled(s, e) && IsChildEvent(e)
    ensures Inv(Next(s, e, x), x)
  {
  }

  lemma ParentStepKeepsInv(s: State, e: Event, x: Expectation)
    requires Inv(s, x) && Enabled(s, e) && !IsChildEvent(e)
    ensures Inv(Next(s, e, x), x)
  {
    match e
    case Reads(r) =>
      if s.pipe != [] {
        BytesNameOutcomes(ReasonOf(s.ending.value));
      }
    case _ =>
  }

  lemma StepKeepsInv(s: State, e: Event, x: Expectation)
    requires Inv(s, x) && Enabled(s, e)
    ensures Inv(Next(s, e, x), x)
  {
    if IsChildEvent(e) {
      ChildStepKeepsInv(s, e, x);
    } else {
      ParentStepKeepsInv(s, e, x);
    }
  }

  lemma {:induction false} AlwaysInv(t: Trace, x: Expectation)
    requires Run(t, x)
    ensures Inv(After(t, x), x)
  {
    if t.Then? {
      AlwaysInv(t.before, x);
      StepKeepsInv(After(t.before, x), t.event, x);
    }
  }

  // ----- The protocol's promises -----

  /** In every interleaving at most one byte is ever written, and none if the child dies in the statement. */
  lemma AtMostOneStatusByte(t: Trace, x: Expectation)
    requires Run(t, x)
    ensures var s := After(t, x);
            s.written <= 1 && (s.ending.Some? && s.ending.value.Dies? ==> s.written == 0)
  {
    AlwaysInv(t, x);
  }

  /**
   * In every interleaving Abort is called at most once, so the sentinel's
   * destructor never reports after another call; and a call gives the reason
   * named after the way the statement ended.
   */
  lemma AbortIsCalledOnce(t: Trace, x: Expectation)
    requires Run(t, x)
    ensures var s := After(t, x);
            (s.aborts == [] || AbortedOnce(s)) && (s.child.Ended? ==> (AbortedOnce(s) <==> CameOut(s)))
  {
    AlwaysInv(t, x);
  }

  /** In every interleaving, once the parent has an outcome it names what the statement really did. */
  lemma OutcomeIsWhatHappened(t: Trace, x: Expectation)
    requires Run(t, x) && After(t, x).outcome != InProgress
    ensures var s := After(t, x);
            s.ending.Some? && s.outcome == OutcomeOf(s.ending.value)
  {
    AlwaysInv(t, x);
  }

  /**
   * In every interleaving that the parent finishes: the test passes exactly
   * when the child died inside the statement, with an accepted status and
   * matching output.
   */
  lemma PassesIffDiedAsExpected(t: Trace, x: Expectation)
    requires Run(t, x) && After(t, x).parent.Finished?
    ensures var s := After(t, x);
            s.parent.passed <==>
              exists st :: s.ending == Some(Dies(st)) && x.accepts(st) && x.matches(s.stderr)
  {
    AlwaysInv(t, x);
    var s := After(t, x);
    if s.ending.value.Dies? {
      assert s.ending == Some(Dies(s.status.value));
    }
  }

  /** The child never writes into a pipe nobody can read while the parent is alive. */
  lemma NoWriteWithoutReader(t: Trace, x: Expectation)
    requires Run(t, x) && After(t, x).child.Aborting? && After(t, x).parent != Crashed
    ensures Parent in After(t, x).readers
  {
    AlwaysInv(t, x);
  }

  // ----- Progress -----

  predicate IsParentEvent(e: Event) {
    e in {Pipes, Forks, ClosesWriteEnd, ClosesReadEnd, Waits, Judges} || e.Reads?
  }

  predicate IsProgress(e: Event) { !e.Interrupted? && !e.ParentCallFails? }

  function ParentRank(p: ParentAt): nat {
    match p
    case Piping => 7 case Forking => 6 case ClosingWriteEnd => 5 case Reading => 4
    case ClosingReadEnd => 3 case Waiting => 2 case Judging => 1 case Finished(_) => 0 case Crashed => 0
  }

  function ChildRank(c: ChildAt): nat {
    match c
    case Unborn => 6 case DroppingReadEnd => 5
    case Running(at) => if at == InStatement then 4 else 3
    case Aborting(_) => 2 case Exiting => 1 case Ended(_) => 0
  }

  function Rank(s: State): nat { ParentRank(s.parent) + ChildRank(s.child) }

  lemma ProgressLowersRank(s: State, e: Event, x: Expectation)
    requires Inv(s, x) && Enabled(s, e)
    ensures if e.Interrupted? then Next(s, e, x) == s else Rank(Next(s, e, x)) < Rank(s)
  {
  }

  function Progress(t: Trace): nat {
    if t.Start? then 0 else Progress(t.before) + if t.event.Interrupted? then 0 else 1
  }

  /** Every run makes at most thirteen uninterrupted steps, so it ends unless it is interrupted for ever. */
  lemma {:induction false} RunsAreShort(t: Trace, x: Expectation)
    requires Run(t, x)
    ensures Progress(t) + Rank(After(t, x)) <= 13
  {
    if t.Then? {
      RunsAreShort(t.before, x);
      AlwaysInv(t.before, x);
      ProgressLowersRank(After(t.before, x), t.event, x);
    }
  }

  /**
   * No interleaving blocks: while the parent is neither finished nor crashed,
   * some process can take an uninterrupted step; once the child has ended it
   * is the parent that can.
   */
  lemma NeverBlocked(t: Trace, x: Expectation) returns (e: Event)
    requires Run(t, x) && !After(t, x).parent.Finished? && After(t, x).parent != Crashed
    ensures Enabled(After(t, x), e) && IsProgress(e)
    ensures After(t, x).child.Ended? ==> IsParentEvent(e)
  {
    var s := After(t, x);
    AlwaysInv(t, x);
    if s.parent == Piping { e := Pipes; }
    else if s.parent == Forking { e := Forks; }
    else if s.parent == ClosingWriteEnd { e := ClosesWriteEnd; }
    else if s.parent == ClosingReadEnd { e := ClosesReadEnd; }
    else if s.parent == Judging { e := Judges; }
    else if !s.child.Ended? { e := ChildsTurn(s); }
    else if s.parent == Waiting { e := Waits; }
    else if s.pipe != [] { e := Reads(GotByte(s.pipe[0])); }
    else {
      NobodyElse(s.writers);
      e := Reads(EndOfFile);
    }
  }

  lemma NobodyElse(ps: set<Process>)
    requires Parent !in ps && Child !in ps
    ensures ps == {}
  {
    assert forall p <- ps :: p.Parent? || p.Child?;
  }

  lemma ChildsTurn(s: State) returns (e: Event)
    requires !s.child.Unborn? && !s.child.Ended?
    ensures Enabled(s, e) && IsProgress(e)
  {
    match s.child
    case DroppingReadEnd => e := ChildDropsReadEnd;
    case Running(at) => e := if at == InStatement then StatementEnds(FallsThrough, "") else CallsAbort;
    case Aborting(_) => e := ChildWrites;
    case Exiting => e := ChildExits;
  }

  /** What EXPECT_DEATH expects: an unsuccessful exit, and a part of stderr in the language of the regex. */
  ghost function DeathExpectation(re: Regex): Expectation {
    Expectation(ExitedUnsuccessfully, s => DenotesSomewhere(re, s))
  }

  /**
   * In every interleaving that the parent finishes: EXPECT_DEATH passes exactly
   * when the child ended inside the statement, not with exit code 0, and left
   * on stderr what the regex denotes.
   */
  lemma ExpectDeathPasses(t: Trace, re: Regex)
    requires Run(t, DeathExpectation(re)) && After(t, DeathExpectation(re)).parent.Finished?
    ensures var s := After(t, DeathExpectation(re));
            s.parent.passed <==>
              && s.ending.Some? && s.ending.value.Dies? && s.ending.value.status != Exited(0)
              && DenotesSomewhere(re, s.stderr)
  {
    PassesIffDiedAsExpected(t, DeathExpectation(re));
  }

  /** Whatever is expected of stderr, a pass means that the child did not exit with 0. */
  lemma DeathIsUnsuccessfulExit(t: Trace, matches: string -> bool)
    requires Run(t, Expectation(ExitedUnsuccessfully, matches))
    requires After(t, Expectation(ExitedUnsuccessfully, matches)).parent.Finished?
    ensures var s := After(t, Expectation(ExitedUnsuccessfully, matches));
            s.parent.passed ==> s.ending.Some? && s.ending.value.Dies? && s.ending.value.status != Exited(0)
  {
    PassesIffDiedAsExpected(t, Expectation(ExitedUnsuccessfully, matches));
  }
}
