/**
 * The DeathTestImpl object: how a process interprets the status byte, waits
 * for its child, judges the outcome, and how the child aborts. System calls
 * are given by the results they return, one after the other.
 */
module DeathTest {
  import opened Wrappers
  import opened RegexSyntax
  import opened RegexObject
  import SimpleRegex

  const LIVED_BYTE := 'L'
  const RETURNED_BYTE := 'R'
  const THREW_BYTE := 'T'

  datatype Outcome = InProgress | Died | Lived | Returned | Threw

  datatype AbortReason = EncounteredReturn | ThrewException | DidNotDie

  /** How a process ended, as wait(2) reports it. */
  datatype WaitStatus = Exited(code: int) | Signaled(signum: int)

  /** One return of read(fd, &flag, 1). */
  datatype ReadResult = EndOfFile | GotByte(flag: char) | ReadInterrupted | ReadFailed

  /** One return of a call that yields -1 on failure. */
  datatype CallResult = Succeeded | CallInterrupted | CallFailed

  predicate ExitedWithCode(code: int, status: WaitStatus) { status == Exited(code) }

  predicate ExitedUnsuccessfully(status: WaitStatus) { !ExitedWithCode(0, status) }

  /** The outcome a byte stands for; None where the parent gives up with a FATAL log. */
  function Interpreted(r: ReadResult): Option<Outcome> {
    match r
    case EndOfFile => Some(Died)
    case GotByte(flag) =>
      if flag == RETURNED_BYTE then Some(Returned)
      else if flag == THREW_BYTE then Some(Threw)
      else if flag == LIVED_BYTE then Some(Lived)
      else None
    case _ => None
  }

  function StatusByte(reason: AbortReason): char {
    match reason
    case DidNotDie => LIVED_BYTE
    case ThrewException => THREW_BYTE
    case EncounteredReturn => RETURNED_BYTE
  }

  /** Each way of aborting is read back by the parent as the outcome of that name. */
  lemma BytesNameOutcomes(reason: AbortReason)
    ensures Interpreted(GotByte(StatusByte(reason))) == Some(
              match reason
              case DidNotDie => Lived
              case ThrewException => Threw
              case EncounteredReturn => Returned)
  {
  }

  /** The bytes by name, the end of the pipe for a death, and nothing else. */
  lemma WhatIsInterpreted(r: ReadResult)
    ensures Interpreted(r) == Some(Died) <==> r == EndOfFile
    ensures Interpreted(r) == Some(Lived) <==> r == GotByte('L')
    ensures Interpreted(r) == Some(Returned) <==> r == GotByte('R')
    ensures Interpreted(r) == Some(Threw) <==> r == GotByte('T')
    ensures Interpreted(r) != Some(InProgress)
  {
  }

  /** What Passed returns; None where the test was not concluded and the process aborts. */
  function Verdict(spawned: bool, outcome: Outcome, statusOk: bool, matched: bool): (r: Option<bool>)
    ensures r == Some(true) <==> spawned && outcome == Died && statusOk && matched
    ensures r == None <==> spawned && outcome == InProgress
  {
    if !spawned then Some(false)
    else if outcome == InProgress then None
    else Some(outcome == Died && statusOk && matched)
  }

  /** The first result that ends a retry loop. */
  function FirstRead(readings: seq<ReadResult>): (r: ReadResult)
    requires exists i :: 0 <= i < |readings| && readings[i] != ReadInterrupted
    ensures exists i :: 0 <= i < |readings| && r == readings[i] != ReadInterrupted &&
              forall j :: 0 <= j < i ==> readings[j] == ReadInterrupted
  {
    if readings[0] != ReadInterrupted then readings[0] else FirstRead(readings[1..])
  }

  function FirstCall(calls: seq<CallResult>): (r: CallResult)
    requires exists i :: 0 <= i < |calls| && calls[i] != CallInterrupted
    ensures exists i :: 0 <= i < |calls| && r == calls[i] != CallInterrupted &&
              forall j :: 0 <= j < i ==> calls[j] == CallInterrupted
  {
    if calls[0] != CallInterrupted then calls[0] else FirstCall(calls[1..])
  }

  /** GTEST_DEATH_TEST_CHECK_SYSCALL_: retries while interrupted; false stands for DeathTestAbort. */
  method CheckSyscall(calls: seq<CallResult>) returns (ok: bool)
    requires exists i :: 0 <= i < |calls| && calls[i] != CallInterrupted
    ensures ok <==> FirstCall(calls) == Succeeded
  {
    var i := 0;
    while calls[i] == CallInterrupted
      invariant i < |calls| && exists j :: i <= j < |calls| && calls[j] != CallInterrupted
      invariant FirstCall(calls[i..]) == FirstCall(calls)
      decreases |calls| - i
    {
      assert calls[i..][1..] == calls[i + 1..];
      var j :| i <= j < |calls| && calls[j] != CallInterrupted;
      assert calls[i + 1..][j - (i + 1)] != CallInterrupted;
      i := i + 1;
    }
    ok := calls[i] == Succeeded;
  }

  class DeathTestImpl {
    const regex: RE
    var spawned: bool
    var status: Option<WaitStatus>  // None is the initial -1
    var outcome: Outcome
    var readFd: int
    var writeFd: int

    constructor (regex: RE)
      ensures this.regex == regex
      ensures !spawned && status == None && outcome == InProgress && readFd == -1 && writeFd == -1
    {
      this.regex := regex;
      spawned, status, outcome, readFd, writeFd := false, None, InProgress, -1, -1;
    }

    /** False where the process ends inside: a FATAL log or a failed close. */
    method ReadAndInterpretStatusByte(readings: seq<ReadResult>, closes: seq<CallResult>) returns (alive: bool)
      requires exists i :: 0 <= i < |readings| && readings[i] != ReadInterrupted
      requires exists i :: 0 <= i < |closes| && closes[i] != CallInterrupted
      modifies this`outcome, this`readFd
      ensures alive <==> Interpreted(FirstRead(readings)).Some? && FirstCall(closes) == Succeeded
      ensures alive ==> Some(outcome) == Interpreted(FirstRead(readings)) && readFd == -1
    {
      var i := 0;
      while readings[i] == ReadInterrupted
        invariant i < |readings| && exists j :: i <= j < |readings| && readings[j] != ReadInterrupted
        invariant FirstRead(readings[i..]) == FirstRead(readings)
        decreases |readings| - i
      {
        assert readings[i..][1..] == readings[i + 1..];
        var j :| i <= j < |readings| && readings[j] != ReadInterrupted;
        assert readings[i + 1..][j - (i + 1)] != ReadInterrupted;
        i := i + 1;
      }
      match readings[i] {
      case EndOfFile =>
        outcome := Died;
      case GotByte(flag) =>
        if flag == RETURNED_BYTE {
          outcome := Returned;
        } else if flag == THREW_BYTE {
          outcome := Threw;
        } else if flag == LIVED_BYTE {
          outcome := Lived;
        } else {
          return false;  // an internal error or an unexpected byte, both fatal
        }
      case ReadFailed =>
        return false;
      }
      alive := CheckSyscall(closes);
      if alive {
        readFd := -1;
      }
    }

    /** ForkingDeathTest::Wait; `child` is what waitpid reports. None is the 0 for a test that was not spawned. */
    method Wait(readings: seq<ReadResult>, closes: seq<CallResult>, waits: seq<CallResult>, child: WaitStatus)
      returns (alive: bool, result: Option<WaitStatus>)
      requires exists i :: 0 <= i < |readings| && readings[i] != ReadInterrupted
      requires exists i :: 0 <= i < |closes| && closes[i] != CallInterrupted
      requires exists i :: 0 <= i < |waits| && waits[i] != CallInterrupted
      modifies this`outcome, this`readFd, this`status
      ensures !spawned ==> alive && result == None && outcome == old(outcome) && status == old(status) && readFd == old(readFd)
      ensures spawned ==>
        (alive <==> Interpreted(FirstRead(readings)).Some? && FirstCall(closes) == Succeeded && FirstCall(waits) == Succeeded)
      ensures spawned && alive ==>
        result == status == Some(child) && Some(outcome) == Interpreted(FirstRead(readings)) && readFd == -1
    {
      if !spawned { return true, None; }
      alive := ReadAndInterpretStatusByte(readings, closes);
      if !alive { return false, None; }
      alive := CheckSyscall(waits);
      if !alive { return false, None; }
      status := Some(child);
      result := status;
    }

    /** Abort, in the child: the byte it puts on the pipe and the status it exits with; None where the write failed. */
    method Abort(reason: AbortReason, writes: seq<CallResult>) returns (effect: Option<(char, WaitStatus)>)
      requires exists i :: 0 <= i < |writes| && writes[i] != CallInterrupted
      ensures effect == if FirstCall(writes) == Succeeded then Some((StatusByte(reason), Exited(1))) else None
    {
      var statusCh := if reason == DidNotDie then LIVED_BYTE
                      else if reason == ThrewException then THREW_BYTE else RETURNED_BYTE;
      var ok := CheckSyscall(writes);
      effect := if ok then Some((statusCh, Exited(1))) else None;
    }

    /** `errorMessage` is the captured stderr. None where the test had not been concluded. */
    method Passed(statusOk: bool, errorMessage: string) returns (result: Option<bool>)
      requires regex.Valid() && |errorMessage| <= SimpleRegex.MAX_COUNT
      ensures result == Verdict(spawned, outcome, statusOk, FoundIn(regex, errorMessage))
    {
      if !spawned { return Some(false); }
      var success := false;
      match outcome {
      case Lived =>
      case Threw =>
      case Returned =>
      case Died =>
        if statusOk {
          var matched := RE.PartialMatch(errorMessage, regex);
          if matched {
            success := true;
          }
        }
      case InProgress =>
        return None;
      }
      result := Some(success);
    }
  }

  /** Some part of the text is in the language of the regex. */
  ghost predicate FoundIn(regex: RE, text: string)
    requires regex.Valid()
    reads regex
  {
    regex.isValid && DenotesSomewhere(Parsed(regex.pattern.value), text)
  }
}
