/** runProcessorCommand: the process, the goroutine that waits for it and sends its result on the
    one-slot `cmdDone`, and the caller that takes the result or gives up at the timeout.
 */
module CommandRunner {
  import opened Wrappers

  // A process that could not be started counts as one that has already failed.
  datatype Process = Running | Exited(ok: bool)

  datatype Waiter = Waiting | Sent

  // Draining: the timeout has fired and the process has been told to die.
  datatype Caller = Selecting | Draining | Returned(ok: bool, timedOut: bool)

  datatype State = State(process: Process, waiter: Waiter, cmdDone: Option<bool>, caller: Caller)

  datatype Action =
    | Exit(ok: bool)            // of its own accord
    | Send                      // cmd.Wait returns and its result is sent
    | Timeout(killed: bool)     // the timer fires; the kill may come too late or fail
    | Take                      // the caller receives from cmdDone

  function Start(started: bool): State {
    State(if started then Running else Exited(false), Waiting, None, Selecting)
  }

  predicate Enabled(s: State, a: Action) {
    match a
    case Exit(_) => s.process.Running?
    case Send => s.process.Exited? && s.waiter.Waiting? && s.cmdDone.None?
    case Timeout(_) => s.caller.Selecting?
    case Take => !s.caller.Returned? && s.cmdDone.Some?
  }

  function Step(s: State, a: Action): State
    requires Enabled(s, a)
  {
    match a
    case Exit(ok) => s.(process := Exited(ok))
    case Send => s.(waiter := Sent, cmdDone := Some(s.process.ok))
    case Timeout(killed) =>
      s.(process := if killed && s.process.Running? then Exited(false) else s.process, caller := Draining)
    case Take =>
      s.(cmdDone := None,
         caller := if s.caller.Draining? then Returned(false, true) else Returned(s.cmdDone.value, false))
  }

  predicate Legal(s: State, run: seq<Action>)
    decreases |run|
  {
    run == [] || (Enabled(s, run[0]) && Legal(Step(s, run[0]), run[1..]))
  }

  function Exec(s: State, run: seq<Action>): State
    requires Legal(s, run)
    decreases |run|
  {
    if run == [] then s else Exec(Step(s, run[0]), run[1..])
  }

  predicate Inv(s: State) {
    && (s.waiter.Sent? <==> s.cmdDone.Some? || s.caller.Returned?)
    && (s.waiter.Sent? ==> s.process.Exited?)
    && (s.cmdDone.Some? ==> s.cmdDone.value == s.process.ok)
    && (s.caller.Returned? && !s.caller.timedOut ==> s.caller.ok == s.process.ok)
    && (s.caller.Returned? && s.caller.timedOut ==> !s.caller.ok)
  }

  function Rank(s: State): nat {
    (if s.process.Running? then 1 else 0) + (if s.waiter.Waiting? then 1 else 0)
    + (match s.caller case Selecting => 2 case Draining => 1 case Returned(_, _) => 0)
  }

  lemma {:induction false} RunKeepsInv(s: State, run: seq<Action>)
    requires Inv(s) && Legal(s, run)
    ensures Inv(Exec(s, run)) && |run| + Rank(Exec(s, run)) <= Rank(s)
    decreases |run|
  {
    if run != [] {
      RunKeepsInv(Step(s, run[0]), run[1..]);
    }
  }

  // Whenever the call has returned, the process is gone, so no command writes after its call,
  // and the waiting goroutine has finished; success means the process succeeded.
  lemma NothingRunsAfterReturn(started: bool, run: seq<Action>)
    requires Legal(Start(started), run) && Exec(Start(started), run).caller.Returned?
    ensures Exec(Start(started), run).process.Exited? && Exec(Start(started), run).waiter.Sent?
    ensures Exec(Start(started), run).caller.ok ==> started && Exec(Start(started), run).process.ok
    ensures !Exec(Start(started), run).caller.timedOut ==>
              Exec(Start(started), run).caller.ok == Exec(Start(started), run).process.ok
  {
    RunKeepsInv(Start(started), run);
    if !started {
      FailedStartStaysFailed(Start(started), run);
    }
  }

  lemma {:induction false} FailedStartStaysFailed(s: State, run: seq<Action>)
    requires Legal(s, run) && s.process == Exited(false)
    ensures Exec(s, run).process == Exited(false)
    decreases |run|
  {
    if run != [] {
      FailedStartStaysFailed(Step(s, run[0]), run[1..]);
    }
  }

  // The timer has fired.
  predicate TimedOut(s: State) {
    s.caller.Draining? || (s.caller.Returned? && s.caller.timedOut)
  }

  lemma {:induction false} RunTells(s: State, run: seq<Action>)
    requires Inv(s) && Legal(s, run)
    ensures TimedOut(Exec(s, run)) <==> TimedOut(s) || exists k :: 0 <= k < |run| && run[k].Timeout?
    ensures Exec(s, run).process == Exited(true) <==> s.process == Exited(true) || Exit(true) in run
    decreases |run|
  {
    if run != [] {
      RunTells(Step(s, run[0]), run[1..]);
      assert run == [run[0]] + run[1..];
      assert (exists k :: 0 <= k < |run| && run[k].Timeout?) <==>
             run[0].Timeout? || exists k :: 0 <= k < |run[1..]| && run[1..][k].Timeout?;
    }
  }

  // What the call returns, in terms of what happened: a timeout exactly when the timer fired
  // before the result was taken; success exactly when the process was started, exited well of
  // its own accord, and the timer did not fire.
  lemma ReturnTells(started: bool, run: seq<Action>)
    requires Legal(Start(started), run) && Exec(Start(started), run).caller.Returned?
    ensures Exec(Start(started), run).caller.timedOut <==> exists k :: 0 <= k < |run| && run[k].Timeout?
    ensures Exec(Start(started), run).caller.ok <==>
            started && Exit(true) in run && !exists k :: 0 <= k < |run| && run[k].Timeout?
  {
    RunKeepsInv(Start(started), run);
    RunTells(Start(started), run);
    if !started {
      FailedStartStaysFailed(Start(started), run);
    }
  }

  // Every outcome is possible: the exit is taken in time, or the timer fires first, before
  // the exit or after it.
  lemma EveryOutcomeIsPossible(ok: bool, killed: bool)
    ensures var run := [Exit(ok), Send, Take];
            Legal(Start(true), run) && Exec(Start(true), run).caller == Returned(ok, false)
    ensures var run := [Exit(ok), Send, Timeout(killed), Take];
            Legal(Start(true), run) && Exec(Start(true), run).caller == Returned(false, true)
    ensures var run := [Timeout(true), Send, Take];
            Legal(Start(true), run) && Exec(Start(true), run).caller == Returned(false, true)
    ensures var run := [Timeout(false), Exit(ok), Send, Take];
            Legal(Start(true), run) && Exec(Start(true), run).caller == Returned(false, true)
    ensures var run := [Send, Take];
            Legal(Start(false), run) && Exec(Start(false), run).caller == Returned(false, false)
  {
    OneStep(Step(Step(Start(true), Exit(ok)), Send), Take, []);
    OneStep(Step(Start(true), Exit(ok)), Send, [Take]);
    OneStep(Start(true), Exit(ok), [Send, Take]);
    var fired := Step(Step(Step(Start(true), Exit(ok)), Send), Timeout(killed));
    OneStep(fired, Take, []);
    OneStep(Step(Step(Start(true), Exit(ok)), Send), Timeout(killed), [Take]);
    OneStep(Step(Start(true), Exit(ok)), Send, [Timeout(killed), Take]);
    OneStep(Start(true), Exit(ok), [Send, Timeout(killed), Take]);
    var dead := Step(Start(true), Timeout(true));
    OneStep(Step(dead, Send), Take, []);
    OneStep(dead, Send, [Take]);
    OneStep(Start(true), Timeout(true), [Send, Take]);
    var alive := Step(Start(true), Timeout(false));
    OneStep(Step(Step(alive, Exit(ok)), Send), Take, []);
    OneStep(Step(alive, Exit(ok)), Send, [Take]);
    OneStep(alive, Exit(ok), [Send, Take]);
    OneStep(Start(true), Timeout(false), [Exit(ok), Send, Take]);
    OneStep(Step(Start(false), Send), Take, []);
    OneStep(Start(false), Send, [Take]);
  }

  lemma OneStep(s: State, a: Action, rest: seq<Action>)
    requires Enabled(s, a) && Legal(Step(s, a), rest)
    ensures Legal(s, [a] + rest) && Exec(s, [a] + rest) == Exec(Step(s, a), rest)
  {
    assert ([a] + rest)[1..] == rest;
  }

  // The call waits for nothing but the process: a run of at most four steps ends it, and the
  // only thing that can keep it from returning is a process that does not exit.
  lemma OnlyTheProcessCanDelay(started: bool, run: seq<Action>)
    requires Legal(Start(started), run)
    ensures |run| <= 4
    ensures !Exec(Start(started), run).caller.Returned? && Exec(Start(started), run).process.Exited? ==>
              Enabled(Exec(Start(started), run), Send) || Enabled(Exec(Start(started), run), Take)
  {
    RunKeepsInv(Start(started), run);
  }
}
