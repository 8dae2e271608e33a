/** What makes an elector fail, and that it reports just that: where the value in errch comes from. */
module Failures {
  import opened Types
  import opened Shutdown

  /** The states of a session that an elector can go on with. */
  predicate Healthy(state: SessionState) {
    state == Connecting || state == Connected || state == ConnectedReadOnly || state == SaslAuthenticated
    || state == HasSession
  }

  /** An event is harmless exactly when it carries no error and a healthy state; else it is the failure it says. */
  lemma HarmlessIff(event: SessionEvent)
    ensures CheckEvent(event) == None <==> event.err == None && Healthy(event.state)
    ensures event.err.Some? ==> CheckEvent(event) == event.err
    ensures event.err.None? && !Healthy(event.state) ==> CheckEvent(event) == Some(BadSession(event.state))
  {
  }

  /** The failure a step brings up: a bad session event, a call that fails, or the end of the child events. */
  function Cause(step: Step): Option<Failure> {
    match step
    case SessionNotice(event) =>
      if event.err.Some? then event.err else if Healthy(event.state) then None else Some(BadSession(event.state))
    case CallReturns(err) => err
    case ChildNotice(ok) => if ok then None else Some(ChildStreamEnded)
    case _ => None
  }

  ghost predicate CausedBefore(steps: seq<Step>, failure: Failure, n: nat)
    requires n <= |steps|
  {
    exists k :: 0 <= k < n && Cause(steps[k]) == Some(failure)
  }

  /** A goroutine has a failure to report only from the step that brought it up. */
  lemma ComesFrom(s: State, step: Step, s': State)
    requires Next(s, step) == Some(s')
    ensures s'.watcher.Reporting? && s'.watcher != s.watcher ==> Cause(step) == Some(s'.watcher.failure)
    ensures s'.worker.Returning? && s'.worker != s.worker ==> s'.worker.err == Cause(step)
  {
    hide SendStep;
    hide WorkerStep;
    hide WatcherStep;
    if SendStep(s, step) == Some(s') {
      SendLeavesReports(s, step, s');
    } else if WatcherStep(s, step) == Some(s') {
      WatcherLeavesWorker(s, step, s');
      ReportComesFrom(s, step, s');
    } else if WorkerStep(s, step) == Some(s') {
      ReturnComesFrom(s, step, s');
    }
  }

  lemma ReportComesFrom(s: State, step: Step, s': State)
    requires WatcherStep(s, step) == Some(s')
    ensures s'.watcher.Reporting? && s'.watcher != s.watcher ==> Cause(step) == Some(s'.watcher.failure)
  {
    if step.SessionNotice? {
      HarmlessIff(step.event);
      hide CheckEvent;
    }
  }

  lemma ReturnComesFrom(s: State, step: Step, s': State)
    requires WorkerStep(s, step) == Some(s')
    ensures s'.watcher == s.watcher
    ensures s'.worker.Returning? && s'.worker != s.worker ==> s'.worker.err == Cause(step)
  {
    match step
    case CallReturns(err) =>
    case Decided(leader, changed) =>
    case ChildNotice(ok) =>
    case WorkerQuits =>
    case ReturnErr =>
    case WorkerDone =>
    case WorkerCancels =>
  }

  lemma SendLeavesReports(s: State, step: Step, s': State)
    requires SendStep(s, step) == Some(s')
    ensures s'.watcher == s.watcher && s'.placed == s.placed && (s'.worker.Returning? ==> s'.worker == s.worker)
  {
  }

  lemma SendingEnds(s: State, step: Step, s': State)
    requires Next(s, step) == Some(s') && (step == Report || step == ReturnErr)
    ensures step == Report ==> s'.watcher == Leaving && s'.worker == s.worker
    ensures step == ReturnErr ==> s'.worker == Departing && s'.watcher == s.watcher
    ensures forall v :: v in s'.placed ==>
              || v in s.placed
              || (step == Report && s.watcher.Reporting? && v == Some(s.watcher.failure))
              || (step == ReturnErr && s.worker.Returning? && v == s.worker.err)
  {
  }

  /** Only Report and ReturnErr put anything into errch. */
  lemma OthersPlaceNothing(s: State, step: Step, s': State)
    requires Next(s, step) == Some(s') && step != Report && step != ReturnErr
    ensures s'.placed == s.placed
  {
    hide SendStep;
    hide TrySend;
    hide CheckEvent;
    if SendStep(s, step) == Some(s') {
      SendLeavesReports(s, step, s');
    } else if step.WorkerQuits? || step.CallReturns? || step.Decided? || step.ChildNotice? {
      WorkerPlacesNothing(s, step, s');
    }
  }

  lemma WorkerPlacesNothing(s: State, step: Step, s': State)
    requires WorkerStep(s, step) == Some(s') && step != ReturnErr
    ensures s'.placed == s.placed
  {
    hide AfterCall;
  }

  /** What is on its way into errch, or in it, was brought up by an earlier step. */
  ghost predicate Traced(s: State, steps: seq<Step>, n: nat)
    requires n <= |steps|
  {
    && (s.watcher.Reporting? ==> CausedBefore(steps, s.watcher.failure, n))
    && (s.worker.Returning? && s.worker.err.Some? ==> CausedBefore(steps, s.worker.err.value, n))
    && (forall v :: v in s.placed && v.Some? ==> CausedBefore(steps, v.value, n))
  }

  lemma {:induction false} TracedThroughout(states: seq<State>, steps: seq<Step>, n: nat)
    requires Run(states, steps) && n <= |steps|
    ensures Traced(states[n], steps, n)
  {
    if n > 0 {
      TracedThroughout(states, steps, n - 1);
      hide Next;
      var s, step, s' := states[n - 1], steps[n - 1], states[n];
      assert Next(s, step) == Some(states[n - 1 + 1]);
      ComesFrom(s, step, s');
      if step == Report || step == ReturnErr {
        SendingEnds(s, step, s');
      } else {
        OthersPlaceNothing(s, step, s');
      }
      CausesStay(steps, n);
      hide Cause;
      assert forall f :: Cause(step) == Some(f) ==> CausedBefore(steps, f, n);
    }
  }

  lemma CausesStay(steps: seq<Step>, n: nat)
    requires 0 < n <= |steps|
    ensures forall f :: CausedBefore(steps, f, n - 1) ==> CausedBefore(steps, f, n)
  {
  }

  /**
   The failure an elector reports is a real one: in every interleaving the value in errch is the error or
   bad state of a session event of that run, the error of a failed call, or the end of the child events.
   */
  lemma ReportedFailureHappened(states: seq<State>, steps: seq<Step>, n: nat)
    requires Run(states, steps) && n <= |steps|
    ensures forall v :: v in states[n].placed ==> v.Some? && CausedBefore(steps, v.value, n)
    ensures states[n].starter == Finished ==>
              && states[n].attempted != [] && states[n].attempted[|states[n].attempted| - 1].ErrEvent?
              && var err := states[n].attempted[|states[n].attempted| - 1].err;
                 err.Some? && CausedBefore(steps, err.value, n)
  {
    TracedThroughout(states, steps, n);
    NoPanicOneFailure(states, steps, n);
    if states[n].starter == Finished {
      EndsWithOneError(states, steps, n);
      assert states[n].placed[0] in states[n].placed;
    }
  }

  // ---------------------------------------------------------------- and what fails is reported

  lemma ReportStands(s: State, step: Step, s': State)
    requires Inv(s) && Next(s, step) == Some(s') && s.watcher.Reporting?
    ensures if step == Report then (s.placed == [] ==> s'.placed == [Some(s.watcher.failure)])
            else s'.watcher == s.watcher
  {
    hide EventsInOrder;
    hide SendStep;
    if SendStep(s, step) == Some(s') {
      SendLeavesReports(s, step, s');
    }
  }

  lemma ReturnStands(s: State, step: Step, s': State)
    requires Inv(s) && Next(s, step) == Some(s') && s.worker.Returning?
    ensures if step == ReturnErr then (s.placed == [] ==> s'.placed == [s.worker.err]) else s'.worker == s.worker
  {
    hide EventsInOrder;
    hide WatcherStep;
    if WatcherStep(s, step) == Some(s') {
      WatcherLeavesWorker(s, step, s');
    }
  }

  lemma WatcherLeavesWorker(s: State, step: Step, s': State)
    requires WatcherStep(s, step) == Some(s')
    ensures s'.worker == s.worker
  {
  }

  /**
   A watcher that takes a bad session event goes on to report exactly that, and it gets into errch unless
   another failure was there before; a good one it ignores.
   */
  lemma {:induction false} BadEventIsReported(states: seq<State>, steps: seq<Step>, k: nat, m: nat)
    requires Run(states, steps) && k < m <= |steps| && steps[k].SessionNotice?
    ensures Cause(steps[k]).None? ==> states[k + 1].watcher == Selecting
    ensures Cause(steps[k]).Some? ==>
              var failure := Cause(steps[k]).value;
              || states[m].watcher == Reporting(failure)
              || exists j :: k < j < m && steps[j] == Report
                             && (states[j].placed == [] ==> states[j + 1].placed == [Some(failure)])
    decreases m
  {
    assert Next(states[k], steps[k]) == Some(states[k + 1]);
    HarmlessIff(steps[k].event);
    if k + 1 < m {
      hide Next;
      BadEventIsReported(states, steps, k, m - 1);
      assert Next(states[m - 1], steps[m - 1]) == Some(states[m - 1 + 1]);
      InvThroughout(states, steps, m - 1);
      if states[m - 1].watcher.Reporting? {
        ReportStands(states[m - 1], steps[m - 1], states[m]);
      }
    }
  }

  /**
   A call that fails, or the end of the child events, makes the worker return just that, and it gets into
   errch unless another failure was there before; a good child notice makes it list again.
   */
  lemma {:induction false} FailureIsReturned(states: seq<State>, steps: seq<Step>, k: nat, m: nat)
    requires Run(states, steps) && k < m <= |steps| && (steps[k].CallReturns? || steps[k].ChildNotice?)
    ensures steps[k] == ChildNotice(true) ==> states[k + 1].worker == ListingChildren
    ensures Cause(steps[k]).Some? ==>
              var failure := Cause(steps[k]);
              || states[m].worker == Returning(failure)
              || exists j :: k < j < m && steps[j] == ReturnErr
                             && (states[j].placed == [] ==> states[j + 1].placed == [failure])
    decreases m
  {
    assert Next(states[k], steps[k]) == Some(states[k + 1]);
    if k + 1 < m {
      hide Next;
      FailureIsReturned(states, steps, k, m - 1);
      assert Next(states[m - 1], steps[m - 1]) == Some(states[m - 1 + 1]);
      InvThroughout(states, steps, m - 1);
      if states[m - 1].worker.Returning? {
        ReturnStands(states[m - 1], steps[m - 1], states[m]);
      }
    }
  }

  /**
   And nothing that can fail is shut out: while errch is empty, a watcher that waits can be given any bad event, and
   a worker in a call or waiting for children any error or the end of them, and two steps put just that into errch.
   */
  lemma EachCanBeReported(s: State, step: Step) returns (s': State, s'': State)
    requires Inv(s) && s.placed == [] && Cause(step).Some?
    requires step.SessionNotice? ==> s.watcher == Selecting && s.sessionLeft > 0
    requires step.CallReturns? ==> s.worker in {Initialising, CreatingLock, ListingChildren, Updating}
    requires step.ChildNotice? ==> s.worker == Awaiting && s.childLeft > 0
    ensures Next(s, step) == Some(s') && s''.placed == [Cause(step)]
    ensures Next(s', if step.SessionNotice? then Report else ReturnErr) == Some(s'')
  {
    hide EventsInOrder;
    s' := Next(s, step).value;
    s'' := Next(s', if step.SessionNotice? then Report else ReturnErr).value;
  }

  lemma OneMoreStep(states: seq<State>, steps: seq<Step>, step: Step, s': State)
    requires Run(states, steps) && Next(states[|steps|], step) == Some(s')
    ensures Run(states + [s'], steps + [step])
  {
    hide Next;
    var states', steps' := states + [s'], steps + [step];
    forall k | 0 <= k < |steps'| ensures Next(states'[k], steps'[k]) == Some(states'[k + 1]) {
      if k < |steps| {
        assert Next(states[k], steps[k]) == Some(states[k + 1]);
      }
    }
  }

  /** Close is called at once; then the elector comes to a place where the step can happen. */
  lemma ComesTo(step: Step, session: nat, child: nat) returns (states: seq<State>, steps: seq<Step>)
    requires step.SessionNotice? || step.CallReturns? || step.ChildNotice?
    ensures Run(states, steps) && states[|steps|].closing && states[|steps|].placed == []
    ensures states[|steps|].sessionLeft == session && states[|steps|].childLeft == child
    ensures states[|steps|].watcher == Selecting
    ensures states[|steps|].worker == if step.ChildNotice? then Awaiting else Initialising
  {
    var s0 := State(NotSpawned, NotBegun, SpawningWatcher, 0, [], false, false, false, false, false, [], [], [],
                    session, child);
    var s1 := s0.(closing := true);
    var s2 := s1.(waitGroup := 1, watcher := Selecting, starter := SpawningWorker);
    var s3 := s2.(waitGroup := 2, worker := Initialising, starter := WaitingForBoth);
    states, steps := [s0, s1, s2, s3], [CloseCalled, Spawn, Spawn];
    assert Next(s0, CloseCalled) == Some(s1) && Next(s1, Spawn) == Some(s2) && Next(s2, Spawn) == Some(s3);
    hide StarterStep;
    if step.ChildNotice? {
      var s4, s5, s6 := s3.(worker := CreatingLock), s3.(worker := ListingChildren), s3.(worker := Updating);
      OneMoreStep(states, steps, CallReturns(None), s4);
      OneMoreStep(states + [s4], steps + [CallReturns(None)], CallReturns(None), s5);
      OneMoreStep(states + [s4] + [s5], steps + [CallReturns(None)] + [CallReturns(None)], CallReturns(None), s6);
      states := states + [s4] + [s5] + [s6];
      steps := steps + [CallReturns(None)] + [CallReturns(None)] + [CallReturns(None)];
      var s7 := s6.(worker := Awaiting);
      OneMoreStep(states, steps, Decided(false, false), s7);
      states, steps := states + [s7], steps + [Decided(false, false)];
    }
  }

  lemma PlacedGrows(s: State, step: Step, s': State)
    requires Next(s, step) == Some(s')
    ensures s.placed <= s'.placed
  {
    if step == Report || step == ReturnErr {
    } else {
      OthersPlaceNothing(s, step, s');
    }
  }

  /** From there on the elector comes to its end by itself, with what was placed. */
  lemma {:induction false} ComesToItsEnd(states: seq<State>, steps: seq<Step>)
    returns (states': seq<State>, steps': seq<Step>)
    requires Run(states, steps) && states[|steps|].closing && Failed(states[|steps|])
    requires |states[|steps|].placed| == 1
    ensures Run(states', steps') && steps <= steps' && states'[|steps'|].starter == Finished
    ensures states'[|steps'|].placed == states[|steps|].placed
    decreases Measure(states[|steps|])
  {
    var s := states[|steps|];
    InvThroughout(states, steps, |steps|);
    if s.starter == Finished {
      states', steps' := states, steps;
    } else {
      var step := NeverStuck(s);
      var s' := Next(s, step).value;
      StepDecreasesMeasure(s, step, s');
      FailedStays(s, step, s');
      PlacedGrows(s, step, s');
      NextKeepsInv(s, step, s');
      assert |s'.placed| <= 1;
      hide *;
      OneMoreStep(states, steps, step, s');
      states', steps' := ComesToItsEnd(states + [s'], steps + [step]);
    }
  }

  /** So for every failure there is a run of `start`, from beginning to end, that reports just that one. */
  lemma EachFailureHasItsRun(step: Step, session: nat, child: nat) returns (states: seq<State>, steps: seq<Step>)
    requires Cause(step).Some? && session > 0 && child > 0
    ensures Run(states, steps) && step in steps
    ensures states[|steps|].starter == Finished && states[|steps|].placed == [Cause(step)]
  {
    states, steps := ComesTo(step, session, child);
    InvThroughout(states, steps, |steps|);
    var s', s'' := EachCanBeReported(states[|steps|], step);
    var reporting := if step.SessionNotice? then Report else ReturnErr;
    ReportLeavesFailed(s', reporting, s'');
    ClosingStays(states[|steps|], step, s');
    hide *;
    OneMoreStep(states, steps, step, s');
    OneMoreStep(states + [s'], steps + [step], reporting, s'');
    assert (steps + [step] + [reporting])[|steps|] == step;
    states, steps := ComesToItsEnd(states + [s'] + [s''], steps + [step] + [reporting]);
  }

  lemma ClosingStays(s: State, step: Step, s': State)
    requires Next(s, step) == Some(s') && (step.SessionNotice? || step.CallReturns? || step.ChildNotice?)
    ensures s'.closing == s.closing
  {
  }

  /** A good notice can always be taken as well, and each listing can be followed by an update with either verdict. */
  lemma CanGoAround(s: State, leader: bool, changed: bool) returns (s1: State, s2: State, s3: State)
    requires s.worker == Awaiting && s.childLeft > 0
    ensures Next(s, ChildNotice(true)) == Some(s1) && Next(s1, CallReturns(None)) == Some(s2)
    ensures Next(s2, Decided(leader, changed)) == Some(s3)
    ensures s3.attempted == s.attempted + if changed then [LeaderEvent(leader)] else []
  {
    s1 := Next(s, ChildNotice(true)).value;
    s2 := Next(s1, CallReturns(None)).value;
    s3 := Next(s2, Decided(leader, changed)).value;
  }

  /** A reader gets exactly the event being sent, whenever one is, and the sender goes on. */
  lemma ReaderReceives(s: State)
    ensures Next(s, Deliver).Some? <==> Pending(s) != []
    ensures Next(s, Deliver).Some? ==> Next(s, Deliver).value.delivered == s.delivered + Pending(s)
    ensures Next(s, Deliver).Some? && Pending(s)[0].ErrEvent? ==> Next(s, Deliver).value.starter == ClosingEvents
    ensures Next(s, Deliver).Some? && Pending(s)[0].LeaderEvent? ==> Next(s, Deliver).value.worker == Awaiting
  {
  }

  /** What counts as misuse of a channel: a send on a closed one, or a second close. */
  lemma PanicsIff(s: State, step: Step, s': State)
    requires Next(s, step) == Some(s') && !s.panicked
    ensures s'.panicked <==>
            || ((step == Report || step == ReturnErr || step == CloseErrch) && s.errchClosed)
            || ((step == Deliver || step == CloseEvents) && s.eventsClosed)
  {
    hide SendStep;
    hide WorkerStep;
    if SendStep(s, step) == Some(s') {
      SendPanicsIff(s, step, s');
    } else if WorkerStep(s, step) == Some(s') {
      WorkerPanicsIff(s, step, s');
    } else {
      hide CheckEvent;
    }
  }

  lemma WorkerPanicsIff(s: State, step: Step, s': State)
    requires WorkerStep(s, step) == Some(s') && !s.panicked
    ensures s'.panicked <==> step == ReturnErr && s.errchClosed
    ensures step != Report && step != CloseErrch && step != Deliver && step != CloseEvents
  {
    match step
    case CallReturns(err) =>
    case Decided(leader, changed) =>
    case ChildNotice(ok) =>
    case WorkerQuits =>
    case ReturnErr =>
    case WorkerDone =>
    case WorkerCancels =>
  }

  lemma SendPanicsIff(s: State, step: Step, s': State)
    requires SendStep(s, step) == Some(s') && !s.panicked
    ensures step == Deliver || step == SeeClosing || step == Drop
    ensures s'.panicked <==> step == Deliver && s.eventsClosed
  {
  }

  // ---------------------------------------------------------------- the worker's calls in order

  /** The worker's call of this kind has succeeded. */
  ghost predicate Succeeded(states: seq<State>, steps: seq<Step>, call: Worker, n: nat)
    requires |states| == |steps| + 1 && n <= |steps|
  {
    exists k :: 0 <= k < n && states[k].worker == call && steps[k] == CallReturns(None)
  }

  predicate InLoop(w: Worker) {
    w.Updating? || w.Sending? || w.SendingLast? || w.Awaiting?
  }

  /** The base path is set up, then the lock created, then the children listed, and only then is there an update. */
  ghost predicate CallsInOrder(states: seq<State>, steps: seq<Step>, n: nat)
    requires |states| == |steps| + 1 && n <= |steps|
  {
    var w := states[n].worker;
    && (w == CreatingLock || w == ListingChildren || InLoop(w) ==> Succeeded(states, steps, Initialising, n))
    && (w == ListingChildren || InLoop(w) ==> Succeeded(states, steps, CreatingLock, n))
    && (InLoop(w) ==> Succeeded(states, steps, ListingChildren, n))
  }

  /** How the worker comes to where it is: what each of its calls and its loop is reached from. */
  ghost predicate Reaches(s: State, step: Step, s': State) {
    && (s'.worker == CreatingLock ==> s.worker == Initialising && step == CallReturns(None))
    && (s'.worker == ListingChildren ==>
          || (s.worker == CreatingLock && step == CallReturns(None))
          || (s.worker == Awaiting && step == ChildNotice(true)))
    && (s'.worker == Updating ==> s.worker == ListingChildren && step == CallReturns(None))
    && (s'.worker.Sending? || s'.worker.SendingLast? || s'.worker == Awaiting ==> InLoop(s.worker))
  }

  lemma WorkerGoes(s: State, step: Step, s': State)
    requires Next(s, step) == Some(s') && s'.worker != s.worker
    ensures Reaches(s, step, s')
  {
    hide Reaches;
    hide WorkerStep;
    hide WatcherStep;
    hide StarterStep;
    hide SendStep;
    if WorkerStep(s, step) == Some(s') {
      WorkerStepGoes(s, step, s');
    } else if SendStep(s, step) == Some(s') {
      SendStaysInLoop(s, step, s');
    } else if WatcherStep(s, step) == Some(s') {
      WatcherLeavesWorker(s, step, s');
    } else if StarterStep(s, step) == Some(s') {
      StarterBeginsWorker(s, step, s');
    }
  }

  lemma WorkerStepGoes(s: State, step: Step, s': State)
    requires WorkerStep(s, step) == Some(s')
    ensures s'.worker != s.worker ==> Reaches(s, step, s')
  {
    hide TrySend;
    match step
    case CallReturns(err) =>
    case Decided(leader, changed) =>
    case ChildNotice(ok) =>
    case WorkerQuits =>
    case ReturnErr =>
    case WorkerDone =>
    case WorkerCancels =>
  }

  lemma StarterBeginsWorker(s: State, step: Step, s': State)
    requires StarterStep(s, step) == Some(s')
    ensures s'.worker != s.worker ==> s'.worker == Initialising && Reaches(s, step, s')
  {
  }

  lemma SendStaysInLoop(s: State, step: Step, s': State)
    requires SendStep(s, step) == Some(s')
    ensures s'.worker != s.worker ==> Reaches(s, step, s')
  {
  }

  lemma {:induction false} CallsInOrderThroughout(states: seq<State>, steps: seq<Step>, n: nat)
    requires Run(states, steps) && n <= |steps|
    ensures CallsInOrder(states, steps, n)
  {
    if n > 0 {
      CallsInOrderThroughout(states, steps, n - 1);
      hide Next;
      assert Next(states[n - 1], steps[n - 1]) == Some(states[n - 1 + 1]);
      forall call: Worker | Succeeded(states, steps, call, n - 1) ensures Succeeded(states, steps, call, n) {
      }
      if states[n].worker != states[n - 1].worker {
        WorkerGoes(states[n - 1], steps[n - 1], states[n]);
        assert steps[n - 1] == CallReturns(None) ==> Succeeded(states, steps, states[n - 1].worker, n);
      }
    }
  }
}
