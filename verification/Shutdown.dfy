/**
 How an elector starts, fails and stops: the two goroutines of `start` in elector.go and their
 channels, as an interleaving of atomic steps. The notifications still to come from ZooKeeper are
 counted in the state, since only finitely many arrive in any finite run.
 */
module Shutdown {
  import opened Types

  /** Why an elector stops: an error ZooKeeper reports, a bad session state, or the end of the child events. */
  datatype Failure = ZkFailure(code: int) | BadSession(state: SessionState) | ChildStreamEnded

  // ---------------------------------------------------------------- ZooKeeper's session events

  datatype SessionState =
    | Unknown | Disconnected | Connecting | AuthFailed | ConnectedReadOnly | SaslAuthenticated
    | Expired | Connected | HasSession

  /** A closed channel yields Go's zero value, which carries no error and the state Disconnected. */
  datatype SessionEvent = SessionEvent(err: Option<Failure>, state: SessionState)

  /** checkZKEvent */
  function CheckEvent(event: SessionEvent): Option<Failure> {
    if event.err.Some? then event.err
    else if event.state.Expired? || event.state.AuthFailed? || event.state.Disconnected? || event.state.Unknown?
    then Some(BadSession(event.state))
    else None
  }

  // ---------------------------------------------------------------- states

  /** The goroutine that watches session events. */
  datatype Watcher = NotSpawned | Selecting | Reporting(failure: Failure) | Leaving | Cancelling | Gone

  /** The goroutine that takes part in the election; `Sending` is sendEvent's outer select. */
  datatype Worker =
    | NotBegun
    | Initialising
    | CreatingLock
    | ListingChildren
    | Updating
    | Sending(leader: bool)
    | SendingLast(leader: bool)
    | Awaiting
    | Returning(err: Option<Failure>)
    | Departing
    | Cancelling'
    | Over

  /** The body of `start` itself. */
  datatype Starter =
    | SpawningWatcher
    | SpawningWorker
    | WaitingForBoth
    | ClosingErrch
    | Receiving
    | SendingErr(err: Option<Failure>)
    | SendingErrLast(err: Option<Failure>)
    | ClosingEvents
    | Finished

  datatype Event = LeaderEvent(leader: bool) | ErrEvent(err: Option<Failure>)

  datatype State = State(
    watcher: Watcher,
    worker: Worker,
    starter: Starter,
    waitGroup: int,
    errch: seq<Option<Failure>>,     // capacity 1
    errchClosed: bool,
    shouldQuit: bool,                // closed
    closing: bool,                   // closed by Close
    eventsClosed: bool,
    panicked: bool,                  // a send on, or a second close of, a closed channel
    placed: seq<Option<Failure>>,    // everything ever put into errch
    attempted: seq<Event>,           // everything ever handed to sendEvent
    delivered: seq<Event>,           // what the client has received
    sessionLeft: nat,                // session events still to come
    childLeft: nat                   // child notifications still to come
  )

  ghost predicate Init(s: State) {
    s == State(NotSpawned, NotBegun, SpawningWatcher, 0, [], false, false, false, false, false, [], [], [],
               s.sessionLeft, s.childLeft)
  }

  // ---------------------------------------------------------------- steps

  datatype Step =
    | CloseCalled
    | Spawn
    | BothDone
    | CloseErrch
    | Receive
    | CloseEvents
    | SessionNotice(event: SessionEvent)
    | WatcherQuits
    | Report
    | WatcherDone
    | WatcherCancels
    | CallReturns(err: Option<Failure>)
    | Decided(leader: bool, changed: bool)
    | ChildNotice(ok: bool)
    | WorkerQuits
    | ReturnErr
    | WorkerDone
    | WorkerCancels
    | Deliver
    | SeeClosing
    | Drop

  /** `select { case errch <- v: default: }` */
  function TrySend(s: State, v: Option<Failure>): State {
    if s.errchClosed then s.(panicked := true)
    else if |s.errch| < 1 then s.(errch := s.errch + [v], placed := s.placed + [v])
    else s
  }

  function Hand(s: State, event: Event): State {
    s.(attempted := s.attempted + [event])
  }

  function Receives(s: State, event: Event): State {
    s.(delivered := s.delivered + [event], panicked := s.panicked || s.eventsClosed)
  }

  function WatcherStep(s: State, step: Step): Option<State> {
    match step
    case SessionNotice(event) =>
      if s.watcher == Selecting && s.sessionLeft > 0 then
        var failure := CheckEvent(event);
        Some(s.(sessionLeft := s.sessionLeft - 1,
                watcher := if failure.Some? then Reporting(failure.value) else Selecting))
      else None
    case WatcherQuits => if s.watcher == Selecting && s.shouldQuit then Some(s.(watcher := Leaving)) else None
    case Report => if s.watcher.Reporting? then Some(TrySend(s, Some(s.watcher.failure)).(watcher := Leaving)) else None
    case WatcherDone =>
      if s.watcher == Leaving then Some(s.(waitGroup := s.waitGroup - 1, watcher := Cancelling)) else None
    case WatcherCancels => if s.watcher == Cancelling then Some(s.(shouldQuit := true, watcher := Gone)) else None
    case _ => None
  }

  /** The worker is inside a ZooKeeper call. */
  predicate Calling(w: Worker) {
    w.Initialising? || w.CreatingLock? || w.ListingChildren? || w.Updating?
  }

  function AfterCall(w: Worker): Worker {
    if w.Initialising? then CreatingLock else if w.CreatingLock? then ListingChildren else Updating
  }

  function WorkerStep(s: State, step: Step): Option<State> {
    match step
    case CallReturns(err) =>
      if !Calling(s.worker) || (s.worker.Updating? && err.None?) then None
      else Some(s.(worker := if err.Some? then Returning(err) else AfterCall(s.worker)))
    case Decided(leader, changed) =>
      if s.worker != Updating then None
      else if changed then Some(Hand(s, LeaderEvent(leader)).(worker := Sending(leader)))
      else Some(s.(worker := Awaiting))
    case ChildNotice(ok) =>
      if s.worker == Awaiting && s.childLeft > 0 then
        Some(s.(childLeft := s.childLeft - 1,
                worker := if ok then ListingChildren else Returning(Some(ChildStreamEnded))))
      else None
    case WorkerQuits => if s.worker == Awaiting && s.shouldQuit then Some(s.(worker := Returning(None))) else None
    case ReturnErr => if s.worker.Returning? then Some(TrySend(s, s.worker.err).(worker := Departing)) else None
    case WorkerDone =>
      if s.worker == Departing then Some(s.(waitGroup := s.waitGroup - 1, worker := Cancelling')) else None
    case WorkerCancels => if s.worker == Cancelling' then Some(s.(shouldQuit := true, worker := Over)) else None
    case _ => None
  }

  function StarterStep(s: State, step: Step): Option<State> {
    match step
    case Spawn =>
      if s.starter == SpawningWatcher
      then Some(s.(waitGroup := s.waitGroup + 1, watcher := Selecting, starter := SpawningWorker))
      else if s.starter == SpawningWorker
      then Some(s.(waitGroup := s.waitGroup + 1, worker := Initialising, starter := WaitingForBoth))
      else None
    case BothDone =>
      if s.starter == WaitingForBoth && s.waitGroup == 0 then Some(s.(starter := ClosingErrch)) else None
    case CloseErrch =>
      if s.starter == ClosingErrch
      then Some(s.(errchClosed := true, panicked := s.panicked || s.errchClosed, starter := Receiving))
      else None
    case Receive =>
      if s.starter != Receiving || (s.errch == [] && !s.errchClosed) then None
      else
        var err := if s.errch != [] then s.errch[0] else None;
        Some(Hand(s, ErrEvent(err)).(errch := if s.errch != [] then s.errch[1..] else [], starter := SendingErr(err)))
    case CloseEvents =>
      if s.starter == ClosingEvents
      then Some(s.(eventsClosed := true, panicked := s.panicked || s.eventsClosed, starter := Finished))
      else None
    case _ => None
  }

  /** sendEvent: deliver to a reader; or, once Close was called, deliver if a reader is there and else drop. */
  function WorkerSend(s: State, step: Step): Option<State> {
    match step
    case Deliver =>
      if s.worker.Sending? || s.worker.SendingLast?
      then Some(Receives(s, LeaderEvent(s.worker.leader)).(worker := Awaiting))
      else None
    case SeeClosing =>
      if s.worker.Sending? && s.closing then Some(s.(worker := SendingLast(s.worker.leader))) else None
    case Drop => if s.worker.SendingLast? then Some(s.(worker := Awaiting)) else None
    case _ => None
  }

  /** The same for the error event that `start` sends. */
  function StarterSend(s: State, step: Step): Option<State> {
    match step
    case Deliver =>
      if s.starter.SendingErr? || s.starter.SendingErrLast?
      then Some(Receives(s, ErrEvent(s.starter.err)).(starter := ClosingEvents))
      else None
    case SeeClosing =>
      if s.starter.SendingErr? && s.closing then Some(s.(starter := SendingErrLast(s.starter.err))) else None
    case Drop => if s.starter.SendingErrLast? then Some(s.(starter := ClosingEvents)) else None
    case _ => None
  }

  /** The two never send at once: `start` sends only when the worker has left. */
  function SendStep(s: State, step: Step): Option<State> {
    if s.worker.Sending? || s.worker.SendingLast? then WorkerSend(s, step) else StarterSend(s, step)
  }

  /** The state a step leads to, if it can be taken. */
  function Next(s: State, step: Step): Option<State> {
    match step
    case CloseCalled => if s.closing then None else Some(s.(closing := true))
    case Spawn => StarterStep(s, step)
    case BothDone => StarterStep(s, step)
    case CloseErrch => StarterStep(s, step)
    case Receive => StarterStep(s, step)
    case CloseEvents => StarterStep(s, step)
    case SessionNotice(_) => WatcherStep(s, step)
    case WatcherQuits => WatcherStep(s, step)
    case Report => WatcherStep(s, step)
    case WatcherDone => WatcherStep(s, step)
    case WatcherCancels => WatcherStep(s, step)
    case Deliver => SendStep(s, step)
    case SeeClosing => SendStep(s, step)
    case Drop => SendStep(s, step)
    case _ => WorkerStep(s, step)
  }

  ghost predicate Run(states: seq<State>, steps: seq<Step>) {
    && |states| == |steps| + 1 && Init(states[0])
    && forall k :: 0 <= k < |steps| ==> Next(states[k], steps[k]) == Some(states[k + 1])
  }

  // ---------------------------------------------------------------- the invariant

  predicate WatcherActive(s: State) {
    s.watcher.Selecting? || s.watcher.Reporting? || s.watcher.Leaving?
  }

  predicate WorkerActive(s: State) {
    !s.worker.NotBegun? && !s.worker.Cancelling'? && !s.worker.Over?
  }

  /** Both goroutines have been spawned and have left the wait group. */
  predicate BothLeft(s: State) {
    (s.watcher.Cancelling? || s.watcher.Gone?) && (s.worker.Cancelling'? || s.worker.Over?)
  }

  predicate BeforeBothDone(s: State) {
    s.starter.SpawningWatcher? || s.starter.SpawningWorker? || s.starter.WaitingForBoth?
  }

  /** How far `start` has come fixes which goroutines may be active. */
  ghost predicate Lifecycle(s: State) {
    && s.waitGroup == (if WatcherActive(s) then 1 else 0) + (if WorkerActive(s) then 1 else 0)
    && (s.watcher == NotSpawned <==> s.starter == SpawningWatcher)
    && (s.worker == NotBegun <==> s.starter == SpawningWatcher || s.starter == SpawningWorker)
    && (BeforeBothDone(s) || BothLeft(s))
    && (s.errchClosed <==> !BeforeBothDone(s) && s.starter != ClosingErrch)
    && (s.eventsClosed <==> s.starter == Finished)
    && (s.watcher.Gone? || s.worker.Over? ==> s.shouldQuit)
  }

  /** `start` has not yet taken the error out of errch. */
  predicate BeforeReceive(s: State) {
    BeforeBothDone(s) || s.starter.ClosingErrch? || s.starter.Receiving?
  }

  /** At most one value is placed, it is a failure, and nobody is told to quit before it is there. */
  ghost predicate OneFailure(s: State) {
    && |s.placed| <= 1
    && (forall v :: v in s.placed ==> v.Some?)
    && (s.shouldQuit ==> |s.placed| == 1)
    && (s.watcher.Leaving? || s.watcher.Cancelling? || s.watcher.Gone? ==> |s.placed| == 1)
    && (s.worker == Returning(None) || s.worker.Departing? || s.worker.Cancelling'? || s.worker.Over? ==>
          |s.placed| == 1)
    && (BeforeReceive(s) ==> s.errch == s.placed)
  }

  /** The event being sent right now, if any. */
  function Pending(s: State): seq<Event> {
    if s.worker.Sending? || s.worker.SendingLast? then [LeaderEvent(s.worker.leader)]
    else if s.starter.SendingErr? || s.starter.SendingErrLast? then [ErrEvent(s.starter.err)]
    else []
  }

  ghost predicate OnlyLeaderEvents(events: seq<Event>) {
    forall e :: e in events ==> e.LeaderEvent?
  }

  /** The error event comes once, last, and carries the value that was placed. */
  ghost predicate EventsInOrder(s: State) {
    && (BeforeReceive(s) ==> OnlyLeaderEvents(s.attempted))
    && (!BeforeReceive(s) ==>
          && s.attempted != [] && |s.placed| == 1
          && s.attempted[|s.attempted| - 1] == ErrEvent(s.placed[0])
          && OnlyLeaderEvents(s.attempted[..|s.attempted| - 1]))
    && (s.starter.SendingErr? || s.starter.SendingErrLast? ==> [s.starter.err] == s.placed)
    && (!s.closing ==> s.attempted == s.delivered + Pending(s) && !s.worker.SendingLast? && !s.starter.SendingErrLast?)
  }

  ghost predicate Inv(s: State) {
    !s.panicked && Lifecycle(s) && OneFailure(s) && EventsInOrder(s)
  }

  lemma WatcherKeepsInv(s: State, step: Step, s': State)
    requires Inv(s) && WatcherStep(s, step) == Some(s')
    ensures Inv(s')
  {
    WatcherKeepsLifecycle(s, step, s');
    WatcherKeepsOneFailure(s, step, s');
    WatcherKeepsOrder(s, step, s');
    hide Lifecycle;
    hide OneFailure;
    hide EventsInOrder;
    hide WatcherStep;
  }

  lemma WatcherKeepsLifecycle(s: State, step: Step, s': State)
    requires Inv(s) && WatcherStep(s, step) == Some(s')
    ensures !s'.panicked && Lifecycle(s')
  {
    hide OneFailure;
    hide EventsInOrder;
  }

  lemma WatcherKeepsOneFailure(s: State, step: Step, s': State)
    requires Inv(s) && WatcherStep(s, step) == Some(s')
    ensures OneFailure(s')
  {
    hide EventsInOrder;
  }

  lemma WatcherKeepsOrder(s: State, step: Step, s': State)
    requires Inv(s) && WatcherStep(s, step) == Some(s')
    ensures EventsInOrder(s')
  {
  }

  lemma WorkerKeepsInv(s: State, step: Step, s': State)
    requires Inv(s) && WorkerStep(s, step) == Some(s')
    ensures Inv(s')
  {
    WorkerKeepsLifecycle(s, step, s');
    WorkerKeepsOneFailure(s, step, s');
    WorkerKeepsOrder(s, step, s');
    hide Lifecycle;
    hide OneFailure;
    hide EventsInOrder;
    hide WorkerStep;
  }

  lemma WorkerKeepsLifecycle(s: State, step: Step, s': State)
    requires Inv(s) && WorkerStep(s, step) == Some(s')
    ensures !s'.panicked && Lifecycle(s')
  {
    hide OneFailure;
    hide EventsInOrder;
  }

  lemma WorkerKeepsOneFailure(s: State, step: Step, s': State)
    requires Inv(s) && WorkerStep(s, step) == Some(s')
    ensures OneFailure(s')
  {
    hide EventsInOrder;
  }

  lemma WorkerKeepsOrder(s: State, step: Step, s': State)
    requires Inv(s) && WorkerStep(s, step) == Some(s')
    ensures EventsInOrder(s')
  {
    if step.Decided? && step.changed {
      HandingKeepsOrder(s, step, s');
    } else if step == ReturnErr {
      ReturningKeepsOrder(s, s');
    } else {
      hide OneFailure;
      hide OnlyLeaderEvents;
      assert s'.attempted == s.attempted && s'.delivered == s.delivered && s'.placed == s.placed;
      assert Pending(s') == Pending(s);
    }
  }

  lemma HandingKeepsOrder(s: State, step: Step, s': State)
    requires Inv(s) && step.Decided? && step.changed && WorkerStep(s, step) == Some(s')
    ensures EventsInOrder(s')
  {
    hide OneFailure;
    assert BeforeBothDone(s);
    assert Pending(s) == [] && s.delivered + [] == s.delivered;
  }

  lemma ReturningKeepsOrder(s: State, s': State)
    requires Inv(s) && WorkerStep(s, ReturnErr) == Some(s')
    ensures EventsInOrder(s')
  {
    hide OneFailure;
    hide OnlyLeaderEvents;
    assert BeforeBothDone(s);
    assert Pending(s') == Pending(s);
  }

  lemma StarterKeepsInv(s: State, step: Step, s': State)
    requires Inv(s) && StarterStep(s, step) == Some(s')
    ensures Inv(s')
  {
    StarterKeepsLifecycle(s, step, s');
    StarterKeepsOneFailure(s, step, s');
    StarterKeepsOrder(s, step, s');
    hide Lifecycle;
    hide OneFailure;
    hide EventsInOrder;
    hide StarterStep;
  }

  lemma StarterKeepsLifecycle(s: State, step: Step, s': State)
    requires Inv(s) && StarterStep(s, step) == Some(s')
    ensures !s'.panicked && Lifecycle(s')
  {
    hide OneFailure;
    hide EventsInOrder;
  }

  lemma StarterKeepsOneFailure(s: State, step: Step, s': State)
    requires Inv(s) && StarterStep(s, step) == Some(s')
    ensures OneFailure(s')
  {
    hide EventsInOrder;
  }

  lemma StarterKeepsOrder(s: State, step: Step, s': State)
    requires Inv(s) && StarterStep(s, step) == Some(s')
    ensures EventsInOrder(s')
  {
    if step == Receive {
      ReceiveKeepsOrder(s, s');
    } else {
      hide OneFailure;
      hide OnlyLeaderEvents;
      assert s'.attempted == s.attempted && s'.delivered == s.delivered && s'.placed == s.placed;
      assert Pending(s') == Pending(s);
    }
  }

  lemma ReceiveKeepsOrder(s: State, s': State)
    requires Inv(s) && StarterStep(s, Receive) == Some(s')
    ensures EventsInOrder(s')
  {
    hide OnlyLeaderEvents;
    assert BothLeft(s);
    assert s'.attempted[..|s'.attempted| - 1] == s.attempted;
    assert Pending(s) == [] && Pending(s') == [ErrEvent(s.placed[0])];
    assert s.delivered + Pending(s) == s.delivered;
  }

  lemma SendKeepsInv(s: State, step: Step, s': State)
    requires Inv(s) && SendStep(s, step) == Some(s')
    ensures Inv(s')
  {
    hide WorkerSend;
    hide StarterSend;
    if s.worker.Sending? || s.worker.SendingLast? {
      WorkerSendKeepsLifecycle(s, step, s');
      WorkerSendKeepsOneFailure(s, step, s');
      WorkerSendKeepsOrder(s, step, s');
    } else {
      StarterSendKeepsLifecycle(s, step, s');
      StarterSendKeepsOneFailure(s, step, s');
      StarterSendKeepsOrder(s, step, s');
    }
    hide Lifecycle;
    hide OneFailure;
    hide EventsInOrder;
  }

  lemma WorkerSendKeepsLifecycle(s: State, step: Step, s': State)
    requires Inv(s) && WorkerSend(s, step) == Some(s')
    ensures !s'.panicked && Lifecycle(s')
  {
    hide OneFailure;
    hide EventsInOrder;
  }

  lemma WorkerSendKeepsOneFailure(s: State, step: Step, s': State)
    requires Inv(s) && WorkerSend(s, step) == Some(s')
    ensures OneFailure(s')
  {
    hide EventsInOrder;
    hide Lifecycle;
  }

  lemma WorkerSendKeepsOrder(s: State, step: Step, s': State)
    requires Inv(s) && WorkerSend(s, step) == Some(s')
    ensures EventsInOrder(s')
  {
    hide OneFailure;
    hide OnlyLeaderEvents;
    assert s'.attempted == s.attempted && s'.placed == s.placed;
    assert BeforeReceive(s') == BeforeReceive(s);
    if step == Deliver {
      assert Pending(s') == [] && s'.delivered == s.delivered + Pending(s);
      assert s'.delivered + [] == s'.delivered;
    }
  }

  lemma StarterSendKeepsLifecycle(s: State, step: Step, s': State)
    requires Inv(s) && StarterSend(s, step) == Some(s')
    ensures !s'.panicked && Lifecycle(s')
  {
    hide OneFailure;
    hide EventsInOrder;
  }

  lemma StarterSendKeepsOneFailure(s: State, step: Step, s': State)
    requires Inv(s) && StarterSend(s, step) == Some(s')
    ensures OneFailure(s')
  {
    hide EventsInOrder;
    hide Lifecycle;
  }

  lemma StarterSendKeepsOrder(s: State, step: Step, s': State)
    requires Inv(s) && StarterSend(s, step) == Some(s')
    ensures EventsInOrder(s')
  {
    hide OneFailure;
    hide OnlyLeaderEvents;
    assert s'.attempted == s.attempted && s'.placed == s.placed;
    assert BeforeReceive(s') == BeforeReceive(s);
    if step == Deliver {
      assert BothLeft(s);
      assert Pending(s') == [] && s'.delivered == s.delivered + Pending(s);
      assert s'.delivered + [] == s'.delivered;
    }
  }

  lemma NextKeepsInv(s: State, step: Step, s': State)
    requires Inv(s) && Next(s, step) == Some(s')
    ensures Inv(s')
  {
    if WatcherStep(s, step) == Some(s') {
      WatcherKeepsInv(s, step, s');
    } else if WorkerStep(s, step) == Some(s') {
      WorkerKeepsInv(s, step, s');
    } else if StarterStep(s, step) == Some(s') {
      StarterKeepsInv(s, step, s');
    } else if SendStep(s, step) == Some(s') {
      SendKeepsInv(s, step, s');
    }
  }

  lemma {:induction false} InvThroughout(states: seq<State>, steps: seq<Step>, n: nat)
    requires Run(states, steps) && n <= |steps|
    ensures Inv(states[n])
  {
    hide Next;
    if n > 0 {
      hide Inv;
      InvThroughout(states, steps, n - 1);
      assert Next(states[n - 1], steps[n - 1]) == Some(states[n - 1 + 1]);
      NextKeepsInv(states[n - 1], steps[n - 1], states[n]);
    }
  }

  // ---------------------------------------------------------------- what every run guarantees

  /**
   In every interleaving: nothing is sent on a closed channel and none is closed twice; at most one
   value is ever placed in errch, never nil, and it is there before shouldQuit is closed.
   */
  lemma NoPanicOneFailure(states: seq<State>, steps: seq<Step>, n: nat)
    requires Run(states, steps) && n <= |steps|
    ensures !states[n].panicked
    ensures |states[n].placed| <= 1 && forall v :: v in states[n].placed ==> v.Some?
    ensures states[n].shouldQuit ==> |states[n].placed| == 1
  {
    InvThroughout(states, steps, n);
  }

  /**
   When `start` returns, exactly one failure was placed, exactly one error event was attempted, it
   carried that failure, it was the last event, and `events` is closed.
   */
  lemma EndsWithOneError(states: seq<State>, steps: seq<Step>, n: nat)
    requires Run(states, steps) && n <= |steps| && states[n].starter == Finished
    ensures var s := states[n];
            && s.eventsClosed && |s.placed| == 1 && s.placed[0].Some?
            && s.attempted != [] && s.attempted[|s.attempted| - 1] == ErrEvent(s.placed[0])
            && forall k :: 0 <= k < |s.attempted| - 1 ==> s.attempted[k].LeaderEvent?
  {
    InvThroughout(states, steps, n);
    var s := states[n];
    assert s.placed[0] in s.placed;
    forall k | 0 <= k < |s.attempted| - 1 ensures s.attempted[k].LeaderEvent? {
      assert s.attempted[..|s.attempted| - 1][k] == s.attempted[k];
    }
  }

  /** Until Close is called every event handed over reaches the client, in order, before the next one. */
  lemma DeliveredUntilClose(states: seq<State>, steps: seq<Step>, n: nat)
    requires Run(states, steps) && n <= |steps| && !states[n].closing
    ensures states[n].attempted == states[n].delivered + Pending(states[n])
  {
    InvThroughout(states, steps, n);
  }

  // ---------------------------------------------------------------- termination

  function WatcherRank(w: Watcher): nat {
    match w
    case NotSpawned => 5
    case Selecting => 4
    case Reporting(_) => 3
    case Leaving => 2
    case Cancelling => 1
    case Gone => 0
  }

  function WorkerRank(w: Worker): nat {
    match w
    case NotBegun => 12
    case Initialising => 11
    case CreatingLock => 10
    case ListingChildren => 9
    case Updating => 8
    case Sending(_) => 7
    case SendingLast(_) => 6
    case Awaiting => 5
    case Returning(_) => 4
    case Departing => 3
    case Cancelling' => 2
    case Over => 0
  }

  function StarterRank(w: Starter): nat {
    match w
    case SpawningWatcher => 9
    case SpawningWorker => 8
    case WaitingForBoth => 7
    case ClosingErrch => 6
    case Receiving => 5
    case SendingErr(_) => 4
    case SendingErrLast(_) => 3
    case ClosingEvents => 2
    case Finished => 0
  }

  function Measure(s: State): nat {
    2 * s.sessionLeft + 10 * s.childLeft + WatcherRank(s.watcher) + WorkerRank(s.worker) + StarterRank(s.starter)
    + if s.closing then 0 else 1
  }

  /** Given finitely many notifications, every step brings the end closer. */
  lemma StepDecreasesMeasure(s: State, step: Step, s': State)
    requires Inv(s) && Next(s, step) == Some(s')
    ensures Measure(s') < Measure(s)
  {
    hide OneFailure;
    hide EventsInOrder;
    match step
    case CloseCalled =>
    case Spawn => StarterDecreases(s, step, s');
    case BothDone => StarterDecreases(s, step, s');
    case CloseErrch => StarterDecreases(s, step, s');
    case Receive => StarterDecreases(s, step, s');
    case CloseEvents => StarterDecreases(s, step, s');
    case Deliver => SendDecreases(s, step, s');
    case SeeClosing => SendDecreases(s, step, s');
    case Drop => SendDecreases(s, step, s');
    case _ =>
      if WatcherStep(s, step) == Some(s') {
        WatcherDecreases(s, step, s');
      } else {
        WorkerDecreases(s, step, s');
      }
  }

  lemma StarterDecreases(s: State, step: Step, s': State)
    requires Lifecycle(s) && StarterStep(s, step) == Some(s')
    ensures Measure(s') < Measure(s)
  {
  }

  lemma SendDecreases(s: State, step: Step, s': State)
    requires SendStep(s, step) == Some(s')
    ensures Measure(s') < Measure(s)
  {
    hide Measure;
    if s.worker.Sending? || s.worker.SendingLast? {
      WorkerSendDecreases(s, step, s');
    } else {
      StarterSendDecreases(s, step, s');
    }
  }

  lemma WorkerSendDecreases(s: State, step: Step, s': State)
    requires WorkerSend(s, step) == Some(s')
    ensures Measure(s') < Measure(s)
  {
    hide WatcherRank;
    hide StarterRank;
  }

  lemma StarterSendDecreases(s: State, step: Step, s': State)
    requires StarterSend(s, step) == Some(s')
    ensures Measure(s') < Measure(s)
  {
    hide WatcherRank;
    hide WorkerRank;
  }

  lemma WatcherDecreases(s: State, step: Step, s': State)
    requires WatcherStep(s, step) == Some(s')
    ensures Measure(s') < Measure(s)
  {
  }

  lemma WorkerDecreases(s: State, step: Step, s': State)
    requires WorkerStep(s, step) == Some(s')
    ensures Measure(s') < Measure(s)
  {
    hide WatcherRank;
    hide StarterRank;
    hide WorkerRank;
    WorkerAdvances(s, step, s');
    hide WorkerStep;
  }

  lemma WorkerAdvances(s: State, step: Step, s': State)
    requires WorkerStep(s, step) == Some(s')
    ensures s'.sessionLeft == s.sessionLeft && s'.closing == s.closing
    ensures s'.watcher == s.watcher && s'.starter == s.starter
    ensures 10 * s'.childLeft + WorkerRank(s'.worker) < 10 * s.childLeft + WorkerRank(s.worker)
  {
    match step
    case CallReturns(err) =>
    case Decided(leader, changed) =>
    case ChildNotice(ok) =>
    case WorkerQuits =>
    case ReturnErr =>
    case WorkerDone =>
    case WorkerCancels =>
  }

  /** So no run is longer than its first state's measure. */
  lemma {:induction false} RunsAreShort(states: seq<State>, steps: seq<Step>, n: nat)
    requires Run(states, steps) && n <= |steps|
    ensures n + Measure(states[n]) <= Measure(states[0])
  {
    if n > 0 {
      RunsAreShort(states, steps, n - 1);
      InvThroughout(states, steps, n - 1);
      assert Next(states[n - 1], steps[n - 1]) == Some(states[n - 1 + 1]);
      StepDecreasesMeasure(states[n - 1], steps[n - 1], states[n]);
    }
  }

  /** One of the goroutines is on its way out, or gone. */
  predicate Failed(s: State) {
    || !(s.watcher.NotSpawned? || s.watcher.Selecting?)
    || s.worker.Returning? || s.worker.Departing? || s.worker.Cancelling'? || s.worker.Over?
  }

  /** A step the elector can take by itself: no client reading events, no notification, no caller. */
  predicate Unaided(step: Step) {
    !step.Deliver? && !step.SessionNotice? && !step.ChildNotice? && !step.CloseCalled?
  }

  lemma FailedStays(s: State, step: Step, s': State)
    requires Inv(s) && Next(s, step) == Some(s') && Failed(s) && s.closing
    ensures Failed(s') && s'.closing
  {
    hide OneFailure;
    hide EventsInOrder;
    hide SendStep;
    hide TrySend;
    if SendStep(s, step) == Some(s') {
      SendLeavesFailed(s, step, s');
    } else if step == Report || step == ReturnErr {
      ReportLeavesFailed(s, step, s');
    }
  }

  lemma SendLeavesFailed(s: State, step: Step, s': State)
    requires SendStep(s, step) == Some(s')
    ensures s'.watcher == s.watcher && s'.closing == s.closing && (Failed(s) ==> Failed(s'))
  {
  }

  lemma ReportLeavesFailed(s: State, step: Step, s': State)
    requires Next(s, step) == Some(s') && (step == Report || step == ReturnErr)
    ensures s'.closing == s.closing && Failed(s')
  {
  }

  /** After Close, once either goroutine has failed, `start` is never stuck before its end. */
  lemma NeverStuck(s: State) returns (step: Step)
    requires Inv(s) && s.closing && Failed(s) && s.starter != Finished
    ensures Unaided(step) && Next(s, step).Some?
  {
    if s.starter.SpawningWatcher? || s.starter.SpawningWorker? {
      step := Spawn;
    } else if s.worker == Updating {
      step := Decided(false, false);
    } else if Calling(s.worker) {
      step := CallReturns(None);
    } else if s.worker.Sending? || s.starter.SendingErr? {
      step := SeeClosing;
    } else if s.worker.SendingLast? || s.starter.SendingErrLast? {
      step := Drop;
    } else if s.worker.Returning? {
      step := ReturnErr;
    } else if s.worker == Departing {
      step := WorkerDone;
    } else if s.worker == Cancelling' {
      step := WorkerCancels;
    } else if s.watcher.Reporting? {
      step := Report;
    } else if s.watcher == Leaving {
      step := WatcherDone;
    } else if s.watcher == Cancelling {
      step := WatcherCancels;
    } else if s.worker == Awaiting {
      step := WorkerQuits;
    } else if s.watcher == Selecting {
      step := WatcherQuits;
    } else if s.starter == WaitingForBoth {
      step := BothDone;
    } else if s.starter == ClosingErrch {
      step := CloseErrch;
    } else if s.starter == Receiving {
      step := Receive;
    } else {
      step := CloseEvents;
    }
  }

  /**
   So once Close was called and a goroutine has failed, a run that cannot go on without a client
   reading events, a notification or a caller has reached the end of `start`.
   */
  lemma FinishesAfterClose(states: seq<State>, steps: seq<Step>, k: nat)
    requires Run(states, steps) && k <= |steps| && states[k].closing && Failed(states[k])
    requires forall step :: Unaided(step) ==> Next(states[|steps|], step).None?
    ensures states[|steps|].starter == Finished
  {
    FailedToTheEnd(states, steps, k, |steps|);
    InvThroughout(states, steps, |steps|);
    if states[|steps|].starter != Finished {
      var step := NeverStuck(states[|steps|]);
    }
  }

  lemma {:induction false} FailedToTheEnd(states: seq<State>, steps: seq<Step>, k: nat, n: nat)
    requires Run(states, steps) && k <= n <= |steps| && states[k].closing && Failed(states[k])
    ensures states[n].closing && Failed(states[n])
    decreases n
  {
    if k < n {
      FailedToTheEnd(states, steps, k, n - 1);
      InvThroughout(states, steps, n - 1);
      assert Next(states[n - 1], steps[n - 1]) == Some(states[n - 1 + 1]);
      FailedStays(states[n - 1], steps[n - 1], states[n]);
    }
  }
}
