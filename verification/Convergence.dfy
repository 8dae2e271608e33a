/**
 What becomes of the election when ZooKeeper calms down: no lock node comes or goes any more, nothing
 fails, and reads are answered from the latest tree.
 */
module Convergence {
  import opened Types
  import opened Sequences
  import opened Election

  /** A step of an elector in calm times. */
  ghost predicate CalmStep(s: State, step: Step) {
    match step
    case ListChildren(_, at) => at == |s.history| - 1
    case Fetch(at) => at == |s.history| - 1
    case Decide => true
    case Update => true
    case TakeEvent => true
    case _ => false
  }

  ghost predicate CalmMove(base: string, s: State, actor: Id, step: Step, s': State) {
    Next(base, s, actor, step, s') && CalmStep(s, step)
  }

  ghost predicate CalmRun(base: string, states: seq<State>, actors: seq<Id>, steps: seq<Step>) {
    && |states| == |actors| + 1 == |steps| + 1
    && forall k :: 0 <= k < |steps| ==> CalmMove(base, states[k], actors[k], steps[k], states[k + 1])
  }

  /** Stopped, or waiting on a watch that has not fired. */
  predicate Settled(e: Elector) {
    e.phase == Stopped || e.phase == Idle || (e.phase == Waiting && e.watch != Fired)
  }

  function PhaseRank(phase: Phase): nat {
    match phase
    case ToList => 4
    case Listed(_) => 3
    case Chosen(_, _) => 2
    case Fetched(_, _) => 1
    case _ => 0
  }

  /** How many steps an elector still has to take: a watch that has fired means one more round. */
  function Rank(e: Elector): nat {
    if e.phase == Stopped || e.phase == Idle then 0 else PhaseRank(e.phase) + if e.watch == Fired then 5 else 0
  }

  lemma RankBounded(base: string, s: State, id: Id)
    requires Inv(base, s) && id in s.electors
    ensures Rank(s.electors[id]) <= 8 && (Rank(s.electors[id]) == 0 <==> Settled(s.electors[id]))
  {
    assert Sound(s.history, s.electors[id]);
    hide Safe;
  }

  /** A calm step changes nothing but its actor, and brings that one closer to its end. */
  lemma CalmMoveCounts(base: string, s: State, actor: Id, step: Step, s': State)
    requires Inv(base, s) && CalmMove(base, s, actor, step, s')
    ensures Inv(base, s') && s'.history == s.history && s'.electors.Keys == s.electors.Keys
    ensures actor in s.electors && Rank(s'.electors[actor]) < Rank(s.electors[actor])
    ensures forall id :: id in s.electors && id != actor ==> s'.electors[id] == s.electors[id]
  {
    NextKeepsInv(base, s, actor, step, s');
    ListsUnarmed(base, s, actor);
    hide Inv;
    hide LocalStep;
    hide CreateStep;
    hide ExpireStep;
    hide Rank;
    LocalCounts(base, s, step, s.electors[actor], s'.electors[actor]);
  }

  lemma ListsUnarmed(base: string, s: State, id: Id)
    requires Inv(base, s) && id in s.electors
    ensures s.electors[id].phase == ToList ==> s.electors[id].watch == Unarmed
  {
    assert Sound(s.history, s.electors[id]);
    hide Safe;
  }

  lemma LocalCounts(base: string, s: State, step: Step, e: Elector, e': Elector)
    requires CalmStep(s, step) && LocalStep(base, s.history, step, e, e')
    requires e.phase == ToList ==> e.watch == Unarmed
    ensures Rank(e') < Rank(e)
  {
    hide Listing;
    hide DetermineLeader;
  }

  function OwnSteps(actors: seq<Id>, id: Id, n: nat): nat
    requires n <= |actors|
  {
    if n == 0 then 0 else OwnSteps(actors, id, n - 1) + if actors[n - 1] == id then 1 else 0
  }

  lemma {:induction false} OwnStepsBounded(base: string, states: seq<State>, actors: seq<Id>, steps: seq<Step>,
                                           id: Id, n: nat)
    requires CalmRun(base, states, actors, steps) && Inv(base, states[0]) && id in states[0].electors && n <= |steps|
    ensures Inv(base, states[n]) && id in states[n].electors && states[n].history == states[0].history
    ensures OwnSteps(actors, id, n) + Rank(states[n].electors[id]) <= Rank(states[0].electors[id])
  {
    hide Inv;
    hide Rank;
    hide CalmMove;
    if n > 0 {
      OwnStepsBounded(base, states, actors, steps, id, n - 1);
      assert CalmMove(base, states[n - 1], actors[n - 1], steps[n - 1], states[n - 1 + 1]);
      CalmMoveCounts(base, states[n - 1], actors[n - 1], steps[n - 1], states[n]);
    }
  }

  /** In calm times no elector takes more than eight steps, and after eight it has settled. */
  lemma SettlesWithinEight(base: string, states: seq<State>, actors: seq<Id>, steps: seq<Step>, id: Id, n: nat)
    requires CalmRun(base, states, actors, steps) && Inv(base, states[0]) && id in states[0].electors && n <= |steps|
    ensures OwnSteps(actors, id, n) <= 8 && id in states[n].electors
    ensures OwnSteps(actors, id, n) == 8 ==> Settled(states[n].electors[id])
  {
    hide Inv;
    OwnStepsBounded(base, states, actors, steps, id, n);
    RankBounded(base, states[0], id);
    RankBounded(base, states[n], id);
  }

  /** An elector that has not settled can always take a calm step. */
  lemma CanGoOn(base: string, s: State, id: Id) returns (step: Step, s': State)
    requires Inv(base, s) && id in s.electors && !Settled(s.electors[id])
    ensures CalmMove(base, s, id, step, s')
  {
    var e, now := s.electors[id], |s.history| - 1;
    assert Sound(s.history, e);
    var e';
    step, e' := NextOf(base, s.history, e);
    s' := s.(electors := s.electors[id := e']);
  }

  lemma NextOf(base: string, history: History, e: Elector) returns (step: Step, e': Elector)
    requires Sound(history, e) && !Settled(e)
    ensures LocalStep(base, history, step, e, e') && !step.CreateLock? && !step.Expire? && !step.Fail?
    ensures match step
            case ListChildren(_, at) => at == |history| - 1
            case Fetch(at) => at == |history| - 1
            case _ => true
  {
    hide LaterAbove;
    hide Unbeaten;
    hide UpToDate;
    hide Announced;
    hide Lowest;
    var now := |history| - 1;
    match e.phase
    case ToList =>
      var listing := ListingExists(history[now].Keys);
      step, e' := ListChildren(listing, now), e.(phase := Listed(listing), seen := now, watch := Armed);
    case Listed(children) =>
      step := Decide;
      e' := e.(phase := match DetermineLeader(LockPath(base, e.lock.value), children)
                        case None => Stopped
                        case Some(v) => Chosen(v.isLeader, v.leaderNode));
    case Chosen(isLeader, node) =>
      step := Fetch(now);
      e' := e.(seen := now,
               phase := if node in history[now] then Fetched(isLeader, history[now][node].ident) else Stopped);
    case Fetched(isLeader, ident) =>
      step, e' := Update, e.(phase := Waiting, standing := Updated(e.standing, ident, isLeader));
    case Waiting =>
      step, e' := TakeEvent, e.(phase := ToList, watch := Unarmed);
  }

  lemma RunGoesOn(base: string, prior: seq<State>, states: seq<State>, actors: seq<Id>, steps: seq<Step>)
    requires Run(base, prior) && CalmRun(base, states, actors, steps) && states[0] == prior[|prior| - 1]
    ensures Run(base, prior + states[1..])
    ensures (prior + states[1..])[|prior| - 1 + |steps|] == states[|steps|]
  {
    hide Init;
    hide Next;
    hide CalmStep;
    var all := prior + states[1..];
    forall k | 0 <= k < |all| - 1 ensures Follows(base, all[k], all[k + 1]) {
      if k >= |prior| - 1 {
        var j := k - (|prior| - 1);
        assert all[k] == states[j] && all[k + 1] == states[j + 1];
        assert CalmMove(base, states[j], actors[j], steps[j], states[j + 1]);
      }
    }
  }

  /**
   Convergence: let the election have come to any state, and then times be calm until no elector has a
   step left to take. Then the election is quiescent; and if the owner of the lowest lock node has not
   stopped, it and it alone leads, and every running elector reports its data.
   */
  lemma LeaderIsElected(base: string, prior: seq<State>, states: seq<State>, actors: seq<Id>, steps: seq<Step>,
                        name: string)
    requires Run(base, prior) && CalmRun(base, states, actors, steps) && states[0] == prior[|prior| - 1]
    requires var s := states[|steps|];
             && (forall id, step, s' :: !CalmMove(base, s, id, step, s'))
             && Lowest(s.Children(), name)
    ensures var s := states[|steps|];
            && Quiescent(s)
            && s.Children()[name].owner in s.electors
            && (Running(s.electors[s.Children()[name].owner]) ==>
                  forall id :: id in s.electors && Running(s.electors[id]) ==>
                    && (s.electors[id].standing.isLeader <==> id == s.Children()[name].owner)
                    && s.electors[id].standing.leaderIdent == s.Children()[name].ident)
  {
    var all, n, s := prior + states[1..], |prior| - 1 + |steps|, states[|steps|];
    RunGoesOn(base, prior, states, actors, steps);
    InvThroughout(base, all, n);
    OwnerOf(base, s, name, s.Children()[name].owner);
    OwnerIsElector(base, s, name);
    forall id | id in s.electors && Running(s.electors[id])
      ensures s.electors[id].phase == Waiting && s.electors[id].watch != Fired
    {
      NotIdle(base, s, id);
      if !Settled(s.electors[id]) {
        var step, s' := CanGoOn(base, s, id);
      }
    }
    hide Inv;
    hide Run;
    hide Lowest;
    if Running(s.electors[s.Children()[name].owner]) {
      QuiescentLeader(base, all, n, name);
      forall id | id in s.electors && Running(s.electors[id])
        ensures s.electors[id].standing.leaderIdent == s.Children()[name].ident
      {
        QuiescentAgreement(base, all, n, id);
      }
    }
  }

  lemma OwnerIsElector(base: string, s: State, name: string)
    requires Inv(base, s) && name in s.Children()
    ensures s.Children()[name].owner in s.electors
  {
    assert Owned(s.history[|s.history| - 1], s.electors);
  }

  lemma NotIdle(base: string, s: State, id: Id)
    requires Inv(base, s) && id in s.electors && Running(s.electors[id])
    ensures s.electors[id].phase != Idle
  {
    assert Sound(s.history, s.electors[id]);
  }

  // ---------------------------------------------------------------- from a listing on

  /** Where an elector stands that waited or began to list in calm times: what it goes by is in the latest tree. */
  ghost predicate OnItsWay(history: History, e: Elector) {
    && e.lock.Some?
    && match e.phase
       case ToList => true
       case Listed(listing) => e.watch == Armed && Listing(listing, Latest(history).Keys)
       case Chosen(_, node) => e.watch == Armed && node in Latest(history)
       case Fetched(_, _) => e.watch == Armed
       case Waiting => true
       case _ => false
  }

  lemma StaysOnItsWay(base: string, s: State, actor: Id, step: Step, s': State, id: Id)
    requires Inv(base, s) && CalmMove(base, s, actor, step, s') && id in s.electors
    requires OnItsWay(s.history, s.electors[id]) && Latest(s.history) != map[]
    ensures id in s'.electors && OnItsWay(s'.history, s'.electors[id])
  {
    CalmMoveCounts(base, s, actor, step, s');
    if actor == id {
      var e := s.electors[id];
      Parses(base, s, id);
      hide Inv;
      hide OnItsWay;
      hide LocalStep;
      hide CreateStep;
      hide ExpireStep;
      LocalOnItsWay(base, s, step, e, s'.electors[id]);
    }
  }

  lemma Parses(base: string, s: State, id: Id)
    requires Inv(base, s) && id in s.electors && s.electors[id].lock.Some?
    ensures SequencePart(LockPath(base, s.electors[id].lock.value)).Some?
    ensures s.electors[id].phase.Listed? ==> AllParse(s.electors[id].phase.children)
  {
    assert Sound(s.history, s.electors[id]) && Numbered(base, s.electors[id].lock.value, s.next);
    hide Watched;
    hide Announced;
  }

  lemma LocalOnItsWay(base: string, s: State, step: Step, e: Elector, e': Elector)
    requires CalmStep(s, step) && LocalStep(base, s.history, step, e, e')
    requires OnItsWay(s.history, e) && Latest(s.history) != map[]
    requires SequencePart(LockPath(base, e.lock.value)).Some?
    requires e.phase.Listed? ==> AllParse(e.phase.children)
    ensures OnItsWay(s.history, e')
  {
    hide SequencePart;
    hide AllParse;
    hide LockPath;
    if step == Decide {
      var name :| name in Latest(s.history);
      assert name in Latest(s.history).Keys && name in e.phase.children;
      DeterminedIff(LockPath(base, e.lock.value), e.phase.children);
      LeaderIsLowest(LockPath(base, e.lock.value), e.phase.children);
    }
    hide DetermineLeader;
  }

  lemma {:induction false} OnItsWayThroughout(base: string, states: seq<State>, actors: seq<Id>, steps: seq<Step>,
                                              id: Id, n: nat)
    requires CalmRun(base, states, actors, steps) && Inv(base, states[0]) && id in states[0].electors && n <= |steps|
    requires OnItsWay(states[0].history, states[0].electors[id]) && Latest(states[0].history) != map[]
    ensures Inv(base, states[n]) && states[n].history == states[0].history
    ensures id in states[n].electors && OnItsWay(states[n].history, states[n].electors[id])
  {
    hide Inv;
    hide OnItsWay;
    hide CalmMove;
    if n > 0 {
      OnItsWayThroughout(base, states, actors, steps, id, n - 1);
      assert CalmMove(base, states[n - 1], actors[n - 1], steps[n - 1], states[n - 1 + 1]);
      CalmMoveCounts(base, states[n - 1], actors[n - 1], steps[n - 1], states[n]);
      StaysOnItsWay(base, states[n - 1], actors[n - 1], steps[n - 1], states[n], id);
    }
  }

  /**
   A leader is elected: if calm times begin when the owner of the lowest lock node is about to list or waits
   for an event, it does not stop, and when no step is left to take, it and it alone leads, and every
   running elector reports its data.
   */
  lemma OwnerOfLowestIsElected(base: string, prior: seq<State>, states: seq<State>, actors: seq<Id>,
                               steps: seq<Step>, name: string)
    requires Run(base, prior) && CalmRun(base, states, actors, steps) && states[0] == prior[|prior| - 1]
    requires Lowest(states[0].Children(), name)
    requires var owner := states[0].Children()[name].owner;
             owner in states[0].electors ==> states[0].electors[owner].phase in {ToList, Waiting}
    requires forall id, step, s' :: !CalmMove(base, states[|steps|], id, step, s')
    ensures var s, owner := states[|steps|], states[0].Children()[name].owner;
            && owner in s.electors && Running(s.electors[owner]) && s.electors[owner].standing.isLeader
            && s.electors[owner].lock == Some(name)
            && forall id :: id in s.electors && Running(s.electors[id]) ==>
                 && (s.electors[id].standing.isLeader <==> id == owner)
                 && s.electors[id].standing.leaderIdent == states[0].Children()[name].ident
  {
    var n, owner := |steps|, states[0].Children()[name].owner;
    InvThroughout(base, prior, |prior| - 1);
    OwnerIsElector(base, states[0], name);
    OwnerOf(base, states[0], name, owner);
    OnItsWayThroughout(base, states, actors, steps, owner, n);
    var s := states[n];
    assert s.Children() == states[0].Children();
    hide Inv;
    hide Run;
    hide CalmRun;
    hide Lowest;
    OwnerOf(base, s, name, owner);
    LeaderIsElected(base, prior, states, actors, steps, name);
  }

  // ---------------------------------------------------------------- such a time exists

  lemma CalmThen(base: string, s: State, actor: Id, step: Step, states: seq<State>, actors: seq<Id>, steps: seq<Step>)
    requires CalmRun(base, states, actors, steps) && CalmMove(base, s, actor, step, states[0])
    ensures CalmRun(base, [s] + states, [actor] + actors, [step] + steps)
  {
    hide CalmMove;
    var states', actors', steps' := [s] + states, [actor] + actors, [step] + steps;
    forall k | 0 <= k < |steps'| ensures CalmMove(base, states'[k], actors'[k], steps'[k], states'[k + 1]) {
      if k > 0 {
        assert CalmMove(base, states[k - 1], actors[k - 1], steps[k - 1], states[k - 1 + 1]);
      }
    }
  }

  lemma CalmJoined(base: string, states: seq<State>, actors: seq<Id>, steps: seq<Step>,
                   later: seq<State>, actors': seq<Id>, steps': seq<Step>)
    requires CalmRun(base, states, actors, steps) && CalmRun(base, later, actors', steps')
    requires states[|steps|] == later[0]
    ensures CalmRun(base, states + later[1..], actors + actors', steps + steps')
    ensures (states + later[1..])[|steps + steps'|] == later[|steps'|]
  {
    hide CalmMove;
    var all, who, what := states + later[1..], actors + actors', steps + steps';
    forall k | 0 <= k < |what| ensures CalmMove(base, all[k], who[k], what[k], all[k + 1]) {
      if k < |steps| {
        assert CalmMove(base, states[k], actors[k], steps[k], states[k + 1]);
      } else {
        var j := k - |steps|;
        assert all[k] == later[j] && all[k + 1] == later[j + 1];
        assert CalmMove(base, later[j], actors'[j], steps'[j], later[j + 1]);
      }
    }
  }

  /** One elector settles by itself, and nobody else is affected. */
  lemma {:induction false} SettleOne(base: string, s: State, id: Id)
    returns (states: seq<State>, actors: seq<Id>, steps: seq<Step>)
    requires Inv(base, s) && id in s.electors
    ensures CalmRun(base, states, actors, steps) && states[0] == s
    ensures var s' := states[|steps|];
            && Inv(base, s') && s'.electors.Keys == s.electors.Keys && Settled(s'.electors[id])
            && forall other :: other in s.electors && other != id ==> s'.electors[other] == s.electors[other]
    decreases Rank(s.electors[id])
  {
    hide Inv;
    hide CalmMove;
    hide Settled;
    hide Rank;
    if Settled(s.electors[id]) {
      states, actors, steps := [s], [], [];
    } else {
      var step, s' := CanGoOn(base, s, id);
      CalmMoveCounts(base, s, id, step, s');
      var later, actors', steps' := SettleOne(base, s', id);
      CalmThen(base, s, id, step, later, actors', steps');
      states, actors, steps := [s] + later, [id] + actors', [step] + steps';
      assert states[|steps|] == later[|steps'|];
    }
  }

  lemma {:induction false} SettleAll(base: string, s: State, todo: set<Id>)
    returns (states: seq<State>, actors: seq<Id>, steps: seq<Step>)
    requires Inv(base, s) && todo <= s.electors.Keys
    requires forall id :: id in s.electors && id !in todo ==> Settled(s.electors[id])
    ensures CalmRun(base, states, actors, steps) && states[0] == s && Inv(base, states[|steps|])
    ensures forall id :: id in states[|steps|].electors ==> Settled(states[|steps|].electors[id])
    decreases |todo|
  {
    hide Inv;
    hide CalmMove;
    hide Settled;
    if todo == {} {
      states, actors, steps := [s], [], [];
    } else {
      var id :| id in todo;
      var first, who, what := SettleOne(base, s, id);
      var later, actors', steps' := SettleAll(base, first[|what|], todo - {id});
      CalmJoined(base, first, who, what, later, actors', steps');
      states, actors, steps := first + later[1..], who + actors', what + steps';
    }
  }

  /** From every state the election can come to, calm times lead to one in which no step is left to take. */
  lemma CalmComesToRest(base: string, s: State) returns (states: seq<State>, actors: seq<Id>, steps: seq<Step>)
    requires Inv(base, s)
    ensures CalmRun(base, states, actors, steps) && states[0] == s
    ensures forall id, step, s' :: !CalmMove(base, states[|steps|], id, step, s')
  {
    states, actors, steps := SettleAll(base, s, s.electors.Keys);
    var last := states[|steps|];
    hide Inv;
    hide Settled;
    forall id, step, s' ensures !CalmMove(base, last, id, step, s') {
      if CalmMove(base, last, id, step, s') {
        CalmMoveCounts(base, last, id, step, s');
        RankBounded(base, last, id);
      }
    }
  }
}
