/** Leadership passes on: when the leader's session ends, the next in line takes over. */
module Handover {
  import opened Types
  import opened Decimal
  import opened Sequences
  import opened Election
  import opened Convergence

  lemma OneMoreState(base: string, states: seq<State>, id: Id, step: Step, s': State)
    requires Run(base, states) && Next(base, states[|states| - 1], id, step, s')
    ensures Run(base, states + [s'])
  {
    hide Next;
    var all := states + [s'];
    forall k | 0 <= k < |all| - 1 ensures Follows(base, all[k], all[k + 1]) {
      if k < |states| - 1 {
        assert Follows(base, states[k], states[k + 1]);
      } else {
        assert Next(base, all[k], id, step, all[k + 1]);
      }
    }
  }

  /**
   If at rest the session of any elector ends, the owner of what is then the lowest lock node was waiting,
   and once all is calm again it and it alone leads, and every running elector reports its data.
   */
  lemma SuccessorTakesOver(base: string, prior: seq<State>, gone: Id, states: seq<State>, actors: seq<Id>,
                           steps: seq<Step>, name: string)
    requires Run(base, prior) && Quiescent(prior[|prior| - 1]) && CalmRun(base, states, actors, steps)
    requires Next(base, prior[|prior| - 1], gone, Expire, states[0]) && Lowest(states[0].Children(), name)
    requires var s, owner := prior[|prior| - 1], states[0].Children()[name].owner;
             owner in s.electors ==> Running(s.electors[owner])
    requires forall id, step, s' :: !CalmMove(base, states[|steps|], id, step, s')
    ensures var s, owner := states[|steps|], states[0].Children()[name].owner;
            && owner in s.electors && Running(s.electors[owner])
            && forall id :: id in s.electors && Running(s.electors[id]) ==>
                 && (s.electors[id].standing.isLeader <==> id == owner)
                 && s.electors[id].standing.leaderIdent == states[0].Children()[name].ident
  {
    WaitsStill(base, prior[|prior| - 1], gone, states[0]);
    hide *;
    OneMoreState(base, prior, gone, Expire, states[0]);
    OwnerOfLowestIsElected(base, prior + [states[0]], states, actors, steps, name);
  }

  lemma WaitsStill(base: string, s: State, gone: Id, s': State)
    requires Quiescent(s) && Next(base, s, gone, Expire, s')
    ensures s'.electors.Keys == s.electors.Keys
    ensures forall id :: id in s.electors && Running(s.electors[id]) ==> s'.electors[id].phase == Waiting
  {
  }

  // ---------------------------------------------------------------- such a run exists

  /** An idle elector can create its lock; it is then about to list, and nobody else has moved. */
  lemma CreatesLock(base: string, s: State, id: Id, prefix: string) returns (s': State)
    requires id in s.electors && s.electors[id].phase == Idle && s.next <= INT32_MAX
    ensures Next(base, s, id, CreateLock(prefix), s') && s'.next == s.next + 1
    ensures s'.Children() == s.Children()[LockName(prefix, s.next) := Node(s.electors[id].ident, id)]
    ensures id in s'.electors && s'.electors[id].phase == ToList
    ensures s'.electors[id].lock == Some(LockName(prefix, s.next))
    ensures forall other :: other in s.electors && other != id ==>
              other in s'.electors && s'.electors[other] == Notified(s.electors[other])
  {
    var e, name := s.electors[id], LockName(prefix, s.next);
    hide LockName;
    s' := State(s.history + [s.Children()[name := Node(e.ident, id)]], s.next + 1,
                AllNotified(s.electors)[id := e.(phase := ToList, lock := Some(name), seen := |s.history|)]);
  }

  /** Two electors create their locks, one after the other. */
  lemma TwoLocks(base: string, s0: State, a: Id, b: Id, prefix: string)
    returns (s1: State, s2: State, x: string, y: string)
    requires Init(s0) && a in s0.electors && b in s0.electors && a != b && s0.next < INT32_MAX
    ensures Run(base, [s0, s1, s2]) && x != y
    ensures s2.Children() == map[x := Node(s0.electors[a].ident, a), y := Node(s0.electors[b].ident, b)]
    ensures Lowest(s2.Children(), x)
    ensures a in s2.electors && s2.electors[a].phase == ToList && s2.electors[a].lock == Some(x)
    ensures b in s2.electors && s2.electors[b].phase == ToList && s2.electors[b].lock == Some(y)
  {
    x, y := LockName(prefix, s0.next), LockName(prefix, s0.next + 1);
    assert Run(base, [s0]) && s0.Children() == map[] && s0.electors[a].phase == Idle && s0.electors[b].phase == Idle;
    NotifiedKeeps(s0.electors[b]);
    LowerOfTwo(prefix, s0.next, Node(s0.electors[a].ident, a), Node(s0.electors[b].ident, b));
    hide *;
    s1 := CreatesLock(base, s0, a, prefix);
    s2 := CreatesLock(base, s1, b, prefix);
    NotifiedKeeps(s1.electors[a]);
    OneMoreState(base, [s0], a, CreateLock(prefix), s1);
    OneMoreState(base, [s0] + [s1], b, CreateLock(prefix), s2);
    assert [s0] + [s1] + [s2] == [s0, s1, s2];
  }

  lemma NotifiedKeeps(e: Elector)
    ensures Notified(e).phase == e.phase && Notified(e).lock == e.lock && Notified(e).ident == e.ident
  {
  }

  lemma LowerOfTwo(prefix: string, n: int, node: Node, other: Node)
    requires INT32_MIN <= n < INT32_MAX
    ensures LockName(prefix, n) != LockName(prefix, n + 1)
    ensures Lowest(map[LockName(prefix, n) := node, LockName(prefix, n + 1) := other], LockName(prefix, n))
  {
    SequenceOfLockName(prefix, n);
    SequenceOfLockName(prefix, n + 1);
    hide SequencePart;
    hide LockName;
  }

  /** At rest, an elector's session can end if its lock node is there. */
  lemma SessionEnds(base: string, s: State, id: Id, name: string) returns (s': State)
    requires id in s.electors && s.electors[id].lock == Some(name) && name in s.Children()
    ensures Next(base, s, id, Expire, s') && s'.Children() == s.Children() - {name}
  {
    s' := State(s.history + [s.Children() - {name}], s.next, AllNotified(s.electors));
  }

  /** The elector leads, it alone, and every running one reports its data. */
  ghost predicate LeadsAlone(s: State, leader: Id, ident: string) {
    && leader in s.electors && Running(s.electors[leader])
    && forall id :: id in s.electors && Running(s.electors[id]) ==>
         && (s.electors[id].standing.isLeader <==> id == leader)
         && s.electors[id].standing.leaderIdent == ident
  }

  /** From every beginning, the first of two electors comes to lead, with the other one waiting. */
  lemma FirstLeads(base: string, s0: State, a: Id, b: Id, prefix: string)
    returns (states: seq<State>, x: string, y: string)
    requires Init(s0) && a in s0.electors && b in s0.electors && a != b && s0.next < INT32_MAX
    ensures Run(base, states) && states[0] == s0 && x != y
    ensures var s := states[|states| - 1];
            && Quiescent(s) && LeadsAlone(s, a, s0.electors[a].ident)
            && s.Children() == map[x := Node(s0.electors[a].ident, a), y := Node(s0.electors[b].ident, b)]
            && s.electors[a].lock == Some(x) && b in s.electors && Running(s.electors[b])
  {
    var s1, s2;
    s1, s2, x, y := TwoLocks(base, s0, a, b, prefix);
    assert x in s2.Children() && s2.Children()[x] == Node(s0.electors[a].ident, a);
    hide *;
    states := ComesToRest(base, [s0, s1, s2], x, a, b);
  }

  lemma ComesToRest(base: string, prior: seq<State>, name: string, owner: Id, other: Id) returns (states: seq<State>)
    requires Run(base, prior)
    requires var s := prior[|prior| - 1];
             && Lowest(s.Children(), name) && s.Children()[name].owner == owner
             && owner in s.electors && s.electors[owner].phase == ToList
             && other in s.electors && s.electors[other].phase == ToList && s.electors[other].lock.Some?
    ensures Run(base, states) && prior <= states
    ensures var s := states[|states| - 1];
            && Quiescent(s) && s.Children() == prior[|prior| - 1].Children()
            && LeadsAlone(s, owner, prior[|prior| - 1].Children()[name].ident) && s.electors[owner].lock == Some(name)
            && other in s.electors && Running(s.electors[other])
  {
    var s := prior[|prior| - 1];
    assert OnItsWay(s.history, s.electors[other]) && Latest(s.history) == s.Children() && name in s.Children();
    InvThroughout(base, prior, |prior| - 1);
    var calm, who, what := CalmComesToRest(base, s);
    assert |calm| == |what| + 1 == |who| + 1;
    hide *;
    OwnerLeadsAlone(base, prior, calm, who, what, name);
    OnItsWayThroughout(base, calm, who, what, other, |what|);
    OnItsWayRuns(calm[|what|].history, calm[|what|].electors[other]);
    RunGoesOn(base, prior, calm, who, what);
    states := prior + calm[1..];
    assert states[|states| - 1] == calm[|what|];
  }

  lemma OnItsWayRuns(history: History, e: Elector)
    requires OnItsWay(history, e)
    ensures Running(e)
  {
  }

  lemma OwnerLeadsAlone(base: string, prior: seq<State>, states: seq<State>, actors: seq<Id>, steps: seq<Step>,
                        name: string)
    requires Run(base, prior) && CalmRun(base, states, actors, steps) && states[0] == prior[|prior| - 1]
    requires Lowest(states[0].Children(), name) && states[0].Children()[name].owner in states[0].electors
    requires states[0].electors[states[0].Children()[name].owner].phase == ToList
    requires forall id, step, s' :: !CalmMove(base, states[|steps|], id, step, s')
    ensures var s, node := states[|steps|], states[0].Children()[name];
            && Quiescent(s) && s.Children() == states[0].Children()
            && LeadsAlone(s, node.owner, node.ident) && s.electors[node.owner].lock == Some(name)
  {
    var owner := states[0].Children()[name].owner;
    InvThroughout(base, prior, |prior| - 1);
    hide Inv;
    hide Run;
    hide CalmMove;
    OwnStepsBounded(base, states, actors, steps, owner, |steps|);
    OwnerOfLowestIsElected(base, prior, states, actors, steps, name);
    LeaderIsElected(base, prior, states, actors, steps, name);
  }

  /** And when its session ends, the other one comes to lead. */
  lemma ThenTheOther(base: string, prior: seq<State>, a: Id, x: string, b: Id, y: string, ident: string)
    returns (states: seq<State>)
    requires Run(base, prior) && x != y
    requires var s := prior[|prior| - 1];
             && Quiescent(s) && x in s.Children() && s.Children() - {x} == map[y := Node(ident, b)]
             && a in s.electors && s.electors[a].lock == Some(x) && b in s.electors && Running(s.electors[b])
    ensures Run(base, states) && prior <= states && LeadsAlone(states[|states| - 1], b, ident)
  {
    var s' := SessionEnds(base, prior[|prior| - 1], a, x);
    assert Lowest(s'.Children(), y);
    hide Run;
    hide Lowest;
    hide Next;
    hide Quiescent;
    hide Inv;
    OneMoreState(base, prior, a, Expire, s');
    InvThroughout(base, prior + [s'], |prior|);
    var calm, who, what := CalmComesToRest(base, s');
    hide CalmMove;
    SuccessorTakesOver(base, prior, a, calm, who, what, y);
    RunGoesOn(base, prior + [s'], calm, who, what);
    states := prior + [s'] + calm[1..];
    assert states[|states| - 1] == calm[|what|];
  }

  /** So from every beginning any two electors can lead one after the other, in the order of their locks. */
  lemma OneAfterAnother(base: string, s0: State, a: Id, b: Id, prefix: string)
    returns (states: seq<State>, k: nat)
    requires Init(s0) && a in s0.electors && b in s0.electors && a != b && s0.next < INT32_MAX
    ensures Run(base, states) && states[0] == s0 && k < |states|
    ensures LeadsAlone(states[k], a, s0.electors[a].ident)
    ensures LeadsAlone(states[|states| - 1], b, s0.electors[b].ident)
  {
    var first, x, y := FirstLeads(base, s0, a, b, prefix);
    hide *;
    k := |first| - 1;
    assert first[k].Children() - {x} == map[y := Node(s0.electors[b].ident, b)];
    states := ThenTheOther(base, first, a, x, b, y, s0.electors[b].ident);
  }
}
