/**
 Leader election among any number of electors (the main goroutine of `start` in elector.go), as a
 state machine over the ZooKeeper calls each elector makes. A read may be answered by a server that
 lags behind, but a client never sees the tree move backwards, and sees its own writes. Sequence
 numbers strictly increase and are assumed not to exceed an int32; nobody but electors writes below
 the base path.
 */
module Election {
  import opened Types
  import opened Decimal
  import opened Sequences

  /** What an elector tells its client: who leads, whether it does itself, and the events handed to sendEvent. */
  datatype Standing = Standing(leaderIdent: string, isLeader: bool, firstUpdate: bool, events: seq<bool>)

  const NOTHING_KNOWN: Standing := Standing("", false, true, [])

  /** updateLeaderData within updateFunc: an event is due on the first update and on every change. */
  function Updated(st: Standing, leaderIdent: string, leader: bool): Standing {
    Standing(leaderIdent, leader, false,
             if st.isLeader != leader || st.firstUpdate then st.events + [leader] else st.events)
  }

  /** The fields of an Elector that updates overwrite. */
  class LeaderData {
    var leaderIdent: string
    var isLeader: bool
    var firstLeaderUpdate: bool
    var events: seq<bool>

    constructor ()
      ensures View() == NOTHING_KNOWN
    {
      leaderIdent, isLeader, firstLeaderUpdate, events := "", false, true, [];
    }

    function View(): Standing
      reads this
    {
      Standing(leaderIdent, isLeader, firstLeaderUpdate, events)
    }

    method UpdateLeaderData(leaderIdent: string, leader: bool, forceSend: bool)
      modifies this`leaderIdent, this`isLeader, this`events
      ensures this.leaderIdent == leaderIdent && isLeader == leader
      ensures events == if old(isLeader) == leader && !forceSend then old(events) else old(events) + [leader]
    {
      var prevLeader := isLeader;
      this.leaderIdent := leaderIdent;
      isLeader := leader;
      if prevLeader == leader && !forceSend {
        return;
      }
      events := events + [leader];
    }

    /** The tail of updateFunc, once the leader's data has been fetched. */
    method Update(leaderIdent: string, leader: bool)
      modifies this
      ensures View() == Updated(old(View()), leaderIdent, leader)
    {
      UpdateLeaderData(leaderIdent, leader, firstLeaderUpdate);
      firstLeaderUpdate := false;
    }
  }

  // ---------------------------------------------------------------- states

  type Id = nat

  /** The one-shot watch on the children: armed by a listing, fired by the next change. */
  datatype Watch = Unarmed | Armed | Fired

  datatype Phase =
    | Idle                                            // no lock node yet
    | ToList                                          // about to call ChildrenW
    | Listed(children: seq<string>)                   // holds the listing it returned
    | Chosen(isLeader: bool, leaderNode: string)      // about to fetch the leader's data
    | Fetched(isLeader: bool, leaderIdent: string)    // about to update
    | Waiting                                         // on the watch
    | Stopped

  /** `seen` is how far into the history of the tree the elector's connection has come. */
  datatype Elector = Elector(
    ident: string, phase: Phase, lock: Option<string>, seen: nat, watch: Watch, standing: Standing)

  datatype Node = Node(ident: string, owner: Id)

  type Children = map<string, Node>

  /** The lock nodes below the base path as they were after each change, oldest first. */
  type History = h: seq<Children> | h != [] witness [map[]]

  function Latest(history: History): Children {
    history[|history| - 1]
  }

  /** The past and present lock nodes, the next sequence number, and the electors. */
  datatype State = State(history: History, next: int, electors: map<Id, Elector>) {
    function Children(): Children {
      Latest(history)
    }
  }

  function LockPath(base: string, lock: string): string {
    base + "/" + lock
  }

  function Seq(name: string): int {
    match SequencePart(name) case None => 0 case Some(n) => n
  }

  function Notified(e: Elector): Elector {
    if e.watch == Armed then e.(watch := Fired) else e
  }

  function AllNotified(electors: map<Id, Elector>): map<Id, Elector> {
    map id | id in electors :: Notified(electors[id])
  }

  // ---------------------------------------------------------------- steps

  datatype Step =
    | CreateLock(prefix: string)
    | ListChildren(listing: seq<string>, at: nat)
    | Decide
    | Fetch(at: nat)
    | Update
    | TakeEvent
    | Fail
    | Expire

  /** A step that touches only the elector itself; the tree is read, as it was at `at`, but not changed. */
  ghost predicate LocalStep(base: string, history: History, step: Step, e: Elector, e': Elector) {
    match step
    case ListChildren(listing, at) =>
      && e.phase == ToList && e.seen <= at < |history| && Listing(listing, history[at].Keys)
      && e' == e.(phase := Listed(listing), seen := at, watch := if at == |history| - 1 then Armed else Fired)
    case Decide =>
      && e.phase.Listed? && e.lock.Some?
      && e' == e.(phase := match DetermineLeader(LockPath(base, e.lock.value), e.phase.children)
                           case None => Stopped
                           case Some(v) => Chosen(v.isLeader, v.leaderNode))
    case Fetch(at) =>
      && e.phase.Chosen? && e.seen <= at < |history|
      && e' == e.(seen := at,
                  phase := if e.phase.leaderNode in history[at]
                           then Fetched(e.phase.isLeader, history[at][e.phase.leaderNode].ident)
                           else Stopped)
    case Update =>
      && e.phase.Fetched?
      && e' == e.(phase := Waiting, standing := Updated(e.standing, e.phase.leaderIdent, e.phase.isLeader))
    case TakeEvent => e.phase == Waiting && e.watch == Fired && e' == e.(phase := ToList, watch := Unarmed)
    case Fail => e' == e.(phase := Stopped)
    case _ => false
  }

  /** A new ephemeral sequential node; every armed watch fires. */
  ghost predicate CreateStep(s: State, id: Id, prefix: string, s': State)
    requires id in s.electors
  {
    var e, name := s.electors[id], LockName(prefix, s.next);
    && e.phase == Idle && s.next <= INT32_MAX
    && s' == State(s.history + [s.Children()[name := Node(e.ident, id)]], s.next + 1,
                   AllNotified(s.electors)[id := e.(phase := ToList, lock := Some(name), seen := |s.history|)])
  }

  /** The elector's session ends and its lock node goes, whatever the elector is doing. */
  ghost predicate ExpireStep(s: State, id: Id, s': State)
    requires id in s.electors
  {
    var e := s.electors[id];
    && e.lock.Some? && e.lock.value in s.Children()
    && s' == State(s.history + [s.Children() - {e.lock.value}], s.next, AllNotified(s.electors))
  }

  ghost predicate Next(base: string, s: State, id: Id, step: Step, s': State) {
    && id in s.electors
    && match step
       case CreateLock(prefix) => CreateStep(s, id, prefix, s')
       case Expire => ExpireStep(s, id, s')
       case _ =>
         && id in s'.electors
         && LocalStep(base, s.history, step, s.electors[id], s'.electors[id])
         && s' == s.(electors := s.electors[id := s'.electors[id]])
  }

  ghost predicate Init(s: State) {
    && s.history == [map[]] && INT32_MIN <= s.next
    && forall id :: id in s.electors ==>
         s.electors[id] == Elector(s.electors[id].ident, Idle, None, 0, Unarmed, NOTHING_KNOWN)
  }

  ghost predicate Follows(base: string, s: State, s': State) {
    exists id, step :: Next(base, s, id, step, s')
  }

  /** A run: each state follows from the one before by a step of some elector. */
  ghost predicate Run(base: string, states: seq<State>) {
    && states != [] && Init(states[0])
    && forall k :: 0 <= k < |states| - 1 ==> Follows(base, states[k], states[k + 1])
  }

  // ---------------------------------------------------------------- invariants

  ghost predicate Lowest(children: Children, name: string) {
    name in children && forall other :: other in children ==> Seq(name) <= Seq(other)
  }

  /** Lock names parse, are numbered below the counter and distinctly, and belong to whom they say. */
  ghost predicate Registered(base: string, s: State) {
    && INT32_MIN <= s.next
    && (forall id :: id in s.electors && s.electors[id].lock.Some? ==>
          Numbered(base, s.electors[id].lock.value, s.next))
    && (forall i, j :: i in s.electors && j in s.electors && i != j
                       && s.electors[i].lock.Some? && s.electors[j].lock.Some? ==>
          Seq(s.electors[i].lock.value) != Seq(s.electors[j].lock.value))
    && (forall k :: 0 <= k < |s.history| ==> Owned(s.history[k], s.electors))
  }

  /** Each lock node is the lock of the elector it names as its owner. */
  ghost predicate Owned(children: Children, electors: map<Id, Elector>) {
    forall name :: name in children ==>
      children[name].owner in electors && electors[children[name].owner].lock == Some(name)
  }

  ghost predicate Numbered(base: string, name: string, next: int) {
    SequencePart(name).Some? && Seq(name) < next && SequencePart(LockPath(base, name)) == SequencePart(name)
  }

  /** From what the elector has seen on, no lock node is numbered below its own. */
  ghost predicate Unbeaten(history: History, e: Elector)
    requires e.lock.Some?
  {
    forall l, c :: e.seen <= l < |history| && c in history[l] ==> Seq(e.lock.value) <= Seq(c)
  }

  /** From what the elector has seen on, whatever appears is numbered above its own lock. */
  ghost predicate LaterAbove(history: History, e: Elector)
    requires e.lock.Some?
  {
    forall k, l, c :: e.seen <= k <= l < |history| && c in history[l] ==>
      c in history[k] || Seq(e.lock.value) < Seq(c)
  }

  /** A verdict not yet acted on: a claim still stands, and a leader with a live lock is not deposed. */
  ghost predicate VerdictSound(history: History, e: Elector, isLeader: bool)
    requires e.lock.Some?
  {
    && (isLeader ==> Unbeaten(history, e))
    && (!isLeader && e.standing.isLeader ==> forall l :: e.seen <= l < |history| ==> e.lock.value !in history[l])
  }

  ghost predicate Safe(history: History, e: Elector) {
    && e.seen < |history|
    && (e.lock.None? ==> !e.standing.isLeader && (e.phase == Idle || e.phase == Stopped))
    && (e.lock.Some? ==>
          && e.phase != Idle && LaterAbove(history, e)
          && (e.standing.isLeader ==> Unbeaten(history, e))
          && match e.phase
             case Listed(listing) => AllParse(listing) && Listing(listing, history[e.seen].Keys)
             case Chosen(isLeader, _) => VerdictSound(history, e, isLeader)
             case Fetched(isLeader, _) => VerdictSound(history, e, isLeader)
             case _ => true)
  }

  /** The verdict is right for these children: it names the lowest one's data and claims only the own lock. */
  ghost predicate UpToDate(children: Children, lock: string, isLeader: bool, leaderIdent: string) {
    && (exists name :: Lowest(children, name))
    && forall name :: Lowest(children, name) ==>
         leaderIdent == children[name].ident && (isLeader <==> Seq(lock) == Seq(name))
  }

  /** While the watch is armed, the elector has seen everything, and nothing has changed since its listing. */
  ghost predicate Watched(history: History, e: Elector) {
    && (e.phase == ToList || e.phase == Idle ==> e.watch == Unarmed)
    && (e.phase.Listed? || e.phase.Chosen? || e.phase.Fetched? || e.phase == Waiting ==> e.watch != Unarmed)
    && (e.watch == Armed ==> e.seen == |history| - 1)
    && (e.watch == Armed && e.lock.Some? ==>
          match e.phase
          case Chosen(isLeader, name) =>
            Lowest(Latest(history), name) && (isLeader <==> Seq(e.lock.value) == Seq(name))
          case Fetched(isLeader, ident) => UpToDate(Latest(history), e.lock.value, isLeader, ident)
          case Waiting => UpToDate(Latest(history), e.lock.value, e.standing.isLeader, e.standing.leaderIdent)
          case _ => true)
  }

  ghost predicate Alternates(events: seq<bool>) {
    forall i :: 0 <= i < |events| - 1 ==> events[i] != events[i + 1]
  }

  /** Nothing is announced before the first update; from then on the last event is the current standing. */
  ghost predicate Announced(st: Standing) {
    && (st.firstUpdate ==> st.events == [] && !st.isLeader)
    && (!st.firstUpdate ==> st.events != [] && st.events[|st.events| - 1] == st.isLeader)
    && Alternates(st.events)
  }

  ghost predicate Sound(history: History, e: Elector) {
    && Safe(history, e) && Watched(history, e) && Announced(e.standing)
    && (e.phase == Waiting ==> !e.standing.firstUpdate)
  }

  ghost predicate Inv(base: string, s: State) {
    Registered(base, s) && forall id :: id in s.electors ==> Sound(s.history, s.electors[id])
  }

  // ---------------------------------------------------------------- preservation

  /** Distinct sequence numbers among the children. */
  ghost predicate Distinct(children: Children) {
    && (forall c :: c in children ==> SequencePart(c).Some?)
    && forall c, d :: c in children && d in children && c != d ==> Seq(c) != Seq(d)
  }

  lemma RegisteredIsDistinct(base: string, s: State)
    requires Registered(base, s)
    ensures forall k :: 0 <= k < |s.history| ==> Distinct(s.history[k])
  {
    forall k | 0 <= k < |s.history| ensures Distinct(s.history[k]) {
      var children := s.history[k];
      assert Owned(children, s.electors);
      forall c | c in children ensures SequencePart(c).Some? {
        assert s.electors[children[c].owner].lock == Some(c);
      }
      forall c, d | c in children && d in children && c != d ensures Seq(c) != Seq(d) {
        assert s.electors[children[c].owner].lock == Some(c);
        assert s.electors[children[d].owner].lock == Some(d);
      }
    }
  }

  lemma LowestUnique(children: Children, a: string, b: string)
    requires Distinct(children) && Lowest(children, a) && Lowest(children, b)
    ensures a == b
  {
  }

  lemma UpdatedAnnounces(st: Standing, leaderIdent: string, leader: bool)
    requires Announced(st)
    ensures Announced(Updated(st, leaderIdent, leader))
  {
    var events, events' := st.events, Updated(st, leaderIdent, leader).events;
    forall i | 0 <= i < |events'| - 1 ensures events'[i] != events'[i + 1] {
      if i + 1 < |events| {
        assert events'[i] == events[i] && events'[i + 1] == events[i + 1];
      }
    }
  }

  lemma ListSound(history: History, listing: seq<string>, at: nat, e: Elector, e': Elector)
    requires Sound(history, e) && e.phase == ToList && e.lock.Some?
    requires e.seen <= at < |history| && Distinct(history[at]) && Listing(listing, history[at].Keys)
    requires e' == e.(phase := Listed(listing), seen := at, watch := if at == |history| - 1 then Armed else Fired)
    ensures Sound(history, e')
  {
  }

  /** A claim made from the listing holds from then on: what is missing from it comes above. */
  lemma DecideSafe(history: History, e: Elector, v: Verdict)
    requires Safe(history, e) && e.lock.Some? && e.phase.Listed? && SequencePart(e.lock.value).Some?
    requires v.leaderNode in e.phase.children && (v.isLeader <==> Seq(e.lock.value) == Seq(v.leaderNode))
    requires forall c :: c in e.phase.children ==> Seq(v.leaderNode) <= Seq(c)
    ensures VerdictSound(history, e, v.isLeader)
  {
    hide Seq;
    if v.isLeader {
      forall l, c | e.seen <= l < |history| && c in history[l] ensures Seq(e.lock.value) <= Seq(c) {
        assert c in history[e.seen] || Seq(e.lock.value) < Seq(c);
      }
    } else if e.standing.isLeader {
      forall l | e.seen <= l < |history| ensures e.lock.value !in history[l] {
        assert v.leaderNode in history[e.seen];
      }
    }
  }

  /** Whatever it decides from its listing, an elector's verdict is sound. */
  lemma DecideSound(base: string, history: History, e: Elector, e': Elector, next: int)
    requires Sound(history, e) && e.lock.Some? && Numbered(base, e.lock.value, next)
    requires LocalStep(base, history, Decide, e, e')
    ensures Sound(history, e')
  {
    hide DetermineLeader;
    hide Seq;
    hide AllParse;
    hide Announced;
    hide UpToDate;
    var path, listing := LockPath(base, e.lock.value), e.phase.children;
    if DetermineLeader(path, listing).Some? {
      var v := DetermineLeader(path, listing).value;
      LowestOfListing(base, e.lock.value, next, listing);
      DecideSafe(history, e, v);
      assert e.watch == Armed ==> Lowest(Latest(history), v.leaderNode);
    }
  }

  lemma LowestOfListing(base: string, lock: string, next: int, listing: seq<string>)
    requires Numbered(base, lock, next) && DetermineLeader(LockPath(base, lock), listing).Some?
    ensures var v := DetermineLeader(LockPath(base, lock), listing).value;
            && v.leaderNode in listing
            && (forall c :: c in listing ==> Seq(v.leaderNode) <= Seq(c))
            && (v.isLeader <==> Seq(lock) == Seq(v.leaderNode))
  {
    hide DetermineLeader;
    LeaderIsLowest(LockPath(base, lock), listing);
  }

  lemma FetchSound(base: string, history: History, at: nat, e: Elector, e': Elector)
    requires Sound(history, e) && e.lock.Some? && Distinct(Latest(history))
    requires LocalStep(base, history, Fetch(at), e, e')
    ensures Sound(history, e')
  {
    hide Seq;
    hide Announced;
    hide AllParse;
    hide Listing;
    hide Distinct;
    hide Lowest;
    FetchSafe(base, history, at, e, e');
    hide Safe;
    SafeSeen(history, e);
    var node := e.phase.leaderNode;
    if e.watch == Armed {
      forall name | Lowest(Latest(history), name) ensures name == node {
        LowestUnique(Latest(history), name, node);
      }
    }
  }

  lemma SafeSeen(history: History, e: Elector)
    requires Safe(history, e)
    ensures e.seen < |history|
  {
  }

  /** Having seen more of the history only weakens what has to hold from there on. */
  lemma FetchSafe(base: string, history: History, at: nat, e: Elector, e': Elector)
    requires Safe(history, e) && e.lock.Some? && LocalStep(base, history, Fetch(at), e, e')
    ensures Safe(history, e')
  {
    hide Seq;
    hide AllParse;
    hide Listing;
    assert LaterAbove(history, e');
    assert Unbeaten(history, e) ==> Unbeaten(history, e');
  }

  lemma UpdateSound(base: string, history: History, e: Elector, e': Elector)
    requires Sound(history, e) && e.lock.Some?
    requires LocalStep(base, history, Update, e, e')
    ensures Sound(history, e')
  {
    UpdatedAnnounces(e.standing, e.phase.leaderIdent, e.phase.isLeader);
  }

  lemma LocalSound(base: string, s: State, id: Id, step: Step, e': Elector)
    requires Inv(base, s) && id in s.electors && LocalStep(base, s.history, step, s.electors[id], e')
    ensures Sound(s.history, e') && e'.lock == s.electors[id].lock && e'.ident == s.electors[id].ident
  {
    var e := s.electors[id];
    assert Sound(s.history, e);
    RegisteredIsDistinct(base, s);
    match step
    case ListChildren(listing, at) => ListSound(s.history, listing, at, e, e');
    case Decide => DecideSound(base, s.history, e, e', s.next);
    case Fetch(at) => FetchSound(base, s.history, at, e, e');
    case Update => UpdateSound(base, s.history, e, e');
    case TakeEvent =>
    case Fail =>
  }

  /** The next version of the children adds at most nodes numbered above this elector's lock. */
  ghost predicate AddsAbove(history: History, children: Children, e: Elector)
    requires e.lock.Some?
  {
    forall c :: c in children ==> c in Latest(history) || Seq(e.lock.value) < Seq(c)
  }

  /** A change, a later lock node or one less, overturns nobody's claim, and every listing accounts for it. */
  lemma SoundAfterChange(history: History, children: Children, e: Elector)
    requires Sound(history, e)
    requires e.lock.Some? ==>
               && AddsAbove(history, children, e)
               && (e.lock.value in children ==> e.lock.value in Latest(history))
    ensures Sound(history + [children], Notified(e))
  {
    hide Seq;
    hide Announced;
    hide AllParse;
    var history' := history + [children];
    var n := |history|;
    assert history'[..n] == history;
    if e.lock.Some? {
      var lock := e.lock.value;
      forall k, l, c | e.seen <= k <= l < |history'| && c in history'[l]
        ensures c in history'[k] || Seq(lock) < Seq(c)
      {
        if l == n && k < n && c in Latest(history) {
          assert c in history[n - 1];
        }
      }
      assert LaterAbove(history', e);
      if Unbeaten(history, e) {
        forall l, c | e.seen <= l < |history'| && c in history'[l] ensures Seq(lock) <= Seq(c) {
          if l == n && c in Latest(history) {
            assert c in history[n - 1];
          }
        }
        assert Unbeaten(history', e);
      }
    }
  }

  lemma SoundIdle(history: History, e: Elector)
    requires Sound(history, e) && e.phase == Idle
    ensures e.lock.None?
  {
  }

  lemma SoundWhenCreated(history: History, children: Children, e: Elector, name: string)
    requires Sound(history, e) && e.phase == Idle
    ensures Sound(history + [children], e.(phase := ToList, lock := Some(name), seen := |history|))
  {
  }

  lemma NumberedLater(base: string, name: string, next: int)
    requires Numbered(base, name, next)
    ensures Numbered(base, name, next + 1) && Seq(name) < next
  {
  }

  lemma NewNumber(base: string, prefix: string, next: int)
    requires INT32_MIN <= next <= INT32_MAX
    ensures Seq(LockName(prefix, next)) == next && Numbered(base, LockName(prefix, next), next + 1)
  {
    PathAndNameAgree(base, prefix, next);
  }

  lemma CreateKeepsRegistered(base: string, s: State, id: Id, prefix: string, s': State)
    requires Registered(base, s) && id in s.electors && CreateStep(s, id, prefix, s') && s.electors[id].lock.None?
    ensures Registered(base, s')
  {
    hide Seq;
    hide Numbered;
    hide LockName;
    hide AllNotified;
    hide Owned;
    NewNumber(base, prefix, s.next);
    NotifiedKeepsLocks(s.electors);
    var name := LockName(prefix, s.next);
    forall other | other in s.electors && s.electors[other].lock.Some?
      ensures Numbered(base, s.electors[other].lock.value, s'.next) && Seq(s.electors[other].lock.value) < s.next
    {
      NumberedLater(base, s.electors[other].lock.value, s.next);
    }
    assert forall other :: other in s'.electors && other != id ==> s'.electors[other].lock == s.electors[other].lock;
    assert s'.electors[id].lock == Some(name);
    forall k | 0 <= k < |s'.history| ensures Owned(s'.history[k], s'.electors) {
      OwnedStill(s.history[if k < |s.history| then k else |s.history| - 1], s.electors, s'.electors, id, name);
    }
  }

  /** Nobody's ownership changes when an elector without a lock acquires one. */
  lemma OwnedStill(children: Children, electors: map<Id, Elector>, electors': map<Id, Elector>, id: Id, name: string)
    requires Owned(children, electors) && id in electors && electors[id].lock.None?
    requires electors'.Keys == electors.Keys && electors'[id].lock == Some(name)
    requires forall other :: other in electors && other != id ==> electors'[other].lock == electors[other].lock
    ensures Owned(children, electors')
    ensures forall ident :: Owned(children[name := Node(ident, id)], electors')
  {
  }

  lemma NotifiedKeepsLocks(electors: map<Id, Elector>)
    ensures AllNotified(electors).Keys == electors.Keys
    ensures forall id :: id in electors ==> AllNotified(electors)[id].lock == electors[id].lock
  {
  }

  lemma CreateKeepsInv(base: string, s: State, id: Id, prefix: string, s': State)
    requires Inv(base, s) && id in s.electors && CreateStep(s, id, prefix, s')
    ensures Inv(base, s')
  {
    SoundIdle(s.history, s.electors[id]);
    NewNumber(base, prefix, s.next);
    hide Sound;
    hide Seq;
    hide Numbered;
    hide LockName;
    hide Notified;
    var name, children := LockName(prefix, s.next), Latest(s'.history);
    CreateKeepsRegistered(base, s, id, prefix, s');
    forall other | other in s'.electors ensures Sound(s'.history, s'.electors[other]) {
      if other == id {
        SoundWhenCreated(s.history, children, s.electors[id], name);
      } else {
        if s.electors[other].lock.Some? {
          NumberedLater(base, s.electors[other].lock.value, s.next);
        }
        SoundAfterChange(s.history, children, s.electors[other]);
      }
    }
  }

  lemma ExpireKeepsRegistered(base: string, s: State, id: Id, s': State)
    requires Registered(base, s) && id in s.electors && ExpireStep(s, id, s')
    ensures Registered(base, s')
  {
    hide Seq;
    hide Numbered;
    assert forall other :: other in s.electors ==> s'.electors[other].lock == s.electors[other].lock;
    forall k | 0 <= k < |s'.history| ensures Owned(s'.history[k], s'.electors) {
      assert Owned(s.history[if k < |s.history| then k else |s.history| - 1], s.electors);
    }
  }

  lemma ExpireKeepsInv(base: string, s: State, id: Id, s': State)
    requires Inv(base, s) && id in s.electors && ExpireStep(s, id, s')
    ensures Inv(base, s')
  {
    ExpireKeepsRegistered(base, s, id, s');
    hide Sound;
    hide Registered;
    hide Notified;
    hide Seq;
    forall other | other in s'.electors ensures Sound(s'.history, s'.electors[other]) {
      SoundAfterChange(s.history, Latest(s'.history), s.electors[other]);
    }
  }

  lemma LocalKeepsRegistered(base: string, s: State, id: Id, e': Elector)
    requires Registered(base, s) && id in s.electors && e'.lock == s.electors[id].lock
    ensures Registered(base, s.(electors := s.electors[id := e']))
  {
    hide Seq;
    hide Numbered;
    var s' := s.(electors := s.electors[id := e']);
    assert forall other :: other in s.electors ==> s'.electors[other].lock == s.electors[other].lock;
    forall k | 0 <= k < |s'.history| ensures Owned(s'.history[k], s'.electors) {
      assert Owned(s.history[k], s.electors);
    }
  }

  lemma LocalKeepsInv(base: string, s: State, id: Id, step: Step, s': State)
    requires Inv(base, s) && Next(base, s, id, step, s') && !step.CreateLock? && !step.Expire?
    ensures Inv(base, s')
  {
    hide Sound;
    hide Registered;
    hide LocalStep;
    LocalSound(base, s, id, step, s'.electors[id]);
    LocalKeepsRegistered(base, s, id, s'.electors[id]);
  }

  lemma NextKeepsInv(base: string, s: State, id: Id, step: Step, s': State)
    requires Inv(base, s) && Next(base, s, id, step, s')
    ensures Inv(base, s')
  {
    hide Inv;
    hide LocalStep;
    match step
    case CreateLock(prefix) => CreateKeepsInv(base, s, id, prefix, s');
    case Expire => ExpireKeepsInv(base, s, id, s');
    case _ => LocalKeepsInv(base, s, id, step, s');
  }

  lemma {:induction false} InvThroughout(base: string, states: seq<State>, n: nat)
    requires Run(base, states) && n < |states|
    ensures Inv(base, states[n])
  {
    if n == 0 {
      assert Inv(base, states[0]);
    } else {
      InvThroughout(base, states, n - 1);
      var id, step :| Next(base, states[n - 1], id, step, states[n - 1 + 1]);
      NextKeepsInv(base, states[n - 1], id, step, states[n]);
    }
  }

  // ---------------------------------------------------------------- what every run guarantees

  /** An elector that considers itself leader and whose lock node still exists owns the lowest lock node. */
  lemma LeaderOwnsLowest(base: string, states: seq<State>, n: nat, id: Id)
    requires Run(base, states) && n < |states| && id in states[n].electors
    requires states[n].electors[id].standing.isLeader
    ensures states[n].electors[id].lock.Some?
    ensures states[n].electors[id].lock.value in states[n].Children() ==>
              Lowest(states[n].Children(), states[n].electors[id].lock.value)
  {
    InvThroughout(base, states, n);
    assert Sound(states[n].history, states[n].electors[id]);
  }

  /** So no two electors whose lock nodes exist both consider themselves leader. */
  lemma AtMostOneLeader(base: string, states: seq<State>, n: nat, i: Id, j: Id)
    requires Run(base, states) && n < |states| && i in states[n].electors && j in states[n].electors
    requires states[n].electors[i].standing.isLeader && states[n].electors[j].standing.isLeader
    requires states[n].electors[i].lock.Some? && states[n].electors[i].lock.value in states[n].Children()
    requires states[n].electors[j].lock.Some? && states[n].electors[j].lock.value in states[n].Children()
    ensures i == j
  {
    LeaderOwnsLowest(base, states, n, i);
    LeaderOwnsLowest(base, states, n, j);
    InvThroughout(base, states, n);
    RegisteredIsDistinct(base, states[n]);
    LowestUnique(states[n].Children(), states[n].electors[i].lock.value, states[n].electors[j].lock.value);
  }

  lemma LeaderStep(base: string, states: seq<State>, n: nat, id: Id)
    requires Run(base, states) && n + 1 < |states|
    requires id in states[n].electors && states[n].electors[id].standing.isLeader
    requires id in states[n + 1].electors && states[n + 1].electors[id].lock.Some?
    requires states[n + 1].electors[id].lock.value in states[n + 1].Children()
    ensures states[n + 1].electors[id].standing.isLeader
  {
    InvThroughout(base, states, n);
    var actor, step :| Next(base, states[n], actor, step, states[n + 1]);
    assert Sound(states[n].history, states[n].electors[id]);
  }

  /** A lock is never exchanged for another, and its node does not come back once it is gone. */
  lemma LockStep(base: string, s: State, actor: Id, step: Step, s': State, id: Id)
    requires Inv(base, s) && Next(base, s, actor, step, s') && id in s.electors && s.electors[id].lock.Some?
    ensures id in s'.electors && s'.electors[id].lock == s.electors[id].lock
    ensures s.electors[id].lock.value in s'.Children() ==> s.electors[id].lock.value in s.Children()
  {
    hide LocalStep;
    NotifiedKeepsLocks(s.electors);
    match step
    case CreateLock(prefix) =>
      SoundIdle(s.history, s.electors[actor]);
      NewNumber(base, prefix, s.next);
      hide Sound;
      hide LockName;
      assert Numbered(base, s.electors[id].lock.value, s.next);
    case Expire =>
    case _ =>
      LocalSound(base, s, actor, step, s'.electors[actor]);
  }

  lemma {:induction false} LockKept(base: string, states: seq<State>, n: nat, m: nat, id: Id)
    requires Run(base, states) && n <= m < |states| && id in states[n].electors && states[n].electors[id].lock.Some?
    ensures id in states[m].electors && states[m].electors[id].lock == states[n].electors[id].lock
    ensures states[n].electors[id].lock.value in states[m].Children() ==>
              forall k :: n <= k <= m ==> states[n].electors[id].lock.value in states[k].Children()
    decreases m
  {
    hide Next;
    hide Inv;
    hide Init;
    hide Latest;
    if n < m {
      LockKept(base, states, n, m - 1, id);
      InvThroughout(base, states, m - 1);
      assert Follows(base, states[m - 1], states[m - 1 + 1]);
      var actor, step :| Next(base, states[m - 1], actor, step, states[m]);
      LockStep(base, states[m - 1], actor, step, states[m], id);
    }
  }

  /** Leadership is stable: a leader is one in every later state in which its lock node exists. */
  lemma {:induction false} LeaderStays(base: string, states: seq<State>, n: nat, m: nat, id: Id)
    requires Run(base, states) && n <= m < |states|
    requires id in states[n].electors && states[n].electors[id].standing.isLeader
    ensures states[n].electors[id].lock.Some? && id in states[m].electors
    ensures states[m].electors[id].lock == states[n].electors[id].lock
    ensures states[n].electors[id].lock.value in states[m].Children() ==> states[m].electors[id].standing.isLeader
    decreases m
  {
    hide *;
    LeaderOwnsLowest(base, states, n, id);
    LockKept(base, states, n, m, id);
    if n < m && states[n].electors[id].lock.value in states[m].Children() {
      LeaderStays(base, states, n, m - 1, id);
      LeaderStep(base, states, m - 1, id);
    }
  }

  /**
   When an elector stops: on a failure; when it has to decide over no lock nodes at all; or when the node
   it has chosen as the leader's is gone in the tree it reads. And never otherwise.
   */
  lemma StopsIff(base: string, s: State, id: Id, step: Step, s': State)
    requires Inv(base, s) && Next(base, s, id, step, s') && s.electors[id].phase != Stopped
    ensures id in s'.electors
    ensures var e := s.electors[id];
            s'.electors[id].phase == Stopped <==>
            || step == Fail
            || (step == Decide && e.phase.Listed? && e.phase.children == [])
            || (step.Fetch? && e.phase.Chosen? && step.at < |s.history| && e.phase.leaderNode !in s.history[step.at])
  {
    var e := s.electors[id];
    assert Sound(s.history, e);
    if step == Decide {
      assert Numbered(base, e.lock.value, s.next);
      DeterminedIff(LockPath(base, e.lock.value), e.phase.children);
    }
    hide Inv;
    hide Numbered;
    hide DetermineLeader;
    hide Watched;
    hide Announced;
  }

  /** An elector that has joined the election and not stopped. */
  predicate Running(e: Elector) {
    e.lock.Some? && e.phase != Stopped
  }

  /** No watch event is waiting to be taken and no update is under way. */
  ghost predicate Quiescent(s: State) {
    forall id :: id in s.electors && Running(s.electors[id]) ==>
      s.electors[id].phase == Waiting && s.electors[id].watch != Fired
  }

  /**
   Agreement: in a quiescent state every running elector reports the data of the lowest lock node,
   and the one that considers itself leader is exactly the one that owns it. No change was missed.
   */
  lemma QuiescentAgreement(base: string, states: seq<State>, n: nat, id: Id)
    requires Run(base, states) && n < |states| && Quiescent(states[n])
    requires id in states[n].electors && Running(states[n].electors[id])
    ensures exists name :: Lowest(states[n].Children(), name)
    ensures forall name :: Lowest(states[n].Children(), name) ==>
              && states[n].electors[id].standing.leaderIdent == states[n].Children()[name].ident
              && (states[n].electors[id].standing.isLeader <==> states[n].electors[id].lock == Some(name))
  {
    InvThroughout(base, states, n);
    var s := states[n];
    SoundWaiting(s.history, s.electors[id]);
    hide Sound;
    hide Registered;
    hide Seq;
    forall name | Lowest(s.Children(), name)
      ensures s.electors[id].standing.isLeader <==> s.electors[id].lock == Some(name)
    {
      SameNumberSameLock(base, s, name, id);
    }
  }

  lemma SoundWaiting(history: History, e: Elector)
    requires Sound(history, e) && e.phase == Waiting && e.watch != Fired && e.lock.Some?
    ensures UpToDate(Latest(history), e.lock.value, e.standing.isLeader, e.standing.leaderIdent)
  {
  }

  lemma SameNumberSameLock(base: string, s: State, name: string, id: Id)
    requires Registered(base, s) && name in s.Children() && id in s.electors && s.electors[id].lock.Some?
    ensures Seq(s.electors[id].lock.value) == Seq(name) <==> s.electors[id].lock == Some(name)
  {
    assert Owned(s.Children(), s.electors);
    assert s.electors[s.Children()[name].owner].lock == Some(name);
  }

  /** In a quiescent state with the lowest lock node's owner running, that owner is the one leader. */
  lemma QuiescentLeader(base: string, states: seq<State>, n: nat, name: string)
    requires Run(base, states) && n < |states| && Quiescent(states[n]) && Lowest(states[n].Children(), name)
    requires states[n].Children()[name].owner in states[n].electors
    requires Running(states[n].electors[states[n].Children()[name].owner])
    ensures var s := states[n];
            forall id :: id in s.electors && Running(s.electors[id]) ==>
              (s.electors[id].standing.isLeader <==> id == s.Children()[name].owner)
  {
    var s := states[n];
    InvThroughout(base, states, n);
    hide Inv;
    forall id | id in s.electors && Running(s.electors[id])
      ensures s.electors[id].standing.isLeader <==> id == s.Children()[name].owner
    {
      QuiescentAgreement(base, states, n, id);
      OwnerOf(base, s, name, id);
    }
  }

  lemma OwnerOf(base: string, s: State, name: string, id: Id)
    requires Inv(base, s) && name in s.Children() && id in s.electors
    ensures s.electors[id].lock == Some(name) <==> id == s.Children()[name].owner
  {
    assert Owned(s.Children(), s.electors);
    assert s.electors[s.Children()[name].owner].lock == Some(name);
  }

  /**
   The event stream: an elector that has completed an update has handed over at least one event,
   its events alternate, and the last one is what it currently considers itself to be.
   */
  lemma EventStream(base: string, states: seq<State>, n: nat, id: Id)
    requires Run(base, states) && n < |states| && id in states[n].electors
    ensures var st := states[n].electors[id].standing;
            && Alternates(st.events)
            && (st.events == [] <==> st.firstUpdate)
            && (st.events != [] ==> st.events[|st.events| - 1] == st.isLeader)
            && (states[n].electors[id].phase == Waiting ==> st.events != [])
  {
    InvThroughout(base, states, n);
    assert Sound(states[n].history, states[n].electors[id]);
  }
}
