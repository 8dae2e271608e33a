/**
 Put as the sequence of ZooKeeper calls it makes, interleaved with the calls of any number of
 other clients. Each call is atomic; anything may happen between two of them.
 */
module Interleaving {
  import opened Types
  import opened Paths
  import opened Idents
  import opened ZkTree
  import opened StorePaths
  import opened StoreSpec

  /** The call a running Put makes next; `i` counts the segments of the path setFully has passed. */
  datatype Pc =
    | AtExists
    | AtSet
    | AtCheck(i: nat)
    | AtCreate(i: nat)
    | AtStat
    | Done(result: Result<int>)

  datatype Client = Client(target: Path, hasVariant: bool, data: Bytes, version: Version, pc: Pc) {
    function ActualVersion(): int {
      match version case Unset => -1 case At(n) => n
    }

    predicate Filling() {
      pc.AtCheck? || pc.AtCreate? || pc.AtStat?
    }
  }

  function Started(target: Path, ident: Ident, data: Bytes): Client {
    Client(target, ident.variant != "", data, ident.version, if ident.CreatingNew() then AtExists else AtSet)
  }

  /** After segment `i` of setFully's loop comes the next one, or the final stat. */
  function After(c: Client, i: nat): Pc {
    if i >= |c.target| then AtStat else AtCheck(i + 1)
  }

  /** The next ZooKeeper call of a Put, and where it leaves the client and the tree. */
  function Advance(c: Client, t: Tree): (Client, Tree) {
    match c.pc
    case AtExists =>
      (c.(pc := if c.target in t then Done(Err(VersionConflict)) else AtCheck(0)), t)
    case AtSet =>
      var e := SetNode(t, c.target, c.data, c.ActualVersion());
      (c.(pc := match e.failure
                case Some(NoNode) => AtCheck(0)
                case Some(BadVersion) => Done(Err(VersionConflict))
                case Some(other) => Done(Err(Zk(other)))
                case None => Done(Ok(e.tree[c.target].version))), e.tree)
    case AtCheck(i) =>
      (c.(pc := if i <= |c.target| && c.target[..i] in t then After(c, i)
                else if i >= |c.target| && c.ActualVersion() >= 0 then Done(Err(VersionConflict))
                else AtCreate(i)), t)
    case AtCreate(i) =>
      var path := if i <= |c.target| then c.target[..i] else c.target;
      var e := CreateNode(t, path, DataAt(c.target, c.hasVariant, c.data, i));
      (c.(pc := if e.failure.None? || e.failure == Some(NodeExists) then After(c, i)
                else Done(Err(Zk(e.failure.value)))), e.tree)
    case AtStat =>
      (c.(pc := Done(if c.target in t then Ok(t[c.target].version) else Err(NotCreated))), t)
    case Done(_) => (c, t)
  }

  /** How many calls a Put can still make. */
  function Rank(c: Client): nat {
    match c.pc
    case AtExists => 2 * |c.target| + 6
    case AtSet => 2 * |c.target| + 6
    case AtCheck(i) => if i <= |c.target| then 2 * (|c.target| - i) + 4 else 4
    case AtCreate(i) => if i <= |c.target| then 2 * (|c.target| - i) + 3 else 3
    case AtStat => 1
    case Done(_) => 0
  }

  /** Whatever the others do in between, a Put makes finitely many calls. */
  lemma AdvanceDecreasesRank(c: Client, t: Tree)
    requires !c.pc.Done?
    ensures Rank(Advance(c, t).0) < Rank(c)
  {
  }

  // ---------------------------------------------------------------- alone

  function RunAlone(c: Client, t: Tree): Written
    decreases Rank(c)
  {
    if c.pc.Done? then Written(t, c.pc.result)
    else
      AdvanceDecreasesRank(c, t);
      RunAlone(Advance(c, t).0, Advance(c, t).1)
  }

  lemma {:induction false} FillAlone(c: Client, t: Tree, i: nat)
    requires WellFormed(t) && Proper(c.target) && c.target != [] && i <= |c.target|
    requires c.pc == AtCheck(i)
    ensures RunAlone(c, Filled(t, c.target, c.hasVariant, c.data, if i == 0 then 0 else i - 1))
         == FillOutcome(t, c.target, c.hasVariant, c.data, c.ActualVersion())
    decreases |c.target| - i
  {
    hide Filled;
    hide WellFormed;
    var p, v := c.target, c.hasVariant;
    var now := Filled(t, p, v, c.data, if i == 0 then 0 else i - 1);
    FilledMembers(t, p, v, c.data, if i == 0 then 0 else i - 1, p[..i]);
    if i == 0 {
      FillNone(t, p, v, c.data);
      assert p[..0] in now by { assert p[..0] == []; RootExists(t); }
    } else {
      FillNext(t, p, v, c.data, i - 1);
      assert p[..i][..i - 1] == p[..i - 1];
    }
    var after := Filled(t, p, v, c.data, i);
    var next := c.(pc := After(c, i));
    assert p[..|p|] == p;
    if p[..i] in now || i < |p| || c.ActualVersion() < 0 {
      assert RunAlone(c, now) == RunAlone(next, after) by {
        if p[..i] !in now {
          var creating := c.(pc := AtCreate(i));
          assert Advance(c, now) == (creating, now);
          assert Advance(creating, now) == (next, after);
        } else {
          assert Advance(c, now) == (next, now);
        }
      }
      if i < |p| {
        FillAlone(next, t, i + 1);
      } else {
        FilledMembers(t, p, v, c.data, i, p);
        var done := c.(pc := Done(Ok(after[p].version)));
        assert Advance(next, after) == (done, after);
        assert RunAlone(next, after) == RunAlone(done, after) == Written(after, Ok(after[p].version));
      }
    }
  }

  /** Undisturbed, the calls of a Put add up to the closed form that class Store is proved to meet. */
  lemma AloneIsPut(t: Tree, target: Path, ident: Ident, data: Bytes)
    requires WellFormed(t) && Proper(target) && target != []
    ensures RunAlone(Started(target, ident, data), t) == PutAt(t, target, ident, data)
  {
    hide Filled;
    hide WellFormed;
    var c := Started(target, ident, data);
    if target !in t {
      FillNone(t, target, c.hasVariant, data);
      FillAlone(c.(pc := AtCheck(0)), t, 0);
    }
  }

  // ---------------------------------------------------------------- together

  datatype Call =
    | Create(path: Path, data: Bytes)
    | Set(path: Path, data: Bytes, version: int)
    | Delete(path: Path, version: int)

  function Perform(t: Tree, call: Call): Tree {
    match call
    case Create(p, data) => CreateNode(t, p, data).tree
    case Set(p, data, version) => SetNode(t, p, data, version).tree
    case Delete(p, version) => DeleteNode(t, p, version).tree
  }

  /** Running Puts by client number, over one tree. */
  datatype System = System(tree: Tree, clients: map<nat, Client>)

  /** A client's next call, or a call from anyone else. */
  datatype Move = Own(id: nat) | Other(call: Call)

  function Moved(s: System, move: Move): System {
    match move
    case Own(id) =>
      if id !in s.clients then s
      else
        var (c, t) := Advance(s.clients[id], s.tree);
        System(t, s.clients[id := c])
    case Other(call) => s.(tree := Perform(s.tree, call))
  }

  ghost predicate Behaviour(states: seq<System>, moves: seq<Move>) {
    |states| == |moves| + 1 && forall k :: 0 <= k < |moves| ==> states[k + 1] == Moved(states[k], moves[k])
  }

  /** The move is a Set of node `p` that ZooKeeper accepts. */
  predicate Writes(s: System, move: Move, p: Path)
    requires p in s.tree
  {
    match move
    case Own(id) =>
      && id in s.clients && s.clients[id].pc.AtSet? && s.clients[id].target == p
      && Accepts(s.tree[p], s.clients[id].ActualVersion())
    case Other(call) => call.Set? && call.path == p && Accepts(s.tree[p], call.version)
  }

  ghost predicate PresentThroughout(states: seq<System>, p: Path) {
    forall k :: 0 <= k < |states| ==> p in states[k].tree
  }

  function WriteCount(states: seq<System>, moves: seq<Move>, p: Path, n: nat): nat
    requires n <= |moves| && |states| == |moves| + 1
    requires forall k :: 0 <= k < |states| ==> p in states[k].tree
  {
    if n == 0 then 0
    else WriteCount(states, moves, p, n - 1) + if Writes(states[n - 1], moves[n - 1], p) then 1 else 0
  }

  lemma WriteStep(s: System, move: Move, p: Path)
    requires p in s.tree && p in Moved(s, move).tree
    ensures var s' := Moved(s, move);
            if Writes(s, move, p) then s'.tree[p].version == s.tree[p].version + 1 else s'.tree[p] == s.tree[p]
  {
  }

  /** A node that stays in existence rises by one version with each accepted write, and never otherwise. */
  lemma {:induction false} VersionCountsWrites(states: seq<System>, moves: seq<Move>, p: Path, n: nat)
    requires Behaviour(states, moves) && PresentThroughout(states, p) && n <= |moves|
    ensures states[n].tree[p].version == states[0].tree[p].version + WriteCount(states, moves, p, n)
  {
    hide Writes;
    hide Moved;
    if n > 0 {
      VersionCountsWrites(states, moves, p, n - 1);
      assert states[n - 1 + 1] == Moved(states[n - 1], moves[n - 1]);
      WriteStep(states[n - 1], moves[n - 1], p);
    }
  }

  /** Versions never go back, and the same version means the same data. */
  lemma {:induction false} VersionNamesData(states: seq<System>, moves: seq<Move>, p: Path, a: nat, b: nat)
    requires Behaviour(states, moves) && PresentThroughout(states, p) && a <= b <= |moves|
    ensures states[a].tree[p].version <= states[b].tree[p].version
    ensures states[a].tree[p].version == states[b].tree[p].version ==> states[a].tree[p] == states[b].tree[p]
    decreases b
  {
    hide Writes;
    hide Moved;
    if a < b {
      VersionNamesData(states, moves, p, a, b - 1);
      assert states[b - 1 + 1] == Moved(states[b - 1], moves[b - 1]);
      WriteStep(states[b - 1], moves[b - 1], p);
    }
  }

  /** Client `id` starts as a Put to `p` that names version `v`, 0 or above. */
  ghost predicate PutsAt(s: System, id: nat, p: Path, v: int) {
    && id in s.clients && s.clients[id].target == p
    && s.clients[id].version == At(v) && s.clients[id].pc == AtSet && v >= 0
  }

  /** Where a versioned Put to an existing node stands, and which move wrote if it has succeeded. */
  lemma {:induction false} PutHistory(states: seq<System>, moves: seq<Move>, p: Path, id: nat, v: int, n: nat)
    returns (k: nat)
    requires Behaviour(states, moves) && PresentThroughout(states, p) && n <= |moves|
    requires PutsAt(states[0], id, p, v)
    ensures id in states[n].clients
    ensures var c := states[n].clients[id];
            && c == states[0].clients[id].(pc := c.pc)
            && (c.pc == AtSet || c.pc == Done(Err(VersionConflict)) || c.pc == Done(Ok(v + 1)))
            && (c.pc == Done(Ok(v + 1)) ==>
                  && k < n && moves[k] == Own(id)
                  && states[k].tree[p].version == v
                  && states[k + 1].tree[p] == Znode(c.data, v + 1))
  {
    if n == 0 {
      k := 0;
    } else {
      k := PutHistory(states, moves, p, id, v, n - 1);
      assert states[n - 1 + 1] == Moved(states[n - 1], moves[n - 1]);
      var c := states[n - 1].clients[id];
      if moves[n - 1] == Own(id) && c.pc == AtSet && Accepts(states[n - 1].tree[p], v) {
        k := n - 1;
      }
    }
  }

  /**
   Optimistic locking: while the node exists, a Put naming version `v` succeeds only by one write
   that turns version `v` into `v + 1`, and what it overwrites is exactly what anyone who read
   version `v`, before or after, was given.
   */
  lemma VersionedPutReplacesWhatWasRead(states: seq<System>, moves: seq<Move>, p: Path, id: nat, v: int)
    returns (k: nat)
    requires Behaviour(states, moves) && PresentThroughout(states, p) && PutsAt(states[0], id, p, v)
    requires states[|moves|].clients.Keys >= {id} && states[|moves|].clients[id].pc.Done?
    requires states[|moves|].clients[id].pc.result.Ok?
    ensures k < |moves| && moves[k] == Own(id) && states[k].tree[p].version == v
    ensures states[k + 1].tree[p] == Znode(states[0].clients[id].data, v + 1)
    ensures states[|moves|].clients[id].pc.result == Ok(v + 1)
    ensures forall m :: 0 <= m <= |moves| && states[m].tree[p].version == v ==> states[m].tree[p] == states[k].tree[p]
  {
    k := PutHistory(states, moves, p, id, v, |moves|);
    hide Behaviour;
    forall m | 0 <= m <= |moves| && states[m].tree[p].version == v ensures states[m].tree[p] == states[k].tree[p] {
      if m <= k {
        VersionNamesData(states, moves, p, m, k);
      } else {
        VersionNamesData(states, moves, p, k, m);
      }
    }
  }

  /** Optimistic locking: of all Puts naming the same version of a node that exists, at most one succeeds. */
  lemma AtMostOneVersionedPut(states: seq<System>, moves: seq<Move>, p: Path, a: nat, b: nat, v: int)
    requires Behaviour(states, moves) && PresentThroughout(states, p)
    requires PutsAt(states[0], a, p, v) && PutsAt(states[0], b, p, v)
    requires a in states[|moves|].clients && b in states[|moves|].clients
    requires states[|moves|].clients[a].pc.Done? && states[|moves|].clients[a].pc.result.Ok?
    requires states[|moves|].clients[b].pc.Done? && states[|moves|].clients[b].pc.result.Ok?
    ensures a == b
  {
    var i := VersionedPutReplacesWhatWasRead(states, moves, p, a, v);
    var j := VersionedPutReplacesWhatWasRead(states, moves, p, b, v);
    hide Behaviour;
    if i < j {
      VersionNamesData(states, moves, p, i + 1, j);
    } else if j < i {
      VersionNamesData(states, moves, p, j + 1, i);
    }
  }

  // ---------------------------------------------------------------- creating ancestors among others

  ghost predicate NothingDeleted(moves: seq<Move>) {
    forall k :: 0 <= k < |moves| ==> !(moves[k].Other? && moves[k].call.Delete?)
  }

  ghost predicate ProperPaths(s: System, moves: seq<Move>) {
    && (forall id :: id in s.clients ==> Proper(s.clients[id].target))
    && (forall k :: 0 <= k < |moves| && moves[k].Other? ==> Proper(moves[k].call.path))
  }

  /** setFully never alters a node that exists: it only adds. */
  lemma FillingOnlyAdds(c: Client, t: Tree)
    requires c.Filling()
    ensures forall q :: q in t ==> q in Advance(c, t).1 && Advance(c, t).1[q] == t[q]
  {
  }

  lemma MoveKeepsForm(s: System, move: Move)
    requires WellFormed(s.tree)
    requires move.Other? ==> Proper(move.call.path)
    requires forall id :: id in s.clients ==> Proper(s.clients[id].target)
    ensures WellFormed(Moved(s, move).tree)
    ensures forall id :: id in Moved(s, move).clients ==> Proper(Moved(s, move).clients[id].target)
  {
    match move
    case Own(id) =>
      if id in s.clients {
        AdvanceKeepsForm(s.clients[id], s.tree);
      }
    case Other(call) =>
      match call
      case Create(p, data) => CreateKeepsForm(s.tree, p, data);
      case Set(p, data, version) => SetKeepsForm(s.tree, p, data, version);
      case Delete(p, version) => DeleteKeepsForm(s.tree, p, version);
  }

  lemma AdvanceKeepsForm(c: Client, t: Tree)
    requires WellFormed(t) && Proper(c.target)
    ensures WellFormed(Advance(c, t).1)
  {
    match c.pc
    case AtSet => SetKeepsForm(t, c.target, c.data, c.ActualVersion());
    case AtCreate(i) =>
      var path := if i <= |c.target| then c.target[..i] else c.target;
      CreateKeepsForm(t, path, DataAt(c.target, c.hasVariant, c.data, i));
    case _ =>
  }

  lemma MoveOnlyAdds(s: System, move: Move)
    requires !(move.Other? && move.call.Delete?)
    ensures s.tree.Keys <= Moved(s, move).tree.Keys
  {
  }

  /** All prefixes of the target shorter than `n` exist. */
  ghost predicate HasPrefixes(t: Tree, target: Path, n: nat) {
    forall j :: 0 <= j < n && j <= |target| ==> target[..j] in t
  }

  /** What holds of a setFully that names no version, at each point of its run. */
  ghost predicate FillSound(c: Client, t: Tree) {
    match c.pc
    case AtCheck(i) => i <= |c.target| && HasPrefixes(t, c.target, i)
    case AtCreate(i) => i <= |c.target| && HasPrefixes(t, c.target, i)
    case AtStat => HasPrefixes(t, c.target, |c.target| + 1)
    case Done(r) => r.Ok? && HasPrefixes(t, c.target, |c.target| + 1)
    case _ => false
  }

  lemma FillStaysSound(c: Client, t: Tree)
    requires WellFormed(t) && FillSound(c, t) && c.ActualVersion() < 0
    ensures FillSound(Advance(c, t).0, Advance(c, t).1)
  {
    var (c', t') := Advance(c, t);
    match c.pc
    case AtCheck(i) =>
      assert c.target[..i] in t ==> HasPrefixes(t, c.target, i + 1);
    case AtCreate(i) =>
      if i > 0 {
        assert c.target[..i - 1] in t;
        assert c.target[..i][..i - 1] == c.target[..i - 1];
      } else {
        assert c.target[..0] == [];
      }
      assert HasPrefixes(t', c.target, i + 1);
    case AtStat =>
      assert c.target[..|c.target|] == c.target;
    case _ =>
  }

  lemma {:induction false} FillSoundThroughout(states: seq<System>, moves: seq<Move>, id: nat, n: nat)
    requires Behaviour(states, moves) && NothingDeleted(moves) && n <= |moves|
    requires WellFormed(states[0].tree) && ProperPaths(states[0], moves)
    requires id in states[0].clients && states[0].clients[id].pc == AtCheck(0)
    requires states[0].clients[id].ActualVersion() < 0
    ensures WellFormed(states[n].tree)
    ensures forall other :: other in states[n].clients ==> Proper(states[n].clients[other].target)
    ensures id in states[n].clients && FillSound(states[n].clients[id], states[n].tree)
    ensures states[n].clients[id] == states[0].clients[id].(pc := states[n].clients[id].pc)
  {
    if n > 0 {
      FillSoundThroughout(states, moves, id, n - 1);
      hide WellFormed;
      hide FillSound;
      var s, move := states[n - 1], moves[n - 1];
      assert states[n - 1 + 1] == Moved(s, move);
      MoveKeepsForm(s, move);
      if move == Own(id) {
        FillStaysSound(s.clients[id], s.tree);
        AdvanceKeepsRequest(s.clients[id], s.tree);
      } else {
        MoveOnlyAdds(s, move);
        SoundInLarger(s.clients[id], s.tree, states[n].tree);
      }
    }
  }

  lemma AdvanceKeepsRequest(c: Client, t: Tree)
    ensures Advance(c, t).0 == c.(pc := Advance(c, t).0.pc)
  {
  }

  lemma SoundInLarger(c: Client, t: Tree, t': Tree)
    requires FillSound(c, t) && t.Keys <= t'.Keys
    ensures FillSound(c, t')
  {
    assert forall n :: HasPrefixes(t, c.target, n) ==> HasPrefixes(t', c.target, n);
  }

  /**
   While nobody deletes, a setFully that names no version cannot fail, however its calls mix with
   other clients' creates and sets: when it is done it has succeeded, the target and all its
   ancestors exist, and the tree is still a tree.
   */
  lemma FillSucceedsAmongOthers(states: seq<System>, moves: seq<Move>, id: nat)
    requires Behaviour(states, moves) && NothingDeleted(moves)
    requires WellFormed(states[0].tree) && ProperPaths(states[0], moves)
    requires id in states[0].clients && states[0].clients[id].pc == AtCheck(0)
    requires states[0].clients[id].ActualVersion() < 0
    ensures WellFormed(states[|moves|].tree) && id in states[|moves|].clients
    ensures var c, t := states[|moves|].clients[id], states[|moves|].tree;
            c.pc.Done? ==> c.pc.result.Ok? && forall j :: 0 <= j <= |c.target| ==> c.target[..j] in t
  {
    FillSoundThroughout(states, moves, id, |moves|);
  }

  // ---------------------------------------------------------------- when a Put wrote its own data

  /** Every move but client `id`'s own leaves node `p` as it is, present or absent. */
  ghost predicate OthersLeave(states: seq<System>, moves: seq<Move>, id: nat, p: Path)
    requires |states| == |moves| + 1
  {
    forall k :: 0 <= k < |moves| && moves[k] != Own(id) ==>
      && (p in states[k + 1].tree <==> p in states[k].tree)
      && (p in states[k].tree ==> states[k + 1].tree[p] == states[k].tree[p])
  }

  ghost predicate WroteOwn(c: Client, t: Tree) {
    match c.pc
    case AtCheck(i) => i <= |c.target| && c.target !in t
    case AtCreate(i) => i <= |c.target| && c.target !in t
    case AtStat => c.target in t && t[c.target] == Znode(c.data, 0)
    case Done(Ok(w)) => c.target in t && t[c.target] == Znode(c.data, w)
    case _ => true
  }

  lemma WroteOwnStep(c: Client, t: Tree)
    requires WroteOwn(c, t)
    ensures WroteOwn(Advance(c, t).0, Advance(c, t).1)
  {
    assert c.target[..|c.target|] == c.target;
  }

  lemma {:induction false} WroteOwnThroughout(states: seq<System>, moves: seq<Move>, id: nat, n: nat)
    requires Behaviour(states, moves) && n <= |moves|
    requires id in states[0].clients && (states[0].clients[id].pc == AtExists || states[0].clients[id].pc == AtSet)
    requires OthersLeave(states, moves, id, states[0].clients[id].target)
    ensures id in states[n].clients && WroteOwn(states[n].clients[id], states[n].tree)
    ensures states[n].clients[id] == states[0].clients[id].(pc := states[n].clients[id].pc)
  {
    if n > 0 {
      WroteOwnThroughout(states, moves, id, n - 1);
      var s, move := states[n - 1], moves[n - 1];
      assert states[n - 1 + 1] == Moved(s, move);
      if move == Own(id) {
        hide WroteOwn;
        WroteOwnStep(s.clients[id], s.tree);
        AdvanceKeepsRequest(s.clients[id], s.tree);
      }
    }
  }

  /** If nobody else touches the target's node, a Put that succeeds has stored its own data. */
  lemma UndisturbedPutWrites(states: seq<System>, moves: seq<Move>, id: nat)
    requires Behaviour(states, moves)
    requires id in states[0].clients && (states[0].clients[id].pc == AtExists || states[0].clients[id].pc == AtSet)
    requires OthersLeave(states, moves, id, states[0].clients[id].target)
    requires id in states[|moves|].clients
    requires states[|moves|].clients[id].pc.Done? && states[|moves|].clients[id].pc.result.Ok?
    ensures var c, t := states[|moves|].clients[id], states[|moves|].tree;
            c.target in t && t[c.target] == Znode(states[0].clients[id].data, c.pc.result.value)
  {
    WroteOwnThroughout(states, moves, id, |moves|);
  }

  /** The move changes node `p`: creates it, or gives it another value. */
  ghost predicate Changes(s: System, s': System, p: Path) {
    p in s'.tree && (p !in s.tree || s'.tree[p] != s.tree[p])
  }

  lemma {:induction false} StaysSettled(states: seq<System>, moves: seq<Move>, id: nat, k: nat, m: nat)
    requires Behaviour(states, moves) && k <= m <= |moves|
    requires id in states[k].clients && (states[k].clients[id].pc.AtStat? || states[k].clients[id].pc.Done?)
    ensures id in states[m].clients && (states[m].clients[id].pc.AtStat? || states[m].clients[id].pc.Done?)
    decreases m
  {
    if k < m {
      StaysSettled(states, moves, id, k, m - 1);
      assert states[m - 1 + 1] == Moved(states[m - 1], moves[m - 1]);
    }
  }

  lemma {:induction false} StaysPresent(states: seq<System>, moves: seq<Move>, p: Path, k: nat, m: nat)
    requires Behaviour(states, moves) && NothingDeleted(moves) && k <= m <= |moves| && p in states[k].tree
    ensures p in states[m].tree
    decreases m
  {
    if k < m {
      StaysPresent(states, moves, p, k, m - 1);
      assert states[m - 1 + 1] == Moved(states[m - 1], moves[m - 1]);
      MoveOnlyAdds(states[m - 1], moves[m - 1]);
    }
  }

  lemma {:induction false} ClientStays(states: seq<System>, moves: seq<Move>, id: nat, n: nat)
    requires Behaviour(states, moves) && n <= |moves| && id in states[0].clients
    ensures id in states[n].clients && states[n].clients[id] == states[0].clients[id].(pc := states[n].clients[id].pc)
    ensures var c := states[n].clients[id]; c.pc == states[0].clients[id].pc || c.Filling() || c.pc.Done?
  {
    if n > 0 {
      ClientStays(states, moves, id, n - 1);
      assert states[n - 1 + 1] == Moved(states[n - 1], moves[n - 1]);
      if moves[n - 1] == Own(id) {
        AdvanceKeepsRequest(states[n - 1].clients[id], states[n - 1].tree);
      }
    }
  }

  /** A step of a Put that changes its target leaves nothing to do but look at the result. */
  lemma ChangeSettles(c: Client, t: Tree)
    requires c.target in Advance(c, t).1
    requires c.target !in t || Advance(c, t).1[c.target] != t[c.target]
    ensures Advance(c, t).0.pc.AtStat? || Advance(c, t).0.pc.Done?
  {
  }

  lemma FillingLeavesPresent(c: Client, t: Tree)
    requires (c.Filling() || c.pc.Done?) && c.target in t
    ensures c.target in Advance(c, t).1 && Advance(c, t).1[c.target] == t[c.target]
  {
  }

  /**
   Once another client has created the target while a Put is still on its way there, none of that
   Put's calls changes the target.
   */
  lemma OvertakenPutWritesNothing(states: seq<System>, moves: seq<Move>, id: nat, m: nat, k: nat)
    requires Behaviour(states, moves) && NothingDeleted(moves) && m <= |moves| && k < |moves|
    requires id in states[0].clients && id in states[m].clients
    requires states[m].clients[id].pc.AtCheck? || states[m].clients[id].pc.AtCreate?
    requires states[0].clients[id].target in states[m].tree
    requires states[0].clients[id].pc == AtExists || states[0].clients[id].pc == AtSet
    requires moves[k] == Own(id)
    ensures !Changes(states[k], states[k + 1], states[0].clients[id].target)
  {
    var p := states[0].clients[id].target;
    ClientStays(states, moves, id, k);
    ClientStays(states, moves, id, m);
    assert states[k + 1] == Moved(states[k], moves[k]);
    if k < m {
      if Changes(states[k], states[k + 1], p) {
        ChangeSettles(states[k].clients[id], states[k].tree);
        StaysSettled(states, moves, id, k + 1, m);
      }
    } else {
      StaysPresent(states, moves, p, m, k);
      PastStart(states, moves, id, m, k);
      FillingLeavesPresent(states[k].clients[id], states[k].tree);
    }
  }

  lemma {:induction false} PastStart(states: seq<System>, moves: seq<Move>, id: nat, m: nat, k: nat)
    requires Behaviour(states, moves) && m <= k <= |moves|
    requires id in states[m].clients && (states[m].clients[id].Filling() || states[m].clients[id].pc.Done?)
    ensures id in states[k].clients && (states[k].clients[id].Filling() || states[k].clients[id].pc.Done?)
    decreases k
  {
    if m < k {
      PastStart(states, moves, id, m, k - 1);
      assert states[k - 1 + 1] == Moved(states[k - 1], moves[k - 1]);
    }
  }

  /** A Put that has not begun: its first call is still to come. */
  predicate Begins(c: Client) {
    c.pc == AtExists || c.pc == AtSet
  }

  /** At some point the client stood on its way to `p` while `p` was already there. */
  ghost predicate Overtaken(states: seq<System>, id: nat, p: Path) {
    exists m :: 0 <= m < |states| && OvertakenAt(states[m], id, p)
  }

  ghost predicate OvertakenAt(s: System, id: nat, p: Path) {
    id in s.clients && (s.clients[id].pc.AtCheck? || s.clients[id].pc.AtCreate?) && p in s.tree
  }

  /** One of the client's own calls changed `p`. */
  ghost predicate Wrote(states: seq<System>, moves: seq<Move>, id: nat, p: Path)
    requires |states| == |moves| + 1
  {
    exists k :: 0 <= k < |moves| && moves[k] == Own(id) && Changes(states[k], states[k + 1], p)
  }

  /** Where a Put that was never overtaken stands. */
  ghost predicate OnTrack(states: seq<System>, moves: seq<Move>, id: nat, n: nat)
    requires |states| == |moves| + 1 && n <= |moves| && id in states[n].clients
  {
    var c := states[n].clients[id];
    match c.pc
    case AtCheck(i) => i <= |c.target|
    case AtCreate(i) => i <= |c.target|
    case AtStat => exists k :: 0 <= k < n && moves[k] == Own(id) && Changes(states[k], states[k + 1], c.target)
    case Done(Ok(_)) => exists k :: 0 <= k < n && moves[k] == Own(id) && Changes(states[k], states[k + 1], c.target)
    case _ => true
  }

  lemma {:induction false} OnTrackThroughout(states: seq<System>, moves: seq<Move>, id: nat, n: nat)
    requires Behaviour(states, moves) && n <= |moves| && id in states[0].clients && Begins(states[0].clients[id])
    requires !Overtaken(states, id, states[0].clients[id].target)
    ensures id in states[n].clients && states[n].clients[id].target == states[0].clients[id].target
    ensures OnTrack(states, moves, id, n)
  {
    if n > 0 {
      OnTrackThroughout(states, moves, id, n - 1);
      var s, move := states[n - 1], moves[n - 1];
      assert states[n - 1 + 1] == Moved(s, move);
      if move == Own(id) {
        assert !OvertakenAt(s, id, s.clients[id].target);
        OwnStepOnTrack(s.clients[id], s.tree);
        AdvanceKeepsRequest(s.clients[id], s.tree);
      }
    }
  }

  /** The only way on from an absent target to the final stat, or from Set to success, changes the target. */
  lemma OwnStepOnTrack(c: Client, t: Tree)
    requires c.pc.AtCheck? || c.pc.AtCreate? ==> c.target !in t
    requires c.pc.AtCheck? || c.pc.AtCreate? ==> c.pc.i <= |c.target|
    ensures var (c', t') := Advance(c, t);
            && (c'.pc.AtCheck? || c'.pc.AtCreate? ==> c'.pc.i <= |c.target|)
            && (c'.pc.AtStat? && !c.pc.AtStat? ==> c.target in t' && c.target !in t)
            && (c'.pc.Done? && c'.pc.result.Ok? && !c.pc.AtStat? && !c.pc.Done? ==>
                  c.target in t' && c.target in t && t'[c.target] != t[c.target])
  {
    assert c.target[..|c.target|] == c.target;
  }

  /**
   The exact condition for a Put that reports success to have stored its data, while nobody deletes:
   at no point of its way did it find itself overtaken by another client's create.
   */
  lemma PutWritesIff(states: seq<System>, moves: seq<Move>, id: nat)
    requires Behaviour(states, moves) && NothingDeleted(moves)
    requires id in states[0].clients && Begins(states[0].clients[id])
    requires id in states[|moves|].clients
    requires states[|moves|].clients[id].pc.Done? && states[|moves|].clients[id].pc.result.Ok?
    ensures Wrote(states, moves, id, states[0].clients[id].target) <==>
            !Overtaken(states, id, states[0].clients[id].target)
  {
    hide Changes;
    var p := states[0].clients[id].target;
    if Overtaken(states, id, p) {
      var m :| 0 <= m < |states| && OvertakenAt(states[m], id, p);
      forall k | 0 <= k < |moves| && moves[k] == Own(id) ensures !Changes(states[k], states[k + 1], p) {
        OvertakenPutWritesNothing(states, moves, id, m, k);
      }
    } else {
      OnTrackThroughout(states, moves, id, |moves|);
    }
  }

  lemma {:induction false} FormThroughout(states: seq<System>, moves: seq<Move>, n: nat)
    requires Behaviour(states, moves) && n <= |moves|
    requires WellFormed(states[0].tree) && ProperPaths(states[0], moves)
    ensures WellFormed(states[n].tree)
    ensures forall id :: id in states[n].clients ==> Proper(states[n].clients[id].target)
  {
    hide WellFormed;
    if n > 0 {
      FormThroughout(states, moves, n - 1);
      assert states[n - 1 + 1] == Moved(states[n - 1], moves[n - 1]);
      MoveKeepsForm(states[n - 1], moves[n - 1]);
    }
  }

  /** Still on the way, or past it with success. */
  predicate Bound(c: Client) {
    match c.pc
    case AtCheck(i) => i <= |c.target|
    case AtCreate(i) => i <= |c.target|
    case AtStat => true
    case Done(r) => r.Ok?
    case _ => false
  }

  lemma OvertakenStep(c: Client, t: Tree)
    requires WellFormed(t) && c.target in t && Bound(c)
    ensures Bound(Advance(c, t).0)
  {
    hide WellFormed;
    if c.pc.AtCheck? || c.pc.AtCreate? {
      AncestorsExist(t, c.target, c.pc.i);
    }
  }

  lemma {:induction false} BoundThroughout(states: seq<System>, moves: seq<Move>, id: nat, m: nat, n: nat)
    requires Behaviour(states, moves) && NothingDeleted(moves) && m <= n <= |moves|
    requires WellFormed(states[0].tree) && ProperPaths(states[0], moves)
    requires id in states[0].clients && id in states[m].clients && Bound(states[m].clients[id])
    requires states[0].clients[id].target in states[m].tree
    ensures id in states[n].clients && Bound(states[n].clients[id])
    decreases n
  {
    hide WellFormed;
    if m < n {
      BoundThroughout(states, moves, id, m, n - 1);
      assert states[n - 1 + 1] == Moved(states[n - 1], moves[n - 1]);
      if moves[n - 1] == Own(id) {
        ClientStays(states, moves, id, n - 1);
        FormThroughout(states, moves, n - 1);
        StaysPresent(states, moves, states[0].clients[id].target, m, n - 1);
        OvertakenStep(states[n - 1].clients[id], states[n - 1].tree);
      }
    }
  }

  lemma {:induction false} IndexInRange(states: seq<System>, moves: seq<Move>, id: nat, n: nat)
    requires Behaviour(states, moves) && n <= |moves| && id in states[0].clients && Begins(states[0].clients[id])
    ensures id in states[n].clients
    ensures var c := states[n].clients[id]; c.pc.AtCheck? || c.pc.AtCreate? ==> c.pc.i <= |c.target|
  {
    if n > 0 {
      IndexInRange(states, moves, id, n - 1);
      assert states[n - 1 + 1] == Moved(states[n - 1], moves[n - 1]);
    }
  }

  /** What a Put's call that changes its target leaves there: its own data, one version further or as new. */
  lemma WritesOwnData(states: seq<System>, moves: seq<Move>, id: nat, k: nat)
    requires Behaviour(states, moves) && k < |moves| && id in states[0].clients && Begins(states[0].clients[id])
    requires moves[k] == Own(id) && Changes(states[k], states[k + 1], states[0].clients[id].target)
    ensures var p, t := states[0].clients[id].target, states[k].tree;
            states[k + 1].tree[p] == Znode(states[0].clients[id].data, if p in t then t[p].version + 1 else 0)
  {
    assert states[k + 1] == Moved(states[k], moves[k]);
    IndexInRange(states, moves, id, k);
    ClientStays(states, moves, id, k);
  }

  /** A call of a Put that changes its target is its last but the stat, and the Put is bound to succeed. */
  lemma WriteBinds(c: Client, t: Tree)
    requires c.target in Advance(c, t).1 && (c.target !in t || Advance(c, t).1[c.target] != t[c.target])
    ensures Bound(Advance(c, t).0)
  {
  }

  /**
   How a finished Put ended, while nobody deletes: it reports success if and only if it wrote or was
   overtaken, and it never did both.
   */
  lemma PutOutcomeIff(states: seq<System>, moves: seq<Move>, id: nat)
    requires Behaviour(states, moves) && NothingDeleted(moves)
    requires WellFormed(states[0].tree) && ProperPaths(states[0], moves)
    requires id in states[0].clients && Begins(states[0].clients[id])
    requires id in states[|moves|].clients && states[|moves|].clients[id].pc.Done?
    ensures var p := states[0].clients[id].target;
            && (states[|moves|].clients[id].pc.result.Ok? <==> Wrote(states, moves, id, p) || Overtaken(states, id, p))
            && !(Wrote(states, moves, id, p) && Overtaken(states, id, p))
  {
    hide WellFormed;
    var p := states[0].clients[id].target;
    if Overtaken(states, id, p) {
      var m :| 0 <= m < |states| && OvertakenAt(states[m], id, p);
      IndexInRange(states, moves, id, m);
      BoundThroughout(states, moves, id, m, |moves|);
    } else if Wrote(states, moves, id, p) {
      var k :| 0 <= k < |moves| && moves[k] == Own(id) && Changes(states[k], states[k + 1], p);
      assert states[k + 1] == Moved(states[k], moves[k]);
      ClientStays(states, moves, id, k);
      WriteBinds(states[k].clients[id], states[k].tree);
      BoundThroughout(states, moves, id, k + 1, |moves|);
    }
    if states[|moves|].clients[id].pc.result.Ok? {
      PutWritesIff(states, moves, id);
    }
  }

  /** Creation is exclusive in this sense: of all Puts that insist on creating an item, at most one writes it. */
  lemma AtMostOneCreates(states: seq<System>, moves: seq<Move>, a: nat, b: nat, p: Path)
    requires Behaviour(states, moves) && NothingDeleted(moves)
    requires a in states[0].clients && states[0].clients[a].pc == AtExists && states[0].clients[a].target == p
    requires b in states[0].clients && states[0].clients[b].pc == AtExists && states[0].clients[b].target == p
    requires Wrote(states, moves, a, p) && Wrote(states, moves, b, p)
    ensures a == b
  {
    var j :| 0 <= j < |moves| && moves[j] == Own(a) && Changes(states[j], states[j + 1], p);
    var k :| 0 <= k < |moves| && moves[k] == Own(b) && Changes(states[k], states[k + 1], p);
    if j < k {
      CreatedOnce(states, moves, b, p, j, k);
    } else if k < j {
      CreatedOnce(states, moves, a, p, k, j);
    }
  }

  /** Once the node exists, a Put that insists on creating it changes nothing. */
  lemma CreatedOnce(states: seq<System>, moves: seq<Move>, id: nat, p: Path, j: nat, k: nat)
    requires Behaviour(states, moves) && NothingDeleted(moves) && j < k < |moves| && p in states[j + 1].tree
    requires id in states[0].clients && states[0].clients[id].pc == AtExists && states[0].clients[id].target == p
    requires moves[k] == Own(id)
    ensures !Changes(states[k], states[k + 1], p)
  {
    StaysPresent(states, moves, p, j + 1, k);
    ClientStays(states, moves, id, k);
    assert states[k + 1] == Moved(states[k], moves[k]);
    if states[k].clients[id].pc != AtExists {
      FillingLeavesPresent(states[k].clients[id], states[k].tree);
    }
  }

  // ---------------------------------------------------------------- versions when nodes come and go

  /** A Put that names a version never creates its target. */
  lemma {:induction false} VersionedIndex(states: seq<System>, moves: seq<Move>, p: Path, id: nat, v: int, n: nat)
    requires Behaviour(states, moves) && n <= |moves| && PutsAt(states[0], id, p, v)
    ensures id in states[n].clients && states[n].clients[id] == states[0].clients[id].(pc := states[n].clients[id].pc)
    ensures var c := states[n].clients[id];
            (c.pc.AtCheck? ==> c.pc.i <= |p|) && (c.pc.AtCreate? ==> c.pc.i < |p|)
  {
    if n > 0 {
      VersionedIndex(states, moves, p, id, v, n - 1);
      assert states[n - 1 + 1] == Moved(states[n - 1], moves[n - 1]);
      if moves[n - 1] == Own(id) {
        AdvanceKeepsRequest(states[n - 1].clients[id], states[n - 1].tree);
      }
    }
  }

  /** So it changes its target only by turning the version it names into the next one. */
  lemma VersionedChange(states: seq<System>, moves: seq<Move>, p: Path, id: nat, v: int, i: nat)
    requires Behaviour(states, moves) && i < |moves| && PutsAt(states[0], id, p, v)
    requires moves[i] == Own(id) && Changes(states[i], states[i + 1], p)
    ensures p in states[i].tree && states[i].tree[p].version == v && states[i + 1].tree[p].version == v + 1
  {
    VersionedIndex(states, moves, p, id, v, i);
    assert states[i + 1] == Moved(states[i], moves[i]);
  }

  /** Whatever happens, two Puts naming one version both write only if the node was gone in between. */
  lemma TwoWritesNeedGap(states: seq<System>, moves: seq<Move>, p: Path, a: nat, b: nat, v: int, i: nat, j: nat)
    requires Behaviour(states, moves) && i < j < |moves| && PutsAt(states[0], a, p, v) && PutsAt(states[0], b, p, v)
    requires moves[i] == Own(a) && Changes(states[i], states[i + 1], p)
    requires moves[j] == Own(b) && Changes(states[j], states[j + 1], p)
    ensures exists k :: i < k <= j && p !in states[k].tree
  {
    hide Changes;
    VersionedChange(states, moves, p, a, v, i);
    VersionedChange(states, moves, p, b, v, j);
    if forall k :: i < k <= j ==> p in states[k].tree {
      var later, rest := states[i + 1..j + 1], moves[i + 1..j];
      hide Moved;
      assert Behaviour(later, rest) by {
        forall k | 0 <= k < |rest| ensures later[k + 1] == Moved(later[k], rest[k]) {
          assert states[i + 1 + k + 1] == Moved(states[i + 1 + k], moves[i + 1 + k]);
        }
      }
      VersionNamesData(later, rest, p, 0, |rest|);
    }
  }

  /** Sets of another client raise the version one by one. */
  lemma {:induction false} RaisedTo(s: System, p: Path, data: Bytes, n: nat)
    returns (states: seq<System>, moves: seq<Move>)
    requires p in s.tree
    ensures Behaviour(states, moves) && states[0] == s && states[|moves|].clients == s.clients
    ensures p in states[|moves|].tree && states[|moves|].tree[p].version == s.tree[p].version + n
    decreases n
  {
    if n == 0 {
      states, moves := [s], [];
    } else {
      var move := Other(Set(p, data, -1));
      var later, rest := RaisedTo(Moved(s, move), p, data, n - 1);
      states, moves := [s] + later, [move] + rest;
      assert states[|moves|] == later[|rest|];
    }
  }

  /**
   If a node goes and comes back, a version no longer names one value: at any childless item, whatever its
   version, two Puts naming that version can both write.
   */
  lemma BothWriteAroundGap(cfg: Config, t: Tree, ident: Ident, d0: Bytes, d1: Bytes)
    returns (states: seq<System>, moves: seq<Move>, j: nat)
    requires ValidConfig(cfg) && WellFormed(t) && Resolve(cfg, ident).Ok? && Resolve(cfg, ident).value in t
    requires ChildrenOf(t, Resolve(cfg, ident).value) == {}
    requires ident.version == At(t[Resolve(cfg, ident).value].version) && ident.version.number >= 0
    ensures Behaviour(states, moves) && 0 < j < |moves| && moves[0] == Own(0) && moves[j] == Own(1)
    ensures var p := Resolve(cfg, ident).value;
            && states[0] == System(t, map[0 := Started(p, ident, d0), 1 := Started(p, ident, d1)])
            && Changes(states[0], states[1], p) && Changes(states[j], states[j + 1], p)
  {
    ResolvedIsProper(cfg, ident);
    var p := Resolve(cfg, ident).value;
    hide Resolve;
    hide Behaviour;
    hide Changes;
    hide WellFormed;
    states, moves, j := AroundGap(t, p, Started(p, ident, d0), Started(p, ident, d1), ident.version.number);
  }

  lemma AroundGap(t: Tree, p: Path, c: Client, d: Client, v: int)
    returns (states: seq<System>, moves: seq<Move>, j: nat)
    requires WellFormed(t) && p != [] && p in t && t[p].version == v && v >= 0 && ChildrenOf(t, p) == {}
    requires c.target == p && c.pc == AtSet && c.version == At(v)
    requires d.target == p && d.pc == AtSet && d.version == At(v)
    ensures Behaviour(states, moves) && 0 < j < |moves| && moves[0] == Own(0) && moves[j] == Own(1)
    ensures states[0] == System(t, map[0 := c, 1 := d])
    ensures Changes(states[0], states[1], p) && Changes(states[j], states[j + 1], p)
  {
    hide Moved;
    hide Changes;
    hide ChildrenOf;
    hide WellFormed;
    var s0 := System(t, map[0 := c, 1 := d]);
    var states0, moves0 := WritesThenGone(s0, c, p, v);
    var raised, sets := RaisedTo(states0[3], p, [], v);
    var last := raised[|sets|];
    SetFits(last, d, p, v);
    states, moves := Joined3(states0, moves0, raised, sets, [last, Moved(last, Own(1))], [Own(1)]);
    j := 3 + |sets|;
    assert states[j] == last && states[j + 1] == states[j..][1] == Moved(last, Own(1));
    assert states[1] == states[..4][1] == states0[1];
  }

  lemma SetFits(s: System, d: Client, p: Path, v: int)
    requires 1 in s.clients && s.clients[1] == d && d.target == p && d.pc == AtSet && d.version == At(v)
    requires p in s.tree && s.tree[p].version == v
    ensures Behaviour([s, Moved(s, Own(1))], [Own(1)]) && Changes(s, Moved(s, Own(1)), p)
  {
  }

  /** A Put that writes, a delete by another client and a create: the node is back at version 0. */
  lemma WritesThenGone(s0: System, c: Client, p: Path, v: int) returns (states: seq<System>, moves: seq<Move>)
    requires 0 in s0.clients && s0.clients[0] == c && c.target == p && c.pc == AtSet && c.version == At(v)
    requires WellFormed(s0.tree) && p != [] && p in s0.tree && s0.tree[p].version == v && ChildrenOf(s0.tree, p) == {}
    ensures |moves| == 3 && moves[0] == Own(0) && Behaviour(states, moves) && states[0] == s0
    ensures Changes(states[0], states[1], p)
    ensures p in states[3].tree && states[3].tree[p].version == 0
    ensures states[3].clients.Keys == s0.clients.Keys
    ensures forall id :: id in s0.clients && id != 0 ==> states[3].clients[id] == s0.clients[id]
  {
    var s1 := Moved(s0, Own(0));
    assert s1.tree == s0.tree[p := Znode(c.data, v + 1)];
    assert ChildrenOf(s1.tree, p) == ChildrenOf(s0.tree, p);
    var s2 := Moved(s1, Other(Delete(p, -1)));
    assert s2.tree == s1.tree - {p};
    assert p[..|p| - 1] in s2.tree;
    var s3 := Moved(s2, Other(Create(p, [])));
    states, moves := [s0, s1, s2, s3], [Own(0), Other(Delete(p, -1)), Other(Create(p, []))];
  }

  // ---------------------------------------------------------------- a race for one item

  /** A client's own moves alone take it to its end. */
  lemma {:induction false} RunOut(s: System, id: nat) returns (states: seq<System>, moves: seq<Move>)
    requires id in s.clients
    ensures Behaviour(states, moves) && states[0] == s && forall k :: 0 <= k < |moves| ==> moves[k] == Own(id)
    ensures var w := RunAlone(s.clients[id], s.tree);
            states[|moves|] == System(w.tree, s.clients[id := s.clients[id].(pc := Done(w.result))])
    decreases Rank(s.clients[id])
  {
    var c := s.clients[id];
    if c.pc.Done? {
      states, moves := [s], [];
      assert s.clients[id := c] == s.clients;
    } else {
      AdvanceDecreasesRank(c, s.tree);
      AdvanceKeepsRequest(c, s.tree);
      var s' := Moved(s, Own(id));
      assert s'.clients[id] == Advance(c, s.tree).0;
      hide Advance;
      var later, rest := RunOut(s', id);
      states, moves := [s] + later, [Own(id)] + rest;
      assert states[|moves|] == later[|rest|];
    }
  }

  lemma Concatenated(states: seq<System>, moves: seq<Move>, later: seq<System>, rest: seq<Move>)
    requires Behaviour(states, moves) && Behaviour(later, rest) && states[|moves|] == later[0]
    ensures Behaviour(states + later[1..], moves + rest)
    ensures (states + later[1..])[|moves + rest|] == later[|rest|]
  {
    hide Moved;
    var all, both := states + later[1..], moves + rest;
    forall k | 0 <= k < |both| ensures all[k + 1] == Moved(all[k], both[k]) {
      if k >= |moves| {
        assert all[k + 1] == later[k - |moves| + 1] && all[k] == later[k - |moves|];
      }
    }
  }

  /** Filling in towards an absent target stores the data there, at version 0. */
  lemma FillCreates(t: Tree, p: Path, hasVariant: bool, data: Bytes)
    requires WellFormed(t) && Proper(p) && p != [] && p !in t
    ensures var w := FillOutcome(t, p, hasVariant, data, -1);
            WellFormed(w.tree) && p in w.tree && w.tree[p] == Znode(data, 0) && w.result == Ok(0)
  {
    FilledKeepsForm(t, p, hasVariant, data, |p|);
    FilledMembers(t, p, hasVariant, data, |p|, p);
  }

  /** Filling in towards a target that is there changes nothing and answers its version. */
  lemma FillFinds(t: Tree, p: Path, hasVariant: bool, data: Bytes)
    requires WellFormed(t) && p != [] && p in t
    ensures FillOutcome(t, p, hasVariant, data, -1) == Written(t, Ok(t[p].version))
  {
    forall q | q in Prefixes(p, |p|) ensures q in t {
      PrefixIn(p, |p|, q);
      AncestorsExist(t, p, |q|);
    }
    assert Filled(t, p, hasVariant, data, |p|) == t;
  }

  /**
   Wherever an item is missing, two Puts that each insist on creating it can both report success:
   both look, and then one after the other goes to its end. The second wrote nothing.
   */
  lemma CreationRace(cfg: Config, t: Tree, ident: Ident, d0: Bytes, d1: Bytes)
    returns (states: seq<System>, moves: seq<Move>)
    requires ValidConfig(cfg) && Resolve(cfg, ident).Ok? && ident.CreatingNew()
    requires WellFormed(t) && Resolve(cfg, ident).value !in t
    ensures Behaviour(states, moves) && forall k :: 0 <= k < |moves| ==> moves[k] == Own(0) || moves[k] == Own(1)
    ensures var p := Resolve(cfg, ident).value;
            && states[0] == System(t, map[0 := Started(p, ident, d0), 1 := Started(p, ident, d1)])
            && Finished(states[|moves|], 0, Ok(0)) && Finished(states[|moves|], 1, Ok(0))
            && p in states[|moves|].tree && states[|moves|].tree[p] == Znode(d0, 0)
            && Wrote(states, moves, 0, p) && !Wrote(states, moves, 1, p)
  {
    ResolvedIsProper(cfg, ident);
    states, moves := RaceTo(t, Resolve(cfg, ident).value, ident, d0, d1);
  }

  ghost predicate Finished(s: System, id: nat, r: Result<int>) {
    id in s.clients && s.clients[id].pc == Done(r)
  }

  lemma BothLook(t: Tree, c: Client, d: Client)
    requires c.pc == AtExists && d.pc == AtExists && c.target !in t && d.target !in t
    ensures var s0 := System(t, map[0 := c, 1 := d]);
            var s1, s2 := Moved(s0, Own(0)), Moved(Moved(s0, Own(0)), Own(1));
            && s2 == System(t, map[0 := c.(pc := AtCheck(0)), 1 := d.(pc := AtCheck(0))])
            && Behaviour([s0, s1, s2], [Own(0), Own(1)])
  {
  }

  /** A Put on its way that meets nobody else goes to its end by its own moves. */
  lemma GoesToEnd(s: System, id: nat, t: Tree, w: Written) returns (states: seq<System>, moves: seq<Move>)
    requires id in s.clients && s.tree == t && s.clients[id].pc == AtCheck(0) && s.clients[id].ActualVersion() == -1
    requires var c := s.clients[id];
             && WellFormed(t) && Proper(c.target) && c.target != []
             && w == FillOutcome(t, c.target, c.hasVariant, c.data, -1)
    ensures Behaviour(states, moves) && states[0] == s && forall k :: 0 <= k < |moves| ==> moves[k] == Own(id)
    ensures states[|moves|] == System(w.tree, s.clients[id := s.clients[id].(pc := Done(w.result))])
  {
    hide WellFormed;
    hide FillOutcome;
    hide RunAlone;
    var c := s.clients[id];
    FillNone(t, c.target, c.hasVariant, c.data);
    FillAlone(c, t, 0);
    states, moves := RunOut(s, id);
  }

  /** Both Puts look, then the first and the second go to their ends. */
  lemma RaceRuns(t: Tree, c: Client, d: Client, w: Written)
    returns (states: seq<System>, moves: seq<Move>, b: nat)
    requires c.pc == AtExists && c.ActualVersion() == -1 && d.pc == AtExists && d.ActualVersion() == -1
    requires WellFormed(t) && Proper(c.target) && c.target != [] && c.target !in t
    requires d.target == c.target && d.hasVariant == c.hasVariant
    requires w == FillOutcome(t, c.target, c.hasVariant, c.data, -1)
    ensures Behaviour(states, moves) && 2 <= b <= |moves|
    ensures forall k :: 0 <= k < |moves| ==> moves[k] == Own(0) || moves[k] == Own(1)
    ensures forall k :: 2 <= k < b ==> moves[k] == Own(0)
    ensures states[0] == System(t, map[0 := c, 1 := d]) && states[2].tree == t && states[b].tree == w.tree
    ensures OvertakenAt(states[b], 1, c.target)
    ensures states[|moves|].tree == w.tree && Finished(states[|moves|], 0, Ok(0)) && Finished(states[|moves|], 1, Ok(0))
  {
    hide WellFormed;
    hide Proper;
    BothLook(t, c, d);
    FillCreates(t, c.target, c.hasVariant, c.data);
    FillFinds(w.tree, c.target, d.hasVariant, d.data);
    hide FillOutcome;
    hide Moved;
    var s0 := System(t, map[0 := c, 1 := d]);
    var look := [s0, Moved(s0, Own(0)), Moved(Moved(s0, Own(0)), Own(1))];
    var first, ownFirst := GoesToEnd(look[2], 0, t, w);
    var s3 := first[|ownFirst|];
    assert s3.clients[1] == d.(pc := AtCheck(0)) && s3.clients[0].pc == Done(Ok(0)) && s3.tree == w.tree;
    var second, ownSecond := GoesToEnd(s3, 1, w.tree, Written(w.tree, Ok(0)));
    states, moves := Joined3(look, [Own(0), Own(1)], first, ownFirst, second, ownSecond);
    b := 2 + |ownFirst|;
  }

  lemma RaceTo(t: Tree, p: Path, ident: Ident, d0: Bytes, d1: Bytes) returns (states: seq<System>, moves: seq<Move>)
    requires WellFormed(t) && Proper(p) && p != [] && p !in t && ident.CreatingNew()
    ensures Behaviour(states, moves) && forall k :: 0 <= k < |moves| ==> moves[k] == Own(0) || moves[k] == Own(1)
    ensures states[0] == System(t, map[0 := Started(p, ident, d0), 1 := Started(p, ident, d1)])
    ensures Finished(states[|moves|], 0, Ok(0)) && Finished(states[|moves|], 1, Ok(0))
    ensures p in states[|moves|].tree && states[|moves|].tree[p] == Znode(d0, 0)
    ensures Wrote(states, moves, 0, p) && !Wrote(states, moves, 1, p)
  {
    hide WellFormed;
    hide Proper;
    hide Moved;
    hide Wrote;
    var c, d := Started(p, ident, d0), Started(p, ident, d1);
    FillCreates(t, p, ident.variant != "", d0);
    var w := FillOutcome(t, p, ident.variant != "", d0, -1);
    hide FillOutcome;
    var b;
    states, moves, b := RaceRuns(t, c, d, w);
    RaceOutcome(states, moves, p, 2, b);
  }

  lemma Joined3(a: seq<System>, x: seq<Move>, b: seq<System>, y: seq<Move>, c: seq<System>, z: seq<Move>)
    returns (states: seq<System>, moves: seq<Move>)
    requires Behaviour(a, x) && Behaviour(b, y) && Behaviour(c, z) && a[|x|] == b[0] && b[|y|] == c[0]
    ensures Behaviour(states, moves) && moves == x + y + z
    ensures states[0] == a[0] && states[|x|] == b[0] && states[|x| + |y|] == c[0] && states[|moves|] == c[|z|]
    ensures states[..|x| + 1] == a && states[|x| + |y|..] == c
  {
    hide Moved;
    Concatenated(a, x, b, y);
    Concatenated(a + b[1..], x + y, c, z);
    states, moves := a + b[1..] + c[1..], x + y + z;
  }

  lemma {:induction false} Appears(states: seq<System>, p: Path, a: nat, b: nat) returns (k: nat)
    requires a <= b < |states| && p !in states[a].tree && p in states[b].tree
    ensures a <= k < b && Changes(states[k], states[k + 1], p)
    decreases b
  {
    if p in states[b - 1].tree {
      k := Appears(states, p, a, b - 1);
    } else {
      k := b - 1;
    }
  }

  /** If the node appears while only the first Put moves, and the second is still on its way, only the first wrote. */
  lemma RaceOutcome(states: seq<System>, moves: seq<Move>, p: Path, a: nat, b: nat)
    requires Behaviour(states, moves) && forall k :: 0 <= k < |moves| ==> moves[k].Own?
    requires a <= b <= |moves| && p !in states[a].tree && p in states[b].tree
    requires forall k :: a <= k < b ==> moves[k] == Own(0)
    requires 1 in states[0].clients && Begins(states[0].clients[1]) && states[0].clients[1].target == p
    requires OvertakenAt(states[b], 1, p) && Finished(states[|moves|], 1, Ok(0))
    ensures Wrote(states, moves, 0, p) && !Wrote(states, moves, 1, p)
  {
    var k := Appears(states, p, a, b);
    PutWritesIff(states, moves, 1);
  }
}
