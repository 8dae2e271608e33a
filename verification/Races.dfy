/**
 deleteItem, List and initialize as the ZooKeeper calls they make, with calls of other clients in
 between. A move is either the operation's own next call or a call of somebody else.
 */
module Races {
  import opened Types
  import opened Paths
  import opened Idents
  import opened ZkTree
  import opened StorePaths
  import opened StoreSpec
  import opened Layouts
  import opened Deletions
  import opened Listings
  import opened Interleaving

  type Turn = Option<Call>

  /** Another client's call on a path ZooKeeper accepts; the operation's own turn is None. */
  ghost predicate ProperTurns(turns: seq<Turn>) {
    forall k :: 0 <= k < |turns| && turns[k].Some? ==> Proper(turns[k].value.path)
  }

  ghost predicate NobodyDeletes(turns: seq<Turn>) {
    forall k :: 0 <= k < |turns| && turns[k].Some? ==> !turns[k].value.Delete?
  }

  /** Before state `n` another client created `q`. */
  ghost predicate CreatedByOther(trees: seq<Tree>, turns: seq<Turn>, q: Path, n: nat)
    requires |trees| == |turns| + 1 && n <= |turns|
  {
    exists k :: 0 <= k < n && turns[k].Some? && turns[k].value.Create? && turns[k].value.path == q
                && q !in trees[k] && q in trees[k + 1]
  }

  lemma OnlyCreateAdds(t: Tree, call: Call, q: Path)
    requires q !in t && q in Perform(t, call)
    ensures call.Create? && call.path == q
  {
  }

  lemma PerformKeepsForm(t: Tree, call: Call)
    requires WellFormed(t) && Proper(call.path)
    ensures WellFormed(Perform(t, call))
  {
    match call
    case Create(p, data) => CreateKeepsForm(t, p, data);
    case Set(p, data, version) => SetKeepsForm(t, p, data, version);
    case Delete(p, version) => DeleteKeepsForm(t, p, version);
  }

  // ---------------------------------------------------------------- deleteItem

  datatype RemoverPc = ToVariants | Removing(left: seq<string>) | Removed(failure: Option<Error>)

  /** A running deleteItem: it lists the variants, deletes them in turn, and then the item. */
  datatype Remover = Remover(item: Path, version: int, pc: RemoverPc)

  function NextTarget(r: Remover): Path
    requires r.pc.Removing?
  {
    if r.pc.left == [] then r.item else r.item + [r.pc.left[0]]
  }

  function NextVersion(r: Remover): int
    requires r.pc.Removing?
  {
    if r.pc.left == [] then r.version else -1
  }

  function AfterDelete(r: Remover, failure: Option<ZkError>): RemoverPc
    requires r.pc.Removing?
  {
    if r.pc.left != [] && (failure == None || failure == Some(NoNode)) then Removing(r.pc.left[1..])
    else Removed(Reported(failure))
  }

  ghost predicate RemoverStep(r: Remover, t: Tree, r': Remover, t': Tree) {
    match r.pc
    case ToVariants =>
      && t' == t
      && if r.item !in t then r' == r.(pc := Removed(None))
         else r'.pc.Removing? && r' == r.(pc := r'.pc) && Listing(r'.pc.left, ChildrenOf(t, r.item))
    case Removing(_) =>
      var e := DeleteNode(t, NextTarget(r), NextVersion(r));
      t' == e.tree && r' == r.(pc := AfterDelete(r, e.failure))
    case Removed(_) => false
  }

  ghost predicate RemoverMove(r: Remover, t: Tree, turn: Turn, r': Remover, t': Tree) {
    match turn
    case None => RemoverStep(r, t, r', t')
    case Some(call) => r' == r && t' == Perform(t, call)
  }

  ghost predicate RemoverRun(rs: seq<Remover>, trees: seq<Tree>, turns: seq<Turn>) {
    && |rs| == |trees| == |turns| + 1
    && forall k :: 0 <= k < |turns| ==> RemoverMove(rs[k], trees[k], turns[k], rs[k + 1], trees[k + 1])
  }

  /** The variants have just been listed. */
  ghost predicate JustListed(r: Remover, t: Tree) {
    r.pc.Removing? && r.item != [] && Listing(r.pc.left, ChildrenOf(t, r.item))
  }

  lemma {:induction false} ThereAllAlong(rs: seq<Remover>, trees: seq<Tree>, turns: seq<Turn>, q: Path, n: nat)
    requires RemoverRun(rs, trees, turns) && n <= |turns| && q in trees[n] && !CreatedByOther(trees, turns, q, n)
    ensures forall k :: 0 <= k <= n ==> q in trees[k]
  {
    if n > 0 {
      assert RemoverMove(rs[n - 1], trees[n - 1], turns[n - 1], rs[n - 1 + 1], trees[n - 1 + 1]);
      if q !in trees[n - 1] {
        OnlyCreateAdds(trees[n - 1], turns[n - 1].value, q);
      }
      ThereAllAlong(rs, trees, turns, q, n - 1);
    }
  }

  /** What is no longer left to delete was absent at some point. */
  lemma {:induction false} DeletedSoFar(rs: seq<Remover>, trees: seq<Tree>, turns: seq<Turn>, n: nat)
    requires RemoverRun(rs, trees, turns) && n <= |turns| && rs[0].pc.Removing? && rs[n].pc.Removing?
    ensures rs[n] == rs[0].(pc := rs[n].pc)
    ensures forall v :: v in rs[n].pc.left ==> v in rs[0].pc.left
    ensures forall v :: v in rs[0].pc.left && v !in rs[n].pc.left ==>
              exists k :: 0 <= k <= n && rs[0].item + [v] !in trees[k]
  {
    if n > 0 {
      var r, t := rs[n - 1], trees[n - 1];
      assert RemoverMove(r, t, turns[n - 1], rs[n - 1 + 1], trees[n - 1 + 1]);
      NeverBack(rs, trees, turns, n - 1);
      DeletedSoFar(rs, trees, turns, n - 1);
      if turns[n - 1].None? {
        hide DeleteNode;
        var gone := r.pc.left[0];
        GoneAfterDelete(t, r.item + [gone]);
        forall v | v in rs[0].pc.left && v !in rs[n].pc.left
          ensures exists k :: 0 <= k <= n && rs[0].item + [v] !in trees[k]
        {
          if v in r.pc.left {
            assert v == gone && rs[0].item + [v] !in trees[n];
          }
        }
      }
    }
  }

  lemma {:induction false} NeverBack(rs: seq<Remover>, trees: seq<Tree>, turns: seq<Turn>, n: nat)
    requires RemoverRun(rs, trees, turns) && n <= |turns| && rs[0].pc.Removing?
    ensures rs[n].pc != ToVariants
  {
    if n > 0 {
      NeverBack(rs, trees, turns, n - 1);
      assert RemoverMove(rs[n - 1], trees[n - 1], turns[n - 1], rs[n - 1 + 1], trees[n - 1 + 1]);
    }
  }

  lemma GoneAfterDelete(t: Tree, q: Path)
    requires DeleteNode(t, q, -1).failure == None || DeleteNode(t, q, -1).failure == Some(NoNode)
    ensures q !in DeleteNode(t, q, -1).tree
  {
  }

  /**
   An interleaved deleteItem is refused as not empty if and only if, at a delete whose version fits,
   the node has a child that another client created since the variants were listed, or that lay below
   a variant already then.
   */
  lemma NotEmptyIff(rs: seq<Remover>, trees: seq<Tree>, turns: seq<Turn>, n: nat)
    requires RemoverRun(rs, trees, turns) && JustListed(rs[0], trees[0])
    requires n < |turns| && turns[n].None? && rs[n].pc.Removing?
    ensures var p := NextTarget(rs[n]);
            rs[n + 1].pc == Removed(Some(Zk(NotEmpty))) <==>
            && p in trees[n] && Accepts(trees[n][p], NextVersion(rs[n]))
            && exists v :: p + [v] in trees[n] &&
                 (CreatedByOther(trees, turns, p + [v], n) || (rs[n].pc.left != [] && p + [v] in trees[0]))
  {
    var r, t, p := rs[n], trees[n], NextTarget(rs[n]);
    DeletedSoFar(rs, trees, turns, n);
    assert RemoverMove(r, t, turns[n], rs[n + 1], trees[n + 1]);
    RefusedIff(r, t);
    hide DeleteNode;
    hide ChildrenOf;
    hide CreatedByOther;
    if ChildrenOf(t, p) != {} {
      var v :| v in ChildrenOf(t, p);
      ChildIn(t, p, v);
      if r.pc.left == [] {
        MissingBefore(rs, trees, turns, n, v);
      }
      if !CreatedByOther(trees, turns, p + [v], n) {
        ThereAllAlong(rs, trees, turns, p + [v], n);
      }
    }
    if v :| p + [v] in t &&
            (CreatedByOther(trees, turns, p + [v], n) || (r.pc.left != [] && p + [v] in trees[0])) {
      ChildIn(t, p, v);
    }
  }

  /** When the variants are done, no child of the item was there all the time since the listing. */
  lemma MissingBefore(rs: seq<Remover>, trees: seq<Tree>, turns: seq<Turn>, n: nat, v: string)
    requires RemoverRun(rs, trees, turns) && JustListed(rs[0], trees[0]) && n <= |turns| && rs[n].pc == Removing([])
    ensures exists k :: 0 <= k <= n && rs[n].item + [v] !in trees[k]
  {
    hide ChildrenOf;
    DeletedSoFar(rs, trees, turns, n);
    ChildIn(trees[0], rs[n].item, v);
    if v !in rs[0].pc.left {
      assert rs[n].item + [v] !in trees[0];
    }
  }

  lemma RefusedIff(r: Remover, t: Tree)
    requires r.pc.Removing? && r.item != []
    ensures var p := NextTarget(r);
            AfterDelete(r, DeleteNode(t, p, NextVersion(r)).failure) == Removed(Some(Zk(NotEmpty))) <==>
            p in t && Accepts(t[p], NextVersion(r)) && ChildrenOf(t, p) != {}
  {
  }

  /**
   How an own call of deleteItem can end it, whatever others did before: with success only if the item is gone,
   and else with a version that does not fit the item or with a node that has children.
   */
  lemma RemovedMeansGone(r: Remover, t: Tree, r': Remover, t': Tree)
    requires r.item != [] && RemoverStep(r, t, r', t') && r'.pc.Removed?
    ensures r'.pc.failure == None ==> r.item !in t' && (r.item in t ==> r.pc == Removing([]))
    ensures r'.pc.failure == Some(VersionConflict) <==>
              r.pc == Removing([]) && r.item in t && r.version != -1 && t[r.item].version != r.version
    ensures r'.pc.failure.Some? ==> t' == t && r'.pc.failure.value in {VersionConflict, Zk(NotEmpty)}
  {
  }

  /** With nobody else around, the calls of deleteItem add up to the closed form class Store is proved to meet. */
  lemma {:induction false} RemovesAlone(rs: seq<Remover>, trees: seq<Tree>, turns: seq<Turn>, n: nat)
    requires RemoverRun(rs, trees, turns) && n <= |turns| && (forall k :: 0 <= k < |turns| ==> turns[k].None?)
    requires rs[n].pc.Removing? && rs[|turns|].pc.Removed?
    ensures DeleteItemAt(trees[n], rs[n].item, rs[n].version, rs[n].pc.left)
         == Deleted(trees[|turns|], rs[|turns|].pc.failure)
    decreases |turns| - n
  {
    assert RemoverMove(rs[n], trees[n], turns[n], rs[n + 1], trees[n + 1]);
    if rs[n + 1].pc.Removing? {
      RemovesAlone(rs, trees, turns, n + 1);
    } else {
      RemovedAtEnd(rs, trees, turns, n + 1);
    }
  }

  /** And so from the very first call: the variants it deletes are a listing of those there were. */
  lemma DeletesAlone(rs: seq<Remover>, trees: seq<Tree>, turns: seq<Turn>)
    requires RemoverRun(rs, trees, turns) && (forall k :: 0 <= k < |turns| ==> turns[k].None?)
    requires rs[0].pc == ToVariants && rs[|turns|].pc.Removed?
    ensures var item, end := rs[0].item, Deleted(trees[|turns|], rs[|turns|].pc.failure);
            if item !in trees[0] then end == Deleted(trees[0], None)
            else exists children :: Listing(children, ChildrenOf(trees[0], item))
                                    && end == DeleteItemAt(trees[0], item, rs[0].version, children)
  {
    hide DeleteItemAt;
    hide ChildrenOf;
    hide Listing;
    assert RemoverMove(rs[0], trees[0], turns[0], rs[0 + 1], trees[0 + 1]);
    RemovedAtEnd(rs, trees, turns, 1);
    if rs[0].item in trees[0] {
      RemovesAlone(rs, trees, turns, 1);
    }
  }

  lemma RemovedAtEnd(rs: seq<Remover>, trees: seq<Tree>, turns: seq<Turn>, n: nat)
    requires RemoverRun(rs, trees, turns) && n <= |turns| && (forall k :: 0 <= k < |turns| ==> turns[k].None?)
    ensures rs[n].pc.Removed? ==> n == |turns|
  {
    assert n < |turns| ==> RemoverMove(rs[n], trees[n], turns[n], rs[n + 1], trees[n + 1]);
  }

  /** Undisturbed, the variants go one by one, and the item stays as it is. */
  lemma {:induction false} RemovesVariants(r: Remover, t: Tree)
    returns (rs: seq<Remover>, trees: seq<Tree>, turns: seq<Turn>)
    requires r.pc.Removing? && NoDuplicates(r.pc.left) && r.item in t
    requires forall v :: v in r.pc.left ==> r.item + [v] in t && ChildrenOf(t, r.item + [v]) == {}
    ensures RemoverRun(rs, trees, turns) && rs[0] == r && trees[0] == t
    ensures rs[|turns|] == r.(pc := Removing([])) && forall k :: 0 <= k < |turns| ==> turns[k].None?
    ensures r.item in trees[|turns|] && trees[|turns|][r.item] == t[r.item] && trees[|turns|].Keys <= t.Keys
    ensures forall v :: v in r.pc.left ==> r.item + [v] !in trees[|turns|]
    decreases |r.pc.left|
  {
    if r.pc.left == [] {
      rs, trees, turns := [r], [t], [];
    } else {
      var gone, rest := r.item + [r.pc.left[0]], r.pc.left[1..];
      var r', t' := r.(pc := Removing(rest)), t - {gone};
      assert DeleteNode(t, gone, -1) == Effect(t', None);
      forall v | v in rest ensures r.item + [v] in t' && ChildrenOf(t', r.item + [v]) == {} {
        assert (r.item + [v])[|r.item|] == v && gone[|r.item|] == r.pc.left[0];
        SameChildren(t, gone, r.item + [v]);
      }
      assert RemoverMove(r, t, None, r', t');
      hide DeleteNode;
      hide ChildrenOf;
      var rs', trees', turns' := RemovesVariants(r', t');
      rs, trees, turns := [r] + rs', [t] + trees', [None] + turns';
      LongerRun(r, t, None, rs', trees', turns');
      assert rs[|turns|] == rs'[|turns'|] && trees[|turns|] == trees'[|turns'|];
      assert gone !in trees[|turns|];
    }
  }

  lemma LongerRun(r: Remover, t: Tree, turn: Turn, rs: seq<Remover>, trees: seq<Tree>, turns: seq<Turn>)
    requires RemoverRun(rs, trees, turns) && RemoverMove(r, t, turn, rs[0], trees[0])
    ensures RemoverRun([r] + rs, [t] + trees, [turn] + turns)
  {
    hide RemoverMove;
    var rs', trees', turns' := [r] + rs, [t] + trees, [turn] + turns;
    forall k | 0 <= k < |turns'| ensures RemoverMove(rs'[k], trees'[k], turns'[k], rs'[k + 1], trees'[k + 1]) {
      if k > 0 {
        assert RemoverMove(rs[k - 1], trees[k - 1], turns[k - 1], rs[k - 1 + 1], trees[k - 1 + 1]);
      }
    }
  }

  lemma RunAndMove(rs: seq<Remover>, trees: seq<Tree>, turns: seq<Turn>, turn: Turn, r: Remover, t: Tree)
    requires RemoverRun(rs, trees, turns) && RemoverMove(rs[|turns|], trees[|turns|], turn, r, t)
    ensures RemoverRun(rs + [r], trees + [t], turns + [turn])
  {
    hide RemoverMove;
    var rs', trees', turns' := rs + [r], trees + [t], turns + [turn];
    forall k | 0 <= k < |turns'| ensures RemoverMove(rs'[k], trees'[k], turns'[k], rs'[k + 1], trees'[k + 1]) {
      if k < |turns| {
        assert RemoverMove(rs[k], trees[k], turns[k], rs[k + 1], trees[k + 1]);
      }
    }
  }

  /**
   Wherever an item could be deleted, one variant stored in time by another client makes deleteItem fail:
   it lists and deletes the variants, the other client creates one, and the item is no longer empty.
   */
  lemma DeleteRace(cfg: Config, t: Tree, ident: Ident, v: string, data: Bytes)
    returns (rs: seq<Remover>, trees: seq<Tree>, turns: seq<Turn>)
    requires ValidConfig(cfg) && WellFormed(t) && Resolve(cfg, ident).Ok? && ident.variant == ""
    requires Resolve(cfg, ident).value in t && !Blocked(t, Resolve(cfg, ident).value)
    requires Accepts(t[Resolve(cfg, ident).value], ident.ActualVersion())
    ensures RemoverRun(rs, trees, turns) && trees[0] == t
    ensures rs[0] == Remover(Resolve(cfg, ident).value, ident.ActualVersion(), ToVariants)
    ensures forall k :: 0 <= k < |turns| && turns[k].Some? ==>
              turns[k].value == Create(Resolve(cfg, ident).value + [v], data)
    ensures rs[|turns|].pc == Removed(Some(Zk(NotEmpty)))
  {
    ResolvedIsProper(cfg, ident);
    var p := Resolve(cfg, ident).value;
    hide *;
    rs, trees, turns := RemovesAllListed(t, p, ident.ActualVersion());
    rs, trees, turns := ThenAnother(rs, trees, turns, v, data);
  }

  lemma RemovesAllListed(t: Tree, p: Path, version: int) returns (rs: seq<Remover>, trees: seq<Tree>, turns: seq<Turn>)
    requires p != [] && p in t && !Blocked(t, p)
    ensures RemoverRun(rs, trees, turns) && trees[0] == t && rs[0] == Remover(p, version, ToVariants)
    ensures rs[|turns|] == Remover(p, version, Removing([])) && forall k :: 0 <= k < |turns| ==> turns[k].None?
    ensures p in trees[|turns|] && trees[|turns|][p] == t[p] && forall v :: p + [v] !in trees[|turns|]
  {
    var children := ListingExists(ChildrenOf(t, p));
    var start := Remover(p, version, ToVariants);
    var listed := start.(pc := Removing(children));
    ListedAreChildren(t, p, children);
    assert RemoverMove(start, t, None, listed, t);
    var rs0, trees0, turns0 := RemovesVariants(listed, t);
    LongerRun(start, t, None, rs0, trees0, turns0);
    rs, trees, turns := [start] + rs0, [t] + trees0, [None] + turns0;
    forall v ensures p + [v] !in trees0[|turns0|] {
      ChildIn(t, p, v);
    }
  }

  /** When the variants are gone another client creates one, and then the item is not empty. */
  lemma ThenAnother(rs: seq<Remover>, trees: seq<Tree>, turns: seq<Turn>, v: string, data: Bytes)
    returns (rs': seq<Remover>, trees': seq<Tree>, turns': seq<Turn>)
    requires RemoverRun(rs, trees, turns) && rs[|turns|].pc == Removing([]) && rs[|turns|].item != []
    requires var r, t := rs[|turns|], trees[|turns|];
             r.item in t && r.item + [v] !in t && Accepts(t[r.item], r.version)
    ensures RemoverRun(rs', trees', turns') && rs'[0] == rs[0] && trees'[0] == trees[0]
    ensures turns' == turns + [Some(Create(rs[|turns|].item + [v], data)), None]
    ensures rs'[|turns'|].pc == Removed(Some(Zk(NotEmpty)))
  {
    var r, t := rs[|turns|], trees[|turns|];
    var call := Create(r.item + [v], data);
    var t' := Perform(t, call);
    var over := r.(pc := Removed(Some(Zk(NotEmpty))));
    LastChild(t, r.item, v, data, r.version);
    assert RemoverMove(r, t, Some(call), r, t');
    assert RemoverMove(r, t', None, over, t');
    hide RemoverMove;
    RunAndMove(rs, trees, turns, Some(call), r, t');
    RunAndMove(rs + [r], trees + [t'], turns + [Some(call)], None, over, t');
    rs', trees', turns' := rs + [r] + [over], trees + [t'] + [t'], turns + [Some(call)] + [None];
  }

  lemma LastChild(t: Tree, p: Path, v: string, data: Bytes, version: int)
    requires p != [] && p in t && p + [v] !in t && Accepts(t[p], version)
    ensures var t' := Perform(t, Create(p + [v], data)); DeleteNode(t', p, version) == Effect(t', Some(NotEmpty))
  {
    var t' := Perform(t, Create(p + [v], data));
    assert (p + [v])[..|p|] == p;
    assert t' == t[p + [v] := Znode(data, 0)];
    ChildIn(t', p, v);
  }

  // ---------------------------------------------------------------- List

  datatype ListerPc = ToBuckets | Reading(left: seq<string>, names: seq<string>) | Listed(result: Result<seq<string>>)

  /** A running List of the buckets below `root`: it lists the buckets and then each bucket in turn. */
  datatype Lister = Lister(root: Path, pc: ListerPc)

  function Onward(left: seq<string>, names: seq<string>): ListerPc {
    if left == [] then Listed(Ok(names)) else Reading(left, names)
  }

  /** `found` is what listing a bucket yields: its children, or nothing if it has vanished. */
  ghost predicate Found(t: Tree, bucket: Path, found: seq<string>) {
    if bucket in t then Listing(found, ChildrenOf(t, bucket)) else found == []
  }

  ghost predicate ListerStep(l: Lister, t: Tree, l': Lister) {
    match l.pc
    case ToBuckets =>
      if l.root !in t then l' == l.(pc := Listed(Err(NotFound)))
      else exists buckets :: Listing(buckets, ChildrenOf(t, l.root)) && l' == l.(pc := Onward(buckets, []))
    case Reading(left, names) =>
      && left != []
      && exists found :: Found(t, l.root + [left[0]], found) && l' == l.(pc := Onward(left[1..], names + found))
    case Listed(_) => false
  }

  ghost predicate ListerMove(l: Lister, t: Tree, turn: Turn, l': Lister, t': Tree) {
    match turn
    case None => ListerStep(l, t, l') && t' == t
    case Some(call) => l' == l && t' == Perform(t, call)
  }

  ghost predicate ListerRun(ls: seq<Lister>, trees: seq<Tree>, turns: seq<Turn>) {
    && |ls| == |trees| == |turns| + 1
    && forall k :: 0 <= k < |turns| ==> ListerMove(ls[k], trees[k], turns[k], ls[k + 1], trees[k + 1])
  }

  /** What List has found so far. */
  function NamesSoFar(l: Lister): seq<string> {
    match l.pc
    case Reading(_, names) => names
    case Listed(Ok(names)) => names
    case _ => []
  }

  /** The node was there in some state up to `n`. */
  ghost predicate SeenBy(trees: seq<Tree>, q: Path, n: nat)
    requires n < |trees|
  {
    exists k :: 0 <= k <= n && q in trees[k]
  }

  ghost predicate HeldThrough(trees: seq<Tree>, q: Path, n: nat)
    requires n < |trees|
  {
    forall k :: 0 <= k <= n ==> q in trees[k]
  }

  lemma {:induction false} ListFormThroughout(ls: seq<Lister>, trees: seq<Tree>, turns: seq<Turn>, n: nat)
    requires ListerRun(ls, trees, turns) && ProperTurns(turns) && WellFormed(trees[0]) && n <= |turns|
    ensures WellFormed(trees[n]) && ls[n].root == ls[0].root
  {
    if n > 0 {
      ListFormThroughout(ls, trees, turns, n - 1);
      hide WellFormed;
      assert ListerMove(ls[n - 1], trees[n - 1], turns[n - 1], ls[n - 1 + 1], trees[n - 1 + 1]);
      if turns[n - 1].Some? {
        PerformKeepsForm(trees[n - 1], turns[n - 1].value);
      }
    }
  }

  /** Whatever List returns had a node in some bucket at some moment of the call. */
  lemma {:induction false} ListedWasThere(ls: seq<Lister>, trees: seq<Tree>, turns: seq<Turn>, n: nat, name: string)
    requires ListerRun(ls, trees, turns) && ls[0].pc == ToBuckets && n <= |turns|
    requires name in NamesSoFar(ls[n])
    ensures exists bucket :: SeenBy(trees, ls[0].root + [bucket, name], n)
    ensures ls[n].root == ls[0].root
  {
    hide ChildrenOf;
    assert n > 0;
    var l, t := ls[n - 1], trees[n - 1];
    RootStays(ls, trees, turns, n - 1);
    assert ListerMove(l, t, turns[n - 1], ls[n - 1 + 1], trees[n - 1 + 1]);
    if name in NamesSoFar(l) {
      ListedWasThere(ls, trees, turns, n - 1, name);
      var bucket :| SeenBy(trees, ls[0].root + [bucket, name], n - 1);
      assert SeenBy(trees, ls[0].root + [bucket, name], n);
    } else {
      var bucket := l.pc.left[0];
      ChildIn(t, l.root + [bucket], name);
      assert l.root + [bucket] + [name] == ls[0].root + [bucket, name];
      assert SeenBy(trees, ls[0].root + [bucket, name], n);
    }
  }

  lemma {:induction false} RootStays(ls: seq<Lister>, trees: seq<Tree>, turns: seq<Turn>, n: nat)
    requires ListerRun(ls, trees, turns) && n <= |turns|
    ensures ls[n].root == ls[0].root
  {
    if n > 0 {
      RootStays(ls, trees, turns, n - 1);
      assert ListerMove(ls[n - 1], trees[n - 1], turns[n - 1], ls[n - 1 + 1], trees[n - 1 + 1]);
    }
  }

  /** A node that is there from beginning to end is not missed: its bucket is still to be read, or it was found. */
  ghost predicate Underway(l: Lister, bucket: string, name: string) {
    match l.pc
    case ToBuckets => true
    case Reading(left, names) => bucket in left || name in names
    case Listed(Ok(names)) => name in names
    case Listed(Err(_)) => false
  }

  lemma {:induction false} LastingIsListed(ls: seq<Lister>, trees: seq<Tree>, turns: seq<Turn>, n: nat,
                                           bucket: string, name: string)
    requires ListerRun(ls, trees, turns) && ProperTurns(turns) && WellFormed(trees[0])
    requires ls[0].pc == ToBuckets && n <= |turns| && HeldThrough(trees, ls[0].root + [bucket, name], n)
    ensures Underway(ls[n], bucket, name)
  {
    if n > 0 {
      LastingIsListed(ls, trees, turns, n - 1, bucket, name);
      var l, t := ls[n - 1], trees[n - 1];
      ListFormThroughout(ls, trees, turns, n - 1);
      assert ListerMove(l, t, turns[n - 1], ls[n - 1 + 1], trees[n - 1 + 1]);
      BucketIsThere(t, l.root, bucket, name);
    }
  }

  lemma BucketIsThere(t: Tree, root: Path, bucket: string, name: string)
    requires WellFormed(t) && root + [bucket, name] in t
    ensures root in t && root + [bucket] in t
    ensures bucket in ChildrenOf(t, root) && name in ChildrenOf(t, root + [bucket])
  {
    hide Proper;
    hide ChildrenOf;
    var q := root + [bucket, name];
    AncestorsExist(t, q, |root|);
    AncestorsExist(t, q, |root| + 1);
    assert q[..|root|] == root && q[..|root| + 1] == root + [bucket] && q == root + [bucket] + [name];
    ChildIn(t, root, bucket);
    ChildIn(t, root + [bucket], name);
  }

  /** No name ever sits in two buckets, be it at different moments. */
  ghost predicate OneBucketEach(trees: seq<Tree>, root: Path) {
    forall j, k, b, c, name ::
      (0 <= j < |trees| && 0 <= k < |trees| && root + [b, name] in trees[j] && root + [c, name] in trees[k]) ==> b == c
  }

  /** So it is wherever the trees hold only what the store puts there, on categories that are apart. */
  lemma LayoutsGiveOneBucket(cfg: Config, u: iset<Path>, trees: seq<Tree>, category: Path)
    requires category in u && forall k :: 0 <= k < |trees| ==> Layout(cfg, u, trees[k])
    ensures OneBucketEach(trees, CategoryPath(cfg, category))
  {
    hide Layout;
    hide KeyPath;
    hide CategoryPath;
    var root := CategoryPath(cfg, category);
    forall j, k, b, c, name | 0 <= j < |trees| && 0 <= k < |trees| && root + [b, name] in trees[j]
                              && root + [c, name] in trees[k]
      ensures b == c
    {
      BelowBuckets(cfg, u, trees[j], category, b, name);
      BelowBuckets(cfg, u, trees[k], category, c, name);
    }
  }

  /** What List has found so far sat in buckets it is done with. */
  ghost predicate FoundInDone(l: Lister, trees: seq<Tree>) {
    && NoDuplicates(NamesSoFar(l))
    && (l.pc.Reading? ==>
          && NoDuplicates(l.pc.left)
          && forall name :: name in l.pc.names ==>
               exists b, k :: b !in l.pc.left && 0 <= k < |trees| && l.root + [b, name] in trees[k])
  }

  lemma {:induction false} NeverTwice(ls: seq<Lister>, trees: seq<Tree>, turns: seq<Turn>, n: nat)
    requires ListerRun(ls, trees, turns) && ls[0].pc == ToBuckets && n <= |turns|
    requires OneBucketEach(trees, ls[0].root)
    ensures FoundInDone(ls[n], trees)
  {
    hide OneBucketEach;
    hide ChildrenOf;
    if n > 0 {
      NeverTwice(ls, trees, turns, n - 1);
      RootStays(ls, trees, turns, n - 1);
      var l, t := ls[n - 1], trees[n - 1];
      assert ListerMove(l, t, turns[n - 1], ls[n - 1 + 1], trees[n - 1 + 1]);
      if turns[n - 1].None? && l.pc.Reading? {
        var found :| Found(t, l.root + [l.pc.left[0]], found)
          && ls[n] == l.(pc := Onward(l.pc.left[1..], l.pc.names + found));
        AnotherBucket(l, trees, n - 1, found);
      }
    }
  }

  /** Reading one more bucket adds names that were not there before. */
  lemma AnotherBucket(l: Lister, trees: seq<Tree>, n: nat, found: seq<string>)
    requires n < |trees| && l.pc.Reading? && l.pc.left != [] && FoundInDone(l, trees) && OneBucketEach(trees, l.root)
    requires Found(trees[n], l.root + [l.pc.left[0]], found)
    ensures FoundInDone(l.(pc := Onward(l.pc.left[1..], l.pc.names + found)), trees)
  {
    hide OneBucketEach;
    hide ChildrenOf;
    var bucket, rest := l.pc.left[0], l.pc.left[1..];
    forall name | name in found ensures l.root + [bucket, name] in trees[n] {
      ChildIn(trees[n], l.root + [bucket], name);
      assert l.root + [bucket] + [name] == l.root + [bucket, name];
    }
    forall name | name in l.pc.names ensures name !in found {
      var b, k :| b !in l.pc.left && 0 <= k < |trees| && l.root + [b, name] in trees[k];
      if name in found {
        SameBucket(trees, l.root, b, k, bucket, n, name);
      }
    }
    AppendDuplicates(l.pc.names, found);
    assert bucket !in rest;
    forall name | name in l.pc.names + found
      ensures exists b, k :: b !in rest && 0 <= k < |trees| && l.root + [b, name] in trees[k]
    {
      if name in found {
        assert bucket !in rest && l.root + [bucket, name] in trees[n];
      }
    }
  }

  lemma SameBucket(trees: seq<Tree>, root: Path, b: string, j: nat, c: string, k: nat, name: string)
    requires OneBucketEach(trees, root) && j < |trees| && k < |trees|
    requires root + [b, name] in trees[j] && root + [c, name] in trees[k]
    ensures b == c
  {
  }

  /**
   List among other clients: every name it returns was there at some moment of the call, every name
   that was there all along is returned, no name comes twice if none ever sits in two buckets, and
   the category is reported missing only if it once was.
   */
  lemma ListAmongOthers(ls: seq<Lister>, trees: seq<Tree>, turns: seq<Turn>)
    requires ListerRun(ls, trees, turns) && ProperTurns(turns) && WellFormed(trees[0])
    requires ls[0].pc == ToBuckets && ls[|turns|].pc.Listed?
    ensures match ls[|turns|].pc.result
            case Ok(names) =>
              && (forall name :: name in names ==>
                    exists bucket :: SeenBy(trees, ls[0].root + [bucket, name], |turns|))
              && (forall bucket, name :: HeldThrough(trees, ls[0].root + [bucket, name], |turns|) ==> name in names)
              && (OneBucketEach(trees, ls[0].root) ==> NoDuplicates(names))
            case Err(e) => e == NotFound && exists k :: 0 <= k <= |turns| && ls[0].root !in trees[k]
  {
    var n := |turns|;
    match ls[n].pc.result
    case Ok(names) =>
      forall name | name in names ensures exists bucket :: SeenBy(trees, ls[0].root + [bucket, name], n) {
        ListedWasThere(ls, trees, turns, n, name);
      }
      forall bucket, name | HeldThrough(trees, ls[0].root + [bucket, name], n) ensures name in names {
        LastingIsListed(ls, trees, turns, n, bucket, name);
      }
      if OneBucketEach(trees, ls[0].root) {
        NeverTwice(ls, trees, turns, n);
      }
    case Err(_) => MissingOnce(ls, trees, turns, n);
  }

  lemma {:induction false} MissingOnce(ls: seq<Lister>, trees: seq<Tree>, turns: seq<Turn>, n: nat)
    requires ListerRun(ls, trees, turns) && ls[0].pc == ToBuckets && n <= |turns|
    requires ls[n].pc.Listed? && ls[n].pc.result.Err?
    ensures ls[n].pc.result == Err(NotFound) && exists k :: 0 <= k <= |turns| && ls[0].root !in trees[k]
  {
    assert n > 0;
    RootStays(ls, trees, turns, n - 1);
    assert ListerMove(ls[n - 1], trees[n - 1], turns[n - 1], ls[n - 1 + 1], trees[n - 1 + 1]);
    if turns[n - 1].Some? {
      MissingOnce(ls, trees, turns, n - 1);
    } else {
      assert ls[0].root !in trees[n - 1];
    }
  }

  /** With nobody else around, List returns what the closed form says. */
  lemma {:induction false} ReadsAlone(ls: seq<Lister>, trees: seq<Tree>, turns: seq<Turn>, n: nat)
    returns (lists: seq<seq<string>>)
    requires ListerRun(ls, trees, turns) && n <= |turns| && (forall k :: 0 <= k < |turns| ==> turns[k].None?)
    requires ls[n].pc.Reading? && ls[|turns|].pc.Listed?
    requires forall b :: b in ls[n].pc.left ==> ls[n].root + [b] in trees[n]
    ensures ListsOf(trees[n], ls[n].root, ls[n].pc.left, lists)
    ensures ls[|turns|].pc.result == Ok(ls[n].pc.names + Flatten(lists))
    decreases |turns| - n
  {
    hide ChildrenOf;
    hide Listing;
    var l := ls[n];
    assert ListerMove(l, trees[n], turns[n], ls[n + 1], trees[n + 1]);
    var found :| Found(trees[n], l.root + [l.pc.left[0]], found)
      && ls[n + 1] == l.(pc := Onward(l.pc.left[1..], l.pc.names + found));
    var rest: seq<seq<string>> := [];
    if ls[n + 1].pc.Reading? {
      rest := ReadsAlone(ls, trees, turns, n + 1);
    } else {
      ListedAtEnd(ls, trees, turns, n + 1);
      assert l.pc.names + found == l.pc.names + found + Flatten(rest);
    }
    assert ls[|turns|].pc.result == Ok(l.pc.names + found + Flatten(rest));
    lists := [found] + rest;
    assert lists[1..] == rest && Flatten(lists) == found + Flatten(rest);
    assert l.pc.names + found + Flatten(rest) == l.pc.names + Flatten(lists);
  }

  lemma ListedAtEnd(ls: seq<Lister>, trees: seq<Tree>, turns: seq<Turn>, n: nat)
    requires ListerRun(ls, trees, turns) && n <= |turns| && (forall k :: 0 <= k < |turns| ==> turns[k].None?)
    ensures ls[n].pc.Listed? ==> n == |turns|
  {
    assert n < |turns| ==> ListerMove(ls[n], trees[n], turns[n], ls[n + 1], trees[n + 1]);
  }

  /** So a List that nobody disturbs answers as the closed form of class Store's List says. */
  lemma ListsAlone(ls: seq<Lister>, trees: seq<Tree>, turns: seq<Turn>)
    requires ListerRun(ls, trees, turns) && ls[0].pc == ToBuckets && ls[|turns|].pc.Listed?
    requires forall k :: 0 <= k < |turns| ==> turns[k].None?
    ensures match ls[|turns|].pc.result
            case Err(e) => e == NotFound && ls[0].root !in trees[0]
            case Ok(names) => ls[0].root in trees[0] && NamesUnder(trees[0], ls[0].root, names)
  {
    hide Listing;
    var l, t := ls[0], trees[0];
    assert ListerMove(l, t, turns[0], ls[1], trees[1]);
    if l.root in t {
      var buckets :| Listing(buckets, ChildrenOf(t, l.root)) && ls[1] == l.(pc := Onward(buckets, []));
      var lists: seq<seq<string>> := [];
      if buckets == [] {
        ListedAtEnd(ls, trees, turns, 1);
      } else {
        ListedChildrenExist(t, l.root, buckets);
        lists := ReadsAlone(ls, trees, turns, 1);
      }
      assert [] + Flatten(lists) == Flatten(lists);
      assert ListsOf(t, l.root, buckets, lists);
    } else {
      ListedAtEnd(ls, trees, turns, 1);
    }
  }

  lemma ListedChildrenExist(t: Tree, root: Path, buckets: seq<string>)
    requires Listing(buckets, ChildrenOf(t, root))
    ensures forall b :: b in buckets ==> root + [b] in t
  {
    hide ChildrenOf;
    forall b | b in buckets ensures root + [b] in t {
      ChildIn(t, root, b);
    }
  }

  // ---------------------------------------------------------------- initialize

  datatype InitPc = ToLook | Checking(i: nat) | Creating(i: nat) | Ready(failure: Option<ZkError>)

  /** A running initialize: it looks for the base path and else goes down it, creating what is missing. */
  datatype Initializer = Initializer(base: Path, pc: InitPc)

  function Deeper(z: Initializer, i: nat): InitPc {
    if i >= |z.base| then Ready(None) else Checking(i + 1)
  }

  function InitStep(z: Initializer, t: Tree): (Initializer, Tree) {
    match z.pc
    case ToLook => (z.(pc := if z.base in t then Ready(None) else Checking(0)), t)
    case Checking(i) =>
      (z.(pc := if i <= |z.base| && z.base[..i] in t then Deeper(z, i) else Creating(i)), t)
    case Creating(i) =>
      var e := CreateNode(t, if i <= |z.base| then z.base[..i] else z.base, []);
      (z.(pc := if e.failure.None? then Deeper(z, i) else Ready(e.failure)), e.tree)
    case Ready(_) => (z, t)
  }

  ghost predicate InitMove(z: Initializer, t: Tree, turn: Turn, z': Initializer, t': Tree) {
    match turn
    case None => (z', t') == InitStep(z, t)
    case Some(call) => z' == z && t' == Perform(t, call)
  }

  ghost predicate InitRun(zs: seq<Initializer>, trees: seq<Tree>, turns: seq<Turn>) {
    && |zs| == |trees| == |turns| + 1
    && forall k :: 0 <= k < |turns| ==> InitMove(zs[k], trees[k], turns[k], zs[k + 1], trees[k + 1])
  }

  /** About to create a node that another client has meanwhile created. */
  ghost predicate Beaten(z: Initializer, t: Tree) {
    z.pc.Creating? && z.pc.i <= |z.base| && z.base[..z.pc.i] in t
  }

  /** Where an initialize stands: everything above is there; if it failed, it was beaten to a node. */
  ghost predicate InitSound(zs: seq<Initializer>, trees: seq<Tree>, n: nat)
    requires |zs| == |trees| && n < |zs|
  {
    var z, t := zs[n], trees[n];
    match z.pc
    case ToLook => true
    case Checking(i) => i <= |z.base| && HasPrefixes(t, z.base, i)
    case Creating(i) => i <= |z.base| && HasPrefixes(t, z.base, i)
    case Ready(None) => HasPrefixes(t, z.base, |z.base| + 1)
    case Ready(Some(e)) => e == NodeExists && exists k :: 0 <= k < n && Beaten(zs[k], trees[k])
  }

  lemma InitStepSound(z: Initializer, t: Tree)
    requires WellFormed(t)
    requires z.pc.Checking? || z.pc.Creating? ==> z.pc.i <= |z.base| && HasPrefixes(t, z.base, z.pc.i)
    ensures var (z', t') := InitStep(z, t);
            && z'.base == z.base && t.Keys <= t'.Keys
            && (z'.pc.Checking? || z'.pc.Creating? ==> z'.pc.i <= |z.base| && HasPrefixes(t', z.base, z'.pc.i))
            && (z'.pc == Ready(None) && z.pc != Ready(None) ==> HasPrefixes(t', z.base, |z.base| + 1))
            && (z'.pc.Ready? && z'.pc.failure.Some? && !z.pc.Ready? ==>
                  z'.pc.failure == Some(NodeExists) && Beaten(z, t))
            && (Beaten(z, t) ==> z'.pc == Ready(Some(NodeExists)))
  {
    match z.pc
    case ToLook =>
      if z.base in t {
        forall j | 0 <= j <= |z.base| ensures z.base[..j] in t {
          AncestorsExist(t, z.base, j);
        }
      }
    case Checking(i) =>
      assert z.base[..i] in t ==> HasPrefixes(t, z.base, i + 1);
    case Creating(i) =>
      if i > 0 {
        assert z.base[..i - 1] in t;
        assert z.base[..i][..i - 1] == z.base[..i - 1];
      } else {
        assert z.base[..0] == [];
      }
      assert InitStep(z, t).0.pc != Ready(Some(NodeExists)) ==> HasPrefixes(InitStep(z, t).1, z.base, i + 1);
    case _ =>
  }

  lemma {:induction false} InitSoundThroughout(zs: seq<Initializer>, trees: seq<Tree>, turns: seq<Turn>, n: nat)
    requires InitRun(zs, trees, turns) && ProperTurns(turns) && NobodyDeletes(turns) && n <= |turns|
    requires WellFormed(trees[0]) && Proper(zs[0].base) && zs[0].pc == ToLook
    ensures WellFormed(trees[n]) && zs[n].base == zs[0].base && InitSound(zs, trees, n)
  {
    if n > 0 {
      InitSoundThroughout(zs, trees, turns, n - 1);
      hide WellFormed;
      var z, t := zs[n - 1], trees[n - 1];
      assert InitMove(z, t, turns[n - 1], zs[n - 1 + 1], trees[n - 1 + 1]);
      match turns[n - 1]
      case None =>
        InitStepSound(z, t);
        InitKeepsForm(z, t);
        hide InitStep;
        StaysInLarger(t, trees[n], z.base);
      case Some(call) =>
        PerformKeepsForm(t, call);
        OthersOnlyAdd(t, call);
        StaysInLarger(t, trees[n], z.base);
    }
  }

  lemma OthersOnlyAdd(t: Tree, call: Call)
    requires !call.Delete?
    ensures t.Keys <= Perform(t, call).Keys
  {
  }

  lemma StaysInLarger(t: Tree, t': Tree, p: Path)
    requires t.Keys <= t'.Keys
    ensures forall n :: HasPrefixes(t, p, n) ==> HasPrefixes(t', p, n)
  {
  }

  lemma InitKeepsForm(z: Initializer, t: Tree)
    requires WellFormed(t) && Proper(z.base)
    ensures WellFormed(InitStep(z, t).1)
  {
    if z.pc.Creating? {
      CreateKeepsForm(t, if z.pc.i <= |z.base| then z.base[..z.pc.i] else z.base, []);
    }
  }

  /** Once beaten, an initialize that finishes has failed. */
  lemma {:induction false} BeatenFails(zs: seq<Initializer>, trees: seq<Tree>, turns: seq<Turn>, m: nat, n: nat)
    requires InitRun(zs, trees, turns) && ProperTurns(turns) && NobodyDeletes(turns) && m <= n <= |turns|
    requires WellFormed(trees[0]) && Proper(zs[0].base) && zs[0].pc == ToLook && Beaten(zs[m], trees[m])
    ensures Beaten(zs[n], trees[n]) || zs[n].pc == Ready(Some(NodeExists))
    decreases n
  {
    if m < n {
      BeatenFails(zs, trees, turns, m, n - 1);
      InitSoundThroughout(zs, trees, turns, n - 1);
      hide WellFormed;
      assert InitMove(zs[n - 1], trees[n - 1], turns[n - 1], zs[n - 1 + 1], trees[n - 1 + 1]);
      match turns[n - 1]
      case None =>
        if Beaten(zs[n - 1], trees[n - 1]) {
          InitStepSound(zs[n - 1], trees[n - 1]);
        }
      case Some(call) => OthersOnlyAdd(trees[n - 1], call);
    }
  }

  /**
   An initialize among other clients that do not delete fails if and only if somebody created one of
   its nodes between its check and its create, and then as existing; if it succeeds, the base path
   and all its ancestors exist.
   */
  lemma InitializeFailsIff(zs: seq<Initializer>, trees: seq<Tree>, turns: seq<Turn>)
    requires InitRun(zs, trees, turns) && ProperTurns(turns) && NobodyDeletes(turns)
    requires WellFormed(trees[0]) && Proper(zs[0].base) && zs[0].pc == ToLook && zs[|turns|].pc.Ready?
    ensures zs[|turns|].pc.failure.Some? <==> exists k :: 0 <= k < |turns| && Beaten(zs[k], trees[k])
    ensures zs[|turns|].pc.failure.Some? ==> zs[|turns|].pc.failure == Some(NodeExists)
    ensures zs[|turns|].pc.failure.None? ==> forall j :: 0 <= j <= |zs[0].base| ==> zs[0].base[..j] in trees[|turns|]
  {
    InitSoundThroughout(zs, trees, turns, |turns|);
    if k :| 0 <= k < |turns| && Beaten(zs[k], trees[k]) {
      BeatenFails(zs, trees, turns, k, |turns|);
    }
  }

  /** How far an undisturbed initialize has filled in the base path. */
  ghost predicate FilledSoFar(z: Initializer, t: Tree, t': Tree) {
    match z.pc
    case ToLook => t' == t
    case Checking(i) => i <= |z.base| && t' == Filled(t, z.base, false, [], if i == 0 then 0 else i - 1)
    case Creating(i) => 0 < i <= |z.base| && t' == Filled(t, z.base, false, [], i - 1) && z.base[..i] !in t'
    case Ready(failure) => failure == None && t' == Filled(t, z.base, false, [], |z.base|)
  }

  lemma FilledStep(z: Initializer, t: Tree, t': Tree)
    requires WellFormed(t) && FilledSoFar(z, t, t')
    ensures FilledSoFar(InitStep(z, t').0, t, InitStep(z, t').1)
  {
    hide Filled;
    hide WellFormed;
    FillNone(t, z.base, false, []);
    match z.pc
    case ToLook =>
      if z.base in t {
        AllThere(t, z.base);
      }
    case Checking(i) =>
      if i == 0 {
        RootExists(t);
        assert z.base[..0] == [];
      } else {
        FillNext(t, z.base, false, [], i - 1);
      }
    case Creating(i) =>
      FillNext(t, z.base, false, [], i - 1);
      assert z.base[..i][..i - 1] == z.base[..i - 1];
    case _ =>
  }

  lemma AllThere(t: Tree, p: Path)
    requires WellFormed(t) && p in t
    ensures Filled(t, p, false, [], |p|) == t
  {
    forall q | q in Prefixes(p, |p|) ensures q in t {
      PrefixIn(p, |p|, q);
      AncestorsExist(t, p, |q|);
    }
  }

  /** With nobody else around, the calls of initialize create exactly the missing nodes, and it succeeds. */
  lemma {:induction false} InitializesAlone(zs: seq<Initializer>, trees: seq<Tree>, turns: seq<Turn>, n: nat)
    requires InitRun(zs, trees, turns) && (forall k :: 0 <= k < |turns| ==> turns[k].None?) && n <= |turns|
    requires WellFormed(trees[0]) && zs[0].pc == ToLook
    ensures FilledSoFar(zs[n], trees[0], trees[n])
  {
    if n > 0 {
      InitializesAlone(zs, trees, turns, n - 1);
      assert InitMove(zs[n - 1], trees[n - 1], turns[n - 1], zs[n - 1 + 1], trees[n - 1 + 1]);
      hide FilledSoFar;
      hide InitStep;
      FilledStep(zs[n - 1], trees[0], trees[n - 1]);
    }
  }

  lemma {:induction false} FirstMissing(t: Tree, p: Path, n: nat) returns (i: nat)
    requires WellFormed(t) && n <= |p| && p[..n] !in t
    ensures 0 < i <= n && p[..i] !in t && forall j :: 0 <= j < i ==> p[..j] in t
  {
    hide WellFormed;
    RootExists(t);
    assert p[..0] == [];
    if p[..n - 1] in t {
      i := n;
      forall j | 0 <= j < n ensures p[..j] in t {
        AncestorsExist(t, p[..n - 1], j);
        assert p[..n - 1][..j] == p[..j];
      }
    } else {
      i := FirstMissing(t, p, n - 1);
    }
  }

  /**
   Wherever the base path is missing, one create of another client in time makes initialize fail: it
   looks and checks down to the first missing node, the other client creates that, and so it exists.
   */
  lemma InitializeRace(t: Tree, base: Path, data: Bytes)
    returns (zs: seq<Initializer>, trees: seq<Tree>, turns: seq<Turn>)
    requires WellFormed(t) && Proper(base) && base !in t
    ensures InitRun(zs, trees, turns) && ProperTurns(turns) && NobodyDeletes(turns)
    ensures trees[0] == t && zs[0] == Initializer(base, ToLook)
    ensures zs[|turns|].pc == Ready(Some(NodeExists))
  {
    assert base[..|base|] == base;
    var i := FirstMissing(t, base, |base|);
    hide WellFormed;
    var call := Create(base[..i], data);
    var t' := Perform(t, call);
    assert base[..i][..i - 1] == base[..i - 1];
    assert t' == t[base[..i] := Znode(data, 0)];
    var at := (pc: InitPc) => Initializer(base, pc);
    var checks := seq(i + 1, k requires 0 <= k => at(Checking(k)));
    zs := [at(ToLook)] + checks + [at(Creating(i)), at(Creating(i)), at(Ready(Some(NodeExists)))];
    trees := seq(i + 3, _ => t) + [t', t'];
    turns := seq(i + 2, _ => None) + [Some(call), None];
    forall k | 0 <= k < |turns| ensures InitMove(zs[k], trees[k], turns[k], zs[k + 1], trees[k + 1]) {
      if k == 0 {
        assert zs[1] == checks[0];
      } else if k <= i {
        assert zs[k] == checks[k - 1] && zs[k + 1] == checks[k];
      } else if k == i + 1 {
        assert zs[k] == checks[i];
      }
    }
    forall x | x in base[..i] ensures Good(x) {
      assert x in base;
    }
  }
}
