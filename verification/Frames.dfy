/** What a single operation leaves alone and what it undoes. */
module Frames {
  import opened Types
  import opened Paths
  import opened Idents
  import opened ZkTree
  import opened StorePaths
  import opened StoreSpec
  import opened Layouts
  import opened Deletions

  lemma FilledEntry(t: Tree, target: Path, hasVariant: bool, data: Bytes, n: nat, q: Path)
    requires n <= |target| && q in Filled(t, target, hasVariant, data, n)
    ensures q in t ==> Filled(t, target, hasVariant, data, n)[q] == t[q]
    ensures q !in t ==>
              && |q| <= n && q <= target
              && Filled(t, target, hasVariant, data, n)[q] == Znode(DataAt(target, hasVariant, data, |q|), 0)
  {
    FilledMembers(t, target, hasVariant, data, n, q);
  }

  lemma PutAtFrame(t: Tree, p: Path, ident: Ident, data: Bytes)
    requires p != []
    ensures var w := PutAt(t, p, ident, data);
            && (forall q :: q in t && q != p ==> q in w.tree && w.tree[q] == t[q])
            && (forall q :: q in w.tree && q !in t ==>
                  && q <= p
                  && w.tree[q] == Znode(DataAt(p, ident.variant != "", data, |q|), 0))
            && (w.result.Ok? ==> p in w.tree && w.tree[p] == Znode(data, w.result.value))
            && (w.result.Err? ==> (p in w.tree <==> p in t) && (p in t ==> w.tree == t))
  {
    var w, v := PutAt(t, p, ident, data), ident.variant != "";
    if p !in t {
      var n := if ident.ActualVersion() >= 0 then |p| - 1 else |p|;
      assert w.tree == Filled(t, p, v, data, n);
      FilledMembers(t, p, v, data, n, p);
      forall q | q in w.tree
        ensures q in t ==> w.tree[q] == t[q]
        ensures q !in t ==> q <= p && w.tree[q] == Znode(DataAt(p, v, data, |q|), 0)
      {
        FilledEntry(t, p, v, data, n, q);
      }
    }
  }

  /**
   A Put that ends in a version conflict keeps every node it found, does not create its target,
   and adds at most missing ancestors: empty, but for the item above a variant.
   */
  lemma FailedPutFrame(cfg: Config, t: Tree, item: Item)
    requires ValidConfig(cfg) && ValidateItem(item).None? && Resolve(cfg, item.ident).Ok?
    requires PutStep(cfg, t, item).1 == Err(VersionConflict)
    ensures var p, t' := Resolve(cfg, item.ident).value, PutStep(cfg, t, item).0;
            && (forall q :: q in t ==> q in t' && t'[q] == t[q])
            && (p in t' <==> p in t)
            && (forall q :: q in t' && q !in t ==>
                  && q <= p && |q| < |p|
                  && t'[q] == Znode(if item.ident.variant != "" && |q| == |p| - 1 then item.data else [], 0))
  {
    ResolvedIsProper(cfg, item.ident);
    hide Resolve;
    hide PutAt;
    var p := Resolve(cfg, item.ident).value;
    var w := PutAt(t, p, item.ident, item.data);
    PutAtFrame(t, p, item.ident, item.data);
    assert forall q :: q <= p && |q| == |p| ==> q == p;
  }

  /** What Put stored, Get returns: the same data, under the version Put answered with. */
  lemma GetAfterPut(cfg: Config, t: Tree, item: Item, asked: Version)
    requires ValidConfig(cfg) && PutStep(cfg, t, item).1.Ok?
    ensures var (t', stored) := PutStep(cfg, t, item);
            GetResult(cfg, t', item.ident.(version := asked)) == Ok(Item(stored.value, item.data))
  {
    var ident, again := item.ident, item.ident.(version := asked);
    assert KeyOf(ident) == KeyOf(again);
    assert Resolve(cfg, ident) == Resolve(cfg, again);
    ResolvedIsProper(cfg, ident);
    hide Resolve;
    PutAtFrame(t, Resolve(cfg, ident).value, ident, item.data);
  }

  /**
   Deleting an item of any tree is refused as not empty exactly when something lies below one of
   its children, and then only childless children are gone. Otherwise it succeeds, exactly when the
   version fits, and removes the item's subtree and nothing else; or it conflicts and removes what
   lies strictly below the item and nothing else.
   */
  lemma DeleteSubtree(cfg: Config, t: Tree, ident: Ident, t': Tree, failure: Option<Error>)
    requires ValidConfig(cfg) && WellFormed(t) && ident.variant == ""
    requires Resolve(cfg, ident).Ok? && Resolve(cfg, ident).value in t
    requires DeleteStep(cfg, t, ident, t', failure)
    ensures var p := Resolve(cfg, ident).value;
            && (failure == Some(Zk(NotEmpty)) <==> Blocked(t, p))
            && (forall q :: q in t' ==> q in t && t'[q] == t[q])
            && (Blocked(t, p) ==>
                  forall q :: q in t && q !in t' ==> p < q && |q| == |p| + 1 && ChildrenOf(t, q) == {})
            && (!Blocked(t, p) ==>
                  && failure == (if Accepts(t[p], ident.ActualVersion()) then None else Some(VersionConflict))
                  && forall q :: q in t' <==> q in t && !(p < q) && (failure == None ==> q != p))
  {
    ResolvedIsProper(cfg, ident);
    var p := Resolve(cfg, ident).value;
    var children := ListedAtDelete(cfg, t, ident, t', failure);
    hide *;
    DeleteAnyItem(t, p, ident.ActualVersion(), children);
    BelowIsChild(t, p);
  }

  lemma ListedAtDelete(cfg: Config, t: Tree, ident: Ident, t': Tree, failure: Option<Error>)
    returns (children: seq<string>)
    requires Resolve(cfg, ident).Ok? && Resolve(cfg, ident).value in t && ident.variant == ""
    requires DeleteStep(cfg, t, ident, t', failure)
    ensures Listing(children, ChildrenOf(t, Resolve(cfg, ident).value))
    ensures Deleted(t', failure) == DeleteItemAt(t, Resolve(cfg, ident).value, ident.ActualVersion(), children)
  {
    hide Listing;
    hide Resolve;
    hide ChildrenOf;
    hide DeleteItemAt;
    children :| Listing(children, ChildrenOf(t, Resolve(cfg, ident).value))
      && Deleted(t', failure) == DeleteItemAt(t, Resolve(cfg, ident).value, ident.ActualVersion(), children);
  }

  lemma BelowIsChild(t: Tree, p: Path)
    requires WellFormed(t)
    ensures forall q :: q in ChildPaths(t, p) ==> q in t && p < q && |q| == |p| + 1
    ensures !Blocked(t, p) ==> forall q :: q in t && p < q ==> q in ChildPaths(t, p)
  {
    hide WellFormed;
    hide Blocked;
    if !Blocked(t, p) {
      forall q | q in t && p < q ensures q in ChildPaths(t, p) {
        NothingDeeper(t, p, q);
      }
    }
  }

  lemma NothingDeeper(t: Tree, p: Path, q: Path)
    requires WellFormed(t) && !Blocked(t, p) && q in t && p < q
    ensures |q| == |p| + 1
  {
    hide ChildrenOf;
    hide Proper;
    if |q| > |p| + 1 {
      AncestorsExist(t, q, |p| + 1);
      AncestorsExist(t, q, |p| + 2);
      var v := q[|p|];
      assert q[..|p| + 1] == p + [v] && q[..|p| + 2] == p + [v] + [q[|p| + 1]];
      ChildIn(t, p, v);
      ChildIn(t, p + [v], q[|p| + 1]);
    }
  }

  /** Among categories that are apart, nothing ever lies below a variant. */
  lemma NeverBlocked(cfg: Config, u: iset<Path>, t: Tree, item: Key)
    requires Layout(cfg, u, t) && Known(cfg, u, item) && item.variant == ""
    ensures !Blocked(t, KeyPath(cfg, item))
  {
    hide Layout;
    hide KeyPath;
    hide ChildrenOf;
    VariantsAreLeaves(cfg, u, t, item);
  }
}
