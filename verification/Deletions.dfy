/** Deleting an item in closed form, whatever order its variants are listed in. */
module Deletions {
  import opened Types
  import opened Paths
  import opened ZkTree
  import opened StorePaths
  import opened StoreSpec
  import opened Layouts

  function ChildPaths(t: Tree, p: Path): set<Path> {
    set q | q in t && |q| == |p| + 1 && q[..|p|] == p
  }

  function ListedPaths(p: Path, children: seq<string>): set<Path> {
    set v | v in children :: p + [v]
  }

  lemma FewerChildren(t: Tree, gone: set<Path>, p: Path)
    ensures ChildrenOf(t - gone, p) <= ChildrenOf(t, p)
  {
  }

  lemma ListedSplits(p: Path, children: seq<string>)
    requires children != []
    ensures ListedPaths(p, children) == {p + [children[0]]} + ListedPaths(p, children[1..])
  {
  }

  lemma {:induction false} DeleteLeaves(t: Tree, p: Path, children: seq<string>)
    requires NoDuplicates(children)
    requires forall v :: v in children ==> p + [v] in t && ChildrenOf(t, p + [v]) == {}
    ensures DeleteListed(t, p, children) == Effect(t - ListedPaths(p, children), None)
    decreases |children|
  {
    if children == [] {
      assert t - ListedPaths(p, []) == t;
    } else {
      hide ChildrenOf;
      hide ListedPaths;
      var first, rest := children[0], children[1..];
      var t' := t - {p + [first]};
      assert DeleteNode(t, p + [first], -1) == Effect(t', None);
      forall v | v in rest ensures p + [v] in t' && ChildrenOf(t', p + [v]) == {} {
        assert (p + [v])[|p|] == v && (p + [first])[|p|] == first;
        FewerChildren(t, {p + [first]}, p + [v]);
      }
      DeleteLeaves(t', p, rest);
      ListedSplits(p, children);
    }
  }

  lemma ListedAreChildren(t: Tree, p: Path, children: seq<string>)
    requires Listing(children, ChildrenOf(t, p))
    ensures ListedPaths(p, children) == ChildPaths(t, p)
    ensures ChildrenOf(t - ChildPaths(t, p), p) == {}
    ensures p !in ChildPaths(t, p)
    ensures forall v :: v in children ==> p + [v] in t
  {
    forall v | v in children ensures p + [v] in ChildPaths(t, p) {
      ChildIn(t, p, v);
      assert (p + [v])[..|p|] == p;
    }
    forall q | q in ChildPaths(t, p) ensures q in ListedPaths(p, children) {
      assert q == p + [q[|p|]];
      ChildIn(t, p, q[|p|]);
    }
  }

  lemma DeleteAboveLeaves(t: Tree, p: Path, version: int, children: seq<string>)
    requires p != [] && p in t && Listing(children, ChildrenOf(t, p))
    requires forall v :: v in ChildrenOf(t, p) ==> ChildrenOf(t, p + [v]) == {}
    ensures DeleteItemAt(t, p, version, children) ==
            if Accepts(t[p], version) then Deleted(t - (ChildPaths(t, p) + {p}), None)
            else Deleted(t - ChildPaths(t, p), Some(VersionConflict))
  {
    hide ChildrenOf;
    hide ChildPaths;
    hide ListedPaths;
    hide DeleteListed;
    ListedAreChildren(t, p, children);
    DeleteLeaves(t, p, children);
    var t' := t - ChildPaths(t, p);
    assert DeleteListed(t, p, children) == Effect(t', None);
    assert t' - {p} == t - (ChildPaths(t, p) + {p});
  }

  /** Something lies below a child of `p`. */
  ghost predicate Blocked(t: Tree, p: Path) {
    exists v :: v in ChildrenOf(t, p) && ChildrenOf(t, p + [v]) != {}
  }

  /** Deleting listed children of any tree: it stops at the first that is no leaf, having removed leaves only. */
  lemma {:induction false} DeleteListedAny(t: Tree, p: Path, children: seq<string>)
    requires NoDuplicates(children) && forall v :: v in children ==> p + [v] in t
    ensures var e := DeleteListed(t, p, children);
            && (e.failure == None || e.failure == Some(NotEmpty))
            && (e.failure.Some? <==> exists v :: v in children && ChildrenOf(t, p + [v]) != {})
            && (forall q :: q in e.tree ==> q in t && e.tree[q] == t[q])
            && (forall q :: q in t && q !in e.tree ==> q in ListedPaths(p, children) && ChildrenOf(t, q) == {})
    decreases |children|
  {
    hide ChildrenOf;
    hide ListedPaths;
    if children != [] {
      var first, rest := children[0], children[1..];
      var leaf := p + [first];
      assert first in children;
      if ChildrenOf(t, leaf) == {} {
        var t' := t - {leaf};
        forall v | v in rest ensures p + [v] in t' && ChildrenOf(t', p + [v]) == ChildrenOf(t, p + [v]) {
          assert (p + [v])[|p|] == v && leaf[|p|] == first;
          SameChildren(t, leaf, p + [v]);
        }
        DeleteListedAny(t', p, rest);
        ListedSplits(p, children);
        forall q | q in t' && ChildrenOf(t', q) == {} && q in ListedPaths(p, rest) ensures ChildrenOf(t, q) == {} {
          ListedHasLength(p, rest, q);
          SameChildren(t, leaf, q);
        }
      }
    }
  }

  lemma ListedHasLength(p: Path, children: seq<string>, q: Path)
    requires q in ListedPaths(p, children)
    ensures |q| == |p| + 1
  {
  }

  /** Removing a node takes nothing from below a node at the same depth. */
  lemma SameChildren(t: Tree, gone: Path, q: Path)
    requires |gone| == |q|
    ensures ChildrenOf(t - {gone}, q) == ChildrenOf(t, q)
  {
    forall v ensures v in ChildrenOf(t - {gone}, q) <==> v in ChildrenOf(t, q) {
      ChildIn(t - {gone}, q, v);
      ChildIn(t, q, v);
    }
  }

  /** Deleting an item of any tree: it is refused as not empty exactly when something lies below a child. */
  lemma DeleteAnyItem(t: Tree, p: Path, version: int, children: seq<string>)
    requires p != [] && p in t && Listing(children, ChildrenOf(t, p))
    ensures var d := DeleteItemAt(t, p, version, children);
            && (d.failure == Some(Zk(NotEmpty)) <==> Blocked(t, p))
            && (forall q :: q in d.tree ==> q in t && d.tree[q] == t[q])
            && (Blocked(t, p) ==>
                  forall q :: q in t && q !in d.tree ==> q in ChildPaths(t, p) && ChildrenOf(t, q) == {})
            && (!Blocked(t, p) ==>
                  d == if Accepts(t[p], version) then Deleted(t - (ChildPaths(t, p) + {p}), None)
                       else Deleted(t - ChildPaths(t, p), Some(VersionConflict)))
  {
    hide ChildrenOf;
    hide ChildPaths;
    hide ListedPaths;
    hide DeleteListed;
    hide Accepts;
    ListedAreChildren(t, p, children);
    DeleteListedAny(t, p, children);
    if !Blocked(t, p) {
      DeleteAboveLeaves(t, p, version, children);
    }
  }

  /** Deleting an item of a laid-out tree: its variants always go, the item if the version fits. */
  lemma DeleteItemCloses(cfg: Config, u: iset<Path>, t: Tree, item: Key, version: int, children: seq<string>)
    requires Layout(cfg, u, t) && Known(cfg, u, item) && item.variant == "" && KeyPath(cfg, item) in t
    requires Listing(children, ChildrenOf(t, KeyPath(cfg, item)))
    ensures var p := KeyPath(cfg, item);
            DeleteItemAt(t, p, version, children) ==
            if Accepts(t[p], version) then Deleted(t - (ChildPaths(t, p) + {p}), None)
            else Deleted(t - ChildPaths(t, p), Some(VersionConflict))
  {
    hide KeyPath;
    hide Layout;
    hide ChildrenOf;
    hide ChildPaths;
    hide DeleteItemAt;
    KeyPathParts(cfg, item);
    VariantsAreLeaves(cfg, u, t, item);
    DeleteAboveLeaves(t, KeyPath(cfg, item), version, children);
  }

  lemma ChildPathsAreKeys(cfg: Config, u: iset<Path>, t: Tree, item: Key)
    requires Layout(cfg, u, t) && Known(cfg, u, item) && item.variant == ""
    ensures forall q :: q in ChildPaths(t, KeyPath(cfg, item)) ==> exists k :: Known(cfg, u, k) && q == KeyPath(cfg, k)
  {
    var p := KeyPath(cfg, item);
    forall q | q in ChildPaths(t, p) ensures exists k :: Known(cfg, u, k) && q == KeyPath(cfg, k) {
      BelowItem(cfg, u, t, item, q);
      assert Known(cfg, u, item.(variant := q[|q| - 1]));
    }
  }

  lemma {:induction false} DeleteListedKeepsForm(t: Tree, p: Path, children: seq<string>)
    requires WellFormed(t)
    ensures WellFormed(DeleteListed(t, p, children).tree)
    decreases |children|
  {
    if children != [] {
      DeleteKeepsForm(t, p + [children[0]], -1);
      DeleteListedKeepsForm(DeleteNode(t, p + [children[0]], -1).tree, p, children[1..]);
    }
  }

  lemma DeleteItemKeepsForm(t: Tree, p: Path, version: int, children: seq<string>)
    requires WellFormed(t)
    ensures WellFormed(DeleteItemAt(t, p, version, children).tree)
  {
    DeleteListedKeepsForm(t, p, children);
    DeleteKeepsForm(DeleteListed(t, p, children).tree, p, version);
  }
}
