/** What List returns in any tree, and exactly when that is the items of the category. */
module Listings {
  import opened Types
  import opened Paths
  import opened Decimal
  import opened ZkTree
  import opened StorePaths
  import opened StoreSpec
  import opened Layouts

  lemma {:induction false} FlattenMembers(lists: seq<seq<string>>, x: string)
    ensures x in Flatten(lists) <==> exists i :: 0 <= i < |lists| && x in lists[i]
  {
    if lists != [] {
      FlattenMembers(lists[1..], x);
      if i :| 0 <= i < |lists| && x in lists[i] {
        if i > 0 { assert lists[1..][i - 1] == lists[i]; }
      }
      if i :| 0 <= i < |lists[1..]| && x in lists[1..][i] {
        assert x in lists[i + 1];
      }
    }
  }

  ghost predicate Disjoint(lists: seq<seq<string>>) {
    && (forall i :: 0 <= i < |lists| ==> NoDuplicates(lists[i]))
    && (forall i, j, x :: 0 <= i < j < |lists| && x in lists[i] ==> x !in lists[j])
  }

  lemma AppendDuplicates(a: seq<string>, b: seq<string>)
    ensures NoDuplicates(a + b) <==> NoDuplicates(a) && NoDuplicates(b) && forall x :: x in a ==> x !in b
  {
    var c := a + b;
    assert forall i :: 0 <= i < |a| ==> c[i] == a[i];
    if NoDuplicates(c) {
      forall i, j | 0 <= i < j < |b| ensures b[i] != b[j] { assert c[|a| + i] == b[i] && c[|a| + j] == b[j]; }
      assert forall j :: 0 <= j < |b| ==> b[j] == c[|a| + j];
    }
    if NoDuplicates(a) && NoDuplicates(b) && forall x :: x in a ==> x !in b {
      forall i, j | 0 <= i < j < |c| ensures c[i] != c[j] {
        if i < |a| <= j {
          assert a[i] in a && b[j - |a|] in b;
        } else if |a| <= i {
          assert c[i] == b[i - |a|] && c[j] == b[j - |a|];
        }
      }
    }
  }

  lemma {:induction false} FlattenDuplicates(lists: seq<seq<string>>)
    ensures NoDuplicates(Flatten(lists)) <==> Disjoint(lists)
  {
    if lists != [] {
      var first, rest := lists[0], lists[1..];
      FlattenDuplicates(rest);
      AppendDuplicates(first, Flatten(rest));
      forall x { FlattenMembers(rest, x); }
      assert forall i :: 0 <= i < |rest| ==> rest[i] == lists[i + 1];
      if Disjoint(lists) {
        assert Disjoint(rest);
        forall x | x in first ensures x !in Flatten(rest) { }
      }
      if NoDuplicates(Flatten(lists)) {
        forall i, j, x | 0 <= i < j < |lists| && x in lists[i] ensures x !in lists[j] {
          assert lists[j] == rest[j - 1];
          if i > 0 { assert lists[i] == rest[i - 1]; }
        }
        forall i | 0 <= i < |lists| ensures NoDuplicates(lists[i]) {
          if i > 0 { assert lists[i] == rest[i - 1]; }
        }
      }
    }
  }

  /** The names whose item node exists in a category. */
  function ItemNames(cfg: Config, t: Tree, category: Path): set<string> {
    var n := |CategoryPath(cfg, category)|;
    set q | q in t && |q| == n + 2 && cfg.bucketOf(q[n + 1]).Ok? && q == KeyPath(cfg, Key(category, q[n + 1], ""))
      :: q[n + 1]
  }

  /** `name` is a node two levels below the category's buckets node, in the bucket it hashes to. */
  ghost predicate Filed(cfg: Config, bucket: string, name: string) {
    cfg.bucketOf(name).Ok? && bucket == Itoa(cfg.bucketOf(name).value)
  }

  ghost predicate AllFiled(cfg: Config, t: Tree, category: Path) {
    forall bucket, name :: CategoryPath(cfg, category) + [bucket, name] in t ==> Filed(cfg, bucket, name)
  }

  lemma ItemNamesIn(cfg: Config, t: Tree, category: Path, name: string)
    ensures name in ItemNames(cfg, t, category) <==>
            cfg.bucketOf(name).Ok? && KeyPath(cfg, Key(category, name, "")) in t
  {
    var n := |CategoryPath(cfg, category)|;
    if cfg.bucketOf(name).Ok? {
      var q := KeyPath(cfg, Key(category, name, ""));
      assert q == CategoryPath(cfg, category) + [Itoa(cfg.bucketOf(name).value), name];
      assert q[n + 1] == name;
    }
  }

  lemma Grandchild(t: Tree, p: Path, bucket: string, name: string)
    ensures name in ChildrenOf(t, p + [bucket]) <==> p + [bucket, name] in t
  {
    ChildIn(t, p + [bucket], name);
    assert p + [bucket] + [name] == p + [bucket, name];
  }

  /** Some answer of ZooKeeper to the reads of List. */
  lemma ListAnswer(t: Tree, p: Path) returns (names: seq<string>)
    ensures NamesUnder(t, p, names)
  {
    var buckets := ListingExists(ChildrenOf(t, p));
    var lists := ListsExist(t, p, buckets);
    names := Flatten(lists);
  }

  lemma {:induction false} ListsExist(t: Tree, p: Path, buckets: seq<string>) returns (lists: seq<seq<string>>)
    ensures ListsOf(t, p, buckets, lists)
  {
    if buckets == [] {
      lists := [];
    } else {
      var first := ListingExists(ChildrenOf(t, p + [buckets[0]]));
      var rest := ListsExist(t, p, buckets[1..]);
      lists := [first] + rest;
    }
  }

  /** A name is listed exactly when it has a node in some bucket. */
  lemma ListedIff(t: Tree, p: Path, buckets: seq<string>, lists: seq<seq<string>>, name: string)
    requires WellFormed(t)
    requires Listing(buckets, ChildrenOf(t, p)) && ListsOf(t, p, buckets, lists)
    ensures name in Flatten(lists) <==> exists bucket :: p + [bucket, name] in t
  {
    hide ChildrenOf;
    hide Proper;
    hide NoDuplicates;
    FlattenMembers(lists, name);
    if i :| 0 <= i < |lists| && name in lists[i] {
      Grandchild(t, p, buckets[i], name);
    }
    if bucket :| p + [bucket, name] in t {
      var q := p + [bucket, name];
      assert q[..|q| - 1] == p + [bucket];
      ChildIn(t, p, bucket);
      Grandchild(t, p, bucket, name);
      var i :| 0 <= i < |buckets| && buckets[i] == bucket;
      assert name in lists[i];
    }
  }

  /**
   When is List exact? In any tree it returns each item of the category once and nothing else
   exactly when every node two levels below the buckets node sits in the bucket it hashes to.
   */
  lemma ListExactIff(cfg: Config, t: Tree, category: Path, names: seq<string>)
    requires WellFormed(t) && NamesUnder(t, CategoryPath(cfg, category), names)
    ensures Listing(names, ItemNames(cfg, t, category)) <==> AllFiled(cfg, t, category)
  {
    var p := CategoryPath(cfg, category);
    var buckets, lists :|
      Listing(buckets, ChildrenOf(t, p)) && ListsOf(t, p, buckets, lists) && names == Flatten(lists);
    FlattenDuplicates(lists);
    if AllFiled(cfg, t, category) {
      FiledIsExact(cfg, t, category, buckets, lists);
    }
    if Listing(names, ItemNames(cfg, t, category)) {
      forall bucket, name | p + [bucket, name] in t ensures Filed(cfg, bucket, name) {
        ExactIsFiled(cfg, t, category, buckets, lists, bucket, name);
      }
    }
  }

  lemma FiledIsExact(cfg: Config, t: Tree, category: Path, buckets: seq<string>, lists: seq<seq<string>>)
    requires WellFormed(t) && AllFiled(cfg, t, category)
    requires Listing(buckets, ChildrenOf(t, CategoryPath(cfg, category)))
    requires ListsOf(t, CategoryPath(cfg, category), buckets, lists)
    ensures Listing(Flatten(lists), ItemNames(cfg, t, category))
  {
    hide KeyPath;
    hide ChildrenOf;
    hide ItemNames;
    hide CategoryPath;
    hide WellFormed;
    var p := CategoryPath(cfg, category);
    forall i, j, x | 0 <= i < j < |lists| && x in lists[i] ensures x !in lists[j] {
      Grandchild(t, p, buckets[i], x);
      Grandchild(t, p, buckets[j], x);
    }
    FlattenDuplicates(lists);
    forall name ensures name in Flatten(lists) <==> name in ItemNames(cfg, t, category) {
      ListedIff(t, p, buckets, lists, name);
      ItemNamesIn(cfg, t, category, name);
      if cfg.bucketOf(name).Ok? {
        ItemPathShape(cfg, category, name);
      }
    }
  }

  lemma ExactIsFiled(cfg: Config, t: Tree, category: Path, buckets: seq<string>, lists: seq<seq<string>>,
                     bucket: string, name: string)
    requires WellFormed(t) && Listing(Flatten(lists), ItemNames(cfg, t, category))
    requires Listing(buckets, ChildrenOf(t, CategoryPath(cfg, category)))
    requires ListsOf(t, CategoryPath(cfg, category), buckets, lists)
    requires CategoryPath(cfg, category) + [bucket, name] in t
    ensures Filed(cfg, bucket, name)
  {
    hide KeyPath;
    hide ChildrenOf;
    hide ItemNames;
    hide CategoryPath;
    var p := CategoryPath(cfg, category);
    ListedIff(t, p, buckets, lists, name);
    ItemNamesIn(cfg, t, category, name);
    ItemPathShape(cfg, category, name);
    var own := Itoa(cfg.bucketOf(name).value);
    var i := BucketIndex(t, p, buckets, lists, bucket, name);
    var j := BucketIndex(t, p, buckets, lists, own, name);
    FlattenDuplicates(lists);
  }

  lemma BucketIndex(t: Tree, p: Path, buckets: seq<string>, lists: seq<seq<string>>, bucket: string, name: string)
    returns (i: nat)
    requires WellFormed(t) && p + [bucket, name] in t
    requires Listing(buckets, ChildrenOf(t, p)) && ListsOf(t, p, buckets, lists)
    ensures i < |buckets| && buckets[i] == bucket && name in lists[i]
  {
    var q := p + [bucket, name];
    assert q[..|q| - 1] == p + [bucket];
    ChildIn(t, p, bucket);
    Grandchild(t, p, bucket, name);
    i :| 0 <= i < |buckets| && buckets[i] == bucket;
  }
}
