/** Which znodes a store keeps under its base path, and how paths of different keys relate. */
module Layouts {
  import opened Paths
  import opened Decimal
  import opened ZkTree
  import opened StorePaths

  /** `inner` lies below the buckets node of `outer`: it starts with outer, the buckets name and more. */
  ghost predicate Intrudes(cfg: Config, inner: Path, outer: Path) {
    |inner| >= |outer| + 2 && inner[..|outer| + 1] == outer + [cfg.bucketsName]
  }

  /** Categories that the guard accepts and none of which lies below another's buckets node. */
  ghost predicate Apart(cfg: Config, u: iset<Path>) {
    && (forall c :: c in u ==> !EndsInBuckets(cfg, c))
    && (forall c, d :: c in u && d in u ==> !Intrudes(cfg, c, d))
  }

  /** A key in one of the categories `u`, as long as its name has a bucket. */
  ghost predicate Known(cfg: Config, u: iset<Path>, key: Key) {
    cfg.bucketOf(key.name).Ok? && key.category in u
  }

  /** At or below the buckets node of a category in `u` a node lies on the way to some known key's node. */
  ghost predicate Placed(cfg: Config, u: iset<Path>, p: Path) {
    (exists c :: c in u && CategoryPath(cfg, c) <= p) ==> exists key :: Known(cfg, u, key) && p <= KeyPath(cfg, key)
  }

  ghost predicate Layout(cfg: Config, u: iset<Path>, t: Tree) {
    Apart(cfg, u) && WellFormed(t) && forall p :: p in t ==> Placed(cfg, u, p)
  }

  /** The buckets nodes of categories that are apart do not lie above one another. */
  lemma OneCategory(cfg: Config, u: iset<Path>, a: Path, b: Path, p: Path)
    requires Apart(cfg, u) && a in u && b in u
    requires CategoryPath(cfg, a) <= p && CategoryPath(cfg, b) <= p
    ensures a == b
  {
    if |a| < |b| {
      LongerCategory(cfg, a, b, p);
    } else if |b| < |a| {
      LongerCategory(cfg, b, a, p);
    } else {
      var base := Segments(cfg.basePath);
      assert a == CategoryPath(cfg, a)[|base|..|base| + |a|] == p[|base|..|base| + |a|];
      assert b == CategoryPath(cfg, b)[|base|..|base| + |b|] == p[|base|..|base| + |b|];
    }
  }

  lemma LongerCategory(cfg: Config, a: Path, b: Path, p: Path)
    requires |a| < |b| && CategoryPath(cfg, a) <= p && CategoryPath(cfg, b) <= p
    ensures EndsInBuckets(cfg, b) || Intrudes(cfg, b, a)
  {
    var base := Segments(cfg.basePath);
    var n := |base| + |a| + 1;
    assert CategoryPath(cfg, a) == p[..n] == CategoryPath(cfg, b)[..n] == base + b[..|a| + 1];
    assert b[..|a| + 1] == CategoryPath(cfg, a)[|base|..] == a + [cfg.bucketsName];
    if |b| == |a| + 1 {
      assert b == b[..|a| + 1];
    }
  }

  lemma SameCategory(cfg: Config, u: iset<Path>, category: Path, key: Key, q: Path)
    requires Apart(cfg, u) && Known(cfg, u, key) && category in u
    requires CategoryPath(cfg, category) <= q && q <= KeyPath(cfg, key)
    ensures category == key.category
  {
    KeyPathParts(cfg, key);
    OneCategory(cfg, u, category, key.category, KeyPath(cfg, key));
  }

  /** Among known keys, only an item's own node lies above a variant's. */
  lemma PrefixKey(cfg: Config, u: iset<Path>, upper: Key, lower: Key)
    requires Apart(cfg, u) && Known(cfg, u, upper) && Known(cfg, u, lower)
    ensures KeyPath(cfg, upper) <= KeyPath(cfg, lower) <==> upper == lower || upper == lower.Parent()
  {
    var p, q := KeyPath(cfg, upper), KeyPath(cfg, lower);
    KeyPathParts(cfg, upper);
    KeyPathParts(cfg, lower);
    if p <= q {
      assert CategoryPath(cfg, upper.category) <= p;
      SameCategory(cfg, u, upper.category, lower, p);
    }
    if upper == lower.Parent() {
      assert q == p + Tail(lower.variant);
    }
  }

  lemma DistinctPaths(cfg: Config, u: iset<Path>, a: Key, b: Key)
    requires Apart(cfg, u) && Known(cfg, u, a) && Known(cfg, u, b)
    ensures KeyPath(cfg, a) == KeyPath(cfg, b) <==> a == b
  {
    PrefixKey(cfg, u, a, b);
    PrefixKey(cfg, u, b, a);
  }

  /** No category's buckets node is a key's node. */
  lemma CategoryIsNoKey(cfg: Config, u: iset<Path>, category: Path, key: Key)
    requires Apart(cfg, u) && Known(cfg, u, key) && category in u
    ensures CategoryPath(cfg, category) != KeyPath(cfg, key)
    ensures CategoryPath(cfg, category) <= KeyPath(cfg, key) <==> category == key.category
  {
    KeyPathParts(cfg, key);
    if CategoryPath(cfg, category) <= KeyPath(cfg, key) {
      SameCategory(cfg, u, category, key, CategoryPath(cfg, category));
    }
  }

  /** A node at or below a category's buckets node is on the way to a key of that category. */
  lemma KeyBelow(cfg: Config, u: iset<Path>, t: Tree, category: Path, q: Path) returns (key: Key)
    requires Layout(cfg, u, t) && category in u
    requires q in t && CategoryPath(cfg, category) <= q
    ensures Known(cfg, u, key) && q <= KeyPath(cfg, key) && key.category == category
  {
    hide KeyPath;
    hide Segments;
    hide WellFormed;
    assert Placed(cfg, u, q);
    key :| Known(cfg, u, key) && q <= KeyPath(cfg, key);
    SameCategory(cfg, u, category, key, q);
  }

  lemma VariantBelow(cfg: Config, key: Key)
    requires cfg.bucketOf(key.name).Ok? && key.variant != ""
    ensures KeyPath(cfg, key) == KeyPath(cfg, key.Parent()) + [key.variant]
  {
  }

  /** Below an item's node there are only its variants. */
  lemma BelowItem(cfg: Config, u: iset<Path>, t: Tree, item: Key, q: Path)
    requires Layout(cfg, u, t) && Known(cfg, u, item) && item.variant == ""
    requires q in t && KeyPath(cfg, item) <= q && q != KeyPath(cfg, item)
    ensures |q| == |KeyPath(cfg, item)| + 1 && q[|q| - 1] != ""
    ensures q == KeyPath(cfg, item.(variant := q[|q| - 1]))
  {
    hide KeyPath;
    hide Layout;
    KeyPathParts(cfg, item);
    hide Apart;
    LayoutIsWellFormed(cfg, u, t);
    var key := KeyBelow(cfg, u, t, item.category, q);
    PrefixKey(cfg, u, item, key);
    if key.variant != "" {
      VariantBelow(cfg, key);
    }
  }

  /** The children of an item's node are its variants, and each of them is a leaf. */
  lemma VariantsAreLeaves(cfg: Config, u: iset<Path>, t: Tree, item: Key)
    requires Layout(cfg, u, t) && Known(cfg, u, item) && item.variant == ""
    ensures forall v :: v in ChildrenOf(t, KeyPath(cfg, item)) <==>
                        v != "" && KeyPath(cfg, item.(variant := v)) in t
    ensures forall v :: v in ChildrenOf(t, KeyPath(cfg, item)) ==> ChildrenOf(t, KeyPath(cfg, item) + [v]) == {}
  {
    hide Layout;
    hide ChildrenOf;
    var p := KeyPath(cfg, item);
    forall v ensures v in ChildrenOf(t, p) <==> v != "" && KeyPath(cfg, item.(variant := v)) in t {
      ChildIn(t, p, v);
      assert v != "" ==> KeyPath(cfg, item.(variant := v)) == p + [v];
      if v in ChildrenOf(t, p) {
        BelowItem(cfg, u, t, item, p + [v]);
      }
    }
    forall v | v in ChildrenOf(t, p) ensures ChildrenOf(t, p + [v]) == {} {
      NothingBelowVariant(cfg, u, t, item, v);
    }
  }

  lemma NothingBelowVariant(cfg: Config, u: iset<Path>, t: Tree, item: Key, v: string)
    requires Layout(cfg, u, t) && Known(cfg, u, item) && item.variant == ""
    ensures ChildrenOf(t, KeyPath(cfg, item) + [v]) == {}
  {
    hide Layout;
    hide ChildrenOf;
    hide KeyPath;
    var p := KeyPath(cfg, item);
    forall w ensures w !in ChildrenOf(t, p + [v]) {
      ChildIn(t, p + [v], w);
      if p + [v] + [w] in t {
        assert (p + [v] + [w])[..|p|] == p;
        BelowItem(cfg, u, t, item, p + [v] + [w]);
      }
    }
  }

  lemma ItemPathShape(cfg: Config, category: Path, name: string)
    requires cfg.bucketOf(name).Ok?
    ensures KeyPath(cfg, Key(category, name, ""))
         == CategoryPath(cfg, category) + [Itoa(cfg.bucketOf(name).value), name]
  {
  }

  /** Two levels below a category's buckets node there are only items, each in its own bucket. */
  lemma BelowBuckets(cfg: Config, u: iset<Path>, t: Tree, category: Path, bucket: string, name: string)
    requires Layout(cfg, u, t) && category in u
    requires CategoryPath(cfg, category) + [bucket, name] in t
    ensures Known(cfg, u, Key(category, name, "")) && bucket == Itoa(cfg.bucketOf(name).value)
    ensures CategoryPath(cfg, category) + [bucket, name] == KeyPath(cfg, Key(category, name, ""))
  {
    hide KeyPath;
    hide Layout;
    var c := CategoryPath(cfg, category);
    var q := c + [bucket, name];
    var key := KeyBelow(cfg, u, t, category, q);
    KeyPathParts(cfg, key);
    assert q[|c|] == bucket && q[|c| + 1] == name;
    ItemPathShape(cfg, category, name);
  }

  /** An intruding key's path runs on below the other category's buckets node, at least four levels. */
  lemma IntruderPath(cfg: Config, key: Key, outer: Path)
    requires cfg.bucketOf(key.name).Ok? && Intrudes(cfg, key.category, outer)
    ensures |KeyPath(cfg, key)| >= |CategoryPath(cfg, outer)| + 4 + |Tail(key.variant)|
    ensures CategoryPath(cfg, outer) <= KeyPath(cfg, key)
  {
    hide KeyPath;
    hide Segments;
    KeyPathParts(cfg, key);
    var p, base, c := KeyPath(cfg, key), Segments(cfg.basePath), CategoryPath(cfg, outer);
    var n := |base| + |key.category|;
    assert p[..n] == base + key.category;
    assert p[..|c|] == base + key.category[..|outer| + 1];
  }

  lemma LayoutIsWellFormed(cfg: Config, u: iset<Path>, t: Tree)
    requires Layout(cfg, u, t)
    ensures WellFormed(t) && Apart(cfg, u)
  {
  }

  lemma ShrinkLayout(cfg: Config, u: iset<Path>, t: Tree, t': Tree)
    requires Layout(cfg, u, t) && WellFormed(t') && t'.Keys <= t.Keys
    ensures Layout(cfg, u, t')
  {
    hide Placed;
  }
}
