/**
 The znode tree represents the plain map: every operation of the store answers as the map would,
 in every run of a single client.
 */
module Refinement {
  import opened Types
  import opened Paths
  import opened Idents
  import opened ZkTree
  import opened StorePaths
  import opened StoreSpec
  import opened Layouts
  import opened PlainMaps
  import opened Deletions
  import opened Listings

  // ---------------------------------------------------------------- the abstraction

  ghost predicate ItemsAgree(cfg: Config, u: iset<Path>, t: Tree, items: map<Key, Znode>) {
    && (forall k :: k in items ==> Known(cfg, u, k))
    && (forall k :: Known(cfg, u, k) ==> (k in items <==> KeyPath(cfg, k) in t))
    && (forall k :: k in items ==> items[k] == t[KeyPath(cfg, k)])
  }

  ghost predicate CategoriesAgree(cfg: Config, u: iset<Path>, t: Tree, categories: set<Path>) {
    && (forall c :: c in categories ==> c in u)
    && (forall c :: c in u ==> (c in categories <==> CategoryPath(cfg, c) in t))
  }

  ghost predicate Abstracts(cfg: Config, u: iset<Path>, t: Tree, m: Plain) {
    Layout(cfg, u, t) && ItemsAgree(cfg, u, t, m.items) && CategoriesAgree(cfg, u, t, m.categories)
  }

  /** No buckets node exists yet below the base path; anything may exist beside it. */
  ghost predicate Fresh(cfg: Config, t: Tree) {
    var base := Segments(cfg.basePath);
    WellFormed(t) && forall p :: p in t && base <= p ==> cfg.bucketsName !in p[|base|..]
  }

  lemma FreshIsEmpty(cfg: Config, u: iset<Path>, t: Tree)
    requires Apart(cfg, u) && Fresh(cfg, t)
    ensures Abstracts(cfg, u, t, NOTHING_STORED)
  {
    hide CategoryPath;
    hide KeyPath;
    hide WellFormed;
    forall p, c | p in t ensures !(CategoryPath(cfg, c) <= p) {
      if CategoryPath(cfg, c) <= p {
        NothingBelowCategory(cfg, t, c, p);
      }
    }
    assert WellFormed(t);
    hide Fresh;
    hide Apart;
    forall p | p in t ensures Placed(cfg, u, p) {
    }
    forall k | Known(cfg, u, k) ensures KeyPath(cfg, k) !in t {
      KeyPathParts(cfg, k);
      assert CategoryPath(cfg, k.category) <= KeyPath(cfg, k);
    }
    forall c ensures CategoryPath(cfg, c) !in t {
      assert CategoryPath(cfg, c) <= CategoryPath(cfg, c);
    }
  }

  lemma NothingBelowCategory(cfg: Config, t: Tree, c: Path, p: Path)
    requires Fresh(cfg, t) && CategoryPath(cfg, c) <= p
    ensures p !in t
  {
    var base := Segments(cfg.basePath);
    var q := CategoryPath(cfg, c);
    assert q[..|base|] == base && q[|base| + |c|] == cfg.bucketsName;
    assert p[..|base|] == base && p[|base|..][|c|] == p[|base| + |c|] == cfg.bucketsName;
  }

  /** An operation whose category, if the store accepts it, is one of `u`. */
  ghost predicate Covered(cfg: Config, u: iset<Path>, category: string) {
    ResolveCategory(cfg, category).Ok? ==> Segments(category) in u
  }

  lemma KnownKey(cfg: Config, u: iset<Path>, ident: Ident)
    requires Resolve(cfg, ident).Ok? && Covered(cfg, u, ident.category)
    ensures Known(cfg, u, KeyOf(ident)) && Resolve(cfg, ident).value == KeyPath(cfg, KeyOf(ident))
  {
  }

  // ---------------------------------------------------------------- Put

  lemma FillLayout(cfg: Config, u: iset<Path>, t: Tree, key: Key, hasVariant: bool, data: Bytes, n: nat)
    requires Layout(cfg, u, t) && Known(cfg, u, key) && Proper(KeyPath(cfg, key)) && n <= |KeyPath(cfg, key)|
    ensures Layout(cfg, u, Filled(t, KeyPath(cfg, key), hasVariant, data, n))
  {
    var p := KeyPath(cfg, key);
    FilledKeepsForm(t, p, hasVariant, data, n);
    forall q | q in Filled(t, p, hasVariant, data, n) ensures Placed(cfg, u, q) {
      FilledMembers(t, p, hasVariant, data, n, q);
      if q !in t {
        assert q <= p;
      }
    }
  }

  /** Which keys' nodes a fill towards `key` brings into being. */
  lemma FillKeys(cfg: Config, u: iset<Path>, t: Tree, key: Key, hasVariant: bool, data: Bytes, n: nat, k: Key)
    requires Apart(cfg, u)
    requires Known(cfg, u, key) && Known(cfg, u, k) && |KeyPath(cfg, key)| - 1 <= n <= |KeyPath(cfg, key)|
    requires hasVariant == (key.variant != "")
    ensures var p, q := KeyPath(cfg, key), KeyPath(cfg, k);
            var filled := Filled(t, p, hasVariant, data, n);
            && (q in filled <==> q in t || (k == key && n == |p|) || (hasVariant && k == key.Parent()))
            && (q in filled && q !in t ==> filled[q] == Znode(data, 0))
            && (q in t ==> filled[q] == t[q])
  {
    var p, q := KeyPath(cfg, key), KeyPath(cfg, k);
    FilledMembers(t, p, hasVariant, data, n, q);
    PrefixKey(cfg, u, k, key);
    KeyPathParts(cfg, key);
    KeyPathParts(cfg, key.Parent());
  }

  lemma FillItems(cfg: Config, u: iset<Path>, t: Tree, m: Plain, key: Key, data: Bytes, n: nat)
    requires Apart(cfg, u)
    requires ItemsAgree(cfg, u, t, m.items) && Known(cfg, u, key) && key !in m.items
    requires |KeyPath(cfg, key)| - 1 <= n <= |KeyPath(cfg, key)|
    ensures var touched := Touched(m, key, data).items;
            ItemsAgree(cfg, u, Filled(t, KeyPath(cfg, key), key.variant != "", data, n),
                       if n == |KeyPath(cfg, key)| then touched[key := Znode(data, 0)] else touched)
  {
    hide KeyPath;
    hide Filled;
    var p, v := KeyPath(cfg, key), key.variant != "";
    var filled := Filled(t, p, v, data, n);
    forall k | Known(cfg, u, k)
      ensures KeyPath(cfg, k) in filled <==> KeyPath(cfg, k) in t || (k == key && n == |p|) || (v && k == key.Parent())
      ensures KeyPath(cfg, k) in filled && KeyPath(cfg, k) !in t ==> filled[KeyPath(cfg, k)] == Znode(data, 0)
      ensures KeyPath(cfg, k) in t ==> filled[KeyPath(cfg, k)] == t[KeyPath(cfg, k)]
    {
      FillKeys(cfg, u, t, key, v, data, n, k);
    }
  }

  lemma FillCategories(cfg: Config, u: iset<Path>, t: Tree, m: Plain, key: Key, hasVariant: bool, data: Bytes, n: nat)
    requires Apart(cfg, u)
    requires CategoriesAgree(cfg, u, t, m.categories) && Known(cfg, u, key)
    requires |KeyPath(cfg, key)| - 1 <= n <= |KeyPath(cfg, key)|
    ensures CategoriesAgree(cfg, u, Filled(t, KeyPath(cfg, key), hasVariant, data, n), m.categories + {key.category})
  {
    var p := KeyPath(cfg, key);
    KeyPathParts(cfg, key);
    forall c | c in u
      ensures CategoryPath(cfg, c) in Filled(t, p, hasVariant, data, n) <==>
              CategoryPath(cfg, c) in t || c == key.category
    {
      FilledMembers(t, p, hasVariant, data, n, CategoryPath(cfg, c));
      CategoryIsNoKey(cfg, u, c, key);
    }
  }

  lemma SameNodes(cfg: Config, u: iset<Path>, t: Tree, t': Tree, categories: set<Path>)
    requires Layout(cfg, u, t) && CategoriesAgree(cfg, u, t, categories) && t'.Keys == t.Keys
    ensures Layout(cfg, u, t') && CategoriesAgree(cfg, u, t', categories)
  {
    hide CategoryPath;
    hide Placed;
  }

  lemma OverwriteAgrees(cfg: Config, u: iset<Path>, t: Tree, m: Plain, key: Key, node: Znode)
    requires Abstracts(cfg, u, t, m) && key in m.items
    ensures Abstracts(cfg, u, t[KeyPath(cfg, key) := node], m.(items := m.items[key := node]))
  {
    hide KeyPath;
    hide Layout;
    hide CategoriesAgree;
    hide Apart;
    LayoutIsWellFormed(cfg, u, t);
    var t' := t[KeyPath(cfg, key) := node];
    assert t'.Keys == t.Keys;
    SameNodes(cfg, u, t, t', m.categories);
    forall k | Known(cfg, u, k) ensures KeyPath(cfg, k) == KeyPath(cfg, key) <==> k == key {
      DistinctPaths(cfg, u, k, key);
    }
  }

  lemma InStep(cfg: Config, u: iset<Path>, t: Tree, m: Plain, key: Key)
    requires Abstracts(cfg, u, t, m) && Known(cfg, u, key)
    ensures key in m.items <==> KeyPath(cfg, key) in t
    ensures key in m.items ==> m.items[key] == t[KeyPath(cfg, key)]
  {
  }

  lemma PutAgrees(cfg: Config, u: iset<Path>, t: Tree, m: Plain, key: Key, ident: Ident, data: Bytes)
    requires Abstracts(cfg, u, t, m) && Known(cfg, u, key) && Proper(KeyPath(cfg, key)) && key == KeyOf(ident)
    ensures var w := PutAt(t, KeyPath(cfg, key), ident, data);
            var (m', r) := PlainPut(m, key, ident.version, data);
            w.result == r && Abstracts(cfg, u, w.tree, m')
  {
    hide KeyPath;
    hide Filled;
    hide Layout;
    hide ItemsAgree;
    hide CategoriesAgree;
    hide Apart;
    LayoutIsWellFormed(cfg, u, t);
    KeyPathParts(cfg, key);
    var p := KeyPath(cfg, key);
    InStep(cfg, u, t, m, key);
    if key in m.items {
      OverwriteAgrees(cfg, u, t, m, key, Znode(data, t[p].version + 1));
    } else {
      var v := key.variant != "";
      var n := if ident.ActualVersion() >= 0 then |p| - 1 else |p|;
      FillLayout(cfg, u, t, key, v, data, n);
      FillItems(cfg, u, t, m, key, data, n);
      FillCategories(cfg, u, t, m, key, v, data, n);
      FillKeys(cfg, u, t, key, v, data, n, key);
    }
  }

  // ---------------------------------------------------------------- Delete

  /** Dropping keys together with their nodes, and nothing else, keeps the two sides in step. */
  lemma ShrinkAgrees(cfg: Config, u: iset<Path>, t: Tree, m: Plain, t': Tree, items: map<Key, Znode>, gone: set<Path>)
    requires Abstracts(cfg, u, t, m) && WellFormed(t') && t' == t - gone
    requires forall k :: k in items <==> k in m.items && KeyPath(cfg, k) !in gone
    requires forall k :: k in items ==> items[k] == m.items[k]
    requires forall q :: q in gone ==> exists k :: Known(cfg, u, k) && q == KeyPath(cfg, k)
    ensures Abstracts(cfg, u, t', m.(items := items))
  {
    hide KeyPath;
    hide CategoryPath;
    hide Layout;
    hide Apart;
    LayoutIsWellFormed(cfg, u, t);
    assert t'.Keys <= t.Keys;
    ShrinkLayout(cfg, u, t, t');
    forall c | c in u ensures CategoryPath(cfg, c) !in gone {
      if CategoryPath(cfg, c) in gone {
        var k :| Known(cfg, u, k) && CategoryPath(cfg, c) == KeyPath(cfg, k);
        CategoryIsNoKey(cfg, u, c, k);
      }
    }
    assert ItemsAgree(cfg, u, t', items);
    assert CategoriesAgree(cfg, u, t', m.categories);
  }

  lemma ChildPathIsVariant(cfg: Config, u: iset<Path>, t: Tree, m: Plain, item: Key, k: Key)
    requires Abstracts(cfg, u, t, m) && Known(cfg, u, item) && item.variant == "" && k in m.items
    ensures KeyPath(cfg, k) in ChildPaths(t, KeyPath(cfg, item)) <==> k.variant != "" && k.Parent() == item
  {
    hide KeyPath;
    hide Layout;
    hide CategoriesAgree;
    hide Apart;
    LayoutIsWellFormed(cfg, u, t);
    var p, q := KeyPath(cfg, item), KeyPath(cfg, k);
    KeyPathParts(cfg, item);
    KeyPathParts(cfg, k);
    PrefixKey(cfg, u, item, k);
    if k.variant != "" {
      VariantBelow(cfg, k);
    }
    assert p <= q && |q| == |p| + 1 ==> q[..|p|] == p;
  }

  lemma DeleteItemAgrees(cfg: Config, u: iset<Path>, t: Tree, m: Plain, item: Key, version: int, children: seq<string>)
    requires Abstracts(cfg, u, t, m) && item in m.items && item.variant == ""
    requires Listing(children, ChildrenOf(t, KeyPath(cfg, item)))
    ensures var d := DeleteItemAt(t, KeyPath(cfg, item), version, children);
            var (m', f) := PlainDelete(m, item, version);
            d.failure == f && Abstracts(cfg, u, d.tree, m')
  {
    hide KeyPath;
    hide Layout;
    hide CategoriesAgree;
    hide ChildrenOf;
    hide ChildPaths;
    hide DeleteItemAt;
    hide WellFormed;
    hide Apart;
    LayoutIsWellFormed(cfg, u, t);
    var p := KeyPath(cfg, item);
    var d := DeleteItemAt(t, p, version, children);
    var (m', f) := PlainDelete(m, item, version);
    DeleteItemCloses(cfg, u, t, item, version, children);
    DeleteItemKeepsForm(t, p, version, children);
    ChildPathsAreKeys(cfg, u, t, item);
    forall k | k in m.items
      ensures KeyPath(cfg, k) in ChildPaths(t, p) <==> k.variant != "" && k.Parent() == item
      ensures KeyPath(cfg, k) == p <==> k == item
    {
      ChildPathIsVariant(cfg, u, t, m, item, k);
      DistinctPaths(cfg, u, k, item);
    }
    var gone := if Accepts(t[p], version) then ChildPaths(t, p) + {p} else ChildPaths(t, p);
    ShrinkAgrees(cfg, u, t, m, d.tree, m'.items, gone);
  }

  lemma DeleteVariantAgrees(cfg: Config, u: iset<Path>, t: Tree, m: Plain, key: Key, version: int)
    requires Abstracts(cfg, u, t, m) && Known(cfg, u, key) && key.variant != ""
    ensures var d := DeleteVariantAt(t, KeyPath(cfg, key), version);
            var (m', f) := PlainDelete(m, key, version);
            d.failure == f && Abstracts(cfg, u, d.tree, m')
  {
    hide KeyPath;
    hide Layout;
    hide CategoriesAgree;
    hide ChildrenOf;
    hide WellFormed;
    hide Apart;
    LayoutIsWellFormed(cfg, u, t);
    VariantBelow(cfg, key);
    var p := KeyPath(cfg, key);
    if key in m.items && Accepts(t[p], version) {
      VariantsAreLeaves(cfg, u, t, key.Parent());
      ChildIn(t, KeyPath(cfg, key.Parent()), key.variant);
      DeleteKeepsForm(t, p, version);
      forall k | k in m.items ensures KeyPath(cfg, k) == p <==> k == key {
        DistinctPaths(cfg, u, k, key);
      }
      ShrinkAgrees(cfg, u, t, m, t - {p}, m.items - {key}, {p});
    }
  }

  // ---------------------------------------------------------------- Variants and List

  lemma VariantsAgree(cfg: Config, u: iset<Path>, t: Tree, m: Plain, item: Key)
    requires Abstracts(cfg, u, t, m) && Known(cfg, u, item) && item.variant == ""
    ensures ChildrenOf(t, KeyPath(cfg, item)) == VariantsOf(m, item)
  {
    hide KeyPath;
    hide Layout;
    hide CategoriesAgree;
    hide ChildrenOf;
    VariantsAreLeaves(cfg, u, t, item);
    forall v ensures v in ChildrenOf(t, KeyPath(cfg, item)) <==> v in VariantsOf(m, item) {
      var k := item.(variant := v);
      assert Known(cfg, u, k);
      assert v in VariantsOf(m, item) <==> v != "" && k in m.items;
    }
  }

  lemma NamesAgree(cfg: Config, u: iset<Path>, t: Tree, m: Plain, category: Path, names: seq<string>)
    requires Abstracts(cfg, u, t, m) && category in u
    requires NamesUnder(t, CategoryPath(cfg, category), names)
    ensures Listing(names, NamesIn(m, category))
  {
    hide KeyPath;
    hide CategoryPath;
    hide Placed;
    hide ItemNames;
    hide NamesUnder;
    hide CategoriesAgree;
    forall bucket, name | CategoryPath(cfg, category) + [bucket, name] in t ensures Filed(cfg, bucket, name) {
      BelowBuckets(cfg, u, t, category, bucket, name);
    }
    ListExactIff(cfg, t, category, names);
    forall name ensures name in ItemNames(cfg, t, category) <==> name in NamesIn(m, category) {
      ItemNamesIn(cfg, t, category, name);
      var k := Key(category, name, "");
      assert k in m.items ==> Known(cfg, u, k);
      assert name in NamesIn(m, category) <==> k in m.items;
    }
  }

  // ---------------------------------------------------------------- every run

  /** One operation on the tree and the same operation on the plain map stay in step. */
  lemma StepRefines(cfg: Config, u: iset<Path>, t: Tree, m: Plain, op: Op, t': Tree, out: Out)
    requires ValidConfig(cfg) && Abstracts(cfg, u, t, m) && Covered(cfg, u, op.Category())
    requires Step(cfg, t, op, t', out)
    ensures var (m', plain) := PlainStep(cfg, m, op); Agree(out, plain) && Abstracts(cfg, u, t', m')
  {
    hide KeyPath;
    hide Layout;
    hide ItemsAgree;
    hide CategoriesAgree;
    hide Listing;
    match op
    case Put(item) =>
      if ValidateItem(item).None? && Resolve(cfg, item.ident).Ok? {
        KnownKey(cfg, u, item.ident);
        ResolvedIsProper(cfg, item.ident);
        PutAgrees(cfg, u, t, m, KeyOf(item.ident), item.ident, item.data);
      }
    case Get(ident) =>
      if Resolve(cfg, ident).Ok? {
        KnownKey(cfg, u, ident);
        InStep(cfg, u, t, m, KeyOf(ident));
      }
    case Variants(l) =>
      var ident := ItemIdent(l.category, l.name);
      if Resolve(cfg, ident).Ok? {
        KnownKey(cfg, u, ident);
        InStep(cfg, u, t, m, KeyOf(ident));
        VariantsAgree(cfg, u, t, m, KeyOf(ident));
      }
    case Delete(ident) =>
      if Resolve(cfg, ident).Ok? {
        DeleteRefines(cfg, u, t, m, ident, t', out.failure);
      }
    case List(category) =>
      if ResolveCategory(cfg, category).Ok? {
        CategoryInStep(cfg, u, t, m, Segments(category));
        if CategoryPath(cfg, Segments(category)) in t {
          NamesAgree(cfg, u, t, m, Segments(category), out.names.value);
        }
      }
  }

  lemma CategoryInStep(cfg: Config, u: iset<Path>, t: Tree, m: Plain, category: Path)
    requires Abstracts(cfg, u, t, m) && category in u
    ensures category in m.categories <==> CategoryPath(cfg, category) in t
  {
  }

  lemma DeleteRefines(cfg: Config, u: iset<Path>, t: Tree, m: Plain, ident: Ident, t': Tree, failure: Option<Error>)
    requires Abstracts(cfg, u, t, m) && Covered(cfg, u, ident.category) && Resolve(cfg, ident).Ok?
    requires DeleteStep(cfg, t, ident, t', failure)
    ensures var (m', f) := PlainDelete(m, KeyOf(ident), ident.ActualVersion());
            failure == f && Abstracts(cfg, u, t', m')
  {
    hide KeyPath;
    hide Layout;
    hide ItemsAgree;
    hide CategoriesAgree;
    hide Listing;
    hide Resolve;
    hide PlainDelete;
    hide DeleteItemAt;
    hide DeleteVariantAt;
    KnownKey(cfg, u, ident);
    var key := KeyOf(ident);
    var p := KeyPath(cfg, key);
    InStep(cfg, u, t, m, key);
    if ident.variant != "" {
      DeleteVariantAgrees(cfg, u, t, m, key, ident.ActualVersion());
    } else if p in t {
      var children :| Listing(children, ChildrenOf(t, p))
        && Deleted(t', failure) == DeleteItemAt(t, p, ident.ActualVersion(), children);
      DeleteItemAgrees(cfg, u, t, m, key, ident.ActualVersion(), children);
    } else {
      PlainDeleteAbsent(m, key, ident.ActualVersion());
    }
  }

  lemma PlainDeleteAbsent(m: Plain, key: Key, version: int)
    requires key !in m.items
    ensures PlainDelete(m, key, version) == (m, None)
  {
  }

  /** The trees and answers of a run of the store, from `trees[0]` on. */
  ghost predicate IsRun(cfg: Config, trees: seq<Tree>, ops: seq<Op>, outs: seq<Out>) {
    && |trees| == |ops| + 1 && |outs| == |ops|
    && forall i :: 0 <= i < |ops| ==> Step(cfg, trees[i], ops[i], trees[i + 1], outs[i])
  }

  function PlainRun(cfg: Config, m: Plain, ops: seq<Op>): (seq<PlainOut>, Plain)
    decreases |ops|
  {
    if ops == [] then ([], m)
    else
      var (m', out) := PlainStep(cfg, m, ops[0]);
      var (outs, last) := PlainRun(cfg, m', ops[1..]);
      ([out] + outs, last)
  }

  ghost predicate AllAgree(outs: seq<Out>, plain: seq<PlainOut>) {
    |outs| == |plain| && forall i :: 0 <= i < |outs| ==> Agree(outs[i], plain[i])
  }

  /**
   The main result: whatever finite sequence of operations a single client runs, every answer is
   the one the plain map gives, and the final tree still represents the plain map.
   */
  lemma {:induction false} RunRefines(cfg: Config, u: iset<Path>, trees: seq<Tree>, ops: seq<Op>, outs: seq<Out>,
                                      m: Plain)
    requires ValidConfig(cfg) && IsRun(cfg, trees, ops, outs)
    requires forall op :: op in ops ==> Covered(cfg, u, op.Category())
    requires Abstracts(cfg, u, trees[0], m)
    ensures var (plain, last) := PlainRun(cfg, m, ops);
            AllAgree(outs, plain) && Abstracts(cfg, u, trees[|ops|], last)
    decreases |ops|
  {
    hide PlainStep;
    hide Step;
    hide Abstracts;
    hide Agree;
    if ops != [] {
      StepRefines(cfg, u, trees[0], m, ops[0], trees[1], outs[0]);
      var (m', plain) := PlainStep(cfg, m, ops[0]);
      var trees', ops', outs' := trees[1..], ops[1..], outs[1..];
      assert IsRun(cfg, trees', ops', outs') by {
        forall i | 0 <= i < |ops'| ensures Step(cfg, trees'[i], ops'[i], trees'[i + 1], outs'[i]) {
          assert trees'[i] == trees[i + 1] && trees'[i + 1] == trees[i + 2];
          assert Step(cfg, trees[i + 1], ops[i + 1], trees[i + 1 + 1], outs[i + 1]);
        }
      }
      RunRefines(cfg, u, trees', ops', outs', m');
    }
  }

  /** The categories a list of operations works on, as far as the store accepts them. */
  ghost function Used(cfg: Config, ops: seq<Op>): iset<Path> {
    iset op | op in ops && ResolveCategory(cfg, op.Category()).Ok? :: Segments(op.Category())
  }

  /** The same from a store that has never been written to, for operations whose categories are apart. */
  lemma FreshRunRefines(cfg: Config, trees: seq<Tree>, ops: seq<Op>, outs: seq<Out>)
    requires ValidConfig(cfg) && IsRun(cfg, trees, ops, outs) && Fresh(cfg, trees[0])
    requires Apart(cfg, Used(cfg, ops))
    ensures AllAgree(outs, PlainRun(cfg, NOTHING_STORED, ops).0)
  {
    FreshIsEmpty(cfg, Used(cfg, ops), trees[0]);
    RunRefines(cfg, Used(cfg, ops), trees, ops, outs, NOTHING_STORED);
  }

  // ---------------------------------------------------------------- when every run refines

  /** Every run over the categories `u` from a store never written to answers as the plain map does. */
  ghost predicate AlwaysAgrees(cfg: Config, u: iset<Path>) {
    forall trees, ops, outs ::
      IsRun(cfg, trees, ops, outs) && Fresh(cfg, trees[0]) && Used(cfg, ops) <= u ==>
        AllAgree(outs, PlainRun(cfg, NOTHING_STORED, ops).0)
  }

  /** `c` is what the store makes of some category it accepts. */
  ghost predicate Accepted(cfg: Config, c: Path) {
    exists category :: ResolveCategory(cfg, category).Ok? && Segments(category) == c
  }

  /**
   The exact condition: the store refines the plain map over a set of categories, in every run, if
   and only if none of them lies below another's buckets node.
   */
  lemma RefinesIffApart(cfg: Config, u: iset<Path>, name: string)
    requires ValidConfig(cfg) && forall c :: c in u ==> Accepted(cfg, c)
    requires ValidateNamed(name, true).None? && cfg.bucketOf(name).Ok?
    ensures AlwaysAgrees(cfg, u) <==> Apart(cfg, u)
  {
    hide PlainRun;
    hide AllAgree;
    hide Fresh;
    hide Step;
    hide ValidConfig;
    hide ValidateNamed;
    hide Segments;
    hide Intrudes;
    if Apart(cfg, u) {
      forall trees, ops, outs | IsRun(cfg, trees, ops, outs) && Fresh(cfg, trees[0]) && Used(cfg, ops) <= u
        ensures AllAgree(outs, PlainRun(cfg, NOTHING_STORED, ops).0)
      {
        FreshRunRefines(cfg, trees, ops, outs);
      }
    } else {
      forall c | c in u ensures !EndsInBuckets(cfg, c) {
        var category :| ResolveCategory(cfg, category).Ok? && Segments(category) == c;
      }
      var inner, outer :| inner in u && outer in u && Intrudes(cfg, inner, outer);
      assert Accepted(cfg, inner) && Accepted(cfg, outer);
      var a :| ResolveCategory(cfg, a).Ok? && Segments(a) == inner;
      var b :| ResolveCategory(cfg, b).Ok? && Segments(b) == outer;
      hide ResolveCategory;
      var trees, ops, outs := Disagreement(cfg, a, b, name);
      assert Used(cfg, ops) <= u;
    }
  }

  /** A Put into a category and a List of one it intrudes on: the map finds nothing, the store something. */
  lemma Disagreement(cfg: Config, a: string, b: string, name: string)
    returns (trees: seq<Tree>, ops: seq<Op>, outs: seq<Out>)
    requires ValidConfig(cfg) && ResolveCategory(cfg, a).Ok? && ResolveCategory(cfg, b).Ok?
    requires Intrudes(cfg, Segments(a), Segments(b))
    requires ValidateNamed(name, true).None? && cfg.bucketOf(name).Ok?
    ensures IsRun(cfg, trees, ops, outs) && Fresh(cfg, trees[0])
    ensures forall op :: op in ops ==> op.Category() == a || op.Category() == b
    ensures !AllAgree(outs, PlainRun(cfg, NOTHING_STORED, ops).0)
  {
    hide PutStep;
    hide PlainRun;
    hide Fresh;
    hide Step;
    hide IsRun;
    hide AllAgree;
    hide Segments;
    hide CategoryPath;
    hide Intrudes;
    hide ResolveCategory;
    hide ValidateNamed;
    hide ValidConfig;
    var item := Item(Ident(a, name, "", Unset), []);
    var t: Tree := map[[] := Znode([], 0)];
    IntruderReaches(cfg, t, item, Segments(b));
    MapFindsNothing(cfg, item, b);
    var t' := PutStep(cfg, t, item).0;
    PutIsStep(cfg, t, item);
    var found := ListFinds(cfg, t', b);
    trees, ops, outs := [t, t', t'], [Put(item), List(b)], [Stored(PutStep(cfg, t, item).1), found];
    TwoSteps(cfg, trees, ops, outs);
  }

  lemma PutIsStep(cfg: Config, t: Tree, item: Item)
    ensures Step(cfg, t, Put(item), PutStep(cfg, t, item).0, Stored(PutStep(cfg, t, item).1))
  {
    hide PutStep;
  }

  /** Where the category's buckets node exists, List answers with some names. */
  lemma ListFinds(cfg: Config, t: Tree, category: string) returns (out: Out)
    requires ResolveCategory(cfg, category).Ok? && CategoryPath(cfg, Segments(category)) in t
    ensures Step(cfg, t, List(category), t, out) && out.Names? && out.names.Ok?
  {
    hide NamesUnder;
    var names := ListAnswer(t, CategoryPath(cfg, Segments(category)));
    out := Names(Ok(names));
  }

  lemma TwoSteps(cfg: Config, trees: seq<Tree>, ops: seq<Op>, outs: seq<Out>)
    requires |trees| == 3 && |ops| == |outs| == 2
    requires Step(cfg, trees[0], ops[0], trees[1], outs[0]) && Step(cfg, trees[1], ops[1], trees[2], outs[1])
    requires outs[1].Names? && outs[1].names.Ok?
    ensures IsRun(cfg, trees, ops, outs)
    ensures forall plain :: |plain| == 2 && plain[1] == PlainNames(Err(NotFound)) ==> !AllAgree(outs, plain)
  {
    hide Step;
  }

  lemma MapFindsNothing(cfg: Config, item: Item, b: string)
    requires ResolveCategory(cfg, b).Ok? && Segments(item.ident.category) != Segments(b)
    ensures var plain := PlainRun(cfg, NOTHING_STORED, [Put(item), List(b)]).0;
            |plain| == 2 && plain[1] == PlainNames(Err(NotFound))
  {
    hide Resolve;
    hide ValidateItem;
    hide Segments;
    hide ResolveCategory;
    var ops := [Put(item), List(b)];
    var (m, out) := PlainStep(cfg, NOTHING_STORED, ops[0]);
    assert m.categories <= {Segments(item.ident.category)};
    assert ops[1..] == [List(b)] && ops[1..][1..] == [];
    assert PlainRun(cfg, m, [List(b)]).0 == [PlainNames(Err(NotFound))];
  }

  /** Such a Put into an empty tree creates the other category's buckets node. */
  lemma IntruderReaches(cfg: Config, t: Tree, item: Item, outer: Path)
    requires ValidConfig(cfg) && ResolveCategory(cfg, item.ident.category).Ok?
    requires ValidateNamed(item.ident.name, true).None? && cfg.bucketOf(item.ident.name).Ok?
    requires t == map[[] := Znode([], 0)] && item == Item(Ident(item.ident.category, item.ident.name, "", Unset), [])
    requires Intrudes(cfg, Segments(item.ident.category), outer)
    ensures Fresh(cfg, t) && CategoryPath(cfg, outer) in PutStep(cfg, t, item).0
    ensures Segments(item.ident.category) != outer
  {
    hide ValidConfig;
    hide ValidateCategory;
    hide Segments;
    var key := KeyOf(item.ident);
    assert Resolve(cfg, item.ident) == Ok(KeyPath(cfg, key));
    ResolvesToKey(cfg, item.ident);
    hide KeyPath;
    hide CategoryPath;
    hide Filled;
    var p, c := KeyPath(cfg, key), CategoryPath(cfg, outer);
    IntruderPath(cfg, key, outer);
    assert PutStep(cfg, t, item).0 == Filled(t, p, false, [], |p|);
    FilledMembers(t, p, false, [], |p|, c);
  }
}
