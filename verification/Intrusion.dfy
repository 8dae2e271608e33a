/**
 Categories below another category's buckets node. The store accepts them, as its guard looks at the
 last segment only; what follows says exactly what a Put into one does to the other category.
 */
module Intrusion {
  import opened Types
  import opened Paths
  import opened Decimal
  import opened Idents
  import opened ZkTree
  import opened StorePaths
  import opened StoreSpec
  import opened Layouts
  import opened PlainMaps
  import opened Deletions
  import opened Listings
  import opened Refinement
  import opened Frames

  // ---------------------------------------------------------------- what an intruder leaves behind

  /** A Put into a category that intrudes on `outer`, when the tree still represents the map. */
  ghost predicate Intruding(cfg: Config, u: iset<Path>, t: Tree, m: Plain, item: Item, outer: Path) {
    && ValidConfig(cfg) && Abstracts(cfg, u, t, m) && outer in u
    && ValidateItem(item).None? && Resolve(cfg, item.ident).Ok?
    && Intrudes(cfg, Segments(item.ident.category), outer)
  }

  /** What the operations on the other category take the intruder's path for. */
  datatype Spot = Spot(bucket: string, name: string, variant: string)

  ghost function SpotOf(cfg: Config, key: Key, outer: Path): Spot
    requires cfg.bucketOf(key.name).Ok? && Intrudes(cfg, key.category, outer)
  {
    IntruderPath(cfg, key, outer);
    var p, n := KeyPath(cfg, key), |CategoryPath(cfg, outer)|;
    Spot(p[n], p[n + 1], p[n + 2])
  }

  lemma SpotPath(cfg: Config, key: Key, outer: Path)
    requires cfg.bucketOf(key.name).Ok? && Intrudes(cfg, key.category, outer)
    ensures var c, p, s := CategoryPath(cfg, outer), KeyPath(cfg, key), SpotOf(cfg, key, outer);
            && |p| >= |c| + 4 + |Tail(key.variant)|
            && p[..|c|] == c
            && p[..|c| + 2] == c + [s.bucket, s.name]
            && p[..|c| + 3] == c + [s.bucket, s.name, s.variant]
  {
    hide KeyPath;
    hide CategoryPath;
    hide Intrudes;
    IntruderPath(cfg, key, outer);
  }

  /** The spot is read off the intruding category: the segments after the buckets name, and what comes next. */
  lemma SpotSegments(cfg: Config, key: Key, outer: Path)
    requires cfg.bucketOf(key.name).Ok? && Intrudes(cfg, key.category, outer)
    ensures var s, rest := SpotOf(cfg, key, outer), key.category[|outer| + 1..];
            && s.bucket == rest[0]
            && s.name == (if |rest| > 1 then rest[1] else cfg.bucketsName)
            && s.variant == (if |rest| > 2 then rest[2] else if |rest| == 2 then cfg.bucketsName
                             else Itoa(cfg.bucketOf(key.name).value))
  {
    var rest := key.category[|outer| + 1..];
    SpotAt(cfg, key, outer, 0);
    SpotAt(cfg, key, outer, 1);
    SpotAt(cfg, key, outer, 2);
  }

  lemma SpotAt(cfg: Config, key: Key, outer: Path, i: nat)
    requires cfg.bucketOf(key.name).Ok? && Intrudes(cfg, key.category, outer) && i <= |key.category| - |outer|
    ensures var n, rest := |CategoryPath(cfg, outer)|, key.category[|outer| + 1..];
            && n + i < |KeyPath(cfg, key)|
            && KeyPath(cfg, key)[n + i] == (if i < |rest| then rest[i] else if i == |rest| then cfg.bucketsName
                                            else Itoa(cfg.bucketOf(key.name).value))
  {
    KeyPathParts(cfg, key);
    hide KeyPath;
    hide Segments;
    var p, base := KeyPath(cfg, key), Segments(cfg.basePath);
    var n, k := |CategoryPath(cfg, outer)|, |base| + |key.category|;
    if n + i < k {
      assert p[n + i] == p[|base|..k][n + i - |base|];
    }
  }

  /** The intruder passes through the node of `k`, a key of the other category. */
  ghost predicate PassesThrough(cfg: Config, key: Key, outer: Path, k: Key)
    requires cfg.bucketOf(key.name).Ok? && Intrudes(cfg, key.category, outer)
  {
    var s := SpotOf(cfg, key, outer);
    Filed(cfg, s.bucket, s.name) && (k == Key(outer, s.name, "") || k == Key(outer, s.name, s.variant))
  }

  lemma PassesIff(cfg: Config, u: iset<Path>, key: Key, outer: Path, k: Key)
    requires Apart(cfg, u) && outer in u && Known(cfg, u, k)
    requires cfg.bucketOf(key.name).Ok? && Intrudes(cfg, key.category, outer) && Proper(KeyPath(cfg, key))
    ensures KeyPath(cfg, k) <= KeyPath(cfg, key) <==> PassesThrough(cfg, key, outer, k)
  {
    var c, p, q, s := CategoryPath(cfg, outer), KeyPath(cfg, key), KeyPath(cfg, k), SpotOf(cfg, key, outer);
    SpotPath(cfg, key, outer);
    hide Apart;
    hide Intrudes;
    hide KeyPath;
    hide CategoryPath;
    hide SpotOf;
    assert s.variant == p[..|c| + 3][|c| + 2] == p[|c| + 2] && s.variant in p;
    assert s.variant != "";
    if q <= p {
      KeyPathParts(cfg, k);
      assert CategoryPath(cfg, k.category) <= p;
      OneCategory(cfg, u, outer, k.category, p);
      AtSpot(cfg, outer, k, p, s);
    }
    if PassesThrough(cfg, key, outer, k) {
      ItemPathShape(cfg, outer, s.name);
      if k.variant != "" {
        VariantBelow(cfg, k);
        assert q == c + [s.bucket, s.name, s.variant];
      }
    }
  }

  /** A key whose path agrees with the intruder's agrees with its spot. */
  lemma AtSpot(cfg: Config, outer: Path, k: Key, p: Path, s: Spot)
    requires cfg.bucketOf(k.name).Ok? && k.category == outer && KeyPath(cfg, k) <= p
    requires var c := CategoryPath(cfg, outer); |p| >= |c| + 3 && p[..|c| + 3] == c + [s.bucket, s.name, s.variant]
    ensures Filed(cfg, s.bucket, s.name) && k.name == s.name && (k.variant == "" || k.variant == s.variant)
  {
    var c, q := CategoryPath(cfg, outer), KeyPath(cfg, k);
    assert q == c + [Itoa(cfg.bucketOf(k.name).value), k.name] + Tail(k.variant);
    assert q[|c|] == p[|c|] == p[..|c| + 3][|c|] == s.bucket;
    assert q[|c| + 1] == p[|c| + 1] == p[..|c| + 3][|c| + 1] == s.name;
    if k.variant != "" {
      assert q[|c| + 2] == p[|c| + 2] == p[..|c| + 3][|c| + 2] == s.variant;
    }
  }

  /** How far down the Put creates nodes: an explicit version stops it short of its target. */
  function Reach(cfg: Config, item: Item): nat
    requires cfg.bucketOf(item.ident.name).Ok?
  {
    var n := |KeyPath(cfg, KeyOf(item.ident))|;
    if item.ident.ActualVersion() >= 0 && n > 0 then n - 1 else n
  }

  lemma IntrudingFacts(cfg: Config, u: iset<Path>, t: Tree, m: Plain, item: Item, outer: Path)
    requires Intruding(cfg, u, t, m, item, outer)
    ensures Abstracts(cfg, u, t, m) && Layout(cfg, u, t) && outer in u
    ensures cfg.bucketOf(item.ident.name).Ok? && cfg.bucketOf(KeyOf(item.ident).name).Ok?
    ensures Intrudes(cfg, KeyOf(item.ident).category, outer)
  {
  }

  lemma IntruderFills(cfg: Config, u: iset<Path>, t: Tree, m: Plain, item: Item, outer: Path)
    requires Intruding(cfg, u, t, m, item, outer)
    ensures var p, t' := KeyPath(cfg, KeyOf(item.ident)), PutStep(cfg, t, item).0;
            && Proper(p) && |p| - 1 <= Reach(cfg, item) <= |p| && WellFormed(t') && Apart(cfg, u)
            && t' == Filled(t, p, item.ident.variant != "", item.data, Reach(cfg, item))
  {
    IntrudingFacts(cfg, u, t, m, item, outer);
    PutAbsent(cfg, t, item);
    hide Intruding;
    hide Abstracts;
    hide KeyPath;
    hide Layout;
    hide Apart;
    hide Intrudes;
    hide Filled;
    hide WellFormed;
    hide PutStep;
    LayoutIsWellFormed(cfg, u, t);
    var key := KeyOf(item.ident);
    IntruderAbsent(cfg, u, t, key, outer);
    FilledKeepsForm(t, KeyPath(cfg, key), item.ident.variant != "", item.data, Reach(cfg, item));
  }

  /** A Put to an absent target fills in what is missing, as far as its version allows. */
  lemma PutAbsent(cfg: Config, t: Tree, item: Item)
    requires ValidConfig(cfg) && ValidateItem(item).None? && Resolve(cfg, item.ident).Ok?
    ensures var p := KeyPath(cfg, KeyOf(item.ident));
            && Proper(p) && |p| - 1 <= Reach(cfg, item) <= |p|
            && (p !in t ==>
                  PutStep(cfg, t, item).0 == Filled(t, p, item.ident.variant != "", item.data, Reach(cfg, item)))
  {
    ResolvesToKey(cfg, item.ident);
    ResolvedIsProper(cfg, item.ident);
    hide KeyPath;
    hide Filled;
    hide Resolve;
    hide ValidConfig;
    hide ValidateItem;
  }

  /** A laid-out tree holds nothing at an intruding key's path. */
  lemma IntruderAbsent(cfg: Config, u: iset<Path>, t: Tree, key: Key, outer: Path)
    requires Layout(cfg, u, t) && outer in u
    requires cfg.bucketOf(key.name).Ok? && Intrudes(cfg, key.category, outer)
    ensures KeyPath(cfg, key) !in t
  {
    hide Layout;
    hide KeyPath;
    IntruderPath(cfg, key, outer);
    if KeyPath(cfg, key) in t {
      var above := KeyBelow(cfg, u, t, outer, KeyPath(cfg, key));
      KeyPathParts(cfg, above);
    }
  }

  // ---------------------------------------------------------------- Get

  /**
   After an intruding Put the nodes of the other categories' keys are those of the map, and those the
   intruder passed through: empty, at version 0.
   */
  lemma KeysAfterIntrusion(cfg: Config, u: iset<Path>, t: Tree, m: Plain, item: Item, outer: Path, k: Key)
    requires Intruding(cfg, u, t, m, item, outer) && Known(cfg, u, k)
    ensures var q, t' := KeyPath(cfg, k), PutStep(cfg, t, item).0;
            && (q in t' <==> k in m.items || PassesThrough(cfg, KeyOf(item.ident), outer, k))
            && (k in m.items ==> t'[q] == m.items[k])
            && (q in t' && k !in m.items ==> t'[q] == Znode([], 0))
  {
    hide *;
    IntrudingFacts(cfg, u, t, m, item, outer);
    KeyFacts(cfg, u, item.ident, k);
    var key := KeyOf(item.ident);
    var p, q, n := KeyPath(cfg, key), KeyPath(cfg, k), Reach(cfg, item);
    var hv, data := item.ident.variant != "", item.data;
    IntruderFills(cfg, u, t, m, item, outer);
    InStep(cfg, u, t, m, k);
    PassesIff(cfg, u, key, outer, k);
    SpotPath(cfg, key, outer);
    if q <= p {
      PassesDepth(cfg, key, outer, k);
    }
    FilledMembers(t, p, hv, data, n, q);
    if q in PutStep(cfg, t, item).0 {
      FilledEntry(t, p, hv, data, n, q);
      EmptyAbove(p, hv, data, |q|);
    }
  }

  lemma KeyFacts(cfg: Config, u: iset<Path>, ident: Ident, k: Key)
    requires Known(cfg, u, k)
    ensures cfg.bucketOf(k.name).Ok? && |Tail(KeyOf(ident).variant)| == if ident.variant != "" then 1 else 0
  {
  }

  lemma PassesDepth(cfg: Config, key: Key, outer: Path, k: Key)
    requires cfg.bucketOf(key.name).Ok? && Intrudes(cfg, key.category, outer) && PassesThrough(cfg, key, outer, k)
    ensures cfg.bucketOf(k.name).Ok? && |KeyPath(cfg, k)| <= |CategoryPath(cfg, outer)| + 3
  {
    hide SpotOf;
    hide Intrudes;
  }

  lemma EmptyAbove(p: Path, hasVariant: bool, data: Bytes, k: nat)
    ensures k < |p| - (if hasVariant then 1 else 0) ==> DataAt(p, hasVariant, data, k) == []
  {
  }

  /** Get still answers as the map unless the intruder passed through an item nobody stored. */
  lemma GetAfterIntrusionIff(cfg: Config, u: iset<Path>, t: Tree, m: Plain, item: Item, outer: Path, ident: Ident)
    requires Intruding(cfg, u, t, m, item, outer)
    requires Resolve(cfg, ident).Ok? && Covered(cfg, u, ident.category)
    ensures var got, key := GetResult(cfg, PutStep(cfg, t, item).0, ident), KeyOf(item.ident);
            && (Agree(Fetched(got), PlainStep(cfg, m, Get(ident)).1) <==>
                  PassesThrough(cfg, key, outer, KeyOf(ident)) ==> KeyOf(ident) in m.items)
            && (PassesThrough(cfg, key, outer, KeyOf(ident)) && KeyOf(ident) !in m.items ==>
                  got == Ok(Item(ident.(version := At(0)), [])))
  {
    hide *;
    IntrudingFacts(cfg, u, t, m, item, outer);
    KnownKey(cfg, u, ident);
    KeysAfterIntrusion(cfg, u, t, m, item, outer, KeyOf(ident));
    BothGet(cfg, PutStep(cfg, t, item).0, m, ident);
  }

  lemma BothGet(cfg: Config, t: Tree, m: Plain, ident: Ident)
    requires Resolve(cfg, ident).Ok?
    ensures var p, k, got := Resolve(cfg, ident).value, KeyOf(ident), GetResult(cfg, t, ident);
            && got == (if p in t then Ok(Item(ident.(version := At(t[p].version)), t[p].data)) else Err(NotFound))
            && (Agree(Fetched(got), PlainStep(cfg, m, Get(ident)).1) <==>
                  (p in t <==> k in m.items) && (p in t && k in m.items ==> t[p] == m.items[k]))
  {
    hide Resolve;
  }

  // ---------------------------------------------------------------- Put

  /**
   A Put on the other categories still answers as the map unless the intruder passed through a key nobody
   stored; and even then if it names a version above 0, which is refused either way.
   */
  lemma PutAfterIntrusionIff(cfg: Config, u: iset<Path>, t: Tree, m: Plain, item: Item, outer: Path, next: Item)
    requires Intruding(cfg, u, t, m, item, outer) && Covered(cfg, u, next.ident.category)
    requires ValidateItem(next).None? && Resolve(cfg, next.ident).Ok?
    ensures Agree(Stored(PutStep(cfg, PutStep(cfg, t, item).0, next).1), PlainStep(cfg, m, Put(next)).1) <==>
            PassesThrough(cfg, KeyOf(item.ident), outer, KeyOf(next.ident)) ==>
              KeyOf(next.ident) in m.items || (next.ident.version.At? && next.ident.version.number > 0)
  {
    hide *;
    IntrudingFacts(cfg, u, t, m, item, outer);
    KnownKey(cfg, u, next.ident);
    ResolvesToKey(cfg, next.ident);
    KeysAfterIntrusion(cfg, u, t, m, item, outer, KeyOf(next.ident));
    BothPut(cfg, PutStep(cfg, t, item).0, m, next);
  }

  /** Whether a Put on the tree and on the map answer alike depends on what is at the target only. */
  lemma BothPut(cfg: Config, t: Tree, m: Plain, next: Item)
    requires ValidateItem(next).None? && Resolve(cfg, next.ident).Ok? && cfg.bucketOf(next.ident.name).Ok?
    requires cfg.bucketOf(KeyOf(next.ident).name).Ok?
    requires Resolve(cfg, next.ident).value == KeyPath(cfg, KeyOf(next.ident))
    requires var p, k := Resolve(cfg, next.ident).value, KeyOf(next.ident);
             && (k in m.items ==> p in t && t[p] == m.items[k])
             && (p in t && k !in m.items ==> t[p] == Znode([], 0))
    ensures var p, k, v := Resolve(cfg, next.ident).value, KeyOf(next.ident), next.ident.version;
            Agree(Stored(PutStep(cfg, t, next).1), PlainStep(cfg, m, Put(next)).1) <==>
            (p in t ==> k in m.items || (v.At? && v.number > 0))
  {
    KeyPathParts(cfg, KeyOf(next.ident));
    var p, k := Resolve(cfg, next.ident).value, KeyOf(next.ident);
    hide Resolve;
    hide ValidateItem;
    hide KeyPath;
    hide KeyOf;
    assert p != [];
    AnswersCompare(t, p, m, k, next.ident, next.data);
  }

  lemma AnswersCompare(t: Tree, p: Path, m: Plain, k: Key, ident: Ident, data: Bytes)
    requires p != [] && (k in m.items ==> p in t && t[p] == m.items[k])
    requires p in t && k !in m.items ==> t[p] == Znode([], 0)
    ensures PutAt(t, p, ident, data).result == PlainPut(m, k, ident.version, data).1 <==>
            (p in t ==> k in m.items || (ident.version.At? && ident.version.number > 0))
  {
    if p !in t {
      FilledMembers(t, p, ident.variant != "", data, |p|, p);
      hide Filled;
      FilledTarget(t, p, ident.variant != "", data);
    }
  }

  lemma FilledTarget(t: Tree, p: Path, hasVariant: bool, data: Bytes)
    requires p !in t
    ensures p in Filled(t, p, hasVariant, data, |p|) && Filled(t, p, hasVariant, data, |p|)[p].version == 0
  {
    PrefixIn(p, |p|, p);
  }

  // ---------------------------------------------------------------- List

  /** Two levels below the buckets node, all names sit in their buckets exactly when the intruder's does. */
  lemma FiledAfterIntrusion(cfg: Config, u: iset<Path>, t: Tree, m: Plain, item: Item, outer: Path)
    requires Intruding(cfg, u, t, m, item, outer)
    ensures var s := SpotOf(cfg, KeyOf(item.ident), outer);
            AllFiled(cfg, PutStep(cfg, t, item).0, outer) <==> Filed(cfg, s.bucket, s.name)
  {
    IntruderFills(cfg, u, t, m, item, outer);
    ResolvesToKey(cfg, item.ident);
    hide PutStep;
    hide Resolve;
    hide KeyPath;
    hide CategoryPath;
    hide Filled;
    hide Intrudes;
    hide Layout;
    hide ItemsAgree;
    hide CategoriesAgree;
    hide SpotOf;
    hide WellFormed;
    hide Apart;
    hide ValidConfig;
    hide ValidateItem;
    hide Filed;
    var key := KeyOf(item.ident);
    var c, p, s, n := CategoryPath(cfg, outer), KeyPath(cfg, key), SpotOf(cfg, key, outer), Reach(cfg, item);
    SpotPath(cfg, key, outer);
    var t' := Filled(t, p, item.ident.variant != "", item.data, n);
    FilledMembers(t, p, item.ident.variant != "", item.data, n, c + [s.bucket, s.name]);
    forall bucket, name | c + [bucket, name] in t'
      ensures Filed(cfg, bucket, name) || (bucket == s.bucket && name == s.name)
    {
      var q := c + [bucket, name];
      FilledMembers(t, p, item.ident.variant != "", item.data, n, q);
      if q in t {
        BelowBuckets(cfg, u, t, outer, bucket, name);
        assert Filed(cfg, bucket, name) by { FiledByName(cfg, bucket, name); }
      } else {
        assert q == c + [s.bucket, s.name];
        assert q[|c|] == bucket && q[|c| + 1] == name;
      }
    }
  }

  lemma FiledByName(cfg: Config, bucket: string, name: string)
    requires cfg.bucketOf(name).Ok? && bucket == Itoa(cfg.bucketOf(name).value)
    ensures Filed(cfg, bucket, name)
  {
  }

  /**
   After an intruding Put, List of the other category returns the items of the map, each once and
   nothing else, if and only if the intruder's spot is an item the map already holds.
   */
  lemma IntrusionSpoilsListIff(cfg: Config, u: iset<Path>, t: Tree, m: Plain, item: Item, outer: Path,
                               names: seq<string>)
    requires Intruding(cfg, u, t, m, item, outer)
    requires NamesUnder(PutStep(cfg, t, item).0, CategoryPath(cfg, outer), names)
    ensures var s := SpotOf(cfg, KeyOf(item.ident), outer);
            Listing(names, NamesIn(m, outer)) <==> Filed(cfg, s.bucket, s.name) && Key(outer, s.name, "") in m.items
  {
    IntruderFills(cfg, u, t, m, item, outer);
    FiledAfterIntrusion(cfg, u, t, m, item, outer);
    NamesAfterIntrusion(cfg, u, t, m, item, outer);
    var s, t' := SpotOf(cfg, KeyOf(item.ident), outer), PutStep(cfg, t, item).0;
    ListExactIff(cfg, t', outer, names);
    NameIn(m, outer, s.name);
    ExactWithOneMore(names, ItemNames(cfg, t', outer), NamesIn(m, outer), s.name, Filed(cfg, s.bucket, s.name));
  }

  lemma NameIn(m: Plain, category: Path, name: string)
    ensures name in NamesIn(m, category) <==> Key(category, name, "") in m.items
  {
  }

  lemma ExactWithOneMore(names: seq<string>, found: set<string>, stored: set<string>, extra: string, more: bool)
    requires found == stored + if more then {extra} else {}
    requires Listing(names, found) <==> more
    ensures Listing(names, stored) <==> more && extra in stored
  {
    if more && extra in stored {
      assert found == stored;
    }
    if !more {
      assert found == stored;
    }
    if more && extra !in stored {
      assert extra in found && extra in names;
    }
  }

  lemma NamesAfterIntrusion(cfg: Config, u: iset<Path>, t: Tree, m: Plain, item: Item, outer: Path)
    requires Intruding(cfg, u, t, m, item, outer)
    ensures var s := SpotOf(cfg, KeyOf(item.ident), outer);
            ItemNames(cfg, PutStep(cfg, t, item).0, outer) ==
            NamesIn(m, outer) + if Filed(cfg, s.bucket, s.name) then {s.name} else {}
  {
    hide *;
    IntrudingFacts(cfg, u, t, m, item, outer);
    var s, t' := SpotOf(cfg, KeyOf(item.ident), outer), PutStep(cfg, t, item).0;
    forall name ensures name in ItemNames(cfg, t', outer) <==>
        name in NamesIn(m, outer) || (Filed(cfg, s.bucket, s.name) && name == s.name)
    {
      NameAfterIntrusion(cfg, u, t, m, item, outer, name);
    }
  }

  lemma NameAfterIntrusion(cfg: Config, u: iset<Path>, t: Tree, m: Plain, item: Item, outer: Path, name: string)
    requires Intruding(cfg, u, t, m, item, outer)
    ensures var s := SpotOf(cfg, KeyOf(item.ident), outer);
            name in ItemNames(cfg, PutStep(cfg, t, item).0, outer) <==>
            name in NamesIn(m, outer) || (Filed(cfg, s.bucket, s.name) && name == s.name)
  {
    hide *;
    IntrudingFacts(cfg, u, t, m, item, outer);
    VariantSpot(cfg, u, t, m, item, outer);
    ItemNamesIn(cfg, PutStep(cfg, t, item).0, outer, name);
    NameIn(m, outer, name);
    PassesItem(cfg, u, KeyOf(item.ident), outer, name);
    if cfg.bucketOf(name).Ok? {
      KeysAfterIntrusion(cfg, u, t, m, item, outer, Key(outer, name, ""));
    } else {
      OnlyKnownKeys(cfg, u, t, m, Key(outer, name, ""));
    }
  }

  lemma PassesItem(cfg: Config, u: iset<Path>, key: Key, outer: Path, name: string)
    requires cfg.bucketOf(key.name).Ok? && Intrudes(cfg, key.category, outer) && outer in u
    requires SpotOf(cfg, key, outer).variant != ""
    ensures var s := SpotOf(cfg, key, outer);
            && (PassesThrough(cfg, key, outer, Key(outer, name, "")) <==>
                  Filed(cfg, s.bucket, s.name) && name == s.name)
            && (Filed(cfg, s.bucket, s.name) && name == s.name ==> cfg.bucketOf(name).Ok?)
            && (cfg.bucketOf(name).Ok? ==> Known(cfg, u, Key(outer, name, "")))
  {
    hide SpotOf;
    hide Intrudes;
  }

  lemma OnlyKnownKeys(cfg: Config, u: iset<Path>, t: Tree, m: Plain, k: Key)
    requires Abstracts(cfg, u, t, m) && cfg.bucketOf(k.name).Err?
    ensures k !in m.items
  {
    hide Layout;
    hide CategoriesAgree;
  }

  /** List of any of the categories answers as the map, but for the one intruded on, as just said. */
  lemma ListAfterIntrusionIff(cfg: Config, u: iset<Path>, t: Tree, m: Plain, item: Item, outer: Path,
                              category: string, r: Result<seq<string>>)
    requires Intruding(cfg, u, t, m, item, outer) && Covered(cfg, u, category) && ResolveCategory(cfg, category).Ok?
    requires ListResult(cfg, PutStep(cfg, t, item).0, category, r)
    ensures var s := SpotOf(cfg, KeyOf(item.ident), outer);
            Agree(Names(r), PlainStep(cfg, m, List(category)).1) <==>
            Segments(category) == outer ==> Filed(cfg, s.bucket, s.name) && Key(outer, s.name, "") in m.items
  {
    IntrudingFacts(cfg, u, t, m, item, outer);
    var c, t' := Segments(category), PutStep(cfg, t, item).0;
    BothList(cfg, t', m, category, r);
    assert c in u;
    hide *;
    var s := SpotOf(cfg, KeyOf(item.ident), outer);
    if c == outer {
      IntruderMakesCategory(cfg, u, t, m, item, outer);
      IntrusionSpoilsListIff(cfg, u, t, m, item, outer, r.value);
      if Key(outer, s.name, "") in m.items {
        CategoryOfItem(cfg, u, t, m, Key(outer, s.name, ""));
      }
      ListsCompare(r, NamesIn(m, c), c in m.categories);
    } else {
      OtherCategory(cfg, u, t, m, item, outer, c);
      CategoryInStep(cfg, u, t, m, c);
      if CategoryPath(cfg, c) in t {
        SameNamesUnder(t, t', CategoryPath(cfg, c), r.value);
        NamesAgree(cfg, u, t, m, c, r.value);
      }
      ListsCompare(r, NamesIn(m, c), c in m.categories);
    }
  }

  lemma BothList(cfg: Config, t: Tree, m: Plain, category: string, r: Result<seq<string>>)
    requires ResolveCategory(cfg, category).Ok? && ListResult(cfg, t, category, r)
    ensures var p := CategoryPath(cfg, Segments(category));
            if p in t then r.Ok? && NamesUnder(t, p, r.value) else r == Err(NotFound)
    ensures var c := Segments(category);
            PlainStep(cfg, m, List(category)).1 ==
            PlainNames(if c in m.categories then Ok(NamesIn(m, c)) else Err(NotFound))
  {
    hide NamesUnder;
    hide CategoryPath;
    hide NamesIn;
  }

  lemma ListsCompare(r: Result<seq<string>>, names: set<string>, found: bool)
    requires r.Err? ==> r == Err(NotFound)
    ensures Agree(Names(r), PlainNames(if found then Ok(names) else Err(NotFound))) <==>
            if found then r.Ok? && Listing(r.value, names) else r.Err?
  {
  }

  lemma CategoryOfItem(cfg: Config, u: iset<Path>, t: Tree, m: Plain, k: Key)
    requires Abstracts(cfg, u, t, m) && k in m.items
    ensures k.category in m.categories
  {
    hide Layout;
    hide KeyPath;
    hide CategoryPath;
    hide Apart;
    LayoutIsWellFormed(cfg, u, t);
    KeyPathParts(cfg, k);
    var c, p := CategoryPath(cfg, k.category), KeyPath(cfg, k);
    AncestorsExist(t, p, |c|);
    assert p[..|c|] == c;
  }

  /** At and below the other categories' buckets nodes nothing changes. */
  lemma OtherCategory(cfg: Config, u: iset<Path>, t: Tree, m: Plain, item: Item, outer: Path, c: Path)
    requires Intruding(cfg, u, t, m, item, outer) && c in u && c != outer
    ensures forall q :: CategoryPath(cfg, c) <= q ==> (q in PutStep(cfg, t, item).0 <==> q in t)
  {
    hide *;
    IntrudingFacts(cfg, u, t, m, item, outer);
    IntruderFills(cfg, u, t, m, item, outer);
    IntruderPath(cfg, KeyOf(item.ident), outer);
    var p := KeyPath(cfg, KeyOf(item.ident));
    forall q | CategoryPath(cfg, c) <= q ensures q in PutStep(cfg, t, item).0 <==> q in t {
      FilledMembers(t, p, item.ident.variant != "", item.data, Reach(cfg, item), q);
      if q <= p {
        OneCategory(cfg, u, c, outer, p);
      }
    }
  }

  lemma SameNamesUnder(t: Tree, t': Tree, p: Path, names: seq<string>)
    requires forall q :: p <= q ==> (q in t' <==> q in t)
    requires NamesUnder(t', p, names)
    ensures NamesUnder(t, p, names)
  {
    hide Listing;
    var buckets, lists :|
      Listing(buckets, ChildrenOf(t', p)) && ListsOf(t', p, buckets, lists) && names == Flatten(lists);
    hide ChildrenOf;
    SameChildrenBelow(t, t', p, p);
    forall b ensures ChildrenOf(t', p + [b]) == ChildrenOf(t, p + [b]) {
      SameChildrenBelow(t, t', p, p + [b]);
    }
    assert ListsOf(t, p, buckets, lists);
  }

  lemma SameChildrenBelow(t: Tree, t': Tree, p: Path, q: Path)
    requires p <= q && forall x :: p <= x ==> (x in t' <==> x in t)
    ensures ChildrenOf(t', q) == ChildrenOf(t, q)
  {
    hide ChildrenOf;
    forall v ensures v in ChildrenOf(t', q) <==> v in ChildrenOf(t, q) {
      ChildIn(t', q, v);
      ChildIn(t, q, v);
      assert p <= q + [v];
    }
  }

  lemma VariantSpot(cfg: Config, u: iset<Path>, t: Tree, m: Plain, item: Item, outer: Path)
    requires Intruding(cfg, u, t, m, item, outer)
    ensures SpotOf(cfg, KeyOf(item.ident), outer).variant != ""
  {
    IntruderFills(cfg, u, t, m, item, outer);
    var key := KeyOf(item.ident);
    SpotPath(cfg, key, outer);
    assert SpotOf(cfg, key, outer).variant in KeyPath(cfg, key);
  }

  // ---------------------------------------------------------------- Variants

  /** The variants of every item are those of the map, and one more where the intruder passes. */
  lemma VariantsAfterIntrusion(cfg: Config, u: iset<Path>, t: Tree, m: Plain, item: Item, outer: Path, k: Key)
    requires Intruding(cfg, u, t, m, item, outer) && Known(cfg, u, k) && k.variant == ""
    ensures ChildrenOf(PutStep(cfg, t, item).0, KeyPath(cfg, k)) ==
            VariantsOf(m, k) + if PassesThrough(cfg, KeyOf(item.ident), outer, k)
                               then {SpotOf(cfg, KeyOf(item.ident), outer).variant} else {}
  {
    hide *;
    IntrudingFacts(cfg, u, t, m, item, outer);
    KeyFacts(cfg, u, item.ident, k);
    var key, t', p := KeyOf(item.ident), PutStep(cfg, t, item).0, KeyPath(cfg, k);
    var s := SpotOf(cfg, key, outer);
    forall v ensures v in ChildrenOf(t', p) <==>
        v in VariantsOf(m, k) || (PassesThrough(cfg, key, outer, k) && v == s.variant)
    {
      ChildAfterIntrusion(cfg, u, t, m, item, outer, k, v);
    }
  }

  lemma ChildAfterIntrusion(cfg: Config, u: iset<Path>, t: Tree, m: Plain, item: Item, outer: Path, k: Key, v: string)
    requires Intruding(cfg, u, t, m, item, outer) && Known(cfg, u, k) && k.variant == ""
    ensures v in ChildrenOf(PutStep(cfg, t, item).0, KeyPath(cfg, k)) <==>
            || v in VariantsOf(m, k)
            || (PassesThrough(cfg, KeyOf(item.ident), outer, k) && v == SpotOf(cfg, KeyOf(item.ident), outer).variant)
  {
    IntrudingFacts(cfg, u, t, m, item, outer);
    hide Intruding;
    hide Abstracts;
    hide Layout;
    hide Apart;
    hide Resolve;
    hide PutStep;
    hide Filled;
    hide KeyPath;
    hide CategoryPath;
    hide Intrudes;
    hide SpotOf;
    hide WellFormed;
    hide ChildrenOf;
    hide PassesThrough;
    hide VariantsOf;
    hide Segments;
    IntruderFills(cfg, u, t, m, item, outer);
    VariantSpot(cfg, u, t, m, item, outer);
    var key, t', p, kv := KeyOf(item.ident), PutStep(cfg, t, item).0, KeyPath(cfg, k), k.(variant := v);
    ChildIn(t', p, v);
    VariantIn(m, k, v);
    if v != "" {
      VariantBelow(cfg, kv);
      KeysAfterIntrusion(cfg, u, t, m, item, outer, kv);
      PassesVariant(cfg, key, outer, k, v);
    } else {
      NoBlankChild(t', p);
    }
  }

  lemma VariantIn(m: Plain, k: Key, v: string)
    requires k.variant == ""
    ensures v in VariantsOf(m, k) <==> v != "" && k.(variant := v) in m.items
  {
    var kv := k.(variant := v);
    assert kv.Parent() == k;
  }

  lemma PassesVariant(cfg: Config, key: Key, outer: Path, k: Key, v: string)
    requires cfg.bucketOf(key.name).Ok? && Intrudes(cfg, key.category, outer) && k.variant == "" && v != ""
    requires SpotOf(cfg, key, outer).variant != ""
    ensures PassesThrough(cfg, key, outer, k.(variant := v)) <==>
            PassesThrough(cfg, key, outer, k) && v == SpotOf(cfg, key, outer).variant
  {
    hide SpotOf;
    hide Intrudes;
    hide Filed;
  }

  lemma NoBlankChild(t: Tree, p: Path)
    requires WellFormed(t)
    ensures "" !in ChildrenOf(t, p)
  {
    ChildIn(t, p, "");
    assert "" in p + [""] && !Good("");
    assert !Proper(p + [""]);
  }

  /** Variants still answers as the map unless the intruder passed through the item to a variant nobody stored. */
  lemma VariantsAfterIntrusionIff(cfg: Config, u: iset<Path>, t: Tree, m: Plain, item: Item, outer: Path,
                                  location: Location, r: Result<seq<string>>)
    requires Intruding(cfg, u, t, m, item, outer) && Covered(cfg, u, location.category)
    requires Resolve(cfg, ItemIdent(location.category, location.name)).Ok?
    requires VariantsResult(cfg, PutStep(cfg, t, item).0, location.category, location.name, r)
    ensures var key, k := KeyOf(item.ident), KeyOf(ItemIdent(location.category, location.name));
            Agree(Names(r), PlainStep(cfg, m, Variants(location)).1) <==>
            PassesThrough(cfg, key, outer, k) ==> k.(variant := SpotOf(cfg, key, outer).variant) in m.items
  {
    IntrudingFacts(cfg, u, t, m, item, outer);
    hide Intruding;
    hide Abstracts;
    hide Layout;
    hide Apart;
    hide Filled;
    hide KeyPath;
    hide CategoryPath;
    hide Intrudes;
    hide SpotOf;
    hide PutStep;
    hide PlainStep;
    hide Resolve;
    hide VariantsResult;
    hide Covered;
    hide ChildrenOf;
    hide PassesThrough;
    hide Listing;
    hide Agree;
    hide VariantsOf;
    hide Segments;
    var ident, key := ItemIdent(location.category, location.name), KeyOf(item.ident);
    var k, t', extra := KeyOf(ident), PutStep(cfg, t, item).0, SpotOf(cfg, key, outer).variant;
    KnownKey(cfg, u, ident);
    KeysAfterIntrusion(cfg, u, t, m, item, outer, k);
    VariantsAfterIntrusion(cfg, u, t, m, item, outer, k);
    VariantSpot(cfg, u, t, m, item, outer);
    VariantIn(m, k, extra);
    if extra in VariantsOf(m, k) {
      ItemOfVariant(cfg, u, t, m, k.(variant := extra));
    }
    BothVariants(cfg, t', m, location, r);
    VariantsCompare(t', KeyPath(cfg, k), m, k, extra, PassesThrough(cfg, key, outer, k), r);
  }

  lemma BothVariants(cfg: Config, t: Tree, m: Plain, location: Location, r: Result<seq<string>>)
    requires Resolve(cfg, ItemIdent(location.category, location.name)).Ok?
    requires VariantsResult(cfg, t, location.category, location.name, r)
    ensures var p := Resolve(cfg, ItemIdent(location.category, location.name)).value;
            if p in t then r.Ok? && Listing(r.value, ChildrenOf(t, p)) else r == Err(NotFound)
    ensures var k := KeyOf(ItemIdent(location.category, location.name));
            PlainStep(cfg, m, Variants(location)).1 ==
            PlainNames(if k in m.items then Ok(VariantsOf(m, k)) else Err(NotFound))
  {
    hide Resolve;
    hide ChildrenOf;
    hide Listing;
    hide VariantsOf;
  }

  /** Comparing the listed children of an item's node with the variants the map holds. */
  lemma VariantsCompare(t: Tree, p: Path, m: Plain, k: Key, extra: string, more: bool, r: Result<seq<string>>)
    requires p in t <==> k in m.items || more
    requires extra in VariantsOf(m, k) ==> k in m.items
    requires ChildrenOf(t, p) == VariantsOf(m, k) + if more then {extra} else {}
    requires if p in t then r.Ok? && Listing(r.value, ChildrenOf(t, p)) else r == Err(NotFound)
    ensures Agree(Names(r), PlainNames(if k in m.items then Ok(VariantsOf(m, k)) else Err(NotFound))) <==>
            more ==> extra in VariantsOf(m, k)
  {
    hide ChildrenOf;
    hide NoDuplicates;
    hide VariantsOf;
    if more && k in m.items && extra !in VariantsOf(m, k) {
      assert extra in r.value;
    } else if k in m.items {
      assert ChildrenOf(t, p) == VariantsOf(m, k);
    }
  }

  /** The map holds the item of every variant it holds. */
  lemma ItemOfVariant(cfg: Config, u: iset<Path>, t: Tree, m: Plain, k: Key)
    requires Abstracts(cfg, u, t, m) && k in m.items && k.variant != ""
    ensures k.Parent() in m.items
  {
    hide Layout;
    hide KeyPath;
    hide CategoriesAgree;
    hide Apart;
    LayoutIsWellFormed(cfg, u, t);
    VariantBelow(cfg, k);
    var p, q := KeyPath(cfg, k.Parent()), KeyPath(cfg, k);
    AncestorsExist(t, q, |p|);
    assert q[..|p|] == p;
    assert Known(cfg, u, k.Parent());
  }

  // ---------------------------------------------------------------- Delete

  /** The node of a key after an intruding Put: the map's, or the empty one the intruder left. */
  function NodeAfter(m: Plain, k: Key): Znode {
    if k in m.items then m.items[k] else Znode([], 0)
  }

  /** The intruder passed through the key and went on below its variant. */
  ghost predicate GoesBelow(cfg: Config, item: Item, outer: Path, k: Key)
    requires cfg.bucketOf(item.ident.name).Ok? && Intrudes(cfg, KeyOf(item.ident).category, outer)
  {
    PassesThrough(cfg, KeyOf(item.ident), outer, k) && Reach(cfg, item) >= |CategoryPath(cfg, outer)| + 4
  }

  /**
   Deleting an item or a variant meets a non-empty node exactly when the intruder passed through it and
   went on below the variant, for a variant only if the version fits. Where the intruder did not pass,
   Delete answers as the map; where it did, exactly if it meets no such node and, where nobody stored
   the key, the version fits the empty node.
   */
  lemma DeleteAfterIntrusionIff(cfg: Config, u: iset<Path>, t: Tree, m: Plain, item: Item, outer: Path,
                                ident: Ident, t'': Tree, failure: Option<Error>)
    requires Intruding(cfg, u, t, m, item, outer) && Covered(cfg, u, ident.category) && Resolve(cfg, ident).Ok?
    requires DeleteStep(cfg, PutStep(cfg, t, item).0, ident, t'', failure)
    ensures var k := KeyOf(ident);
            var fits := Accepts(NodeAfter(m, k), ident.ActualVersion());
            && (failure == Some(Zk(NotEmpty)) <==> GoesBelow(cfg, item, outer, k) && (ident.variant != "" ==> fits))
            && (Agree(Removed(failure), PlainStep(cfg, m, Delete(ident)).1) <==>
                  PassesThrough(cfg, KeyOf(item.ident), outer, k) ==>
                    && (GoesBelow(cfg, item, outer, k) ==> ident.variant != "" && !fits)
                    && (k !in m.items ==> fits))
  {
    IntrudingFacts(cfg, u, t, m, item, outer);
    assert ValidConfig(cfg);
    hide *;
    var k, t' := KeyOf(ident), PutStep(cfg, t, item).0;
    KnownKey(cfg, u, ident);
    VariantOfKey(ident);
    IntruderFills(cfg, u, t, m, item, outer);
    KeysAfterIntrusion(cfg, u, t, m, item, outer, k);
    var fits, below := Accepts(NodeAfter(m, k), ident.ActualVersion()), GoesBelow(cfg, item, outer, k);
    if ident.variant == "" {
      BlockedIff(cfg, u, t, m, item, outer, k);
    } else {
      OccupiedIff(cfg, u, t, m, item, outer, k);
    }
    DeleteAnswer(cfg, t', ident, t'', failure);
    MapDeletes(cfg, m, ident);
    BelowPasses(cfg, item, outer, k);
    NodeAfterIs(m, k);
    DeletesCompare(ident, KeyPath(cfg, k) in t', k in m.items, PassesThrough(cfg, KeyOf(item.ident), outer, k),
                   below, fits, failure, PlainStep(cfg, m, Delete(ident)).1);
  }

  lemma VariantOfKey(ident: Ident)
    ensures KeyOf(ident).variant == ident.variant
  {
  }

  lemma NodeAfterIs(m: Plain, k: Key)
    ensures NodeAfter(m, k) == if k in m.items then m.items[k] else Znode([], 0)
  {
  }

  lemma BelowPasses(cfg: Config, item: Item, outer: Path, k: Key)
    requires cfg.bucketOf(item.ident.name).Ok? && cfg.bucketOf(KeyOf(item.ident).name).Ok?
    requires Intrudes(cfg, KeyOf(item.ident).category, outer)
    ensures GoesBelow(cfg, item, outer, k) <==>
            PassesThrough(cfg, KeyOf(item.ident), outer, k) && Reach(cfg, item) >= |CategoryPath(cfg, outer)| + 4
  {
    hide PassesThrough;
    hide Reach;
  }

  /** What deleting answers in any tree. */
  function DeletionAnswer(variant: bool, present: bool, fits: bool, below: bool): Option<Error> {
    if !present then None
    else if variant then
      if !fits then Some(VersionConflict) else if below then Some(Zk(NotEmpty)) else None
    else
      if below then Some(Zk(NotEmpty)) else if !fits then Some(VersionConflict) else None
  }

  lemma DeleteAnswer(cfg: Config, t: Tree, ident: Ident, t': Tree, failure: Option<Error>)
    requires ValidConfig(cfg) && WellFormed(t) && Resolve(cfg, ident).Ok? && DeleteStep(cfg, t, ident, t', failure)
    ensures var p := Resolve(cfg, ident).value;
            failure == DeletionAnswer(ident.variant != "", p in t, p in t && Accepts(t[p], ident.ActualVersion()),
                                      if ident.variant != "" then ChildrenOf(t, p) != {} else Blocked(t, p))
  {
    ResolvedIsProper(cfg, ident);
    hide Resolve;
    hide ChildrenOf;
    hide WellFormed;
    hide ValidConfig;
    hide Blocked;
    if ident.variant == "" && Resolve(cfg, ident).value in t {
      DeleteSubtree(cfg, t, ident, t', failure);
    }
  }

  lemma DeletesCompare(ident: Ident, present: bool, stored: bool, passes: bool, below: bool, fits: bool,
                       failure: Option<Error>, plain: PlainOut)
    requires present <==> stored || passes
    requires below ==> passes
    requires failure == DeletionAnswer(ident.variant != "", present, present && fits, below)
    requires plain == PlainRemoved(if stored && !fits then Some(VersionConflict) else None)
    ensures failure == Some(Zk(NotEmpty)) <==> below && (ident.variant != "" ==> fits)
    ensures Agree(Removed(failure), plain) <==>
            passes ==> (below ==> ident.variant != "" && !fits) && (!stored ==> fits)
  {
  }

  /** Below a variant there is something exactly when the intruder went on there. */
  lemma OccupiedIff(cfg: Config, u: iset<Path>, t: Tree, m: Plain, item: Item, outer: Path, k: Key)
    requires Intruding(cfg, u, t, m, item, outer) && Known(cfg, u, k) && k.variant != ""
    ensures ChildrenOf(PutStep(cfg, t, item).0, KeyPath(cfg, k)) != {} <==>
            && PassesThrough(cfg, KeyOf(item.ident), outer, k)
            && Reach(cfg, item) >= |CategoryPath(cfg, outer)| + 4
  {
    hide *;
    IntrudingFacts(cfg, u, t, m, item, outer);
    KeyFacts(cfg, u, item.ident, k);
    IntruderFills(cfg, u, t, m, item, outer);
    var key, q := KeyOf(item.ident), KeyPath(cfg, k);
    PassesIff(cfg, u, key, outer, k);
    VariantDepth(cfg, u, k);
    NothingBelowVariant(cfg, u, t, k.(variant := ""), k.variant);
    ChildrenByFill(t, KeyPath(cfg, key), item.ident.variant != "", item.data, Reach(cfg, item), q);
    if PassesThrough(cfg, key, outer, k) {
      PassesInCategory(cfg, key, outer, k);
    }
  }

  lemma VariantDepth(cfg: Config, u: iset<Path>, k: Key)
    requires Known(cfg, u, k) && k.variant != ""
    ensures Known(cfg, u, k.(variant := "")) && cfg.bucketOf(k.name).Ok?
    ensures KeyPath(cfg, k) == KeyPath(cfg, k.(variant := "")) + [k.variant]
    ensures |KeyPath(cfg, k)| == |CategoryPath(cfg, k.category)| + 3
  {
  }

  lemma ChildrenByFill(t: Tree, p: Path, hasVariant: bool, data: Bytes, n: nat, q: Path)
    requires n <= |p| && ChildrenOf(t, q) == {}
    ensures ChildrenOf(Filled(t, p, hasVariant, data, n), q) != {} <==> q <= p && n >= |q| + 1
  {
    hide Filled;
    hide ChildrenOf;
    var t' := Filled(t, p, hasVariant, data, n);
    if ChildrenOf(t', q) != {} {
      var w :| w in ChildrenOf(t', q);
      ChildIn(t', q, w);
      ChildIn(t, q, w);
      FilledMembers(t, p, hasVariant, data, n, q + [w]);
      assert (q + [w])[..|q|] == q;
    }
    if q <= p && n >= |q| + 1 {
      var w := p[|q|];
      assert p[..|q| + 1] == q + [w];
      FilledMembers(t, p, hasVariant, data, n, q + [w]);
      ChildIn(t', q, w);
    }
  }

  lemma BlockedIff(cfg: Config, u: iset<Path>, t: Tree, m: Plain, item: Item, outer: Path, k: Key)
    requires Intruding(cfg, u, t, m, item, outer) && Known(cfg, u, k) && k.variant == ""
    ensures Blocked(PutStep(cfg, t, item).0, KeyPath(cfg, k)) <==>
            && PassesThrough(cfg, KeyOf(item.ident), outer, k)
            && Reach(cfg, item) >= |CategoryPath(cfg, outer)| + 4
  {
    IntrudingFacts(cfg, u, t, m, item, outer);
    hide Intruding;
    hide Abstracts;
    hide Layout;
    hide Apart;
    hide Resolve;
    hide PutStep;
    hide Filled;
    hide KeyPath;
    hide CategoryPath;
    hide Intrudes;
    hide SpotOf;
    hide PassesThrough;
    hide Segments;
    hide WellFormed;
    IntruderFills(cfg, u, t, m, item, outer);
    var key := KeyOf(item.ident);
    var p, q, n := KeyPath(cfg, key), KeyPath(cfg, k), Reach(cfg, item);
    PassesIff(cfg, u, key, outer, k);
    SpotPath(cfg, key, outer);
    ItemDepth(cfg, k);
    forall v ensures ChildrenOf(t, q + [v]) == {} {
      NothingBelowVariant(cfg, u, t, k, v);
    }
    hide ChildrenOf;
    hide Blocked;
    BlockedByFill(t, p, item.ident.variant != "", item.data, n, q);
    if PassesThrough(cfg, key, outer, k) {
      PassesInCategory(cfg, key, outer, k);
    }
  }

  lemma PassesInCategory(cfg: Config, key: Key, outer: Path, k: Key)
    requires cfg.bucketOf(key.name).Ok? && Intrudes(cfg, key.category, outer) && PassesThrough(cfg, key, outer, k)
    ensures k.category == outer
  {
  }

  /** A fill puts something below a child of `q`, where there was nothing, exactly when it goes that far below it. */
  lemma BlockedByFill(t: Tree, p: Path, hasVariant: bool, data: Bytes, n: nat, q: Path)
    requires n <= |p| && forall v :: ChildrenOf(t, q + [v]) == {}
    ensures Blocked(Filled(t, p, hasVariant, data, n), q) <==> q <= p && n >= |q| + 2
  {
    hide Filled;
    hide ChildrenOf;
    var t' := Filled(t, p, hasVariant, data, n);
    if Blocked(t', q) {
      var v :| v in ChildrenOf(t', q) && ChildrenOf(t', q + [v]) != {};
      var w :| w in ChildrenOf(t', q + [v]);
      ChildIn(t', q + [v], w);
      ChildIn(t, q + [v], w);
      FilledMembers(t, p, hasVariant, data, n, q + [v] + [w]);
      assert (q + [v] + [w])[..|q|] == q;
    }
    if q <= p && n >= |q| + 2 {
      var v, w := p[|q|], p[|q| + 1];
      assert p[..|q|] == q && p[..|q| + 1] == q + [v] && p[..|q| + 2] == q + [v] + [w];
      FilledMembers(t, p, hasVariant, data, n, q + [v]);
      FilledMembers(t, p, hasVariant, data, n, q + [v] + [w]);
      ChildIn(t', q, v);
      ChildIn(t', q + [v], w);
    }
  }

  lemma ItemDepth(cfg: Config, k: Key)
    requires cfg.bucketOf(k.name).Ok? && k.variant == ""
    ensures |KeyPath(cfg, k)| == |CategoryPath(cfg, k.category)| + 2
  {
  }

  // ---------------------------------------------------------------- no intrusion goes unnoticed

  /** Every operation on the categories `u` answers as the map would. */
  ghost predicate Faithful(cfg: Config, u: iset<Path>, t: Tree, m: Plain) {
    forall op: Op, t', out :: Covered(cfg, u, op.Category()) && Step(cfg, t, op, t', out) ==>
      Agree(out, PlainStep(cfg, m, op).1)
  }

  /**
   The Put has nothing to do: it names a version, so that it stops short of its target, its category has
   just one segment after the buckets name, and the spot below that is a variant the map already holds.
   */
  ghost predicate Futile(cfg: Config, m: Plain, item: Item, outer: Path)
    requires cfg.bucketOf(item.ident.name).Ok? && Intrudes(cfg, KeyOf(item.ident).category, outer)
  {
    var s := SpotOf(cfg, KeyOf(item.ident), outer);
    && Filed(cfg, s.bucket, s.name) && Key(outer, s.name, s.variant) in m.items
    && item.ident.ActualVersion() >= 0 && item.ident.variant == ""
    && |KeyOf(item.ident).category| == |outer| + 2
  }

  /** An intruding Put leaves the answers about the other categories right if and only if it is futile. */
  lemma HarmlessIff(cfg: Config, u: iset<Path>, t: Tree, m: Plain, item: Item, outer: Path, category: string)
    requires Intruding(cfg, u, t, m, item, outer)
    requires ResolveCategory(cfg, category).Ok? && Segments(category) == outer
    ensures Faithful(cfg, u, PutStep(cfg, t, item).0, m) <==> Futile(cfg, m, item, outer)
  {
    IntrudingFacts(cfg, u, t, m, item, outer);
    assert ValidConfig(cfg);
    hide *;
    UnchangedIff(cfg, u, t, m, item, outer);
    var s, t' := SpotOf(cfg, KeyOf(item.ident), outer), PutStep(cfg, t, item).0;
    if t' == t {
      StaysFaithful(cfg, u, t, m);
    } else if !(Filed(cfg, s.bucket, s.name) && Key(outer, s.name, "") in m.items) {
      ListTells(cfg, u, t, m, item, outer, category);
    } else if Key(outer, s.name, s.variant) !in m.items {
      VariantsTell(cfg, u, t, m, item, outer, category);
    } else {
      DeleteTells(cfg, u, t, m, item, outer, category);
    }
  }

  /** An intruding Put changes nothing if and only if it is futile. */
  lemma UnchangedIff(cfg: Config, u: iset<Path>, t: Tree, m: Plain, item: Item, outer: Path)
    requires Intruding(cfg, u, t, m, item, outer)
    ensures PutStep(cfg, t, item).0 == t <==> Futile(cfg, m, item, outer)
  {
    hide *;
    IntrudingFacts(cfg, u, t, m, item, outer);
    var key := KeyOf(item.ident);
    var c, p, s, n := CategoryPath(cfg, outer), KeyPath(cfg, key), SpotOf(cfg, key, outer), Reach(cfg, item);
    IntruderLength(cfg, item, outer);
    IntruderFills(cfg, u, t, m, item, outer);
    VariantSpot(cfg, u, t, m, item, outer);
    SpotPath(cfg, key, outer);
    LayoutIsWellFormed(cfg, u, t);
    if PutStep(cfg, t, item).0 == t {
      FilledMembers(t, p, item.ident.variant != "", item.data, n, p[..n]);
      ShortAndStored(cfg, u, t, m, p, outer, s, n);
      FutileIs(cfg, m, item, outer);
    } else if Futile(cfg, m, item, outer) {
      FutileIs(cfg, m, item, outer);
      GoesDeep(cfg, u, t, m, item, outer);
    }
  }

  lemma FutileIs(cfg: Config, m: Plain, item: Item, outer: Path)
    requires cfg.bucketOf(item.ident.name).Ok? && cfg.bucketOf(KeyOf(item.ident).name).Ok?
    requires Intrudes(cfg, KeyOf(item.ident).category, outer)
    ensures var s := SpotOf(cfg, KeyOf(item.ident), outer);
            Futile(cfg, m, item, outer) <==>
            && Filed(cfg, s.bucket, s.name) && Key(outer, s.name, s.variant) in m.items
            && Reach(cfg, item) == |CategoryPath(cfg, outer)| + 3
  {
    IntruderLength(cfg, item, outer);
    hide SpotOf;
    hide Filed;
    hide Intrudes;
  }

  /** The Put stops right below the spot exactly when it names a version, no variant and the shortest category. */
  lemma IntruderLength(cfg: Config, item: Item, outer: Path)
    requires cfg.bucketOf(item.ident.name).Ok? && Intrudes(cfg, KeyOf(item.ident).category, outer)
    ensures Reach(cfg, item) >= |CategoryPath(cfg, outer)| + 3
    ensures Reach(cfg, item) == |CategoryPath(cfg, outer)| + 3 <==>
            && item.ident.ActualVersion() >= 0 && item.ident.variant == ""
            && |KeyOf(item.ident).category| == |outer| + 2
  {
    KeyPathParts(cfg, KeyOf(item.ident));
    hide KeyPath;
    hide Segments;
  }

  /** In a tree that represents the map, nothing on the intruder's way exists below a variant the map holds. */
  lemma ShortAndStored(cfg: Config, u: iset<Path>, t: Tree, m: Plain, p: Path, outer: Path, s: Spot, n: nat)
    requires Abstracts(cfg, u, t, m) && Layout(cfg, u, t) && outer in u && n <= |p| && p[..n] in t && s.variant != ""
    requires var c := CategoryPath(cfg, outer);
             |c| + 3 <= n && p[..|c|] == c && p[..|c| + 3] == c + [s.bucket, s.name, s.variant]
    ensures n == |CategoryPath(cfg, outer)| + 3
    ensures Filed(cfg, s.bucket, s.name) && Key(outer, s.name, s.variant) in m.items
  {
    hide Layout;
    hide Abstracts;
    hide KeyPath;
    hide CategoryPath;
    var c := CategoryPath(cfg, outer);
    assert p[..n][..|c|] == c;
    var k := KeyBelow(cfg, u, t, outer, p[..n]);
    KeyPathParts(cfg, k);
    assert KeyPath(cfg, k) == p[..n];
    AtSpot(cfg, outer, k, p, s);
    InStep(cfg, u, t, m, k);
  }

  lemma StaysFaithful(cfg: Config, u: iset<Path>, t: Tree, m: Plain)
    requires ValidConfig(cfg) && Abstracts(cfg, u, t, m)
    ensures Faithful(cfg, u, t, m)
  {
    forall op: Op, t', out | Covered(cfg, u, op.Category()) && Step(cfg, t, op, t', out)
      ensures Agree(out, PlainStep(cfg, m, op).1)
    {
      StepRefines(cfg, u, t, m, op, t', out);
    }
  }

  lemma Unfaithful(cfg: Config, u: iset<Path>, t: Tree, m: Plain, op: Op, t': Tree, out: Out)
    requires Covered(cfg, u, op.Category()) && Step(cfg, t, op, t', out) && !Agree(out, PlainStep(cfg, m, op).1)
    ensures !Faithful(cfg, u, t, m)
  {
  }

  lemma CoversOuter(cfg: Config, u: iset<Path>, category: string)
    requires Segments(category) in u
    ensures Covered(cfg, u, category)
  {
  }

  lemma IntruderMakesCategory(cfg: Config, u: iset<Path>, t: Tree, m: Plain, item: Item, outer: Path)
    requires Intruding(cfg, u, t, m, item, outer)
    ensures CategoryPath(cfg, outer) in PutStep(cfg, t, item).0
  {
    IntrudingFacts(cfg, u, t, m, item, outer);
    var key, c := KeyOf(item.ident), CategoryPath(cfg, outer);
    hide Intruding;
    hide Abstracts;
    hide Layout;
    hide PutStep;
    hide KeyPath;
    hide CategoryPath;
    hide Intrudes;
    hide Filled;
    IntruderFills(cfg, u, t, m, item, outer);
    IntruderPath(cfg, key, outer);
    FilledMembers(t, KeyPath(cfg, key), item.ident.variant != "", item.data, Reach(cfg, item), c);
  }

  lemma ListDisagrees(out: Out, names: set<string>, found: bool)
    requires out.Names? && out.names.Ok? && !Listing(out.names.value, names)
    ensures !Agree(out, PlainNames(if found then Ok(names) else Err(NotFound)))
  {
  }

  lemma ListTells(cfg: Config, u: iset<Path>, t: Tree, m: Plain, item: Item, outer: Path, category: string)
    requires Intruding(cfg, u, t, m, item, outer)
    requires ResolveCategory(cfg, category).Ok? && Segments(category) == outer
    requires var s := SpotOf(cfg, KeyOf(item.ident), outer);
             !(Filed(cfg, s.bucket, s.name) && Key(outer, s.name, "") in m.items)
    ensures !Faithful(cfg, u, PutStep(cfg, t, item).0, m)
  {
    IntrudingFacts(cfg, u, t, m, item, outer);
    CoversOuter(cfg, u, category);
    hide *;
    IntruderMakesCategory(cfg, u, t, m, item, outer);
    var t' := PutStep(cfg, t, item).0;
    var out := ListFinds(cfg, t', category);
    ListUnfolds(cfg, t', m, category, out);
    IntrusionSpoilsListIff(cfg, u, t, m, item, outer, out.names.value);
    ListDisagrees(out, NamesIn(m, outer), outer in m.categories);
    Unfaithful(cfg, u, t', m, List(category), t', out);
  }

  lemma ListUnfolds(cfg: Config, t: Tree, m: Plain, category: string, out: Out)
    requires ResolveCategory(cfg, category).Ok? && out.Names? && out.names.Ok? && Step(cfg, t, List(category), t, out)
    ensures NamesUnder(t, CategoryPath(cfg, Segments(category)), out.names.value)
    ensures PlainStep(cfg, m, List(category)).1 ==
            PlainNames(if Segments(category) in m.categories then Ok(NamesIn(m, Segments(category))) else Err(NotFound))
    ensures List(category).Category() == category
  {
    hide NamesUnder;
    hide CategoryPath;
    hide NamesIn;
  }

  /** The name at the intruder's spot is one the store accepts. */
  lemma SpotNameIsValid(cfg: Config, u: iset<Path>, t: Tree, m: Plain, item: Item, outer: Path)
    requires Intruding(cfg, u, t, m, item, outer)
    ensures ValidateNamed(SpotOf(cfg, KeyOf(item.ident), outer).name, true).None?
  {
    IntrudingFacts(cfg, u, t, m, item, outer);
    var key := KeyOf(item.ident);
    SpotSegments(cfg, key, outer);
    if |key.category| > |outer| + 2 {
      SegmentIsValid(item.ident.category, key.category[|outer| + 2]);
    }
  }

  lemma SegmentIsValid(category: string, segment: string)
    requires ValidateCategory(category).None? && segment in Segments(category)
    ensures ValidateNamed(segment, true).None?
  {
    NonEmptyMembers(Split(category));
    SplitChars(category);
    JoinedSplit(category);
    ValidCategoryIff(category);
    forall c | c in segment ensures NameChar(c) {
      assert CategoryChar(c);
    }
    ValidNameIff(segment, true);
  }

  /** The item at the intruder's spot as an identifier of the other category. */
  lemma SpotItem(cfg: Config, u: iset<Path>, t: Tree, m: Plain, item: Item, outer: Path, category: string)
    requires Intruding(cfg, u, t, m, item, outer)
    requires ResolveCategory(cfg, category).Ok? && Segments(category) == outer
    requires var s := SpotOf(cfg, KeyOf(item.ident), outer); Filed(cfg, s.bucket, s.name)
    ensures var key := KeyOf(item.ident);
            var ident := ItemIdent(category, SpotOf(cfg, key, outer).name);
            && Resolve(cfg, ident).Ok? && Covered(cfg, u, category)
            && KeyOf(ident) == Key(outer, SpotOf(cfg, key, outer).name, "")
            && PassesThrough(cfg, key, outer, KeyOf(ident))
            && Resolve(cfg, ident).value in PutStep(cfg, t, item).0
  {
    IntrudingFacts(cfg, u, t, m, item, outer);
    SpotNameIsValid(cfg, u, t, m, item, outer);
    var key := KeyOf(item.ident);
    var ident := ItemIdent(category, SpotOf(cfg, key, outer).name);
    assert Resolve(cfg, ident).Ok?;
    ResolvesToKey(cfg, ident);
    KeysAfterIntrusion(cfg, u, t, m, item, outer, KeyOf(ident));
  }

  lemma VariantsTell(cfg: Config, u: iset<Path>, t: Tree, m: Plain, item: Item, outer: Path, category: string)
    requires Intruding(cfg, u, t, m, item, outer)
    requires ResolveCategory(cfg, category).Ok? && Segments(category) == outer
    requires var s := SpotOf(cfg, KeyOf(item.ident), outer);
             Filed(cfg, s.bucket, s.name) && Key(outer, s.name, s.variant) !in m.items
    ensures !Faithful(cfg, u, PutStep(cfg, t, item).0, m)
  {
    IntrudingFacts(cfg, u, t, m, item, outer);
    hide *;
    SpotItem(cfg, u, t, m, item, outer, category);
    var key, t' := KeyOf(item.ident), PutStep(cfg, t, item).0;
    var s := SpotOf(cfg, key, outer);
    var location := Location(category, s.name);
    var names := ListingExists(ChildrenOf(t', Resolve(cfg, ItemIdent(category, s.name)).value));
    VariantsStep(cfg, t', location, names);
    VariantsAfterIntrusionIff(cfg, u, t, m, item, outer, location, Ok(names));
    Unfaithful(cfg, u, t', m, Variants(location), t', Names(Ok(names)));
  }

  lemma VariantsStep(cfg: Config, t: Tree, location: Location, names: seq<string>)
    requires var r := Resolve(cfg, ItemIdent(location.category, location.name));
             r.Ok? && r.value in t && Listing(names, ChildrenOf(t, r.value))
    ensures VariantsResult(cfg, t, location.category, location.name, Ok(names))
    ensures Step(cfg, t, Variants(location), t, Names(Ok(names)))
    ensures Variants(location).Category() == location.category
  {
    hide Resolve;
    hide ChildrenOf;
    hide Listing;
  }

  lemma DeleteTells(cfg: Config, u: iset<Path>, t: Tree, m: Plain, item: Item, outer: Path, category: string)
    requires Intruding(cfg, u, t, m, item, outer) && PutStep(cfg, t, item).0 != t
    requires ResolveCategory(cfg, category).Ok? && Segments(category) == outer
    requires var s := SpotOf(cfg, KeyOf(item.ident), outer);
             Filed(cfg, s.bucket, s.name) && Key(outer, s.name, s.variant) in m.items
    ensures !Faithful(cfg, u, PutStep(cfg, t, item).0, m)
  {
    IntrudingFacts(cfg, u, t, m, item, outer);
    hide *;
    SpotItem(cfg, u, t, m, item, outer, category);
    GoesDeep(cfg, u, t, m, item, outer);
    var t', name := PutStep(cfg, t, item).0, SpotOf(cfg, KeyOf(item.ident), outer).name;
    PlainItemIdent(category, name);
    var ident := ItemIdent(category, name);
    var t'', failure := SomeDelete(cfg, t', ident);
    DeleteAfterIntrusionIff(cfg, u, t, m, item, outer, ident, t'', failure);
    MapDeletes(cfg, m, ident);
    Unfaithful(cfg, u, t', m, Delete(ident), t'', Removed(failure));
  }

  /** An intruder that changes the tree where the spot is already a variant goes on below it. */
  lemma GoesDeep(cfg: Config, u: iset<Path>, t: Tree, m: Plain, item: Item, outer: Path)
    requires Intruding(cfg, u, t, m, item, outer) && PutStep(cfg, t, item).0 != t
    requires var s := SpotOf(cfg, KeyOf(item.ident), outer);
             Filed(cfg, s.bucket, s.name) && Key(outer, s.name, s.variant) in m.items
    ensures Reach(cfg, item) >= |CategoryPath(cfg, outer)| + 4
  {
    IntrudingFacts(cfg, u, t, m, item, outer);
    hide Intruding;
    hide Abstracts;
    hide Layout;
    hide PutStep;
    hide KeyPath;
    hide CategoryPath;
    hide SpotOf;
    hide Intrudes;
    hide Filled;
    hide WellFormed;
    hide Apart;
    IntruderFills(cfg, u, t, m, item, outer);
    LayoutIsWellFormed(cfg, u, t);
    var key := KeyOf(item.ident);
    var c, p, s, n := CategoryPath(cfg, outer), KeyPath(cfg, key), SpotOf(cfg, key, outer), Reach(cfg, item);
    var k := Key(outer, s.name, s.variant);
    VariantSpot(cfg, u, t, m, item, outer);
    SpotVariant(cfg, key, outer);
    InStep(cfg, u, t, m, k);
    if n < |c| + 4 {
      NothingToFill(t, p, item.ident.variant != "", item.data, n, |c| + 3);
    }
  }

  lemma SpotVariant(cfg: Config, key: Key, outer: Path)
    requires cfg.bucketOf(key.name).Ok? && Intrudes(cfg, key.category, outer)
    requires var s := SpotOf(cfg, key, outer); Filed(cfg, s.bucket, s.name) && s.variant != ""
    ensures var c, p, s := CategoryPath(cfg, outer), KeyPath(cfg, key), SpotOf(cfg, key, outer);
            |p| >= |c| + 4 && KeyPath(cfg, Key(outer, s.name, s.variant)) == p[..|c| + 3]
  {
    hide KeyPath;
    hide CategoryPath;
    hide SpotOf;
    hide Intrudes;
    var s := SpotOf(cfg, key, outer);
    SpotPath(cfg, key, outer);
    VariantBelow(cfg, Key(outer, s.name, s.variant));
    ItemPathShape(cfg, outer, s.name);
  }

  lemma NothingToFill(t: Tree, p: Path, hasVariant: bool, data: Bytes, n: nat, k: nat)
    requires WellFormed(t) && n <= k <= |p| && p[..k] in t
    ensures Filled(t, p, hasVariant, data, n) == t
  {
    forall q | q in Prefixes(p, n) ensures q in t {
      PrefixIn(p, n, q);
      AncestorsExist(t, p[..k], |q|);
      assert p[..k][..|q|] == p[..|q|] == q;
    }
  }

  lemma SomeDelete(cfg: Config, t: Tree, ident: Ident) returns (t': Tree, failure: Option<Error>)
    requires Resolve(cfg, ident).Ok? && ident.variant == "" && Resolve(cfg, ident).value in t
    ensures DeleteStep(cfg, t, ident, t', failure)
    ensures Step(cfg, t, Delete(ident), t', Removed(failure)) && Delete(ident).Category() == ident.category
  {
    hide Resolve;
    hide ChildrenOf;
    hide DeleteItemAt;
    var p := Resolve(cfg, ident).value;
    var children := ListingExists(ChildrenOf(t, p));
    var d := DeleteItemAt(t, p, ident.ActualVersion(), children);
    t', failure := d.tree, d.failure;
  }

  lemma MapDeletes(cfg: Config, m: Plain, ident: Ident)
    requires Resolve(cfg, ident).Ok?
    ensures var k := KeyOf(ident);
            PlainStep(cfg, m, Delete(ident)).1 ==
            PlainRemoved(if k in m.items && !Accepts(m.items[k], ident.ActualVersion()) then Some(VersionConflict)
                         else None)
  {
    hide Resolve;
  }

  lemma PlainItemIdent(category: string, name: string)
    ensures ItemIdent(category, name) == Ident(category, name, "", Unset)
  {
  }

  // ---------------------------------------------------------------- two inputs

  lemma NumberIsNotBar(n: int)
    ensures Itoa(n) != "bar"
  {
    var number := Itoa(n);
    assert number[0] == '-' || IsDigit(number[0]);
    assert "bar"[0] == 'b';
  }

  /** With the default buckets name, a Put into foo/buckets/bar makes List("foo") wrong. */
  lemma ListCanBeSpoiled(cfg: Config, u: iset<Path>, t: Tree, m: Plain, item: Item, names: seq<string>)
    requires ValidConfig(cfg) && Abstracts(cfg, u, t, m) && ["foo"] in u && cfg.bucketsName == "buckets"
    requires Segments(item.ident.category) == ["foo", "buckets", "bar"]
    requires ValidateItem(item).None? && Resolve(cfg, item.ident).Ok?
    requires NamesUnder(PutStep(cfg, t, item).0, CategoryPath(cfg, ["foo"]), names)
    ensures !Listing(names, NamesIn(m, ["foo"]))
  {
    hide *;
    var inner, outer := ["foo", "buckets", "bar"], ["foo"];
    assert inner == inner + [];
    IntrudesOnFoo(cfg, "bar", []);
    IntoFoo(cfg, u, t, m, item, inner, outer);
    IntrusionSpoilsListIff(cfg, u, t, m, item, outer, names);
    NotFiled(cfg, SpotOf(cfg, KeyOf(item.ident), outer).name);
  }

  lemma IntrudesOnFoo(cfg: Config, bucket: string, rest: Path)
    requires cfg.bucketsName == "buckets"
    ensures var inner := ["foo", "buckets", bucket] + rest;
            Intrudes(cfg, inner, ["foo"]) && inner[2..] == [bucket] + rest
  {
    assert (["foo", "buckets", bucket] + rest)[..2] == ["foo"] + ["buckets"];
  }

  lemma IntoFoo(cfg: Config, u: iset<Path>, t: Tree, m: Plain, item: Item, inner: Path, outer: Path)
    requires ValidConfig(cfg) && Abstracts(cfg, u, t, m) && outer in u && Segments(item.ident.category) == inner
    requires ValidateItem(item).None? && Resolve(cfg, item.ident).Ok? && Intrudes(cfg, inner, outer)
    ensures Intruding(cfg, u, t, m, item, outer)
    ensures cfg.bucketOf(KeyOf(item.ident).name).Ok? && KeyOf(item.ident).category == inner
    ensures var s, rest := SpotOf(cfg, KeyOf(item.ident), outer), inner[|outer| + 1..];
            s.bucket == rest[0] && s.name == (if |rest| > 1 then rest[1] else cfg.bucketsName)
  {
    IntrudingFacts(cfg, u, t, m, item, outer);
    SpotSegments(cfg, KeyOf(item.ident), outer);
  }

  lemma NotFiled(cfg: Config, name: string)
    ensures !Filed(cfg, "bar", name)
  {
    if cfg.bucketOf(name).Ok? {
      NumberIsNotBar(cfg.bucketOf(name).value);
    }
  }

  /**
   If "bar" belongs into bucket 5, a Put into foo/buckets/5/bar, the first ever, makes an empty item
   "bar" of "foo" appear that nobody stored.
   */
  lemma PhantomItem(cfg: Config, t: Tree, item: Item, ident: Ident)
    requires ValidConfig(cfg) && Fresh(cfg, t) && cfg.bucketsName == "buckets" && cfg.bucketOf("bar") == Ok(5)
    requires Segments(item.ident.category) == ["foo", "buckets", "5", "bar"]
    requires ValidateItem(item).None? && Resolve(cfg, item.ident).Ok?
    requires Segments(ident.category) == ["foo"] && ident.name == "bar" && ident.variant == ""
    requires Resolve(cfg, ident).Ok?
    ensures GetResult(cfg, PutStep(cfg, t, item).0, ident) == Ok(Item(ident.(version := At(0)), []))
    ensures var plain := PlainRun(cfg, NOTHING_STORED, [Put(item), Get(ident)]).0;
            |plain| == 2 && plain[1] == PlainFetched(Err(NotFound))
  {
    var inner, outer := ["foo", "buckets", "5", "bar"], ["foo"];
    var u := iset{outer};
    assert inner == ["foo", "buckets", "5"] + ["bar"];
    JustFoo(cfg, u, ident);
    hide *;
    IntrudesOnFoo(cfg, "5", ["bar"]);
    FreshIsEmpty(cfg, u, t);
    IntoFoo(cfg, u, t, NOTHING_STORED, item, inner, outer);
    BarInFive(cfg, KeyOf(item.ident), outer, KeyOf(ident));
    GetAfterIntrusionIff(cfg, u, t, NOTHING_STORED, item, outer, ident);
    MapFetchesNothing(cfg, item, ident);
    NothingIsStored(KeyOf(ident));
  }

  /** And that item cannot be deleted: the Put went on below its variant. */
  lemma PhantomStays(cfg: Config, t: Tree, item: Item, ident: Ident, t'': Tree, failure: Option<Error>)
    requires ValidConfig(cfg) && Fresh(cfg, t) && cfg.bucketsName == "buckets" && cfg.bucketOf("bar") == Ok(5)
    requires Segments(item.ident.category) == ["foo", "buckets", "5", "bar"]
    requires ValidateItem(item).None? && Resolve(cfg, item.ident).Ok?
    requires Segments(ident.category) == ["foo"] && ident.name == "bar" && ident.variant == ""
    requires Resolve(cfg, ident).Ok? && DeleteStep(cfg, PutStep(cfg, t, item).0, ident, t'', failure)
    ensures failure == Some(Zk(NotEmpty))
    ensures PlainStep(cfg, NOTHING_STORED, Delete(ident)).1 == PlainRemoved(None)
  {
    var inner, outer := ["foo", "buckets", "5", "bar"], ["foo"];
    var u := iset{outer};
    assert inner == ["foo", "buckets", "5"] + ["bar"];
    JustFoo(cfg, u, ident);
    hide *;
    IntrudesOnFoo(cfg, "5", ["bar"]);
    FreshIsEmpty(cfg, u, t);
    IntoFoo(cfg, u, t, NOTHING_STORED, item, inner, outer);
    IntrudingFacts(cfg, u, t, NOTHING_STORED, item, outer);
    BarInFive(cfg, KeyOf(item.ident), outer, KeyOf(ident));
    IntruderLength(cfg, item, outer);
    BelowPasses(cfg, item, outer, KeyOf(ident));
    DeleteAfterIntrusionIff(cfg, u, t, NOTHING_STORED, item, outer, ident, t'', failure);
    NothingIsStored(KeyOf(ident));
    MapDeletes(cfg, NOTHING_STORED, ident);
  }

  lemma NothingIsStored(k: Key)
    ensures k !in NOTHING_STORED.items
  {
  }

  lemma JustFoo(cfg: Config, u: iset<Path>, ident: Ident)
    requires u == iset{["foo"]} && cfg.bucketsName == "buckets" && Segments(ident.category) == ["foo"]
    requires ident.name == "bar" && ident.variant == ""
    ensures Apart(cfg, u) && Covered(cfg, u, ident.category) && KeyOf(ident) == Key(["foo"], "bar", "")
  {
    assert "foo"[0] == 'f' && "buckets"[0] == 'b';
    assert !EndsInBuckets(cfg, ["foo"]);
  }

  lemma BarInFive(cfg: Config, key: Key, outer: Path, k: Key)
    requires cfg.bucketOf(key.name).Ok? && Intrudes(cfg, key.category, outer)
    requires cfg.bucketOf("bar") == Ok(5) && k == Key(outer, "bar", "")
    requires var s := SpotOf(cfg, key, outer); s.bucket == "5" && s.name == "bar"
    ensures PassesThrough(cfg, key, outer, k)
  {
    hide SpotOf;
    hide Intrudes;
    assert Itoa(5) == "5";
  }

  lemma MapFetchesNothing(cfg: Config, item: Item, ident: Ident)
    requires Resolve(cfg, ident).Ok? && Segments(item.ident.category) != Segments(ident.category)
    ensures var plain := PlainRun(cfg, NOTHING_STORED, [Put(item), Get(ident)]).0;
            |plain| == 2 && plain[1] == PlainFetched(Err(NotFound))
  {
    hide Resolve;
    hide ValidateItem;
    hide Segments;
    var ops := [Put(item), Get(ident)];
    var (m, out) := PlainStep(cfg, NOTHING_STORED, ops[0]);
    assert forall k :: k in m.items ==> k.category == Segments(item.ident.category);
    assert ops[1..] == [Get(ident)] && ops[1..][1..] == [];
    assert PlainRun(cfg, m, [Get(ident)]).0 == [PlainFetched(Err(NotFound))];
  }
}
