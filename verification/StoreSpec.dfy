/**
 What each store operation does to the znode tree when no other client interferes: closed forms
 and relations that the methods of class Store are proved to meet.
 */
module StoreSpec {
  import opened Types
  import opened Paths
  import opened Idents
  import opened ZkTree
  import opened StorePaths

  // ---------------------------------------------------------------- Put

  function Prefixes(target: Path, n: nat): set<Path>
    requires n <= |target|
  {
    set k | 0 <= k <= n :: target[..k]
  }

  /** The data a missing prefix of length `k` is created with: the target's and its item's only. */
  function DataAt(target: Path, hasVariant: bool, data: Bytes, k: nat): Bytes {
    if k == |target| || (hasVariant && k == |target| - 1) then data else []
  }

  /** The tree with every missing prefix of `target` up to length `n` created. */
  function Filled(t: Tree, target: Path, hasVariant: bool, data: Bytes, n: nat): Tree
    requires n <= |target|
  {
    map q | q in t.Keys + Prefixes(target, n) ::
      if q in t then t[q] else Znode(DataAt(target, hasVariant, data, |q|), 0)
  }

  /** A tree and the version now stored, or why nothing was stored. */
  datatype Written = Written(tree: Tree, result: Result<int>)

  /** setFully: an explicit version refuses to create the target, but not its ancestors. */
  function FillOutcome(t: Tree, target: Path, hasVariant: bool, data: Bytes, version: int): Written
    requires target != []
  {
    if version >= 0 && target !in t
    then Written(Filled(t, target, hasVariant, data, |target| - 1), Err(VersionConflict))
    else
      var filled := Filled(t, target, hasVariant, data, |target|);
      assert target[..|target|] == target && target[..|target|] in Prefixes(target, |target|);
      Written(filled, Ok(filled[target].version))
  }

  function PutAt(t: Tree, target: Path, ident: Ident, data: Bytes): Written
    requires target != []
  {
    if target !in t then FillOutcome(t, target, ident.variant != "", data, ident.ActualVersion())
    else if ident.CreatingNew() || !Accepts(t[target], ident.ActualVersion())
    then Written(t, Err(VersionConflict))
    else Written(t[target := Znode(data, t[target].version + 1)], Ok(t[target].version + 1))
  }

  lemma ResolvedIsProper(cfg: Config, ident: Ident)
    requires ValidConfig(cfg) && Resolve(cfg, ident).Ok?
    ensures Proper(Resolve(cfg, ident).value) && Resolve(cfg, ident).value != []
  {
    IdentPathAgrees(cfg, ident);
  }

  /** Store.Put */
  function PutStep(cfg: Config, t: Tree, item: Item): (Tree, Result<Ident>) {
    if ValidateItem(item).Some? then (t, Err(ValidateItem(item).value))
    else match Resolve(cfg, item.ident)
         case Err(e) => (t, Err(e))
         case Ok(p) =>
           var w := PutAt(t, p, item.ident, item.data);
           (w.tree, match w.result
                    case Err(e) => Err(e)
                    case Ok(v) => Ok(item.ident.(version := At(v))))
  }

  // ---------------------------------------------------------------- Get and Variants

  /** Store.Get: the identifier's own version plays no part. */
  function GetResult(cfg: Config, t: Tree, ident: Ident): Result<Item> {
    match Resolve(cfg, ident)
    case Err(e) => Err(e)
    case Ok(p) => if p in t then Ok(Item(ident.(version := At(t[p].version)), t[p].data)) else Err(NotFound)
  }

  function ItemIdent(category: string, name: string): Ident {
    Ident(category, name, "", Unset)
  }

  /** Store.Variants, which lists the children of the item's node in any order. */
  ghost predicate VariantsResult(cfg: Config, t: Tree, category: string, name: string, r: Result<seq<string>>) {
    match Resolve(cfg, ItemIdent(category, name))
    case Err(e) => r == Err(e)
    case Ok(p) => if p in t then r.Ok? && Listing(r.value, ChildrenOf(t, p)) else r == Err(NotFound)
  }

  // ---------------------------------------------------------------- Delete

  /** Deletes the listed children of `p` in turn, whatever their versions, up to the first failure. */
  function DeleteListed(t: Tree, p: Path, children: seq<string>): Effect
    decreases |children|
  {
    if children == [] then Effect(t, None)
    else
      var e := DeleteNode(t, p + [children[0]], -1);
      if e.failure.Some? && e.failure != Some(NoNode) then e else DeleteListed(e.tree, p, children[1..])
  }

  /** How the store reports the outcome of deleting one node. */
  function Reported(failure: Option<ZkError>): Option<Error> {
    match failure
    case None => None
    case Some(NoNode) => None
    case Some(BadVersion) => Some(VersionConflict)
    case Some(other) => Some(Zk(other))
  }

  datatype Deleted = Deleted(tree: Tree, failure: Option<Error>)

  function DeleteItemAt(t: Tree, p: Path, version: int, children: seq<string>): Deleted {
    var e := DeleteListed(t, p, children);
    if e.failure.Some? then Deleted(e.tree, Reported(e.failure))
    else
      var d := DeleteNode(e.tree, p, version);
      Deleted(d.tree, Reported(d.failure))
  }

  function DeleteVariantAt(t: Tree, p: Path, version: int): Deleted {
    var d := DeleteNode(t, p, version);
    Deleted(d.tree, Reported(d.failure))
  }

  /**
   Store.Delete: an item goes after all of its variants, in whatever order they are listed. A
   NotFound from looking the item up counts as already deleted, even when it is a hasher's.
   */
  ghost predicate DeleteStep(cfg: Config, t: Tree, ident: Ident, t': Tree, failure: Option<Error>) {
    match Resolve(cfg, ident)
    case Err(e) => t' == t && failure == if e == NotFound && ident.variant == "" then None else Some(e)
    case Ok(p) =>
      if ident.variant != "" then Deleted(t', failure) == DeleteVariantAt(t, p, ident.ActualVersion())
      else if p !in t then t' == t && failure == None
      else exists children ::
             && Listing(children, ChildrenOf(t, p))
             && Deleted(t', failure) == DeleteItemAt(t, p, ident.ActualVersion(), children)
  }

  // ---------------------------------------------------------------- List

  function Flatten(lists: seq<seq<string>>): seq<string> {
    if lists == [] then [] else lists[0] + Flatten(lists[1..])
  }

  /** `lists[i]` lists the children of the i-th bucket. */
  ghost predicate ListsOf(t: Tree, p: Path, buckets: seq<string>, lists: seq<seq<string>>) {
    && |lists| == |buckets|
    && forall i :: 0 <= i < |buckets| ==> Listing(lists[i], ChildrenOf(t, p + [buckets[i]]))
  }

  /** `names` is what reading each bucket under `p` in turn yields, for some order of listing. */
  ghost predicate NamesUnder(t: Tree, p: Path, names: seq<string>) {
    exists buckets, lists ::
      Listing(buckets, ChildrenOf(t, p)) && ListsOf(t, p, buckets, lists) && names == Flatten(lists)
  }

  /** Store.List, up to the category each location repeats. */
  ghost predicate ListResult(cfg: Config, t: Tree, category: string, r: Result<seq<string>>) {
    match ResolveCategory(cfg, category)
    case Err(e) => r == Err(e)
    case Ok(p) => if p in t then r.Ok? && NamesUnder(t, p, r.value) else r == Err(NotFound)
  }

  // ---------------------------------------------------------------- facts about filling

  lemma PrefixIn(target: Path, n: nat, q: Path)
    requires n <= |target|
    ensures q in Prefixes(target, n) <==> |q| <= n && q == target[..|q|]
  {
    if q in Prefixes(target, n) {
      var k :| 0 <= k <= n && q == target[..k];
      assert |q| == k;
    }
  }

  lemma FilledMembers(t: Tree, target: Path, hasVariant: bool, data: Bytes, n: nat, q: Path)
    requires n <= |target|
    ensures q in Filled(t, target, hasVariant, data, n) <==> q in t || (|q| <= n && q == target[..|q|])
  {
    PrefixIn(target, n, q);
  }

  /** Creating the next missing prefix carries the fill one step further. */
  lemma FillNext(t: Tree, target: Path, hasVariant: bool, data: Bytes, n: nat)
    requires WellFormed(t) && n < |target|
    ensures var filled, next := Filled(t, target, hasVariant, data, n), target[..n + 1];
            Filled(t, target, hasVariant, data, n + 1) ==
            if next in filled then filled
            else CreateNode(filled, next, DataAt(target, hasVariant, data, n + 1)).tree
    ensures target[..n] in Filled(t, target, hasVariant, data, n)
  {
    var filled, next := Filled(t, target, hasVariant, data, n), target[..n + 1];
    forall q ensures q in Prefixes(target, n + 1) <==> q in Prefixes(target, n) || q == next {
      PrefixIn(target, n, q);
      PrefixIn(target, n + 1, q);
    }
    PrefixIn(target, n, target[..n]);
    assert next[..n] == target[..n];
    assert Filled(t, target, hasVariant, data, n + 1).Keys == filled.Keys + {next};
  }

  lemma FillNone(t: Tree, target: Path, hasVariant: bool, data: Bytes)
    requires WellFormed(t)
    ensures Filled(t, target, hasVariant, data, 0) == t
  {
    forall q ensures q in Prefixes(target, 0) <==> q == [] { PrefixIn(target, 0, q); }
    assert Filled(t, target, hasVariant, data, 0).Keys == t.Keys;
  }

  lemma {:induction false} FilledKeepsForm(t: Tree, target: Path, hasVariant: bool, data: Bytes, n: nat)
    requires WellFormed(t) && Proper(target) && n <= |target|
    ensures WellFormed(Filled(t, target, hasVariant, data, n))
  {
    if n == 0 {
      FillNone(t, target, hasVariant, data);
    } else {
      FilledKeepsForm(t, target, hasVariant, data, n - 1);
      FillNext(t, target, hasVariant, data, n - 1);
      CreateKeepsForm(Filled(t, target, hasVariant, data, n - 1), target[..n], DataAt(target, hasVariant, data, n));
    }
  }
}
