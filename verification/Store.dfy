/** The store itself: store.go over one ZooKeeper connection that no other client uses. */
module Stores {
  import opened Types
  import opened Paths
  import opened Idents
  import opened Hashing
  import opened Settings
  import opened ZkTree
  import opened StorePaths
  import opened StoreSpec

  /** The i-th location is the i-th name in the category. */
  ghost predicate Locates(locations: seq<Location>, category: string, names: seq<string>) {
    && |locations| == |names|
    && forall i :: 0 <= i < |names| ==> locations[i].category == category && locations[i].name == names[i]
  }

  function Located(category: string, names: seq<string>): seq<Location> {
    seq(|names|, i requires 0 <= i < |names| => Location(category, names[i]))
  }

  class Store {
    const conn: Conn
    var basePath: string
    var bucketsZnodeName: string
    var acls: seq<ACL>
    var hashBuckets: int
    var hashProviderFunc: HashFunc
    var bucketFunc: string -> Result<int>

    function Current(): Fields
      reads this
    {
      Fields(basePath, bucketsZnodeName, acls, hashBuckets, hashProviderFunc, bucketFunc)
    }

    function Cfg(): Config
      reads this
    {
      Config(basePath, bucketsZnodeName, bucketFunc)
    }

    /** The configuration is one the options allow, and the bucket function matches its ingredients. */
    ghost predicate Configured()
      reads this
    {
      Coherent(Current()) && ValidConfig(Cfg())
    }

    ghost predicate Valid()
      reads this, conn
    {
      Configured() && WellFormed(conn.tree)
    }

    constructor (conn: Conn, defaultHasher: HashFunc)
      ensures this.conn == conn && Current() == Defaults(defaultHasher) && Configured()
    {
      this.conn := conn;
      basePath := "";
      bucketsZnodeName := DEFAULT_BUCKETS_ZNODE_NAME;
      acls := DEFAULT_ACL;
      hashBuckets := DEFAULT_NUM_HASH_BUCKETS;
      hashProviderFunc := defaultHasher;
      bucketFunc := BucketFunc(DEFAULT_NUM_HASH_BUCKETS, defaultHasher);
    }

    method Apply(opt: StoreOpt) returns (failure: Option<Error>)
      requires Configured() && Legal(opt)
      modifies this
      ensures Configured()
      ensures match Applied(old(Current()), opt)
              case Err(e) => failure == Some(e) && Current() == old(Current())
              case Ok(fields) => failure == None && Current() == fields
    {
      failure := None;
      match opt
      case NilOpt =>
      case OptError => failure := Some(IllegalOption);
      case BasePath(path) => basePath := path;
      case NumHashBuckets(count) =>
        hashBuckets := count;
        bucketFunc := BucketFunc(count, hashProviderFunc);
      case Acl(acl) => acls := acl;
      case Hasher(f) =>
        hashProviderFunc := f;
        bucketFunc := BucketFunc(hashBuckets, f);
      case BucketsZnodeName(name) => bucketsZnodeName := name;
    }

    /**
     NewStore: the connection the connector made, if it made one, defaults, then the options in
     order; the store is withheld if one fails.
     */
    static method NewStore(connected: Result<Conn>, defaultHasher: HashFunc, opts: seq<StoreOpt>)
      returns (r: Result<Store>)
      requires AllLegal(opts)
      ensures connected.Err? ==> r == Err(connected.error)
      ensures connected.Ok? ==>
                match AppliedAll(Defaults(defaultHasher), opts)
                case Err(e) => r == Err(e)
                case Ok(fields) =>
                  && r.Ok? && fresh(r.value) && r.value.conn == connected.value
                  && r.value.Current() == fields && r.value.Configured()
    {
      if connected.Err? {
        return Err(connected.error);
      }
      var conn := connected.value;
      var store := new Store(conn, defaultHasher);
      var i := 0;
      while i < |opts|
        invariant 0 <= i <= |opts| && store.Configured()
        invariant AppliedAll(store.Current(), opts[i..]) == AppliedAll(Defaults(defaultHasher), opts)
      {
        assert opts[i] in opts && opts[i..][1..] == opts[i + 1..];
        var failure := store.Apply(opts[i]);
        if failure.Some? {
          return Err(failure.value);
        }
        i := i + 1;
      }
      return Ok(store);
    }

    method MustExist(path: string) returns (r: Result<int>)
      ensures match Parse(path)
              case None => r == Err(Zk(BadPath))
              case Some(p) => r == if p in conn.tree then Ok(conn.tree[p].version) else Err(NotCreated)
    {
      var exists' := conn.Exists(path);
      match exists'
      case Err(e) => return Err(e);
      case Ok(None) => return Err(NotCreated);
      case Ok(Some(version)) => return Ok(version);
    }

    /** identPath on a valid identifier: the string ZooKeeper reads as the path Resolve gives. */
    method PathOf(ident: Ident) returns (r: Result<string>)
      requires Configured() && ValidateIdent(ident).None?
      ensures match Resolve(Cfg(), ident)
              case Err(e) => r == Err(e)
              case Ok(p) => r == Ok(Render(p)) && Proper(p) && Parse(Render(p)) == Some(p)
    {
      r := IdentPath(Cfg(), ident);
      IdentPathAgrees(Cfg(), ident);
      if r.Ok? {
        ParseRender(Resolve(Cfg(), ident).value);
      }
    }

    /** The loop of setFully: creates the missing nodes down to `identPath`, one segment at a time. */
    method Fill(identPath: string, ghost p: Path, hasVariant: bool, data: Bytes, version: int) returns (r: Result<int>)
      requires WellFormed(conn.tree) && Proper(p) && p != []
      requires identPath == Render(p) && Parse(identPath) == Some(p)
      modifies conn
      ensures WellFormed(conn.tree)
      ensures Written(conn.tree, r) == FillOutcome(old(conn.tree), p, hasVariant, data, version)
    {
      hide Filled;
      hide WellFormed;
      hide Proper;
      hide Render;
      hide Split;
      hide Parse;
      ghost var t := conn.tree;
      SplitRender(p);
      FillNone(t, p, hasVariant, data);
      var current, segments, i := "/", Split(identPath), 0;
      while i < |segments|
        invariant 0 <= i <= |segments| && segments == [""] + p
        invariant current == (if i == 0 then "/" else Render(p[..i - 1]))
        invariant conn.tree == Filled(t, p, hasVariant, data, if i == 0 then 0 else i - 1)
        invariant WellFormed(conn.tree)
        invariant i == |segments| && version >= 0 ==> p in t
      {
        current := Descend(current, segments[i], p, i);
        var isLast := i == |segments| - 1;
        var isParent := hasVariant && i == |segments| - 2;
        var refused := FillOne(current, p, i, t, hasVariant, data, isLast, isParent, version);
        if refused.Some? {
          return Err(refused.value);
        }
        i := i + 1;
      }
      assert p[..|p|] == p;
      FilledMembers(t, p, hasVariant, data, |p|, p);
      r := MustExist(identPath);
    }

    /** One turn of setFully's loop: nothing if the node exists, else create it or refuse. */
    method FillOne(current: string, ghost p: Path, ghost i: nat, ghost t: Tree, hasVariant: bool, data: Bytes,
                   isLast: bool, isParent: bool, version: int)
      returns (refused: Option<Error>)
      requires WellFormed(t) && WellFormed(conn.tree) && Proper(p) && i <= |p|
      requires Parse(current) == Some(p[..i])
      requires conn.tree == Filled(t, p, hasVariant, data, if i == 0 then 0 else i - 1)
      requires isLast == (i == |p|) && isParent == (hasVariant && i == |p| - 1)
      modifies conn
      ensures WellFormed(conn.tree)
      ensures refused == if isLast && version >= 0 && p !in t then Some(VersionConflict) else None
      ensures conn.tree == if refused.Some? then old(conn.tree) else Filled(t, p, hasVariant, data, i)
    {
      if i > 0 {
        FillNext(t, p, hasVariant, data, i - 1);
        FilledMembers(t, p, hasVariant, data, i - 1, p[..i]);
        assert isLast ==> p[..i] == p;
      } else {
        assert p[..0] == [];
        assert isLast ==> p == [];
      }
      var present := conn.Exists(current);
      if present.Ok? && present.value.Some? {
        return None;
      }
      if isLast && version >= 0 {
        return Some(VersionConflict);
      }
      var nodeData: Bytes := [];
      if isLast || isParent {
        nodeData := data;
      }
      CreateKeepsForm(conn.tree, p[..i], nodeData);
      var failure := conn.Create(current, nodeData);
      match failure
      case None => return None;
      case Some(NodeExists) => return None;
      case Some(other) => return Some(Zk(other));
    }

    method SetFully(item: Item) returns (r: Result<int>)
      requires Valid() && ValidateIdent(item.ident).None?
      modifies conn
      ensures Valid()
      ensures match Resolve(Cfg(), item.ident)
              case Err(e) => r == Err(e) && conn.tree == old(conn.tree)
              case Ok(p) =>
                && p != []
                && Written(conn.tree, r)
                   == FillOutcome(old(conn.tree), p, item.ident.variant != "", item.data, item.ident.ActualVersion())
    {
      var identPath := PathOf(item.ident);
      if identPath.Err? {
        return Err(identPath.error);
      }
      ResolvedIsProper(Cfg(), item.ident);
      r := Fill(identPath.value, Resolve(Cfg(), item.ident).value, item.ident.variant != "", item.data,
                item.ident.ActualVersion());
    }

    /** Put once the item has passed validation and its path is known. */
    method Write(item: Item, identPath: string, ghost p: Path) returns (r: Result<int>)
      requires Valid() && ValidateIdent(item.ident).None? && Resolve(Cfg(), item.ident) == Ok(p)
      requires p != [] && Parse(identPath) == Some(p)
      modifies conn
      ensures Valid()
      ensures Written(conn.tree, r) == PutAt(old(conn.tree), p, item.ident, item.data)
    {
      hide Resolve;
      hide WellFormed;
      hide ValidConfig;
      hide Filled;
      if item.ident.CreatingNew() {
        var present := conn.Exists(identPath);
        if present.Ok? && present.value.Some? {
          return Err(VersionConflict);
        }
        r := SetFully(item);
      } else {
        SetKeepsForm(conn.tree, p, item.data, item.ident.ActualVersion());
        r := conn.Set(identPath, item.data, item.ident.ActualVersion());
        if r == Err(Zk(NoNode)) {
          r := SetFully(item);
        } else if r == Err(Zk(BadVersion)) {
          r := Err(VersionConflict);
        }
      }
    }

    method Put(item: Item) returns (r: Result<Ident>)
      requires Valid()
      modifies conn
      ensures Valid()
      ensures (conn.tree, r) == PutStep(Cfg(), old(conn.tree), item)
    {
      var invalid := ValidateItem(item);
      if invalid.Some? {
        return Err(invalid.value);
      }
      var identPath := PathOf(item.ident);
      if identPath.Err? {
        return Err(identPath.error);
      }
      var stored := Write(item, identPath.value, Resolve(Cfg(), item.ident).value);
      match stored
      case Err(e) => return Err(e);
      case Ok(version) => return Ok(item.ident.(version := At(version)));
    }

    method Get(ident: Ident) returns (r: Result<Item>)
      requires Valid()
      ensures r == GetResult(Cfg(), conn.tree, ident)
    {
      var invalid := ValidateIdent(ident);
      if invalid.Some? {
        return Err(invalid.value);
      }
      var identPath := PathOf(ident);
      if identPath.Err? {
        return Err(identPath.error);
      }
      var node := conn.Get(identPath.value);
      match node
      case Err(Zk(NoNode)) => return Err(NotFound);
      case Err(e) => return Err(e);
      case Ok(n) => return Ok(Item(ident.(version := At(n.version)), n.data));
    }

    method Variants(category: string, name: string) returns (r: Result<seq<string>>)
      requires Valid()
      ensures VariantsResult(Cfg(), conn.tree, category, name, r)
    {
      var invalid := ValidateLocation(category, name);
      if invalid.Some? {
        return Err(invalid.value);
      }
      var ident := ItemIdent(category, name);
      var identPath := PathOf(ident);
      if identPath.Err? {
        return Err(identPath.error);
      }
      var children := conn.Children(identPath.value);
      return if children == Err(Zk(NoNode)) then Err(NotFound) else children;
    }

    /** Deletes one node and reports the outcome as the store does. */
    method DeleteAt(path: string, ghost p: Path, version: int) returns (failure: Option<Error>)
      requires WellFormed(conn.tree) && Parse(path) == Some(p)
      modifies conn
      ensures WellFormed(conn.tree)
      ensures Deleted(conn.tree, failure) == DeleteVariantAt(old(conn.tree), p, version)
    {
      DeleteKeepsForm(conn.tree, p, version);
      var d := conn.Delete(path, version);
      match d
      case None => return None;
      case Some(NoNode) => return None;
      case Some(BadVersion) => return Some(VersionConflict);
      case Some(other) => return Some(Zk(other));
    }

    /** deleteVariant, on a child listed by ZooKeeper: it need not pass the store's own validation. */
    method DeleteVariant(ident: Ident, ghost p: Path) returns (failure: Option<Error>)
      requires Valid() && Good(ident.variant) && Resolve(Cfg(), ItemIdent(ident.category, ident.name)) == Ok(p)
      modifies conn
      ensures Valid()
      ensures Deleted(conn.tree, failure)
           == DeleteVariantAt(old(conn.tree), p + [ident.variant], ident.ActualVersion())
    {
      SameItem(Cfg(), ident.(variant := ""));
      VariantPathAgrees(Cfg(), ident);
      var identPath := IdentPath(Cfg(), ident);
      ParseRender(p + [ident.variant]);
      failure := DeleteAt(identPath.value, p + [ident.variant], ident.ActualVersion());
    }

    /** The loop of deleteItem over the listed variants. */
    method DeleteVariants(ident: Ident, ghost p: Path, variants: seq<string>) returns (failure: Option<Error>)
      requires Valid() && Resolve(Cfg(), ItemIdent(ident.category, ident.name)) == Ok(p)
      requires forall v :: v in variants ==> Good(v)
      modifies conn
      ensures Valid()
      ensures var e := DeleteListed(old(conn.tree), p, variants);
              conn.tree == e.tree && failure == Reported(e.failure) && e.failure != Some(NoNode)
    {
      hide WellFormed;
      hide Resolve;
      hide ValidConfig;
      ghost var e := DeleteListed(conn.tree, p, variants);
      var rest := variants;
      while rest != []
        invariant Valid() && (forall v :: v in rest ==> Good(v))
        invariant DeleteListed(conn.tree, p, rest) == e
      {
        ghost var d := DeleteNode(conn.tree, p + [rest[0]], -1);
        failure := DeleteVariant(ident.(variant := rest[0], version := Unset), p);
        if failure.Some? {
          assert e == d;
          return;
        }
        assert e == DeleteListed(d.tree, p, rest[1..]);
        rest := rest[1..];
      }
      failure := None;
    }

    method DeleteItem(ident: Ident) returns (failure: Option<Error>)
      requires Valid() && ident.variant == "" && ValidateIdent(ident).None?
      modifies conn
      ensures Valid()
      ensures DeleteStep(Cfg(), old(conn.tree), ident, conn.tree, failure)
    {
      hide WellFormed;
      hide ValidConfig;
      hide ChildrenOf;
      hide Resolve;
      hide ValidateIdent;
      SameItem(Cfg(), ident);
      var listed := Variants(ident.category, ident.name);
      if listed == Err(NotFound) {
        return None;
      }
      if listed.Err? {
        return Some(listed.error);
      }
      ghost var p, t := Resolve(Cfg(), ident).value, conn.tree;
      ChildrenAreGood(conn.tree, p);
      failure := DeleteVariants(ident, p, listed.value);
      if failure.Some? {
        return;
      }
      var identPath := PathOf(ident);
      failure := DeleteAt(identPath.value, p, ident.ActualVersion());
      assert Deleted(conn.tree, failure) == DeleteItemAt(t, p, ident.ActualVersion(), listed.value);
    }

    method Delete(ident: Ident) returns (failure: Option<Error>)
      requires Valid()
      modifies conn
      ensures Valid()
      ensures DeleteStep(Cfg(), old(conn.tree), ident, conn.tree, failure)
    {
      failure := ValidateIdent(ident);
      if failure.Some? {
        return;
      }
      if ident.variant != "" {
        var identPath := PathOf(ident);
        if identPath.Err? {
          return Some(identPath.error);
        }
        failure := DeleteAt(identPath.value, Resolve(Cfg(), ident).value, ident.ActualVersion());
      } else {
        failure := DeleteItem(ident);
      }
    }

    /** bucketsPath on a valid category. */
    method BucketsOf(category: string) returns (r: Result<string>)
      requires Configured() && ValidateCategory(category).None?
      ensures match ResolveCategory(Cfg(), category)
              case Err(e) => r == Err(e)
              case Ok(p) => r == Ok(Render(p)) && Proper(p) && Parse(Render(p)) == Some(p)
    {
      r := BucketsPath(Cfg(), category);
      BucketsPathAgrees(Cfg(), category);
      if r.Ok? {
        ParseRender(ResolveCategory(Cfg(), category).value);
      }
    }

    method List(category: string) returns (r: Result<seq<Location>>)
      requires Valid()
      ensures match r
              case Err(e) => ListResult(Cfg(), conn.tree, category, Err(e))
              case Ok(locations) =>
                exists names :: ListResult(Cfg(), conn.tree, category, Ok(names)) && Locates(locations, category, names)
    {
      var invalid := ValidateCategory(category);
      if invalid.Some? {
        return Err(invalid.value);
      }
      var bucketsPath := BucketsOf(category);
      if bucketsPath.Err? {
        return Err(bucketsPath.error);
      }
      ghost var p := ResolveCategory(Cfg(), category).value;
      var buckets := conn.Children(bucketsPath.value);
      match buckets
      case Err(Zk(NoNode)) => return Err(NotFound);
      case Err(e) => return Err(e);
      case Ok(names) =>
        ghost var found;
        var locations: seq<Location>;
        locations, found := ReadBuckets(category, bucketsPath.value, p, names);
        LocatedIs(category, found);
        hide Locates;
        assert ListResult(Cfg(), conn.tree, category, Ok(found));
        return Ok(locations);
    }

    /** The outer loop of List: the children of each bucket in turn. */
    method ReadBuckets(category: string, bucketsPath: string, ghost p: Path, buckets: seq<string>)
      returns (locations: seq<Location>, ghost names: seq<string>)
      requires WellFormed(conn.tree) && p in conn.tree && bucketsPath == Render(p)
      requires Listing(buckets, ChildrenOf(conn.tree, p))
      ensures NamesUnder(conn.tree, p, names) && locations == Located(category, names)
    {
      ghost var lists: seq<seq<string>> := [];
      locations, names := [], [];
      for i := 0 to |buckets|
        invariant names == Flatten(lists) && ListsOf(conn.tree, p, buckets[..i], lists)
        invariant locations == Located(category, names)
      {
        assert buckets[i] in ChildrenOf(conn.tree, p);
        var leaves, found := ReadBucket(category, bucketsPath, p, buckets[i]);
        ListsSnoc(conn.tree, p, buckets, i, lists, found);
        LocatedAppend(category, names, found);
        locations, lists, names := locations + leaves, lists + [found], names + found;
      }
      assert buckets[..|buckets|] == buckets;
    }

    method ReadBucket(category: string, bucketsPath: string, ghost p: Path, bucket: string)
      returns (locations: seq<Location>, ghost names: seq<string>)
      requires WellFormed(conn.tree) && p in conn.tree && bucketsPath == Render(p)
      requires bucket in ChildrenOf(conn.tree, p)
      ensures Listing(names, ChildrenOf(conn.tree, p + [bucket])) && locations == Located(category, names)
    {
      ChildrenAreGood(conn.tree, p);
      ChildIn(conn.tree, p, bucket);
      var bucketPath := ChildPath(bucketsPath, p, bucket);
      var children := conn.Children(bucketPath);
      match children
      case Err(_) => locations, names := [], []; // gone meanwhile: keep going
      case Ok(found) =>
        locations := Leaves(category, p + [bucket], found);
        names := found;
    }

    method ChildPath(path: string, ghost p: Path, child: string) returns (r: string)
      requires Proper(p) && Good(child) && path == Render(p)
      ensures Parse(r) == Some(p + [child])
    {
      JoinChild(p, child);
      ParseRender(p + [child]);
      r := PathJoin([path, child]);
    }

    /** The inner loop of List: each child of a bucket becomes a location. */
    method Leaves(category: string, ghost bucket: Path, children: seq<string>) returns (locations: seq<Location>)
      requires WellFormed(conn.tree) && Listing(children, ChildrenOf(conn.tree, bucket))
      ensures locations == Located(category, children)
    {
      locations := [];
      ChildrenAreGood(conn.tree, bucket);
      for i := 0 to |children|
        invariant locations == Located(category, children[..i])
      {
        assert children[i] in children;
        SegmentsOfGood(children[i]);
        var leaf := BaseName(children[i]);
        locations := locations + [Location(category, leaf)];
      }
      assert children[..|children|] == children;
    }
  }

  lemma LocatedIs(category: string, names: seq<string>)
    ensures Locates(Located(category, names), category, names)
  {
  }

  lemma LocatedAppend(category: string, a: seq<string>, b: seq<string>)
    ensures Located(category, a + b) == Located(category, a) + Located(category, b)
  {
  }

  lemma ListsSnoc(t: Tree, p: Path, buckets: seq<string>, i: nat, lists: seq<seq<string>>, found: seq<string>)
    requires i < |buckets| && ListsOf(t, p, buckets[..i], lists)
    requires Listing(found, ChildrenOf(t, p + [buckets[i]]))
    ensures ListsOf(t, p, buckets[..i + 1], lists + [found])
    ensures Flatten(lists + [found]) == Flatten(lists) + found
  {
    FlattenSnoc(lists, found);
    forall j | 0 <= j <= i ensures Listing((lists + [found])[j], ChildrenOf(t, p + [buckets[..i + 1][j]])) {
      if j < i {
        assert buckets[..i][j] == buckets[j];
      }
    }
  }

  lemma ChildrenAreGood(t: Tree, p: Path)
    requires WellFormed(t)
    ensures forall child :: child in ChildrenOf(t, p) ==> Good(child)
  {
    forall child | child in ChildrenOf(t, p) ensures Good(child) {
      ChildIn(t, p, child);
      assert (p + [child])[|p|] in p + [child];
    }
  }

  /** Looking an item up does not depend on the version asked for. */
  lemma SameItem(cfg: Config, ident: Ident)
    requires ident.variant == ""
    ensures Resolve(cfg, ItemIdent(ident.category, ident.name)) == Resolve(cfg, ident)
  {
    assert KeyOf(ItemIdent(ident.category, ident.name)) == KeyOf(ident);
  }

  lemma {:induction false} FlattenSnoc(lists: seq<seq<string>>, last: seq<string>)
    ensures Flatten(lists + [last]) == Flatten(lists) + last
  {
    if lists != [] {
      assert (lists + [last])[1..] == lists[1..] + [last];
      FlattenSnoc(lists[1..], last);
    }
  }
}
