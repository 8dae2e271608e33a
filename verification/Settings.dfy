/** A store's configuration and the options that change it (options.go and NewStore). */
module Settings {
  import opened Types
  import opened Paths
  import opened Idents
  import opened Hashing

  const DEFAULT_NUM_HASH_BUCKETS: int := 256
  const DEFAULT_BUCKETS_ZNODE_NAME: string := "buckets"

  /** A ZooKeeper access rule; the store only passes them on. */
  datatype ACL = ACL(perms: int, scheme: string, id: string)

  const DEFAULT_ACL: seq<ACL> := [ACL(31, "world", "anyone")]

  /**
   An option as its constructor returns it: absent, the one that always fails, or a change to
   one part of the configuration.
   */
  datatype StoreOpt =
    | NilOpt
    | OptError
    | BasePath(path: string)
    | NumHashBuckets(count: int)
    | Acl(acl: seq<ACL>)
    | Hasher(f: HashFunc)
    | BucketsZnodeName(name: string)

  function OptBasePath(basePath: string): (opt: StoreOpt)
    ensures Legal(opt)
  {
    if basePath == "" then NilOpt
    else if !Rooted(basePath) then OptError
    else if Clean(basePath) != basePath then OptError
    else BasePath(basePath)
  }

  function OptNumHashBuckets(count: int): (opt: StoreOpt)
    ensures Legal(opt)
  {
    if count == 0 then NilOpt else if count < 0 then OptError else NumHashBuckets(count)
  }

  function OptACL(acl: seq<ACL>): (opt: StoreOpt)
    ensures Legal(opt)
  {
    if acl == [] then NilOpt else Acl(acl)
  }

  function OptHashProviderFunc(f: Option<HashFunc>): (opt: StoreOpt)
    ensures Legal(opt)
  {
    match f case None => NilOpt case Some(hasher) => Hasher(hasher)
  }

  function OptBucketsZnodeName(name: string): (opt: StoreOpt)
    ensures Legal(opt)
  {
    if ValidateNamed(name, true).Some? then OptError else BucketsZnodeName(name)
  }

  /** The base paths that are not refused are exactly those that parse as a path. */
  lemma BasePathIff(basePath: string)
    requires basePath != ""
    ensures OptBasePath(basePath) == if Parse(basePath).Some? then BasePath(basePath) else OptError
  {
    if Parse(basePath).Some? {
      var path := Parse(basePath).value;
      RenderParse(basePath);
      RenderIsRooted(path);
      SegmentsOfRender(path);
      ReduceDotFree([], Split(basePath), true);
      assert [] + NonEmpty(Split(basePath)) == path;
    } else if OptBasePath(basePath) != OptError {
      CleanRooted(basePath);
      ParseRender(Segments(basePath));
    }
  }

  /** What every option built by the functions above satisfies. */
  predicate Legal(opt: StoreOpt) {
    match opt
    case BasePath(p) => Rooted(p) && Clean(p) == p
    case NumHashBuckets(n) => n > 0
    case BucketsZnodeName(name) => ValidateNamed(name, true).None?
    case _ => true
  }

  /** The configurable fields of a Store; `bucketOf` caches what `buckets` and `hasher` determine. */
  datatype Fields = Fields(
    basePath: string,
    bucketsName: string,
    acls: seq<ACL>,
    buckets: int,
    hasher: HashFunc,
    bucketOf: string -> Result<int>
  )

  function Defaults(hasher: HashFunc): Fields {
    Fields("", DEFAULT_BUCKETS_ZNODE_NAME, DEFAULT_ACL, DEFAULT_NUM_HASH_BUCKETS, hasher,
           BucketFunc(DEFAULT_NUM_HASH_BUCKETS, hasher))
  }

  /** A store without options keeps 256 buckets below a znode "buckets", at the root, open to everybody. */
  lemma DefaultsAre(hasher: HashFunc, name: string)
    ensures var fields := Defaults(hasher);
            && fields.basePath == "" && fields.bucketsName == "buckets" && fields.buckets == 256
            && fields.acls == [ACL(0x1F, "world", "anyone")]
            && fields.bucketOf(name) == match hasher(name) case Err(e) => Err(e) case Ok(hash) => Ok(hash % 256)
  {
  }

  function Applied(fields: Fields, opt: StoreOpt): Result<Fields>
    requires fields.buckets > 0 && Legal(opt)
  {
    match opt
    case NilOpt => Ok(fields)
    case OptError => Err(IllegalOption)
    case BasePath(p) => Ok(fields.(basePath := p))
    case NumHashBuckets(n) => Ok(fields.(buckets := n, bucketOf := BucketFunc(n, fields.hasher)))
    case Acl(acl) => Ok(fields.(acls := acl))
    case Hasher(f) => Ok(fields.(hasher := f, bucketOf := BucketFunc(fields.buckets, f)))
    case BucketsZnodeName(name) => Ok(fields.(bucketsName := name))
  }

  ghost predicate AllLegal(opts: seq<StoreOpt>) {
    forall opt :: opt in opts ==> Legal(opt)
  }

  /** Options take effect left to right, stopping at the first failure. */
  function AppliedAll(fields: Fields, opts: seq<StoreOpt>): (r: Result<Fields>)
    requires fields.buckets > 0 && AllLegal(opts)
    decreases |opts|
  {
    if opts == [] then Ok(fields)
    else
      match Applied(fields, opts[0])
      case Err(e) => Err(e)
      case Ok(next) => AppliedAll(next, opts[1..])
  }

  ghost predicate Coherent(fields: Fields) {
    fields.buckets > 0 && fields.bucketOf == BucketFunc(fields.buckets, fields.hasher)
  }

  // ---------------------------------------------------------------- the last one that gives a value

  /** What the last member that gives a value gives, or else `or`. */
  function LastOf<A, T>(xs: seq<A>, give: A -> Option<T>, or: T): T {
    if xs == [] then or
    else match give(xs[|xs| - 1])
         case Some(v) => v
         case None => LastOf(xs[..|xs| - 1], give, or)
  }

  lemma {:induction false} LastOfCons<A, T>(x: A, rest: seq<A>, give: A -> Option<T>, or: T)
    ensures LastOf([x] + rest, give, or) == LastOf(rest, give, match give(x) case Some(v) => v case None => or)
    decreases |rest|
  {
    var xs := [x] + rest;
    if rest == [] {
      assert xs[..|xs| - 1] == [];
    } else {
      assert xs[..|xs| - 1] == [x] + rest[..|rest| - 1];
      LastOfCons(x, rest[..|rest| - 1], give, or);
    }
  }

  lemma {:induction false} LastOfSwap<A, T>(before: seq<A>, a: A, b: A, after: seq<A>, give: A -> Option<T>, or: T)
    requires give(a).None? || give(b).None?
    ensures LastOf(before + [a, b] + after, give, or) == LastOf(before + [b, a] + after, give, or)
    decreases |after|
  {
    var p, q := before + [a, b] + after, before + [b, a] + after;
    if after == [] {
      assert p[..|p| - 1] == before + [a] && q[..|q| - 1] == before + [b];
      assert (before + [a])[..|before|] == before && (before + [b])[..|before|] == before;
    } else {
      var init := after[..|after| - 1];
      assert p[..|p| - 1] == before + [a, b] + init && q[..|q| - 1] == before + [b, a] + init;
      LastOfSwap(before, a, b, init, give, or);
    }
  }

  lemma {:induction false} LastOfSame<A, B, T>(xs: seq<A>, give: A -> Option<T>,
                                               ys: seq<B>, give': B -> Option<T>, or: T)
    requires |xs| == |ys| && forall i :: 0 <= i < |xs| ==> give(xs[i]) == give'(ys[i])
    ensures LastOf(xs, give, or) == LastOf(ys, give', or)
    decreases |xs|
  {
    if xs != [] {
      LastOfSame(xs[..|xs| - 1], give, ys[..|ys| - 1], give', or);
    }
  }

  // ---------------------------------------------------------------- the last option of a kind wins

  function PathGiven(opt: StoreOpt): Option<string> {
    if opt.BasePath? then Some(opt.path) else None
  }

  function NameGiven(opt: StoreOpt): Option<string> {
    if opt.BucketsZnodeName? then Some(opt.name) else None
  }

  function AclGiven(opt: StoreOpt): Option<seq<ACL>> {
    if opt.Acl? then Some(opt.acl) else None
  }

  function CountGiven(opt: StoreOpt): Option<int> {
    if opt.NumHashBuckets? then Some(opt.count) else None
  }

  function HasherGiven(opt: StoreOpt): Option<HashFunc> {
    if opt.Hasher? then Some(opt.f) else None
  }

  /** The configuration with these parts and the bucket function they determine. */
  function Configuration(path: string, name: string, acls: seq<ACL>, count: int, hasher: HashFunc): Fields
    requires count > 0
  {
    Fields(path, name, acls, count, hasher, BucketFunc(count, hasher))
  }

  /**
   Any list of options either fails, exactly when it holds an illegal one, or leaves the store
   with the last base path, name, rules, count and hasher given, and the bucket function they determine.
   */
  lemma {:induction false} LastOptionWins(fields: Fields, opts: seq<StoreOpt>)
    requires Coherent(fields) && AllLegal(opts)
    ensures LastOf(opts, CountGiven, fields.buckets) > 0
    ensures OptError in opts ==> AppliedAll(fields, opts) == Err(IllegalOption)
    ensures OptError !in opts ==>
              AppliedAll(fields, opts) ==
              Ok(Configuration(LastOf(opts, PathGiven, fields.basePath), LastOf(opts, NameGiven, fields.bucketsName),
                               LastOf(opts, AclGiven, fields.acls), LastOf(opts, CountGiven, fields.buckets),
                               LastOf(opts, HasherGiven, fields.hasher)))
    decreases |opts|
  {
    CountPositive(opts, fields.buckets);
    if opts != [] {
      var first, rest := opts[0], opts[1..];
      assert opts == [first] + rest;
      if Applied(fields, first).Ok? {
        LastOfCons(first, rest, PathGiven, fields.basePath);
        LastOfCons(first, rest, NameGiven, fields.bucketsName);
        LastOfCons(first, rest, AclGiven, fields.acls);
        LastOfCons(first, rest, CountGiven, fields.buckets);
        LastOfCons(first, rest, HasherGiven, fields.hasher);
        LastOptionWins(Applied(fields, first).value, rest);
        assert OptError in opts <==> OptError in rest;
      } else {
        assert first == OptError;
      }
    }
  }

  lemma {:induction false} CountPositive(opts: seq<StoreOpt>, or: int)
    requires AllLegal(opts) && or > 0
    ensures LastOf(opts, CountGiven, or) > 0
  {
    if opts != [] {
      assert Legal(opts[|opts| - 1]);
      CountPositive(opts[..|opts| - 1], or);
    }
  }

  /** Options of different kinds commute, wherever they stand in the list. */
  lemma OptionsCommute(fields: Fields, before: seq<StoreOpt>, a: StoreOpt, b: StoreOpt, after: seq<StoreOpt>)
    requires Coherent(fields) && AllLegal(before + [a, b] + after)
    requires !(a.BasePath? && b.BasePath?) && !(a.NumHashBuckets? && b.NumHashBuckets?) && !(a.Acl? && b.Acl?)
    requires !(a.Hasher? && b.Hasher?) && !(a.BucketsZnodeName? && b.BucketsZnodeName?)
    ensures AllLegal(before + [b, a] + after)
    ensures AppliedAll(fields, before + [a, b] + after) == AppliedAll(fields, before + [b, a] + after)
  {
    var p, q := before + [a, b] + after, before + [b, a] + after;
    assert forall opt :: opt in p <==> opt in q;
    LastOptionWins(fields, p);
    LastOptionWins(fields, q);
    LastOfSwap(before, a, b, after, PathGiven, fields.basePath);
    LastOfSwap(before, a, b, after, NameGiven, fields.bucketsName);
    LastOfSwap(before, a, b, after, AclGiven, fields.acls);
    LastOfSwap(before, a, b, after, CountGiven, fields.buckets);
    LastOfSwap(before, a, b, after, HasherGiven, fields.hasher);
  }

  // ---------------------------------------------------------------- the arguments of the constructors

  /** A call of one of the exported constructors, or no option at all. */
  datatype Call =
    | Nil
    | WithBasePath(path: string)
    | WithNumHashBuckets(count: int)
    | WithACL(acl: seq<ACL>)
    | WithHashProvider(f: Option<HashFunc>)
    | WithBucketsZnodeName(name: string)

  function Built(call: Call): (opt: StoreOpt)
    ensures Legal(opt)
  {
    match call
    case Nil => NilOpt
    case WithBasePath(path) => OptBasePath(path)
    case WithNumHashBuckets(count) => OptNumHashBuckets(count)
    case WithACL(acl) => OptACL(acl)
    case WithHashProvider(f) => OptHashProviderFunc(f)
    case WithBucketsZnodeName(name) => OptBucketsZnodeName(name)
  }

  function BuiltAll(calls: seq<Call>): (opts: seq<StoreOpt>)
    ensures |opts| == |calls| && AllLegal(opts)
    ensures forall i :: 0 <= i < |calls| ==> opts[i] == Built(calls[i])
  {
    seq(|calls|, i requires 0 <= i < |calls| => Built(calls[i]))
  }

  /** A base path that does not parse, a negative count, or a name that is blank or has other characters. */
  ghost predicate Illegal(call: Call) {
    match call
    case WithBasePath(path) => path != "" && Parse(path).None?
    case WithNumHashBuckets(count) => count < 0
    case WithBucketsZnodeName(name) => name == "" || exists c :: c in name && !NameChar(c)
    case _ => false
  }

  function PathAsked(call: Call): Option<string> {
    if call.WithBasePath? && call.path != "" then Some(call.path) else None
  }

  function NameAsked(call: Call): Option<string> {
    if call.WithBucketsZnodeName? then Some(call.name) else None
  }

  function AclAsked(call: Call): Option<seq<ACL>> {
    if call.WithACL? && call.acl != [] then Some(call.acl) else None
  }

  function CountAsked(call: Call): Option<int> {
    if call.WithNumHashBuckets? && call.count != 0 then Some(call.count) else None
  }

  function HasherAsked(call: Call): Option<HashFunc> {
    if call.WithHashProvider? then call.f else None
  }

  lemma BuiltIff(call: Call)
    ensures Built(call) == OptError <==> Illegal(call)
    ensures !Illegal(call) ==>
              var opt := Built(call);
              && PathGiven(opt) == PathAsked(call) && NameGiven(opt) == NameAsked(call)
              && AclGiven(opt) == AclAsked(call) && CountGiven(opt) == CountAsked(call)
              && HasherGiven(opt) == HasherAsked(call)
  {
    match call
    case WithBasePath(path) =>
      if path != "" {
        BasePathIff(path);
      }
    case WithBucketsZnodeName(name) => ValidNameIff(name, true);
    case _ =>
  }

  /**
   What the arguments of any list of constructor calls make of a new store: it is refused exactly when
   one of them is illegal, and otherwise has the last non-empty base path, the last name, the last
   non-empty rules, the last count that is not zero and the last hasher that is not nil.
   */
  lemma ArgumentsDecide(hasher: HashFunc, calls: seq<Call>)
    ensures (exists i :: 0 <= i < |calls| && Illegal(calls[i])) ==>
              AppliedAll(Defaults(hasher), BuiltAll(calls)) == Err(IllegalOption)
    ensures (forall i :: 0 <= i < |calls| ==> !Illegal(calls[i])) ==>
              && LastOf(calls, CountAsked, DEFAULT_NUM_HASH_BUCKETS) > 0
              && AppliedAll(Defaults(hasher), BuiltAll(calls)) ==
                 Ok(Configuration(LastOf(calls, PathAsked, ""), LastOf(calls, NameAsked, DEFAULT_BUCKETS_ZNODE_NAME),
                                  LastOf(calls, AclAsked, DEFAULT_ACL),
                                  LastOf(calls, CountAsked, DEFAULT_NUM_HASH_BUCKETS),
                                  LastOf(calls, HasherAsked, hasher)))
  {
    var fields, opts := Defaults(hasher), BuiltAll(calls);
    LastOptionWins(fields, opts);
    forall i | 0 <= i < |calls| ensures opts[i] == OptError <==> Illegal(calls[i]) {
      BuiltIff(calls[i]);
    }
    if forall i :: 0 <= i < |calls| ==> !Illegal(calls[i]) {
      forall i | 0 <= i < |calls|
        ensures PathGiven(opts[i]) == PathAsked(calls[i]) && NameGiven(opts[i]) == NameAsked(calls[i])
        ensures AclGiven(opts[i]) == AclAsked(calls[i]) && CountGiven(opts[i]) == CountAsked(calls[i])
        ensures HasherGiven(opts[i]) == HasherAsked(calls[i])
      {
        BuiltIff(calls[i]);
      }
      LastOfSame(opts, PathGiven, calls, PathAsked, fields.basePath);
      LastOfSame(opts, NameGiven, calls, NameAsked, fields.bucketsName);
      LastOfSame(opts, AclGiven, calls, AclAsked, fields.acls);
      LastOfSame(opts, CountGiven, calls, CountAsked, fields.buckets);
      LastOfSame(opts, HasherGiven, calls, HasherAsked, fields.hasher);
    }
  }
}
